/** base64url without padding (section 5 of RFC 4648), the way the identity code builds
    it: OpenSSL's block codec (section 4 of RFC 4648), then stripping the padding and
    swapping two letters of the alphabet. */
module Base64Url {
  import opened Text

  const MAXIMUM_ASSERTION_BYTES := 16 * 1024

  predicate IsBytes(s: string) { forall i :: 0 <= i < |s| ==> s[i] as int < 256 }

  predicate IsAlnum(c: char) { 'A' <= c <= 'Z' || 'a' <= c <= 'z' || '0' <= c <= '9' }

  /** The base64 alphabet and its inverse; '=' counts as zero, as in OpenSSL's table. */
  function Letter(n: nat): char
    requires n < 64
  {
    if n < 26 then ('A' as int + n) as char
    else if n < 52 then ('a' as int + n - 26) as char
    else if n < 62 then ('0' as int + n - 52) as char
    else if n == 62 then '+' else '/'
  }

  function Sextet(c: char): Option<nat> {
    if 'A' <= c <= 'Z' then Some(c as int - 'A' as int)
    else if 'a' <= c <= 'z' then Some(c as int - 'a' as int + 26)
    else if '0' <= c <= '9' then Some(c as int - '0' as int + 52)
    else if c == '+' then Some(62)
    else if c == '/' then Some(63)
    else if c == '=' then Some(0)
    else None
  }

  /** One block of four letters: three bytes, missing ones taken as zero and shown as padding. */
  function EncodeGroup(s: string): (g: string)
    requires 1 <= |s| <= 3 && IsBytes(s)
    ensures |g| == 4
  {
    var a := s[0] as int;
    var b := if |s| > 1 then s[1] as int else 0;
    var c := if |s| > 2 then s[2] as int else 0;
    [Letter(a / 4), Letter(a % 4 * 16 + b / 16),
     if |s| > 1 then Letter(b % 16 * 4 + c / 64) else '=',
     if |s| > 2 then Letter(c % 64) else '=']
  }

  /** EVP_EncodeBlock. */
  function EncodeBlock(s: string): string
    requires IsBytes(s)
  {
    if s == [] then []
    else if |s| <= 3 then EncodeGroup(s)
    else EncodeGroup(s[..3]) + EncodeBlock(s[3..])
  }

  function DecodeGroup(g: string): Option<string>
    requires |g| == 4
  {
    var w :- Sextet(g[0]);
    var x :- Sextet(g[1]);
    var y :- Sextet(g[2]);
    var z :- Sextet(g[3]);
    Some([(w * 4 + x / 16) as char, (x % 16 * 16 + y / 4) as char, (y % 4 * 64 + z) as char])
  }

  /** EVP_DecodeBlock: every group gives three bytes, padding included. */
  function DecodeBlock(t: string): Option<string>
    requires |t| % 4 == 0
  {
    if t == [] then Some([])
    else
      var head :- DecodeGroup(t[..4]);
      var rest :- DecodeBlock(t[4..]);
      Some(head + rest)
  }

  function StripPadding(t: string): string {
    if t != [] && t[|t| - 1] == '=' then StripPadding(t[..|t| - 1]) else t
  }

  function ToUrl(c: char): char { if c == '+' then '-' else if c == '/' then '_' else c }

  function FromUrl(c: char): char { if c == '-' then '+' else if c == '_' then '/' else c }

  function Translate(t: string, f: char -> char): (r: string)
    ensures |r| == |t| && forall i :: 0 <= i < |t| ==> r[i] == f(t[i])
  {
    if t == [] then [] else [f(t[0])] + Translate(t[1..], f)
  }

  function Encode(s: string): string
    requires IsBytes(s)
  {
    Translate(StripPadding(EncodeBlock(s)), ToUrl)
  }

  predicate Accepted(c: char) { IsAlnum(c) || c == '-' || c == '_' || c == '+' || c == '/' }

  function Pad(t: string): string
    decreases (4 - |t| % 4) % 4
  {
    if |t| % 4 == 0 then t else Pad(t + ['='])
  }

  /** How many of the last two characters are padding. */
  function PadCount(t: string): nat {
    (if |t| >= 1 && t[|t| - 1] == '=' then 1 else 0) + (if |t| >= 2 && t[|t| - 2] == '=' then 1 else 0)
  }

  function DecodePadded(t: string): Option<string>
    requires |t| % 4 == 0
  {
    var bytes :- DecodeBlock(t);
    if PadCount(t) <= |bytes| then Some(bytes[..|bytes| - PadCount(t)]) else None
  }

  function Decode(value: string): Option<string> {
    if value == [] || |value| > MAXIMUM_ASSERTION_BYTES || |value| % 4 == 1 then None
    else if exists i :: 0 <= i < |value| && !Accepted(value[i]) then None
    else DecodePadded(PadFour(Translate(value, FromUrl)))
  }

  function PadFour(t: string): (r: string)
    ensures |r| % 4 == 0
  {
    var r := Pad(t);
    PadLength(t);
    r
  }

  lemma {:induction false} PadLength(t: string)
    ensures |Pad(t)| % 4 == 0
    decreases (4 - |t| % 4) % 4
  {
    if |t| % 4 != 0 { PadLength(t + ['=']); }
  }

  // ---- Decoding what was encoded ----

  predicate IsLetter(c: char) { IsAlnum(c) || c == '+' || c == '/' }

  /** How many padding characters the encoding of `n` bytes ends in. */
  function PadOf(n: nat): nat { if n % 3 == 0 then 0 else 3 - n % 3 }

  function Tail(c: char, p: nat): (r: string)
    requires p <= 2
    ensures |r| == p
  {
    if p == 0 then [] else if p == 1 then [c] else [c, c]
  }

  lemma LetterInverse(n: nat)
    requires n < 64
    ensures Sextet(Letter(n)) == Some(n) && IsLetter(Letter(n))
  {
  }

  lemma SextetArithmetic(a: nat, b: nat, c: nat)
    requires a < 256 && b < 256 && c < 256
    ensures var w, x, y, z := a / 4, a % 4 * 16 + b / 16, b % 16 * 4 + c / 64, c % 64;
            && w < 64 && x < 64 && y < 64 && z < 64
            && w * 4 + x / 16 == a && x % 16 * 16 + y / 4 == b && y % 4 * 64 + z == c
            && (c == 0 ==> z == 0) && (b == 0 && c == 0 ==> y == 0)
  {
  }

  /** Padding stands for a zero sextet, so a short group decodes like a full one. */
  lemma GroupSextets(s: string)
    requires 1 <= |s| <= 3 && IsBytes(s)
    ensures var a, b, c := s[0] as int, if |s| > 1 then s[1] as int else 0, if |s| > 2 then s[2] as int else 0;
            var g := EncodeGroup(s);
            && Sextet(g[0]) == Some(a / 4) && Sextet(g[1]) == Some(a % 4 * 16 + b / 16)
            && Sextet(g[2]) == Some(b % 16 * 4 + c / 64) && Sextet(g[3]) == Some(c % 64)
  {
    var a := s[0] as int;
    var b := if |s| > 1 then s[1] as int else 0;
    var c := if |s| > 2 then s[2] as int else 0;
    SextetArithmetic(a, b, c);
    LetterInverse(a / 4);
    LetterInverse(a % 4 * 16 + b / 16);
    LetterInverse(b % 16 * 4 + c / 64);
    LetterInverse(c % 64);
  }

  lemma GroupRoundTrip(s: string)
    requires 1 <= |s| <= 3 && IsBytes(s)
    ensures DecodeGroup(EncodeGroup(s)) == Some(s + Tail('\0', 3 - |s|))
  {
    var a := s[0] as int;
    var b := if |s| > 1 then s[1] as int else 0;
    var c := if |s| > 2 then s[2] as int else 0;
    GroupSextets(s);
    SextetArithmetic(a, b, c);
    assert DecodeGroup(EncodeGroup(s)) == Some([a as char, b as char, c as char]);
    assert s + Tail('\0', 3 - |s|) == [a as char, b as char, c as char];
  }

  predicate Padded(t: string, p: nat) {
    && p <= 2 && p <= |t|
    && (forall i :: 0 <= i < |t| - p ==> IsLetter(t[i]))
    && (forall i :: |t| - p <= i < |t| ==> t[i] == '=')
  }

  lemma GroupShape(s: string)
    requires 1 <= |s| <= 3 && IsBytes(s)
    ensures Padded(EncodeGroup(s), 3 - |s|)
  {
    var a := s[0] as int;
    var b := if |s| > 1 then s[1] as int else 0;
    var c := if |s| > 2 then s[2] as int else 0;
    SextetArithmetic(a, b, c);
    LetterInverse(a / 4);
    LetterInverse(a % 4 * 16 + b / 16);
    LetterInverse(b % 16 * 4 + c / 64);
    LetterInverse(c % 64);
  }

  /** The block encoding is letters followed by exactly `PadOf` padding characters. */
  lemma {:induction false} BlockShape(s: string)
    requires IsBytes(s)
    ensures |EncodeBlock(s)| == 4 * ((|s| + 2) / 3) && Padded(EncodeBlock(s), PadOf(|s|))
  {
    if s == [] {
    } else if |s| <= 3 {
      GroupShape(s);
    } else {
      GroupShape(s[..3]);
      BlockShape(s[3..]);
      PadPeriod(|s|);
      PaddedConcat(EncodeGroup(s[..3]), EncodeBlock(s[3..]), PadOf(|s|));
    }
  }

  lemma PadPeriod(n: nat)
    requires n >= 3
    ensures PadOf(n - 3) == PadOf(n) && (n + 2) / 3 == (n - 3 + 2) / 3 + 1
  {
    assert (n - 3) % 3 == n % 3;
  }

  lemma PaddedConcat(g: string, rest: string, p: nat)
    requires Padded(g, 0) && Padded(rest, p)
    ensures Padded(g + rest, p)
  {
  }

  lemma {:induction false} BlockRoundTrip(s: string)
    requires IsBytes(s)
    ensures |EncodeBlock(s)| % 4 == 0
    ensures DecodeBlock(EncodeBlock(s)) == Some(s + Tail('\0', PadOf(|s|)))
  {
    hide EncodeGroup, DecodeGroup;
    BlockShape(s);
    var zeros := Tail('\0', PadOf(|s|));
    if s == [] {
      assert s + zeros == [];
    } else if |s| <= 3 {
      GroupRoundTrip(s);
      DecodeOne(EncodeGroup(s), [], s + zeros, []);
      assert EncodeGroup(s) + [] == EncodeGroup(s);
      assert s + zeros + [] == s + zeros;
    } else {
      GroupRoundTrip(s[..3]);
      BlockRoundTrip(s[3..]);
      PadPeriod(|s|);
      DecodeOne(EncodeGroup(s[..3]), EncodeBlock(s[3..]), s[..3] + [], s[3..] + zeros);
      assert s[..3] + [] + (s[3..] + zeros) == s + zeros;
    }
  }

  lemma DecodeOne(g: string, rest: string, head: string, tail: string)
    requires |g| == 4 && |rest| % 4 == 0
    requires DecodeGroup(g) == Some(head) && DecodeBlock(rest) == Some(tail)
    ensures DecodeBlock(g + rest) == Some(head + tail)
  {
    assert (g + rest)[..4] == g && (g + rest)[4..] == rest;
  }

  lemma {:induction false} StripAll(t: string, p: nat)
    requires Padded(t, p)
    ensures StripPadding(t) == t[..|t| - p]
    decreases p
  {
    if p == 0 {
      assert t[..|t|] == t;
      if t != [] { assert IsLetter(t[|t| - 1]); }
    } else {
      StripAll(t[..|t| - 1], p - 1);
    }
  }

  lemma PadRestores(t: string, p: nat)
    requires p <= |t| && Padded(t, p) && |t| % 4 == 0
    ensures PadFour(t[..|t| - p]) == t
  {
    var b := t[..|t| - p];
    if p == 0 {
      assert b == t;
    } else if p == 1 {
      assert b + ['='] == t;
      assert Pad(b) == Pad(b + ['=']);
    } else if p == 2 {
      assert b + ['='] + ['='] == t;
      assert Pad(b) == Pad(b + ['=']) == Pad(b + ['='] + ['=']);
    }
  }

  /** The encoding uses only letters, digits, '-' and '_'. */
  lemma EncodeShape(s: string)
    requires IsBytes(s)
    ensures |Encode(s)| == 4 * ((|s| + 2) / 3) - PadOf(|s|) <= |EncodeBlock(s)| == 4 * ((|s| + 2) / 3)
    ensures forall i :: 0 <= i < |Encode(s)| ==> IsAlnum(Encode(s)[i]) || Encode(s)[i] == '-' || Encode(s)[i] == '_'
    ensures Translate(Encode(s), FromUrl) == EncodeBlock(s)[..|Encode(s)|]
  {
    BlockShape(s);
    var t, p := EncodeBlock(s), PadOf(|s|);
    StripAll(t, p);
    var body := t[..|t| - p];
    forall i | 0 <= i < |body| ensures IsLetter(body[i]) { assert IsLetter(t[i]); }
  }

  /** Decoding undoes encoding for every non-empty byte string whose encoding is within
      the size bound, and for no other. */
  lemma DecodeEncode(s: string)
    requires IsBytes(s)
    ensures Decode(Encode(s)) ==
            if s != [] && |Encode(s)| <= MAXIMUM_ASSERTION_BYTES then Some(s) else None
  {
    hide EncodeGroup, DecodeGroup, DecodeBlock, EncodeBlock, StripPadding, PadFour, Padded;
    EncodeShape(s);
    if s != [] && |Encode(s)| <= MAXIMUM_ASSERTION_BYTES {
      BlockShape(s);
      PadRestores(EncodeBlock(s), PadOf(|s|));
      DecodePaddedBlock(s);
      DecodeAccepted(Encode(s));
    }
  }

  lemma DecodeAccepted(v: string)
    requires v != [] && |v| <= MAXIMUM_ASSERTION_BYTES && |v| % 4 != 1
    requires forall i :: 0 <= i < |v| ==> Accepted(v[i])
    ensures Decode(v) == DecodePadded(PadFour(Translate(v, FromUrl)))
  {
  }

  lemma DecodePaddedBlock(s: string)
    requires IsBytes(s) && s != []
    ensures |EncodeBlock(s)| % 4 == 0 && DecodePadded(EncodeBlock(s)) == Some(s)
  {
    BlockShape(s);
    BlockRoundTrip(s);
    var t, p := EncodeBlock(s), PadOf(|s|);
    assert p < 2 ==> IsLetter(t[|t| - 2]);
    assert p < 1 ==> IsLetter(t[|t| - 1]);
    assert PadCount(t) == p;
    assert (s + Tail('\0', p))[..|s|] == s;
  }

  // ---- The two functions as the source runs them ----

  method EncodeText(data: string) returns (encoded: string)
    requires IsBytes(data)
    ensures encoded == Encode(data)
  {
    hide EncodeGroup;
    encoded := EncodeBlock(data);
    while encoded != [] && encoded[|encoded| - 1] == '='
      invariant StripPadding(encoded) == StripPadding(EncodeBlock(data))
    {
      encoded := encoded[..|encoded| - 1];
    }
    encoded := Translate(encoded, ToUrl);
  }

  /** The letters back in the base64 alphabet, or None at the first foreign character. */
  method ToBase64(value: string) returns (r: Option<string>)
    ensures r == if exists i :: 0 <= i < |value| && !Accepted(value[i]) then None else Some(Translate(value, FromUrl))
  {
    var padded := value;
    for i := 0 to |padded|
      invariant |padded| == |value|
      invariant forall k :: 0 <= k < i ==> Accepted(value[k]) && padded[k] == FromUrl(value[k])
      invariant forall k :: i <= k < |value| ==> padded[k] == value[k]
    {
      if padded[i] == '-' {
        padded := padded[i := '+'];
      } else if padded[i] == '_' {
        padded := padded[i := '/'];
      } else if !IsAlnum(padded[i]) && padded[i] != '+' && padded[i] != '/' {
        assert !Accepted(value[i]);
        return None;
      }
    }
    assert padded == Translate(value, FromUrl);
    r := Some(padded);
  }

  method DecodeText(value: string) returns (decoded: Option<string>)
    ensures decoded == Decode(value)
  {
    hide DecodeBlock, Translate;
    if value == [] || |value| > MAXIMUM_ASSERTION_BYTES || |value| % 4 == 1 {
      return None;
    }
    var letters := ToBase64(value);
    if letters.None? {
      return None;
    }
    var padded := letters.value;
    while |padded| % 4 != 0
      invariant |padded| >= 1 && Pad(padded) == Pad(letters.value)
      decreases (4 - |padded| % 4) % 4
    {
      padded := padded + ['='];
    }
    var bytes := DecodeBlock(padded);
    if bytes.None? {
      return None;
    }
    DecodedSize(padded);
    var size := |bytes.value|;
    if padded[|padded| - 1] == '=' {
      size := size - 1;
    }
    if |padded| >= 2 && padded[|padded| - 2] == '=' {
      size := size - 1;
    }
    decoded := Some(bytes.value[..size]);
  }

  lemma {:induction false} DecodedSize(t: string)
    requires |t| % 4 == 0 && DecodeBlock(t).Some?
    ensures |DecodeBlock(t).value| == |t| / 4 * 3
  {
    if t != [] { DecodedSize(t[4..]); }
  }
}
