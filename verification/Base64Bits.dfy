/** What base64url means bit by bit (sections 3.2, 4 and 5 of RFC 4648): the bytes as one
    string of bits, cut into sixes, independent of the blocks the codec works in. */
module Base64Bits {
  import opened Text
  import opened Base64Url

  /** The letter of section 5 of RFC 4648 for six bits. */
  predicate UrlLetter(c: char, n: nat) {
    || ('A' <= c <= 'Z' && n == c as int - 'A' as int)
    || ('a' <= c <= 'z' && n == 26 + c as int - 'a' as int)
    || ('0' <= c <= '9' && n == 52 + c as int - '0' as int)
    || (c == '-' && n == 62)
    || (c == '_' && n == 63)
  }

  /** The byte at `i`, zero beyond the end. */
  function ByteAt(s: string, i: nat): nat { if i < |s| then s[i] as int else 0 }

  /** How many bits stand right of a window of six that starts `offset` bits into sixteen. */
  function RightOfSix(offset: nat): nat
    requires offset in {0, 2, 4, 6}
  {
    if offset == 0 then 1024 else if offset == 2 then 256 else if offset == 4 then 64 else 16
  }

  lemma OffsetOfSix(j: nat)
    ensures 6 * j % 8 in {0, 2, 4, 6}
    ensures j >= 4 ==> 6 * j / 8 == 6 * (j - 4) / 8 + 3 && 6 * j % 8 == 6 * (j - 4) % 8
  {
    assert 6 * j == 2 * (3 * j);
    if j >= 4 { assert 6 * j == 6 * (j - 4) + 8 * 3; }
  }

  /** The six bits from bit `6 * j` on, with zeros after the last byte. */
  function SixBits(s: string, j: nat): nat {
    OffsetOfSix(j);
    var i, offset := 6 * j / 8, 6 * j % 8;
    (ByteAt(s, i) * 256 + ByteAt(s, i + 1)) / RightOfSix(offset) % 64
  }

  lemma SixAtOffset(s: string, j: nat, i: nat, offset: nat)
    requires 6 * j == 8 * i + offset && offset in {0, 2, 4, 6}
    ensures SixBits(s, j) == (ByteAt(s, i) * 256 + ByteAt(s, i + 1)) / RightOfSix(offset) % 64
  {
    hide ByteAt, RightOfSix;
    assert 6 * j / 8 == i && 6 * j % 8 == offset;
  }

  lemma Last64(k: nat, r: nat)
    requires r < 64
    ensures (64 * k + r) % 64 == r
  {
  }

  lemma Last256(k: nat, r: nat)
    requires r < 256
    ensures (256 * k + r) % 256 == r
  {
  }

  lemma LeftSix(a: nat, b: nat)
    requires a < 256 && b < 256
    ensures (a * 256 + b) / 1024 % 64 == a / 4
  {
    assert a * 256 + b == 1024 * (a / 4) + (a % 4 * 256 + b);
  }

  lemma MiddleSix(a: nat, b: nat)
    requires a < 256 && b < 256
    ensures (a * 256 + b) / 16 % 64 == a % 4 * 16 + b / 16
  {
    assert (a * 256 + b) / 16 == a * 16 + b / 16;
    assert a * 16 == 64 * (a / 4) + a % 4 * 16;
    Last64(a / 4, a % 4 * 16 + b / 16);
  }

  lemma RightSix(b: nat, c: nat)
    requires b < 256 && c < 256
    ensures (b * 256 + c) / 64 % 64 == b % 16 * 4 + c / 64
  {
    assert (b * 256 + c) / 64 == b * 4 + c / 64;
    assert b * 4 == 64 * (b / 16) + b % 16 * 4;
    Last64(b / 16, b % 16 * 4 + c / 64);
  }

  lemma LastSix(c: nat, next: nat)
    requires c < 256 && next < 256
    ensures (c * 256 + next) / 256 % 64 == c % 64
  {
  }

  lemma UrlLetterIs(n: nat)
    requires n < 64
    ensures UrlLetter(ToUrl(Letter(n)), n)
  {
  }

  lemma FirstSixes(s: string)
    requires IsBytes(s)
    ensures var a, b, c := ByteAt(s, 0), ByteAt(s, 1), ByteAt(s, 2);
            && SixBits(s, 0) == a / 4 && SixBits(s, 1) == a % 4 * 16 + b / 16
            && SixBits(s, 2) == b % 16 * 4 + c / 64 && SixBits(s, 3) == c % 64
  {
    hide SixBits;
    var a, b, c, d := ByteAt(s, 0), ByteAt(s, 1), ByteAt(s, 2), ByteAt(s, 3);
    SixAtOffset(s, 0, 0, 0);
    SixAtOffset(s, 1, 0, 6);
    SixAtOffset(s, 2, 1, 4);
    SixAtOffset(s, 3, 2, 2);
    LeftSix(a, b);
    MiddleSix(a, b);
    RightSix(b, c);
    LastSix(c, d);
  }

  lemma LaterSixes(s: string, j: nat)
    requires |s| >= 3 && j >= 4
    ensures SixBits(s, j) == SixBits(s[3..], j - 4)
  {
    OffsetOfSix(j);
    var i := 6 * (j - 4) / 8;
    assert ByteAt(s, i + 3) == ByteAt(s[3..], i) && ByteAt(s, i + 4) == ByteAt(s[3..], i + 1);
  }

  lemma GroupBits(s: string, r: nat)
    requires IsBytes(s) && s != "" && r < 4
    ensures var g := if |s| <= 3 then s else s[..3];
            r <= |g| ==> SixBits(s, r) < 64 && EncodeGroup(g)[r] == Letter(SixBits(s, r))
  {
    hide SixBits, Letter;
    FirstSixes(s);
    SextetArithmetic(ByteAt(s, 0), ByteAt(s, 1), ByteAt(s, 2));
  }

  /** Every letter of the block encoding stands for its own six bits. */
  lemma {:induction false} BlockBits(s: string, j: nat)
    requires IsBytes(s) && j < |EncodeBlock(s)| - PadOf(|s|)
    ensures SixBits(s, j) < 64 && EncodeBlock(s)[j] == Letter(SixBits(s, j))
  {
    hide EncodeGroup, SixBits, Letter;
    BlockShape(s);
    if j < 4 {
      GroupBits(s, j);
    } else {
      PadPeriod(|s|);
      LaterSixes(s, j);
      BlockBits(s[3..], j - 4);
    }
  }

  /** The encoding is the RFC's: as many letters as there are sixes in the bits, the last one
      filled up with zeros, each letter the one of its six bits. */
  lemma EncodeIs(s: string)
    requires IsBytes(s)
    ensures |Encode(s)| == (8 * |s| + 5) / 6
    ensures forall j :: 0 <= j < |Encode(s)| ==> UrlLetter(Encode(s)[j], SixBits(s, j))
  {
    hide EncodeBlock, SixBits, Letter, StripPadding, UrlLetter, ToUrl;
    EncodeShape(s);
    BlockShape(s);
    StripAll(EncodeBlock(s), PadOf(|s|));
    LengthIs(|s|);
    hide PadOf;
    forall j | 0 <= j < |Encode(s)| ensures UrlLetter(Encode(s)[j], SixBits(s, j)) {
      BlockBits(s, j);
      UrlLetterIs(SixBits(s, j));
    }
  }

  lemma LengthIs(n: nat)
    ensures 4 * ((n + 2) / 3) - PadOf(n) == (8 * n + 5) / 6
  {
    var q, r := n / 3, n % 3;
    assert n == 3 * q + r;
    assert 8 * n + 5 == 6 * (4 * q) + (8 * r + 5);
    assert n + 2 == 3 * q + (r + 2);
  }

  // ---- Decoding ----

  /** Either alphabet is read, that of section 5 and that of section 4. */
  predicate AnyLetter(c: char, n: nat) { UrlLetter(c, n) || (c == '+' && n == 62) || (c == '/' && n == 63) }

  lemma AnyLetterIs(c: char, n: nat)
    ensures AnyLetter(c, n) <==> Accepted(c) && Sextet(FromUrl(c)) == Some(n)
    ensures AnyLetter(c, n) ==> FromUrl(c) != '='
  {
  }

  /** The value at `i`, zero beyond the end. */
  function SixAt(w: seq<nat>, i: nat): nat { if i < |w| then w[i] else 0 }

  /** How many bits stand right of a window of eight that starts `offset` bits into twelve. */
  function RightOfEight(offset: nat): nat
    requires offset in {0, 2, 4}
  {
    if offset == 0 then 16 else if offset == 2 then 4 else 1
  }

  lemma OffsetOfEight(i: nat)
    ensures 8 * i % 6 in {0, 2, 4}
    ensures i >= 3 ==> 8 * i / 6 == 8 * (i - 3) / 6 + 4 && 8 * i % 6 == 8 * (i - 3) % 6
  {
    assert 8 * i == 2 * (4 * i);
    if i >= 3 { assert 8 * i == 8 * (i - 3) + 6 * 4; }
  }

  /** The eight bits from bit `8 * i` of a sequence of sixes on. */
  function EightBits(w: seq<nat>, i: nat): nat {
    OffsetOfEight(i);
    var j, offset := 8 * i / 6, 8 * i % 6;
    (SixAt(w, j) * 64 + SixAt(w, j + 1)) / RightOfEight(offset) % 256
  }

  predicate IsSixes(w: seq<nat>) { forall k :: 0 <= k < |w| ==> w[k] < 64 }

  /** The letters of `t`, padding included, have the values `w`. */
  predicate Valued(t: string, w: seq<nat>) {
    |t| == |w| && forall k :: 0 <= k < |t| ==> Sextet(t[k]) == Some(w[k])
  }

  lemma LeftEight(w: nat, x: nat)
    requires w < 64 && x < 64
    ensures (w * 64 + x) / 16 % 256 == w * 4 + x / 16
  {
    assert w * 64 + x == 16 * (w * 4 + x / 16) + x % 16;
  }

  lemma MiddleEight(x: nat, y: nat)
    requires x < 64 && y < 64
    ensures (x * 64 + y) / 4 % 256 == x % 16 * 16 + y / 4
  {
    assert (x * 64 + y) / 4 == x * 16 + y / 4;
    assert x * 16 == 256 * (x / 16) + x % 16 * 16;
    Last256(x / 16, x % 16 * 16 + y / 4);
  }

  lemma RightEight(y: nat, z: nat)
    requires y < 64 && z < 64
    ensures (y * 64 + z) / 1 % 256 == y % 4 * 64 + z
  {
    assert y * 64 == 256 * (y / 4) + y % 4 * 64;
    Last256(y / 4, y % 4 * 64 + z);
  }

  lemma FirstEights(w: seq<nat>)
    requires |w| >= 4 && IsSixes(w)
    ensures EightBits(w, 0) == w[0] * 4 + w[1] / 16
    ensures EightBits(w, 1) == w[1] % 16 * 16 + w[2] / 4
    ensures EightBits(w, 2) == w[2] % 4 * 64 + w[3]
  {
    LeftEight(w[0], w[1]);
    MiddleEight(w[1], w[2]);
    RightEight(w[2], w[3]);
  }

  lemma LaterEights(w: seq<nat>, i: nat)
    requires |w| >= 4 && i >= 3
    ensures EightBits(w, i) == EightBits(w[4..], i - 3)
  {
    OffsetOfEight(i);
    var j := 8 * (i - 3) / 6;
    assert SixAt(w, j + 4) == SixAt(w[4..], j) && SixAt(w, j + 5) == SixAt(w[4..], j + 1);
  }

  lemma SextetIsSix(c: char)
    ensures Sextet(c).Some? ==> Sextet(c).value < 64
  {
  }

  lemma ValuedIsSixes(t: string, w: seq<nat>)
    requires Valued(t, w)
    ensures IsSixes(w)
  {
    hide Sextet;
    forall k | 0 <= k < |w| ensures w[k] < 64 { SextetIsSix(t[k]); }
  }

  lemma GroupEights(t: string, w: seq<nat>)
    requires |t| >= 4 && Valued(t, w)
    ensures DecodeGroup(t[..4]).Some?
    ensures var g := DecodeGroup(t[..4]).value;
            |g| == 3 && forall i :: 0 <= i < 3 ==> g[i] as int == EightBits(w, i)
  {
    hide Sextet, EightBits;
    ValuedIsSixes(t, w);
    FirstEights(w);
    var g := t[..4];
    assert g[0] == t[0] && g[1] == t[1] && g[2] == t[2] && g[3] == t[3];
  }

  /** Every byte of a decoded block is its own eight bits. */
  lemma {:induction false} BlockEights(t: string, w: seq<nat>)
    requires |t| % 4 == 0 && Valued(t, w)
    ensures DecodeBlock(t).Some? && |DecodeBlock(t).value| == |t| / 4 * 3
    ensures forall i :: 0 <= i < |t| / 4 * 3 ==> DecodeBlock(t).value[i] as int == EightBits(w, i)
  {
    hide Sextet, EightBits, DecodeGroup;
    if t != [] {
      GroupEights(t, w);
      BlockEights(t[4..], w[4..]);
      var r := DecodeBlock(t).value;
      forall i | 0 <= i < |t| / 4 * 3 ensures r[i] as int == EightBits(w, i) {
        if i >= 3 { LaterEights(w, i); }
      }
    }
  }

  /** Zeros for the padding. */
  function Zeros(p: nat): (r: seq<nat>)
    requires p <= 2
    ensures |r| == p && forall k :: 0 <= k < p ==> r[k] == 0
  {
    if p == 0 then [] else if p == 1 then [0] else [0, 0]
  }

  lemma PadIs(t: string)
    requires |t| % 4 != 1
    ensures var p := (4 - |t| % 4) % 4; p <= 2 && PadFour(t) == t + Tail('=', p)
  {
    var p := (4 - |t| % 4) % 4;
    if p == 0 {
      assert t + Tail('=', p) == t;
    } else if p == 1 {
      PadOne(t);
    } else {
      PadOne(t + ['=']);
      PadMore(t);
      assert t + ['='] + ['='] == t + Tail('=', p);
    }
  }

  lemma PadOne(t: string)
    requires |t| % 4 == 3
    ensures Pad(t) == t + ['=']
  {
    var u := t + ['='];
    assert |u| % 4 == 0;
    assert Pad(u) == u;
  }

  lemma PadMore(t: string)
    requires |t| % 4 != 0
    ensures Pad(t) == Pad(t + ['='])
  {
  }

  lemma CountIs(t: string, p: nat)
    requires p <= 2 && t != "" && forall k :: 0 <= k < |t| ==> t[k] != '='
    requires p == 0 ==> |t| >= 2
    ensures PadCount(t + Tail('=', p)) == p
  {
  }

  /** The eight bits of a byte lie within the sixes before the padding. */
  lemma ZerosDoNotMatter(w: seq<nat>, p: nat, i: nat)
    requires p <= 2
    ensures EightBits(w + Zeros(p), i) == EightBits(w, i)
  {
    OffsetOfEight(i);
    var j := 8 * i / 6;
    assert SixAt(w + Zeros(p), j) == SixAt(w, j) && SixAt(w + Zeros(p), j + 1) == SixAt(w, j + 1);
  }

  lemma TextIsValued(value: string, w: seq<nat>, p: nat)
    requires p <= 2 && |value| == |w| && forall k :: 0 <= k < |w| ==> AnyLetter(value[k], w[k])
    ensures Valued(Translate(value, FromUrl) + Tail('=', p), w + Zeros(p))
    ensures forall k :: 0 <= k < |value| ==> Accepted(value[k]) && Translate(value, FromUrl)[k] != '='
  {
    hide Sextet, FromUrl, Accepted, AnyLetter;
    assert Sextet('=') == Some(0) by { PaddingIsZero(); }
    forall k | 0 <= k < |value| ensures Accepted(value[k]) && Sextet(FromUrl(value[k])) == Some(w[k]) && FromUrl(value[k]) != '=' {
      AnyLetterIs(value[k], w[k]);
    }
  }

  lemma PaddingIsZero()
    ensures Sextet('=') == Some(0)
  {
  }

  predicate Sized(value: string) { value != "" && |value| <= MAXIMUM_ASSERTION_BYTES && |value| % 4 != 1 }

  /** Every text of letters within the bound is decoded, a single letter left over excepted:
      its bytes are the whole eights in the bits of its letters. */
  lemma DecodeIs(value: string, w: seq<nat>)
    requires |value| == |w| && forall k :: 0 <= k < |w| ==> AnyLetter(value[k], w[k])
    ensures Decode(value).Some? <==> Sized(value)
    ensures Decode(value).Some? ==>
              var r := Decode(value).value;
              |r| == 6 * |value| / 8 && forall i :: 0 <= i < |r| ==> r[i] as int == EightBits(w, i)
  {
    if Sized(value) { SizedDecodes(value, w); }
  }

  lemma SizedDecodes(value: string, w: seq<nat>)
    requires Sized(value) && |value| == |w| && forall k :: 0 <= k < |w| ==> AnyLetter(value[k], w[k])
    ensures Decode(value).Some?
    ensures var r := Decode(value).value;
            |r| == 6 * |value| / 8 && forall i :: 0 <= i < |r| ==> r[i] as int == EightBits(w, i)
  {
    hide EightBits, AnyLetter, Accepted, Tail, PadFour, DecodeBlock, Translate, PadCount, Decode, Zeros, Valued;
    var t := Translate(value, FromUrl);
    var p := (4 - |value| % 4) % 4;
    PadIs(t);
    TextIsValued(value, w, p);
    CountIs(t, p);
    BlockEights(PadFour(t), w + Zeros(p));
    DecodeAccepted(value);
    SizeIs(|value|, p);
    forall i: nat ensures EightBits(w + Zeros(p), i) == EightBits(w, i) { ZerosDoNotMatter(w, p, i); }
  }

  lemma SizeIs(n: nat, p: nat)
    requires n > 0 && n % 4 != 1 && p == (4 - n % 4) % 4
    ensures (n + p) / 4 * 3 - p == 6 * n / 8
  {
    var q, r := n / 4, n % 4;
    assert n == 4 * q + r;
    assert 6 * n == 8 * (3 * q) + 6 * r;
  }

  /** A foreign character anywhere and nothing is decoded. */
  lemma ForeignIsRefused(value: string, k: nat)
    requires k < |value| && forall n :: 0 <= n < 64 ==> !AnyLetter(value[k], n)
    ensures Decode(value).None?
  {
    if Accepted(value[k]) {
      LetterHasValue(value[k]);
      AnyLetterIs(value[k], Sextet(FromUrl(value[k])).value);
    }
  }

  lemma LetterHasValue(c: char)
    requires Accepted(c)
    ensures Sextet(FromUrl(c)).Some? && Sextet(FromUrl(c)).value < 64
  {
  }
}
