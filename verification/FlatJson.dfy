/** The flat JSON objects of the HTTP interface: string keys, string-or-null values.
    Reading functions work on the unread part of the input and give None where the
    source throws or returns nullopt. */
module FlatJson {
  import opened Text
  import Utf8

  const MAXIMUM_JSON_BYTES := 64 * 1024

  // ---- Printing ----

  function HexDigit(n: nat): char
    requires n < 16
  {
    if n < 10 then ('0' as int + n) as char else ('a' as int + n - 10) as char
  }

  function Hex4(n: nat): string
    requires n < 0x10000
  {
    [HexDigit(n / 4096), HexDigit(n / 256 % 16), HexDigit(n / 16 % 16), HexDigit(n % 16)]
  }

  function EscapeChar(c: char): string {
    match c
    case '\\' => "\\\\"
    case '"' => "\\\""
    case '\U{8}' => "\\b"
    case '\U{c}' => "\\f"
    case '\n' => "\\n"
    case '\r' => "\\r"
    case '\t' => "\\t"
    case _ => if c < ' ' then "\\u" + Hex4(c as int) else [c]
  }

  /** jsonEscape. */
  function Escape(s: string): string {
    if s == [] then [] else EscapeChar(s[0]) + Escape(s[1..])
  }

  function PrintString(s: string): string { "\"" + Escape(s) + "\"" }

  function PrintValue(v: Option<string>): string {
    if v.Some? then PrintString(v.value) else "null"
  }

  datatype Member = Member(key: string, value: Option<string>)

  function PrintMember(m: Member): string {
    PrintString(m.key) + ":" + PrintValue(m.value)
  }

  function PrintMembers(ms: seq<Member>): string
    requires ms != []
  {
    PrintMember(ms[0]) + if |ms| == 1 then "" else "," + PrintMembers(ms[1..])
  }

  function Print(ms: seq<Member>): string {
    "{" + (if ms == [] then "" else PrintMembers(ms)) + "}"
  }

  // ---- Reading ----

  predicate IsSpace(c: char) { c == ' ' || c == '\t' || c == '\r' || c == '\n' }

  function SkipSpace(rest: string): (r: string)
    ensures |r| <= |rest|
  {
    if rest != [] && IsSpace(rest[0]) then SkipSpace(rest[1..]) else rest
  }

  /** Exactly `c`, with no whitespace before it. */
  function Expect(rest: string, c: char): (r: Option<string>)
    ensures r.Some? ==> |r.value| == |rest| - 1
  {
    if rest != [] && rest[0] == c then Some(rest[1..]) else None
  }

  function HexValue(c: char): Option<nat> {
    if '0' <= c <= '9' then Some(c as int - '0' as int)
    else if 'a' <= c <= 'f' then Some(c as int - 'a' as int + 10)
    else if 'A' <= c <= 'F' then Some(c as int - 'A' as int + 10)
    else None
  }

  /** parseHex4: four hexadecimal digits. */
  function ReadHex4(rest: string): (r: Option<nat>)
    ensures r.Some? ==> r.value < 0x10000 && |rest| >= 4
  {
    if |rest| < 4 then None
    else
      var a :- HexValue(rest[0]);
      var b :- HexValue(rest[1]);
      var c :- HexValue(rest[2]);
      var d :- HexValue(rest[3]);
      Some(((a * 16 + b) * 16 + c) * 16 + d)
  }

  predicate IsHigh(n: nat) { 0xd800 <= n <= 0xdbff }
  predicate IsLow(n: nat) { 0xdc00 <= n <= 0xdfff }

  function Combine(high: nat, low: nat): nat
    requires IsHigh(high) && IsLow(low)
  {
    0x10000 + (high - 0xd800) * 1024 + (low - 0xdc00)
  }

  /** What follows a `\u`: the bytes appended and the rest of the input. */
  function ReadUnicode(rest: string): (r: Option<(string, string)>)
    ensures r.Some? ==> |r.value.1| < |rest|
  {
    var code :- ReadHex4(rest);
    var after := rest[4..];
    if IsHigh(code) then
      if |after| < 2 || after[0] != '\\' || after[1] != 'u' then None
      else
        var low :- ReadHex4(after[2..]);
        if !IsLow(low) then None
        else
          var bytes :- Utf8.Encode(Combine(code, low));
          Some((bytes, after[6..]))
    else if IsLow(code) then None
    else
      var bytes :- Utf8.Encode(code);
      Some((bytes, after))
  }

  /** What follows a backslash. */
  function ReadEscape(rest: string): (r: Option<(string, string)>)
    ensures r.Some? ==> |r.value.1| < |rest|
  {
    if rest == [] then None
    else match rest[0]
      case '"' => Some(("\"", rest[1..]))
      case '\\' => Some(("\\", rest[1..]))
      case '/' => Some(("/", rest[1..]))
      case 'b' => Some((['\U{8}'], rest[1..]))
      case 'f' => Some((['\U{c}'], rest[1..]))
      case 'n' => Some(("\n", rest[1..]))
      case 'r' => Some(("\r", rest[1..]))
      case 't' => Some(("\t", rest[1..]))
      case 'u' => ReadUnicode(rest[1..])
      case _ => None
  }

  function Prepend(output: string, tail: Option<(string, string)>): (r: Option<(string, string)>)
    ensures r.Some? <==> tail.Some?
    ensures r.Some? ==> r.value.1 == tail.value.1
  {
    match tail
    case None => None
    case Some(p) => Some((output + p.0, p.1))
  }

  /** The rest of a string literal, up to and including its closing quote. */
  function ReadBody(rest: string): (r: Option<(string, string)>)
    ensures r.Some? ==> |r.value.1| < |rest|
    decreases |rest|
  {
    if rest == [] then None
    else if rest[0] == '"' then Some(("", rest[1..]))
    else if rest[0] < ' ' then None
    else if rest[0] != '\\' then Prepend([rest[0]], ReadBody(rest[1..]))
    else
      var escaped :- ReadEscape(rest[1..]);
      Prepend(escaped.0, ReadBody(escaped.1))
  }

  function ReadString(rest: string): (r: Option<(string, string)>)
    ensures r.Some? ==> |r.value.1| < |rest|
  {
    var body :- Expect(rest, '"');
    ReadBody(body)
  }

  type Object = map<string, Option<string>>

  function ReadValue(rest: string): (r: Option<(Option<string>, string)>)
    ensures r.Some? ==> |r.value.1| < |rest|
  {
    if rest == [] then None
    else if rest[0] == '"' then
      var s :- ReadString(rest);
      Some((Some(s.0), s.1))
    else if |rest| >= 4 && rest[..4] == "null" then Some((None, rest[4..]))
    else None
  }

  /** One key, colon and value. */
  function ReadMember(rest: string): (r: Option<(Member, string)>)
    ensures r.Some? ==> |r.value.1| < |rest|
  {
    var key :- ReadString(SkipSpace(rest));
    var after :- Expect(SkipSpace(key.1), ':');
    var value :- ReadValue(SkipSpace(after));
    Some((Member(key.0, value.0), value.1))
  }

  /** The members, up to and including the closing brace. */
  function ReadMembers(rest: string, acc: Object): Option<(Object, string)>
    decreases |rest|
  {
    var m :- ReadMember(rest);
    if m.0.key in acc then None
    else
      var acc' := acc[m.0.key := m.0.value];
      var r := SkipSpace(m.1);
      var end := Expect(r, '}');
      if end.Some? then Some((acc', end.value))
      else
        var next :- Expect(r, ',');
        ReadMembers(next, acc')
  }

  /** FlatJsonObjectParser::parse. */
  function Parse(text: string): Option<Object> {
    var start :- Expect(SkipSpace(text), '{');
    var first := SkipSpace(start);
    var empty := Expect(first, '}');
    if empty.Some? then
      if SkipSpace(empty.value) == [] then Some(map[]) else None
    else
      var members :- ReadMembers(first, map[]);
      if SkipSpace(members.1) == [] then Some(members.0) else None
  }

  /** parseFlatJsonObject. */
  function ParseBody(body: string): Option<Object> {
    if |body| > MAXIMUM_JSON_BYTES then None else Parse(body)
  }

  // ---- Unicode escapes ----

  lemma HexDigitInverse(n: nat)
    requires n < 16
    ensures HexValue(HexDigit(n)) == Some(n)
  {
  }

  lemma ReadPrintedHex4(n: nat, tail: string)
    requires n < 0x10000
    ensures ReadHex4(Hex4(n) + tail) == Some(n) && (Hex4(n) + tail)[4..] == tail
  {
    var t := Hex4(n) + tail;
    HexDigitInverse(n / 4096);
    HexDigitInverse(n / 256 % 16);
    HexDigitInverse(n / 16 % 16);
    HexDigitInverse(n % 16);
    HexArithmetic(n);
    hide HexDigit, HexValue;
  }

  lemma HexArithmetic(n: nat)
    requires n < 0x10000
    ensures n / 4096 < 16 && n == ((n / 4096 * 16 + n / 256 % 16) * 16 + n / 16 % 16) * 16 + n % 16
  {
    assert n / 16 == n / 256 * 16 + n / 16 % 16;
    assert n / 256 == n / 4096 * 16 + n / 256 % 16;
  }

  /** The `\u` form of a scalar value: a surrogate pair above U+FFFF (section 7 of RFC 8259). */
  function UnicodeForm(v: nat): string
    requires Utf8.IsScalar(v)
  {
    if v < 0x10000 then "\\u" + Hex4(v)
    else
      var w := v - 0x10000;
      "\\u" + Hex4(0xd800 + w / 1024) + "\\u" + Hex4(0xdc00 + w % 1024)
  }

  /** Every scalar value written as `\u` escapes is read into its UTF-8 bytes. */
  lemma ReadUnicodeForm(v: nat, tail: string)
    requires Utf8.IsScalar(v)
    ensures Utf8.Encode(v).Some?
    ensures ReadEscape((UnicodeForm(v) + tail)[1..]) == Some((Utf8.Encode(v).value, tail))
  {
    Utf8.DecodeEncode(v);
    hide Hex4, ReadHex4, Utf8.Encode, ReadUnicode, Utf8.Decode;
    if v < 0x10000 {
      var text := Hex4(v) + tail;
      ReadPrintedHex4(v, tail);
      ReadBmp(text, v);
      assert (UnicodeForm(v) + tail)[1..] == ['u'] + text && (['u'] + text)[1..] == text;
    } else {
      PairForm(v, tail);
    }
  }

  lemma PairForm(v: nat, tail: string)
    requires Utf8.IsScalar(v) && v >= 0x10000 && Utf8.Encode(v).Some?
    ensures ReadEscape((UnicodeForm(v) + tail)[1..]) == Some((Utf8.Encode(v).value, tail))
  {
    hide Hex4, ReadHex4, Utf8.Encode, ReadUnicode;
    var w := v - 0x10000;
    var high, low := 0xd800 + w / 1024, 0xdc00 + w % 1024;
    var second := Hex4(low) + tail;
    var text := Hex4(high) + ("\\u" + second);
    ReadPrintedHex4(high, "\\u" + second);
    ReadPrintedHex4(low, tail);
    PairCombines(w);
    ReadPair(text, high, second, low);
    PairText(Hex4(high), Hex4(low), tail);
    EscapeIsUnicode(text);
  }

  lemma PairCombines(w: nat)
    requires w < 0x100000
    ensures IsHigh(0xd800 + w / 1024) && IsLow(0xdc00 + w % 1024)
    ensures Combine(0xd800 + w / 1024, 0xdc00 + w % 1024) == 0x10000 + w
  {
  }

  lemma PairText(high: string, low: string, tail: string)
    ensures ("\\u" + high + "\\u" + low + tail)[1..] == ['u'] + (high + ("\\u" + (low + tail)))
  {
  }

  lemma EscapeIsUnicode(text: string)
    ensures ReadEscape(['u'] + text) == ReadUnicode(text)
  {
    hide ReadUnicode;
    assert (['u'] + text)[1..] == text;
  }

  lemma ReadBmp(rest: string, v: nat)
    requires ReadHex4(rest) == Some(v) && Utf8.IsScalar(v) && Utf8.Encode(v).Some?
    ensures ReadUnicode(rest) == Some((Utf8.Encode(v).value, rest[4..]))
  {
    hide ReadHex4, Utf8.Encode;
  }

  lemma ReadPair(rest: string, high: nat, second: string, low: nat)
    requires ReadHex4(rest) == Some(high) && IsHigh(high) && rest[4..] == "\\u" + second
    requires ReadHex4(second) == Some(low) && IsLow(low) && Utf8.Encode(Combine(high, low)).Some?
    ensures ReadUnicode(rest) == Some((Utf8.Encode(Combine(high, low)).value, second[4..]))
  {
    hide ReadHex4, Utf8.Encode;
    var after := rest[4..];
    assert after[0] == '\\' && after[1] == 'u' && after[2..] == second;
    assert after[6..] == second[4..];
  }

  /** A well-formed `\u` escape: four digits that are no surrogate, or a high and a low one in turn. */
  predicate WellFormedUnicode(rest: string) {
    && ReadHex4(rest).Some?
    && var code := ReadHex4(rest).value;
       if IsHigh(code) then
         |rest| >= 10 && rest[4] == '\\' && rest[5] == 'u' && ReadHex4(rest[6..]).Some? && IsLow(ReadHex4(rest[6..]).value)
       else !IsLow(code)
  }

  /** Only ill-formed escapes are rejected, lone surrogates among them; the out-of-range
      exception of appendUtf8 cannot be reached from here. */
  lemma UnicodeRejectsOnlyIllFormed(rest: string)
    ensures ReadUnicode(rest).Some? <==> WellFormedUnicode(rest)
    ensures ReadUnicode(rest).Some? ==>
      exists v :: Utf8.Decode(ReadUnicode(rest).value.0) == Some(v)
  {
    if WellFormedUnicode(rest) {
      var code := ReadHex4(rest).value;
      hide ReadHex4;
      assert |rest| >= 6 ==> rest[4..][2..] == rest[6..];
      var v := if IsHigh(code) then Combine(code, ReadHex4(rest[6..]).value) else code;
      assert Utf8.IsScalar(v);
      Utf8.DecodeEncode(v);
      hide Utf8.Decode;
      assert Utf8.Decode(ReadUnicode(rest).value.0) == Some(v);
    }
  }

  // ---- Reading what was printed ----

  lemma ReadPrintedChar(c: char, more: string)
    ensures ReadBody(EscapeChar(c) + more) == Prepend([c], ReadBody(more))
  {
    var t := EscapeChar(c) + more;
    if |EscapeChar(c)| == 1 {
      assert t[1..] == more;
    } else if |EscapeChar(c)| == 2 {
      assert t[1..][1..] == more;
    } else {
      ControlEscape(c, more);
    }
  }

  lemma ControlEscape(c: char, more: string)
    requires c < ' ' && EscapeChar(c) == "\\u" + Hex4(c as int)
    ensures ReadBody(EscapeChar(c) + more) == Prepend([c], ReadBody(more))
  {
    var t := EscapeChar(c) + more;
    ReadUnicodeForm(c as int, more);
    assert Utf8.Encode(c as int) == Some([c]);
    hide Hex4, Utf8.Encode, ReadEscape;
    assert t[0] == '\\';
    assert ReadEscape(t[1..]) == Some(([c], more));
  }

  lemma {:induction false} ReadPrintedBody(s: string, tail: string)
    ensures ReadBody(Escape(s) + "\"" + tail) == Some((s, tail))
  {
    if s == [] {
      assert Escape(s) + "\"" + tail == ['"'] + tail;
    } else {
      hide ReadBody, EscapeChar;
      var more := Escape(s[1..]) + "\"" + tail;
      ReadPrintedBody(s[1..], tail);
      assert Escape(s) + "\"" + tail == EscapeChar(s[0]) + more;
      ReadPrintedChar(s[0], more);
      assert [s[0]] + s[1..] == s;
    }
  }

  lemma ReadPrintedString(s: string, tail: string)
    ensures ReadString(PrintString(s) + tail) == Some((s, tail))
  {
    hide ReadBody, Escape;
    ReadPrintedBody(s, tail);
    var body := Escape(s) + "\"" + tail;
    assert PrintString(s) + tail == ['"'] + body;
    assert (['"'] + body)[1..] == body;
  }

  lemma ReadPrintedMember(m: Member, tail: string)
    ensures ReadMember(PrintMember(m) + tail) == Some((m, tail))
  {
    hide ReadString, ReadValue, Escape, SkipSpace, ReadMember;
    var value := PrintValue(m.value);
    var after := [':'] + (value + tail);
    ReadPrintedValue(m.value, tail);
    ReadPrintedString(m.key, after);
    assert PrintMember(m) + tail == PrintString(m.key) + after;
    MemberFrom(PrintString(m.key) + after, m.key, value + tail, m.value, tail);
  }

  lemma MemberFrom(text: string, key: string, value: string, v: Option<string>, tail: string)
    requires text != [] && text[0] == '"' && ReadString(text) == Some((key, [':'] + value))
    requires value != [] && !IsSpace(value[0]) && ReadValue(value) == Some((v, tail))
    ensures ReadMember(text) == Some((Member(key, v), tail))
  {
    hide ReadString, ReadValue, SkipSpace;
    NoSpace(text);
    NoSpace([':'] + value);
    NoSpace(value);
    assert ([':'] + value)[1..] == value;
  }

  lemma NoSpace(s: string)
    requires s != [] && !IsSpace(s[0])
    ensures SkipSpace(s) == s
  {
  }

  lemma ReadPrintedValue(v: Option<string>, tail: string)
    ensures ReadValue(PrintValue(v) + tail) == Some((v, tail))
  {
    if v.Some? {
      ReadPrintedString(v.value, tail);
      hide Escape, ReadString;
    } else {
      var t := "null" + tail;
      assert t[..4] == "null" && t[4..] == tail;
    }
  }

  function Collect(ms: seq<Member>, acc: Object): Object
    decreases |ms|
  {
    if ms == [] then acc else Collect(ms[1..], acc[ms[0].key := ms[0].value])
  }

  /** No key occurs twice, or in `acc`. */
  predicate FreshKeys(ms: seq<Member>, acc: Object) {
    && (forall i :: 0 <= i < |ms| ==> ms[i].key !in acc)
    && (forall i, j :: 0 <= i < j < |ms| ==> ms[i].key != ms[j].key)
  }

  lemma {:induction false} ReadPrintedMembers(ms: seq<Member>, acc: Object)
    requires ms != []
    ensures ReadMembers(PrintMembers(ms) + "}", acc) ==
            if FreshKeys(ms, acc) then Some((Collect(ms, acc), "")) else None
    decreases |ms|
  {
    hide ReadMember, PrintMember;
    var m, acc' := ms[0], acc[ms[0].key := ms[0].value];
    FreshStep(ms, acc);
    if |ms| == 1 {
      assert PrintMembers(ms) + "}" == PrintMember(m) + "}" by { assert PrintMember(m) + "" == PrintMember(m); }
      ReadPrintedMember(m, "}");
      assert Collect(ms, acc) == Collect([], acc') by { assert ms[1..] == []; }
    } else {
      var rest := PrintMembers(ms[1..]) + "}";
      assert PrintMembers(ms) + "}" == PrintMember(m) + ([','] + rest);
      ReadPrintedMember(m, [','] + rest);
      ReadPrintedMembers(ms[1..], acc');
      assert ([','] + rest)[1..] == rest;
    }
  }

  lemma FreshStep(ms: seq<Member>, acc: Object)
    requires ms != []
    ensures FreshKeys(ms, acc) <==>
      ms[0].key !in acc && FreshKeys(ms[1..], acc[ms[0].key := ms[0].value])
  {
    var acc' := acc[ms[0].key := ms[0].value];
    if ms[0].key !in acc && FreshKeys(ms[1..], acc') {
      forall i | 0 < i < |ms| ensures ms[i].key !in acc && ms[i].key != ms[0].key {
        assert ms[1..][i - 1] == ms[i];
      }
      forall i, j | 0 <= i < j < |ms| ensures ms[i].key != ms[j].key {
        if i > 0 { assert ms[1..][i - 1] == ms[i] && ms[1..][j - 1] == ms[j]; }
      }
    }
  }

  /** Round trip: printing members and parsing the text gives back the map they form,
      whatever bytes the strings hold; a repeated key makes the parser fail, and nothing else does. */
  lemma ParsePrint(ms: seq<Member>)
    ensures Parse(Print(ms)) == if FreshKeys(ms, map[]) then Some(Collect(ms, map[])) else None
  {
    hide FreshKeys, Collect, ReadMembers;
    var text := Print(ms);
    if ms == [] {
      NoMembers();
      assert text == "{}";
      assert text[1..] == "}";
    } else {
      hide PrintMembers;
      var inner := PrintMembers(ms) + "}";
      assert text == ['{'] + inner && text[1..] == inner;
      MembersStartWithQuote(ms);
      ReadPrintedMembers(ms, map[]);
    }
  }

  lemma NoMembers()
    ensures FreshKeys([], map[]) && Collect([], map[]) == map[]
  {
  }

  lemma MembersStartWithQuote(ms: seq<Member>)
    requires ms != []
    ensures PrintMembers(ms) != [] && PrintMembers(ms)[0] == '"'
  {
    assert PrintMember(ms[0])[0] == '"';
  }

  lemma {:induction false} CollectLookup(ms: seq<Member>, acc: Object, i: nat)
    requires FreshKeys(ms, acc) && i < |ms|
    ensures ms[i].key in Collect(ms, acc) && Collect(ms, acc)[ms[i].key] == ms[i].value
    decreases |ms|
  {
    FreshStep(ms, acc);
    var acc' := acc[ms[0].key := ms[0].value];
    if i > 0 { CollectLookup(ms[1..], acc', i - 1); } else { CollectKeeps(ms[1..], acc', ms[0].key); }
  }

  lemma {:induction false} CollectKeeps(ms: seq<Member>, acc: Object, k: string)
    requires FreshKeys(ms, acc) && k in acc
    ensures k in Collect(ms, acc) && Collect(ms, acc)[k] == acc[k]
    decreases |ms|
  {
    if ms != [] {
      FreshStep(ms, acc);
      CollectKeeps(ms[1..], acc[ms[0].key := ms[0].value], k);
    }
  }

  lemma {:induction false} CollectKeys(ms: seq<Member>, acc: Object, k: string)
    ensures k in Collect(ms, acc) ==> k in acc || exists i :: 0 <= i < |ms| && ms[i].key == k
    decreases |ms|
  {
    if ms != [] && k in Collect(ms, acc) {
      var acc' := acc[ms[0].key := ms[0].value];
      CollectKeys(ms[1..], acc', k);
      if k !in acc' {
        var i :| 0 <= i < |ms| - 1 && ms[1..][i].key == k;
        assert ms[i + 1].key == k;
      } else if k !in acc {
        assert ms[0].key == k;
      }
    }
  }

  /** An order in which the members of a map can be printed. */
  predicate Lists(ms: seq<Member>, m: Object) {
    && FreshKeys(ms, map[])
    && (forall i :: 0 <= i < |ms| ==> ms[i].key in m && m[ms[i].key] == ms[i].value)
    && (forall k :: k in m ==> exists i :: 0 <= i < |ms| && ms[i].key == k)
  }

  /** Members with distinct keys list one map, the one they collect into. */
  lemma CollectLists(ms: seq<Member>, m: Object)
    requires FreshKeys(ms, map[])
    ensures m == Collect(ms, map[]) <==> Lists(ms, m)
  {
    var c := Collect(ms, map[]);
    forall i | 0 <= i < |ms| ensures ms[i].key in c && c[ms[i].key] == ms[i].value { CollectLookup(ms, map[], i); }
    forall k | k in c ensures exists i :: 0 <= i < |ms| && ms[i].key == k { CollectKeys(ms, map[], k); }
    if Lists(ms, m) {
      forall k | k in m ensures k in c && c[k] == m[k] {
        var i :| 0 <= i < |ms| && ms[i].key == k;
      }
      assert c == m;
    }
  }

  /** Any finite map, printed in any order, parses back to itself. */
  lemma MapRoundTrip(m: Object, ms: seq<Member>)
    requires Lists(ms, m)
    ensures Parse(Print(ms)) == Some(m)
  {
    hide Print, Parse, Collect;
    ParsePrint(ms);
    CollectLists(ms, m);
  }

  /** The request body: within 64 KiB every map comes back from its printed form, and beyond
      that the body is refused whatever it holds. */
  lemma BodyRoundTrip(m: Object, ms: seq<Member>, body: string)
    requires Lists(ms, m)
    ensures ParseBody(Print(ms)) == if |Print(ms)| <= MAXIMUM_JSON_BYTES then Some(m) else None
    ensures |body| > MAXIMUM_JSON_BYTES ==> ParseBody(body) == None
  {
    hide Parse, Print, Lists;
    MapRoundTrip(m, ms);
  }
}
