/** The language of the flat JSON parser as a grammar (RFC 8259, objects of strings and
    nulls), independent of how the parser reads: every text it accepts and what it means. */
module FlatJsonGrammar {
  import opened Text
  import opened FlatJson
  import Utf8

  // ---- Strings ----

  const LOWER_DIGITS := "0123456789abcdef"
  const UPPER_DIGITS := "0123456789ABCDEF"

  /** A hexadecimal digit of either case and its value. */
  predicate HexIs(c: char, n: nat) { n < 16 && (LOWER_DIGITS[n] == c || UPPER_DIGITS[n] == c) }

  lemma HexValueIff(c: char, n: nat)
    ensures HexValue(c) == Some(n) <==> HexIs(c, n)
  {
    if n < 16 {
      assert LOWER_DIGITS[n] == (if n < 10 then ('0' as int + n) as char else ('a' as int + n - 10) as char);
      assert UPPER_DIGITS[n] == (if n < 10 then ('0' as int + n) as char else ('A' as int + n - 10) as char);
    }
  }

  /** Four digits of either case denote `n`, most significant first. */
  ghost predicate Hex4Is(d: string, n: nat) {
    |d| == 4 && exists a: nat, b: nat, c: nat, e: nat ::
      HexIs(d[0], a) && HexIs(d[1], b) && HexIs(d[2], c) && HexIs(d[3], e) && n == 4096 * a + 256 * b + 16 * c + e
  }

  lemma ReadHex4Iff(rest: string, n: nat)
    ensures ReadHex4(rest) == Some(n) <==> |rest| >= 4 && Hex4Is(rest[..4], n)
  {
    hide HexValue, HexIs;
    if |rest| >= 4 {
      var d := rest[..4];
      assert d[0] == rest[0] && d[1] == rest[1] && d[2] == rest[2] && d[3] == rest[3];
      forall i, m: nat | 0 <= i < 4 ensures HexValue(d[i]) == Some(m) <==> HexIs(d[i], m) { HexValueIff(d[i], m); }
      if Hex4Is(d, n) {
        var a: nat, b: nat, c: nat, e: nat :|
          HexIs(d[0], a) && HexIs(d[1], b) && HexIs(d[2], c) && HexIs(d[3], e) && n == 4096 * a + 256 * b + 16 * c + e;
        assert HexValue(d[0]) == Some(a) && HexValue(d[1]) == Some(b) && HexValue(d[2]) == Some(c) && HexValue(d[3]) == Some(e);
      }
      if ReadHex4(rest) == Some(n) {
        var a, b, c, e := HexValue(d[0]).value, HexValue(d[1]).value, HexValue(d[2]).value, HexValue(d[3]).value;
        assert HexIs(d[0], a) && HexIs(d[1], b) && HexIs(d[2], c) && HexIs(d[3], e);
      }
    }
  }

  /** One unit of a string literal: a character, a short escape, or an escaped scalar value. */
  datatype Unit = Plain(c: char) | Short(letter: char) | Code(digits: string, value: nat) | Pair(high: string, low: string, value: nat)

  ghost predicate UnitOk(u: Unit) {
    match u
    case Plain(c) => c >= ' ' && c != '"' && c != '\\'
    case Short(e) => e in "\"\\/bfnrt"
    case Code(d, v) => Hex4Is(d, v) && Utf8.IsScalar(v)
    case Pair(h, l, v) =>
      && 0x10000 <= v <= 0x10ffff
      && Hex4Is(h, 0xd800 + (v - 0x10000) / 1024) && Hex4Is(l, 0xdc00 + (v - 0x10000) % 1024)
  }

  function Spell(u: Unit): string {
    match u
    case Plain(c) => [c]
    case Short(e) => ['\\', e]
    case Code(d, _) => "\\u" + d
    case Pair(h, l, _) => "\\u" + h + ("\\u" + l)
  }

  /** The bytes it stands for. */
  function Means(u: Unit): string {
    match u
    case Plain(c) => [c]
    case Short(e) =>
      if e == 'b' then ['\U{8}'] else if e == 'f' then ['\U{c}'] else if e == 'n' then "\n"
      else if e == 'r' then "\r" else if e == 't' then "\t" else [e]
    case Code(_, v) => if Utf8.Encode(v).Some? then Utf8.Encode(v).value else ""
    case Pair(_, _, v) => if Utf8.Encode(v).Some? then Utf8.Encode(v).value else ""
  }

  ghost predicate UnitsOk(us: seq<Unit>) { forall i :: 0 <= i < |us| ==> UnitOk(us[i]) }

  function SpellAll(us: seq<Unit>): string {
    if us == [] then "" else Spell(us[0]) + SpellAll(us[1..])
  }

  function MeansAll(us: seq<Unit>): string {
    if us == [] then "" else Means(us[0]) + MeansAll(us[1..])
  }

  // ---- A spelled string is read, and what is read is spelled ----

  lemma ScalarEncodes(v: nat)
    requires Utf8.IsScalar(v)
    ensures Utf8.Encode(v).Some?
  {
    Utf8.DecodeEncode(v);
  }

  lemma CodeIsRead(d: string, v: nat, more: string)
    requires Hex4Is(d, v) && Utf8.IsScalar(v)
    ensures ReadUnicode(d + more) == Some((Means(Code(d, v)), more))
  {
    hide Hex4Is, Utf8.Encode, ReadHex4;
    DigitsAreFour(d, v);
    var text := d + more;
    assert text[..4] == d && text[4..] == more;
    ReadHex4Iff(text, v);
    ScalarEncodes(v);
    ReadBmp(text, v);
  }

  lemma DigitsAreFour(d: string, v: nat)
    requires Hex4Is(d, v)
    ensures |d| == 4
  {
  }

  lemma PairIsRead(h: string, l: string, v: nat, more: string)
    requires UnitOk(Pair(h, l, v))
    ensures ReadUnicode(h + ("\\u" + (l + more))) == Some((Means(Pair(h, l, v)), more))
  {
    hide Hex4Is, Utf8.Encode, ReadHex4;
    var w := v - 0x10000;
    var high, low := 0xd800 + w / 1024, 0xdc00 + w % 1024;
    DigitsAreFour(h, high);
    DigitsAreFour(l, low);
    var second := l + more;
    var text := h + ("\\u" + second);
    assert text[..4] == h && text[4..] == "\\u" + second && second[..4] == l && second[4..] == more;
    ReadHex4Iff(text, high);
    ReadHex4Iff(second, low);
    PairCombines(w);
    ScalarEncodes(v);
    ReadPair(text, high, second, low);
  }

  lemma EscapedIsRead(rest: string, s: string, more: string)
    requires ReadEscape(rest) == Some((s, more))
    ensures ReadBody(['\\'] + rest) == Prepend(s, ReadBody(more))
  {
    hide ReadEscape;
    assert (['\\'] + rest)[1..] == rest;
  }

  lemma UnitIsRead(u: Unit, more: string)
    requires UnitOk(u)
    ensures ReadBody(Spell(u) + more) == Prepend(Means(u), ReadBody(more))
  {
    hide Hex4Is, ReadUnicode, ReadEscape, Means, ReadBody, Spell, Prepend;
    SpellParts(u, more);
    match u {
      case Plain(c) => PlainIsRead(c, more);
      case Short(e) =>
        ShortIsRead(e, more);
        EscapedIsRead([e] + more, Means(u), more);
      case Code(d, v) =>
        EscapeIsUnicode(d + more);
        CodeIsRead(d, v, more);
        EscapedIsRead(['u'] + (d + more), Means(u), more);
      case Pair(h, l, v) =>
        var rest := h + ("\\u" + (l + more));
        EscapeIsUnicode(rest);
        PairIsRead(h, l, v, more);
        EscapedIsRead(['u'] + rest, Means(u), more);
    }
  }

  lemma SpellParts(u: Unit, more: string)
    ensures Spell(u) + more ==
            match u
            case Plain(c) => [c] + more
            case Short(e) => ['\\'] + ([e] + more)
            case Code(d, _) => ['\\'] + (['u'] + (d + more))
            case Pair(h, l, _) => ['\\'] + (['u'] + (h + ("\\u" + (l + more))))
  {
  }

  lemma PlainIsRead(c: char, more: string)
    requires UnitOk(Plain(c))
    ensures ReadBody([c] + more) == Prepend(Means(Plain(c)), ReadBody(more))
  {
    assert ([c] + more)[1..] == more;
  }

  lemma ShortIsRead(e: char, more: string)
    requires e in "\"\\/bfnrt"
    ensures ReadEscape([e] + more) == Some((Means(Short(e)), more))
  {
    hide ReadUnicode;
    assert ([e] + more)[1..] == more;
  }

  lemma {:induction false} SpelledIsRead(us: seq<Unit>, tail: string)
    requires UnitsOk(us)
    ensures ReadBody(SpellAll(us) + (['"'] + tail)) == Some((MeansAll(us), tail))
  {
    hide UnitOk, ReadEscape, Spell, Means;
    if us == [] {
      assert SpellAll(us) + (['"'] + tail) == ['"'] + tail && (['"'] + tail)[1..] == tail;
    } else {
      hide ReadBody;
      var rest := SpellAll(us[1..]) + (['"'] + tail);
      SpelledIsRead(us[1..], tail);
      assert SpellAll(us) + (['"'] + tail) == Spell(us[0]) + rest;
      UnitIsRead(us[0], rest);
    }
  }

  /** The unit at the front of a text that can be read as a string. */
  lemma UnitAtFront(text: string) returns (u: Unit, more: string)
    requires text != "" && text[0] != '"' && ReadBody(text).Some?
    ensures UnitOk(u) && text == Spell(u) + more
  {
    hide ReadUnicode, Hex4Is, Utf8.Encode;
    if text[0] != '\\' {
      u, more := Plain(text[0]), text[1..];
    } else {
      var rest := text[1..];
      assert text == ['\\'] + rest && rest != "";
      assert rest == [rest[0]] + rest[1..];
      if rest[0] == 'u' {
        EscapeIsUnicode(rest[1..]);
        u, more := CodeAtFront(rest[1..]);
        assert Spell(u) + more == "\\u" + rest[1..];
      } else {
        u, more := Short(rest[0]), rest[1..];
      }
    }
  }

  lemma CodeAtFront(rest: string) returns (u: Unit, more: string)
    requires ReadUnicode(rest).Some?
    ensures UnitOk(u) && (u.Code? || u.Pair?) && Spell(u) + more == "\\u" + rest
  {
    hide Hex4Is, Utf8.Encode, ReadHex4;
    var code := ReadHex4(rest).value;
    ReadHex4Iff(rest, code);
    var d, after := rest[..4], rest[4..];
    assert rest == d + after;
    if IsHigh(code) {
      var second := after[2..];
      var low := ReadHex4(second).value;
      ReadHex4Iff(second, low);
      assert after == "\\u" + second && second == second[..4] + second[4..];
      var v := Combine(code, low);
      CombineSplits(code, low);
      u, more := Pair(d, second[..4], v), second[4..];
      assert Spell(u) + more == "\\u" + (d + ("\\u" + (second[..4] + more)));
    } else {
      u, more := Code(d, code), after;
    }
  }

  lemma CombineSplits(high: nat, low: nat)
    requires IsHigh(high) && IsLow(low)
    ensures var v := Combine(high, low);
            && 0x10000 <= v <= 0x10ffff
            && high == 0xd800 + (v - 0x10000) / 1024 && low == 0xdc00 + (v - 0x10000) % 1024
  {
  }

  lemma {:induction false} ReadIsSpelled(text: string) returns (us: seq<Unit>)
    requires ReadBody(text).Some?
    ensures UnitsOk(us)
    ensures text == SpellAll(us) + (['"'] + ReadBody(text).value.1) && MeansAll(us) == ReadBody(text).value.0
    decreases |text|
  {
    hide UnitOk, ReadEscape, Means;
    if text != "" && text[0] == '"' {
      us := [];
      assert text == ['"'] + text[1..];
    } else {
      var u, more := UnitAtFront(text);
      UnitIsRead(u, more);
      SpellIsNotEmpty(u);
      var rest := ReadIsSpelled(more);
      us := [u] + rest;
      SpellFirst(u, rest, ['"'] + ReadBody(more).value.1);
    }
  }

  lemma SpellIsNotEmpty(u: Unit)
    ensures |Spell(u)| > 0
  {
  }

  lemma SpellFirst(u: Unit, rest: seq<Unit>, tail: string)
    ensures SpellAll([u] + rest) + tail == Spell(u) + (SpellAll(rest) + tail)
    ensures MeansAll([u] + rest) == Means(u) + MeansAll(rest)
  {
    hide Spell, Means;
    assert ([u] + rest)[1..] == rest;
  }

  // ---- Objects, with whitespace between the tokens ----

  predicate IsGap(w: string) { forall i :: 0 <= i < |w| ==> IsSpace(w[i]) }

  predicate NoGapFirst(rest: string) { rest == "" || !IsSpace(rest[0]) }

  lemma {:induction false} GapIsSkipped(w: string, rest: string)
    requires IsGap(w) && NoGapFirst(rest)
    ensures SkipSpace(w + rest) == rest
  {
    if w == "" {
      assert w + rest == rest;
    } else {
      assert (w + rest)[1..] == w[1..] + rest;
      GapIsSkipped(w[1..], rest);
    }
  }

  lemma {:induction false} GapAtFront(text: string) returns (w: string)
    ensures IsGap(w) && text == w + SkipSpace(text) && NoGapFirst(SkipSpace(text))
  {
    if text != "" && IsSpace(text[0]) {
      var more := GapAtFront(text[1..]);
      w := [text[0]] + more;
    } else {
      w := "";
    }
  }

  function Literal(us: seq<Unit>): string { ['"'] + (SpellAll(us) + ['"']) }

  function ValueText(v: Option<seq<Unit>>): string { if v.Some? then Literal(v.value) else "null" }

  ghost predicate ValueOk(v: Option<seq<Unit>>) { v.Some? ==> UnitsOk(v.value) }

  function ValueMeans(v: Option<seq<Unit>>): Option<string> { if v.Some? then Some(MeansAll(v.value)) else None }

  /** A key and a value, with the gaps before and after each of them. */
  datatype Entry = Entry(before: string, key: seq<Unit>, colon: string, middle: string, value: Option<seq<Unit>>, after: string)

  ghost predicate EntryOk(e: Entry) {
    IsGap(e.before) && UnitsOk(e.key) && IsGap(e.colon) && IsGap(e.middle) && ValueOk(e.value) && IsGap(e.after)
  }

  ghost predicate EntriesOk(es: seq<Entry>) { forall i :: 0 <= i < |es| ==> EntryOk(es[i]) }

  /** The text of an entry, up to its value. */
  function EntryText(e: Entry): string {
    e.before + (Literal(e.key) + (e.colon + ([':'] + (e.middle + ValueText(e.value)))))
  }

  function EntriesText(es: seq<Entry>): string
    requires es != []
  {
    EntryText(es[0]) + (es[0].after + if |es| == 1 then "" else [','] + EntriesText(es[1..]))
  }

  function EntryMember(e: Entry): Member { Member(MeansAll(e.key), ValueMeans(e.value)) }

  function Members(es: seq<Entry>): (ms: seq<Member>)
    ensures |ms| == |es| && forall i :: 0 <= i < |es| ==> ms[i] == EntryMember(es[i])
  {
    seq(|es|, i requires 0 <= i < |es| => EntryMember(es[i]))
  }

  /** A whole text: an object between gaps; `inner` is what stands between the braces of an empty one. */
  datatype Document = Document(before: string, entries: seq<Entry>, inner: string, after: string)

  ghost predicate DocumentOk(d: Document) {
    IsGap(d.before) && EntriesOk(d.entries) && IsGap(d.inner) && IsGap(d.after)
  }

  function DocumentText(d: Document): string {
    d.before + (['{'] + ((if d.entries == [] then d.inner else EntriesText(d.entries)) + (['}'] + d.after)))
  }

  // ---- A document is parsed ----

  lemma LiteralIsRead(us: seq<Unit>, tail: string)
    requires UnitsOk(us)
    ensures ReadString(Literal(us) + tail) == Some((MeansAll(us), tail))
  {
    hide ReadBody, UnitsOk, SpellAll, MeansAll;
    SpelledIsRead(us, tail);
    var body := SpellAll(us) + (['"'] + tail);
    assert Literal(us) + tail == ['"'] + body;
    assert (['"'] + body)[1..] == body;
  }

  lemma ValueIsRead(v: Option<seq<Unit>>, tail: string)
    requires ValueOk(v)
    ensures ReadValue(ValueText(v) + tail) == Some((ValueMeans(v), tail)) && NoGapFirst(ValueText(v) + tail)
  {
    hide ReadString, UnitsOk, SpellAll, MeansAll;
    if v.Some? {
      LiteralIsRead(v.value, tail);
      assert (Literal(v.value) + tail)[0] == '"';
    } else {
      var t := "null" + tail;
      assert t[..4] == "null" && t[4..] == tail;
    }
  }

  lemma EntryIsRead(e: Entry, tail: string)
    requires EntryOk(e)
    ensures ReadMember(EntryText(e) + tail) == Some((EntryMember(e), tail))
  {
    hide ReadString, ReadValue, SkipSpace, IsGap, UnitsOk, ValueOk, ValueText, Literal, MeansAll, ValueMeans;
    var value := ValueText(e.value) + tail;
    ValueIsRead(e.value, tail);
    GapIsSkipped(e.middle, value);
    var after := [':'] + (e.middle + value);
    assert after[1..] == e.middle + value && NoGapFirst(after);
    GapIsSkipped(e.colon, after);
    var key := Literal(e.key) + (e.colon + after);
    LiteralIsRead(e.key, e.colon + after);
    LiteralQuote(e.key, e.colon + after);
    GapIsSkipped(e.before, key);
    EntryParts(e, tail);
  }

  lemma LiteralQuote(us: seq<Unit>, tail: string)
    ensures Literal(us) + tail != "" && (Literal(us) + tail)[0] == '"' && NoGapFirst(Literal(us) + tail)
  {
  }

  lemma EntryParts(e: Entry, tail: string)
    ensures EntryText(e) + tail ==
            e.before + (Literal(e.key) + (e.colon + ([':'] + (e.middle + (ValueText(e.value) + tail)))))
  {
    hide Literal, ValueText;
  }

  lemma {:induction false} EntriesAreRead(es: seq<Entry>, tail: string, acc: Object)
    requires es != [] && EntriesOk(es)
    ensures ReadMembers(EntriesText(es) + (['}'] + tail), acc) ==
            if FreshKeys(Members(es), acc) then Some((Collect(Members(es), acc), tail)) else None
    decreases |es|
  {
    hide ReadMember, EntryText, EntryMember, IsGap, SkipSpace, FreshKeys, Collect;
    var e, ms := es[0], Members(es);
    assert EntryOk(e);
    var m := ms[0];
    FreshStep(ms, acc);
    assert ms[1..] == Members(es[1..]);
    var acc' := acc[m.key := m.value];
    CollectStep(ms, acc);
    if |es| == 1 {
      var more := ['}'] + tail;
      assert EntriesText(es) + more == EntryText(e) + (e.after + more);
      EntryIsRead(e, e.after + more);
      GapIsSkipped(e.after, more);
      assert more[1..] == tail;
      NothingLeft(ms[1..], acc');
    } else {
      var rest := EntriesText(es[1..]) + (['}'] + tail);
      var more := [','] + rest;
      assert EntriesText(es) + (['}'] + tail) == EntryText(e) + (e.after + more);
      EntryIsRead(e, e.after + more);
      GapIsSkipped(e.after, more);
      EntriesAreRead(es[1..], tail, acc');
      assert more[1..] == rest;
    }
  }

  lemma CollectStep(ms: seq<Member>, acc: Object)
    requires ms != []
    ensures Collect(ms, acc) == Collect(ms[1..], acc[ms[0].key := ms[0].value])
  {
  }

  lemma NothingLeft(ms: seq<Member>, acc: Object)
    requires ms == []
    ensures FreshKeys(ms, acc) && Collect(ms, acc) == acc
  {
  }

  /** Where the members start does not depend on a gap before them. */
  lemma GapBeforeMembers(text: string, acc: Object)
    ensures ReadMembers(SkipSpace(text), acc) == ReadMembers(text, acc)
  {
    hide SkipSpace;
    var w := GapAtFront(text);
    GapIsSkipped("", SkipSpace(text));
    assert "" + SkipSpace(text) == SkipSpace(text);
    hide ReadString, ReadValue;
    assert ReadMember(SkipSpace(text)) == ReadMember(text);
  }

  lemma DocumentIsParsed(d: Document)
    requires DocumentOk(d)
    ensures Parse(DocumentText(d)) ==
            if FreshKeys(Members(d.entries), map[]) then Some(Collect(Members(d.entries), map[])) else None
  {
    hide SkipSpace, IsGap, ReadMembers, EntriesText, FreshKeys, Collect, EntriesOk;
    var end := ['}'] + d.after;
    var inside := (if d.entries == [] then d.inner else EntriesText(d.entries)) + end;
    assert (['{'] + inside)[1..] == inside && end[1..] == d.after;
    GapIsSkipped(d.before, ['{'] + inside);
    GapIsSkipped(d.after, "");
    assert d.after + "" == d.after;
    if d.entries == [] {
      GapIsSkipped(d.inner, end);
      NothingLeft(Members(d.entries), map[]);
    } else {
      EntriesAreRead(d.entries, d.after, map[]);
      GapBeforeMembers(inside, map[]);
      EntriesStartWithQuote(d.entries, end);
    }
  }

  lemma EntriesStartWithQuote(es: seq<Entry>, tail: string)
    requires es != [] && EntriesOk(es)
    ensures SkipSpace(EntriesText(es) + tail) != "" && SkipSpace(EntriesText(es) + tail)[0] == '"'
  {
    hide Literal, ValueText, SkipSpace, IsGap, UnitsOk, ValueOk;
    var e := es[0];
    assert EntryOk(e);
    var after := e.colon + ([':'] + (e.middle + ValueText(e.value)));
    var rest := after + (e.after + (if |es| == 1 then "" else [','] + EntriesText(es[1..])) + tail);
    assert EntriesText(es) + tail == e.before + (Literal(e.key) + rest);
    LiteralQuote(e.key, rest);
    GapIsSkipped(e.before, Literal(e.key) + rest);
  }

  // ---- What is parsed is a document ----

  lemma LiteralAtFront(text: string) returns (us: seq<Unit>)
    requires ReadString(text).Some?
    ensures UnitsOk(us) && text == Literal(us) + ReadString(text).value.1
  {
    hide UnitsOk, ReadBody, SpellAll, MeansAll;
    us := ReadIsSpelled(text[1..]);
    assert text == ['"'] + text[1..];
  }

  lemma ValueAtFront(text: string) returns (v: Option<seq<Unit>>)
    requires ReadValue(text).Some?
    ensures ValueOk(v) && text == ValueText(v) + ReadValue(text).value.1
  {
    hide UnitsOk, ReadString, Literal;
    if text[0] == '"' {
      var us := LiteralAtFront(text);
      v := Some(us);
    } else {
      v := None;
      assert text == text[..4] + text[4..];
    }
  }

  /** The entry at the front of the members, with the gap that follows it. */
  lemma EntryAtFront(text: string) returns (e: Entry)
    requires ReadMember(text).Some?
    ensures EntryOk(e)
    ensures var rest := ReadMember(text).value.1;
            text == EntryText(e) + (e.after + SkipSpace(rest)) && rest == e.after + SkipSpace(rest)
  {
    hide SkipSpace, IsGap, ReadString, ReadValue, UnitsOk, ValueOk, Literal, ValueText;
    var before := GapAtFront(text);
    var key := LiteralAtFront(SkipSpace(text));
    var afterKey := ReadString(SkipSpace(text)).value.1;
    var colon := GapAtFront(afterKey);
    var afterColon := SkipSpace(afterKey)[1..];
    assert SkipSpace(afterKey) == [':'] + afterColon;
    var middle := GapAtFront(afterColon);
    var value := ValueAtFront(SkipSpace(afterColon));
    var rest := ReadValue(SkipSpace(afterColon)).value.1;
    var after := GapAtFront(rest);
    e := Entry(before, key, colon, middle, value, after);
    EntryParts(e, rest);
  }

  lemma {:induction false} EntriesAtFront(text: string, acc: Object) returns (es: seq<Entry>)
    requires ReadMembers(text, acc).Some?
    ensures es != [] && EntriesOk(es)
    ensures text == EntriesText(es) + (['}'] + ReadMembers(text, acc).value.1)
    decreases |text|
  {
    hide ReadMember, EntryText, EntryOk, SkipSpace;
    var e := EntryAtFront(text);
    var m := ReadMember(text).value;
    var acc' := acc[m.0.key := m.0.value];
    var r := SkipSpace(m.1);
    assert r != "" && r == [r[0]] + r[1..];
    if r[0] == '}' {
      es := [e];
    } else {
      var more := EntriesAtFront(r[1..], acc');
      es := [e] + more;
      assert es[1..] == more;
      JoinEntry(e, more, ['}'] + ReadMembers(r[1..], acc').value.1);
    }
  }

  lemma JoinEntry(e: Entry, more: seq<Entry>, tail: string)
    requires more != []
    ensures EntriesText([e] + more) + tail == EntryText(e) + (e.after + ([','] + (EntriesText(more) + tail)))
  {
    hide EntryText;
    assert ([e] + more)[1..] == more;
  }

  lemma DocumentOf(text: string) returns (d: Document)
    requires Parse(text).Some?
    ensures DocumentOk(d) && text == DocumentText(d)
  {
    hide SkipSpace, ReadMembers, EntriesText, EntriesOk, IsGap;
    var before := GapAtFront(text);
    var start := SkipSpace(text)[1..];
    assert SkipSpace(text) == ['{'] + start;
    var inner := GapAtFront(start);
    var first := SkipSpace(start);
    if Expect(first, '}').Some? {
      assert first == ['}'] + first[1..];
      var after := GapAtFront(first[1..]);
      assert after + "" == after;
      NoEntries();
      d := Document(before, [], inner, after);
    } else {
      GapBeforeMembers(start, map[]);
      var es := EntriesAtFront(start, map[]);
      var tail := ReadMembers(start, map[]).value.1;
      var after := GapAtFront(tail);
      assert after + "" == after;
      d := Document(before, es, inner, after);
    }
  }

  lemma NoEntries()
    ensures EntriesOk([])
  {
  }

  // ---- The language ----

  /** A well-formed text of which no key occurs twice and whose entries are those of `m`. */
  ghost predicate Denotes(text: string, d: Document, m: Object) {
    DocumentOk(d) && text == DocumentText(d) && Lists(Members(d.entries), m)
  }

  /** The parser accepts exactly the texts of the grammar whose keys are distinct, and answers
      with the map of their entries, however they are spelled, ordered and spaced. */
  lemma ParseIff(text: string, m: Object)
    ensures Parse(text) == Some(m) <==> exists d :: Denotes(text, d, m)
  {
    hide Parse, DocumentOk, DocumentText, Lists, Collect, FreshKeys;
    if Parse(text) == Some(m) {
      var d := DocumentOf(text);
      DocumentIsParsed(d);
      CollectLists(Members(d.entries), m);
      assert Denotes(text, d, m);
    }
    if d :| Denotes(text, d, m) {
      DocumentIsParsed(d);
      ListsFresh(Members(d.entries), m);
      CollectLists(Members(d.entries), m);
    }
  }

  lemma ListsFresh(ms: seq<Member>, m: Object)
    requires Lists(ms, m)
    ensures FreshKeys(ms, map[])
  {
  }
}
