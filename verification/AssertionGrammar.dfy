/** The language of the assertion's JSON reader as a grammar, independent of how it reads:
    every object it accepts under a schema and what the object means. */
module AssertionGrammar {
  import opened Text
  import opened AssertionJson

  // ---- Gaps ----

  predicate IsGap(w: string) { forall i :: 0 <= i < |w| ==> IsSpace(w[i]) }

  lemma {:induction false} GapIsSkipped(w: string, rest: string)
    requires IsGap(w) && (rest == "" || !IsSpace(rest[0]))
    ensures SkipSpace(w + rest) == rest
  {
    if w == "" {
      assert w + rest == rest;
    } else {
      assert (w + rest)[1..] == w[1..] + rest;
      GapIsSkipped(w[1..], rest);
    }
  }

  lemma {:induction false} GapAtFront(text: string) returns (w: string)
    ensures IsGap(w) && text == w + SkipSpace(text)
  {
    if text != "" && IsSpace(text[0]) {
      var more := GapAtFront(text[1..]);
      w := [text[0]] + more;
    } else {
      w := "";
    }
  }

  lemma GapThen(w: string, c: char, d: char, tail: string)
    requires IsGap(w) && !IsSpace(c)
    ensures Expect(w + ([c] + tail), d) == if c == d then Some(tail) else None
  {
    hide SkipSpace, IsGap;
    GapIsSkipped(w, [c] + tail);
    assert ([c] + tail)[1..] == tail;
  }

  lemma GapBefore(text: string, c: char) returns (w: string)
    requires Expect(text, c).Some?
    ensures IsGap(w) && text == w + ([c] + Expect(text, c).value)
  {
    hide SkipSpace, IsGap;
    w := GapAtFront(text);
    assert SkipSpace(text) == [c] + SkipSpace(text)[1..];
  }

  // ---- Strings ----

  /** One unit of a string literal: a character or a short escape. */
  datatype Unit = Plain(c: char) | Short(letter: char)

  predicate UnitOk(u: Unit) {
    match u
    case Plain(c) => c >= ' ' && c != '"' && c != '\\'
    case Short(e) => e in "\"\\/bfnrt"
  }

  function Spell(u: Unit): string {
    match u
    case Plain(c) => [c]
    case Short(e) => ['\\', e]
  }

  function Means(u: Unit): char {
    match u
    case Plain(c) => c
    case Short(e) =>
      if e == 'b' then '\U{8}' else if e == 'f' then '\U{c}' else if e == 'n' then '\n'
      else if e == 'r' then '\r' else if e == 't' then '\t' else e
  }

  predicate UnitsOk(us: seq<Unit>) { forall i :: 0 <= i < |us| ==> UnitOk(us[i]) }

  function SpellAll(us: seq<Unit>): string {
    if us == [] then "" else Spell(us[0]) + SpellAll(us[1..])
  }

  function MeansAll(us: seq<Unit>): string {
    if us == [] then "" else [Means(us[0])] + MeansAll(us[1..])
  }

  lemma UnitIsRead(u: Unit, more: string)
    requires UnitOk(u) && Unescape(more).Some?
    ensures Unescape(Spell(u) + more) == Some(([Means(u)] + Unescape(more).value.0, Unescape(more).value.1))
  {
    var t := Spell(u) + more;
    if u.Plain? {
      assert t[1..] == more;
    } else {
      assert t[2..] == more && t[0] == '\\' && t[1] == u.letter;
    }
  }

  lemma {:induction false} SpelledIsRead(us: seq<Unit>, tail: string)
    requires UnitsOk(us)
    ensures Unescape(SpellAll(us) + (['"'] + tail)) == Some((MeansAll(us), tail))
  {
    if us == [] {
      assert SpellAll(us) + (['"'] + tail) == ['"'] + tail;
    } else {
      hide Unescape, UnitOk, Spell, Means;
      var rest := SpellAll(us[1..]) + (['"'] + tail);
      SpelledIsRead(us[1..], tail);
      assert SpellAll(us) + (['"'] + tail) == Spell(us[0]) + rest;
      UnitIsRead(us[0], rest);
    }
  }

  lemma {:induction false} ReadIsSpelled(text: string) returns (us: seq<Unit>)
    requires Unescape(text).Some?
    ensures UnitsOk(us) && text == SpellAll(us) + (['"'] + Unescape(text).value.1)
    decreases |text|
  {
    if text[0] == '"' {
      us := [];
      assert text == ['"'] + text[1..];
    } else {
      var u := if text[0] != '\\' then Plain(text[0]) else Short(text[1]);
      var more := text[|Spell(u)|..];
      var rest := ReadIsSpelled(more);
      us := [u] + rest;
      assert us[1..] == rest;
      assert text == Spell(u) + more;
    }
  }

  /** A string literal with the gap before it. */
  datatype Literal = Literal(gap: string, units: seq<Unit>)

  predicate LiteralOk(l: Literal) { IsGap(l.gap) && UnitsOk(l.units) }

  function LiteralText(l: Literal): string { l.gap + (['"'] + (SpellAll(l.units) + ['"'])) }

  lemma LiteralIsRead(l: Literal, tail: string)
    requires LiteralOk(l)
    ensures ReadString(LiteralText(l) + tail) == Some((MeansAll(l.units), tail))
    ensures forall d | d != '"' :: Expect(LiteralText(l) + tail, d) == None
  {
    hide Expect, Unescape, IsGap, UnitsOk, SpellAll, MeansAll;
    var body := SpellAll(l.units) + (['"'] + tail);
    assert LiteralText(l) + tail == l.gap + (['"'] + body);
    SpelledIsRead(l.units, tail);
    GapThen(l.gap, '"', '"', body);
    forall d | d != '"' ensures Expect(LiteralText(l) + tail, d) == None { GapThen(l.gap, '"', d, body); }
  }

  lemma LiteralAtFront(text: string) returns (l: Literal)
    requires ReadString(text).Some?
    ensures LiteralOk(l) && text == LiteralText(l) + ReadString(text).value.1
    ensures MeansAll(l.units) == ReadString(text).value.0
  {
    hide Expect, Unescape, IsGap, UnitsOk, SpellAll, MeansAll;
    var gap := GapBefore(text, '"');
    var body := Expect(text, '"').value;
    var us := ReadIsSpelled(body);
    l := Literal(gap, us);
    LiteralIsRead(l, ReadString(text).value.1);
  }

  // ---- Values ----

  /** A list item with the gap before its comma; the first one has no comma. */
  datatype Item = Item(comma: string, literal: Literal)

  predicate ItemsOk(items: seq<Item>) { forall i :: 0 <= i < |items| ==> IsGap(items[i].comma) && LiteralOk(items[i].literal) }

  function Separator(comma: string, first: bool): string { if first then "" else comma + [','] }

  function ItemsText(items: seq<Item>, first: bool): string {
    if items == [] then ""
    else Separator(items[0].comma, first) + (LiteralText(items[0].literal) + ItemsText(items[1..], false))
  }

  function ItemsMean(items: seq<Item>): (r: seq<string>)
    ensures |r| == |items| && forall i :: 0 <= i < |items| ==> r[i] == MeansAll(items[i].literal.units)
  {
    seq(|items|, i requires 0 <= i < |items| => MeansAll(items[i].literal.units))
  }

  datatype Datum =
    | TextDatum(literal: Literal)
    | NumberDatum(gap: string, token: string, number: Int64)
    | ListDatum(gap: string, items: seq<Item>, close: string)

  predicate DatumOk(d: Datum) {
    match d
    case TextDatum(l) => LiteralOk(l)
    case NumberDatum(gap, token, n) => IsGap(gap) && FromChars(token) == Some(n)
    case ListDatum(gap, items, close) => IsGap(gap) && ItemsOk(items) && |items| <= MAXIMUM_ITEMS && IsGap(close)
  }

  function DatumText(d: Datum): string {
    match d
    case TextDatum(l) => LiteralText(l)
    case NumberDatum(gap, token, _) => gap + token
    case ListDatum(gap, items, close) => gap + (['['] + (ItemsText(items, true) + (close + [']'])))
  }

  function DatumMeans(d: Datum): Value {
    match d
    case TextDatum(l) => Str(MeansAll(l.units))
    case NumberDatum(_, _, n) => Int(n)
    case ListDatum(_, items, _) => List(ItemsMean(items))
  }

  lemma SeparatorIsRead(comma: string, first: bool, l: Literal, tail: string, end: char)
    requires IsGap(comma) && LiteralOk(l) && end != '"' && end != ','
    ensures var text := Separator(comma, first) + (LiteralText(l) + tail);
            && Expect(text, end) == None
            && (if first then text == LiteralText(l) + tail else Expect(text, ',') == Some(LiteralText(l) + tail))
  {
    hide Expect, LiteralText, IsGap, LiteralOk;
    var rest := LiteralText(l) + tail;
    if first {
      assert Separator(comma, first) + rest == rest;
      LiteralIsRead(l, tail);
    } else {
      assert Separator(comma, first) + rest == comma + ([','] + rest);
      GapThen(comma, ',', ',', rest);
      GapThen(comma, ',', end, rest);
    }
  }

  lemma {:induction false} ItemsAreRead(items: seq<Item>, first: bool, close: string, tail: string, acc: seq<string>)
    requires ItemsOk(items) && IsGap(close) && |acc| + |items| <= MAXIMUM_ITEMS
    ensures ReadItems(ItemsText(items, first) + (close + ([']'] + tail)), first, acc) == Some((acc + ItemsMean(items), tail))
    decreases |items|
  {
    hide Expect, ReadString, LiteralText, IsGap, LiteralOk, Separator, MeansAll;
    var end := close + ([']'] + tail);
    var text := ItemsText(items, first) + end;
    if items == [] {
      assert text == end;
      GapThen(close, ']', ']', tail);
      assert acc + ItemsMean(items) == acc;
    } else {
      var x := items[0];
      var rest := ItemsText(items[1..], false) + end;
      assert text == Separator(x.comma, first) + (LiteralText(x.literal) + rest);
      SeparatorIsRead(x.comma, first, x.literal, rest, ']');
      LiteralIsRead(x.literal, rest);
      var acc' := acc + [MeansAll(x.literal.units)];
      ItemsAreRead(items[1..], false, close, tail, acc');
      assert acc' + ItemsMean(items[1..]) == acc + ItemsMean(items);
    }
  }

  lemma SeparatorAtFront(text: string, first: bool) returns (comma: string)
    requires !first ==> Expect(text, ',').Some?
    ensures IsGap(comma) && text == Separator(comma, first) + (if first then text else Expect(text, ',').value)
  {
    hide Expect, IsGap;
    if first {
      comma := "";
      EmptyGap();
    } else {
      comma := GapBefore(text, ',');
    }
  }

  lemma EmptyGap()
    ensures IsGap("")
  {
  }

  lemma {:induction false} ItemsAtFront(text: string, first: bool, acc: seq<string>) returns (items: seq<Item>, close: string)
    requires ReadItems(text, first, acc).Some? && |acc| <= MAXIMUM_ITEMS
    ensures ItemsOk(items) && IsGap(close) && |acc| + |items| <= MAXIMUM_ITEMS
    ensures text == ItemsText(items, first) + (close + ([']'] + ReadItems(text, first, acc).value.1))
    decreases |text|
  {
    hide Expect, ReadString, LiteralText, IsGap, LiteralOk, Separator, MeansAll;
    if Expect(text, ']').Some? {
      items := [];
      close := GapBefore(text, ']');
    } else {
      var comma := SeparatorAtFront(text, first);
      var start := if first then text else Expect(text, ',').value;
      var l := LiteralAtFront(start);
      var item := ReadString(start).value;
      var more;
      more, close := ItemsAtFront(item.1, false, acc + [item.0]);
      items := [Item(comma, l)] + more;
      ItemsFirst(Item(comma, l), more, first, close + ([']'] + ReadItems(text, first, acc).value.1));
    }
  }

  lemma ItemsFirst(x: Item, more: seq<Item>, first: bool, tail: string)
    ensures ItemsText([x] + more, first) + tail ==
            Separator(x.comma, first) + (LiteralText(x.literal) + (ItemsText(more, false) + tail))
  {
    hide LiteralText, Separator;
    assert ([x] + more)[1..] == more;
  }

  // ---- Numbers ----

  predicate NoDigitFirst(tail: string) { tail == "" || !IsDigit(tail[0]) }

  lemma NumberIsRead(gap: string, token: string, n: Int64, tail: string)
    requires IsGap(gap) && FromChars(token) == Some(n) && NoDigitFirst(tail)
    ensures ReadInteger(gap + token + tail) == Some((n, tail))
  {
    hide SkipSpace, IsGap, DecimalValue;
    var r := token + tail;
    TokenShape(token);
    GapIsSkipped(gap, r);
    assert gap + token + tail == gap + r;
    if token[0] == '-' {
      DigitsThen(token[1..], tail);
      assert r[1..] == token[1..] + tail;
    } else {
      DigitsThen(token, tail);
      assert r[0..] == token + tail;
    }
    assert r[..|token|] == token && r[|token|..] == tail;
  }

  lemma TokenShape(token: string)
    requires FromChars(token).Some?
    ensures token != "" && !IsSpace(token[0])
    ensures token[0] == '-' ==> AllDigits(token[1..])
    ensures token[0] != '-' ==> AllDigits(token)
  {
    hide DecimalValue;
    if token[0] != '-' { assert IsDigit(token[0]); }
  }

  lemma NumberAtFront(text: string) returns (gap: string, token: string)
    requires ReadInteger(text).Some?
    ensures IsGap(gap) && FromChars(token) == Some(ReadInteger(text).value.0)
    ensures text == gap + token + ReadInteger(text).value.1
  {
    hide FromChars, SkipSpace, IsGap;
    gap := GapAtFront(text);
    var r := SkipSpace(text);
    var sign := if r != [] && r[0] == '-' then 1 else 0;
    token := r[..sign + DigitCount(r[sign..])];
    assert r == token + r[|token|..];
  }

  // ---- Data ----

  lemma DatumIsRead(d: Datum, tail: string)
    requires DatumOk(d) && (d.NumberDatum? ==> NoDigitFirst(tail))
    ensures ReadValue(KindOf(DatumMeans(d)), DatumText(d) + tail) == Some((DatumMeans(d), tail))
  {
    hide ReadString, ReadInteger, ReadItems, ItemsText, LiteralText, IsGap, LiteralOk, ItemsOk, FromChars, Expect, MeansAll;
    match d {
      case TextDatum(l) => LiteralIsRead(l, tail);
      case NumberDatum(gap, token, n) => NumberIsRead(gap, token, n, tail);
      case ListDatum(gap, items, close) =>
        var inner := ItemsText(items, true) + (close + ([']'] + tail));
        assert DatumText(d) + tail == gap + (['['] + inner);
        GapThen(gap, '[', '[', inner);
        ItemsAreRead(items, true, close, tail, []);
        assert [] + ItemsMean(items) == ItemsMean(items);
    }
  }

  lemma DatumAtFront(kind: Kind, text: string) returns (d: Datum)
    requires ReadValue(kind, text).Some?
    ensures DatumOk(d) && text == DatumText(d) + ReadValue(kind, text).value.1
    ensures KindOf(DatumMeans(d)) == kind
  {
    hide ReadString, ReadInteger, ReadItems, ItemsText, LiteralText, IsGap, LiteralOk, ItemsOk, FromChars, Expect, MeansAll;
    match kind {
      case StrKind =>
        var l := LiteralAtFront(text);
        d := TextDatum(l);
      case IntKind =>
        var gap, token := NumberAtFront(text);
        d := NumberDatum(gap, token, ReadInteger(text).value.0);
      case ListKind =>
        var gap := GapBefore(text, '[');
        var items, close := ItemsAtFront(Expect(text, '[').value, true, []);
        d := ListDatum(gap, items, close);
    }
  }

  // ---- Objects ----

  /** A name and its value, with the gaps before the comma (if any) and the colon. */
  datatype Member = Member(comma: string, name: Literal, colon: string, value: Datum)

  predicate MemberOk(m: Member) { IsGap(m.comma) && LiteralOk(m.name) && IsGap(m.colon) && DatumOk(m.value) }

  predicate MembersOk(ms: seq<Member>) { forall i :: 0 <= i < |ms| ==> MemberOk(ms[i]) }

  /** What follows a name. */
  function AfterName(m: Member): string { m.colon + ([':'] + DatumText(m.value)) }

  function MembersText(ms: seq<Member>, first: bool): string {
    if ms == [] then ""
    else Separator(ms[0].comma, first) + (LiteralText(ms[0].name) + (AfterName(ms[0]) + MembersText(ms[1..], false)))
  }

  function MemberField(m: Member): Field { Field(MeansAll(m.name.units), DatumMeans(m.value)) }

  function FieldsOf(ms: seq<Member>): (fs: seq<Field>)
    ensures |fs| == |ms| && forall i :: 0 <= i < |ms| ==> fs[i] == MemberField(ms[i])
  {
    seq(|ms|, i requires 0 <= i < |ms| => MemberField(ms[i]))
  }

  /** Every name is in the schema with the kind of its value, none of them in `acc` and none twice. */
  predicate Suits(schema: Schema, fs: seq<Field>, acc: Fields) {
    && (forall i :: 0 <= i < |fs| ==> fs[i].name !in acc && Lookup(schema, fs[i].name) == Some(KindOf(fs[i].value)))
    && (forall i, j :: 0 <= i < j < |fs| ==> fs[i].name != fs[j].name)
  }

  lemma SuitsStep(schema: Schema, fs: seq<Field>, acc: Fields)
    requires fs != []
    ensures Suits(schema, fs, acc) <==>
            && fs[0].name !in acc && Lookup(schema, fs[0].name) == Some(KindOf(fs[0].value))
            && Suits(schema, fs[1..], acc[fs[0].name := fs[0].value])
  {
    hide Lookup;
    var rest, acc' := fs[1..], acc[fs[0].name := fs[0].value];
    assert forall i :: 0 < i < |fs| ==> fs[i] == rest[i - 1];
    if fs[0].name !in acc && Lookup(schema, fs[0].name) == Some(KindOf(fs[0].value)) && Suits(schema, rest, acc') {
      forall i | 0 < i < |fs| ensures fs[i].name !in acc && fs[i].name != fs[0].name { assert rest[i - 1].name !in acc'; }
    }
  }

  lemma MembersThenNoDigit(ms: seq<Member>, close: string, tail: string)
    requires MembersOk(ms) && IsGap(close)
    ensures NoDigitFirst(MembersText(ms, false) + (close + (['}'] + tail)))
  {
    hide LiteralText, AfterName, IsGap, NoDigitFirst, LiteralOk, DatumOk;
    if ms == [] {
      GapNoDigit(close, '}', tail);
      assert MembersText(ms, false) + (close + (['}'] + tail)) == close + (['}'] + tail);
    } else {
      assert MemberOk(ms[0]);
      var end := close + (['}'] + tail);
      var rest := LiteralText(ms[0].name) + (AfterName(ms[0]) + MembersText(ms[1..], false));
      GapNoDigit(ms[0].comma, ',', rest + end);
      assert MembersText(ms, false) == ms[0].comma + [','] + rest;
      assert MembersText(ms, false) + end == ms[0].comma + ([','] + (rest + end));
    }
  }

  lemma GapNoDigit(w: string, c: char, tail: string)
    requires IsGap(w) && !IsDigit(c)
    ensures NoDigitFirst(w + ([c] + tail))
  {
  }

  lemma MemberIsRead(schema: Schema, m: Member, first: bool, acc: Fields, rest: string)
    requires MemberOk(m) && NoDigitFirst(rest)
    requires MemberField(m).name !in acc && Lookup(schema, MemberField(m).name) == Some(KindOf(MemberField(m).value))
    ensures var text := Separator(m.comma, first) + (LiteralText(m.name) + (AfterName(m) + rest));
            ReadMembers(schema, text, first, acc) ==
            ReadMembers(schema, rest, false, acc[MemberField(m).name := MemberField(m).value])
  {
    hide Expect, ReadString, ReadValue, LiteralText, IsGap, LiteralOk, DatumOk, DatumText, Lookup, Separator, MeansAll, KindOf, DatumMeans;
    var after := AfterName(m) + rest;
    SeparatorIsRead(m.comma, first, m.name, after, '}');
    LiteralIsRead(m.name, after);
    assert after == m.colon + ([':'] + (DatumText(m.value) + rest));
    GapThen(m.colon, ':', ':', DatumText(m.value) + rest);
    DatumIsRead(m.value, rest);
  }

  lemma {:induction false} MembersAreRead(schema: Schema, ms: seq<Member>, first: bool, close: string, tail: string, acc: Fields)
    requires MembersOk(ms) && IsGap(close) && Suits(schema, FieldsOf(ms), acc)
    ensures ReadMembers(schema, MembersText(ms, first) + (close + (['}'] + tail)), first, acc) ==
            Some((Collect(FieldsOf(ms), acc), tail))
    decreases |ms|
  {
    hide ReadMembers, LiteralText, IsGap, MemberOk, Separator, AfterName, MemberField, Suits, Lookup, NoDigitFirst, Collect;
    var end := close + (['}'] + tail);
    var fs := FieldsOf(ms);
    if ms == [] {
      assert MembersText(ms, first) + end == end;
      NoMembers(schema, close, tail, first, fs, acc);
    } else {
      var m := ms[0];
      assert MemberOk(m);
      var rest := MembersText(ms[1..], false) + end;
      assert MembersText(ms, first) + end == Separator(m.comma, first) + (LiteralText(m.name) + (AfterName(m) + rest));
      SuitsStep(schema, fs, acc);
      assert fs[1..] == FieldsOf(ms[1..]);
      MembersThenNoDigit(ms[1..], close, tail);
      MemberIsRead(schema, m, first, acc, rest);
      MembersAreRead(schema, ms[1..], false, close, tail, acc[fs[0].name := fs[0].value]);
      CollectStep(fs, acc);
    }
  }

  lemma NoMembers(schema: Schema, close: string, tail: string, first: bool, fs: seq<Field>, acc: Fields)
    requires IsGap(close) && fs == []
    ensures ReadMembers(schema, close + (['}'] + tail), first, acc) == Some((Collect(fs, acc), tail))
  {
    hide Expect, IsGap;
    GapThen(close, '}', '}', tail);
  }

  lemma CollectStep(fs: seq<Field>, acc: Fields)
    requires fs != []
    ensures Collect(fs, acc) == Collect(fs[1..], acc[fs[0].name := fs[0].value])
  {
  }

  lemma {:induction false} MembersAtFront(schema: Schema, text: string, first: bool, acc: Fields)
    returns (ms: seq<Member>, close: string)
    requires ReadMembers(schema, text, first, acc).Some?
    ensures MembersOk(ms) && IsGap(close) && Suits(schema, FieldsOf(ms), acc)
    ensures text == MembersText(ms, first) + (close + (['}'] + ReadMembers(schema, text, first, acc).value.1))
    decreases |text|
  {
    hide Expect, ReadString, ReadValue, LiteralText, IsGap, LiteralOk, DatumOk, DatumText, Lookup, Separator, MeansAll, KindOf, DatumMeans;
    if Expect(text, '}').Some? {
      ms := [];
      close := GapBefore(text, '}');
    } else {
      var m, rest := MemberAtFront(schema, text, first, acc);
      var more;
      var f := MemberField(m);
      more, close := MembersAtFront(schema, rest, false, acc[f.name := f.value]);
      ms := [m] + more;
      JoinMember(m, more, first, close + (['}'] + ReadMembers(schema, text, first, acc).value.1));
      assert FieldsOf(ms)[0] == f && FieldsOf(ms)[1..] == FieldsOf(more);
      SuitsStep(schema, FieldsOf(ms), acc);
    }
  }

  lemma JoinMember(m: Member, more: seq<Member>, first: bool, tail: string)
    ensures MembersText([m] + more, first) + tail ==
            Separator(m.comma, first) + (LiteralText(m.name) + (AfterName(m) + (MembersText(more, false) + tail)))
  {
    hide LiteralText, Separator, AfterName;
    assert ([m] + more)[1..] == more;
  }

  lemma MemberAtFront(schema: Schema, text: string, first: bool, acc: Fields) returns (m: Member, rest: string)
    requires Expect(text, '}').None? && ReadMembers(schema, text, first, acc).Some?
    ensures MemberOk(m) && |rest| < |text|
    ensures text == Separator(m.comma, first) + (LiteralText(m.name) + (AfterName(m) + rest))
    ensures var f := MemberField(m);
            && f.name !in acc && Lookup(schema, f.name) == Some(KindOf(f.value))
            && ReadMembers(schema, text, first, acc) == ReadMembers(schema, rest, false, acc[f.name := f.value])
  {
    hide Expect, ReadString, LiteralText, IsGap, LiteralOk, DatumOk, DatumText, Lookup, Separator, MeansAll;
    var comma := SeparatorAtFront(text, first);
    var start := if first then text else Expect(text, ',').value;
    var name := LiteralAtFront(start);
    var s := ReadString(start).value;
    var colon := GapBefore(s.1, ':');
    var after := Expect(s.1, ':').value;
    var kind := Lookup(schema, s.0).value;
    var value := DatumAtFront(kind, after);
    rest := ReadValue(kind, after).value.1;
    m := Member(comma, name, colon, value);
    assert AfterName(m) + rest == s.1;
    DatumValue(value, kind, after);
  }

  /** The value read is the one the datum means. */
  lemma DatumValue(d: Datum, kind: Kind, text: string)
    requires ReadValue(kind, text).Some? && DatumOk(d) && KindOf(DatumMeans(d)) == kind
    requires text == DatumText(d) + ReadValue(kind, text).value.1
    ensures ReadValue(kind, text).value.0 == DatumMeans(d)
  {
    hide ReadString, ReadItems, ItemsText, LiteralText, IsGap, LiteralOk, ItemsOk, FromChars, Expect, MeansAll;
    var tail := ReadValue(kind, text).value.1;
    if kind == IntKind {
      NumberEnds(text);
    }
    DatumIsRead(d, tail);
  }

  lemma NumberEnds(text: string)
    requires ReadInteger(text).Some?
    ensures NoDigitFirst(ReadInteger(text).value.1)
  {
  }

  // ---- The language ----

  /** A whole text: an object between gaps. */
  datatype Document = Document(before: string, members: seq<Member>, close: string, after: string)

  predicate DocumentOk(d: Document) { IsGap(d.before) && MembersOk(d.members) && IsGap(d.close) && IsGap(d.after) }

  function DocumentText(d: Document): string {
    d.before + (['{'] + (MembersText(d.members, true) + (d.close + (['}'] + d.after))))
  }

  predicate Occurs(fs: seq<Field>, n: string) { exists i :: 0 <= i < |fs| && fs[i].name == n }

  /** The members, in their order, are exactly the fields `f`. */
  predicate Lists(fs: seq<Field>, f: Fields) {
    && (forall i :: 0 <= i < |fs| ==> fs[i].name in f && f[fs[i].name] == fs[i].value)
    && (forall n :: n in f ==> Occurs(fs, n))
  }

  /** Every name of the schema and no other, each once and with a value of its kind. */
  predicate Covers(schema: Schema, fs: seq<Field>) {
    && (forall i, j :: 0 <= i < j < |fs| ==> fs[i].name != fs[j].name)
    && (forall i :: 0 <= i < |fs| ==> Lookup(schema, fs[i].name) == Some(KindOf(fs[i].value)))
    && (forall k :: 0 <= k < |schema| ==> Occurs(fs, schema[k].name))
  }

  predicate Denotes(schema: Schema, text: string, d: Document, f: Fields) {
    DocumentOk(d) && text == DocumentText(d) && Covers(schema, FieldsOf(d.members)) && Lists(FieldsOf(d.members), f)
  }

  lemma {:induction false} CollectKeys(fs: seq<Field>, acc: Fields, n: string)
    ensures n in Collect(fs, acc) ==> n in acc || Occurs(fs, n)
    decreases |fs|
  {
    if fs != [] && n in Collect(fs, acc) {
      var acc' := acc[fs[0].name := fs[0].value];
      CollectKeys(fs[1..], acc', n);
      if n !in acc' {
        var i :| 0 <= i < |fs| - 1 && fs[1..][i].name == n;
        assert fs[i + 1].name == n;
      } else if n !in acc {
        assert fs[0].name == n;
      }
    }
  }

  lemma CollectLists(fs: seq<Field>, f: Fields)
    requires forall i, j :: 0 <= i < j < |fs| ==> fs[i].name != fs[j].name
    ensures f == Collect(fs, map[]) <==> Lists(fs, f)
  {
    hide Collect;
    var c := Collect(fs, map[]);
    forall i | 0 <= i < |fs| ensures fs[i].name in c && c[fs[i].name] == fs[i].value { CollectLookup(fs, map[], i); }
    forall n | n in c ensures Occurs(fs, n) { CollectKeys(fs, map[], n); }
    if Lists(fs, f) {
      forall n | n in f ensures n in c && c[n] == f[n] {
        var i :| 0 <= i < |fs| && fs[i].name == n;
      }
      assert c == f;
    }
  }

  lemma DocumentIsRead(schema: Schema, d: Document)
    requires DocumentOk(d) && Covers(schema, FieldsOf(d.members))
    ensures ReadObject(schema, DocumentText(d)) == Some(Collect(FieldsOf(d.members), map[]))
  {
    hide Expect, ReadMembers, MembersText, IsGap, MembersOk, SkipSpace, Lookup, Collect;
    var fs := FieldsOf(d.members);
    var inner := MembersText(d.members, true) + (d.close + (['}'] + d.after));
    GapThen(d.before, '{', '{', inner);
    MembersAreRead(schema, d.members, true, d.close, d.after, map[]);
    GapIsSkipped(d.after, "");
    assert d.after + "" == d.after;
    forall k | 0 <= k < |schema| ensures schema[k].name in Collect(fs, map[]) {
      assert Occurs(fs, schema[k].name);
      var i :| 0 <= i < |fs| && fs[i].name == schema[k].name;
      CollectLookup(fs, map[], i);
    }
  }

  lemma DocumentOf(schema: Schema, text: string) returns (d: Document)
    requires ReadObject(schema, text).Some?
    ensures DocumentOk(d) && text == DocumentText(d) && Covers(schema, FieldsOf(d.members))
  {
    hide Expect, ReadMembers, MembersText, IsGap, MembersOk, SkipSpace, Lookup, Collect;
    var before := GapBefore(text, '{');
    var start := Expect(text, '{').value;
    var ms, close := MembersAtFront(schema, start, true, map[]);
    var r := ReadMembers(schema, start, true, map[]).value;
    var after := GapAtFront(r.1);
    assert after + "" == after;
    d := Document(before, ms, close, after);
    assert r.1 == after && text == DocumentText(d);
    var fs := FieldsOf(ms);
    MembersAreRead(schema, ms, true, close, after, map[]);
    assert Complete(schema, Collect(fs, map[]));
    forall k | 0 <= k < |schema| ensures Occurs(fs, schema[k].name) {
      CollectKeys(fs, map[], schema[k].name);
    }
    assert Covers(schema, fs);
  }

  /** The reader accepts exactly the objects of the grammar that hold every name of the schema
      once and no other, in any order and spacing, and answers with their values by name. */
  lemma ReadIff(schema: Schema, text: string, f: Fields)
    ensures ReadObject(schema, text) == Some(f) <==> exists d :: Denotes(schema, text, d, f)
  {
    hide ReadObject, DocumentOk, DocumentText, Lists, Collect;
    if ReadObject(schema, text) == Some(f) {
      var d := DocumentOf(schema, text);
      DocumentIsRead(schema, d);
      CollectLists(FieldsOf(d.members), f);
      assert Denotes(schema, text, d, f);
    }
    if d :| Denotes(schema, text, d, f) {
      DocumentIsRead(schema, d);
      CollectLists(FieldsOf(d.members), f);
    }
  }
}
