/** The JSON reader and printer of the identity code, on the unread part of the input:
    a reading function takes what is left and returns a value and what is left after
    it, or None where the source throws. Objects are read against a schema that says
    which names may occur, once each, and what kind of value each has. */
module AssertionJson {
  import opened Text

  type Int64 = x: int | InInt64(x)

  datatype Value = Str(text: string) | Int(number: Int64) | List(items: seq<string>)
  datatype Kind = StrKind | IntKind | ListKind

  function KindOf(v: Value): Kind {
    match v
    case Str(_) => StrKind
    case Int(_) => IntKind
    case List(_) => ListKind
  }

  datatype Entry = Entry(name: string, kind: Kind)
  type Schema = seq<Entry>
  type Fields = map<string, Value>

  function Lookup(schema: Schema, name: string): Option<Kind> {
    if schema == [] then None
    else if schema[0].name == name then Some(schema[0].kind)
    else Lookup(schema[1..], name)
  }

  predicate DistinctNames(schema: Schema) {
    forall i, j :: 0 <= i < j < |schema| ==> schema[i].name != schema[j].name
  }

  lemma {:induction false} LookupAt(schema: Schema, i: nat)
    requires DistinctNames(schema) && i < |schema|
    ensures Lookup(schema, schema[i].name) == Some(schema[i].kind)
  {
    if i > 0 { LookupAt(schema[1..], i - 1); }
  }

  const MAXIMUM_ITEMS := 8

  // ---- Printing ----

  predicate Escapable(s: string) {
    forall i :: 0 <= i < |s| ==> s[i] == '\U{8}' || s[i] == '\U{c}' || s[i] in "\n\r\t" || ' ' <= s[i] <= '~'
  }

  function EscapeChar(c: char): string {
    match c
    case '"' => "\\\""
    case '\\' => "\\\\"
    case '\U{8}' => "\\b"
    case '\U{c}' => "\\f"
    case '\n' => "\\n"
    case '\r' => "\\r"
    case '\t' => "\\t"
    case _ => [c]
  }

  function Escape(s: string): string {
    if s == [] then [] else EscapeChar(s[0]) + Escape(s[1..])
  }

  function PrintString(s: string): string { "\"" + Escape(s) + "\"" }

  function PrintItems(items: seq<string>, first: bool): string {
    if items == [] then []
    else (if first then "" else ",") + PrintString(items[0]) + PrintItems(items[1..], false)
  }

  function PrintValue(v: Value): string {
    match v
    case Str(s) => PrintString(s)
    case Int(n) => PrintInt(n)
    case List(items) => "[" + PrintItems(items, true) + "]"
  }

  datatype Field = Field(name: string, value: Value)

  function PrintField(f: Field): string { PrintString(f.name) + ":" + PrintValue(f.value) }

  function PrintFields(fs: seq<Field>, first: bool): string {
    if fs == [] then []
    else (if first then "" else ",") + PrintField(fs[0]) + PrintFields(fs[1..], false)
  }

  function PrintObject(fs: seq<Field>): string { "{" + PrintFields(fs, true) + "}" }

  predicate Printable(v: Value) {
    match v
    case Str(s) => Escapable(s)
    case Int(n) => true
    case List(items) => |items| <= MAXIMUM_ITEMS && forall i :: 0 <= i < |items| ==> Escapable(items[i])
  }

  // ---- Reading ----

  predicate IsSpace(c: char) { c == ' ' || '\t' <= c <= '\r' }

  function SkipSpace(rest: string): (r: string)
    ensures |r| <= |rest|
  {
    if rest != [] && IsSpace(rest[0]) then SkipSpace(rest[1..]) else rest
  }

  /** Whitespace, then exactly `c`. */
  function Expect(rest: string, c: char): (r: Option<string>)
    ensures r.Some? ==> |r.value| < |rest|
  {
    var r := SkipSpace(rest);
    if r != [] && r[0] == c then Some(r[1..]) else None
  }

  function Unescaped(c: char): Option<char> {
    match c
    case '"' => Some('"')
    case '\\' => Some('\\')
    case '/' => Some('/')
    case 'b' => Some('\U{8}')
    case 'f' => Some('\U{c}')
    case 'n' => Some('\n')
    case 'r' => Some('\r')
    case 't' => Some('\t')
    case _ => None
  }

  /** The rest of a string literal, up to and including its closing quote. */
  function Unescape(rest: string): (r: Option<(string, string)>)
    ensures r.Some? ==> |r.value.1| < |rest|
  {
    if rest == [] then None
    else if rest[0] == '"' then Some(("", rest[1..]))
    else if rest[0] < ' ' then None
    else if rest[0] != '\\' then
      var tail :- Unescape(rest[1..]);
      Some(([rest[0]] + tail.0, tail.1))
    else if |rest| < 2 then None
    else
      var c :- Unescaped(rest[1]);
      var tail :- Unescape(rest[2..]);
      Some(([c] + tail.0, tail.1))
  }

  function ReadString(rest: string): (r: Option<(string, string)>)
    ensures r.Some? ==> |r.value.1| < |rest|
  {
    var body :- Expect(rest, '"');
    Unescape(body)
  }

  function DigitCount(s: string): (n: nat)
    ensures n <= |s| && AllDigits(s[..n]) && (n < |s| ==> !IsDigit(s[n]))
  {
    if s != [] && IsDigit(s[0]) then
      var n := 1 + DigitCount(s[1..]);
      assert s[..n] == [s[0]] + s[1..][..n - 1];
      n
    else 0
  }

  function ReadInteger(rest: string): (r: Option<(Int64, string)>)
    ensures r.Some? ==> |r.value.1| < |rest|
  {
    var r := SkipSpace(rest);
    var sign := if r != [] && r[0] == '-' then 1 else 0;
    var n := sign + DigitCount(r[sign..]);
    var value :- FromChars(r[..n]);
    Some((value, r[n..]))
  }

  /** The items of an array, up to and including its closing bracket. */
  function ReadItems(rest: string, first: bool, acc: seq<string>): (r: Option<(seq<string>, string)>)
    ensures r.Some? ==> |r.value.1| < |rest|
    decreases |rest|
  {
    var end := Expect(rest, ']');
    if end.Some? then Some((acc, end.value))
    else
      var start :- if first then Some(rest) else Expect(rest, ',');
      var item :- ReadString(start);
      if |acc| + 1 > MAXIMUM_ITEMS then None else ReadItems(item.1, false, acc + [item.0])
  }

  function ReadValue(kind: Kind, rest: string): (r: Option<(Value, string)>)
    ensures r.Some? ==> KindOf(r.value.0) == kind && |r.value.1| < |rest|
  {
    match kind
    case StrKind =>
      var s :- ReadString(rest);
      Some((Str(s.0), s.1))
    case IntKind =>
      var n :- ReadInteger(rest);
      Some((Int(n.0), n.1))
    case ListKind =>
      var start :- Expect(rest, '[');
      var items :- ReadItems(start, true, []);
      Some((List(items.0), items.1))
  }

  predicate WellTyped(schema: Schema, fields: Fields) {
    forall n :: n in fields ==> Lookup(schema, n) == Some(KindOf(fields[n]))
  }

  /** The members of an object, up to and including its closing brace. */
  function ReadMembers(schema: Schema, rest: string, first: bool, acc: Fields): (r: Option<(Fields, string)>)
    ensures r.Some? && WellTyped(schema, acc) ==> WellTyped(schema, r.value.0)
    decreases |rest|
  {
    var end := Expect(rest, '}');
    if end.Some? then Some((acc, end.value))
    else
      var start :- if first then Some(rest) else Expect(rest, ',');
      var name :- ReadString(start);
      var after :- Expect(name.1, ':');
      var kind :- Lookup(schema, name.0);
      if name.0 !in acc then
        var value :- ReadValue(kind, after);
        ReadMembers(schema, value.1, false, acc[name.0 := value.0])
      else None
  }

  predicate Complete(schema: Schema, fields: Fields) {
    forall i :: 0 <= i < |schema| ==> schema[i].name in fields
  }

  /** A whole document: one object with every name of the schema, and nothing after it. */
  function ReadObject(schema: Schema, text: string): (r: Option<Fields>)
    ensures r.Some? ==> WellTyped(schema, r.value) && Complete(schema, r.value)
  {
    var start :- Expect(text, '{');
    var members :- ReadMembers(schema, start, true, map[]);
    if SkipSpace(members.1) == [] && Complete(schema, members.0) then Some(members.0) else None
  }

  // ---- Reading what was printed ----

  lemma ExpectHere(c: char, tail: string)
    requires !IsSpace(c)
    ensures Expect([c] + tail, c) == Some(tail)
  {
  }

  lemma ExpectOther(c: char, d: char, tail: string)
    requires !IsSpace(c) && c != d
    ensures Expect([c] + tail, d) == None
  {
  }

  /** The reader undoes the escaper on everything the escaper accepts. */
  lemma {:induction false} UnescapeEscape(s: string, tail: string)
    requires Escapable(s)
    ensures Unescape(Escape(s) + "\"" + tail) == Some((s, tail))
  {
    if s == [] {
      assert Escape(s) + "\"" + tail == ['"'] + tail;
    } else {
      UnescapeEscape(s[1..], tail);
      var more := Escape(s[1..]) + "\"" + tail;
      assert Escape(s) + "\"" + tail == EscapeChar(s[0]) + more;
      UnescapeOne(s[0], more);
      assert [s[0]] + s[1..] == s;
    }
  }

  lemma UnescapeOne(c: char, more: string)
    requires Escapable([c]) && Unescape(more).Some?
    ensures Unescape(EscapeChar(c) + more) == Some(([c] + Unescape(more).value.0, Unescape(more).value.1))
  {
    assert [c][0] == c;
    var t := EscapeChar(c) + more;
    if |EscapeChar(c)| == 1 {
      assert t[1..] == more;
    } else {
      assert t[2..] == more;
    }
  }

  lemma ReadPrintedString(s: string, tail: string)
    requires Escapable(s)
    ensures ReadString(PrintString(s) + tail) == Some((s, tail))
  {
    UnescapeEscape(s, tail);
    assert PrintString(s) + tail == ['"'] + (Escape(s) + "\"" + tail);
    ExpectHere('"', Escape(s) + "\"" + tail);
  }

  lemma {:induction false} DigitsThen(d: string, tail: string)
    requires AllDigits(d) && (tail == [] || !IsDigit(tail[0]))
    ensures DigitCount(d + tail) == |d|
  {
    if d == [] {
      assert d + tail == tail;
    } else {
      DigitsThen(d[1..], tail);
      assert (d + tail)[1..] == d[1..] + tail;
    }
  }

  lemma ReadPrintedInteger(n: Int64, tail: string)
    requires tail == [] || !IsDigit(tail[0])
    ensures ReadInteger(PrintInt(n) + tail) == Some((n, tail))
  {
    hide FromChars, Decimal;
    var p, r := PrintInt(n), PrintInt(n) + tail;
    PrintedIntReadsBack(n);
    PrintedIntShape(n, tail);
    assert SkipSpace(r) == r;
    assert r[..|p|] == p && r[|p|..] == tail;
  }

  lemma PrintedIntShape(n: Int64, tail: string)
    requires tail == [] || !IsDigit(tail[0])
    ensures var p, r := PrintInt(n), PrintInt(n) + tail;
            && r != [] && !IsSpace(r[0])
            && |p| == (if r[0] == '-' then 1 + DigitCount(r[1..]) else DigitCount(r[0..]))
  {
    var p, r := PrintInt(n), PrintInt(n) + tail;
    var digits := Decimal(if n < 0 then -(n as int) else n);
    DecimalRoundTrip(if n < 0 then -(n as int) else n);
    DigitsThen(digits, tail);
    if n < 0 {
      assert r[1..] == digits + tail;
    } else {
      assert r[0..] == r == digits + tail && IsDigit(digits[0]);
    }
  }

  lemma {:induction false} ReadPrintedItems(items: seq<string>, first: bool, acc: seq<string>, tail: string)
    requires |acc| + |items| <= MAXIMUM_ITEMS
    requires forall i :: 0 <= i < |items| ==> Escapable(items[i])
    ensures ReadItems(PrintItems(items, first) + "]" + tail, first, acc) == Some((acc + items, tail))
    decreases |items|
  {
    hide ReadItems, PrintString;
    if items == [] {
      ReadNoItems(first, acc, tail);
      assert acc + items == acc;
    } else {
      var rest := PrintItems(items[1..], false) + "]" + tail;
      var head := (if first then "" else ",") + PrintString(items[0]);
      ReadPrintedItems(items[1..], false, acc + [items[0]], tail);
      ReadOneItem(items[0], first, acc, rest);
      assert PrintItems(items, first) == head + PrintItems(items[1..], false);
      assert PrintItems(items, first) + "]" + tail == head + rest;
      assert acc + [items[0]] + items[1..] == acc + items;
    }
  }

  lemma ReadNoItems(first: bool, acc: seq<string>, tail: string)
    ensures ReadItems(PrintItems([], first) + "]" + tail, first, acc) == Some((acc, tail))
  {
    assert PrintItems([], first) + "]" + tail == [']'] + tail;
    ExpectHere(']', tail);
  }

  lemma ReadOneItem(item: string, first: bool, acc: seq<string>, rest: string)
    requires |acc| < MAXIMUM_ITEMS && Escapable(item)
    ensures ReadItems((if first then "" else ",") + PrintString(item) + rest, first, acc)
            == ReadItems(rest, false, acc + [item])
  {
    hide Expect, SkipSpace, ReadString, Unescape, Escape;
    var text := (if first then "" else ",") + PrintString(item) + rest;
    var start := PrintString(item) + rest;
    ReadPrintedString(item, rest);
    assert start == ['"'] + (Escape(item) + "\"" + rest);
    if first {
      assert text == start;
      ExpectOther('"', ']', Escape(item) + "\"" + rest);
    } else {
      assert text == [','] + start;
      ExpectHere(',', start);
      ExpectOther(',', ']', start);
    }
  }

  lemma ReadPrintedValue(v: Value, tail: string)
    requires Printable(v) && (tail == [] || !IsDigit(tail[0]))
    ensures ReadValue(KindOf(v), PrintValue(v) + tail) == Some((v, tail))
  {
    match v
    case Str(s) => ReadPrintedString(s, tail);
    case Int(n) => ReadPrintedInteger(n, tail);
    case List(items) =>
      var inner := PrintItems(items, true) + "]" + tail;
      assert PrintValue(v) + tail == ['['] + inner;
      ExpectHere('[', inner);
      ReadPrintedItems(items, true, [], tail);
      assert [] + items == items;
  }

  function Collect(fs: seq<Field>, acc: Fields): Fields
    decreases |fs|
  {
    if fs == [] then acc else Collect(fs[1..], acc[fs[0].name := fs[0].value])
  }

  /** The fields fit the schema and no name repeats or is already in `acc`. */
  predicate Fits(schema: Schema, fs: seq<Field>, acc: Fields) {
    && (forall i :: 0 <= i < |fs| ==> FieldFits(schema, fs[i], acc))
    && (forall i, j :: 0 <= i < j < |fs| ==> fs[i].name != fs[j].name)
  }

  predicate FieldFits(schema: Schema, f: Field, acc: Fields) {
    && Escapable(f.name) && Printable(f.value)
    && Lookup(schema, f.name) == Some(KindOf(f.value))
    && f.name !in acc
  }

  lemma {:induction false} ReadPrintedMembers(schema: Schema, fs: seq<Field>, first: bool, acc: Fields)
    requires Fits(schema, fs, acc)
    ensures ReadMembers(schema, PrintFields(fs, first) + "}", first, acc) == Some((Collect(fs, acc), ""))
    decreases |fs|
  {
    var text := PrintFields(fs, first) + "}";
    if fs == [] {
      assert text == ['}'] + "";
      ExpectHere('}', "");
    } else {
      hide ReadMembers, PrintField;
      var f, rest := fs[0], PrintFields(fs[1..], false) + "}";
      assert FieldFits(schema, f, acc);
      StillFits(schema, fs, acc);
      ReadPrintedMembers(schema, fs[1..], false, acc[f.name := f.value]);
      RestIsNoDigit(fs[1..]);
      ReadOneMember(schema, f, first, acc, rest);
      assert text == (if first then "" else ",") + PrintField(f) + rest;
    }
  }

  lemma StillFits(schema: Schema, fs: seq<Field>, acc: Fields)
    requires fs != [] && Fits(schema, fs, acc)
    ensures Fits(schema, fs[1..], acc[fs[0].name := fs[0].value])
  {
    var acc' := acc[fs[0].name := fs[0].value];
    forall i | 0 <= i < |fs| - 1 ensures FieldFits(schema, fs[1..][i], acc') {
      assert FieldFits(schema, fs[i + 1], acc);
    }
  }

  lemma RestIsNoDigit(fs: seq<Field>)
    ensures var rest := PrintFields(fs, false) + "}"; rest != [] && !IsDigit(rest[0])
  {
    if fs != [] { assert PrintFields(fs, false)[0] == ','; }
  }

  lemma ReadOneMember(schema: Schema, f: Field, first: bool, acc: Fields, rest: string)
    requires FieldFits(schema, f, acc) && rest != [] && !IsDigit(rest[0])
    ensures ReadMembers(schema, (if first then "" else ",") + PrintField(f) + rest, first, acc)
            == ReadMembers(schema, rest, false, acc[f.name := f.value])
  {
    hide Expect, SkipSpace, ReadString, Unescape, Escape, ReadValue, PrintValue, Lookup;
    var text := (if first then "" else ",") + PrintField(f) + rest;
    var value := PrintValue(f.value) + rest;
    var start := PrintString(f.name) + ([':'] + value);
    assert PrintField(f) + rest == start;
    assert start == ['"'] + (Escape(f.name) + "\"" + ([':'] + value));
    if first {
      assert text == start;
      ExpectOther('"', '}', Escape(f.name) + "\"" + ([':'] + value));
    } else {
      assert text == [','] + start;
      ExpectHere(',', start);
      ExpectOther(',', '}', start);
    }
    ReadPrintedString(f.name, [':'] + value);
    ExpectHere(':', value);
    ReadPrintedValue(f.value, rest);
  }

  lemma {:induction false} CollectLookup(fs: seq<Field>, acc: Fields, i: nat)
    requires i < |fs| && forall i, j :: 0 <= i < j < |fs| ==> fs[i].name != fs[j].name
    ensures fs[i].name in Collect(fs, acc) && Collect(fs, acc)[fs[i].name] == fs[i].value
    decreases |fs|
  {
    var acc' := acc[fs[0].name := fs[0].value];
    if i > 0 {
      CollectLookup(fs[1..], acc', i - 1);
    } else {
      CollectKeeps(fs[1..], acc', fs[0].name);
    }
  }

  lemma {:induction false} CollectKeeps(fs: seq<Field>, acc: Fields, name: string)
    requires name in acc && forall i :: 0 <= i < |fs| ==> fs[i].name != name
    ensures name in Collect(fs, acc) && Collect(fs, acc)[name] == acc[name]
    decreases |fs|
  {
    if fs != [] { CollectKeeps(fs[1..], acc[fs[0].name := fs[0].value], name); }
  }

  /** The fields carry the names and kinds of the schema, in order. */
  predicate Follows(schema: Schema, fs: seq<Field>) {
    && |fs| == |schema|
    && forall i :: 0 <= i < |fs| ==> EntryMatches(schema[i], fs[i])
  }

  predicate EntryMatches(e: Entry, f: Field) {
    f.name == e.name && KindOf(f.value) == e.kind && Escapable(f.name) && Printable(f.value)
  }

  /** Reading a printed object gives back its fields. */
  lemma ReadPrintedObject(schema: Schema, fs: seq<Field>)
    requires DistinctNames(schema) && Follows(schema, fs)
    ensures ReadObject(schema, PrintObject(fs)).Some?
    ensures forall i :: 0 <= i < |schema| ==> ReadObject(schema, PrintObject(fs)).value[schema[i].name] == fs[i].value
  {
    hide Expect, ReadMembers, PrintFields;
    FollowsFits(schema, fs);
    var inner := PrintFields(fs, true) + "}";
    assert PrintObject(fs) == ['{'] + inner;
    ExpectHere('{', inner);
    ReadPrintedMembers(schema, fs, true, map[]);
    forall i | 0 <= i < |schema| ensures schema[i].name in Collect(fs, map[])
      && Collect(fs, map[])[schema[i].name] == fs[i].value {
      assert EntryMatches(schema[i], fs[i]);
      CollectLookup(fs, map[], i);
    }
  }

  lemma FollowsFits(schema: Schema, fs: seq<Field>)
    requires DistinctNames(schema) && Follows(schema, fs)
    ensures Fits(schema, fs, map[])
  {
    hide Lookup, Printable, Escapable;
    forall i | 0 <= i < |fs| ensures FieldFits(schema, fs[i], map[]) {
      assert EntryMatches(schema[i], fs[i]);
      LookupAt(schema, i);
    }
    forall i, j | 0 <= i < j < |fs| ensures fs[i].name != fs[j].name {
      assert EntryMatches(schema[i], fs[i]) && EntryMatches(schema[j], fs[j]);
    }
  }
}
