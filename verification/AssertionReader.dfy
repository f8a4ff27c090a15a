/** The JSON reader as the source runs it: a position moved forward over the input.
    A method returns None where the source throws; every method is tied to the reading
    function of `AssertionJson` on the unread part of the input. */
module AssertionReader {
  import opened Text
  import opened AssertionJson

  lemma SliceOf(s: string, i: nat, j: nat)
    requires i <= j <= |s|
    ensures s[i..][..j - i] == s[i..j] && s[i..][j - i..] == s[j..]
  {
  }

  lemma IntegerIs(text: string, rest: string)
    requires rest == SkipSpace(text)
    ensures var sign := if rest != [] && rest[0] == '-' then 1 else 0;
            var n := sign + DigitCount(rest[sign..]);
            ReadInteger(text) == match FromChars(rest[..n]) case None => None case Some(v) => Some((v, rest[n..]))
  {
    hide FromChars, DigitCount, SkipSpace;
  }

  class JsonReader {
    const input: string
    var position: nat

    ghost predicate Valid()
      reads this
    {
      position <= |input|
    }

    ghost function Rest(): string
      requires Valid()
      reads this
    {
      input[position..]
    }

    constructor (text: string)
      ensures Valid() && input == text && Rest() == text
    {
      input, position := text, 0;
    }

    method Whitespace()
      requires Valid()
      modifies this
      ensures Valid() && Rest() == SkipSpace(old(Rest()))
    {
      while position < |input| && IsSpace(input[position])
        invariant Valid() && SkipSpace(Rest()) == SkipSpace(old(Rest()))
      {
        assert Rest()[1..] == input[position + 1..];
        position := position + 1;
      }
    }

    /** Whitespace, then `c` if it is there. */
    method Consume(c: char) returns (found: bool)
      requires Valid()
      modifies this
      ensures Valid() && found == Expect(old(Rest()), c).Some?
      ensures Rest() == if found then Expect(old(Rest()), c).value else SkipSpace(old(Rest()))
    {
      Whitespace();
      found := position < |input| && input[position] == c;
      if found {
        assert Rest()[1..] == input[position + 1..];
        position := position + 1;
      }
    }

    method ReadText() returns (r: Option<string>)
      requires Valid()
      modifies this
      ensures Valid() && Agrees(r, ReadString(old(Rest())))
    {
      hide Unescape, Expect, Unescaped;
      var open := Consume('"');
      if !open {
        return None;
      }
      ghost var body := Rest();
      var output := [];
      PrependUnit(Unescape(body));
      while position < |input|
        invariant Valid()
        invariant Unescape(body) == Prepend(output, Unescape(Rest()))
      {
        ghost var rest := Rest();
        UnescapeStep(rest);
        assert rest[1..] == input[position + 1..];
        var c := input[position];
        position := position + 1;
        if c == '"' {
          assert output + "" == output;
          return Some(output);
        }
        if c < ' ' {
          return None;
        }
        if c != '\\' {
          PrependAssociates(output, c, Unescape(Rest()));
          output := output + [c];
          continue;
        }
        if position >= |input| {
          return None;
        }
        assert rest[2..] == input[position + 1..];
        var escaped := Unescaped(input[position]);
        position := position + 1;
        if escaped.None? {
          return None;
        }
        PrependAssociates(output, escaped.value, Unescape(Rest()));
        output := output + [escaped.value];
      }
      assert Rest() == "";
      UnescapeStep("");
      r := None;
    }

    /** The result of a read that did not throw, and where it left the position. */
    ghost predicate Agrees<T>(r: Option<T>, spec: Option<(T, string)>)
      requires Valid()
      reads this
    {
      match spec
      case None => r.None?
      case Some(p) => r == Some(p.0) && Rest() == p.1
    }

    method SkipDigits()
      requires Valid()
      modifies this
      ensures position == old(position) + DigitCount(old(Rest())) <= |input|
    {
      while position < |input| && IsDigit(input[position])
        invariant Valid() && position + DigitCount(Rest()) == old(position) + DigitCount(old(Rest()))
      {
        assert Rest()[1..] == input[position + 1..];
        position := position + 1;
      }
    }

    method ReadNumber() returns (r: Option<Int64>)
      requires Valid()
      modifies this
      ensures Valid() && Agrees(r, ReadInteger(old(Rest())))
    {
      hide FromChars, DigitCount, SkipSpace, ReadInteger;
      Whitespace();
      var start := position;
      IntegerIs(old(Rest()), Rest());
      if position < |input| && input[position] == '-' {
        position := position + 1;
      }
      SliceOf(input, start, position);
      SkipDigits();
      SliceOf(input, start, position);
      var value := FromChars(input[start..position]);
      r := if value.None? then None else Some(value.value);
    }

    method ReadArray() returns (r: Option<seq<string>>)
      requires Valid()
      modifies this
      ensures Valid() && Agrees(r, ReadItems(old(Rest()), true, []))
    {
      var items, first := [], true;
      while true
        invariant Valid() && ReadItems(Rest(), first, items) == ReadItems(old(Rest()), true, [])
        decreases |input| - position
      {
        ghost var before := Rest();
        var done := Consume(']');
        if done {
          return Some(items);
        }
        SkipTwice(before);
        if !first {
          var comma := Consume(',');
          if !comma {
            return None;
          }
        }
        var item := ReadText();
        if item.None? || |items| + 1 > MAXIMUM_ITEMS {
          return None;
        }
        items, first := items + [item.value], false;
      }
    }

    method ReadKind(kind: Kind) returns (r: Option<Value>)
      requires Valid()
      modifies this
      ensures Valid() && Agrees(r, ReadValue(kind, old(Rest())))
    {
      match kind
      case StrKind =>
        var s := ReadText();
        r := if s.None? then None else Some(Str(s.value));
      case IntKind =>
        var n := ReadNumber();
        r := if n.None? then None else Some(Int(n.value));
      case ListKind =>
        var open := Consume('[');
        if !open {
          return None;
        }
        var items := ReadArray();
        r := if items.None? then None else Some(List(items.value));
    }

    /** The loop over the members of an object. */
    method ReadFields(schema: Schema) returns (r: Option<Fields>)
      requires Valid()
      modifies this
      ensures Valid() && Agrees(r, ReadMembers(schema, old(Rest()), true, map[]))
    {
      var fields: Fields, first := map[], true;
      while true
        invariant Valid() && ReadMembers(schema, Rest(), first, fields) == ReadMembers(schema, old(Rest()), true, map[])
        decreases |input| - position
      {
        ghost var before := Rest();
        var done := Consume('}');
        if done {
          return Some(fields);
        }
        SkipTwice(before);
        if !first {
          var comma := Consume(',');
          if !comma {
            return None;
          }
        }
        var name := ReadText();
        if name.None? {
          return None;
        }
        var colon := Consume(':');
        if !colon {
          return None;
        }
        var kind := Lookup(schema, name.value);
        if kind.None? || name.value in fields {
          return None;
        }
        var value := ReadKind(kind.value);
        if value.None? {
          return None;
        }
        fields, first := fields[name.value := value.value], false;
      }
    }
  }

  function Prepend(output: string, tail: Option<(string, string)>): Option<(string, string)> {
    match tail
    case None => None
    case Some(p) => Some((output + p.0, p.1))
  }

  /** One turn of the loop over a string literal. */
  lemma UnescapeStep(rest: string)
    ensures Unescape(rest) ==
            if rest == "" then None
            else if rest[0] == '"' then Some(("", rest[1..]))
            else if rest[0] < ' ' then None
            else if rest[0] != '\\' then Prepend([rest[0]], Unescape(rest[1..]))
            else if |rest| < 2 || Unescaped(rest[1]).None? then None
            else Prepend([Unescaped(rest[1]).value], Unescape(rest[2..]))
  {
    hide Unescaped;
  }

  lemma PrependUnit(tail: Option<(string, string)>)
    ensures Prepend([], tail) == tail
  {
    if tail.Some? { assert [] + tail.value.0 == tail.value.0; }
  }

  lemma PrependAssociates(output: string, c: char, tail: Option<(string, string)>)
    ensures Prepend(output, Prepend([c], tail)) == Prepend(output + [c], tail)
  {
    if tail.Some? { assert output + ([c] + tail.value.0) == output + [c] + tail.value.0; }
  }

  /** Skipped whitespace does not matter to what is read next. */
  lemma {:induction false} SkipTwice(rest: string)
    ensures SkipSpace(SkipSpace(rest)) == SkipSpace(rest)
    ensures forall c :: Expect(SkipSpace(rest), c) == Expect(rest, c)
    ensures ReadString(SkipSpace(rest)) == ReadString(rest)
  {
    if rest != [] && IsSpace(rest[0]) { SkipTwice(rest[1..]); }
  }

  /** parseHeader and parseClaims up to their final checks. */
  method ParseObject(schema: Schema, text: string) returns (r: Option<Fields>)
    ensures r == ReadObject(schema, text)
  {
    hide Expect, ReadMembers, SkipSpace, Complete;
    var reader := new JsonReader(text);
    var open := reader.Consume('{');
    if !open {
      return None;
    }
    var fields := reader.ReadFields(schema);
    if fields.None? {
      return None;
    }
    reader.Whitespace();
    assert reader.Rest() == [] <==> reader.position == |text|;
    if reader.position != |text| || !Complete(schema, fields.value) {
      return None;
    }
    r := fields;
  }
}
