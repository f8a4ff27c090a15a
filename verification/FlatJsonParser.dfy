/** The flat JSON parser as the source runs it: a position moved forward over the input.
    A method returns None where the source throws. */
module FlatJsonParser {
  import opened Text
  import opened FlatJson
  import Utf8

  class FlatJsonObjectParser {
    const input: string
    var position: nat

    ghost predicate Valid()
      reads this
    {
      position <= |input|
    }

    ghost function Rest(): string
      requires Valid()
      reads this
    {
      input[position..]
    }

    constructor (text: string)
      ensures Valid() && input == text && Rest() == text
    {
      input, position := text, 0;
    }

    method SkipWhitespace()
      requires Valid()
      modifies this
      ensures Valid() && Rest() == SkipSpace(old(Rest()))
    {
      while position < |input| && IsSpace(input[position])
        invariant Valid() && SkipSpace(Rest()) == SkipSpace(old(Rest()))
      {
        assert Rest()[1..] == input[position + 1..];
        position := position + 1;
      }
    }

    method Consume(c: char) returns (found: bool)
      requires Valid()
      modifies this
      ensures Valid() && found == Expect(old(Rest()), c).Some?
      ensures Rest() == if found then Expect(old(Rest()), c).value else old(Rest())
    {
      found := position < |input| && input[position] == c;
      if found {
        assert Rest()[1..] == input[position + 1..];
        position := position + 1;
      }
    }

    method ParseHex4() returns (r: Option<nat>)
      requires Valid()
      modifies this
      ensures Valid() && r == ReadHex4(old(Rest()))
      ensures r.Some? ==> Rest() == old(Rest())[4..]
    {
      if position + 4 > |input| {
        return None;
      }
      ghost var rest := Rest();
      var result := 0;
      for i := 0 to 4
        invariant Valid() && position == old(position) + i <= |input|
        invariant HexPrefix(rest, i) == Some(result)
      {
        var digit := HexValue(input[position]);
        assert input[position] == rest[i];
        position := position + 1;
        if digit.None? {
          HexPrefixFails(rest, i);
          return None;
        }
        result := result * 16 + digit.value;
      }
      HexPrefixAll(rest);
      r := Some(result);
    }

    /** The `\u` case of the escape switch; the source's uses of appendUtf8 never throw here. */
    method ParseUnicode() returns (r: Option<string>)
      requires Valid()
      modifies this
      ensures Valid() && Agrees(r, ReadUnicode(old(Rest())))
    {
      hide ReadHex4, Utf8.Encode;
      ghost var rest := Rest();
      var code := ParseHex4();
      if code.None? {
        return None;
      }
      var codePoint := code.value;
      if IsHigh(codePoint) {
        if position + 2 > |input| || input[position] != '\\' || input[position + 1] != 'u' {
          return None;
        }
        position := position + 2;
        assert Rest() == rest[4..][2..];
        var low := ParseHex4();
        if low.None? || !IsLow(low.value) {
          return None;
        }
        assert rest[4..][2..][4..] == rest[4..][6..];
        codePoint := Combine(codePoint, low.value);
      } else if IsLow(codePoint) {
        return None;
      }
      r := Utf8.Encode(codePoint);
    }

    method ParseEscape() returns (r: Option<string>)
      requires Valid()
      modifies this
      ensures Valid() && Agrees(r, ReadEscape(old(Rest())))
    {
      hide ReadUnicode;
      if position >= |input| {
        return None;
      }
      assert Rest()[1..] == input[position + 1..];
      var escape := input[position];
      position := position + 1;
      match escape
      case '"' => r := Some("\"");
      case '\\' => r := Some("\\");
      case '/' => r := Some("/");
      case 'b' => r := Some(['\U{8}']);
      case 'f' => r := Some(['\U{c}']);
      case 'n' => r := Some("\n");
      case 'r' => r := Some("\r");
      case 't' => r := Some("\t");
      case 'u' => r := ParseUnicode();
      case _ => r := None;
    }

    ghost predicate Agrees<T>(r: Option<T>, spec: Option<(T, string)>)
      requires Valid()
      reads this
    {
      match spec
      case None => r.None?
      case Some(p) => r == Some(p.0) && Rest() == p.1
    }

    method ParseString() returns (r: Option<string>)
      requires Valid()
      modifies this
      ensures Valid() && Agrees(r, ReadString(old(Rest())))
    {
      hide ReadEscape;
      var open := Consume('"');
      if !open {
        return None;
      }
      ghost var body := Rest();
      var result := [];
      PrependUnit(ReadBody(body));
      while position < |input|
        invariant Valid() && ReadBody(body) == Prepend(result, ReadBody(Rest()))
        decreases |input| - position
      {
        assert Rest()[1..] == input[position + 1..];
        var c := input[position];
        position := position + 1;
        if c == '"' {
          assert result + "" == result;
          return Some(result);
        }
        if c < ' ' {
          return None;
        }
        if c != '\\' {
          PrependTwice(result, [c], ReadBody(Rest()));
          result := result + [c];
          continue;
        }
        var escaped := ParseEscape();
        if escaped.None? {
          return None;
        }
        PrependTwice(result, escaped.value, ReadBody(Rest()));
        result := result + escaped.value;
      }
      r := None;
    }

    method ParseValue() returns (r: Option<Option<string>>)
      requires Valid()
      modifies this
      ensures Valid() && Agrees(r, ReadValue(old(Rest())))
    {
      if position >= |input| {
        return None;
      }
      if input[position] == '"' {
        var s := ParseString();
        r := if s.None? then None else Some(Some(s.value));
      } else if position + 4 <= |input| && input[position..position + 4] == "null" {
        assert Rest()[..4] == input[position..position + 4];
        assert Rest()[4..] == input[position + 4..];
        position := position + 4;
        r := Some(None);
      } else {
        assert |Rest()| >= 4 ==> Rest()[..4] == input[position..position + 4];
        r := None;
      }
    }

    method ParseMember() returns (r: Option<Member>)
      requires Valid()
      modifies this
      ensures Valid() && Agrees(r, ReadMember(old(Rest())))
    {
      hide ReadString, ReadValue, SkipSpace;
      SkipWhitespace();
      var key := ParseString();
      if key.None? {
        return None;
      }
      SkipWhitespace();
      var colon := Consume(':');
      if !colon {
        return None;
      }
      SkipWhitespace();
      var value := ParseValue();
      r := if value.None? then None else Some(Member(key.value, value.value));
    }

    method ParseMembers() returns (r: Option<Object>)
      requires Valid()
      modifies this
      ensures Valid() && Agrees(r, ReadMembers(old(Rest()), map[]))
    {
      hide ReadMember, SkipSpace;
      var result: Object := map[];
      while true
        invariant Valid() && ReadMembers(Rest(), result) == ReadMembers(old(Rest()), map[])
        decreases |input| - position
      {
        var m := ParseMember();
        if m.None? || m.value.key in result {
          return None;
        }
        result := result[m.value.key := m.value.value];
        SkipWhitespace();
        var end := Consume('}');
        if end {
          return Some(result);
        }
        var comma := Consume(',');
        if !comma {
          return None;
        }
      }
    }

    method ParseObject() returns (r: Option<Object>)
      requires position == 0
      modifies this
      ensures r == Parse(input)
    {
      hide ReadMembers, SkipSpace;
      assert Rest() == input;
      SkipWhitespace();
      var open := Consume('{');
      if !open {
        return None;
      }
      SkipWhitespace();
      var empty := Consume('}');
      var result: Option<Object> := Some(map[]);
      if !empty {
        result := ParseMembers();
      }
      if result.None? {
        return None;
      }
      SkipWhitespace();
      r := if position != |input| then None else result;
    }
  }

  /** parseFlatJsonObject. */
  method ParseFlatJsonObject(body: string) returns (r: Option<Object>)
    ensures r == ParseBody(body)
  {
    hide Parse;
    if |body| > MAXIMUM_JSON_BYTES {
      return None;
    }
    var parser := new FlatJsonObjectParser(body);
    r := parser.ParseObject();
  }

  function HexPrefix(rest: string, i: nat): Option<nat>
    requires i <= |rest|
  {
    if i == 0 then Some(0)
    else
      var high :- HexPrefix(rest, i - 1);
      var digit :- HexValue(rest[i - 1]);
      Some(high * 16 + digit)
  }

  lemma HexPrefixAll(rest: string)
    requires |rest| >= 4
    ensures HexPrefix(rest, 4) == ReadHex4(rest)
  {
    hide HexValue;
    assert HexPrefix(rest, 1) == HexValue(rest[0]);
    assert HexPrefix(rest, 4) == (var h :- HexPrefix(rest, 3); var d :- HexValue(rest[3]); Some(h * 16 + d));
    assert HexPrefix(rest, 3) == (var h :- HexPrefix(rest, 2); var d :- HexValue(rest[2]); Some(h * 16 + d));
    assert HexPrefix(rest, 2) == (var h :- HexPrefix(rest, 1); var d :- HexValue(rest[1]); Some(h * 16 + d));
  }

  lemma HexPrefixFails(rest: string, i: nat)
    requires i < 4 <= |rest| && HexValue(rest[i]).None?
    ensures ReadHex4(rest).None?
  {
  }

  lemma PrependUnit(tail: Option<(string, string)>)
    ensures Prepend([], tail) == tail
  {
    if tail.Some? { assert [] + tail.value.0 == tail.value.0; }
  }

  lemma PrependTwice(a: string, b: string, tail: Option<(string, string)>)
    ensures Prepend(a, Prepend(b, tail)) == Prepend(a + b, tail)
  {
    if tail.Some? { assert a + (b + tail.value.0) == a + b + tail.value.0; }
  }
}
