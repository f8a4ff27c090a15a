/** UTF-8 (section 3 of RFC 3629). The source ors a tag onto shifted bits that do not
    overlap it, which is the sum written here. */
module Utf8 {
  import opened Text

  predicate IsScalar(v: int) { 0 <= v <= 0x10ffff && !(0xd800 <= v <= 0xdfff) }

  function Byte(n: int): char
    requires 0 <= n < 256
  {
    n as char
  }

  /** appendUtf8: the bytes it appends, or None where it throws. */
  function Encode(codePoint: nat): Option<string> {
    if codePoint <= 0x7f then
      Some([Byte(codePoint)])
    else if codePoint <= 0x7ff then
      Some([Byte(0xc0 + codePoint / 64), Byte(0x80 + codePoint % 64)])
    else if codePoint <= 0xffff then
      Some([Byte(0xe0 + codePoint / 4096), Byte(0x80 + codePoint / 64 % 64), Byte(0x80 + codePoint % 64)])
    else if codePoint <= 0x10ffff then
      Some([Byte(0xf0 + codePoint / 262144), Byte(0x80 + codePoint / 4096 % 64),
            Byte(0x80 + codePoint / 64 % 64), Byte(0x80 + codePoint % 64)])
    else None
  }

  predicate IsContinuation(c: char) { 0x80 <= c as int < 0xc0 }

  /** The scalar value a byte string is the UTF-8 form of, by the table of RFC 3629:
      shortest form only, no surrogates, nothing above U+10FFFF. */
  function Decode(b: string): Option<int> {
    if |b| == 1 && b[0] as int < 0x80 then Some(b[0] as int)
    else if |b| == 2 && 0xc0 <= b[0] as int < 0xe0 && IsContinuation(b[1]) then
      InRange((b[0] as int - 0xc0) * 64 + (b[1] as int - 0x80), 0x80)
    else if |b| == 3 && 0xe0 <= b[0] as int < 0xf0 && IsContinuation(b[1]) && IsContinuation(b[2]) then
      InRange((b[0] as int - 0xe0) * 4096 + (b[1] as int - 0x80) * 64 + (b[2] as int - 0x80), 0x800)
    else if |b| == 4 && 0xf0 <= b[0] as int < 0xf8 &&
            IsContinuation(b[1]) && IsContinuation(b[2]) && IsContinuation(b[3]) then
      InRange((b[0] as int - 0xf0) * 262144 + (b[1] as int - 0x80) * 4096
              + (b[2] as int - 0x80) * 64 + (b[3] as int - 0x80), 0x10000)
    else None
  }

  function InRange(v: int, least: int): Option<int> {
    if v >= least && IsScalar(v) then Some(v) else None
  }

  lemma DecodeEncode(v: nat)
    requires IsScalar(v)
    ensures Encode(v).Some? && Decode(Encode(v).value) == Some(v)
  {
    SixBitGroups(v);
  }

  lemma SixBitGroups(v: nat)
    requires v <= 0x10ffff
    ensures v == v / 64 * 64 + v % 64
    ensures v == v / 4096 * 4096 + v / 64 % 64 * 64 + v % 64
    ensures v == v / 262144 * 262144 + v / 4096 % 64 * 4096 + v / 64 % 64 * 64 + v % 64
  {
    assert v / 64 == v / 4096 * 64 + v / 64 % 64;
    assert v / 4096 == v / 262144 * 64 + v / 4096 % 64;
  }

  lemma EncodeDecode(b: string)
    requires Decode(b).Some?
    ensures IsScalar(Decode(b).value) && Encode(Decode(b).value) == Some(b)
  {
    var v := Decode(b).value;
    SixBitGroups(v);
    if |b| == 2 {
      GroupsAre(v, 0, 0, b[0] as int - 0xc0, b[1] as int - 0x80);
      assert b == [b[0], b[1]];
    } else if |b| == 3 {
      GroupsAre(v, 0, b[0] as int - 0xe0, b[1] as int - 0x80, b[2] as int - 0x80);
      assert b == [b[0], b[1], b[2]];
    } else if |b| == 4 {
      GroupsAre(v, b[0] as int - 0xf0, b[1] as int - 0x80, b[2] as int - 0x80, b[3] as int - 0x80);
      assert b == [b[0], b[1], b[2], b[3]];
    } else {
      assert b == [b[0]];
    }
  }

  lemma GroupsAre(v: nat, w: nat, x: nat, y: nat, z: nat)
    requires x < 64 && y < 64 && z < 64 && v == w * 262144 + x * 4096 + y * 64 + z
    ensures v % 64 == z && v / 64 % 64 == y && v / 4096 % 64 == x && v / 262144 == w
    ensures v / 64 == w * 4096 + x * 64 + y && v / 4096 == w * 64 + x
  {
    assert v == (w * 4096 + x * 64 + y) * 64 + z;
    assert v / 64 == w * 4096 + x * 64 + y;
    assert v == (w * 64 + x) * 4096 + (y * 64 + z);
    assert v / 4096 == w * 64 + x;
  }

  /** appendUtf8 on scalar values is exactly the RFC's encoding, so distinct scalars give distinct bytes. */
  lemma EncodeIsRfc3629(v: nat, b: string)
    ensures (IsScalar(v) && Encode(v) == Some(b)) <==> Decode(b) == Some(v)
  {
    if IsScalar(v) { DecodeEncode(v); }
    if Decode(b).Some? { EncodeDecode(b); }
  }

  lemma EncodeInjective(v: nat, w: nat)
    requires IsScalar(v) && IsScalar(w) && Encode(v) == Encode(w)
    ensures v == w
  {
    DecodeEncode(v);
    DecodeEncode(w);
  }
}
