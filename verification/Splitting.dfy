/** Splitting text at a delimiter. */
module Splitting {
  import opened Text

  function Cut(s: string, d: char): (r: (string, Option<string>))
    ensures d !in r.0
    ensures s == if r.1.None? then r.0 else r.0 + [d] + r.1.value
  {
    if s == "" then ("", None)
    else if s[0] == d then ("", Some(s[1..]))
    else
      var r := Cut(s[1..], d);
      ([s[0]] + r.0, r.1)
  }

  lemma {:induction false} CutAt(b: string, d: char, rest: string)
    requires d !in b
    ensures Cut(b + [d] + rest, d) == (b, Some(rest))
  {
    var s := b + [d] + rest;
    if b != "" {
      CutAt(b[1..], d, rest);
      assert s[1..] == b[1..] + [d] + rest;
      assert b == [s[0]] + b[1..];
    } else {
      assert s[1..] == rest;
    }
  }

  lemma {:induction false} CutNowhere(b: string, d: char)
    requires d !in b
    ensures Cut(b, d) == (b, None)
  {
    if b != "" {
      CutNowhere(b[1..], d);
      assert b == [b[0]] + b[1..];
    }
  }

  /** What repeated getline calls yield: an empty piece after the last delimiter is not reported. */
  function Segments(s: string, d: char): seq<string>
    decreases |s|
  {
    if s == "" then []
    else
      var r := Cut(s, d);
      if r.1.None? then [r.0] else [r.0] + Segments(r.1.value, d)
  }

  lemma SegmentsCons(b: string, d: char, rest: string)
    requires d !in b
    ensures Segments(b + [d] + rest, d) == [b] + Segments(rest, d)
  {
    CutAt(b, d, rest);
  }

  lemma SegmentsLast(b: string, d: char)
    requires d !in b && b != ""
    ensures Segments(b, d) == [b]
  {
    CutNowhere(b, d);
  }

  /** One getline call moves the first piece of the rest over to the pieces read. */
  lemma TakeSegment(pieces: seq<string>, rest: string, d: char)
    requires rest != ""
    ensures var piece := Cut(rest, d);
            var after := if piece.1.Some? then piece.1.value else "";
            (pieces + [piece.0]) + Segments(after, d) == pieces + Segments(rest, d)
  {
    hide Cut;
    var piece := Cut(rest, d);
    var after := if piece.1.Some? then piece.1.value else "";
    assert Segments(rest, d) == [piece.0] + Segments(after, d);
  }

  lemma TakeLast(pieces: seq<string>, d: char)
    ensures pieces + Segments("", d) == pieces
  {
  }

  /** The first piece and what remains. */
  lemma SegmentsFirst(rest: string, d: char)
    requires rest != ""
    ensures var piece := Cut(rest, d);
            Segments(rest, d) == [piece.0] + Segments(if piece.1.Some? then piece.1.value else "", d)
  {
    hide Cut;
  }
}
