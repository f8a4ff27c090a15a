/** The loops that read a semantic projection, and the cache that serves it. */
module SemanticReader {
  import opened Text
  import opened Splitting
  import opened SnapshotCache
  import opened SemanticView

  lemma TakeToken(tokens: seq<string>, rest: string)
    ensures var piece := Cut(rest, '\t');
            tokens + Tokens(rest) ==
            if piece.1.None? then tokens + [piece.0] else (tokens + [piece.0]) + Tokens(piece.1.value)
  {
    hide Cut;
    var piece := Cut(rest, '\t');
    if piece.1.Some? { assert Tokens(rest) == [piece.0] + Tokens(piece.1.value); }
  }

  method SplitByTab(line: string) returns (tokens: seq<string>)
    ensures tokens == Tokens(line)
  {
    hide Cut, Tokens;
    tokens := [];
    assert line[0..] == line;
    var start := 0;
    while true
      invariant start <= |line| && tokens + Tokens(line[start..]) == Tokens(line)
      decreases |line| - start
    {
      ghost var rest := line[start..];
      var piece := Cut(line[start..], '\t');
      TakeToken(tokens, line[start..]);
      if piece.1.None? {
        return tokens + [piece.0];
      }
      tokens := tokens + [piece.0];
      start := start + |piece.0| + 1;
      assert line[start..] == rest[|piece.0| + 1..] == piece.1.value;
    }
  }

  lemma TokenClauses(tokens: seq<string>)
    ensures ValidFrom(tokens, 6) <==>
              |tokens| >= 6 && ValidText(tokens[1]) && ValidText(tokens[2]) && ValidText(tokens[3])
              && ValidText(tokens[4]) && ValidText(tokens[5])
    ensures ValidFrom(tokens, 5) <==>
              |tokens| >= 5 && ValidText(tokens[1]) && ValidText(tokens[2]) && ValidText(tokens[3]) && ValidText(tokens[4])
  {
    hide ValidText;
  }

  class ProjectionReader {
    var view: Projection
    var authoritativeHeader: bool

    ghost function Value(): State
      reads this
    {
      State(authoritativeHeader, view.sourceRevision, view.participants)
    }

    constructor ()
      ensures Value() == State(false, "", []) && view.sourceStatus == "not_configured"
    {
      view := Projection("not_configured", "", []);
      authoritativeHeader := false;
    }

    method ReadLine(raw: string)
      modifies this
      ensures Value() == Step(old(Value()), raw)
    {
      hide ValidText, IndexOf, Tokens;
      var line := if raw != "" && raw[|raw| - 1] == '\r' then raw[..|raw| - 1] else raw;
      if line == "" || line[0] == '#' {
        return;
      }
      var tokens := SplitByTab(line);
      TokenClauses(tokens);
      if tokens[0] == "META" {
        authoritativeHeader := |tokens| >= 3 && tokens[1] == SCHEMA && ValidText(tokens[2]);
        if authoritativeHeader {
          view := view.(sourceRevision := tokens[2]);
        }
        return;
      }
      if !authoritativeHeader {
        return;
      }
      if tokens[0] == "PARTICIPANT" && |tokens| >= 6 && ValidText(tokens[1]) && ValidText(tokens[2]) && ValidText(tokens[3])
         && ValidText(tokens[4]) && ValidText(tokens[5]) {
        var duplicate := IndexOf(view.participants, tokens[1]);
        if duplicate.None? {
          view := view.(participants :=
            view.participants + [Participant(tokens[1], tokens[2], tokens[3], tokens[4], tokens[5], [])]);
        }
      } else if tokens[0] == "CAPABILITY" && |tokens| >= 5 && ValidText(tokens[1]) && ValidText(tokens[2])
                && ValidText(tokens[3]) && ValidText(tokens[4]) {
        var found := IndexOf(view.participants, tokens[1]);
        if found.Some? {
          var p := view.participants[found.value];
          p := p.(capabilities := p.capabilities + [Capability(tokens[2], tokens[3], tokens[4])]);
          view := view.(participants := view.participants[found.value := p]);
        }
      }
    }
  }

  /** The lines from a position on. */
  function Remaining(content: string, start: nat): seq<string> {
    if start < |content| then Segments(content[start..], '\n') else []
  }

  lemma NextLine(content: string, start: nat)
    requires start < |content|
    ensures var line := Cut(content[start..], '\n').0;
            && start + |line| <= |content|
            && Remaining(content, start) == [line] + Remaining(content, start + |line| + 1)
  {
    hide Cut, Segments;
    var rest := content[start..];
    var piece := Cut(rest, '\n');
    SegmentsFirst(rest, '\n');
    TakeLast([], '\n');
    if piece.1.Some? {
      var next := start + |piece.0| + 1;
      assert content[next..] == rest[|piece.0| + 1..] == piece.1.value;
      if next == |content| { assert piece.1.value == ""; }
    }
  }

  lemma AllLines(content: string)
    ensures Remaining(content, 0) == Segments(content, '\n')
  {
    hide Segments;
    assert content[0..] == content;
    TakeLast([], '\n');
  }

  method ParseSemanticProjection(content: string) returns (view: Projection)
    ensures view == Parse(content)
    ensures Distinct(view.participants)
  {
    hide Step, Cut, Segments, After, Remaining, Distinct;
    var reader := new ProjectionReader();
    ghost var lines := Segments(content, '\n');
    ghost var n := 0;
    AfterNone(lines);
    AllLines(content);
    var lineStart := 0;
    while lineStart < |content|
      invariant n <= |lines| && lines[n..] == Remaining(content, lineStart)
      invariant reader.Value() == After(lines, n)
      decreases |content| - lineStart
    {
      var piece := Cut(content[lineStart..], '\n');
      NextLine(content, lineStart);
      assert lines[n] == lines[n..][0] == piece.0;
      assert lines[n + 1..] == lines[n..][1..];
      var lineEnd := lineStart + |piece.0|;
      lineStart := lineEnd + 1;
      reader.ReadLine(piece.0);
      AfterNext(lines, n);
      n := n + 1;
    }
    NothingRemains(content, lineStart);
    NoDuplicates(content);
    if !reader.authoritativeHeader {
      return Projection("invalid", "", []);
    }
    return reader.view.(sourceStatus := "authoritative");
  }

  lemma NothingRemains(content: string, start: nat)
    requires start >= |content|
    ensures Remaining(content, start) == []
  {
  }

  lemma AfterNone(lines: seq<string>)
    ensures After(lines, 0) == State(false, "", [])
  {
  }

  lemma NoDuplicates(content: string)
    ensures Distinct(Parse(content).participants)
  {
    hide Segments, After, DeclaredInOrder;
    if Parse(content).sourceStatus == "authoritative" {
      ViewIsExplained(content);
    }
  }

  /** Equal write times of one path mean equal content. */
  predicate TimesTellContents(visits: seq<Read>) {
    forall i :: 0 <= i < |visits| - 1 ==> TimeTellsContent(visits[i], visits[i + 1])
  }

  predicate TimeTellsContent(a: Read, b: Read) {
    a.path == b.path && TimeOf(a.source) == TimeOf(b.source) ==> a.source == b.source
  }

  /** If changed content always has a changed write time, every semantic view served is the
      parse of the file at that call, and empty unless authoritative. */
  lemma ServedViewIsCurrent(visits: seq<Read>, states: seq<Snapshot<Projection>>, n: nat)
    requires IsCacheRun(visits, ParseFile, states) && TimesTellContents(visits) && n < |visits|
    ensures states[n + 1].Taken? && states[n + 1].view == ParseFile(visits[n])
    ensures states[n + 1].view.sourceStatus != "authoritative" ==> states[n + 1].view.participants == []
  {
    hide ParseFile;
    forall i | 0 <= i < |visits| - 1 ensures HonestAt(visits, ParseFile, i) {
      assert TimeTellsContent(visits[i], visits[i + 1]);
    }
    HonestIsCurrent(visits, ParseFile, states, n);
    assert CurrentAt(visits, ParseFile, states, n);
    FailsClosed(visits[n]);
  }
}
