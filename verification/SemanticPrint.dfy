/** The semantic projection written out line by line, and read back. */
module SemanticPrint {
  import opened Text
  import opened Splitting
  import opened SnapshotCache
  import opened SemanticView

  // ----- writing -----

  function JoinTabs(fields: seq<string>): string
    requires fields != []
  {
    if |fields| == 1 then fields[0] else fields[0] + ['\t'] + JoinTabs(fields[1..])
  }

  function MetaFields(revision: string): seq<string> { ["META", SCHEMA, revision] }

  function ParticipantFields(p: Participant): seq<string> {
    ["PARTICIPANT", p.participantId, p.title, p.declaredState, p.authorityScope, p.provenanceRef]
  }

  function CapabilityFields(id: string, c: Capability): seq<string> {
    ["CAPABILITY", id, c.capabilityId, c.title, c.authorityScope]
  }

  function CapabilityLines(id: string, cs: seq<Capability>): seq<string> {
    if cs == [] then [] else [JoinTabs(CapabilityFields(id, cs[0]))] + CapabilityLines(id, cs[1..])
  }

  /** A participant followed by what it is granted. */
  function ParticipantLines(ps: seq<Participant>): seq<string> {
    if ps == [] then []
    else
      [JoinTabs(ParticipantFields(ps[0]))] + CapabilityLines(ps[0].participantId, ps[0].capabilities) + ParticipantLines(ps[1..])
  }

  function ViewLines(revision: string, ps: seq<Participant>): seq<string> {
    [JoinTabs(MetaFields(revision))] + ParticipantLines(ps)
  }

  function LinesText(lines: seq<string>): string {
    if lines == [] then "" else lines[0] + ['\n'] + LinesText(lines[1..])
  }

  function PrintView(revision: string, ps: seq<Participant>): string { LinesText(ViewLines(revision, ps)) }

  // ----- what can be written -----

  predicate ValidCapability(c: Capability) {
    ValidText(c.capabilityId) && ValidText(c.title) && ValidText(c.authorityScope)
  }

  predicate ValidParticipant(p: Participant) {
    && ValidText(p.participantId) && ValidText(p.title) && ValidText(p.declaredState)
    && ValidText(p.authorityScope) && ValidText(p.provenanceRef)
    && forall i :: 0 <= i < |p.capabilities| ==> ValidCapability(p.capabilities[i])
  }

  predicate AllValid(ps: seq<Participant>) { forall a :: 0 <= a < |ps| ==> ValidParticipant(ps[a]) }

  predicate Printable(revision: string, ps: seq<Participant>) {
    ValidText(revision) && AllValid(ps) && Distinct(ps)
  }

  // ----- one line -----

  predicate AllText(fields: seq<string>) { forall i :: 0 <= i < |fields| ==> ValidText(fields[i]) }

  lemma {:induction false} TokensOfJoin(fields: seq<string>)
    requires fields != [] && AllText(fields)
    ensures Tokens(JoinTabs(fields)) == fields
  {
    hide Tokens, ValidText;
    FieldHasNoTab(fields[0]);
    if |fields| == 1 {
      LastToken(fields[0]);
    } else {
      TokensOfJoin(fields[1..]);
      FirstToken(fields[0], JoinTabs(fields[1..]));
      assert fields == [fields[0]] + fields[1..];
    }
  }

  lemma FieldHasNoTab(s: string)
    requires ValidText(s)
    ensures '\t' !in s
  {
  }

  lemma LastToken(s: string)
    requires '\t' !in s
    ensures Tokens(s) == [s]
  {
    CutNowhere(s, '\t');
  }

  lemma FirstToken(s: string, rest: string)
    requires '\t' !in s
    ensures Tokens(s + ['\t'] + rest) == [s] + Tokens(rest)
  {
    hide Cut;
    CutAt(s, '\t', rest);
  }

  /** The ends of a line are the ends of its first and last field, and no line end is inside. */
  lemma {:induction false} JoinShape(fields: seq<string>)
    requires fields != [] && AllText(fields)
    ensures var line := JoinTabs(fields);
            line != "" && line[0] == fields[0][0] && '\r' !in line && '\n' !in line
  {
    if |fields| > 1 { JoinShape(fields[1..]); }
  }

  lemma FieldsOfJoin(fields: seq<string>)
    requires fields != [] && AllText(fields) && fields[0][0] != '#'
    ensures var line := JoinTabs(fields);
            Fields(line) == fields && !Skipped(line) && '\n' !in line
  {
    hide Tokens, JoinTabs;
    TokensOfJoin(fields);
    JoinShape(fields);
  }

  lemma MetaIsRead(s: State, revision: string)
    requires ValidText(revision)
    ensures Step(s, JoinTabs(MetaFields(revision))) == s.(header := true, revision := revision)
    ensures '\n' !in JoinTabs(MetaFields(revision))
  {
    hide Fields, Skipped, JoinTabs, ValidText;
    SchemaIsText();
    var fields := MetaFields(revision);
    assert AllText(fields);
    FieldsOfJoin(fields);
    assert fields[1] == SCHEMA && fields[2] == revision;
  }

  lemma SchemaIsText()
    ensures ValidText(SCHEMA) && ValidText("META")
  {
    var s := SCHEMA;
    assert |s| == 38;
    forall i | 0 <= i < |s| ensures s[i] >= ' ' {}
  }

  lemma ParticipantLineIsRead(s: State, p: Participant)
    requires s.header && ValidParticipant(p) && IndexOf(s.participants, p.participantId).None?
    ensures Step(s, JoinTabs(ParticipantFields(p))) == s.(participants := s.participants + [p.(capabilities := [])])
    ensures '\n' !in JoinTabs(ParticipantFields(p))
  {
    hide Fields, Skipped, JoinTabs, IndexOf;
    assert AllText(ParticipantFields(p));
    FieldsOfJoin(ParticipantFields(p));
  }

  lemma CapabilityLineIsRead(s: State, id: string, c: Capability)
    requires s.header && ValidText(id) && ValidCapability(c)
    ensures Step(s, JoinTabs(CapabilityFields(id, c))) == s.(participants := AddCapability(s.participants, id, c))
    ensures '\n' !in JoinTabs(CapabilityFields(id, c))
  {
    hide Fields, Skipped, JoinTabs, AddCapability;
    assert AllText(CapabilityFields(id, c));
    FieldsOfJoin(CapabilityFields(id, c));
  }

  /** Blank lines and comments mean nothing, and a carriage return before the line end is no part of the line. */
  lemma PlainLineRules(s: State, line: string)
    ensures Step(s, "") == s && Step(s, "\r") == s && Step(s, "#" + line) == s
    ensures line == "" || line[|line| - 1] != '\r' ==> Step(s, line + "\r") == Step(s, line)
  {
    hide Tokens, IndexOf, AddCapability;
    assert (line + "\r")[..|line|] == line;
    assert "\r"[..0] == "";
  }

  // ----- many lines -----

  /** Reading lines from any state on. */
  function Fold(s: State, lines: seq<string>): State
    decreases |lines|
  {
    if lines == [] then s else Fold(Step(s, lines[0]), lines[1..])
  }

  lemma {:induction false} FoldJoins(s: State, a: seq<string>, b: seq<string>)
    ensures Fold(s, a + b) == Fold(Fold(s, a), b)
    decreases |a|
  {
    hide Step;
    if a == [] {
      assert a + b == b;
    } else {
      assert (a + b)[1..] == a[1..] + b;
      FoldJoins(Step(s, a[0]), a[1..], b);
    }
  }

  lemma {:induction false} AfterIsFold(lines: seq<string>, n: nat)
    requires n <= |lines|
    ensures After(lines, |lines|) == Fold(After(lines, n), lines[n..])
    decreases |lines| - n
  {
    hide Step;
    if n < |lines| {
      AfterIsFold(lines, n + 1);
      AfterNext(lines, n);
      assert lines[n..][1..] == lines[n + 1..];
    }
  }

  predicate Unbroken(lines: seq<string>) { forall i :: 0 <= i < |lines| ==> '\n' !in lines[i] }

  lemma {:induction false} LinesAreRead(lines: seq<string>)
    requires Unbroken(lines)
    ensures Segments(LinesText(lines), '\n') == lines
  {
    if lines != [] {
      LinesAreRead(lines[1..]);
      SegmentsCons(lines[0], '\n', LinesText(lines[1..]));
    }
  }

  lemma {:induction false} CapabilitiesAreRead(s: State, p: Participant, cs: seq<Capability>)
    requires s.header && ValidText(p.participantId) && forall i :: 0 <= i < |cs| ==> ValidCapability(cs[i])
    requires IndexOf(s.participants, p.participantId).None?
    ensures Fold(s.(participants := s.participants + [p]), CapabilityLines(p.participantId, cs))
         == s.(participants := s.participants + [p.(capabilities := p.capabilities + cs)])
    ensures Unbroken(CapabilityLines(p.participantId, cs))
    decreases |cs|
  {
    hide Step, JoinTabs, IndexOf, ValidText, ValidCapability;
    if cs == [] {
      assert p.capabilities + cs == p.capabilities;
    } else {
      var id, q := p.participantId, p.(capabilities := p.capabilities + [cs[0]]);
      var t := s.(participants := s.participants + [p]);
      CapabilityLineIsRead(t, id, cs[0]);
      LastIsGranted(s.participants, p, cs[0]);
      CapabilitiesAreRead(s, q, cs[1..]);
      assert q.capabilities + cs[1..] == p.capabilities + cs;
      FoldFirst(t, JoinTabs(CapabilityFields(id, cs[0])), CapabilityLines(id, cs[1..]));
    }
  }

  lemma FoldFirst(s: State, line: string, rest: seq<string>)
    ensures Fold(s, [line] + rest) == Fold(Step(s, line), rest)
  {
    hide Step;
    assert ([line] + rest)[1..] == rest;
  }

  lemma LastIsGranted(ps: seq<Participant>, p: Participant, c: Capability)
    requires IndexOf(ps, p.participantId).None?
    ensures AddCapability(ps + [p], p.participantId, c) == ps + [p.(capabilities := p.capabilities + [c])]
  {
    var all := ps + [p];
    assert all[|ps|].participantId == p.participantId;
    assert forall i :: 0 <= i < |ps| ==> all[i] == ps[i];
  }

  lemma {:induction false} ParticipantsAreRead(s: State, ps: seq<Participant>)
    requires s.header && AllValid(ps) && Distinct(s.participants + ps)
    ensures Fold(s, ParticipantLines(ps)) == s.(participants := s.participants + ps)
    ensures Unbroken(ParticipantLines(ps))
    decreases |ps|
  {
    hide Step, JoinTabs, IndexOf, Fold, CapabilityLines, ValidParticipant;
    if ps == [] {
      assert s.participants + ps == s.participants;
      FoldNone(s);
    } else {
      var p := ps[0];
      assert ValidParticipant(p);
      var grants := CapabilityLines(p.participantId, p.capabilities);
      var line, rest := JoinTabs(ParticipantFields(p)), ParticipantLines(ps[1..]);
      BlockIsRead(s, p, ps);
      var t := s.(participants := s.participants + [p]);
      assert t.participants + ps[1..] == s.participants + ps;
      ParticipantsAreRead(t, ps[1..]);
      FoldJoins(s, [line] + grants, rest);
    }
  }

  lemma FoldNone(s: State)
    ensures Fold(s, []) == s
  {
  }

  lemma BlockIsRead(s: State, p: Participant, ps: seq<Participant>)
    requires s.header && ValidParticipant(p) && ps != [] && p == ps[0] && Distinct(s.participants + ps)
    ensures var block := [JoinTabs(ParticipantFields(p))] + CapabilityLines(p.participantId, p.capabilities);
            Fold(s, block) == s.(participants := s.participants + [p]) && Unbroken(block)
  {
    hide Step, JoinTabs, IndexOf, Fold, CapabilityLines, ValidText, ValidCapability;
    NotAmong(s.participants, ps);
    var bare := p.(capabilities := []);
    ParticipantLineIsRead(s, p);
    CapabilitiesAreRead(s, bare, p.capabilities);
    assert [] + p.capabilities == p.capabilities;
    FoldFirst(s, JoinTabs(ParticipantFields(p)), CapabilityLines(p.participantId, p.capabilities));
  }

  lemma NotAmong(before: seq<Participant>, ps: seq<Participant>)
    requires ps != [] && Distinct(before + ps)
    ensures IndexOf(before, ps[0].participantId).None?
  {
    var all := before + ps;
    forall i | 0 <= i < |before| ensures before[i].participantId != ps[0].participantId {
      assert all[i] == before[i] && all[|before|] == ps[0];
    }
  }

  // ----- the whole projection -----

  /** Round trip: a written projection is read back field by field, its participants and
      their capabilities in order. */
  lemma ViewRoundTrip(revision: string, ps: seq<Participant>)
    requires Printable(revision, ps)
    ensures Parse(PrintView(revision, ps)) == Projection("authoritative", revision, ps)
  {
    hide Step, JoinTabs, ParticipantLines, AllValid, Distinct, ValidText, Fold, After;
    var lines := ViewLines(revision, ps);
    var meta := JoinTabs(MetaFields(revision));
    var start := State(false, "", []);
    MetaIsRead(start, revision);
    var s := start.(header := true, revision := revision);
    assert s.participants + ps == ps;
    ParticipantsAreRead(s, ps);
    FoldFirst(start, meta, ParticipantLines(ps));
    LinesAreRead(lines);
    AfterIsFold(lines, 0);
    assert lines[0..] == lines;
    NothingRead(lines);
  }

  lemma NothingRead(lines: seq<string>)
    ensures After(lines, 0) == State(false, "", [])
  {
  }

  lemma StepKeepsPrintable(s: State, line: string)
    requires (s.header ==> ValidText(s.revision)) && AllValid(s.participants) && Distinct(s.participants)
    ensures var t := Step(s, line);
            (t.header ==> ValidText(t.revision)) && AllValid(t.participants) && Distinct(t.participants)
  {
    hide Fields, Skipped, ValidText, IndexOf, WellFormedMeta;
    if IsMeta(line) {
      MetaKeepsParticipants(s, line);
    } else if s.header && IsCapability(line) {
      var id, c := Fields(line)[1], NewCapability(line);
      assert ValidCapability(c);
      forall a | 0 <= a < |s.participants| ensures ValidParticipant(AddCapability(s.participants, id, c)[a]) {
        AddCapabilityTo(s.participants, id, c, a);
      }
      forall a, b | 0 <= a < b < |s.participants|
        ensures AddCapability(s.participants, id, c)[a].participantId != AddCapability(s.participants, id, c)[b].participantId
      {
        AddCapabilityTo(s.participants, id, c, a);
        AddCapabilityTo(s.participants, id, c, b);
      }
    } else if s.header && IsParticipant(line) {
      assert ValidParticipant(NewParticipant(line));
    }
  }

  lemma MetaKeepsParticipants(s: State, line: string)
    requires IsMeta(line)
    ensures Step(s, line).participants == s.participants
    ensures Step(s, line).header ==> ValidText(Step(s, line).revision)
  {
    hide Fields, Skipped, ValidText;
  }

  lemma {:induction false} ReadIsPrintable(lines: seq<string>, n: nat)
    requires n <= |lines|
    ensures var s := After(lines, n);
            (s.header ==> ValidText(s.revision)) && AllValid(s.participants) && Distinct(s.participants)
  {
    hide Step, ValidText, ValidParticipant;
    if n > 0 {
      ReadIsPrintable(lines, n - 1);
      StepKeepsPrintable(After(lines, n - 1), lines[n - 1]);
    }
  }

  /** The views the reader can serve: exactly those that can be written out. */
  lemma ServedIffPrintable(revision: string, ps: seq<Participant>)
    ensures (exists content :: Parse(content) == Projection("authoritative", revision, ps)) <==> Printable(revision, ps)
  {
    hide After, AllValid, Distinct, ValidText, PrintView;
    if Printable(revision, ps) { ViewRoundTrip(revision, ps); }
    if content :| Parse(content) == Projection("authoritative", revision, ps) {
      var lines := Segments(content, '\n');
      ReadIsPrintable(lines, |lines|);
    }
  }

  /** A written projection in a file: served as written up to 1 MiB, refused beyond. */
  lemma FileRoundTrip(path: string, time: int, revision: string, ps: seq<Participant>)
    requires path != "" && Printable(revision, ps)
    ensures var text := PrintView(revision, ps);
            ParseFile(Read(path, File(time, text))) ==
              if |text| <= MAX_BYTES then Projection("authoritative", revision, ps) else Projection("invalid", "", [])
  {
    hide PrintView, Parse, Printable;
    ViewRoundTrip(revision, ps);
  }
}
