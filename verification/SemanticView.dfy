/** The semantic projection: a line format that fails closed. */
module SemanticView {
  import opened Text
  import opened Splitting
  import opened SnapshotCache

  datatype Capability = Capability(capabilityId: string, title: string, authorityScope: string)

  datatype Participant = Participant(
    participantId: string, title: string, declaredState: string, authorityScope: string, provenanceRef: string,
    capabilities: seq<Capability>)

  datatype Projection = Projection(sourceStatus: string, sourceRevision: string, participants: seq<Participant>)

  const SCHEMA := "sister.semantic-ecosystem-source/1.0.0"
  const MAX_BYTES: nat := 1024 * 1024

  // ----- lines -----

  /** Every piece between tabs, an empty last one included. */
  function Tokens(line: string): (r: seq<string>)
    ensures |r| >= 1
    decreases |line|
  {
    var r := Cut(line, '\t');
    if r.1.None? then [r.0] else [r.0] + Tokens(r.1.value)
  }

  predicate ValidText(s: string) { s != "" && '\r' !in s && '\n' !in s && '\t' !in s }

  function Strip(line: string): string {
    if line != "" && line[|line| - 1] == '\r' then line[..|line| - 1] else line
  }

  function Fields(line: string): (r: seq<string>)
    ensures |r| >= 1
  {
    Tokens(Strip(line))
  }

  predicate Skipped(line: string) { Strip(line) == "" || Strip(line)[0] == '#' }

  predicate ValidFrom(f: seq<string>, n: nat) { |f| >= n && forall i :: 1 <= i < n ==> ValidText(f[i]) }

  predicate IsMeta(line: string) { !Skipped(line) && Fields(line)[0] == "META" }

  predicate WellFormedMeta(line: string) {
    IsMeta(line) && |Fields(line)| >= 3 && Fields(line)[1] == SCHEMA && ValidText(Fields(line)[2])
  }

  predicate IsParticipant(line: string) {
    !Skipped(line) && Fields(line)[0] == "PARTICIPANT" && ValidFrom(Fields(line), 6)
  }

  predicate IsCapability(line: string) {
    !Skipped(line) && Fields(line)[0] == "CAPABILITY" && ValidFrom(Fields(line), 5)
  }

  function NewParticipant(line: string): Participant
    requires IsParticipant(line)
  {
    var f := Fields(line);
    Participant(f[1], f[2], f[3], f[4], f[5], [])
  }

  function NewCapability(line: string): Capability
    requires IsCapability(line)
  {
    var f := Fields(line);
    Capability(f[2], f[3], f[4])
  }

  // ----- reading line after line -----

  function IndexOf(ps: seq<Participant>, id: string): (r: Option<nat>)
    ensures r.None? <==> forall i :: 0 <= i < |ps| ==> ps[i].participantId != id
    ensures r.Some? ==> r.value < |ps| && ps[r.value].participantId == id
  {
    if ps == [] then None
    else if ps[0].participantId == id then Some(0)
    else
      var r := IndexOf(ps[1..], id);
      assert forall i :: 1 <= i < |ps| ==> ps[i] == ps[1..][i - 1];
      if r.None? then None else Some(r.value + 1)
  }

  datatype State = State(header: bool, revision: string, participants: seq<Participant>)

  function AddCapability(ps: seq<Participant>, id: string, c: Capability): seq<Participant> {
    match IndexOf(ps, id)
    case None => ps
    case Some(i) => ps[i := ps[i].(capabilities := ps[i].capabilities + [c])]
  }

  function Step(s: State, line: string): State {
    if Skipped(line) then s
    else if IsMeta(line) then
      if WellFormedMeta(line) then s.(header := true, revision := Fields(line)[2]) else s.(header := false)
    else if !s.header then s
    else if IsParticipant(line) then
      if IndexOf(s.participants, Fields(line)[1]).Some? then s
      else s.(participants := s.participants + [NewParticipant(line)])
    else if IsCapability(line) then
      s.(participants := AddCapability(s.participants, Fields(line)[1], NewCapability(line)))
    else s
  }

  lemma AfterNext(lines: seq<string>, n: nat)
    requires n < |lines|
    ensures After(lines, n + 1) == Step(After(lines, n), lines[n])
  {
  }

  /** The state after the first `n` lines. */
  function After(lines: seq<string>, n: nat): State
    requires n <= |lines|
  {
    if n == 0 then State(false, "", []) else Step(After(lines, n - 1), lines[n - 1])
  }

  function Result(s: State): Projection {
    if s.header then Projection("authoritative", s.revision, s.participants) else Projection("invalid", "", [])
  }

  function Parse(content: string): Projection {
    var lines := Segments(content, '\n');
    Result(After(lines, |lines|))
  }

  // ----- what a line means on its own -----

  /** Line `m` is the last META line before line `n`. */
  predicate LastMeta(lines: seq<string>, n: nat, m: nat)
    requires n <= |lines|
  {
    m < n && IsMeta(lines[m]) && forall k :: m < k < n ==> !IsMeta(lines[k])
  }

  /** The last META line before line `n` exists and is well formed. */
  predicate Authoritative(lines: seq<string>, n: nat)
    requires n <= |lines|
  {
    exists m :: 0 <= m < n && LastMeta(lines, n, m) && WellFormedMeta(lines[m])
  }

  predicate Declares(lines: seq<string>, i: nat, id: string)
    requires i < |lines|
  {
    IsParticipant(lines[i]) && Fields(lines[i])[1] == id && Authoritative(lines, i)
  }

  predicate FirstDeclares(lines: seq<string>, i: nat, id: string)
    requires i < |lines|
  {
    Declares(lines, i, id) && forall j :: 0 <= j < i ==> !Declares(lines, j, id)
  }

  predicate Grants(lines: seq<string>, k: nat, id: string)
    requires k < |lines|
  {
    IsCapability(lines[k]) && Fields(lines[k])[1] == id && Authoritative(lines, k)
  }

  /** The capabilities that the lines from `i` up to `n` grant to `id`, in order. */
  function Granted(lines: seq<string>, i: nat, n: nat, id: string): seq<Capability>
    requires i <= n <= |lines|
  {
    if n == i then []
    else
      var earlier := Granted(lines, i, n - 1, id);
      if Grants(lines, n - 1, id) then earlier + [NewCapability(lines[n - 1])] else earlier
  }

  /** The participant line `i` declares, with what later lines grant it. */
  function Declared(lines: seq<string>, i: nat, n: nat): Participant
    requires i < n <= |lines| && IsParticipant(lines[i])
  {
    NewParticipant(lines[i]).(capabilities := Granted(lines, i + 1, n, Fields(lines[i])[1]))
  }

  predicate DeclaredBy(lines: seq<string>, n: nat, p: Participant, i: nat)
    requires n <= |lines|
  {
    i < n && FirstDeclares(lines, i, p.participantId) && p == Declared(lines, i, n)
  }

  predicate HasOrigin(lines: seq<string>, n: nat, p: Participant)
    requires n <= |lines|
  {
    exists i :: 0 <= i < n && DeclaredBy(lines, n, p, i)
  }

  ghost predicate Explains(lines: seq<string>, n: nat, ps: seq<Participant>)
    requires n <= |lines|
  {
    && Distinct(ps)
    && (forall a :: 0 <= a < |ps| ==> HasOrigin(lines, n, ps[a]))
    && (forall i, id :: 0 <= i < n && Declares(lines, i, id) ==> IndexOf(ps, id).Some?)
  }

  // ----- the reading against the meaning -----

  lemma {:induction false} HeaderIsAuthoritative(lines: seq<string>, n: nat)
    requires n <= |lines|
    ensures After(lines, n).header <==> Authoritative(lines, n)
    ensures forall m :: 0 <= m < n && LastMeta(lines, n, m) && WellFormedMeta(lines[m]) ==>
              After(lines, n).revision == Fields(lines[m])[2]
  {
    hide IsMeta, WellFormedMeta, Step, LastMeta, Fields;
    if n > 0 {
      HeaderIsAuthoritative(lines, n - 1);
      if IsMeta(lines[n - 1]) {
        MetaDecides(After(lines, n - 1), lines[n - 1]);
        OnlyLastMeta(lines, n);
      } else {
        hide Authoritative;
        SameMeta(lines, n);
        SameHeader(After(lines, n - 1), lines[n - 1]);
      }
    }
  }

  lemma MetaDecides(s: State, line: string)
    requires IsMeta(line)
    ensures Step(s, line).header == WellFormedMeta(line)
    ensures WellFormedMeta(line) ==> Step(s, line).revision == Fields(line)[2]
  {
    hide Skipped, Fields;
  }

  lemma OnlyLastMeta(lines: seq<string>, n: nat)
    requires 0 < n <= |lines| && IsMeta(lines[n - 1])
    ensures forall m :: 0 <= m < n ==> (LastMeta(lines, n, m) <==> m == n - 1)
  {
    hide IsMeta;
  }

  lemma SameMeta(lines: seq<string>, n: nat)
    requires 0 < n <= |lines| && !IsMeta(lines[n - 1])
    ensures !LastMeta(lines, n, n - 1)
    ensures forall m :: 0 <= m < n - 1 ==> LastMeta(lines, n, m) == LastMeta(lines, n - 1, m)
    ensures Authoritative(lines, n) == Authoritative(lines, n - 1)
  {
    hide IsMeta, WellFormedMeta;
    if Authoritative(lines, n - 1) {
      var m :| 0 <= m < n - 1 && LastMeta(lines, n - 1, m) && WellFormedMeta(lines[m]);
      assert LastMeta(lines, n, m);
    }
  }

  lemma SameHeader(s: State, line: string)
    requires !IsMeta(line)
    ensures Step(s, line).header == s.header && Step(s, line).revision == s.revision
  {
    hide Skipped, Fields, ValidFrom, AddCapability, IndexOf;
  }

  /** A view is authoritative exactly when the last META line is well formed; its revision
      is then that line's, and otherwise it is empty. */
  lemma AuthoritativeIff(content: string)
    ensures var lines := Segments(content, '\n');
            && (Parse(content).sourceStatus == "authoritative" <==> Authoritative(lines, |lines|))
            && (!Authoritative(lines, |lines|) ==> Parse(content) == Projection("invalid", "", []))
            && (forall m :: 0 <= m < |lines| && LastMeta(lines, |lines|, m) && WellFormedMeta(lines[m]) ==>
                  Parse(content).sourceRevision == Fields(lines[m])[2])
  {
    hide Step, WellFormedMeta, LastMeta;
    var lines := Segments(content, '\n');
    HeaderIsAuthoritative(lines, |lines|);
    forall m | 0 <= m < |lines| && LastMeta(lines, |lines|, m) && WellFormedMeta(lines[m])
      ensures Authoritative(lines, |lines|)
    {
    }
  }

  /** A participant after line `n`, which may grant it one more capability. */
  function Next(lines: seq<string>, n: nat, p: Participant): Participant
    requires n < |lines|
  {
    if Grants(lines, n, p.participantId) then p.(capabilities := p.capabilities + [NewCapability(lines[n])]) else p
  }

  /** Line `n` introduces a participant that is not among `ps`. */
  predicate Introduces(lines: seq<string>, n: nat, ps: seq<Participant>)
    requires n < |lines|
  {
    IsParticipant(lines[n]) && Authoritative(lines, n) && IndexOf(ps, Fields(lines[n])[1]).None?
  }

  predicate Distinct(ps: seq<Participant>) {
    forall a, b :: 0 <= a < b < |ps| ==> ps[a].participantId != ps[b].participantId
  }

  lemma AddCapabilityTo(ps: seq<Participant>, id: string, c: Capability, a: nat)
    requires Distinct(ps) && a < |ps|
    ensures |AddCapability(ps, id, c)| == |ps|
    ensures AddCapability(ps, id, c)[a]
         == if ps[a].participantId == id then ps[a].(capabilities := ps[a].capabilities + [c]) else ps[a]
  {
  }

  /** One line changes the participants in exactly these two ways. */
  lemma LineEffect(lines: seq<string>, n: nat)
    requires n < |lines| && Distinct(After(lines, n).participants)
    ensures var ps, qs := After(lines, n).participants, After(lines, n + 1).participants;
            && |qs| == |ps| + (if Introduces(lines, n, ps) then 1 else 0)
            && (forall a :: 0 <= a < |ps| ==> qs[a] == Next(lines, n, ps[a]))
            && (Introduces(lines, n, ps) ==> qs[|ps|] == NewParticipant(lines[n]))
  {
    hide Authoritative, Fields, ValidText, Skipped, AddCapability, Distinct, IndexOf, WellFormedMeta;
    HeaderIsAuthoritative(lines, n);
    var s := After(lines, n);
    var line := lines[n];
    if s.header && IsCapability(line) {
      AddCapabilityKeepsLength(s.participants, Fields(line)[1], NewCapability(line));
      forall a | 0 <= a < |s.participants| ensures After(lines, n + 1).participants[a] == Next(lines, n, s.participants[a]) {
        AddCapabilityTo(s.participants, Fields(line)[1], NewCapability(line), a);
      }
    }
  }

  lemma AddCapabilityKeepsLength(ps: seq<Participant>, id: string, c: Capability)
    ensures |AddCapability(ps, id, c)| == |ps|
  {
  }

  lemma DeclaredNext(lines: seq<string>, n: nat, p: Participant, i: nat)
    requires n < |lines| && DeclaredBy(lines, n, p, i)
    ensures DeclaredBy(lines, n + 1, Next(lines, n, p), i)
  {
    hide Authoritative, IsCapability, Fields;
  }

  lemma DeclaredNow(lines: seq<string>, n: nat, ps: seq<Participant>)
    requires n < |lines| && Explains(lines, n, ps) && Introduces(lines, n, ps)
    ensures DeclaredBy(lines, n + 1, NewParticipant(lines[n]), n)
  {
    hide Authoritative, Fields;
    var id := Fields(lines[n])[1];
    assert Declares(lines, n, id);
    assert forall j :: 0 <= j < n && Declares(lines, j, id) ==> IndexOf(ps, id).Some?;
    assert Granted(lines, n + 1, n + 1, id) == [];
  }

  lemma NextKeepsId(lines: seq<string>, n: nat, p: Participant)
    requires n < |lines|
    ensures Next(lines, n, p).participantId == p.participantId
  {
  }

  lemma ExplainsStep(lines: seq<string>, n: nat, ps: seq<Participant>, qs: seq<Participant>)
    requires n < |lines| && Explains(lines, n, ps)
    requires |qs| == |ps| + (if Introduces(lines, n, ps) then 1 else 0)
    requires forall a :: 0 <= a < |ps| ==> qs[a] == Next(lines, n, ps[a])
    requires Introduces(lines, n, ps) ==> qs[|ps|] == NewParticipant(lines[n])
    ensures Explains(lines, n + 1, qs)
  {
    hide Next, DeclaredBy, Authoritative, Fields;
    forall a | 0 <= a < |ps| ensures qs[a].participantId == ps[a].participantId { NextKeepsId(lines, n, ps[a]); }
    assert Introduces(lines, n, ps) ==> qs[|ps|].participantId == Fields(lines[n])[1];
    assert Distinct(qs);
    forall a | 0 <= a < |qs| ensures HasOrigin(lines, n + 1, qs[a]) {
      if a < |ps| {
        assert HasOrigin(lines, n, ps[a]);
        var i :| 0 <= i < n && DeclaredBy(lines, n, ps[a], i);
        DeclaredNext(lines, n, ps[a], i);
      } else {
        DeclaredNow(lines, n, ps);
      }
    }
    forall i, id | 0 <= i < n + 1 && Declares(lines, i, id) ensures IndexOf(qs, id).Some? {
      if IndexOf(ps, id).Some? {
        assert qs[IndexOf(ps, id).value].participantId == id;
      } else {
        assert i == n;
        assert qs[|ps|].participantId == id;
      }
    }
  }

  lemma {:induction false} ParticipantsExplained(lines: seq<string>, n: nat)
    requires n <= |lines|
    ensures Explains(lines, n, After(lines, n).participants)
  {
    hide Explains, After;
    if n == 0 {
      NothingToExplain(lines);
    } else {
      ParticipantsExplained(lines, n - 1);
      OneMoreExplained(lines, n - 1);
    }
  }

  lemma OneMoreExplained(lines: seq<string>, n: nat)
    requires n < |lines| && Explains(lines, n, After(lines, n).participants)
    ensures Explains(lines, n + 1, After(lines, n + 1).participants)
  {
    hide After, Explains, Introduces, Next, NewParticipant, IsParticipant, Distinct, Authoritative;
    var ps := After(lines, n).participants;
    ExplainedIsDistinct(lines, n, ps);
    LineEffect(lines, n);
    ExplainsStep(lines, n, ps, After(lines, n + 1).participants);
  }

  lemma NothingToExplain(lines: seq<string>)
    ensures Explains(lines, 0, After(lines, 0).participants)
  {
  }

  // ----- the exact sequence -----

  predicate DeclaresFirst(lines: seq<string>, i: nat)
    requires i < |lines|
  {
    IsParticipant(lines[i]) && FirstDeclares(lines, i, Fields(lines[i])[1])
  }

  /** The lines that first declare a participant, in order. */
  function FirstLines(lines: seq<string>, n: nat): (r: seq<nat>)
    requires n <= |lines|
    ensures forall a :: 0 <= a < |r| ==> r[a] < n && IsParticipant(lines[r[a]])
  {
    if n == 0 then []
    else
      var earlier := FirstLines(lines, n - 1);
      if IsParticipant(lines[n - 1]) && DeclaresFirst(lines, n - 1) then earlier + [n - 1] else earlier
  }

  /** Strictly increasing, and exactly the first declarations. */
  lemma {:induction false} FirstLinesAre(lines: seq<string>, n: nat)
    requires n <= |lines|
    ensures forall a, b :: 0 <= a < b < |FirstLines(lines, n)| ==> FirstLines(lines, n)[a] < FirstLines(lines, n)[b]
    ensures forall i :: 0 <= i < n ==> (i in FirstLines(lines, n) <==> DeclaresFirst(lines, i))
  {
    hide DeclaresFirst, IsParticipant;
    if n > 0 {
      FirstLinesAre(lines, n - 1);
      if DeclaresFirst(lines, n - 1) { FirstIsParticipant(lines, n - 1); }
    }
  }

  /** The participants those lines declare, with what later lines grant them. */
  function DeclaredInOrder(lines: seq<string>, n: nat): (r: seq<Participant>)
    requires n <= |lines|
    ensures |r| == |FirstLines(lines, n)|
    ensures forall a :: 0 <= a < |r| ==> r[a] == Declared(lines, FirstLines(lines, n)[a], n)
  {
    seq(|FirstLines(lines, n)|, a requires 0 <= a < |FirstLines(lines, n)| => Declared(lines, FirstLines(lines, n)[a], n))
  }

  lemma IntroducesIff(lines: seq<string>, n: nat, ps: seq<Participant>)
    requires n < |lines| && Explains(lines, n, ps)
    ensures Introduces(lines, n, ps) <==> DeclaresFirst(lines, n)
  {
    hide Fields, ValidText, Authoritative;
    if DeclaresFirst(lines, n) {
      var id := Fields(lines[n])[1];
      assert IndexOf(ps, id).None? by { NotYetThere(lines, n, ps, id); }
    }
    if Introduces(lines, n, ps) { DeclaredNow(lines, n, ps); }
  }

  lemma NotYetThere(lines: seq<string>, n: nat, ps: seq<Participant>, id: string)
    requires n <= |lines| && Explains(lines, n, ps) && forall j :: 0 <= j < n ==> !Declares(lines, j, id)
    ensures IndexOf(ps, id).None?
  {
    hide Declares, Declared;
    forall a | 0 <= a < |ps| ensures ps[a].participantId != id {
      assert HasOrigin(lines, n, ps[a]);
    }
  }

  /** One more line moves each declared participant on and may add one at the end. */
  lemma InOrderStep(lines: seq<string>, n: nat, ps: seq<Participant>, qs: seq<Participant>)
    requires n < |lines| && ps == DeclaredInOrder(lines, n)
    requires |qs| == |ps| + (if DeclaresFirst(lines, n) then 1 else 0)
    requires forall a :: 0 <= a < |ps| ==> qs[a] == Next(lines, n, ps[a])
    requires DeclaresFirst(lines, n) ==> IsParticipant(lines[n]) && qs[|ps|] == NewParticipant(lines[n])
    ensures qs == DeclaredInOrder(lines, n + 1)
  {
    hide DeclaresFirst, Grants, NewCapability, IsParticipant, Declared, Next, NewParticipant;
    var firsts := FirstLines(lines, n);
    forall a | 0 <= a < |qs| ensures qs[a] == DeclaredInOrder(lines, n + 1)[a] {
      if a < |ps| {
        DeclaredMoves(lines, firsts[a], n);
      } else {
        DeclaredAtOnce(lines, n);
      }
    }
  }

  lemma DeclaredMoves(lines: seq<string>, i: nat, n: nat)
    requires i < n < |lines| && IsParticipant(lines[i])
    ensures Next(lines, n, Declared(lines, i, n)) == Declared(lines, i, n + 1)
  {
    hide Authoritative, IsCapability, Fields;
  }

  lemma DeclaredAtOnce(lines: seq<string>, n: nat)
    requires n < |lines| && IsParticipant(lines[n])
    ensures NewParticipant(lines[n]) == Declared(lines, n, n + 1)
  {
    hide Authoritative, Fields;
    assert Granted(lines, n + 1, n + 1, Fields(lines[n])[1]) == [];
  }

  lemma {:induction false} ParticipantsInOrder(lines: seq<string>, n: nat)
    requires n <= |lines|
    ensures After(lines, n).participants == DeclaredInOrder(lines, n)
  {
    hide Step, DeclaresFirst;
    if n == 0 {
      assert DeclaredInOrder(lines, 0) == [];
    } else {
      hide After, DeclaredInOrder;
      ParticipantsInOrder(lines, n - 1);
      OneMoreInOrder(lines, n - 1);
    }
  }

  lemma OneMoreInOrder(lines: seq<string>, n: nat)
    requires n < |lines| && After(lines, n).participants == DeclaredInOrder(lines, n)
    ensures After(lines, n + 1).participants == DeclaredInOrder(lines, n + 1)
  {
    hide After, Explains, DeclaresFirst, Introduces, Next, DeclaredInOrder, NewParticipant, IsParticipant, Distinct, Authoritative;
    var ps := After(lines, n).participants;
    ParticipantsExplained(lines, n);
    ExplainedIsDistinct(lines, n, ps);
    IntroducesIff(lines, n, ps);
    if DeclaresFirst(lines, n) { FirstIsParticipant(lines, n); }
    LineEffect(lines, n);
    InOrderStep(lines, n, ps, After(lines, n + 1).participants);
  }

  lemma FirstIsParticipant(lines: seq<string>, i: nat)
    requires i < |lines| && DeclaresFirst(lines, i)
    ensures IsParticipant(lines[i])
  {
  }

  lemma ExplainedIsDistinct(lines: seq<string>, n: nat, ps: seq<Participant>)
    requires n <= |lines| && Explains(lines, n, ps)
    ensures Distinct(ps)
  {
  }

  /** The participants of an authoritative view have distinct identifiers; each one is the
      first line that declares it under a well-formed header, with the capabilities later
      lines grant it under one, in order; they appear in the order of those first lines;
      and no such declaration is missing. */
  lemma ViewIsExplained(content: string)
    requires Parse(content).sourceStatus == "authoritative"
    ensures var lines := Segments(content, '\n');
            && Parse(content).participants == DeclaredInOrder(lines, |lines|)
            && Explains(lines, |lines|, Parse(content).participants)
  {
    hide After, Explains, DeclaredInOrder;
    var lines := Segments(content, '\n');
    ParticipantsExplained(lines, |lines|);
    ParticipantsInOrder(lines, |lines|);
  }

  // ----- the file -----

  function ParseFile(read: Read): Projection {
    if read.path == "" then Projection("not_configured", "", [])
    else if read.source.Missing? then Projection("unavailable", "", [])
    else if |read.source.content| > MAX_BYTES then Projection("invalid", "", [])
    else Parse(read.source.content)
  }

  /** Anything but an authoritative view is an explicit empty one. */
  lemma FailsClosed(read: Read)
    ensures var view := ParseFile(read);
            && (view.sourceStatus != "authoritative" ==> view.participants == [] && view.sourceRevision == "")
            && Distinct(view.participants)
  {
    if read.path != "" && read.source.File? && |read.source.content| <= MAX_BYTES {
      hide Segments, After, LastMeta, WellFormedMeta;
      if Parse(read.source.content).sourceStatus == "authoritative" {
        ViewIsExplained(read.source.content);
      }
    }
  }
}
