/** Integration runs: an execution state machine and a validity state machine over one record. */
module IntegrationRun {
  import opened Text

  /** Identifiers are built only from non-empty text. */
  type Identifier = s: string | s != "" witness "x"

  datatype Artifact = Artifact(schema: Identifier, digest: Identifier, referenceId: string)
  datatype Evidence = Evidence(id: Identifier, schema: Identifier, digest: Identifier, location: string)
  datatype ExecutionError = ExecutionError(code: string, message: string)

  datatype Relation =
    | Retry(parent: Identifier)
    | Reprocess(source: Identifier)
    | Supersession(successor: Identifier, reason: string)

  datatype Execution = Proposed | Authorized | Running | Completed | Failed | Cancelled | Superseded
  datatype Validity = Pending | Valid | Invalid | Replaced

  datatype ExecutionTransition = Authorize | Start | Complete | Fail | Cancel | Supersede
  datatype ValidityTransition = MarkValid | MarkInvalid | Replace

  datatype Proposal = Proposal(
    runId: Identifier, agreementId: Identifier, idempotencyKey: Identifier, correlationId: Identifier,
    participants: seq<string>, purpose: string, capability: string,
    inputs: seq<Artifact>, evidence: seq<Evidence>)

  datatype ExecutionContext = ExecutionContext(
    at: string, outputs: seq<Artifact>, error: ExecutionError,
    successor: Option<Identifier>, reason: string, cancellationReason: string)

  datatype ValidityContext = ValidityContext(at: string, successor: Option<Identifier>, reason: string)

  datatype Run = Run(
    runId: Identifier, agreementId: Identifier, idempotencyKey: Identifier, correlationId: Identifier,
    execution: Execution, validity: Validity,
    inputs: seq<Artifact>, outputs: seq<Artifact>, evidence: seq<Evidence>,
    errors: seq<ExecutionError>, relations: seq<Relation>,
    authorizedAt: string, startedAt: string, finishedAt: string, cancellationReason: string)

  function Propose(p: Proposal): Option<Run> {
    if |p.participants| < 2 || p.purpose == "" || p.capability == "" || p.inputs == [] then None
    else
      Some(Run(p.runId, p.agreementId, p.idempotencyKey, p.correlationId, Proposed, Pending,
               p.inputs, [], p.evidence, [], [], "", "", "", ""))
  }

  function TransitionExecution(run: Run, transition: ExecutionTransition, context: ExecutionContext): Option<Run> {
    if context.at == "" then None
    else
      match transition
      case Authorize =>
        if run.execution != Proposed then None
        else Some(run.(execution := Authorized, authorizedAt := context.at))
      case Start =>
        if run.execution != Authorized then None
        else Some(run.(execution := Running, startedAt := context.at))
      case Complete =>
        if run.execution != Running || context.outputs == [] then None
        else Some(run.(execution := Completed, outputs := context.outputs, finishedAt := context.at))
      case Fail =>
        if run.execution != Running || context.error.code == "" || context.error.message == "" then None
        else Some(run.(execution := Failed, errors := run.errors + [context.error], finishedAt := context.at))
      case Cancel =>
        if run.execution != Running || context.cancellationReason == "" then None
        else Some(run.(execution := Cancelled, cancellationReason := context.cancellationReason, finishedAt := context.at))
      case Supersede =>
        if run.execution != Completed && run.execution != Failed && run.execution != Cancelled then None
        else if context.successor.None? || context.reason == "" then None
        else Some(run.(execution := Superseded, validity := Replaced,
                       relations := run.relations + [Supersession(context.successor.value, context.reason)]))
  }

  function TransitionValidity(run: Run, transition: ValidityTransition, context: ValidityContext): Option<Run> {
    if context.at == "" || run.execution == Superseded then None
    else
      match transition
      case MarkValid =>
        if run.execution != Completed || run.validity != Pending then None else Some(run.(validity := Valid))
      case MarkInvalid =>
        if run.execution != Completed || run.validity != Pending then None else Some(run.(validity := Invalid))
      case Replace =>
        if context.successor.None? || context.reason == "" then None
        else Some(run.(validity := Replaced,
                       relations := run.relations + [Supersession(context.successor.value, context.reason)]))
  }

  // ----- histories -----

  datatype Event =
    | Execute(transition: ExecutionTransition, context: ExecutionContext)
    | Judge(verdict: ValidityTransition, judgement: ValidityContext)

  function Try(run: Run, e: Event): Option<Run> {
    match e
    case Execute(t, c) => TransitionExecution(run, t, c)
    case Judge(t, c) => TransitionValidity(run, t, c)
  }

  /** A refused transition leaves the caller with the run it had. */
  function After(run: Run, e: Event): Run {
    var next := Try(run, e);
    if next.Some? then next.value else run
  }

  /** Any sequence of attempted transitions, with the run before and after each. */
  datatype History = History(proposal: Proposal, events: seq<Event>, states: seq<Run>)

  predicate StepAt(h: History, i: nat)
    requires i < |h.events| && i + 1 < |h.states|
  {
    h.states[i + 1] == After(h.states[i], h.events[i])
  }

  predicate IsHistory(h: History) {
    && |h.states| == |h.events| + 1
    && Propose(h.proposal) == Some(h.states[0])
    && forall i :: 0 <= i < |h.events| ==> StepAt(h, i)
  }

  // ----- what every reachable run satisfies -----

  /** How many execution stages lie behind. */
  function Stage(e: Execution): nat {
    match e
    case Proposed => 0
    case Authorized => 1
    case Running => 2
    case Completed => 3
    case Failed => 3
    case Cancelled => 3
    case Superseded => 4
  }

  function Count(b: bool): nat { if b then 1 else 0 }

  /** How many of the three kinds of result are present. */
  function Results(run: Run): nat {
    Count(run.outputs != []) + Count(run.errors != []) + Count(run.cancellationReason != "")
  }

  predicate IsSupersession(r: Relation) { r.Supersession? && r.reason != "" }

  predicate AllSupersessions(rs: seq<Relation>) { forall i :: 0 <= i < |rs| ==> IsSupersession(rs[i]) }

  lemma OneMore(rs: seq<Relation>, successor: Identifier, reason: string)
    requires AllSupersessions(rs) && reason != ""
    ensures AllSupersessions(rs + [Supersession(successor, reason)])
  {
  }

  predicate Consistent(run: Run) {
    && (run.validity == Replaced <==> run.relations != [])
    && (run.validity == Valid || run.validity == Invalid ==> run.execution == Completed)
    && (run.execution == Superseded ==> run.validity == Replaced)
    && Results(run) == (if Stage(run.execution) >= 3 then 1 else 0)
    && (run.execution == Completed ==> run.outputs != [])
    && (run.execution == Failed ==> |run.errors| == 1)
    && (run.execution == Cancelled ==> run.cancellationReason != "")
    && (run.authorizedAt != "" <==> Stage(run.execution) >= 1)
    && (run.startedAt != "" <==> Stage(run.execution) >= 2)
    && (run.finishedAt != "" <==> Stage(run.execution) >= 3)
    && AllSupersessions(run.relations)
  }

  /** The part of a run that its proposal fixes. */
  predicate FromProposal(run: Run, p: Proposal) {
    && run.runId == p.runId && run.agreementId == p.agreementId
    && run.idempotencyKey == p.idempotencyKey && run.correlationId == p.correlationId
    && run.inputs == p.inputs && run.evidence == p.evidence
  }

  lemma ExecutionKeeps(run: Run, t: ExecutionTransition, c: ExecutionContext)
    requires Consistent(run) && TransitionExecution(run, t, c).Some?
    ensures Consistent(TransitionExecution(run, t, c).value)
  {
    hide AllSupersessions;
    if t == Supersede { OneMore(run.relations, c.successor.value, c.reason); }
  }

  lemma ValidityKeeps(run: Run, t: ValidityTransition, c: ValidityContext)
    requires Consistent(run) && TransitionValidity(run, t, c).Some?
    ensures Consistent(TransitionValidity(run, t, c).value)
  {
    hide AllSupersessions;
    if t == Replace { OneMore(run.relations, c.successor.value, c.reason); }
  }

  lemma ProposalKept(run: Run, e: Event, p: Proposal)
    requires FromProposal(run, p)
    ensures FromProposal(After(run, e), p)
  {
  }

  lemma TransitionKeeps(run: Run, e: Event, p: Proposal)
    requires Consistent(run) && FromProposal(run, p)
    ensures Consistent(After(run, e)) && FromProposal(After(run, e), p)
  {
    hide Consistent, TransitionExecution, TransitionValidity, FromProposal;
    ProposalKept(run, e, p);
    if Try(run, e).Some? {
      match e {
        case Execute(t, c) => ExecutionKeeps(run, t, c);
        case Judge(t, c) => ValidityKeeps(run, t, c);
      }
    }
  }

  /** Every run any caller can hold is consistent and still carries its proposal's
      identity, inputs and evidence. */
  lemma {:induction false} ReachableRuns(h: History, n: nat)
    requires IsHistory(h) && n <= |h.events|
    ensures Consistent(h.states[n]) && FromProposal(h.states[n], h.proposal)
  {
    if n > 0 {
      hide Consistent, FromProposal, After;
      ReachableRuns(h, n - 1);
      assert StepAt(h, n - 1);
      TransitionKeeps(h.states[n - 1], h.events[n - 1], h.proposal);
    }
  }

  /** A run whose execution is superseded accepts nothing. */
  lemma SupersededIsFinal(run: Run, e: Event)
    requires run.execution == Superseded
    ensures Try(run, e) == None && After(run, e) == run
  {
  }

  /** Once superseded, a run is the same value for the rest of its history. */
  lemma {:induction false} SupersededForever(h: History, i: nat, j: nat)
    requires IsHistory(h) && i <= j <= |h.events| && h.states[i].execution == Superseded
    ensures h.states[j] == h.states[i]
  {
    if i < j {
      SupersededForever(h, i, j - 1);
      assert StepAt(h, j - 1);
      SupersededIsFinal(h.states[j - 1], h.events[j - 1]);
    }
  }

  predicate Succeeds(h: History, i: nat)
    requires i < |h.events| && i < |h.states|
  {
    h.events[i].Execute? && Try(h.states[i], h.events[i]).Some?
  }

  /** Execution transitions that succeeded among the first `n` events. */
  function Executions(h: History, n: nat): nat
    requires n <= |h.events| < |h.states|
  {
    if n == 0 then 0 else Executions(h, n - 1) + Count(Succeeds(h, n - 1))
  }

  lemma StageCounts(run: Run, e: Event)
    ensures Stage(After(run, e).execution) == Stage(run.execution) + Count(e.Execute? && Try(run, e).Some?)
  {
  }

  /** The execution status counts the successful execution transitions, so no history has
      more than four. */
  lemma {:induction false} FourExecutionsAtMost(h: History, n: nat)
    requires IsHistory(h) && n <= |h.events|
    ensures Executions(h, n) == Stage(h.states[n].execution) <= 4
  {
    if n > 0 {
      hide After, Try;
      FourExecutionsAtMost(h, n - 1);
      assert StepAt(h, n - 1);
      StageCounts(h.states[n - 1], h.events[n - 1]);
    }
  }

  /** What may still change between an earlier and a later value of one run. */
  predicate Extends(run: Run, later: Run) {
    && Stage(run.execution) <= Stage(later.execution)
    && run.relations <= later.relations
    && (run.authorizedAt != "" ==> later.authorizedAt == run.authorizedAt)
    && (run.startedAt != "" ==> later.startedAt == run.startedAt)
    && (run.finishedAt != "" ==> later.finishedAt == run.finishedAt)
    && (Stage(run.execution) >= 3 ==>
          && later.outputs == run.outputs && later.errors == run.errors
          && later.cancellationReason == run.cancellationReason)
    && (run.validity != Pending ==> later.validity == run.validity || later.validity == Replaced)
  }

  lemma ExecutionExtends(run: Run, t: ExecutionTransition, c: ExecutionContext)
    requires Consistent(run) && TransitionExecution(run, t, c).Some?
    ensures Extends(run, TransitionExecution(run, t, c).value)
  {
    hide AllSupersessions;
  }

  lemma ValidityExtends(run: Run, t: ValidityTransition, c: ValidityContext)
    requires TransitionValidity(run, t, c).Some?
    ensures Extends(run, TransitionValidity(run, t, c).value)
  {
  }

  lemma TransitionExtends(run: Run, e: Event)
    requires Consistent(run)
    ensures Extends(run, After(run, e))
  {
    if Try(run, e).Some? {
      hide Consistent, TransitionExecution, TransitionValidity, Extends;
      match e {
        case Execute(t, c) => ExecutionExtends(run, t, c);
        case Judge(t, c) => ValidityExtends(run, t, c);
      }
    }
  }

  lemma ExtendsFurther(a: Run, b: Run, c: Run)
    requires Extends(a, b) && Extends(b, c)
    ensures Extends(a, c)
  {
  }

  /** Nothing recorded is rewritten: relations only grow, timestamps and results are set
      once, and a verdict can only be replaced. */
  lemma {:induction false} HistoryOnlyGrows(h: History, i: nat, j: nat)
    requires IsHistory(h) && i <= j <= |h.events|
    ensures Extends(h.states[i], h.states[j])
  {
    if i < j {
      hide Extends, Consistent, After, FromProposal;
      HistoryOnlyGrows(h, i, j - 1);
      ReachableRuns(h, j - 1);
      assert StepAt(h, j - 1);
      TransitionExtends(h.states[j - 1], h.events[j - 1]);
      ExtendsFurther(h.states[i], h.states[j - 1], h.states[j]);
    }
  }

  // ----- where what a run records comes from -----

  /** Event `i` is the execution transition `t`, and it succeeded. */
  predicate Did(h: History, i: nat, t: ExecutionTransition)
    requires |h.states| == |h.events| + 1
  {
    i < |h.events| && h.events[i].Execute? && h.events[i].transition == t && Try(h.states[i], h.events[i]).Some?
  }

  predicate AuthorizedBy(h: History, run: Run, i: nat)
    requires |h.states| == |h.events| + 1
  {
    Did(h, i, Authorize) && run.authorizedAt == h.events[i].context.at
  }

  predicate StartedBy(h: History, run: Run, i: nat)
    requires |h.states| == |h.events| + 1
  {
    Did(h, i, Start) && run.startedAt == h.events[i].context.at
  }

  /** Event `i` ended the execution and is where time and result come from. */
  predicate FinishedBy(h: History, run: Run, i: nat)
    requires |h.states| == |h.events| + 1
  {
    && (Did(h, i, Complete) || Did(h, i, Fail) || Did(h, i, Cancel))
    && run.finishedAt == h.events[i].context.at
    && run.outputs == (if Did(h, i, Complete) then h.events[i].context.outputs else [])
    && run.errors == (if Did(h, i, Fail) then [h.events[i].context.error] else [])
    && run.cancellationReason == (if Did(h, i, Cancel) then h.events[i].context.cancellationReason else "")
  }

  ghost predicate Traced(h: History, run: Run, n: nat)
    requires |h.states| == |h.events| + 1
  {
    && (Stage(run.execution) >= 1 ==> exists i :: 0 <= i < n && AuthorizedBy(h, run, i))
    && (Stage(run.execution) >= 2 ==> exists i :: 0 <= i < n && StartedBy(h, run, i))
    && (Stage(run.execution) >= 3 ==> exists i :: 0 <= i < n && FinishedBy(h, run, i))
  }

  /** The supersessions the first `n` events brought about, in order. */
  function Supersessions(h: History, n: nat): seq<Relation>
    requires n <= |h.events| < |h.states|
  {
    if n == 0 then []
    else
      var earlier, e := Supersessions(h, n - 1), h.events[n - 1];
      if Try(h.states[n - 1], e).None? then earlier
      else match e
        case Execute(t, c) =>
          if t == Supersede && c.successor.Some? then earlier + [Supersession(c.successor.value, c.reason)] else earlier
        case Judge(t, c) =>
          if t == Replace && c.successor.Some? then earlier + [Supersession(c.successor.value, c.reason)] else earlier
  }

  /** A run's relations are exactly its successful supersessions, in order. */
  lemma {:induction false} RelationsAreSupersessions(h: History, n: nat)
    requires IsHistory(h) && n <= |h.events|
    ensures h.states[n].relations == Supersessions(h, n)
  {
    if n > 0 {
      RelationsAreSupersessions(h, n - 1);
      assert StepAt(h, n - 1);
    }
  }

  lemma SameStageTraced(h: History, before: Run, after: Run, n: nat)
    requires |h.states| == |h.events| + 1 && Traced(h, before, n)
    requires Stage(after.execution) <= Stage(before.execution) || (Stage(before.execution) == 3 && Stage(after.execution) == 4)
    requires after.authorizedAt == before.authorizedAt && after.startedAt == before.startedAt && after.finishedAt == before.finishedAt
    requires after.outputs == before.outputs && after.errors == before.errors && after.cancellationReason == before.cancellationReason
    ensures Traced(h, after, n + 1)
  {
    hide Did;
    if Stage(after.execution) >= 1 {
      var i :| 0 <= i < n && AuthorizedBy(h, before, i);
      assert AuthorizedBy(h, after, i);
    }
    if Stage(after.execution) >= 2 {
      var i :| 0 <= i < n && StartedBy(h, before, i);
      assert StartedBy(h, after, i);
    }
    if Stage(after.execution) >= 3 {
      var i :| 0 <= i < n && FinishedBy(h, before, i);
      assert FinishedBy(h, after, i);
    }
  }

  /** An execution transition that enters a new stage is where that stage's record comes from. */
  lemma NewStageTraced(h: History, n: nat)
    requires IsHistory(h) && n < |h.events| && Consistent(h.states[n]) && Traced(h, h.states[n], n)
    requires h.events[n].Execute? && h.events[n].transition != Supersede && Try(h.states[n], h.events[n]).Some?
    ensures Traced(h, After(h.states[n], h.events[n]), n + 1)
  {
    hide StepAt, Propose, AllSupersessions;
    var before, after := h.states[n], After(h.states[n], h.events[n]);
    var t := h.events[n].transition;
    assert Did(h, n, t);
    if t == Authorize {
      assert AuthorizedBy(h, after, n);
    } else {
      var i :| 0 <= i < n && AuthorizedBy(h, before, i);
      assert AuthorizedBy(h, after, i);
      if t == Start {
        assert StartedBy(h, after, n);
      } else {
        var j :| 0 <= j < n && StartedBy(h, before, j);
        assert StartedBy(h, after, j);
        assert FinishedBy(h, after, n);
      }
    }
  }

  lemma StepTraced(h: History, n: nat)
    requires IsHistory(h) && n < |h.events| && Consistent(h.states[n]) && Traced(h, h.states[n], n)
    ensures Traced(h, After(h.states[n], h.events[n]), n + 1)
  {
    hide Consistent, Traced, StepAt, Propose;
    var before, e := h.states[n], h.events[n];
    if e.Execute? && e.transition != Supersede && Try(before, e).Some? {
      NewStageTraced(h, n);
    } else {
      SameStageTraced(h, before, After(before, e), n);
    }
  }

  /** In every history each timestamp and result is the one given by the event that passed
      its stage. */
  lemma {:induction false} RecordsAreTraced(h: History, n: nat)
    requires IsHistory(h) && n <= |h.events|
    ensures Traced(h, h.states[n], n)
  {
    if n > 0 {
      hide Consistent, FromProposal, After, Traced;
      RecordsAreTraced(h, n - 1);
      ReachableRuns(h, n - 1);
      StepTraced(h, n - 1);
      assert StepAt(h, n - 1);
    }
  }

  // ----- which verdict a run carries, and what is accepted -----

  /** A verdict of this kind succeeded among the first `n` events. */
  ghost predicate Judged(h: History, n: nat, v: ValidityTransition)
    requires n <= |h.events| < |h.states|
  {
    exists i :: 0 <= i < n && JudgedAt(h, i, v)
  }

  predicate JudgedAt(h: History, i: nat, v: ValidityTransition)
    requires i < |h.events| && i < |h.states|
  {
    h.events[i].Judge? && h.events[i].verdict == v && Try(h.states[i], h.events[i]).Some?
  }

  /** A supersession of either kind succeeded at event `i`. */
  predicate SupersededAt(h: History, i: nat)
    requires i < |h.events| && i < |h.states|
  {
    && Try(h.states[i], h.events[i]).Some?
    && (h.events[i].Execute? ==> h.events[i].transition == Supersede)
    && (h.events[i].Judge? ==> h.events[i].verdict == Replace)
  }

  ghost predicate EverSuperseded(h: History, n: nat)
    requires n <= |h.events| < |h.states|
  {
    exists i :: 0 <= i < n && SupersededAt(h, i)
  }

  lemma VerdictStep(run: Run, e: Event)
    requires Consistent(run)
    ensures var after, done := After(run, e), Try(run, e).Some?;
            after.validity ==
              if done && ((e.Execute? && e.transition == Supersede) || (e.Judge? && e.verdict == Replace)) then Replaced
              else if done && e.Judge? && e.verdict == MarkValid then Valid
              else if done && e.Judge? && e.verdict == MarkInvalid then Invalid
              else run.validity
    ensures Try(run, e).Some? && e.Judge? && e.verdict != Replace ==> run.validity == Pending
  {
    hide Consistent;
  }

  /** A run is valid exactly when it was marked valid and never superseded, invalid exactly
      when it was marked invalid and never superseded, replaced exactly when it was ever
      superseded, and pending otherwise. */
  lemma {:induction false} VerdictIff(h: History, n: nat)
    requires IsHistory(h) && n <= |h.events|
    ensures h.states[n].validity == Valid <==> Judged(h, n, MarkValid) && !EverSuperseded(h, n)
    ensures h.states[n].validity == Invalid <==> Judged(h, n, MarkInvalid) && !EverSuperseded(h, n)
    ensures h.states[n].validity == Replaced <==> EverSuperseded(h, n)
  {
    if n > 0 {
      hide After, Try, Consistent, FromProposal, JudgedAt, SupersededAt;
      VerdictIff(h, n - 1);
      ReachableRuns(h, n - 1);
      assert StepAt(h, n - 1);
      VerdictStep(h.states[n - 1], h.events[n - 1]);
      LastEvent(h, n - 1);
      OneEventMore(h, n);
    }
  }

  lemma LastEvent(h: History, i: nat)
    requires IsHistory(h) && i < |h.events|
    ensures var e, done := h.events[i], Try(h.states[i], h.events[i]).Some?;
            && (SupersededAt(h, i) <==>
                  done && ((e.Execute? && e.transition == Supersede) || (e.Judge? && e.verdict == Replace)))
            && (forall v :: JudgedAt(h, i, v) <==> done && e.Judge? && e.verdict == v)
  {
    hide Try, StepAt;
  }

  lemma OneEventMore(h: History, n: nat)
    requires IsHistory(h) && 0 < n <= |h.events|
    ensures EverSuperseded(h, n) <==> EverSuperseded(h, n - 1) || SupersededAt(h, n - 1)
    ensures forall v :: Judged(h, n, v) <==> Judged(h, n - 1, v) || JudgedAt(h, n - 1, v)
  {
    hide JudgedAt, SupersededAt, StepAt;
  }

  /** The execution statuses a transition may leave. */
  predicate MayLeave(e: Execution, t: ExecutionTransition) {
    || (e == Proposed && t == Authorize)
    || (e == Authorized && t == Start)
    || (e == Running && t in {Complete, Fail, Cancel})
    || (e in {Completed, Failed, Cancelled} && t == Supersede)
  }

  /** What a transition needs from its caller besides a timestamp. */
  predicate Supplied(t: ExecutionTransition, c: ExecutionContext) {
    && (t == Complete ==> c.outputs != [])
    && (t == Fail ==> c.error.code != "" && c.error.message != "")
    && (t == Cancel ==> c.cancellationReason != "")
    && (t == Supersede ==> c.successor.Some? && c.reason != "")
  }

  /** An execution transition succeeds exactly from the status it leaves, with a timestamp and
      what it needs, and leads to the status it is named for. */
  lemma ExecutionAcceptedIff(run: Run, t: ExecutionTransition, c: ExecutionContext)
    ensures TransitionExecution(run, t, c).Some? <==> c.at != "" && MayLeave(run.execution, t) && Supplied(t, c)
    ensures TransitionExecution(run, t, c).Some? ==>
              var next := TransitionExecution(run, t, c).value.execution;
              && (next == Authorized <==> t == Authorize) && (next == Running <==> t == Start)
              && (next == Completed <==> t == Complete) && (next == Failed <==> t == Fail)
              && (next == Cancelled <==> t == Cancel) && (next == Superseded <==> t == Supersede)
  {
  }

  /** A verdict is accepted exactly on a completed run that is pending, a replacement on any
      run whose execution is not superseded, with a successor and a reason. */
  lemma ValidityAcceptedIff(run: Run, t: ValidityTransition, c: ValidityContext)
    ensures TransitionValidity(run, t, c).Some? <==>
              && c.at != "" && run.execution != Superseded
              && (t != Replace ==> run.execution == Completed && run.validity == Pending)
              && (t == Replace ==> c.successor.Some? && c.reason != "")
  {
  }

  /** A proposal becomes a run exactly with two participants, a purpose, a capability and an
      input; the run is then proposed and pending with nothing recorded. */
  lemma ProposedIff(p: Proposal)
    ensures Propose(p).Some? <==> |p.participants| >= 2 && p.purpose != "" && p.capability != "" && p.inputs != []
    ensures Propose(p).Some? ==>
              var run := Propose(p).value;
              && FromProposal(run, p) && run.execution == Proposed && run.validity == Pending
              && run.outputs == [] && run.errors == [] && run.relations == []
              && run.authorizedAt == "" && run.startedAt == "" && run.finishedAt == "" && run.cancellationReason == ""
  {
  }
}
