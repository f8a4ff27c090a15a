/** Snapshots of projection files, reread when the path or the write time changes, and the
    operational view observed from the declarative one. */
module SnapshotCache {
  import opened Text

  /** A projection file as one call sees it. */
  datatype Source = Missing | File(time: int, content: string)

  datatype Read = Read(path: string, source: Source)

  function TimeOf(source: Source): Option<int> {
    if source.Missing? then None else Some(source.time)
  }

  /** The stored view with the path and write time it was read under. */
  datatype Snapshot<V> = Empty | Taken(view: V, path: string, time: Option<int>)

  predicate Changed<V>(s: Snapshot<V>, read: Read) {
    s.Empty? || s.path != read.path || s.time != TimeOf(read.source)
  }

  function Refresh<V>(s: Snapshot<V>, read: Read, parse: Read -> V): Snapshot<V> {
    if Changed(s, read) then Taken(parse(read), read.path, TimeOf(read.source)) else s
  }

  // ----- one cache over a run of calls -----

  ghost predicate RefreshedAt<V>(visits: seq<Read>, parse: Read -> V, states: seq<Snapshot<V>>, i: nat)
    requires i < |visits| && i + 1 < |states|
  {
    states[i + 1] == Refresh(states[i], visits[i], parse)
  }

  ghost predicate IsCacheRun<V>(visits: seq<Read>, parse: Read -> V, states: seq<Snapshot<V>>) {
    && |states| == |visits| + 1
    && states[0].Empty?
    && forall i :: 0 <= i < |visits| ==> RefreshedAt(visits, parse, states, i)
  }

  /** The view after call `i` is the one a fresh parse at that call gives. */
  ghost predicate CurrentAt<V>(visits: seq<Read>, parse: Read -> V, states: seq<Snapshot<V>>, i: nat)
    requires i < |visits| && i + 1 < |states|
  {
    states[i + 1].Taken? && states[i + 1].view == parse(visits[i])
  }

  /** Between two neighbouring calls the view changes only with the path or the write time. */
  ghost predicate HonestAt<V(!new)>(visits: seq<Read>, parse: Read -> V, i: nat)
    requires i + 1 < |visits|
  {
    visits[i].path == visits[i + 1].path && TimeOf(visits[i].source) == TimeOf(visits[i + 1].source) ==>
      parse(visits[i]) == parse(visits[i + 1])
  }

  /** Whatever happens, a snapshot is labelled with the last call's path and write time. */
  lemma LabelIsLast<V(!new)>(visits: seq<Read>, parse: Read -> V, states: seq<Snapshot<V>>, i: nat)
    requires IsCacheRun(visits, parse, states) && i < |visits|
    ensures states[i + 1].Taken? && states[i + 1].path == visits[i].path && states[i + 1].time == TimeOf(visits[i].source)
  {
    assert RefreshedAt(visits, parse, states, i);
  }

  lemma {:induction false} HonestIsCurrent<V(!new)>(visits: seq<Read>, parse: Read -> V, states: seq<Snapshot<V>>, n: nat)
    requires IsCacheRun(visits, parse, states) && n < |visits|
    requires forall i :: 0 <= i < n ==> HonestAt(visits, parse, i)
    ensures CurrentAt(visits, parse, states, n)
  {
    assert RefreshedAt(visits, parse, states, n);
    if n > 0 {
      HonestIsCurrent(visits, parse, states, n - 1);
      LabelIsLast(visits, parse, states, n - 1);
      assert HonestAt(visits, parse, n - 1);
    }
  }

  /** Every view returned equals rereading the file, exactly when no two neighbouring calls
      see different views under one path and write time. */
  lemma CurrentIffHonest<V(!new)>(visits: seq<Read>, parse: Read -> V, states: seq<Snapshot<V>>)
    requires IsCacheRun(visits, parse, states)
    ensures (forall i :: 0 <= i < |visits| ==> CurrentAt(visits, parse, states, i))
       <==> (forall i :: 0 <= i < |visits| - 1 ==> HonestAt(visits, parse, i))
  {
    if forall i :: 0 <= i < |visits| - 1 ==> HonestAt(visits, parse, i) {
      forall n | 0 <= n < |visits| ensures CurrentAt(visits, parse, states, n) {
        HonestIsCurrent(visits, parse, states, n);
      }
    }
    if forall i :: 0 <= i < |visits| ==> CurrentAt(visits, parse, states, i) {
      forall i | 0 <= i < |visits| - 1 ensures HonestAt(visits, parse, i) {
        assert CurrentAt(visits, parse, states, i) && CurrentAt(visits, parse, states, i + 1);
        LabelIsLast(visits, parse, states, i);
        assert RefreshedAt(visits, parse, states, i + 1);
      }
    }
  }

  // ----- the ecosystem view and its health -----

  datatype Health = Health(status: string, httpStatus: int, detail: string)

  /** `description` stands for the fields no operation here looks at. */
  datatype System = System(description: string, healthPath: string, transport: string, listen: string, port: nat, health: Health)

  datatype View = View(header: string, systems: seq<System>)

  type Probe = (nat, string) -> Health

  function HealthOf(s: System, probe: Probe): Health {
    if s.healthPath == "" then Health("not_observed", 0, "no_probe_declared")
    else if s.transport != "tcp" then Health("not_observed", 0, "unsupported_probe_transport")
    else if s.listen != "127.0.0.1" && s.listen != "localhost" && s.listen != "" then
      Health("not_observed", 0, "unsupported_probe_host")
    else probe(s.port, s.healthPath)
  }

  function Observe(view: View, probe: Probe): View {
    view.(systems := seq(|view.systems|, i requires 0 <= i < |view.systems| =>
      view.systems[i].(health := HealthOf(view.systems[i], probe))))
  }

  function WithoutHealth(view: View): View {
    view.(systems := seq(|view.systems|, i requires 0 <= i < |view.systems| =>
      view.systems[i].(health := Health("", 0, ""))))
  }

  lemma ObserveOnlySetsHealth(view: View, probe: Probe)
    ensures WithoutHealth(Observe(view, probe)) == WithoutHealth(view)
  {
    var a, b := WithoutHealth(Observe(view, probe)), WithoutHealth(view);
    assert a.systems == b.systems;
  }

  /** A system that declares a path on a loopback TCP port. */
  predicate Observable(s: System) {
    s.healthPath != "" && s.transport == "tcp" && s.listen in {"127.0.0.1", "localhost", ""}
  }

  /** Every observable system holds what its own port and path answered; every other one is
      marked as not observed, with the first reason. */
  lemma HealthIs(view: View, probe: Probe, i: nat)
    requires i < |view.systems|
    ensures var s, t := view.systems[i], Observe(view, probe).systems[i];
            && |Observe(view, probe).systems| == |view.systems|
            && (Observable(s) ==> t.health == probe(s.port, s.healthPath))
            && (!Observable(s) ==> t.health.status == "not_observed" && t.health.httpStatus == 0)
            && (!Observable(s) ==> (t.health.detail == "no_probe_declared" <==> s.healthPath == ""))
            && (!Observable(s) ==>
                 (t.health.detail == "unsupported_probe_transport" <==> s.healthPath != "" && s.transport != "tcp"))
            && (!Observable(s) ==>
                 (t.health.detail == "unsupported_probe_host" <==> s.healthPath != "" && s.transport == "tcp"))
  {
    assert "no_probe_declared"[0] == 'n' && "unsupported_probe_transport"[0] == 'u';
    assert |"unsupported_probe_transport"| == 27 && |"unsupported_probe_host"| == 22;
  }

  const FRESHNESS: int := 500_000_000

  datatype Ecosystem = Ecosystem(declarative: Snapshot<View>, operational: Option<View>, observedAt: int)

  datatype Call = Declarative(read: Read) | Observed(read: Read, now: int, probe: Probe)

  function RefreshEcosystem(s: Ecosystem, read: Read, parse: Read -> View): Ecosystem {
    if Changed(s.declarative, read) then s.(declarative := Refresh(s.declarative, read, parse), operational := None) else s
  }

  /** The new state and the view returned. */
  function Serve(s: Ecosystem, call: Call, parse: Read -> View): (r: (Ecosystem, View)) {
    var t := RefreshEcosystem(s, call.read, parse);
    match call
    case Declarative(_) => (t, t.declarative.view)
    case Observed(_, now, probe) =>
      if t.operational.None? || now - t.observedAt >= FRESHNESS then
        var view := Observe(t.declarative.view, probe);
        (t.(operational := Some(view), observedAt := now), view)
      else (t, t.operational.value)
  }

  function Reads(calls: seq<Call>): (r: seq<Read>)
    ensures |r| == |calls| && forall i :: 0 <= i < |calls| ==> r[i] == calls[i].read
  {
    seq(|calls|, i requires 0 <= i < |calls| => calls[i].read)
  }

  function Declaratives(states: seq<Ecosystem>): (r: seq<Snapshot<View>>)
    ensures |r| == |states| && forall i :: 0 <= i < |states| ==> r[i] == states[i].declarative
  {
    seq(|states|, i requires 0 <= i < |states| => states[i].declarative)
  }

  datatype Run = Run(calls: seq<Call>, states: seq<Ecosystem>, replies: seq<View>)

  ghost predicate ServedAt(run: Run, parse: Read -> View, i: nat)
    requires i < |run.calls| && i < |run.replies| && i + 1 < |run.states|
  {
    (run.states[i + 1], run.replies[i]) == Serve(run.states[i], run.calls[i], parse)
  }

  /** Any interleaving of the two entry points. */
  ghost predicate IsRun(run: Run, parse: Read -> View) {
    && |run.states| == |run.calls| + 1
    && |run.replies| == |run.calls|
    && run.states[0].declarative.Empty? && run.states[0].operational.None?
    && forall i :: 0 <= i < |run.calls| ==> ServedAt(run, parse, i)
  }

  ghost predicate Honest(calls: seq<Call>, parse: Read -> View) {
    forall i :: 0 <= i < |calls| - 1 ==> HonestAt(Reads(calls), parse, i)
  }

  lemma DeclarativeIsCache(run: Run, parse: Read -> View)
    requires IsRun(run, parse)
    ensures IsCacheRun(Reads(run.calls), parse, Declaratives(run.states))
  {
    forall i | 0 <= i < |run.calls| ensures RefreshedAt(Reads(run.calls), parse, Declaratives(run.states), i) {
      assert ServedAt(run, parse, i);
    }
  }

  /** The stored declarative view is current after every call of either kind. */
  lemma StoredIsCurrent(run: Run, parse: Read -> View, i: nat)
    requires IsRun(run, parse) && Honest(run.calls, parse) && i < |run.calls|
    ensures run.states[i + 1].declarative.Taken?
    ensures run.states[i + 1].declarative.view == parse(run.calls[i].read)
  {
    hide Serve, HonestAt;
    DeclarativeIsCache(run, parse);
    HonestIsCurrent(Reads(run.calls), parse, Declaratives(run.states), i);
    assert CurrentAt(Reads(run.calls), parse, Declaratives(run.states), i);
  }

  lemma DeclarativeRepliesAreCurrent(run: Run, parse: Read -> View, i: nat)
    requires IsRun(run, parse) && Honest(run.calls, parse) && i < |run.calls| && run.calls[i].Declarative?
    ensures run.replies[i] == parse(run.calls[i].read)
  {
    hide Honest, Changed, Refresh;
    StoredIsCurrent(run, parse, i);
    assert ServedAt(run, parse, i);
  }

  /** The operational view in `s` was observed by call `k` from the stored declarative view. */
  ghost predicate ObservedBy(run: Run, s: Ecosystem, k: nat) {
    && k < |run.calls| && run.calls[k].Observed?
    && s.declarative.Taken? && s.operational.Some?
    && s.observedAt == run.calls[k].now
    && s.operational.value == Observe(s.declarative.view, run.calls[k].probe)
  }

  /** An operational view never outlives the declarative view it was observed from. */
  lemma {:induction false} OperationalHasOrigin(run: Run, parse: Read -> View, n: nat)
    requires IsRun(run, parse) && n <= |run.calls| && run.states[n].operational.Some?
    ensures exists k :: 0 <= k < n && ObservedBy(run, run.states[n], k)
  {
    assert n > 0;
    assert ServedAt(run, parse, n - 1);
    var s, t := run.states[n - 1], run.states[n];
    if t.operational == s.operational && t.observedAt == s.observedAt && t.declarative == s.declarative {
      OperationalHasOrigin(run, parse, n - 1);
      var k :| 0 <= k < n - 1 && ObservedBy(run, s, k);
      assert ObservedBy(run, t, k);
    } else {
      assert ObservedBy(run, t, n - 1);
    }
  }

  /** Every operational view returned is the current declarative view with the health one
      call less than 500 ms back observed, and so differs from it in health alone. */
  lemma ObservedRepliesAreRecent(run: Run, parse: Read -> View, j: nat)
    requires IsRun(run, parse) && Honest(run.calls, parse) && j < |run.calls| && run.calls[j].Observed?
    ensures exists k :: 0 <= k <= j && run.calls[k].Observed? && run.calls[j].now - run.calls[k].now < FRESHNESS
                     && run.replies[j] == Observe(parse(run.calls[j].read), run.calls[k].probe)
    ensures WithoutHealth(run.replies[j]) == WithoutHealth(parse(run.calls[j].read))
  {
    hide Honest, Changed, Refresh, WithoutHealth;
    StoredIsCurrent(run, parse, j);
    assert ServedAt(run, parse, j);
    OperationalHasOrigin(run, parse, j + 1);
    var k :| 0 <= k < j + 1 && ObservedBy(run, run.states[j + 1], k);
    ObserveOnlySetsHealth(parse(run.calls[j].read), run.calls[k].probe);
    assert run.replies[j] == run.states[j + 1].operational.value;
  }

  predicate SameLabel(a: Read, b: Read) { a.path == b.path && TimeOf(a.source) == TimeOf(b.source) }

  /** The call whose probing is held after the first `n` calls, by the calls alone: dropped
      when the file's path or write time changes, replaced by an observed call at least
      500 ms later. */
  function Prober(calls: seq<Call>, n: nat): (r: Option<nat>)
    requires n <= |calls|
    ensures r.Some? ==> r.value < n && calls[r.value].Observed?
  {
    if n == 0 then None
    else
      var kept := if n > 1 && SameLabel(calls[n - 2].read, calls[n - 1].read) then Prober(calls, n - 1) else None;
      if calls[n - 1].Observed? && (kept.None? || calls[n - 1].now - calls[kept.value].now >= FRESHNESS) then Some(n - 1)
      else kept
  }

  lemma {:induction false} ProberIsHeld(run: Run, parse: Read -> View, n: nat)
    requires IsRun(run, parse) && n <= |run.calls|
    ensures run.states[n].operational.Some? <==> Prober(run.calls, n).Some?
    ensures Prober(run.calls, n).Some? ==> ObservedBy(run, run.states[n], Prober(run.calls, n).value)
  {
    hide Observe;
    if n > 0 {
      ProberIsHeld(run, parse, n - 1);
      assert ServedAt(run, parse, n - 1);
      DropsWithLabel(run, parse, n - 1);
    }
  }

  lemma DropsWithLabel(run: Run, parse: Read -> View, i: nat)
    requires IsRun(run, parse) && i < |run.calls|
    ensures Changed(run.states[i].declarative, run.calls[i].read) <==>
              !(i > 0 && SameLabel(run.calls[i - 1].read, run.calls[i].read))
  {
    hide Serve;
    DeclarativeIsCache(run, parse);
    if i > 0 { LabelIsLast(Reads(run.calls), parse, Declaratives(run.states), i - 1); }
  }

  /** When a call probes and when it does not: each operational reply shows the health that
      the call in charge observed, itself only if no observation less than 500 ms old of the
      same file was there. */
  lemma RepliesAreProbedBy(run: Run, parse: Read -> View, j: nat)
    requires IsRun(run, parse) && Honest(run.calls, parse) && j < |run.calls| && run.calls[j].Observed?
    ensures Prober(run.calls, j + 1).Some?
    ensures var k := Prober(run.calls, j + 1).value;
            run.replies[j] == Observe(parse(run.calls[j].read), run.calls[k].probe)
  {
    hide Honest, Changed, Refresh, Observe, Prober;
    StoredIsCurrent(run, parse, j);
    assert ServedAt(run, parse, j);
    ProberIsHeld(run, parse, j + 1);
  }
}
