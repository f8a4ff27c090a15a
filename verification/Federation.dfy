/** The registry of governed systems. */
module Federation {
  import opened Text

  datatype Status = Active | Degraded | Inactive | Suspended
  datatype Maturity = Experimental | PreAlpha | Alpha | Beta | Production

  datatype Capability = Capability(id: string, version: string, contract: string)

  datatype Manifest = Manifest(
    id: string, version: string, owner: string, capabilities: seq<Capability>, status: Status, maturity: Maturity)

  datatype Error = NoId | NoVersion | NoOwner | NoCapability | Conflict | IncompleteCapability | DuplicateCapability | NotRegistered

  type Systems = map<string, Manifest>

  // ----- operations on the registered systems -----

  predicate Incomplete(c: Capability) { c.version == "" || c.contract == "" }

  predicate RepeatedLater(cs: seq<Capability>, i: nat)
    requires i < |cs|
  {
    exists j :: i < j < |cs| && cs[j].id == cs[i].id
  }

  /** The first capability, from `i` on, that is incomplete or repeated later. */
  function FirstFault(cs: seq<Capability>, i: nat): (r: Option<Error>)
    requires i <= |cs|
    ensures r.None? <==> forall k :: i <= k < |cs| ==> !Incomplete(cs[k]) && !RepeatedLater(cs, k)
    decreases |cs| - i
  {
    if i == |cs| then None
    else if Incomplete(cs[i]) then Some(IncompleteCapability)
    else if RepeatedLater(cs, i) then Some(DuplicateCapability)
    else FirstFault(cs, i + 1)
  }

  function Register(systems: Systems, m: Manifest): (Systems, Option<Error>) {
    if m.id == "" then (systems, Some(NoId))
    else if m.version == "" then (systems, Some(NoVersion))
    else if m.owner == "" then (systems, Some(NoOwner))
    else if m.capabilities == [] then (systems, Some(NoCapability))
    else if m.id in systems then
      var known := systems[m.id];
      if known.version == m.version && known.owner == m.owner && known.capabilities == m.capabilities &&
         known.status == m.status && known.maturity == m.maturity then (systems, None)
      else (systems, Some(Conflict))
    else
      var fault := FirstFault(m.capabilities, 0);
      if fault.Some? then (systems, fault) else (systems[m.id := m], None)
  }

  function SetStatus(systems: Systems, id: string, status: Status): (Systems, Option<Error>) {
    if id in systems then (systems[id := systems[id].(status := status)], None) else (systems, Some(NotRegistered))
  }

  function SetMaturity(systems: Systems, id: string, maturity: Maturity): (Systems, Option<Error>) {
    if id in systems then (systems[id := systems[id].(maturity := maturity)], None) else (systems, Some(NotRegistered))
  }

  datatype Call = RegisterSystem(manifest: Manifest) | UpdateStatus(id: string, status: Status) | UpdateMaturity(id: string, maturity: Maturity)

  function Apply(systems: Systems, call: Call): (Systems, Option<Error>) {
    match call
    case RegisterSystem(m) => Register(systems, m)
    case UpdateStatus(id, status) => SetStatus(systems, id, status)
    case UpdateMaturity(id, maturity) => SetMaturity(systems, id, maturity)
  }

  // ----- what every reachable registry holds -----

  predicate DistinctIds(cs: seq<Capability>) { forall i, j :: 0 <= i < j < |cs| ==> cs[i].id != cs[j].id }

  predicate Sound(m: Manifest) {
    && m.id != "" && m.version != "" && m.owner != "" && m.capabilities != []
    && DistinctIds(m.capabilities)
    && forall i :: 0 <= i < |m.capabilities| ==> !Incomplete(m.capabilities[i])
  }

  predicate SoundAt(systems: Systems, key: string)
    requires key in systems
  {
    systems[key].id == key && Sound(systems[key])
  }

  predicate AllSound(systems: Systems) { forall key :: key in systems ==> SoundAt(systems, key) }

  /** The nested index loops report a fault exactly for repeated or incomplete capabilities. */
  lemma FaultMeaning(cs: seq<Capability>)
    ensures FirstFault(cs, 0).None? <==> DistinctIds(cs) && forall i :: 0 <= i < |cs| ==> !Incomplete(cs[i])
  {
    if DistinctIds(cs) {
      forall k | 0 <= k < |cs| ensures !RepeatedLater(cs, k) {}
    }
    if FirstFault(cs, 0).None? {
      forall i, j | 0 <= i < j < |cs| ensures cs[i].id != cs[j].id {
        assert !RepeatedLater(cs, i);
      }
    }
  }

  predicate Faulty(cs: seq<Capability>, k: nat)
    requires k < |cs|
  {
    Incomplete(cs[k]) || RepeatedLater(cs, k)
  }

  /** Capability `k` is the first one that is incomplete or repeated later. */
  predicate FirstFaultAt(cs: seq<Capability>, k: nat) {
    k < |cs| && Faulty(cs, k) && forall j :: 0 <= j < k ==> !Faulty(cs, j)
  }

  /** The loops stop at the first faulty capability, and being incomplete is reported before being repeated. */
  lemma {:induction false} FaultIsFirst(cs: seq<Capability>, i: nat, k: nat)
    requires i <= k && FirstFaultAt(cs, k)
    ensures FirstFault(cs, i) == Some(if Incomplete(cs[k]) then IncompleteCapability else DuplicateCapability)
    decreases k - i
  {
    if i < k {
      assert !Faulty(cs, i);
      FaultIsFirst(cs, i + 1, k);
    }
  }

  lemma {:induction false} SomeFirstFault(cs: seq<Capability>, i: nat) returns (k: nat)
    requires i <= |cs| && FirstFault(cs, i).Some? && forall j :: 0 <= j < i ==> !Faulty(cs, j)
    ensures FirstFaultAt(cs, k)
    decreases |cs| - i
  {
    if Faulty(cs, i) { k := i; } else { k := SomeFirstFault(cs, i + 1); }
  }

  /** A registration under a new identifier: exactly when each error is given. */
  lemma FreshRegistration(systems: Systems, m: Manifest)
    requires m.id !in systems
    ensures var (after, error) := Register(systems, m);
            && (error.None? <==> Sound(m))
            && (error.None? ==> after == systems[m.id := m])
            && (error.Some? ==> after == systems)
            && (error == Some(NoId) <==> m.id == "")
            && (error == Some(NoVersion) <==> m.id != "" && m.version == "")
            && (error == Some(NoOwner) <==> m.id != "" && m.version != "" && m.owner == "")
            && (error == Some(NoCapability) <==> m.id != "" && m.version != "" && m.owner != "" && m.capabilities == [])
            && (error == Some(IncompleteCapability) <==>
                  && m.id != "" && m.version != "" && m.owner != ""
                  && exists k: nat :: FirstFaultAt(m.capabilities, k) && Incomplete(m.capabilities[k]))
            && (error == Some(DuplicateCapability) <==>
                  && m.id != "" && m.version != "" && m.owner != ""
                  && exists k: nat :: FirstFaultAt(m.capabilities, k) && !Incomplete(m.capabilities[k]))
  {
    hide RepeatedLater, Incomplete, FirstFaultAt;
    var cs := m.capabilities;
    FaultMeaning(cs);
    if FirstFault(cs, 0).Some? {
      var k := SomeFirstFault(cs, 0);
    }
    forall k: nat | FirstFaultAt(cs, k)
      ensures k < |cs| && FirstFault(cs, 0) == Some(if Incomplete(cs[k]) then IncompleteCapability else DuplicateCapability)
    {
      FirstInRange(cs, k);
      FaultIsFirst(cs, 0, k);
    }
  }

  lemma FirstInRange(cs: seq<Capability>, k: nat)
    requires FirstFaultAt(cs, k)
    ensures k < |cs|
  {
  }

  datatype Run = Run(calls: seq<Call>, states: seq<Systems>)

  predicate StepAt(run: Run, i: nat)
    requires i < |run.calls| && i + 1 < |run.states|
  {
    run.states[i + 1] == Apply(run.states[i], run.calls[i]).0
  }

  predicate IsRun(run: Run) {
    && |run.states| == |run.calls| + 1
    && run.states[0] == map[]
    && forall i :: 0 <= i < |run.calls| ==> StepAt(run, i)
  }

  lemma CallKeepsSound(systems: Systems, call: Call)
    requires AllSound(systems)
    ensures AllSound(Apply(systems, call).0)
  {
    if call.RegisterSystem? {
      FaultMeaning(call.manifest.capabilities);
    }
    var next := Apply(systems, call).0;
    forall key | key in next ensures SoundAt(next, key) {
      assert key in systems ==> SoundAt(systems, key);
    }
  }

  /** Every manifest in every reachable registry is complete with distinct capabilities. */
  lemma {:induction false} RegistryIsSound(run: Run, n: nat)
    requires IsRun(run) && n <= |run.calls|
    ensures AllSound(run.states[n])
  {
    if n > 0 {
      hide AllSound, Apply;
      RegistryIsSound(run, n - 1);
      assert StepAt(run, n - 1);
      CallKeepsSound(run.states[n - 1], run.calls[n - 1]);
    }
  }

  /** Registering a stored manifest again is accepted and changes nothing; any other
      manifest under its identifier is refused and changes nothing. */
  lemma ReRegistering(run: Run, n: nat, key: string, m: Manifest)
    requires IsRun(run) && n <= |run.calls| && key in run.states[n] && m.id == key
    ensures Register(run.states[n], m).0 == run.states[n]
    ensures Register(run.states[n], m).1.None? <==> m == run.states[n][key]
  {
    hide StepAt, FirstFault;
    RegistryIsSound(run, n);
    assert SoundAt(run.states[n], key);
  }

  predicate SameIdentity(a: Manifest, b: Manifest) {
    a.id == b.id && a.version == b.version && a.owner == b.owner && a.capabilities == b.capabilities
  }

  predicate Keeps(a: Systems, b: Systems) {
    forall key :: key in a ==> key in b && SameIdentity(a[key], b[key])
  }

  /** A registered system is never removed, and its version, owner and capabilities never change. */
  lemma {:induction false} RegistrationIsPermanent(run: Run, i: nat, j: nat)
    requires IsRun(run) && i <= j <= |run.calls|
    ensures Keeps(run.states[i], run.states[j])
  {
    if i < j {
      RegistrationIsPermanent(run, i, j - 1);
      assert StepAt(run, j - 1);
      CallKeepsIdentity(run.states[j - 1], run.calls[j - 1]);
    }
  }

  lemma CallKeepsIdentity(systems: Systems, call: Call)
    ensures Keeps(systems, Apply(systems, call).0)
  {
  }

  // ----- one system at a time -----

  /** What one call makes of one system, by that system alone. */
  function Follow(stored: Option<Manifest>, key: string, call: Call): Option<Manifest> {
    match call
    case RegisterSystem(m) => if m.id == key && stored.None? && Sound(m) then Some(m) else stored
    case UpdateStatus(id, status) =>
      if id == key && stored.Some? then Some(stored.value.(status := status)) else stored
    case UpdateMaturity(id, maturity) =>
      if id == key && stored.Some? then Some(stored.value.(maturity := maturity)) else stored
  }

  /** The first sound manifest registered under a key, with the last status and maturity set since. */
  function Stored(calls: seq<Call>, n: nat, key: string): Option<Manifest>
    requires n <= |calls|
  {
    if n == 0 then None else Follow(Stored(calls, n - 1, key), key, calls[n - 1])
  }

  function Lookup(systems: Systems, key: string): Option<Manifest> {
    if key in systems then Some(systems[key]) else None
  }

  lemma CallFollows(systems: Systems, call: Call, key: string)
    ensures Lookup(Apply(systems, call).0, key) == Follow(Lookup(systems, key), key, call)
  {
    hide FirstFault;
    if call.RegisterSystem? { FaultMeaning(call.manifest.capabilities); }
  }

  /** Systems do not influence each other: what any registry holds under a key is decided by
      the calls on that key alone, the first sound registration and the last updates. */
  lemma {:induction false} RegistryFollowsCalls(run: Run, n: nat, key: string)
    requires IsRun(run) && n <= |run.calls|
    ensures Lookup(run.states[n], key) == Stored(run.calls, n, key)
  {
    hide Apply, Follow;
    if n > 0 {
      RegistryFollowsCalls(run, n - 1, key);
      assert StepAt(run, n - 1);
      CallFollows(run.states[n - 1], run.calls[n - 1], key);
    }
  }

  lemma UpdateKeeps(systems: Systems, id: string, status: Status, maturity: Maturity)
    requires AllSound(systems)
    ensures AllSound(SetStatus(systems, id, status).0) && Keeps(systems, SetStatus(systems, id, status).0)
    ensures AllSound(SetMaturity(systems, id, maturity).0) && Keeps(systems, SetMaturity(systems, id, maturity).0)
  {
    hide AllSound, Keeps, Apply;
    UpdateIsCall(systems, id, status, maturity);
    CallKeepsSound(systems, UpdateStatus(id, status));
    CallKeepsSound(systems, UpdateMaturity(id, maturity));
    CallKeepsIdentity(systems, UpdateStatus(id, status));
    CallKeepsIdentity(systems, UpdateMaturity(id, maturity));
  }

  lemma UpdateIsCall(systems: Systems, id: string, status: Status, maturity: Maturity)
    ensures Apply(systems, UpdateStatus(id, status)) == SetStatus(systems, id, status)
    ensures Apply(systems, UpdateMaturity(id, maturity)) == SetMaturity(systems, id, maturity)
  {
  }

  // ----- the registry object -----

  class Registry {
    var systems: Systems

    constructor ()
      ensures systems == map[]
    {
      systems := map[];
    }

    method RegisterSystem(manifest: Manifest) returns (error: Option<Error>)
      modifies this
      ensures (systems, error) == Register(old(systems), manifest)
    {
      if manifest.id == "" { return Some(NoId); }
      if manifest.version == "" { return Some(NoVersion); }
      if manifest.owner == "" { return Some(NoOwner); }
      if manifest.capabilities == [] { return Some(NoCapability); }
      if manifest.id in systems {
        var known := systems[manifest.id];
        return if && known.version == manifest.version && known.owner == manifest.owner
                  && known.capabilities == manifest.capabilities
                  && known.status == manifest.status && known.maturity == manifest.maturity
               then None else Some(Conflict);
      }
      var cs := manifest.capabilities;
      for i := 0 to |cs|
        invariant FirstFault(cs, 0) == FirstFault(cs, i)
        invariant systems == old(systems)
      {
        if cs[i].version == "" || cs[i].contract == "" {
          return Some(IncompleteCapability);
        }
        for j := i + 1 to |cs|
          invariant forall k :: i < k < j ==> cs[k].id != cs[i].id
          invariant systems == old(systems)
        {
          if cs[i].id == cs[j].id {
            assert RepeatedLater(cs, i);
            return Some(DuplicateCapability);
          }
        }
        assert !RepeatedLater(cs, i);
      }
      systems := systems[manifest.id := manifest];
      return None;
    }

    method UpdateOperationalStatus(id: string, status: Status) returns (error: Option<Error>)
      modifies this
      ensures (systems, error) == SetStatus(old(systems), id, status)
      ensures error.None? <==> id in old(systems)
      ensures AllSound(old(systems)) ==> AllSound(systems) && Keeps(old(systems), systems)
      ensures forall key :: key != id ==> Lookup(systems, key) == Lookup(old(systems), key)
    {
      hide AllSound, Keeps;
      if AllSound(systems) { UpdateKeeps(systems, id, status, Beta); }
      if id !in systems { return Some(NotRegistered); }
      systems := systems[id := systems[id].(status := status)];
      return None;
    }

    method UpdateMaturity(id: string, maturity: Maturity) returns (error: Option<Error>)
      modifies this
      ensures (systems, error) == SetMaturity(old(systems), id, maturity)
      ensures error.None? <==> id in old(systems)
      ensures AllSound(old(systems)) ==> AllSound(systems) && Keeps(old(systems), systems)
      ensures forall key :: key != id ==> Lookup(systems, key) == Lookup(old(systems), key)
    {
      hide AllSound, Keeps;
      if AllSound(systems) { UpdateKeeps(systems, id, Active, maturity); }
      if id !in systems { return Some(NotRegistered); }
      systems := systems[id := systems[id].(maturity := maturity)];
      return None;
    }

    method Find(id: string) returns (found: Option<Manifest>)
      ensures found == if id in systems then Some(systems[id]) else None
    {
      return if id in systems then Some(systems[id]) else None;
    }
  }
}
