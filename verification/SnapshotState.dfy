/** The snapshot fields of the application state and the entry points that serve them. */
module SnapshotState {
  import opened Text
  import opened SnapshotCache

  /** Fills in the health of every system of the view. */
  method ObserveEcosystemHealth(view: View, probe: Probe) returns (observed: View)
    ensures observed == Observe(view, probe)
  {
    observed := view;
    for i := 0 to |view.systems|
      invariant observed.header == view.header && |observed.systems| == |view.systems|
      invariant forall j :: 0 <= j < i ==> observed.systems[j] == Observe(view, probe).systems[j]
      invariant forall j :: i <= j < |view.systems| ==> observed.systems[j] == view.systems[j]
    {
      var system := observed.systems[i];
      var health;
      if system.healthPath == "" {
        health := Health("not_observed", 0, "no_probe_declared");
      } else if system.transport != "tcp" {
        health := Health("not_observed", 0, "unsupported_probe_transport");
      } else if system.listen != "127.0.0.1" && system.listen != "localhost" && system.listen != "" {
        health := Health("not_observed", 0, "unsupported_probe_host");
      } else {
        health := probe(system.port, system.healthPath);
      }
      observed := observed.(systems := observed.systems[i := system.(health := health)]);
    }
    assert observed.systems == Observe(view, probe).systems;
  }

  class EcosystemState {
    const parse: Read -> View
    var declarativeSnapshot: Option<View>
    var operationalSnapshot: Option<View>
    var snapshotSource: string
    var snapshotWriteTime: int
    var snapshotHasWriteTime: bool
    var observedAt: int

    ghost function Value(): Ecosystem
      reads this
    {
      Ecosystem(
        if declarativeSnapshot.None? then Empty
        else Taken(declarativeSnapshot.value, snapshotSource, if snapshotHasWriteTime then Some(snapshotWriteTime) else None),
        operationalSnapshot, observedAt)
    }

    constructor (parse: Read -> View)
      ensures this.parse == parse && Value().declarative.Empty? && Value().operational.None?
    {
      this.parse := parse;
      declarativeSnapshot, operationalSnapshot := None, None;
      snapshotSource, snapshotWriteTime, snapshotHasWriteTime, observedAt := "", 0, false, 0;
    }

    method RefreshLocked(read: Read) returns (changed: bool)
      modifies this
      ensures changed == Changed(old(Value()).declarative, read)
      ensures Value() == RefreshEcosystem(old(Value()), read, parse)
      ensures declarativeSnapshot.Some?
    {
      var hasWriteTime := read.source.File?;
      changed := declarativeSnapshot.None?
              || snapshotSource != read.path
              || snapshotHasWriteTime != hasWriteTime
              || (hasWriteTime && snapshotWriteTime != read.source.time);
      if !changed {
        return;
      }
      declarativeSnapshot := Some(parse(read));
      operationalSnapshot := None;
      snapshotSource := read.path;
      snapshotHasWriteTime := hasWriteTime;
      if hasWriteTime {
        snapshotWriteTime := read.source.time;
      }
    }

    method DeclarativeEcosystem(read: Read) returns (view: View)
      modifies this
      ensures (Value(), view) == Serve(old(Value()), Declarative(read), parse)
    {
      var _ := RefreshLocked(read);
      return declarativeSnapshot.value;
    }

    method ObservedEcosystem(read: Read, now: int, probe: Probe) returns (view: View)
      modifies this
      ensures (Value(), view) == Serve(old(Value()), Observed(read, now, probe), parse)
    {
      var sourceChanged := RefreshLocked(read);
      var healthExpired := operationalSnapshot.None? || now - observedAt >= FRESHNESS;
      if sourceChanged || healthExpired {
        var observed := ObserveEcosystemHealth(declarativeSnapshot.value, probe);
        operationalSnapshot := Some(observed);
        observedAt := now;
      }
      return operationalSnapshot.value;
    }
  }

  class SemanticState<V> {
    const parse: Read -> V
    var snapshot: Option<V>
    var snapshotSource: string
    var snapshotWriteTime: int
    var snapshotHasWriteTime: bool

    ghost function Value(): Snapshot<V>
      reads this
    {
      if snapshot.None? then Empty
      else Taken(snapshot.value, snapshotSource, if snapshotHasWriteTime then Some(snapshotWriteTime) else None)
    }

    constructor (parse: Read -> V)
      ensures this.parse == parse && Value().Empty?
    {
      this.parse := parse;
      snapshot := None;
      snapshotSource, snapshotWriteTime, snapshotHasWriteTime := "", 0, false;
    }

    method SemanticEcosystem(read: Read) returns (view: V)
      modifies this
      ensures Value() == Refresh(old(Value()), read, parse)
      ensures Value().Taken? && view == Value().view
    {
      var hasWriteTime := read.source.File?;
      var sourceChanged := snapshot.None?
                        || snapshotSource != read.path
                        || snapshotHasWriteTime != hasWriteTime
                        || (hasWriteTime && snapshotWriteTime != read.source.time);
      if sourceChanged {
        snapshot := Some(parse(read));
        snapshotSource := read.path;
        snapshotHasWriteTime := hasWriteTime;
        if hasWriteTime {
          snapshotWriteTime := read.source.time;
        }
      }
      return snapshot.value;
    }
  }
}
