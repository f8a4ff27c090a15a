/** Exactly which limits let the rate limiter evict, and which let a key through above its
    limit: the runs that show it, all at one moment, and the two equivalences. */
module RateLimiterEviction {
  import opened Duration
  import opened AttemptWindow
  import opened RateLimiterRuns
  import opened RateLimiterCapacity
  import opened RateLimiterWindow

  // ---- Runs at one moment ----

  /** Buckets of a run whose calls are all at time zero. */
  predicate ZeroBucket(b: Bucket) {
    b.lastAccess == 0 && b.attempts != [] && forall i :: 0 <= i < |b.attempts| ==> b.attempts[i] == 0
  }

  predicate AllZero(b: Buckets) { forall u :: u in b ==> ZeroBucket(b[u]) }

  lemma PruneZero(b: Buckets, cutoff: int)
    requires AllZero(b) && cutoff < 0
    ensures Prune(b, cutoff) == b
  {
    forall u | u in b ensures DropExpired(b[u].attempts, cutoff) == b[u].attempts {
      assert ZeroBucket(b[u]);
    }
  }

  lemma {:induction false} RecordZero(b: Buckets, keys: seq<string>)
    requires AllZero(b)
    ensures AllZero(Record(b, keys, 0))
    decreases |keys|
  {
    if keys != [] {
      var next := Bucket(Attempts(b, keys[0]) + [0], 0);
      assert keys[0] in b ==> ZeroBucket(b[keys[0]]);
      assert ZeroBucket(next);
      RecordZero(b[keys[0] := next], keys[1..]);
    }
  }

  /** When all last accesses are equal any unprotected buckets may go, in any order. */
  lemma TiesAreLru(b: Buckets, keys: seq<string>, victims: seq<string>)
    requires AllZero(b) && GLOBAL_KEY in keys && Distinct(victims)
    requires forall i :: 0 <= i < |victims| ==> victims[i] in Unprotected(b, keys)
    ensures LruVictims(b, keys, victims)
  {
    forall i | 0 <= i < |victims| ensures VictimAt(b, keys, victims, i) {
      var left := Without(b, victims[..i]);
      assert victims[i] !in victims[..i];
      assert forall u :: u in left ==> ZeroBucket(b[u]) && left[u] == b[u];
    }
  }

  /** `n` members of a set, a wanted one first. */
  lemma {:induction false} Pick(s: set<string>, n: nat, k: string) returns (v: seq<string>)
    requires n <= |s|
    ensures |v| == n && Distinct(v) && forall i :: 0 <= i < n ==> v[i] in s
    ensures n > 0 && k in s ==> k in v
    decreases n
  {
    if n == 0 {
      v := [];
    } else {
      var x :| x in s && (k in s ==> x == k);
      var rest := Pick(s - {x}, n - 1, k);
      v := [x] + rest;
    }
  }

  lemma EnoughToEvict(l: Limits, b: Buckets, keys: seq<string>)
    requires ValidLimits(l) && FourKeys(l, keys)
    ensures Excess(l, b, keys) <= |Unprotected(b, keys)|
  {
    hide FourKeys, Missing, Unprotected;
    FourDistinctFour(l, keys);
    SizeByProtection(b, keys);
  }

  /** An admission at time zero that no limit refuses; if it must evict, a wanted key goes. */
  lemma AdmitNow(l: Limits, r: Run, keys: seq<string>, k: string) returns (next: Run, victims: seq<string>)
    requires ValidLimits(l) && IsRun(l, r) && AllZero(Final(r).buckets)
    requires FourKeys(l, keys) && NoneFull(l, Final(r).buckets, keys, 4)
    ensures IsRun(l, next) && next.calls == r.calls + [Admit(keys, 0, victims)]
    ensures Final(next).buckets == Record(Without(Final(r).buckets, victims), keys, 0) && AllZero(Final(next).buckets)
    ensures |victims| == Excess(l, Final(r).buckets, keys) && LruVictims(Final(r).buckets, keys, victims)
    ensures victims != [] && k in Final(r).buckets && k !in keys ==> k in victims
  {
    hide FourKeys, NoneFull, Excess, Record, StepAt, LruVictims, ValidLimits, AllZero, Without, Legal, Apply;
    var b := Final(r).buckets;
    victims := PickVictims(l, b, keys, k);
    LegalNow(l, Final(r), keys, victims);
    var call := Admit(keys, 0, victims);
    var after := Apply(l, Final(r), call);
    RunGrows(l, r, call, after);
    next := Extend(r, call, after);
    WithoutZero(b, victims);
    RecordZero(Without(b, victims), keys);
  }

  lemma PickVictims(l: Limits, b: Buckets, keys: seq<string>, k: string) returns (victims: seq<string>)
    requires ValidLimits(l) && AllZero(b) && FourKeys(l, keys)
    ensures |victims| == Excess(l, b, keys) && LruVictims(b, keys, victims)
    ensures victims != [] && k in b && k !in keys ==> k in victims
  {
    hide FourKeys, Excess, LruVictims, ValidLimits, AllZero;
    FourDistinctFour(l, keys);
    EnoughToEvict(l, b, keys);
    victims := Pick(Unprotected(b, keys), Excess(l, b, keys), k);
    TiesAreLru(b, keys, victims);
  }

  lemma LegalNow(l: Limits, s: State, keys: seq<string>, victims: seq<string>)
    requires ValidLimits(l) && AllZero(s.buckets) && FourKeys(l, keys) && NoneFull(l, s.buckets, keys, 4)
    requires |victims| == Excess(l, s.buckets, keys) && LruVictims(s.buckets, keys, victims)
    ensures var call := Admit(keys, 0, victims);
            Legal(l, s, call) && Apply(l, s, call).buckets == Record(Without(s.buckets, victims), keys, 0)
  {
    hide FourKeys, NoneFull, Excess, LruVictims, ValidLimits, AllZero, Record, Without, Prune, Span;
    SpanIsPositive(l);
    PruneZero(s.buckets, 0 - Span(l));
  }

  lemma WithoutZero(b: Buckets, victims: seq<string>)
    requires AllZero(b)
    ensures AllZero(Without(b, victims))
  {
    hide ZeroBucket;
  }

  lemma SpanIsPositive(l: Limits)
    requires ValidLimits(l)
    ensures Span(l) > 0
  {
  }

  // ---- Keys of attempts ----

  function Repeat(c: char, n: nat): (s: string)
    ensures |s| == n && forall i :: 0 <= i < n ==> s[i] == c
  {
    seq(n, _ => c)
  }

  /** Attempts that share nothing but the global key. */
  function Fresh(j: nat): (keys: seq<string>)
    ensures |keys| == 4
  {
    Keys(Repeat('z', j + 1), Repeat('z', j + 1))
  }

  /** `n + 1` attempts that share one further key: an address, an identity or a pair. */
  function Shared(kind: nat, n: nat, j: nat): (keys: seq<string>)
    requires 1 <= kind <= 3 && j <= n
    ensures |keys| == 4
  {
    if kind == 1 then Keys("y", Repeat('x', j + 1))
    else if kind == 2 then Keys(Repeat('x', j + 1), "y")
    else Keys(Repeat(':', j + 1), Repeat(':', n - j + 1))
  }

  /** Two attempts have a further key in common only where their parts agree. */
  lemma KeysAgree(a: string, i: string, a': string, i': string, m: nat, n: nat)
    requires 1 <= m < 4 && 1 <= n < 4 && Keys(a, i)[m] == Keys(a', i')[n]
    ensures m == n
    ensures m == 1 ==> a == a'
    ensures m == 2 ==> i == i'
    ensures m == 3 ==> a + ":" + i == a' + ":" + i'
  {
    var k, k' := Keys(a, i), Keys(a', i');
    assert k[m][0] == k'[n][0];
    assert k[1][0] == 'a' && k[2][0] == 'i' && k[3][0] == 'p' && k'[1][0] == 'a' && k'[2][0] == 'i' && k'[3][0] == 'p';
    assert k[1][8..] == a && k'[1][8..] == a' && k[2][9..] == i && k'[2][9..] == i';
    assert k[3][5..] == a + ":" + i && k'[3][5..] == a' + ":" + i';
  }

  lemma FreshAreApart(j: nat, j': nat, m: nat, n: nat)
    requires j != j' && 1 <= m < 4 && 1 <= n < 4
    ensures Fresh(j)[m] != Fresh(j')[n]
  {
    hide Keys;
    var z, z' := Repeat('z', j + 1), Repeat('z', j' + 1);
    assert |z + ":" + z| == 2 * j + 3 && |z' + ":" + z'| == 2 * j' + 3;
    if Fresh(j)[m] == Fresh(j')[n] {
      KeysAgree(z, z, z', z', m, n);
      assert false;
    }
  }

  lemma SharedAndFreshAreApart(kind: nat, len: nat, j: nat, j': nat, m: nat, n: nat)
    requires 1 <= kind <= 3 && j <= len && 1 <= m < 4 && 1 <= n < 4
    ensures Shared(kind, len, j)[m] != Fresh(j')[n]
  {
    hide Keys;
    var a := if kind == 1 then "y" else if kind == 2 then Repeat('x', j + 1) else Repeat(':', j + 1);
    var i := if kind == 1 then Repeat('x', j + 1) else if kind == 2 then "y" else Repeat(':', len - j + 1);
    var z := Repeat('z', j' + 1);
    assert Shared(kind, len, j) == Keys(a, i);
    assert a[0] != 'z' && i[0] != 'z' && z[0] == 'z';
    assert (a + ":" + i)[0] == a[0] && (z + ":" + z)[0] == 'z';
    if Shared(kind, len, j)[m] == Fresh(j')[n] {
      KeysAgree(a, i, z, z, m, n);
      assert false;
    }
  }

  lemma SharedShareOne(kind: nat, len: nat, j: nat, j': nat, m: nat, n: nat)
    requires 1 <= kind <= 3 && j <= len && j' <= len && j != j' && 1 <= m < 4 && 1 <= n < 4
    ensures Shared(kind, len, j)[m] == Shared(kind, len, j')[n] <==> m == n == kind
  {
    var x, x' := Repeat('x', j + 1), Repeat('x', j' + 1);
    var c, c' := Repeat(':', j + 1), Repeat(':', j' + 1);
    var d, d' := Repeat(':', len - j + 1), Repeat(':', len - j' + 1);
    assert c + ":" + d == c' + ":" + d';
    assert "pair:" + c + ":" + d == "pair:" + (c + ":" + d) && "pair:" + c' + ":" + d' == "pair:" + (c' + ":" + d');
    if Shared(kind, len, j)[m] == Shared(kind, len, j')[n] {
      if kind == 1 {
        KeysAgree("y", x, "y", x', m, n);
        assert |"y" + ":" + x| != |"y" + ":" + x'|;
      } else if kind == 2 {
        KeysAgree(x, "y", x', "y", m, n);
        assert |x + ":" + "y"| != |x' + ":" + "y"|;
      } else {
        KeysAgree(c, d, c', d', m, n);
      }
    }
  }

  // ---- What one admission does to sizes and queues ----

  lemma SizeAfter(l: Limits, b: Buckets, keys: seq<string>, victims: seq<string>)
    requires FourKeys(l, keys) && LruVictims(b, keys, victims)
    ensures |Record(Without(b, victims), keys, 0)| == |b| - |victims| + Missing(b, keys)
  {
    hide FourKeys, Missing, Record, LruVictims, Without;
    FourDistinctFour(l, keys);
    VictimsAreUnprotected(b, keys, victims);
    WithoutSize(b, victims);
    KeptKeys(b, keys, victims);
    MissingAgrees(b, Without(b, victims), keys);
    RecordSize(Without(b, victims), keys, 0);
  }

  lemma KeptKeys(b: Buckets, keys: seq<string>, victims: seq<string>)
    requires forall v :: v in victims ==> !Exempt(keys, v)
    ensures forall k :: k in keys ==> (k in b <==> k in Without(b, victims))
  {
  }

  lemma QueueAfter(l: Limits, b: Buckets, keys: seq<string>, victims: seq<string>, u: string)
    requires FourKeys(l, keys) && LruVictims(b, keys, victims)
    ensures Attempts(Record(Without(b, victims), keys, 0), u)
         == if u in victims then [] else AppendIf(Attempts(b, u), u in keys, 0)
    ensures GLOBAL_KEY !in victims
  {
    hide FourKeys, Record, LruVictims;
    FourDistinctFour(l, keys);
    VictimsAreUnprotected(b, keys, victims);
    RecordAttempts(Without(b, victims), keys, 0, u);
  }

  /** A key no call named has no bucket. */
  lemma UnnamedIsAbsent(l: Limits, r: Run, u: string)
    requires IsRun(l, r) && forall j :: 0 <= j < |r.calls| && r.calls[j].Admit? ==> u !in r.calls[j].keys
    ensures u !in Final(r).buckets
  {
    hide StepAt;
    if u in Final(r).buckets {
      var j := LastAccessIs(l, r, |r.calls|, u);
      assert false;
    }
  }

  lemma AbsentThree(b: Buckets, keys: seq<string>)
    requires |keys| == 4 && keys[1] !in b && keys[2] !in b && keys[3] !in b
    ensures Missing(b, keys) == if keys[0] in b then 3 else 4
  {
    assert keys[1..][0] == keys[1] && keys[1..][1..] == keys[2..] && keys[2..][0] == keys[2] && keys[2..][1..] == keys[3..];
    assert keys[3..][0] == keys[3] && keys[3..][1..] == [];
    assert Missing(b, keys[3..]) == 1;
    assert Missing(b, keys[2..]) == 2;
    assert Missing(b, keys[1..]) == 3;
  }

  // ---- Limits that evict ----

  predicate IsNow(call: Call, keys: seq<string>) { call.Admit? && call.now == 0 && call.keys == keys }

  predicate AllFresh(calls: seq<Call>, from: nat) {
    from <= |calls| && forall j :: from <= j < |calls| ==> IsNow(calls[j], Fresh(j - from))
  }

  predicate AllNow(calls: seq<Call>) { forall j :: 0 <= j < |calls| ==> calls[j].Admit? && calls[j].now == 0 }

  lemma FreshIsFour(l: Limits, j: nat)
    ensures FourKeys(l, Fresh(j))
  {
    KeysAreFour(l, Repeat('z', j + 1), Repeat('z', j + 1));
  }

  lemma FreshIsAbsent(l: Limits, r: Run, m: nat)
    requires IsRun(l, r) && AllFresh(r.calls, 0) && 1 <= m < 4
    ensures Fresh(|r.calls|)[m] !in Final(r).buckets
  {
    hide StepAt, Fresh;
    var u := Fresh(|r.calls|)[m];
    forall j | 0 <= j < |r.calls| ensures u !in r.calls[j].keys {
      assert IsNow(r.calls[j], Fresh(j));
      FreshIsFour(l, j);
      FreshIsFour(l, |r.calls|);
      NotAmong(l, Fresh(|r.calls|), m, Fresh(j)) by {
        forall n | 1 <= n < 4 ensures u != Fresh(j)[n] { FreshAreApart(|r.calls|, j, m, n); }
      }
    }
    UnnamedIsAbsent(l, r, u);
  }

  /** A further key of one attempt that differs from those of another is not among its four. */
  lemma NotAmong(l: Limits, keys: seq<string>, m: nat, other: seq<string>)
    requires FourKeys(l, keys) && FourKeys(l, other) && 1 <= m < 4
    requires forall n :: 1 <= n < 4 ==> keys[m] != other[n]
    ensures keys[m] !in other
  {
    hide LimitOf;
    assert keys[m] != keys[0] == other[0];
  }

  lemma AbsentAreNotFull(l: Limits, b: Buckets, keys: seq<string>)
    requires FourKeys(l, keys) && keys[1] !in b && keys[2] !in b && keys[3] !in b
    requires |Attempts(b, GLOBAL_KEY)| < l.global
    ensures NoneFull(l, b, keys, 4)
  {
    hide LimitOf;
  }

  /** `j` attempts that share only the global key, while the table has room for them. */
  lemma {:induction false} FillUp(l: Limits, j: nat) returns (r: Run)
    requires ValidLimits(l) && j <= l.global && (j > 0 ==> 3 * j + 1 <= l.maximumBuckets)
    ensures IsRun(l, r) && |r.calls| == j && AllFresh(r.calls, 0) && AllZero(Final(r).buckets)
    ensures |Final(r).buckets| == (if j == 0 then 0 else 3 * j + 1)
    ensures |Attempts(Final(r).buckets, GLOBAL_KEY)| == j
  {
    hide Fresh, Prune, Record, Without, StepAt, FourKeys, NoneFull, LruVictims, Missing;
    if j == 0 {
      r := Run([], [State(map[], 0, 0)]);
    } else {
      var before := FillUp(l, j - 1);
      var b, keys := Final(before).buckets, Fresh(j - 1);
      FreshStep(l, before);
      var victims;
      r, victims := AdmitNow(l, before, keys, "");
      SizeAfter(l, b, keys, victims);
      QueueAfter(l, b, keys, victims, GLOBAL_KEY);
      FourDistinctFour(l, keys);
    }
  }

  /** The next such attempt is not refused and misses three buckets, or four at first. */
  lemma FreshStep(l: Limits, r: Run)
    requires ValidLimits(l) && IsRun(l, r) && AllFresh(r.calls, 0)
    requires |Attempts(Final(r).buckets, GLOBAL_KEY)| == |r.calls| < l.global
    ensures FourKeys(l, Fresh(|r.calls|)) && NoneFull(l, Final(r).buckets, Fresh(|r.calls|), 4)
    ensures Missing(Final(r).buckets, Fresh(|r.calls|)) == if r.calls == [] then 4 else 3
  {
    hide Fresh, StepAt, NoneFull, Missing, LimitOf, AllFresh;
    var keys := Fresh(|r.calls|);
    FreshIsFour(l, |r.calls|);
    FreshIsAbsent(l, r, 1);
    FreshIsAbsent(l, r, 2);
    FreshIsAbsent(l, r, 3);
    AbsentAreNotFull(l, Final(r).buckets, keys);
    AbsentThree(Final(r).buckets, keys);
    if r.calls == [] { UnnamedIsAbsent(l, r, GLOBAL_KEY); }
  }

  /** Where the room is short some run evicts, all its calls at one moment. */
  lemma ShortEvicts(l: Limits) returns (r: Run)
    requires ValidLimits(l) && !Roomy(l)
    ensures IsRun(l, r) && ClockForward(r.calls) && Evicts(r.calls)
  {
    hide Fresh, Prune, Record, Without, StepAt, FourKeys, NoneFull, LruVictims, Missing, AllZero;
    var j := (l.maximumBuckets - 1) / 3;
    var before := FillUp(l, j);
    FreshStep(l, before);
    var victims;
    r, victims := AdmitNow(l, before, Fresh(j), "");
    assert r.calls[j].victims != [];
  }

  ghost predicate NeverEvicts(l: Limits) {
    forall r :: IsRun(l, r) && ClockForward(r.calls) ==> !Evicts(r.calls)
  }

  /** No run with a forward clock evicts, exactly when the table has room for three buckets
      for each attempt the global limit admits and one for the global key. */
  lemma NeverEvictsIff(l: Limits)
    requires ValidLimits(l)
    ensures NeverEvicts(l) <==> l.maximumBuckets > 3 * l.global
  {
    if Roomy(l) {
      forall r | IsRun(l, r) && ClockForward(r.calls) ensures !Evicts(r.calls) { RoomyNeverEvicts(l, r); }
    } else {
      var r := ShortEvicts(l);
    }
  }

  // ---- Limits that let a key through above its limit ----

  lemma SharedIsFour(l: Limits, kind: nat, len: nat, j: nat)
    requires 1 <= kind <= 3 && j <= len
    ensures FourKeys(l, Shared(kind, len, j))
  {
    hide FourKeys, Keys;
    if kind == 1 { KeysAreFour(l, "y", Repeat('x', j + 1)); }
    else if kind == 2 { KeysAreFour(l, Repeat('x', j + 1), "y"); }
    else { KeysAreFour(l, Repeat(':', j + 1), Repeat(':', len - j + 1)); }
  }

  function TheKey(kind: nat, len: nat): string
    requires 1 <= kind <= 3
  {
    Shared(kind, len, 0)[kind]
  }

  lemma HasTheKey(kind: nat, len: nat, j: nat)
    requires 1 <= kind <= 3 && j <= len
    ensures Shared(kind, len, j)[kind] == TheKey(kind, len)
  {
    hide Shared;
    if j > 0 { SharedShareOne(kind, len, 0, j, kind, kind); }
  }

  /** First `t` attempts that share one further key, then attempts that share nothing. */
  predicate SharedThenFresh(calls: seq<Call>, kind: nat, len: nat, t: nat)
    requires 1 <= kind <= 3 && t <= len + 1
  {
    && t <= |calls|
    && (forall j :: 0 <= j < t ==> IsNow(calls[j], Shared(kind, len, j)))
    && AllFresh(calls, t)
  }

  /** Other keys of an attempt not yet made have no bucket. */
  lemma NewKeysAbsent(l: Limits, r: Run, kind: nat, len: nat, t: nat, m: nat)
    requires 1 <= kind <= 3 && t <= len + 1 && 1 <= m < 4
    requires IsRun(l, r) && SharedThenFresh(r.calls, kind, len, t)
    ensures t <= len && m != kind ==> Shared(kind, len, t)[m] !in Final(r).buckets
    ensures Fresh(|r.calls| - t)[m] !in Final(r).buckets
  {
    hide StepAt, Fresh, Shared, FourKeys;
    if t <= len && m != kind {
      forall j | 0 <= j < |r.calls| ensures Shared(kind, len, t)[m] !in r.calls[j].keys {
        SharedNotIn(l, r.calls, kind, len, t, m, j);
      }
      UnnamedIsAbsent(l, r, Shared(kind, len, t)[m]);
    }
    forall j | 0 <= j < |r.calls| ensures Fresh(|r.calls| - t)[m] !in r.calls[j].keys {
      FreshNotIn(l, r.calls, kind, len, t, m, j);
    }
    UnnamedIsAbsent(l, r, Fresh(|r.calls| - t)[m]);
  }

  lemma SharedNotIn(l: Limits, calls: seq<Call>, kind: nat, len: nat, t: nat, m: nat, j: nat)
    requires 1 <= kind <= 3 && t <= len && 1 <= m < 4 && m != kind && j < |calls|
    requires SharedThenFresh(calls, kind, len, t)
    ensures calls[j].Admit? && Shared(kind, len, t)[m] !in calls[j].keys
  {
    hide Fresh, Shared, FourKeys;
    var keys := Shared(kind, len, t);
    SharedIsFour(l, kind, len, t);
    if j < t {
      assert IsNow(calls[j], Shared(kind, len, j));
      SharedIsFour(l, kind, len, j);
      forall n | 1 <= n < 4 ensures keys[m] != Shared(kind, len, j)[n] { SharedShareOne(kind, len, t, j, m, n); }
      NotAmong(l, keys, m, Shared(kind, len, j));
    } else {
      assert IsNow(calls[j], Fresh(j - t));
      var other := Fresh(j - t);
      FreshIsFour(l, j - t);
      forall n | 1 <= n < 4 ensures keys[m] != other[n] { SharedAndFreshAreApart(kind, len, t, j - t, m, n); }
      NotAmong(l, keys, m, other);
    }
  }

  lemma FreshNotIn(l: Limits, calls: seq<Call>, kind: nat, len: nat, t: nat, m: nat, j: nat)
    requires 1 <= kind <= 3 && t <= len + 1 && 1 <= m < 4 && j < |calls|
    requires SharedThenFresh(calls, kind, len, t)
    ensures calls[j].Admit? && Fresh(|calls| - t)[m] !in calls[j].keys
  {
    hide Fresh, Shared, FourKeys;
    var keys := Fresh(|calls| - t);
    FreshIsFour(l, |calls| - t);
    if j < t {
      assert IsNow(calls[j], Shared(kind, len, j));
      SharedIsFour(l, kind, len, j);
      forall n | 1 <= n < 4 ensures keys[m] != Shared(kind, len, j)[n] {
        SharedAndFreshAreApart(kind, len, j, |calls| - t, n, m);
      }
      NotAmong(l, keys, m, Shared(kind, len, j));
    } else {
      assert IsNow(calls[j], Fresh(j - t));
      var other := Fresh(j - t);
      FreshIsFour(l, j - t);
      forall n | 1 <= n < 4 ensures keys[m] != other[n] { FreshAreApart(|calls| - t, j - t, m, n); }
      NotAmong(l, keys, m, other);
    }
  }

  /** One further key present, the others absent. */
  lemma AbsentButOne(b: Buckets, keys: seq<string>, kind: nat)
    requires |keys| == 4 && 1 <= kind <= 3 && keys[0] in b && keys[kind] in b
    requires forall m :: 1 <= m < 4 && m != kind ==> keys[m] !in b
    ensures Missing(b, keys) == 2
  {
    assert keys[1..][0] == keys[1] && keys[1..][1..] == keys[2..] && keys[2..][0] == keys[2] && keys[2..][1..] == keys[3..];
    assert keys[3..][0] == keys[3] && keys[3..][1..] == [];
    assert Missing(b, keys[3..]) == if kind == 3 then 0 else 1;
    assert Missing(b, keys[2..]) == if kind >= 2 then 1 else 2;
    assert Missing(b, keys[1..]) == 2;
  }

  lemma OneNotFull(l: Limits, b: Buckets, keys: seq<string>, kind: nat)
    requires FourKeys(l, keys) && 1 <= kind <= 3
    requires forall m :: 1 <= m < 4 && m != kind ==> keys[m] !in b
    requires |Attempts(b, GLOBAL_KEY)| < l.global && |Attempts(b, keys[kind])| < LimitAt(l, kind)
    ensures NoneFull(l, b, keys, 4)
  {
    hide LimitOf;
  }

  /** After `t` of the attempts that share a key. */
  ghost predicate Stacked(l: Limits, r: Run, kind: nat, len: nat, t: nat)
    requires 1 <= kind <= 3 && t <= len + 1
  {
    && IsRun(l, r) && |r.calls| == t && SharedThenFresh(r.calls, kind, len, t) && AllZero(Final(r).buckets)
    && |Attempts(Final(r).buckets, GLOBAL_KEY)| == t
    && |Attempts(Final(r).buckets, TheKey(kind, len))| == t
    && (|Final(r).buckets| >= l.maximumBuckets || |Final(r).buckets| >= (if t == 0 then 0 else 2 + 2 * t))
  }

  /** The next attempt that shares the key is not refused, and misses two buckets, or four at first. */
  lemma SharedStep(l: Limits, r: Run, kind: nat, len: nat, t: nat)
    requires ValidLimits(l) && 1 <= kind <= 3 && t <= len && t < LimitAt(l, kind) && t < l.global
    requires Stacked(l, r, kind, len, t)
    ensures FourKeys(l, Shared(kind, len, t)) && NoneFull(l, Final(r).buckets, Shared(kind, len, t), 4)
    ensures Missing(Final(r).buckets, Shared(kind, len, t)) == if t == 0 then 4 else 2
    ensures Shared(kind, len, t)[kind] == TheKey(kind, len)
  {
    hide Fresh, Shared, StepAt, NoneFull, Missing, LimitOf, SharedThenFresh, AllZero, TheKey;
    var keys, b := Shared(kind, len, t), Final(r).buckets;
    SharedIsFour(l, kind, len, t);
    HasTheKey(kind, len, t);
    forall m | 1 <= m < 4 && m != kind ensures keys[m] !in b { NewKeysAbsent(l, r, kind, len, t, m); }
    OneNotFull(l, b, keys, kind);
    if t == 0 {
      UnnamedIsAbsent(l, r, keys[0]);
      UnnamedIsAbsent(l, r, keys[kind]);
      AbsentThree(b, keys);
    } else {
      AbsentButOne(b, keys, kind);
    }
  }

  lemma {:induction false} StackUp(l: Limits, kind: nat, len: nat, t: nat) returns (r: Run)
    requires ValidLimits(l) && 1 <= kind <= 3 && t <= len + 1 && t <= LimitAt(l, kind) && t <= l.global
    ensures Stacked(l, r, kind, len, t)
  {
    if t == 0 {
      r := Run([], [State(map[], 0, 0)]);
    } else {
      hide Stacked, LimitAt, ValidLimits;
      var before := StackUp(l, kind, len, t - 1);
      r := StackOne(l, before, kind, len, t - 1);
    }
  }

  lemma StackOne(l: Limits, before: Run, kind: nat, len: nat, t: nat) returns (r: Run)
    requires ValidLimits(l) && 1 <= kind <= 3 && t <= len && t < LimitAt(l, kind) && t < l.global
    requires Stacked(l, before, kind, len, t)
    ensures Stacked(l, r, kind, len, t + 1)
  {
    hide Fresh, Shared, Prune, Record, Without, StepAt, FourKeys, NoneFull, LruVictims, Missing, TheKey, LimitAt, AllZero,
         SharedThenFresh, Unprotected, Attempts;
    var b, keys := Final(before).buckets, Shared(kind, len, t);
    SharedStep(l, before, kind, len, t);
    var victims;
    r, victims := AdmitNow(l, before, keys, "");
    SizeAfter(l, b, keys, victims);
    QueueAfter(l, b, keys, victims, GLOBAL_KEY);
    QueueAfter(l, b, keys, victims, keys[kind]);
    FourDistinctFour(l, keys);
    VictimsAreUnprotected(b, keys, victims);
    SharedAppended(before.calls, r.calls, kind, len, t, victims);
  }

  lemma SharedAppended(calls: seq<Call>, more: seq<Call>, kind: nat, len: nat, t: nat, victims: seq<string>)
    requires 1 <= kind <= 3 && t <= len && |calls| == t && SharedThenFresh(calls, kind, len, t)
    requires more == calls + [Admit(Shared(kind, len, t), 0, victims)]
    ensures SharedThenFresh(more, kind, len, t + 1)
  {
    hide Fresh, Shared;
  }

  /** After all of them and some attempts that share nothing, none of which had to evict. */
  ghost predicate Loaded(l: Limits, r: Run, kind: nat, len: nat)
    requires 1 <= kind <= 3 && len == LimitAt(l, kind)
  {
    && IsRun(l, r) && SharedThenFresh(r.calls, kind, len, len) && AllZero(Final(r).buckets)
    && |Attempts(Final(r).buckets, GLOBAL_KEY)| == |r.calls|
    && TheKey(kind, len) in Final(r).buckets
    && var i := |r.calls| - len;
       |Final(r).buckets| >= 2 + 2 * len + 3 * i || (i == 0 && |Final(r).buckets| >= l.maximumBuckets)
  }

  /** The next attempt that shares nothing is not refused and misses three buckets. */
  lemma OtherStep(l: Limits, r: Run, kind: nat, len: nat)
    requires ValidLimits(l) && 1 <= kind <= 3 && len == LimitAt(l, kind) && Loaded(l, r, kind, len)
    requires |r.calls| < l.global && len > 0
    ensures var keys := Fresh(|r.calls| - len);
            && FourKeys(l, keys) && NoneFull(l, Final(r).buckets, keys, 4) && Missing(Final(r).buckets, keys) == 3
            && TheKey(kind, len) !in keys
  {
    hide Fresh, Shared, StepAt, NoneFull, Missing, LimitOf, AllZero, TheKey, LimitAt;
    var keys, b := Fresh(|r.calls| - len), Final(r).buckets;
    FreshIsFour(l, |r.calls| - len);
    NewKeysAbsent(l, r, kind, len, len, 1);
    NewKeysAbsent(l, r, kind, len, len, 2);
    NewKeysAbsent(l, r, kind, len, len, 3);
    AbsentAreNotFull(l, b, keys);
    AbsentThree(b, keys);
    NotGlobal(l, kind, len);
  }

  lemma NotGlobal(l: Limits, kind: nat, len: nat)
    requires 1 <= kind <= 3
    ensures TheKey(kind, len) != GLOBAL_KEY && LimitOf(l, TheKey(kind, len)) == LimitAt(l, kind)
  {
    hide Shared, LimitOf, LimitAt;
    SharedIsFour(l, kind, len, 0);
  }

  lemma RoomForOthers(l: Limits, len: nat, i: nat, size: nat)
    requires Exceedable(l, len) && size <= l.maximumBuckets
    requires size >= 2 + 2 * len + 3 * i || (i == 0 && size >= l.maximumBuckets)
    ensures len + i + 2 <= l.global
  {
  }

  /** Attempts that share nothing are admitted until one has to evict, and it can evict the key. */
  lemma {:induction false} LoadUntilEvicted(l: Limits, r: Run, kind: nat, len: nat) returns (next: Run)
    requires ValidLimits(l) && 1 <= kind <= 3 && len == LimitAt(l, kind) && Exceedable(l, len) && Loaded(l, r, kind, len)
    ensures IsRun(l, next) && SharedThenFresh(next.calls, kind, len, len) && AllZero(Final(next).buckets)
    ensures |Attempts(Final(next).buckets, GLOBAL_KEY)| == |next.calls| < l.global
    ensures Attempts(Final(next).buckets, TheKey(kind, len)) == []
    decreases l.global - |r.calls|
  {
    hide Fresh, Shared, Prune, Record, Without, StepAt, FourKeys, NoneFull, LruVictims, Missing, TheKey, LimitAt, Exceedable;
    var b, i := Final(r).buckets, |r.calls| - len;
    CapacityHolds(l, r, |r.calls|);
    RoomForOthers(l, len, i, |b|);
    KindIsPositive(l, kind);
    OtherStep(l, r, kind, len);
    var keys, victims := Fresh(i), [];
    next, victims := AdmitNow(l, r, keys, TheKey(kind, len));
    SizeAfter(l, b, keys, victims);
    QueueAfter(l, b, keys, victims, GLOBAL_KEY);
    QueueAfter(l, b, keys, victims, TheKey(kind, len));
    FourDistinctFour(l, keys);
    Appended(r.calls, next.calls, kind, len, victims);
    if victims == [] {
      KeptWithout(b, keys, TheKey(kind, len));
      next := LoadUntilEvicted(l, next, kind, len);
    }
  }

  lemma KindIsPositive(l: Limits, kind: nat)
    requires ValidLimits(l) && 1 <= kind <= 3
    ensures LimitAt(l, kind) > 0
  {
  }

  lemma Appended(calls: seq<Call>, more: seq<Call>, kind: nat, len: nat, victims: seq<string>)
    requires 1 <= kind <= 3 && SharedThenFresh(calls, kind, len, len)
    requires more == calls + [Admit(Fresh(|calls| - len), 0, victims)]
    ensures SharedThenFresh(more, kind, len, len)
  {
    hide Fresh, Shared;
  }

  lemma {:induction false} KeptWithout(b: Buckets, keys: seq<string>, u: string)
    requires u in b
    ensures u in Record(Without(b, []), keys, 0)
  {
    RecordKeeps(Without(b, []), keys, u);
  }

  lemma {:induction false} RecordKeeps(b: Buckets, keys: seq<string>, u: string)
    requires u in b
    ensures u in Record(b, keys, 0)
    decreases |keys|
  {
    if keys != [] { RecordKeeps(b[keys[0] := Bucket(Attempts(b, keys[0]) + [0], 0)], keys[1..], u); }
  }

  lemma StackIsLoaded(l: Limits, r: Run, kind: nat, len: nat)
    requires ValidLimits(l) && 1 <= kind <= 3 && len == LimitAt(l, kind) && Stacked(l, r, kind, len, len)
    ensures Loaded(l, r, kind, len)
  {
    hide Fresh, Shared, StepAt, AllZero, SharedThenFresh, TheKey;
  }

  lemma {:induction false} AllAdmitted(h: seq<KeyEvent>)
    requires forall i :: 0 <= i < |h| ==> h[i].admitted
    ensures |Admissions(h)| == |h|
  {
    if h != [] { AllAdmitted(h[..|h| - 1]); }
  }

  lemma {:induction false} AdmissionsAreNow(h: seq<KeyEvent>)
    requires forall i :: 0 <= i < |h| ==> h[i].now == 0
    ensures forall i :: 0 <= i < |Admissions(h)| ==> Admissions(h)[i] == 0
  {
    if h != [] { AdmissionsAreNow(h[..|h| - 1]); }
  }

  /** A key named by the first `t` calls and by the last one is admitted more than `t` times. */
  lemma OneTooMany(calls: seq<Call>, k: string, t: nat)
    requires AllNow(calls) && t < |calls| && k in calls[|calls| - 1].keys
    requires forall j :: 0 <= j < t ==> k in calls[j].keys
    ensures var a := Admissions(History(calls, k)); t < |a| && a[0] == 0 && a[t] == 0
  {
    hide Admissions;
    var h, n := History(calls, k), |calls| - 1;
    AllAdmitted(h[..t]);
    AllAdmitted(h[n..]);
    assert h == h[..t] + (h[t..n] + h[n..]);
    AdmissionsConcat(h[..t], h[t..n] + h[n..]);
    AdmissionsConcat(h[t..n], h[n..]);
    AdmissionsAreNow(h);
  }

  /** Where the limits allow it, a run at one moment admits a key above its limit. */
  lemma SomeKeyExceeds(l: Limits, kind: nat) returns (r: Run, k: string)
    requires ValidLimits(l) && 1 <= kind <= 3 && Exceedable(l, LimitAt(l, kind))
    ensures IsRun(l, r) && ClockForward(r.calls) && LimitOf(l, k) == LimitAt(l, kind)
    ensures var a := Admissions(History(r.calls, k)); LimitOf(l, k) < |a| && a[LimitOf(l, k)] - a[0] < Span(l)
  {
    hide Fresh, Shared, Prune, Record, Without, StepAt, FourKeys, NoneFull, LruVictims, Missing, TheKey, LimitAt, LimitOf,
         Exceedable, Stacked, Loaded, AllZero, Attempts, Admissions, Span, ValidLimits;
    var len := LimitAt(l, kind);
    k := TheKey(kind, len);
    KindIsPositive(l, kind);
    NotGlobal(l, kind, len);
    LimitBelowGlobal(l, len);
    var stacked := StackUp(l, kind, len, len);
    StackIsLoaded(l, stacked, kind, len);
    var before := LoadUntilEvicted(l, stacked, kind, len);
    LastStep(l, before, kind, len);
    var victims;
    r, victims := AdmitNow(l, before, Shared(kind, len, len), "");
    SharedCalls(before.calls, r.calls, kind, len, victims);
    OneTooMany(r.calls, k, len);
    SpanIsPositive(l);
  }

  lemma LimitBelowGlobal(l: Limits, len: nat)
    requires Exceedable(l, len)
    ensures len < l.global
  {
  }

  lemma LastStep(l: Limits, r: Run, kind: nat, len: nat)
    requires ValidLimits(l) && 1 <= kind <= 3 && len == LimitAt(l, kind) > 0
    requires IsRun(l, r) && SharedThenFresh(r.calls, kind, len, len)
    requires |Attempts(Final(r).buckets, GLOBAL_KEY)| < l.global && Attempts(Final(r).buckets, TheKey(kind, len)) == []
    ensures FourKeys(l, Shared(kind, len, len)) && NoneFull(l, Final(r).buckets, Shared(kind, len, len), 4)
  {
    hide Fresh, Shared, StepAt, NoneFull, LimitOf, SharedThenFresh, TheKey;
    var keys, b := Shared(kind, len, len), Final(r).buckets;
    SharedIsFour(l, kind, len, len);
    HasTheKey(kind, len, len);
    forall m | 1 <= m < 4 && m != kind ensures keys[m] !in b { NewKeysAbsent(l, r, kind, len, len, m); }
    OneNotFull(l, b, keys, kind);
  }

  lemma SharedCalls(calls: seq<Call>, more: seq<Call>, kind: nat, len: nat, victims: seq<string>)
    requires 1 <= kind <= 3 && SharedThenFresh(calls, kind, len, len)
    requires more == calls + [Admit(Shared(kind, len, len), 0, victims)]
    ensures AllNow(more) && len < |more| && TheKey(kind, len) in more[|more| - 1].keys
    ensures forall j :: 0 <= j < len ==> TheKey(kind, len) in more[j].keys
  {
    hide Fresh, Shared, TheKey;
    HasTheKey(kind, len, len);
    forall j | 0 <= j < len ensures TheKey(kind, len) in more[j].keys {
      HasTheKey(kind, len, j);
      assert IsNow(calls[j], Shared(kind, len, j));
    }
    forall j | 0 <= j < |more| ensures more[j].Admit? && more[j].now == 0 {
      if j < len {
        assert IsNow(calls[j], Shared(kind, len, j));
      } else if j < |calls| {
        assert IsNow(calls[j], Fresh(j - len));
      }
    }
  }

  // ---- The exact condition ----

  function Least(l: Limits): nat {
    var m := if l.perAddress <= l.perIdentity then l.perAddress else l.perIdentity;
    if m <= l.perAddressAndIdentity then m else l.perAddressAndIdentity
  }

  /** Any `limit + 1` consecutive admissions of the key span at least the window. */
  ghost predicate Respects(l: Limits, r: Run, k: string) {
    forall i :: 0 <= i && i + LimitOf(l, k) < |Admissions(History(r.calls, k))| ==>
      Admissions(History(r.calls, k))[i + LimitOf(l, k)] - Admissions(History(r.calls, k))[i] >= Span(l)
  }

  /** Every run with a forward clock respects the limit of every key. */
  ghost predicate KeepsLimits(l: Limits) {
    forall r, k :: IsRun(l, r) && ClockForward(r.calls) ==> Respects(l, r, k)
  }

  lemma AdmittedLimit(l: Limits, r: Run, k: string)
    requires ValidLimits(l) && IsRun(l, r) && Admissions(History(r.calls, k)) != [] && k != GLOBAL_KEY
    ensures LimitOf(l, k) >= Least(l) > 0
  {
    hide LimitOf, StepAt, Admissions, FourKeys, FourKeyed, Least, ValidLimits;
    var n := AdmissionAt(History(r.calls, k), 0);
    assert History(r.calls, k)[n] == Seen(r.calls[n], k);
    RunIsFourKeyed(l, r);
    AdmitIsFourKeyed(l, r.calls, n);
    NamedLimit(l, r.calls[n].keys, k);
  }

  lemma NamedLimit(l: Limits, keys: seq<string>, k: string)
    requires ValidLimits(l) && FourKeys(l, keys) && k in keys && k != GLOBAL_KEY
    ensures LimitOf(l, k) >= Least(l) > 0
  {
    hide LimitOf;
    var i :| 0 <= i < 4 && keys[i] == k;
    assert LimitOf(l, keys[i]) == LimitAt(l, i);
  }

  /** The rate limit: for the global key always, and for every key of every run with a
      forward clock when the limits leave the table enough room. */
  lemma RateLimitHolds(l: Limits, r: Run, k: string)
    requires ValidLimits(l) && IsRun(l, r) && ClockForward(r.calls)
    requires k == GLOBAL_KEY || !Exceedable(l, Least(l))
    ensures Respects(l, r, k)
  {
    hide LimitOf, StepAt, Admissions, Span, ValidLimits, Least;
    var a, n := Admissions(History(r.calls, k)), LimitOf(l, k);
    forall i | 0 <= i && i + n < |a| ensures a[i + n] - a[i] >= Span(l) {
      if k == GLOBAL_KEY {
        RateLimitWithoutEviction(l, r, k, i);
      } else {
        AdmittedLimit(l, r, k);
        if a[i + n] - a[i] < Span(l) {
          ExceededIsExceedable(l, r, k, i);
          LessIsExceedable(l, Least(l), n);
          assert false;
        }
      }
    }
  }

  lemma LessIsExceedable(l: Limits, small: nat, large: nat)
    requires small <= large && Exceedable(l, large)
    ensures Exceedable(l, small)
  {
  }

  /** Limits keep every key's limit in every run with a forward clock if and only if the
      smallest per-key limit is within one of the global limit, or the table holds more than
      three buckets for each global attempt less that limit and two. */
  lemma KeepsLimitsIff(l: Limits)
    requires ValidLimits(l)
    ensures KeepsLimits(l) <==> l.global < Least(l) + 2 || l.maximumBuckets + Least(l) + 2 > 3 * l.global
  {
    hide Respects, ValidLimits;
    if !Exceedable(l, Least(l)) {
      forall r, k | IsRun(l, r) && ClockForward(r.calls) ensures Respects(l, r, k) { RateLimitHolds(l, r, k); }
    } else {
      var kind := if Least(l) == l.perAddress then 1 else if Least(l) == l.perIdentity then 2 else 3;
      var r, k := SomeKeyExceeds(l, kind);
      NotRespected(l, r, k);
    }
  }

  lemma NotRespected(l: Limits, r: Run, k: string)
    requires var a := Admissions(History(r.calls, k)); LimitOf(l, k) < |a| && a[LimitOf(l, k)] - a[0] < Span(l)
    ensures !Respects(l, r, k)
  {
    hide Admissions, LimitOf, Span;
    var a := Admissions(History(r.calls, k));
    assert 0 + LimitOf(l, k) < |a|;
  }

  /** The limits the daemon runs with. */
  const DEFAULTS := Limits(32, 16, 8, 512, 4096, 300)

  /** Under them nothing is ever evicted and every limit is kept. */
  lemma DefaultsKeepLimits()
    ensures ValidLimits(DEFAULTS) && NeverEvicts(DEFAULTS) && KeepsLimits(DEFAULTS)
  {
    hide NeverEvicts, KeepsLimits;
    NeverEvictsIff(DEFAULTS);
    KeepsLimitsIff(DEFAULTS);
  }
}
