/** How many buckets a run of the rate limiter can need: what the global limit leaves room for. */
module RateLimiterCapacity {
  import opened Duration
  import opened AttemptWindow
  import opened RateLimiterRuns

  // ---- Counting admissions in the calls ----

  predicate AdmitAfter(call: Call, c: int) { call.Admit? && call.now > c }

  /** Admissions later than `c` that name key `k`. */
  function With(calls: seq<Call>, c: int, k: string): nat {
    if calls == [] then 0
    else
      var last := calls[|calls| - 1];
      With(calls[..|calls| - 1], c, k) + (if AdmitAfter(last, c) && k in last.keys then 1 else 0)
  }

  /** Admissions later than `c` that do not. */
  function Others(calls: seq<Call>, c: int, k: string): nat {
    if calls == [] then 0
    else
      var last := calls[|calls| - 1];
      Others(calls[..|calls| - 1], c, k) + (if AdmitAfter(last, c) && k !in last.keys then 1 else 0)
  }

  function KeySet(keys: seq<string>): set<string> { set k | k in keys }

  /** The keys named by admissions later than `c`. */
  function Touched(calls: seq<Call>, c: int): set<string> {
    if calls == [] then {}
    else
      var last := calls[|calls| - 1];
      Touched(calls[..|calls| - 1], c) + (if AdmitAfter(last, c) then KeySet(last.keys) else {})
  }

  predicate FourKeyed(l: Limits, calls: seq<Call>) {
    forall i :: 0 <= i < |calls| && calls[i].Admit? ==> FourKeys(l, calls[i].keys)
  }

  lemma RunIsFourKeyed(l: Limits, r: Run)
    requires IsRun(l, r)
    ensures FourKeyed(l, r.calls)
  {
    hide FourKeys;
    forall i | 0 <= i < |r.calls| && r.calls[i].Admit? ensures FourKeys(l, r.calls[i].keys) {
      assert StepAt(l, r, i);
    }
  }

  lemma PrefixFourKeyed(l: Limits, calls: seq<Call>, n: nat)
    requires FourKeyed(l, calls) && n <= |calls|
    ensures FourKeyed(l, calls[..n])
  {
    hide FourKeys;
  }

  lemma {:induction false} TouchedIff(calls: seq<Call>, c: int, u: string)
    ensures u in Touched(calls, c) <==> exists j :: 0 <= j < |calls| && AdmitAfter(calls[j], c) && u in calls[j].keys
  {
    if calls != [] {
      var init := calls[..|calls| - 1];
      TouchedIff(init, c, u);
      if j :| 0 <= j < |calls| && AdmitAfter(calls[j], c) && u in calls[j].keys {
        if j < |init| { assert init[j] == calls[j]; }
      }
      if u in Touched(init, c) {
        var j :| 0 <= j < |init| && AdmitAfter(init[j], c) && u in init[j].keys;
        assert calls[j] == init[j];
      }
    }
  }

  lemma UnionBound(a: set<string>, b: set<string>, without: set<string>)
    ensures |(a + b) - without| <= |a - without| + |b - without|
  {
    assert (a + b) - without == (a - without) + (b - without);
    UnionSize(a - without, b - without);
  }

  lemma UnionSize(a: set<string>, b: set<string>)
    ensures |a + b| <= |a| + |b|
  {
    assert a + b == a + (b - a);
    SubsetSize(b - a, b);
  }

  lemma SubsetSize(a: set<string>, b: set<string>)
    requires a <= b
    ensures |a| <= |b|
  {
    assert b == a + (b - a);
  }

  /** An admission names three keys besides the global one, two besides a given other key of its own. */
  lemma KeySetSizes(l: Limits, keys: seq<string>, k: string)
    requires FourKeys(l, keys) && k != GLOBAL_KEY
    ensures |KeySet(keys) - {GLOBAL_KEY}| == 3
    ensures |KeySet(keys) - {GLOBAL_KEY, k}| == if k in keys then 2 else 3
  {
    hide LimitOf;
    assert KeySet(keys) - {GLOBAL_KEY} == {keys[1], keys[2], keys[3]};
    var rest := KeySet(keys) - {GLOBAL_KEY, k};
    if k in keys {
      assert k == keys[1] || k == keys[2] || k == keys[3];
      assert k == keys[1] ==> rest == {keys[2], keys[3]};
      assert k == keys[2] ==> rest == {keys[1], keys[3]};
      assert k == keys[3] ==> rest == {keys[1], keys[2]};
    } else {
      assert rest == {keys[1], keys[2], keys[3]};
    }
  }

  /** So a number of admissions touch at most this many keys. */
  lemma {:induction false} TouchedBound(l: Limits, calls: seq<Call>, c: int, k: string)
    requires FourKeyed(l, calls) && k != GLOBAL_KEY
    ensures |Touched(calls, c) - {GLOBAL_KEY}| <= 3 * (With(calls, c, k) + Others(calls, c, k))
    ensures |Touched(calls, c) - {GLOBAL_KEY, k}| <= 2 * With(calls, c, k) + 3 * Others(calls, c, k)
  {
    if calls != [] {
      hide FourKeys, KeySet;
      var init, last := calls[..|calls| - 1], calls[|calls| - 1];
      PrefixFourKeyed(l, calls, |calls| - 1);
      TouchedBound(l, init, c, k);
      if AdmitAfter(last, c) {
        KeySetSizes(l, last.keys, k);
        UnionBound(Touched(init, c), KeySet(last.keys), {GLOBAL_KEY});
        UnionBound(Touched(init, c), KeySet(last.keys), {GLOBAL_KEY, k});
      }
    }
  }

  // ---- The global bucket counts them all ----

  lemma {:induction false} RecentCountsWith(calls: seq<Call>, c: int, k: string)
    ensures |Recent(Admissions(History(calls, k)), c)| == With(calls, c, k)
  {
    if calls != [] {
      var init, last := calls[..|calls| - 1], calls[|calls| - 1];
      RecentCountsWith(init, c, k);
      var h := History(calls, k);
      assert h[..|h| - 1] == History(init, k);
      if Seen(last, k).admitted { RecentAppend(Admissions(History(init, k)), last.now, c); }
    }
  }

  lemma {:induction false} GlobalIsNamed(l: Limits, calls: seq<Call>, c: int, k: string)
    requires FourKeyed(l, calls)
    ensures With(calls, c, GLOBAL_KEY) == With(calls, c, k) + Others(calls, c, k)
  {
    if calls != [] {
      var init, last := calls[..|calls| - 1], calls[|calls| - 1];
      PrefixFourKeyed(l, calls, |calls| - 1);
      GlobalIsNamed(l, init, c, k);
      if last.Admit? { assert FourKeys(l, last.keys) && last.keys[0] == GLOBAL_KEY; }
    }
  }

  lemma GlobalLogIsWhole(l: Limits, r: Run, n: nat)
    requires IsRun(l, r) && n <= |r.calls|
    ensures SinceEviction(History(r.calls[..n], GLOBAL_KEY)) == Admissions(History(r.calls[..n], GLOBAL_KEY))
  {
    hide StepAt;
    GlobalNeverEvicted(l, r);
    NeverEvictedKeepsAll(History(r.calls[..n], GLOBAL_KEY));
  }

  /** The pruned global bucket holds one attempt for every live admission of the run. */
  lemma GlobalCountsAll(l: Limits, r: Run, n: nat, now: int)
    requires ValidLimits(l) && IsRun(l, r) && ClockForward(r.calls) && n <= |r.calls|
    requires n > 0 ==> r.calls[n - 1].now <= now
    ensures |Attempts(Prune(r.states[n].buckets, now - Span(l)), GLOBAL_KEY)|
         == With(r.calls[..n], now - Span(l), GLOBAL_KEY)
  {
    hide StepAt, KeyReplay, KeyLegal, DropExpired, Prune, Recent, SinceEviction, Admissions, With, History, Attempts;
    var calls, c := r.calls[..n], now - Span(l);
    PrefixForward(r.calls, n);
    HistoryForward(calls, GLOBAL_KEY);
    BucketFollowsHistory(l, r, n, GLOBAL_KEY);
    PruneAttempts(r.states[n].buckets, c, GLOBAL_KEY);
    PrunedQueue(Span(l), History(calls, GLOBAL_KEY), now);
    GlobalLogIsWhole(l, r, n);
    RecentCountsWith(calls, c, GLOBAL_KEY);
  }

  lemma PrefixForward(calls: seq<Call>, n: nat)
    requires ClockForward(calls) && n <= |calls|
    ensures ClockForward(calls[..n])
  {
  }

  // ---- Every live bucket was touched by a live admission ----

  lemma {:induction false} RecentWasAdmitted(h: seq<KeyEvent>, c: int) returns (i: nat)
    requires Recent(SinceEviction(h), c) != []
    ensures i < |h| && h[i].admitted && h[i].now > c
  {
    var init, e := h[..|h| - 1], h[|h| - 1];
    var kept := if e.evicted then [] else SinceEviction(init);
    if e.admitted && e.now > c {
      i := |h| - 1;
    } else {
      if e.admitted { RecentAppend(kept, e.now, c); }
      i := RecentWasAdmitted(init, c);
    }
  }

  lemma LiveIsTouched(l: Limits, r: Run, n: nat, now: int, u: string)
    requires ValidLimits(l) && IsRun(l, r) && ClockForward(r.calls) && n <= |r.calls|
    requires n > 0 ==> r.calls[n - 1].now <= now
    requires u in Prune(r.states[n].buckets, now - Span(l))
    ensures u in Touched(r.calls[..n], now - Span(l))
  {
    hide StepAt, KeyReplay, KeyLegal, DropExpired, Recent;
    var calls, c := r.calls[..n], now - Span(l);
    var h := History(calls, u);
    PrefixForward(r.calls, n);
    HistoryForward(calls, u);
    BucketFollowsHistory(l, r, n, u);
    PrunedQueue(Span(l), h, now);
    var i := RecentWasAdmitted(h, c);
    assert h[i] == Seen(calls[i], u);
    assert AdmitAfter(calls[i], c) && u in calls[i].keys;
    TouchedIff(calls, c, u);
  }

  lemma {:induction false} MissingCount(b: Buckets, keys: seq<string>)
    requires Distinct(keys)
    ensures Missing(b, keys) + |b.Keys * KeySet(keys)| == |keys|
  {
    if keys == [] {
      assert b.Keys * KeySet(keys) == {};
    } else {
      var rest := keys[1..];
      MissingCount(b, rest);
      assert keys[0] !in rest;
      assert keys == [keys[0]] + rest;
      if keys[0] in b {
        assert b.Keys * KeySet(keys) == b.Keys * KeySet(rest) + {keys[0]};
      } else {
        assert b.Keys * KeySet(keys) == b.Keys * KeySet(rest);
      }
    }
  }

  // ---- No eviction ----

  /** There is room for three buckets for each attempt the global limit admits, and its own. */
  predicate Roomy(l: Limits) { l.maximumBuckets > 3 * l.global }

  predicate Evicts(calls: seq<Call>) {
    exists i :: 0 <= i < |calls| && calls[i].Admit? && calls[i].victims != []
  }

  lemma WantedFrom(l: Limits, b: Buckets, keys: seq<string>, touched: set<string>, live: nat)
    requires FourKeys(l, keys) && b.Keys <= touched && |touched - {GLOBAL_KEY}| <= 3 * live
    requires live == |Attempts(b, GLOBAL_KEY)| < l.global && (live == 0 ==> touched == {})
    ensures |b| + Missing(b, keys) <= 3 * l.global + 1
  {
    hide LimitOf;
    FourDistinct(l, keys);
    MissingCount(b, keys);
    if GLOBAL_KEY in b {
      assert GLOBAL_KEY in b.Keys * KeySet(keys);
      SubsetSize(b.Keys - {GLOBAL_KEY}, touched - {GLOBAL_KEY});
      assert b.Keys == b.Keys - {GLOBAL_KEY} + {GLOBAL_KEY};
    } else {
      assert b.Keys == {};
    }
  }

  /** An admission finds fewer live admissions than the global limit. */
  lemma AdmitSeesGlobalBelow(l: Limits, r: Run, f: nat)
    requires ValidLimits(l) && IsRun(l, r) && ClockForward(r.calls) && f < |r.calls| && r.calls[f].Admit?
    ensures With(r.calls[..f], r.calls[f].now - Span(l), GLOBAL_KEY) < l.global
  {
    hide LegalAdmit, Prune, With, Attempts, Apply;
    var call := r.calls[f];
    assert StepAt(l, r, f);
    GlobalIsBelow(l, Prune(r.states[f].buckets, call.now - Span(l)), call.keys, call.victims);
    GlobalCountsAll(l, r, f, call.now);
  }

  /** The buckets an admission needs, by the live admissions before it. */
  lemma WantedBound(l: Limits, r: Run, n: nat)
    requires ValidLimits(l) && IsRun(l, r) && ClockForward(r.calls) && n < |r.calls| && r.calls[n].Admit?
    ensures var call := r.calls[n];
            var b := Prune(r.states[n].buckets, call.now - Span(l));
            |b| + Missing(b, call.keys) <= 3 * l.global + 1
  {
    hide FourKeyed, FourKeys, Touched, Prune, With, StepAt, Missing, ValidLimits, Attempts;
    var call, calls := r.calls[n], r.calls[..n];
    var c := call.now - Span(l);
    var b := Prune(r.states[n].buckets, c);
    AdmitSeesGlobalBelow(l, r, n);
    GlobalCountsAll(l, r, n, call.now);
    RunIsFourKeyed(l, r);
    assert FourKeys(l, call.keys) by { AdmitIsFourKeyed(l, r.calls, n); }
    PrefixFourKeyed(l, r.calls, n);
    LiveTouchThree(l, calls, c);
    LiveKeysTouched(l, r, n);
    WantedFrom(l, b, call.keys, Touched(calls, c), With(calls, c, GLOBAL_KEY));
  }

  lemma AdmitIsFourKeyed(l: Limits, calls: seq<Call>, n: nat)
    requires FourKeyed(l, calls) && n < |calls| && calls[n].Admit?
    ensures FourKeys(l, calls[n].keys)
  {
    hide FourKeys;
  }

  /** Live admissions touch three keys each besides the global one. */
  lemma LiveTouchThree(l: Limits, calls: seq<Call>, c: int)
    requires FourKeyed(l, calls)
    ensures |Touched(calls, c) - {GLOBAL_KEY}| <= 3 * With(calls, c, GLOBAL_KEY)
    ensures With(calls, c, GLOBAL_KEY) == 0 ==> Touched(calls, c) == {}
  {
    hide FourKeyed, Touched, With, Others;
    TouchedBound(l, calls, c, "");
    GlobalIsNamed(l, calls, c, "");
    if With(calls, c, GLOBAL_KEY) == 0 { NothingTouched(calls, c, ""); }
  }

  lemma LiveKeysTouched(l: Limits, r: Run, n: nat)
    requires ValidLimits(l) && IsRun(l, r) && ClockForward(r.calls) && n < |r.calls|
    ensures var c := r.calls[n].now - Span(l); Prune(r.states[n].buckets, c).Keys <= Touched(r.calls[..n], c)
  {
    hide StepAt, Touched, Prune, ValidLimits;
    var c := r.calls[n].now - Span(l);
    forall u | u in Prune(r.states[n].buckets, c) ensures u in Touched(r.calls[..n], c) {
      LiveIsTouched(l, r, n, r.calls[n].now, u);
    }
  }

  lemma GlobalIsBelow(l: Limits, b: Buckets, keys: seq<string>, victims: seq<string>)
    requires LegalAdmit(l, b, keys, victims) && l.global > 0
    ensures |Attempts(b, GLOBAL_KEY)| < l.global && GLOBAL_KEY in keys
  {
    hide LimitOf, LruVictims;
    assert !Full(b, keys[0], LimitAt(l, 0));
  }

  lemma {:induction false} NothingTouched(calls: seq<Call>, c: int, k: string)
    requires With(calls, c, k) + Others(calls, c, k) == 0
    ensures Touched(calls, c) == {}
  {
    if calls != [] { NothingTouched(calls[..|calls| - 1], c, k); }
  }

  /** With that room no run whose clock does not go back ever evicts. */
  lemma RoomyNeverEvicts(l: Limits, r: Run)
    requires ValidLimits(l) && Roomy(l) && IsRun(l, r) && ClockForward(r.calls)
    ensures !Evicts(r.calls)
  {
    hide Prune, FourKeys, NoneFull, LruVictims, ValidLimits;
    forall i | 0 <= i < |r.calls| && r.calls[i].Admit? ensures r.calls[i].victims == [] {
      assert StepAt(l, r, i);
      WantedBound(l, r, i);
    }
  }
}
