/** What it takes to admit a key above its limit: the last accesses at an eviction. */
module RateLimiterWindow {
  import opened Duration
  import opened AttemptWindow
  import opened RateLimiterRuns
  import opened RateLimiterCapacity

  // ---- Histories in two parts ----

  lemma {:induction false} AdmissionsConcat(a: seq<KeyEvent>, b: seq<KeyEvent>)
    ensures Admissions(a + b) == Admissions(a) + Admissions(b)
  {
    if b == [] {
      assert a + b == a;
    } else {
      var init := b[..|b| - 1];
      assert (a + b)[..|a + b| - 1] == a + init;
      AdmissionsConcat(a, init);
    }
  }

  lemma {:induction false} SinceConcat(a: seq<KeyEvent>, b: seq<KeyEvent>)
    requires forall i :: 0 <= i < |b| ==> !b[i].evicted
    ensures SinceEviction(a + b) == SinceEviction(a) + Admissions(b)
  {
    if b == [] {
      assert a + b == a;
    } else {
      var init := b[..|b| - 1];
      assert (a + b)[..|a + b| - 1] == a + init;
      SinceConcat(a, init);
    }
  }

  lemma {:induction false} RecentConcat(a: seq<int>, b: seq<int>, c: int)
    ensures Recent(a + b, c) == Recent(a, c) + Recent(b, c)
  {
    if a == [] {
      assert a + b == b;
    } else {
      assert (a + b)[1..] == a[1..] + b;
      RecentConcat(a[1..], b, c);
    }
  }

  lemma {:induction false} AdmissionsLater(h: seq<KeyEvent>, c: int)
    requires forall i :: 0 <= i < |h| ==> h[i].now > c
    ensures Recent(Admissions(h), c) == Admissions(h)
  {
    if h != [] {
      var init, e := h[..|h| - 1], h[|h| - 1];
      AdmissionsLater(init, c);
      if e.admitted { RecentAppend(Admissions(init), e.now, c); }
    }
  }

  /** Where in its history a key's `i`th admission is. */
  lemma {:induction false} AdmissionAt(h: seq<KeyEvent>, i: nat) returns (n: nat)
    requires i < |Admissions(h)|
    ensures n < |h| && h[n].admitted && h[n].now == Admissions(h)[i] && |Admissions(h[..n])| == i
  {
    var init := h[..|h| - 1];
    if i < |Admissions(init)| {
      n := AdmissionAt(init, i);
      assert init[..n] == h[..n];
    } else {
      n := |h| - 1;
    }
  }

  lemma {:induction false} AdmissionsGrow(h: seq<KeyEvent>, m: nat, n: nat)
    requires m <= n <= |h|
    ensures |Admissions(h[..n])| == |Admissions(h[..m])| + |Admissions(h[m..n])|
  {
    assert h[..n] == h[..m] + h[m..n];
    AdmissionsConcat(h[..m], h[m..n]);
  }

  // ---- A key admitted above its limit was evicted in between ----

  /** The queue of a key that was not evicted holds every admission inside the window. */
  lemma QueueHoldsAll(h: seq<KeyEvent>, s: nat, c: int)
    requires s <= |h|
    requires forall i :: s <= i < |h| ==> !h[i].evicted && h[i].now > c
    ensures |Recent(SinceEviction(h), c)| >= |Admissions(h[s..])|
  {
    var a, b := h[..s], h[s..];
    assert h == a + b;
    SinceConcat(a, b);
    RecentConcat(SinceEviction(a), Admissions(b), c);
    AdmissionsLater(b, c);
  }

  lemma EvictedBetween(l: Limits, r: Run, k: string, s: nat, f: nat) returns (e: nat)
    requires ValidLimits(l) && IsRun(l, r) && ClockForward(r.calls) && s < f < |r.calls|
    requires Seen(r.calls[s], k).admitted && Seen(r.calls[f], k).admitted
    requires r.calls[f].now - r.calls[s].now < Span(l)
    requires |Admissions(History(r.calls[..f], k)[s..])| >= LimitOf(l, k)
    ensures s < e < f && r.calls[e].Admit? && k in r.calls[e].victims
  {
    hide StepAt, KeyReplay, KeyLegal, DropExpired, Recent, Admissions, SinceEviction, LimitOf, Span;
    var c := r.calls[f].now - Span(l);
    var h := History(r.calls[..f], k);
    PrefixForward(r.calls, f);
    HistoryForward(r.calls[..f], k);
    QueueBelow(l, r, f, k);
    PrunedQueue(Span(l), h, r.calls[f].now);
    if forall i :: s <= i < f ==> !h[i].evicted {
      forall i | s <= i < f ensures h[i].now > c {
        assert h[i] == Seen(r.calls[i], k);
        assert r.calls[s].now <= r.calls[i].now;
      }
      QueueHoldsAll(h, s, c);
      assert false;
    }
    e :| s <= e < f && h[e].evicted;
    assert h[e] == Seen(r.calls[e], k);
    if e == s { NotBoth(l, r, s, k); }
  }

  lemma NotBoth(l: Limits, r: Run, n: nat, k: string)
    requires ValidLimits(l) && IsRun(l, r) && n < |r.calls|
    ensures !(Seen(r.calls[n], k).evicted && Seen(r.calls[n], k).admitted)
  {
    hide LimitOf, Prune;
    assert StepAt(l, r, n);
    StepEnabled(l, r.states[n], r.calls[n], k);
  }

  /** A call that admits a key found its pruned queue below the limit. */
  lemma QueueBelow(l: Limits, r: Run, f: nat, k: string)
    requires ValidLimits(l) && IsRun(l, r) && f < |r.calls| && Seen(r.calls[f], k).admitted
    ensures |DropExpired(KeyReplay(Span(l), History(r.calls[..f], k)), r.calls[f].now - Span(l))| < LimitOf(l, k)
  {
    hide LimitOf, Legal, Apply, KeyReplay, KeyLegal, DropExpired, Span, ValidLimits;
    assert StepAt(l, r, f);
    StepEnabled(l, r.states[f], r.calls[f], k);
    BucketFollowsHistory(l, r, f, k);
  }

  // ---- Last accesses ----

  lemma {:induction false} RecordAccess(b: Buckets, keys: seq<string>, now: int, u: string)
    requires u in Record(b, keys, now)
    ensures u in keys || u in b
    ensures Record(b, keys, now)[u].lastAccess == if u in keys then now else b[u].lastAccess
    decreases |keys|
  {
    if keys != [] {
      RecordAccess(b[keys[0] := Bucket(Attempts(b, keys[0]) + [now], now)], keys[1..], now, u);
    }
  }

  lemma StepAccess(l: Limits, s: State, c: Call, u: string)
    requires u in Apply(l, s, c).buckets
    ensures (c.Admit? && u in c.keys) || u in s.buckets
    ensures Apply(l, s, c).buckets[u].lastAccess == if c.Admit? && u in c.keys then c.now else s.buckets[u].lastAccess
  {
    hide DropExpired, Record;
    if c.Admit? {
      RecordAccess(Without(Prune(s.buckets, c.now - Span(l)), c.victims), c.keys, c.now, u);
    }
  }

  /** A bucket's last access is the time of the last admission that named its key. */
  lemma {:induction false} LastAccessIs(l: Limits, r: Run, n: nat, u: string) returns (j: nat)
    requires IsRun(l, r) && n <= |r.calls| && u in r.states[n].buckets
    ensures j < n && r.calls[j].Admit? && u in r.calls[j].keys && r.calls[j].now == r.states[n].buckets[u].lastAccess
    ensures forall m :: j < m < n ==> !(r.calls[m].Admit? && u in r.calls[m].keys)
  {
    hide Apply, Legal;
    assert n > 0;
    assert StepAt(l, r, n - 1);
    StepAccess(l, r.states[n - 1], r.calls[n - 1], u);
    if r.calls[n - 1].Admit? && u in r.calls[n - 1].keys {
      j := n - 1;
    } else {
      j := LastAccessIs(l, r, n - 1, u);
    }
  }

  // ---- Least-recently-used eviction reaches a key only past everything accessed before it ----

  /** The buckets that may be evicted. */
  function Unprotected(b: Buckets, keys: seq<string>): set<string> { b.Keys - KeySet(keys) }

  lemma SizeByProtection(b: Buckets, keys: seq<string>)
    requires Distinct(keys)
    ensures |b| + Missing(b, keys) == |Unprotected(b, keys)| + |keys|
  {
    MissingCount(b, keys);
    assert b.Keys == Unprotected(b, keys) + b.Keys * KeySet(keys);
  }

  lemma {:induction false} SeqSetSize(s: seq<string>)
    ensures |KeySet(s)| <= |s|
  {
    if s != [] {
      SeqSetSize(s[1..]);
      assert s == [s[0]] + s[1..];
      assert KeySet(s) == {s[0]} + KeySet(s[1..]);
      UnionSize({s[0]}, KeySet(s[1..]));
    } else {
      assert KeySet(s) == {};
    }
  }

  /** When `k` is a victim, all but the earlier victims were accessed no earlier than it. */
  lemma VictimBound(l: Limits, b: Buckets, keys: seq<string>, victims: seq<string>, k: string, later: set<string>)
    requires LegalAdmit(l, b, keys, victims) && k in victims && k in b && |victims| > 0
    requires l.maximumBuckets <= |b| + Missing(b, keys)
    requires forall u :: u in b && u !in keys && b[u].lastAccess >= b[k].lastAccess ==> u in later
    ensures l.maximumBuckets <= |later| + 3
  {
    hide FourKeys, NoneFull, Missing, KeySet;
    FourDistinctFour(l, keys);
    var q :| 0 <= q < |victims| && victims[q] == k;
    assert VictimAt(b, keys, victims, q);
    SizeByProtection(b, keys);
    assert Unprotected(b, keys) <= later + KeySet(victims[..q]) by { UnprotectedCovered(b, keys, victims, q, later); }
    SubsetSize(Unprotected(b, keys), later + KeySet(victims[..q]));
    UnionSize(later, KeySet(victims[..q]));
    SeqSetSize(victims[..q]);
  }

  lemma FourDistinctFour(l: Limits, keys: seq<string>)
    requires FourKeys(l, keys)
    ensures Distinct(keys) && |keys| == 4 && GLOBAL_KEY in keys
  {
    FourDistinct(l, keys);
    assert keys[0] == GLOBAL_KEY;
  }

  lemma UnprotectedCovered(b: Buckets, keys: seq<string>, victims: seq<string>, q: nat, later: set<string>)
    requires q < |victims| && VictimAt(b, keys, victims, q) && GLOBAL_KEY in keys
    requires forall u :: u in b && u !in keys && b[u].lastAccess >= b[victims[q]].lastAccess ==> u in later
    ensures Unprotected(b, keys) <= later + KeySet(victims[..q])
  {
    var left := Without(b, victims[..q]);
    forall u | u in Unprotected(b, keys) && u !in victims[..q] ensures u in later {
      assert u in left && !Exempt(keys, u);
    }
  }

  lemma PrunedAccess(b: Buckets, cutoff: int, u: string)
    requires u in Prune(b, cutoff)
    ensures u in b && Prune(b, cutoff)[u].lastAccess == b[u].lastAccess
  {
  }

  /** The buckets that were there when a run evicted `k`, by the admissions since `k`'s last. */
  lemma EvictionNeedsBuckets(l: Limits, r: Run, e: nat, k: string) returns (j: nat)
    requires ValidLimits(l) && IsRun(l, r) && e < |r.calls| && r.calls[e].Admit? && k in r.calls[e].victims
    ensures j < e && r.calls[j].Admit? && k in r.calls[j].keys
    ensures forall m :: j < m < e ==> !(r.calls[m].Admit? && k in r.calls[m].keys)
    ensures k != GLOBAL_KEY && k !in r.calls[e].keys
    ensures var x := r.calls[j].now - 1;
            l.maximumBuckets <= 4 + 2 * With(r.calls[..e], x, k) + 3 * Others(r.calls[..e], x, k)
  {
    hide FourKeys, LegalAdmit, Prune, With, Others, Touched, Record, Apply;
    var call := r.calls[e];
    var b := Prune(r.states[e].buckets, call.now - Span(l));
    assert StepAt(l, r, e);
    VictimFacts(l, b, call.keys, call.victims, k);
    PrunedAccess(r.states[e].buckets, call.now - Span(l), k);
    j := LastAccessIs(l, r, e, k);
    var x := r.calls[j].now - 1;
    var t := Touched(r.calls[..e], x) - {GLOBAL_KEY};
    forall u | u in b && u !in call.keys && b[u].lastAccess >= b[k].lastAccess ensures u in t {
      PrunedAccess(r.states[e].buckets, call.now - Span(l), u);
      var i := LastAccessIs(l, r, e, u);
      assert r.calls[..e][i] == r.calls[i] && AdmitAfter(r.calls[..e][i], x);
      TouchedIff(r.calls[..e], x, u);
    }
    VictimBound(l, b, call.keys, call.victims, k, t);
    RunIsFourKeyed(l, r);
    PrefixFourKeyed(l, r.calls, e);
    TouchedBound(l, r.calls[..e], x, k);
    OneMore(Touched(r.calls[..e], x), k);
  }

  lemma OneMore(t: set<string>, k: string)
    ensures |t - {GLOBAL_KEY}| <= |t - {GLOBAL_KEY, k}| + 1
  {
    SubsetSize(t - {GLOBAL_KEY}, t - {GLOBAL_KEY, k} + {k});
    UnionSize(t - {GLOBAL_KEY, k}, {k});
  }

  lemma VictimFacts(l: Limits, b: Buckets, keys: seq<string>, victims: seq<string>, k: string)
    requires LegalAdmit(l, b, keys, victims) && k in victims
    ensures k in b && k != GLOBAL_KEY && k !in keys && l.maximumBuckets <= |b| + Missing(b, keys) && GLOBAL_KEY in keys
  {
    hide LimitOf, NoneFull;
    VictimsAreUnprotected(b, keys, victims);
    FourDistinctFour(l, keys);
  }

  // ---- Counting at the admission above the limit ----

  lemma {:induction false} CountsGrow(calls: seq<Call>, e: nat, x: int, c: int, k: string)
    requires e <= |calls| && c <= x
    ensures With(calls[..e], x, k) <= With(calls, c, k)
    ensures Others(calls[..e], x, k) <= Others(calls, c, k)
    ensures e < |calls| && AdmitAfter(calls[e], c) && k !in calls[e].keys ==>
              Others(calls[..e], x, k) < Others(calls, c, k)
    decreases |calls|
  {
    if calls != [] {
      var n := |calls| - 1;
      var init := calls[..n];
      if e <= n {
        CountsGrow(init, e, x, c, k);
        assert init[..e] == calls[..e];
      } else {
        CountsGrow(init, n, x, c, k);
        assert calls[..e] == calls && init[..n] == init;
      }
    }
  }

  lemma WithAtLeast(calls: seq<Call>, s: nat, c: int, k: string)
    requires s <= |calls| && forall i :: s <= i < |calls| ==> calls[i].now > c
    ensures With(calls, c, k) >= |Admissions(History(calls, k)[s..])|
  {
    var h := History(calls, k);
    RecentCountsWith(calls, c, k);
    assert h == h[..s] + h[s..];
    AdmissionsConcat(h[..s], h[s..]);
    RecentConcat(Admissions(h[..s]), Admissions(h[s..]), c);
    AdmissionsLater(h[s..], c);
  }

  /** Some limit can be exceeded: the key whose limit is `limit` needs that many admissions,
      one of another attempt that evicts it, and one more; and the table must overflow. */
  predicate Exceedable(l: Limits, limit: nat) {
    limit + 2 <= l.global && l.maximumBuckets + limit + 2 <= 3 * l.global
  }

  lemma ExcessArithmetic(l: Limits, limit: nat, w1: nat, o1: nat, w2: nat, o2: nat)
    requires l.maximumBuckets <= 4 + 2 * w1 + 3 * o1
    requires w1 <= w2 && o1 < o2 && limit <= w2 && w2 + o2 < l.global
    ensures Exceedable(l, limit)
  {
  }

  lemma TwoAdmissions(l: Limits, r: Run, k: string, i: nat) returns (s: nat, f: nat)
    requires ValidLimits(l) && IsRun(l, r) && LimitOf(l, k) > 0
    requires i + LimitOf(l, k) < |Admissions(History(r.calls, k))|
    ensures s < f < |r.calls| && Seen(r.calls[s], k).admitted && Seen(r.calls[f], k).admitted
    ensures r.calls[s].now == Admissions(History(r.calls, k))[i]
    ensures r.calls[f].now == Admissions(History(r.calls, k))[i + LimitOf(l, k)]
    ensures |Admissions(History(r.calls[..f], k)[s..])| == LimitOf(l, k)
  {
    hide LimitOf, StepAt, Admissions;
    var h := History(r.calls, k);
    s := AdmissionAt(h, i);
    f := AdmissionAt(h, i + LimitOf(l, k));
    if f <= s {
      AdmissionsGrow(h, f, s);
      assert false;
    }
    AdmissionsGrow(h, s, f);
    assert History(r.calls[..f], k)[s..] == h[s..f] by {
      assert forall m :: 0 <= m < f ==> History(r.calls[..f], k)[m] == h[m];
    }
  }

  /** A key other than the global one is admitted above its limit only if the limits allow it. */
  lemma ExceededIsExceedable(l: Limits, r: Run, k: string, i: nat)
    requires ValidLimits(l) && IsRun(l, r) && ClockForward(r.calls) && k != GLOBAL_KEY && LimitOf(l, k) > 0
    requires i + LimitOf(l, k) < |Admissions(History(r.calls, k))|
    requires Admissions(History(r.calls, k))[i + LimitOf(l, k)] - Admissions(History(r.calls, k))[i] < Span(l)
    ensures Exceedable(l, LimitOf(l, k))
  {
    hide LimitOf, StepAt, Admissions, With, Others, Prune, Attempts, Exceedable, FourKeyed;
    var s, f := TwoAdmissions(l, r, k, i);
    var e := EvictedBetween(l, r, k, s, f);
    var j := EvictionNeedsBuckets(l, r, e, k);
    var x, c := r.calls[j].now - 1, r.calls[f].now - Span(l);
    assert s <= j;
    assert r.calls[s].now <= r.calls[j].now && r.calls[s].now <= r.calls[e].now;
    var calls := r.calls[..f];
    assert calls[..e] == r.calls[..e] && calls[e] == r.calls[e];
    CountsGrow(calls, e, x, c, k);
    forall m | s <= m < f ensures calls[m].now > c { assert r.calls[s].now <= r.calls[m].now; }
    WithAtLeast(calls, s, c, k);
    AdmitSeesGlobalBelow(l, r, f);
    RunIsFourKeyed(l, r);
    PrefixFourKeyed(l, r.calls, f);
    GlobalIsNamed(l, calls, c, k);
    ExcessArithmetic(l, LimitOf(l, k), With(calls[..e], x, k), Others(calls[..e], x, k), With(calls, c, k), Others(calls, c, k));
  }
}
