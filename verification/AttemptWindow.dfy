/** One key's share of the rate limiter: a queue of admission times that is pruned
    at the front, and the log of admitted attempts it stands for. */
module AttemptWindow {
  import opened Duration

  function DropExpired(a: seq<int>, cutoff: int): seq<int> {
    if a != [] && a[0] <= cutoff then DropExpired(a[1..], cutoff) else a
  }

  lemma {:induction false} DropIsSuffix(a: seq<int>, cutoff: int)
    ensures var r := DropExpired(a, cutoff);
            && |r| <= |a| && r == a[|a| - |r|..]
            && (r != [] ==> r[0] > cutoff)
            && (a != [] && a[0] <= cutoff ==> |r| < |a|)
  {
    if a != [] && a[0] <= cutoff { DropIsSuffix(a[1..], cutoff); }
  }

  datatype KeyEvent = KeyEvent(now: int, evicted: bool, admitted: bool)

  function AppendIf(a: seq<int>, wanted: bool, x: int): seq<int> {
    if wanted then a + [x] else a
  }

  function KeyStep(span: int, a: seq<int>, e: KeyEvent): seq<int> {
    AppendIf(if e.evicted then [] else DropExpired(a, e.now - span), e.admitted, e.now)
  }

  predicate KeyEnabled(span: int, limit: nat, a: seq<int>, e: KeyEvent) {
    e.admitted ==> !e.evicted && |DropExpired(a, e.now - span)| < limit
  }

  function KeyReplay(span: int, es: seq<KeyEvent>): seq<int> {
    if es == [] then [] else KeyStep(span, KeyReplay(span, es[..|es| - 1]), es[|es| - 1])
  }

  predicate KeyLegal(span: int, limit: nat, es: seq<KeyEvent>) {
    es == [] ||
    (KeyLegal(span, limit, es[..|es| - 1]) &&
     KeyEnabled(span, limit, KeyReplay(span, es[..|es| - 1]), es[|es| - 1]))
  }

  /** Times of every admitted attempt. */
  function Admissions(es: seq<KeyEvent>): seq<int> {
    if es == [] then []
    else AppendIf(Admissions(es[..|es| - 1]), es[|es| - 1].admitted, es[|es| - 1].now)
  }

  /** The same, forgetting what came before the last eviction. */
  function SinceEviction(es: seq<KeyEvent>): seq<int> {
    if es == [] then []
    else
      var e := es[|es| - 1];
      AppendIf(if e.evicted then [] else SinceEviction(es[..|es| - 1]), e.admitted, e.now)
  }

  predicate TimesForward(es: seq<KeyEvent>) {
    forall i, j :: 0 <= i < j < |es| ==> es[i].now <= es[j].now
  }

  predicate Sorted(a: seq<int>) {
    forall i, j :: 0 <= i < j < |a| ==> a[i] <= a[j]
  }

  /** The times later than the cutoff. */
  function Recent(a: seq<int>, cutoff: int): seq<int> {
    if a == [] then []
    else if a[0] > cutoff then [a[0]] + Recent(a[1..], cutoff)
    else Recent(a[1..], cutoff)
  }

  lemma {:induction false} RecentAppend(a: seq<int>, x: int, cutoff: int)
    ensures Recent(a + [x], cutoff) == AppendIf(Recent(a, cutoff), x > cutoff, x)
  {
    if a != [] {
      RecentAppend(a[1..], x, cutoff);
      assert (a + [x])[1..] == a[1..] + [x];
    }
  }

  lemma {:induction false} RecentAll(a: seq<int>, cutoff: int)
    requires forall i :: 0 <= i < |a| ==> a[i] > cutoff
    ensures Recent(a, cutoff) == a
  {
    if a != [] { RecentAll(a[1..], cutoff); }
  }

  /** On sorted times popping expired ones off the front keeps exactly the recent ones. */
  lemma {:induction false} DropIsRecent(a: seq<int>, cutoff: int)
    requires Sorted(a)
    ensures DropExpired(a, cutoff) == Recent(a, cutoff)
  {
    if a != [] && a[0] <= cutoff {
      DropIsRecent(a[1..], cutoff);
    } else {
      RecentAll(a, cutoff);
    }
  }

  lemma {:induction false} RecentTwice(a: seq<int>, c0: int, c1: int)
    requires c0 <= c1
    ensures Recent(Recent(a, c0), c1) == Recent(a, c1)
  {
    if a != [] {
      RecentTwice(a[1..], c0, c1);
      if a[0] > c0 { assert ([a[0]] + Recent(a[1..], c0))[1..] == Recent(a[1..], c0); }
    }
  }

  predicate AtMost(a: seq<int>, hi: int) {
    forall i :: 0 <= i < |a| ==> a[i] <= hi
  }

  predicate AtLeast(a: seq<int>, lo: int) {
    forall i :: 0 <= i < |a| ==> a[i] >= lo
  }

  lemma {:induction false} RecentBetween(a: seq<int>, cutoff: int, lo: int, hi: int)
    requires AtLeast(a, lo) && AtMost(a, hi)
    ensures AtLeast(Recent(a, cutoff), lo) && AtMost(Recent(a, cutoff), hi)
  {
    if a != [] { RecentBetween(a[1..], cutoff, lo, hi); }
  }

  lemma {:induction false} RecentSorted(a: seq<int>, cutoff: int)
    requires Sorted(a)
    ensures Sorted(Recent(a, cutoff))
  {
    if a != [] {
      RecentSorted(a[1..], cutoff);
      RecentBetween(a[1..], cutoff, a[0], a[|a| - 1]);
    }
  }

  lemma {:induction false} LogSorted(es: seq<KeyEvent>)
    requires TimesForward(es)
    ensures Sorted(SinceEviction(es))
    ensures es != [] ==> AtMost(SinceEviction(es), es[|es| - 1].now)
    ensures es == [] ==> SinceEviction(es) == []
  {
    if es != [] {
      var init, e := es[..|es| - 1], es[|es| - 1];
      LogSorted(init);
      assert init != [] ==> init[|init| - 1].now <= e.now;
    }
  }

  /** Pruning at every event agrees with pruning the whole log at the last one. */
  lemma {:induction false} KeyRefinesLog(span: int, es: seq<KeyEvent>)
    requires TimesForward(es) && es != [] && span > 0
    ensures KeyReplay(span, es) == Recent(SinceEviction(es), es[|es| - 1].now - span)
    decreases |es|, 0
  {
    var init, e := es[..|es| - 1], es[|es| - 1];
    PrunedQueue(span, init, e.now);
    var kept := if e.evicted then [] else SinceEviction(init);
    if e.admitted { RecentAppend(kept, e.now, e.now - span); }
  }

  /** What an event at `now` finds in the queue after pruning. */
  lemma {:induction false} PrunedQueue(span: int, es: seq<KeyEvent>, now: int)
    requires TimesForward(es) && span > 0 && (es != [] ==> es[|es| - 1].now <= now)
    ensures DropExpired(KeyReplay(span, es), now - span) == Recent(SinceEviction(es), now - span)
    decreases |es|, 1
  {
    if es != [] {
      var last := es[|es| - 1].now;
      KeyRefinesLog(span, es);
      LogSorted(es);
      RecentSorted(SinceEviction(es), last - span);
      DropIsRecent(KeyReplay(span, es), now - span);
      RecentTwice(SinceEviction(es), last - span, now - span);
    }
  }

  lemma {:induction false} QueueWithinLimit(span: int, limit: nat, es: seq<KeyEvent>)
    requires KeyLegal(span, limit, es)
    ensures |KeyReplay(span, es)| <= limit
  {
    if es != [] {
      QueueWithinLimit(span, limit, es[..|es| - 1]);
      DropIsSuffix(KeyReplay(span, es[..|es| - 1]), es[|es| - 1].now - span);
    }
  }

  lemma QueueIsPast(span: int, es: seq<KeyEvent>)
    requires TimesForward(es) && es != [] && span > 0
    ensures AtMost(KeyReplay(span, es), es[|es| - 1].now)
  {
    KeyRefinesLog(span, es);
    LogSorted(es);
    var log := SinceEviction(es);
    if log != [] { RecentBetween(log, es[|es| - 1].now - span, log[0], es[|es| - 1].now); }
  }

  lemma {:induction false} RecentCount(a: seq<int>, cutoff: int, m: nat)
    requires Sorted(a) && m < |a| && a[m] > cutoff
    ensures |Recent(a, cutoff)| >= |a| - m
  {
    if m > 0 {
      RecentCount(a[1..], cutoff, m - 1);
    } else {
      RecentAll(a, cutoff);
    }
  }

  /** The window law: among the attempts admitted since the last eviction, any
      `limit + 1` consecutive ones span at least the window. */
  lemma {:induction false} WindowLaw(span: int, limit: nat, es: seq<KeyEvent>, i: nat)
    requires TimesForward(es) && span > 0 && KeyLegal(span, limit, es)
    requires i + limit < |SinceEviction(es)|
    ensures SinceEviction(es)[i + limit] - SinceEviction(es)[i] >= span
  {
    var init, e := es[..|es| - 1], es[|es| - 1];
    var log := SinceEviction(init);
    if !e.evicted && i + limit < |log| {
      WindowLaw(span, limit, init, i);
    } else {
      assert e.admitted && !e.evicted && i + limit == |log|;
      PrunedQueue(span, init, e.now);
      LogSorted(init);
      if limit > 0 && log[i] > e.now - span { RecentCount(log, e.now - span, i); }
    }
  }

  lemma {:induction false} NeverEvictedKeepsAll(es: seq<KeyEvent>)
    requires forall i :: 0 <= i < |es| ==> !es[i].evicted
    ensures SinceEviction(es) == Admissions(es)
  {
    if es != [] { NeverEvictedKeepsAll(es[..|es| - 1]); }
  }

  /** Without an admission a queue only ever loses attempts, from the front. */
  lemma {:induction false} OnlyShrinks(span: int, es: seq<KeyEvent>, more: seq<KeyEvent>) returns (m: nat)
    requires forall j :: 0 <= j < |more| ==> !more[j].admitted
    ensures m <= |KeyReplay(span, es)| && KeyReplay(span, es + more) == KeyReplay(span, es)[m..]
    decreases |more|
  {
    if more == [] {
      assert es + more == es;
      m := 0;
    } else {
      var init, e := more[..|more| - 1], more[|more| - 1];
      assert (es + more)[..|es + more| - 1] == es + init;
      var a := KeyReplay(span, es);
      var m0 := OnlyShrinks(span, es, init);
      DropIsSuffix(a[m0..], e.now - span);
      var after := if e.evicted then [] else DropExpired(a[m0..], e.now - span);
      m := |a| - |after|;
      assert after == a[m..];
    }
  }

  /** Once its oldest attempt has expired, a queue that admits nothing is below the limit. */
  lemma RetryKey(span: int, limit: nat, es: seq<KeyEvent>, more: seq<KeyEvent>, t: int)
    requires KeyLegal(span, limit, es)
    requires KeyReplay(span, es) != [] && KeyReplay(span, es)[0] <= t - span
    requires forall j :: 0 <= j < |more| ==> !more[j].admitted
    ensures |DropExpired(KeyReplay(span, es + more), t - span)| < limit
  {
    var a := KeyReplay(span, es);
    QueueWithinLimit(span, limit, es);
    var m := OnlyShrinks(span, es, more);
    DropIsSuffix(a[m..], t - span);
    if m == 0 { assert a[m..] == a; }
  }

  function RetryAfter(span: int, front: int, now: int): int {
    var seconds := WholeSeconds(front + span - now) + 1;
    if seconds < 1 then 1 else seconds
  }

  /** After the delay announced at `now` a queue that admits nothing is below its limit. */
  lemma RetryDelay(span: int, limit: nat, es: seq<KeyEvent>, more: seq<KeyEvent>, now: int, t: int)
    requires KeyLegal(span, limit, es) && KeyReplay(span, es) != []
    requires t >= now + Nanos(RetryAfter(span, KeyReplay(span, es)[0], now))
    requires forall j :: 0 <= j < |more| ==> !more[j].admitted
    ensures |DropExpired(KeyReplay(span, es + more), t - span)| < limit
  {
    hide KeyLegal, KeyReplay, DropExpired, RetryAfter, Nanos;
    DelayExceedsRemainder(span, KeyReplay(span, es)[0], now);
    RetryKey(span, limit, es, more, t);
  }

  lemma DelayExceedsRemainder(span: int, front: int, now: int)
    ensures front + span < now + Nanos(RetryAfter(span, front, now))
  {
  }
}
