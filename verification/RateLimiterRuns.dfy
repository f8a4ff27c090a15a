/** The login rate limiter: a sliding window over four keys per attempt, with
    least-recently-used eviction. Times are nanoseconds of a steady clock.

    A `Run` is a sequence of `Call`s with the states between them, and `IsRun` says which
    runs the code can produce; iteration order of the hash map is not fixed, so the
    victims of an eviction are part of the call. */
module RateLimiterRuns {
  import opened Duration
  import opened AttemptWindow

  datatype Limits = Limits(
    perAddress: nat,
    perIdentity: nat,
    perAddressAndIdentity: nat,
    global: nat,
    maximumBuckets: nat,
    window: int)  // seconds

  predicate ValidLimits(l: Limits) {
    && l.perAddress != 0 && l.perIdentity != 0
    && l.perAddressAndIdentity != 0 && l.global != 0
    && l.maximumBuckets >= 4 && l.window > 0
  }

  function Span(l: Limits): int { Nanos(l.window) }

  datatype Bucket = Bucket(attempts: seq<int>, lastAccess: int)
  type Buckets = map<string, Bucket>
  datatype State = State(buckets: Buckets, rejections: nat, evictions: nat)

  const GLOBAL_KEY := "global"

  function Keys(address: string, identity: string): (keys: seq<string>)
    ensures |keys| == 4
  {
    [GLOBAL_KEY, "address:" + address, "identity:" + identity, "pair:" + address + ":" + identity]
  }

  function LimitAt(l: Limits, i: nat): nat
    requires i < 4
  {
    if i == 0 then l.global else if i == 1 then l.perAddress
    else if i == 2 then l.perIdentity else l.perAddressAndIdentity
  }

  /** The limit a key is held to; the four prefixes differ in their first letter. */
  function LimitOf(l: Limits, k: string): nat {
    if k == "" then 0
    else if k[0] == 'g' then l.global
    else if k[0] == 'a' then l.perAddress
    else if k[0] == 'i' then l.perIdentity
    else l.perAddressAndIdentity
  }

  /** What the limiter relies on about the four keys of an attempt. */
  predicate FourKeys(l: Limits, keys: seq<string>) {
    && |keys| == 4 && keys[0] == GLOBAL_KEY
    && keys[0] != keys[1] && keys[0] != keys[2] && keys[0] != keys[3]
    && keys[1] != keys[2] && keys[1] != keys[3] && keys[2] != keys[3]
    && forall i :: 0 <= i < 4 ==> LimitOf(l, keys[i]) == LimitAt(l, i)
  }

  lemma KeysAreFour(l: Limits, address: string, identity: string)
    ensures FourKeys(l, Keys(address, identity))
  {
    var keys := Keys(address, identity);
    assert keys[0][0] == 'g' && keys[1][0] == 'a' && keys[2][0] == 'i' && keys[3][0] == 'p';
  }

  // ---- What one call does ----

  function Prune(b: Buckets, cutoff: int): Buckets {
    map k | k in b && DropExpired(b[k].attempts, cutoff) != [] ::
      Bucket(DropExpired(b[k].attempts, cutoff), b[k].lastAccess)
  }

  function Attempts(b: Buckets, k: string): seq<int> {
    if k in b then b[k].attempts else []
  }

  predicate Full(b: Buckets, key: string, limit: nat) {
    key in b && |b[key].attempts| >= limit
  }

  predicate Exempt(keys: seq<string>, k: string) {
    k == GLOBAL_KEY || k in keys
  }

  /** `v` has the least last access among the buckets that may be evicted. */
  predicate Oldest(b: Buckets, keys: seq<string>, v: string) {
    && v in b && !Exempt(keys, v)
    && forall k :: k in b && !Exempt(keys, k) ==> b[v].lastAccess <= b[k].lastAccess
  }

  function Without(b: Buckets, victims: seq<string>): Buckets {
    map k | k in b && k !in victims :: b[k]
  }

  predicate VictimAt(b: Buckets, keys: seq<string>, victims: seq<string>, i: nat)
    requires i < |victims|
  {
    Oldest(Without(b, victims[..i]), keys, victims[i])
  }

  /** Each victim is the oldest among what the earlier ones left. */
  predicate LruVictims(b: Buckets, keys: seq<string>, victims: seq<string>) {
    forall i :: 0 <= i < |victims| ==> VictimAt(b, keys, victims, i)
  }

  function Missing(b: Buckets, keys: seq<string>): nat {
    if keys == [] then 0 else (if keys[0] in b then 0 else 1) + Missing(b, keys[1..])
  }

  /** How many buckets must go before the current keys fit. */
  function Excess(l: Limits, b: Buckets, keys: seq<string>): nat {
    var wanted := |b| + Missing(b, keys);
    if wanted > l.maximumBuckets then wanted - l.maximumBuckets else 0
  }

  function Record(b: Buckets, keys: seq<string>, now: int): Buckets
    decreases |keys|
  {
    if keys == [] then b
    else Record(b[keys[0] := Bucket(Attempts(b, keys[0]) + [now], now)], keys[1..], now)
  }

  datatype Call =
    | Admit(keys: seq<string>, now: int, victims: seq<string>)
    | Reject(keys: seq<string>, now: int, index: nat)
    | Sweep(now: int)

  /** None of the first `n` keys has a full bucket. */
  predicate NoneFull(l: Limits, b: Buckets, keys: seq<string>, n: nat)
    requires n <= 4 == |keys|
  {
    forall i :: 0 <= i < n ==> !Full(b, keys[i], LimitAt(l, i))
  }

  predicate LegalAdmit(l: Limits, b: Buckets, keys: seq<string>, victims: seq<string>) {
    && FourKeys(l, keys)
    && NoneFull(l, b, keys, 4)
    && LruVictims(b, keys, victims)
    && |victims| == Excess(l, b, keys)
  }

  predicate LegalReject(l: Limits, b: Buckets, keys: seq<string>, index: nat) {
    && FourKeys(l, keys) && index < 4
    && Full(b, keys[index], LimitAt(l, index))
    && NoneFull(l, b, keys, index)
  }

  predicate Legal(l: Limits, s: State, c: Call) {
    var b := Prune(s.buckets, c.now - Span(l));
    match c
    case Admit(keys, _, victims) => LegalAdmit(l, b, keys, victims)
    case Reject(keys, _, index) => LegalReject(l, b, keys, index)
    case Sweep(_) => true
  }

  function Apply(l: Limits, s: State, c: Call): State {
    var b := Prune(s.buckets, c.now - Span(l));
    match c
    case Admit(keys, now, victims) =>
      State(Record(Without(b, victims), keys, now), s.rejections, s.evictions + |victims|)
    case Reject(_, _, _) => State(b, s.rejections + 1, s.evictions)
    case Sweep(_) => State(b, s.rejections, s.evictions)
  }

  /** A run: the calls and the states between them. */
  datatype Run = Run(calls: seq<Call>, states: seq<State>)

  predicate StepAt(l: Limits, r: Run, i: nat)
    requires i < |r.calls| == |r.states| - 1
  {
    Legal(l, r.states[i], r.calls[i]) && r.states[i + 1] == Apply(l, r.states[i], r.calls[i])
  }

  predicate IsRun(l: Limits, r: Run) {
    && |r.states| == |r.calls| + 1
    && r.states[0] == State(map[], 0, 0)
    && forall i :: 0 <= i < |r.calls| ==> StepAt(l, r, i)
  }

  function Final(r: Run): State
    requires |r.states| == |r.calls| + 1
  {
    r.states[|r.calls|]
  }

  function Prefix(r: Run, n: nat): Run
    requires n <= |r.calls| == |r.states| - 1
  {
    Run(r.calls[..n], r.states[..n + 1])
  }

  function Extend(r: Run, c: Call, s: State): Run {
    Run(r.calls + [c], r.states + [s])
  }

  lemma PrefixIsRun(l: Limits, r: Run, n: nat)
    requires IsRun(l, r) && n <= |r.calls|
    ensures IsRun(l, Prefix(r, n)) && Final(Prefix(r, n)) == r.states[n]
  {
    var p := Prefix(r, n);
    forall i | 0 <= i < n ensures StepAt(l, p, i) {
      assert StepAt(l, r, i);
      assert p.states[i] == r.states[i] && p.states[i + 1] == r.states[i + 1] && p.calls[i] == r.calls[i];
    }
  }

  lemma RunGrows(l: Limits, r: Run, c: Call, s: State)
    requires IsRun(l, r) && Legal(l, Final(r), c) && s == Apply(l, Final(r), c)
    ensures IsRun(l, Extend(r, c, s)) && Final(Extend(r, c, s)) == s
  {
    var e := Extend(r, c, s);
    forall i | 0 <= i < |e.calls| ensures StepAt(l, e, i) {
      if i < |r.calls| { assert StepAt(l, r, i); }
    }
  }

  // ---- Capacity: no premise about the clock ----

  predicate Distinct(ks: seq<string>) {
    forall i, j :: 0 <= i < j < |ks| ==> ks[i] != ks[j]
  }

  lemma VictimsAreUnprotected(b: Buckets, keys: seq<string>, victims: seq<string>)
    requires LruVictims(b, keys, victims)
    ensures forall v :: v in victims ==> v in b && !Exempt(keys, v)
    ensures Distinct(victims)
  {
    forall i | 0 <= i < |victims| ensures victims[i] in b && !Exempt(keys, victims[i]) {
      assert VictimAt(b, keys, victims, i);
    }
    forall i, j | 0 <= i < j < |victims| ensures victims[i] != victims[j] {
      assert VictimAt(b, keys, victims, j);
      assert victims[i] == victims[..j][i];
    }
  }

  lemma {:induction false} WithoutSize(b: Buckets, victims: seq<string>)
    requires Distinct(victims) && forall v :: v in victims ==> v in b
    ensures |Without(b, victims)| == |b| - |victims|
  {
    if victims == [] {
      assert Without(b, victims) == b;
    } else {
      var init, v := victims[..|victims| - 1], victims[|victims| - 1];
      WithoutSize(b, init);
      var before, after := Without(b, init), Without(b, victims);
      assert before == after[v := b[v]];
      assert v !in after;
    }
  }

  lemma {:induction false} RecordSize(b: Buckets, keys: seq<string>, now: int)
    requires Distinct(keys)
    ensures |Record(b, keys, now)| == |b| + Missing(b, keys)
    decreases |keys|
  {
    if keys != [] {
      var b' := b[keys[0] := Bucket(Attempts(b, keys[0]) + [now], now)];
      RecordSize(b', keys[1..], now);
      MissingAgrees(b, b', keys[1..]);
    }
  }

  lemma {:induction false} MissingAgrees(b: Buckets, b': Buckets, keys: seq<string>)
    requires forall k :: k in keys ==> (k in b <==> k in b')
    ensures Missing(b, keys) == Missing(b', keys)
  {
    if keys != [] { MissingAgrees(b, b', keys[1..]); }
  }

  lemma FourDistinct(l: Limits, keys: seq<string>)
    requires FourKeys(l, keys)
    ensures Distinct(keys)
  {
  }

  lemma KeysNotFull(l: Limits, b: Buckets, keys: seq<string>, k: string)
    requires ValidLimits(l) && FourKeys(l, keys) && NoneFull(l, b, keys, 4) && k in keys
    ensures |Attempts(b, k)| < LimitOf(l, k)
  {
    var i :| 0 <= i < 4 && keys[i] == k;
    assert !Full(b, keys[i], LimitAt(l, i));
  }

  lemma AdmitFits(l: Limits, b: Buckets, keys: seq<string>, victims: seq<string>, now: int)
    requires LegalAdmit(l, b, keys, victims) && |b| <= l.maximumBuckets
    ensures |Record(Without(b, victims), keys, now)| <= l.maximumBuckets
  {
    VictimsAreUnprotected(b, keys, victims);
    FourDistinct(l, keys);
    WithoutSize(b, victims);
    MissingAgrees(b, Without(b, victims), keys);
    RecordSize(Without(b, victims), keys, now);
  }

  lemma PruneSize(b: Buckets, cutoff: int)
    ensures |Prune(b, cutoff)| <= |b|
  {
    var p := Prune(b, cutoff);
    assert b.Keys == p.Keys + (b.Keys - p.Keys);
  }

  lemma StepFits(l: Limits, s: State, c: Call)
    requires |s.buckets| <= l.maximumBuckets && Legal(l, s, c)
    ensures |Apply(l, s, c).buckets| <= l.maximumBuckets
  {
    var b := Prune(s.buckets, c.now - Span(l));
    PruneSize(s.buckets, c.now - Span(l));
    if c.Admit? { AdmitFits(l, b, c.keys, c.victims, c.now); }
  }

  /** In every run the number of buckets stays within the limit. */
  lemma {:induction false} CapacityHolds(l: Limits, r: Run, n: nat)
    requires IsRun(l, r) && n <= |r.calls|
    ensures |r.states[n].buckets| <= l.maximumBuckets
  {
    if n > 0 {
      CapacityHolds(l, r, n - 1);
      assert StepAt(l, r, n - 1);
      StepFits(l, r.states[n - 1], r.calls[n - 1]);
    }
  }

  /** In every run every bucket is within the limit of its key. */
  lemma BucketsStayWithinLimits(l: Limits, r: Run, n: nat, k: string)
    requires ValidLimits(l) && IsRun(l, r) && n <= |r.calls|
    ensures |Attempts(r.states[n].buckets, k)| <= LimitOf(l, k)
  {
    BucketFollowsHistory(l, r, n, k);
    QueueWithinLimit(Span(l), LimitOf(l, k), History(r.calls[..n], k));
  }

  /** While the current keys do not fit there is a bucket that may be evicted: the
      "capacity exhausted" exception cannot be thrown. */
  lemma SomethingToEvict(l: Limits, b: Buckets, keys: seq<string>)
    requires ValidLimits(l) && FourKeys(l, keys)
    requires |b| + Missing(b, keys) > l.maximumBuckets
    ensures exists k :: k in b && !Exempt(keys, k)
  {
    FourDistinct(l, keys);
    Pigeonhole(b.Keys, b, keys);
    var k :| k in b.Keys && k !in keys;
    assert !Exempt(keys, k);
  }

  lemma {:induction false} Pigeonhole(s: set<string>, b: Buckets, keys: seq<string>)
    requires Distinct(keys) && |s| + Missing(b, keys) > |keys| && s <= b.Keys
    ensures exists k :: k in s && k !in keys
    decreases |keys|
  {
    if keys == [] {
      var k :| k in s;
    } else {
      if keys[0] in s { assert |s - {keys[0]}| == |s| - 1; } else { assert s - {keys[0]} == s; }
      Pigeonhole(s - {keys[0]}, b, keys[1..]);
      var k :| k in s - {keys[0]} && k !in keys[1..];
      assert k !in keys;
    }
  }

  // ---- One key at a time ----

  /** What a call means for key `k`. */
  function Seen(c: Call, k: string): KeyEvent {
    KeyEvent(c.now, c.Admit? && k in c.victims, c.Admit? && k in c.keys)
  }

  function History(tr: seq<Call>, k: string): (h: seq<KeyEvent>)
    ensures |h| == |tr| && forall i :: 0 <= i < |tr| ==> h[i] == Seen(tr[i], k)
  {
    if tr == [] then [] else History(tr[..|tr| - 1], k) + [Seen(tr[|tr| - 1], k)]
  }

  lemma HistoryConcat(s: seq<Call>, more: seq<Call>, k: string)
    ensures History(s + more, k) == History(s, k) + History(more, k)
  {
  }

  /** Buckets do not influence each other: the bucket of `k` is what its own history gives. */
  lemma {:induction false} BucketFollowsHistory(l: Limits, r: Run, n: nat, k: string)
    requires ValidLimits(l) && IsRun(l, r) && n <= |r.calls|
    ensures Attempts(r.states[n].buckets, k) == KeyReplay(Span(l), History(r.calls[..n], k))
    ensures KeyLegal(Span(l), LimitOf(l, k), History(r.calls[..n], k))
  {
    if n > 0 {
      var s, c := r.states[n - 1], r.calls[n - 1];
      BucketFollowsHistory(l, r, n - 1, k);
      assert StepAt(l, r, n - 1);
      if c.Admit? { FourDistinct(l, c.keys); }
      StepAttempts(l, s, c, k);
      StepEnabled(l, s, c, k);
      HistoryStep(r.calls, n, k);
    }
  }

  lemma HistoryStep(calls: seq<Call>, n: nat, k: string)
    requires 0 < n <= |calls|
    ensures var h := History(calls[..n], k);
            h[..n - 1] == History(calls[..n - 1], k) && h[n - 1] == Seen(calls[n - 1], k)
  {
    assert calls[..n][..n - 1] == calls[..n - 1];
  }

  lemma StepAttempts(l: Limits, s: State, c: Call, k: string)
    requires c.Admit? ==> Distinct(c.keys)
    ensures Attempts(Apply(l, s, c).buckets, k) == KeyStep(Span(l), Attempts(s.buckets, k), Seen(c, k))
  {
    PruneAttempts(s.buckets, c.now - Span(l), k);
    if c.Admit? {
      var b := Without(Prune(s.buckets, c.now - Span(l)), c.victims);
      RecordAttempts(b, c.keys, c.now, k);
    }
  }

  lemma StepEnabled(l: Limits, s: State, c: Call, k: string)
    requires ValidLimits(l) && Legal(l, s, c)
    ensures KeyEnabled(Span(l), LimitOf(l, k), Attempts(s.buckets, k), Seen(c, k))
  {
    PruneAttempts(s.buckets, c.now - Span(l), k);
    if c.Admit? && k in c.keys {
      AdmitEnabled(l, Prune(s.buckets, c.now - Span(l)), c.keys, c.victims, k);
    }
  }

  lemma AdmitEnabled(l: Limits, b: Buckets, keys: seq<string>, victims: seq<string>, k: string)
    requires ValidLimits(l) && LegalAdmit(l, b, keys, victims) && k in keys
    ensures k !in victims && |Attempts(b, k)| < LimitOf(l, k)
  {
    VictimsAreUnprotected(b, keys, victims);
    KeysNotFull(l, b, keys, k);
  }

  lemma PruneAttempts(b: Buckets, cutoff: int, k: string)
    ensures Attempts(Prune(b, cutoff), k) == DropExpired(Attempts(b, k), cutoff)
  {
  }

  lemma {:induction false} RecordAttempts(b: Buckets, keys: seq<string>, now: int, k: string)
    requires Distinct(keys)
    ensures Attempts(Record(b, keys, now), k) == AppendIf(Attempts(b, k), k in keys, now)
    decreases |keys|
  {
    if keys != [] {
      RecordAttempts(b[keys[0] := Bucket(Attempts(b, keys[0]) + [now], now)], keys[1..], now, k);
    }
  }

  predicate ClockForward(calls: seq<Call>) {
    forall i, j :: 0 <= i < j < |calls| ==> calls[i].now <= calls[j].now
  }

  lemma HistoryForward(calls: seq<Call>, k: string)
    requires ClockForward(calls)
    ensures TimesForward(History(calls, k))
  {
  }

  predicate Evicted(calls: seq<Call>, k: string) {
    exists i :: 0 <= i < |calls| && calls[i].Admit? && k in calls[i].victims
  }

  lemma FollowsHistory(l: Limits, r: Run, k: string)
    requires ValidLimits(l) && IsRun(l, r)
    ensures Attempts(Final(r).buckets, k) == KeyReplay(Span(l), History(r.calls, k))
    ensures KeyLegal(Span(l), LimitOf(l, k), History(r.calls, k))
  {
    BucketFollowsHistory(l, r, |r.calls|, k);
    assert r.calls[..|r.calls|] == r.calls;
  }

  /** Refinement: with a clock that does not go backwards each bucket holds exactly
      the admitted attempts of its key since its last eviction that are newer than
      the cutoff of the last call. */
  lemma BucketsRefineLog(l: Limits, r: Run, k: string)
    requires ValidLimits(l) && IsRun(l, r) && ClockForward(r.calls) && r.calls != []
    ensures Attempts(Final(r).buckets, k)
            == Recent(SinceEviction(History(r.calls, k)), r.calls[|r.calls| - 1].now - Span(l))
  {
    FollowsHistory(l, r, k);
    HistoryForward(r.calls, k);
    KeyRefinesLog(Span(l), History(r.calls, k));
  }

  lemma NeverAVictim(l: Limits, s: State, c: Call)
    requires Legal(l, s, c)
    ensures c.Admit? ==> GLOBAL_KEY !in c.victims
  {
    if c.Admit? { VictimsAreUnprotected(Prune(s.buckets, c.now - Span(l)), c.keys, c.victims); }
  }

  lemma GlobalNeverEvicted(l: Limits, r: Run)
    requires IsRun(l, r)
    ensures !Evicted(r.calls, GLOBAL_KEY)
  {
    forall i | 0 <= i < |r.calls| && r.calls[i].Admit? ensures GLOBAL_KEY !in r.calls[i].victims {
      assert StepAt(l, r, i);
      NeverAVictim(l, r.states[i], r.calls[i]);
    }
  }

  /** The rate limit for the global key in every run, and for any other key in a run that
      never evicted it: any `limit + 1` consecutive admissions span at least the window. */
  lemma RateLimitWithoutEviction(l: Limits, r: Run, k: string, i: nat)
    requires ValidLimits(l) && IsRun(l, r) && ClockForward(r.calls)
    requires k == GLOBAL_KEY || !Evicted(r.calls, k)
    requires i + LimitOf(l, k) < |Admissions(History(r.calls, k))|
    ensures Admissions(History(r.calls, k))[i + LimitOf(l, k)] - Admissions(History(r.calls, k))[i] >= Span(l)
  {
    if k == GLOBAL_KEY { GlobalNeverEvicted(l, r); }
    NeverEvictedKeepsAll(History(r.calls, k));
    RateLimitSinceEviction(l, r, k, i);
  }

  /** For a key that was evicted the same holds of what came after the last eviction. */
  lemma RateLimitSinceEviction(l: Limits, r: Run, k: string, i: nat)
    requires ValidLimits(l) && IsRun(l, r) && ClockForward(r.calls)
    requires i + LimitOf(l, k) < |SinceEviction(History(r.calls, k))|
    ensures SinceEviction(History(r.calls, k))[i + LimitOf(l, k)] - SinceEviction(History(r.calls, k))[i] >= Span(l)
  {
    FollowsHistory(l, r, k);
    HistoryForward(r.calls, k);
    WindowLaw(Span(l), LimitOf(l, k), History(r.calls, k), i);
  }

  // ---- Retry-After ----

  /** The delay a rejection reports, from the state it leaves behind. */
  function ReportedDelay(l: Limits, after: State, c: Call): int
    requires c.Reject? && c.index < |c.keys| && Attempts(after.buckets, c.keys[c.index]) != []
  {
    RetryAfter(Span(l), Attempts(after.buckets, c.keys[c.index])[0], c.now)
  }

  /** The reported delay is the least whole number of seconds beyond the expiry of the
      oldest attempt in the full bucket, and at most one second more than the window
      unless the clock went back. */
  lemma RetryAfterTight(l: Limits, s: State, c: Call)
    requires ValidLimits(l) && c.Reject? && Legal(l, s, c)
    ensures var after := Apply(l, s, c);
            && Attempts(after.buckets, c.keys[c.index]) != []
            && var front := Attempts(after.buckets, c.keys[c.index])[0];
               var seconds := ReportedDelay(l, after, c);
               && seconds >= 1
               && Nanos(seconds - 1) <= front + Span(l) - c.now < Nanos(seconds)
               && (front <= c.now ==> seconds <= l.window + 1)
  {
    DropIsSuffix(Attempts(s.buckets, c.keys[c.index]), c.now - Span(l));
  }

  /** With a clock that does not go back no bucket holds a time ahead of the clock. */
  lemma AttemptsArePast(l: Limits, r: Run, k: string)
    requires ValidLimits(l) && IsRun(l, r) && ClockForward(r.calls) && r.calls != []
    ensures AtMost(Attempts(Final(r).buckets, k), r.calls[|r.calls| - 1].now)
  {
    FollowsHistory(l, r, k);
    HistoryForward(r.calls, k);
    QueueIsPast(Span(l), History(r.calls, k));
  }

  /** In every run with a forward clock every rejection announces between one second and
      the window and one second more. */
  lemma RetryAfterBounded(l: Limits, r: Run, n: nat)
    requires ValidLimits(l) && IsRun(l, r) && ClockForward(r.calls) && n < |r.calls| && r.calls[n].Reject?
    ensures var c := r.calls[n];
            && c.index < |c.keys| && Attempts(r.states[n + 1].buckets, c.keys[c.index]) != []
            && 1 <= ReportedDelay(l, r.states[n + 1], c) <= l.window + 1
  {
    hide ValidLimits, Apply, Legal, Prune, KeyReplay, KeyLegal;
    var c := r.calls[n];
    assert StepAt(l, r, n);
    RejectIsFourKeyed(l, r.states[n], c);
    RetryAfterTight(l, r.states[n], c);
    PrefixIsRun(l, r, n + 1);
    assert Prefix(r, n + 1).calls[n] == c;
    AttemptsArePast(l, Prefix(r, n + 1), c.keys[c.index]);
  }

  lemma RejectIsFourKeyed(l: Limits, s: State, c: Call)
    requires c.Reject? && Legal(l, s, c)
    ensures c.index < |c.keys| == 4
  {
    hide LimitOf, Prune;
  }

  /** Retry-After is sound: whatever calls follow the rejection at `n`, once the announced
      delay has passed and nobody was admitted on that key meanwhile, the bucket that caused
      the rejection is below its limit. No premise about the clock. */
  lemma RetryAfterSound(l: Limits, r: Run, n: nat, k: string, t: int)
    requires ValidLimits(l) && IsRun(l, r) && n < |r.calls|
    requires var c := r.calls[n];
             && c.Reject? && c.index < |c.keys| && k == c.keys[c.index]
             && Attempts(r.states[n + 1].buckets, k) != []
             && t >= c.now + Nanos(ReportedDelay(l, r.states[n + 1], c))
    requires forall c :: c in r.calls[n + 1..] ==> !Seen(c, k).admitted
    ensures |Attempts(Prune(Final(r).buckets, t - Span(l)), k)| < LimitOf(l, k)
  {
    hide StepAt, History, KeyReplay, KeyLegal, DropExpired, Prune, Seen, LimitOf, RetryAfter, Span, Nanos, ValidLimits, Attempts;
    LaterQueue(l, r, n + 1, k);
    NoneAdmitted(r.calls[n + 1..], k);
    RetryDelay(Span(l), LimitOf(l, k), History(r.calls[..n + 1], k), History(r.calls[n + 1..], k), r.calls[n].now, t);
    PruneAttempts(Final(r).buckets, t - Span(l), k);
  }

  lemma NoneAdmitted(calls: seq<Call>, k: string)
    requires forall c :: c in calls ==> !Seen(c, k).admitted
    ensures forall j :: 0 <= j < |History(calls, k)| ==> !History(calls, k)[j].admitted
  {
    hide Seen;
  }

  /** The bucket of `k` after `n` calls and at the end, by the two parts of its history. */
  lemma LaterQueue(l: Limits, r: Run, n: nat, k: string)
    requires ValidLimits(l) && IsRun(l, r) && n <= |r.calls|
    ensures var h1, h2 := History(r.calls[..n], k), History(r.calls[n..], k);
            && Attempts(r.states[n].buckets, k) == KeyReplay(Span(l), h1)
            && Attempts(Final(r).buckets, k) == KeyReplay(Span(l), h1 + h2)
            && KeyLegal(Span(l), LimitOf(l, k), h1)
  {
    BucketFollowsHistory(l, r, n, k);
    FollowsHistory(l, r, k);
    HistoryConcat(r.calls[..n], r.calls[n..], k);
    assert r.calls == r.calls[..n] + r.calls[n..];
  }
}
