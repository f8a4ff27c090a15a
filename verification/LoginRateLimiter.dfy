/** The limiter object itself: buckets updated in place, call by call. Every method
    extends the run it stands for by exactly the call it made, so all laws of
    `RateLimiterRuns` hold of every limiter. The steady clock is a parameter. */
module LoginRateLimiter {
  import opened Text
  import opened AttemptWindow
  import opened RateLimiterRuns
  import opened RateLimiterAttempts

  datatype Decision = Decision(
    allowed: bool,
    retryAfter: int,
    scope: string,
    buckets: nat,
    rejections: nat,
    evictions: nat)

  const SCOPES := ["global", "address", "identity", "address_identity"]

  class Limiter {
    const limits: Limits
    var buckets: Buckets
    var rejections: nat
    var evictions: nat
    ghost var run: Run
    ghost var who: seq<Who>

    ghost predicate Running()
      reads this
    {
      && ValidLimits(limits)
      && IsRun(limits, run)
      && Final(run) == State(buckets, rejections, evictions)
    }

    /** The buckets are what the attempts of `who` so far lead to. */
    ghost predicate Valid()
      reads this
    {
      Running() && Attempted(run.calls, who)
    }

    constructor (l: Limits)
      requires ValidLimits(l)
      ensures Valid() && limits == l && run.calls == []
    {
      limits := l;
      buckets, rejections, evictions := map[], 0, 0;
      run := Run([], [State(map[], 0, 0)]);
      who := [];
    }

    /** The public constructor, which throws on a bad configuration. */
    static method Create(l: Limits) returns (limiter: Limiter?)
      ensures limiter != null <==> ValidLimits(l)
      ensures limiter != null ==> fresh(limiter) && limiter.Valid() && limiter.limits == l && limiter.run.calls == []
    {
      if l.perAddress == 0 || l.perIdentity == 0 || l.perAddressAndIdentity == 0 || l.global == 0 ||
         l.maximumBuckets < 4 || l.window <= 0 {
        return null;
      }
      limiter := new Limiter(l);
    }

    method PruneExpiredUnlocked(now: int)
      modifies `buckets
      ensures buckets == Prune(old(buckets), now - Span(limits))
    {
      var cutoff := now - Span(limits);
      var todo := buckets.Keys;
      while todo != {}
        invariant todo <= old(buckets).Keys
        invariant forall k :: k in buckets <==>
          k in old(buckets) && (k in todo || DropExpired(old(buckets)[k].attempts, cutoff) != [])
        invariant forall k :: k in buckets && k in todo ==> buckets[k] == old(buckets)[k]
        invariant forall k :: k in buckets && k !in todo ==>
          buckets[k] == Bucket(DropExpired(old(buckets)[k].attempts, cutoff), old(buckets)[k].lastAccess)
        decreases |todo|
      {
        var k :| k in todo;
        var attempts := buckets[k].attempts;
        while attempts != [] && attempts[0] <= cutoff
          invariant DropExpired(attempts, cutoff) == DropExpired(old(buckets)[k].attempts, cutoff)
          decreases |attempts|
        {
          attempts := attempts[1..];
        }
        if attempts == [] {
          buckets := buckets - {k};
        } else {
          buckets := buckets[k := Bucket(attempts, buckets[k].lastAccess)];
        }
        todo := todo - {k};
      }
    }

    /** The scan inside the eviction loop. */
    method FindOldest(keys: seq<string>) returns (oldest: Option<string>)
      ensures oldest.Some? ==> Oldest(buckets, keys, oldest.value)
      ensures oldest.None? ==> forall k :: k in buckets ==> Exempt(keys, k)
    {
      oldest := None;
      var todo := buckets.Keys;
      while todo != {}
        invariant todo <= buckets.Keys
        invariant oldest.Some? ==> oldest.value in buckets && !Exempt(keys, oldest.value)
        invariant oldest.Some? ==> forall k :: k in buckets && k !in todo && !Exempt(keys, k) ==>
          buckets[oldest.value].lastAccess <= buckets[k].lastAccess
        invariant oldest.None? ==> forall k :: k in buckets && k !in todo ==> Exempt(keys, k)
        decreases |todo|
      {
        var k :| k in todo;
        todo := todo - {k};
        if k == GLOBAL_KEY || k in keys {
          continue;
        }
        if oldest.None? || buckets[k].lastAccess < buckets[oldest.value].lastAccess {
          oldest := Some(k);
        }
      }
    }

    method EnsureCapacityUnlocked(keys: seq<string>) returns (ghost victims: seq<string>)
      requires ValidLimits(limits) && FourKeys(limits, keys)
      modifies `buckets, `evictions
      ensures LruVictims(old(buckets), keys, victims)
      ensures |victims| == Excess(limits, old(buckets), keys)
      ensures buckets == Without(old(buckets), victims)
      ensures evictions == old(evictions) + |victims|
    {
      var missing := 0;
      for index := 0 to |keys|
        invariant missing + Missing(buckets, keys[index..]) == Missing(buckets, keys)
      {
        if keys[index] !in buckets {
          missing := missing + 1;
        }
      }
      victims := [];
      assert Without(buckets, []) == buckets;
      while |buckets| + missing > limits.maximumBuckets
        invariant LruVictims(old(buckets), keys, victims)
        invariant buckets == Without(old(buckets), victims)
        invariant |buckets| == |old(buckets)| - |victims|
        invariant missing == Missing(buckets, keys) == Missing(old(buckets), keys)
        invariant |victims| <= Excess(limits, old(buckets), keys)
        invariant evictions == old(evictions) + |victims|
        decreases |buckets|
      {
        var oldest := FindOldest(keys);
        if oldest.None? {
          // "login rate limiter bucket capacity exhausted"
          SomethingToEvict(limits, buckets, keys);
          assert false;
        }
        ghost var more := victims + [oldest.value];
        EvictOne(old(buckets), keys, victims, oldest.value);
        buckets := buckets - {oldest.value};
        assert buckets == Without(old(buckets), more);
        victims := more;
        evictions := evictions + 1;
      }
    }

    /** The first of the four keys whose bucket is full, or 4. */
    method FindFull(keys: seq<string>) returns (index: nat)
      requires FourKeys(limits, keys)
      ensures index <= 4 && NoneFull(limits, buckets, keys, index)
      ensures index < 4 ==> Full(buckets, keys[index], LimitAt(limits, index))
    {
      var bounds := [limits.global, limits.perAddress, limits.perIdentity, limits.perAddressAndIdentity];
      index := 0;
      while index < 4
        invariant index <= 4 && NoneFull(limits, buckets, keys, index)
      {
        if keys[index] in buckets && |buckets[keys[index]].attempts| >= bounds[index] {
          return;
        }
        index := index + 1;
      }
    }

    /** Pushes `now` onto the bucket of every key. */
    method RecordUnlocked(keys: seq<string>, now: int)
      modifies `buckets
      ensures buckets == Record(old(buckets), keys, now)
    {
      for i := 0 to |keys|
        invariant Record(buckets, keys[i..], now) == Record(old(buckets), keys, now)
      {
        var attempts := if keys[i] in buckets then buckets[keys[i]].attempts else [];
        buckets := buckets[keys[i] := Bucket(attempts + [now], now)];
      }
    }

    /** Between pruning and recording: the run so far, pruned at `now`. */
    ghost predicate Pruned(now: int)
      reads this
    {
      && ValidLimits(limits) && IsRun(limits, run)
      && buckets == Prune(Final(run).buckets, now - Span(limits))
      && rejections == Final(run).rejections && evictions == Final(run).evictions
    }

    method RejectUnlocked(keys: seq<string>, now: int, index: nat) returns (d: Decision)
      requires Pruned(now) && LegalReject(limits, buckets, keys, index)
      modifies this
      ensures Running() && who == old(who) && run.calls == old(run).calls + [Reject(keys, now, index)]
      ensures Answers(d, Reject(keys, now, index))
    {
      rejections := rejections + 1;
      ghost var after := State(buckets, rejections, evictions);
      RunGrows(limits, run, Reject(keys, now, index), after);
      run := Extend(run, Reject(keys, now, index), after);
      var retryAfter := RetryAfter(Span(limits), buckets[keys[index]].attempts[0], now);
      d := Decision(false, retryAfter, SCOPES[index], |buckets|, rejections, evictions);
    }

    method AdmitUnlocked(keys: seq<string>, now: int) returns (d: Decision, ghost victims: seq<string>)
      requires Pruned(now) && FourKeys(limits, keys) && NoneFull(limits, buckets, keys, 4)
      modifies this
      ensures Running() && who == old(who) && run.calls == old(run).calls + [Admit(keys, now, victims)]
      ensures Answers(d, Admit(keys, now, victims))
    {
      victims := EnsureCapacityUnlocked(keys);
      RecordUnlocked(keys, now);
      ghost var after := State(buckets, rejections, evictions);
      AdmitCall(limits, Final(run), old(buckets), Admit(keys, now, victims), after);
      RunGrows(limits, run, Admit(keys, now, victims), after);
      run := Extend(run, Admit(keys, now, victims), after);
      d := Decision(true, 0, "", |buckets|, rejections, evictions);
    }

    /** The decision reports the call that was made and the counters after it. */
    ghost predicate Answers(d: Decision, c: Call)
      reads this
    {
      && !c.Sweep? && (d.allowed <==> c.Admit?)
      && d.buckets == |buckets| && d.rejections == rejections && d.evictions == evictions
      && (c.Admit? ==> d.retryAfter == 0 && d.scope == "")
      && (c.Reject? ==>
            && c.index < |c.keys| == 4 && d.scope == SCOPES[c.index]
            && Attempts(buckets, c.keys[c.index]) != []
            && d.retryAfter == ReportedDelay(limits, State(buckets, rejections, evictions), c))
    }

    method CheckAndRecord(address: string, identity: string, now: int) returns (r: Option<Decision>)
      requires Valid()
      modifies this
      ensures Valid()
      ensures r.None? <==> address == "" || identity == ""
      ensures r.None? ==> unchanged(this)
      ensures r.Some? ==>
        && |run.calls| > 0 && run.calls[..|run.calls| - 1] == old(run).calls
        && var c := run.calls[|run.calls| - 1];
           Answers(r.value, c) && c.now == now && c.keys == Keys(address, identity)
      ensures r.Some? ==> who == old(who) + [Who(address, identity)]
      ensures r.Some? && ClockForward(run.calls) ==>
        && r.value.scope == Word(limits, run.calls, who, |run.calls| - 1, now - Span(limits), Who(address, identity))
        && (r.value.allowed <==> r.value.scope == "")
    {
      hide StepAt, Word;
      if address == "" || identity == "" {
        return None;
      }
      var keys := Keys(address, identity);
      KeysAreFour(limits, address, identity);
      var d := CheckKeys(keys, now);
      who := who + [Who(address, identity)];
      AttemptedMore(old(run).calls, run.calls, old(who), Who(address, identity));
      if ClockForward(run.calls) {
        DecisionIs(limits, run, who, |run.calls| - 1);
      }
      r := Some(d);
    }

    method CheckKeys(keys: seq<string>, now: int) returns (d: Decision)
      requires Running() && FourKeys(limits, keys)
      modifies this
      ensures Running() && who == old(who)
      ensures |run.calls| > 0 && run.calls[..|run.calls| - 1] == old(run).calls
      ensures var c := run.calls[|run.calls| - 1]; Answers(d, c) && c.now == now && c.keys == keys
    {
      PruneExpiredUnlocked(now);
      var index := FindFull(keys);
      if index < 4 {
        d := RejectUnlocked(keys, now, index);
      } else {
        ghost var victims;
        d, victims := AdmitUnlocked(keys, now);
      }
    }

    method PruneExpired(now: int)
      requires Valid()
      modifies this
      ensures Valid() && run.calls == old(run).calls + [Sweep(now)]
    {
      who := who + [Who("", "")];
      AttemptedMore(run.calls, run.calls + [Sweep(now)], old(who), Who("", ""));
      PruneExpiredUnlocked(now);
      ghost var after := State(buckets, rejections, evictions);
      RunGrows(limits, run, Sweep(now), after);
      run := Extend(run, Sweep(now), after);
    }

    method BucketCount() returns (count: nat)
      requires Valid()
      ensures count == |buckets| <= limits.maximumBuckets
    {
      CapacityHolds(limits, run, |run.calls|);
      count := |buckets|;
    }
  }

  lemma AttemptedMore(calls: seq<Call>, more: seq<Call>, who: seq<Who>, w: Who)
    requires Attempted(calls, who) && |more| == |calls| + 1 && more[..|calls|] == calls && AttemptedAt(more[|calls|], w)
    ensures Attempted(more, who + [w])
  {
    hide AttemptedAt;
    forall i | 0 <= i < |more| ensures AttemptedAt(more[i], (who + [w])[i]) {
      if i < |calls| { assert more[i] == more[..|calls|][i]; }
    }
  }

  lemma AdmitCall(l: Limits, s: State, b: Buckets, c: Call, after: State)
    requires c.Admit? && b == Prune(s.buckets, c.now - Span(l))
    requires LegalAdmit(l, b, c.keys, c.victims)
    requires after == State(Record(Without(b, c.victims), c.keys, c.now), s.rejections, s.evictions + |c.victims|)
    ensures Legal(l, s, c) && after == Apply(l, s, c)
  {
  }

  /** One more eviction keeps the victims in least-recently-used order. */
  lemma EvictOne(b: Buckets, keys: seq<string>, victims: seq<string>, v: string)
    requires LruVictims(b, keys, victims) && Oldest(Without(b, victims), keys, v)
    ensures LruVictims(b, keys, victims + [v])
    ensures Without(b, victims + [v]) == Without(b, victims) - {v}
    ensures Missing(Without(b, victims + [v]), keys) == Missing(Without(b, victims), keys)
    ensures |Without(b, victims + [v])| == |Without(b, victims)| - 1
  {
    var more := victims + [v];
    forall i | 0 <= i < |more| ensures VictimAt(b, keys, more, i) {
      if i < |victims| {
        assert VictimAt(b, keys, victims, i);
        assert more[..i] == victims[..i];
      } else {
        assert more[..i] == victims;
      }
    }
    MissingAgrees(Without(b, more), Without(b, victims), keys);
    VictimsAreUnprotected(b, keys, victims);
    VictimsAreUnprotected(b, keys, more);
    WithoutSize(b, victims);
    WithoutSize(b, more);
  }
}
