/** Whole runs of `verify`: any sequence of texts, requirements and times, with the keys
    the verifier holds at each call. */
module AssertionRuns {
  import opened Text
  import opened AssertionClaims
  import opened InternalAssertion
  import ReplayCache

  datatype Call = Call(keys: map<string, string>, text: string, req: Requirements, now: int)

  /** The calls and the replay caches between them. */
  datatype Run = Run(calls: seq<Call>, caches: seq<ReplayCache.Seen>)

  function Serve(scheme: Scheme, call: Call, seen: ReplayCache.Seen): (Outcome, ReplayCache.Seen) {
    Verify(scheme, call.keys, seen, call.text, call.req, call.now)
  }

  ghost predicate StepAt(scheme: Scheme, r: Run, i: nat)
    requires i < |r.calls| == |r.caches| - 1
  {
    r.caches[i + 1] == Serve(scheme, r.calls[i], r.caches[i]).1
  }

  ghost predicate IsRun(scheme: Scheme, r: Run) {
    && |r.caches| == |r.calls| + 1 && r.caches[0] == map[]
    && forall i :: 0 <= i < |r.calls| ==> StepAt(scheme, r, i)
  }

  predicate AcceptedAt(scheme: Scheme, r: Run, i: nat)
    requires i < |r.calls| == |r.caches| - 1
  {
    Serve(scheme, r.calls[i], r.caches[i]).0.Accepted?
  }

  function Examined(scheme: Scheme, call: Call): Outcome {
    Examine(scheme, call.keys, call.text, call.req, call.now)
  }

  /** The call passes every check before the replay cache. */
  predicate Reaches(scheme: Scheme, call: Call) { Examined(scheme, call).Accepted? }

  function ClaimsOf(scheme: Scheme, call: Call): Claims
    requires Reaches(scheme, call)
  {
    Examined(scheme, call).claims
  }

  function Cutoff(call: Call): int { call.now - call.req.clockSkew }

  function AttemptAt(scheme: Scheme, call: Call): ReplayCache.Attempt
    requires Reaches(scheme, call)
  {
    AttemptOf(ClaimsOf(scheme, call), call.req, call.now)
  }

  lemma RunGrows(scheme: Scheme, r: Run, call: Call)
    requires IsRun(scheme, r)
    ensures IsRun(scheme, Run(r.calls + [call], r.caches + [Serve(scheme, call, r.caches[|r.calls|]).1]))
  {
    hide Serve;
    var e := Run(r.calls + [call], r.caches + [Serve(scheme, call, r.caches[|r.calls|]).1]);
    forall i | 0 <= i < |e.calls| ensures StepAt(scheme, e, i) {
      if i < |r.calls| { assert StepAt(scheme, r, i); }
    }
  }

  // ---- The cache's own run inside a run of calls ----

  /** The attempts that reached the cache among the first `n` calls. */
  function CacheRun(scheme: Scheme, r: Run, n: nat): ReplayCache.Run
    requires n <= |r.calls| == |r.caches| - 1
  {
    if n == 0 then ReplayCache.Run([], [map[]])
    else
      var before := CacheRun(scheme, r, n - 1);
      if Reaches(scheme, r.calls[n - 1]) then
        ReplayCache.Run(before.attempts + [AttemptAt(scheme, r.calls[n - 1])], before.caches + [r.caches[n]])
      else before
  }

  /** How many of them there are: where the next one goes. */
  function Position(scheme: Scheme, r: Run, n: nat): nat
    requires n <= |r.calls| == |r.caches| - 1
  {
    |CacheRun(scheme, r, n).attempts|
  }

  lemma OneCall(scheme: Scheme, call: Call, seen: ReplayCache.Seen)
    ensures !Reaches(scheme, call) ==> Serve(scheme, call, seen) == (Examined(scheme, call), seen)
    ensures Reaches(scheme, call) ==>
      && AttemptAt(scheme, call).cutoff < AttemptAt(scheme, call).expiry
      && Serve(scheme, call, seen).1 == ReplayCache.Step(seen, AttemptAt(scheme, call))
      && (Serve(scheme, call, seen).0.Accepted? <==> ReplayCache.Admits(seen, AttemptAt(scheme, call)))
      && (Serve(scheme, call, seen).0.Accepted? ==> Serve(scheme, call, seen).0.claims == ClaimsOf(scheme, call))
  {
    hide Examine, ReplayCache.Step, ReplayCache.Admits, ValidClaims, CheckClaims;
    AcceptedAreSound(scheme, call.keys, call.text, call.req, call.now);
  }

  lemma {:induction false} CacheRunIsRun(scheme: Scheme, r: Run, n: nat)
    requires IsRun(scheme, r) && n <= |r.calls|
    ensures ReplayCache.IsRun(CacheRun(scheme, r, n))
    ensures CacheRun(scheme, r, n).caches[Position(scheme, r, n)] == r.caches[n]
  {
    hide Serve, Reaches, AttemptAt, ReplayCache.Step, ReplayCache.StepAt;
    if n > 0 {
      CacheRunIsRun(scheme, r, n - 1);
      assert StepAt(scheme, r, n - 1);
      var call := r.calls[n - 1];
      OneCall(scheme, call, r.caches[n - 1]);
      if Reaches(scheme, call) { ReplayCache.RunGrows(CacheRun(scheme, r, n - 1), AttemptAt(scheme, call)); }
    } else {
      EmptyCacheRun();
    }
  }

  lemma EmptyCacheRun()
    ensures ReplayCache.IsRun(ReplayCache.Run([], [map[]]))
  {
  }

  /** A call's attempt keeps its place in the cache's run. */
  lemma {:induction false} AtPosition(scheme: Scheme, r: Run, i: nat, n: nat)
    requires IsRun(scheme, r) && i < n <= |r.calls| && Reaches(scheme, r.calls[i])
    ensures Position(scheme, r, i) < Position(scheme, r, n) == |CacheRun(scheme, r, n).caches| - 1
    ensures CacheRun(scheme, r, n).attempts[Position(scheme, r, i)] == AttemptAt(scheme, r.calls[i])
    ensures CacheRun(scheme, r, n).caches[Position(scheme, r, i)] == r.caches[i]
    ensures ReplayCache.AcceptedAt(CacheRun(scheme, r, n), Position(scheme, r, i)) == AcceptedAt(scheme, r, i)
    decreases n
  {
    hide Serve, Reaches, AttemptAt, ReplayCache.IsRun, ReplayCache.Admits, StepAt;
    CacheRunSizes(scheme, r, n);
    CacheRunSizes(scheme, r, n - 1);
    CacheRunSizes(scheme, r, i);
    OneCall(scheme, r.calls[i], r.caches[i]);
    if i < n - 1 {
      AtPosition(scheme, r, i, n - 1);
    } else {
      CacheRunIsRun(scheme, r, i);
    }
  }

  lemma {:induction false} CacheRunSizes(scheme: Scheme, r: Run, n: nat)
    requires n <= |r.calls| == |r.caches| - 1
    ensures |CacheRun(scheme, r, n).caches| == Position(scheme, r, n) + 1
  {
    hide Reaches, AttemptAt;
    if n > 0 { CacheRunSizes(scheme, r, n - 1); }
  }

  /** Every attempt in the cache's run is that of some call. */
  lemma {:induction false} CallAt(scheme: Scheme, r: Run, n: nat, p: nat) returns (m: nat)
    requires n <= |r.calls| == |r.caches| - 1 && p < Position(scheme, r, n)
    ensures m < n && Reaches(scheme, r.calls[m]) && Position(scheme, r, m) == p
  {
    hide Reaches, AttemptAt;
    if p < Position(scheme, r, n - 1) {
      m := CallAt(scheme, r, n - 1, p);
    } else {
      m := n - 1;
    }
  }

  lemma {:induction false} PositionsGrow(scheme: Scheme, r: Run, i: nat, j: nat)
    requires i <= j <= |r.calls| == |r.caches| - 1
    ensures Position(scheme, r, i) <= Position(scheme, r, j)
    ensures i < j && Reaches(scheme, r.calls[i]) ==> Position(scheme, r, i) < Position(scheme, r, j)
    decreases j
  {
    hide Reaches, AttemptAt;
    if i < j { PositionsGrow(scheme, r, i, j - 1); }
  }

  /** One call answers `Accepted(c)` exactly when a registered key signed the text, it holds
      the claims `c`, they meet the requirements, and their id is not in the pruned cache. */
  lemma ServedIff(scheme: Scheme, call: Call, seen: ReplayCache.Seen, c: Claims)
    ensures Serve(scheme, call, seen).0 == Accepted(c) <==>
              && Vouched(scheme, call.keys, call.text, c) && Meets(c, call.req, call.now)
              && c.jti !in ReplayCache.Prune(seen, Cutoff(call))
  {
    hide Examine, Vouched, Meets, ReplayCache.Prune, ReplayCache.Step;
    AcceptedIff(scheme, call.keys, call.text, call.req, call.now, c);
  }

  /** Every acceptance of every run is of a text that a key registered at that call signed,
      with claims that meet that call's requirements; they are the claims returned. */
  lemma AcceptedIsVouched(scheme: Scheme, r: Run, i: nat)
    requires IsRun(scheme, r) && i < |r.calls| && AcceptedAt(scheme, r, i)
    ensures var call := r.calls[i];
            var c := Serve(scheme, call, r.caches[i]).0.claims;
            Vouched(scheme, call.keys, call.text, c) && Meets(c, call.req, call.now)
  {
    hide Examine, Vouched, Meets, StepAt;
    var call := r.calls[i];
    AcceptedIff(scheme, call.keys, call.text, call.req, call.now, Serve(scheme, call, r.caches[i]).0.claims);
  }

  // ---- Replay safety ----

  /** Among the calls that reach the cache, `now - skew` does not go back. */
  ghost predicate CutoffsForward(scheme: Scheme, r: Run) {
    forall i, j :: 0 <= i < j < |r.calls| && Reaches(scheme, r.calls[i]) && Reaches(scheme, r.calls[j]) ==>
      Cutoff(r.calls[i]) <= Cutoff(r.calls[j])
  }

  lemma AcceptedReaches(scheme: Scheme, r: Run, i: nat)
    requires IsRun(scheme, r) && i < |r.calls| && AcceptedAt(scheme, r, i)
    ensures Reaches(scheme, r.calls[i])
  {
    hide Examine, StepAt;
  }

  lemma CacheCutoffsForward(scheme: Scheme, r: Run, n: nat)
    requires IsRun(scheme, r) && CutoffsForward(scheme, r) && n <= |r.calls|
    ensures ReplayCache.CutoffsForward(CacheRun(scheme, r, n))
  {
    hide Serve, Reaches, CacheRun, ReplayCache.AcceptedAt, AcceptedAt, StepAt;
    var cr := CacheRun(scheme, r, n);
    forall p, q | 0 <= p < q < |cr.attempts| ensures cr.attempts[p].cutoff <= cr.attempts[q].cutoff {
      var i := CallAt(scheme, r, n, p);
      var j := CallAt(scheme, r, n, q);
      AtPosition(scheme, r, i, n);
      AtPosition(scheme, r, j, n);
      if j <= i { PositionsGrow(scheme, r, j, i); }
    }
  }

  /** Two accepted verifications share a token id only if the first one's expiry is at or
      before the cutoff of the second. */
  lemma SharedIdNeedsExpiry(scheme: Scheme, r: Run, i: nat, j: nat)
    requires IsRun(scheme, r) && CutoffsForward(scheme, r) && i < j < |r.calls|
    requires AcceptedAt(scheme, r, i) && AcceptedAt(scheme, r, j)
    ensures Reaches(scheme, r.calls[i]) && Reaches(scheme, r.calls[j])
    ensures ClaimsOf(scheme, r.calls[i]).jti == ClaimsOf(scheme, r.calls[j]).jti ==>
              ClaimsOf(scheme, r.calls[i]).expiresAt <= Cutoff(r.calls[j]) < ClaimsOf(scheme, r.calls[j]).expiresAt
  {
    hide Serve, Reaches, CacheRun, ReplayCache.AcceptedAt, AcceptedAt, StepAt, ClaimsOf, ReplayCache.StepAt, CutoffsForward;
    AcceptedReaches(scheme, r, i);
    AcceptedReaches(scheme, r, j);
    CacheRunIsRun(scheme, r, j + 1);
    CacheCutoffsForward(scheme, r, j + 1);
    AtPosition(scheme, r, i, j + 1);
    AtPosition(scheme, r, j, j + 1);
    AtPosition(scheme, r, i, j);
    if ClaimsOf(scheme, r.calls[i]).jti == ClaimsOf(scheme, r.calls[j]).jti {
      ReplayCache.NeverAcceptedTwice(CacheRun(scheme, r, j + 1), Position(scheme, r, i), Position(scheme, r, j));
    }
  }

  /** Replay safety: with cutoffs that do not go back no run of `verify` accepts one text
      twice, although the cache is pruned. */
  lemma SameTextNeverAcceptedTwice(scheme: Scheme, r: Run, i: nat, j: nat)
    requires IsRun(scheme, r) && CutoffsForward(scheme, r) && i < j < |r.calls| && r.calls[i].text == r.calls[j].text
    ensures !(AcceptedAt(scheme, r, i) && AcceptedAt(scheme, r, j))
  {
    hide Examine, StepAt, CutoffsForward, Serve;
    if AcceptedAt(scheme, r, i) && AcceptedAt(scheme, r, j) {
      SharedIdNeedsExpiry(scheme, r, i, j);
      var a, b := r.calls[i], r.calls[j];
      SameTextSameClaims(scheme, a.text, a.keys, a.req, a.now, b.keys, b.req, b.now);
      assert false;
    }
  }

  /** With one skew and lifetime and a clock that does not go back, after any call that
      reaches the cache every kept id expires in `(now - skew, now + skew + lifetime]`. */
  lemma RetainedExpiries(scheme: Scheme, r: Run, n: nat, skew: int, lifetime: int, jti: string)
    requires IsRun(scheme, r) && n < |r.calls| && Reaches(scheme, r.calls[n]) && jti in r.caches[n + 1]
    requires forall i :: 0 <= i < |r.calls| ==> r.calls[i].req.clockSkew == skew && r.calls[i].req.maximumLifetime == lifetime
    requires forall i, j :: 0 <= i < j < |r.calls| ==> r.calls[i].now <= r.calls[j].now
    ensures r.calls[n].now - skew < r.caches[n + 1][jti] <= r.calls[n].now + skew + lifetime
  {
    hide Serve, Reaches, CacheRun, ReplayCache.AcceptedAt, AcceptedAt, StepAt, ClaimsOf, ReplayCache.StepAt;
    var cr, p := CacheRun(scheme, r, n + 1), Position(scheme, r, n);
    CacheRunIsRun(scheme, r, n + 1);
    CacheCutoffsForward(scheme, r, n + 1);
    AtPosition(scheme, r, n, n + 1);
    LastPosition(scheme, r, n);
    forall q | 0 <= q < |cr.attempts| ensures cr.attempts[q].expiry <= cr.attempts[q].cutoff + (2 * skew + lifetime) {
      var m := CallAt(scheme, r, n + 1, q);
      AtPosition(scheme, r, m, n + 1);
      ExpiryBound(scheme, r.calls[m]);
    }
    ReplayCache.RetainedWindow(cr, p + 1, 2 * skew + lifetime, jti);
  }

  lemma LastPosition(scheme: Scheme, r: Run, n: nat)
    requires n < |r.calls| == |r.caches| - 1 && Reaches(scheme, r.calls[n])
    ensures Position(scheme, r, n + 1) == Position(scheme, r, n) + 1
  {
    hide Reaches, AttemptAt;
  }

  lemma ExpiryBound(scheme: Scheme, call: Call)
    requires Reaches(scheme, call)
    ensures AttemptAt(scheme, call).expiry <= call.now + call.req.clockSkew + call.req.maximumLifetime
  {
    hide Examine, ValidClaims, CheckClaims;
    AcceptedAreSound(scheme, call.keys, call.text, call.req, call.now);
  }

  // ---- Exactly when a text is accepted again ----

  /** A call between `i` and `j` reached the cache with a cutoff at or past the expiry. */
  ghost predicate Overtaken(scheme: Scheme, r: Run, i: nat, j: nat, expiry: int)
    requires j <= |r.calls|
  {
    exists m :: i < m < j && Reaches(scheme, r.calls[m]) && Cutoff(r.calls[m]) >= expiry
  }

  /** A text accepted at `i`, its id not accepted since, is accepted again at `j` exactly when
      it passes the checks there and some call between overtook its expiry: a clock gone back. */
  lemma ReplayedIff(scheme: Scheme, r: Run, i: nat, j: nat)
    requires IsRun(scheme, r) && i < j < |r.calls| && r.calls[i].text == r.calls[j].text
    requires AcceptedAt(scheme, r, i) && Reaches(scheme, r.calls[i])
    requires forall m :: i < m < j && AcceptedAt(scheme, r, m) && Reaches(scheme, r.calls[m]) ==>
               ClaimsOf(scheme, r.calls[m]).jti != ClaimsOf(scheme, r.calls[i]).jti
    ensures AcceptedAt(scheme, r, j) <==>
              Reaches(scheme, r.calls[j]) && Overtaken(scheme, r, i, j, ClaimsOf(scheme, r.calls[i]).expiresAt)
  {
    hide Serve, CacheRun, AcceptedAt, StepAt, ReplayCache.IsRun, Examine, ReplayCache.AcceptedAt, Overtaken, ReplayCache.Remembered;
    if AcceptedAt(scheme, r, j) { AcceptedReaches(scheme, r, j); }
    if Reaches(scheme, r.calls[j]) {
      var a, b := r.calls[i], r.calls[j];
      SameTextSameClaims(scheme, a.text, a.keys, a.req, a.now, b.keys, b.req, b.now);
      OneCall(scheme, b, r.caches[j]);
      if AcceptedAt(scheme, r, j) {
        AgainIsOvertaken(scheme, r, i, j);
      } else {
        RefusedIsNotOvertaken(scheme, r, i, j);
      }
    }
  }

  lemma AgainIsOvertaken(scheme: Scheme, r: Run, i: nat, j: nat)
    requires IsRun(scheme, r) && i < j < |r.calls| && Reaches(scheme, r.calls[i]) && Reaches(scheme, r.calls[j])
    requires AcceptedAt(scheme, r, i) && AcceptedAt(scheme, r, j) && ClaimsOf(scheme, r.calls[i]) == ClaimsOf(scheme, r.calls[j])
    ensures Overtaken(scheme, r, i, j, ClaimsOf(scheme, r.calls[i]).expiresAt)
  {
    hide Serve, Reaches, CacheRun, ReplayCache.AcceptedAt, AcceptedAt, StepAt, ReplayCache.StepAt, ClaimsOf;
    var cr, p, q := CacheRun(scheme, r, j + 1), Position(scheme, r, i), Position(scheme, r, j);
    CacheRunIsRun(scheme, r, j + 1);
    AtPosition(scheme, r, i, j + 1);
    AtPosition(scheme, r, j, j + 1);
    PositionsGrow(scheme, r, i, j);
    OneCall(scheme, r.calls[j], r.caches[j]);
    var o := ReplayCache.ReuseNeedsExpiry(cr, p, q);
    var m := CallAt(scheme, r, j + 1, o);
    AtPosition(scheme, r, m, j + 1);
    if m <= i { PositionsGrow(scheme, r, m, i); }
    assert m != j;
  }

  lemma RefusedIsNotOvertaken(scheme: Scheme, r: Run, i: nat, j: nat)
    requires IsRun(scheme, r) && i < j < |r.calls| && Reaches(scheme, r.calls[i]) && Reaches(scheme, r.calls[j])
    requires AcceptedAt(scheme, r, i) && !AcceptedAt(scheme, r, j) && ClaimsOf(scheme, r.calls[i]) == ClaimsOf(scheme, r.calls[j])
    requires forall m :: i < m < j && AcceptedAt(scheme, r, m) && Reaches(scheme, r.calls[m]) ==>
               ClaimsOf(scheme, r.calls[m]).jti != ClaimsOf(scheme, r.calls[i]).jti
    ensures !Overtaken(scheme, r, i, j, ClaimsOf(scheme, r.calls[i]).expiresAt)
  {
    hide Serve, Reaches, CacheRun, ReplayCache.AcceptedAt, AcceptedAt, StepAt, ReplayCache.StepAt, ClaimsOf;
    var cr, p, q := CacheRun(scheme, r, j + 1), Position(scheme, r, i), Position(scheme, r, j);
    CacheRunIsRun(scheme, r, j + 1);
    AtPosition(scheme, r, i, j + 1);
    AtPosition(scheme, r, j, j + 1);
    ReplayCache.RefusedIff(cr, q);
    var o :| 0 <= o < q && ReplayCache.Remembered(cr, q, o) && cr.attempts[o].jti == cr.attempts[q].jti
             && cr.attempts[q].cutoff < cr.attempts[o].expiry;
    var s := CallAt(scheme, r, j + 1, o);
    AtPosition(scheme, r, s, j + 1);
    PositionsGrow(scheme, r, i, j);
    if j <= s { PositionsGrow(scheme, r, j, s); }
    HolderIsFirst(scheme, r, i, j, s, cr, p, q, o);
    forall m | i < m < j && Reaches(scheme, r.calls[m]) ensures Cutoff(r.calls[m]) < ClaimsOf(scheme, r.calls[i]).expiresAt {
      AtPosition(scheme, r, m, j + 1);
      PositionsGrow(scheme, r, i, m);
      PositionsGrow(scheme, r, m, j);
    }
  }

  /** The acceptance that the cache still remembers is the one at `i`. */
  lemma HolderIsFirst(scheme: Scheme, r: Run, i: nat, j: nat, s: nat, cr: ReplayCache.Run, p: nat, q: nat, o: nat)
    requires IsRun(scheme, r) && ReplayCache.IsRun(cr) && i < j < |r.calls| && s < j && p < q < |cr.attempts| && o < q
    requires Reaches(scheme, r.calls[i]) && Reaches(scheme, r.calls[s])
    requires p == Position(scheme, r, i) && o == Position(scheme, r, s)
    requires cr.attempts[p] == AttemptAt(scheme, r.calls[i]) && cr.attempts[o] == AttemptAt(scheme, r.calls[s])
    requires ReplayCache.AcceptedAt(cr, p) && ReplayCache.AcceptedAt(cr, o) == AcceptedAt(scheme, r, s)
    requires ReplayCache.Remembered(cr, q, o) && cr.attempts[o].jti == cr.attempts[p].jti
    requires forall m :: i < m < j && AcceptedAt(scheme, r, m) && Reaches(scheme, r.calls[m]) ==>
               ClaimsOf(scheme, r.calls[m]).jti != ClaimsOf(scheme, r.calls[i]).jti
    ensures o == p
  {
    hide Serve, Reaches, CacheRun, ReplayCache.AcceptedAt, AcceptedAt, StepAt, Position, ReplayCache.StepAt, ClaimsOf;
    if s < i {
      PositionsGrow(scheme, r, s, i);
      var m := ReplayCache.ReuseNeedsExpiry(cr, o, p);
      assert false;
    }
  }

  /** A run in which a clock gone back lets one signed text in twice: `first` is accepted,
      then `other` at a time past its expiry, then `first` again at its own time. */
  lemma ClockBackReplays(
    scheme: Scheme, kid: string, privateKey: string, keys: map<string, string>, first: Claims, other: Claims,
    req: Requirements, early: int, late: int) returns (r: Run)
    requires ValidKid(kid) && kid in keys && KeyPair(scheme, privateKey, keys[kid])
    requires ValidClaims(first) && ValidClaims(other) && first.jti != other.jti
    requires CheckClaims(first, req, early) == None && CheckClaims(other, req, late) == None
    requires first.expiresAt <= late - req.clockSkew
    ensures IsRun(scheme, r) && |r.calls| == 3
    ensures Sign(scheme, kid, privateKey, first) == Some(r.calls[0].text) && r.calls[0] == r.calls[2]
    ensures AcceptedAt(scheme, r, 0) && AcceptedAt(scheme, r, 2)
  {
    hide Examine, Sign, ValidKid, ValidClaims, CheckClaims, KeyPair;
    SignThenExamine(scheme, kid, privateKey, keys, first, req, early);
    SignThenExamine(scheme, kid, privateKey, keys, other, req, late);
    var a := Call(keys, Sign(scheme, kid, privateKey, first).value, req, early);
    var b := Call(keys, Sign(scheme, kid, privateKey, other).value, req, late);
    var c0: ReplayCache.Seen := map[];
    var c1 := Serve(scheme, a, c0).1;
    var c2 := Serve(scheme, b, c1).1;
    r := Run([a, b, a], [c0, c1, c2, Serve(scheme, a, c2).1]);
    assert c1 == map[first.jti := first.expiresAt];
    assert ReplayCache.Prune(c1, late - req.clockSkew) == map[];
    assert c2 == map[other.jti := other.expiresAt];
    assert StepAt(scheme, r, 0) && StepAt(scheme, r, 1) && StepAt(scheme, r, 2);
  }
}
