/** The verifier's replay cache: token ids with their expiry, pruned at every use.
    An attempt is a call that passed all other checks and reached the cache. */
module ReplayCache {

  datatype Attempt = Attempt(jti: string, expiry: int, cutoff: int)
  type Seen = map<string, int>

  function Prune(seen: Seen, cutoff: int): Seen {
    map j | j in seen && seen[j] > cutoff :: seen[j]
  }

  predicate Admits(seen: Seen, a: Attempt) { a.jti !in Prune(seen, a.cutoff) }

  function Step(seen: Seen, a: Attempt): Seen {
    var kept := Prune(seen, a.cutoff);
    if a.jti in kept then kept else kept[a.jti := a.expiry]
  }

  /** A run: attempts and the caches between them. Attempts are not expired. */
  datatype Run = Run(attempts: seq<Attempt>, caches: seq<Seen>)

  predicate StepAt(r: Run, i: nat)
    requires i < |r.attempts| == |r.caches| - 1
  {
    r.caches[i + 1] == Step(r.caches[i], r.attempts[i]) && r.attempts[i].cutoff < r.attempts[i].expiry
  }

  predicate IsRun(r: Run) {
    && |r.caches| == |r.attempts| + 1 && r.caches[0] == map[]
    && forall i :: 0 <= i < |r.attempts| ==> StepAt(r, i)
  }

  predicate AcceptedAt(r: Run, i: nat)
    requires i < |r.attempts| == |r.caches| - 1
  {
    Admits(r.caches[i], r.attempts[i])
  }

  /** Attempt `i` was accepted and no attempt after it, up to `n`, had a cutoff reaching its expiry. */
  predicate Remembered(r: Run, n: nat, i: nat)
    requires n <= |r.attempts| == |r.caches| - 1
  {
    i < n && AcceptedAt(r, i) && forall m :: i < m < n ==> r.attempts[m].cutoff < r.attempts[i].expiry
  }

  // ---- The cache is exactly the log of accepted, not yet overtaken attempts ----

  lemma {:induction false} RememberedIsCached(r: Run, n: nat, i: nat)
    requires IsRun(r) && n <= |r.attempts| && Remembered(r, n, i)
    ensures r.attempts[i].jti in r.caches[n] && r.caches[n][r.attempts[i].jti] == r.attempts[i].expiry
  {
    assert StepAt(r, n - 1);
    if i < n - 1 { RememberedIsCached(r, n - 1, i); }
  }

  lemma {:induction false} CachedIsRemembered(r: Run, n: nat, j: string) returns (i: nat)
    requires IsRun(r) && n <= |r.attempts| && j in r.caches[n]
    ensures Remembered(r, n, i) && r.attempts[i].jti == j && r.attempts[i].expiry == r.caches[n][j]
  {
    assert n > 0;
    assert StepAt(r, n - 1);
    if j in Prune(r.caches[n - 1], r.attempts[n - 1].cutoff) {
      i := CachedIsRemembered(r, n - 1, j);
    } else {
      i := n - 1;
    }
  }

  /** Exactly when an attempt is turned away: some earlier accepted attempt with the same
      id has an expiry beyond every cutoff since, this one's included. No clock premise. */
  lemma RefusedIff(r: Run, n: nat)
    requires IsRun(r) && n < |r.attempts|
    ensures !AcceptedAt(r, n) <==>
      exists i :: 0 <= i < n && Remembered(r, n, i) && r.attempts[i].jti == r.attempts[n].jti
                  && r.attempts[n].cutoff < r.attempts[i].expiry
  {
    if !AcceptedAt(r, n) {
      var i := CachedIsRemembered(r, n, r.attempts[n].jti);
    }
    forall i | 0 <= i < n && Remembered(r, n, i) && r.attempts[i].jti == r.attempts[n].jti
               && r.attempts[n].cutoff < r.attempts[i].expiry
      ensures !AcceptedAt(r, n)
    {
      RememberedIsCached(r, n, i);
    }
  }

  /** An id is accepted again only after a cutoff reached the expiry of its earlier use. */
  lemma ReuseNeedsExpiry(r: Run, i: nat, j: nat) returns (m: nat)
    requires IsRun(r) && i < j < |r.attempts|
    requires AcceptedAt(r, i) && AcceptedAt(r, j) && r.attempts[i].jti == r.attempts[j].jti
    ensures i < m <= j && r.attempts[m].cutoff >= r.attempts[i].expiry
  {
    RefusedIff(r, j);
    if r.attempts[j].cutoff >= r.attempts[i].expiry {
      m := j;
    } else {
      assert !Remembered(r, j, i);
      m :| i < m < j && r.attempts[m].cutoff >= r.attempts[i].expiry;
    }
  }

  predicate CutoffsForward(r: Run) {
    forall i, j :: 0 <= i < j < |r.attempts| ==> r.attempts[i].cutoff <= r.attempts[j].cutoff
  }

  /** With cutoffs that do not go back, a second acceptance of an id carries a later
      expiry: the same assertion is never accepted twice although the cache is pruned. */
  lemma NeverAcceptedTwice(r: Run, i: nat, j: nat)
    requires IsRun(r) && CutoffsForward(r) && i < j < |r.attempts|
    requires AcceptedAt(r, i) && AcceptedAt(r, j) && r.attempts[i].jti == r.attempts[j].jti
    ensures r.attempts[i].expiry <= r.attempts[j].cutoff < r.attempts[j].expiry
  {
    var m := ReuseNeedsExpiry(r, i, j);
    assert StepAt(r, j);
  }

  /** What is kept after an attempt expires after its cutoff and at most `span` later, when
      every attempt's expiry is at most `span` after its own cutoff. */
  lemma RetainedWindow(r: Run, n: nat, span: int, j: string)
    requires IsRun(r) && CutoffsForward(r) && 0 < n <= |r.attempts| && j in r.caches[n]
    requires forall m :: 0 <= m < |r.attempts| ==> r.attempts[m].expiry <= r.attempts[m].cutoff + span
    ensures r.attempts[n - 1].cutoff < r.caches[n][j] <= r.attempts[n - 1].cutoff + span
  {
    var i := CachedIsRemembered(r, n, j);
    assert StepAt(r, n - 1);
    assert i < n - 1 ==> r.attempts[i].cutoff <= r.attempts[n - 1].cutoff;
    assert r.attempts[i].expiry <= r.attempts[i].cutoff + span;
  }

  lemma RunGrows(r: Run, a: Attempt)
    requires IsRun(r) && a.cutoff < a.expiry
    ensures IsRun(Run(r.attempts + [a], r.caches + [Step(r.caches[|r.attempts|], a)]))
  {
    var e := Run(r.attempts + [a], r.caches + [Step(r.caches[|r.attempts|], a)]);
    forall i | 0 <= i < |e.attempts| ensures StepAt(e, i) {
      if i < |r.attempts| { assert StepAt(r, i); }
    }
  }
}
