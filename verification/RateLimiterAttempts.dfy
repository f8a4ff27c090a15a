/** The rate limiter in the caller's terms: attempts by an address on an identity, and the
    four configured limits by name. */
module RateLimiterAttempts {
  import opened Duration
  import opened AttemptWindow
  import opened RateLimiterRuns
  import opened RateLimiterCapacity
  import opened RateLimiterWindow
  import opened RateLimiterEviction

  datatype Who = Who(address: string, identity: string)

  /** The calls are attempts of these callers; sweeps are nobody's. */
  predicate Attempted(calls: seq<Call>, who: seq<Who>) {
    |who| == |calls| && forall i :: 0 <= i < |calls| ==> AttemptedAt(calls[i], who[i])
  }

  predicate AttemptedAt(call: Call, w: Who) { !call.Sweep? ==> call.keys == Keys(w.address, w.identity) }

  /** What attempts have in common. The code joins address and identity with a colon. */
  datatype Scope = Everyone | ByAddress(address: string) | ByIdentity(identity: string) | ByPair(who: Who)

  predicate Names(scope: Scope, w: Who) {
    match scope
    case Everyone => true
    case ByAddress(a) => w.address == a
    case ByIdentity(i) => w.identity == i
    case ByPair(v) => w.address + ":" + w.identity == v.address + ":" + v.identity
  }

  /** The limit configured for it. */
  function LimitFor(l: Limits, scope: Scope): nat {
    match scope
    case Everyone => l.global
    case ByAddress(_) => l.perAddress
    case ByIdentity(_) => l.perIdentity
    case ByPair(_) => l.perAddressAndIdentity
  }

  function KeyOf(scope: Scope): string {
    match scope
    case Everyone => GLOBAL_KEY
    case ByAddress(a) => "address:" + a
    case ByIdentity(i) => "identity:" + i
    case ByPair(v) => "pair:" + v.address + ":" + v.identity
  }

  /** The key of a scope is held to the limit configured for that scope. */
  lemma KeyHasItsLimit(l: Limits, scope: Scope)
    ensures LimitOf(l, KeyOf(scope)) == LimitFor(l, scope)
    ensures KeyOf(scope) == GLOBAL_KEY <==> scope.Everyone?
  {
    var k := KeyOf(scope);
    assert scope.Everyone? ==> k[0] == 'g';
    assert scope.ByAddress? ==> k[0] == 'a';
    assert scope.ByIdentity? ==> k[0] == 'i';
    assert scope.ByPair? ==> k[0] == 'p';
  }

  /** An attempt is counted under the key of a scope exactly when the scope names it. */
  lemma KeyNames(scope: Scope, w: Who)
    ensures KeyOf(scope) in Keys(w.address, w.identity) <==> Names(scope, w)
  {
    var keys := Keys(w.address, w.identity);
    match scope {
      case Everyone => assert keys[0] == GLOBAL_KEY;
      case ByAddress(a) =>
        KeyInKeys(a, w.identity, w, 1);
      case ByIdentity(i) =>
        KeyInKeys(w.address, i, w, 2);
      case ByPair(v) =>
        KeyInKeys(v.address, v.identity, w, 3);
    }
  }

  lemma KeyInKeys(a: string, i: string, w: Who, m: nat)
    requires 1 <= m < 4
    ensures Keys(a, i)[m] in Keys(w.address, w.identity) <==> Keys(a, i)[m] == Keys(w.address, w.identity)[m]
    ensures Keys(a, i)[1] == "address:" + a && Keys(a, i)[2] == "identity:" + i && Keys(a, i)[3] == "pair:" + a + ":" + i
    ensures m == 1 ==> (Keys(a, i)[m] == Keys(w.address, w.identity)[m] <==> a == w.address)
    ensures m == 2 ==> (Keys(a, i)[m] == Keys(w.address, w.identity)[m] <==> i == w.identity)
    ensures m == 3 ==> (Keys(a, i)[m] == Keys(w.address, w.identity)[m] <==> a + ":" + i == w.address + ":" + w.identity)
  {
    var k, k' := Keys(a, i), Keys(w.address, w.identity);
    if k[m] in k' {
      var n :| 0 <= n < 4 && k'[n] == k[m];
      if n == 0 {
        FurtherKeysAreNotGlobal(a, i, m);
      } else {
        KeysAgree(a, i, w.address, w.identity, m, n);
      }
    }
    assert "pair:" + a + ":" + i == "pair:" + (a + ":" + i);
    assert "pair:" + w.address + ":" + w.identity == "pair:" + (w.address + ":" + w.identity);
  }

  lemma FurtherKeysAreNotGlobal(a: string, i: string, m: nat)
    requires 1 <= m < 4
    ensures Keys(a, i)[m] != Keys("", "")[0]
  {
    var k := Keys(a, i);
    assert k[1][0] == 'a' && k[2][0] == 'i' && k[3][0] == 'p' && GLOBAL_KEY[0] == 'g';
  }

  // ---- Any limit + 1 admissions of a scope span the window ----

  /** Admissions among calls `s` to `f` that the scope names. */
  function Count(calls: seq<Call>, who: seq<Who>, s: nat, f: nat, scope: Scope): nat
    requires s <= f <= |calls| == |who|
    decreases f - s
  {
    if s == f then 0
    else Count(calls, who, s, f - 1, scope) + (if calls[f - 1].Admit? && Names(scope, who[f - 1]) then 1 else 0)
  }

  lemma {:induction false} CountIsAdmissions(calls: seq<Call>, who: seq<Who>, s: nat, f: nat, scope: Scope)
    requires Attempted(calls, who) && s <= f <= |calls|
    ensures |Admissions(History(calls, KeyOf(scope))[s..f])| == Count(calls, who, s, f, scope)
    decreases f - s
  {
    hide KeyOf, Names;
    if s < f {
      var h := History(calls, KeyOf(scope));
      CountIsAdmissions(calls, who, s, f - 1, scope);
      assert h[s..f][..f - 1 - s] == h[s..f - 1];
      assert AttemptedAt(calls[f - 1], who[f - 1]);
      KeyNames(scope, who[f - 1]);
    }
  }

  /** `limit + 1` admissions within calls `s` to `f` are `limit + 1` consecutive ones. */
  lemma CountedSpan(l: Limits, r: Run, k: string, s: nat, f: nat)
    requires IsRun(l, r) && ClockForward(r.calls) && s <= f < |r.calls| && Respects(l, r, k)
    requires |Admissions(History(r.calls, k)[s..f + 1])| > LimitOf(l, k)
    ensures r.calls[f].now - r.calls[s].now >= Span(l)
  {
    hide StepAt, Admissions, LimitOf, Span;
    var h, n := History(r.calls, k), LimitOf(l, k);
    AdmissionsGrow(h, s, f + 1);
    AdmissionsGrow(h, f + 1, |h|);
    assert h[..|h|] == h;
    var i := |Admissions(h[..s])|;
    var first := AdmissionAt(h, i);
    var last := AdmissionAt(h, i + n);
    if first < s { BeforeIsFewer(h, first, s); }
    if last > f { BeforeIsMore(h, last, f + 1); }
    assert s <= first && last <= f;
    assert r.calls[s].now <= r.calls[first].now && r.calls[last].now <= r.calls[f].now;
  }

  lemma BeforeIsFewer(h: seq<KeyEvent>, n: nat, s: nat)
    requires n < s <= |h| && h[n].admitted
    ensures |Admissions(h[..n])| < |Admissions(h[..s])|
  {
    AdmissionsGrow(h, n, n + 1);
    AdmissionsGrow(h, n + 1, s);
    assert h[n..n + 1] == [h[n]];
    assert [h[n]][..0] == [];
    assert Admissions([h[n]]) == AppendIf(Admissions([h[n]][..0]), true, h[n].now);
  }

  lemma BeforeIsMore(h: seq<KeyEvent>, n: nat, f: nat)
    requires f <= n <= |h|
    ensures |Admissions(h[..f])| <= |Admissions(h[..n])|
  {
    AdmissionsGrow(h, f, n);
  }

  /** The limits leave the table room enough for every limit to be kept. */
  predicate Suffices(l: Limits) {
    var least :=
      if l.perAddress <= l.perIdentity && l.perAddress <= l.perAddressAndIdentity then l.perAddress
      else if l.perIdentity <= l.perAddressAndIdentity then l.perIdentity
      else l.perAddressAndIdentity;
    l.global < least + 2 || l.maximumBuckets + least + 2 > 3 * l.global
  }

  /** With a forward clock, more than `global` admissions of anybody always span the window;
      and where the limits suffice so do more than `perAddress` of one address, more than
      `perIdentity` on one identity and more than `perAddressAndIdentity` of one pair. */
  lemma LimitsHold(l: Limits, r: Run, who: seq<Who>, scope: Scope, s: nat, f: nat)
    requires ValidLimits(l) && IsRun(l, r) && ClockForward(r.calls) && Attempted(r.calls, who) && s <= f < |r.calls|
    requires scope.Everyone? || Suffices(l)
    requires Count(r.calls, who, s, f + 1, scope) > LimitFor(l, scope)
    ensures r.calls[f].now - r.calls[s].now >= Nanos(l.window)
  {
    hide StepAt, Admissions, LimitOf, KeyOf, LimitFor, Count, Respects, Attempted;
    KeyHasItsLimit(l, scope);
    RateLimitHolds(l, r, KeyOf(scope));
    AttemptedLengths(r.calls, who);
    CountIsAdmissions(r.calls, who, s, f + 1, scope);
    CountedSpan(l, r, KeyOf(scope), s, f);
  }

  lemma AttemptedLengths(calls: seq<Call>, who: seq<Who>)
    requires Attempted(calls, who)
    ensures |who| == |calls|
  {
  }

  // ---- Which attempts are refused, and with which word ----

  /** Live admissions the scope names among the first `n` calls, since its key was last evicted. */
  function Live(calls: seq<Call>, who: seq<Who>, n: nat, c: int, scope: Scope): nat
    requires n <= |calls| == |who|
  {
    if n == 0 then 0
    else
      var call := calls[n - 1];
      (if call.Admit? && KeyOf(scope) in call.victims then 0 else Live(calls, who, n - 1, c, scope)) +
      (if call.Admit? && call.now > c && Names(scope, who[n - 1]) then 1 else 0)
  }

  lemma {:induction false} LiveIsRecent(calls: seq<Call>, who: seq<Who>, n: nat, c: int, scope: Scope)
    requires Attempted(calls, who) && n <= |calls|
    ensures |Recent(SinceEviction(History(calls[..n], KeyOf(scope))), c)| == Live(calls, who, n, c, scope)
  {
    hide KeyOf, Names;
    if n > 0 {
      var k := KeyOf(scope);
      LiveIsRecent(calls, who, n - 1, c, scope);
      HistoryStep(calls, n, k);
      assert AttemptedAt(calls[n - 1], who[n - 1]);
      KeyNames(scope, who[n - 1]);
      var h, e := History(calls[..n], k), Seen(calls[n - 1], k);
      var kept := if e.evicted then [] else SinceEviction(h[..n - 1]);
      if e.admitted { RecentAppend(kept, e.now, c); }
    }
  }

  /** What an attempt finds in the pruned bucket of a scope. */
  lemma LiveIsBucket(l: Limits, r: Run, who: seq<Who>, n: nat, scope: Scope)
    requires ValidLimits(l) && IsRun(l, r) && ClockForward(r.calls) && Attempted(r.calls, who) && n < |r.calls|
    ensures var c := r.calls[n].now - Span(l);
            |Attempts(Prune(r.states[n].buckets, c), KeyOf(scope))| == Live(r.calls, who, n, c, scope)
  {
    hide StepAt, KeyReplay, KeyLegal, DropExpired, Prune, Recent, SinceEviction, History, Attempts, KeyOf, Live;
    var c, k := r.calls[n].now - Span(l), KeyOf(scope);
    PrefixForward(r.calls, n);
    HistoryForward(r.calls[..n], k);
    BucketFollowsHistory(l, r, n, k);
    PruneAttempts(r.states[n].buckets, c, k);
    PrunedQueue(Span(l), History(r.calls[..n], k), r.calls[n].now);
    LiveIsRecent(r.calls, who, n, c, scope);
  }

  predicate Spent(l: Limits, calls: seq<Call>, who: seq<Who>, n: nat, c: int, scope: Scope)
    requires n <= |calls| == |who|
  {
    Live(calls, who, n, c, scope) >= LimitFor(l, scope)
  }

  /** The first spent limit, in the order global, address, identity, pair; empty if none is. */
  function Word(l: Limits, calls: seq<Call>, who: seq<Who>, n: nat, c: int, w: Who): string
    requires n <= |calls| == |who|
  {
    if Spent(l, calls, who, n, c, Everyone) then "global"
    else if Spent(l, calls, who, n, c, ByAddress(w.address)) then "address"
    else if Spent(l, calls, who, n, c, ByIdentity(w.identity)) then "identity"
    else if Spent(l, calls, who, n, c, ByPair(w)) then "address_identity"
    else ""
  }

  function ScopeAt(w: Who, i: nat): Scope
    requires i < 4
  {
    if i == 0 then Everyone else if i == 1 then ByAddress(w.address)
    else if i == 2 then ByIdentity(w.identity) else ByPair(w)
  }

  function WordAt(i: nat): string
    requires i < 4
  {
    if i == 0 then "global" else if i == 1 then "address" else if i == 2 then "identity" else "address_identity"
  }

  lemma KeysByScope(w: Who, i: nat)
    requires i < 4
    ensures Keys(w.address, w.identity)[i] == KeyOf(ScopeAt(w, i))
  {
  }

  lemma FullIsSpent(l: Limits, r: Run, who: seq<Who>, n: nat, i: nat)
    requires ValidLimits(l) && IsRun(l, r) && ClockForward(r.calls) && Attempted(r.calls, who) && n < |r.calls|
    requires !r.calls[n].Sweep? && i < 4 && |who| == |r.calls| && FourKeys(l, r.calls[n].keys)
    ensures var c := r.calls[n].now - Span(l);
            Full(Prune(r.states[n].buckets, c), r.calls[n].keys[i], LimitAt(l, i)) <==>
              Spent(l, r.calls, who, n, c, ScopeAt(who[n], i))
  {
    hide StepAt, Prune, Live, LimitOf, KeyOf, Keys;
    var scope := ScopeAt(who[n], i);
    assert AttemptedAt(r.calls[n], who[n]);
    KeysByScope(who[n], i);
    KeyHasItsLimit(l, scope);
    LiveIsBucket(l, r, who, n, scope);
    LimitIsPositive(l, scope);
  }

  lemma LimitIsPositive(l: Limits, scope: Scope)
    requires ValidLimits(l)
    ensures LimitFor(l, scope) > 0
  {
  }

  /** In every run with a forward clock an attempt is admitted exactly when none of its four
      limits is spent by the live admissions before it, and otherwise rejected for the first
      that is: global, then its address, its identity, the pair. */
  lemma DecisionIs(l: Limits, r: Run, who: seq<Who>, n: nat)
    requires ValidLimits(l) && IsRun(l, r) && ClockForward(r.calls) && Attempted(r.calls, who) && n < |r.calls|
    requires !r.calls[n].Sweep? && |who| == |r.calls|
    ensures var word := Word(l, r.calls, who, n, r.calls[n].now - Span(l), who[n]);
            && (r.calls[n].Admit? <==> word == "")
            && (r.calls[n].Reject? ==> r.calls[n].index < 4 && word == WordAt(r.calls[n].index))
  {
    hide Prune, Spent, Full, FourKeys, Attempted, ValidLimits, Apply, LruVictims, Excess;
    assert StepAt(l, r, n);
    FullIsSpent(l, r, who, n, 0);
    FullIsSpent(l, r, who, n, 1);
    FullIsSpent(l, r, who, n, 2);
    FullIsSpent(l, r, who, n, 3);
    FourIsFour(l, r.calls[n].keys);
    assert ScopeAt(who[n], 0) == Everyone && ScopeAt(who[n], 1) == ByAddress(who[n].address);
    assert ScopeAt(who[n], 2) == ByIdentity(who[n].identity) && ScopeAt(who[n], 3) == ByPair(who[n]);
  }

  lemma FourIsFour(l: Limits, keys: seq<string>)
    requires FourKeys(l, keys)
    ensures |keys| == 4
  {
  }
}
