/** Whole runs of the account store, restarts included. */
module AuthRuns {
  import opened Text
  import opened Duration
  import opened AuthText
  import opened AuthFiles
  import opened AuthMemory

  datatype Run = Run(calls: seq<Call>, states: seq<Memory>)

  ghost predicate StepAt(c: Crypto, run: Run, i: nat)
    requires i + 1 < |run.states| && i < |run.calls|
  {
    CallOk(run.states[i], run.calls[i]) && run.states[i + 1] == Apply(c, run.states[i], run.calls[i]).0
  }

  /** A run from an empty store. */
  ghost predicate IsRun(c: Crypto, run: Run) {
    && |run.states| == |run.calls| + 1
    && run.states[0] == EMPTY
    && forall i :: 0 <= i < |run.calls| ==> StepAt(c, run, i)
  }

  /** In every reachable state: identifiers and normalised addresses are distinct, stored
      addresses are fixed points, every session belongs to a user. */
  lemma {:induction false} RunKeepsInv(c: Crypto, run: Run, n: nat)
    requires CryptoOk(c) && IsRun(c, run) && n <= |run.calls|
    ensures Inv(run.states[n])
  {
    hide Apply, CallOk, CryptoOk;
    if n > 0 {
      hide Inv;
      RunKeepsInv(c, run, n - 1);
      assert StepAt(c, run, n - 1);
      ApplyKeepsInv(c, run.states[n - 1], run.calls[n - 1]);
    }
  }

  /** What that means for two accounts: no raw address normalises to both. */
  lemma AccountsStayApart(c: Crypto, run: Run, n: nat, i: nat, j: nat, raw: string)
    requires CryptoOk(c) && IsRun(c, run) && n <= |run.calls|
    requires i < |run.states[n].users| && j < |run.states[n].users| && i != j
    ensures var u, v := run.states[n].users[i].publicUser, run.states[n].users[j].publicUser;
            && u.id != v.id
            && NormalizeEmail(u.email) == u.email
            && !(NormalizeEmail(raw) == u.email && NormalizeEmail(raw) == v.email)
  {
    hide StepAt, CryptoOk, NormalizeEmail, SessionsOk;
    RunKeepsInv(c, run, n);
    var users := run.states[n].users;
    assert UserOk(users[i]);
    if i < j { assert Apart(users[i], users[j]); } else { assert Apart(users[j], users[i]); }
  }

  /** Every session in every reachable state belongs to an existing user. */
  lemma SessionsHaveOwners(c: Crypto, run: Run, n: nat, hash: string)
    requires CryptoOk(c) && IsRun(c, run) && n <= |run.calls| && hash in run.states[n].sessions
    ensures HasId(run.states[n].users, run.states[n].sessions[hash].userId)
  {
    hide StepAt, CryptoOk, UsersOk, Distinct;
    RunKeepsInv(c, run, n);
    assert SessionOk(run.states[n].users, hash, run.states[n].sessions[hash]);
  }

  /** Once there is an administrator there always is one. */
  lemma {:induction false} AdminPersists(c: Crypto, run: Run, i: nat, j: nat)
    requires IsRun(c, run) && i <= j <= |run.calls| && HasAdmin(run.states[i])
    ensures HasAdmin(run.states[j])
  {
    hide Apply, CallOk, HasAdmin;
    if i < j {
      AdminPersists(c, run, i, j - 1);
      assert StepAt(c, run, j - 1);
      AdminRemains(c, run.states[j - 1], run.calls[j - 1]);
    }
  }

  // ----- sessions that are gone stay gone -----

  /** The call issues a token with this hash. */
  predicate Issues(c: Crypto, call: Call, hash: string) {
    (call.Login? || call.RegisterAdmin?) && c.digest(call.token) == hash
  }

  /** Neither in memory nor on disk. */
  predicate Gone(m: Memory, hash: string) { hash !in m.sessions && hash !in m.saved }

  lemma GoneStaysGoneStep(c: Crypto, m: Memory, call: Call, hash: string)
    requires Gone(m, hash) && !Issues(c, call, hash)
    ensures Gone(Apply(c, m, call).0, hash)
  {
    hide NormalizeEmail, Trim, ValidUuid, ValidRole, BadNewName, BadAddress, HasId, HasEmail, EmailTakenByOther, CountAdmins,
         IndexOfId, IndexOfEmail, Updated, NewUser;
  }

  /** A session that is gone is back only when a later call issues a token with its hash. */
  lemma {:induction false} GoneStaysGone(c: Crypto, run: Run, i: nat, j: nat, hash: string)
    requires IsRun(c, run) && i <= j <= |run.calls| && Gone(run.states[i], hash)
    requires forall k :: i <= k < j ==> !Issues(c, run.calls[k], hash)
    ensures Gone(run.states[j], hash)
  {
    if i < j {
      hide Apply, CallOk, Issues, Gone;
      GoneStaysGone(c, run, i, j - 1, hash);
      assert StepAt(c, run, j - 1);
      GoneStaysGoneStep(c, run.states[j - 1], run.calls[j - 1], hash);
    }
  }

  lemma LogoutEnds(c: Crypto, m: Memory, token: string)
    ensures token != "" ==> Gone(Apply(c, m, Logout(token)).0, c.digest(token))
  {
  }

  lemma DeleteEnds(c: Crypto, m: Memory, id: string, actor: string, hash: string)
    requires Owns(m, id, hash)
    requires Apply(c, m, DeleteUser(id, actor)).1.Done?
    ensures Gone(Apply(c, m, DeleteUser(id, actor)).0, hash)
  {
    hide CountAdmins, HasId;
  }

  /** After a logout, or after its user is deleted, a token resolves to nobody at any later
      point of the run unless it is issued again; sessions held only on disk included. */
  lemma EndedSessionNeverReturns(c: Crypto, run: Run, i: nat, j: nat, token: string, now: nat)
    requires IsRun(c, run) && i < j <= |run.calls|
    requires forall k :: i < k < j ==> !Issues(c, run.calls[k], c.digest(token))
    requires
      || (run.calls[i] == Logout(token) && token != "")
      || (&& run.calls[i].DeleteUser?
          && Apply(c, run.states[i], run.calls[i]).1.Done?
          && Owns(run.states[i], run.calls[i].id, c.digest(token)))
    ensures Resolve(c, run.states[j], token, now).1 == Failed(Refused)
  {
    hide Apply, CallOk, Owns;
    var hash := c.digest(token);
    assert StepAt(c, run, i);
    if run.calls[i].Logout? {
      LogoutEnds(c, run.states[i], token);
    } else {
      DeleteEnds(c, run.states[i], run.calls[i].id, run.calls[i].actor, hash);
    }
    GoneStaysGone(c, run, i + 1, j, hash);
  }

  // ----- restarts against no restarts -----

  /** The same call on a store that is never restarted. */
  function Uninterrupted(c: Crypto, m: Memory, call: Call): (Memory, Reply) {
    if call.Restart? then (m, Done) else Apply(c, m, call)
  }

  ghost predicate UninterruptedAt(c: Crypto, calls: seq<Call>, states: seq<Memory>, i: nat)
    requires i + 1 < |states| && i < |calls|
  {
    states[i + 1] == Uninterrupted(c, states[i], calls[i]).0
  }

  ghost predicate IsUninterruptedRun(c: Crypto, calls: seq<Call>, states: seq<Memory>) {
    && |states| == |calls| + 1
    && states[0] == EMPTY
    && forall i :: 0 <= i < |calls| ==> UninterruptedAt(c, calls, states, i)
  }

  function Later(latest: nat, call: Call): nat {
    if (call.UserForToken? || call.Restart?) && call.now > latest then call.now else latest
  }

  /** The latest clock reading that decided about an expiry among the first `n` calls. */
  function LatestClock(calls: seq<Call>, n: nat): nat
    requires n <= |calls|
  {
    if n == 0 then 0 else Later(LatestClock(calls, n - 1), calls[n - 1])
  }

  /** No restart reads a clock earlier than one that already decided about an expiry. */
  predicate ClockForward(calls: seq<Call>) {
    forall i :: 0 <= i < |calls| ==> ClockForwardAt(calls, i)
  }

  predicate ClockForwardAt(calls: seq<Call>, i: nat)
    requires i < |calls|
  {
    calls[i].Restart? ==> LatestClock(calls, i) <= calls[i].now
  }

  /** `a`, which was restarted, against `b`, which was not, at one key. */
  predicate TracksAt(a: Memory, b: Memory, latest: nat, k: string) {
    Backed(a, latest, k) && Agrees(a, b, latest, k)
  }

  /** Every session in memory is on disk, and a session only on disk has expired. */
  predicate Backed(a: Memory, latest: nat, k: string) {
    && (k in a.sessions ==>
          && k in a.saved
          && a.saved[k].userId == a.sessions[k].userId
          && WholeSeconds(a.saved[k].expires) == WholeSeconds(a.sessions[k].expires))
    && (k in a.saved ==> k in a.sessions || Nanos(WholeSeconds(a.saved[k].expires)) <= latest)
  }

  predicate Agrees(a: Memory, b: Memory, latest: nat, k: string) {
    && (k in a.sessions ==>
          && k in b.sessions
          && a.sessions[k].userId == b.sessions[k].userId
          && a.sessions[k].expires <= b.sessions[k].expires)
    && (k in b.sessions ==>
          var kept := Nanos(WholeSeconds(b.sessions[k].expires));
          (k in a.sessions && kept <= a.sessions[k].expires) || kept <= latest)
  }

  ghost predicate Tracks(a: Memory, b: Memory, latest: nat) {
    a.users == b.users && forall k :: TracksAt(a, b, latest, k)
  }

  lemma WholeSecondsStay(s: nat)
    ensures WholeSeconds(Nanos(s)) == s
  {
  }

  lemma RestartTracks(a: Memory, b: Memory, latest: nat, now: nat)
    requires Inv(a) && Tracks(a, b, latest) && now >= latest
    ensures Tracks(Restarted(a, now), b, Later(latest, Restart(now)))
  {
    hide UserOk, IsHash, UsersOk, Distinct, HasId;
    var r := Restarted(a, now);
    forall k ensures TracksAt(r, b, Later(latest, Restart(now)), k) {
      assert TracksAt(a, b, latest, k);
      if k in a.saved {
        assert SessionOk(a.users, k, a.saved[k]);
        WholeSecondsStay(WholeSeconds(a.saved[k].expires));
      }
    }
  }

  lemma ResolveTracks(c: Crypto, a: Memory, b: Memory, latest: nat, token: string, now: nat)
    requires Tracks(a, b, latest)
    ensures Tracks(Resolve(c, a, token, now).0, Resolve(c, b, token, now).0, Later(latest, UserForToken(token, now)))
    ensures Resolve(c, a, token, now).1.Account? ==> Resolve(c, b, token, now).1 == Resolve(c, a, token, now).1
    ensures Resolve(c, a, token, now).1.Failed? && Resolve(c, b, token, now).1.Account? ==>
              && c.digest(token) in b.sessions
              && Nanos(WholeSeconds(b.sessions[c.digest(token)].expires)) <= (if latest >= now then latest else now)
  {
    hide IndexOfId, HasId, Nanos, WholeSeconds;
    var ra, rb := Resolve(c, a, token, now).0, Resolve(c, b, token, now).0;
    assert TracksAt(a, b, latest, c.digest(token));
    forall k ensures TracksAt(ra, rb, Later(latest, UserForToken(token, now)), k) {
      assert TracksAt(a, b, latest, k);
    }
  }

  lemma OpenTracks(c: Crypto, a: Memory, b: Memory, latest: nat, user: AuthUser, token: string, now: nat)
    requires Tracks(a, b, latest)
    ensures Tracks(Open(c, a, user, token, now).0, Open(c, b, user, token, now).0, latest)
  {
    var ra, rb := Open(c, a, user, token, now).0, Open(c, b, user, token, now).0;
    forall k ensures TracksAt(ra, rb, latest, k) {
      assert TracksAt(a, b, latest, k);
    }
  }

  lemma DropTracks(a: Memory, b: Memory, latest: nat, users: seq<StoredUser>, hash: string, id: string)
    requires Tracks(a, b, latest)
    ensures Tracks(Saving(a, a.sessions - {hash}), Saving(b, b.sessions - {hash}), latest)
    ensures Tracks(Saving(a.(users := users), WithoutUser(a.sessions, id)), Saving(b.(users := users), WithoutUser(b.sessions, id)), latest)
    ensures Tracks(a.(users := users), b.(users := users), latest)
  {
    hide Nanos, WholeSeconds;
    forall k ensures
      && TracksAt(Saving(a, a.sessions - {hash}), Saving(b, b.sessions - {hash}), latest, k)
      && TracksAt(Saving(a.(users := users), WithoutUser(a.sessions, id)), Saving(b.(users := users), WithoutUser(b.sessions, id)), latest, k)
      && TracksAt(a.(users := users), b.(users := users), latest, k)
    {
      assert TracksAt(a, b, latest, k);
    }
  }

  lemma AccountCallTracks(c: Crypto, a: Memory, b: Memory, latest: nat, call: Call)
    requires Tracks(a, b, latest)
    requires call.BootstrapAdmin? || call.CreateUser? || call.UpdateUser? || call.ImportUser? || call.DeleteUser? || call.Logout?
    ensures Tracks(Apply(c, a, call).0, Apply(c, b, call).0, latest)
    ensures Apply(c, a, call).1 == Apply(c, b, call).1
  {
    hide NormalizeEmail, Trim, ValidUuid, ValidRole, BadNewName, BadAddress, HasId, HasEmail, EmailTakenByOther, CountAdmins,
         IndexOfId, Updated, NewUser, WithoutUser, TracksAt;
    var hash := if call.Logout? then c.digest(call.token) else "";
    var id := if call.DeleteUser? then call.id else "";
    DropTracks(a, b, latest, Apply(c, b, call).0.users, hash, id);
  }

  lemma SignInTracks(c: Crypto, a: Memory, b: Memory, latest: nat, call: Call)
    requires Tracks(a, b, latest) && (call.RegisterAdmin? || call.Login?)
    ensures Tracks(Apply(c, a, call).0, Apply(c, b, call).0, latest)
    ensures Apply(c, a, call).1 == Apply(c, b, call).1
  {
    hide NormalizeEmail, ValidUuid, BadNewName, BadAddress, IndexOfEmail, NewUser, TracksAt, HasEmail;
    match call {
      case Login(email, password, token, now) =>
        var i := IndexOfEmail(a.users, NormalizeEmail(email));
        if i.Some? { OpenTracks(c, a, b, latest, a.users[i.value].publicUser, token, now); }
      case RegisterAdmin(name, email, password, id, salt, token, now) =>
        var made := BootstrapAdmin(name, email, password, id, salt);
        AccountCallTracks(c, a, b, latest, made);
        var r := Apply(c, a, made);
        if r.1.Account? { OpenTracks(c, r.0, Apply(c, b, made).0, latest, r.1.user, token, now); }
    }
  }

  lemma StepTracks(c: Crypto, a: Memory, b: Memory, latest: nat, call: Call)
    requires Inv(a) && Tracks(a, b, latest) && (call.Restart? ==> call.now >= latest)
    ensures Tracks(Apply(c, a, call).0, Uninterrupted(c, b, call).0, Later(latest, call))
    ensures !call.UserForToken? ==> Apply(c, a, call).1 == Uninterrupted(c, b, call).1
  {
    hide Inv, Tracks, Bootstrap, Register, LogIn, Create, Update, Delete, Import, Resolve, LogOut, Restarted;
    match call {
      case Restart(now) => RestartTracks(a, b, latest, now);
      case UserForToken(token, now) => ResolveTracks(c, a, b, latest, token, now);
      case Login(_, _, _, _) => SignInTracks(c, a, b, latest, call);
      case RegisterAdmin(_, _, _, _, _, _, _) => SignInTracks(c, a, b, latest, call);
      case _ => AccountCallTracks(c, a, b, latest, call);
    }
  }

  lemma EmptyTracks()
    ensures Tracks(EMPTY, EMPTY, 0)
  {
  }

  lemma RunTracksStep(c: Crypto, run: Run, kept: seq<Memory>, i: nat)
    requires CryptoOk(c) && IsRun(c, run) && IsUninterruptedRun(c, run.calls, kept) && i < |run.calls|
    requires ClockForward(run.calls)
    requires Tracks(run.states[i], kept[i], LatestClock(run.calls, i))
    ensures Tracks(run.states[i + 1], kept[i + 1], LatestClock(run.calls, i + 1))
  {
    hide Apply, Uninterrupted, CallOk, Inv, Tracks, CryptoOk, Later;
    RunKeepsInv(c, run, i);
    assert StepAt(c, run, i) && UninterruptedAt(c, run.calls, kept, i) && ClockForwardAt(run.calls, i);
    StepTracks(c, run.states[i], kept[i], LatestClock(run.calls, i), run.calls[i]);
  }

  lemma {:induction false} RunTracks(c: Crypto, run: Run, kept: seq<Memory>, n: nat)
    requires CryptoOk(c) && IsRun(c, run) && IsUninterruptedRun(c, run.calls, kept) && n <= |run.calls|
    requires ClockForward(run.calls)
    ensures Tracks(run.states[n], kept[n], LatestClock(run.calls, n))
  {
    hide StepAt, UninterruptedAt, Tracks, CryptoOk, Later, ClockForward;
    if n == 0 {
      EmptyTracks();
    } else {
      RunTracks(c, run, kept, n - 1);
      RunTracksStep(c, run, kept, n - 1);
    }
  }

  /** Restarting at any points of any run changes no account, lets a token resolve only to
      the user it resolves to without the restarts, and loses it only in the final second
      of its life. */
  lemma RestartsOnlyForget(c: Crypto, run: Run, kept: seq<Memory>, n: nat, token: string, now: nat)
    requires CryptoOk(c) && IsRun(c, run) && IsUninterruptedRun(c, run.calls, kept) && n <= |run.calls|
    requires ClockForward(run.calls)
    ensures run.states[n].users == kept[n].users
    ensures var with, without := Resolve(c, run.states[n], token, now).1, Resolve(c, kept[n], token, now).1;
            && (with.Account? ==> without == with)
            && (with.Failed? && without.Account? && LatestClock(run.calls, n) <= now ==>
                  && c.digest(token) in kept[n].sessions
                  && kept[n].sessions[c.digest(token)].expires - now < Nanos(1))
  {
    hide Apply, Uninterrupted, CallOk, Inv, CryptoOk, Later, TracksAt, Resolve;
    RunTracks(c, run, kept, n);
    ResolveTracks(c, run.states[n], kept[n], LatestClock(run.calls, n), token, now);
  }

  // ----- what memory holds of the disk -----

  /** The call wrote the sessions file. */
  predicate WritesSessions(c: Crypto, m: Memory, call: Call) {
    var reply := Apply(c, m, call).1;
    match call
    case RegisterAdmin(_, _, _, _, _, _, _) => reply.Opened?
    case Login(_, _, _, _) => reply.Opened?
    case DeleteUser(_, _) => reply.Done?
    case UserForToken(token, now) =>
      token != "" && c.digest(token) in m.sessions && m.sessions[c.digest(token)].expires <= now
    case Logout(token) => token != ""
    case _ => false
  }

  /** The clock of the last restart among the first `n` calls, if nothing was written since. */
  function LastLoad(c: Crypto, run: Run, n: nat): Option<nat>
    requires n <= |run.calls| < |run.states|
  {
    if n == 0 then None
    else if run.calls[n - 1].Restart? then Some(run.calls[n - 1].now)
    else if WritesSessions(c, run.states[n - 1], run.calls[n - 1]) then None
    else LastLoad(c, run, n - 1)
  }

  lemma LoadFollowsCall(c: Crypto, m: Memory, call: Call)
    ensures Apply(c, m, call).0.loadedAt ==
            if call.Restart? then Some(call.now) else if WritesSessions(c, m, call) then None else m.loadedAt
  {
    hide NormalizeEmail, Trim, ValidUuid, ValidRole, BadNewName, BadAddress, HasId, HasEmail, EmailTakenByOther, CountAdmins,
         IndexOfId, IndexOfEmail, Updated, NewUser, WithoutUser;
  }

  lemma {:induction false} LoadFollowsRun(c: Crypto, run: Run, n: nat)
    requires IsRun(c, run) && n <= |run.calls|
    ensures run.states[n].loadedAt == LastLoad(c, run, n)
  {
    hide Apply, CallOk, WritesSessions;
    if n > 0 {
      LoadFollowsRun(c, run, n - 1);
      LoadFollowsCall(c, run.states[n - 1], run.calls[n - 1]);
      assert StepAt(c, run, n - 1);
    }
  }

  /** In every state of every run the sessions in memory are the saved ones, or, if a restart
      came after the last write, what that restart restored of them. */
  lemma MemoryFollowsDisk(c: Crypto, run: Run, n: nat)
    requires CryptoOk(c) && IsRun(c, run) && n <= |run.calls|
    ensures var m := run.states[n];
            m.sessions == match LastLoad(c, run, n) case None => m.saved case Some(t) => Restored(m.saved, m.users, t)
  {
    hide StepAt, CryptoOk, UsersOk, Distinct, SessionsOk, Restored, LastLoad, Unexpired;
    RunKeepsInv(c, run, n);
    LoadFollowsRun(c, run, n);
    var m := run.states[n];
    if m.loadedAt.Some? { RestoredIsUnexpired(m.users, m.saved, m.loadedAt.value); }
  }

  /** Over every run: a restart at `now` brings back a session that memory does not hold,
      exactly when it expires after `now` but not after a restart since the last write; so
      exactly when the clock was set back. */
  lemma ClockSetBackRevives(c: Crypto, run: Run, n: nat, hash: string, now: nat)
    requires CryptoOk(c) && IsRun(c, run) && n <= |run.calls|
    ensures var m, load := run.states[n], LastLoad(c, run, n);
            (hash !in m.sessions && hash in Restarted(m, now).sessions) <==>
              hash in m.saved && load.Some? && now < Kept(m.saved[hash]) <= load.value
  {
    hide StepAt, CryptoOk, Inv, Restored, LastLoad, Kept;
    RunKeepsInv(c, run, n);
    LoadFollowsRun(c, run, n);
    RevivedIff(run.states[n], hash, now);
  }
}
