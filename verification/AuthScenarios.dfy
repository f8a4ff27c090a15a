/** What account operations mean for later logins and token lookups. */
module AuthScenarios {
  import opened Text
  import opened Duration
  import opened AuthText
  import opened AuthFiles
  import opened AuthMemory

  lemma OthersAreApart(m: Memory, i: nat)
    requires Distinct(m.users) && i < |m.users|
    ensures forall k :: 0 <= k < |m.users| && k != i ==> Apart(m.users[k], m.users[i])
  {
    forall k | 0 <= k < |m.users| && k != i ensures Apart(m.users[k], m.users[i]) {
      if k < i { assert Apart(m.users[k], m.users[i]); } else { assert Apart(m.users[i], m.users[k]); }
    }
  }

  /** In a sound store an address names one account. */
  lemma EmailFindsAccount(m: Memory, i: nat)
    requires Distinct(m.users) && i < |m.users|
    ensures IndexOfEmail(m.users, m.users[i].publicUser.email) == Some(i)
  {
    hide Distinct;
    OthersAreApart(m, i);
    assert HasEmail(m.users, m.users[i].publicUser.email);
  }

  lemma IdFindsAccount(m: Memory, i: nat)
    requires Distinct(m.users) && i < |m.users|
    ensures IndexOfId(m.users, m.users[i].publicUser.id) == Some(i)
  {
    hide Distinct;
    OthersAreApart(m, i);
    assert HasId(m.users, m.users[i].publicUser.id);
  }

  /** A login under any spelling of an account's address succeeds exactly with a password
      that derives its hash, and is then a session of that account. */
  lemma LoginDecision(c: Crypto, m: Memory, i: nat, rawEmail: string, password: string, token: string, now: nat)
    requires Inv(m) && i < |m.users| && NormalizeEmail(rawEmail) == m.users[i].publicUser.email
    ensures LogIn(c, m, rawEmail, password, token, now).1
         == if c.derive(password, m.users[i].salt) == m.users[i].passwordHash then Opened(m.users[i].publicUser, token)
            else Failed(Refused)
  {
    hide UsersOk, Distinct, SessionsOk, InMemory, NormalizeEmail, IndexOfEmail;
    EmailFindsAccount(m, i);
  }

  /** A created account can log in at once, under any spelling of its address, with its password. */
  lemma CreatedAccountLogsIn(c: Crypto, m: Memory, name: string, rawEmail: string, password: string, role: string,
                             id: string, salt: string, spelling: string, token: string, now: nat)
    requires CryptoOk(c) && Inv(m) && ValidUuid(id) && !HasId(m.users, id) && HexText(salt, 32)
    requires Create(c, m, name, rawEmail, password, role, id, salt).1.Account?
    requires NormalizeEmail(spelling) == NormalizeEmail(rawEmail)
    ensures var (made, reply) := Create(c, m, name, rawEmail, password, role, id, salt);
            && reply.user == AuthUser(id, Trim(name), NormalizeEmail(rawEmail), role)
            && LogIn(c, made, spelling, password, token, now).1 == Opened(reply.user, token)
  {
    hide Inv, CryptoOk, ValidUuid, HexText, HasId, HasEmail, NormalizeEmail, Trim, BadNewName, BadAddress, ValidRole, LogIn;
    var (made, reply) := Create(c, m, name, rawEmail, password, role, id, salt);
    CreateKeeps(c, m, name, rawEmail, password, role, id, salt);
    LoginDecision(c, made, |m.users|, spelling, password, token, now);
  }

  /** A session opened for a user resolves to that user for eight hours and not after. */
  lemma SessionLastsEightHours(c: Crypto, m: Memory, i: nat, token: string, now: nat, later: nat)
    requires Inv(m) && i < |m.users| && token != ""
    ensures Resolve(c, Open(c, m, m.users[i].publicUser, token, now).0, token, later).1
         == if later - now < Nanos(8 * 3600) then Account(m.users[i].publicUser) else Failed(Refused)
  {
    hide UsersOk, Distinct, SessionsOk, InMemory, IndexOfId;
    IdFindsAccount(m, i);
  }

  /** After a change of password the account logs in under its new address exactly with a
      password that derives the new hash; without one its old password still decides. */
  lemma UpdatedAccountLogsIn(c: Crypto, m: Memory, i: nat, name: string, rawEmail: string, role: string,
                             newPassword: string, salt: string, password: string, token: string, now: nat)
    requires CryptoOk(c) && Inv(m) && HexText(salt, 32) && i < |m.users|
    requires Update(c, m, m.users[i].publicUser.id, name, rawEmail, role, newPassword, salt).1.Account?
    ensures var u := m.users[i];
            var (after, reply) := Update(c, m, u.publicUser.id, name, rawEmail, role, newPassword, salt);
            && reply.user == AuthUser(u.publicUser.id, Trim(name), NormalizeEmail(rawEmail), role)
            && (LogIn(c, after, rawEmail, password, token, now).1 == Opened(reply.user, token) <==>
                  if newPassword == "" then c.derive(password, u.salt) == u.passwordHash
                  else c.derive(password, salt) == c.derive(newPassword, salt))
  {
    hide UsersOk, Distinct, SessionsOk, InMemory, CryptoOk, HexText, HasId, NormalizeEmail, Trim, BadNewName, BadAddress, ValidRole,
         LogIn, EmailTakenByOther, CountAdmins, IndexOfId;
    IdFindsAccount(m, i);
    UpdateKeeps(c, m, m.users[i].publicUser.id, name, rawEmail, role, newPassword, salt);
    var (after, reply) := Update(c, m, m.users[i].publicUser.id, name, rawEmail, role, newPassword, salt);
    LoginDecision(c, after, i, rawEmail, password, token, now);
  }

  /** A deletion that is not refused removes exactly that account. */
  lemma DeleteRemovesAccount(m: Memory, i: nat, actor: string)
    requires Inv(m) && i < |m.users|
    ensures var r := Delete(m, m.users[i].publicUser.id, actor); r.0 == if r.1.Done? then WithoutAccount(m, i) else m
  {
    hide UsersOk, Distinct, SessionsOk, InMemory, CountAdmins, IndexOfId;
    IdFindsAccount(m, i);
  }

  lemma RemainingAreApart(m: Memory, i: nat)
    requires Distinct(m.users) && i < |m.users|
    ensures forall k :: 0 <= k < |WithoutAccount(m, i).users| ==> Apart(WithoutAccount(m, i).users[k], m.users[i])
  {
    hide Distinct;
    OthersAreApart(m, i);
    var after := WithoutAccount(m, i);
    forall k | 0 <= k < |after.users| ensures Apart(after.users[k], m.users[i]) {
      assert after.users[k] == m.users[if k < i then k else k + 1];
    }
  }

  /** When a deletion is answered `Done`, that account cannot log in under any spelling of
      its address, and none of its tokens resolves, in memory or after any restart. */
  lemma DeletedAccountIsGone(c: Crypto, m: Memory, i: nat, actor: string, after: Memory,
                             rawEmail: string, password: string, token: string, now: nat, restart: nat)
    requires Inv(m) && i < |m.users| && Apply(c, m, DeleteUser(m.users[i].publicUser.id, actor)) == (after, Done)
    ensures NormalizeEmail(rawEmail) == m.users[i].publicUser.email ==>
              LogIn(c, after, rawEmail, password, token, now).1 == Failed(Refused)
    ensures Owns(m, m.users[i].publicUser.id, c.digest(token)) ==>
              && Resolve(c, after, token, now).1 == Failed(Refused)
              && Resolve(c, Restarted(after, restart), token, now).1 == Failed(Refused)
  {
    hide Inv, Apply, NormalizeEmail, LogIn, Resolve, Restarted, WithoutAccount, Owns, Distinct;
    AfterDelete(c, m, i, actor, after);
    if NormalizeEmail(rawEmail) == m.users[i].publicUser.email { CannotLogIn(c, m, i, rawEmail, password, token, now); }
    if Owns(m, m.users[i].publicUser.id, c.digest(token)) { NoSessions(c, m, i, token, now, restart); }
  }

  lemma AfterDelete(c: Crypto, m: Memory, i: nat, actor: string, after: Memory)
    requires Inv(m) && i < |m.users| && Apply(c, m, DeleteUser(m.users[i].publicUser.id, actor)) == (after, Done)
    ensures Distinct(m.users) && after == WithoutAccount(m, i)
  {
    hide Delete, WithoutAccount, UsersOk, SessionsOk, Distinct;
    DeleteRemovesAccount(m, i, actor);
  }

  lemma CannotLogIn(c: Crypto, m: Memory, i: nat, rawEmail: string, password: string, token: string, now: nat)
    requires Distinct(m.users) && i < |m.users| && NormalizeEmail(rawEmail) == m.users[i].publicUser.email
    ensures LogIn(c, WithoutAccount(m, i), rawEmail, password, token, now).1 == Failed(Refused)
  {
    hide NormalizeEmail, IndexOfEmail, Distinct;
    RemainingAreApart(m, i);
  }

  lemma NoSessions(c: Crypto, m: Memory, i: nat, token: string, now: nat, restart: nat)
    requires i < |m.users| && Owns(m, m.users[i].publicUser.id, c.digest(token))
    ensures Resolve(c, WithoutAccount(m, i), token, now).1 == Failed(Refused)
    ensures Resolve(c, Restarted(WithoutAccount(m, i), restart), token, now).1 == Failed(Refused)
  {
    hide IndexOfId;
  }

  /** An update or deletion leaves every other account, and every session of another
      account, as it was. */
  lemma OthersAreUnaffected(c: Crypto, m: Memory, call: Call, u: StoredUser, hash: string)
    requires (call.UpdateUser? || call.DeleteUser?) && u in m.users && u.publicUser.id != call.id
    ensures u in Apply(c, m, call).0.users
    ensures hash in m.sessions && m.sessions[hash].userId == u.publicUser.id ==>
              hash in Apply(c, m, call).0.sessions && Apply(c, m, call).0.sessions[hash] == m.sessions[hash]
  {
    hide NormalizeEmail, Trim, BadNewName, BadAddress, ValidRole, EmailTakenByOther, CountAdmins, HasId, IndexOfId, Updated;
    var i := IndexOfId(m.users, call.id);
    var after := Apply(c, m, call).0;
    if i.Some? {
      var k :| 0 <= k < |m.users| && m.users[k] == u;
      assert k != i.value;
      if call.UpdateUser? {
        assert after.users[k] == u;
      } else if after != m {
        assert after.users[if k < i.value then k else k - 1] == u;
      }
    }
  }

  // ----- whose session a login opens -----

  /** Sessions under other hashes and all accounts stay. */
  ghost predicate OnlySession(m: Memory, after: Memory, hash: string) {
    && after.users == m.users
    && (forall k :: k != hash ==> (k in after.sessions <==> k in m.sessions))
    && (forall k :: k != hash && k in m.sessions ==> after.sessions[k] == m.sessions[k])
  }

  lemma OpenIsOnlySession(c: Crypto, m: Memory, user: AuthUser, token: string, now: nat)
    ensures OnlySession(m, Open(c, m, user, token, now).0, c.digest(token))
  {
  }

  /** A login under any spelling of account `i`'s address with a password that derives its
      hash opens a session of that account: its token resolves to it for eight hours and not
      after, and nothing else changes. Any other password changes nothing at all. */
  lemma LoginOpensSession(c: Crypto, m: Memory, i: nat, rawEmail: string, password: string, token: string, now: nat, later: nat)
    requires Inv(m) && i < |m.users| && NormalizeEmail(rawEmail) == m.users[i].publicUser.email
    ensures var after := LogIn(c, m, rawEmail, password, token, now).0;
            if c.derive(password, m.users[i].salt) == m.users[i].passwordHash then
              && OnlySession(m, after, c.digest(token))
              && (token != "" ==>
                    Resolve(c, after, token, later).1
                    == if later - now < Nanos(8 * 3600) then Account(m.users[i].publicUser) else Failed(Refused))
            else after == m
  {
    hide UsersOk, Distinct, SessionsOk, InMemory, NormalizeEmail, IndexOfEmail, Open, Resolve, OnlySession;
    EmailFindsAccount(m, i);
    OpenIsOnlySession(c, m, m.users[i].publicUser, token, now);
    if token != "" { SessionLastsEightHours(c, m, i, token, now, later); }
  }

  /** An address that is no account's is refused and changes nothing. */
  lemma UnknownAddressIsRefused(c: Crypto, m: Memory, rawEmail: string, password: string, token: string, now: nat)
    requires forall i :: 0 <= i < |m.users| ==> m.users[i].publicUser.email != NormalizeEmail(rawEmail)
    ensures LogIn(c, m, rawEmail, password, token, now) == (m, Failed(Refused))
  {
    hide NormalizeEmail, IndexOfEmail;
  }

  /** Bootstrap makes an administrator out of valid fields, in an empty store only. */
  lemma BootstrapDecision(c: Crypto, m: Memory, name: string, rawEmail: string, password: string, id: string, salt: string)
    ensures Bootstrap(c, m, name, rawEmail, password, id, salt) ==
            var email := NormalizeEmail(rawEmail);
            if m.users == [] && |name| >= 2 && ValidField(name) && |password| >= 12 && '@' in email && ValidField(email) then
              (m.(users := [StoredUser(AuthUser(id, name, email, "admin"), salt, c.derive(password, salt))]),
               Account(AuthUser(id, name, email, "admin")))
            else (m, Failed(Refused))
  {
    hide NormalizeEmail, ValidField;
    var u := NewUser(c, id, name, NormalizeEmail(rawEmail), "admin", password, salt);
    assert m.users == [] ==> m.users + [u] == [u];
  }

  /** Registering the first administrator also opens its session. */
  lemma RegisterOpensSession(c: Crypto, m: Memory, name: string, rawEmail: string, password: string, id: string, salt: string,
                             token: string, now: nat, later: nat)
    requires Inv(m) && CryptoOk(c) && ValidUuid(id) && HexText(salt, 32)
    ensures var made := Bootstrap(c, m, name, rawEmail, password, id, salt);
            var (after, reply) := Register(c, m, name, rawEmail, password, id, salt, token, now);
            if made.1.Account? then
              && reply == Opened(made.1.user, token)
              && OnlySession(made.0, after, c.digest(token))
              && (token != "" ==>
                    Resolve(c, after, token, later).1
                    == if later - now < Nanos(8 * 3600) then Account(made.1.user) else Failed(Refused))
            else after == m && reply == made.1
  {
    hide Inv, CryptoOk, ValidUuid, HexText, Bootstrap, Open, Resolve, OnlySession, Nanos;
    var made := Bootstrap(c, m, name, rawEmail, password, id, salt);
    BootstrapKeeps(c, m, name, rawEmail, password, id, salt);
    if made.1.Account? {
      OpenIsOnlySession(c, made.0, made.1.user, token, now);
      OpenReplies(c, made.0, made.1.user, token, now);
      if token != "" { SessionLastsEightHours(c, made.0, |made.0.users| - 1, token, now, later); }
    }
  }

  lemma OpenReplies(c: Crypto, m: Memory, user: AuthUser, token: string, now: nat)
    ensures Open(c, m, user, token, now).1 == Opened(user, token)
  {
  }

  /** Logging out removes that token's session and leaves every other one. */
  lemma LogoutEndsOnlyThat(c: Crypto, m: Memory, token: string)
    ensures var after := LogOut(c, m, token).0;
            if token == "" then after == m else OnlySession(m, after, c.digest(token)) && c.digest(token) !in after.sessions
  {
  }

  // ----- exactly when an account operation is refused -----

  predicate EmailUsed(m: Memory, email: string) {
    exists j :: 0 <= j < |m.users| && m.users[j].publicUser.email == email
  }

  predicate GoodName(name: string) { |name| >= 2 && ValidField(name) }

  predicate GoodAddress(email: string) { '@' in email && ValidField(email) }

  /** Creating answers with the first fault, and otherwise appends exactly this account. */
  lemma CreateDecision(c: Crypto, m: Memory, rawName: string, rawEmail: string, password: string, role: string, id: string, salt: string)
    ensures var (after, reply) := Create(c, m, rawName, rawEmail, password, role, id, salt);
            var name, email := Trim(rawName), NormalizeEmail(rawEmail);
            var unused, named, addressed := !EmailUsed(m, email), GoodName(name), GoodAddress(email);
            && (reply == Failed(DuplicateEmail) <==> !unused)
            && (reply == Failed(BadName) <==> unused && !named)
            && (reply == Failed(BadEmail) <==> unused && named && !addressed)
            && (reply == Failed(BadPassword) <==> unused && named && addressed && |password| < 12)
            && (reply == Failed(BadRole) <==> unused && named && addressed && |password| >= 12 && !ValidRole(role))
            && (reply.Failed? ==> after == m)
            && (!reply.Failed? ==>
                  && reply == Account(AuthUser(id, name, email, role))
                  && after == m.(users := m.users + [StoredUser(AuthUser(id, name, email, role), salt, c.derive(password, salt))]))
  {
    hide NormalizeEmail, Trim, ValidField, ValidRole;
  }

  /** An import is refused exactly for a used id or address or an invalid field, and otherwise
      appends exactly this account, with the role given. */
  lemma ImportDecision(c: Crypto, m: Memory, id: string, name: string, rawEmail: string, password: string, role: string, salt: string)
    ensures var email := NormalizeEmail(rawEmail);
            Import(c, m, id, name, rawEmail, password, role, salt) ==
            if (forall j :: 0 <= j < |m.users| ==> m.users[j].publicUser.id != id && m.users[j].publicUser.email != email)
               && ValidUuid(id) && GoodName(name) && |password| >= 12 && GoodAddress(email) && ValidRole(role)
            then (m.(users := m.users + [StoredUser(AuthUser(id, name, email, role), salt, c.derive(password, salt))]),
                  Account(AuthUser(id, name, email, role)))
            else (m, Failed(Refused))
  {
    hide NormalizeEmail, ValidField, ValidRole, ValidUuid;
  }

  /** The user is an administrator and there is no other. */
  predicate OnlyAdmin(m: Memory, i: nat)
    requires i < |m.users|
  {
    IsAdmin(m.users[i]) && forall j :: 0 <= j < |m.users| && IsAdmin(m.users[j]) ==> j == i
  }

  lemma {:induction false} CountAtLeast(users: seq<StoredUser>, i: nat)
    requires i < |users| && IsAdmin(users[i])
    ensures CountAdmins(users) >= 1
  {
    if i > 0 { CountAtLeast(users[1..], i - 1); }
  }

  lemma {:induction false} CountTwo(users: seq<StoredUser>, i: nat, j: nat)
    requires i < j < |users| && IsAdmin(users[i]) && IsAdmin(users[j])
    ensures CountAdmins(users) >= 2
  {
    if i == 0 { CountAtLeast(users[1..], j - 1); } else { CountTwo(users[1..], i - 1, j - 1); }
  }

  /** Counting at most one administrator says that this one is the only one. */
  lemma CountMeansOnly(m: Memory, i: nat)
    requires i < |m.users|
    ensures IsAdmin(m.users[i]) && CountAdmins(m.users) <= 1 <==> OnlyAdmin(m, i)
  {
    hide CountAdmins;
    if IsAdmin(m.users[i]) && CountAdmins(m.users) <= 1 {
      forall j | 0 <= j < |m.users| && IsAdmin(m.users[j]) ensures j == i {
        if j < i { CountTwo(m.users, j, i); }
        if i < j { CountTwo(m.users, i, j); }
      }
    }
    if OnlyAdmin(m, i) && CountAdmins(m.users) > 1 {
      var j := AnotherAdmin(m.users, i);
      assert false;
    }
  }

  /** No other account has the address. */
  predicate EmailFree(m: Memory, i: nat, email: string) {
    forall j :: 0 <= j < |m.users| && j != i ==> m.users[j].publicUser.email != email
  }

  /** The account an update makes of another. */
  function Renewed(c: Crypto, u: StoredUser, name: string, email: string, role: string, password: string, salt: string): StoredUser {
    var public := AuthUser(u.publicUser.id, name, email, role);
    if password == "" then StoredUser(public, u.salt, u.passwordHash) else StoredUser(public, salt, c.derive(password, salt))
  }

  /** Updating answers with the first fault, and otherwise replaces exactly this account. */
  lemma UpdateDecision(c: Crypto, m: Memory, i: nat, rawName: string, rawEmail: string, role: string, password: string, salt: string)
    requires Distinct(m.users) && i < |m.users|
    ensures var name, email := Trim(rawName), NormalizeEmail(rawEmail);
            Update(c, m, m.users[i].publicUser.id, rawName, rawEmail, role, password, salt) ==
            if !EmailFree(m, i, email) then (m, Failed(DuplicateEmail))
            else if !GoodName(name) then (m, Failed(BadName))
            else if !GoodAddress(email) then (m, Failed(BadEmail))
            else if !ValidRole(role) then (m, Failed(BadRole))
            else if OnlyAdmin(m, i) && role != "admin" then (m, Failed(LastAdmin))
            else if 0 < |password| < 12 then (m, Failed(BadPassword))
            else
              var u := Renewed(c, m.users[i], name, email, role, password, salt);
              (m.(users := m.users[i := u]), Account(u.publicUser))
  {
    hide Distinct, NormalizeEmail, Trim, ValidField, ValidRole, CountAdmins, IndexOfId, OnlyAdmin, EmailFree, EmailTakenByOther;
    IdFindsAccount(m, i);
    CountMeansOnly(m, i);
    TakenByOther(m, i, NormalizeEmail(rawEmail));
  }

  lemma TakenByOther(m: Memory, i: nat, email: string)
    requires Distinct(m.users) && i < |m.users|
    ensures EmailTakenByOther(m.users, m.users[i].publicUser.id, email) <==> !EmailFree(m, i, email)
  {
    hide Distinct;
    OthersAreApart(m, i);
  }

  /** Deleting is refused exactly for one's own account and for the only administrator. */
  lemma DeleteDecision(m: Memory, i: nat, actor: string)
    requires Distinct(m.users) && i < |m.users|
    ensures Delete(m, m.users[i].publicUser.id, actor) ==
            if m.users[i].publicUser.id == actor then (m, Failed(OwnAccount))
            else if OnlyAdmin(m, i) then (m, Failed(LastAdmin))
            else (WithoutAccount(m, i), Done)
  {
    hide Distinct, CountAdmins, IndexOfId, WithoutAccount, OnlyAdmin;
    IdFindsAccount(m, i);
    CountMeansOnly(m, i);
  }

  /** Updating or deleting an id that no account has changes nothing. */
  lemma UnknownIdIsRefused(c: Crypto, m: Memory, id: string, name: string, email: string, role: string, password: string,
                           salt: string, actor: string)
    requires forall j :: 0 <= j < |m.users| ==> m.users[j].publicUser.id != id
    ensures Update(c, m, id, name, email, role, password, salt) == (m, Failed(NotFound))
    ensures Delete(m, id, actor) == (m, Failed(NotFound))
  {
    hide NormalizeEmail, Trim, IndexOfId;
  }
}
