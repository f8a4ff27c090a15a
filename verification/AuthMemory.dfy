/** The account store's operations on its in-memory state, as values. Random values, the
    clock and the two hash functions are inputs. */
module AuthMemory {
  import opened Text
  import opened Duration
  import opened AuthText
  import opened AuthFiles

  const SESSION_LIFETIME: nat := 28_800_000_000_000

  datatype Crypto = Crypto(digest: string -> string, derive: (string, string) -> string)

  /** Both hash functions give 64 hexadecimal digits. */
  ghost predicate CryptoOk(c: Crypto) {
    && (forall t :: IsHash(c.digest(t)))
    && (forall p, s :: IsHash(c.derive(p, s)))
  }

  /** `saved` is the session map as it was last written to disk. A restart reloads it
      without writing, so it may still hold sessions the memory has dropped; `loadedAt` is
      the clock of the last restart if nothing was written since. */
  datatype Memory = Memory(
    users: seq<StoredUser>, sessions: map<string, Session>, saved: map<string, Session>, loadedAt: Option<nat>)

  const EMPTY := Memory([], map[], map[], None)

  function Saving(m: Memory, sessions: map<string, Session>): Memory {
    m.(sessions := sessions, saved := sessions, loadedAt := None)
  }

  datatype Error = Refused | NotFound | DuplicateEmail | BadName | BadEmail | BadPassword | BadRole | LastAdmin | OwnAccount

  datatype Reply = Failed(error: Error) | Account(user: AuthUser) | Opened(user: AuthUser, token: string) | Done

  datatype Call =
    | BootstrapAdmin(name: string, email: string, password: string, newId: string, salt: string)
    | RegisterAdmin(name: string, email: string, password: string, newId: string, salt: string, token: string, now: nat)
    | Login(email: string, password: string, token: string, now: nat)
    | CreateUser(name: string, email: string, password: string, role: string, newId: string, salt: string)
    | UpdateUser(id: string, name: string, email: string, role: string, password: string, salt: string)
    | DeleteUser(id: string, actor: string)
    | ImportUser(id: string, name: string, email: string, password: string, role: string, salt: string)
    | UserForToken(token: string, now: nat)
    | Logout(token: string)
    | Restart(now: nat)

  // ----- searches -----

  function IndexOfId(users: seq<StoredUser>, id: string): (r: Option<nat>)
    ensures r.None? <==> !HasId(users, id)
    ensures r.Some? ==> r.value < |users| && users[r.value].publicUser.id == id
  {
    if users == [] then None
    else if users[0].publicUser.id == id then Some(0)
    else
      var r := IndexOfId(users[1..], id);
      assert HasId(users[1..], id) ==> HasId(users, id);
      if r.None? then None else Some(r.value + 1)
  }

  predicate HasEmail(users: seq<StoredUser>, email: string) {
    exists i :: 0 <= i < |users| && users[i].publicUser.email == email
  }

  function IndexOfEmail(users: seq<StoredUser>, email: string): (r: Option<nat>)
    ensures r.None? <==> !HasEmail(users, email)
    ensures r.Some? ==> r.value < |users| && users[r.value].publicUser.email == email
  {
    if users == [] then None
    else if users[0].publicUser.email == email then Some(0)
    else
      var r := IndexOfEmail(users[1..], email);
      assert HasEmail(users[1..], email) ==> HasEmail(users, email);
      if r.None? then None else Some(r.value + 1)
  }

  predicate EmailTakenByOther(users: seq<StoredUser>, id: string, email: string) {
    exists i :: 0 <= i < |users| && users[i].publicUser.id != id && users[i].publicUser.email == email
  }

  predicate IsAdmin(u: StoredUser) { u.publicUser.role == "admin" }

  function CountAdmins(users: seq<StoredUser>): nat {
    if users == [] then 0 else (if IsAdmin(users[0]) then 1 else 0) + CountAdmins(users[1..])
  }

  // ----- operations -----

  function NewUser(c: Crypto, id: string, name: string, email: string, role: string, password: string, salt: string): StoredUser {
    StoredUser(AuthUser(id, name, email, role), salt, c.derive(password, salt))
  }

  function Added(m: Memory, u: StoredUser): (Memory, Reply) {
    (m.(users := m.users + [u]), Account(u.publicUser))
  }

  function Open(c: Crypto, m: Memory, user: AuthUser, token: string, now: nat): (Memory, Reply) {
    (Saving(m, m.sessions[c.digest(token) := Session(user.id, now + SESSION_LIFETIME)]), Opened(user, token))
  }

  predicate BadNewName(name: string) { |name| < 2 || !ValidField(name) }

  predicate BadAddress(email: string) { '@' !in email || !ValidField(email) }

  function Bootstrap(c: Crypto, m: Memory, name: string, rawEmail: string, password: string, id: string, salt: string): (Memory, Reply) {
    var email := NormalizeEmail(rawEmail);
    if m.users != [] || BadNewName(name) || |password| < 12 || BadAddress(email) then (m, Failed(Refused))
    else Added(m, NewUser(c, id, name, email, "admin", password, salt))
  }

  function Register(c: Crypto, m: Memory, name: string, rawEmail: string, password: string, id: string, salt: string,
                    token: string, now: nat): (Memory, Reply) {
    var (made, reply) := Bootstrap(c, m, name, rawEmail, password, id, salt);
    if reply.Account? then Open(c, made, reply.user, token, now) else (m, reply)
  }

  /** An unknown address is checked against the all-zero hash and refused all the same. */
  function LogIn(c: Crypto, m: Memory, rawEmail: string, password: string, token: string, now: nat): (Memory, Reply) {
    match IndexOfEmail(m.users, NormalizeEmail(rawEmail))
    case None => (m, Failed(Refused))
    case Some(i) =>
      if c.derive(password, m.users[i].salt) != m.users[i].passwordHash then (m, Failed(Refused))
      else Open(c, m, m.users[i].publicUser, token, now)
  }

  function Create(c: Crypto, m: Memory, rawName: string, rawEmail: string, password: string, role: string, id: string, salt: string): (Memory, Reply) {
    var name, email := Trim(rawName), NormalizeEmail(rawEmail);
    if HasEmail(m.users, email) then (m, Failed(DuplicateEmail))
    else if BadNewName(name) then (m, Failed(BadName))
    else if BadAddress(email) then (m, Failed(BadEmail))
    else if |password| < 12 then (m, Failed(BadPassword))
    else if !ValidRole(role) then (m, Failed(BadRole))
    else Added(m, NewUser(c, id, name, email, role, password, salt))
  }

  function Updated(c: Crypto, u: StoredUser, name: string, email: string, role: string, password: string, salt: string): StoredUser {
    var public := u.publicUser.(name := name, email := email, role := role);
    if password == "" then u.(publicUser := public)
    else StoredUser(public, salt, c.derive(password, salt))
  }

  function Update(c: Crypto, m: Memory, id: string, rawName: string, rawEmail: string, role: string, password: string, salt: string): (Memory, Reply) {
    var name, email := Trim(rawName), NormalizeEmail(rawEmail);
    match IndexOfId(m.users, id)
    case None => (m, Failed(NotFound))
    case Some(i) =>
      if EmailTakenByOther(m.users, id, email) then (m, Failed(DuplicateEmail))
      else if BadNewName(name) then (m, Failed(BadName))
      else if BadAddress(email) then (m, Failed(BadEmail))
      else if !ValidRole(role) then (m, Failed(BadRole))
      else if IsAdmin(m.users[i]) && role != "admin" && CountAdmins(m.users) <= 1 then (m, Failed(LastAdmin))
      else if password != "" && |password| < 12 then (m, Failed(BadPassword))
      else
        var u := Updated(c, m.users[i], name, email, role, password, salt);
        (m.(users := m.users[i := u]), Account(u.publicUser))
  }

  function WithoutUser(sessions: map<string, Session>, id: string): map<string, Session> {
    map k | k in sessions && sessions[k].userId != id :: sessions[k]
  }

  function WithoutAccount(m: Memory, i: nat): Memory
    requires i < |m.users|
  {
    Saving(m.(users := m.users[..i] + m.users[i + 1..]), WithoutUser(m.sessions, m.users[i].publicUser.id))
  }

  function Delete(m: Memory, id: string, actor: string): (Memory, Reply) {
    match IndexOfId(m.users, id)
    case None => (m, Failed(NotFound))
    case Some(i) =>
      if id == actor then (m, Failed(OwnAccount))
      else if IsAdmin(m.users[i]) && CountAdmins(m.users) <= 1 then (m, Failed(LastAdmin))
      else (WithoutAccount(m, i), Done)
  }

  function Import(c: Crypto, m: Memory, id: string, name: string, rawEmail: string, password: string, role: string, salt: string): (Memory, Reply) {
    var email := NormalizeEmail(rawEmail);
    if HasId(m.users, id) || HasEmail(m.users, email) || !ValidUuid(id) || BadNewName(name) ||
       |password| < 12 || BadAddress(email) || !ValidRole(role) then (m, Failed(Refused))
    else Added(m, NewUser(c, id, name, email, role, password, salt))
  }

  function Resolve(c: Crypto, m: Memory, token: string, now: nat): (Memory, Reply) {
    var hash := c.digest(token);
    if token == "" || hash !in m.sessions then (m, Failed(Refused))
    else if m.sessions[hash].expires <= now then (Saving(m, m.sessions - {hash}), Failed(Refused))
    else
      match IndexOfId(m.users, m.sessions[hash].userId)
      case None => (m, Failed(Refused))
      case Some(i) => (m, Account(m.users[i].publicUser))
  }

  function LogOut(c: Crypto, m: Memory, token: string): (Memory, Reply) {
    if token == "" then (m, Done) else (Saving(m, m.sessions - {c.digest(token)}), Done)
  }

  /** What loading both files gives. */
  function Restarted(m: Memory, now: nat): Memory {
    m.(sessions := Restored(m.saved, m.users, now), loadedAt := Some(now))
  }

  function Apply(c: Crypto, m: Memory, call: Call): (Memory, Reply) {
    match call
    case BootstrapAdmin(name, email, password, id, salt) => Bootstrap(c, m, name, email, password, id, salt)
    case RegisterAdmin(name, email, password, id, salt, token, now) => Register(c, m, name, email, password, id, salt, token, now)
    case Login(email, password, token, now) => LogIn(c, m, email, password, token, now)
    case CreateUser(name, email, password, role, id, salt) => Create(c, m, name, email, password, role, id, salt)
    case UpdateUser(id, name, email, role, password, salt) => Update(c, m, id, name, email, role, password, salt)
    case DeleteUser(id, actor) => Delete(m, id, actor)
    case ImportUser(id, name, email, password, role, salt) => Import(c, m, id, name, email, password, role, salt)
    case UserForToken(token, now) => Resolve(c, m, token, now)
    case Logout(token) => LogOut(c, m, token)
    case Restart(now) => (Restarted(m, now), Done)
  }

  // ----- the invariant -----

  predicate UserOk(u: StoredUser) {
    && ValidUuid(u.publicUser.id)
    && !BadNewName(u.publicUser.name)
    && !BadAddress(u.publicUser.email)
    && NormalizeEmail(u.publicUser.email) == u.publicUser.email
    && ValidRole(u.publicUser.role)
    && HexText(u.salt, 32)
    && IsHash(u.passwordHash)
  }

  predicate UsersOk(users: seq<StoredUser>) { forall i :: 0 <= i < |users| ==> UserOk(users[i]) }

  predicate Apart(u: StoredUser, v: StoredUser) {
    u.publicUser.id != v.publicUser.id && u.publicUser.email != v.publicUser.email
  }

  /** Identifiers and addresses are pairwise distinct. */
  predicate Distinct(users: seq<StoredUser>) {
    forall i, j :: 0 <= i < j < |users| ==> Apart(users[i], users[j])
  }

  predicate SessionOk(users: seq<StoredUser>, hash: string, s: Session) {
    IsHash(hash) && HasId(users, s.userId) && ClockRange(s.expires)
  }

  predicate SessionsOk(users: seq<StoredUser>, sessions: map<string, Session>) {
    forall k :: k in sessions ==> SessionOk(users, k, sessions[k])
  }

  /** The expiry a restart would see. */
  function Kept(s: Session): nat { Nanos(WholeSeconds(s.expires)) }

  function Unexpired(sessions: map<string, Session>, t: nat): map<string, Session> {
    map k | k in sessions && Kept(sessions[k]) > t :: Truncated(sessions[k])
  }

  /** Memory holds what is on disk, or what the last restart left of it. */
  predicate InMemory(m: Memory) {
    m.sessions == if m.loadedAt.None? then m.saved else Unexpired(m.saved, m.loadedAt.value)
  }

  predicate Inv(m: Memory) {
    && UsersOk(m.users) && Distinct(m.users)
    && SessionsOk(m.users, m.sessions) && SessionsOk(m.users, m.saved)
    && InMemory(m)
  }

  /** Every saved session has an owner, so a restart drops only expired ones. */
  lemma RestoredIsUnexpired(users: seq<StoredUser>, sessions: map<string, Session>, t: nat)
    requires SessionsOk(users, sessions)
    ensures Restored(sessions, users, t) == Unexpired(sessions, t)
  {
    hide IsHash, HasId;
    forall k | k in sessions ensures HasId(users, sessions[k].userId) {
      assert SessionOk(users, k, sessions[k]);
    }
  }

  /** Disk and memory agree: a restart at `now` gives what truncating the sessions in memory
      gives, exactly when nothing was loaded since the last write or no saved session expires
      after `now` but not after that load. No premise about the clock. */
  lemma DiskAgreesIff(m: Memory, now: nat)
    requires Inv(m)
    ensures Restored(m.saved, m.users, now) == Restored(m.sessions, m.users, now) <==>
              m.loadedAt.None? || forall k :: k in m.saved ==> !(now < Kept(m.saved[k]) <= m.loadedAt.value)
  {
    hide UsersOk, Distinct, SessionsOk, Restored, Kept, Truncated;
    RestoredIsUnexpired(m.users, m.saved, now);
    RestoredIsUnexpired(m.users, m.sessions, now);
    if m.loadedAt.Some? {
      UnexpiredTwice(m.saved, m.loadedAt.value, now);
    }
  }

  lemma TruncatedTwice(s: Session)
    ensures Truncated(Truncated(s)) == Truncated(s) && Kept(Truncated(s)) == Kept(s)
  {
  }

  lemma UnexpiredTwice(sessions: map<string, Session>, t: nat, now: nat)
    ensures Unexpired(Unexpired(sessions, t), now) == Unexpired(sessions, now) <==>
              forall k :: k in sessions ==> !(now < Kept(sessions[k]) <= t)
  {
    hide Kept, Truncated;
    var a, b := Unexpired(Unexpired(sessions, t), now), Unexpired(sessions, now);
    forall k | k in sessions
      ensures Truncated(Truncated(sessions[k])) == Truncated(sessions[k])
      ensures Kept(Truncated(sessions[k])) == Kept(sessions[k])
    {
      TruncatedTwice(sessions[k]);
    }
    forall k | k in sessions && now < Kept(sessions[k]) <= t ensures k in b && k !in a {}
  }

  /** A restart brings back a session the memory no longer holds exactly when the clock was
      set back past its expiry since the restart that dropped it. */
  lemma RevivedIff(m: Memory, hash: string, now: nat)
    requires Inv(m)
    ensures (hash !in m.sessions && hash in Restarted(m, now).sessions) <==>
              hash in m.saved && m.loadedAt.Some? && now < Kept(m.saved[hash]) <= m.loadedAt.value
  {
    hide UsersOk, Distinct, SessionsOk, Restored, Kept, Truncated;
    RestoredIsUnexpired(m.users, m.saved, now);
  }

  /** The session belongs to the user, in memory or, if memory has dropped it, on disk. */
  predicate Owns(m: Memory, id: string, hash: string) {
    if hash in m.sessions then m.sessions[hash].userId == id else hash in m.saved && m.saved[hash].userId == id
  }

  predicate HasAdmin(m: Memory) { exists i :: 0 <= i < |m.users| && IsAdmin(m.users[i]) }

  /** Random values have their shape, new identifiers are fresh, the clock is in range. */
  predicate CallOk(m: Memory, call: Call) {
    && (call.BootstrapAdmin? || call.RegisterAdmin? || call.CreateUser? ==>
          ValidUuid(call.newId) && !HasId(m.users, call.newId))
    && (call.BootstrapAdmin? || call.RegisterAdmin? || call.CreateUser? || call.UpdateUser? || call.ImportUser? ==>
          HexText(call.salt, 32))
    && (call.RegisterAdmin? || call.Login? ==> ClockRange(call.now + SESSION_LIFETIME))
  }

  lemma UserIsStorable(u: StoredUser)
    requires UserOk(u)
    ensures Storable(u)
  {
    hide ValidUuid, HexText, NormalizeEmail, ValidRole, ValidField;
    UuidIsField(u.publicUser.id);
    RoleIsField(u.publicUser.role);
    HexIsField(u.salt, 32);
    HexIsField(u.passwordHash, 64);
  }

  /** Everything the invariant admits survives the two files. */
  lemma InvIsStorable(m: Memory)
    requires Inv(m)
    ensures AllStorable(m.users)
    ensures forall k :: k in m.saved ==> StorableSession(k, m.saved[k])
  {
    hide UserOk, Storable, ValidUuid, IsHash;
    forall i | 0 <= i < |m.users| ensures Storable(m.users[i]) { UserIsStorable(m.users[i]); }
    forall k | k in m.saved ensures StorableSession(k, m.saved[k]) {
      assert SessionOk(m.users, k, m.saved[k]);
      var i :| 0 <= i < |m.users| && m.users[i].publicUser.id == m.saved[k].userId;
      assert UserOk(m.users[i]);
      IdIsUuid(m.users[i]);
      UuidIsField(m.users[i].publicUser.id);
    }
  }

  lemma IdIsUuid(u: StoredUser)
    requires UserOk(u)
    ensures ValidUuid(u.publicUser.id)
  {
  }

  // ----- the four ways memory changes -----

  /** Sessions follow their owners when the user list changes. */
  lemma OwnersRemain(users: seq<StoredUser>, other: seq<StoredUser>, sessions: map<string, Session>)
    requires SessionsOk(users, sessions)
    requires forall k :: k in sessions ==>
               forall i :: 0 <= i < |users| && users[i].publicUser.id == sessions[k].userId ==>
                 HasId(other, users[i].publicUser.id)
    ensures SessionsOk(other, sessions)
  {
    hide IsHash;
    forall k | k in sessions ensures SessionOk(other, k, sessions[k]) {
      assert SessionOk(users, k, sessions[k]);
      var i :| 0 <= i < |users| && users[i].publicUser.id == sessions[k].userId;
    }
  }

  lemma AddKeeps(m: Memory, u: StoredUser)
    requires Inv(m) && UserOk(u) && !HasId(m.users, u.publicUser.id) && !HasEmail(m.users, u.publicUser.email)
    ensures Inv(m.(users := m.users + [u]))
  {
    hide UserOk, SessionsOk;
    var users := m.users + [u];
    forall i | 0 <= i < |m.users| ensures HasId(users, m.users[i].publicUser.id) {
      assert users[i] == m.users[i];
    }
    OwnersRemain(m.users, users, m.sessions);
    OwnersRemain(m.users, users, m.saved);
  }

  lemma ReplaceKeeps(m: Memory, i: nat, u: StoredUser)
    requires Inv(m) && UserOk(u) && i < |m.users| && u.publicUser.id == m.users[i].publicUser.id
    requires !EmailTakenByOther(m.users, u.publicUser.id, u.publicUser.email)
    ensures Inv(m.(users := m.users[i := u]))
  {
    hide UserOk, SessionsOk;
    var users := m.users[i := u];
    forall j, k | 0 <= j < k < |users| ensures Apart(users[j], users[k]) {
      assert Apart(m.users[j], m.users[k]);
    }
    forall j | 0 <= j < |m.users| ensures HasId(users, m.users[j].publicUser.id) {
      assert users[j].publicUser.id == m.users[j].publicUser.id;
    }
    OwnersRemain(m.users, users, m.sessions);
    OwnersRemain(m.users, users, m.saved);
  }

  lemma RemoveKeeps(m: Memory, i: nat)
    requires Inv(m) && i < |m.users|
    ensures Inv(WithoutAccount(m, i))
  {
    hide UserOk, SessionOk;
    var users := WithoutAccount(m, i).users;
    var id := m.users[i].publicUser.id;
    forall j, k | 0 <= j < k < |users| ensures Apart(users[j], users[k]) {
      assert Apart(m.users[if j < i then j else j + 1], m.users[if k < i then k else k + 1]);
    }
    forall j | 0 <= j < |m.users| && m.users[j].publicUser.id != id ensures HasId(users, m.users[j].publicUser.id) {
      assert users[if j < i then j else j - 1] == m.users[j];
    }
    OwnersRemain(m.users, users, WithoutUser(m.sessions, id));
  }

  lemma OpenKeeps(c: Crypto, m: Memory, i: nat, token: string, now: nat)
    requires Inv(m) && CryptoOk(c) && i < |m.users| && ClockRange(now + SESSION_LIFETIME)
    ensures Inv(Open(c, m, m.users[i].publicUser, token, now).0)
  {
    hide UserOk, IsHash;
    assert IsHash(c.digest(token));
  }

  lemma RestartKeeps(m: Memory, now: nat)
    requires Inv(m)
    ensures Inv(Restarted(m, now))
  {
    hide UserOk, IsHash;
    forall k | k in Restarted(m, now).sessions ensures SessionOk(m.users, k, Restarted(m, now).sessions[k]) {
      assert SessionOk(m.users, k, m.saved[k]);
    }
    RestoredIsUnexpired(m.users, m.saved, now);
  }

  lemma NewUserOk(c: Crypto, id: string, name: string, rawEmail: string, role: string, password: string, salt: string)
    requires CryptoOk(c) && ValidUuid(id) && HexText(salt, 32) && ValidRole(role)
    requires !BadNewName(name) && !BadAddress(NormalizeEmail(rawEmail))
    ensures UserOk(NewUser(c, id, name, NormalizeEmail(rawEmail), role, password, salt))
  {
    hide ValidUuid, HexText, NormalizeEmail, BadNewName, BadAddress;
    NormalizeFixedPoints(rawEmail);
    assert IsHash(c.derive(password, salt));
  }

  lemma UpdatedOk(c: Crypto, u: StoredUser, name: string, rawEmail: string, role: string, password: string, salt: string)
    requires CryptoOk(c) && UserOk(u) && HexText(salt, 32) && ValidRole(role)
    requires !BadNewName(name) && !BadAddress(NormalizeEmail(rawEmail))
    ensures UserOk(Updated(c, u, name, NormalizeEmail(rawEmail), role, password, salt))
  {
    hide ValidUuid, HexText, NormalizeEmail, BadNewName, BadAddress;
    NormalizeFixedPoints(rawEmail);
    assert IsHash(c.derive(password, salt));
  }

  // ----- every call keeps the invariant -----

  lemma BootstrapKeeps(c: Crypto, m: Memory, name: string, email: string, password: string, id: string, salt: string)
    requires CryptoOk(c) && Inv(m) && ValidUuid(id) && HexText(salt, 32)
    ensures Inv(Bootstrap(c, m, name, email, password, id, salt).0)
    ensures var r := Bootstrap(c, m, name, email, password, id, salt);
            r.1.Account? ==> r.0.users != [] && r.1.user == r.0.users[|r.0.users| - 1].publicUser
  {
    hide UserOk, Inv, ValidUuid, HexText, NormalizeEmail, BadNewName, BadAddress;
    if Bootstrap(c, m, name, email, password, id, salt).1.Account? {
      NewUserOk(c, id, name, email, "admin", password, salt);
      AddKeeps(m, NewUser(c, id, name, NormalizeEmail(email), "admin", password, salt));
    }
  }

  lemma CreateKeeps(c: Crypto, m: Memory, name: string, email: string, password: string, role: string, id: string, salt: string)
    requires CryptoOk(c) && Inv(m) && ValidUuid(id) && !HasId(m.users, id) && HexText(salt, 32)
    ensures Inv(Create(c, m, name, email, password, role, id, salt).0)
  {
    hide UserOk, Inv, ValidUuid, HexText, NormalizeEmail, BadNewName, BadAddress, HasId, HasEmail, ValidRole;
    if Create(c, m, name, email, password, role, id, salt).1.Account? {
      NewUserOk(c, id, Trim(name), email, role, password, salt);
      AddKeeps(m, NewUser(c, id, Trim(name), NormalizeEmail(email), role, password, salt));
    }
  }

  lemma ImportKeeps(c: Crypto, m: Memory, id: string, name: string, email: string, password: string, role: string, salt: string)
    requires CryptoOk(c) && Inv(m) && HexText(salt, 32)
    ensures Inv(Import(c, m, id, name, email, password, role, salt).0)
  {
    hide UserOk, Inv, ValidUuid, HexText, NormalizeEmail, BadNewName, BadAddress, HasId, HasEmail, ValidRole;
    if Import(c, m, id, name, email, password, role, salt).1.Account? {
      NewUserOk(c, id, name, email, role, password, salt);
      AddKeeps(m, NewUser(c, id, name, NormalizeEmail(email), role, password, salt));
    }
  }

  lemma UpdateKeeps(c: Crypto, m: Memory, id: string, name: string, email: string, role: string, password: string, salt: string)
    requires CryptoOk(c) && Inv(m) && HexText(salt, 32)
    ensures Inv(Update(c, m, id, name, email, role, password, salt).0)
  {
    hide UserOk, ValidUuid, HexText, NormalizeEmail, BadNewName, BadAddress, HasId, EmailTakenByOther, ValidRole, CountAdmins,
         Distinct, SessionsOk;
    if Update(c, m, id, name, email, role, password, salt).1.Account? {
      var i := IndexOfId(m.users, id).value;
      var u := Updated(c, m.users[i], Trim(name), NormalizeEmail(email), role, password, salt);
      UpdatedOk(c, m.users[i], Trim(name), email, role, password, salt);
      ReplaceKeeps(m, i, u);
    }
  }

  lemma DeleteKeeps(m: Memory, id: string, actor: string)
    requires Inv(m)
    ensures Inv(Delete(m, id, actor).0)
  {
    hide Inv, CountAdmins, HasId;
    if Delete(m, id, actor).1.Done? {
      RemoveKeeps(m, IndexOfId(m.users, id).value);
    }
  }

  lemma SessionCallsKeep(c: Crypto, m: Memory, token: string, now: nat)
    requires Inv(m)
    ensures Inv(Resolve(c, m, token, now).0)
    ensures Inv(LogOut(c, m, token).0)
  {
    hide UserOk, IsHash, HasId, UsersOk, Distinct, IndexOfId;
    hide SessionOk;
  }

  lemma RegisterKeeps(c: Crypto, m: Memory, name: string, email: string, password: string, id: string, salt: string,
                      token: string, now: nat)
    requires CryptoOk(c) && Inv(m) && ValidUuid(id) && HexText(salt, 32) && ClockRange(now + SESSION_LIFETIME)
    ensures Inv(Register(c, m, name, email, password, id, salt, token, now).0)
  {
    hide Inv, ValidUuid, HexText, CryptoOk, Open, Bootstrap, ClockRange;
    BootstrapKeeps(c, m, name, email, password, id, salt);
    var r := Bootstrap(c, m, name, email, password, id, salt);
    if r.1.Account? { OpenKeeps(c, r.0, |r.0.users| - 1, token, now); }
  }

  lemma LoginKeeps(c: Crypto, m: Memory, email: string, password: string, token: string, now: nat)
    requires CryptoOk(c) && Inv(m) && ClockRange(now + SESSION_LIFETIME)
    ensures Inv(LogIn(c, m, email, password, token, now).0)
  {
    hide Inv, CryptoOk, Open, ClockRange, NormalizeEmail;
    var i := IndexOfEmail(m.users, NormalizeEmail(email));
    if i.Some? { OpenKeeps(c, m, i.value, token, now); }
  }

  lemma ApplyKeepsInv(c: Crypto, m: Memory, call: Call)
    requires CryptoOk(c) && Inv(m) && CallOk(m, call)
    ensures Inv(Apply(c, m, call).0)
  {
    hide Inv, ValidUuid, HexText, HasId, CryptoOk, Bootstrap, Register, LogIn, Create, Update, Delete, Import, Resolve, LogOut, Restarted;
    match call {
      case BootstrapAdmin(name, email, password, id, salt) => BootstrapKeeps(c, m, name, email, password, id, salt);
      case RegisterAdmin(name, email, password, id, salt, token, now) =>
        RegisterKeeps(c, m, name, email, password, id, salt, token, now);
      case Login(email, password, token, now) => LoginKeeps(c, m, email, password, token, now);
      case CreateUser(name, email, password, role, id, salt) => CreateKeeps(c, m, name, email, password, role, id, salt);
      case UpdateUser(id, name, email, role, password, salt) => UpdateKeeps(c, m, id, name, email, role, password, salt);
      case DeleteUser(id, actor) => DeleteKeeps(m, id, actor);
      case ImportUser(id, name, email, password, role, salt) => ImportKeeps(c, m, id, name, email, password, role, salt);
      case UserForToken(token, now) => SessionCallsKeep(c, m, token, now);
      case Logout(token) => SessionCallsKeep(c, m, token, 0);
      case Restart(now) => RestartKeeps(m, now);
    }
  }

  // ----- the last administrator -----

  /** Two administrators counted are two users. */
  lemma {:induction false} AnotherAdmin(users: seq<StoredUser>, i: nat) returns (j: nat)
    requires i < |users| && CountAdmins(users) > 1
    ensures j < |users| && j != i && IsAdmin(users[j])
  {
    if i == 0 {
      j := AdminCounted(users[1..]);
      j := j + 1;
    } else if IsAdmin(users[0]) {
      j := 0;
    } else {
      j := AnotherAdmin(users[1..], i - 1);
      j := j + 1;
    }
  }

  lemma {:induction false} AdminCounted(users: seq<StoredUser>) returns (j: nat)
    requires CountAdmins(users) > 0
    ensures j < |users| && IsAdmin(users[j])
  {
    if IsAdmin(users[0]) {
      j := 0;
    } else {
      j := AdminCounted(users[1..]);
      j := j + 1;
    }
  }

  lemma AddKeepsAdmin(m: Memory, u: StoredUser)
    requires HasAdmin(m)
    ensures HasAdmin(Added(m, u).0)
  {
    var a :| 0 <= a < |m.users| && IsAdmin(m.users[a]);
    assert (m.users + [u])[a] == m.users[a];
  }

  lemma UpdateKeepsAdmin(c: Crypto, m: Memory, id: string, name: string, email: string, role: string, password: string, salt: string)
    requires HasAdmin(m)
    ensures HasAdmin(Update(c, m, id, name, email, role, password, salt).0)
  {
    hide HasId, EmailTakenByOther, ValidRole, BadNewName, BadAddress, Trim, NormalizeEmail, CountAdmins, IndexOfId;
    var r := Update(c, m, id, name, email, role, password, salt).0;
    if Update(c, m, id, name, email, role, password, salt).1.Account? {
      var i := IndexOfId(m.users, id).value;
      var a :| 0 <= a < |m.users| && IsAdmin(m.users[a]);
      if a == i {
        if role == "admin" {
          assert IsAdmin(r.users[i]);
        } else {
          var j := AnotherAdmin(m.users, i);
          assert r.users[j] == m.users[j];
        }
      } else {
        assert r.users[a] == m.users[a];
      }
    }
  }

  lemma DeleteKeepsAdmin(m: Memory, id: string, actor: string)
    requires HasAdmin(m)
    ensures HasAdmin(Delete(m, id, actor).0)
  {
    hide HasId, CountAdmins, IndexOfId;
    var r := Delete(m, id, actor).0;
    if Delete(m, id, actor).1.Done? {
      var i := IndexOfId(m.users, id).value;
      var a: nat :| a < |m.users| && IsAdmin(m.users[a]);
      var j := a;
      if a == i { j := AnotherAdmin(m.users, i); }
      assert r.users[if j < i then j else j - 1] == m.users[j];
    }
  }

  /** No call removes or demotes the last administrator. */
  lemma AdminRemains(c: Crypto, m: Memory, call: Call)
    requires HasAdmin(m)
    ensures HasAdmin(Apply(c, m, call).0)
  {
    hide NormalizeEmail, Trim, Update, Delete, Resolve, ValidUuid, ValidRole, BadNewName, BadAddress, IndexOfEmail;
    match call {
      case CreateUser(name, email, password, role, id, salt) =>
        AddKeepsAdmin(m, NewUser(c, id, Trim(name), NormalizeEmail(email), role, password, salt));
      case ImportUser(id, name, email, password, role, salt) =>
        AddKeepsAdmin(m, NewUser(c, id, name, NormalizeEmail(email), role, password, salt));
      case UpdateUser(id, name, email, role, password, salt) => UpdateKeepsAdmin(c, m, id, name, email, role, password, salt);
      case DeleteUser(id, actor) => DeleteKeepsAdmin(m, id, actor);
      case UserForToken(token, now) => ResolveKeepsUsers(c, m, token, now);
      case _ =>
    }
  }

  lemma ResolveKeepsUsers(c: Crypto, m: Memory, token: string, now: nat)
    ensures Resolve(c, m, token, now).0.users == m.users
  {
  }
}
