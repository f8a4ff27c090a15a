/** The file-backed account store: two fields of memory, two text files written through. */
module AuthStore {
  import opened Text
  import opened Duration
  import opened AuthText
  import opened Splitting
  import opened AuthFiles
  import opened AuthMemory

  // ----- reading and writing the files -----

  method SplitTabs(line: string) returns (fields: seq<string>)
    ensures fields == Segments(line, '\t')
  {
    hide Cut, Segments;
    fields := [];
    var rest := line;
    while rest != ""
      invariant fields + Segments(rest, '\t') == Segments(line, '\t')
      decreases |rest|
    {
      var piece := Cut(rest, '\t');
      var after := if piece.1.Some? then piece.1.value else "";
      TakeSegment(fields, rest, '\t');
      fields := fields + [piece.0];
      rest := after;
    }
    TakeLast(fields, '\t');
  }

  method ReadUser(line: string) returns (found: seq<StoredUser>)
    ensures found == ParseUser(line)
  {
    var f := SplitTabs(line);
    if |f| == 6 {
      if f[0] != "" {
        return [StoredUser(AuthUser(f[0], f[1], f[2], f[3]), f[4], f[5])];
      }
    } else if |f| == 5 {
      if f[0] != "" {
        return [StoredUser(AuthUser(f[0], f[1], f[2], "user"), f[3], f[4])];
      }
    }
    return [];
  }

  method LoadUsers(text: string) returns (users: seq<StoredUser>)
    ensures users == ParseUsers(text)
  {
    hide ParseUser, Cut;
    users := [];
    var rest := text;
    while rest != ""
      invariant users + ParseLines(Segments(rest, '\n')) == ParseUsers(text)
      decreases |rest|
    {
      var piece := Cut(rest, '\n');
      ghost var lines := Segments(rest, '\n');
      assert lines[0] == piece.0;
      var found := ReadUser(piece.0);
      rest := if piece.1.Some? then piece.1.value else "";
      assert lines[1..] == Segments(rest, '\n');
      assert users + (found + ParseLines(lines[1..])) == (users + found) + ParseLines(lines[1..]);
      users := users + found;
    }
  }

  lemma LineIsJoin(u: StoredUser)
    ensures u.publicUser.id + "\t" + u.publicUser.name + "\t" + u.publicUser.email + "\t" + u.publicUser.role
          + "\t" + u.salt + "\t" + u.passwordHash
         == Join(UserFields(u))
  {
    var f := UserFields(u);
    assert f[1..][1..] == f[2..] && f[2..][1..] == f[3..] && f[3..][1..] == f[4..] && f[4..][1..] == f[5..];
    assert Join(f[5..]) == u.passwordHash;
    assert Join(f[4..]) == u.salt + "\t" + u.passwordHash;
    assert Join(f[3..]) == u.publicUser.role + "\t" + Join(f[4..]);
    assert Join(f[2..]) == u.publicUser.email + "\t" + Join(f[3..]);
    assert Join(f[1..]) == u.publicUser.name + "\t" + Join(f[2..]);
  }

  method WriteUsers(users: seq<StoredUser>) returns (text: string)
    ensures text == PrintUsers(users)
  {
    text := "";
    for i := 0 to |users|
      invariant text + PrintUsers(users[i..]) == PrintUsers(users)
    {
      var u := users[i];
      var line := u.publicUser.id + "\t" + u.publicUser.name + "\t" + u.publicUser.email + "\t" + u.publicUser.role
                + "\t" + u.salt + "\t" + u.passwordHash;
      LineIsJoin(u);
      assert PrintUsers(users[i..]) == line + "\n" + PrintUsers(users[i + 1..]) by {
        assert users[i..][1..] == users[i + 1..];
      }
      assert text + (line + "\n" + PrintUsers(users[i + 1..])) == (text + line + "\n") + PrintUsers(users[i + 1..]);
      text := text + line + "\n";
    }
    assert PrintUsers(users[|users|..]) == "";
  }

  method LoadSessions(text: string, users: seq<StoredUser>, now: nat) returns (sessions: map<string, Session>)
    ensures sessions == ParseSessions(text, users, now)
  {
    sessions := map[];
    var rest := text;
    while rest != ""
      invariant AddRows(sessions, Segments(rest, '\n'), users, now) == ParseSessions(text, users, now)
      decreases |rest|
    {
      var piece := Cut(rest, '\n');
      ghost var lines := Segments(rest, '\n');
      assert lines[0] == piece.0;
      rest := if piece.1.Some? then piece.1.value else "";
      assert lines[1..] == Segments(rest, '\n');
      var row := ParseSession(piece.0);
      if row.None? {
        continue;
      }
      if HasId(users, row.value.userId) && Nanos(row.value.seconds) > now {
        sessions := sessions[row.value.hash := Session(row.value.userId, Nanos(row.value.seconds))];
      }
    }
  }

  lemma {:induction false} PrintSessionsSnoc(order: seq<string>, k: string, m: map<string, Session>)
    requires k in m && forall o :: o in order ==> o in m
    ensures PrintSessions(order + [k], m) == PrintSessions(order, m) + PrintSession(k, m[k]) + "\n"
  {
    hide PrintSession;
    var all := order + [k];
    var last := PrintSession(k, m[k]) + "\n";
    if order == [] {
      assert all[1..] == [];
      assert PrintSessions(order, m) + PrintSession(k, m[k]) + "\n" == last + "";
    } else {
      PrintSessionsSnoc(order[1..], k, m);
      assert all[1..] == order[1..] + [k];
      var first, rest := PrintSession(order[0], m[order[0]]) + "\n", PrintSessions(order[1..], m);
      assert first + (rest + PrintSession(k, m[k]) + "\n") == (first + rest) + PrintSession(k, m[k]) + "\n";
    }
  }

  /** The map is written in whatever order it is walked. */
  method WriteSessions(sessions: map<string, Session>) returns (text: string, ghost order: seq<string>)
    ensures Enumerates(order, sessions)
    ensures text == PrintSessions(order, sessions)
  {
    text, order := "", [];
    var remaining := sessions.Keys;
    while remaining != {}
      invariant remaining <= sessions.Keys
      invariant forall k :: k in order <==> k in sessions && k !in remaining
      invariant forall i, j :: 0 <= i < j < |order| ==> order[i] != order[j]
      invariant text == PrintSessions(order, sessions)
      decreases |remaining|
    {
      var k :| k in remaining;
      PrintSessionsSnoc(order, k, sessions);
      text := text + PrintSession(k, sessions[k]) + "\n";
      order := order + [k];
      remaining := remaining - {k};
    }
  }

  /** Empty files hold nothing. */
  lemma EmptyFiles(now: nat)
    ensures ParseUsers("") == [] && ParseSessions("", [], now) == map[]
    ensures PrintUsers([]) == "" && PrintSessions([], map[]) == "" && Enumerates([], map[]) && Inv(EMPTY)
  {
    hide UserOk, SessionOk, Apart;
  }

  class Store {
    const crypto: Crypto
    var users: seq<StoredUser>
    var sessions: map<string, Session>
    var usersFile: string
    var sessionsFile: string
    ghost var saved: map<string, Session>
    ghost var order: seq<string>
    ghost var loadedAt: Option<nat>

    ghost function Mem(): Memory
      reads this
    {
      Memory(users, sessions, saved, loadedAt)
    }

    ghost predicate Written()
      reads this
    {
      && usersFile == PrintUsers(users)
      && Enumerates(order, saved)
      && sessionsFile == PrintSessions(order, saved)
    }

    ghost predicate Valid()
      reads this
    {
      CryptoOk(crypto) && Inv(Mem()) && Written()
    }

    /** Loads both files, whatever they hold; missing files are empty ones. */
    constructor (crypto: Crypto, usersFile: string, sessionsFile: string, now: nat)
      ensures this.crypto == crypto && this.usersFile == usersFile && this.sessionsFile == sessionsFile
      ensures users == ParseUsers(usersFile)
      ensures sessions == ParseSessions(sessionsFile, users, now)
      ensures usersFile == "" && sessionsFile == "" && CryptoOk(crypto) ==> Valid() && Mem() == EMPTY
    {
      this.crypto := crypto;
      this.usersFile := usersFile;
      this.sessionsFile := sessionsFile;
      users := [];
      sessions := map[];
      saved, order, loadedAt := map[], [], None;
      new;
      hide ParseUsers, ParseSessions, PrintUsers, PrintSessions, Inv, CryptoOk, Enumerates;
      users := LoadUsers(usersFile);
      sessions := LoadSessions(sessionsFile, users, now);
      EmptyFiles(now);
    }

    method Save()
      modifies this`usersFile
      ensures usersFile == PrintUsers(users)
    {
      usersFile := WriteUsers(users);
    }

    method SaveSessions()
      modifies this`sessionsFile, this`saved, this`order, this`loadedAt
      ensures saved == sessions && loadedAt == None
      ensures Enumerates(order, saved) && sessionsFile == PrintSessions(order, saved)
    {
      sessionsFile, order := WriteSessions(sessions);
      saved := sessions;
      loadedAt := None;
    }

    method CreateSession(user: AuthUser, token: string, now: nat) returns (reply: Reply)
      requires Written()
      modifies this`sessions, this`sessionsFile, this`saved, this`order, this`loadedAt
      ensures (Mem(), reply) == Open(crypto, old(Mem()), user, token, now)
      ensures Written()
    {
      sessions := sessions[crypto.digest(token) := Session(user.id, now + SESSION_LIFETIME)];
      SaveSessions();
      return Opened(user, token);
    }

    method BootstrapUnlocked(name: string, rawEmail: string, password: string, id: string, salt: string) returns (reply: Reply)
      requires Written()
      modifies this`users, this`usersFile
      ensures (Mem(), reply) == Bootstrap(crypto, old(Mem()), name, rawEmail, password, id, salt)
      ensures Written()
    {
      hide Enumerates, PrintSessions, PrintUsers, ValidField, NormalizeEmail;
      var email := NormalizeEmail(rawEmail);
      if users != [] || |name| < 2 || |password| < 12 || '@' !in email || !ValidField(name) || !ValidField(email) {
        return Failed(Refused);
      }
      var user := StoredUser(AuthUser(id, name, email, "admin"), salt, crypto.derive(password, salt));
      users := users + [user];
      Save();
      return Account(user.publicUser);
    }

    method BootstrapAdmin(name: string, rawEmail: string, password: string, id: string, salt: string) returns (reply: Reply)
      requires Valid() && CallOk(Mem(), Call.BootstrapAdmin(name, rawEmail, password, id, salt))
      modifies this
      ensures Valid()
      ensures (Mem(), reply) == Apply(crypto, old(Mem()), Call.BootstrapAdmin(name, rawEmail, password, id, salt))
    {
      hide Inv, CryptoOk, Written, CallOk, Bootstrap;
      ApplyKeepsInv(crypto, Mem(), Call.BootstrapAdmin(name, rawEmail, password, id, salt));
      reply := BootstrapUnlocked(name, rawEmail, password, id, salt);
    }

    method RegisterAdmin(name: string, rawEmail: string, password: string, id: string, salt: string, token: string, now: nat)
      returns (reply: Reply)
      requires Valid() && CallOk(Mem(), Call.RegisterAdmin(name, rawEmail, password, id, salt, token, now))
      modifies this
      ensures Valid()
      ensures (Mem(), reply) == Apply(crypto, old(Mem()), Call.RegisterAdmin(name, rawEmail, password, id, salt, token, now))
    {
      hide Inv, CryptoOk, Written, CallOk, Open, ValidField, NormalizeEmail, BadNewName, BadAddress;
      ApplyKeepsInv(crypto, Mem(), Call.RegisterAdmin(name, rawEmail, password, id, salt, token, now));
      reply := BootstrapUnlocked(name, rawEmail, password, id, salt);
      if reply.Account? {
        reply := CreateSession(users[|users| - 1].publicUser, token, now);
      }
    }

    method Login(rawEmail: string, password: string, token: string, now: nat) returns (reply: Reply)
      requires Valid() && CallOk(Mem(), Call.Login(rawEmail, password, token, now))
      modifies this
      ensures Valid()
      ensures (Mem(), reply) == Apply(crypto, old(Mem()), Call.Login(rawEmail, password, token, now))
    {
      hide Inv, CryptoOk, Written, CallOk, Open;
      ApplyKeepsInv(crypto, Mem(), Call.Login(rawEmail, password, token, now));
      var email := NormalizeEmail(rawEmail);
      var found := IndexOfEmail(users, email);
      var salt := if found.None? then seq(32, _ => '0') else users[found.value].salt;
      var expected := if found.None? then seq(64, _ => '0') else users[found.value].passwordHash;
      var valid := crypto.derive(password, salt) == expected;
      if !valid || found.None? {
        return Failed(Refused);
      }
      reply := CreateSession(users[found.value].publicUser, token, now);
    }

    method CreateUser(rawName: string, rawEmail: string, password: string, role: string, id: string, salt: string)
      returns (reply: Reply)
      requires Valid() && CallOk(Mem(), Call.CreateUser(rawName, rawEmail, password, role, id, salt))
      modifies this
      ensures Valid()
      ensures (Mem(), reply) == Apply(crypto, old(Mem()), Call.CreateUser(rawName, rawEmail, password, role, id, salt))
    {
      hide Inv, CryptoOk, CallOk, ValidRole, ValidField, NormalizeEmail, Trim, Enumerates, PrintSessions, PrintUsers;
      ApplyKeepsInv(crypto, Mem(), Call.CreateUser(rawName, rawEmail, password, role, id, salt));
      var name, email := Trim(rawName), NormalizeEmail(rawEmail);
      if HasEmail(users, email) { return Failed(DuplicateEmail); }
      if |name| < 2 || !ValidField(name) { return Failed(BadName); }
      if '@' !in email || !ValidField(email) { return Failed(BadEmail); }
      if |password| < 12 { return Failed(BadPassword); }
      if !ValidRole(role) { return Failed(BadRole); }
      var user := StoredUser(AuthUser(id, name, email, role), salt, crypto.derive(password, salt));
      users := users + [user];
      Save();
      return Account(user.publicUser);
    }

    method UpdateUser(id: string, rawName: string, rawEmail: string, role: string, optionalPassword: string, salt: string)
      returns (reply: Reply)
      requires Valid() && CallOk(Mem(), Call.UpdateUser(id, rawName, rawEmail, role, optionalPassword, salt))
      modifies this
      ensures Valid()
      ensures (Mem(), reply) == Apply(crypto, old(Mem()), Call.UpdateUser(id, rawName, rawEmail, role, optionalPassword, salt))
    {
      hide Inv, CryptoOk, CallOk, ValidRole, ValidField, NormalizeEmail, Trim, Enumerates, PrintSessions, PrintUsers,
           EmailTakenByOther, HasId, CountAdmins;
      ApplyKeepsInv(crypto, Mem(), Call.UpdateUser(id, rawName, rawEmail, role, optionalPassword, salt));
      var name, email := Trim(rawName), NormalizeEmail(rawEmail);
      var target := IndexOfId(users, id);
      if target.None? { return Failed(NotFound); }
      if EmailTakenByOther(users, id, email) { return Failed(DuplicateEmail); }
      if |name| < 2 || !ValidField(name) { return Failed(BadName); }
      if '@' !in email || !ValidField(email) { return Failed(BadEmail); }
      if !ValidRole(role) { return Failed(BadRole); }
      var u := users[target.value];
      if u.publicUser.role == "admin" && role != "admin" && CountAdmins(users) <= 1 { return Failed(LastAdmin); }
      if optionalPassword != "" {
        if |optionalPassword| < 12 { return Failed(BadPassword); }
        u := u.(salt := salt, passwordHash := crypto.derive(optionalPassword, salt));
      }
      u := u.(publicUser := u.publicUser.(name := name, email := email, role := role));
      users := users[target.value := u];
      Save();
      return Account(u.publicUser);
    }

    /** Erases the sessions of one user, walking the map. */
    method EraseSessions(id: string)
      modifies this`sessions
      ensures sessions == WithoutUser(old(sessions), id)
    {
      var remaining := sessions.Keys;
      while remaining != {}
        invariant remaining <= old(sessions).Keys
        invariant forall k :: k in sessions <==> k in old(sessions) && (k in remaining || old(sessions)[k].userId != id)
        invariant forall k :: k in sessions ==> sessions[k] == old(sessions)[k]
        decreases |remaining|
      {
        var k :| k in remaining;
        if sessions[k].userId == id {
          sessions := sessions - {k};
        }
        remaining := remaining - {k};
      }
    }

    method DeleteUser(id: string, currentActorId: string) returns (reply: Reply)
      requires Valid()
      modifies this
      ensures Valid()
      ensures (Mem(), reply) == Apply(crypto, old(Mem()), Call.DeleteUser(id, currentActorId))
    {
      hide Inv, CryptoOk, Enumerates, PrintSessions, PrintUsers, HasId, CountAdmins, WithoutUser;
      ApplyKeepsInv(crypto, Mem(), Call.DeleteUser(id, currentActorId));
      var target := IndexOfId(users, id);
      if target.None? { return Failed(NotFound); }
      if id == currentActorId { return Failed(OwnAccount); }
      if users[target.value].publicUser.role == "admin" && CountAdmins(users) <= 1 { return Failed(LastAdmin); }
      users := users[..target.value] + users[target.value + 1..];
      EraseSessions(id);
      Save();
      SaveSessions();
      return Done;
    }

    method ImportUser(id: string, name: string, rawEmail: string, password: string, role: string, salt: string)
      returns (reply: Reply)
      requires Valid() && CallOk(Mem(), Call.ImportUser(id, name, rawEmail, password, role, salt))
      modifies this
      ensures Valid()
      ensures (Mem(), reply) == Apply(crypto, old(Mem()), Call.ImportUser(id, name, rawEmail, password, role, salt))
    {
      hide Inv, CryptoOk, CallOk, ValidRole, ValidField, ValidUuid, NormalizeEmail, Enumerates, PrintSessions, PrintUsers;
      ApplyKeepsInv(crypto, Mem(), Call.ImportUser(id, name, rawEmail, password, role, salt));
      var email := NormalizeEmail(rawEmail);
      var duplicate := HasId(users, id) || HasEmail(users, email);
      if duplicate || !ValidUuid(id) || |name| < 2 || |password| < 12 || '@' !in email || !ValidRole(role) ||
         !ValidField(name) || !ValidField(email) {
        return Failed(Refused);
      }
      var user := StoredUser(AuthUser(id, name, email, role), salt, crypto.derive(password, salt));
      users := users + [user];
      Save();
      return Account(user.publicUser);
    }

    method UserForToken(token: string, now: nat) returns (reply: Reply)
      requires Valid()
      modifies this
      ensures Valid()
      ensures (Mem(), reply) == Apply(crypto, old(Mem()), Call.UserForToken(token, now))
    {
      hide Inv, CryptoOk, Enumerates, PrintSessions, PrintUsers, HasId;
      ApplyKeepsInv(crypto, Mem(), Call.UserForToken(token, now));
      if token == "" { return Failed(Refused); }
      var hash := crypto.digest(token);
      if hash !in sessions { return Failed(Refused); }
      if sessions[hash].expires <= now {
        sessions := sessions - {hash};
        SaveSessions();
        return Failed(Refused);
      }
      var user := IndexOfId(users, sessions[hash].userId);
      return if user.None? then Failed(Refused) else Account(users[user.value].publicUser);
    }

    method Logout(token: string) returns (reply: Reply)
      requires Valid()
      modifies this
      ensures Valid()
      ensures (Mem(), reply) == Apply(crypto, old(Mem()), Call.Logout(token))
    {
      hide Inv, CryptoOk, Enumerates, PrintSessions, PrintUsers;
      ApplyKeepsInv(crypto, Mem(), Call.Logout(token));
      if token == "" { return Done; }
      sessions := sessions - {crypto.digest(token)};
      SaveSessions();
      return Done;
    }
  }

  lemma FilesParse(store: Store, now: nat)
    requires store.Valid()
    ensures ParseUsers(store.usersFile) == store.users
    ensures ParseSessions(store.sessionsFile, store.users, now) == Restored(store.saved, store.users, now)
  {
    hide ParseUsers, PrintUsers, ParseSessions, PrintSessions, Inv, CryptoOk, Enumerates, Restored, AllStorable, StorableSession;
    InvIsStorable(store.Mem());
    UsersRoundTrip(store.users);
    SessionsRoundTrip(store.order, store.saved, store.users, now);
  }

  /** Disk and memory agree: the users file parses to the users in order; the sessions file
      parses to the live sessions in memory, in whole seconds, exactly when no session on disk
      expires after `now` but not after a restart since the last write. */
  lemma DiskAgrees(store: Store, now: nat)
    requires store.Valid()
    ensures ParseUsers(store.usersFile) == store.users
    ensures ParseSessions(store.sessionsFile, store.users, now) == Restored(store.sessions, store.users, now) <==>
              || store.loadedAt.None?
              || forall k :: k in store.saved ==> !(now < Kept(store.saved[k]) <= store.loadedAt.value)
    ensures store.loadedAt.None? ==> store.sessions == store.saved
    ensures store.loadedAt.Some? ==> store.sessions == Restored(store.saved, store.users, store.loadedAt.value)
  {
    hide ParseUsers, PrintUsers, ParseSessions, PrintSessions, CryptoOk, Enumerates, Restored, UsersOk, Distinct, SessionsOk, Kept;
    FilesParse(store, now);
    DiskAgreesIff(store.Mem(), now);
    if store.loadedAt.Some? { RestoredIsUnexpired(store.users, store.saved, store.loadedAt.value); }
  }

  /** A new process over the same files resumes with exactly `Restarted`. */
  method Restart(store: Store, now: nat) returns (next: Store)
    requires store.Valid()
    ensures fresh(next) && next.Valid() && next.crypto == store.crypto
    ensures next.Mem() == Restarted(store.Mem(), now)
    ensures next.usersFile == store.usersFile && next.sessionsFile == store.sessionsFile
  {
    hide ParseUsers, PrintUsers, ParseSessions, PrintSessions, Inv, CryptoOk, Enumerates, Restored;
    FilesParse(store, now);
    RestartKeeps(store.Mem(), now);
    next := new Store(store.crypto, store.usersFile, store.sessionsFile, now);
    next.saved, next.order, next.loadedAt := store.saved, store.order, Some(now);
  }
}
