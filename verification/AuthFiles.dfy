/** The two text files behind the account store: users.tsv and its sessions file. */
module AuthFiles {
  import opened Text
  import opened AuthText
  import opened Splitting
  import opened Duration

  datatype AuthUser = AuthUser(id: string, name: string, email: string, role: string)

  datatype StoredUser = StoredUser(publicUser: AuthUser, salt: string, passwordHash: string)

  /** `expires` counts nanoseconds since the epoch. */
  datatype Session = Session(userId: string, expires: nat)

  // ----- users -----

  function Join(fields: seq<string>): string {
    if fields == [] then ""
    else if |fields| == 1 then fields[0]
    else fields[0] + "\t" + Join(fields[1..])
  }

  predicate ValidFields(fields: seq<string>) { forall i :: 0 <= i < |fields| ==> ValidField(fields[i]) }

  lemma {:induction false} JoinSegments(fields: seq<string>)
    requires ValidFields(fields)
    ensures Segments(Join(fields), '\t') == fields
    ensures '\n' !in Join(fields)
    ensures fields != [] ==> Join(fields) != ""
  {
    if |fields| == 1 {
      assert ValidField(fields[0]);
      SegmentsLast(fields[0], '\t');
    } else if fields != [] {
      assert ValidField(fields[0]);
      JoinSegments(fields[1..]);
      SegmentsCons(fields[0], '\t', Join(fields[1..]));
      assert fields[0] + ['\t'] + Join(fields[1..]) == Join(fields);
    }
  }

  function UserFields(u: StoredUser): seq<string> {
    [u.publicUser.id, u.publicUser.name, u.publicUser.email, u.publicUser.role, u.salt, u.passwordHash]
  }

  /** Only users whose fields all survive the file are ever stored. */
  predicate Storable(u: StoredUser) { ValidFields(UserFields(u)) }

  predicate AllStorable(users: seq<StoredUser>) { forall i :: 0 <= i < |users| ==> Storable(users[i]) }

  function PrintUsers(users: seq<StoredUser>): string {
    if users == [] then "" else Join(UserFields(users[0])) + "\n" + PrintUsers(users[1..])
  }

  /** One line of the users file; five fields are the format before roles. */
  function ParseUser(line: string): seq<StoredUser> {
    var f := Segments(line, '\t');
    if |f| == 6 && f[0] != "" then [StoredUser(AuthUser(f[0], f[1], f[2], f[3]), f[4], f[5])]
    else if |f| == 5 && f[0] != "" then [StoredUser(AuthUser(f[0], f[1], f[2], "user"), f[3], f[4])]
    else []
  }

  function ParseLines(lines: seq<string>): seq<StoredUser> {
    if lines == [] then [] else ParseUser(lines[0]) + ParseLines(lines[1..])
  }

  function ParseUsers(text: string): seq<StoredUser> { ParseLines(Segments(text, '\n')) }

  lemma PrintedUserParses(u: StoredUser)
    requires Storable(u)
    ensures ParseUser(Join(UserFields(u))) == [u]
    ensures '\n' !in Join(UserFields(u))
  {
    hide Join;
    JoinSegments(UserFields(u));
    assert ValidField(UserFields(u)[0]);
  }

  /** Six fields are a user in the order of the file; five, a line from before roles, one with
      the role "user"; a line of valid fields in any other number is no user. */
  lemma UserLineIs(f: seq<string>)
    requires ValidFields(f)
    ensures |f| == 6 ==> ParseUser(Join(f)) == [StoredUser(AuthUser(f[0], f[1], f[2], f[3]), f[4], f[5])]
    ensures |f| == 5 ==> ParseUser(Join(f)) == [StoredUser(AuthUser(f[0], f[1], f[2], "user"), f[3], f[4])]
    ensures |f| != 5 && |f| != 6 ==> ParseUser(Join(f)) == []
  {
    hide Join;
    JoinSegments(f);
    if f != [] { assert ValidField(f[0]); }
  }

  /** The users file parses back to the same users in the same order. */
  lemma {:induction false} UsersRoundTrip(users: seq<StoredUser>)
    requires AllStorable(users)
    ensures ParseUsers(PrintUsers(users)) == users
  {
    if users != [] {
      hide Join, UserFields, ParseUser, Storable;
      var line := Join(UserFields(users[0]));
      var rest := PrintUsers(users[1..]);
      PrintedUserParses(users[0]);
      UsersRoundTrip(users[1..]);
      SegmentsCons(line, '\n', rest);
      var lines := Segments(PrintUsers(users), '\n');
      assert line + ['\n'] + rest == PrintUsers(users);
      assert lines[0] == line && lines[1..] == Segments(rest, '\n');
    }
  }

  // ----- sessions -----

  predicate HasId(users: seq<StoredUser>, id: string) {
    exists i :: 0 <= i < |users| && users[i].publicUser.id == id
  }

  function PrintSession(hash: string, s: Session): string {
    hash + "\t" + (s.userId + "\t" + PrintInt(WholeSeconds(s.expires)))
  }

  function PrintSessions(order: seq<string>, m: map<string, Session>): string
    requires forall k :: k in order ==> k in m
  {
    if order == [] then ""
    else PrintSession(order[0], m[order[0]]) + "\n" + PrintSessions(order[1..], m)
  }

  datatype Row = Row(hash: string, userId: string, seconds: int)

  /** One line of the sessions file; the third piece is the rest of the line. */
  function ParseSession(line: string): Option<Row> {
    if line == "" then None else
      var first := Cut(line, '\t');
      if first.1.None? || first.1.value == "" then None else
        var second := Cut(first.1.value, '\t');
        if second.1.None? || second.1.value == "" || !IsHash(first.0) then None else
          var seconds :- FromChars(second.1.value);
          Some(Row(first.0, second.0, seconds))
  }

  function AddRow(m: map<string, Session>, line: string, users: seq<StoredUser>, now: nat): map<string, Session> {
    match ParseSession(line)
    case None => m
    case Some(row) =>
      if HasId(users, row.userId) && Nanos(row.seconds) > now then m[row.hash := Session(row.userId, Nanos(row.seconds))]
      else m
  }

  function AddRows(m: map<string, Session>, lines: seq<string>, users: seq<StoredUser>, now: nat): map<string, Session>
    decreases |lines|
  {
    if lines == [] then m else AddRows(AddRow(m, lines[0], users, now), lines[1..], users, now)
  }

  function ParseSessions(text: string, users: seq<StoredUser>, now: nat): map<string, Session> {
    AddRows(map[], Segments(text, '\n'), users, now)
  }

  /** What system_clock can hold: 64-bit nanoseconds. */
  predicate ClockRange(expires: nat) { expires <= INT64_MAX }

  predicate StorableSession(hash: string, s: Session) {
    IsHash(hash) && ValidField(s.userId) && ClockRange(s.expires)
  }

  function Truncated(s: Session): Session { Session(s.userId, Nanos(WholeSeconds(s.expires))) }

  predicate Survives(s: Session, users: seq<StoredUser>, now: nat) {
    HasId(users, s.userId) && Nanos(WholeSeconds(s.expires)) > now
  }

  /** The sessions a restart at `now` restores. */
  function Restored(m: map<string, Session>, users: seq<StoredUser>, now: nat): map<string, Session> {
    map k | k in m && Survives(m[k], users, now) :: Truncated(m[k])
  }

  /** The keys of the map, each once, in some order. */
  ghost predicate Enumerates(order: seq<string>, m: map<string, Session>) {
    && (forall k :: k in order <==> k in m)
    && (forall i, j :: 0 <= i < j < |order| ==> order[i] != order[j])
  }

  lemma PrintIntIsField(n: nat)
    ensures PrintInt(n) != "" && '\n' !in PrintInt(n)
  {
    DecimalRoundTrip(n);
    forall c | c in PrintInt(n) ensures IsDigit(c) {}
  }

  lemma PrintedSessionParses(hash: string, s: Session)
    requires StorableSession(hash, s)
    ensures ParseSession(PrintSession(hash, s)) == Some(Row(hash, s.userId, WholeSeconds(s.expires)))
    ensures '\n' !in PrintSession(hash, s)
  {
    hide PrintInt, FromChars, Cut;
    var digits := PrintInt(WholeSeconds(s.expires));
    var rest := s.userId + "\t" + digits;
    HexIsField(hash, 64);
    PrintIntIsField(WholeSeconds(s.expires));
    PrintedIntReadsBack(WholeSeconds(s.expires));
    assert hash + ['\t'] + rest == PrintSession(hash, s);
    assert s.userId + ['\t'] + digits == rest;
    CutAt(hash, '\t', rest);
    CutAt(s.userId, '\t', digits);
  }

  /** A line of the sessions file: token hash, user and expiry in seconds, in this order;
      anything but a hash in front or a number behind is no session. */
  lemma SessionLineIs(hash: string, userId: string, digits: string)
    requires '\t' !in hash && '\t' !in userId
    ensures ParseSession(hash + "\t" + userId + "\t" + digits) ==
            if IsHash(hash) && FromChars(digits).Some? then Some(Row(hash, userId, FromChars(digits).value)) else None
  {
    if digits == "" { assert FromChars(digits).None?; }
    hide FromChars, Cut, IsHash;
    var rest := userId + ['\t'] + digits;
    assert hash + "\t" + userId + "\t" + digits == hash + ['\t'] + rest;
    CutAt(hash, '\t', rest);
    CutAt(userId, '\t', digits);
  }

  lemma PrintedRowAdds(m: map<string, Session>, hash: string, s: Session, users: seq<StoredUser>, now: nat)
    requires StorableSession(hash, s)
    ensures AddRow(m, PrintSession(hash, s), users, now)
         == if Survives(s, users, now) then m[hash := Truncated(s)] else m
  {
    hide ParseSession, PrintSession;
    PrintedSessionParses(hash, s);
  }

  /** What loading the printed rows makes of one key. */
  ghost predicate LoadedAt(k: string, r: map<string, Session>, start: map<string, Session>, order: seq<string>,
                     m: map<string, Session>, users: seq<StoredUser>, now: nat)
    requires forall k :: k in order ==> k in m
  {
    if k in order && Survives(m[k], users, now) then k in r && r[k] == Truncated(m[k])
    else (k in r <==> k in start) && (k in r ==> r[k] == start[k])
  }

  lemma {:induction false} PrintedRowsLoad(start: map<string, Session>, order: seq<string>, m: map<string, Session>,
                                           users: seq<StoredUser>, now: nat, k: string)
    requires forall k :: k in order ==> k in m && StorableSession(k, m[k])
    ensures LoadedAt(k, AddRows(start, Segments(PrintSessions(order, m), '\n'), users, now), start, order, m, users, now)
    decreases |order|
  {
    if order != [] {
      hide AddRow, PrintSession, StorableSession, Survives, Truncated, LoadedAt, Cut;
      var line := PrintSession(order[0], m[order[0]]);
      var rest := PrintSessions(order[1..], m);
      PrintedSessionParses(order[0], m[order[0]]);
      PrintedRowAdds(start, order[0], m[order[0]], users, now);
      SegmentsCons(line, '\n', rest);
      assert line + ['\n'] + rest == PrintSessions(order, m);
      var lines := Segments(PrintSessions(order, m), '\n');
      assert lines[0] == line && lines[1..] == Segments(rest, '\n');
      var next := AddRow(start, line, users, now);
      PrintedRowsLoad(next, order[1..], m, users, now, k);
      LoadedFirst(k, AddRows(start, lines, users, now), start, next, order, m, users, now);
    } else {
      assert Segments(PrintSessions(order, m), '\n') == [];
    }
  }

  lemma LoadedFirst(k: string, r: map<string, Session>, start: map<string, Session>, next: map<string, Session>,
                    order: seq<string>, m: map<string, Session>, users: seq<StoredUser>, now: nat)
    requires order != [] && forall k :: k in order ==> k in m
    requires next == if Survives(m[order[0]], users, now) then start[order[0] := Truncated(m[order[0]])] else start
    requires LoadedAt(k, r, next, order[1..], m, users, now)
    ensures LoadedAt(k, r, start, order, m, users, now)
  {
    hide Survives, Truncated;
    assert order == [order[0]] + order[1..];
  }

  /** Whatever order the map was written in, loading gives the live sessions of known
      users with their expiries cut down to whole seconds, and nothing else. */
  lemma SessionsRoundTrip(order: seq<string>, m: map<string, Session>, users: seq<StoredUser>, now: nat)
    requires Enumerates(order, m)
    requires forall k :: k in m ==> StorableSession(k, m[k])
    ensures ParseSessions(PrintSessions(order, m), users, now) == Restored(m, users, now)
  {
    hide Survives, Truncated, StorableSession, LoadedAt, Restored, AddRows;
    var r := ParseSessions(PrintSessions(order, m), users, now);
    forall k ensures SameAt(k, r, Restored(m, users, now)) {
      PrintedRowsLoad(map[], order, m, users, now, k);
      LoadedFromNothing(k, r, order, m, users, now);
    }
    SameEverywhere(r, Restored(m, users, now));
  }

  ghost predicate SameAt(k: string, r: map<string, Session>, s: map<string, Session>) {
    (k in r <==> k in s) && (k in r ==> r[k] == s[k])
  }

  lemma SameEverywhere(r: map<string, Session>, s: map<string, Session>)
    requires forall k :: SameAt(k, r, s)
    ensures r == s
  {
    assert forall k :: k in r ==> SameAt(k, r, s);
    assert forall k :: k in s ==> SameAt(k, r, s);
  }

  lemma LoadedFromNothing(k: string, r: map<string, Session>, order: seq<string>, m: map<string, Session>,
                          users: seq<StoredUser>, now: nat)
    requires Enumerates(order, m) && LoadedAt(k, r, map[], order, m, users, now)
    ensures SameAt(k, r, Restored(m, users, now))
  {
    hide Survives, Truncated;
  }
}
