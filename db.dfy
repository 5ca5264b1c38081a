/** The tracker's store (sptt/db.go) as three in-memory tables. Each SQL
    statement becomes an operation on a table held as a sequence of rows in
    stored order: `INSERT` appends, `DELETE ... WHERE` keeps the rows the
    clause does not match, `SELECT ... WHERE` filters, `ORDER BY` sorts.
    A statement that fails is an input: `fail` flags and `Outcome`s say which
    statement fails and how. */
module Db {
  import opened Types
  import opened Collections

  type SteamId = nat
  type AppId = nat

  /** A row of `users`; `steamid` is the table's conflict key. */
  datatype User = User(steamId: SteamId, username: string, active: bool, public: bool)

  /** A row of `active_sessions`: a game the account was seen playing, when it
      was first seen (seconds) and its `playtime_forever` then (minutes). */
  datatype ActiveSession = ActiveSession(steamId: SteamId, utcStart: int, playtimeForever: U32, appId: AppId)

  /** A row of `sessions`: a finished play session. */
  datatype Session = Session(steamId: SteamId, utcStart: int, utcEnd: int, playtimeForever: U32, appId: AppId)

  /** The contents of the three tables at one moment. */
  datatype Tables = Tables(users: seq<User>, active: seq<ActiveSession>, sessions: seq<Session>)

  function AppOf(s: ActiveSession): AppId { s.appId }

  // The row conditions of the `WHERE` clauses, named so that every statement
  // and every lemma about it speaks of the same condition.

  function UserOther(id: SteamId): User -> bool { (u: User) => u.steamId != id }

  function RowOf(sid: SteamId): ActiveSession -> bool { (s: ActiveSession) => s.steamId == sid }

  function RowOther(sid: SteamId): ActiveSession -> bool { (s: ActiveSession) => s.steamId != sid }

  function RowOtherGame(sid: SteamId, app: AppId): ActiveSession -> bool {
    (s: ActiveSession) => !(s.steamId == sid && s.appId == app)
  }

  /** The rows kept when `sid`'s rows for each game in `apps` are deleted. */
  function RowOutside(sid: SteamId, apps: set<AppId>): ActiveSession -> bool {
    (s: ActiveSession) => !(s.steamId == sid && s.appId in apps)
  }

  function SessionOf(sid: SteamId): Session -> bool { (s: Session) => s.steamId == sid }

  function StartOf(s: Session): int { s.utcStart }

  /** The pair a delete by both keys matches on. */
  function RowKey(s: ActiveSession): (SteamId, AppId) { (s.steamId, s.appId) }

  // ---------------------------------------------------------------- users

  function UserIds(users: seq<User>): (ids: seq<SteamId>)
    ensures |ids| == |users|
    ensures forall i :: 0 <= i < |users| ==> ids[i] == users[i].steamId
  {
    if users == [] then [] else UserIds(users[..|users| - 1]) + [users[|users| - 1].steamId]
  }

  predicate HasUser(users: seq<User>, id: SteamId) {
    exists i :: 0 <= i < |users| && users[i].steamId == id
  }

  function UserKey(u: User): SteamId { u.steamId }

  /** The conflict key really is a key: no two rows share a `steamid`. */
  predicate UniqueIds(users: seq<User>) {
    NoDupBy(users, UserKey)
  }

  /** `INSERT INTO users ... VALUES(id, uname, true, true) ON CONFLICT (steamid) DO NOTHING`. */
  function InsertUser(users: seq<User>, id: SteamId, uname: string): seq<User> {
    if HasUser(users, id) then users else users + [User(id, uname, true, true)]
  }

  /** `DELETE FROM users WHERE steamid = id`. */
  function DeleteUser(users: seq<User>, id: SteamId): seq<User> {
    Filter(users, UserOther(id))
  }

  /** The statements for `ids`, one after the other. */
  function DeleteUsers(users: seq<User>, ids: seq<SteamId>): seq<User> {
    if ids == [] then users else DeleteUser(DeleteUsers(users, ids[..|ids| - 1]), ids[|ids| - 1])
  }

  /** Inserting a present id changes nothing; inserting an absent one appends
      one active, public row; either way the id is then present and the key
      stays unique. */
  lemma InsertUserSpec(users: seq<User>, id: SteamId, uname: string)
    ensures HasUser(users, id) ==> InsertUser(users, id, uname) == users
    ensures !HasUser(users, id) ==> InsertUser(users, id, uname) == users + [User(id, uname, true, true)]
    ensures HasUser(InsertUser(users, id, uname), id)
    ensures UniqueIds(users) ==> UniqueIds(InsertUser(users, id, uname))
  {
    if !HasUser(users, id) {
      var r := users + [User(id, uname, true, true)];
      assert r[|users|].steamId == id;
    }
  }

  /** After deleting `id`, no row has it; every other row survives; nothing is added. */
  lemma DeleteUserSpec(users: seq<User>, id: SteamId, u: User)
    ensures !HasUser(DeleteUser(users, id), id)
    ensures u in DeleteUser(users, id) <==> u in users && u.steamId != id
    ensures !HasUser(users, id) ==> DeleteUser(users, id) == users
  {
    var r := DeleteUser(users, id);
    forall i | 0 <= i < |r|
      ensures r[i].steamId != id
    {
      assert r[i] in r;
    }
    if !HasUser(users, id) {
      FilterTrivial(users, UserOther(id));
    }
  }

  /** Deleting a list of ids leaves none of them, keeps every row whose id is
      not listed, and adds nothing. */
  lemma {:induction false} DeleteUsersSpec(users: seq<User>, ids: seq<SteamId>, u: User)
    ensures u in DeleteUsers(users, ids) <==> u in users && u.steamId !in ids
  {
    if ids != [] {
      var init := ids[..|ids| - 1];
      DeleteUsersSpec(users, init, u);
      DeleteUserSpec(DeleteUsers(users, init), ids[|ids| - 1], u);
      assert ids == init + [ids[|ids| - 1]];
    }
  }

  /** Deleting keeps the key unique. */
  lemma {:induction false} DeleteUsersUnique(users: seq<User>, ids: seq<SteamId>)
    requires UniqueIds(users)
    ensures UniqueIds(DeleteUsers(users, ids))
  {
    if ids != [] {
      var init := ids[..|ids| - 1];
      DeleteUsersUnique(users, init);
      FilterUnique(DeleteUsers(users, init), ids[|ids| - 1]);
    }
  }

  lemma FilterUnique(users: seq<User>, id: SteamId)
    requires UniqueIds(users)
    ensures UniqueIds(DeleteUser(users, id))
  {
    FilterNoDup(users, UserOther(id), UserKey);
  }

  // ---------------------------------------------------------------- active_sessions

  /** `SELECT ... FROM active_sessions WHERE steamid = sid`, in stored order. */
  function AccountRows(active: seq<ActiveSession>, sid: SteamId): seq<ActiveSession> {
    Filter(active, RowOf(sid))
  }

  /** What `GetActiveSessions(sid)` builds from those rows: keyed by AppID, a
      later row with the same AppID overwriting an earlier one. */
  function ActiveOf(active: seq<ActiveSession>, sid: SteamId): map<AppId, ActiveSession> {
    KeyedLast(AccountRows(active, sid), AppOf)
  }

  /** `DELETE FROM active_sessions WHERE steamid = sid AND appid = app`. */
  function WithoutGame(active: seq<ActiveSession>, sid: SteamId, app: AppId): seq<ActiveSession> {
    Filter(active, RowOtherGame(sid, app))
  }

  /** `DELETE FROM active_sessions WHERE steamid = sid`. */
  function WithoutAccount(active: seq<ActiveSession>, sid: SteamId): seq<ActiveSession> {
    Filter(active, RowOther(sid))
  }

  /** The keyed read holds a key exactly when some row of the account has that
      AppID, and each value is a stored row of the account under its own AppID. */
  lemma ActiveOfSpec(active: seq<ActiveSession>, sid: SteamId, app: AppId)
    ensures app in ActiveOf(active, sid) <==>
      exists i :: 0 <= i < |active| && active[i].steamId == sid && active[i].appId == app
    ensures app in ActiveOf(active, sid) ==>
      var s := ActiveOf(active, sid)[app]; s in active && s.steamId == sid && s.appId == app
  {
    var rows := AccountRows(active, sid);
    KeyedLastKeys(rows, AppOf, app);
    if app in ActiveOf(active, sid) {
      var j :| 0 <= j < |rows| && AppOf(rows[j]) == app;
      assert rows[j] in rows;
      var i :| 0 <= i < |active| && active[i] == rows[j];
    }
    if exists i :: 0 <= i < |active| && active[i].steamId == sid && active[i].appId == app {
      var i :| 0 <= i < |active| && active[i].steamId == sid && active[i].appId == app;
      assert active[i] in rows;
      var j :| 0 <= j < |rows| && rows[j] == active[i];
    }
  }

  /** Two rows of one account with the same AppID collapse to the one scanned last. */
  lemma ActiveOfLastWins(active: seq<ActiveSession>, s: ActiveSession, rest: seq<ActiveSession>)
    requires forall i :: 0 <= i < |rest| ==> !(rest[i].steamId == s.steamId && rest[i].appId == s.appId)
    ensures s.appId in ActiveOf(active + [s] + rest, s.steamId)
    ensures ActiveOf(active + [s] + rest, s.steamId)[s.appId] == s
  {
    var sid := s.steamId;
    var p := RowOf(sid);
    FilterAppend(active + [s], rest, p);
    FilterAppend(active, [s], p);
    assert Filter([s], p) == Filter([], p) + [s];
    var front := Filter(active, p) + [s];
    var tail := Filter(rest, p);
    assert forall j :: 0 <= j < |tail| ==> tail[j] in rest;
    var rows := front + tail;
    assert rows[|front| - 1] == s;
    forall j | |front| - 1 < j < |rows|
      ensures AppOf(rows[j]) != AppOf(s)
    {
      assert rows[j] == tail[j - |front|];
    }
    KeyedLastWins(rows, AppOf, |front| - 1);
  }

  /** Round trip: after inserting `s`, the keyed read of its account returns `s`
      under its AppID, whatever rows the table held before. */
  lemma ActiveRoundTrip(active: seq<ActiveSession>, s: ActiveSession)
    ensures s.appId in ActiveOf(active + [s], s.steamId)
    ensures ActiveOf(active + [s], s.steamId)[s.appId] == s
  {
    ActiveOfLastWins(active, s, []);
    assert active + [s] + [] == active + [s];
  }

  /** Inserting a row changes its account's keyed read at that row's AppID only. */
  lemma ActiveAppend(active: seq<ActiveSession>, s: ActiveSession)
    ensures ActiveOf(active + [s], s.steamId) == ActiveOf(active, s.steamId)[s.appId := s]
  {
    var p := RowOf(s.steamId);
    FilterAppend(active, [s], p);
    assert Filter([s], p) == Filter([], p) + [s];
    KeyedLastAppend(AccountRows(active, s.steamId), s, AppOf);
  }

  /** Deleting by both keys removes exactly the rows matching both, every other
      row keeping its multiplicity; no match changes nothing. */
  lemma WithoutGameSpec(active: seq<ActiveSession>, sid: SteamId, app: AppId, x: ActiveSession)
    ensures multiset(WithoutGame(active, sid, app))[x] ==
      if x.steamId == sid && x.appId == app then 0 else multiset(active)[x]
    ensures (forall i :: 0 <= i < |active| ==> !(active[i].steamId == sid && active[i].appId == app)) ==>
      WithoutGame(active, sid, app) == active
  {
    FilterCount(active, RowOtherGame(sid, app), x);
    FilterTrivial(active, RowOtherGame(sid, app));
  }

  /** Deleting by account removes every row of that account and nothing else. */
  lemma WithoutAccountSpec(active: seq<ActiveSession>, sid: SteamId, x: ActiveSession)
    ensures multiset(WithoutAccount(active, sid))[x] == if x.steamId == sid then 0 else multiset(active)[x]
    ensures AccountRows(WithoutAccount(active, sid), sid) == []
    ensures ActiveOf(WithoutAccount(active, sid), sid) == map[]
  {
    var p := RowOther(sid);
    var q := RowOf(sid);
    FilterCount(active, p, x);
    var r := WithoutAccount(active, sid);
    assert forall i :: 0 <= i < |r| ==> r[i] in r;
    FilterTrivial(r, q);
  }

  /** Deleting rows of one account leaves what another account reads. */
  lemma OtherAccountRows(active: seq<ActiveSession>, sid: SteamId, app: AppId, other: SteamId)
    requires other != sid
    ensures AccountRows(WithoutGame(active, sid, app), other) == AccountRows(active, other)
    ensures AccountRows(WithoutAccount(active, sid), other) == AccountRows(active, other)
    ensures AccountRows(active + [ActiveSession(sid, 0, 0, app)], other) == AccountRows(active, other)
  {
    var q := RowOf(other);
    var g := RowOtherGame(sid, app);
    var a := RowOther(sid);
    FilterCommute(active, g, q);
    FilterFilter(active, q, g);
    FilterCommute(active, a, q);
    FilterFilter(active, q, a);
    FilterAppend(active, [ActiveSession(sid, 0, 0, app)], q);
    assert Filter([ActiveSession(sid, 0, 0, app)], q) == Filter([], q) + [];
  }

  /** Appending a row of one account leaves what another account reads. */
  lemma OtherAccountAppend(active: seq<ActiveSession>, s: ActiveSession, other: SteamId)
    requires other != s.steamId
    ensures AccountRows(active + [s], other) == AccountRows(active, other)
  {
    var q := RowOf(other);
    FilterAppend(active, [s], q);
    assert Filter([s], q) == Filter([], q) + [];
  }

  /** What an account reads after a statement on its own rows depends only
      on what it read before: deleting commutes with the read, an inserted
      row lands at the end. */
  lemma OwnAccountRows(active: seq<ActiveSession>, sid: SteamId, app: AppId, row: ActiveSession)
    requires row.steamId == sid
    ensures AccountRows(WithoutGame(active, sid, app), sid) == WithoutGame(AccountRows(active, sid), sid, app)
    ensures AccountRows(active + [row], sid) == AccountRows(active, sid) + [row]
  {
    FilterCommute(active, RowOtherGame(sid, app), RowOf(sid));
    FilterAppend(active, [row], RowOf(sid));
    assert Filter([row], RowOf(sid)) == Filter([], RowOf(sid)) + [row];
  }

  // ---------------------------------------------------------------- sessions

  /** `SELECT ... FROM sessions WHERE steamid = sid ORDER BY utcstart ASC`;
      rows with equal start times keep their stored order. */
  function SessionsOf(sessions: seq<Session>, sid: SteamId): seq<Session> {
    SortBy(Filter(sessions, SessionOf(sid)), StartOf)
  }

  /** The ordered read returns exactly the account's rows, each as often as
      stored, ascending by start time. */
  lemma SessionsOfSpec(sessions: seq<Session>, sid: SteamId, x: Session)
    ensures SortedBy(SessionsOf(sessions, sid), StartOf)
    ensures multiset(SessionsOf(sessions, sid))[x] == if x.steamId == sid then multiset(sessions)[x] else 0
  {
    FilterCount(sessions, SessionOf(sid), x);
  }

  /** A finished session that was appended is read back for its account. */
  lemma SessionRoundTrip(sessions: seq<Session>, s: Session)
    ensures s in SessionsOf(sessions + [s], s.steamId)
    ensures |SessionsOf(sessions + [s], s.steamId)| == |SessionsOf(sessions, s.steamId)| + 1
  {
    var p := SessionOf(s.steamId);
    SessionsOfSpec(sessions + [s], s.steamId, s);
    assert (sessions + [s])[|sessions|] == s;
    assert multiset(sessions + [s])[s] > 0;
    assert s in multiset(SessionsOf(sessions + [s], s.steamId));
    FilterAppend(sessions, [s], p);
    assert Filter([s], p) == Filter([], p) + [s];
    var a := SessionsOf(sessions + [s], s.steamId);
    var b := SessionsOf(sessions, s.steamId);
    assert |multiset(a)| == |a|;
    assert |multiset(b)| == |b|;
  }

  /** The first `n` of a list whose processing stops at `failAt`: all of it
      when nothing fails. */
  function Processed(failAt: Option<nat>, len: nat): (n: nat)
    ensures n <= len
    ensures failAt.None? ==> n == len
    ensures failAt.Some? && failAt.value < len ==> n == failAt.value
    ensures failAt.Some? && failAt.value >= len ==> n == len
  {
    match failAt
    case None => len
    case Some(k) => if k < len then k else len
  }

  /** The store. `users` keeps its conflict key unique. */
  class Store {
    var users: seq<User>
    var active: seq<ActiveSession>
    var sessions: seq<Session>

    ghost predicate Valid()
      reads this
    {
      UniqueIds(users)
    }

    function Contents(): Tables
      reads this
    {
      Tables(users, active, sessions)
    }

    constructor ()
      ensures Valid()
      ensures users == [] && active == [] && sessions == []
    {
      users, active, sessions := [], [], [];
    }

    /** `GetSteamIDs`: every stored steamid, in stored order; a failing query
        or scan returns its error as it is. */
    method GetSteamIDs(fail: bool) returns (r: Result<seq<SteamId>>)
      ensures fail ==> r == Err(Database)
      ensures !fail ==> r == Ok(UserIds(users))
    {
      if fail {
        return Err(Database);
      }
      var steamids: seq<SteamId> := [];
      for i := 0 to |users|
        invariant steamids == UserIds(users[..i])
      {
        assert users[..i + 1][..i] == users[..i];
        steamids := steamids + [users[i].steamId];
      }
      assert users[..|users|] == users;
      return Ok(steamids);
    }

    /** `AddSteamID`: insert-or-ignore. A failing prepare or exec is wrapped;
        an id already present is only a warning, so the call still succeeds. */
    method AddSteamID(id: SteamId, uname: string, fail: bool) returns (err: Option<Error>)
      requires Valid()
      modifies this
      ensures Valid()
      ensures fail ==> err == Some(Traced(Database)) && users == old(users)
      ensures !fail ==> err == None && users == InsertUser(old(users), id, uname)
      ensures active == old(active) && sessions == old(sessions)
    {
      if fail {
        return Some(Traced(Database));
      }
      InsertUserSpec(users, id, uname);
      users := InsertUser(users, id, uname);
      return None;
    }

    /** `RemoveSteamID`: one delete per listed id, in order. An absent id is
        only a warning; a failing statement (the one at `failAt`) stops the
        loop with a wrapped error and the earlier deletes stand. */
    method RemoveSteamID(ids: seq<SteamId>, failAt: Option<nat>) returns (err: Option<Error>)
      requires Valid()
      modifies this
      ensures Valid()
      ensures var n := Processed(failAt, |ids|);
        users == DeleteUsers(old(users), ids[..n])
        && (err.Some? <==> n < |ids|) && (err.Some? ==> err.value == Traced(Database))
      ensures active == old(active) && sessions == old(sessions)
    {
      ghost var users0 := users;
      for i := 0 to |ids|
        invariant users == DeleteUsers(users0, ids[..i])
        invariant UniqueIds(users)
        invariant failAt.Some? ==> failAt.value >= i
        invariant active == old(active) && sessions == old(sessions)
      {
        if failAt == Some(i) {
          return Some(Traced(Database));
        }
        assert ids[..i + 1][..i] == ids[..i];
        FilterUnique(users, ids[i]);
        users := DeleteUser(users, ids[i]);
      }
      assert ids[..|ids|] == ids;
      return None;
    }

    /** `GetActiveSessions`: the account's rows keyed by AppID, the last
        scanned winning; a failing query or scan returns its error as it is. */
    method GetActiveSessions(id: SteamId, fail: bool) returns (r: Result<map<AppId, ActiveSession>>)
      ensures fail ==> r == Err(Database)
      ensures !fail ==> r == Ok(ActiveOf(active, id))
    {
      if fail {
        return Err(Database);
      }
      var sessionsMap := KeyByApp(AccountRows(active, id));
      return Ok(sessionsMap);
    }

    /** The scan loop of `GetActiveSessions`: each row stored under its
        AppID, a later one replacing an earlier one. */
    static method KeyByApp(rows: seq<ActiveSession>) returns (sessionsMap: map<AppId, ActiveSession>)
      ensures sessionsMap == KeyedLast(rows, AppOf)
    {
      sessionsMap := map[];
      for i := 0 to |rows|
        invariant sessionsMap == KeyedLast(rows[..i], AppOf)
      {
        var session := rows[i];
        KeyedLastAppend(rows[..i], session, AppOf);
        TakeOneMore(rows, i);
        sessionsMap := sessionsMap[session.appId := session];
      }
      assert rows[..|rows|] == rows;
    }

    /** `AddActiveSessions`: one insert per session, in list order; the
        insert at `failAt` fails, stops the loop with a wrapped error, and the
        earlier inserts stand. */
    method AddActiveSessions(ss: seq<ActiveSession>, failAt: Option<nat>) returns (err: Option<Error>)
      modifies this
      ensures var n := Processed(failAt, |ss|);
        active == old(active) + ss[..n]
        && (err.Some? <==> n < |ss|) && (err.Some? ==> err.value == Traced(Database))
      ensures users == old(users) && sessions == old(sessions)
    {
      for i := 0 to |ss|
        invariant active == old(active) + ss[..i]
        invariant failAt.Some? ==> failAt.value >= i
        invariant users == old(users) && sessions == old(sessions)
      {
        if failAt == Some(i) {
          return Some(Traced(Database));
        }
        TakeOneMore(ss, i);
        active := active + [ss[i]];
      }
      assert ss[..|ss|] == ss;
      return None;
    }

    /** `AddActiveSession`: the one-element case of `AddActiveSessions`. */
    method AddActiveSession(s: ActiveSession, fail: bool) returns (err: Option<Error>)
      modifies this
      ensures fail ==> err == Some(Traced(Database)) && active == old(active)
      ensures !fail ==> err == None && active == old(active) + [s]
      ensures users == old(users) && sessions == old(sessions)
    {
      err := AddActiveSessions([s], if fail then Some(0) else None);
      assert [s][..1] == [s];
    }

    /** `RemoveActiveSession`: deletes the rows matching both keys. A failing
        exec deletes nothing; a failing row count comes after the delete took
        effect; both return a wrapped error. No matching row is a success. */
    method RemoveActiveSession(sid: SteamId, app: AppId, outcome: Outcome) returns (err: Option<Error>)
      modifies this
      ensures outcome == ExecError ==> active == old(active)
      ensures outcome != ExecError ==> active == WithoutGame(old(active), sid, app)
      ensures err == if outcome == Done then None else Some(Traced(Database))
      ensures users == old(users) && sessions == old(sessions)
    {
      if outcome == ExecError {
        return Some(Traced(Database));
      }
      active := WithoutGame(active, sid, app);
      if outcome == CountError {
        return Some(Traced(Database));
      }
      return None;
    }

    /** `RemoveActiveSessions`: deletes every row of the account, with the same
        failure behaviour as `RemoveActiveSession`. */
    method RemoveActiveSessions(sid: SteamId, outcome: Outcome) returns (err: Option<Error>)
      modifies this
      ensures outcome == ExecError ==> active == old(active)
      ensures outcome != ExecError ==> active == WithoutAccount(old(active), sid)
      ensures err == if outcome == Done then None else Some(Traced(Database))
      ensures users == old(users) && sessions == old(sessions)
    {
      if outcome == ExecError {
        return Some(Traced(Database));
      }
      active := WithoutAccount(active, sid);
      if outcome == CountError {
        return Some(Traced(Database));
      }
      return None;
    }

    /** `AddSession`: appends one finished session, never touching the stored ones. */
    method AddSession(s: Session, fail: bool) returns (err: Option<Error>)
      modifies this
      ensures fail ==> err == Some(Traced(Database)) && sessions == old(sessions)
      ensures !fail ==> err == None && sessions == old(sessions) + [s]
      ensures users == old(users) && active == old(active)
    {
      if fail {
        return Some(Traced(Database));
      }
      sessions := sessions + [s];
      return None;
    }

    /** `GetSessions`: the account's finished sessions, ascending by start; a
        failing query or scan returns its error as it is. */
    method GetSessions(id: SteamId, fail: bool) returns (r: Result<seq<Session>>)
      ensures fail ==> r == Err(Database)
      ensures !fail ==> r == Ok(SessionsOf(sessions, id))
    {
      if fail {
        return Err(Database);
      }
      // the scan picks the account's rows; `ORDER BY utcstart` then sorts them
      var matching: seq<Session> := [];
      for i := 0 to |sessions|
        invariant matching == Filter(sessions[..i], SessionOf(id))
      {
        assert sessions[..i + 1][..i] == sessions[..i];
        if sessions[i].steamId == id {
          matching := matching + [sessions[i]];
        }
      }
      assert sessions[..|sessions|] == sessions;
      return Ok(SortBy(matching, StartOf));
    }
  }
}
