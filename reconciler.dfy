/** `updateUser` (main.go): reconciles one account's player summary with its
    rows in `active_sessions`, once per tick. It either does nothing, opens a
    row, defers a row to the next tick, or closes a row into a finished
    `Session`. The clock, the Steam client and the store's failures are inputs
    of the call. */
module Reconciler {
  import opened Types
  import opened Collections
  import opened Db
  import SteamApi

  /** What the reconciler reads of a player summary. `gameId` 0 means "not in a game". */
  datatype Summary = Summary(steamId: SteamId, visibility: int, gameId: AppId)

  /** Which store statements of one call fail, and how. */
  datatype StoreFaults = StoreFaults(
    read: bool,                      // GetActiveSessions
    removeAll: Outcome,              // RemoveActiveSessions (profile not public)
    addSessionFails: set<AppId>,     // AddSession, per game being closed
    remove: map<AppId, Outcome>,     // RemoveActiveSession, per game (absent: succeeds)
    addActive: bool)                 // AddActiveSession

  /** Everything a call depends on besides the store: the second-truncated
      clock, the Steam client's answers for this account (owned games for a
      list of appids; one owned game), and the store's failures. */
  datatype Inputs = Inputs(
    now: int,
    ownedGames: seq<AppId> -> Result<map<AppId, U32>>,
    ownedGame: AppId -> Result<U32>,
    faults: StoreFaults)

  function RemoveOutcome(f: StoreFaults, app: AppId): Outcome {
    if app in f.remove then f.remove[app] else Done
  }

  function Abs(x: int): nat { if x < 0 then -x else x }

  /** `uint32(now.Sub(start).Abs().Minutes())`: whole minutes between the two
      instants, cast to `uint32`. */
  function ServerMinutes(start: int, now: int): (m: U32)
    ensures Abs(now - start) < U32_MODULUS * 60 ==> m * 60 <= Abs(now - start) < m * 60 + 60
  {
    ToU32(Abs(now - start) / 60)
  }

  const NANOS_PER_SECOND: int := 1_000_000_000
  const NANOS_PER_MINUTE: int := 60_000_000_000

  /** The largest playtime change, in minutes, whose `time.Duration` (int64
      nanoseconds) does not overflow. */
  const MAX_DURATION_MINUTES: int := 153_722_867

  /** `start.Add(time.Duration(steamDelta) * time.Minute)`: the product is an
      int64 that wraps around, and `Time.Add` of a second-aligned instant lands
      on the second given by flooring the nanoseconds (the sub-second part is
      dropped, as everywhere in this model). Up to `MAX_DURATION_MINUTES` it is
      `steamDelta` minutes after `start`; beyond, it never is. */
  function SteamEnd(start: int, steamDelta: U32): (r: int)
    ensures steamDelta <= MAX_DURATION_MINUTES ==> r == start + steamDelta * 60
    ensures steamDelta > MAX_DURATION_MINUTES ==> r != start + steamDelta * 60
  {
    var d := WrapI64(steamDelta * NANOS_PER_MINUTE);
    assert steamDelta <= MAX_DURATION_MINUTES ==> d == steamDelta * 60 * NANOS_PER_SECOND;
    start + d / NANOS_PER_SECOND
  }

  /** The end of a finished session. When the wall-clock minutes exceed
      Steam's playtime change by more than 3 (in wrapping `uint32`
      arithmetic), Steam's count is trusted: the session ends at `SteamEnd`.
      Otherwise it ends now. */
  function EndTime(start: int, now: int, steamDelta: U32): (r: int)
    ensures r == now || r == SteamEnd(start, steamDelta)
    ensures Sub32(ServerMinutes(start, now), steamDelta) <= 3 ==> r == now
  {
    if Sub32(ServerMinutes(start, now), steamDelta) > 3 then SteamEnd(start, steamDelta) else now
  }

  /** The finished session written for an active row when Steam now reports
      `playtime`: the row's account, start and game, Steam's playtime, and the
      end computed from the change since the row's baseline. */
  function Finish(id: SteamId, sess: ActiveSession, playtime: U32, now: int): Session {
    Session(id, sess.utcStart, EndTime(sess.utcStart, now, Sub32(playtime, sess.playtimeForever)), playtime, sess.appId)
  }

  /** The baseline playtime of a newly opened row: the owned game's playtime;
      0 when the lookup says the list was empty (`ErrEmptyGames`); no row at
      all on any other error. */
  function Baseline(r: Result<U32>): Option<U32> {
    match r
    case Ok(p) => Some(p)
    case Err(e) => if e == EmptyGames then Some(0) else None
  }

  /** The rows `GetActiveSessions` returned, in the order the loops range over
      them: ascending AppID. */
  function InOrder(act: map<AppId, ActiveSession>): (rows: seq<ActiveSession>)
    ensures |rows| == |SortedKeys(act.Keys)| == |act|
    ensures forall i :: 0 <= i < |rows| ==> rows[i] == act[SortedKeys(act.Keys)[i]]
  {
    assert |act.Keys| == |act|;
    RowsAt(act, SortedKeys(act.Keys))
  }

  /** The rows under `keys`, in that order. */
  function RowsAt(act: map<AppId, ActiveSession>, keys: seq<AppId>): (rows: seq<ActiveSession>)
    requires forall k :: k in keys ==> k in act
    ensures |rows| == |keys|
    ensures forall i :: 0 <= i < |keys| ==> rows[i] == act[keys[i]]
  {
    if keys == [] then [] else [act[keys[0]]] + RowsAt(act, keys[1..])
  }

  /** The `appids` list built from the rows. */
  function AppIdsOf(rows: seq<ActiveSession>): (apps: seq<AppId>)
    ensures |apps| == |rows|
    ensures forall i :: 0 <= i < |rows| ==> apps[i] == rows[i].appId
  {
    if rows == [] then [] else AppIdsOf(rows[..|rows| - 1]) + [rows[|rows| - 1].appId]
  }

  /** The state after handling one row, and whether the loop goes on. */
  datatype Step = Step(t: Tables, goOn: bool)

  /** One iteration of the release loop. A game missing from `games` is
      removed (its error ignored). A game whose playtime did not change is
      deferred. Otherwise a finished session is appended (a failure ignored)
      and the row is removed, a failing remove ending the loop. */
  function ReleaseRow(t: Tables, id: SteamId, sess: ActiveSession, games: map<AppId, U32>, inp: Inputs): Step {
    var o := RemoveOutcome(inp.faults, sess.appId);
    if sess.appId in games then
      if Sub32(games[sess.appId], sess.playtimeForever) == 0 then Step(t, true)
      else
        var t1 := if sess.appId in inp.faults.addSessionFails then t
          else t.(sessions := t.sessions + [Finish(id, sess, games[sess.appId], inp.now)]);
        var t2 := if o == ExecError then t1 else t1.(active := WithoutGame(t1.active, id, sess.appId));
        Step(t2, o == Done)
    else
      Step(if o == ExecError then t else t.(active := WithoutGame(t.active, id, sess.appId)), true)
  }

  /** The release loop over `rows`. */
  function Release(t: Tables, id: SteamId, rows: seq<ActiveSession>, games: map<AppId, U32>, inp: Inputs): Tables
    decreases |rows|
  {
    if rows == [] then t
    else
      var s := ReleaseRow(t, id, rows[0], games, inp);
      if s.goOn then Release(s.t, id, rows[1..], games, inp) else s.t
  }

  /** A profile that is not public: all the account's rows are dropped. */
  function DropAll(t: Tables, id: SteamId, inp: Inputs): Tables {
    if inp.faults.removeAll == ExecError then t else t.(active := WithoutAccount(t.active, id))
  }

  /** Not in a game, given the account's keyed rows `act`: nothing to do
      without rows; otherwise one owned-games lookup for their appids, whose
      failure ends the call, then the release loop. */
  function Idle(t: Tables, id: SteamId, act: map<AppId, ActiveSession>, inp: Inputs): Tables {
    if |act| == 0 then t
    else
      var rows := InOrder(act);
      match inp.ownedGames(AppIdsOf(rows))
      case Err(_) => t
      case Ok(games) => Release(t, id, rows, games, inp)
  }

  /** In game `game`, given the account's keyed rows `act`: nothing to do when
      the game has a row; otherwise one row opened at the baseline. */
  function Play(t: Tables, id: SteamId, act: map<AppId, ActiveSession>, game: AppId, inp: Inputs): Tables {
    if game in act then t
    else
      match Baseline(inp.ownedGame(game))
      case None => t
      case Some(p) =>
        if inp.faults.addActive then t
        else t.(active := t.active + [ActiveSession(id, inp.now, p, game)])
  }

  /** What `updateUser(id, summary)` leaves in the store. */
  function Update(t: Tables, id: SteamId, summary: Summary, inp: Inputs): Tables {
    if summary.steamId != id then t
    else if summary.visibility != SteamApi.VISIBILITY_PUBLIC then DropAll(t, id, inp)
    else if inp.faults.read then t
    else if summary.gameId == 0 then Idle(t, id, ActiveOf(t.active, id), inp)
    else Play(t, id, ActiveOf(t.active, id), summary.gameId, inp)
  }

  /** `updateUser`, step by step against the store. */
  method UpdateUser(db: Store, id: SteamId, summary: Summary, inp: Inputs)
    modifies db
    ensures db.Contents() == Update(old(db.Contents()), id, summary, inp)
  {
    if summary.steamId != id {
      return;
    }
    if summary.visibility != SteamApi.VISIBILITY_PUBLIC {
      // the error is only logged
      var _ := db.RemoveActiveSessions(id, inp.faults.removeAll);
      return;
    }
    var activeSessions := db.GetActiveSessions(id, inp.faults.read);
    if activeSessions.Err? {
      return;
    }
    if summary.gameId == 0 {
      ReleaseAll(db, id, activeSessions.value, inp);
    } else {
      StartSession(db, id, activeSessions.value, summary.gameId, inp);
    }
  }

  /** The not-in-game branch of `updateUser`. */
  method ReleaseAll(db: Store, id: SteamId, act: map<AppId, ActiveSession>, inp: Inputs)
    modifies db
    ensures db.Contents() == Idle(old(db.Contents()), id, act, inp)
  {
    if |act| == 0 {
      return;
    }
    var rows := InOrder(act);
    var appids := CollectAppIds(rows);
    var owned := inp.ownedGames(appids);
    if owned.Err? {
      return;
    }
    ReleaseLoop(db, id, rows, owned.value, inp);
  }

  /** The loop that lists the appids of the rows, for the owned-games lookup. */
  method CollectAppIds(rows: seq<ActiveSession>) returns (appids: seq<AppId>)
    ensures appids == AppIdsOf(rows)
  {
    appids := [];
    for i := 0 to |rows|
      invariant appids == AppIdsOf(rows[..i])
    {
      assert rows[..i + 1][..i] == rows[..i];
      appids := appids + [rows[i].appId];
    }
    assert rows[..|rows|] == rows;
  }

  /** The in-game branch of `updateUser`. */
  method StartSession(db: Store, id: SteamId, act: map<AppId, ActiveSession>, game: AppId, inp: Inputs)
    modifies db
    ensures db.Contents() == Play(old(db.Contents()), id, act, game, inp)
  {
    if game in act {
      return;
    }
    var baseline := Baseline(inp.ownedGame(game));
    if baseline.None? {
      return;
    }
    var sess := ActiveSession(id, inp.now, baseline.value, game);
    var _ := db.AddActiveSession(sess, inp.faults.addActive);
  }

  /** The loop of `updateUser` that releases the rows of an account that is
      not in a game. */
  method ReleaseLoop(db: Store, id: SteamId, rows: seq<ActiveSession>, games: map<AppId, U32>, inp: Inputs)
    modifies db
    ensures db.Contents() == Release(old(db.Contents()), id, rows, games, inp)
  {
    ghost var goal := Release(db.Contents(), id, rows, games, inp);
    for i := 0 to |rows|
      invariant Release(db.Contents(), id, rows[i..], games, inp) == goal
    {
      assert rows[i..][1..] == rows[i + 1..];
      var sess := rows[i];
      var outcome := RemoveOutcome(inp.faults, sess.appId);
      if sess.appId in games {
        var game := games[sess.appId];
        var playtimeDiffSteam := Sub32(game, sess.playtimeForever);
        if playtimeDiffSteam != 0 {
          var newSession := Session(id, sess.utcStart, EndTime(sess.utcStart, inp.now, playtimeDiffSteam), game, sess.appId);
          // a failing insert is only logged: the row is released anyway
          var _ := db.AddSession(newSession, sess.appId in inp.faults.addSessionFails);
          var err := db.RemoveActiveSession(id, sess.appId, outcome);
          if err.Some? {
            return;
          }
        }
      } else {
        var _ := db.RemoveActiveSession(id, sess.appId, outcome);
      }
    }
  }

  // ---------------------------------------------------------------- end time

  /** Across the 3-minute threshold: a drift of more than 3 minutes trusts
      Steam; a drift of exactly 3 ends the session now. */
  lemma EndTimeThreshold(start: int, steamDelta: U32, now: int)
    ensures ServerMinutes(start, now) >= steamDelta + 4 ==> EndTime(start, now, steamDelta) == SteamEnd(start, steamDelta)
    ensures ServerMinutes(start, now) == steamDelta + 3 ==> EndTime(start, now, steamDelta) == now
  {
  }

  /** Because the subtraction wraps, Steam's count is also trusted whenever it
      exceeds the wall-clock minutes, save within 3 of a full wrap. */
  lemma EndTimeWraps(start: int, now: int, steamDelta: U32)
    requires steamDelta > ServerMinutes(start, now)
    ensures steamDelta - ServerMinutes(start, now) < U32_MODULUS - 3 <==>
      EndTime(start, now, steamDelta) == SteamEnd(start, steamDelta) || SteamEnd(start, steamDelta) == now
  {
  }

  /** When the clock has not gone backwards and Steam's change fits a
      `time.Duration`, a session never ends before it starts. */
  lemma EndAfterStart(start: int, now: int, steamDelta: U32)
    requires start <= now && steamDelta <= MAX_DURATION_MINUTES
    ensures start <= EndTime(start, now, steamDelta)
  {
  }

  /** A larger change that is trusted overflows: the session does not end
      `steamDelta` minutes after its start. */
  lemma EndTimeOverflow(start: int, now: int, steamDelta: U32)
    requires steamDelta > MAX_DURATION_MINUTES
    requires Sub32(ServerMinutes(start, now), steamDelta) > 3
    ensures EndTime(start, now, steamDelta) == SteamEnd(start, steamDelta) != start + steamDelta * 60
  {
  }

  /** Steam's count one below the row's baseline, ten minutes in: the `uint32`
      change wraps to 2^32 - 1, the drift test trusts it, the Duration
      overflows to -556379331933722624 ns, and the session ends more than 17
      years before it started. */
  lemma EndBeforeStartExample(t0: int)
    ensures EndTime(t0, t0 + 600, Sub32(99, 100)) == t0 - 556_379_332
  {
    assert Sub32(99, 100) == 4_294_967_295;
    assert ServerMinutes(t0, t0 + 600) == 10;
    assert Sub32(10, 4_294_967_295) == 11;
    assert WrapI64(4_294_967_295 * NANOS_PER_MINUTE) == -556_379_331_933_722_624;
  }

  /** When Steam's count does not exceed the wall clock (and the elapsed
      minutes fit the cast and Steam's change fits a Duration), the end lies
      between the start and now. */
  lemma EndWithin(start: int, now: int, steamDelta: U32)
    requires start <= now && (now - start) / 60 < U32_MODULUS
    requires steamDelta <= ServerMinutes(start, now) && steamDelta <= MAX_DURATION_MINUTES
    ensures start <= EndTime(start, now, steamDelta) <= now
  {
    var m := (now - start) / 60;
    assert ServerMinutes(start, now) == m;
    assert m * 60 <= now - start;
    assert steamDelta * 60 <= m * 60;
  }

  /** A row opened at baseline 100 at time `t0`, now ten minutes later: Steam
      at 102 gives a session ending two minutes after `t0`; Steam at 109 one
      ending now. */
  lemma EndTimeExamples(t0: int)
    ensures EndTime(t0, t0 + 600, Sub32(102, 100)) == t0 + 120
    ensures EndTime(t0, t0 + 600, Sub32(109, 100)) == t0 + 600
  {
    assert ServerMinutes(t0, t0 + 600) == 10;
  }

  // ---------------------------------------------------------------- the branches of Update

  /** A summary for another account changes nothing. */
  lemma MismatchUnchanged(t: Tables, id: SteamId, summary: Summary, inp: Inputs)
    requires summary.steamId != id
    ensures Update(t, id, summary, inp) == t
  {
  }

  /** A profile that is not public drops all the account's rows (unless the
      delete fails) and appends no finished session. */
  lemma PrivateDropsRows(t: Tables, id: SteamId, summary: Summary, inp: Inputs)
    requires summary.steamId == id && summary.visibility != SteamApi.VISIBILITY_PUBLIC
    ensures Update(t, id, summary, inp).sessions == t.sessions
    ensures Update(t, id, summary, inp).users == t.users
    ensures inp.faults.removeAll != ExecError ==> ActiveOf(Update(t, id, summary, inp).active, id) == map[]
    ensures inp.faults.removeAll == ExecError ==> Update(t, id, summary, inp) == t
  {
    if inp.faults.removeAll != ExecError {
      WithoutAccountSpec(t.active, id, ActiveSession(id, 0, 0, 0));
    }
  }

  /** Not in a game with no active row, or an owned-games lookup that fails
      (an empty result included): nothing changes. */
  lemma IdleUnchanged(t: Tables, id: SteamId, summary: Summary, inp: Inputs)
    requires summary.steamId == id && summary.visibility == SteamApi.VISIBILITY_PUBLIC && summary.gameId == 0
    requires ActiveOf(t.active, id) == map[] ||
      inp.ownedGames(AppIdsOf(InOrder(ActiveOf(t.active, id)))).Err?
    ensures Update(t, id, summary, inp) == t
  {
  }

  /** In a game that already has a row: nothing changes. */
  lemma AlreadyPlayingUnchanged(t: Tables, id: SteamId, summary: Summary, inp: Inputs)
    requires summary.steamId == id && summary.visibility == SteamApi.VISIBILITY_PUBLIC && summary.gameId != 0
    requires exists i :: 0 <= i < |t.active| && t.active[i].steamId == id && t.active[i].appId == summary.gameId
    ensures Update(t, id, summary, inp) == t
  {
    ActiveOfSpec(t.active, id, summary.gameId);
  }

  /** In a game without a row: exactly one row is opened, starting now, and
      the keyed read then returns it beside the others. Its baseline is the
      owned game's playtime, or 0 when the lookup reports `ErrEmptyGames`; any
      other lookup error opens nothing. */
  lemma OpensOneRow(t: Tables, id: SteamId, summary: Summary, inp: Inputs)
    requires summary.steamId == id && summary.visibility == SteamApi.VISIBILITY_PUBLIC && summary.gameId != 0
    requires !inp.faults.read && !inp.faults.addActive
    requires forall i :: 0 <= i < |t.active| ==> !(t.active[i].steamId == id && t.active[i].appId == summary.gameId)
    ensures inp.ownedGame(summary.gameId).Err? && inp.ownedGame(summary.gameId).error != EmptyGames ==>
      Update(t, id, summary, inp) == t
    ensures inp.ownedGame(summary.gameId).Ok? ==>
      Opened(t, id, summary.gameId, inp.now, inp.ownedGame(summary.gameId).value, Update(t, id, summary, inp))
    ensures inp.ownedGame(summary.gameId) == Err(EmptyGames) ==>
      Opened(t, id, summary.gameId, inp.now, 0, Update(t, id, summary, inp))
  {
    ActiveOfSpec(t.active, id, summary.gameId);
    if Baseline(inp.ownedGame(summary.gameId)).Some? {
      var row := ActiveSession(id, inp.now, Baseline(inp.ownedGame(summary.gameId)).value, summary.gameId);
      ActiveAppend(t.active, row);
    }
  }

  /** `after` is `t` with one row appended for `id` in `game`, started at
      `now` with baseline `p`, and the keyed read of the account returns it. */
  predicate Opened(t: Tables, id: SteamId, game: AppId, now: int, p: U32, after: Tables) {
    var row := ActiveSession(id, now, p, game);
    after == t.(active := t.active + [row])
    && ActiveOf(after.active, id) == ActiveOf(t.active, id)[game := row]
  }

  // ---------------------------------------------------------------- the release loop

  /** The row a release step handles is deferred: it is in `games` and its playtime did not change. */
  predicate Deferred(sess: ActiveSession, games: map<AppId, U32>) {
    sess.appId in games && Sub32(games[sess.appId], sess.playtimeForever) == 0
  }

  /** The row is closed into a finished session. */
  predicate Closed(sess: ActiveSession, games: map<AppId, U32>) {
    sess.appId in games && Sub32(games[sess.appId], sess.playtimeForever) != 0
  }

  /** Some closed row's remove fails, which ends the loop there. */
  predicate Aborts(rows: seq<ActiveSession>, games: map<AppId, U32>, inp: Inputs) {
    exists i :: 0 <= i < |rows| && Closed(rows[i], games) && RemoveOutcome(inp.faults, rows[i].appId) != Done
  }

  /** A deferred row changes nothing; a row missing from `games` is removed
      (unless the delete fails) without a finished session; a closed row
      appends its finished session (unless the insert fails), with its own
      start and AppID and Steam's current playtime, and is removed. */
  lemma ReleaseRowSpec(t: Tables, id: SteamId, sess: ActiveSession, games: map<AppId, U32>, inp: Inputs)
    ensures Deferred(sess, games) ==> ReleaseRow(t, id, sess, games, inp) == Step(t, true)
    ensures sess.appId !in games ==>
      ReleaseRow(t, id, sess, games, inp).t.sessions == t.sessions && ReleaseRow(t, id, sess, games, inp).goOn
    ensures Closed(sess, games) && sess.appId !in inp.faults.addSessionFails ==>
      var s := ReleaseRow(t, id, sess, games, inp).t.sessions[|t.sessions|];
      ReleaseRow(t, id, sess, games, inp).t.sessions == t.sessions + [s]
      && s.steamId == id && s.utcStart == sess.utcStart && s.appId == sess.appId
      && s.playtimeForever == games[sess.appId]
    ensures !Deferred(sess, games) && RemoveOutcome(inp.faults, sess.appId) != ExecError ==>
      ReleaseRow(t, id, sess, games, inp).t.active == WithoutGame(t.active, id, sess.appId)
    ensures ReleaseRow(t, id, sess, games, inp).goOn <==>
      !(Closed(sess, games) && RemoveOutcome(inp.faults, sess.appId) != Done)
  {
  }

  /** The loop over a concatenation: once a remove has failed the later rows
      are never looked at; otherwise the second part continues from where the
      first left off. */
  lemma {:induction false} ReleaseAppend(t: Tables, id: SteamId, rows: seq<ActiveSession>, more: seq<ActiveSession>,
                                         games: map<AppId, U32>, inp: Inputs)
    ensures Aborts(rows, games, inp) ==> Release(t, id, rows + more, games, inp) == Release(t, id, rows, games, inp)
    ensures !Aborts(rows, games, inp) ==>
      Release(t, id, rows + more, games, inp) == Release(Release(t, id, rows, games, inp), id, more, games, inp)
    decreases |rows|
  {
    if rows == [] {
      assert rows + more == more;
    } else {
      TailOfAppend(rows, more);
      var s := ReleaseRow(t, id, rows[0], games, inp);
      ReleaseAppend(s.t, id, rows[1..], more, games, inp);
      if s.goOn {
        if Aborts(rows, games, inp) {
          var i :| 0 <= i < |rows| && Closed(rows[i], games) && RemoveOutcome(inp.faults, rows[i].appId) != Done;
          assert rows[1..][i - 1] == rows[i];
        }
        if Aborts(rows[1..], games, inp) {
          var i :| 0 <= i < |rows[1..]| && Closed(rows[1..][i], games) && RemoveOutcome(inp.faults, rows[1..][i].appId) != Done;
          assert rows[i + 1] == rows[1..][i];
        }
      } else {
        assert Closed(rows[0], games) && RemoveOutcome(inp.faults, rows[0].appId) != Done;
      }
    }
  }

  /** One step never touches `users` or another account's rows, and at most
      appends one finished session of this account. */
  lemma ReleaseRowFrame(t: Tables, id: SteamId, sess: ActiveSession, games: map<AppId, U32>, inp: Inputs, other: SteamId)
    requires other != id
    ensures ReleaseRow(t, id, sess, games, inp).t.users == t.users
    ensures AccountRows(ReleaseRow(t, id, sess, games, inp).t.active, other) == AccountRows(t.active, other)
    ensures var r := ReleaseRow(t, id, sess, games, inp).t.sessions;
      r == t.sessions || (|r| == |t.sessions| + 1 && r[..|t.sessions|] == t.sessions && r[|t.sessions|].steamId == id)
  {
    OtherAccountRows(t.active, id, sess.appId, other);
    if Closed(sess, games) && sess.appId !in inp.faults.addSessionFails {
      var t1 := t.(sessions := t.sessions + [Finish(id, sess, games[sess.appId], inp.now)]);
      OtherAccountRows(t1.active, id, sess.appId, other);
      assert t1.sessions[..|t.sessions|] == t.sessions;
    }
  }

  /** The loop never touches `users` or another account's rows. */
  lemma {:induction false} ReleaseFrame(t: Tables, id: SteamId, rows: seq<ActiveSession>, games: map<AppId, U32>,
                                        inp: Inputs, other: SteamId)
    requires other != id
    ensures Release(t, id, rows, games, inp).users == t.users
    ensures AccountRows(Release(t, id, rows, games, inp).active, other) == AccountRows(t.active, other)
    decreases |rows|
  {
    if rows != [] {
      ReleaseRowFrame(t, id, rows[0], games, inp, other);
      var s := ReleaseRow(t, id, rows[0], games, inp);
      if s.goOn {
        ReleaseFrame(s.t, id, rows[1..], games, inp, other);
      }
    }
  }

  /** `after` is `before` with sessions of account `id` appended. */
  predicate AppendsFor(before: seq<Session>, after: seq<Session>, id: SteamId) {
    |before| <= |after| && after[..|before|] == before
    && forall j :: |before| <= j < |after| ==> after[j].steamId == id
  }

  lemma AppendsForTrans(a: seq<Session>, b: seq<Session>, c: seq<Session>, id: SteamId)
    requires AppendsFor(a, b, id) && AppendsFor(b, c, id)
    ensures AppendsFor(a, c, id)
  {
    PrefixOfPrefix(c, |a|, |b|);
  }

  /** A step appends at most its own finished session. */
  lemma AppendsForRow(t: Tables, id: SteamId, sess: ActiveSession, games: map<AppId, U32>, inp: Inputs)
    ensures AppendsFor(t.sessions, t.sessions + FinishedRow(id, sess, games, inp), id)
  {
    var f := FinishedRow(id, sess, games, inp);
    assert (t.sessions + f)[..|t.sessions|] == t.sessions;
  }

  /** The loop only appends finished sessions, all of this account. */
  lemma {:induction false} ReleaseSessions(t: Tables, id: SteamId, rows: seq<ActiveSession>, games: map<AppId, U32>,
                                           inp: Inputs)
    ensures AppendsFor(t.sessions, Release(t, id, rows, games, inp).sessions, id)
    decreases |rows|
  {
    if rows == [] {
      assert t.sessions[..|t.sessions|] == t.sessions;
    } else {
      ReleaseRowShape(t, id, rows[0], games, inp);
      AppendsForRow(t, id, rows[0], games, inp);
      var s := ReleaseRow(t, id, rows[0], games, inp);
      if s.goOn {
        ReleaseSessions(s.t, id, rows[1..], games, inp);
        AppendsForTrans(t.sessions, s.t.sessions, Release(s.t, id, rows[1..], games, inp).sessions, id);
      }
    }
  }

  /** With every row deferred, the loop changes nothing. */
  lemma {:induction false} AllDeferredUnchanged(t: Tables, id: SteamId, rows: seq<ActiveSession>,
                                                games: map<AppId, U32>, inp: Inputs)
    requires forall i :: 0 <= i < |rows| ==> Deferred(rows[i], games)
    ensures Release(t, id, rows, games, inp) == t
    decreases |rows|
  {
    if rows != [] {
      assert Deferred(rows[0], games);
      assert forall i :: 0 <= i < |rows[1..]| ==> rows[1..][i] == rows[i + 1];
      AllDeferredUnchanged(t, id, rows[1..], games, inp);
    }
  }

  /** The games whose rows the loop releases: every row not deferred. */
  function ReleasedApps(rows: seq<ActiveSession>, games: map<AppId, U32>): set<AppId> {
    if rows == [] then {}
    else (if Deferred(rows[0], games) then {} else {rows[0].appId}) + ReleasedApps(rows[1..], games)
  }

  /** The finished sessions the loop writes, in order: one per closed row
      whose insert does not fail. */
  function Finished(id: SteamId, rows: seq<ActiveSession>, games: map<AppId, U32>, inp: Inputs): seq<Session> {
    if rows == [] then []
    else
      FinishedRow(id, rows[0], games, inp) + Finished(id, rows[1..], games, inp)
  }

  /** The sessions one closed row contributes. */
  function FinishedRow(id: SteamId, sess: ActiveSession, games: map<AppId, U32>, inp: Inputs): seq<Session> {
    if Closed(sess, games) && sess.appId !in inp.faults.addSessionFails
    then [Finish(id, sess, games[sess.appId], inp.now)] else []
  }

  /** The row's delete is attempted and takes effect. */
  predicate Removes(sess: ActiveSession, games: map<AppId, U32>, inp: Inputs) {
    !Deferred(sess, games) && RemoveOutcome(inp.faults, sess.appId) != ExecError
  }

  /** One step in one piece: its effect on each table, and whether the loop
      goes on, depend only on the row, the owned games and the faults. */
  lemma ReleaseRowShape(t: Tables, id: SteamId, sess: ActiveSession, games: map<AppId, U32>, inp: Inputs)
    ensures var s := ReleaseRow(t, id, sess, games, inp);
      s.t.users == t.users && s.t.sessions == t.sessions + FinishedRow(id, sess, games, inp)
      && s.t.active == (if Removes(sess, games, inp) then WithoutGame(t.active, id, sess.appId) else t.active)
      && s.goOn == !(Closed(sess, games) && RemoveOutcome(inp.faults, sess.appId) != Done)
  {
  }

  /** When no remove fails, every released game's rows of the account are
      gone and all other rows stay. */
  lemma {:induction false} ReleaseCleanActive(t: Tables, id: SteamId, rows: seq<ActiveSession>, games: map<AppId, U32>, inp: Inputs)
    requires forall i :: 0 <= i < |rows| ==> RemoveOutcome(inp.faults, rows[i].appId) == Done
    ensures Release(t, id, rows, games, inp).active == Filter(t.active, RowOutside(id, ReleasedApps(rows, games)))
    decreases |rows|
  {
    if rows == [] {
      FilterTrivial(t.active, RowOutside(id, {}));
    } else {
      var a0 := rows[0].appId;
      assert RemoveOutcome(inp.faults, a0) == Done;
      ReleaseRowShape(t, id, rows[0], games, inp);
      var s := ReleaseRow(t, id, rows[0], games, inp);
      var rest := rows[1..];
      assert forall i :: 0 <= i < |rest| ==> rest[i] == rows[i + 1];
      ReleaseCleanActive(s.t, id, rest, games, inp);
      var later := ReleasedApps(rest, games);
      if !Deferred(rows[0], games) {
        assert ReleasedApps(rows, games) == {a0} + later;
        FilterBoth(t.active, RowOtherGame(id, a0), RowOutside(id, later), RowOutside(id, {a0} + later));
      } else {
        assert ReleasedApps(rows, games) == later;
      }
    }
  }

  /** When no remove fails, the finished sessions are appended in row order. */
  lemma {:induction false} ReleaseCleanSessions(t: Tables, id: SteamId, rows: seq<ActiveSession>, games: map<AppId, U32>, inp: Inputs)
    requires forall i :: 0 <= i < |rows| ==> RemoveOutcome(inp.faults, rows[i].appId) == Done
    ensures Release(t, id, rows, games, inp).sessions == t.sessions + Finished(id, rows, games, inp)
    decreases |rows|
  {
    if rows == [] {
      assert t.sessions + [] == t.sessions;
    } else {
      assert RemoveOutcome(inp.faults, rows[0].appId) == Done;
      ReleaseRowShape(t, id, rows[0], games, inp);
      var s := ReleaseRow(t, id, rows[0], games, inp);
      var rest := rows[1..];
      assert forall i :: 0 <= i < |rest| ==> rest[i] == rows[i + 1];
      assert s.goOn;
      assert Release(t, id, rows, games, inp) == Release(s.t, id, rest, games, inp);
      ReleaseCleanSessions(s.t, id, rest, games, inp);
      var f := FinishedRow(id, rows[0], games, inp);
      var later := Finished(id, rest, games, inp);
      assert Finished(id, rows, games, inp) == f + later;
      AppendAssoc(t.sessions, f, later);
    }
  }

  /** When no remove fails, the loop's effect in one piece. */
  lemma ReleaseClean(t: Tables, id: SteamId, rows: seq<ActiveSession>, games: map<AppId, U32>, inp: Inputs)
    requires forall i :: 0 <= i < |rows| ==> RemoveOutcome(inp.faults, rows[i].appId) == Done
    ensures Release(t, id, rows, games, inp) ==
      Tables(t.users, Filter(t.active, RowOutside(id, ReleasedApps(rows, games))), t.sessions + Finished(id, rows, games, inp))
  {
    ReleaseCleanActive(t, id, rows, games, inp);
    ReleaseCleanSessions(t, id, rows, games, inp);
    ReleaseFrame(t, id, rows, games, inp, id + 1);
  }

  /** The rows of an account after a clean release of all of them: for each
      row, its game's rows are gone exactly when it was not deferred. */
  lemma ReleasedRows(t: Tables, id: SteamId, rows: seq<ActiveSession>, games: map<AppId, U32>, inp: Inputs, x: ActiveSession)
    requires forall i :: 0 <= i < |rows| ==> RemoveOutcome(inp.faults, rows[i].appId) == Done
    requires x.steamId == id
    ensures x in Release(t, id, rows, games, inp).active <==> x in t.active && x.appId !in ReleasedApps(rows, games)
  {
    ReleaseClean(t, id, rows, games, inp);
  }

  /** One row per account and game: no two rows share both keys. */
  predicate UniqueRows(active: seq<ActiveSession>) {
    NoDupBy(active, RowKey)
  }

  lemma {:induction false} ReleaseKeepsUnique(t: Tables, id: SteamId, rows: seq<ActiveSession>, games: map<AppId, U32>, inp: Inputs)
    requires UniqueRows(t.active)
    ensures UniqueRows(Release(t, id, rows, games, inp).active)
    decreases |rows|
  {
    if rows != [] {
      var s := ReleaseRow(t, id, rows[0], games, inp);
      FilterNoDup(t.active, RowOtherGame(id, rows[0].appId), RowKey);
      ReleaseKeepsUnique(s.t, id, rows[1..], games, inp);
    }
  }

  lemma IdleKeepsUnique(t: Tables, id: SteamId, act: map<AppId, ActiveSession>, inp: Inputs)
    requires UniqueRows(t.active)
    ensures UniqueRows(Idle(t, id, act, inp).active)
  {
    if |act| != 0 {
      var rows := InOrder(act);
      var owned := inp.ownedGames(AppIdsOf(rows));
      if owned.Ok? {
        ReleaseKeepsUnique(t, id, rows, owned.value, inp);
      }
    }
  }

  /** A row is only opened for a game the account has no row for. */
  lemma PlayKeepsUnique(t: Tables, id: SteamId, game: AppId, inp: Inputs)
    requires UniqueRows(t.active)
    ensures UniqueRows(Play(t, id, ActiveOf(t.active, id), game, inp).active)
  {
    var b := Baseline(inp.ownedGame(game));
    if game !in ActiveOf(t.active, id) && b.Some? && !inp.faults.addActive {
      ActiveOfSpec(t.active, id, game);
      var row := ActiveSession(id, inp.now, b.value, game);
      var r := t.active + [row];
      assert Play(t, id, ActiveOf(t.active, id), game, inp).active == r;
      forall i, j | 0 <= i < j < |r|
        ensures RowKey(r[i]) != RowKey(r[j])
      {
        if j == |t.active| {
          assert !(t.active[i].steamId == id && t.active[i].appId == game);
        }
      }
    }
  }

  /** Reconciling keeps one row per account and game. */
  lemma UpdateKeepsUnique(t: Tables, id: SteamId, summary: Summary, inp: Inputs)
    requires UniqueRows(t.active)
    ensures UniqueRows(Update(t, id, summary, inp).active)
  {
    if summary.steamId != id || (inp.faults.read && summary.visibility == SteamApi.VISIBILITY_PUBLIC) {
    } else if summary.visibility != SteamApi.VISIBILITY_PUBLIC {
      FilterNoDup(t.active, RowOther(id), RowKey);
    } else if summary.gameId == 0 {
      IdleKeepsUnique(t, id, ActiveOf(t.active, id), inp);
    } else {
      PlayKeepsUnique(t, id, summary.gameId, inp);
    }
  }

  // ---------------------------------------------------------------- Update as a whole

  lemma IdleFrame(t: Tables, id: SteamId, act: map<AppId, ActiveSession>, inp: Inputs, other: SteamId)
    requires other != id
    ensures Idle(t, id, act, inp).users == t.users
    ensures AccountRows(Idle(t, id, act, inp).active, other) == AccountRows(t.active, other)
    ensures AppendsFor(t.sessions, Idle(t, id, act, inp).sessions, id)
  {
    assert t.sessions[..|t.sessions|] == t.sessions;
    if |act| != 0 {
      var rows := InOrder(act);
      var owned := inp.ownedGames(AppIdsOf(rows));
      if owned.Ok? {
        ReleaseFrame(t, id, rows, owned.value, inp, other);
        ReleaseSessions(t, id, rows, owned.value, inp);
      }
    }
  }

  lemma PlayFrame(t: Tables, id: SteamId, act: map<AppId, ActiveSession>, game: AppId, inp: Inputs, other: SteamId)
    requires other != id
    ensures Play(t, id, act, game, inp).users == t.users
    ensures Play(t, id, act, game, inp).sessions == t.sessions
    ensures AccountRows(Play(t, id, act, game, inp).active, other) == AccountRows(t.active, other)
  {
    var b := Baseline(inp.ownedGame(game));
    if b.Some? {
      OtherAccountAppend(t.active, ActiveSession(id, inp.now, b.value, game), other);
    }
  }

  /** Reconciling one account never touches `users` or another account's
      rows, and only appends finished sessions, all of this account. */
  lemma UpdateFrame(t: Tables, id: SteamId, summary: Summary, inp: Inputs, other: SteamId)
    requires other != id
    ensures Update(t, id, summary, inp).users == t.users
    ensures AccountRows(Update(t, id, summary, inp).active, other) == AccountRows(t.active, other)
    ensures AppendsFor(t.sessions, Update(t, id, summary, inp).sessions, id)
  {
    assert t.sessions[..|t.sessions|] == t.sessions;
    if summary.steamId != id || (inp.faults.read && summary.visibility == SteamApi.VISIBILITY_PUBLIC) {
    } else if summary.visibility != SteamApi.VISIBILITY_PUBLIC {
      OtherAccountRows(t.active, id, 0, other);
    } else if summary.gameId == 0 {
      IdleFrame(t, id, ActiveOf(t.active, id), inp, other);
    } else {
      PlayFrame(t, id, ActiveOf(t.active, id), summary.gameId, inp, other);
    }
  }

  /** Not in a game with every row deferred: nothing changes. */
  lemma DeferredUnchanged(t: Tables, id: SteamId, summary: Summary, inp: Inputs)
    requires summary.steamId == id && summary.visibility == SteamApi.VISIBILITY_PUBLIC && summary.gameId == 0
    requires var rows := InOrder(ActiveOf(t.active, id));
      inp.ownedGames(AppIdsOf(rows)).Ok?
      && forall i :: 0 <= i < |rows| ==> Deferred(rows[i], inp.ownedGames(AppIdsOf(rows)).value)
    ensures Update(t, id, summary, inp) == t
  {
    var rows := InOrder(ActiveOf(t.active, id));
    if !inp.faults.read && |ActiveOf(t.active, id)| != 0 {
      AllDeferredUnchanged(t, id, rows, inp.ownedGames(AppIdsOf(rows)).value, inp);
    }
  }

  // ---------------------------------------------------------------- locality

  /** What the loop leaves of the account's own rows depends only on those rows. */
  lemma {:induction false} ReleaseLocal(t1: Tables, t2: Tables, id: SteamId, rows: seq<ActiveSession>,
                                        games: map<AppId, U32>, inp: Inputs)
    requires AccountRows(t1.active, id) == AccountRows(t2.active, id)
    ensures AccountRows(Release(t1, id, rows, games, inp).active, id) == AccountRows(Release(t2, id, rows, games, inp).active, id)
    decreases |rows|
  {
    if rows != [] {
      var app := rows[0].appId;
      var row := ActiveSession(id, 0, 0, 0);
      ReleaseRowShape(t1, id, rows[0], games, inp);
      ReleaseRowShape(t2, id, rows[0], games, inp);
      var s1 := ReleaseRow(t1, id, rows[0], games, inp);
      var s2 := ReleaseRow(t2, id, rows[0], games, inp);
      if Removes(rows[0], games, inp) {
        OwnAccountRows(t1.active, id, app, row);
        OwnAccountRows(t2.active, id, app, row);
      }
      ReleaseLocal(s1.t, s2.t, id, rows[1..], games, inp);
    }
  }

  /** What reconciling an account leaves of its own rows depends only on
      those rows, not on the rest of the store. */
  lemma UpdateLocal(t1: Tables, t2: Tables, id: SteamId, summary: Summary, inp: Inputs)
    requires AccountRows(t1.active, id) == AccountRows(t2.active, id)
    ensures AccountRows(Update(t1, id, summary, inp).active, id) == AccountRows(Update(t2, id, summary, inp).active, id)
  {
    var act := ActiveOf(t1.active, id);
    assert act == ActiveOf(t2.active, id);
    if summary.steamId != id || (inp.faults.read && summary.visibility == SteamApi.VISIBILITY_PUBLIC) {
    } else if summary.visibility != SteamApi.VISIBILITY_PUBLIC {
      WithoutAccountSpec(t1.active, id, ActiveSession(id, 0, 0, 0));
      WithoutAccountSpec(t2.active, id, ActiveSession(id, 0, 0, 0));
    } else if summary.gameId == 0 {
      if |act| != 0 {
        var rows := InOrder(act);
        var owned := inp.ownedGames(AppIdsOf(rows));
        if owned.Ok? {
          ReleaseLocal(t1, t2, id, rows, owned.value, inp);
        }
      }
    } else {
      var b := Baseline(inp.ownedGame(summary.gameId));
      if b.Some? {
        var row := ActiveSession(id, inp.now, b.value, summary.gameId);
        OwnAccountRows(t1.active, id, 0, row);
        OwnAccountRows(t2.active, id, 0, row);
      }
    }
  }
}
