# Steam playtime tracker: a verified model of the session reconciler

The tracker polls Steam once a minute for the player summary of every
tracked account. It keeps one row in `active_sessions` per account and game
being played. When the account stops playing, it turns the row into a
finished row of `sessions`. This project models that core in Dafny and
proves properties of the model:

- `updateUser` (main.go), the per-account reconciler;
- one tick of the monitor loop and its control-message handler (main.go);
- the store (sptt/db.go), as a class holding the three tables `users`,
  `active_sessions` and `sessions`;
- the `.env` reader and `wrapErr` (sptt/util.go);
- the argument checks and reply post-processing of the Steam client
  (sptt/steamapi.go);
- the control messages (sptt/notif.go).

Modules, one per file:

| file | module | models |
|---|---|---|
| types.dfy | `Types` | errors, `Result`/`Option`, `uint32` arithmetic, the outcome of one SQL statement |
| strings.dfy | `Strings` | `bytes.TrimSpace`, `bytes.Split`, comma joining, `strconv.ParseUint`, `fmt.Sprint` of an int |
| collections.dfy | `Collections` | filling a Go map from a list, ranging over map keys, `WHERE` filters, ordered reads |
| notif.dfy | `Notif` | sptt/notif.go |
| util.dfy | `Util` | sptt/util.go |
| steamapi.dfy | `SteamApi` | sptt/steamapi.go without the transport |
| db.dfy | `Db` | sptt/db.go as an in-memory class `Store` |
| reconciler.dfy | `Reconciler` | `updateUser` |
| monitor.dfy | `Monitor` | one tick of `monitor` and the notification handler |

How the model is built:

- **The reconciler comes in two forms.**
  - `Reconciler.UpdateUser` is imperative. It runs against a `Db.Store`, one
    store call per SQL statement, with the source's loops.
  - `Reconciler.Update` is a pure function on the three tables.
  - The method's postcondition ties the store after the call to the function
    applied to the store before it. Every property of `updateUser` is then
    proved as a lemma about `Update`.
- **The tick follows the same pattern.** `Monitor.Monitor.Tick` is proved
  equal to `Monitor.TickOf`.
- **Everything outside the core is an input:**
  - the clock (`now`, integer seconds);
  - Steam's owned-games answers for the account;
  - whether each store statement fails.
- **A store statement either fails or succeeds.**
  - `Db.Store.RemoveActiveSession` and `Db.Store.RemoveActiveSessions` can
    also have the delete take effect while `RowsAffected` fails. The source
    then still returns an error. `Types.Outcome` names the three cases.
- **Types:**
  - Playtime is `Types.U32`, and the drift test uses wrapping subtraction
    (`Types.Sub32`).
  - The end time Steam's count gives is a `time.Duration`: `int64`
    nanoseconds that wrap around (`Types.WrapI64`, `Reconciler.SteamEnd`).
  - Account and game ids are natural numbers.
- **Map iteration order.** Go leaves the range order of the map returned by
  `GetActiveSessions` unspecified. The model fixes it as ascending AppID
  (`Reconciler.InOrder`).

## Model

| member | source | states |
|---|---|---|
| Types.Sub32 | main.go:221 | `uint32` subtraction: the difference when it is not negative, otherwise the difference plus 2^32 |
| Types.ToU32 | main.go:222 | the `uint32` conversion keeps a value that fits unchanged |
| Types.WrapI64 | main.go:238 | Go's `int64` arithmetic: the result lies in the `int64` range, equals the mathematical value when that fits, and otherwise differs from it by a multiple of 2^64 |
| Strings.TrimLeftShape | sptt/util.go:28 | trimming removes exactly the leading whitespace: everything cut is whitespace and the result does not start with whitespace |
| Strings.TrimRightShape | sptt/util.go:28 | the same for trailing whitespace |
| Strings.TrimSpaceShape | sptt/util.go:28 | the input is whitespace, then the trimmed text, then whitespace |
| Strings.TrimSpaceEnds | sptt/util.go:37 | a trimmed text neither starts nor ends with whitespace |
| Strings.TrimSpaceWithin | sptt/util.go:37 | every character of the trimmed text occurs in the input |
| Strings.TrimSpaceClean | sptt/util.go:37 | text without surrounding whitespace is left as it is |
| Strings.TrimSpaceIdempotent | sptt/util.go:28 | trimming twice is trimming once |
| Strings.IndexOf | sptt/util.go:32 | the position of the first occurrence of the character, or the length when there is none; no occurrence lies before it |
| Strings.Split | sptt/util.go:27 | splitting at newlines gives at least one piece, and no piece holds the separator |
| Strings.JoinSplit | sptt/util.go:27 | joining the pieces with the separator gives back the text |
| Strings.SplitJoin | sptt/steamapi.go:113-116 | when no piece holds the separator, splitting the joined text gives the pieces back |
| Strings.ParseUint | sptt/steamapi.go:166-178 | `strconv.ParseUint(s, 10, n)` succeeds exactly on a non-empty all-digit string whose value is below 2^n, and then gives that decimal value |
| Strings.IntToDecimal | sptt/steamapi.go:218 | `fmt.Sprint` of an int: a minus sign followed by the rendering of the magnitude for negatives, the plain rendering otherwise |
| Strings.DecimalOfRendering | sptt/steamapi.go:218 | reading back a rendered number gives the number, and the rendering has no leading zero |
| Strings.ParseRendering | sptt/steamapi.go:173 | parsing a rendered number below the limit succeeds with that number |
| Strings.RenderingOfDecimal | sptt/steamapi.go:218 | rendering the value of a canonical digit string gives the same string |
| Strings.LeadingZeroNotCanonical | sptt/steamapi.go:218 | a digit string with a leading zero is not what its value renders as |
| Collections.KeyedLastKeys | sptt/steamapi.go:136-139 | a key is in the filled map exactly when some element has that key |
| Collections.KeyedLastWins | sptt/db.go:198-206 | the value under a key is the last element with that key |
| Collections.SortBy | sptt/db.go:306 | an ordered read is sorted by the key and holds exactly the input rows (a permutation) |
| Collections.Filter | sptt/db.go:157 | a filter keeps exactly the rows satisfying the condition |
| Notif.NotifUserListUpdate | sptt/notif.go:4-14 | the update message has type 1 and a nil payload |
| Notif.ClassifyUserListUpdate | sptt/notif.go:12-18 | the classifier accepts the update message, accepts exactly type 1, and ignores the payload |
| Util.WrapErr | sptt/util.go:46-51 | `nil` stays `nil`, and any other error is wrapped |
| Util.WrappedIsNoSentinel | sptt/util.go:46-51 | a wrapped error never equals a sentinel error |
| Util.Unquote | sptt/util.go:38-40 | the value is either kept as it is or loses exactly one surrounding pair of double quotes |
| Util.UnquoteQuoted | sptt/util.go:38-40 | one pair of surrounding quotes is removed; a value without such a pair (including a lone `"`) is kept |
| Util.GetEnv | sptt/util.go:17-44 | the loop leaves exactly the map the lines define; a file that cannot be opened is a wrapped error |
| Util.IgnoredLines | sptt/util.go:28-36 | a line contributes nothing exactly when, trimmed, it is blank, starts with `#`, or has no `=` |
| Util.SplitAtFirstEquals | sptt/util.go:32-40 | a contributing line splits at its first `=` into a trimmed key and a trimmed, unquoted value |
| Util.KeyHasNoEquals | sptt/util.go:32 | a key never contains `=` |
| Util.ParseFormattedLine | sptt/util.go:28-41 | writing `key=value` and reading it back gives the key and the unquoted value, even when the value contains `=` |
| Util.StoredKeys | sptt/util.go:41 | a key is stored exactly when some pair has it |
| Util.StoredLastWins | sptt/util.go:41 | the value stored under a key comes from the last pair with that key |
| Util.EnvKeys | sptt/util.go:27-41 | every key of the result comes from a non-comment line containing `=`, and every such line's key is in the result |
| Util.EnvLastWins | sptt/util.go:27-41 | a later duplicate key overwrites an earlier one |
| SteamApi.RespBody | sptt/steamapi.go:250-262 | 200 gives the body; 403 gives `ErrForbidden`; any other status an error carrying the code |
| SteamApi.GetPlayerSummaries | sptt/steamapi.go:108-140 | an empty id list fails before any request; otherwise the query is the comma-joined ids; success exactly when the reply is 200, decodes and holds one summary per id; the map is keyed by each summary's own id |
| SteamApi.JoinSteamIds | sptt/steamapi.go:113-116 | the accumulating loop builds the comma join of the ids |
| SteamApi.KeyByPlayer | sptt/steamapi.go:136-139 | the loop leaves the summaries keyed by `steamid`, the last one winning |
| SteamApi.SteamIdsParameter | sptt/steamapi.go:113-117 | the `steamids` parameter splits back into the ids and neither starts nor ends with a comma |
| SteamApi.SummaryKeys | sptt/steamapi.go:136-139 | an id is a key exactly when some returned summary carries it, and its value carries that id |
| SteamApi.CountCheckAdmitsMissingId | sptt/steamapi.go:132-139 | a reply of the right size can still lack a requested id (a repeated summary) |
| SteamApi.ParseAppIds | sptt/steamapi.go:171-178 | conversion succeeds exactly when every appid parses as a decimal `uint32`, giving the values in order; otherwise the error names the first appid that fails |
| SteamApi.ParseAppIdList | sptt/steamapi.go:171-178 | the loop filling the `appidsUint` array computes `ParseAppIds` |
| SteamApi.ParseAppIdsFirstFailure | sptt/steamapi.go:172-176 | the error is the one for the first appid that does not parse |
| SteamApi.OwnedGamesOf | sptt/steamapi.go:199-220 | after the request: success exactly when the reply is 200, decodes and has games; `ErrEmptyGames` exactly for a count of 0 or an empty list; games keyed by their rendered appid |
| SteamApi.GetOwnedGames | sptt/steamapi.go:151-220 | a wrong-length steamid, an empty appid list or an id that does not parse fails before any request; otherwise the request document holds the parsed ids and the result is `OwnedGamesOf` the reply |
| SteamApi.KeyByAppId | sptt/steamapi.go:215-219 | the loop leaves the games keyed by `fmt.Sprint(appid)`, the last one winning |
| SteamApi.OwnedGameLookup | sptt/steamapi.go:216-219 | a canonically written requested appid finds its game under the same text |
| Db.UserIds | sptt/db.go:108-130 | the ids of the users, in stored order |
| Db.InsertUserSpec | sptt/db.go:133-154 | insert-or-ignore: an existing id leaves `users` unchanged; a new one is appended; uniqueness of ids is kept |
| Db.DeleteUserSpec | sptt/db.go:157-167 | deleting an id removes exactly that id's users; an absent id changes nothing |
| Db.DeleteUsersSpec | sptt/db.go:156-180 | a user survives exactly when its id is not in the list |
| Db.DeleteUsersUnique | sptt/db.go:156-180 | deleting keeps ids unique |
| Db.ActiveOfSpec | sptt/db.go:191-213 | the keyed read holds an AppID exactly when the account has a row for it, and that value is such a row |
| Db.ActiveOfLastWins | sptt/db.go:198-206 | with two rows for the same account and game, the last one scanned is the value |
| Db.ActiveRoundTrip | sptt/db.go:191-218 | after adding a row, the keyed read of its account returns it under its AppID |
| Db.ActiveAppend | sptt/db.go:191-236 | after appending a row, the keyed read is the previous one updated at that AppID |
| Db.WithoutGameSpec | sptt/db.go:244-266 | the delete removes exactly the rows matching both keys; no match is no change |
| Db.WithoutAccountSpec | sptt/db.go:272-294 | the delete removes exactly the account's rows, so its keyed read is empty |
| Db.OtherAccountRows | sptt/db.go:244-294 | deleting one account's rows leaves another account's rows as they were |
| Db.OtherAccountAppend | sptt/db.go:221-236 | appending a row of one account leaves another account's rows as they were |
| Db.OwnAccountRows | sptt/db.go:244-266 | a statement on an account's own rows acts on those rows alone |
| Db.SessionsOfSpec | sptt/db.go:305-327 | the read of finished sessions is sorted by start and holds exactly the account's rows |
| Db.SessionRoundTrip | sptt/db.go:305-343 | an added finished session is in its account's read, which grows by one |
| Db.Processed | sptt/db.go:163-178 | how many statements of a loop ran: those before the failing one, or all of them when none of them fails |
| Db.Store.constructor | sptt/db.go:31-74 | a new store has empty tables |
| Db.Store.GetSteamIDs | sptt/db.go:108-130 | the stored ids, or the raw database error |
| Db.Store.AddSteamID | sptt/db.go:133-154 | insert-or-ignore on `users` and success, or a wrapped error with nothing changed; ids stay unique |
| Db.Store.RemoveSteamID | sptt/db.go:156-180 | every id before the failing statement is deleted; absent ids are no error; ids stay unique |
| Db.Store.GetActiveSessions | sptt/db.go:191-213 | the account's rows keyed by AppID, or the raw database error |
| Db.Store.KeyByApp | sptt/db.go:198-206 | the scan loop keys the rows by AppID, the last one winning |
| Db.Store.AddActiveSessions | sptt/db.go:221-236 | rows are inserted in list order up to the failing insert, whose error is returned; earlier inserts remain |
| Db.Store.AddActiveSession | sptt/db.go:216-218 | one row appended, or a wrapped error with nothing changed |
| Db.Store.RemoveActiveSession | sptt/db.go:244-266 | the rows matching both keys are deleted unless the statement fails; success exactly when the delete and its row count succeed |
| Db.Store.RemoveActiveSessions | sptt/db.go:272-294 | the same for all the account's rows |
| Db.Store.AddSession | sptt/db.go:330-343 | exactly one row appended to `sessions` and nothing else changed, or a wrapped error |
| Db.Store.GetSessions | sptt/db.go:305-327 | the scan loop picks the account's finished sessions, which are returned ascending by start; or the raw database error |
| Reconciler.UpdateUser | main.go:176-306 | the store after the call is `Update` of the store before it |
| Reconciler.ReleaseAll | main.go:193-261 | the not-in-game branch leaves `Idle` of the store |
| Reconciler.CollectAppIds | main.go:208-211 | the loop lists the rows' AppIDs in order |
| Reconciler.StartSession | main.go:270-304 | the in-game branch leaves `Play` of the store |
| Reconciler.ReleaseLoop | main.go:219-260 | the release loop, early return included, leaves `Release` of the store |
| Reconciler.InOrder | main.go:219 | the loop visits the rows of the keyed read one per AppID, in ascending AppID order, each exactly once |
| Reconciler.AppIdsOf | main.go:208-211 | one AppID per row, in row order |
| Reconciler.ServerMinutes | main.go:222 | the wall-clock minutes since the start: whole minutes of the absolute difference, when they fit a `uint32` |
| Reconciler.SteamEnd | main.go:238 | the start plus Steam's change as a `time.Duration`: exactly that many minutes later while the change fits an `int64` of nanoseconds (up to 153722867 minutes); never that instant once it overflows |
| Reconciler.EndTime | main.go:234-241 | the end is either now or Steam's end; within 3 minutes of drift (wrapping subtraction) it is now |
| Reconciler.EndTimeThreshold | main.go:234-241 | drift above 3 minutes trusts Steam's count; a drift of exactly 3 ends the session now |
| Reconciler.EndTimeWraps | main.go:221-241 | when Steam's change exceeds the wall clock, the wrapping subtraction also trusts Steam, except within 3 of a full wrap |
| Reconciler.EndAfterStart | main.go:234-241 | when the clock has not gone backwards and Steam's change fits a Duration, a session never ends before it starts |
| Reconciler.EndTimeOverflow | main.go:234-241 | a trusted change above 153722867 minutes overflows: the end is not that many minutes after the start |
| Reconciler.EndBeforeStartExample | main.go:221-241 | Steam's count one below the baseline: the change wraps to 2^32-1, is trusted, the Duration overflows, and the session ends 556379332 seconds before it starts |
| Reconciler.EndWithin | main.go:221-241 | when Steam's change does not exceed the wall clock (and fits a Duration), the end lies between the start and now |
| Reconciler.EndTimeExamples | main.go:221-241 | two concrete rows: one ends at Steam's count, the other ends now |
| Reconciler.MismatchUnchanged | main.go:177-181 | a summary for another id changes nothing |
| Reconciler.PrivateDropsRows | main.go:183-191 | a non-public profile deletes all the account's rows and writes no finished session; a failing delete changes nothing |
| Reconciler.IdleUnchanged | main.go:193-217 | not in game with no rows, or with a failing owned-games lookup (an empty result included): nothing changes |
| Reconciler.AlreadyPlayingUnchanged | main.go:264-304 | in a game that already has a row: nothing changes, so no other row is closed |
| Reconciler.OpensOneRow | main.go:270-301 | in a game without a row: exactly one row is appended, starting now, and the keyed read then returns it; its baseline is the owned game's playtime, or 0 on `ErrEmptyGames`; any other lookup error opens nothing |
| Reconciler.ReleaseRowSpec | main.go:219-259 | one row: deferred when the playtime did not change; removed without a finished session when its game is missing; otherwise a finished session with the row's start and AppID and Steam's playtime, then the remove; the loop stops exactly on a failing remove after a close |
| Reconciler.ReleaseAppend | main.go:248-252 | once a remove after a close fails, the later rows are never looked at |
| Reconciler.ReleaseRowFrame | main.go:219-259 | one step touches neither `users` nor another account's rows, and appends at most one finished session of this account |
| Reconciler.ReleaseFrame | main.go:219-260 | the loop touches neither `users` nor another account's rows |
| Reconciler.ReleaseSessions | main.go:227-246 | the loop only appends finished sessions, all of this account |
| Reconciler.AllDeferredUnchanged | main.go:219-225 | with every row deferred, the loop changes nothing |
| Reconciler.ReleaseCleanActive | main.go:248-258 | when no remove fails, exactly the released games' rows of the account are deleted |
| Reconciler.ReleaseCleanSessions | main.go:227-246 | when no remove fails, the finished sessions are appended in row order |
| Reconciler.ReleaseClean | main.go:219-260 | when no remove fails, the loop's whole effect in closed form |
| Reconciler.ReleasedRows | main.go:219-260 | when no remove fails, an account row survives exactly when its game was deferred or not visited |
| Reconciler.ReleaseKeepsUnique | main.go:219-260 | the loop keeps at most one row per account and game |
| Reconciler.IdleKeepsUnique | main.go:193-261 | the not-in-game branch keeps at most one row per account and game |
| Reconciler.PlayKeepsUnique | main.go:270-301 | a row is only opened for a game the account has no row for |
| Reconciler.UpdateKeepsUnique | main.go:176-306 | reconciling keeps at most one row per account and game |
| Reconciler.IdleFrame | main.go:193-261 | the not-in-game branch touches neither `users` nor other accounts' rows, and only appends this account's sessions |
| Reconciler.PlayFrame | main.go:264-304 | the in-game branch touches neither `users` nor `sessions` nor other accounts' rows |
| Reconciler.UpdateFrame | main.go:176-306 | reconciling an account touches neither `users` nor other accounts' rows, and only appends finished sessions of that account |
| Reconciler.DeferredUnchanged | main.go:219-225 | not in game with every row deferred: nothing changes |
| Reconciler.ReleaseLocal | main.go:219-260 | what the loop leaves of the account's rows depends only on those rows |
| Reconciler.UpdateLocal | main.go:176-306 | what reconciling leaves of the account's rows depends only on those rows |
| Monitor.Monitor.constructor | main.go:121 | start-up reads the ids once; a failed read leaves the list empty |
| Monitor.Monitor.Handle | main.go:133-142 | a user-list update re-reads the ids (empty on failure); any other message leaves them unchanged |
| Monitor.Monitor.Tick | main.go:156-168 | the store after a tick is `TickOf` the store before it |
| Monitor.RunAllAppend | main.go:161-168 | the loop over a concatenation runs over each part in turn |
| Monitor.RunAllFrame | main.go:161-168 | a tick touches neither `users` nor the rows of an account it does not reconcile |
| Monitor.RunAllKeepsUnique | main.go:161-168 | a tick keeps at most one row per account and game |
| Monitor.TickIndependent | main.go:161-167 | each account listed once gets exactly the rows that reconciling it alone against the starting store leaves |
| Monitor.TickSkips | main.go:156-166 | a failed summaries request skips the tick, and an id without a summary is skipped |

## Left out

- Db.Store.constructor: the store starts with empty tables. `NewDB` connects to a persistent database that may already hold rows; the methods' contracts hold from any starting contents.
- Goroutines, wait groups, signal handling and context cancellation are not modelled (main.go:51-105, 117-173).
  - `go updateUser` becomes a sequential call.
  - The `ids` variable that the handler and the ticker share without synchronisation becomes a field of `Monitor.Monitor`.
- Process start-up and the environment checks in `init` (main.go:17-49) are left out.
- The SQL plumbing is left out: connections, loading the schema, `Ping`, `Close` and row scanning.
  - The schema file is not part of this model, so no unique constraint on `active_sessions` is assumed. `Reconciler.UniqueRows` is proved as an invariant instead.
  - Tables are sequences in insertion order. A `SELECT` without `ORDER BY` returns rows in that order.
  - SQL leaves the order of rows with equal `utcstart` open; `Collections.SortBy` fixes one order for them.
- A failing `Prepare` is left out, except where one failure per statement stands for it.
- The game cache (sptt/db.go:345-378) is left out, because the reconciler does not use it.
- Db.Store.RemoveSteamID: a failing `RowsAffected` is only logged in the source, and the model does not distinguish it from success.
- The HTTP transport, the timeouts, URL escaping and JSON encoding and decoding are left out.
  - A reply is an input: unreachable, or a status code and the decoded body (`None` when it does not decode).
  - `GetGameDetails` and `TestAPIKey` are left out.
- GetPlayerSummaries and GetOwnedGames in sptt/steamapi.go use string ids and `int` playtimes. main.go uses abstract ids, `uint32` playtimes and `api.GetOwnedGame`, which none of these files defines.
  - `SteamApi` keeps the string form as written.
  - `Reconciler` takes the owned-games answers as inputs (`Reconciler.Inputs`), already keyed by AppID with `uint32` playtimes. It does not derive them from `SteamApi.GetOwnedGames`.
- Monitor.Monitor.Tick takes the summaries as an input map. It does not tie them to `SteamApi.GetPlayerSummaries` of the ids.
- The clock is an input. Each call reads it at most once, at main.go:206 or at main.go:291, and `now` is that reading in whole seconds.
  - `Minutes()` becomes whole minutes of the absolute difference. The model does not saturate `now.Sub(start)` at the `int64` range, which only matters for instants some 292 years apart.
  - The `uint32` cast becomes `Types.ToU32`, which wraps. Go leaves the out-of-range float conversion implementation-defined.
  - An end time computed from Steam's count keeps whole seconds only. Go's `Time.Add` keeps the sub-second part of an overflowed Duration, and the model floors it.
- Reconciler.InOrder fixes the range order of the Go map as ascending AppID. Go's order is unspecified, and a failing remove stops the loop, so which rows are released then can depend on that order.
- Logging is left out, including the logger (log/logger.go) and the warnings that accompany branches.
- `bytes.TrimSpace` also removes Unicode whitespace. The model recognises ASCII whitespace only, and treats characters as bytes.
- The `.env` file is given as its contents, or `None` when it cannot be opened.
