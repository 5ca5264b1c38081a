/** The non-transport part of the Steam Web API client (sptt/steamapi.go):
    argument checks, building the request parameters, checking and keying
    the decoded replies, and turning HTTP status codes into errors. The HTTP
    exchange and JSON decoding are inputs: a reply is either unreachable or a
    status code with the body as decoded (`None` when it does not decode). */
module SteamApi {
  import opened Types
  import opened Strings
  import opened Collections
  import Util

  /** `communityvisibilitystate`: 1 is private, 3 is public. */
  const VISIBILITY_PRIVATE: int := 1
  const VISIBILITY_PUBLIC: int := 3

  const STEAM_ID_LENGTH: nat := 17

  datatype PlayerSummary = PlayerSummary(
    steamid: string,
    visibility: int,
    profileState: int,
    personaName: string,
    gameId: string)

  datatype OwnedGame = OwnedGame(appid: int, name: string, playtime: int)

  datatype OwnedGamesResponse = OwnedGamesResponse(gameCount: int, games: seq<OwnedGame>)

  /** The `input_json` document of a GetOwnedGames request. */
  datatype OwnedGamesRequest = OwnedGamesRequest(
    steamid: nat,
    includeAppInfo: bool,
    includePlayedFreeGames: bool,
    appidsFilter: seq<U32>)

  /** What the HTTP exchange produced: no response at all (building, sending
      or reading the request failed), or a status code and the decoded body. */
  datatype HttpReply<T> = Unreachable | Reply(status: int, body: Option<T>)

  /** `getRespBody`: 200 yields the body, 403 the sentinel `ErrForbidden`,
      any other status a generic error carrying the code. */
  function RespBody<T>(reply: HttpReply<T>): (r: Result<Option<T>>)
    ensures r.Ok? <==> reply.Reply? && reply.status == 200
    ensures r.Ok? ==> r.value == reply.body
    ensures r == Err(Forbidden) <==> reply.Reply? && reply.status == 403
    ensures reply.Reply? && reply.status != 200 && reply.status != 403 ==> r == Err(Status(reply.status))
  {
    match reply
    case Unreachable => Err(RequestFailed)
    case Reply(status, body) =>
      if status != 200 then
        if status == 403 then Err(Forbidden) else Err(Status(status))
      else Ok(body)
  }

  function PlayerKey(p: PlayerSummary): string {
    p.steamid
  }

  /** `GetPlayerSummaries`: `query` is the `steamids` request parameter, or
      `None` when no request is made. */
  method GetPlayerSummaries(steamids: seq<string>, reply: HttpReply<seq<PlayerSummary>>)
    returns (query: Option<string>, summaries: Result<map<string, PlayerSummary>>)
    ensures steamids == [] ==> query == None && summaries == Err(EmptySteamIds)
    ensures steamids != [] ==> query == Some(Join(steamids, ','))
    ensures summaries.Ok? <==>
      (steamids != [] && reply.Reply? && reply.status == 200 && reply.body.Some?
       && |reply.body.value| == |steamids|)
    ensures summaries.Ok? ==> summaries.value == KeyedLast(reply.body.value, PlayerKey)
    ensures steamids != [] && reply.Reply? && reply.status == 403 ==> summaries == Err(Forbidden)
    ensures steamids != [] && reply.Reply? && reply.status == 200 && reply.body.None? ==>
      summaries == Err(Traced(Decode))
    ensures (steamids != [] && reply.Reply? && reply.status == 200 && reply.body.Some?
             && |reply.body.value| != |steamids|) ==>
      summaries == Err(SummaryCount(|reply.body.value|, |steamids|))
  {
    if |steamids| == 0 {
      return None, Err(EmptySteamIds);
    }
    var steamidsStr := JoinSteamIds(steamids);
    query := Some(steamidsStr);

    var body := RespBody(reply);
    if body.Err? {
      return query, Err(body.error);
    }
    if body.value.None? {
      return query, Err(Util.WrapErr(Some(Decode)).value);
    }
    var allSummaries := body.value.value;
    if |allSummaries| != |steamids| {
      return query, Err(SummaryCount(|allSummaries|, |steamids|));
    }
    var m := KeyByPlayer(allSummaries);
    return query, Ok(m);
  }

  /** The comma-joined `steamids` request parameter. */
  method JoinSteamIds(steamids: seq<string>) returns (steamidsStr: string)
    requires steamids != []
    ensures steamidsStr == Join(steamids, ',')
  {
    steamidsStr := steamids[0];
    for i := 1 to |steamids|
      invariant steamidsStr == Join(steamids[..i], ',')
    {
      assert steamids[..i + 1][..i] == steamids[..i];
      steamidsStr := steamidsStr + "," + steamids[i];
    }
    assert steamids[..|steamids|] == steamids;
  }

  /** The summaries keyed by their own `steamid`. */
  method KeyByPlayer(allSummaries: seq<PlayerSummary>) returns (m: map<string, PlayerSummary>)
    ensures m == KeyedLast(allSummaries, PlayerKey)
  {
    m := map[];
    for i := 0 to |allSummaries|
      invariant m == KeyedLast(allSummaries[..i], PlayerKey)
    {
      KeyedLastAppend(allSummaries[..i], allSummaries[i], PlayerKey);
      TakeOneMore(allSummaries, i);
      m := m[allSummaries[i].steamid := allSummaries[i]];
    }
    assert allSummaries[..|allSummaries|] == allSummaries;
  }

  /** The `steamids` parameter lists the ids in order: it splits back into
      them, and it neither starts nor ends with a comma. */
  lemma {:induction false} SteamIdsParameter(steamids: seq<string>)
    requires steamids != []
    requires forall i :: 0 <= i < |steamids| ==> steamids[i] != [] && ',' !in steamids[i]
    ensures Split(Join(steamids, ','), ',') == steamids
    ensures var q := Join(steamids, ','); q != [] && q[0] != ',' && q[|q| - 1] != ','
  {
    SplitJoin(steamids, ',');
    JoinEdges(steamids);
  }

  lemma {:induction false} JoinEdges(xs: seq<string>)
    requires xs != []
    requires forall i :: 0 <= i < |xs| ==> xs[i] != [] && ',' !in xs[i]
    ensures var q := Join(xs, ','); q != [] && q[0] == xs[0][0] && q[|q| - 1] == xs[|xs| - 1][|xs[|xs| - 1]| - 1]
  {
    if |xs| > 1 {
      JoinEdges(xs[..|xs| - 1]);
    }
  }

  /** A summary appears under the id the reply itself gives it, the last one
      winning when the reply repeats an id; a successful count check does not
      by itself make every requested id a key. */
  lemma SummaryKeys(players: seq<PlayerSummary>, id: string)
    ensures id in KeyedLast(players, PlayerKey) <==> exists i :: 0 <= i < |players| && players[i].steamid == id
    ensures id in KeyedLast(players, PlayerKey) ==> KeyedLast(players, PlayerKey)[id].steamid == id
  {
    KeyedLastKeys(players, PlayerKey, id);
  }

  lemma CountCheckAdmitsMissingId()
    ensures var p := PlayerSummary("76561198000000001", 3, 1, "", "");
      |[p, p]| == |["76561198000000001", "76561198000000002"]|
      && "76561198000000002" !in KeyedLast([p, p], PlayerKey)
  {
    var p := PlayerSummary("76561198000000001", 3, 1, "", "");
    KeyedLastKeys([p, p], PlayerKey, "76561198000000002");
  }

  /** Parsing every appid as a decimal `uint32`, in order; the first that
      does not parse is the error. */
  function ParseAppIds(appids: seq<string>): (r: Result<seq<U32>>)
    ensures r.Ok? <==> forall i :: 0 <= i < |appids| ==> ParseUint(appids[i], MAX_UINT32_EXCL).Some?
    ensures r.Ok? ==> (|r.value| == |appids|
      && forall i :: 0 <= i < |appids| ==> r.value[i] == ParseUint(appids[i], MAX_UINT32_EXCL).value)
    ensures r.Err? ==> exists k :: (0 <= k < |appids| && r.error == Traced(ParseInt(appids[k]))
      && ParseUint(appids[k], MAX_UINT32_EXCL).None?
      && forall j :: 0 <= j < k ==> ParseUint(appids[j], MAX_UINT32_EXCL).Some?)
  {
    if appids == [] then Ok([])
    else
      match ParseUint(appids[0], MAX_UINT32_EXCL)
      case None => Err(Traced(ParseInt(appids[0])))
      case Some(v) =>
        match ParseAppIds(appids[1..])
        case Err(e) =>
          assert forall j :: 1 <= j < |appids| ==> appids[j] == appids[1..][j - 1];
          Err(e)
        case Ok(rest) =>
          assert forall j :: 1 <= j < |appids| ==> appids[j] == appids[1..][j - 1];
          Ok([v as U32] + rest)
  }

  /** The result of a GetOwnedGames request once the request was sent. */
  function OwnedGamesOf(reply: HttpReply<OwnedGamesResponse>): (r: Result<map<string, OwnedGame>>)
    ensures r.Ok? <==> (reply.Reply? && reply.status == 200 && reply.body.Some?
      && reply.body.value.gameCount != 0 && reply.body.value.games != [])
    ensures r == Err(EmptyGames) <==> (reply.Reply? && reply.status == 200 && reply.body.Some?
      && (reply.body.value.gameCount == 0 || reply.body.value.games == []))
    ensures r.Ok? ==> r.value == KeyedLast(reply.body.value.games, GameKey)
  {
    match RespBody(reply)
    case Err(e) => Err(e)
    case Ok(body) =>
      if body.None? then Err(Traced(Decode))
      else if body.value.gameCount == 0 || |body.value.games| == 0 then Err(EmptyGames)
      else Ok(KeyedLast(body.value.games, GameKey))
  }

  /** Returned games are keyed by the decimal rendering of their appid. */
  function GameKey(g: OwnedGame): string {
    IntToDecimal(g.appid)
  }

  /** `GetOwnedGames`: `request` is the `input_json` document sent, or `None`
      when an argument check fails before any request. */
  method GetOwnedGames(steamid: string, appids: seq<string>, reply: HttpReply<OwnedGamesResponse>)
    returns (request: Option<OwnedGamesRequest>, games: Result<map<string, OwnedGame>>)
    ensures |steamid| != STEAM_ID_LENGTH ==> request == None && games == Err(SteamIdLength)
    ensures |steamid| == STEAM_ID_LENGTH && appids == [] ==> request == None && games == Err(EmptyAppIds)
    ensures |steamid| == STEAM_ID_LENGTH && appids != [] && ParseUint(steamid, MAX_UINT64_EXCL).None? ==>
      request == None && games == Err(Traced(ParseInt(steamid)))
    ensures (|steamid| == STEAM_ID_LENGTH && appids != [] && ParseUint(steamid, MAX_UINT64_EXCL).Some?
             && ParseAppIds(appids).Err?) ==> request == None && games == Err(ParseAppIds(appids).error)
    ensures request.Some? <==> (|steamid| == STEAM_ID_LENGTH && appids != []
      && ParseUint(steamid, MAX_UINT64_EXCL).Some? && ParseAppIds(appids).Ok?)
    ensures request.Some? ==>
      request.value == OwnedGamesRequest(ParseUint(steamid, MAX_UINT64_EXCL).value, true, true, ParseAppIds(appids).value)
      && games == OwnedGamesOf(reply)
  {
    if |steamid| != STEAM_ID_LENGTH {
      return None, Err(SteamIdLength);
    }
    if |appids| == 0 {
      return None, Err(EmptyAppIds);
    }
    var steamidUint := ParseUint(steamid, MAX_UINT64_EXCL);
    if steamidUint.None? {
      return None, Err(Util.WrapErr(Some(ParseInt(steamid))).value);
    }
    var appidsUint := ParseAppIdList(appids);
    if appidsUint.Err? {
      return None, Err(appidsUint.error);
    }
    request := Some(OwnedGamesRequest(steamidUint.value, true, true, appidsUint.value));

    var body := RespBody(reply);
    if body.Err? {
      return request, Err(body.error);
    }
    if body.value.None? {
      return request, Err(Util.WrapErr(Some(Decode)).value);
    }
    var resp := body.value.value;
    if resp.gameCount == 0 || |resp.games| == 0 {
      return request, Err(EmptyGames);
    }
    var m := KeyByAppId(resp.games);
    return request, Ok(m);
  }

  /** The loop that fills the `appidsUint` array, stopping at the first appid
      that does not parse. */
  method ParseAppIdList(appids: seq<string>) returns (r: Result<seq<U32>>)
    ensures r == ParseAppIds(appids)
  {
    var appidsUint := new U32[|appids|];
    for i := 0 to |appids|
      invariant forall j :: 0 <= j < i ==>
        ParseUint(appids[j], MAX_UINT32_EXCL).Some? && appidsUint[j] == ParseUint(appids[j], MAX_UINT32_EXCL).value
    {
      var appidUint := ParseUint(appids[i], MAX_UINT32_EXCL);
      if appidUint.None? {
        ParseAppIdsFirstFailure(appids, i);
        return Err(Util.WrapErr(Some(ParseInt(appids[i]))).value);
      }
      appidsUint[i] := appidUint.value;
    }
    assert appidsUint[..] == ParseAppIds(appids).value;
    return Ok(appidsUint[..]);
  }

  /** The returned games keyed by the decimal rendering of their appid. */
  method KeyByAppId(games: seq<OwnedGame>) returns (m: map<string, OwnedGame>)
    ensures m == KeyedLast(games, GameKey)
  {
    m := map[];
    for i := 0 to |games|
      invariant m == KeyedLast(games[..i], GameKey)
    {
      var game := games[i];
      var appid := IntToDecimal(game.appid);
      assert appid == GameKey(game);
      TakeOneMore(games, i);
      KeyedLastAppend(games[..i], game, GameKey);
      m := m[appid := game];
    }
    assert games[..|games|] == games;
  }

  lemma {:induction false} ParseAppIdsFirstFailure(appids: seq<string>, i: nat)
    requires i < |appids|
    requires forall j :: 0 <= j < i ==> ParseUint(appids[j], MAX_UINT32_EXCL).Some?
    requires ParseUint(appids[i], MAX_UINT32_EXCL).None?
    ensures ParseAppIds(appids) == Err(Traced(ParseInt(appids[i])))
  {
    if i > 0 {
      ParseAppIdsFirstFailure(appids[1..], i - 1);
      assert appids[1..][i - 1] == appids[i];
    }
  }

  /** A requested appid written canonically finds its game under the same text
      in the result (`LeadingZeroNotCanonical` covers the other writings). */
  lemma OwnedGameLookup(games: seq<OwnedGame>, appid: string, i: nat)
    requires IsCanonicalDecimal(appid)
    requires i < |games| && games[i].appid == DecimalValue(appid)
    ensures appid in KeyedLast(games, GameKey)
    ensures KeyedLast(games, GameKey)[appid].appid == DecimalValue(appid)
  {
    RenderingOfDecimal(appid);
    assert GameKey(games[i]) == appid;
    var g := KeyedLast(games, GameKey)[appid];
    assert IntToDecimal(g.appid) == appid;
    assert IsDigit(appid[0]);
    assert g.appid >= 0;
    DecimalOfRendering(g.appid);
  }
}
