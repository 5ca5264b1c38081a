/** One tick of `monitor` (main.go) and its handler for control messages.
    The tick asks Steam for the summaries of every tracked id and reconciles
    each id that has one; the handler re-reads the tracked ids when told the
    list changed. The goroutines become one sequential loop. */
module Monitor {
  import opened Types
  import opened Db
  import opened Reconciler
  import Notif

  /** The loop of one tick over `ids`, given the decoded summaries. */
  function RunAll(t: Tables, ids: seq<SteamId>, summaries: map<SteamId, Summary>, inputs: SteamId -> Inputs): Tables
    decreases |ids|
  {
    if ids == [] then t
    else
      var id := ids[0];
      var t1 := if id in summaries then Update(t, id, summaries[id], inputs(id)) else t;
      RunAll(t1, ids[1..], summaries, inputs)
  }

  /** One tick: a failed summaries request skips the tick. */
  function TickOf(t: Tables, ids: seq<SteamId>, summaries: Result<map<SteamId, Summary>>, inputs: SteamId -> Inputs): Tables {
    match summaries
    case Err(_) => t
    case Ok(m) => RunAll(t, ids, m, inputs)
  }

  /** The monitor: the store and the list of tracked ids it shares with its
      message handler. */
  class Monitor {
    var db: Store
    var ids: seq<SteamId>

    /** Start-up reads the ids once; on a failed read the list is empty. */
    constructor (db: Store, fail: bool)
      ensures this.db == db
      ensures ids == if fail then [] else UserIds(db.users)
    {
      var r := db.GetSteamIDs(fail);
      this.db := db;
      ids := if r.Ok? then r.value else [];
    }

    /** One message from the control channel: a user-list update re-reads the
        ids (a failed read leaves the list empty); any other message type is
        only logged. */
    method Handle(n: Notif.Notif, fail: bool)
      modifies this
      ensures db == old(db)
      ensures Notif.IsUserListUpdate(n) ==> ids == if fail then [] else UserIds(db.users)
      ensures !Notif.IsUserListUpdate(n) ==> ids == old(ids)
    {
      if Notif.IsUserListUpdate(n) {
        var r := db.GetSteamIDs(fail);
        ids := if r.Ok? then r.value else [];
      }
    }

    /** One tick, `summaries` being what `GetPlayerSummaries(ids)` returned
        and `inputs` what each account's reconciliation sees. */
    method Tick(summaries: Result<map<SteamId, Summary>>, inputs: SteamId -> Inputs)
      modifies db
      ensures db.Contents() == TickOf(old(db.Contents()), ids, summaries, inputs)
    {
      if summaries.Err? {
        return;
      }
      var m := summaries.value;
      ghost var goal := RunAll(db.Contents(), ids, m, inputs);
      for i := 0 to |ids|
        invariant RunAll(db.Contents(), ids[i..], m, inputs) == goal
      {
        assert ids[i..][1..] == ids[i + 1..];
        var id := ids[i];
        if id !in m {
          // logged and skipped
          continue;
        }
        UpdateUser(db, id, m[id], inputs(id));
      }
    }
  }

  /** Running the loop over a concatenation runs it over each part in turn. */
  lemma {:induction false} RunAllAppend(t: Tables, xs: seq<SteamId>, ys: seq<SteamId>, m: map<SteamId, Summary>,
                                        inputs: SteamId -> Inputs)
    ensures RunAll(t, xs + ys, m, inputs) == RunAll(RunAll(t, xs, m, inputs), ys, m, inputs)
    decreases |xs|
  {
    if xs == [] {
      assert xs + ys == ys;
    } else {
      assert (xs + ys)[0] == xs[0];
      assert (xs + ys)[1..] == xs[1..] + ys;
      var t1 := if xs[0] in m then Update(t, xs[0], m[xs[0]], inputs(xs[0])) else t;
      RunAllAppend(t1, xs[1..], ys, m, inputs);
    }
  }

  /** A tick never touches `users` or the rows of an account it does not reconcile. */
  lemma {:induction false} RunAllFrame(t: Tables, ids: seq<SteamId>, m: map<SteamId, Summary>, inputs: SteamId -> Inputs,
                                       other: SteamId)
    requires other !in ids
    ensures RunAll(t, ids, m, inputs).users == t.users
    ensures AccountRows(RunAll(t, ids, m, inputs).active, other) == AccountRows(t.active, other)
    decreases |ids|
  {
    if ids != [] {
      var id := ids[0];
      if id in m {
        UpdateFrame(t, id, m[id], inputs(id), other);
      }
      var t1 := if id in m then Update(t, id, m[id], inputs(id)) else t;
      assert other !in ids[1..];
      RunAllFrame(t1, ids[1..], m, inputs, other);
    }
  }

  /** A tick keeps one row per account and game. */
  lemma {:induction false} RunAllKeepsUnique(t: Tables, ids: seq<SteamId>, m: map<SteamId, Summary>, inputs: SteamId -> Inputs)
    requires UniqueRows(t.active)
    ensures UniqueRows(RunAll(t, ids, m, inputs).active)
    decreases |ids|
  {
    if ids != [] {
      var id := ids[0];
      if id in m {
        UpdateKeepsUnique(t, id, m[id], inputs(id));
      }
      var t1 := if id in m then Update(t, id, m[id], inputs(id)) else t;
      RunAllKeepsUnique(t1, ids[1..], m, inputs);
    }
  }

  /** Every account is reconciled independently: for an id listed once, its
      rows after the tick are exactly what reconciling it alone against the
      store as the tick found it would leave; with no summary, they are as
      they were. */
  lemma TickIndependent(t: Tables, ids: seq<SteamId>, m: map<SteamId, Summary>, inputs: SteamId -> Inputs, k: nat)
    requires k < |ids|
    requires forall j :: 0 <= j < |ids| && j != k ==> ids[j] != ids[k]
    ensures var b := ids[k];
      AccountRows(RunAll(t, ids, m, inputs).active, b) ==
        if b in m then AccountRows(Update(t, b, m[b], inputs(b)).active, b) else AccountRows(t.active, b)
  {
    var b := ids[k];
    var front, back := ids[..k], ids[k + 1..];
    assert ids == front + ([b] + back);
    RunAllAppend(t, front, [b] + back, m, inputs);
    var t1 := RunAll(t, front, m, inputs);
    assert b !in front by {
      forall j | 0 <= j < |front| ensures front[j] != b { assert front[j] == ids[j]; }
    }
    RunAllFrame(t, front, m, inputs, b);
    var t2 := if b in m then Update(t1, b, m[b], inputs(b)) else t1;
    assert RunAll(t1, [b] + back, m, inputs) == RunAll(t2, back, m, inputs) by {
      assert ([b] + back)[0] == b;
      assert ([b] + back)[1..] == back;
    }
    assert b !in back by {
      forall j | 0 <= j < |back| ensures back[j] != b { assert back[j] == ids[k + 1 + j]; }
    }
    RunAllFrame(t2, back, m, inputs, b);
    if b in m {
      UpdateLocal(t1, t, b, m[b], inputs(b));
    }
  }

  /** A failed summaries request changes nothing; an id without a summary is skipped. */
  lemma TickSkips(t: Tables, ids: seq<SteamId>, summaries: Result<map<SteamId, Summary>>, inputs: SteamId -> Inputs)
    ensures summaries.Err? ==> TickOf(t, ids, summaries, inputs) == t
    ensures summaries.Ok? && ids != [] && ids[0] !in summaries.value ==>
      TickOf(t, ids, summaries, inputs) == TickOf(t, ids[1..], summaries, inputs)
  {
  }
}
