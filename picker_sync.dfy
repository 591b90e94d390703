/**
 * The engine and the picker together: the picker, applying in order every
 * `Upsert`, `Remove` and `Error` the engine sends, lists exactly the
 * windows the engine knows, once each, with their current title and app id.
 */
module PickerSync {
  import opened Common
  import opened WaylandEngine
  import opened WaylandProperties
  import opened Picker

  /** The picker's list after it applies the log in order, passing over thumbnails. */
  function Replay(log: seq<WaylandEvent>): seq<WindowEntry> {
    if |log| == 0 then []
    else
      var ws := Replay(log[..|log| - 1]);
      var ev := log[|log| - 1];
      if ev.Thumbnail? then ws else Applied(ws, ev)
  }

  /**
   * The list agrees with the log: ids are distinct, each listed window
   * carries the fields of the last `Upsert` of its id, and every id whose
   * last `Upsert`/`Remove` is an `Upsert` is listed.
   */
  predicate Follows(ws: seq<WindowEntry>, log: seq<WaylandEvent>) {
    && DistinctIds(ws)
    && (forall j | 0 <= j < |ws| :: LastAbout(log, ws[j].id) == Some(Upsert(ws[j].id, ws[j].title, ws[j].appId)))
    && (forall id | LastAbout(log, id).Some? && LastAbout(log, id).value.Upsert? :: HasId(ws, id))
  }

  /** Applying an `Upsert` keeps the list in step with the log. */
  lemma {:induction false} FollowsUpsert(ws: seq<WindowEntry>, log: seq<WaylandEvent>, id: u32, title: string, appId: string)
    requires Follows(ws, log)
    ensures Follows(Upserted(ws, id, title, appId), log + [Upsert(id, title, appId)])
  {
    var ev := Upsert(id, title, appId);
    var r := Upserted(ws, id, title, appId);
    var log' := log + [ev];
    UpsertKeepsDistinct(ws, id, title, appId);
    forall other: u32
      ensures LastAbout(log', other) == if other == id then Some(ev) else LastAbout(log, other)
    {
      LastAboutAppend(log, ev, other);
    }
    match FirstIndex(ws, id)
    case Some(i) =>
      UpsertExisting(ws, id, title, appId, i);
      forall j | 0 <= j < |r|
        ensures LastAbout(log', r[j].id) == Some(Upsert(r[j].id, r[j].title, r[j].appId))
      {
        if j != i {
          assert ws[j].id != ws[i].id;
        }
      }
    case None =>
      forall j | 0 <= j < |r|
        ensures LastAbout(log', r[j].id) == Some(Upsert(r[j].id, r[j].title, r[j].appId))
      {
        if j < |ws| {
          assert r[j] == ws[j];
        }
      }
    forall other | LastAbout(log', other).Some? && LastAbout(log', other).value.Upsert?
      ensures HasId(r, other)
    {
      UpsertedIds(ws, id, title, appId, other);
    }
  }

  /** Applying a `Remove` keeps the list in step with the log. */
  lemma {:induction false} FollowsRemove(ws: seq<WindowEntry>, log: seq<WaylandEvent>, id: u32)
    requires Follows(ws, log)
    ensures Follows(Retained(ws, id), log + [Remove(id)])
  {
    var r := Retained(ws, id);
    var log' := log + [Remove(id)];
    RetainedKeepsDistinct(ws, id);
    RetainedMembers(ws, id);
    forall other: u32
      ensures LastAbout(log', other) == if other == id then Some(Remove(id)) else LastAbout(log, other)
    {
      LastAboutAppend(log, Remove(id), other);
    }
    forall j | 0 <= j < |r|
      ensures LastAbout(log', r[j].id) == Some(Upsert(r[j].id, r[j].title, r[j].appId))
    {
      assert r[j] in r;
      var k :| 0 <= k < |ws| && ws[k] == r[j];
    }
    forall other | LastAbout(log', other).Some? && LastAbout(log', other).value.Upsert?
      ensures HasId(r, other)
    {
      RetainedIds(ws, id, other);
    }
  }

  /** Events other than `Upsert` and `Remove` leave the list's agreement with the log intact. */
  lemma {:induction false} FollowsOther(ws: seq<WindowEntry>, log: seq<WaylandEvent>, ev: WaylandEvent)
    requires Follows(ws, log) && !ev.Upsert? && !ev.Remove?
    ensures Follows(ws, log + [ev])
  {
    forall other: u32
      ensures LastAbout(log + [ev], other) == LastAbout(log, other)
    {
      LastAboutAppend(log, ev, other);
    }
  }

  /** The replayed list agrees with any log. */
  lemma {:induction false} ReplayFollows(log: seq<WaylandEvent>)
    ensures Follows(Replay(log), log)
  {
    if |log| > 0 {
      var init := log[..|log| - 1];
      var ev := log[|log| - 1];
      ReplayFollows(init);
      assert log == init + [ev];
      match ev
      case Upsert(id, title, appId) => FollowsUpsert(Replay(init), init, id, title, appId);
      case Remove(id) => FollowsRemove(Replay(init), init, id);
      case Thumbnail(_, _, _, _, _) => FollowsOther(Replay(init), init, ev);
      case Error(_) => FollowsOther(Replay(init), init, ev);
    }
  }

  /**
   * After any sequence of compositor events, the picker that has applied
   * everything the engine sent lists each window of the engine's registry
   * exactly once, with its current title and app id, and nothing else.
   */
  lemma {:induction false} PickerShowsRegistry(events: seq<Incoming>)
    ensures var e := AfterEvents(Initial, events);
      var ws := Replay(e.sent);
      && DistinctIds(ws)
      && (forall id | id in e.toplevels :: HasId(ws, id))
      && (forall j | 0 <= j < |ws| :: ws[j].id in e.toplevels)
      && (forall j | 0 <= j < |ws| && ws[j].id in e.toplevels ::
            ws[j].title == e.toplevels[ws[j].id].title && ws[j].appId == e.toplevels[ws[j].id].appId)
  {
    var e := AfterEvents(Initial, events);
    var ws := Replay(e.sent);
    AfterEventsMirrored(events);
    ReplayFollows(e.sent);
    forall id | id in e.toplevels
      ensures HasId(ws, id)
    {
      assert LastAbout(e.sent, id).value.Upsert?;
    }
    forall j | 0 <= j < |ws|
      ensures ws[j].id in e.toplevels
    {
      assert LastAbout(e.sent, ws[j].id).value.Upsert?;
    }
  }
}
