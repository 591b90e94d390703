/**
 * The picker's window list of `src/main.rs`: an ordered list of windows
 * keyed by id that `App::apply_wayland_event` keeps up to date from the
 * engine's domain events, with upsert-in-place, append-if-new and
 * remove-by-id.
 */
module Picker {
  import opened Common
  import opened WaylandEngine

  /** The image a tile shows (`WindowThumbnail`), as the arguments it is built from. */
  datatype ThumbnailImage = ThumbnailImage(width: u32, height: u32, rgba: seq<byte>)

  /** One tile of the picker (`WindowEntry`). */
  datatype WindowEntry = WindowEntry(id: u32, title: string, appId: string, thumbnail: Option<ThumbnailImage>)

  /** Whether some window in `ws` has id `id`. */
  predicate HasId(ws: seq<WindowEntry>, id: u32) {
    exists j | 0 <= j < |ws| :: ws[j].id == id
  }

  /** No two windows share an id. */
  predicate DistinctIds(ws: seq<WindowEntry>) {
    forall i, j | 0 <= i < j < |ws| :: ws[i].id != ws[j].id
  }

  /** The position `iter_mut().find(|w| w.id == id)` stops at: the first window with that id. */
  function FirstIndex(ws: seq<WindowEntry>, id: u32): (r: Option<nat>)
    ensures r.Some? ==> r.value < |ws| && ws[r.value].id == id
    ensures r.Some? ==> forall j | 0 <= j < r.value :: ws[j].id != id
    ensures r.None? ==> forall j | 0 <= j < |ws| :: ws[j].id != id
  {
    if |ws| == 0 then None
    else if ws[0].id == id then Some(0)
    else
      var rest := FirstIndex(ws[1..], id);
      assert forall j | 0 <= j < |ws| - 1 :: ws[1..][j] == ws[j + 1];
      if rest.Some? then Some(rest.value + 1) else None
  }

  /** `Upsert`: overwrite title and app id of the first window with `id`, or append a new one without a thumbnail. */
  function Upserted(ws: seq<WindowEntry>, id: u32, title: string, appId: string): seq<WindowEntry> {
    match FirstIndex(ws, id)
    case Some(i) => ws[i := ws[i].(title := title, appId := appId)]
    case None => ws + [WindowEntry(id, title, appId, None)]
  }

  /** `retain(|w| w.id != id)`: the windows whose id differs, in their order. */
  function Retained(ws: seq<WindowEntry>, id: u32): seq<WindowEntry> {
    if |ws| == 0 then []
    else
      var last := ws[|ws| - 1];
      Retained(ws[..|ws| - 1], id) + (if last.id != id then [last] else [])
  }

  /** The list after one domain event; the `Thumbnail` arm is not part of this model. */
  function Applied(ws: seq<WindowEntry>, ev: WaylandEvent): seq<WindowEntry>
    requires !ev.Thumbnail?
  {
    match ev
    case Upsert(id, title, appId) => Upserted(ws, id, title, appId)
    case Remove(id) => Retained(ws, id)
    case Error(_) => ws
  }

  /** The picker application's state (`App`). */
  class App {
    var windows: seq<WindowEntry>

    /** `App::default`: no windows. */
    constructor()
      ensures windows == []
    {
      windows := [];
    }

    /** `iter_mut().find(|w| w.id == id)`, as a position. */
    method FindWindow(id: u32) returns (r: Option<nat>)
      ensures r == FirstIndex(windows, id)
    {
      var i := 0;
      while i < |windows|
        invariant 0 <= i <= |windows|
        invariant forall j | 0 <= j < i :: windows[j].id != id
      {
        if windows[i].id == id {
          return Some(i);
        }
        i := i + 1;
      }
      return None;
    }

    /** `App::apply_wayland_event` for the `Upsert`, `Remove` and `Error` arms. */
    method ApplyWaylandEvent(ev: WaylandEvent)
      requires !ev.Thumbnail?
      modifies this
      ensures windows == Applied(old(windows), ev)
    {
      match ev {
        case Upsert(id, title, appId) =>
          var found := FindWindow(id);
          if found.Some? {
            var i := found.value;
            windows := windows[i := windows[i].(title := title, appId := appId)];
          } else {
            windows := windows + [WindowEntry(id, title, appId, None)];
          }
        case Remove(id) =>
          var kept: seq<WindowEntry> := [];
          var i := 0;
          while i < |windows|
            invariant 0 <= i <= |windows|
            invariant kept == Retained(windows[..i], id)
          {
            assert windows[..i + 1][..i] == windows[..i];
            if windows[i].id != id {
              kept := kept + [windows[i]];
            }
            i := i + 1;
          }
          assert windows[..|windows|] == windows;
          windows := kept;
        case Error(_) =>
      }
    }
  }

  // ---------------------------------------------------------------------
  // Properties of the window list
  // ---------------------------------------------------------------------

  /**
   * `Upsert` of an id whose first window is at position `i` overwrites title
   * and app id of that window in place: length, positions, its id and its
   * thumbnail stay, and every other window is unchanged.
   */
  lemma {:induction false} UpsertExisting(ws: seq<WindowEntry>, id: u32, title: string, appId: string, i: nat)
    requires FirstIndex(ws, id) == Some(i)
    ensures i < |ws|
    ensures |Upserted(ws, id, title, appId)| == |ws|
    ensures Upserted(ws, id, title, appId)[i] == WindowEntry(id, title, appId, ws[i].thumbnail)
    ensures forall j | 0 <= j < |ws| && j != i :: Upserted(ws, id, title, appId)[j] == ws[j]
  {
  }

  /** In a list with distinct ids, the window that has the id is the one `find` stops at. */
  lemma {:induction false} FirstIndexDistinct(ws: seq<WindowEntry>, id: u32, i: nat)
    requires i < |ws| && ws[i].id == id && DistinctIds(ws)
    ensures FirstIndex(ws, id) == Some(i)
  {
    var found := FirstIndex(ws, id);
    assert found.Some?;
    assert found.value == i;
  }

  /** `Upsert` of an id not listed appends one window without a thumbnail. */
  lemma UpsertNew(ws: seq<WindowEntry>, id: u32, title: string, appId: string)
    requires !HasId(ws, id)
    ensures Upserted(ws, id, title, appId) == ws + [WindowEntry(id, title, appId, None)]
  {
  }

  /** After `Upsert` exactly the old ids and `id` are listed. */
  lemma {:induction false} UpsertedIds(ws: seq<WindowEntry>, id: u32, title: string, appId: string, other: u32)
    ensures HasId(Upserted(ws, id, title, appId), other) <==> HasId(ws, other) || other == id
  {
    var r := Upserted(ws, id, title, appId);
    match FirstIndex(ws, id)
    case Some(i) =>
      assert forall j | 0 <= j < |ws| :: r[j].id == ws[j].id;
    case None =>
      assert r[|ws|].id == id;
      assert forall j | 0 <= j < |ws| :: r[j] == ws[j];
  }

  /** `Upsert` keeps ids distinct. */
  lemma {:induction false} UpsertKeepsDistinct(ws: seq<WindowEntry>, id: u32, title: string, appId: string)
    requires DistinctIds(ws)
    ensures DistinctIds(Upserted(ws, id, title, appId))
  {
    var r := Upserted(ws, id, title, appId);
    match FirstIndex(ws, id)
    case Some(i) =>
      assert forall j | 0 <= j < |ws| :: r[j].id == ws[j].id;
    case None =>
      assert forall j | 0 <= j < |ws| :: r[j] == ws[j];
  }

  /** A window survives `Remove` exactly when it was listed and has another id. */
  lemma {:induction false} RetainedMembers(ws: seq<WindowEntry>, id: u32)
    ensures forall w | w in Retained(ws, id) :: w in ws && w.id != id
    ensures forall w | w in ws && w.id != id :: w in Retained(ws, id)
  {
    if |ws| > 0 {
      var init := ws[..|ws| - 1];
      RetainedMembers(init, id);
      assert ws == init + [ws[|ws| - 1]];
    }
  }

  /** After `Remove(id)` no window has that id, and every other id is still listed. */
  lemma {:induction false} RetainedIds(ws: seq<WindowEntry>, id: u32, other: u32)
    ensures HasId(Retained(ws, id), other) <==> HasId(ws, other) && other != id
  {
    var r := Retained(ws, id);
    RetainedMembers(ws, id);
    if HasId(r, other) {
      var j :| 0 <= j < |r| && r[j].id == other;
      assert r[j] in r;
      var k :| 0 <= k < |ws| && ws[k] == r[j];
    }
    if HasId(ws, other) && other != id {
      var k :| 0 <= k < |ws| && ws[k].id == other;
      assert ws[k] in ws;
      var j :| 0 <= j < |r| && r[j] == ws[k];
    }
  }

  /** `Remove` distributes over concatenation: the survivors keep their relative order. */
  lemma {:induction false} RetainedAppend(a: seq<WindowEntry>, b: seq<WindowEntry>, id: u32)
    ensures Retained(a + b, id) == Retained(a, id) + Retained(b, id)
  {
    if |b| > 0 {
      var init := b[..|b| - 1];
      RetainedAppend(a, init, id);
      assert (a + b)[..|a + b| - 1] == a + init;
    } else {
      assert a + b == a;
    }
  }

  /** Removing an id that is not listed leaves the list unchanged. */
  lemma {:induction false} RetainedAbsent(ws: seq<WindowEntry>, id: u32)
    requires !HasId(ws, id)
    ensures Retained(ws, id) == ws
  {
    if |ws| > 0 {
      var init := ws[..|ws| - 1];
      forall j | 0 <= j < |init|
        ensures init[j].id != id
      {
        assert init[j] == ws[j];
      }
      RetainedAbsent(init, id);
      assert ws[|ws| - 1].id != id;
      assert ws == init + [ws[|ws| - 1]];
    }
  }

  /** `Remove` keeps ids distinct. */
  lemma {:induction false} RetainedKeepsDistinct(ws: seq<WindowEntry>, id: u32)
    requires DistinctIds(ws)
    ensures DistinctIds(Retained(ws, id))
  {
    if |ws| > 0 {
      var init := ws[..|ws| - 1];
      var last := ws[|ws| - 1];
      RetainedKeepsDistinct(init, id);
      RetainedMembers(init, id);
      var rest := Retained(init, id);
      forall j | 0 <= j < |rest|
        ensures rest[j].id != last.id
      {
        assert rest[j] in rest;
        var k :| 0 <= k < |init| && init[k] == rest[j];
        assert ws[k].id != ws[|ws| - 1].id;
      }
    }
  }

  /** `Error` leaves the list unchanged. */
  lemma ErrorIgnored(ws: seq<WindowEntry>, message: string)
    ensures Applied(ws, Error(message)) == ws
  {
  }
}
