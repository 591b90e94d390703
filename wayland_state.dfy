/**
 * `WaylandState` of `src/wayland.rs` as a class: the registry and the
 * pending frames are map fields the handlers update in place, and the
 * channel to the picker and the requests to the compositor are append-only
 * logs. Every handler is proved to leave the object in the state that the
 * matching function of `WaylandEngine` gives.
 */
module WaylandDispatch {
  import opened Common
  import opened PixelConvert
  import opened WaylandEngine

  class WaylandState {
    var toplevels: map<u32, ToplevelEntry>
    var pendingFrames: map<u32, PendingFrame>
    var slotPool: Option<nat>
    var slotPoolSize: nat
    var sent: seq<WaylandEvent>
    var requests: seq<Request>
    var panicked: bool

    /** The object's state as an `Engine` value. */
    function Snapshot(): Engine
      reads this
    {
      Engine(toplevels, pendingFrames, slotPool, slotPoolSize, sent, requests, panicked)
    }

    /** `WaylandState::new`. */
    constructor()
      ensures Snapshot() == Initial
    {
      toplevels := map[];
      pendingFrames := map[];
      slotPool := None;
      slotPoolSize := 0;
      sent := [];
      requests := [];
      panicked := false;
    }

    /** `ensure_slot_pool`; creating or resizing the pool always succeeds here. */
    method EnsureSlotPool(size: nat)
      modifies this
      ensures Snapshot() == PoolEnsured(old(Snapshot()), size)
    {
      if slotPool.None? {
        slotPool := Some(size);
        slotPoolSize := size;
      }
      if slotPoolSize < size {
        slotPool := Some(size);
        slotPoolSize := size;
      }
    }

    /** `request_thumbnail`; `frame` is the id of the frame object the capture request creates. */
    method RequestThumbnail(toplevel: u32, frame: u32)
      modifies this
      ensures Snapshot() == ThumbnailRequested(old(Snapshot()), toplevel, frame)
    {
      requests := requests + [CaptureToplevel(frame, toplevel)];
      pendingFrames := pendingFrames[frame := PendingFrame(toplevel, 0, 0, 0, None, false, None)];
    }

    /** `send_upsert`. */
    method SendUpsert(id: u32, title: string, appId: string)
      modifies this
      ensures Snapshot() == UpsertSent(old(Snapshot()), id, title, appId)
    {
      sent := sent + [Upsert(id, title, appId)];
    }

    /** `send_thumbnail`. */
    method SendThumbnail(id: u32, width: u32, height: u32, rgba: seq<byte>)
      modifies this
      ensures Snapshot() == ThumbnailSent(old(Snapshot()), id, width, height, rgba)
    {
      if id in toplevels {
        var entry := toplevels[id];
        sent := sent + [Thumbnail(entry.title, entry.appId, width, height, rgba)];
      }
    }

    /** `send_remove`. */
    method SendRemove(id: u32)
      modifies this
      ensures Snapshot() == RemoveSent(old(Snapshot()), id)
    {
      sent := sent + [Remove(id)];
    }

    /** The `Dispatch` handler of the toplevel manager. */
    method OnManagerEvent(ev: ManagerEvent)
      modifies this
      ensures Snapshot() == AfterManagerEvent(old(Snapshot()), ev)
    {
      match ev {
        case Toplevel(toplevel, frame) =>
          toplevels := toplevels[toplevel := ToplevelEntry("", "", false)];
          SendUpsert(toplevel, "", "");
          var entry := toplevels[toplevel];
          if !entry.captured {
            toplevels := toplevels[toplevel := entry.(captured := true)];
            RequestThumbnail(toplevel, frame);
          }
        case Finished =>
        case OtherManagerEvent =>
      }
    }

    /** The `Dispatch` handler of a toplevel handle. */
    method OnHandleEvent(handle: u32, ev: HandleEvent)
      modifies this
      ensures Snapshot() == AfterHandleEvent(old(Snapshot()), handle, ev)
    {
      if handle in toplevels {
        var entry := toplevels[handle];
        match ev {
          case Title(title) =>
            entry := entry.(title := title);
            toplevels := toplevels[handle := entry];
            SendUpsert(handle, entry.title, entry.appId);
          case AppId(appId) =>
            entry := entry.(appId := appId);
            toplevels := toplevels[handle := entry];
            SendUpsert(handle, entry.title, entry.appId);
          case Closed =>
            toplevels := toplevels - {handle};
            SendRemove(handle);
          case OtherHandleEvent =>
        }
      }
    }

    /** `BufferDone` for a pending frame. */
    method OnBufferDone(frame: u32)
      requires frame in pendingFrames
      modifies this
      ensures Snapshot() == AfterBufferDone(old(Snapshot()), frame, old(pendingFrames[frame]))
    {
      var f := pendingFrames[frame];
      if f.buffer.Some? {
        return;
      }
      var format: ShmFormat;
      match f.format {
        case Some(Argb8888) => format := Argb8888;
        case Some(Xrgb8888) => format := Xrgb8888;
        case _ =>
          requests := requests + [DestroyFrame(frame)];
          return;
      }
      if f.stride * f.height >= U32_LIMIT {
        panicked := true;
        return;
      }
      var size := f.stride * f.height;
      EnsureSlotPool(size);
      var buffer := ShmBuffer(f.width, f.height, f.stride, format, size);
      requests := requests + [CopyFrame(frame, buffer)];
      pendingFrames := pendingFrames[frame := f.(buffer := Some(buffer))];
    }

    /** `Ready` for a pending frame. */
    method OnReady(frame: u32, canvas: Option<seq<byte>>)
      requires frame in pendingFrames
      modifies this
      ensures Snapshot() == AfterReady(old(Snapshot()), frame, old(pendingFrames[frame]), canvas)
    {
      var f := pendingFrames[frame];
      var buffer := f.buffer;
      pendingFrames := pendingFrames[frame := f.(buffer := None)];
      ghost var taken := Snapshot();
      assert pendingFrames - {frame} == old(pendingFrames) - {frame};
      var format := if f.format.Some? then f.format.value else Argb8888;
      if buffer.Some? && slotPool.Some? && canvas.Some? {
        var data := canvas.value;
        if !ConvertPre(|data|, f.width, f.height, f.stride) {
          panicked := true;
          return;
        }
        var rgba := ConvertToRgba(data, f.width, f.height, f.stride, format, f.yInvert);
        SendThumbnail(f.toplevelId, f.width, f.height, rgba);
        assert Snapshot() == ThumbnailSent(taken, f.toplevelId, f.width, f.height, rgba);
      }
      requests := requests + [DestroyFrame(frame)];
      pendingFrames := pendingFrames - {frame};
    }

    /** The `Dispatch` handler of an export frame. */
    method OnFrameEvent(frame: u32, ev: FrameEvent)
      modifies this
      ensures Snapshot() == AfterFrameEvent(old(Snapshot()), frame, ev)
    {
      if frame !in pendingFrames {
        return;
      }
      var f := pendingFrames[frame];
      match ev {
        case Buffer(format, width, height, stride) =>
          pendingFrames := pendingFrames[frame := f.(format := format, width := width, height := height, stride := stride)];
        case Flags(flags) =>
          if flags.Some? {
            pendingFrames := pendingFrames[frame := f.(yInvert := YInvertSet(flags.value))];
          }
        case BufferDone =>
          OnBufferDone(frame);
        case Ready(canvas) =>
          OnReady(frame, canvas);
        case Failed =>
          requests := requests + [DestroyFrame(frame)];
          pendingFrames := pendingFrames - {frame};
        case OtherFrameEvent =>
      }
    }

    /** Routes one event to the handler of the object it is addressed to, while the thread lives. */
    method Dispatch(inc: Incoming)
      modifies this
      ensures Snapshot() == AfterEvent(old(Snapshot()), inc)
    {
      if panicked {
        return;
      }
      match inc {
        case FromManager(ev) => OnManagerEvent(ev);
        case FromHandle(handle, ev) => OnHandleEvent(handle, ev);
        case FromFrame(frame, ev) => OnFrameEvent(frame, ev);
      }
    }
  }
}
