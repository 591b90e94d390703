/**
 * What the capture engine's handlers promise: the effect of each event,
 * the events that are ignored, the pool that only grows to the largest
 * size asked for, the invariants every event preserves, and the picker's
 * view of the registry that the event log keeps up to date.
 */
module WaylandProperties {
  import opened Common
  import opened PixelConvert
  import opened WaylandEngine
  import opened PixelProperties

  // ---------------------------------------------------------------------
  // The buffer pool
  // ---------------------------------------------------------------------

  /** `ensure_slot_pool(size)` records `size` for a new pool and `max(old, size)` for an existing one. */
  lemma PoolEnsuredSize(e: Engine, size: nat)
    ensures e.slotPool.None? ==> PoolEnsured(e, size).slotPoolSize == size
    ensures e.slotPool.Some? ==> PoolEnsured(e, size).slotPoolSize == Max(e.slotPoolSize, size)
    ensures e.slotPool.Some? && e.slotPool.value == e.slotPoolSize ==> PoolEnsured(e, size).slotPool == Some(Max(e.slotPoolSize, size))
  {
  }

  /** The state after `ensure_slot_pool` is called with each of `sizes` in turn. */
  function PoolAfter(e: Engine, sizes: seq<nat>): Engine {
    if |sizes| == 0 then e else PoolEnsured(PoolAfter(e, sizes[..|sizes| - 1]), sizes[|sizes| - 1])
  }

  /** The largest of a non-empty sequence of sizes. */
  function MaxOf(sizes: seq<nat>): (m: nat)
    requires |sizes| > 0
    ensures forall i | 0 <= i < |sizes| :: sizes[i] <= m
    ensures exists i | 0 <= i < |sizes| :: sizes[i] == m
  {
    if |sizes| == 1 then sizes[0]
    else
      var rest := MaxOf(sizes[..|sizes| - 1]);
      assert sizes[..|sizes| - 1][0] == sizes[0];
      if rest < sizes[|sizes| - 1] then sizes[|sizes| - 1] else rest
  }

  /**
   * Starting without a pool, after sizes `s1 .. sn` the pool exists and its
   * recorded size is `max(s1 .. sn)`: created once, never shrunk.
   */
  lemma {:induction false} PoolAfterIsMax(e: Engine, sizes: seq<nat>)
    requires e.slotPool.None? && |sizes| > 0
    ensures PoolAfter(e, sizes).slotPool == Some(MaxOf(sizes))
    ensures PoolAfter(e, sizes).slotPoolSize == MaxOf(sizes)
  {
    var last := sizes[|sizes| - 1];
    if |sizes| == 1 {
      assert PoolAfter(e, sizes) == PoolEnsured(e, last);
    } else {
      var init := sizes[..|sizes| - 1];
      PoolAfterIsMax(e, init);
      PoolEnsuredSize(PoolAfter(e, init), last);
    }
  }

  /** Once the pool exists its recorded size never decreases. */
  lemma {:induction false} PoolNeverShrinks(e: Engine, sizes: seq<nat>)
    requires e.slotPool.Some?
    ensures PoolAfter(e, sizes).slotPool.Some?
    ensures e.slotPoolSize <= PoolAfter(e, sizes).slotPoolSize
  {
    if |sizes| > 0 {
      PoolNeverShrinks(e, sizes[..|sizes| - 1]);
      PoolEnsuredSize(PoolAfter(e, sizes[..|sizes| - 1]), sizes[|sizes| - 1]);
    }
  }

  // ---------------------------------------------------------------------
  // Effects of single events
  // ---------------------------------------------------------------------

  /**
   * A `Toplevel` announcement registers the window with an empty title and
   * app id, marked captured, announces it, and starts exactly one capture
   * whose frame points back at the window and has no geometry, no format,
   * no y-inversion and no buffer.
   */
  lemma ToplevelDiscovered(e: Engine, toplevel: u32, frame: u32)
    requires !e.panicked
    ensures var r := AfterEvent(e, FromManager(Toplevel(toplevel, frame)));
      && r.toplevels == e.toplevels[toplevel := ToplevelEntry("", "", true)]
      && r.sent == e.sent + [Upsert(toplevel, "", "")]
      && r.pendingFrames == e.pendingFrames[frame := PendingFrame(toplevel, 0, 0, 0, None, false, None)]
      && r.requests == e.requests + [CaptureToplevel(frame, toplevel)]
      && r.slotPool == e.slotPool && r.slotPoolSize == e.slotPoolSize && !r.panicked
  {
  }

  /** The manager's `Finished` and other events change nothing. */
  lemma ManagerOtherIgnored(e: Engine, ev: ManagerEvent)
    requires !ev.Toplevel?
    ensures AfterEvent(e, FromManager(ev)) == e
  {
  }

  /** Events for a handle that is not in the registry change nothing and send nothing. */
  lemma UnknownHandleIgnored(e: Engine, handle: u32, ev: HandleEvent)
    requires handle !in e.toplevels
    ensures AfterEvent(e, FromHandle(handle, ev)) == e
  {
  }

  /** `Title` on a known window sets its title only and announces both current fields. */
  lemma TitleUpdated(e: Engine, handle: u32, title: string)
    requires !e.panicked && handle in e.toplevels
    ensures var r := AfterEvent(e, FromHandle(handle, Title(title)));
      var old_ := e.toplevels[handle];
      && r.toplevels == e.toplevels[handle := ToplevelEntry(title, old_.appId, old_.captured)]
      && r.sent == e.sent + [Upsert(handle, title, old_.appId)]
      && r == e.(toplevels := r.toplevels, sent := r.sent)
  {
  }

  /** `AppId` on a known window sets its app id only and announces both current fields. */
  lemma AppIdUpdated(e: Engine, handle: u32, appId: string)
    requires !e.panicked && handle in e.toplevels
    ensures var r := AfterEvent(e, FromHandle(handle, AppId(appId)));
      var old_ := e.toplevels[handle];
      && r.toplevels == e.toplevels[handle := ToplevelEntry(old_.title, appId, old_.captured)]
      && r.sent == e.sent + [Upsert(handle, old_.title, appId)]
      && r == e.(toplevels := r.toplevels, sent := r.sent)
  {
  }

  /** `Closed` on a known window forgets it and sends `Remove`; its pending capture, if any, stays. */
  lemma ClosedRemoves(e: Engine, handle: u32)
    requires !e.panicked && handle in e.toplevels
    ensures var r := AfterEvent(e, FromHandle(handle, Closed));
      && r.toplevels == e.toplevels - {handle}
      && r.sent == e.sent + [Remove(handle)]
      && r == e.(toplevels := r.toplevels, sent := r.sent)
  {
  }

  /** Events for a frame that is not pending change nothing. */
  lemma UnknownFrameIgnored(e: Engine, frame: u32, ev: FrameEvent)
    requires frame !in e.pendingFrames
    ensures AfterEvent(e, FromFrame(frame, ev)) == e
  {
  }

  /** `Buffer` records the negotiated format and geometry of the frame and nothing else. */
  lemma BufferRecorded(e: Engine, frame: u32, format: Option<ShmFormat>, width: u32, height: u32, stride: u32)
    requires !e.panicked && frame in e.pendingFrames
    ensures var r := AfterEvent(e, FromFrame(frame, Buffer(format, width, height, stride)));
      var f := e.pendingFrames[frame];
      r == e.(pendingFrames := e.pendingFrames[frame := PendingFrame(f.toplevelId, width, height, stride, format, f.yInvert, f.buffer)])
  {
  }

  /** `Flags` sets y-inversion from the `y_invert` bit (value 1) of a recognised bitfield and ignores an unrecognised one. */
  lemma FlagsRecorded(e: Engine, frame: u32, flags: Option<u32>)
    requires !e.panicked && frame in e.pendingFrames
    ensures var r := AfterEvent(e, FromFrame(frame, Flags(flags)));
      && (flags.None? ==> r == e)
      && (flags.Some? ==> r.pendingFrames[frame].yInvert == (flags.value % 2 == 1))
      && (flags.Some? ==> r == e.(pendingFrames := e.pendingFrames[frame := e.pendingFrames[frame].(yInvert := r.pendingFrames[frame].yInvert)]))
  {
  }

  /** `BufferDone` for a frame that already has a buffer changes nothing. */
  lemma BufferDoneTwice(e: Engine, frame: u32)
    requires frame in e.pendingFrames && e.pendingFrames[frame].buffer.Some?
    ensures AfterEvent(e, FromFrame(frame, BufferDone)) == e
  {
  }

  /**
   * `BufferDone` with a format other than Argb8888 or Xrgb8888 destroys the
   * frame object but attaches no buffer, sends nothing, and leaves the frame
   * pending.
   */
  lemma BufferDoneUnsupported(e: Engine, frame: u32)
    requires !e.panicked && frame in e.pendingFrames
    requires e.pendingFrames[frame].buffer.None?
    requires !(e.pendingFrames[frame].format.Some? && Supported(e.pendingFrames[frame].format.value))
    ensures var r := AfterEvent(e, FromFrame(frame, BufferDone));
      && r.pendingFrames == e.pendingFrames
      && r.sent == e.sent
      && r.requests == e.requests + [DestroyFrame(frame)]
      && r == e.(requests := r.requests)
  {
  }

  /**
   * `BufferDone` with a supported format and a `stride * height` that fits
   * `u32` ensures the pool for that many bytes (created at that size, or
   * grown to the larger of its size and that), attaches a buffer of that
   * many bytes, asks for the copy into it, and changes nothing else.
   */
  lemma BufferDoneAttaches(e: Engine, frame: u32)
    requires !e.panicked && frame in e.pendingFrames
    requires e.pendingFrames[frame].buffer.None?
    requires e.pendingFrames[frame].format.Some? && Supported(e.pendingFrames[frame].format.value)
    requires e.pendingFrames[frame].stride * e.pendingFrames[frame].height < U32_LIMIT
    ensures var r := AfterEvent(e, FromFrame(frame, BufferDone));
      var f := e.pendingFrames[frame];
      var buffer := ShmBuffer(f.width, f.height, f.stride, f.format.value, f.stride * f.height);
      && r.pendingFrames == e.pendingFrames[frame := f.(buffer := Some(buffer))]
      && r.requests == e.requests + [CopyFrame(frame, buffer)]
      && r.slotPool.Some? && buffer.size <= r.slotPoolSize
      && r.slotPoolSize == (if e.slotPool.None? then buffer.size else Max(e.slotPoolSize, buffer.size))
      && r == e.(pendingFrames := r.pendingFrames, requests := r.requests, slotPool := r.slotPool, slotPoolSize := r.slotPoolSize)
  {
    var f := e.pendingFrames[frame];
    PoolEnsuredSize(e, f.stride * f.height);
  }

  /** `BufferDone` with a supported format panics exactly when `stride * height` overflows `u32`. */
  lemma BufferDoneOverflowPanics(e: Engine, frame: u32)
    requires !e.panicked && frame in e.pendingFrames
    requires e.pendingFrames[frame].buffer.None?
    requires e.pendingFrames[frame].format.Some? && Supported(e.pendingFrames[frame].format.value)
    ensures AfterEvent(e, FromFrame(frame, BufferDone)).panicked
      <==> e.pendingFrames[frame].stride * e.pendingFrames[frame].height >= U32_LIMIT
  {
  }

  /** `Failed` destroys the frame object, forgets the capture, and changes nothing else. */
  lemma FailedForgets(e: Engine, frame: u32)
    requires !e.panicked && frame in e.pendingFrames
    ensures AfterEvent(e, FromFrame(frame, Failed))
      == e.(pendingFrames := e.pendingFrames - {frame}, requests := e.requests + [DestroyFrame(frame)])
  {
  }

  /**
   * `Ready` either panics in the conversion, or destroys the frame object,
   * forgets the capture and sends at most one event: the converted image of
   * the canvas under the window's current title and app id, and only when a
   * buffer was attached, the pool exists, the canvas holds data and the
   * window is still known. The registry and the pool stay as they were; a
   * panic leaves the frame pending with its buffer taken.
   */
  lemma ReadySendsThumbnail(e: Engine, frame: u32, canvas: Option<seq<byte>>)
    requires !e.panicked && frame in e.pendingFrames
    ensures var r := AfterEvent(e, FromFrame(frame, Ready(canvas)));
      var f := e.pendingFrames[frame];
      var ready := f.buffer.Some? && e.slotPool.Some? && canvas.Some?;
      && (r.panicked <==> ready && !ConvertPre(|canvas.value|, f.width, f.height, f.stride))
      && (!r.panicked ==> r.pendingFrames == e.pendingFrames - {frame})
      && (!r.panicked ==> r.requests == e.requests + [DestroyFrame(frame)])
      && (!r.panicked ==> r == e.(pendingFrames := r.pendingFrames, requests := r.requests, sent := r.sent))
      && (r.panicked ==> r == e.(pendingFrames := e.pendingFrames[frame := f.(buffer := None)], panicked := true))
      && (!r.panicked && !(ready && f.toplevelId in e.toplevels) ==> r.sent == e.sent)
      && (!r.panicked && ready && f.toplevelId in e.toplevels ==>
            var format := if f.format.Some? then f.format.value else Argb8888;
            r.sent == e.sent + [Thumbnail(e.toplevels[f.toplevelId].title, e.toplevels[f.toplevelId].appId,
                                          f.width, f.height, Converted(canvas.value, f.width, f.height, f.stride, format, f.yInvert))])
  {
  }

  /** A thumbnail the engine sends is `width * height * 4` bytes long. */
  lemma ThumbnailSize(e: Engine, frame: u32, canvas: Option<seq<byte>>)
    requires !e.panicked && frame in e.pendingFrames
    ensures var r := AfterEvent(e, FromFrame(frame, Ready(canvas)));
      |r.sent| > |e.sent| ==> r.sent[|e.sent|].Thumbnail? && |r.sent[|e.sent|].rgba| == r.sent[|e.sent|].width * r.sent[|e.sent|].height * 4
  {
    var f := e.pendingFrames[frame];
    var format := if f.format.Some? then f.format.value else Argb8888;
    if f.buffer.Some? && e.slotPool.Some? && canvas.Some? && ConvertPre(|canvas.value|, f.width, f.height, f.stride) {
      ConvertedSize(canvas.value, f.width, f.height, f.stride, format, f.yInvert);
    }
  }

  // ---------------------------------------------------------------------
  // Logs only grow
  // ---------------------------------------------------------------------

  /** Every event appends at most one domain event and keeps what was sent before. */
  lemma {:induction false} SentGrowsByAtMostOne(e: Engine, inc: Incoming)
    ensures var r := AfterEvent(e, inc);
      && |e.sent| <= |r.sent| <= |e.sent| + 1
      && r.sent[..|e.sent|] == e.sent
      && e.requests <= r.requests
  {
    if !e.panicked && inc.FromFrame? && inc.frame in e.pendingFrames && inc.frameEvent.BufferDone? {
      var f := e.pendingFrames[inc.frame];
      if f.buffer.None? && f.format.Some? && Supported(f.format.value) && f.stride * f.height < U32_LIMIT {
        PoolEnsuredSize(e, f.stride * f.height);
      }
    }
    if !e.panicked && inc.FromFrame? && inc.frame in e.pendingFrames && inc.frameEvent.Ready? {
      ReadySentGrows(e, inc.frame, e.pendingFrames[inc.frame], inc.frameEvent.canvas);
    }
  }

  /** `Ready` sends at most one event, after the ones already sent, and only adds requests. */
  lemma {:induction false} ReadySentGrows(e: Engine, frame: u32, f: PendingFrame, canvas: Option<seq<byte>>)
    ensures var r := AfterReady(e, frame, f, canvas);
      && (r.sent == e.sent || (|r.sent| == |e.sent| + 1 && r.sent[..|e.sent|] == e.sent))
      && e.requests <= r.requests
  {
    var r := AfterReady(e, frame, f, canvas);
    if r.sent != e.sent {
      assert r.sent == e.sent + [r.sent[|e.sent|]];
    }
  }

  /** After a panic no event changes anything. */
  lemma {:induction false} PanicIsFinal(e: Engine, events: seq<Incoming>)
    requires e.panicked
    ensures AfterEvents(e, events) == e
  {
    if |events| > 0 {
      PanicIsFinal(e, events[..|events| - 1]);
    }
  }

  // ---------------------------------------------------------------------
  // The engine invariant
  // ---------------------------------------------------------------------

  /**
   * The pool's capacity is the recorded size (zero before the pool exists),
   * every known window has had its capture requested, and every attached
   * buffer lies in the pool.
   */
  predicate Valid(e: Engine) {
    && (e.slotPool.None? ==> e.slotPoolSize == 0)
    && (e.slotPool.Some? ==> e.slotPool.value == e.slotPoolSize)
    && (forall id | id in e.toplevels :: e.toplevels[id].captured)
    && (forall frame | frame in e.pendingFrames && e.pendingFrames[frame].buffer.Some? ::
          e.slotPool.Some? && e.pendingFrames[frame].buffer.value.size <= e.slotPoolSize)
  }

  /** The invariant holds initially. */
  lemma InitialValid()
    ensures Valid(Initial)
  {
  }

  /** `BufferDone` preserves the invariant. */
  lemma {:induction false} BufferDoneValid(e: Engine, frame: u32)
    requires Valid(e) && frame in e.pendingFrames
    ensures Valid(AfterBufferDone(e, frame, e.pendingFrames[frame]))
  {
    var f := e.pendingFrames[frame];
    if f.buffer.None? && f.format.Some? && Supported(f.format.value) && f.stride * f.height < U32_LIMIT {
      PoolEnsuredSize(e, f.stride * f.height);
    }
  }

  /** The toplevel manager's events preserve the invariant. */
  lemma {:induction false} ManagerEventValid(e: Engine, ev: ManagerEvent)
    requires Valid(e)
    ensures Valid(AfterManagerEvent(e, ev))
  {
  }

  /** A toplevel handle's events preserve the invariant. */
  lemma {:induction false} HandleEventValid(e: Engine, handle: u32, ev: HandleEvent)
    requires Valid(e)
    ensures Valid(AfterHandleEvent(e, handle, ev))
  {
  }

  /** An export frame's events preserve the invariant. */
  lemma {:induction false} FrameEventValid(e: Engine, frame: u32, ev: FrameEvent)
    requires Valid(e)
    ensures Valid(AfterFrameEvent(e, frame, ev))
  {
    if frame in e.pendingFrames && ev.BufferDone? {
      BufferDoneValid(e, frame);
    }
  }

  /** Every event preserves the invariant. */
  lemma {:induction false} AfterEventValid(e: Engine, inc: Incoming)
    requires Valid(e)
    ensures Valid(AfterEvent(e, inc))
  {
    if !e.panicked {
      match inc
      case FromManager(ev) => ManagerEventValid(e, ev);
      case FromHandle(handle, ev) => HandleEventValid(e, handle, ev);
      case FromFrame(frame, ev) => FrameEventValid(e, frame, ev);
    }
  }

  /** The invariant holds after any sequence of events. */
  lemma {:induction false} AfterEventsValid(e: Engine, events: seq<Incoming>)
    requires Valid(e)
    ensures Valid(AfterEvents(e, events))
  {
    if |events| > 0 {
      AfterEventsValid(e, events[..|events| - 1]);
      AfterEventValid(AfterEvents(e, events[..|events| - 1]), events[|events| - 1]);
    }
  }

  // ---------------------------------------------------------------------
  // The picker's view of the registry
  // ---------------------------------------------------------------------

  /** Whether `ev` is an `Upsert` or `Remove` of window `id`. */
  predicate Concerns(ev: WaylandEvent, id: u32) {
    (ev.Upsert? || ev.Remove?) && ev.id == id
  }

  /** The last `Upsert` or `Remove` of window `id` in the log, if any. */
  function LastAbout(log: seq<WaylandEvent>, id: u32): (r: Option<WaylandEvent>)
    ensures r.Some? ==> Concerns(r.value, id)
  {
    if |log| == 0 then None
    else if Concerns(log[|log| - 1], id) then Some(log[|log| - 1])
    else LastAbout(log[..|log| - 1], id)
  }

  /** Appending an event changes the last event about `id` only when it concerns `id`. */
  lemma LastAboutAppend(log: seq<WaylandEvent>, ev: WaylandEvent, id: u32)
    ensures LastAbout(log + [ev], id) == if Concerns(ev, id) then Some(ev) else LastAbout(log, id)
  {
    assert (log + [ev])[..|log|] == log;
  }

  /**
   * The log tells the picker the registry: the last `Upsert`/`Remove` of a
   * known window announces its current title and app id, and that of a
   * forgotten window removes it.
   */
  predicate Mirrored(toplevels: map<u32, ToplevelEntry>, sent: seq<WaylandEvent>) {
    && (forall id | id in toplevels :: LastAbout(sent, id) == Some(Upsert(id, toplevels[id].title, toplevels[id].appId)))
    && (forall id | id !in toplevels && LastAbout(sent, id).Some? :: LastAbout(sent, id) == Some(Remove(id)))
  }

  /** Registering or updating a window and announcing it keeps the log in step. */
  lemma {:induction false} MirroredUpsert(toplevels: map<u32, ToplevelEntry>, sent: seq<WaylandEvent>, id: u32, entry: ToplevelEntry)
    requires Mirrored(toplevels, sent)
    ensures Mirrored(toplevels[id := entry], sent + [Upsert(id, entry.title, entry.appId)])
  {
    var ev := Upsert(id, entry.title, entry.appId);
    forall other: u32
      ensures LastAbout(sent + [ev], other) == if other == id then Some(ev) else LastAbout(sent, other)
    {
      LastAboutAppend(sent, ev, other);
    }
  }

  /** Forgetting a window and sending `Remove` keeps the log in step. */
  lemma {:induction false} MirroredRemove(toplevels: map<u32, ToplevelEntry>, sent: seq<WaylandEvent>, id: u32)
    requires Mirrored(toplevels, sent)
    ensures Mirrored(toplevels - {id}, sent + [Remove(id)])
  {
    forall other: u32
      ensures LastAbout(sent + [Remove(id)], other) == if other == id then Some(Remove(id)) else LastAbout(sent, other)
    {
      LastAboutAppend(sent, Remove(id), other);
    }
  }

  /** Sending a thumbnail does not disturb the picker's view of the registry. */
  lemma {:induction false} MirroredThumbnail(toplevels: map<u32, ToplevelEntry>, sent: seq<WaylandEvent>, ev: WaylandEvent)
    requires Mirrored(toplevels, sent) && ev.Thumbnail?
    ensures Mirrored(toplevels, sent + [ev])
  {
    forall other: u32
      ensures LastAbout(sent + [ev], other) == LastAbout(sent, other)
    {
      LastAboutAppend(sent, ev, other);
    }
  }

  /** `Ready` keeps the log in step with the registry. */
  lemma {:induction false} ReadyMirrored(e: Engine, frame: u32, canvas: Option<seq<byte>>)
    requires Mirrored(e.toplevels, e.sent) && frame in e.pendingFrames
    ensures var r := AfterReady(e, frame, e.pendingFrames[frame], canvas);
      Mirrored(r.toplevels, r.sent)
  {
    var f := e.pendingFrames[frame];
    var format := if f.format.Some? then f.format.value else Argb8888;
    if f.buffer.Some? && e.slotPool.Some? && canvas.Some? && ConvertPre(|canvas.value|, f.width, f.height, f.stride) {
      var rgba := Converted(canvas.value, f.width, f.height, f.stride, format, f.yInvert);
      if f.toplevelId in e.toplevels {
        var entry := e.toplevels[f.toplevelId];
        MirroredThumbnail(e.toplevels, e.sent, Thumbnail(entry.title, entry.appId, f.width, f.height, rgba));
      }
    }
  }

  /** A toplevel handle's events keep the log in step with the registry. */
  lemma {:induction false} HandleEventMirrored(e: Engine, handle: u32, ev: HandleEvent)
    requires Mirrored(e.toplevels, e.sent)
    ensures Mirrored(AfterHandleEvent(e, handle, ev).toplevels, AfterHandleEvent(e, handle, ev).sent)
  {
    if handle in e.toplevels {
      var entry := e.toplevels[handle];
      match ev
      case Title(title) => MirroredUpsert(e.toplevels, e.sent, handle, entry.(title := title));
      case AppId(appId) => MirroredUpsert(e.toplevels, e.sent, handle, entry.(appId := appId));
      case Closed => MirroredRemove(e.toplevels, e.sent, handle);
      case OtherHandleEvent =>
    }
  }

  /** Every event keeps the log in step with the registry. */
  lemma {:induction false} AfterEventMirrored(e: Engine, inc: Incoming)
    requires Mirrored(e.toplevels, e.sent)
    ensures Mirrored(AfterEvent(e, inc).toplevels, AfterEvent(e, inc).sent)
  {
    if !e.panicked {
      match inc
      case FromManager(ev) =>
        if ev.Toplevel? {
          MirroredUpsert(e.toplevels, e.sent, ev.toplevel, ToplevelEntry("", "", true));
        }
      case FromHandle(handle, ev) => HandleEventMirrored(e, handle, ev);
      case FromFrame(frame, ev) =>
        if frame in e.pendingFrames && ev.Ready? {
          ReadyMirrored(e, frame, ev.canvas);
        }
    }
  }

  /** From the initial state, the log is in step with the registry after any sequence of events. */
  lemma {:induction false} AfterEventsMirrored(events: seq<Incoming>)
    ensures Mirrored(AfterEvents(Initial, events).toplevels, AfterEvents(Initial, events).sent)
  {
    if |events| > 0 {
      AfterEventsMirrored(events[..|events| - 1]);
      AfterEventMirrored(AfterEvents(Initial, events[..|events| - 1]), events[|events| - 1]);
    }
  }
}
