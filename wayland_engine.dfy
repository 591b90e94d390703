/**
 * The capture engine of `src/wayland.rs` as values: the window registry,
 * the pending capture frames, the shared-memory pool size and the two
 * outgoing logs (domain events for the picker, requests to the compositor),
 * with one function per handler giving the state after it runs.
 *
 * Protocol objects are their integer protocol ids. Buffers from the pool are
 * the parameters they were created with. A panic of the capture thread sets
 * `panicked`; the thread is gone afterwards, so no later event is handled.
 */
module WaylandEngine {
  import opened Common
  import opened PixelConvert

  /** The domain events sent to the picker over the channel (`WaylandEvent`). */
  datatype WaylandEvent =
    | Upsert(id: u32, title: string, appId: string)
    | Remove(id: u32)
    | Thumbnail(title: string, appId: string, width: u32, height: u32, rgba: seq<byte>)
    | Error(message: string)

  /** A known window (`ToplevelEntry`); its handle is the map key. */
  datatype ToplevelEntry = ToplevelEntry(title: string, appId: string, captured: bool)

  /** A buffer taken from the pool by `create_buffer`, with the size it occupies. */
  datatype ShmBuffer = ShmBuffer(width: u32, height: u32, stride: u32, format: ShmFormat, size: nat)

  /** A capture in progress (`PendingFrame`). */
  datatype PendingFrame = PendingFrame(
    toplevelId: u32,
    width: u32,
    height: u32,
    stride: u32,
    format: Option<ShmFormat>,
    yInvert: bool,
    buffer: Option<ShmBuffer>)

  /** The requests the engine sends to the compositor. */
  datatype Request =
    | CaptureToplevel(frame: u32, toplevel: u32)
    | CopyFrame(frame: u32, buffer: ShmBuffer)
    | DestroyFrame(frame: u32)

  /**
   * Events of the foreign-toplevel manager. `Toplevel` carries the id of the
   * new handle and the id the client library gives to the capture frame the
   * handler creates for it.
   */
  datatype ManagerEvent = Toplevel(toplevel: u32, frame: u32) | Finished | OtherManagerEvent

  /** Events of one foreign-toplevel handle. */
  datatype HandleEvent = Title(title: string) | AppId(appId: string) | Closed | OtherHandleEvent

  /**
   * Events of one export frame. `None` in `Buffer.format` or `Flags.flags` is
   * a value the protocol bindings do not recognise; `Ready.canvas` is what
   * the attached buffer's canvas holds when the frame is ready, if anything.
   */
  datatype FrameEvent =
    | Buffer(format: Option<ShmFormat>, width: u32, height: u32, stride: u32)
    | Flags(flags: Option<u32>)
    | BufferDone
    | Ready(canvas: Option<seq<byte>>)
    | Failed
    | OtherFrameEvent

  /** One event from the compositor, addressed to the object it concerns. */
  datatype Incoming =
    | FromManager(managerEvent: ManagerEvent)
    | FromHandle(handle: u32, handleEvent: HandleEvent)
    | FromFrame(frame: u32, frameEvent: FrameEvent)

  /** The state of `WaylandState` that the handlers read and write. */
  datatype Engine = Engine(
    toplevels: map<u32, ToplevelEntry>,
    pendingFrames: map<u32, PendingFrame>,
    slotPool: Option<nat>,
    slotPoolSize: nat,
    sent: seq<WaylandEvent>,
    requests: seq<Request>,
    panicked: bool)

  /** `WaylandState::new`: nothing known, no pool, nothing sent. */
  const Initial: Engine := Engine(map[], map[], None, 0, [], [], false)

  /** The `y_invert` bit (value 1) of the export frame's `flags` bitfield. */
  predicate YInvertSet(flags: u32) {
    flags % 2 == 1
  }

  /**
   * `ensure_slot_pool(size)`: creates the pool at `size` bytes when there is
   * none, and grows it to `size` when it is smaller.
   */
  function PoolEnsured(e: Engine, size: nat): (r: Engine)
    ensures r.slotPool.Some? && size <= r.slotPoolSize
    ensures r == e.(slotPool := r.slotPool, slotPoolSize := r.slotPoolSize)
  {
    var created := if e.slotPool.None? then e.(slotPool := Some(size), slotPoolSize := size) else e;
    if created.slotPoolSize < size then created.(slotPool := Some(size), slotPoolSize := size) else created
  }

  /** `request_thumbnail`: asks for a capture of `toplevel` and records it as pending under `frame`. */
  function ThumbnailRequested(e: Engine, toplevel: u32, frame: u32): Engine {
    e.(requests := e.requests + [CaptureToplevel(frame, toplevel)],
       pendingFrames := e.pendingFrames[frame := PendingFrame(toplevel, 0, 0, 0, None, false, None)])
  }

  /** `send_upsert`. */
  function UpsertSent(e: Engine, id: u32, title: string, appId: string): Engine {
    e.(sent := e.sent + [Upsert(id, title, appId)])
  }

  /** `send_thumbnail`: sends the image with the window's current title and app id, if the window is still known. */
  function ThumbnailSent(e: Engine, id: u32, width: u32, height: u32, rgba: seq<byte>): Engine {
    if id in e.toplevels then
      var entry := e.toplevels[id];
      e.(sent := e.sent + [Thumbnail(entry.title, entry.appId, width, height, rgba)])
    else
      e
  }

  /** `send_remove`. */
  function RemoveSent(e: Engine, id: u32): Engine {
    e.(sent := e.sent + [Remove(id)])
  }

  /** The toplevel manager's handler. */
  function AfterManagerEvent(e: Engine, ev: ManagerEvent): Engine {
    match ev
    case Toplevel(toplevel, frame) =>
      var inserted := e.(toplevels := e.toplevels[toplevel := ToplevelEntry("", "", false)]);
      var announced := UpsertSent(inserted, toplevel, "", "");
      var entry := announced.toplevels[toplevel];
      if !entry.captured then
        var marked := announced.(toplevels := announced.toplevels[toplevel := entry.(captured := true)]);
        ThumbnailRequested(marked, toplevel, frame)
      else
        announced
    case Finished => e
    case OtherManagerEvent => e
  }

  /** A toplevel handle's handler: events for a handle not in the registry are dropped. */
  function AfterHandleEvent(e: Engine, handle: u32, ev: HandleEvent): Engine {
    if handle !in e.toplevels then
      e
    else
      var entry := e.toplevels[handle];
      match ev
      case Title(title) =>
        var updated := entry.(title := title);
        UpsertSent(e.(toplevels := e.toplevels[handle := updated]), handle, updated.title, updated.appId)
      case AppId(appId) =>
        var updated := entry.(appId := appId);
        UpsertSent(e.(toplevels := e.toplevels[handle := updated]), handle, updated.title, updated.appId)
      case Closed =>
        RemoveSent(e.(toplevels := e.toplevels - {handle}), handle)
      case OtherHandleEvent => e
  }

  /** Destroys the frame object and forgets the pending capture. */
  function FrameFinished(e: Engine, frame: u32): Engine {
    e.(requests := e.requests + [DestroyFrame(frame)], pendingFrames := e.pendingFrames - {frame})
  }

  /**
   * `BufferDone` for pending frame `f`: nothing when a buffer is attached;
   * destroys the frame (and keeps it pending) when the format is neither
   * Argb8888 nor Xrgb8888; otherwise takes a `stride * height` buffer from
   * the pool, asks the compositor to copy into it and attaches it. The `u32`
   * product `stride * height` panics when it overflows.
   */
  function AfterBufferDone(e: Engine, frame: u32, f: PendingFrame): Engine {
    if f.buffer.Some? then
      e
    else if !(f.format.Some? && Supported(f.format.value)) then
      e.(requests := e.requests + [DestroyFrame(frame)])
    else if f.stride * f.height >= U32_LIMIT then
      e.(panicked := true)
    else
      var size := f.stride * f.height;
      var pooled := PoolEnsured(e, size);
      var buffer := ShmBuffer(f.width, f.height, f.stride, f.format.value, size);
      pooled.(requests := pooled.requests + [CopyFrame(frame, buffer)],
              pendingFrames := pooled.pendingFrames[frame := f.(buffer := Some(buffer))])
  }

  /**
   * `Ready` for pending frame `f`: takes the buffer; when there was one, the
   * pool exists and the canvas holds data, converts it and sends the
   * thumbnail (the conversion panics when the geometry does not fit the
   * canvas or overflows `u32`); then destroys the frame and forgets it.
   */
  function AfterReady(e: Engine, frame: u32, f: PendingFrame, canvas: Option<seq<byte>>): Engine {
    var format := if f.format.Some? then f.format.value else Argb8888;
    if f.buffer.Some? && e.slotPool.Some? && canvas.Some? then
      var data := canvas.value;
      if ConvertPre(|data|, f.width, f.height, f.stride) then
        var rgba := Converted(data, f.width, f.height, f.stride, format, f.yInvert);
        FrameFinished(ThumbnailSent(e, f.toplevelId, f.width, f.height, rgba), frame)
      else
        e.(pendingFrames := e.pendingFrames[frame := f.(buffer := None)], panicked := true)
    else
      FrameFinished(e, frame)
  }

  /** An export frame's handler: events for a frame that is not pending are dropped. */
  function AfterFrameEvent(e: Engine, frame: u32, ev: FrameEvent): Engine {
    if frame !in e.pendingFrames then
      e
    else
      var f := e.pendingFrames[frame];
      match ev
      case Buffer(format, width, height, stride) =>
        e.(pendingFrames := e.pendingFrames[frame := f.(format := format, width := width, height := height, stride := stride)])
      case Flags(flags) =>
        if flags.Some? then e.(pendingFrames := e.pendingFrames[frame := f.(yInvert := YInvertSet(flags.value))]) else e
      case BufferDone => AfterBufferDone(e, frame, f)
      case Ready(canvas) => AfterReady(e, frame, f, canvas)
      case Failed => FrameFinished(e, frame)
      case OtherFrameEvent => e
  }

  /** One dispatched event; after a panic the capture thread handles nothing more. */
  function AfterEvent(e: Engine, inc: Incoming): Engine {
    if e.panicked then
      e
    else
      match inc
      case FromManager(ev) => AfterManagerEvent(e, ev)
      case FromHandle(handle, ev) => AfterHandleEvent(e, handle, ev)
      case FromFrame(frame, ev) => AfterFrameEvent(e, frame, ev)
  }

  /** The state after a sequence of events, first to last. */
  function AfterEvents(e: Engine, events: seq<Incoming>): Engine {
    if |events| == 0 then e else AfterEvent(AfterEvents(e, events[..|events| - 1]), events[|events| - 1])
  }
}
