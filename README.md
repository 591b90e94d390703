# hyprland-better-share-picker: the capture engine and the window list

The picker shows one tile per open window, each with a live thumbnail. The
user picks a window to share. Two parts of the program do the work, and
this project models both and proves what they promise.

- **The capture engine** (`src/wayland.rs`).
  - `WaylandState` keeps a registry of toplevel windows, a table of pending
    capture frames and a lazily created shared-memory pool. It sends
    `WaylandEvent`s to the picker.
  - The `Dispatch` handlers react to three kinds of objects: the
    foreign-toplevel manager, a toplevel handle, and a Hyprland export
    frame.
  - `convert_to_rgba` turns a captured, row-padded `argb8888` or `xrgb8888`
    buffer into packed, top-to-bottom RGBA bytes.
- **The window list** (`src/main.rs`). `App::apply_wayland_event` keeps the
  picker's ordered list of windows up to date, keyed by id.

Files:

- `common.dfy`: `Option`, the `u32` range, the `byte` type and `Max`.
- `pixel_convert.dfy`:
  - `ConvertToRgba` is the nested row and pixel loop over an `array<byte>`.
  - It is proved equal to the specification function `Converted`, which is
    the image built row by row.
- `pixel_properties.dfy`, properties of `Converted`:
  - the image size;
  - the exact value of every pixel, through the same shift-and-mask as the
    source;
  - row flipping under `y_invert`;
  - padding bytes are never read;
  - an encode/convert round trip.
- `wayland_engine.dfy`: the engine state as a value (`Engine`), with one
  function per handler that gives the state after it runs.
- `wayland_state.dfy`:
  - `WaylandState` is a class whose map and sequence fields the handlers
    update in place.
  - Each method is proved to produce the state that the matching
    `WaylandEngine` function gives.
- `wayland_properties.dfy`:
  - the effect of each event, and which events are ignored;
  - the pool size equals the maximum size requested;
  - an invariant that every event preserves: the pool is consistent,
    every window is captured, and every buffer fits in the pool;
  - the event log always reflects the registry.
- `picker.dfy`:
  - `App` is a class with a `windows` sequence.
  - `FindWindow` is a search loop.
  - `ApplyWaylandEvent` does the in-place upsert, the append and a retain
    loop.
  - Lemmas about upsert and remove.
- `picker_sync.dfy`: after any sequence of compositor events, the picker has
  applied everything the engine sent. It then lists exactly the windows of
  the engine's registry, once each, with their current title and app id.

Modelling choices:

- Protocol objects are their `u32` protocol ids.
  - A `Toplevel` event carries the id of the new handle. It also carries
    the id that the client library gives the capture frame it creates.
  - A `Ready` event carries what the attached buffer's canvas holds, if
    anything.
  - Requests to the compositor are an append-only log of `Request` values:
    capture, copy and destroy.
  - The channel to the picker is an append-only `sent: seq<WaylandEvent>`.
- The source runs `u32::from_ne_bytes`. The model fixes little-endian byte
  order: `px = b0 + 256*b1 + 65536*b2 + 16777216*b3`.
  - The shifts `px >> n` and the masks `& 0xff` are written as division
    and remainder. `Shifted` states the channels in the source's own
    shift-and-mask form.
  - `ShiftedBytes` proves that these channels are the stored bytes.
- Integer overflow follows a debug build, where an overflowing `u32`
  product panics. A panic kills the capture thread. The model records it in
  `panicked`, and after that no event changes anything.
  - The `stride * height` of `BufferDone` can overflow.
  - `convert_to_rgba` panics when the geometry does not fit the canvas or
    overflows `u32`. `ConvertPre` is exactly what a panic-free run needs.
  - `ConvertToRgba` requires `ConvertPre`. The engine takes the panic
    branch when `ConvertPre` fails.
- Products such as `y * stride` and `width * height * 4` are stated through
  the recursive `Offset(rows, rowBytes)`. `RowOffset` performs the real
  multiplication, and `OffsetProduct` proves the two agree.

## Model

| member | source | states |
|---|---|---|
| PixelConvert.ConvertToRgba | src/wayland.rs:438-485 | For geometry that fits the buffer without `u32` overflow, the returned bytes are exactly the image `Converted`: destination rows built from the source rows the converter selects |
| PixelConvert.ConvertImageRow | src/wayland.rs:448-453 | One pass of the row loop writes destination row `y` of `Converted` into the output array, at `y * width * 4`, and leaves every other byte unchanged |
| PixelConvert.ConvertRow | src/wayland.rs:455-482 | The pixel loop writes the converted RGBA of the `width * 4` source bytes into `out[dstStart ..]` and nothing else |
| PixelConvert.StoreRowPixel | src/wayland.rs:478-481 | Storing one pixel extends the converted prefix of the row by four bytes and leaves every other byte unchanged |
| PixelConvert.DecodePixel | src/wayland.rs:457-477 | The `(r, g, b, a)` the format match produces from the four stored bytes are `PixelBytes`: for Argb8888 the bytes b2 b1 b0 b3; for Xrgb8888 the same with alpha 0xff; for any other format `(0, 0, 0, 0xff)` |
| PixelConvert.RowOffset | src/wayland.rs:450-452 | The computed `row * rowBytes` equals the row's offset `Offset(row, rowBytes)` |
| PixelConvert.SourceRow | src/wayland.rs:449 | The source row is a valid row; it is `height - 1 - y` under `y_invert`, otherwise `y` |
| PixelConvert.Converted | src/wayland.rs:446 | The output buffer is allocated at `width * height * 4` bytes |
| PixelConvert.ConvertedByte | src/wayland.rs:455-481 | Byte `k` of output pixel `(x, y)` is byte `k` of the RGBA of the source pixel at `src_y * stride + 4x`, and that source pixel lies inside `data` |
| PixelConvert.ConvertedRow | src/wayland.rs:448-453 | Destination row `y` of the image occupies bytes `y*w*4 .. (y+1)*w*4` and is the converted source row |
| PixelConvert.ConvertedRowFrom | src/wayland.rs:449-453 | The bytes of destination row `y` are the converted `width * 4` bytes starting at `src_y * stride`, and those bytes lie inside `data` |
| PixelConvert.RowInside | src/wayland.rs:451 | Each source row the converter slices lies inside `data` when the geometry fits |
| PixelConvert.Supported | src/wayland.rs:387-394 | Defines the formats `BufferDone` accepts for a capture: exactly Argb8888 and Xrgb8888 |
| PixelConvert.PixelBytes | src/wayland.rs:463-477 | Defines the RGBA bytes the format `match` yields for a pixel stored as b0 b1 b2 b3: b2 b1 b0 b3 for Argb8888, b2 b1 b0 0xff for Xrgb8888, `(0, 0, 0, 0xff)` for any other format |
| PixelConvert.PixelAt | src/wayland.rs:457-477 | Defines one pixel's read and decode: the `PixelBytes` of the four bytes at offset `i` of the buffer |
| PixelConvert.Word | src/wayland.rs:457-462 | Defines the word `px` read from four stored bytes, little-endian in place of `from_ne_bytes` |
| PixelConvert.Shr | src/wayland.rs:465-474 | Defines `px >> n` for whole-byte shifts as `n / 8` divisions by 256 |
| PixelConvert.Channel | src/wayland.rs:465-474 | Defines `((px >> n) & 0xff) as u8` |
| PixelConvert.ConvertPre | src/wayland.rs:446-453 | Defines when `convert_to_rgba` runs without a panic: every row slice lies inside `data`, and none of `width * height * 4`, `width * 4` or `src_y * stride` overflows `u32` |
| PixelConvert.RowRgba | src/wayland.rs:455-481 | The converted RGBA of `n` consecutive source pixels, exactly `4 * n` bytes |
| PixelConvert.DestRow | src/wayland.rs:449-453 | Destination row `y`: the `width * 4` converted bytes of the source row `SourceRow` selects |
| PixelConvert.DestRows | src/wayland.rs:448-453 | The first `n` destination rows, each `width * 4` bytes |
| PixelConvert.StorePixel | src/wayland.rs:478-481 | The four stores put `r, g, b, a` at `out[i .. i+4]` and leave every other byte unchanged |
| PixelProperties.ConvertedSize | src/wayland.rs:446 | The returned image holds exactly `width * height * 4` bytes |
| PixelProperties.ConvertedPixel | src/wayland.rs:455-481 | Output pixel `(x, y)` is `(px>>16, px>>8, px, px>>24) & 0xff` for Argb8888 and the same with alpha 0xff for Xrgb8888, where `px` is the word at `src_y * stride + 4x` |
| PixelProperties.Shifted | src/wayland.rs:463-477 | Defines the shift-and-mask arms of the format `match` on the word `px`, in R, G, B, A order: `(px >> 16, px >> 8, px, px >> 24) & 0xff` for Argb8888, alpha 0xff for Xrgb8888, `(0, 0, 0, 0xff)` otherwise |
| PixelProperties.ShiftedBytes | src/wayland.rs:457-477 | The source's shift-and-mask channels of the little-endian word are exactly the stored bytes, in `PixelBytes` order |
| PixelProperties.ConvertedInverted | src/wayland.rs:449 | With `y_invert`, destination row `y` equals row `height - 1 - y` of the image converted without it |
| PixelProperties.ConvertedIgnoresPadding | src/wayland.rs:450-451 | Two buffers that agree on the `width * 4` bytes of every row convert to the same image: the padding up to `stride` and anything after the last row are never read |
| PixelProperties.RowRgbaWindow | src/wayland.rs:451-462 | A converted row depends only on the `4 * width` bytes it starts at |
| PixelProperties.DestRowsWindows | src/wayland.rs:448-453 | Every destination row depends only on the source rows it is copied from |
| PixelProperties.ConvertEncodedArgb | src/wayland.rs:438-485 | Round trip: an RGBA image written out as unpadded little-endian Argb8888 rows and converted without `y_invert` is the image itself |
| PixelProperties.DestRowsEncoded | src/wayland.rs:448-453 | Each destination row of an encoded unpadded image is the matching slice of the original RGBA |
| PixelProperties.RowRgbaEncoded | src/wayland.rs:455-481 | Converting an encoded run of pixels gives back the original RGBA run |
| WaylandEngine.Initial | src/wayland.rs:111-127 | Defines `WaylandState::new`: no toplevels, no pending frames, no pool and a recorded pool size of 0, nothing sent or requested, not panicked |
| WaylandEngine.YInvertSet | src/wayland.rs:368-369 | Defines `value.contains(Flags::YInvert)`: the bit with value 1 of the flags is set |
| WaylandEngine.PoolEnsured | src/wayland.rs:129-144 | After `ensure_slot_pool(size)` the pool exists, its recorded size is at least `size`, and no other state changes |
| WaylandEngine.ThumbnailRequested | src/wayland.rs:146-172 | Defines `request_thumbnail`: one capture request, and one pending frame for the window with zero geometry and nothing negotiated |
| WaylandEngine.UpsertSent | src/wayland.rs:174-180 | Defines `send_upsert`: appends `Upsert{id, title, app_id}` |
| WaylandEngine.ThumbnailSent | src/wayland.rs:182-192 | Defines `send_thumbnail`: appends a `Thumbnail` with the window's current title and app id, only if the window is known |
| WaylandEngine.RemoveSent | src/wayland.rs:194-196 | Defines `send_remove`: appends `Remove{id}` |
| WaylandEngine.AfterManagerEvent | src/wayland.rs:255-275 | Defines the manager handler: `Toplevel` inserts an empty entry, announces it and, when it is not yet captured, marks it and requests its thumbnail; other events do nothing |
| WaylandEngine.AfterHandleEvent | src/wayland.rs:297-319 | Defines the handle handler: an unknown handle is ignored; `Title`/`AppId` update one field and announce both; `Closed` forgets the window and sends `Remove` |
| WaylandEngine.FrameFinished | src/wayland.rs:426-431 | Defines the common end of `Ready` and `Failed`: destroy the frame object, forget the capture |
| WaylandEngine.AfterBufferDone | src/wayland.rs:373-406 | Defines `BufferDone`: no-op with a buffer; destroy for an unsupported format; a panic on `stride * height` overflow; otherwise ensure the pool, request the copy and attach the buffer |
| WaylandEngine.AfterReady | src/wayland.rs:407-428 | Defines `Ready`: take the buffer; with a buffer, a pool and canvas data, convert (panicking when `ConvertPre` fails) and send the thumbnail; then destroy and forget the frame |
| WaylandEngine.AfterFrameEvent | src/wayland.rs:343-434 | Defines the export-frame handler: ignore a frame that is not pending, record `Buffer` and `Flags`, and route `BufferDone`, `Ready` and `Failed` |
| WaylandEngine.AfterEvent | src/wayland.rs:246-436 | Defines one dispatched event, routed by the object it concerns; nothing happens after a panic |
| WaylandEngine.AfterEvents | src/wayland.rs:246-436 | Defines a sequence of dispatched events, first to last |
| WaylandProperties.PoolEnsuredSize | src/wayland.rs:129-144 | With no pool, the recorded size becomes `size`; otherwise it becomes `max(old, size)`, and a pool whose capacity matched its record still does |
| WaylandProperties.PoolAfterIsMax | src/wayland.rs:129-144 | Starting without a pool, after sizes `s1..sn` the pool exists and its capacity and recorded size are `max(s1..sn)` |
| WaylandProperties.PoolNeverShrinks | src/wayland.rs:135-141 | Once the pool exists, no sequence of calls removes it or lowers its size |
| WaylandProperties.ToplevelDiscovered | src/wayland.rs:256-271 | A `Toplevel` announcement has all of these effects: it registers the window with empty title and app id, marked captured; it appends `Upsert{id, "", ""}`; it adds exactly one pending frame for that window, with zero geometry and no format, y-invert or buffer; it requests one capture; the pool is unchanged |
| WaylandProperties.ManagerOtherIgnored | src/wayland.rs:273-274 | `Finished` and unknown manager events change nothing |
| WaylandProperties.UnknownHandleIgnored | src/wayland.rs:297-298 | Events for a handle that is not in the registry change nothing and send nothing |
| WaylandProperties.TitleUpdated | src/wayland.rs:300-305 | `Title` on a known window changes only that window's title, sends `Upsert` with the new title and the current app id, and changes nothing else |
| WaylandProperties.AppIdUpdated | src/wayland.rs:306-311 | `AppId` on a known window changes only its app id, sends `Upsert` with the current title and the new app id, and changes nothing else |
| WaylandProperties.ClosedRemoves | src/wayland.rs:312-315 | `Closed` on a known window removes it from the registry, sends `Remove{id}`, and changes nothing else |
| WaylandProperties.UnknownFrameIgnored | src/wayland.rs:343-346 | Events for a frame that is not pending change nothing |
| WaylandProperties.BufferRecorded | src/wayland.rs:349-364 | `Buffer` records the frame's format, width, height and stride and changes nothing else |
| WaylandProperties.FlagsRecorded | src/wayland.rs:365-372 | A recognised `Flags` value sets `y_invert` from its `y_invert` bit (value 1) and changes nothing else; an unrecognised value is ignored |
| WaylandProperties.BufferDoneTwice | src/wayland.rs:384-386 | `BufferDone` for a frame that already has a buffer changes nothing |
| WaylandProperties.BufferDoneUnsupported | src/wayland.rs:387-394 | `BufferDone` with a format other than Argb8888 or Xrgb8888 only destroys the frame object: no buffer is attached, nothing is sent, and the frame stays pending |
| WaylandProperties.BufferDoneAttaches | src/wayland.rs:395-405 | `BufferDone` with a supported format ensures the pool for `stride * height` bytes: it is created at that size, or grown to the larger of its size and that. It attaches a buffer of that size, requests the copy into it, and changes nothing else |
| WaylandProperties.BufferDoneOverflowPanics | src/wayland.rs:396 | With a supported format, `BufferDone` panics exactly when `stride * height` overflows `u32` |
| WaylandProperties.FailedForgets | src/wayland.rs:429-432 | `Failed` destroys the frame object and removes only that frame. Nothing else changes: nothing is sent, and the registry and the pool stay as they were |
| WaylandProperties.ReadySendsThumbnail | src/wayland.rs:407-428 | `Ready` panics exactly when a buffer, the pool and canvas data are present but the geometry does not fit. Otherwise it removes only that frame, destroys the frame object, and sends nothing, unless a buffer was attached and the window is still known. In that case it sends exactly one `Thumbnail`: the converted canvas, with the window's current title and app id. The registry and the pool are unchanged; a panic leaves only the frame's buffer taken |
| WaylandProperties.ThumbnailSize | src/wayland.rs:182-192 | A thumbnail the engine sends holds `width * height * 4` bytes |
| WaylandProperties.SentGrowsByAtMostOne | src/wayland.rs:174-196 | Every event keeps what was already sent, appends at most one domain event, and only appends requests |
| WaylandProperties.ReadySentGrows | src/wayland.rs:407-428 | `Ready` leaves the sent events as they were or appends exactly one after them, and only adds requests |
| WaylandProperties.PanicIsFinal | src/wayland.rs:396 | After a panic of the capture thread, no sequence of events changes anything |
| WaylandProperties.InitialValid | src/wayland.rs:111-127 | The fresh state satisfies the engine invariant |
| WaylandProperties.BufferDoneValid | src/wayland.rs:373-406 | `BufferDone` preserves the invariant: every attached buffer fits in the pool, and the recorded size is the pool's capacity |
| WaylandProperties.ManagerEventValid | src/wayland.rs:255-275 | Manager events preserve the invariant; every registered window is captured |
| WaylandProperties.HandleEventValid | src/wayland.rs:297-319 | Handle events preserve the invariant |
| WaylandProperties.FrameEventValid | src/wayland.rs:343-434 | Export-frame events preserve the invariant |
| WaylandProperties.AfterEventValid | src/wayland.rs:246-436 | Every dispatched event preserves the invariant |
| WaylandProperties.AfterEventsValid | src/wayland.rs:246-436 | The invariant holds after any sequence of events |
| WaylandProperties.LastAbout | src/wayland.rs:174-196 | The last `Upsert`/`Remove` of a window in the log concerns that window |
| WaylandProperties.LastAboutAppend | src/wayland.rs:174-196 | Appending an event changes the last event about a window only when it is an `Upsert`/`Remove` of that window |
| WaylandProperties.MirroredUpsert | src/wayland.rs:174-180 | Registering or updating a window and sending its `Upsert` keeps the log in step with the registry |
| WaylandProperties.MirroredRemove | src/wayland.rs:194-196 | Forgetting a window and sending `Remove` keeps the log in step with the registry |
| WaylandProperties.MirroredThumbnail | src/wayland.rs:182-192 | Sending a thumbnail does not disturb the log's view of the registry |
| WaylandProperties.ReadyMirrored | src/wayland.rs:407-428 | `Ready` keeps the log in step with the registry |
| WaylandProperties.HandleEventMirrored | src/wayland.rs:297-319 | Handle events keep the log in step with the registry |
| WaylandProperties.AfterEventMirrored | src/wayland.rs:246-436 | Every event keeps this true: the last `Upsert`/`Remove` of each known window carries its current title and app id, and that of a forgotten window is a `Remove` |
| WaylandProperties.AfterEventsMirrored | src/wayland.rs:246-436 | From the initial state, the log reflects the registry after any sequence of events |
| WaylandDispatch.WaylandState.constructor | src/wayland.rs:111-127 | A new state knows no windows or frames, has no pool and a recorded size of 0, and has sent nothing |
| WaylandDispatch.WaylandState.EnsureSlotPool | src/wayland.rs:129-144 | The fields change exactly as `PoolEnsured` says |
| WaylandDispatch.WaylandState.RequestThumbnail | src/wayland.rs:146-172 | One capture request is logged, and one pending frame for the window is inserted, with zero geometry and nothing negotiated |
| WaylandDispatch.WaylandState.SendUpsert | src/wayland.rs:174-180 | Exactly `Upsert{id, title, app_id}` is appended to the channel |
| WaylandDispatch.WaylandState.SendThumbnail | src/wayland.rs:182-192 | A `Thumbnail` with the window's current title and app id is appended if the window is known; otherwise nothing changes |
| WaylandDispatch.WaylandState.SendRemove | src/wayland.rs:194-196 | Exactly `Remove{id}` is appended to the channel |
| WaylandDispatch.WaylandState.OnManagerEvent | src/wayland.rs:255-275 | The handler leaves the object in the state `AfterManagerEvent` gives, whose effects `ToplevelDiscovered` states |
| WaylandDispatch.WaylandState.OnHandleEvent | src/wayland.rs:297-319 | The handler leaves the object in the state `AfterHandleEvent` gives |
| WaylandDispatch.WaylandState.OnBufferDone | src/wayland.rs:373-406 | The handler leaves the object in the state `AfterBufferDone` gives |
| WaylandDispatch.WaylandState.OnReady | src/wayland.rs:407-428 | The handler, which runs the array conversion `ConvertToRgba`, leaves the object in the state `AfterReady` gives |
| WaylandDispatch.WaylandState.OnFrameEvent | src/wayland.rs:343-434 | The handler leaves the object in the state `AfterFrameEvent` gives |
| WaylandDispatch.WaylandState.Dispatch | src/wayland.rs:246-436 | Dispatching one event leaves the object in the state `AfterEvent` gives, so every property proved of `AfterEvent` holds of the object |
| Picker.FirstIndex | src/main.rs:68 | `find` stops at a window with the id, and no earlier window has it; it finds nothing only when no window has the id |
| Picker.App.constructor | src/main.rs:152-158 | The picker starts with no windows |
| Picker.App.FindWindow | src/main.rs:68 | The search loop returns the position of the first window with the id, or none |
| Picker.App.ApplyWaylandEvent | src/main.rs:61-97 | The list becomes `Applied(old list, event)`: an in-place upsert or an append for `Upsert`, the retained windows for `Remove`, unchanged for `Error` |
| Picker.Upserted | src/main.rs:68-78 | Defines the `Upsert` arm: overwrite title and app id of the first window with the id, or append one without a thumbnail |
| Picker.Retained | src/main.rs:81 | Defines `retain` with the test `w.id != id`: the windows with another id, in order |
| Picker.Applied | src/main.rs:61-97 | Defines the list after one `Upsert`, `Remove` or `Error` event |
| Picker.UpsertExisting | src/main.rs:68-70 | `Upsert` of an id whose first window is at position `i` overwrites that window's title and app id in place. Length, positions, its id and its thumbnail are unchanged, and every other window is untouched |
| Picker.FirstIndexDistinct | src/main.rs:68 | When ids are distinct, `find` stops at the one window that has the id |
| Picker.UpsertNew | src/main.rs:71-77 | `Upsert` of an id that is not listed appends one window at the end, without a thumbnail |
| Picker.UpsertedIds | src/main.rs:68-78 | After `Upsert`, exactly the old ids and the upserted id are listed |
| Picker.UpsertKeepsDistinct | src/main.rs:68-78 | If ids were distinct before `Upsert`, they are distinct after it |
| Picker.RetainedMembers | src/main.rs:81 | A window survives `Remove{id}` if and only if it was listed and has another id |
| Picker.RetainedIds | src/main.rs:81 | After `Remove{id}`, no window has that id and every other listed id is still listed |
| Picker.RetainedAppend | src/main.rs:81 | Removal distributes over concatenation, so the survivors keep their relative order |
| Picker.RetainedAbsent | src/main.rs:81 | Removing an id that is not listed leaves the list unchanged |
| Picker.RetainedKeepsDistinct | src/main.rs:81 | Removal keeps ids distinct |
| Picker.ErrorIgnored | src/main.rs:93-95 | `Error` leaves the list unchanged |
| PickerSync.Replay | src/main.rs:61-97 | Defines the list after the picker applies a log in order, passing over thumbnails |
| PickerSync.FollowsUpsert | src/main.rs:63-79 | Applying an `Upsert` keeps the picker's list in agreement with the log |
| PickerSync.FollowsRemove | src/main.rs:80-82 | Applying a `Remove` keeps the list in agreement with the log |
| PickerSync.FollowsOther | src/main.rs:93-95 | `Error` and thumbnail events leave the list's agreement with the log intact |
| PickerSync.ReplayFollows | src/main.rs:61-97 | After applying any log in order, ids in the list are distinct. Each listed window carries the fields of its id's last `Upsert`, and every id whose last `Upsert`/`Remove` is an `Upsert` is listed |
| PickerSync.PickerShowsRegistry | src/main.rs:61-97 | After any sequence of compositor events, the picker that has applied everything the engine sent lists each registered window exactly once, with its current title and app id, and lists nothing else |

## Left out

- `run_wayland`, `wayland_stream` and `subscription` are not modelled. They connect to the socket, bind globals, run the blocking dispatch loop, spawn the thread and bridge the async channel, which is I/O and concurrency. The engine's `WaylandEvent::Error`, which only they send, never appears in the engine's log. The picker handles it (`ErrorIgnored`).
- The real shared-memory calls `SlotPool::new`, `resize`, `create_buffer` and `canvas` are not modelled; they are foreign library calls. The model treats them as always succeeding; the `expect` panics at `src/wayland.rs:131`, `:140` and `:400` are not modelled. The pool is its capacity. A buffer is the parameters it was created with, plus the size it occupies. What the canvas holds at `Ready` is a parameter of the event.
- The `copy`, `destroy` and `capture_toplevel_with_wlr_toplevel_handle` requests are entries in the `requests` log; their effect on the compositor is not modelled. The `overlay_cursor` argument 0 is not recorded.
- Protocol object ids are event parameters. The client library allocates them, and that allocation is not modelled.
- `SlotPool::create_buffer` rounds slots up and can grow the pool on its own when no free slot fits. That growth is not modelled, so the model's pool capacity is always the recorded `slot_pool_size`.
- Release builds wrap `u32` products around instead of panicking; only the debug-build panic is modelled.
- `u32::from_ne_bytes` is modelled as little-endian, so big-endian hosts are not covered.
- The `Thumbnail` arm of `apply_wayland_event` (`src/main.rs:83-92`) destructures an `id` field. The `WaylandEvent::Thumbnail` variant (`src/wayland.rs:28-34`) has no such field, so the arm has no meaning as written. `ApplyWaylandEvent` therefore requires an event other than `Thumbnail`, and `Replay` passes over thumbnails. Thumbnails in the picker's list are never set by the model.
- `WindowThumbnail` is kept only as the arguments of `WindowThumbnail::new`; building the image handle is UI.
- `App::view`, `App::subscription`, the keyboard, selection and close handling in `App::update`, the `eprintln!` of the `Error` arm, and `build.rs` are not modelled. They are UI, process exit, console output and build-time code generation.
- WaylandEngine.PoolEnsured: states that the recorded size is at least `size`, not that it equals the pool's capacity. That equality holds under the engine invariant and is proved as `PoolEnsuredSize` and `BufferDoneValid`.
