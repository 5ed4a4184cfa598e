# SharedSigil room registry and stroke compositor, in Dafny

SharedSigil is a small multiplayer drawing game. A server keeps an in-memory registry of
rooms. Each room has a fixed list of participants and one shared canvas. Every
participant draws once. Their drawings are blended, pixel by pixel, into the room's
canvas file. A background sweeper deletes rooms.

This project models the registry and the compositor of `server.go` as sequential code.
Each handler's locked region is one atomic step on the registry's map.

- `wrappers.dfy` (`Wrappers`): the `Option` datatype.
- `canvas.dfy` (`Canvas`): pixels, images with bounds, the per-pixel blend, the merged
  canvas as a function, and the in-place double loop over a decoded `array2` buffer.
- `paths.dfy` (`Paths`): the decimal rendering of a room id, its inverse, and the
  canvas file path `<image dir>/<id>.png`.
- `rooms.dfy` (`Rooms`): users, rooms and the registry map, plus the registry invariant.
  It also holds the pure specifications of a submission (`Submit`, `WriteCanvas`) and
  of a sweep (`RemoveWhere`), with the lemmas about them.
- `registry.dfy` (`Registry`): the class `Registry`. Its field `rooms` plays the global
  `rooms` map. Its methods are the handlers `createRoom`, `getConfig`, `sendStrokes`,
  `getDone` and the sweeper's inner loop.

Random draws come in as finite sequences of candidate values. The clock comes in as an
integer count of nanoseconds. The decoded request image and the cosmetic
configurations come in as parameters.

## Model

| member | source | states |
|---|---|---|
| `Canvas.BlendAlpha` | server.go:329-332 | Output alpha is the sum of the two alphas when that fits in a byte. It saturates at 255 exactly when the sum reaches 255. It never drops below either input alpha. |
| `Canvas.BlendChannelBounds` | server.go:314-328 | Each colour channel is at least either side's alpha-weighted colour. It is at most their sum plus one. It is clamped to 255 exactly when the weighted sum reaches 255·255. |
| `Canvas.BlendSymmetric` | server.go:314-332 | The blend gives the same pixel whichever side is the incoming drawing. |
| `Canvas.TransparentStrokeRescales` | server.go:314-332 | A fully transparent incoming pixel keeps the canvas alpha. It still scales every canvas colour by that alpha, so the colour never grows. |
| `Canvas.BlendExample` | server.go:314-334 | (200,0,0,128) blended onto (0,200,0,128) gives (100,100,0,255). |
| `Canvas.MergeOrderMatters` | server.go:267-335 | Three one-pixel drawings merged in the orders 1,2,3 and 2,3,1 give different canvases. |
| `Canvas.Merge` | server.go:292-335 | The merged canvas is well formed and has the existing canvas's bounds. Each pixel inside the bounds, at absolute coordinates, is the blend of the incoming pixel onto the existing one. |
| `Canvas.Load` | server.go:277-290 | Decoding the stored canvas gives a fresh buffer of the bounds' size that holds exactly the stored rows. |
| `Canvas.Composite` | server.go:300-336 | After the double loop, every buffer pixel is the blend of the incoming pixel onto that pixel's old value. |
| `Canvas.MergeInPlace` | server.go:277-343 | Decoding, compositing in place and reading the buffer back gives exactly `Merge` of the two images. |
| `Paths.Decimal` | server.go:535 | The rendering is non-empty and has only decimal digits. It has no leading zero unless the number is 0. |
| `Paths.ParseDecimalOfDecimal` | server.go:535 | Parsing the decimal rendering of `n` gives `n` back. |
| `Paths.DecimalInjective` | server.go:535 | Two numbers have the same rendering if and only if they are equal. |
| `Paths.JoinPath` | server.go:536 | The path is the directory, one `/`, then the name. An empty directory adds nothing. |
| `Paths.CanvasPathInjective` | server.go:535-536 | Two room ids give the same canvas path if and only if they are equal. |
| `Paths.CanvasPathNamesRoom` | server.go:535-536 | For every image directory, including the empty one, the file-name part of a canvas path, without `.png`, is all digits and parses back to the room id. |
| `Rooms.FirstUser` | server.go:119-127 | A user is found if and only if some slot has the uid. The slot returned holds the uid, and no earlier slot does. |
| `Rooms.FirstMatchIsOnlyMatch` | server.go:498-514 | In a room with distinct uids, the first slot that holds a uid is the only one. |
| `Rooms.CountSubmitted` | server.go:394-397 | The submitted count never exceeds the number of users. |
| `Rooms.CountSubmittedZero` | server.go:493 | The count is zero if and only if no user has submitted. |
| `Rooms.CountAfterFlag` | server.go:265 | Flagging a user who had not submitted raises the count by exactly one. |
| `Rooms.CanvasFilesDistinct` | server.go:532-537 | In a valid registry, two rooms share a canvas file path if and only if they are the same room. |
| `Rooms.Dedup` | server.go:500-514 | The retry loop keeps at most as many values as were drawn. |
| `Rooms.DedupDistinct` | server.go:500-514 | The values kept by the retry loop are pairwise distinct. |
| `Rooms.DedupElements` | server.go:500-514 | A value is kept if and only if it was drawn. |
| `Rooms.DedupPrefix` | server.go:498-514 | Drawing more values never changes the values already kept. |
| `Rooms.NewUsers` | server.go:493-516 | A new room's users carry the given uids in slot order, and none has submitted. |
| `Rooms.NewRoomValid` | server.go:489-537 | A room built from distinct uids meets the registry invariant and has no submissions. |
| `Rooms.WriteCanvas` | server.go:267-343 | A canvas write never answers BadRequest. It always leaves a complete image. Once a canvas exists, its bounds never change. |
| `Rooms.FlagKeepsUsers` | server.go:265 | Flagging a slot keeps every uid and configuration. It sets only that slot's flag and keeps uids distinct. |
| `Rooms.SubmitAccepted` | server.go:222-265 | An accepted submission found the room and the caller's first slot, which was unflagged. It replaces only that room, with the slot flagged and the canvas written. |
| `Rooms.SubmitRejects` | server.go:222-242 | A submission is refused if and only if the room does not exist or has no slot with the uid that has not submitted. A refusal changes nothing. |
| `Rooms.SubmitFlagsCaller` | server.go:228-265 | An accepted submission keeps the same rooms and leaves all other rooms unchanged. The room keeps its id, expiry, configuration, path and user list. Only the caller's flag changes, and it becomes true. |
| `Rooms.SubmitNeverClearsFlags` | server.go:265 | No submission, accepted or refused, resets a flag or changes the set of rooms. |
| `Rooms.SubmitCountsOnce` | server.go:265 | The room's submitted count rises by one when a submission is accepted. It stays the same when one is refused. |
| `Rooms.SubmitCanvas` | server.go:265-335 | An empty canvas becomes the incoming image verbatim, status Ok. A canvas with different bounds stays as it was, status InternalError, but the caller's flag is still set. Otherwise the canvas becomes the merge, bounds unchanged, status Ok. |
| `Rooms.SubmitTwiceRejected` | server.go:230-242 | After an accepted submission, a second one from the same uid is refused and changes nothing. |
| `Rooms.SubmitPreservesValid` | server.go:222-343 | Every submission keeps the registry invariant. |
| `Rooms.RemoveWhere` | server.go:570-595 | A room survives if and only if it is not selected, and survivors are unchanged. |
| `Rooms.SweepFinished` | server.go:570-595 | Say only selected rooms were deleted, the rest are unchanged, and none left is selected. Then the registry equals the original minus the selected rooms. |
| `Rooms.RemoveWherePreservesValid` | server.go:586-590 | Deleting rooms keeps the registry invariant. |
| `Rooms.SweepAsWrittenEvictsLiveRooms` | server.go:574-579 | As written, a sweep keeps a room if and only if its expiry is at or before `now`. |
| `Rooms.SweepAsWrittenCounterexample` | server.go:574-585 | As written, a room created an hour before the sweep is deleted. A room that expired an hour before it survives. |
| `Rooms.SweepExpiredKeepsLiveRooms` | server.go:570-595 | The corrected sweep keeps a room if and only if its expiry is at or after `now`. It keeps those rooms unchanged and keeps the invariant. |
| `Registry.DrawUids` | server.go:497-517 | Drawing fails if and only if the draws hold fewer than `num` distinct values. Otherwise the uids are exactly the first `num` distinct values, in drawing order. |
| `Registry.FindSubmitter` | server.go:228-242 | The scan accepts if and only if the first slot with the uid exists and has not submitted. It then returns that slot. |
| `Registry.StoreCanvas` | server.go:267-347 | Writing the canvas with the in-place merge gives exactly `WriteCanvas`. |
| `Registry.Registry.constructor` | server.go:610-614 | The registry starts empty and valid, with the given image directory. |
| `Registry.Registry.PickRoomId` | server.go:519-541 | Picking fails if and only if every draw is taken. Otherwise the id is not in use, is below MaxUint32, and is the first draw that is free. |
| `Registry.Registry.CreateRoom` | server.go:474-554 | The answer has `num`+1 values: the room's distinct uids in slot order, then the room id. The id was free and is below MaxUint32. The registry gains only that room: right id, `<dir>/<id>.png` path, expiry 21 hours after `now`, nobody submitted, no canvas. |
| `Registry.Registry.GetConfig` | server.go:110-132 | Lookup succeeds if and only if the room exists and some slot has the uid. It returns the room config, and the first matching user's config and flag. The registry is not changed. |
| `Registry.Registry.GetDone` | server.go:386-410 | `done` is the room's submitted count and `outof` its user count, so `done` ≤ `outof`; both are 0 for a missing room. `ok` holds if and only if the room and uid exist. `submitted` is 1 if and only if that user has submitted. |
| `Registry.Registry.SendStrokes` | server.go:218-347 | The status and the new registry are exactly those of `Submit` on the old registry, and the invariant is kept. |
| `Registry.Registry.SweepWhere` | server.go:570-595 | The scan, delete-one, rescan loop ends with exactly the rooms the selection does not pick, each unchanged. |
| `Registry.Registry.CleanRooms` | server.go:560-597 | One pass of the sweeper as written deletes exactly the rooms whose expiry is after `now`, and keeps the invariant. |
| `Registry.Registry.CleanExpiredRooms` | server.go:570-595 | One corrected pass deletes exactly the rooms whose expiry is before `now`, and keeps the invariant. |

## Behaviour worth knowing

The model follows the code.

- **When the flag is set.** One might expect the flag to be set only once the canvas
  write succeeds. The code sets it at server.go:265, before any write, as its comment
  at server.go:264 says. So a canvas with different bounds is refused with status 500,
  yet the user is marked submitted (`Rooms.SubmitCanvas`) and cannot retry
  (`Rooms.SubmitTwiceRejected`).
- **Refusal statuses.** An unknown room, an unknown uid and a repeat submission all get
  the same 400 answer. A bounds mismatch gets 500.
- **Merge order.** A natural expectation is that any serial order of submissions gives
  the same canvas. It does not. The first drawing is stored verbatim, and each later
  merge weights the canvas by its alpha again (`Canvas.MergeOrderMatters`).
  The blend is symmetric in its two arguments (`Canvas.BlendSymmetric`).
- **Transparent drawings.** A fully transparent drawing still darkens a partly
  transparent canvas (`Canvas.TransparentStrokeRescales`).
- **Progress for a missing room.** `getDone` reads the user-list length outside its
  `if` (server.go:407). A missing room's list has length 0 in Go, so `outof` is 0 when
  the room is missing. For an existing room with an unknown uid, `outof` is the room's
  size. Neither number is sent when `ok` is false (server.go:413-414).

## Findings

| source | as written | input that shows it | evidently intended | confidence | as-written member | corrected member |
|---|---|---|---|---|---|---|
| server.go:575 | `rooms[k].exp.After(now)` selects rooms whose expiry is still ahead, and each selected room is deleted | A room created an hour before a sweep (expiry 20 hours after `now`) is deleted. A room that expired an hour before the sweep survives. | Delete rooms whose expiry has passed, `now.After(rooms[k].exp)`, as the log line at server.go:585 ("Found expired room") says | high, not executed | `Registry.Registry.CleanRooms` (with `Rooms.SweepAsWrittenCounterexample`) | `Registry.Registry.CleanExpiredRooms` (with `Rooms.SweepExpiredKeepsLiveRooms`) |

## Left out

- HTTP handling, form-field parsing, JSON encoding and static file serving are left
  out. They are plumbing around the core (server.go:72-108, 134-199, 351-384,
  412-418, 474-486, 545, 551-558, 599-630). Ids and uids arrive already parsed
  as `uint32`. A request whose image lacks the base64 prefix is dropped without an
  error status (server.go:194-196), and that case is not modelled.
- The single-player branch of `getConfig` (server.go:80-86) is left out. It only
  returns freshly generated random configurations.
- Base64 stripping, PNG decoding and encoding, and the `draw.Draw` conversion to NRGBA
  are left out (server.go:186-216, 269, 278-290, 343). The request image arrives
  already decoded. `Canvas.WellFormed` is what the decoder guarantees.
- The stored canvas is the decoded image itself. So the code's errors for a canvas
  that fails to decode or is not NRGBA (server.go:278-290) cannot arise in the model.
- File open, stat, seek, write and remove are left out, with their error answers
  (server.go:249-262, 269-273, 342-347, 590). The canvas file is the room's
  `canvas` field. An empty or absent file is `None`. Removing the file goes with
  removing the room.
- Locking and the sweeper goroutine are left out (server.go:66, 113, 219-246, 523,
  573-591, 627). Each handler's locked region is one atomic step, so the code's
  interleavings are not modelled.
- The clock and sleeping are left out (server.go:492, 564, 569). Time is an integer
  number of nanoseconds passed in. Only one pass of the sweeper's endless outer loop
  is modelled.
- The sweeper picks a room to delete with a nondeterministic choice. This stands for
  Go's unspecified map iteration order.
- The random cosmetic generators (server.go:421-471) are left out. Their results are
  opaque payload parameters.
- The source draws uids and user configurations from one `math/rand` stream. The model
  uses separate supplied sequences.
- `Registry.DrawUids`: it returns None when the finite draw sequence runs out. The
  source's `math/rand` stream never runs out.
- `Registry.Registry.PickRoomId`: it returns None when every supplied draw is taken.
  This stands for the panic when `crypto/rand` fails (server.go:526-528). An endless
  sequence of collisions is not modelled.
- `Canvas.BlendChannel`: colour uses exact rational arithmetic truncated toward zero
  (server.go:314-328). The code's float32 rounding is abstracted, so the model does
  not claim bit-exact colours. Alpha is exact in both.
- `Paths.JoinPath`: it assumes the image directory is already clean (no trailing `/`,
  no `.` or `..`). The path clean-up that `path.Join` does is not modelled.
- `site/sigl.js` and `site/sigl_menu.js` are left out. They hold brush physics, canvas
  drawing and DOM handling in the browser.
