# Camera wall rotation engine and pure MD5, in Dafny

This project models two self-contained parts of a small camera-wall system:

- **The rotation engine** (`algorithm.js`) decides which of 26 cameras the
  4x4 video wall shows.
  - Cameras signalling an event are *active*. Each takes a 2x2 block, in
    arrival order.
  - The others wait in the *recent* list, most eligible first. Its head
    fills the single cells left free (16, 12, 8, 4 or 0 of them).
  - When a camera stops being active, it is put back into `recent` by a
    round-robin rule. A replacement cursor (`previousReplacement`) makes
    consecutive departures take over successive visible cells.
  - `getRecentShown` keeps a cache of the last window. When the window
    shrinks, it rotates that cached window to the cursor, so the camera
    that last came back is first in the window that call returns. After an
    activation it is the logging call that does this, and the render that
    follows shows the head of `recent` (see "## Findings").
- **MD5** (`md5.py`) is a pure-Python implementation of RFC 1321. The
  system uses it for HTTP Digest authentication.
  - It covers padding (sections 3.1 and 3.2 of RFC 1321), the initial buffer
    (section 3.3), the 64-step block function (section 3.4) and the hex
    output (section 3.5).

Files:

- `seqs.dfy` (module `Seqs`): the JavaScript array idioms the engine is
  built from, over sequences of camera ids. These are `indexOf`,
  `splice`, `filter`, `slice`, "push if absent", and the repair list of
  missing cameras.
- `rotation.dfy` (module `Rotation`): the engine.
  - The module-level variables become one immutable `State` record. It
    holds `recent`, `active`, the cursor, the event-type map, the set of
    cameras with a pending timer, and the window cache.
  - Every handler is a pure function from state to state.
  - `getRecentShown` rewrites its cache, so it returns the window together
    with the updated state. The calls made by the logging lines and by the
    render are kept, because they change that cache.
  - The central result is that every run of events keeps the invariant.
    `recent` and `active` are duplicate-free and disjoint, and together
    they hold exactly the cameras 1..26. As a consequence, the repair steps
    never append anything after an activation. After a deactivation they
    append at most the displaced camera.
- `md5.dfy` (module `Md5`): MD5 on `seq<bv8>`.
  - Words are `bv32`, whose wrap-around is exactly the source's
    `& 0xffffffff` masking. Python's `~b` becomes the 32-bit complement
    `!b`; every value computed from it is masked to 32 bits.
  - `Hash` is the source's loop. `Md5Hex` is the same computation as a
    function, and `Hash` is proved equal to it.
  - Besides the properties the source relies on, each step gets a partner:
    - padding is undone by `Unpad`;
    - word encoding is undone by decoding;
    - hex output is undone by `Unhex`;
    - each of the 64 steps is undone by `StepBack`, so the 64 steps of a
      block, before the chaining values are added back, are a bijection on
      the registers.

Two guards are absent from the code, and the model follows the code:

- `onCameraActivate` has no range check on the id (algorithm.js:69-92).
  The event source drops only a zero or unparsable id (eventsource.js:14-16),
  so any other integer, such as 27 or -3, reaches it.
  - `Rotation.Activate` accepts any id.
  - The invariant lemmas cover only ids in 1..26 (see "## Left out").
- `onCameraDeactivate` does not check that the camera is active
  (algorithm.js:94-152). For a camera that is not active it still takes the
  camera out of `recent` and puts it back by the round-robin rule, possibly
  displacing another camera to the tail. It also moves the cursor.
  `Rotation.Deactivate` does the same, and the invariant is proved for it.

## Model

| member | source | states |
|---|---|---|
| `Seqs.IndexOf` | algorithm.js:16 | `indexOf` gives -1 exactly when the value is absent; otherwise the value is at that position and nowhere before it |
| `Seqs.IndexOfDistinct` | algorithm.js:16 | in a duplicate-free list, `indexOf` of the element at position i is i |
| `Seqs.RemoveAt` | algorithm.js:96 | `splice(i, 1)` shortens the list by one and removes one copy of the element at i; the elements before i stay in place, and those after it move down by one |
| `Seqs.RemoveFirst` | algorithm.js:70-71 | the indexOf/splice idiom leaves a list without the value unchanged; otherwise it removes exactly one copy of the value and keeps every other element; a duplicate-free list stays duplicate-free and loses the value entirely |
| `Seqs.RemoveFirstShape` | algorithm.js:105-106 | the removal cuts the list exactly at the first occurrence, so the remaining elements keep their order |
| `Seqs.AppendNew` | algorithm.js:73 | `if (!includes) push` leaves the list as it is when the camera is present, and appends it at the end otherwise |
| `Seqs.AppendNewDistinct` | algorithm.js:73 | after a push-if-absent on a duplicate-free list, the list is duplicate-free and the camera occurs exactly once |
| `Seqs.Without` | algorithm.js:30 | `filter(c => !excl.includes(c))` keeps exactly the elements not in `excl`, never grows, and keeps a list duplicate-free |
| `Seqs.WithoutOne` | algorithm.js:30 | the filter keeps a single element exactly when it is not excluded |
| `Seqs.WithoutConcat` | algorithm.js:30 | the filter of a concatenation is the concatenation of the filters, so the survivors keep their order |
| `Seqs.WithoutDisjoint` | algorithm.js:30 | filtering by a list that shares nothing with the input returns the input unchanged |
| `Seqs.Take` | algorithm.js:52 | `slice(0, n)` is the prefix of length min(n, length) |
| `Seqs.Replace` | algorithm.js:119 | `splice(j, 1, x)` overwrites position j with x and keeps every other position |
| `Seqs.ReplaceFresh` | algorithm.js:130 | overwriting one entry of a duplicate-free list with a new camera gives a duplicate-free list that has lost only the overwritten camera |
| `Seqs.AllCameras` | algorithm.js:34 | the universe array holds 26 entries, with entry i equal to i + 1 |
| `Seqs.Missing` | algorithm.js:84-86 | the repair list holds exactly the cameras in neither `recent` nor `active`, each once |
| `Seqs.MissingNone` | algorithm.js:83-88 | when every camera is in one of the two lists, the repair appends nothing |
| `Seqs.MissingOne` | algorithm.js:142-147 | when exactly one camera is unaccounted for, the repair appends exactly that camera |
| `Rotation.Init` | init.js:67-68 | the start-up state has all 26 cameras in `recent`, ascending; nothing is active, there is no cursor and the window cache is empty; it satisfies the invariant |
| `Rotation.WindowSize` | algorithm.js:22-27 | the window plus four cells per active camera (counting at most four) fills the 16 cells |
| `Rotation.WindowSizeMonotone` | algorithm.js:22-27 | more active cameras never give a larger window, and below four each extra camera gives a strictly smaller one |
| `Rotation.RotateToStart` | algorithm.js:15-19 | the result is a permutation of the same length; if the value is absent, the list is unchanged; if present, the result starts with it and is the input read cyclically from its first occurrence |
| `Rotation.RotateToStartUndo` | algorithm.js:15-19 | rotating a duplicate-free list to any member and then back to its old head restores it |
| `Rotation.RotateToCursor` | algorithm.js:14-18 | rotating to the cursor permutes the list, and puts the cursor first when it is present; a null cursor, or one that is not in the list, leaves the list unchanged |
| `Rotation.RecentShown` | algorithm.js:21-63 | the window never exceeds the size for the active count and never holds an active camera; the cache records exactly the window and its size; in the shrink branch the window comes from the previous window; duplicate-free inputs give a duplicate-free window |
| `Rotation.Shrinks` | algorithm.js:42-50 | the shrink condition: a numeric cached size larger than the current one, a non-empty cached window, and some camera of it not active; `ShrinkKeepsCursorFirst` and `ShrinkWithoutCursor` state the window in this case and `WindowIsHeadOfRecent` the window otherwise |
| `Rotation.WindowIsHeadOfRecent` | algorithm.js:29-38 | outside the shrink branch, when `recent` is duplicate-free, disjoint from `active` and long enough, the window is the head of `recent` |
| `Rotation.ShrinkKeepsCursorFirst` | algorithm.js:42-56 | when `getRecentShown` takes its shrink branch, the window it returns is a cyclic run of the surviving previous window starting at the cursor, so the cursor is first in that call's window |
| `Rotation.ShrinkWithoutCursor` | algorithm.js:49-52 | in the shrink branch with no cursor, or a cursor that did not survive, the window is the head of the surviving previous window, in its old order |
| `Rotation.ActiveShown` | algorithm.js:65-67 | `getActiveShown` returns `active` itself; `ShownDisjoint` states that it and the window never share a camera |
| `Rotation.Activate` | algorithm.js:69-92 | the camera joins `active` at the tail unless already there (then `active` is unchanged); its event type and timer are set; the cursor is unchanged; the camera leaves a duplicate-free `recent`; the cache size matches the new active count |
| `Rotation.ActivateBeforeLog` | algorithm.js:70-88 | the state `onCameraActivate` has built before its display and logging calls; `ActivateCoherent` states that it keeps everything but the cache size in order |
| `Rotation.ActivatePreservesValid` | algorithm.js:69-92 | activation of a camera 1..26 keeps the invariant; the camera is then active exactly once, and `recent` is the old list with just that camera cut out |
| `Rotation.ActivateLists` | algorithm.js:70-88 | the list surgery of activation gives a partition again, so the repair appends nothing |
| `Rotation.ActivateKeepsCursorVisible` | algorithm.js:69-91 | activating a new camera while fewer than three are active, with the cursor still visible and not active, makes the logging call's window start with the cursor |
| `Rotation.ActivateThenWindow` | algorithm.js:69-91 | after an activation, the window the render reads is the first `WindowSize` entries of `recent` for the new active count, at full size and without the camera, because the logging call has already stored the new window size |
| `Rotation.WallDropsCursor` | algorithm.js:88-91 | as the code is written: from an idle state whose cache is the first 16 of `recent`, with the cursor the 15th of them, activating the 20th camera makes the logging call's window start with the cursor, while the render's window does not contain it |
| `Rotation.LateRemovalKeepsHead` | algorithm.js:70-71 | removing the camera at position k of a duplicate-free `recent` and appending the repair list leaves the first k entries in place |
| `Rotation.ActivateIntended` | algorithm.js:9-11 | the activation the cache comments describe leaves the window cache untouched, and otherwise agrees with `Activate` |
| `Rotation.IntendedRenderPreservesValid` | algorithm.js:154-164 | the corrected activation followed by its render keeps the invariant |
| `Rotation.IntendedWallKeepsCursor` | algorithm.js:40-41 | with the corrected activation, when the window shrinks and the cursor was in it and is not the camera, the render shows the cursor first |
| `Rotation.RefreshValid` | algorithm.js:59-62 | recomputing the window on a coherent state leaves the cache consistent with the active count |
| `Rotation.Detach` | algorithm.js:95-106 | the camera loses its timer and event type, and leaves duplicate-free `active` and `recent` lists |
| `Rotation.DetachFacts` | algorithm.js:94-108 | after detaching, the two lists hold every other camera once, the shrink branch cannot fire, and the reference window is the head of `recent` at full size |
| `Rotation.Place` | algorithm.js:110-140 | the re-inserted camera is in the result; without a cursor it is at the front; otherwise the result is either the camera in front or the camera written over one slot |
| `Rotation.Deactivate` | algorithm.js:94-152 | the camera leaves `active`, the timer set and the event-type map, and nothing else leaves them; it is in `recent`, at the front on the first departure ever; the cursor becomes the camera |
| `Rotation.DeactivatePreservesValid` | algorithm.js:94-152 | deactivation of any camera 1..26, active or not, keeps the invariant, with the camera in `recent` exactly once |
| `Rotation.DeactivateRoundRobin` | algorithm.js:108-147 | the reference window is the head of `recent`. If the cursor sits in it before its last entry, the camera overwrites the slot after the cursor; otherwise it overwrites the window's first slot, or goes to the front when there is no cursor or the window is empty. The overwritten camera reappears at the tail |
| `Rotation.RoundRobinLists` | algorithm.js:110-147 | the round-robin outcome on bare lists, for a window that is a head of `recent` |
| `Rotation.PlaceOnWindowHead` | algorithm.js:113-139 | when the window is a head of a duplicate-free `recent`, the fallback branches for entries missing from `recent` never apply |
| `Rotation.ReplacedMissing` | algorithm.js:142-147 | after a camera is overwritten, the repair re-appends exactly that camera |
| `Rotation.PlacedPartition` | algorithm.js:110-147 | each shape the placement can produce is a partition, with the camera in `recent` once |
| `Rotation.DeactivateBeforeLog` | algorithm.js:94-149 | the state before the logging call has the final `recent`, and its cache is the reference window |
| `Rotation.Render` | algorithm.js:163-164 | the debounced render leaves both lists as they are and brings the cache size in line with the active count |
| `Rotation.Step` | eventsource.js:24 | one input: an event activates its camera, a fired timer (algorithm.js:79) deactivates one, and the debounced render (algorithm.js:157) refreshes the cache; `StepPreservesValid` states that each keeps the invariant |
| `Rotation.StepPreservesValid` | algorithm.js:69-152 | each activation, deactivation or render of a camera 1..26 keeps the invariant |
| `Rotation.RunPreservesValid` | algorithm.js:69-152 | every sequence of such events keeps the invariant |
| `Rotation.Run` | algorithm.js:79 | the engine after a sequence of inputs, taken in order; `RunPreservesValid` states that it keeps the invariant |
| `Rotation.ShownDisjoint` | algorithm.js:21-67 | on a valid state the wall never shows a camera twice: both shown lists are duplicate-free and share nothing |
| `Rotation.ValidWindowIsHead` | algorithm.js:21-62 | on a valid state the window is the head of `recent` at full size |
| `Rotation.FirstDeactivation` | algorithm.js:110-111 | the first departure ever puts the camera at the front of `recent` and first in the next window |
| `Rotation.IdleRoundTrip` | algorithm.js:69-152 | from an idle state, activating a camera shows it alone with a 12-camera window that excludes it; deactivating it again empties `active` and shows it first in a 16-camera window |
| `Rotation.ComeAndGo` | algorithm.js:94-152 | when the only active camera departs for the first time, `active` is empty and the camera heads the full window |
| `Md5.LeftRotateAsWritten` | md5.py:6-7 | for every amount from 0 to 32, the model's rotation equals the source's expression: x shifted left by c, or-ed with x shifted right by 32 - c, in 32 bits |
| `Md5.LeftRotateMovesBits` | md5.py:6-7 | the rotation moves the low 32 - c bits up by c, and brings the top c bits round to the bottom |
| `Md5.LeftRotate` | md5.py:6-7 | the rotation; `LeftRotateAsWritten` states it equals the source's expression, `LeftRotateMovesBits` how the bits move, and `RightRotateUndoes` its inverse |
| `Md5.RightRotateUndoes` | md5.py:6-7 | rotating back by the same amount restores the word, so no bit is lost |
| `Md5.ZeroCount` | md5.py:15 | the number of zero bytes is below 64 and brings the length to 56 modulo 64 |
| `Md5.PadLength` | md5.py:13-16 | the marker, the zero bytes and the length field bring the length to a multiple of 64 |
| `Md5.ByteValue` | md5.py:16 | the byte built for a number below 256 reads back as that number |
| `Md5.FromToLE` | md5.py:16 | writing a value as k little-endian bytes and reading them back gives the value, whenever it fits |
| `Md5.PadTailFacts` | md5.py:14-16 | the appended tail is 0x80, then zero bytes, then the bit length as 8 little-endian bytes |
| `Md5.PadTail` | md5.py:14-16 | the bytes `hash` appends, 9 plus the zero count long; `PadTailFacts` states their contents |
| `Md5.Pad` | md5.py:13-16 | padding fails exactly when the bit length does not fit 64 bits. Otherwise the result starts with the message, then 0x80 and zeros, and ends with the bit length; its length is a multiple of 64 between length + 9 and length + 72 |
| `Md5.PaddedHasLayout` | md5.py:13-16 | the message followed by the tail has the padded layout of RFC 1321 sections 3.1 and 3.2 |
| `Md5.UnpadPad` | md5.py:13-16 | the length field of a padded message recovers the message |
| `Md5.PackBytes` | md5.py:42 | splitting a word into little-endian bytes and packing them back gives the word |
| `Md5.BytesOfPack` | md5.py:42 | packing four bytes into a word and splitting it gives the bytes back |
| `Md5.DecodeEncode` | md5.py:42 | decoding the little-endian encoding of words gives the words back |
| `Md5.EncodeDecode` | md5.py:42 | encoding the decoded words of a byte string whose length is a multiple of 4 gives the bytes back |
| `Md5.DecodeWords` | md5.py:42 | `struct.unpack('<16I')`: a quarter as many words as bytes; `DecodeEncode` and `EncodeDecode` make it the inverse of `EncodeWords` |
| `Md5.EncodeWords` | md5.py:56 | `struct.pack('<4I')`: four bytes per word, little-endian; `DecodeEncode` and `EncodeDecode` make it the inverse of `DecodeWords` |
| `Md5.SineTable` | md5.py:22 | the table has 64 entries |
| `Md5.RoundShifts` | md5.py:23-26 | each round has four rotation amounts, all between 4 and 23 |
| `Md5.ShiftsAt` | md5.py:23-26 | the shift list has 64 entries, and step 16q + j uses round q's amount at position j mod 4, as in RFC 1321 section 3.4 |
| `Md5.ShiftsBounded` | md5.py:23-26 | every one of the 64 amounts lies between 4 and 23 |
| `Md5.Shifts` | md5.py:23-26 | the 64 shift amounts; `ShiftsAt` states each against RFC 1321's per-round table and `ShiftsBounded` their range |
| `Md5.WordIndex` | md5.py:34-38 | the message-word index is below 16 at every step, so `M[g]` is always in bounds |
| `Md5.StepOfRoundWord` | md5.py:34-38 | within a round, the step can be recovered from the word it reads |
| `Md5.RoundWordOfStep` | md5.py:34-38 | within a round, every word is read by some step |
| `Md5.RoundReadsEachWordOnce` | md5.py:34-38 | each round reads each of the 16 words exactly once |
| `Md5.AuxFSelects` | md5.py:29 | RFC 1321's F picks, bit by bit, y where x is set and z elsewhere |
| `Md5.AuxGSelects` | md5.py:30 | RFC 1321's G picks, bit by bit, x where z is set and y elsewhere |
| `Md5.AuxHParity` | md5.py:31 | RFC 1321's H is the bitwise parity of its inputs |
| `Md5.AuxISelects` | md5.py:32 | RFC 1321's I is the complement of y where z is clear and x xor y elsewhere |
| `Md5.RoundFunctionByQuarter` | md5.py:28-32 | the source's `F` applies RFC 1321's F, G, H and I to (b, c, d) in the four quarters of the steps |
| `Md5.RoundFunction` | md5.py:28-32 | the source's `F(i, b, c, d)`; `RoundFunctionByQuarter` states it is RFC 1321's F, G, H or I by quarter |
| `Md5.InitRegs` | md5.py:19 | the initial chaining values of section 3.3 of RFC 1321, a0 = 0x67452301, b0 = 0xefcdab89, c0 = 0x98badcfe, d0 = 0x10325476 |
| `Md5.Advance` | md5.py:47-49 | a step moves d, b and c into a, c and d |
| `Md5.RetreatUndoes` | md5.py:47-49 | the new `b` and the old `b` determine the rotated sum, so `Retreat` recovers the registers a step started from |
| `Md5.Step` | md5.py:44-49 | step i moves d, b and c into a, c and d |
| `Md5.StepBackUndoes` | md5.py:44-49 | each of the 64 steps is a bijection on the registers: `StepBack` recovers its input |
| `Md5.RoundsBackUndoes` | md5.py:44-49 | undoing the first n steps in reverse order restores the registers |
| `Md5.Rounds` | md5.py:44-49 | the first n of the 64 steps on one block; `RoundsBackUndoes` states they can be undone |
| `Md5.Compress` | md5.py:41-54 | one block: the 64 steps (`Rounds`, undone by `RoundsBack` per `RoundsBackUndoes`) on the decoded words, plus the feed-forward addition of the chaining values |
| `Md5.ChainAppend` | md5.py:40-54 | the block loop over whole blocks followed by more bytes equals the loop over the first part, continued on the rest |
| `Md5.Chain` | md5.py:40-54 | the block loop as a function; `ChainAppend` and `ChainStep` state how it splits into blocks, and `ChainBlocks` that the loop computes it |
| `Md5.ChainStep` | md5.py:40-54 | one pass of the block loop adds one 64-byte block into the chaining values |
| `Md5.HexDigit` | md5.py:56 | every value below 16 becomes a lowercase hex digit |
| `Md5.DigitValue` | md5.py:56 | a lowercase hex digit denotes a value below 16 that `HexDigit` writes as that digit |
| `Md5.HexByte` | md5.py:56 | each byte is written as two lowercase hex digits |
| `Md5.Hex` | md5.py:56 | n bytes give 2n lowercase hex digits |
| `Md5.Unhex` | md5.py:56 | reading 2n hex digits gives n bytes |
| `Md5.DigitsOfByte` | md5.py:56 | the two digits written for a byte, high nibble first, denote that byte |
| `Md5.UnhexHex` | md5.py:56 | hex output loses nothing: reading it back gives the bytes |
| `Md5.DigestHex` | md5.py:56 | the digest of the four chaining values is 32 lowercase hex digits |
| `Md5.DigestHexReadsBack` | md5.py:56 | the digest reads back as the 16 little-endian bytes of a0, b0, c0, d0, which decode to those four words |
| `Md5.Md5Hex` | md5.py:9-56 | hashing gives no digest exactly when the bit length does not fit 64 bits; otherwise it gives 32 lowercase hex digits |
| `Md5.PaddedBlocks` | md5.py:13-16 | a padded message is a positive whole number of 64-byte blocks |
| `Md5.ChainBlocks` | md5.py:40-54 | the block loop over whole blocks ends with the chaining values `Chain` gives, after one pass per block |
| `Md5.Hash` | md5.py:9-56 | the source's loop computes the same digest as `Md5Hex`, in exactly one pass per 64 bytes of the padded message (at least one) |

## Left out

- Timers: the 30-second auto-deactivation timers and the render debounce
  (algorithm.js:77-81, 98-101, 154-156) are not modelled as time.
  - The state keeps the set of cameras with a pending timer.
  - A timer firing is a `Deactivated` event, and the render firing is a
    `RenderFired` event, in `Rotation.Run`.
- Display: the body of `updateDisplay` (DOM and grid geometry) and the
  `console.log` output. The `getRecentShown` calls they make are kept,
  because they update the window cache.
- Other parts of the system are not part of this model, because they are
  I/O, DOM work or process management: `eventsource.js`, `utils.js`, the
  DOM setup in `init.js`, `main.py`, `serve.py` and `mpegts_stream.py`.
  - This covers the random-camera fallback, the priority fetch, the HTTP
    handlers and the ffmpeg subprocesses.
  - The digest response at main.py:285-287 composes MD5 values as
    section 3.2.2.1 of RFC 2617 describes. It is not modelled, because it
    is built inside a network handler from a random nonce.
- Rotation.RunPreservesValid: it requires camera ids in 1..26.
  `onCameraActivate` accepts any other nonzero integer from the event
  source. Such an id enters `active`, and once its timer fires it stays in
  `recent`, so the partition of the 26 cameras is lost from then on. The
  model does not promise anything for such runs.
- Rotation.StepPreservesValid: the same restriction to ids in 1..26.
- Rotation.ActivatePreservesValid: the same restriction to ids in 1..26.
- Rotation.ActivateIntended: the event model (`Rotation.Step`) keeps the
  code's `Rotation.Activate`. The corrected activation is proved valid
  together with the render that follows it, but not for arbitrary runs.
  Under the correction a deactivation can meet a stale window cache, and
  the round-robin rule then reads a rotated window, not the head of
  `recent`.
- md5.py:10-11: text input is encoded as UTF-8 before hashing. The model
  takes bytes; there is no character encoding.
- Md5.SineTable: its contract states only the table's length. The source
  computes the entries in floating point from `math.sin` (md5.py:22); here
  they are written out as listed in RFC 1321 section 3.4. That the two
  agree is not proved, because floating point is not modelled.
- Md5.LeftRotate: it takes the amount modulo 32. The source raises an error
  for an amount above 32, because `32 - c` becomes a negative shift count.
  `Md5.LeftRotateAsWritten` proves that both agree for 0..32, and only 4..23
  occur.
- Md5.Chain: it stops at a trailing piece shorter than 64 bytes. Only
  padded messages, which are whole blocks, ever reach it, so this never
  applies.
- Md5.Hash: a message whose bit length does not fit 64 bits gives no digest.
  The source raises `struct.error` there.
- The chaining values stay below 2^32 because they are `bv32`. No separate
  lemma states this.
- No digest of a particular input (an RFC 1321 test vector) is proved. The
  model states the structure of the computation, not its values.

## Findings

| source | as written | input that shows it | evidently intended | confidence | as-written member | corrected member |
|---|---|---|---|---|---|---|
| algorithm.js:88-91 | after an activation, the logging line calls `getRecentShown`, which takes the shrink branch and stores the new window size in the cache; the render (algorithm.js:164) then finds no shrink and shows the head of `recent` | an idle state whose cache is the first 16 of `recent` and whose cursor is the 15th of them; activate the 20th camera of `recent` | the comments at algorithm.js:9-11 and 40-41: when the shown count shrinks, the wall shows the cursor first | medium, not executed | `Rotation.WallDropsCursor` | `Rotation.ActivateIntended` (`Rotation.IntendedWallKeepsCursor`, `Rotation.IntendedRenderPreservesValid`) |
