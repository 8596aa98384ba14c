# MacrosOnTheFly in Dafny

A model of the Kaleidoscope plugin MacrosOnTheFly (`src/Kaleidoscope/MacrosOnTheFly.cpp`).
The plugin lets a keyboard user record a macro onto any key and play it back later.
It has four parts, all sharing one mutable state:

- **Slot allocator.** Macros live in one fixed byte buffer, `macroStorage`.
  - The buffer holds variable-length slots laid end to end from offset 0.
  - Each slot has a header: the owning key position, with `(255, 255)` meaning free, and the allocated and used entry counts.
  - The recorded entries follow the header.
  - `findSlot` and `getSlotWithMostFreeSpace` walk the chain of slots.
  - `getFreeSpace` measures a slot's spare room.
  - `newSlot` either relabels the free slot, or splits the slot with the most free space.
  - `free` either gives a slot's whole span to the slot before it, or marks slot 0 as free.
  - `prepareForRecording` combines them: it frees the key's old slot, then allocates a new one.
- **Recorder.** `recordKeystroke` behaves as follows:
  - It stores key toggles as DOWN or UP entries.
  - It drops a release when nothing has been recorded yet.
  - It merges a release into the press just before it, making one TAP entry.
  - When the slot is full, it frees the slot and reports failure.
- **Player.** `play` turns a slot's entries into injected presses and releases, each followed by a keyboard report.
- **Controller.** `eventHandlerHook` is a three-state machine: IDLE, PICKING_SLOT_FOR_REC and PICKING_SLOT_FOR_PLAY.
  - It also tracks `recording`, `recordingSlot` and `lastPlayedSlot`.
  - For each key event it decides whether the event is consumed, recorded, played or passed through.

Sizes are counted in entries, not bytes:
- `Header` is `sizeof(Slot) / sizeof(Entry)`.
- `Capacity` is `STORAGE_SIZE_IN_BYTES / sizeof(Entry)`.
- The model assumes the header is a whole number of entries.

The arena is a sequence of slots in address order. A slot's offset is the sum of the spans (header plus allocated entries) of the slots before it.

The arena invariant, `MacroArena.Valid` together with `Total(slots) == Capacity`, states:
- the spans tile the buffer;
- used ≤ allocated in every slot;
- a free slot is empty;
- only slot 0 can be free;
- no two slots belong to the same key.

Every operation is proved to keep this invariant. `Macros(slots)`, the map from key position to recorded entries, is the abstract value the lemmas speak about.

Files:

- `types.dfy` (module `MacroTypes`): the values the header declares.
  - Key codes, key positions and the `key_state` bits.
  - The UP/DOWN/TAP strokes and entries.
  - The controller states.
  - The items playback emits.
- `arena.dfy` (module `MacroArena`): the allocator as functions on the arena, and the lemmas about offsets, free space, `free`, `newSlot` and `prepareForRecording`.
- `recorder.dfy` (module `MacroRecorder`): `recordKeystroke` on one slot, and what a slot plays back as.
- `controller.dfy` (module `MacroController`): `eventHandlerHook` as a function on the whole plugin state, and the lemmas about it.
- `plugin.dfy` (module `OnTheFly`): the class `MacrosOnTheFly`.
  - Its fields are updated in place.
  - Its methods use the source's loops: the two `while (true)` walks and the `for` loop of `play`.
  - Each method is proved to do what the corresponding function specifies.
- `as_written.dfy` (module `AsWritten`): `newSlot` and `prepareForRecording` exactly as written, with a concrete input where they go wrong (see Findings).

## Model

| member | source | states |
|---|---|---|
| MacroTypes.StrokeOf | src/Kaleidoscope/MacrosOnTheFly.cpp:182 | Masking a key state with TAP stores a toggle-on as DOWN and a toggle-off as UP. The result is a valid stroke exactly when one of the pressed bits is set. |
| MacroController.PlayCode | src/Kaleidoscope/MacrosOnTheFly.h:25-26 | MACROPLAY is the code after MACROREC, so the two differ. |
| MacroArena.StartBound | src/Kaleidoscope/MacrosOnTheFly.cpp:94 | Every slot's span ends inside the arena, and the last one ends exactly at its total. |
| MacroArena.IndexOf | src/Kaleidoscope/MacrosOnTheFly.cpp:89-97 | Returns the first slot the key owns, or -1 exactly when no slot belongs to the key. |
| MacroArena.IndexAt | src/Kaleidoscope/MacrosOnTheFly.cpp:186-187 | Reading a header at an offset finds the slot that starts there, or -1 when no slot starts there. |
| MacroArena.IndexAtStart | src/Kaleidoscope/MacrosOnTheFly.cpp:92-94 | The offset the walk computes for slot k leads back to slot k. |
| MacroArena.FreeSpace | src/Kaleidoscope/MacrosOnTheFly.cpp:141-146 | An owned slot's free space is allocated minus used. A free, empty slot's free space is its whole span, header included. Free space is 0 exactly for a full owned slot. |
| MacroArena.Scan | src/Kaleidoscope/MacrosOnTheFly.cpp:129-138 | The walk of `getSlotWithMostFreeSpace` over the first n slots. While the best free space seen is 0, the winner stays slot 0. Once it is positive, the winner is one of the slots scanned. |
| MacroArena.ScanBest | src/Kaleidoscope/MacrosOnTheFly.cpp:125-139 | The scan's winner has the most free space of the slots scanned, and strictly more than every slot before it. With no free space anywhere the winner is slot 0. |
| MacroArena.MostFree | src/Kaleidoscope/MacrosOnTheFly.h:121 | The largest-free slot maximises free space, is the first such slot, and is slot 0 when no slot has free space. |
| MacroArena.Free | src/Kaleidoscope/MacrosOnTheFly.cpp:74-87 | Freeing slot 0 keeps its allocation and relabels it free and empty. Freeing any other slot grows the slot before it by the freed slot's whole span. |
| MacroArena.FreeTotal | src/Kaleidoscope/MacrosOnTheFly.cpp:81-86 | `free` keeps the spans tiling the same buffer. |
| MacroArena.FreeValid | src/Kaleidoscope/MacrosOnTheFly.cpp:74-87 | `free` keeps the arena invariant. |
| MacroArena.FreeMacros | src/Kaleidoscope/MacrosOnTheFly.cpp:74-87 | `free` removes exactly the freed key's macro and leaves every other key's macro unchanged. |
| MacroArena.FreeClears | src/Kaleidoscope/MacrosOnTheFly.cpp:61-66 | After `free`, the freed key owns no slot. |
| MacroArena.MacrosLookup | src/Kaleidoscope/MacrosOnTheFly.cpp:89-97 | A key has a macro exactly when `findSlot` finds a slot for it, and the macro is that slot's entries. |
| MacroArena.NewSlot | src/Kaleidoscope/MacrosOnTheFly.cpp:99-123 | Fails exactly when no slot has free space for a header and one entry. On success the key owns the new slot. |
| MacroArena.Place | src/Kaleidoscope/MacrosOnTheFly.cpp:102-122 | Once a slot has won, placement fails exactly when that slot's free space is below a header and one entry. On success the placed slot belongs to the key. |
| MacroArena.PlaceTotal | src/Kaleidoscope/MacrosOnTheFly.cpp:113-119 | Relabelling or splitting keeps the spans tiling the same buffer. |
| MacroArena.PlaceValid | src/Kaleidoscope/MacrosOnTheFly.cpp:104-121 | Relabelling or splitting keeps the arena invariant. |
| MacroArena.PlaceMacros | src/Kaleidoscope/MacrosOnTheFly.cpp:104-121 | The key gets an empty macro, and no other key's macro changes. This holds because a split winner keeps its used entries. |
| MacroArena.PlaceFinds | src/Kaleidoscope/MacrosOnTheFly.cpp:109-120 | The new slot is empty, has room for at least one entry, and is the slot `findSlot` then returns for the key. |
| MacroArena.PlaceOffset | src/Kaleidoscope/MacrosOnTheFly.cpp:114 | A relabelled slot keeps its offset. A split places the new slot right after the winner's header and used entries. |
| MacroArena.PlaceKeeps | src/Kaleidoscope/MacrosOnTheFly.cpp:104-121 | A free winner is only relabelled to the key. A split winner's allocation shrinks to its used entries. The new slot right after it belongs to the key, is empty, and gets the winner's free space minus one header. Every other slot is unchanged, shifted by one place after a split. |
| MacroArena.Prepare | src/Kaleidoscope/MacrosOnTheFly.cpp:59-72 | `prepareForRecording` keeps the arena invariant and the tiling. |
| MacroArena.Clear | src/Kaleidoscope/MacrosOnTheFly.cpp:60-65 | Freeing the key's old slot, if it has one, leaves the key with no slot and no macro. Every other key keeps its macro, and the arena stays valid over the same buffer. |
| MacroArena.PrepareSpec | src/Kaleidoscope/MacrosOnTheFly.cpp:59-72 | No old entries survive. On success the key owns exactly one slot, which is empty and at the returned offset. On failure the key owns nothing. It fails exactly when, after freeing, no slot has room for a header and one entry. Every other key keeps its macro. |
| MacroRecorder.EntryTrace | src/Kaleidoscope/MacrosOnTheFly.cpp:189-197 | DOWN plays a press, UP plays a release, and TAP plays a press then a release. Each is followed by a report. |
| MacroRecorder.PlayTrace | src/Kaleidoscope/MacrosOnTheFly.cpp:188-198 | The stream `play` emits for a slot: at most four items per entry, and an even number in all. |
| MacroRecorder.PlayTraceReports | src/Kaleidoscope/MacrosOnTheFly.cpp:190-197 | Every press or release in the stream is followed by a report: the reports are exactly the items at odd positions. |
| MacroRecorder.PlayTraceAppend | src/Kaleidoscope/MacrosOnTheFly.cpp:188 | Entries play back in stored order: playing a concatenation plays the first part, then the second. |
| MacroRecorder.PlayTraceEmpty | src/Kaleidoscope/MacrosOnTheFly.h:118 | A slot of valid strokes plays nothing exactly when it is empty. |
| MacroRecorder.Merges | src/Kaleidoscope/MacrosOnTheFly.cpp:163-166 | A release is merged only right after a DOWN entry of the same key. Such a release is one that recording does echo: the slot is not empty. |
| MacroRecorder.Record | src/Kaleidoscope/MacrosOnTheFly.cpp:148-184 | Recording fails exactly when the event needs a new entry and the slot is full. A non-toggle, or a release while the slot is empty, leaves the slot unchanged. A release right after a DOWN of the same key turns that entry into a TAP and adds nothing. Any other toggle appends the key with its state masked to DOWN or UP. Otherwise the owner and the allocation are unchanged and used stays within allocated. The slot stays empty exactly when it was empty and the event is not a toggle-on. |
| MacroRecorder.RecordTrace | src/Kaleidoscope/MacrosOnTheFly.cpp:156-183 | After a recorded event the slot plays back its old playback followed by that event's press or release. A release arriving while the slot is empty adds nothing, as does a non-toggle. |
| MacroRecorder.RecordAll | src/Kaleidoscope/MacrosOnTheFly.cpp:148-184 | Recording a series of events keeps the slot well formed, its owner and its allocation. |
| MacroRecorder.RecordAllTrace | src/Kaleidoscope/MacrosOnTheFly.cpp:148-200 | Round trip of recording and playback: a series that fits plays back as the old contents, then the series' presses and releases, with the releases before the first press dropped. |
| MacroRecorder.RecordTapThenDown | src/Kaleidoscope/MacrosOnTheFly.cpp:163-168 | Press X, release X, press Y is stored as TAP X, DOWN Y. It plays back as press X, release X, press Y, with no release of Y added. |
| MacroRecorder.RecordAt | src/Kaleidoscope/MacrosOnTheFly.cpp:173-182 | On success only the recording slot changes: it becomes the slot `Record` gives, in place, with the same allocation, owner and offset. On failure the arena is exactly `free` of the recording slot. The result is true exactly when `Record` succeeds. Either way the arena invariant and the tiling are kept. |
| MacroRecorder.RecordAtMacros | src/Kaleidoscope/MacrosOnTheFly.cpp:173-182 | A recorded event changes only the recording key's macro. A full slot loses the whole recording. |
| MacroController.PlayedAtTrace | src/Kaleidoscope/MacrosOnTheFly.cpp:199 | `play` returns true exactly when it emitted something. |
| MacroController.PlayAt | src/Kaleidoscope/MacrosOnTheFly.cpp:186-198 | `play` emits something only at an offset where a non-empty slot starts, and emits an even number of items. |
| MacroController.PlayedAt | src/Kaleidoscope/MacrosOnTheFly.cpp:199 | `play` returns true only at an offset where a slot starts. |
| MacroController.Hook | src/Kaleidoscope/MacrosOnTheFly.cpp:208-315 | Every event keeps the plugin invariant: a valid arena tiling the buffer; no recording while picking a recording slot; while recording, `recordingSlot` is the offset of a slot some key owns. |
| MacroController.ToggleRecording | src/Kaleidoscope/MacrosOnTheFly.cpp:258-263 | The record key in IDLE stops a running recording and otherwise starts picking a slot. Either way recording is off afterwards, and the arena, `recordingSlot` and `lastPlayedSlot` are untouched. |
| MacroController.PickForRec | src/Kaleidoscope/MacrosOnTheFly.cpp:235-250 | Picking a recording slot keeps the plugin invariant. |
| MacroController.PrepareOwned | src/Kaleidoscope/MacrosOnTheFly.cpp:67-71 | The recording slot handed out belongs to the key being recorded. |
| MacroController.RecordStep | src/Kaleidoscope/MacrosOnTheFly.cpp:268-280 | Recording an event keeps the invariant. It leaves the controller state, `recordingSlot` and `lastPlayedSlot` as they were. |
| MacroController.RecordStepSpec | src/Kaleidoscope/MacrosOnTheFly.cpp:274 | After a recorded event, the recording slot's playback grows by the event's echo and other keys' macros are untouched. A full slot drops the recording key's macro. |
| MacroController.PickForPlay | src/Kaleidoscope/MacrosOnTheFly.cpp:282-303 | Picking a slot to play keeps the plugin invariant. |
| MacroController.PickForPlaySpec | src/Kaleidoscope/MacrosOnTheFly.cpp:282-303 | A picked key plays its own macro, or nothing. The play key replays the last played slot. `lastPlayedSlot` changes only to the offset of the picked key's slot, after it played something. |
| MacroController.HookPickForRec | src/Kaleidoscope/MacrosOnTheFly.cpp:235-250 | While picking a recording slot, every event returns `Key_NoKey` and only a toggle-on leaves for IDLE. The play key never starts recording. Any other key is masked. When there is room, that key starts recording into an empty slot of its own, and no other key's macro changes. |
| MacroController.HookRecordKey | src/Kaleidoscope/MacrosOnTheFly.cpp:252-266 | The record key in IDLE always returns `Key_NoKey` and never touches the arena. Only a physical toggle-on acts: it stops recording if on, else it starts picking a slot. |
| MacroController.HookInjected | src/Kaleidoscope/MacrosOnTheFly.cpp:252-268 | Outside slot picking for recording, injected events change neither the arena nor the recording. |
| MacroController.HookReturns | src/Kaleidoscope/MacrosOnTheFly.cpp:235-314 | The hook returns `Key_NoKey` or the mapped key. It returns the mapped key, with no playback and no masking, exactly for keys other than MACROREC and MACROPLAY in IDLE. |
| MacroController.HookPlayKey | src/Kaleidoscope/MacrosOnTheFly.cpp:305-311 | MACROPLAY in IDLE returns `Key_NoKey` and plays and masks nothing. The state becomes PICKING_SLOT_FOR_PLAY exactly on a toggle-on, and stays IDLE otherwise. |
| MacroController.HookFrame | src/Kaleidoscope/MacrosOnTheFly.cpp:252-314 | An event that is neither recorded nor picking a recording slot leaves the arena and `recordingSlot` unchanged. `recording` changes only for the record key in IDLE. A key passed through leaves the whole plugin state unchanged. |
| MacroController.HookRecords | src/Kaleidoscope/MacrosOnTheFly.cpp:268-280 | While recording, a physical event extends the recording slot's playback by that event's press or release, and keeps `recordingSlot`. When the slot is full, the recording key's macro is gone and recording stops. |
| MacroController.HookPlays | src/Kaleidoscope/MacrosOnTheFly.cpp:282-303 | Picking a slot to play consumes the event. A toggle-on returns to IDLE and masks the key. MACROPLAY replays the last played slot; any other key plays its own macro, or nothing when it has none. |
| MacroController.HookLastPlayed | src/Kaleidoscope/MacrosOnTheFly.cpp:286-293 | `lastPlayedSlot` changes only after a successful play of a key other than MACROPLAY, and then holds the offset of that key's slot. |
| OnTheFly.MacrosOnTheFly.constructor | src/Kaleidoscope/MacrosOnTheFly.cpp:30-38 | The whole buffer starts as one free slot. The controller starts IDLE, not recording, with `lastPlayedSlot` 0, and the plugin invariant holds. |
| OnTheFly.MacrosOnTheFly.FindSlot | src/Kaleidoscope/MacrosOnTheFly.cpp:89-97 | The walk returns the offset of the first slot the key owns, or -1 exactly when it owns none. |
| OnTheFly.MacrosOnTheFly.PastLastHeader | src/Kaleidoscope/MacrosOnTheFly.cpp:94-95 | The walk's exit test `offset > STORAGE - header` holds exactly after the last slot. |
| OnTheFly.MacrosOnTheFly.GetSlotWithMostFreeSpace | src/Kaleidoscope/MacrosOnTheFly.cpp:125-139 | Returns the offset of the slot `MostFree` picks. |
| OnTheFly.MacrosOnTheFly.Free | src/Kaleidoscope/MacrosOnTheFly.cpp:74-87 | The arena becomes `Free` of the slot at the offset, keeps its invariant, and loses exactly that key's macro. |
| OnTheFly.MacrosOnTheFly.NewSlot | src/Kaleidoscope/MacrosOnTheFly.cpp:99-123 | Returns -1 with the arena unchanged when there is no room. Otherwise the arena becomes the placement `NewSlot` specifies, and the method returns the new slot's offset. |
| OnTheFly.MacrosOnTheFly.PrepareForRecording | src/Kaleidoscope/MacrosOnTheFly.cpp:59-72 | The arena and result follow `Prepare`. `recordingSlot` is set only on success. |
| OnTheFly.MacrosOnTheFly.RecordKeystroke | src/Kaleidoscope/MacrosOnTheFly.cpp:148-184 | The arena and result follow `RecordAt` on the recording slot. |
| OnTheFly.MacrosOnTheFly.Play | src/Kaleidoscope/MacrosOnTheFly.cpp:186-200 | Emits `PlayTrace` of the slot's entries, and returns true exactly when it emitted something. |
| OnTheFly.MacrosOnTheFly.EventHandlerHook | src/Kaleidoscope/MacrosOnTheFly.cpp:208-315 | Fields, returned key, playback and masking follow `Hook`, and the plugin invariant is kept. |
| OnTheFly.MacrosOnTheFly.PickSlotForRecording | src/Kaleidoscope/MacrosOnTheFly.cpp:235-250 | Follows `PickForRec`. |
| OnTheFly.MacrosOnTheFly.PickSlotForPlayback | src/Kaleidoscope/MacrosOnTheFly.cpp:282-303 | Follows `PickForPlay`. |
| AsWritten.NewSlotAsWritten | src/Kaleidoscope/MacrosOnTheFly.cpp:99-102 | The offset returned is never negative. On failure it is 0 and the arena is unchanged. |
| AsWritten.PrepareAsWritten | src/Kaleidoscope/MacrosOnTheFly.cpp:59-72 | As written, `prepareForRecording` always reports success. |
| AsWritten.PrepareAsWrittenLosesMacro | src/Kaleidoscope/MacrosOnTheFly.cpp:67-70 | On a full arena the corrected version fails, while the version as written reports success with another key's slot as the recording slot. The next key press then erases that key's macro. |

## Left out

- LED feedback is not modelled: `LED_*`, `FlashOverride`, the colour settings and `colorEffects` only drive LEDs.
- `begin` and `loopHook` are not modelled: they register hooks and draw LEDs.
- `debug_print` is not modelled.
- `KeyboardHardware.maskKey` is not called. The hook returns a `masked` flag instead.
- `handleKeyswitchEvent` and `sendKeyboardReport` are not called. `play` returns the sequence of presses, releases and reports it would send.
- The recursive re-entry of `eventHandlerHook` from injected playback events is not modelled. A nested macro's own playback does not appear in the trace.
- MacroController.HookPlays: the state it gives after playback ignores the events that playback injects. In the source each injected event runs through `eventHandlerHook` again, after the state has been set to IDLE. So a macro that ends by pressing MACROPLAY leaves the source in PICKING_SLOT_FOR_PLAY, where the model says IDLE. A macro that presses MACROPLAY and then another key also plays that key's macro and may move `lastPlayedSlot`; the model shows neither. The same holds for `MacroController.Hook`, `MacroController.PickForPlay`, `MacroController.PickForPlaySpec` and `OnTheFly.MacrosOnTheFly.EventHandlerHook`.
- Integer widths are not modelled: the `uint16_t` offsets, the `int16_t` results and the `uint8_t` loop counter of `play`. Sizes are unbounded, as if the buffer's offsets always fit.
- The slot header's byte layout is not modelled. Sizes are counted in whole entries, assuming `sizeof(Slot)` is a multiple of `sizeof(Entry)`. Bytes left at the end of the buffer that do not fill an entry are not modelled.
- The `Slot` layout that the cpp uses (`previousSlot`, `numAllocatedKeystrokes`, `numUsedKeystrokes`, inline entries) is not the one `MacrosOnTheFly.h` declares. The header's `Entry macroStorage[150]`, `slots[16]`, `macroStart` and `nextSlot` belong to a different storage scheme, which the cpp does not implement. The model follows the cpp.
- The header comment on `findSlot` is not followed: it says a miss returns an unassigned slot, but the cpp returns -1 and the model follows the cpp.
- MacroArena.Free: a slot's predecessor is the slot before it in address order. The source follows the stored `previousSlot` back-link, which can go stale because neither `newSlot` nor `free` updates the next slot's back-link. The model is therefore stronger than the source: tiling and "one slot per key" are proved for address-order predecessors only.
- OnTheFly.MacrosOnTheFly.Play: at an offset where no slot starts, it plays nothing and returns false. This happens when `lastPlayedSlot` has gone stale after later frees and splits. The source reads whatever bytes lie at that offset.
- OnTheFly.MacrosOnTheFly.PrepareForRecording: requires a key position other than `(255, 255)`. The source would write the free-slot marker as the new slot's owner.
- MacroController.Hook: requires that a toggle-on picking a recording slot is not at `(255, 255)`. That position is `UNKNOWN_KEYSWITCH_LOCATION`, which only injected events carry.
- OnTheFly.MacrosOnTheFly.EventHandlerHook: the same requirement as MacroController.Hook.
- OnTheFly.MacrosOnTheFly.constructor: requires a buffer at least one header long, and a record key code below 0xFFFF so that MACROPLAY exists. Both are compile-time facts in the source.
- The key codes of MACROREC and MACROPLAY are not given concrete values. They come from `Kaleidoscope-Ranges`, which is not part of this model, so they are constructor parameters.
- MacrosOnTheFly.cpp has no set of held keys and does not release held keys when playback ends. It does not handle modifiers specially, either while a slot is being picked or when choosing the slot key. The model has none of these either. `MacroRecorder.RecordTapThenDown` shows a recorded macro that ends with a key still held down.

## Findings

| source | as written | input that shows it | evidently intended | confidence | as-written member | corrected member |
|---|---|---|---|---|---|---|
| src/Kaleidoscope/MacrosOnTheFly.cpp:102 | `newSlot` reports "no room" with `return false`, which is offset 0. `prepareForRecording` (cpp:68) treats only a negative offset as failure, so it records into slot 0. | Header of 1 entry and buffer of 3. Key A owns the only slot, which is full with 2 entries. Pick key B for recording: `prepareForRecording` returns true with `recordingSlot` 0, which is A's slot. The next key pressed finds the slot full and frees it, so A's macro is lost. | `newSlot` returns -1 on failure, so that `prepareForRecording` returns false and no macro is touched | not executed | AsWritten.PrepareAsWrittenLosesMacro | MacroArena.PrepareSpec |
