/**
 * The specification of `eventHandlerHook` in MacrosOnTheFly.cpp: the plugin's
 * whole state as one value, and what one key event does to it.  The class in
 * module OnTheFly updates its fields in place and is proved to follow `Hook`.
 */
module MacroController {
  import opened MacroTypes
  import opened MacroArena
  import opened MacroRecorder

  /** The plugin's state: the arena, `currentState`, `recording`, `recordingSlot` and `lastPlayedSlot`. */
  datatype Ctl = Ctl(slots: seq<Slot>, state: State, recording: bool, recordingSlot: nat, lastPlayedSlot: nat)

  /** The index of the slot at offset `recordingSlot`, or -1. */
  function RecIndex(c: Ctl, h: nat): (k: int)
  {
    IndexAt(c.slots, h, c.recordingSlot)
  }

  /**
   * The plugin's invariant: the arena is valid and tiles `capacity` entries;
   * recording is off while a recording slot is being picked; while recording,
   * `recordingSlot` is the offset of a slot some key owns.
   */
  predicate CtlOk(c: Ctl, h: nat, capacity: nat)
  {
    && Valid(c.slots, h) && Total(c.slots, h) == capacity
    && (c.state == PickingSlotForRec ==> !c.recording)
    && (c.recording ==> RecIndex(c, h) >= 0 && c.slots[RecIndex(c, h)].owner != Unassigned)
  }

  /** The hook's outcome: the new state, the key it returns, what playback emitted, and whether it masked the key. */
  datatype Reaction = Reaction(ctl: Ctl, key: Key, trace: seq<TraceItem>, masked: bool)

  /** What `play(off)` emits: the entries of the slot at `off`; nothing when no slot starts there. */
  function PlayAt(slots: seq<Slot>, h: nat, off: int): (t: seq<TraceItem>)
    ensures t != [] ==> IndexAt(slots, h, off) >= 0 && slots[IndexAt(slots, h, off)].entries != []
    ensures |t| % 2 == 0
  {
    var k := IndexAt(slots, h, off);
    if k < 0 then [] else PlayTrace(slots[k].entries)
  }

  /** What `play(off)` returns: whether the slot at `off` holds any entry. */
  predicate PlayedAt(slots: seq<Slot>, h: nat, off: int)
    ensures PlayedAt(slots, h, off) ==> off >= 0 && IndexAt(slots, h, off) >= 0 && Start(slots, h, IndexAt(slots, h, off)) == off
  {
    var k := IndexAt(slots, h, off);
    k >= 0 && slots[k].entries != []
  }

  /** `play` reports success exactly when it emitted something. */
  lemma PlayedAtTrace(slots: seq<Slot>, h: nat, off: int)
    requires Valid(slots, h)
    ensures PlayedAt(slots, h, off) <==> PlayAt(slots, h, off) != []
  {
    var k := IndexAt(slots, h, off);
    if k >= 0 {
      assert SlotOk(slots[k]);
      PlayTraceEmpty(slots[k].entries);
    }
  }

  /** The events the model covers: picking a recording slot with the free-slot position (255, 255) is left out. */
  predicate Allowed(c: Ctl, macroPlay: Key, mappedKey: Key, pos: Pos, ks: KeyState)
  {
    c.state == PickingSlotForRec && ToggledOn(ks) && mappedKey != macroPlay ==> pos != Unassigned
  }

  /** The code of the play key: the one after the record key. */
  function PlayCode(macroRec: Key): (k: Key)
    requires macroRec < 0xFFFF
    ensures k != macroRec
  {
    macroRec + 1
  }

  /**
   * `eventHandlerHook`: the rules in source order.  Picking a recording slot
   * consumes every event; the record key in IDLE toggles recording; any other
   * physical event while recording is recorded and then handled like any
   * other; picking a slot to play consumes the event and plays; the play key
   * starts picking; anything else passes through.
   */
  function Hook(c: Ctl, h: nat, capacity: nat, macroRec: Key, mappedKey: Key, pos: Pos, ks: KeyState): (r: Reaction)
    requires CtlOk(c, h, capacity) && macroRec < 0xFFFF && Allowed(c, PlayCode(macroRec), mappedKey, pos, ks)
    ensures CtlOk(r.ctl, h, capacity)
  {
    var macroPlay := PlayCode(macroRec);
    if c.state == PickingSlotForRec then
      PickForRec(c, h, capacity, macroPlay, mappedKey, pos, ks)
    else if c.state == Idle && mappedKey == macroRec then
      Reaction(if ToggledOn(ks) && !ks.injected then ToggleRecording(c) else c, NoKey, [], false)
    else
      var c1 := if c.recording && !ks.injected then RecordStep(c, h, capacity, mappedKey, ks) else c;
      if c1.state == PickingSlotForPlay then
        PickForPlay(c1, h, capacity, macroPlay, mappedKey, pos, ks)
      else if mappedKey == macroPlay then
        Reaction(if ToggledOn(ks) then c1.(state := PickingSlotForPlay) else c1, NoKey, [], false)
      else
        Reaction(c1, mappedKey, [], false)
  }

  /** The record key pressed in IDLE: stop recording, or start picking a slot to record into. */
  function ToggleRecording(c: Ctl): (r: Ctl)
    ensures !r.recording && (c.recording ==> r.state == c.state) && (!c.recording ==> r.state == PickingSlotForRec)
    ensures r.slots == c.slots && r.recordingSlot == c.recordingSlot && r.lastPlayedSlot == c.lastPlayedSlot
  {
    if c.recording then c.(recording := false) else c.(state := PickingSlotForRec)
  }

  /** Picking a recording slot: the next key pressed other than the play key gets a fresh slot. */
  function PickForRec(c: Ctl, h: nat, capacity: nat, macroPlay: Key, mappedKey: Key, pos: Pos, ks: KeyState): (r: Reaction)
    requires CtlOk(c, h, capacity) && c.state == PickingSlotForRec && Allowed(c, macroPlay, mappedKey, pos, ks)
    ensures CtlOk(r.ctl, h, capacity)
  {
    if !ToggledOn(ks) then Reaction(c, NoKey, [], false)
    else if mappedKey == macroPlay then Reaction(c.(state := Idle), NoKey, [], false)
    else
      var p := Prepare(c.slots, h, pos);
      PrepareOwned(c.slots, h, pos);
      var c' := c.(state := Idle, slots := p.slots, recording := p.slot.Some?,
                   recordingSlot := if p.slot.Some? then p.slot.value else c.recordingSlot);
      assert p.slot.Some? ==> c'.slots[RecIndex(c', h)].owner == pos;
      Reaction(c', NoKey, [], true)
  }

  /** The recording slot `prepareForRecording` hands out belongs to the key being recorded. */
  lemma PrepareOwned(slots: seq<Slot>, h: nat, p: Pos)
    requires Valid(slots, h) && p != Unassigned
    ensures var r := Prepare(slots, h, p);
      r.slot.Some? ==> IndexAt(r.slots, h, r.slot.value) >= 0 && r.slots[IndexAt(r.slots, h, r.slot.value)].owner == p
  {
    PrepareSpec(slots, h, p);
  }

  /** A physical event while recording goes into the recording slot; recording stops when it does not fit. */
  function RecordStep(c: Ctl, h: nat, capacity: nat, key: Key, ks: KeyState): (r: Ctl)
    requires CtlOk(c, h, capacity) && c.recording
    ensures CtlOk(r, h, capacity)
    ensures r.state == c.state && r.recordingSlot == c.recordingSlot && r.lastPlayedSlot == c.lastPlayedSlot
  {
    var k := RecIndex(c, h);
    var after := RecordAt(c.slots, h, k, key, ks);
    var r := c.(slots := after.0, recording := after.1);
    assert after.1 ==> RecIndex(r, h) == k by {
      if after.1 { IndexAtStart(after.0, h, k); }
    }
    r
  }

  /** Picking a slot to play: the play key replays the last played slot, any other key its own slot. */
  function PickForPlay(c: Ctl, h: nat, capacity: nat, macroPlay: Key, mappedKey: Key, pos: Pos, ks: KeyState): (r: Reaction)
    requires CtlOk(c, h, capacity) && c.state == PickingSlotForPlay
    ensures CtlOk(r.ctl, h, capacity)
  {
    if !ToggledOn(ks) then Reaction(c, NoKey, [], false)
    else
      var c' := c.(state := Idle);
      if mappedKey == macroPlay then
        Reaction(c', NoKey, PlayAt(c.slots, h, c.lastPlayedSlot), true)
      else
        var k := IndexOf(c.slots, pos);
        if k < 0 then Reaction(c', NoKey, [], true)
        else
          var off := Start(c.slots, h, k);
          Reaction(if PlayedAt(c.slots, h, off) then c'.(lastPlayedSlot := off) else c', NoKey, PlayAt(c.slots, h, off), true)
  }

  // ---------------------------------------------------------------------------
  // What the hook promises

  /**
   * Picking a recording slot consumes every event and leaves the state only
   * on a toggle-on.  The play key cannot be picked.  Any other key frees its
   * old macro and, when there is room, starts recording into an empty slot
   * of its own; no other key's macro changes.
   */
  lemma HookPickForRec(c: Ctl, h: nat, capacity: nat, macroRec: Key, mappedKey: Key, pos: Pos, ks: KeyState)
    requires CtlOk(c, h, capacity) && macroRec < 0xFFFF && Allowed(c, PlayCode(macroRec), mappedKey, pos, ks)
    requires c.state == PickingSlotForRec
    ensures var r := Hook(c, h, capacity, macroRec, mappedKey, pos, ks);
      && r.key == NoKey && r.trace == []
      && (r.ctl.state == Idle <==> ToggledOn(ks))
      && (!ToggledOn(ks) ==> r.ctl == c)
      && (mappedKey == PlayCode(macroRec) ==> !r.ctl.recording && r.ctl.slots == c.slots)
      && (ToggledOn(ks) && mappedKey != PlayCode(macroRec) ==>
            && r.masked
            && (r.ctl.recording <==> Prepare(c.slots, h, pos).slot.Some?)
            && (r.ctl.recording ==> IndexOf(r.ctl.slots, pos) == RecIndex(r.ctl, h))
            && (r.ctl.recording ==> Macros(r.ctl.slots) == (Macros(c.slots) - {pos})[pos := []])
            && (!r.ctl.recording ==> Macros(r.ctl.slots) == Macros(c.slots) - {pos}))
  {
    if ToggledOn(ks) && mappedKey != PlayCode(macroRec) {
      PrepareSpec(c.slots, h, pos);
    }
  }

  /**
   * The record key in IDLE is always consumed and never touches the arena;
   * only a physical toggle-on acts, stopping a recording or else starting to
   * pick a slot.
   */
  lemma HookRecordKey(c: Ctl, h: nat, capacity: nat, macroRec: Key, pos: Pos, ks: KeyState)
    requires CtlOk(c, h, capacity) && macroRec < 0xFFFF && Allowed(c, PlayCode(macroRec), macroRec, pos, ks)
    requires c.state == Idle
    ensures var r := Hook(c, h, capacity, macroRec, macroRec, pos, ks);
      && r.key == NoKey && r.trace == [] && !r.masked && r.ctl.slots == c.slots
      && (ToggledOn(ks) && !ks.injected && c.recording ==> !r.ctl.recording && r.ctl.state == Idle)
      && (ToggledOn(ks) && !ks.injected && !c.recording ==> r.ctl.state == PickingSlotForRec)
      && (!ToggledOn(ks) || ks.injected ==> r.ctl == c)
  {
  }

  /** Injected events are never recorded: outside slot picking for recording they leave the arena and the recording as they were. */
  lemma HookInjected(c: Ctl, h: nat, capacity: nat, macroRec: Key, mappedKey: Key, pos: Pos, ks: KeyState)
    requires CtlOk(c, h, capacity) && macroRec < 0xFFFF && Allowed(c, PlayCode(macroRec), mappedKey, pos, ks)
    requires ks.injected && c.state != PickingSlotForRec
    ensures var r := Hook(c, h, capacity, macroRec, mappedKey, pos, ks);
      r.ctl.slots == c.slots && r.ctl.recording == c.recording && r.ctl.recordingSlot == c.recordingSlot
  {
  }

  /**
   * The hook returns either `Key_NoKey` or the mapped key unchanged, and the
   * latter exactly for keys other than the record and play keys in IDLE.
   */
  lemma HookReturns(c: Ctl, h: nat, capacity: nat, macroRec: Key, mappedKey: Key, pos: Pos, ks: KeyState)
    requires CtlOk(c, h, capacity) && macroRec < 0xFFFF && Allowed(c, PlayCode(macroRec), mappedKey, pos, ks)
    ensures var r := Hook(c, h, capacity, macroRec, mappedKey, pos, ks);
      && (r.key == NoKey || r.key == mappedKey)
      && (r.key != NoKey ==> c.state == Idle && mappedKey != macroRec && mappedKey != PlayCode(macroRec))
      && (c.state == Idle && mappedKey != macroRec && mappedKey != PlayCode(macroRec) ==>
            r.key == mappedKey && r.trace == [] && !r.masked && r.ctl.state == Idle)
  {
  }

  /**
   * The play key in IDLE: the event is consumed with nothing played and
   * nothing masked, and only a toggle-on starts picking a slot to play.
   */
  lemma HookPlayKey(c: Ctl, h: nat, capacity: nat, macroRec: Key, pos: Pos, ks: KeyState)
    requires CtlOk(c, h, capacity) && macroRec < 0xFFFF && Allowed(c, PlayCode(macroRec), PlayCode(macroRec), pos, ks)
    requires c.state == Idle
    ensures var r := Hook(c, h, capacity, macroRec, PlayCode(macroRec), pos, ks);
      && r.key == NoKey && r.trace == [] && !r.masked
      && (r.ctl.state == PickingSlotForPlay <==> ToggledOn(ks))
      && (!ToggledOn(ks) ==> r.ctl.state == Idle)
  {
  }

  /**
   * Events that are not recorded and do not pick a recording slot leave the
   * arena and `recordingSlot` alone; `recording` changes only when the record
   * key is pressed in IDLE.  In particular a passed-through key changes nothing
   * but what it returns.
   */
  lemma HookFrame(c: Ctl, h: nat, capacity: nat, macroRec: Key, mappedKey: Key, pos: Pos, ks: KeyState)
    requires CtlOk(c, h, capacity) && macroRec < 0xFFFF && Allowed(c, PlayCode(macroRec), mappedKey, pos, ks)
    requires c.state != PickingSlotForRec && !(c.recording && !ks.injected)
    ensures var r := Hook(c, h, capacity, macroRec, mappedKey, pos, ks);
      && r.ctl.slots == c.slots && r.ctl.recordingSlot == c.recordingSlot
      && (r.ctl.recording == c.recording || (c.state == Idle && mappedKey == macroRec))
      && (r.key == mappedKey && mappedKey != NoKey ==> r.ctl == c)
  {
    if c.state == PickingSlotForPlay {
      PickForPlaySpec(c, h, capacity, PlayCode(macroRec), mappedKey, pos, ks);
    }
  }

  /**
   * While recording, a physical event that reaches the recorder extends what
   * the recording slot plays back by that event's press or release and
   * changes no other key's macro; when it does not fit, the recording key's
   * macro is gone and recording stops.
   */
  lemma HookRecords(c: Ctl, h: nat, capacity: nat, macroRec: Key, mappedKey: Key, pos: Pos, ks: KeyState)
    requires CtlOk(c, h, capacity) && macroRec < 0xFFFF && Allowed(c, PlayCode(macroRec), mappedKey, pos, ks)
    requires c.recording && !ks.injected && c.state != PickingSlotForRec && !(c.state == Idle && mappedKey == macroRec)
    ensures var r := Hook(c, h, capacity, macroRec, mappedKey, pos, ks);
      var k := RecIndex(c, h);
      var o := c.slots[k].owner;
      && r.ctl.recordingSlot == c.recordingSlot
      && (r.ctl.recording ==> PlayAt(r.ctl.slots, h, c.recordingSlot)
                               == PlayAt(c.slots, h, c.recordingSlot) + Echo(c.slots[k].entries == [], mappedKey, ks))
      && (r.ctl.recording ==> Macros(r.ctl.slots) - {o} == Macros(c.slots) - {o})
      && (!r.ctl.recording ==> Macros(r.ctl.slots) == Macros(c.slots) - {o})
  {
    var c1 := RecordStep(c, h, capacity, mappedKey, ks);
    var r := Hook(c, h, capacity, macroRec, mappedKey, pos, ks);
    assert r.ctl.slots == c1.slots && r.ctl.recording == c1.recording && r.ctl.recordingSlot == c1.recordingSlot;
    RecordStepSpec(c, h, capacity, mappedKey, ks);
  }

  /** `RecordStep` as seen from the recording slot's playback and from the macros. */
  lemma RecordStepSpec(c: Ctl, h: nat, capacity: nat, key: Key, ks: KeyState)
    requires CtlOk(c, h, capacity) && c.recording
    ensures var r := RecordStep(c, h, capacity, key, ks);
      var k := RecIndex(c, h);
      var o := c.slots[k].owner;
      && (r.recording ==> PlayAt(r.slots, h, c.recordingSlot)
                           == PlayAt(c.slots, h, c.recordingSlot) + Echo(c.slots[k].entries == [], key, ks))
      && (r.recording ==> Macros(r.slots) - {o} == Macros(c.slots) - {o})
      && (!r.recording ==> Macros(r.slots) == Macros(c.slots) - {o})
  {
    var k := RecIndex(c, h);
    var o := c.slots[k].owner;
    var after := RecordAt(c.slots, h, k, key, ks);
    RecordAtMacros(c.slots, h, k, key, ks);
    if after.1 {
      IndexAtStart(after.0, h, k);
      RecordTrace(c.slots[k], key, ks);
      var m := Macros(c.slots);
      assert m[o := Record(c.slots[k], key, ks).value.entries] - {o} == m - {o};
    }
  }

  /**
   * Picking a slot to play consumes the event.  A toggle-on returns to IDLE
   * and masks the key; the play key replays the last played slot, any other
   * key plays its own macro, or nothing when it has none.
   */
  lemma HookPlays(c: Ctl, h: nat, capacity: nat, macroRec: Key, mappedKey: Key, pos: Pos, ks: KeyState)
    requires CtlOk(c, h, capacity) && macroRec < 0xFFFF && Allowed(c, PlayCode(macroRec), mappedKey, pos, ks)
    requires c.state == PickingSlotForPlay
    ensures var r := Hook(c, h, capacity, macroRec, mappedKey, pos, ks);
      && r.key == NoKey
      && (r.ctl.state == Idle <==> ToggledOn(ks))
      && (ToggledOn(ks) ==> r.masked)
      && (!ToggledOn(ks) ==> r.trace == [])
      && (ToggledOn(ks) && mappedKey == PlayCode(macroRec) ==> r.trace == PlayAt(r.ctl.slots, h, c.lastPlayedSlot))
      && (ToggledOn(ks) && mappedKey != PlayCode(macroRec) ==>
            r.trace == if pos in Macros(r.ctl.slots) then PlayTrace(Macros(r.ctl.slots)[pos]) else [])
  {
    var c1 := if c.recording && !ks.injected then RecordStep(c, h, capacity, mappedKey, ks) else c;
    assert Hook(c, h, capacity, macroRec, mappedKey, pos, ks) == PickForPlay(c1, h, capacity, PlayCode(macroRec), mappedKey, pos, ks);
    PickForPlaySpec(c1, h, capacity, PlayCode(macroRec), mappedKey, pos, ks);
  }

  /** `PickForPlay` as seen from the macros: a picked key plays its own macro. */
  lemma PickForPlaySpec(c: Ctl, h: nat, capacity: nat, macroPlay: Key, mappedKey: Key, pos: Pos, ks: KeyState)
    requires CtlOk(c, h, capacity) && c.state == PickingSlotForPlay
    ensures var r := PickForPlay(c, h, capacity, macroPlay, mappedKey, pos, ks);
      && r.ctl.slots == c.slots
      && (r.ctl.state == Idle <==> ToggledOn(ks))
      && (ToggledOn(ks) ==> r.masked)
      && (!ToggledOn(ks) ==> r.trace == [] && r.ctl == c)
      && (ToggledOn(ks) && mappedKey == macroPlay ==> r.trace == PlayAt(c.slots, h, c.lastPlayedSlot))
      && (ToggledOn(ks) && mappedKey != macroPlay ==>
            r.trace == if pos in Macros(c.slots) then PlayTrace(Macros(c.slots)[pos]) else [])
      && (r.ctl.lastPlayedSlot != c.lastPlayedSlot ==>
            && ToggledOn(ks) && mappedKey != macroPlay && r.trace != []
            && IndexAt(c.slots, h, r.ctl.lastPlayedSlot) == IndexOf(c.slots, pos) >= 0)
  {
    var slots := c.slots;
    if ToggledOn(ks) && mappedKey != macroPlay {
      var k := IndexOf(slots, pos);
      if pos == Unassigned {
        if k >= 0 {
          assert k == 0 && SlotOk(slots[0]);
        }
      } else {
        MacrosLookup(slots, pos);
      }
      if k >= 0 {
        IndexAtStart(slots, h, k);
        PlayedAtTrace(slots, h, Start(slots, h, k));
      }
    }
  }

  /**
   * `lastPlayedSlot` changes only when a key other than the play key was
   * picked and its macro played something; it then holds the offset of that
   * key's slot.
   */
  lemma HookLastPlayed(c: Ctl, h: nat, capacity: nat, macroRec: Key, mappedKey: Key, pos: Pos, ks: KeyState)
    requires CtlOk(c, h, capacity) && macroRec < 0xFFFF && Allowed(c, PlayCode(macroRec), mappedKey, pos, ks)
    ensures var r := Hook(c, h, capacity, macroRec, mappedKey, pos, ks);
      r.ctl.lastPlayedSlot != c.lastPlayedSlot ==>
        && c.state == PickingSlotForPlay && ToggledOn(ks) && mappedKey != PlayCode(macroRec)
        && r.trace != []
        && IndexAt(r.ctl.slots, h, r.ctl.lastPlayedSlot) == IndexOf(r.ctl.slots, pos) >= 0
  {
    if c.state == PickingSlotForPlay {
      var c1 := if c.recording && !ks.injected then RecordStep(c, h, capacity, mappedKey, ks) else c;
      assert Hook(c, h, capacity, macroRec, mappedKey, pos, ks) == PickForPlay(c1, h, capacity, PlayCode(macroRec), mappedKey, pos, ks);
      PickForPlaySpec(c1, h, capacity, PlayCode(macroRec), mappedKey, pos, ks);
    }
  }
}
