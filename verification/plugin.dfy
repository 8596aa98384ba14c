/**
 * The MacrosOnTheFly plugin as the source writes it: one object whose fields
 * (`macroStorage`, `currentState`, `recording`, `recordingSlot`,
 * `lastPlayedSlot`) its methods update in place.  `slots` stands for the
 * contents of `macroStorage`; each method is proved to do what the function
 * of the same name in MacroArena, MacroRecorder or MacroController specifies.
 */
module OnTheFly {
  import opened MacroTypes
  import opened MacroArena
  import opened MacroRecorder
  import opened MacroController

  class MacrosOnTheFly {
    /** `sizeof(Slot)` in entries. */
    const Header: nat
    /** `STORAGE_SIZE_IN_BYTES` in entries. */
    const Capacity: nat
    /** The key codes `MACROREC` and `MACROPLAY`. */
    const MacroRec: Key
    const MacroPlay: Key

    var slots: seq<Slot>
    var currentState: State
    var recording: bool
    var recordingSlot: nat
    var lastPlayedSlot: nat

    /** The fields as one value. */
    function Snapshot(): Ctl
      reads this
    {
      Ctl(slots, currentState, recording, recordingSlot, lastPlayedSlot)
    }

    /** The arena tiles the buffer and satisfies the slot invariants. */
    predicate ArenaOk()
      reads this
    {
      MacroArena.Valid(slots, Header) && Total(slots, Header) == Capacity
    }

    predicate Valid()
      reads this
    {
      CtlOk(Snapshot(), Header, Capacity) && MacroRec < 0xFFFF && MacroPlay == PlayCode(MacroRec)
    }

    /** The whole buffer starts as one free slot; IDLE, not recording, last played slot 0. */
    constructor (header: nat, capacity: nat, macroRec: Key)
      requires 1 <= header <= capacity && macroRec < 0xFFFF
      ensures Valid()
      ensures Header == header && Capacity == capacity && MacroRec == macroRec
      ensures slots == [Slot(Unassigned, capacity - header, [])]
      ensures currentState == Idle && !recording && lastPlayedSlot == 0
    {
      Header, Capacity := header, capacity;
      MacroRec, MacroPlay := macroRec, macroRec + 1;
      slots := [Slot(Unassigned, capacity - header, [])];
      currentState, recording := Idle, false;
      recordingSlot, lastPlayedSlot := 0, 0;
      new;
      assert slots[1..] == [];
      assert Total(slots, Header) == Capacity;
      assert MacroArena.Valid(slots, Header);
    }

    /**
     * `findSlot`: walks the chain from offset 0 and returns the offset of the
     * first slot `p` owns, or -1 once the walk has passed the last header.
     */
    method FindSlot(p: Pos) returns (index: int)
      requires ArenaOk()
      ensures index < 0 <==> IndexOf(slots, p) < 0
      ensures index >= 0 ==> index == Start(slots, Header, IndexOf(slots, p))
      ensures index >= 0 ==> IndexAt(slots, Header, index) == IndexOf(slots, p)
    {
      var i: nat := 0;
      var offset: nat := 0;
      while true
        invariant i < |slots| && offset == Start(slots, Header, i)
        invariant forall j | 0 <= j < i :: slots[j].owner != p
        decreases |slots| - i
      {
        if slots[i].owner == p {
          IndexAtStart(slots, Header, i);
          return offset;
        }
        PastLastHeader(i);
        offset := offset + Header + slots[i].allocatedSize;
        if offset > Capacity - Header {
          return -1;
        }
        i := i + 1;
      }
    }

    /**
     * One step of the walk: past slot `i` lies the start of the next slot, and
     * that passes `Capacity - Header` exactly when slot `i` was the last.
     */
    lemma PastLastHeader(i: nat)
      requires ArenaOk() && i < |slots|
      ensures Start(slots, Header, i) + Span(slots[i], Header) == Start(slots, Header, i + 1)
      ensures Start(slots, Header, i) + Span(slots[i], Header) > Capacity - Header <==> i + 1 == |slots|
    {
      StartNext(slots, Header, i);
      StartBound(slots, Header, i);
      if i + 1 < |slots| {
        StartBound(slots, Header, i + 1);
      }
    }

    /**
     * `getSlotWithMostFreeSpace`: the offset of the first slot with the most
     * free space, or 0 when no slot has any.
     */
    method GetSlotWithMostFreeSpace() returns (winningSlot: nat)
      requires ArenaOk()
      ensures winningSlot == Start(slots, Header, MostFree(slots, Header))
      ensures IndexAt(slots, Header, winningSlot) == MostFree(slots, Header)
    {
      var winningFreeSpace: nat := 0;
      winningSlot := 0;
      ghost var w: nat := 0;
      var i: nat := 0;
      var index: nat := 0;
      while true
        invariant i < |slots| && index == Start(slots, Header, i)
        invariant w <= i && w == Scan(slots, Header, i).0 && winningFreeSpace == Scan(slots, Header, i).1
        invariant winningSlot == Start(slots, Header, w)
        decreases |slots| - i
      {
        var freeSpace := FreeSpace(slots[i], Header);
        if freeSpace > winningFreeSpace {
          winningSlot, w := index, i;
          winningFreeSpace := freeSpace;
        }
        PastLastHeader(i);
        index := index + Header + slots[i].allocatedSize;
        if index > Capacity - Header {
          IndexAtStart(slots, Header, w);
          return winningSlot;
        }
        i := i + 1;
      }
    }

    /**
     * `free`: the slot at `index` gives up its macro.  Slot 0 is relabelled
     * free and emptied; any other slot's span goes to the slot before it.
     */
    method Free(index: nat)
      requires ArenaOk() && IndexAt(slots, Header, index) >= 0
      modifies this`slots
      ensures slots == MacroArena.Free(old(slots), Header, IndexAt(old(slots), Header, index))
      ensures ArenaOk()
      ensures Macros(slots) == Macros(old(slots)) - {old(slots)[IndexAt(old(slots), Header, index)].owner}
    {
      var k := IndexAt(slots, Header, index);
      FreeValid(slots, Header, k);
      FreeTotal(slots, Header, k);
      FreeMacros(slots, Header, k);
      if index == 0 {
        IndexAtZero(slots, Header);
        slots := slots[0 := slots[0].(owner := Unassigned, entries := [])];
      } else {
        assert k != 0;
        var previous := slots[k - 1];
        slots := slots[..k - 1] + [previous.(allocatedSize := previous.allocatedSize + Header + slots[k].allocatedSize)] + slots[k + 1..];
      }
    }

    /**
     * `newSlot`: `p` gets the free slot, or a new slot carved out of the free
     * space of the slot with the most; -1 when that is less than a header and
     * one entry.
     */
    method NewSlot(p: Pos) returns (index: int)
      requires ArenaOk() && p != Unassigned && IndexOf(slots, p) < 0
      modifies this`slots
      ensures var r := MacroArena.NewSlot(old(slots), Header, p);
        && (r.None? ==> index == -1 && slots == old(slots))
        && (r.Some? ==> slots == r.value.slots && index == Start(slots, Header, r.value.index))
      ensures ArenaOk()
    {
      ghost var w := MostFree(slots, Header);
      var winningSlot := GetSlotWithMostFreeSpace();
      IndexAtStart(slots, Header, w);
      var k := IndexAt(slots, Header, winningSlot);
      var slot := slots[k];
      var freeSpace := FreeSpace(slot, Header);
      if freeSpace < Header + 1 {
        return -1;
      }
      NewSlotPlaceOk(slots, Header, p);
      PlaceValid(slots, Header, p, k);
      PlaceTotal(slots, Header, p, k);
      PlaceOffset(slots, Header, p, k);
      if slot.owner == Unassigned {
        slots := slots[..k] + [slot.(owner := p)] + slots[k + 1..];
        return winningSlot;
      } else {
        var newIndex := winningSlot + Header + |slot.entries|;
        slots := slots[..k] + [slot.(allocatedSize := |slot.entries|), Slot(p, freeSpace - Header, [])] + slots[k + 1..];
        return newIndex;
      }
    }

    /**
     * `prepareForRecording`: frees the macro `p` had, then asks for a new
     * slot; on success the new slot's offset becomes `recordingSlot`.
     */
    method PrepareForRecording(p: Pos) returns (ok: bool)
      requires ArenaOk() && p != Unassigned
      modifies this`slots, this`recordingSlot
      ensures var r := Prepare(old(slots), Header, p);
        && slots == r.slots && ok == r.slot.Some?
        && recordingSlot == (if ok then r.slot.value else old(recordingSlot))
      ensures ArenaOk()
    {
      var index := FindSlot(p);
      if index >= 0 {
        Free(index);
        FreeClears(old(slots), Header, IndexOf(old(slots), p));
      }
      assert slots == Clear(old(slots), Header, p);
      index := NewSlot(p);
      if index < 0 {
        return false;
      }
      recordingSlot := index;
      return true;
    }

    /**
     * `recordKeystroke`: adds the event to the recording slot (or merges a
     * release into the preceding press); when the slot is full it is freed and
     * the result is false.
     */
    method RecordKeystroke(key: Key, ks: KeyState) returns (ok: bool)
      requires ArenaOk()
      requires IndexAt(slots, Header, recordingSlot) >= 0 && slots[IndexAt(slots, Header, recordingSlot)].owner != Unassigned
      modifies this`slots
      ensures (slots, ok) == RecordAt(old(slots), Header, IndexAt(old(slots), Header, recordingSlot), key, ks)
      ensures ArenaOk()
    {
      var k := IndexAt(slots, Header, recordingSlot);
      var slot := slots[k];
      assert slots[k := slot] == slots;
      if !ToggledOn(ks) && !ToggledOff(ks) {
        return true;
      }
      var used := |slot.entries|;
      if ToggledOff(ks) {
        if used == 0 {
          return true;
        } else {
          var previous := slot.entries[used - 1];
          if previous.key == key && previous.stroke == Down {
            slots := slots[k := slot.(entries := slot.entries[used - 1 := previous.(stroke := Tap)])];
            assert slot.entries[used - 1 := previous.(stroke := Tap)] == slot.entries[..used - 1] + [Entry(key, Tap)];
            return true;
          }
        }
      }
      if used == slot.allocatedSize {
        Free(recordingSlot);
        return false;
      }
      slots := slots[k := slot.(entries := slot.entries + [Entry(key, StrokeOf(ks))])];
      return true;
    }

    /**
     * `play`: for each entry of the slot at `index`, in order, a press and a
     * report if the DOWN bit is set, then a release and a report if the UP bit
     * is set.  True when the slot held any entry.
     */
    method Play(index: nat) returns (played: bool, trace: seq<TraceItem>)
      requires ArenaOk()
      ensures trace == PlayAt(slots, Header, index)
      ensures played == PlayedAt(slots, Header, index)
      ensures played <==> trace != []
    {
      var k := IndexAt(slots, Header, index);
      trace := [];
      if k < 0 {
        return false, trace;
      }
      var entries := slots[k].entries;
      for i := 0 to |entries|
        invariant trace == PlayTrace(entries[..i])
      {
        var entry := entries[i];
        if entry.stroke.down {
          trace := trace + [Press(entry.key), SendReport];
        }
        if entry.stroke.up {
          trace := trace + [Release(entry.key), SendReport];
        }
        assert entries[..i + 1][..i] == entries[..i];
      }
      assert entries[..|entries|] == entries;
      PlayedAtTrace(slots, Header, index);
      played := |entries| > 0;
    }

    /**
     * `eventHandlerHook`: handles one key event and returns the key to pass
     * on, the events playback injected, and whether the key was masked.
     */
    method EventHandlerHook(mappedKey: Key, pos: Pos, ks: KeyState) returns (r: Key, trace: seq<TraceItem>, masked: bool)
      requires Valid() && Allowed(Snapshot(), MacroPlay, mappedKey, pos, ks)
      modifies this
      ensures Valid()
      ensures Reaction(Snapshot(), r, trace, masked) == Hook(old(Snapshot()), Header, Capacity, MacroRec, mappedKey, pos, ks)
    {
      trace, masked := [], false;
      if currentState == PickingSlotForRec {
        masked := PickSlotForRecording(mappedKey, pos, ks);
        return NoKey, trace, masked;
      }

      if currentState == Idle && mappedKey == MacroRec {
        if ToggledOn(ks) && !ks.injected {
          if recording {
            recording := false;
          } else {
            currentState := PickingSlotForRec;
          }
        }
        return NoKey, trace, masked;
      }

      if recording && !ks.injected {
        recording := RecordKeystroke(mappedKey, ks);
        assert Snapshot() == RecordStep(old(Snapshot()), Header, Capacity, mappedKey, ks);
      }

      if currentState == PickingSlotForPlay {
        trace, masked := PickSlotForPlayback(mappedKey, pos, ks);
        return NoKey, trace, masked;
      }

      if mappedKey == MacroPlay {
        if ToggledOn(ks) {
          currentState := PickingSlotForPlay;
        }
        return NoKey, trace, masked;
      }

      return mappedKey, trace, masked;
    }

    /** The first rule of `eventHandlerHook`: the event picks the slot to record into. */
    method PickSlotForRecording(mappedKey: Key, pos: Pos, ks: KeyState) returns (masked: bool)
      requires CtlOk(Snapshot(), Header, Capacity) && currentState == PickingSlotForRec && Allowed(Snapshot(), MacroPlay, mappedKey, pos, ks)
      modifies this`slots, this`recordingSlot, this`recording, this`currentState
      ensures Reaction(Snapshot(), NoKey, [], masked) == PickForRec(old(Snapshot()), Header, Capacity, MacroPlay, mappedKey, pos, ks)
    {
      ghost var c := Snapshot();
      masked := false;
      if ToggledOn(ks) {
        if mappedKey != MacroPlay {
          recording := PrepareForRecording(pos);
          masked := true;
          ghost var p := Prepare(c.slots, Header, pos);
          assert Snapshot().(state := Idle) == c.(state := Idle, slots := p.slots, recording := p.slot.Some?,
                   recordingSlot := if p.slot.Some? then p.slot.value else c.recordingSlot);
        }
        currentState := Idle;
      }
    }

    /** The playback rule of `eventHandlerHook`: the event picks the slot to play. */
    method PickSlotForPlayback(mappedKey: Key, pos: Pos, ks: KeyState) returns (trace: seq<TraceItem>, masked: bool)
      requires CtlOk(Snapshot(), Header, Capacity) && currentState == PickingSlotForPlay
      modifies this`currentState, this`lastPlayedSlot
      ensures Reaction(Snapshot(), NoKey, trace, masked) == PickForPlay(old(Snapshot()), Header, Capacity, MacroPlay, mappedKey, pos, ks)
    {
      trace, masked := [], false;
      if ToggledOn(ks) {
        currentState := Idle;
        var success: bool;
        if mappedKey == MacroPlay {
          success, trace := Play(lastPlayedSlot);
        } else {
          var index := FindSlot(pos);
          if index >= 0 {
            success, trace := Play(index);
          } else {
            success := false;
          }
          if success {
            lastPlayedSlot := index;
          }
        }
        masked := true;
      }
    }
  }
}
