/**
 * `newSlot` and `prepareForRecording` exactly as MacrosOnTheFly.cpp writes
 * them.  `newSlot` is declared to return a signed offset but reports failure
 * with `return false`, that is offset 0, while `prepareForRecording` treats
 * only a negative offset as failure.  The rest of the model uses the
 * corrected `MacroArena.NewSlot`, whose failure is a distinct result.
 */
module AsWritten {
  import opened MacroTypes
  import opened MacroArena
  import opened MacroRecorder

  /** `newSlot` as written: the new arena and the offset returned, which is 0 on failure. */
  function NewSlotAsWritten(slots: seq<Slot>, h: nat, p: Pos): (r: (seq<Slot>, int))
    requires |slots| >= 1 && Fits(slots)
    ensures r.1 >= 0
    ensures MacroArena.NewSlot(slots, h, p).None? ==> r == (slots, 0)
  {
    match MacroArena.NewSlot(slots, h, p)
    case None => (slots, 0)
    case Some(pl) => (pl.slots, Start(pl.slots, h, pl.index))
  }

  /** `prepareForRecording` as written: it fails only on a negative offset, which never comes. */
  function PrepareAsWritten(slots: seq<Slot>, h: nat, p: Pos): (r: Prepared)
    requires Valid(slots, h) && p != Unassigned
    ensures r.slot.Some?
  {
    var cleared := Clear(slots, h, p);
    assert Valid(cleared, h) by {
      var k := IndexOf(slots, p);
      if k >= 0 { FreeValid(slots, h, k); }
    }
    var placed := NewSlotAsWritten(cleared, h, p);
    if placed.1 < 0 then Prepared(placed.0, None) else Prepared(placed.0, Some(placed.1))
  }

  /**
   * The discrepancy on a concrete arena: a header of one entry, a buffer of
   * three, and key A owning the only slot, full with two entries.  Preparing
   * to record key B finds no room.  The corrected version reports failure.
   * The version as written reports success with the recording slot at offset
   * 0, which is A's slot, and the first key pressed after that frees it:
   * A's macro is lost and B gets none.
   */
  lemma PrepareAsWrittenLosesMacro()
    ensures var a, b := Pos(0, 0), Pos(0, 1);
      var slots := [Slot(a, 2, [Entry(4, Tap), Entry(5, Tap)])];
      var written := PrepareAsWritten(slots, 1, b);
      var pressed := RecordAt(written.slots, 1, 0, 6, KeyState(true, false, false));
      && Valid(slots, 1) && Total(slots, 1) == 3
      && Prepare(slots, 1, b).slot.None?
      && written.slot == Some(0) && written.slots == slots
      && IndexAt(written.slots, 1, 0) == 0 && written.slots[0].owner == a
      && !pressed.1
      && Macros(slots) == map[a := [Entry(4, Tap), Entry(5, Tap)]]
      && Macros(pressed.0) == map[]
  {
    var a, b := Pos(0, 0), Pos(0, 1);
    var slots := [Slot(a, 2, [Entry(4, Tap), Entry(5, Tap)])];
    assert slots[1..] == [];
    assert Total(slots, 1) == 3;
    assert IndexOf(slots, b) == -1 by {
      assert IndexOf(slots[1..], b) == -1;
    }
    assert Clear(slots, 1, b) == slots;
    assert MostFree(slots, 1) == 0;
    assert FreeSpace(slots[0], 1) == 0;
    assert MacroArena.NewSlot(slots, 1, b).None?;
    IndexAtZero(slots, 1);
    MacrosOne(slots[0]);
    var pressed := RecordAt(slots, 1, 0, 6, KeyState(true, false, false));
    assert pressed.0 == [Slot(Unassigned, 2, [])];
    MacrosOne(pressed.0[0]);
  }
}
