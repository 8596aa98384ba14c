/**
 * The slot allocator of MacrosOnTheFly.cpp as functions on the arena's
 * contents.  The byte buffer `macroStorage` is a sequence of slots in address
 * order; a slot's offset is the sum of the spans of the slots before it.
 * All sizes are counted in entries: `h` is the size of a slot header divided
 * by the size of an entry (taken to be a whole number, at least 1).
 */
module MacroArena {
  import opened MacroTypes

  /**
   * A slot header and its entries.  `entries` holds the used entries, so its
   * length is `numUsedKeystrokes`; `allocatedSize` is `numAllocatedKeystrokes`.
   * The header's `previousSlot` is not stored: a slot's predecessor is the
   * slot before it in address order.
   */
  datatype Slot = Slot(owner: Pos, allocatedSize: nat, entries: seq<Entry>)

  /** Header plus allocated entries: how far the scans advance past a slot. */
  function Span(s: Slot, h: nat): (r: nat) { h + s.allocatedSize }

  /** The summed spans of `slots`. */
  function Total(slots: seq<Slot>, h: nat): (r: nat)
  {
    if slots == [] then 0 else Span(slots[0], h) + Total(slots[1..], h)
  }

  /** Offset of slot `i`: the spans of every slot before it. */
  function Start(slots: seq<Slot>, h: nat, i: nat): (r: nat)
    requires i <= |slots|
  {
    Total(slots[..i], h)
  }

  /** A slot header as the source keeps it: used count within allocation, free slots empty, entries UP, DOWN or TAP. */
  predicate SlotOk(s: Slot)
  {
    && |s.entries| <= s.allocatedSize
    && (s.owner == Unassigned ==> s.entries == [])
    && (forall e | e in s.entries :: IsStroke(e.stroke))
  }

  /**
   * The arena invariant: a non-empty chain of well-formed slots, only the
   * first of which may be free, no two of them for the same key.  Together
   * with `Total(slots, h) == capacity` the spans tile the buffer.
   */
  predicate Valid(slots: seq<Slot>, h: nat)
  {
    && h >= 1
    && |slots| >= 1
    && (forall i | 0 <= i < |slots| :: SlotOk(slots[i]))
    && (forall i | 0 < i < |slots| :: slots[i].owner != Unassigned)
    && (forall i, j | 0 <= i < j < |slots| :: slots[i].owner != slots[j].owner)
  }

  // ---------------------------------------------------------------------------
  // Offsets

  lemma {:induction false} TotalAppend(a: seq<Slot>, b: seq<Slot>, h: nat)
    ensures Total(a + b, h) == Total(a, h) + Total(b, h)
  {
    if a == [] {
      assert a + b == b;
    } else {
      assert (a + b)[0] == a[0];
      assert (a + b)[1..] == a[1..] + b;
      TotalAppend(a[1..], b, h);
    }
  }

  /** The offset after slot `i` is its offset plus its span. */
  lemma StartNext(slots: seq<Slot>, h: nat, i: nat)
    requires i < |slots|
    ensures Start(slots, h, i + 1) == Start(slots, h, i) + Span(slots[i], h)
  {
    assert slots[..i + 1] == slots[..i] + [slots[i]];
    TotalAppend(slots[..i], [slots[i]], h);
    assert [slots[i]][1..] == [];
  }

  /** Every slot lies inside the arena, and the chain ends exactly at its end. */
  lemma StartBound(slots: seq<Slot>, h: nat, i: nat)
    requires i < |slots|
    ensures Start(slots, h, i) + Span(slots[i], h) <= Total(slots, h)
    ensures Start(slots, h, |slots|) == Total(slots, h)
  {
    StartNext(slots, h, i);
    assert slots == slots[..i + 1] + slots[i + 1..];
    TotalAppend(slots[..i + 1], slots[i + 1..], h);
    assert slots[..|slots|] == slots;
  }

  /** Offsets strictly increase along the chain. */
  lemma {:induction false} StartMono(slots: seq<Slot>, h: nat, i: nat, j: nat)
    requires h >= 1 && i < j <= |slots|
    ensures Start(slots, h, i) < Start(slots, h, j)
    decreases j - i
  {
    StartNext(slots, h, i);
    if i + 1 < j {
      StartMono(slots, h, i + 1, j);
    }
  }

  /** Slots `0..n` have offsets that do not depend on anything but their allocations. */
  lemma {:induction false} TotalLayout(a: seq<Slot>, b: seq<Slot>, h: nat)
    requires |a| == |b|
    requires forall i | 0 <= i < |a| :: a[i].allocatedSize == b[i].allocatedSize
    ensures Total(a, h) == Total(b, h)
  {
    if a != [] {
      TotalLayout(a[1..], b[1..], h);
    }
  }

  lemma StartLayout(a: seq<Slot>, b: seq<Slot>, h: nat, i: nat)
    requires |a| == |b| && i <= |a|
    requires forall j | 0 <= j < |a| :: a[j].allocatedSize == b[j].allocatedSize
    ensures Start(a, h, i) == Start(b, h, i)
  {
    TotalLayout(a[..i], b[..i], h);
  }

  /** The slot whose header starts at offset `off`, searching from slot `i`; -1 if none does. */
  function IndexFrom(slots: seq<Slot>, h: nat, off: int, i: nat): (k: int)
    requires i <= |slots|
    ensures -1 <= k < |slots|
    ensures k >= 0 ==> i <= k && Start(slots, h, k) == off
    ensures k < 0 ==> forall j | i <= j < |slots| :: Start(slots, h, j) != off
    decreases |slots| - i
  {
    if i == |slots| then -1
    else if Start(slots, h, i) == off then i
    else IndexFrom(slots, h, off, i + 1)
  }

  /** The slot whose header starts at offset `off`, or -1: what `(Slot*)&macroStorage[off]` denotes. */
  function IndexAt(slots: seq<Slot>, h: nat, off: int): (k: int)
    ensures -1 <= k < |slots|
    ensures k >= 0 ==> Start(slots, h, k) == off
    ensures k < 0 ==> forall j | 0 <= j < |slots| :: Start(slots, h, j) != off
  {
    IndexFrom(slots, h, off, 0)
  }

  /** The offset of slot `k` leads back to slot `k`. */
  lemma IndexAtStart(slots: seq<Slot>, h: nat, k: nat)
    requires h >= 1 && k < |slots|
    ensures IndexAt(slots, h, Start(slots, h, k)) == k
  {
    var r := IndexAt(slots, h, Start(slots, h, k));
    if r != k {
      if r < k { StartMono(slots, h, r, k); }
      else if r > k { StartMono(slots, h, k, r); }
    }
  }

  /** Offset 0 is the first slot, whatever the arena holds. */
  lemma IndexAtZero(slots: seq<Slot>, h: nat)
    requires |slots| >= 1
    ensures IndexAt(slots, h, 0) == 0
  {
    assert Start(slots, h, 0) == 0 by { assert slots[..0] == []; }
  }

  // ---------------------------------------------------------------------------
  // findSlot, getFreeSpace, getSlotWithMostFreeSpace

  /** The first slot owned by `p`, or -1: what `findSlot` searches for. */
  function IndexOf(slots: seq<Slot>, p: Pos): (k: int)
    ensures -1 <= k < |slots|
    ensures k >= 0 ==> slots[k].owner == p && forall j | 0 <= j < k :: slots[j].owner != p
    ensures k < 0 ==> forall j | 0 <= j < |slots| :: slots[j].owner != p
  {
    if slots == [] then -1
    else if slots[0].owner == p then 0
    else
      var r := IndexOf(slots[1..], p);
      if r < 0 then -1 else r + 1
  }

  /**
   * `getFreeSpace`: the unused allocated entries, plus the header itself for
   * a free slot, whose header can be taken over.
   */
  function FreeSpace(s: Slot, h: nat): (r: nat)
    requires |s.entries| <= s.allocatedSize
    ensures s.owner != Unassigned ==> r + |s.entries| == s.allocatedSize
    ensures s.owner == Unassigned && s.entries == [] ==> r == Span(s, h)
    ensures h >= 1 ==> (r == 0 <==> s.owner != Unassigned && |s.entries| == s.allocatedSize)
  {
    (s.allocatedSize - |s.entries|) + (if s.owner == Unassigned then h else 0)
  }

  predicate Fits(slots: seq<Slot>)
  {
    forall i | 0 <= i < |slots| :: |slots[i].entries| <= slots[i].allocatedSize
  }

  /**
   * The scan of `getSlotWithMostFreeSpace` over the first `n` slots: the
   * winning slot and its free space.  A slot wins only with strictly more free
   * space than the current winner, which starts as slot 0 with 0.
   */
  function Scan(slots: seq<Slot>, h: nat, n: nat): (r: (nat, nat))
    requires n <= |slots| && Fits(slots)
    ensures r.1 == 0 ==> r.0 == 0
    ensures r.1 > 0 ==> r.0 < n
  {
    if n == 0 then (0, 0)
    else
      var best := Scan(slots, h, n - 1);
      var f := FreeSpace(slots[n - 1], h);
      if f > best.1 then (n - 1, f) else best
  }

  /**
   * The scan's winner has the most free space among the slots scanned, and
   * strictly more than every slot before it; with no free space anywhere the
   * winner stays slot 0.
   */
  lemma {:induction false} ScanBest(slots: seq<Slot>, h: nat, n: nat)
    requires n <= |slots| && Fits(slots)
    ensures var r := Scan(slots, h, n);
      && (forall j | 0 <= j < n :: FreeSpace(slots[j], h) <= r.1)
      && (r.1 == 0 ==> r.0 == 0)
      && (r.1 > 0 ==> r.0 < n && FreeSpace(slots[r.0], h) == r.1)
      && (r.1 > 0 ==> forall j | 0 <= j < r.0 :: FreeSpace(slots[j], h) < r.1)
  {
    if n > 0 {
      ScanBest(slots, h, n - 1);
    }
  }

  /**
   * The slot `getSlotWithMostFreeSpace` returns: the first one in address
   * order with the largest free space, or slot 0 when no slot has any.
   */
  function MostFree(slots: seq<Slot>, h: nat): (w: nat)
    requires |slots| >= 1 && Fits(slots)
    ensures w < |slots|
    ensures forall j | 0 <= j < |slots| :: FreeSpace(slots[j], h) <= FreeSpace(slots[w], h)
    ensures forall j | 0 <= j < w :: FreeSpace(slots[j], h) < FreeSpace(slots[w], h)
    ensures FreeSpace(slots[w], h) == 0 ==> w == 0
  {
    ScanBest(slots, h, |slots|);
    Scan(slots, h, |slots|).0
  }

  // ---------------------------------------------------------------------------
  // The macros the arena holds

  /** The recorded macro of every key that owns a slot; where a key owns two slots the first counts. */
  function Macros(slots: seq<Slot>): (m: map<Pos, seq<Entry>>)
    ensures Unassigned !in m
  {
    if slots == [] then map[]
    else
      var rest := Macros(slots[1..]);
      if slots[0].owner == Unassigned then rest else rest[slots[0].owner := slots[0].entries]
  }

  lemma {:induction false} MacrosAppend(a: seq<Slot>, b: seq<Slot>)
    ensures Macros(a + b) == Macros(b) + Macros(a)
  {
    if a == [] {
      assert a + b == b;
    } else {
      assert (a + b)[0] == a[0];
      assert (a + b)[1..] == a[1..] + b;
      MacrosAppend(a[1..], b);
    }
  }

  lemma {:induction false} NotInMacros(slots: seq<Slot>, p: Pos)
    requires forall i | 0 <= i < |slots| :: slots[i].owner != p
    ensures p !in Macros(slots)
  {
    if slots != [] {
      NotInMacros(slots[1..], p);
    }
  }

  lemma MacrosSplice(a: seq<Slot>, mid: seq<Slot>, b: seq<Slot>)
    ensures Macros(a + mid + b) == Macros(b) + Macros(mid) + Macros(a)
  {
    MacrosAppend(a + mid, b);
    MacrosAppend(a, mid);
  }

  /** A key owns a macro exactly when some slot carries it, and the macro is that slot's entries. */
  lemma {:induction false} MacrosLookup(slots: seq<Slot>, p: Pos)
    requires p != Unassigned
    ensures p in Macros(slots) <==> IndexOf(slots, p) >= 0
    ensures p in Macros(slots) ==> Macros(slots)[p] == slots[IndexOf(slots, p)].entries
  {
    if slots != [] {
      MacrosLookup(slots[1..], p);
    }
  }

  // ---------------------------------------------------------------------------
  // free

  /**
   * `free`: slot 0 stays in place, relabelled free and emptied; any other
   * slot donates its whole span to its predecessor, which grows over it.
   */
  function Free(slots: seq<Slot>, h: nat, k: nat): (r: seq<Slot>)
    requires k < |slots|
    ensures |r| == if k == 0 then |slots| else |slots| - 1
    ensures k == 0 ==> r[0] == Slot(Unassigned, slots[0].allocatedSize, [])
    ensures k > 0 ==> r[k - 1].allocatedSize == slots[k - 1].allocatedSize + Span(slots[k], h)
  {
    if k == 0 then
      slots[0 := slots[0].(owner := Unassigned, entries := [])]
    else
      var donee := slots[k - 1];
      slots[..k - 1] + [donee.(allocatedSize := donee.allocatedSize + Span(slots[k], h))] + slots[k + 1..]
  }

  lemma MacrosOne(x: Slot)
    ensures Macros([x]) == if x.owner == Unassigned then map[] else map[x.owner := x.entries]
  {
    assert [x][1..] == [];
  }

  /** Adding a fresh key in the middle of a chain of map unions. */
  lemma MapInsert<K, V>(a: map<K, V>, b: map<K, V>, c: map<K, V>, k: K, v: V)
    requires k !in b && k !in c
    ensures a + (map[k := v] + b) + c == (a + b + c)[k := v]
  {
    var l, r := a + (map[k := v] + b) + c, (a + b + c)[k := v];
    assert l.Keys == r.Keys;
    forall x | x in l.Keys ensures l[x] == r[x] { }
  }

  /** Removing a key that only the middle map of a chain of unions holds. */
  lemma MapDrop<K, V>(a: map<K, V>, b: map<K, V>, c: map<K, V>, k: K, v: V)
    requires k !in a && k !in b && k !in c
    ensures a + b + c == (a + (map[k := v] + b) + c) - {k}
  {
    var l, r := a + b + c, (a + (map[k := v] + b) + c) - {k};
    assert l.Keys == r.Keys;
    forall x | x in l.Keys ensures l[x] == r[x] { }
  }

  /** The slots `free` leaves in place around the one it changes. */
  lemma FreeShape(slots: seq<Slot>, h: nat, k: nat)
    requires 0 < k < |slots|
    ensures var donee := slots[k - 1];
      && slots == slots[..k - 1] + [donee, slots[k]] + slots[k + 1..]
      && Free(slots, h, k) == slots[..k - 1] + [donee.(allocatedSize := donee.allocatedSize + Span(slots[k], h))] + slots[k + 1..]
  {
    assert slots == slots[..k - 1] + [slots[k - 1], slots[k]] + slots[k + 1..];
  }

  /** `free` keeps the spans tiling the same buffer. */
  lemma FreeTotal(slots: seq<Slot>, h: nat, k: nat)
    requires k < |slots|
    ensures Total(Free(slots, h, k), h) == Total(slots, h)
  {
    var r := Free(slots, h, k);
    if k == 0 {
      TotalLayout(r, slots, h);
    } else {
      FreeShape(slots, h, k);
      var pre, post := slots[..k - 1], slots[k + 1..];
      var donee := slots[k - 1];
      var grown := donee.(allocatedSize := donee.allocatedSize + Span(slots[k], h));
      TotalAppend(pre + [donee, slots[k]], post, h);
      TotalAppend(pre, [donee, slots[k]], h);
      TotalAppend(pre + [grown], post, h);
      TotalAppend(pre, [grown], h);
      assert [donee, slots[k]][1..] == [slots[k]];
      assert [slots[k]][1..] == [];
      assert [grown][1..] == [];
    }
  }

  /** Every slot but the freed one and its predecessor is left as it was. */
  lemma FreeKeeps(slots: seq<Slot>, h: nat, k: nat)
    requires k < |slots|
    ensures var r := Free(slots, h, k);
      forall i | 0 <= i < |r| && i != (if k == 0 then 0 else k - 1) ::
        r[i] == slots[if i < k || k == 0 then i else i + 1]
    ensures k > 0 ==> Free(slots, h, k)[k - 1] == slots[k - 1].(allocatedSize := Free(slots, h, k)[k - 1].allocatedSize)
  {
  }

  /** `free` keeps the arena valid. */
  lemma FreeValid(slots: seq<Slot>, h: nat, k: nat)
    requires Valid(slots, h) && k < |slots|
    ensures Valid(Free(slots, h, k), h)
  {
    FreeKeeps(slots, h, k);
    var r := Free(slots, h, k);
    forall i, j | 0 <= i < j < |r|
      ensures r[i].owner != r[j].owner
    {
      var si := if i < k || k == 0 then i else i + 1;
      var sj := if j < k || k == 0 then j else j + 1;
      assert r[i].owner == slots[si].owner || (k == 0 && i == 0);
      assert r[j].owner == slots[sj].owner;
    }
  }

  /** `free` drops exactly the freed slot's macro. */
  lemma FreeMacros(slots: seq<Slot>, h: nat, k: nat)
    requires Valid(slots, h) && k < |slots|
    ensures Macros(Free(slots, h, k)) == Macros(slots) - {slots[k].owner}
  {
    if k == 0 {
      FreeFirstMacros(slots, h);
    } else {
      assert forall i | 0 <= i < |slots| && i != k :: slots[i].owner != slots[k].owner by {
        forall i | 0 <= i < |slots| && i != k ensures slots[i].owner != slots[k].owner {
          if i < k { assert slots[i].owner != slots[k].owner; }
        }
      }
      FreeLaterMacros(slots, h, k);
    }
  }

  lemma FreeFirstMacros(slots: seq<Slot>, h: nat)
    requires Valid(slots, h)
    ensures Macros(Free(slots, h, 0)) == Macros(slots) - {slots[0].owner}
  {
    var r := Free(slots, h, 0);
    var o := slots[0].owner;
    var rest := slots[1..];
    assert forall i | 0 <= i < |rest| :: rest[i].owner == slots[i + 1].owner;
    NotInMacros(rest, o);
    assert r[1..] == rest;
    assert Macros(r) == Macros(rest);
    if o != Unassigned {
      assert Macros(slots) == Macros(rest)[o := slots[0].entries];
    }
  }

  lemma FreeLaterMacros(slots: seq<Slot>, h: nat, k: nat)
    requires 0 < k < |slots|
    requires forall i | 0 <= i < |slots| && i != k :: slots[i].owner != slots[k].owner
    requires slots[k].owner != Unassigned
    ensures Macros(Free(slots, h, k)) == Macros(slots) - {slots[k].owner}
  {
    var o, x := slots[k].owner, slots[k];
    FreeShape(slots, h, k);
    var pre, post := slots[..k - 1], slots[k + 1..];
    var donee := slots[k - 1];
    var grown := donee.(allocatedSize := donee.allocatedSize + Span(x, h));
    assert o !in Macros(pre) by {
      assert forall i | 0 <= i < |pre| :: pre[i].owner == slots[i].owner;
      NotInMacros(pre, o);
    }
    assert o !in Macros(post) by {
      assert forall i | 0 <= i < |post| :: post[i].owner == slots[k + 1 + i].owner;
      NotInMacros(post, o);
    }
    assert o !in Macros([donee]) by { MacrosOne(donee); }
    var mPre, mPost, mDonee := Macros(pre), Macros(post), Macros([donee]);
    assert Macros([grown]) == mDonee by { MacrosOne(donee); MacrosOne(grown); }
    assert Macros([donee, x]) == map[o := x.entries] + mDonee by {
      MacrosAppend([donee], [x]);
      assert [donee] + [x] == [donee, x];
      MacrosOne(x);
    }
    assert Macros(slots) == mPost + (map[o := x.entries] + mDonee) + mPre by {
      MacrosSplice(pre, [donee, x], post);
    }
    var r := pre + [grown] + post;
    assert Free(slots, h, k) == r;
    assert Macros(r) == mPost + mDonee + mPre by {
      MacrosSplice(pre, [grown], post);
    }
    MapDrop(mPost, mDonee, mPre, o, x.entries);
  }

  /** After `free`, no slot belongs to the freed slot's key any more. */
  lemma FreeClears(slots: seq<Slot>, h: nat, k: nat)
    requires Valid(slots, h) && k < |slots| && slots[k].owner != Unassigned
    ensures IndexOf(Free(slots, h, k), slots[k].owner) < 0
  {
    FreeMacros(slots, h, k);
    MacrosLookup(Free(slots, h, k), slots[k].owner);
  }

  // ---------------------------------------------------------------------------
  // newSlot

  /** Where `newSlot` placed the new slot: the whole new arena and the new slot's index in it. */
  datatype Placement = Placement(slots: seq<Slot>, index: nat)

  /**
   * `newSlot`: the slot with the most free space either is free and is handed
   * to `p` in place, or keeps only its used entries and a new slot for `p`
   * takes the rest, right after them.  None when the most free space cannot
   * hold a header and one entry.
   */
  function NewSlot(slots: seq<Slot>, h: nat, p: Pos): (r: Option<Placement>)
    requires |slots| >= 1 && Fits(slots)
    ensures r.None? <==> FreeSpace(slots[MostFree(slots, h)], h) < h + 1
    ensures r.None? <==> forall j | 0 <= j < |slots| :: FreeSpace(slots[j], h) < h + 1
    ensures r.Some? ==> r.value.index < |r.value.slots| && r.value.slots[r.value.index].owner == p
  {
    Place(slots, h, p, MostFree(slots, h))
  }

  /** What `newSlot` does once slot `w` has won the scan. */
  function Place(slots: seq<Slot>, h: nat, p: Pos, w: nat): (r: Option<Placement>)
    requires w < |slots| && Fits(slots)
    ensures r.None? <==> FreeSpace(slots[w], h) < h + 1
    ensures r.Some? ==> r.value.index < |r.value.slots| && r.value.slots[r.value.index].owner == p
  {
    var winner := slots[w];
    var free := FreeSpace(winner, h);
    if free < h + 1 then None
    else if winner.owner == Unassigned then
      Some(Placement(slots[..w] + [winner.(owner := p)] + slots[w + 1..], w))
    else
      Some(Placement(slots[..w] + [winner.(allocatedSize := |winner.entries|), Slot(p, free - h, [])] + slots[w + 1..], w + 1))
  }

  /**
   * Exactly what a placement changes.  A free winner is only relabelled.  A
   * split winner shrinks its allocation to its used entries, and the new slot
   * right after it gets the winner's free space minus one header.  Every
   * other slot is kept as it was, shifted by one after a split.
   */
  lemma PlaceKeeps(slots: seq<Slot>, h: nat, p: Pos, w: nat)
    requires w < |slots| && Fits(slots) && Place(slots, h, p, w).Some?
    ensures var pl, winner := Place(slots, h, p, w).value, slots[w];
      && (winner.owner == Unassigned ==>
            && pl.index == w && |pl.slots| == |slots| && pl.slots[w] == winner.(owner := p)
            && forall i | 0 <= i < |slots| && i != w :: pl.slots[i] == slots[i])
      && (winner.owner != Unassigned ==>
            && pl.index == w + 1 && |pl.slots| == |slots| + 1
            && pl.slots[w] == winner.(allocatedSize := |winner.entries|)
            && pl.slots[w + 1] == Slot(p, FreeSpace(winner, h) - h, [])
            && (forall i | 0 <= i < w :: pl.slots[i] == slots[i])
            && forall i | w < i < |slots| :: pl.slots[i + 1] == slots[i])
  {
  }

  /** The preconditions the `Place` lemmas share: `p` owns nothing, and a free winner is slot 0 and empty. */
  predicate PlaceOk(slots: seq<Slot>, h: nat, p: Pos, w: nat)
  {
    && w < |slots| && Valid(slots, h) && p != Unassigned && IndexOf(slots, p) < 0
    && (slots[w].owner == Unassigned ==> w == 0)
    && Place(slots, h, p, w).Some?
  }

  /** The winner found by the scan meets the `Place` lemmas' preconditions. */
  lemma NewSlotPlaceOk(slots: seq<Slot>, h: nat, p: Pos)
    requires Valid(slots, h) && p != Unassigned && IndexOf(slots, p) < 0
    requires NewSlot(slots, h, p).Some?
    ensures PlaceOk(slots, h, p, MostFree(slots, h))
  {
  }

  /** A successful placement keeps the spans tiling the same buffer. */
  lemma PlaceTotal(slots: seq<Slot>, h: nat, p: Pos, w: nat)
    requires w < |slots| && Fits(slots) && Place(slots, h, p, w).Some?
    ensures Total(Place(slots, h, p, w).value.slots, h) == Total(slots, h)
  {
    var winner := slots[w];
    var r := Place(slots, h, p, w).value.slots;
    var pre, post := slots[..w], slots[w + 1..];
    assert slots == pre + [winner] + post;
    var mid := if winner.owner == Unassigned then [winner.(owner := p)]
               else [winner.(allocatedSize := |winner.entries|), Slot(p, FreeSpace(winner, h) - h, [])];
    assert r == pre + mid + post;
    TotalAppend(pre + [winner], post, h);
    TotalAppend(pre, [winner], h);
    TotalAppend(pre + mid, post, h);
    TotalAppend(pre, mid, h);
    assert [winner][1..] == [];
    if winner.owner == Unassigned {
      assert mid[1..] == [];
    } else {
      assert mid[1..][1..] == [];
    }
  }

  /** A successful placement keeps the arena valid. */
  lemma PlaceValid(slots: seq<Slot>, h: nat, p: Pos, w: nat)
    requires PlaceOk(slots, h, p, w)
    ensures Valid(Place(slots, h, p, w).value.slots, h)
  {
    var pl := Place(slots, h, p, w).value;
    var r := pl.slots;
    forall i | 0 <= i < |r| && i != pl.index
      ensures r[i].owner == slots[if i <= w then i else i - (pl.index - w)].owner
      ensures r[i].entries == slots[if i <= w then i else i - (pl.index - w)].entries
    {
    }
    forall i, j | 0 <= i < j < |r|
      ensures r[i].owner != r[j].owner
    {
    }
  }

  /** A successful placement gives `p` an empty macro and changes no other key's macro. */
  lemma PlaceMacros(slots: seq<Slot>, h: nat, p: Pos, w: nat)
    requires PlaceOk(slots, h, p, w)
    ensures Macros(Place(slots, h, p, w).value.slots) == Macros(slots)[p := []]
  {
    var winner := slots[w];
    var pre, post := slots[..w], slots[w + 1..];
    assert slots == pre + [winner] + post;
    assert p !in Macros(pre) by {
      assert forall i | 0 <= i < |pre| :: pre[i].owner == slots[i].owner;
      NotInMacros(pre, p);
    }
    if winner.owner == Unassigned {
      RelabelMacros(pre, winner, post, p);
    } else {
      SplitMacros(pre, winner, post, p, FreeSpace(winner, h) - h);
    }
  }

  lemma RelabelMacros(pre: seq<Slot>, x: Slot, post: seq<Slot>, p: Pos)
    requires x.owner == Unassigned && x.entries == [] && p != Unassigned && p !in Macros(pre)
    ensures Macros(pre + [x.(owner := p)] + post) == Macros(pre + [x] + post)[p := []]
  {
    var taken := x.(owner := p);
    var mPre, mPost := Macros(pre), Macros(post);
    MacrosOne(x);
    MacrosOne(taken);
    MacrosSplice(pre, [x], post);
    MacrosSplice(pre, [taken], post);
    var none: seq<Entry> := [];
    MapInsert(mPost, map[], mPre, p, none);
    assert map[p := none] + map[] == map[p := none];
  }

  lemma SplitMacros(pre: seq<Slot>, x: Slot, post: seq<Slot>, p: Pos, n: nat)
    requires x.owner != p && p != Unassigned && p !in Macros(pre)
    ensures Macros(pre + [x.(allocatedSize := |x.entries|), Slot(p, n, [])] + post)
         == Macros(pre + [x] + post)[p := []]
  {
    var kept := x.(allocatedSize := |x.entries|);
    var added := Slot(p, n, []);
    var mPre, mPost, mX := Macros(pre), Macros(post), Macros([x]);
    assert p !in mX by { MacrosOne(x); }
    assert Macros(pre + [x] + post) == mPost + mX + mPre by {
      MacrosSplice(pre, [x], post);
    }
    assert Macros([kept, added]) == map[p := []] + mX by {
      MacrosAppend([kept], [added]);
      assert [kept] + [added] == [kept, added];
      MacrosOne(kept);
      MacrosOne(x);
      MacrosOne(added);
    }
    assert Macros(pre + [kept, added] + post) == mPost + (map[p := []] + mX) + mPre by {
      MacrosSplice(pre, [kept, added], post);
    }
    MapInsert(mPost, mX, mPre, p, []);
  }

  /**
   * A successful placement gives `p` an empty slot of at least one entry,
   * which is the slot `findSlot` then finds for `p`.
   */
  lemma PlaceFinds(slots: seq<Slot>, h: nat, p: Pos, w: nat)
    requires PlaceOk(slots, h, p, w)
    ensures var pl := Place(slots, h, p, w).value;
      && pl.slots[pl.index] == Slot(p, pl.slots[pl.index].allocatedSize, [])
      && pl.slots[pl.index].allocatedSize >= 1
      && IndexOf(pl.slots, p) == pl.index
  {
    PlaceValid(slots, h, p, w);
  }

  /** Where a split places the new slot: right after the winner's header and used entries. */
  lemma PlaceOffset(slots: seq<Slot>, h: nat, p: Pos, w: nat)
    requires w < |slots| && Fits(slots) && Place(slots, h, p, w).Some?
    ensures var pl := Place(slots, h, p, w).value;
      Start(pl.slots, h, pl.index) ==
        if slots[w].owner == Unassigned then Start(slots, h, w)
        else Start(slots, h, w) + h + |slots[w].entries|
  {
    var pl := Place(slots, h, p, w).value;
    assert pl.slots[..w] == slots[..w];
    if slots[w].owner != Unassigned {
      StartNext(pl.slots, h, w);
    }
  }

  // ---------------------------------------------------------------------------
  // prepareForRecording

  /** The arena after `prepareForRecording`, and the offset of the recording slot when it succeeded. */
  datatype Prepared = Prepared(slots: seq<Slot>, slot: Option<nat>)

  /**
   * Frees the slot `p` owns, if any: afterwards `p` owns no slot and has no
   * macro, every other key keeps its macro, and the arena stays valid.
   */
  function Clear(slots: seq<Slot>, h: nat, p: Pos): (r: seq<Slot>)
    requires Valid(slots, h) && p != Unassigned
    ensures Valid(r, h) && Total(r, h) == Total(slots, h)
    ensures IndexOf(r, p) < 0
    ensures Macros(r) == Macros(slots) - {p}
  {
    var k := IndexOf(slots, p);
    if k >= 0 then
      FreeValid(slots, h, k);
      FreeTotal(slots, h, k);
      FreeClears(slots, h, k);
      FreeMacros(slots, h, k);
      Free(slots, h, k)
    else
      MacrosLookup(slots, p);
      assert Macros(slots) - {p} == Macros(slots);
      slots
  }

  /**
   * `prepareForRecording`, with the failure of `newSlot` reported as failure:
   * free the slot `p` owns, if any, then ask `newSlot` for a new one.
   */
  function Prepare(slots: seq<Slot>, h: nat, p: Pos): (r: Prepared)
    requires Valid(slots, h) && p != Unassigned
    ensures Valid(r.slots, h) && Total(r.slots, h) == Total(slots, h)
  {
    var cleared := Clear(slots, h, p);
    assert Valid(cleared, h) && Total(cleared, h) == Total(slots, h) by {
      var k := IndexOf(slots, p);
      if k >= 0 { FreeValid(slots, h, k); FreeTotal(slots, h, k); }
    }
    match NewSlot(cleared, h, p)
    case None => Prepared(cleared, None)
    case Some(pl) =>
      assert IndexOf(cleared, p) < 0 by {
        var k := IndexOf(slots, p);
        if k >= 0 { FreeClears(slots, h, k); }
      }
      NewSlotPlaceOk(cleared, h, p);
      PlaceValid(cleared, h, p, MostFree(cleared, h));
      PlaceTotal(cleared, h, p, MostFree(cleared, h));
      Prepared(pl.slots, Some(Start(pl.slots, h, pl.index)))
  }

  /**
   * After `prepareForRecording` no old entries survive for `p`: on success `p`
   * owns exactly one slot, at the returned offset, and it is empty; on failure
   * `p` owns nothing.  Every other key keeps its macro.
   */
  lemma PrepareSpec(slots: seq<Slot>, h: nat, p: Pos)
    requires Valid(slots, h) && p != Unassigned
    ensures var r := Prepare(slots, h, p);
      && (r.slot.Some? ==> Macros(r.slots) == (Macros(slots) - {p})[p := []])
      && (r.slot.None? ==> Macros(r.slots) == Macros(slots) - {p})
      && (r.slot.Some? ==> IndexOf(r.slots, p) == IndexAt(r.slots, h, r.slot.value) >= 0)
      && (r.slot.None? ==> IndexOf(r.slots, p) < 0)
      && (r.slot.None? <==> forall j | 0 <= j < |Clear(slots, h, p)| :: FreeSpace(Clear(slots, h, p)[j], h) < h + 1)
  {
    var cleared := Clear(slots, h, p);
    var k := IndexOf(slots, p);
    if k >= 0 {
      FreeMacros(slots, h, k);
      FreeClears(slots, h, k);
      FreeValid(slots, h, k);
    } else {
      MacrosLookup(slots, p);
      assert Macros(slots) - {p} == Macros(slots);
    }
    assert Macros(cleared) == Macros(slots) - {p};
    assert IndexOf(cleared, p) < 0;
    match NewSlot(cleared, h, p)
    case None =>
    case Some(pl) =>
      assert Valid(cleared, h);
      NewSlotPlaceOk(cleared, h, p);
      PlaceMacros(cleared, h, p, MostFree(cleared, h));
      PlaceFinds(cleared, h, p, MostFree(cleared, h));
      IndexAtStart(pl.slots, h, pl.index);
  }
}
