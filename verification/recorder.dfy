/**
 * `recordKeystroke` and `play` of MacrosOnTheFly.cpp on one slot: what a key
 * event does to the recording slot, and the stream of injected events a
 * slot's entries play back as.
 */
module MacroRecorder {
  import opened MacroTypes
  import opened MacroArena

  // ---------------------------------------------------------------------------
  // Playback

  /**
   * What `play` hands to the host for one entry: a press if the DOWN bit is
   * set, then a release if the UP bit is set, each followed by a report.
   */
  function EntryTrace(e: Entry): (t: seq<TraceItem>)
    ensures e.stroke == Down ==> t == [Press(e.key), SendReport]
    ensures e.stroke == Up ==> t == [Release(e.key), SendReport]
    ensures e.stroke == Tap ==> t == [Press(e.key), SendReport, Release(e.key), SendReport]
    ensures !e.stroke.down && !e.stroke.up ==> t == []
  {
    (if e.stroke.down then [Press(e.key), SendReport] else [])
      + (if e.stroke.up then [Release(e.key), SendReport] else [])
  }

  /** The whole stream `play` emits for a slot's entries, in stored order. */
  function PlayTrace(es: seq<Entry>): (r: seq<TraceItem>)
    ensures |r| % 2 == 0 && |r| <= 4 * |es|
  {
    if es == [] then [] else PlayTrace(es[..|es| - 1]) + EntryTrace(es[|es| - 1])
  }

  /**
   * Every press or release that `play` emits is followed by a report: the
   * reports sit exactly at the odd positions of the stream.
   */
  lemma {:induction false} PlayTraceReports(es: seq<Entry>)
    ensures forall i | 0 <= i < |PlayTrace(es)| :: PlayTrace(es)[i] == SendReport <==> i % 2 == 1
  {
    if es != [] {
      var init, e := es[..|es| - 1], es[|es| - 1];
      PlayTraceReports(init);
      var a, b := PlayTrace(init), EntryTrace(e);
      assert PlayTrace(es) == a + b;
      if e.stroke.down && e.stroke.up {
        assert e.stroke == Tap;
      } else if e.stroke.down {
        assert e.stroke == Down;
      } else if e.stroke.up {
        assert e.stroke == Up;
      }
      assert forall j | 0 <= j < |b| :: b[j] == SendReport <==> j % 2 == 1;
      forall i | 0 <= i < |a + b|
        ensures (a + b)[i] == SendReport <==> i % 2 == 1
      {
        if i >= |a| {
          assert (a + b)[i] == b[i - |a|];
          assert b[i - |a|] == SendReport <==> (i - |a|) % 2 == 1;
          assert |a| % 2 == 0;
          assert i % 2 == (i - |a|) % 2;
        } else {
          assert (a + b)[i] == a[i];
          assert a[i] == SendReport <==> i % 2 == 1;
        }
      }
    }
  }

  lemma {:induction false} PlayTraceAppend(a: seq<Entry>, b: seq<Entry>)
    ensures PlayTrace(a + b) == PlayTrace(a) + PlayTrace(b)
    decreases |b|
  {
    if b == [] {
      assert a + b == a;
    } else {
      var b', x := b[..|b| - 1], b[|b| - 1];
      assert (a + b)[..|a + b| - 1] == a + b';
      assert (a + b)[|a + b| - 1] == x;
      assert PlayTrace(a + b) == PlayTrace(a + b') + EntryTrace(x);
      PlayTraceAppend(a, b');
      ConcatAssoc(PlayTrace(a), PlayTrace(b'), EntryTrace(x));
    }
  }

  /** Entries that are each UP, DOWN or TAP play back as nothing exactly when there are none. */
  lemma PlayTraceEmpty(es: seq<Entry>)
    requires forall e | e in es :: IsStroke(e.stroke)
    ensures PlayTrace(es) == [] <==> es == []
  {
    if es != [] {
      assert es[|es| - 1] in es;
      assert |EntryTrace(es[|es| - 1])| > 0;
    }
  }

  // ---------------------------------------------------------------------------
  // Recording

  /** An UP for `key` right after a recorded DOWN of the same key: the two become one TAP. */
  predicate Merges(s: Slot, key: Key, ks: KeyState)
    ensures Merges(s, key, ks) ==> Echo(s.entries == [], key, ks) == [Release(key), SendReport]
  {
    ToggledOff(ks) && s.entries != [] && s.entries[|s.entries| - 1] == Entry(key, Down)
  }

  /**
   * What a key event adds to what the recording plays back: its press or its
   * release, except that a release is dropped while nothing has been recorded,
   * and an event that is not a toggle adds nothing.
   */
  function Echo(empty: bool, key: Key, ks: KeyState): (t: seq<TraceItem>)
    ensures t == [] || t == [Press(key), SendReport] || t == [Release(key), SendReport]
  {
    if ToggledOn(ks) then [Press(key), SendReport]
    else if ToggledOff(ks) && !empty then [Release(key), SendReport]
    else []
  }

  /**
   * `recordKeystroke` on the recording slot `s`: the updated slot, or None
   * when the event needed a new entry and the slot was full (the caller then
   * frees the slot and recording stops).
   */
  function Record(s: Slot, key: Key, ks: KeyState): (r: Option<Slot>)
    requires SlotOk(s) && s.owner != Unassigned
    ensures r.None? <==> Echo(s.entries == [], key, ks) != [] && !Merges(s, key, ks) && |s.entries| == s.allocatedSize
    ensures r.Some? ==> SlotOk(r.value) && r.value.owner == s.owner && r.value.allocatedSize == s.allocatedSize
    ensures r.Some? ==> |s.entries| <= |r.value.entries| <= |s.entries| + 1
    ensures r.Some? && s.entries != [] ==> r.value.entries[..|s.entries| - 1] == s.entries[..|s.entries| - 1]
    ensures r.Some? ==> (r.value.entries == [] <==> s.entries == [] && !ToggledOn(ks))
    ensures Echo(s.entries == [], key, ks) == [] ==> r == Some(s)
    ensures Merges(s, key, ks) ==> r == Some(s.(entries := s.entries[..|s.entries| - 1] + [Entry(key, Tap)]))
    ensures r.Some? && Echo(s.entries == [], key, ks) != [] && !Merges(s, key, ks) ==>
      r.value.entries == s.entries + [Entry(key, StrokeOf(ks))]
  {
    var n := |s.entries|;
    if !ToggledOn(ks) && !ToggledOff(ks) then Some(s)
    else if ToggledOff(ks) && n == 0 then Some(s)
    else if Merges(s, key, ks) then
      assert s.entries[n - 1] in s.entries;
      Some(s.(entries := s.entries[..n - 1] + [Entry(key, Tap)]))
    else if n == s.allocatedSize then None
    else
      Some(s.(entries := s.entries + [Entry(key, StrokeOf(ks))]))
  }

  /**
   * The recording plays back as what was typed: after a recorded event the
   * slot's playback is its old playback followed by the event's press or
   * release.
   */
  lemma RecordTrace(s: Slot, key: Key, ks: KeyState)
    requires SlotOk(s) && s.owner != Unassigned && Record(s, key, ks).Some?
    ensures PlayTrace(Record(s, key, ks).value.entries) == PlayTrace(s.entries) + Echo(s.entries == [], key, ks)
  {
    var es, n := s.entries, |s.entries|;
    var es' := Record(s, key, ks).value.entries;
    if Merges(s, key, ks) {
      var init := es[..n - 1];
      assert es == init + [es[n - 1]];
      assert es' == init + [Entry(key, Tap)];
      PlayTraceAppend(init, [es[n - 1]]);
      PlayTraceAppend(init, [Entry(key, Tap)]);
      assert [es[n - 1]][..0] == [] && [Entry(key, Tap)][..0] == [];
    } else if es' != es {
      assert es' == es + [Entry(key, StrokeOf(ks))];
      PlayTraceAppend(es, [Entry(key, StrokeOf(ks))]);
      assert [Entry(key, StrokeOf(ks))][..0] == [];
    }
  }

  /** A key event as `recordKeystroke` sees it. */
  datatype Event = Event(key: Key, state: KeyState)

  /** Recording a series of events, stopping at the first one that does not fit. */
  function RecordAll(s: Slot, evs: seq<Event>): (r: Option<Slot>)
    requires SlotOk(s) && s.owner != Unassigned
    ensures r.Some? ==> SlotOk(r.value) && r.value.owner == s.owner && r.value.allocatedSize == s.allocatedSize
    decreases |evs|
  {
    if evs == [] then Some(s)
    else
      match Record(s, evs[0].key, evs[0].state)
      case None => None
      case Some(s') => RecordAll(s', evs[1..])
  }

  /** What a series of events adds to the playback, given whether the slot was empty before it. */
  function Echoes(empty: bool, evs: seq<Event>): (r: seq<TraceItem>)
    decreases |evs|
  {
    if evs == [] then []
    else
      var t := Echo(empty, evs[0].key, evs[0].state);
      t + Echoes(empty && t == [], evs[1..])
  }

  /**
   * Round trip of recording and playback: when a series of events fits in
   * the slot, the slot plays back its old contents followed by the presses and
   * releases of the series, with the releases before the first press dropped.
   */
  lemma {:induction false} RecordAllTrace(s: Slot, evs: seq<Event>)
    requires SlotOk(s) && s.owner != Unassigned && RecordAll(s, evs).Some?
    ensures PlayTrace(RecordAll(s, evs).value.entries) == PlayTrace(s.entries) + Echoes(s.entries == [], evs)
    decreases |evs|
  {
    if evs != [] {
      var e, rest := evs[0], evs[1..];
      var s' := Record(s, e.key, e.state).value;
      var t := Echo(s.entries == [], e.key, e.state);
      assert RecordAll(s, evs) == RecordAll(s', rest);
      assert Echoes(s.entries == [], evs) == t + Echoes(s.entries == [] && t == [], rest);
      assert (s'.entries == []) == (s.entries == [] && t == []);
      RecordTrace(s, e.key, e.state);
      RecordAllTrace(s', rest);
      var before, after := PlayTrace(s.entries), Echoes(s'.entries == [], rest);
      assert PlayTrace(RecordAll(s, evs).value.entries) == (before + t) + after;
      ConcatAssoc(before, t, after);
    } else {
      assert PlayTrace(s.entries) + [] == PlayTrace(s.entries);
    }
  }

  lemma ConcatAssoc<T>(a: seq<T>, b: seq<T>, c: seq<T>)
    ensures (a + b) + c == a + (b + c)
  {
  }

  /**
   * A recording that starts on an empty slot: pressing and releasing X,
   * then pressing Y, is stored as a TAP of X and a DOWN of Y, and plays back
   * as press X, release X, press Y, each with its report, and nothing more.
   */
  lemma {:induction false} RecordTapThenDown(s: Slot, x: Key, y: Key)
    requires SlotOk(s) && s.owner != Unassigned && s.entries == [] && s.allocatedSize >= 2
    ensures var on, off := KeyState(true, false, false), KeyState(false, true, false);
      && RecordAll(s, [Event(x, on), Event(x, off), Event(y, on)]) == Some(s.(entries := [Entry(x, Tap), Entry(y, Down)]))
      && PlayTrace([Entry(x, Tap), Entry(y, Down)]) == [Press(x), SendReport, Release(x), SendReport, Press(y), SendReport]
  {
    var on, off := KeyState(true, false, false), KeyState(false, true, false);
    var evs := [Event(x, on), Event(x, off), Event(y, on)];
    var s1 := s.(entries := [Entry(x, Down)]);
    var s2 := s.(entries := [Entry(x, Tap)]);
    var s3 := s.(entries := [Entry(x, Tap), Entry(y, Down)]);
    assert StrokeOf(on) == Down;
    assert s.entries + [Entry(x, Down)] == s1.entries;
    assert Record(s, x, on) == Some(s1);
    assert s1.entries[..0] + [Entry(x, Tap)] == s2.entries;
    assert Record(s1, x, off) == Some(s2);
    assert s2.entries + [Entry(y, Down)] == s3.entries;
    assert Record(s2, y, on) == Some(s3);
    assert RecordAll(s3, []) == Some(s3);
    assert [Event(y, on)][1..] == [];
    assert RecordAll(s2, [Event(y, on)]) == Some(s3);
    assert [Event(x, off), Event(y, on)][1..] == [Event(y, on)];
    assert RecordAll(s1, [Event(x, off), Event(y, on)]) == Some(s3);
    assert evs[1..] == [Event(x, off), Event(y, on)];
    PlayTraceAppend([Entry(x, Tap)], [Entry(y, Down)]);
    assert [Entry(x, Tap)][..0] == [] && [Entry(y, Down)][..0] == [];
  }

  // ---------------------------------------------------------------------------
  // The recording slot inside the arena

  /**
   * `recordKeystroke` on slot `k` of the arena: the arena afterwards and the
   * result; a full slot is freed.
   */
  function RecordAt(slots: seq<Slot>, h: nat, k: nat, key: Key, ks: KeyState): (r: (seq<Slot>, bool))
    requires Valid(slots, h) && k < |slots| && slots[k].owner != Unassigned
    ensures Valid(r.0, h) && Total(r.0, h) == Total(slots, h)
    ensures r.1 <==> Record(slots[k], key, ks).Some?
    ensures r.1 ==> |r.0| == |slots| && r.0[k].owner == slots[k].owner && Start(r.0, h, k) == Start(slots, h, k)
    ensures r.1 ==> r.0 == slots[k := Record(slots[k], key, ks).value]
    ensures !r.1 ==> r.0 == Free(slots, h, k)
  {
    match Record(slots[k], key, ks)
    case Some(s) =>
      var r := slots[k := s];
      assert Valid(r, h) by {
        forall i, j | 0 <= i < j < |r| ensures r[i].owner != r[j].owner {
          assert r[i].owner == slots[i].owner && r[j].owner == slots[j].owner;
        }
      }
      TotalLayout(slots, r, h);
      StartLayout(slots, r, h, k);
      (r, true)
    case None =>
      FreeValid(slots, h, k);
      FreeTotal(slots, h, k);
      (Free(slots, h, k), false)
  }

  /** Replacing a slot's contents under the same owner changes only that owner's macro. */
  lemma MacrosUpdate(slots: seq<Slot>, k: nat, s: Slot)
    requires k < |slots| && s.owner == slots[k].owner != Unassigned
    requires forall i | 0 <= i < |slots| && i != k :: slots[i].owner != s.owner
    ensures Macros(slots[k := s]) == Macros(slots)[s.owner := s.entries]
  {
    var pre, post := slots[..k], slots[k + 1..];
    assert slots == pre + [slots[k]] + post;
    assert slots[k := s] == pre + [s] + post;
    var mPre, mPost := Macros(pre), Macros(post);
    assert s.owner !in mPre by {
      assert forall i | 0 <= i < |pre| :: pre[i].owner == slots[i].owner;
      NotInMacros(pre, s.owner);
    }
    MacrosOne(slots[k]);
    MacrosOne(s);
    MacrosSplice(pre, [slots[k]], post);
    MacrosSplice(pre, [s], post);
    MapReplace(mPost, mPre, s.owner, slots[k].entries, s.entries);
  }

  /** Overwriting a key that the right-hand map of a union does not hold. */
  lemma MapReplace<K, V>(a: map<K, V>, c: map<K, V>, k: K, v: V, w: V)
    requires k !in c
    ensures a + map[k := w] + c == (a + map[k := v] + c)[k := w]
  {
    var l, r := a + map[k := w] + c, (a + map[k := v] + c)[k := w];
    assert l.Keys == r.Keys;
    forall x | x in l.Keys ensures l[x] == r[x] { }
  }

  /**
   * What recording does to the macros: a recorded event changes only the
   * recording key's macro, and a full slot loses the whole recording.
   */
  lemma RecordAtMacros(slots: seq<Slot>, h: nat, k: nat, key: Key, ks: KeyState)
    requires Valid(slots, h) && k < |slots| && slots[k].owner != Unassigned
    ensures var r := RecordAt(slots, h, k, key, ks);
      && (r.1 ==> Macros(r.0) == Macros(slots)[slots[k].owner := Record(slots[k], key, ks).value.entries])
      && (!r.1 ==> Macros(r.0) == Macros(slots) - {slots[k].owner})
  {
    match Record(slots[k], key, ks)
    case Some(s) =>
      forall i | 0 <= i < |slots| && i != k ensures slots[i].owner != s.owner {
        if i < k { assert slots[i].owner != slots[k].owner; } else { assert slots[k].owner != slots[i].owner; }
      }
      MacrosUpdate(slots, k, s);
    case None =>
      FreeMacros(slots, h, k);
  }
}
