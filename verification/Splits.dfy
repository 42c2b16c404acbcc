/** Dividing one page over itself and a fresh page: where to cut, and what moving the upper part does. */
module Splits {
  import opened Bytes
  import opened Pages
  import opened Levels
  import opened SlottedPages
  import PageBytes

  // ---- the cut ----------------------------------------------------------------------------------

  /** The first live slot at or after i, or the slot count. */
  function FirstLiveFrom(slots: seq<SlotView>, i: nat): (p: nat)
    ensures p <= |slots| && (p < |slots| ==> i <= p && slots[p].Live?)
    ensures forall x :: i <= x < p ==> slots[x].Dead?
    decreases |slots| - i
  {
    if i >= |slots| then |slots| else if slots[i].Live? then i else FirstLiveFrom(slots, i + 1)
  }

  /** Walking forward from the middle, and on from slot 0 once the 16-bit slot number has wrapped. */
  function Pivot(slots: seq<SlotView>): (p: nat)
    ensures p <= |slots|
  {
    var p := FirstLiveFrom(slots, |slots| / 2);
    if p < |slots| then p else FirstLiveFrom(slots, 0)
  }

  lemma {:induction false} DeadIsEmpty(slots: seq<SlotView>)
    ensures (forall i :: 0 <= i < |slots| ==> slots[i].Dead?) <==> LiveList(slots) == []
  {
    if slots != [] {
      DeadIsEmpty(slots[1..]);
      assert forall i :: 0 < i < |slots| ==> slots[i] == slots[1..][i - 1];
    }
  }

  /** A page with a record has a pivot, and the upper part starts with it. */
  lemma PivotIsLive(slots: seq<SlotView>)
    requires LiveList(slots) != []
    ensures Pivot(slots) < |slots| && slots[Pivot(slots)].Live?
    ensures LiveList(slots[Pivot(slots)..]) != [] && LiveList(slots[Pivot(slots)..])[0] == slots[Pivot(slots)].rec
  {
    DeadIsEmpty(slots);
    var p := Pivot(slots);
    assert slots[p..][0] == slots[p];
  }

  /** The pivot is the first live slot from the middle on, or the first of all if there is none from there on. */
  lemma PivotIsFirst(slots: seq<SlotView>)
    requires LiveList(slots) != []
    ensures var p := Pivot(slots);
            && p < |slots| && slots[p].Live?
            && (p >= |slots| / 2 ==> forall i :: |slots| / 2 <= i < p ==> slots[i].Dead?)
            && (p < |slots| / 2 ==> forall i :: 0 <= i < |slots| && (i < p || |slots| / 2 <= i) ==> slots[i].Dead?)
  {
    PivotIsLive(slots);
  }

  // ---- moving the upper part ----------------------------------------------------------------------

  /** The slots with those from a up to b tombstoned. */
  function Killed(slots: seq<SlotView>, a: nat, b: nat): (r: seq<SlotView>)
    ensures |r| == |slots|
    ensures forall i :: 0 <= i < |slots| ==> r[i] == if a <= i < b then Dead(Size(slots[i])) else slots[i]
  {
    seq(|slots|, i requires 0 <= i < |slots| => if a <= i < b then Dead(Size(slots[i])) else slots[i])
  }

  lemma KilledTail(slots: seq<SlotView>, a: nat)
    requires a <= |slots|
    ensures LiveList(Killed(slots, a, |slots|)) == LiveList(slots[..a])
  {
    var k := Killed(slots, a, |slots|);
    assert k[..a] == slots[..a];
    LiveSplit(k, a);
    DeadIsEmpty(k[a..]);
  }

  lemma {:induction false} FootprintConcat(a: seq<Record>, b: seq<Record>)
    ensures Footprint(a + b) == Footprint(a) + Footprint(b)
  {
    if a == [] {
      assert a + b == b;
    } else {
      FootprintConcat(a[1..], b);
      assert (a + b)[1..] == a[1..] + b;
    }
  }

  /** Slots a up to s of page v0 have been copied to the fresh page t0, giving t, and tombstoned, giving v. */
  ghost predicate Moving(v0: Page, t0: Page, a: nat, s: nat, v: Page, t: Page) {
    && Valid(v0) && a <= s <= |v0.slots| && Valid(v) && Valid(t)
    && v == v0.(slots := Killed(v0.slots, a, s))
    && t == t0.(slots := AsSlots(LiveList(v0.slots[a..s])), freePtr := t.freePtr)
    && DeadSpace(t.slots) == 0
    && Gap(t) == PAGE_SIZE - HEADER_SIZE - Footprint(LiveList(v0.slots[a..s]))
  }

  lemma MovingStart(v0: Page, t0: Page, a: nat)
    requires Valid(v0) && Valid(t0) && t0.slots == [] && t0.freePtr == PAGE_SIZE && a <= |v0.slots|
    ensures Moving(v0, t0, a, a, v0, t0)
  {
    assert Killed(v0.slots, a, a) == v0.slots;
    assert v0.slots[a..a] == [];
    assert AsSlots([]) == [];
  }

  lemma SliceGrows(slots: seq<SlotView>, a: nat, s: nat)
    requires a <= s < |slots|
    ensures LiveList(slots[a..s + 1])
         == if slots[s].Live? then LiveList(slots[a..s]) + [slots[s].rec] else LiveList(slots[a..s])
  {
    assert slots[a..s + 1] == slots[a..s] + [slots[s]];
    LiveConcat(slots[a..s], [slots[s]]);
  }

  /** The records of any run of slots fit a fresh page. */
  lemma RunFits(v: Page, a: nat, b: nat)
    requires Valid(v) && a <= b <= |v.slots|
    ensures Footprint(LiveList(v.slots[a..b])) <= PAGE_SIZE - HEADER_SIZE
  {
    var x, y, z := LiveList(v.slots[..a]), LiveList(v.slots[a..b]), LiveList(v.slots[b..]);
    LiveSplit(v.slots, b);
    assert v.slots[..b][..a] == v.slots[..a] && v.slots[..b][a..] == v.slots[a..b];
    LiveSplit(v.slots[..b], a);
    FootprintConcat(x + y, z);
    FootprintConcat(x, y);
    FootprintOfSlots(v.slots);
  }

  /** A tombstone is skipped. */
  lemma MovingSkip(v0: Page, t0: Page, a: nat, s: nat, v: Page, t: Page)
    requires Moving(v0, t0, a, s, v, t) && s < |v0.slots| && v0.slots[s].Dead?
    ensures Moving(v0, t0, a, s + 1, v, t)
  {
    hide Valid, LiveList, Footprint, DeadSpace, Gap, AsSlots;
    SliceGrows(v0.slots, a, s);
    assert Killed(v0.slots, a, s + 1) == Killed(v0.slots, a, s);
  }

  /** A live slot's record is appended to the fresh page, which has room for it. */
  lemma MovingFits(v0: Page, t0: Page, a: nat, s: nat, v: Page, t: Page)
    requires Moving(v0, t0, a, s, v, t) && s < |v0.slots| && v0.slots[s].Live?
    ensures v.slots[s] == v0.slots[s] && v0.slots[s].rec != []
    ensures |v0.slots[s].rec| + SLOT_SIZE <= Gap(t)
  {
    SliceGrows(v0.slots, a, s);
    FootprintConcat(LiveList(v0.slots[a..s]), [v0.slots[s].rec]);
    RunFits(v0, a, s + 1);
  }

  lemma MovingStep(v0: Page, t0: Page, a: nat, s: nat, v: Page, t: Page)
    requires Moving(v0, t0, a, s, v, t) && s < |v0.slots| && v0.slots[s].Live?
    ensures Insert(t, v0.slots[s].rec) == (Stored(|t.slots|), Append(t, v0.slots[s].rec))
    ensures Delete(v, s).0 && Moving(v0, t0, a, s + 1, Delete(v, s).1, Append(t, v0.slots[s].rec))
  {
    var rec := v0.slots[s].rec;
    MovingFits(v0, t0, a, s, v, t);
    InsertAppends(t, rec);
    AppendKeeps(t, rec);
    ValidDelete(v, s);
    SliceGrows(v0.slots, a, s);
    FootprintConcat(LiveList(v0.slots[a..s]), [rec]);
    hide LiveList, Footprint, Insert, Valid, DeadSpace, Gap;
    assert Footprint([rec]) == |rec| + SLOT_SIZE by {
      OneFootprint(rec);
    }
    assert AsSlots(LiveList(v0.slots[a..s]) + [rec]) == AsSlots(LiveList(v0.slots[a..s])) + [Live(rec)];
    assert Killed(v0.slots, a, s + 1) == Killed(v0.slots, a, s)[s := Dead(|rec|)];
  }

  lemma OneFootprint(rec: Record)
    ensures Footprint([rec]) == |rec| + SLOT_SIZE
  {
    assert [rec][1..] == [];
  }

  /** All moved and compacted: the lower part stays, the upper part is on the fresh page. */
  predicate Divided(v0: Page, t0: Page, a: nat, v: Page, t: Page)
    requires a <= |v0.slots|
  {
    && Valid(v) && Valid(t) && DeadSpace(t.slots) == 0
    && v == v0.(slots := AsSlots(LiveList(v0.slots[..a])), freePtr := v.freePtr)
    && t == t0.(slots := AsSlots(LiveList(v0.slots[a..])), freePtr := t.freePtr)
    && LiveList(v.slots) == LiveList(v0.slots[..a]) && LiveList(t.slots) == LiveList(v0.slots[a..])
    && LiveList(v0.slots) == LiveList(v.slots) + LiveList(t.slots)
    && Gap(v) == PAGE_SIZE - HEADER_SIZE - Footprint(LiveList(v0.slots[..a]))
    && Gap(t) == PAGE_SIZE - HEADER_SIZE - Footprint(LiveList(v0.slots[a..]))
  }

  lemma MovingDone(v0: Page, t0: Page, a: nat, v: Page, t: Page)
    requires Moving(v0, t0, a, |v0.slots|, v, t)
    ensures Divided(v0, t0, a, Compact(v), t)
  {
    assert v0.slots[a..|v0.slots|] == v0.slots[a..];
    KilledTail(v0.slots, a);
    CompactedFree(v);
    LiveOfRecords(LiveList(v0.slots[a..]));
    LiveOfRecords(LiveList(v0.slots[..a]));
    LiveSplit(v0.slots, a);
    PackedFootprint(LiveList(v0.slots[..a]));
  }

  lemma {:induction false} PackedFootprint(recs: seq<Record>)
    ensures SumSize(AsSlots(recs)) + SLOT_SIZE * |recs| == Footprint(recs)
  {
    if recs != [] {
      PackedFootprint(recs[1..]);
      assert AsSlots(recs)[1..] == AsSlots(recs[1..]);
    }
  }

  // ---- on the buffers -------------------------------------------------------------------------------

  /** Where the walk is: `wrapped` once the slot number has run past 65535. */
  ghost predicate Walking(slots: seq<SlotView>, at: nat, wrapped: bool) {
    && at < TWO16 && |slots| < TWO16 && LiveList(slots) != []
    && (wrapped || |slots| / 2 <= at)
    && (wrapped ==> FirstLiveFrom(slots, |slots| / 2) == |slots|)
    && FirstLiveFrom(slots, if wrapped then 0 else |slots| / 2) == FirstLiveFrom(slots, at)
  }

  lemma WalkStep(slots: seq<SlotView>, at: nat, wrapped: bool)
    requires Walking(slots, at, wrapped) && (at >= |slots| || slots[at].Dead?)
    ensures at + 1 < TWO16 ==> Walking(slots, at + 1, wrapped)
    ensures at + 1 == TWO16 ==> !wrapped && Walking(slots, 0, true)
  {
    if wrapped && at + 1 >= |slots| {
      DeadIsEmpty(slots);
    }
  }

  lemma WalkDone(slots: seq<SlotView>, at: nat, wrapped: bool)
    requires Walking(slots, at, wrapped) && at < |slots| && slots[at].Live?
    ensures at == Pivot(slots)
  {
  }

  /** The slot the walk looks at after k steps; the slot number has 16 bits. */
  function WalkAt(v: Page, k: nat): nat {
    (|v.slots| / 2 + k) % TWO16
  }

  /** The walk comes to a record if and only if the page has one; on a page without it goes round for ever. */
  lemma WalkEndsExactly(v: Page)
    requires Valid(v)
    ensures (exists k: nat :: GetRecord(v, WalkAt(v, k)) != []) <==> LiveList(v.slots) != []
  {
    DeadIsEmpty(v.slots);
    if i: nat :| i < |v.slots| && v.slots[i].Live? {
      var k := if |v.slots| / 2 <= i then i - |v.slots| / 2 else TWO16 + i - |v.slots| / 2;
      assert WalkAt(v, k) == i;
      assert GetRecord(v, WalkAt(v, k)) != [];
    }
  }

  /** The walk to the pivot. It ends because the page has a record. */
  method FindPivot(p: SlottedPage) returns (pivot: nat)
    requires p.Valid() && LiveList(p.View().slots) != []
    ensures pivot == Pivot(p.View().slots) < |p.View().slots|
  {
    hide PageBytes.View, PageBytes.Wf, Valid, LiveList, Walking, FirstLiveFrom, Pivot;
    ghost var slots, wrapped := p.View().slots, false;
    PageBytes.WfIsValid(p.data[..]);
    WalkStart(p.View());
    var n := p.GetSlotCount();
    pivot := n / 2;
    var rec := p.GetRecord(pivot);
    while rec == []
      invariant rec == GetRecord(p.View(), pivot) && pivot < TWO16 && Walking(slots, pivot, wrapped)
      decreases if wrapped then 0 else 1, TWO16 - pivot
    {
      WalkStep(slots, pivot, wrapped);
      if pivot + 1 == TWO16 {
        wrapped := true;
      }
      pivot := if pivot + 1 == TWO16 then 0 else pivot + 1;
      rec := p.GetRecord(pivot);
    }
    WalkDone(slots, pivot, wrapped);
  }

  lemma WalkStart(v: Page)
    requires Valid(v) && LiveList(v.slots) != []
    ensures Walking(v.slots, |v.slots| / 2, false)
  {
  }

  /** Moves the records from slot `pivot` on to a fresh page and packs what stays. */
  method MoveTail(from: SlottedPage, to: SlottedPage, pivot: nat)
    requires from.Valid() && to.Valid() && from.data != to.data && pivot <= |from.View().slots|
    requires to.View().slots == [] && to.View().freePtr == PAGE_SIZE
    modifies from.data, to.data
    ensures from.Valid() && to.Valid()
    ensures Divided(old(from.View()), old(to.View()), pivot, from.View(), to.View())
    ensures LiveList(from.View().slots) == LiveList(old(from.View()).slots[..pivot])
    ensures LiveList(to.View().slots) == LiveList(old(from.View()).slots[pivot..])
    ensures from.View()
         == old(from.View()).(slots := AsSlots(LiveList(from.View().slots)), freePtr := from.View().freePtr)
    ensures to.View() == old(to.View()).(slots := AsSlots(LiveList(to.View().slots)), freePtr := to.View().freePtr)
  {
    hide PageBytes.View, PageBytes.Wf, LiveList, Compact, Moving, Divided;
    ghost var v0, t0 := from.View(), to.View();
    PageBytes.WfIsValid(from.data[..]);
    PageBytes.WfIsValid(to.data[..]);
    MovingStart(v0, t0, pivot);
    var n := from.GetSlotCount();
    for s := pivot to n
      invariant from.Valid() && to.Valid() && Moving(v0, t0, pivot, s, from.View(), to.View())
    {
      MoveSlot(from, to, s, v0, t0, pivot);
    }
    MovingDone(v0, t0, pivot, from.View(), to.View());
    from.Compactify();
    DividedLists(v0, t0, pivot, from.View(), to.View());
  }

  lemma DividedLists(v0: Page, t0: Page, a: nat, v: Page, t: Page)
    requires a <= |v0.slots| && Divided(v0, t0, a, v, t)
    ensures LiveList(v.slots) == LiveList(v0.slots[..a]) && LiveList(t.slots) == LiveList(v0.slots[a..])
    ensures v == v0.(slots := AsSlots(LiveList(v.slots)), freePtr := v.freePtr)
    ensures t == t0.(slots := AsSlots(LiveList(t.slots)), freePtr := t.freePtr)
  {
  }

  method MoveSlot(from: SlottedPage, to: SlottedPage, s: nat, ghost v0: Page, ghost t0: Page, ghost a: nat)
    requires from.Valid() && to.Valid() && from.data != to.data && s < |v0.slots|
    requires Moving(v0, t0, a, s, from.View(), to.View())
    modifies from.data, to.data
    ensures from.Valid() && to.Valid() && Moving(v0, t0, a, s + 1, from.View(), to.View())
  {
    ghost var v, t := from.View(), to.View();
    assert v.slots[s] == v0.slots[s];
    var rec := from.GetRecord(s);
    if rec == [] {
      MovingSkip(v0, t0, a, s, v, t);
    } else {
      MovingFits(v0, t0, a, s, v, t);
      MovingStep(v0, t0, a, s, v, t);
      hide PageBytes.View, PageBytes.Wf, Insert, Moving;
      var r := to.InsertRecord(rec);
      var ok := from.DeleteRecord(s);
    }
  }
}
