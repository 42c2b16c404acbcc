/**
 * Compaction of a slotted page, as edits of the one buffer: records move towards the end of the page in
 * descending-offset order, then the tombstones are dropped from the slot array.
 */
module Compaction {
  import opened Bytes
  import opened Pages
  import opened PageBytes

  // ---- the order in which records move --------------------------------------------------------

  predicate AreSlots(slots: seq<Slot>, ids: seq<nat>) {
    forall k :: 0 <= k < |ids| ==> ids[k] < |slots|
  }

  function InsertDesc(slots: seq<Slot>, i: nat, order: seq<nat>): (out: seq<nat>)
    requires i < |slots| && AreSlots(slots, order)
    ensures AreSlots(slots, out)
  {
    if order == [] || slots[order[0]].offset < slots[i].offset then [i] + order
    else [order[0]] + InsertDesc(slots, i, order[1..])
  }

  /** The given slots by descending offset, which is what the comparator handed to std::sort asks for. */
  function SortDesc(slots: seq<Slot>, ids: seq<nat>): (order: seq<nat>)
    requires AreSlots(slots, ids)
    ensures AreSlots(slots, order)
  {
    if ids == [] then [] else InsertDesc(slots, ids[0], SortDesc(slots, ids[1..]))
  }

  ghost predicate Descending(slots: seq<Slot>, order: seq<nat>) {
    && AreSlots(slots, order) && NoDup(order)
    && (forall a, b :: 0 <= a < b < |order| ==> slots[order[b]].offset <= slots[order[a]].offset)
  }

  function OrderSize(slots: seq<Slot>, order: seq<nat>): nat
    requires AreSlots(slots, order)
  {
    if order == [] then 0 else slots[order[0]].size + OrderSize(slots, order[1..])
  }

  lemma {:induction false} InsertDescMembers(slots: seq<Slot>, i: nat, order: seq<nat>)
    requires i < |slots| && AreSlots(slots, order)
    ensures forall x :: x in InsertDesc(slots, i, order) <==> x == i || x in order
  {
    if order != [] && slots[order[0]].offset >= slots[i].offset {
      InsertDescMembers(slots, i, order[1..]);
      assert order == [order[0]] + order[1..];
    }
  }

  lemma {:induction false} InsertDescSize(slots: seq<Slot>, i: nat, order: seq<nat>)
    requires i < |slots| && AreSlots(slots, order)
    ensures OrderSize(slots, InsertDesc(slots, i, order)) == slots[i].size + OrderSize(slots, order)
  {
    if order == [] || slots[order[0]].offset < slots[i].offset {
      assert ([i] + order)[1..] == order;
    } else {
      InsertDescSize(slots, i, order[1..]);
      assert InsertDesc(slots, i, order)[1..] == InsertDesc(slots, i, order[1..]);
    }
  }

  lemma DescendingCons(slots: seq<Slot>, x: nat, out: seq<nat>)
    requires x < |slots| && Descending(slots, out) && x !in out
    requires forall y :: y in out ==> y < |slots| && slots[y].offset <= slots[x].offset
    ensures Descending(slots, [x] + out)
  {
  }

  lemma {:induction false} InsertDescSorted(slots: seq<Slot>, i: nat, order: seq<nat>)
    requires i < |slots| && Descending(slots, order) && i !in order
    ensures Descending(slots, InsertDesc(slots, i, order))
  {
    if order == [] || slots[order[0]].offset < slots[i].offset {
      DescendingCons(slots, i, order);
    } else {
      var rest := order[1..];
      assert forall y :: y in rest ==> y in order;
      InsertDescSorted(slots, i, rest);
      InsertDescMembers(slots, i, rest);
      assert order[0] !in rest;
      DescendingCons(slots, order[0], InsertDesc(slots, i, rest));
    }
  }

  lemma {:induction false} SortDescSorts(slots: seq<Slot>, ids: seq<nat>)
    requires AreSlots(slots, ids) && NoDup(ids)
    ensures Descending(slots, SortDesc(slots, ids))
    ensures forall x :: x in SortDesc(slots, ids) <==> x in ids
    ensures OrderSize(slots, SortDesc(slots, ids)) == OrderSize(slots, ids)
  {
    if ids != [] {
      SortDescSorts(slots, ids[1..]);
      InsertDescMembers(slots, ids[0], SortDesc(slots, ids[1..]));
      assert ids == [ids[0]] + ids[1..];
      InsertDescSorted(slots, ids[0], SortDesc(slots, ids[1..]));
      InsertDescSize(slots, ids[0], SortDesc(slots, ids[1..]));
    }
  }

  /** The live slots' numbers among the first n, ascending. */
  function LiveIds(slots: seq<Slot>, n: nat): (ids: seq<nat>)
    requires n <= |slots|
    ensures AreSlots(slots, ids)
  {
    if n == 0 then []
    else LiveIds(slots, n - 1) + if slots[n - 1].offset != 0 then [n - 1] else []
  }

  lemma {:induction false} LiveIdsAre(slots: seq<Slot>, n: nat)
    requires n <= |slots|
    ensures forall x: nat :: x in LiveIds(slots, n) <==> x < n && slots[x].offset != 0
    ensures NoDup(LiveIds(slots, n))
  {
    if n > 0 {
      LiveIdsAre(slots, n - 1);
    }
  }

  /** The live slots among the first n, in order. */
  function LiveSlots(slots: seq<Slot>, n: nat): (r: seq<Slot>)
    requires n <= |slots|
    ensures |r| <= n
  {
    if n == 0 then []
    else LiveSlots(slots, n - 1) + if slots[n - 1].offset != 0 then [slots[n - 1]] else []
  }

  // ---- moving the records ---------------------------------------------------------------------

  /** Slot i's record moved so that it ends at ptr. */
  function MoveEdit(d: Buffer, i: nat, ptr: nat): Buffer
    requires SlotPos(i + 1) <= PAGE_SIZE
    requires SlotAt(d, i).size <= ptr <= PAGE_SIZE && SlotAt(d, i).offset + SlotAt(d, i).size <= PAGE_SIZE
  {
    var s := SlotAt(d, i);
    var to := ptr - s.size;
    if s.offset != to then Put16(Splice(d, to, d[s.offset..s.offset + s.size]), SlotPos(i), to) else d
  }

  lemma MoveEditReads(d: Buffer, i: nat, ptr: nat)
    requires SlotPos(i + 1) <= PAGE_SIZE
    requires SlotAt(d, i).size <= ptr <= PAGE_SIZE && SlotAt(d, i).offset + SlotAt(d, i).size <= PAGE_SIZE
    requires SlotPos(i + 1) <= ptr - SlotAt(d, i).size
    ensures var e, s := MoveEdit(d, i, ptr), SlotAt(d, i);
            && SlotAt(e, i) == Slot(ptr - s.size, s.size)
            && e[ptr - s.size..ptr] == d[s.offset..s.offset + s.size]
            && (forall k :: 0 <= k < PAGE_SIZE && !(ptr - s.size <= k < ptr) && !(SlotPos(i) <= k < SlotPos(i) + 2)
                  ==> e[k] == d[k])
  {
    hide Put16;
    var e, s := MoveEdit(d, i, ptr), SlotAt(d, i);
    var to := ptr - s.size;
    var m := Splice(d, to, d[s.offset..s.offset + s.size]);
    Put16Reads(m, SlotPos(i), to);
    if s.offset != to {
      assert e[to..ptr] == m[to..ptr] == d[s.offset..s.offset + s.size];
    }
  }

  /** The first k slots of `order` have been moved, to just above ptr. */
  ghost predicate Packing(d0: Buffer, d: Buffer, order: seq<nat>, k: nat, ptr: nat)
    requires Wf(d0) && k <= |order| && AreSlots(Slots(d0), order)
  {
    HeapKept(d0, d, order, k, ptr) && SlotsMoved(d0, d, order, k, ptr)
  }

  /** The header, and the heap below the last moved record, are still untouched. */
  ghost predicate HeapKept(d0: Buffer, d: Buffer, order: seq<nat>, k: nat, ptr: nat)
    requires Wf(d0) && k <= |order| && AreSlots(Slots(d0), order)
  {
    && (forall p :: 0 <= p < HEADER_SIZE ==> d[p] == d0[p])
    && (forall p :: FreePtr(d0) <= p < Untouched(d0, order, k) ==> d[p] == d0[p])
    && Untouched(d0, order, k) <= ptr <= PAGE_SIZE
    && ptr == PAGE_SIZE - OrderSize(Slots(d0), order[..k])
  }

  ghost predicate SlotsMoved(d0: Buffer, d: Buffer, order: seq<nat>, k: nat, ptr: nat)
    requires Wf(d0) && k <= |order| && AreSlots(Slots(d0), order)
  {
    && (forall i :: 0 <= i < MaxSlot(d0) ==> SlotAt(d, i).size == SlotAt(d0, i).size)
    && (forall i :: 0 <= i < MaxSlot(d0) && i !in order[..k] ==> SlotAt(d, i) == SlotAt(d0, i))
    && (forall a :: 0 <= a < k ==> Placed(d0, d, order[a], ptr))
    && (forall a, b :: 0 <= a < b < k ==>
          SlotAt(d, order[b]).offset + SlotAt(d, order[b]).size <= SlotAt(d, order[a]).offset)
  }

  /** Slot i's record lies at or above ptr and has its original bytes. */
  ghost predicate Placed(d0: Buffer, d: Buffer, i: nat, ptr: nat)
    requires SlotPos(i + 1) <= PAGE_SIZE
  {
    && 0 < ptr <= SlotAt(d, i).offset && SlotAt(d, i).offset + SlotAt(d, i).size <= PAGE_SIZE
    && Read(d, SlotAt(d, i)) == Read(d0, SlotAt(d0, i))
  }

  /** Where the last moved record used to start. */
  ghost function Untouched(d0: Buffer, order: seq<nat>, k: nat): nat
    requires Wf(d0) && k <= |order| && AreSlots(Slots(d0), order)
  {
    if k == 0 then PAGE_SIZE else SlotAt(d0, order[k - 1]).offset
  }

  lemma {:induction false} OrderSizeSnoc(slots: seq<Slot>, order: seq<nat>, i: nat)
    requires i < |slots| && AreSlots(slots, order)
    ensures OrderSize(slots, order + [i]) == OrderSize(slots, order) + slots[i].size
  {
    if order == [] {
      assert [i][1..] == [];
    } else {
      OrderSizeSnoc(slots, order[1..], i);
      assert (order + [i])[1..] == order[1..] + [i];
    }
  }

  /** The next record still has its bytes, and its new place is at or above its old one. */
  lemma NextMove(d0: Buffer, d: Buffer, order: seq<nat>, k: nat, ptr: nat)
    requires Wf(d0) && k < |order| && Descending(Slots(d0), order)
    requires forall a :: 0 <= a < |order| ==> SlotAt(d0, order[a]).offset != 0
    requires Packing(d0, d, order, k, ptr)
    ensures NextReady(d0, d, order[k], ptr)
    ensures SlotAt(d0, order[k]).offset + SlotAt(d0, order[k]).size <= Untouched(d0, order, k)
  {
    hide SumSize, OrderSize, Placed, View, Views;
    var i := order[k];
    assert Slots(d0)[i] == SlotAt(d0, i);
    assert i !in order[..k];
    if k > 0 {
      var j := order[k - 1];
      assert Slots(d0)[j] == SlotAt(d0, j);
      assert Apart(Slots(d0)[i], Slots(d0)[j]);
    }
    var s := SlotAt(d0, i);
    assert d[s.offset..s.offset + s.size] == d0[s.offset..s.offset + s.size];
  }

  lemma PackingStep(d0: Buffer, d: Buffer, order: seq<nat>, k: nat, ptr: nat)
    requires Wf(d0) && k < |order| && Descending(Slots(d0), order)
    requires forall a :: 0 <= a < |order| ==> SlotAt(d0, order[a]).offset != 0
    requires Packing(d0, d, order, k, ptr)
    ensures SlotAt(d, order[k]) == SlotAt(d0, order[k])
    ensures var s := SlotAt(d0, order[k]);
            && s.size <= ptr && s.offset + s.size <= PAGE_SIZE
            && Packing(d0, MoveEdit(d, order[k], ptr), order, k + 1, ptr - s.size)
  {
    hide SumSize, OrderSize, View, Views, MoveEdit, SlotAt, MaxSlot, FreePtr, Packed, Placed;
    NextMove(d0, d, order, k, ptr);
    HeapKeptStep(d0, d, order, k, ptr);
    SlotsMovedStep(d0, d, order, k, ptr);
  }

  lemma HeapKeptStep(d0: Buffer, d: Buffer, order: seq<nat>, k: nat, ptr: nat)
    requires Wf(d0) && k < |order| && Descending(Slots(d0), order)
    requires SlotAt(d0, order[k]).offset != 0
    requires SlotAt(d, order[k]) == SlotAt(d0, order[k])
    requires SlotAt(d0, order[k]).offset + SlotAt(d0, order[k]).size <= Untouched(d0, order, k)
    requires HeapKept(d0, d, order, k, ptr)
    ensures HeapKept(d0, MoveEdit(d, order[k], ptr), order, k + 1, ptr - SlotAt(d0, order[k]).size)
  {
    hide SumSize, OrderSize, View, Views, MoveEdit, SlotAt, MaxSlot, FreePtr;
    var i, s := order[k], SlotAt(d0, order[k]);
    assert Slots(d0)[i] == s;
    MoveEditReads(d, i, ptr);
    assert order[..k + 1] == order[..k] + [i];
    OrderSizeSnoc(Slots(d0), order[..k], i);
  }

  lemma SlotsMovedStep(d0: Buffer, d: Buffer, order: seq<nat>, k: nat, ptr: nat)
    requires Wf(d0) && k < |order| && Descending(Slots(d0), order)
    requires NextReady(d0, d, order[k], ptr)
    requires SlotsMoved(d0, d, order, k, ptr)
    ensures SlotsMoved(d0, MoveEdit(d, order[k], ptr), order, k + 1, ptr - SlotAt(d0, order[k]).size)
  {
    hide Wf, MoveEdit, SlotAt, MaxSlot, FreePtr, Placed;
    var i, s := order[k], SlotAt(d0, order[k]);
    var e := MoveEdit(d, i, ptr);
    PlacedNow(d0, d, i, ptr);
    assert i !in order[..k];
    assert order[..k + 1] == order[..k] + [i];
    forall a | 0 <= a < k
      ensures Placed(d0, e, order[a], ptr - s.size) && SlotAt(e, order[a]) == SlotAt(d, order[a])
      ensures ptr <= SlotAt(d, order[a]).offset
    {
      assert order[a] in order[..k];
      StillPlaced(d0, d, i, ptr, order[a]);
    }
  }

  /** Slot i is untouched, still has its bytes, and fits between its old place and ptr. */
  ghost predicate NextReady(d0: Buffer, d: Buffer, i: nat, ptr: nat)
    requires SlotPos(MaxSlot(d0)) <= PAGE_SIZE && i < MaxSlot(d0)
  {
    var s := SlotAt(d0, i);
    && SlotAt(d, i) == s && 0 < s.size && s.offset != 0
    && s.offset + s.size <= ptr <= PAGE_SIZE && SlotPos(MaxSlot(d0)) <= s.offset
    && d[s.offset..s.offset + s.size] == d0[s.offset..s.offset + s.size]
  }

  lemma PlacedNow(d0: Buffer, d: Buffer, i: nat, ptr: nat)
    requires SlotPos(MaxSlot(d0)) <= PAGE_SIZE && i < MaxSlot(d0) && NextReady(d0, d, i, ptr)
    ensures var s := SlotAt(d0, i);
            && Placed(d0, MoveEdit(d, i, ptr), i, ptr - s.size)
            && SlotAt(MoveEdit(d, i, ptr), i) == Slot(ptr - s.size, s.size)
            && (forall j :: 0 <= j < MaxSlot(d0) && j != i ==> SlotAt(MoveEdit(d, i, ptr), j) == SlotAt(d, j))
  {
    hide MoveEdit, SlotAt, MaxSlot;
    var s := SlotAt(d0, i);
    MoveEditReads(d, i, ptr);
    OtherSlotsStay(d, MoveEdit(d, i, ptr), i, ptr - s.size, MaxSlot(d0));
  }

  /** A move does not disturb a record that was placed before: it lies at or above ptr. */
  lemma StillPlaced(d0: Buffer, d: Buffer, i: nat, ptr: nat, j: nat)
    requires SlotPos(MaxSlot(d0)) <= PAGE_SIZE && i < MaxSlot(d0) && NextReady(d0, d, i, ptr)
    requires j < MaxSlot(d0) && j != i && Placed(d0, d, j, ptr)
    ensures var e := MoveEdit(d, i, ptr);
            && SlotAt(e, j) == SlotAt(d, j) && ptr <= SlotAt(d, j).offset
            && Placed(d0, e, j, ptr - SlotAt(d0, i).size)
  {
    hide MoveEdit, SlotAt, MaxSlot;
    var e, t := MoveEdit(d, i, ptr), SlotAt(d, j);
    MoveEditReads(d, i, ptr);
    OtherSlotsStay(d, e, i, ptr - SlotAt(d0, i).size, MaxSlot(d0));
    assert e[t.offset..t.offset + t.size] == d[t.offset..t.offset + t.size];
  }

  /** Moving one record in the heap and patching its offset leaves the other slots alone. */
  lemma OtherSlotsStay(d: Buffer, e: Buffer, i: nat, low: nat, n: nat)
    requires i < n && SlotPos(n) <= low <= PAGE_SIZE
    requires forall k :: 0 <= k < low && !(SlotPos(i) <= k < SlotPos(i) + 2) ==> e[k] == d[k]
    ensures forall j :: 0 <= j < n && j != i ==> SlotAt(e, j) == SlotAt(d, j)
  {
  }

  /** Once every live record has moved, the page reads as before and its live records are packed above ptr. */
  lemma PackingDone(d0: Buffer, d: Buffer, order: seq<nat>, ptr: nat)
    requires Wf(d0) && Descending(Slots(d0), order)
    requires forall i: nat :: i in order <==> i < MaxSlot(d0) && SlotAt(d0, i).offset != 0
    requires Packing(d0, d, order, |order|, ptr)
    ensures MaxSlot(d) == MaxSlot(d0) && Tag(d) == Tag(d0) && FreePtr(d0) <= ptr
    ensures Views(d, Slots(d)) == Views(d0, Slots(d0))
    ensures Packed(Slots(d), ptr)
  {
    hide SumSize, OrderSize, View, Placed, SlotAt, Packed;
    SameTag(d, d0);
    assert order[..|order|] == order;
    if order != [] {
      var j := order[|order| - 1];
      assert j in order;
      LiveAboveFree(d0, j);
    }
    forall i | 0 <= i < MaxSlot(d0)
      ensures Read(d, SlotAt(d, i)) == Read(d0, SlotAt(d0, i))
      ensures SlotAt(d, i).offset != 0 ==> i in order && Placed(d0, d, i, ptr) && SlotAt(d, i).size != 0
    {
      if i in order {
        var a :| 0 <= a < |order| && order[a] == i;
        assert Placed(d0, d, order[a], ptr);
        LiveAboveFree(d0, i);
        PlacedReads(d0, d, i, ptr);
      }
    }
    forall i, j | 0 <= i < j < MaxSlot(d) && SlotAt(d, i).offset != 0 && SlotAt(d, j).offset != 0
      ensures Apart(SlotAt(d, i), SlotAt(d, j))
    {
      var a :| 0 <= a < |order| && order[a] == i;
      var b :| 0 <= b < |order| && order[b] == j;
      assert a != b;
      if a < b {
        assert SlotAt(d, order[b]).offset + SlotAt(d, order[b]).size <= SlotAt(d, order[a]).offset;
      } else {
        assert SlotAt(d, order[a]).offset + SlotAt(d, order[a]).size <= SlotAt(d, order[b]).offset;
      }
    }
    PackedFromPlaced(d0, d, ptr);
  }

  lemma LiveAboveFree(d: Buffer, i: nat)
    requires Wf(d) && i < MaxSlot(d) && SlotAt(d, i).offset != 0
    ensures FreePtr(d) <= SlotAt(d, i).offset && SlotAt(d, i).size > 0
  {
    assert Slots(d)[i] == SlotAt(d, i);
  }

  lemma PlacedReads(d0: Buffer, d: Buffer, i: nat, ptr: nat)
    requires SlotPos(i + 1) <= PAGE_SIZE && Placed(d0, d, i, ptr)
    ensures Read(d, SlotAt(d, i)) == Read(d0, SlotAt(d0, i))
  {
  }

  lemma PackedFromPlaced(d0: Buffer, d: Buffer, ptr: nat)
    requires Roomy(d)
    requires forall i :: 0 <= i < MaxSlot(d) && SlotAt(d, i).offset != 0 ==>
              Placed(d0, d, i, ptr) && SlotAt(d, i).size != 0
    requires forall i, j :: 0 <= i < j < MaxSlot(d) && SlotAt(d, i).offset != 0 && SlotAt(d, j).offset != 0 ==>
               Apart(SlotAt(d, i), SlotAt(d, j))
    ensures Packed(Slots(d), ptr)
  {
    hide SlotAt, Read, Apart;
  }

  // ---- dropping the tombstones ----------------------------------------------------------------

  /** After reading r slots, the live ones among them are the first w of the array. */
  ghost predicate Dropping(d1: Buffer, d: Buffer, r: nat, w: nat)
    requires Roomy(d1) && r <= MaxSlot(d1)
  {
    && w == |LiveSlots(Slots(d1), r)|
    && (forall k :: 0 <= k < PAGE_SIZE && !(HEADER_SIZE <= k < SlotPos(w)) ==> d[k] == d1[k])
    && (forall i :: 0 <= i < w ==> SlotAt(d, i) == LiveSlots(Slots(d1), r)[i])
  }

  lemma DroppingStep(d1: Buffer, d: Buffer, r: nat, w: nat)
    requires Roomy(d1) && r < MaxSlot(d1) && Dropping(d1, d, r, w)
    ensures SlotAt(d, r) == SlotAt(d1, r)
    ensures SlotAt(d, r).offset == 0 ==> Dropping(d1, d, r + 1, w)
    ensures SlotAt(d, r).offset != 0 ==> Dropping(d1, KeepEdit(d, r, w), r + 1, w + 1)
  {
    hide PutSlot;
    var s := SlotAt(d, r);
    assert s == SlotAt(d1, r) == Slots(d1)[r];
    if s.offset != 0 {
      PutSlotReads(d, w, s);
      hide SlotAt;
      assert forall i :: 0 <= i < w + 1 ==> SlotAt(KeepEdit(d, r, w), i) == LiveSlots(Slots(d1), r + 1)[i];
    }
  }

  lemma DroppingStart(d1: Buffer)
    requires Roomy(d1)
    ensures Dropping(d1, d1, 0, 0)
  {
  }

  lemma DroppingIn(d1: Buffer, d: Buffer, r: nat, w: nat)
    requires Roomy(d1) && r < MaxSlot(d1) && Dropping(d1, d, r, w)
    ensures w <= r && SlotPos(r + 1) <= PAGE_SIZE
    ensures SlotAt(d, r).offset < TWO16 && SlotAt(d, r).size < TWO16
  {
  }

  /** Slot r copied down to place w. */
  function KeepEdit(d: Buffer, r: nat, w: nat): Buffer
    requires w <= r && SlotPos(r + 1) <= PAGE_SIZE
  {
    if w != r then PutSlot(d, w, SlotAt(d, r)) else d
  }

  lemma {:induction false} LiveSlotsFrom(slots: seq<Slot>, n: nat)
    requires n <= |slots|
    ensures forall x :: x in LiveSlots(slots, n) ==> exists i :: 0 <= i < n && slots[i] == x && slots[i].offset != 0
  {
    if n > 0 {
      LiveSlotsFrom(slots, n - 1);
      if slots[n - 1].offset != 0 {
        assert slots[n - 1] in LiveSlots(slots, n);
      }
    }
  }

  lemma {:induction false} LiveSlotsPacked(slots: seq<Slot>, n: nat, free: nat)
    requires n <= |slots| && Packed(slots, free)
    ensures Packed(LiveSlots(slots, n), free)
  {
    if n > 0 {
      LiveSlotsPacked(slots, n - 1, free);
      LiveSlotsFrom(slots, n - 1);
      if slots[n - 1].offset != 0 {
        var rest := LiveSlots(slots, n - 1);
        forall a | 0 <= a < |rest|
          ensures Apart(rest[a], slots[n - 1])
        {
          assert rest[a] in rest;
        }
      }
    }
  }

  /** The live slots read as the page's records, in order. */
  lemma {:induction false} LiveSlotsRead(d: Buffer, slots: seq<Slot>, n: nat)
    requires n <= |slots|
    requires forall i :: 0 <= i < |slots| && slots[i].offset != 0 ==> slots[i].offset + slots[i].size <= PAGE_SIZE
    ensures Views(d, LiveSlots(slots, n)) == AsSlots(LiveList(Views(d, slots[..n])))
  {
    if n == 0 {
      assert Views(d, slots[..0]) == [];
    } else {
      LiveSlotsRead(d, slots, n - 1);
      var before, x := Views(d, slots[..n - 1]), Read(d, slots[n - 1]);
      assert Views(d, slots[..n]) == before + [x];
      LiveSnoc(before, x);
      if slots[n - 1].offset != 0 {
        assert Views(d, LiveSlots(slots, n)) == Views(d, LiveSlots(slots, n - 1)) + [x];
      } else {
        assert LiveSlots(slots, n) == LiveSlots(slots, n - 1);
      }
    }
  }

  /** Their sizes add up to what the records need. */
  lemma {:induction false} LiveIdsSize(d: Buffer, slots: seq<Slot>, n: nat)
    requires n <= |slots|
    requires forall i :: 0 <= i < |slots| && slots[i].offset != 0 ==> slots[i].offset + slots[i].size <= PAGE_SIZE
    ensures OrderSize(slots, LiveIds(slots, n)) == SumSize(AsSlots(LiveList(Views(d, slots[..n]))))
  {
    hide SumSize, LiveList, OrderSize, Read, AsSlots, Views;
    if n == 0 {
      NoViews(d, slots);
      EmptySizes(slots);
    } else {
      LiveIdsSize(d, slots, n - 1);
      var before, x := Views(d, slots[..n - 1]), Read(d, slots[n - 1]);
      ViewsSnoc(d, slots, n - 1);
      LiveSnoc(before, x);
      LiveReads(d, slots[n - 1]);
      if slots[n - 1].offset != 0 {
        OrderSizeSnoc(slots, LiveIds(slots, n - 1), n - 1);
      } else {
        assert LiveIds(slots, n) == LiveIds(slots, n - 1);
      }
    }
  }

  lemma NoViews(d: Buffer, slots: seq<Slot>)
    ensures Views(d, slots[..0]) == []
  {
  }

  lemma ViewsSnoc(d: Buffer, slots: seq<Slot>, n: nat)
    requires n < |slots|
    ensures Views(d, slots[..n + 1]) == Views(d, slots[..n]) + [Read(d, slots[n])]
  {
    hide Read;
  }

  lemma EmptySizes(slots: seq<Slot>)
    ensures SumSize(AsSlots(LiveList([]))) == 0 == OrderSize(slots, [])
  {
  }

  lemma LiveReads(d: Buffer, s: Slot)
    ensures s.offset != 0 && s.offset + s.size <= PAGE_SIZE ==> Read(d, s).Live? && |Read(d, s).rec| == s.size
    ensures s.offset == 0 ==> Read(d, s).Dead?
  {
  }

  lemma LiveSnoc(v: seq<SlotView>, x: SlotView)
    ensures x.Dead? ==> LiveList(v + [x]) == LiveList(v)
    ensures x.Live? ==> AsSlots(LiveList(v + [x])) == AsSlots(LiveList(v)) + [x]
    ensures x.Live? ==> SumSize(AsSlots(LiveList(v + [x]))) == SumSize(AsSlots(LiveList(v))) + |x.rec|
  {
    LiveConcat(v, [x]);
    SumConcat(AsSlots(LiveList(v)), [x]);
  }

  lemma PackingStart(d0: Buffer, order: seq<nat>)
    requires Wf(d0) && order == SortDesc(Slots(d0), LiveIds(Slots(d0), MaxSlot(d0)))
    ensures Packing(d0, d0, order, 0, PAGE_SIZE)
  {
    assert order[..0] == [];
  }

  /** PackingStep, for the order compaction uses. */
  lemma PackingNext(d0: Buffer, d: Buffer, order: seq<nat>, k: nat, ptr: nat)
    requires Wf(d0) && order == SortDesc(Slots(d0), LiveIds(Slots(d0), MaxSlot(d0))) && k < |order|
    requires Packing(d0, d, order, k, ptr)
    ensures SlotPos(order[k] + 1) <= PAGE_SIZE && ptr <= PAGE_SIZE
    ensures var s := SlotAt(d, order[k]);
            && s == SlotAt(d0, order[k]) && s.size <= ptr && s.offset + s.size <= PAGE_SIZE
            && Packing(d0, MoveEdit(d, order[k], ptr), order, k + 1, ptr - s.size)
  {
    hide Packing, SortDesc, LiveIds, MoveEdit, SumSize, Packed;
    OrderIsLive(d0);
    assert forall a :: 0 <= a < |order| ==> order[a] in order;
    PackingBound(d0, d, order, k, ptr);
    PackingStep(d0, d, order, k, ptr);
  }

  lemma PackingBound(d0: Buffer, d: Buffer, order: seq<nat>, k: nat, ptr: nat)
    requires Wf(d0) && k <= |order| && AreSlots(Slots(d0), order) && Packing(d0, d, order, k, ptr)
    ensures ptr <= PAGE_SIZE
  {
  }

  /** All live records packed, the heap pointer moved: the page reads as before. */
  lemma PackedPage(d0: Buffer, d: Buffer, order: seq<nat>, ptr: nat)
    requires Wf(d0) && order == SortDesc(Slots(d0), LiveIds(Slots(d0), MaxSlot(d0)))
    requires Packing(d0, d, order, |order|, ptr)
    ensures ptr == PAGE_SIZE - SumSize(AsSlots(LiveList(View(d0).slots)))
    ensures var d1 := Put16(d, OFF_FREE_PTR, ptr);
            && MaxSlot(d1) == MaxSlot(d0) && Tag(d1) == Tag(d0) && FreePtr(d1) == ptr && FreePtr(d0) <= ptr <= PAGE_SIZE
            && Views(d1, Slots(d1)) == Views(d0, Slots(d0))
            && Packed(Slots(d1), ptr)
  {
    hide SumSize, OrderSize, Packed, Descending, SortDesc, LiveIds, Put16;
    OrderIsLive(d0);
    assert order[..|order|] == order;
    PackingDone(d0, d, order, ptr);
    var d1 := Put16(d, OFF_FREE_PTR, ptr);
    Put16Reads(d, OFF_FREE_PTR, ptr);
    SameTag(d, d1);
    assert MaxSlot(d1) == MaxSlot(d);
    SameArray(d, d1, MaxSlot(d));
    assert Slots(d1) == Slots(d);
    SameHeap(d, d1, Slots(d), ptr);
  }

  lemma OrderIsLive(d: Buffer)
    requires Wf(d)
    ensures var order := SortDesc(Slots(d), LiveIds(Slots(d), MaxSlot(d)));
            && Descending(Slots(d), order)
            && (forall i: nat :: i in order <==> i < MaxSlot(d) && SlotAt(d, i).offset != 0)
            && OrderSize(Slots(d), order) == SumSize(AsSlots(LiveList(View(d).slots)))
  {
    var slots := Slots(d);
    LiveIdsAre(slots, MaxSlot(d));
    SortDescSorts(slots, LiveIds(slots, MaxSlot(d)));
    hide SumSize, OrderSize, Descending, SortDesc, LiveIds, NoDup;
    assert slots[..MaxSlot(d)] == slots;
    LiveIdsSize(d, slots, MaxSlot(d));
  }

  /** The tombstones dropped from a packed page: exactly the compacted page. */
  lemma CompactedPage(d0: Buffer, d1: Buffer, d: Buffer, w: nat)
    requires Wf(d0) && MaxSlot(d1) == MaxSlot(d0) && Tag(d1) == Tag(d0)
    requires FreePtr(d0) <= FreePtr(d1) <= PAGE_SIZE
    requires FreePtr(d1) == PAGE_SIZE - SumSize(AsSlots(LiveList(View(d0).slots)))
    requires Views(d1, Slots(d1)) == Views(d0, Slots(d0))
    requires Packed(Slots(d1), FreePtr(d1))
    requires Dropping(d1, d, MaxSlot(d1), w)
    ensures w < TWO16
    ensures var e := Put16(d, OFF_MAX_SLOT, w); Wf(e) && View(e) == Compact(View(d0))
  {
    hide SumSize, Put16, Packed;
    var n, ptr, slots := MaxSlot(d1), FreePtr(d1), Slots(d1);
    var e := Put16(d, OFF_MAX_SLOT, w);
    Put16Reads(d, OFF_MAX_SLOT, w);
    SameTag(d1, e);
    assert FreePtr(e) == ptr && MaxSlot(e) == w;
    SameArray(d, e, w);
    assert Slots(e) == LiveSlots(slots, n);
    LiveSlotsPacked(slots, n, ptr);
    PackedBounds(slots, ptr);
    LiveSlotsRead(d1, slots, n);
    assert slots[..n] == slots;
    SameHeap(d1, e, Slots(e), ptr);
  }

  lemma PackedBounds(slots: seq<Slot>, free: nat)
    requires Packed(slots, free)
    ensures forall i :: 0 <= i < |slots| && slots[i].offset != 0 ==> slots[i].offset + slots[i].size <= PAGE_SIZE
  {
  }
}
