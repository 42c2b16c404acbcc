/**
 * The slotted page itself: every operation edits one 4096-byte buffer in place, and is proved to do to
 * the page's view what the functions of module Pages say.
 */
module SlottedPages {
  import opened Bytes
  import opened Pages
  import opened PageBytes
  import opened Compaction

  class SlottedPage {
    const data: array<Byte>

    ghost predicate IsBuffer()
      reads data
    {
      data.Length == PAGE_SIZE
    }

    ghost predicate Valid()
      reads data
    {
      IsBuffer() && Wf(data[..])
    }

    ghost function View(): Page
      reads data
      requires Valid()
    {
      PageBytes.View(data[..])
    }

    /** Wraps a buffer; the buffer is not owned and not changed. */
    constructor (data: array<Byte>)
      ensures this.data == data
    {
      this.data := data;
    }

    // ---- raw edits ----------------------------------------------------------------------------

    method Store16(off: nat, x: nat)
      requires IsBuffer() && off + 2 <= PAGE_SIZE && x < TWO16
      modifies data
      ensures data[..] == Put16(old(data[..]), off, x)
    {
      data[off], data[off + 1] := x % 256, x / 256;
    }

    method Store32(off: nat, x: nat)
      requires IsBuffer() && off + 4 <= PAGE_SIZE && x < TWO32
      modifies data
      ensures data[..] == Splice(old(data[..]), off, Bytes32(x))
    {
      hide Bytes32;
      var b := Bytes32(x);
      data[off], data[off + 1], data[off + 2], data[off + 3] := b[0], b[1], b[2], b[3];
    }

    method Copy(off: nat, s: seq<Byte>)
      requires IsBuffer() && off + |s| <= PAGE_SIZE
      modifies data
      ensures data[..] == Splice(old(data[..]), off, s)
    {
      forall k | 0 <= k < |s| {
        data[off + k] := s[k];
      }
    }

    /** memmove: the ranges may overlap. */
    method Move(to: nat, from: nat, len: nat)
      requires IsBuffer() && to + len <= PAGE_SIZE && from + len <= PAGE_SIZE
      modifies data
      ensures data[..] == Splice(old(data[..]), to, old(data[from..from + len]))
    {
      forall k | 0 <= k < len {
        data[to + k] := data[from + k];
      }
    }

    method StoreSlot(i: nat, s: Slot)
      requires IsBuffer() && SlotPos(i + 1) <= PAGE_SIZE && s.offset < TWO16 && s.size < TWO16
      modifies data
      ensures data[..] == PutSlot(old(data[..]), i, s)
    {
      Store16(SlotPos(i), s.offset);
      Store16(SlotPos(i) + 2, s.size);
    }

    method Load16(off: nat) returns (x: nat)
      requires IsBuffer() && off + 2 <= PAGE_SIZE
      ensures x == U16(data[..], off)
    {
      x := (data[off] as int) + 256 * data[off + 1] as int;
    }

    method Load32(off: nat) returns (x: nat)
      requires IsBuffer() && off + 4 <= PAGE_SIZE
      ensures x == U32(data[..], off)
    {
      x := (data[off] as int) + 256 * (data[off + 1] as int) + 0x1_0000 * (data[off + 2] as int)
        + 0x100_0000 * data[off + 3] as int;
    }

    method LoadSlot(i: nat) returns (s: Slot)
      requires IsBuffer() && SlotPos(i + 1) <= PAGE_SIZE
      ensures s == SlotAt(data[..], i)
    {
      var o := Load16(SlotPos(i));
      var z := Load16(SlotPos(i) + 2);
      s := Slot(o, z);
    }

    // ---- operations ---------------------------------------------------------------------------

    /** Formats the buffer as an empty page; whatever it held is gone. */
    method Init(id: nat, kind: PageKind)
      requires IsBuffer() && id < TWO32
      modifies data
      ensures Valid() && View() == Pages.Init(id, kind)
      ensures View() == Page(id, kind, 0xFFFF_FFFF, 0xFFFF_FFFF, 4096, [])
    {
      forall k | 0 <= k < PAGE_SIZE {
        data[k] := 0;
      }
      ghost var z := data[..];
      Store32(OFF_ID, id);
      Store16(OFF_FREE_PTR, PAGE_SIZE);
      data[OFF_KIND] := if kind == Internal then 0 else 1;
      Store32(OFF_LEFT, INVALID_PAGE);
      Store32(OFF_RIGHT, INVALID_PAGE);
      InitReads(z, id, kind, data[..]);
    }

    lemma InitReads(z: Buffer, id: nat, kind: PageKind, e: Buffer)
      requires id < TWO32 && forall k :: 0 <= k < PAGE_SIZE ==> z[k] == 0
      requires var top := Put16(Splice(z, OFF_ID, Bytes32(id)), OFF_FREE_PTR, PAGE_SIZE);
               var typed := top[OFF_KIND := if kind == Internal then 0 else 1];
               e == Splice(Splice(typed, OFF_LEFT, Bytes32(INVALID_PAGE)), OFF_RIGHT, Bytes32(INVALID_PAGE))
      ensures Wf(e) && PageBytes.View(e) == Pages.Init(id, kind)
    {
      var a := Splice(z, OFF_ID, Bytes32(id));
      SpliceU32(z, OFF_ID, id, OFF_ID);
      var b := Put16(a, OFF_FREE_PTR, PAGE_SIZE);
      Put16Reads(a, OFF_FREE_PTR, PAGE_SIZE);
      var c := b[OFF_KIND := if kind == Internal then 0 else 1];
      var d := Splice(c, OFF_LEFT, Bytes32(INVALID_PAGE));
      SpliceU32(c, OFF_LEFT, INVALID_PAGE, OFF_LEFT);
      SpliceU32(d, OFF_RIGHT, INVALID_PAGE, OFF_RIGHT);
      SpliceU32(d, OFF_RIGHT, INVALID_PAGE, OFF_LEFT);
      assert Slots(e) == [];
      assert Views(e, Slots(e)) == [];
    }

    method GetSlotCount() returns (n: nat)
      requires Valid()
      ensures n == |View().slots|
    {
      n := Load16(OFF_MAX_SLOT);
    }

    method GetKind() returns (k: PageKind)
      requires Valid()
      ensures k == View().kind
    {
      k := if data[OFF_KIND] == 0 then Internal else Leaf;
    }

    method GetLeft() returns (p: nat)
      requires Valid()
      ensures p == View().left
    {
      p := Load32(OFF_LEFT);
    }

    method GetRight() returns (p: nat)
      requires Valid()
      ensures p == View().right
    {
      p := Load32(OFF_RIGHT);
    }

    method SetLeft(p: nat)
      requires Valid() && p < TWO32
      modifies data
      ensures Valid() && View() == old(View()).(left := p)
    {
      ghost var d := data[..];
      Store32(OFF_LEFT, p);
      SiblingEdit(d, OFF_LEFT, p);
    }

    method SetRight(p: nat)
      requires Valid() && p < TWO32
      modifies data
      ensures Valid() && View() == old(View()).(right := p)
    {
      ghost var d := data[..];
      Store32(OFF_RIGHT, p);
      SiblingEdit(d, OFF_RIGHT, p);
    }

    static lemma SiblingEdit(d: Buffer, off: nat, p: nat)
      requires Wf(d) && p < TWO32 && (off == OFF_LEFT || off == OFF_RIGHT)
      ensures var e := Splice(d, off, Bytes32(p));
              && Wf(e)
              && PageBytes.View(e)
                 == if off == OFF_LEFT then PageBytes.View(d).(left := p) else PageBytes.View(d).(right := p)
    {
      hide SumSize, Packed;
      var e := Splice(d, off, Bytes32(p));
      SpliceU32(d, off, p, OFF_ID);
      SpliceU32(d, off, p, OFF_LEFT);
      SpliceU32(d, off, p, OFF_RIGHT);
      SameArray(d, e, MaxSlot(d));
      assert Slots(d) == Slots(e);
      SameHeap(d, e, Slots(d), FreePtr(d));
    }

    /** The bytes of a live slot; empty when the slot is out of range or dead. */
    method GetRecord(i: nat) returns (rec: Record)
      requires Valid()
      ensures rec == Pages.GetRecord(View(), i)
      ensures rec == if i < |View().slots| && View().slots[i].Live? then View().slots[i].rec else []
    {
      var n := GetSlotCount();
      if i >= n {
        return [];
      }
      var s := LoadSlot(i);
      assert Slots(data[..])[i] == s;
      if s.offset == 0 {
        return [];
      }
      rec := data[s.offset..s.offset + s.size];
    }

    method GetFreeSpace() returns (gap: nat)
      requires Valid()
      ensures gap == Gap(View()) == View().freePtr - 40 - 4 * |View().slots|
    {
      var f := Load16(OFF_FREE_PTR);
      var n := Load16(OFF_MAX_SLOT);
      gap := f - SlotPos(n);
    }

    method GetTotalFreeSpace() returns (space: nat)
      requires Valid()
      ensures space == TotalFree(View())
    {
      var gap := GetFreeSpace();
      space := gap;
      var n := GetSlotCount();
      ghost var v := View().slots;
      for i := 0 to n
        invariant space == gap + DeadSpace(v[..i])
      {
        var s := LoadSlot(i);
        assert Slots(data[..])[i] == s;
        assert v[..i + 1] == v[..i] + [v[i]];
        SumConcat(v[..i], [v[i]]);
        if s.offset == 0 {
          space := space + s.size + SLOT_SIZE;
        }
      }
      assert v[..n] == v;
    }

    /** Tombstones a slot by zeroing its offset; its bytes and size stay. */
    method DeleteRecord(i: nat) returns (ok: bool)
      requires Valid()
      modifies data
      ensures Valid() && (ok, View()) == Delete(old(View()), i)
      ensures ok <==> i < |old(View()).slots| && old(View()).slots[i].Live?
      ensures View() == if ok then old(View()).(slots := old(View()).slots[i := Dead(|old(View()).slots[i].rec|)])
                        else old(View())
    {
      var n := GetSlotCount();
      if i >= n {
        return false;
      }
      var s := LoadSlot(i);
      ghost var d := data[..];
      assert Slots(d)[i] == s;
      if s.offset == 0 {
        return false;
      }
      Store16(SlotPos(i), 0);
      DeleteEdit(d, i);
      ok := true;
    }

    static lemma DeleteEdit(d: Buffer, i: nat)
      requires Wf(d) && i < MaxSlot(d) && SlotAt(d, i).offset != 0
      ensures var e := Put16(d, SlotPos(i), 0); Wf(e) && (true, PageBytes.View(e)) == Delete(PageBytes.View(d), i)
    {
      hide SumSize, Put16;
      var e := Put16(d, SlotPos(i), 0);
      Put16Reads(d, SlotPos(i), 0);
      OtherSlotsStay(d, e, i, FreePtr(d), MaxSlot(d));
      SameTag(d, e);
      var s := SlotAt(d, i);
      assert Slots(d)[i] == s;
      assert Slots(e) == Slots(d)[i := Slot(0, s.size)];
      SameHeap(d, e, Slots(d), FreePtr(d));
      assert Views(e, Slots(e)) == Views(d, Slots(d))[i := Dead(s.size)];
      ReplaceSum(Views(d, Slots(d)), i, Dead(s.size));
    }

    /**
     * Packs the live records at the end of the page and drops the tombstones from the slot array.
     * The buffer is edited in place; no move overwrites a live record that still has to move.
     */
    method Compactify()
      requires Valid()
      modifies data
      ensures Valid() && View() == Compact(old(View()))
    {
      ghost var d0 := data[..];
      var n := GetSlotCount();
      var live := CollectLive(n);
      var order := SortDesc(Slots(data[..]), live);
      var ptr := PackRecords(order);
      PackedPage(d0, data[..], order, ptr);
      Store16(OFF_FREE_PTR, ptr);
      ghost var d1 := data[..];
      var w := DropTombstones(n);
      CompactedPage(d0, d1, data[..], w);
      Store16(OFF_MAX_SLOT, w);
    }

    /** First pass of Compactify: the records, highest offset first. */
    method PackRecords(order: seq<nat>) returns (ptr: nat)
      requires Valid() && order == SortDesc(Slots(data[..]), LiveIds(Slots(data[..]), MaxSlot(data[..])))
      modifies data
      ensures Packing(old(data[..]), data[..], order, |order|, ptr)
    {
      ghost var d0: Buffer := data[..];
      hide Wf, Slots, SortDesc, LiveIds, Packing;
      ptr := PAGE_SIZE;
      PackingStart(d0, order);
      for k := 0 to |order|
        invariant Packing(d0, data[..], order, k, ptr)
      {
        ptr := PackNext(d0, order, k, ptr);
      }
    }

    method PackNext(ghost d0: Buffer, order: seq<nat>, k: nat, ptr: nat) returns (to: nat)
      requires IsBuffer() && Wf(d0) && k < |order|
      requires order == SortDesc(Slots(d0), LiveIds(Slots(d0), MaxSlot(d0)))
      requires Packing(d0, data[..], order, k, ptr)
      modifies data
      ensures Packing(d0, data[..], order, k + 1, to)
    {
      hide Wf, Slots, SortDesc, LiveIds, Packing, MoveEdit, SlotAt, MaxSlot;
      PackingNext(d0, data[..], order, k, ptr);
      to := MoveRecord(order[k], ptr);
    }

    /** Moves slot i's record so that it ends at ptr, unless it already does. */
    method MoveRecord(i: nat, ptr: nat) returns (to: nat)
      requires IsBuffer() && SlotPos(i + 1) <= PAGE_SIZE
      requires SlotAt(data[..], i).size <= ptr <= PAGE_SIZE
      requires SlotAt(data[..], i).offset + SlotAt(data[..], i).size <= PAGE_SIZE
      modifies data
      ensures data[..] == MoveEdit(old(data[..]), i, ptr) && to == ptr - SlotAt(old(data[..]), i).size
    {
      hide Put16, Splice, SlotAt;
      var s := LoadSlot(i);
      to := ptr - s.size;
      if s.offset != to {
        Move(to, s.offset, s.size);
        Store16(SlotPos(i), to);
      }
    }

    /** Second pass of Compactify: a stable in-place filter of the slot array. */
    method DropTombstones(n: nat) returns (w: nat)
      requires IsBuffer() && Roomy(data[..]) && n == MaxSlot(data[..])
      modifies data
      ensures Dropping(old(data[..]), data[..], n, w)
    {
      hide SlotAt, KeepEdit, PutSlot, Dropping;
      ghost var d1: Buffer := data[..];
      w := 0;
      DroppingStart(d1);
      for r := 0 to n
        invariant data.Length == PAGE_SIZE && Dropping(d1, data[..], r, w)
      {
        w := KeepOrDrop(d1, r, w);
      }
    }

    /** Looks at slot r: a live one is copied down to place w. */
    method KeepOrDrop(ghost d1: Buffer, r: nat, w: nat) returns (w': nat)
      requires IsBuffer() && Roomy(d1) && r < MaxSlot(d1) && Dropping(d1, data[..], r, w)
      modifies data
      ensures Dropping(d1, data[..], r + 1, w')
    {
      DroppingIn(d1, data[..], r, w);
      hide SlotAt, PutSlot, Dropping;
      DroppingStep(d1, data[..], r, w);
      var s := LoadSlot(r);
      w' := w;
      if s.offset != 0 {
        if w != r {
          StoreSlot(w, s);
        }
        w' := w + 1;
      }
    }

    method CollectLive(n: nat) returns (live: seq<nat>)
      requires Valid() && n == MaxSlot(data[..])
      ensures live == LiveIds(Slots(data[..]), n)
    {
      live := [];
      for i := 0 to n
        invariant live == LiveIds(Slots(data[..]), i)
      {
        var s := LoadSlot(i);
        assert Slots(data[..])[i] == s;
        if s.offset != 0 {
          live := live + [i];
        }
      }
    }

    method CanInsertContiguous(length: nat, needsSlot: bool) returns (ok: bool)
      requires Valid()
      ensures ok <==> Gap(View()) >= length + if needsSlot then SLOT_SIZE else 0
    {
      var gap := GetFreeSpace();
      ok := gap >= length + if needsSlot then SLOT_SIZE else 0;
    }

    /** Inserts at a slot position, re-translating the position when the page has to be compacted first. */
    method InsertRecordAt(logicalPos: nat, rec: Record) returns (slot: Option<nat>)
      requires Valid() && |rec| <= MAX_RECORD
      modifies data
      ensures Valid() && (slot, View()) == InsertAt(old(View()), logicalPos, rec)
    {
      hide Wf, PageBytes.View, LiveList, Compact, DeadSpace;
      var ok := HasRoom(logicalPos, rec);
      if !ok {
        return None;
      }
      var pos := MakeRoom(logicalPos, |rec|);
      PlaceRecord(pos, rec);
      slot := Some(pos);
    }

    method HasRoom(pos: nat, rec: Record) returns (ok: bool)
      requires Valid() && |rec| <= MAX_RECORD
      ensures ok <==> rec != [] && pos <= |View().slots| && |rec| + SLOT_SIZE <= TotalFree(View())
    {
      var n := GetSlotCount();
      if rec == [] || pos > n {
        return false;
      }
      var total := GetTotalFreeSpace();
      ok := (|rec| + SLOT_SIZE) % TWO16 <= total;
    }

    /** Compacts the page if the gap is too small for `length` more bytes and a slot, and follows slot `pos`. */
    method MakeRoom(pos: nat, length: nat) returns (at: nat)
      requires Valid() && pos <= |View().slots| && length + SLOT_SIZE <= TotalFree(View())
      modifies data
      ensures Valid() && at <= |View().slots| && length + SLOT_SIZE <= Gap(View())
      ensures if Gap(old(View())) >= length + SLOT_SIZE then View() == old(View()) && at == pos
              else View() == Compact(old(View())) && at == |LiveList(old(View()).slots[..pos])|
    {
      hide Wf, SumSize, DeadSpace, LiveList, Compact;
      at := pos;
      WfIsValid(data[..]);
      var fits := CanInsertContiguous(length, true);
      if !fits {
        at := LiveBefore(pos);
        CompactedFree(View());
        RankAfterCompact(View(), pos);
        Compactify();
      }
    }

    /** How many of the first `pos` slots are live: where slot `pos` goes when the page is compacted. */
    method LiveBefore(pos: nat) returns (before: nat)
      requires Valid() && pos <= |View().slots|
      ensures before == |LiveList(View().slots[..pos])|
    {
      ghost var v := View();
      before := 0;
      for i := 0 to pos
        invariant before == |LiveList(v.slots[..i])|
      {
        var s := LoadSlot(i);
        assert Slots(data[..])[i] == s;
        assert v.slots[..i + 1] == v.slots[..i] + [v.slots[i]];
        LiveConcat(v.slots[..i], [v.slots[i]]);
        if s.offset != 0 {
          before := before + 1;
        }
      }
    }

    /** Copies the record into the heap and opens slot `pos` for it. */
    method PlaceRecord(pos: nat, rec: Record)
      requires Valid() && pos <= |View().slots| && rec != [] && |rec| + SLOT_SIZE <= Gap(View())
      modifies data
      ensures Valid()
      ensures View() == old(View()).(slots := old(View()).slots[..pos] + [Live(rec)] + old(View()).slots[pos..],
                                     freePtr := old(View()).freePtr - |rec|)
    {
      hide Wf, PageBytes.View, InsertEdit, Put16, PutSlot, OpenSlot, Splice;
      ghost var d: Buffer := data[..];
      PlaceFits(d, pos, rec);
      var n := Load16(OFF_MAX_SLOT);
      var f := Load16(OFF_FREE_PTR);
      var ptr := f - |rec|;
      Store16(OFF_FREE_PTR, ptr);
      Copy(ptr, rec);
      OpenSlotAt(pos, n);
      Store16(OFF_MAX_SLOT, n + 1);
      StoreSlot(pos, Slot(ptr, |rec|));
    }

    static lemma PlaceFits(d: Buffer, pos: nat, rec: Record)
      requires Wf(d) && pos <= |PageBytes.View(d).slots| && rec != [] && |rec| + SLOT_SIZE <= Gap(PageBytes.View(d))
      ensures pos <= MaxSlot(d) && MaxSlot(d) + 1 < TWO16 && SlotPos(MaxSlot(d) + 1) <= FreePtr(d) - |rec|
              && FreePtr(d) <= PAGE_SIZE
      ensures Wf(InsertEdit(d, pos, rec))
      ensures var n, ptr, v := MaxSlot(d), FreePtr(d) - |rec|, PageBytes.View(d);
              && InsertEdit(d, pos, rec)
                 == PutSlot(Put16(OpenSlot(Splice(Put16(d, OFF_FREE_PTR, ptr), ptr, rec), pos, n), OFF_MAX_SLOT, n + 1),
                            pos, Slot(ptr, |rec|))
              && PageBytes.View(InsertEdit(d, pos, rec))
                 == v.(slots := v.slots[..pos] + [Live(rec)] + v.slots[pos..], freePtr := v.freePtr - |rec|)
    {
      ViewBounds(d);
      hide Wf, PageBytes.View, InsertEdit, Put16, PutSlot, OpenSlot, FreePtr, MaxSlot;
      InsertEditRefines(d, pos, rec);
      InsertEditIs(d, pos, rec);
    }

    method OpenSlotAt(pos: nat, n: nat)
      requires IsBuffer() && pos <= n && SlotPos(n + 1) <= PAGE_SIZE
      modifies data
      ensures data[..] == OpenSlot(old(data[..]), pos, n)
    {
      Move(SlotPos(pos + 1), SlotPos(pos), SLOT_SIZE * (n - pos));
    }

    method FindFirstFree() returns (f: nat)
      requires Valid()
      ensures f == FirstDead(View().slots)
    {
      var n := GetSlotCount();
      f := 0;
      while f < n
        invariant f <= n && forall i :: 0 <= i < f ==> View().slots[i].Live?
      {
        var s := LoadSlot(f);
        assert Slots(data[..])[f] == s;
        if s.offset == 0 {
          break;
        }
        f := f + 1;
      }
    }

    /** Inserts into the first free slot; the slot number is chosen before the page is compacted. */
    method InsertRecord(rec: Record) returns (r: InsertResult)
      requires Valid() && |rec| <= MAX_RECORD
      modifies data
      ensures Valid() && (r, View()) == Insert(old(View()), rec)
    {
      hide Wf, PageBytes.View, LiveList, Compact, DeadSpace;
      if rec == [] {
        return NoSpace;
      }
      var f := FindFirstFree();
      var n := GetSlotCount();
      var total := GetTotalFreeSpace();
      var needed := |rec| + if f == n then SLOT_SIZE else 0;
      if needed % TWO16 > total {
        return NoSpace;
      }
      if f == n {
        NoDeadNoGain(View().slots);
        AppendRecord(rec);
        return Stored(f);
      }
      GapFor(needed);
      r := StoreInSlot(f, rec);
    }

    method AppendRecord(rec: Record)
      requires Valid() && rec != [] && |rec| + SLOT_SIZE <= Gap(View())
      modifies data
      ensures Valid()
      ensures View() == old(View()).(slots := old(View()).slots + [Live(rec)], freePtr := old(View()).freePtr - |rec|)
    {
      hide Wf, PageBytes.View;
      var n := GetSlotCount();
      PlaceRecord(n, rec);
      assert old(View()).slots[..n] + [Live(rec)] + old(View()).slots[n..] == old(View()).slots + [Live(rec)];
    }

    method GapFor(needed: nat)
      requires Valid() && needed <= TotalFree(View())
      modifies data
      ensures Valid() && needed <= Gap(View())
      ensures View() == if Gap(old(View())) >= needed then old(View()) else Compact(old(View()))
    {
      WfIsValid(data[..]);
      hide Wf, PageBytes.View, LiveList, Compact, DeadSpace;
      var gap := GetFreeSpace();
      if gap < needed {
        CompactedFree(View());
        Compactify();
      }
    }

    /** Pushes the record and points slot f at it, if there still is a slot f. */
    method StoreInSlot(f: nat, rec: Record) returns (r: InsertResult)
      requires Valid() && rec != [] && |rec| <= Gap(View())
      modifies data
      ensures Valid()
      ensures if f < |old(View()).slots|
              then r == Stored(f) && View() == old(View()).(slots := old(View()).slots[f := Live(rec)],
                                                            freePtr := old(View()).freePtr - |rec|)
              else r == Aborted && View() == old(View()).(freePtr := old(View()).freePtr - |rec|)
    {
      ghost var d := data[..];
      var n := GetSlotCount();
      PushEditRefines(d, rec);
      var ptr := PushRecord(rec);
      if f < n {
        StoreEdit(d, f, ptr, rec);
        hide Wf, PageBytes.View, PutSlot, PushEdit;
        StoreSlot(f, Slot(ptr, |rec|));
        r := Stored(f);
      } else {
        r := Aborted;
      }
    }

    method PushRecord(rec: Record) returns (ptr: nat)
      requires Valid() && |rec| <= Gap(View())
      modifies data
      ensures data[..] == PushEdit(old(data[..]), rec) && ptr == old(View()).freePtr - |rec|
    {
      PushEditIs(data[..], rec);
      assert View().freePtr == FreePtr(data[..]) <= PAGE_SIZE;
      hide Wf, PageBytes.View, Put16, Splice, PushEdit;
      var free := Load16(OFF_FREE_PTR);
      ptr := free - |rec|;
      Store16(OFF_FREE_PTR, ptr);
      Copy(ptr, rec);
    }

    static lemma ViewBounds(d: Buffer)
      requires Wf(d)
      ensures SlotPos(MaxSlot(d)) <= FreePtr(d) <= PAGE_SIZE && PageBytes.View(d).freePtr == FreePtr(d)
      ensures |PageBytes.View(d).slots| == MaxSlot(d)
    {
    }

    static lemma StoreEdit(d: Buffer, f: nat, ptr: nat, rec: Record)
      requires Wf(d) && f < MaxSlot(d) && rec != [] && |rec| <= Gap(PageBytes.View(d)) && ptr == FreePtr(d) - |rec|
      ensures SlotPos(f + 1) <= PAGE_SIZE && ptr < TWO16 && |rec| < TWO16
      ensures var e, v := PutSlot(PushEdit(d, rec), f, Slot(ptr, |rec|)), PageBytes.View(d);
              Wf(e) && PageBytes.View(e) == v.(slots := v.slots[f := Live(rec)], freePtr := v.freePtr - |rec|)
    {
      hide Wf, PageBytes.View, PutSlot, PushEdit, FreePtr, MaxSlot;
      ViewBounds(d);
      ReuseEditRefines(d, f, rec);
    }

    /**
     * Overwrites a slot with a record of the same length. The code does not look for tombstones: on one
     * whose size matches, the record lands at offset 0, over the page header.
     */
    method UpdateRecord(i: nat, rec: Record) returns (ok: bool)
      requires Valid()
      modifies data
      ensures ok <==> i < |old(View()).slots| && Size(old(View()).slots[i]) == |rec|
      ensures !ok ==> data[..] == old(data[..])
      ensures ok && old(View()).slots[i].Live? ==>
                Valid() && View() == old(View()).(slots := old(View()).slots[i := Live(rec)])
      ensures ok && old(View()).slots[i].Dead? ==> |rec| <= PAGE_SIZE && data[..] == rec + old(data[..])[|rec|..]
    {
      var n := GetSlotCount();
      if i >= n {
        return false;
      }
      var s := LoadSlot(i);
      ghost var d := data[..];
      assert Slots(d)[i] == s;
      SizeOfSlot(d, i);
      if s.size != |rec| {
        return false;
      }
      if s.offset != 0 {
        UpdateEditRefines(d, i, rec);
      }
      hide Wf, PageBytes.View;
      Copy(s.offset, rec);
      ok := true;
    }

    static lemma SizeOfSlot(d: Buffer, i: nat)
      requires Wf(d) && i < MaxSlot(d)
      ensures Size(PageBytes.View(d).slots[i]) == SlotAt(d, i).size <= PAGE_SIZE
      ensures PageBytes.View(d).slots[i].Live? <==> SlotAt(d, i).offset != 0
      ensures SlotAt(d, i).offset + SlotAt(d, i).size <= PAGE_SIZE
    {
      assert Slots(d)[i] == SlotAt(d, i);
      SizeInSum(PageBytes.View(d).slots, i);
    }
  }
}
