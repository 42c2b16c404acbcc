/**
 * The byte layout of a slotted page: a 40-byte header, the slot array growing up behind it, and the
 * record heap growing down from the end. `View` reads a buffer as a Page, `Wf` is the layout invariant.
 */
module PageBytes {
  import opened Bytes
  import opened Pages

  // sizeof and offsets of SlottedPageHeader, whose lsn is 8 bytes wide.
  const OFF_ID: nat := 0
  const OFF_MAX_SLOT: nat := 20
  const OFF_FREE_PTR: nat := 22
  const OFF_KIND: nat := 24
  const OFF_LEFT: nat := 28
  const OFF_RIGHT: nat := 32

  type Buffer = d: seq<Byte> | |d| == PAGE_SIZE witness seq(PAGE_SIZE, _ => 0)

  datatype Slot = Slot(offset: nat, size: nat)

  function MaxSlot(d: Buffer): nat { U16(d, OFF_MAX_SLOT) }

  function FreePtr(d: Buffer): nat { U16(d, OFF_FREE_PTR) }

  function SlotPos(i: nat): nat { HEADER_SIZE + SLOT_SIZE * i }

  predicate Roomy(d: Buffer) { SlotPos(MaxSlot(d)) <= PAGE_SIZE }

  function SlotAt(d: Buffer, i: nat): Slot
    requires SlotPos(i + 1) <= PAGE_SIZE
  {
    Slot(U16(d, SlotPos(i)), U16(d, SlotPos(i) + 2))
  }

  function Slots(d: Buffer): (r: seq<Slot>)
    requires Roomy(d)
    ensures |r| == MaxSlot(d)
    ensures forall i :: 0 <= i < MaxSlot(d) ==> r[i] == SlotAt(d, i)
  {
    seq(MaxSlot(d), i requires 0 <= i < MaxSlot(d) => SlotAt(d, i))
  }

  function Read(d: Buffer, s: Slot): SlotView {
    if s.offset == 0 || s.offset + s.size > PAGE_SIZE then Dead(s.size) else Live(d[s.offset..s.offset + s.size])
  }

  function Views(d: Buffer, slots: seq<Slot>): (r: seq<SlotView>)
    ensures |r| == |slots| && forall i :: 0 <= i < |r| ==> r[i] == Read(d, slots[i])
  {
    seq(|slots|, i requires 0 <= i < |slots| => Read(d, slots[i]))
  }

  function View(d: Buffer): Page
    requires Roomy(d)
  {
    Page(U32(d, OFF_ID), if d[OFF_KIND] == 0 then Internal else Leaf,
         U32(d, OFF_LEFT), U32(d, OFF_RIGHT), FreePtr(d), Views(d, Slots(d)))
  }

  /**
   * The layout in bytes: the page id at 0, the number of slots at 20, the heap pointer at 22, the kind at 24, the links
   * at 28 and 32, all low byte first; slot i's offset and size at 40 + 4i, and a slot whose offset is 0 is dead.
   */
  lemma LayoutIs(d: Buffer)
    requires Wf(d)
    ensures var v := View(d);
            && v.id == U32(d, 0) && v.left == U32(d, 28) && v.right == U32(d, 32)
            && (v.kind == Internal <==> d[24] == 0) && (v.kind == Leaf <==> d[24] == 1)
            && |v.slots| == (d[20] as int) + 256 * (d[21] as int) && v.freePtr == (d[22] as int) + 256 * (d[23] as int)
            && 40 + 4 * |v.slots| <= 4096
    ensures forall i :: 0 <= i < |View(d).slots| ==>
              var at, size := (d[40 + 4 * i] as int) + 256 * (d[41 + 4 * i] as int),
                              (d[42 + 4 * i] as int) + 256 * (d[43 + 4 * i] as int);
              && (at == 0 ==> View(d).slots[i] == Dead(size))
              && (at > 0 ==> at + size <= 4096 && View(d).slots[i] == Live(d[at..at + size]))
  {
  }

  predicate Apart(a: Slot, b: Slot) {
    a.offset + a.size <= b.offset || b.offset + b.size <= a.offset
  }

  /** Live records lie between `free` and the end of the page, and no two overlap. */
  predicate Packed(slots: seq<Slot>, free: nat) {
    && (forall i :: 0 <= i < |slots| && slots[i].offset != 0 ==>
          free <= slots[i].offset && 0 < slots[i].size && slots[i].offset + slots[i].size <= PAGE_SIZE)
    && (forall i, j :: 0 <= i < j < |slots| && slots[i].offset != 0 && slots[j].offset != 0 ==>
        Apart(slots[i], slots[j]))
  }

  /** The layout invariant: the slot array ends at or below the heap, and every slot was paid for by heap space. */
  predicate Wf(d: Buffer) {
    && SlotPos(MaxSlot(d)) <= FreePtr(d) <= PAGE_SIZE
    && d[OFF_KIND] <= 1
    && Packed(Slots(d), FreePtr(d))
    && SumSize(View(d).slots) <= PAGE_SIZE - FreePtr(d)
  }

  lemma WfIsValid(d: Buffer)
    requires Wf(d)
    ensures Valid(View(d))
  {
  }

  /** Everything a page says about itself apart from its slots and heap pointer. */
  function Tag(d: Buffer): (nat, Byte, nat, nat) {
    (U32(d, OFF_ID), d[OFF_KIND], U32(d, OFF_LEFT), U32(d, OFF_RIGHT))
  }

  /** Slots only depend on the bytes of the slot array. */
  lemma SameArray(d: Buffer, e: Buffer, n: nat)
    requires SlotPos(n) <= PAGE_SIZE
    requires forall k :: SlotPos(0) <= k < SlotPos(n) ==> d[k] == e[k]
    ensures forall i :: 0 <= i < n ==> SlotAt(d, i) == SlotAt(e, i)
  {
  }

  /** Records only depend on the heap above the heap pointer. */
  lemma SameHeap(d: Buffer, e: Buffer, slots: seq<Slot>, free: nat)
    requires Packed(slots, free)
    requires forall k :: free <= k < PAGE_SIZE ==> d[k] == e[k]
    ensures Views(d, slots) == Views(e, slots)
  {
    forall i | 0 <= i < |slots| && slots[i].offset != 0
      ensures Read(d, slots[i]) == Read(e, slots[i])
    {
      var s := slots[i];
      assert d[s.offset..s.offset + s.size] == e[s.offset..s.offset + s.size];
    }
  }

  lemma PackedInsert(slots: seq<Slot>, free: nat, pos: nat, size: nat)
    requires Packed(slots, free) && pos <= |slots| && 0 < size < free <= PAGE_SIZE
    ensures Packed(slots[..pos] + [Slot(free - size, size)] + slots[pos..], free - size)
  {
  }

  lemma InsertViews(d: Buffer, e: Buffer, slots: seq<Slot>, free: nat, pos: nat, rec: Record)
    requires Packed(slots, free) && pos <= |slots| && 0 < |rec| < free <= PAGE_SIZE
    requires e[free - |rec|..free] == rec
    requires forall k :: free <= k < PAGE_SIZE ==> e[k] == d[k]
    ensures Views(e, slots[..pos] + [Slot(free - |rec|, |rec|)] + slots[pos..])
         == Views(d, slots)[..pos] + [Live(rec)] + Views(d, slots)[pos..]
  {
    SameHeap(d, e, slots, free);
    var after := slots[..pos] + [Slot(free - |rec|, |rec|)] + slots[pos..];
    assert Views(e, after) == Views(e, slots)[..pos] + [Live(rec)] + Views(e, slots)[pos..];
  }

  lemma SpliceInSum(before: seq<SlotView>, after: seq<SlotView>, pos: nat, rec: Record)
    requires pos <= |before| && after == before[..pos] + [Live(rec)] + before[pos..]
    ensures SumSize(after) == SumSize(before) + |rec|
  {
    SpliceIn(before, pos, rec);
  }

  /** A record at the new heap pointer and its slot opened at `pos`: the page with that record put in. */
  lemma InsertBytes(d: Buffer, e: Buffer, pos: nat, rec: Record)
    requires Wf(d) && pos <= MaxSlot(d) && rec != [] && |rec| + SLOT_SIZE <= Gap(View(d))
    requires Tag(e) == Tag(d) && Roomy(e) && FreePtr(e) == FreePtr(d) - |rec|
    requires Slots(e) == Slots(d)[..pos] + [Slot(FreePtr(e), |rec|)] + Slots(d)[pos..]
    requires e[FreePtr(e)..FreePtr(d)] == rec
    requires forall k :: FreePtr(d) <= k < PAGE_SIZE ==> e[k] == d[k]
    ensures Wf(e)
    ensures View(e) == View(d).(slots := View(d).slots[..pos] + [Live(rec)] + View(d).slots[pos..],
                                freePtr := FreePtr(d) - |rec|)
  {
    hide SumSize, Packed, Views, Slots, Tag;
    TagIs(d); TagIs(e);
    InsertViews(d, e, Slots(d), FreePtr(d), pos, rec);
    PackedInsert(Slots(d), FreePtr(d), pos, |rec|);
    SpliceInSum(View(d).slots, View(e).slots, pos, rec);
  }

  function Put16(d: Buffer, off: nat, x: nat): Buffer
    requires off + 2 <= PAGE_SIZE && x < TWO16
  {
    Splice(d, off, Bytes16(x))
  }

  function PutSlot(d: Buffer, i: nat, s: Slot): Buffer
    requires SlotPos(i + 1) <= PAGE_SIZE && s.offset < TWO16 && s.size < TWO16
  {
    Put16(Put16(d, SlotPos(i), s.offset), SlotPos(i) + 2, s.size)
  }

  lemma PutSlotReads(d: Buffer, i: nat, s: Slot)
    requires SlotPos(i + 1) <= PAGE_SIZE && s.offset < TWO16 && s.size < TWO16
    ensures SlotAt(PutSlot(d, i, s), i) == s
    ensures forall k :: 0 <= k < PAGE_SIZE && !(SlotPos(i) <= k < SlotPos(i + 1)) ==> PutSlot(d, i, s)[k] == d[k]
    ensures forall j: nat {:trigger SlotAt(d, j)} {:trigger SlotAt(PutSlot(d, i, s), j)} ::
              j != i && SlotPos(j + 1) <= PAGE_SIZE ==> SlotAt(PutSlot(d, i, s), j) == SlotAt(d, j)
  {
    var e := PutSlot(d, i, s);
    var x, y := Bytes16(s.offset), Bytes16(s.size);
    assert e[SlotPos(i)] == x[0] && e[SlotPos(i) + 1] == x[1] && e[SlotPos(i) + 2] == y[0] && e[SlotPos(i) + 3] == y[1];
    assert U16(x, 0) == s.offset && U16(y, 0) == s.size;
  }

  /** The buffer with every slot from `pos` on moved up by one, as memmove leaves it. */
  function OpenSlot(d: Buffer, pos: nat, n: nat): Buffer
    requires pos <= n && SlotPos(n + 1) <= PAGE_SIZE
  {
    Splice(d, SlotPos(pos + 1), d[SlotPos(pos)..SlotPos(n)])
  }

  lemma OpenSlotReads(d: Buffer, pos: nat, n: nat)
    requires pos <= n && SlotPos(n + 1) <= PAGE_SIZE
    ensures var e := OpenSlot(d, pos, n);
            && (forall i :: 0 <= i < pos ==> SlotAt(e, i) == SlotAt(d, i))
            && (forall i :: pos < i < n + 1 ==> SlotAt(e, i) == SlotAt(d, i - 1))
            && (forall k :: 0 <= k < PAGE_SIZE && !(SlotPos(pos) <= k < SlotPos(n + 1)) ==> e[k] == d[k])
  {
    var e := OpenSlot(d, pos, n);
    forall i | pos < i < n + 1
      ensures SlotAt(e, i) == SlotAt(d, i - 1)
    {
      forall k | SlotPos(i) <= k < SlotPos(i + 1)
        ensures e[k] == d[k - SLOT_SIZE]
      {
        assert e[k] == d[SlotPos(pos)..SlotPos(n)][k - SlotPos(pos + 1)];
      }
    }
  }

  /** The byte edits of a positioned insert once the gap is known to suffice. */
  function InsertEdit(d: Buffer, pos: nat, rec: Record): Buffer
    requires Wf(d) && pos <= MaxSlot(d) && |rec| + SLOT_SIZE <= Gap(View(d))
  {
    var n, ptr := MaxSlot(d), FreePtr(d) - |rec|;
    var d1 := Put16(d, OFF_FREE_PTR, ptr);
    var d2 := Splice(d1, ptr, rec);
    var d3 := OpenSlot(d2, pos, n);
    var d4 := Put16(d3, OFF_MAX_SLOT, n + 1);
    PutSlot(d4, pos, Slot(ptr, |rec|))
  }

  lemma Put16Reads(d: Buffer, off: nat, x: nat)
    requires off + 2 <= PAGE_SIZE && x < TWO16
    ensures U16(Put16(d, off, x), off) == x
    ensures forall k :: 0 <= k < PAGE_SIZE && !(off <= k < off + 2) ==> Put16(d, off, x)[k] == d[k]
  {
    var b := Bytes16(x);
    assert Put16(d, off, x)[off] == b[0] && Put16(d, off, x)[off + 1] == b[1] && U16(b, 0) == x;
  }

  lemma SameTag(d: Buffer, e: Buffer)
    requires forall k :: 0 <= k < HEADER_SIZE && !(OFF_MAX_SLOT <= k < OFF_KIND) ==> d[k] == e[k]
    ensures Tag(d) == Tag(e)
  {
  }

  /** The record copied to the new heap pointer, no slot written yet. */
  function PushEdit(d: Buffer, rec: Record): Buffer
    requires Wf(d) && |rec| <= Gap(View(d))
  {
    Splice(Put16(d, OFF_FREE_PTR, FreePtr(d) - |rec|), FreePtr(d) - |rec|, rec)
  }

  lemma PushEditIs(d: Buffer, rec: Record)
    requires Wf(d) && |rec| <= Gap(View(d))
    ensures |rec| <= FreePtr(d)
    ensures PushEdit(d, rec) == Splice(Put16(d, OFF_FREE_PTR, FreePtr(d) - |rec|), FreePtr(d) - |rec|, rec)
  {
  }

  lemma PushEditRefines(d: Buffer, rec: Record)
    requires Wf(d) && |rec| <= Gap(View(d))
    ensures var e := PushEdit(d, rec);
            && Wf(e) && View(e) == View(d).(freePtr := FreePtr(d) - |rec|)
            && Tag(e) == Tag(d) && MaxSlot(e) == MaxSlot(d) && FreePtr(e) == FreePtr(d) - |rec|
            && Slots(e) == Slots(d) && e[FreePtr(e)..FreePtr(d)] == rec
            && (forall k :: FreePtr(d) <= k < PAGE_SIZE ==> e[k] == d[k])
  {
    hide SumSize, Put16, Tag;
    var e, ptr := PushEdit(d, rec), FreePtr(d) - |rec|;
    var d1 := Put16(d, OFF_FREE_PTR, ptr);
    Put16Reads(d, OFF_FREE_PTR, ptr);
    SameTag(d, e);
    TagIs(d); TagIs(e);
    SameArray(d, e, MaxSlot(d));
    assert Slots(e) == Slots(d);
    assert e[ptr..FreePtr(d)] == rec;
    SameHeap(d, e, Slots(d), FreePtr(d));
  }

  lemma TagIs(d: Buffer)
    ensures Tag(d) == (U32(d, OFF_ID), d[OFF_KIND], U32(d, OFF_LEFT), U32(d, OFF_RIGHT))
  {
  }

  /** Slot `pos` opened and filled: the slot array has it, and nothing else changes. */
  lemma OpenEditReads(d: Buffer, pos: nat, s: Slot)
    requires Roomy(d) && pos <= MaxSlot(d) && SlotPos(MaxSlot(d) + 1) <= PAGE_SIZE
    requires MaxSlot(d) + 1 < TWO16 && s.offset < TWO16 && s.size < TWO16
    ensures var n := MaxSlot(d);
            var e := PutSlot(Put16(OpenSlot(d, pos, n), OFF_MAX_SLOT, n + 1), pos, s);
            && Tag(e) == Tag(d) && MaxSlot(e) == n + 1 && FreePtr(e) == FreePtr(d)
            && (forall k :: SlotPos(n + 1) <= k < PAGE_SIZE ==> e[k] == d[k])
            && (forall i :: 0 <= i < pos ==> SlotAt(e, i) == SlotAt(d, i))
            && (forall i :: pos < i < n + 1 ==> SlotAt(e, i) == SlotAt(d, i - 1))
            && SlotAt(e, pos) == s
  {
    hide Put16, OpenSlot, PutSlot, Tag, SlotAt;
    var n := MaxSlot(d);
    var d3 := OpenSlot(d, pos, n);
    var d4 := Put16(d3, OFF_MAX_SLOT, n + 1);
    var e := PutSlot(d4, pos, s);
    OpenSlotReads(d, pos, n);
    Put16Reads(d3, OFF_MAX_SLOT, n + 1);
    PutSlotReads(d4, pos, s);
    SameArray(d3, d4, n + 1);
    SameTag(d, e);
    SameU16(d4, e, OFF_MAX_SLOT);
    SameU16(d, e, OFF_FREE_PTR);
  }

  lemma SameU16(d: Buffer, e: Buffer, off: nat)
    requires off + 2 <= PAGE_SIZE && d[off] == e[off] && d[off + 1] == e[off + 1]
    ensures U16(d, off) == U16(e, off)
  {
  }

  /** Writing the heap pointer, the record, the shifted slots and the slot count leaves all else alone. */
  lemma InsertEditReads(d: Buffer, pos: nat, rec: Record)
    requires Wf(d) && pos <= MaxSlot(d) && rec != [] && |rec| + SLOT_SIZE <= Gap(View(d))
    ensures var e, ptr := InsertEdit(d, pos, rec), FreePtr(d) - |rec|;
            && Tag(e) == Tag(d) && MaxSlot(e) == MaxSlot(d) + 1 && FreePtr(e) == ptr
            && e[ptr..FreePtr(d)] == rec
            && (forall k :: FreePtr(d) <= k < PAGE_SIZE ==> e[k] == d[k])
            && Slots(e) == Slots(d)[..pos] + [Slot(ptr, |rec|)] + Slots(d)[pos..]
  {
    hide SumSize, Packed, Put16, OpenSlot, PutSlot, Tag, SlotAt, PushEdit, Views;
    var n, ptr, d2 := MaxSlot(d), FreePtr(d) - |rec|, PushEdit(d, rec);
    PushEditRefines(d, rec);
    InsertEditIs(d, pos, rec);
    PushEditIs(d, rec);
    OpenEditReads(d2, pos, Slot(ptr, |rec|));
    hide InsertEdit, Wf;
    var e := InsertEdit(d, pos, rec);
    assert e[ptr..FreePtr(d)] == d2[ptr..FreePtr(d)];
    assert Slots(e) == Slots(d2)[..pos] + [Slot(ptr, |rec|)] + Slots(d2)[pos..];
  }

  lemma InsertEditIs(d: Buffer, pos: nat, rec: Record)
    requires Wf(d) && pos <= MaxSlot(d) && |rec| + SLOT_SIZE <= Gap(View(d))
    ensures View(d).freePtr == FreePtr(d) <= PAGE_SIZE && |View(d).slots| == MaxSlot(d)
    ensures SlotPos(MaxSlot(d) + 1) <= FreePtr(d) - |rec|
    ensures var n, ptr := MaxSlot(d), FreePtr(d) - |rec|;
            InsertEdit(d, pos, rec)
            == PutSlot(Put16(OpenSlot(Splice(Put16(d, OFF_FREE_PTR, ptr), ptr, rec), pos, n), OFF_MAX_SLOT, n + 1),
                       pos, Slot(ptr, |rec|))
  {
  }

  lemma InsertEditRefines(d: Buffer, pos: nat, rec: Record)
    requires Wf(d) && pos <= MaxSlot(d) && rec != [] && |rec| + SLOT_SIZE <= Gap(View(d))
    ensures Wf(InsertEdit(d, pos, rec))
    ensures View(InsertEdit(d, pos, rec))
         == View(d).(slots := View(d).slots[..pos] + [Live(rec)] + View(d).slots[pos..], freePtr := FreePtr(d) - |rec|)
  {
    hide InsertEdit, SumSize, Packed;
    InsertEditReads(d, pos, rec);
    InsertBytes(d, InsertEdit(d, pos, rec), pos, rec);
  }

  // ---- unpositioned insertion and in-place update ----------------------------------------------

  /** Slot f overwritten with the record just pushed, whatever it held. */
  lemma ReuseEditRefines(d: Buffer, f: nat, rec: Record)
    requires Wf(d) && f < MaxSlot(d) && rec != [] && |rec| <= Gap(View(d))
    ensures var e := PutSlot(PushEdit(d, rec), f, Slot(FreePtr(d) - |rec|, |rec|));
            Wf(e) && View(e) == View(d).(slots := View(d).slots[f := Live(rec)], freePtr := FreePtr(d) - |rec|)
  {
    hide SumSize, Put16, PushEdit, PutSlot, Tag, Packed, Views, SlotAt;
    PushEditRefines(d, rec);
    var d1, s := PushEdit(d, rec), Slot(FreePtr(d) - |rec|, |rec|);
    var e := PutSlot(d1, f, s);
    SetSlotReads(d1, f, s);
    assert Slots(e) == Slots(d)[f := s];
    assert e[s.offset..s.offset + s.size] == d1[FreePtr(d1)..FreePtr(d)];
    ReusedBytes(d, e, f, rec);
  }

  lemma SetSlotReads(d: Buffer, f: nat, s: Slot)
    requires Roomy(d) && f < MaxSlot(d) && s.offset < TWO16 && s.size < TWO16
    ensures var e := PutSlot(d, f, s);
            && Tag(e) == Tag(d) && MaxSlot(e) == MaxSlot(d) && FreePtr(e) == FreePtr(d)
            && (forall k :: SlotPos(MaxSlot(d)) <= k < PAGE_SIZE ==> e[k] == d[k])
            && Slots(e) == Slots(d)[f := s]
  {
    hide PutSlot, Tag, SlotAt;
    var e := PutSlot(d, f, s);
    PutSlotReads(d, f, s);
    SameTag(d, e);
    SameU16(d, e, OFF_MAX_SLOT);
    SameU16(d, e, OFF_FREE_PTR);
    assert Slots(e) == Slots(d)[f := s];
  }

  lemma ReusedBytes(d: Buffer, e: Buffer, f: nat, rec: Record)
    requires Wf(d) && f < MaxSlot(d) && rec != [] && |rec| <= Gap(View(d))
    requires Tag(e) == Tag(d) && MaxSlot(e) == MaxSlot(d) && FreePtr(e) == FreePtr(d) - |rec|
    requires Slots(e) == Slots(d)[f := Slot(FreePtr(d) - |rec|, |rec|)]
    requires e[FreePtr(d) - |rec|..FreePtr(d)] == rec
    requires forall k :: FreePtr(d) <= k < PAGE_SIZE ==> e[k] == d[k]
    ensures Wf(e) && View(e) == View(d).(slots := View(d).slots[f := Live(rec)], freePtr := FreePtr(d) - |rec|)
  {
    hide SumSize, Tag, Packed, Views, SlotAt;
    TagIs(d); TagIs(e);
    ReplaceViews(d, e, Slots(d), FreePtr(d), f, rec);
    PackedReplace(Slots(d), FreePtr(d), f, |rec|);
    hide Slots;
    ReplaceSum(Views(d, Slots(d)), f, Live(rec));
  }

  lemma ReplaceViews(d: Buffer, e: Buffer, slots: seq<Slot>, free: nat, f: nat, rec: Record)
    requires Packed(slots, free) && f < |slots| && 0 < |rec| < free <= PAGE_SIZE
    requires e[free - |rec|..free] == rec
    requires forall k :: free <= k < PAGE_SIZE ==> e[k] == d[k]
    ensures Views(e, slots[f := Slot(free - |rec|, |rec|)]) == Views(d, slots)[f := Live(rec)]
  {
    SameHeap(d, e, slots, free);
    assert Views(e, slots[f := Slot(free - |rec|, |rec|)]) == Views(e, slots)[f := Live(rec)];
  }

  lemma PackedReplace(slots: seq<Slot>, free: nat, f: nat, size: nat)
    requires Packed(slots, free) && f < |slots| && 0 < size < free <= PAGE_SIZE
    ensures Packed(slots[f := Slot(free - size, size)], free - size)
  {
  }

  lemma ReplaceSum(v: seq<SlotView>, i: nat, x: SlotView)
    requires i < |v|
    ensures SumSize(v[i := x]) == SumSize(v) - Size(v[i]) + Size(x)
  {
    var a, b := v[..i], v[i + 1..];
    assert v == a + [v[i]] + b && v[i := x] == a + [x] + b;
    SumConcat(a + [v[i]], b); SumConcat(a, [v[i]]);
    SumConcat(a + [x], b); SumConcat(a, [x]);
  }

  /** Same-length overwrite of a live record: that record changes and nothing else. */
  lemma UpdateEditRefines(d: Buffer, i: nat, rec: Record)
    requires Wf(d) && i < MaxSlot(d) && SlotAt(d, i).offset != 0 && SlotAt(d, i).size == |rec|
    ensures var e := Splice(d, SlotAt(d, i).offset, rec);
            Wf(e) && View(e) == View(d).(slots := View(d).slots[i := Live(rec)])
  {
    var s := SlotAt(d, i);
    assert Slots(d)[i] == s && SlotPos(MaxSlot(d)) <= s.offset && s.offset + s.size <= PAGE_SIZE;
    hide SumSize, Tag, Packed;
    var e := Splice(d, s.offset, rec);
    UpdatedViews(d, e, Slots(d), FreePtr(d), i, rec);
    SameTag(d, e);
    TagIs(d); TagIs(e);
    SameU16(d, e, OFF_MAX_SLOT);
    SameU16(d, e, OFF_FREE_PTR);
    SameArray(d, e, MaxSlot(d));
    assert Slots(e) == Slots(d);
    hide Views, Slots;
    ReplaceSum(Views(d, Slots(d)), i, Live(rec));
  }

  lemma UpdatedViews(d: Buffer, e: Buffer, slots: seq<Slot>, free: nat, i: nat, rec: Record)
    requires Packed(slots, free) && i < |slots| && slots[i].offset != 0 && slots[i].size == |rec|
    requires slots[i].offset + |rec| <= PAGE_SIZE && e == Splice(d, slots[i].offset, rec)
    ensures Views(e, slots) == Views(d, slots)[i := Live(rec)]
  {
    var s := slots[i];
    forall j | 0 <= j < |slots|
      ensures Views(e, slots)[j] == Views(d, slots)[i := Live(rec)][j]
    {
      var t := slots[j];
      if t.offset != 0 {
        if j != i {
          assert Apart(s, t) by {
            if i < j {
              assert Apart(slots[i], slots[j]);
            } else {
              assert Apart(slots[j], slots[i]);
            }
          }
          assert e[t.offset..t.offset + t.size] == d[t.offset..t.offset + t.size];
        } else {
          assert e[t.offset..t.offset + t.size] == rec;
        }
      }
    }
  }
}
