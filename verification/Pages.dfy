/**
 * A slotted page as its callers see it: the slots in order, each a live record or a tombstone, and
 * the offset where the record heap starts. The functions here say what each SlottedPage operation does
 * to that view; SlottedPage.dfy proves that the byte buffer does the same.
 */
module Pages {
  import opened Bytes

  const PAGE_SIZE: nat := 4096
  const HEADER_SIZE: nat := 40
  const SLOT_SIZE: nat := 4
  const INVALID_PAGE: nat := 0xFFFF_FFFF
  /** Record lengths above this wrap `length + sizeof(Slot)`, which the code keeps in 16 bits. */
  const MAX_RECORD: nat := 65531

  type Record = seq<Byte>

  datatype PageKind = Internal | Leaf

  datatype SlotView = Live(rec: Record) | Dead(size: nat)

  datatype Page = Page(id: nat, kind: PageKind, left: nat, right: nat, freePtr: int, slots: seq<SlotView>)

  function Size(s: SlotView): nat {
    match s
    case Live(rec) => |rec|
    case Dead(size) => size
  }

  function SumSize(slots: seq<SlotView>): nat {
    if slots == [] then 0 else Size(slots[0]) + SumSize(slots[1..])
  }

  /** What compaction would give back: the heap bytes and the slot entry of every tombstone. */
  function DeadSpace(slots: seq<SlotView>): nat {
    if slots == [] then 0
    else (if slots[0].Dead? then slots[0].size + SLOT_SIZE else 0) + DeadSpace(slots[1..])
  }

  function LiveList(slots: seq<SlotView>): seq<Record> {
    if slots == [] then []
    else (if slots[0].Live? then [slots[0].rec] else []) + LiveList(slots[1..])
  }

  /** The records, as slots: what a page holding just them has. */
  function AsSlots(recs: seq<Record>): (r: seq<SlotView>)
    ensures |r| == |recs| && forall i :: 0 <= i < |r| ==> r[i] == Live(recs[i])
  {
    seq(|recs|, i requires 0 <= i < |recs| => Live(recs[i]))
  }

  function SlotsEnd(p: Page): nat {
    HEADER_SIZE + SLOT_SIZE * |p.slots|
  }

  function Gap(p: Page): int {
    p.freePtr - SlotsEnd(p)
  }

  function TotalFree(p: Page): int {
    Gap(p) + DeadSpace(p.slots)
  }

  predicate Valid(p: Page) {
    && SlotsEnd(p) <= p.freePtr <= PAGE_SIZE
    && SumSize(p.slots) <= PAGE_SIZE - p.freePtr
    && (forall i :: 0 <= i < |p.slots| && p.slots[i].Live? ==> p.slots[i].rec != [])
    && p.id < TWO32 && p.left < TWO32 && p.right < TWO32
  }

  function Init(id: nat, kind: PageKind): Page {
    Page(id, kind, INVALID_PAGE, INVALID_PAGE, PAGE_SIZE, [])
  }

  /** The bytes of a slot, empty when the slot is out of range or dead. */
  function GetRecord(p: Page, i: nat): Record {
    if i < |p.slots| && p.slots[i].Live? then p.slots[i].rec else []
  }

  function Delete(p: Page, i: nat): (bool, Page) {
    if i < |p.slots| && p.slots[i].Live? then
      (true, p.(slots := p.slots[i := Dead(|p.slots[i].rec|)]))
    else
      (false, p)
  }

  function Compact(p: Page): Page {
    var live := AsSlots(LiveList(p.slots));
    p.(slots := live, freePtr := PAGE_SIZE - SumSize(live))
  }

  function InsertAt(p: Page, pos: nat, rec: Record): (Option<nat>, Page) {
    if rec == [] || pos > |p.slots| || |rec| + SLOT_SIZE > TotalFree(p) then
      (None, p)
    else if Gap(p) >= |rec| + SLOT_SIZE then
      (Some(pos), p.(slots := p.slots[..pos] + [Live(rec)] + p.slots[pos..], freePtr := p.freePtr - |rec|))
    else
      LiveSplit(p.slots, pos);
      var c := Compact(p);
      var at := |LiveList(p.slots[..pos])|;
      (Some(at), c.(slots := c.slots[..at] + [Live(rec)] + c.slots[at..], freePtr := c.freePtr - |rec|))
  }

  function FirstDead(slots: seq<SlotView>): (f: nat)
    ensures f <= |slots|
    ensures f < |slots| ==> slots[f].Dead?
    ensures forall i :: 0 <= i < f ==> slots[i].Live?
  {
    if slots == [] || slots[0].Dead? then 0 else 1 + FirstDead(slots[1..])
  }

  function Needed(p: Page, rec: Record): nat {
    |rec| + if FirstDead(p.slots) == |p.slots| then SLOT_SIZE else 0
  }

  lemma {:induction false} SizeInSum(slots: seq<SlotView>, i: nat)
    requires i < |slots|
    ensures Size(slots[i]) <= SumSize(slots)
  {
    if i > 0 {
      SizeInSum(slots[1..], i - 1);
    }
  }

  /** How an unpositioned insert ends; Aborted is its failed assertion on the slot pointer. */
  datatype InsertResult = Stored(slot: nat) | NoSpace | Aborted

  /**
   * The slot for the record is chosen before compaction and used after it, as the code does. With no
   * tombstone the page cannot need compaction, and with one the slot number is stale afterwards.
   */
  function Insert(p: Page, rec: Record): (InsertResult, Page) {
    var f := FirstDead(p.slots);
    var append := f == |p.slots|;
    var needed := Needed(p, rec);
    if rec == [] || needed > TotalFree(p) then
      (NoSpace, p)
    else if Gap(p) >= needed then
      (Stored(f), p.(slots := if append then p.slots + [Live(rec)] else p.slots[f := Live(rec)],
                     freePtr := p.freePtr - |rec|))
    else
      var c := Compact(p).(freePtr := Compact(p).freePtr - |rec|);
      if f < |c.slots| then (Stored(f), c.(slots := c.slots[f := Live(rec)])) else (Aborted, c)
  }

  // ---- lists of slots ------------------------------------------------------------------------

  lemma {:induction false} LiveConcat(a: seq<SlotView>, b: seq<SlotView>)
    ensures LiveList(a + b) == LiveList(a) + LiveList(b)
  {
    if a == [] {
      assert a + b == b;
    } else {
      LiveConcat(a[1..], b);
      assert (a + b)[1..] == a[1..] + b;
    }
  }

  lemma {:induction false} SumConcat(a: seq<SlotView>, b: seq<SlotView>)
    ensures SumSize(a + b) == SumSize(a) + SumSize(b)
    ensures DeadSpace(a + b) == DeadSpace(a) + DeadSpace(b)
  {
    if a == [] {
      assert a + b == b;
    } else {
      SumConcat(a[1..], b);
      assert (a + b)[1..] == a[1..] + b;
    }
  }

  /** Compaction keeps the records and their order, and what it frees is exactly the dead space. */
  lemma {:induction false} SumLive(slots: seq<SlotView>)
    ensures var live := AsSlots(LiveList(slots));
            && LiveList(live) == LiveList(slots)
            && SumSize(slots) + SLOT_SIZE * |slots| == SumSize(live) + SLOT_SIZE * |live| + DeadSpace(slots)
            && SumSize(live) <= SumSize(slots)
            && DeadSpace(live) == 0
  {
    if slots != [] {
      SumLive(slots[1..]);
      var live, rest := AsSlots(LiveList(slots)), AsSlots(LiveList(slots[1..]));
      if slots[0].Live? {
        assert live == [slots[0]] + rest;
        assert live[1..] == rest;
      } else {
        assert live == rest;
      }
    }
  }

  lemma LiveSplit(slots: seq<SlotView>, pos: nat)
    requires pos <= |slots|
    ensures LiveList(slots) == LiveList(slots[..pos]) + LiveList(slots[pos..])
  {
    assert slots == slots[..pos] + slots[pos..];
    LiveConcat(slots[..pos], slots[pos..]);
  }

  lemma {:induction false} LiveOfRecords(recs: seq<Record>)
    ensures LiveList(AsSlots(recs)) == recs
  {
    if recs != [] {
      LiveOfRecords(recs[1..]);
      assert AsSlots(recs)[1..] == AsSlots(recs[1..]);
    }
  }

  lemma {:induction false} NoDeadNoGain(slots: seq<SlotView>)
    ensures (forall i :: 0 <= i < |slots| ==> slots[i].Live?) <==> DeadSpace(slots) == 0
    ensures DeadSpace(slots) == 0 ==> AsSlots(LiveList(slots)) == slots
  {
    if slots != [] {
      NoDeadNoGain(slots[1..]);
      if slots[0].Live? && DeadSpace(slots[1..]) == 0 {
        assert AsSlots(LiveList(slots)) == [slots[0]] + AsSlots(LiveList(slots[1..]));
      }
    }
  }

  lemma {:induction false} LiveMembers(slots: seq<SlotView>)
    ensures forall r :: r in LiveList(slots) <==> exists i :: 0 <= i < |slots| && slots[i] == Live(r)
  {
    if slots != [] {
      LiveMembers(slots[1..]);
      forall r
        ensures r in LiveList(slots) <==> exists i :: 0 <= i < |slots| && slots[i] == Live(r)
      {
        if slots[0] != Live(r) && r in LiveList(slots[1..]) {
          var i :| 0 <= i < |slots[1..]| && slots[1..][i] == Live(r);
          assert slots[i + 1] == Live(r);
        }
        forall i | 0 < i < |slots| && slots[i] == Live(r)
          ensures r in LiveList(slots[1..])
        {
          assert slots[1..][i - 1] == Live(r);
        }
      }
    }
  }

  // ---- what the operations keep --------------------------------------------------------------

  /** After compaction the contiguous gap is at least the free space reported before it. */
  lemma CompactedFree(p: Page)
    requires Valid(p)
    ensures var c := Compact(p);
            && (c.id, c.kind, c.left, c.right) == (p.id, p.kind, p.left, p.right)
            && |c.slots| == |LiveList(p.slots)|
            && forall i :: 0 <= i < |c.slots| ==> c.slots[i] == Live(LiveList(p.slots)[i])
    ensures Valid(Compact(p))
    ensures LiveList(Compact(p).slots) == LiveList(p.slots)
    ensures Gap(Compact(p)) == TotalFree(Compact(p))
    ensures TotalFree(p) <= Gap(Compact(p))
  {
    SumLive(p.slots);
    LiveMembers(p.slots);
  }

  lemma ValidDelete(p: Page, i: nat)
    requires Valid(p)
    ensures Valid(Delete(p, i).1)
    ensures Delete(p, i).0 <==> i < |p.slots| && p.slots[i].Live?
    ensures Delete(p, i).0 ==>
              LiveList(Delete(p, i).1.slots) == LiveList(p.slots[..i]) + LiveList(p.slots[i + 1..])
              && LiveList(p.slots) == LiveList(p.slots[..i]) + [p.slots[i].rec] + LiveList(p.slots[i + 1..])
    ensures TotalFree(Delete(p, i).1) >= TotalFree(p)
  {
    if i < |p.slots| && p.slots[i].Live? {
      var a, x, y, b := p.slots[..i], [p.slots[i]], [Dead(|p.slots[i].rec|)], p.slots[i + 1..];
      assert p.slots == a + x + b && p.slots[i := y[0]] == a + y + b;
      LiveConcat(a + x, b); LiveConcat(a, x); LiveConcat(a + y, b); LiveConcat(a, y);
      SumConcat(a + x, b); SumConcat(a, x); SumConcat(a + y, b); SumConcat(a, y);
    }
  }

  lemma {:induction false} SpliceIn(slots: seq<SlotView>, pos: nat, rec: Record)
    requires pos <= |slots|
    ensures var s := slots[..pos] + [Live(rec)] + slots[pos..];
            && SumSize(s) == SumSize(slots) + |rec|
            && DeadSpace(s) == DeadSpace(slots)
            && LiveList(s) == LiveList(slots[..pos]) + [rec] + LiveList(slots[pos..])
  {
    var a, x, b := slots[..pos], [Live(rec)], slots[pos..];
    assert slots == a + b;
    SumConcat(a, b); SumConcat(a + x, b); SumConcat(a, x);
    LiveConcat(a + x, b); LiveConcat(a, x);
  }

  /** `rec` was put in at slot `at` of the new page, at the rank `pos` had among the old live slots. */
  ghost predicate Inserted(p: Page, pos: nat, rec: Record, at: nat, p': Page) {
    && pos <= |p.slots| && at < |p'.slots| && p'.slots[at] == Live(rec)
    && LiveList(p'.slots[..at]) == LiveList(p.slots[..pos])
    && LiveList(p'.slots[at + 1..]) == LiveList(p.slots[pos..])
    && LiveList(p.slots) == LiveList(p.slots[..pos]) + LiveList(p.slots[pos..])
    && LiveList(p'.slots) == LiveList(p.slots[..pos]) + [rec] + LiveList(p.slots[pos..])
    && (p'.id, p'.kind, p'.left, p'.right) == (p.id, p.kind, p.left, p.right)
  }

  lemma InsertedDirectly(p: Page, pos: nat, rec: Record)
    requires Valid(p) && rec != [] && pos <= |p.slots| && |rec| + SLOT_SIZE <= Gap(p)
    ensures var p' := p.(slots := p.slots[..pos] + [Live(rec)] + p.slots[pos..], freePtr := p.freePtr - |rec|);
            Valid(p') && Inserted(p, pos, rec, pos, p')
  {
    SpliceIn(p.slots, pos, rec);
    LiveSplit(p.slots, pos);
    var s := p.slots[..pos] + [Live(rec)] + p.slots[pos..];
    assert s[..pos] == p.slots[..pos] && s[pos + 1..] == p.slots[pos..];
  }

  /** The rank of a slot among the live ones is its position once the tombstones are gone. */
  lemma RankAfterCompact(p: Page, pos: nat)
    requires Valid(p) && pos <= |p.slots|
    ensures var at := |LiveList(p.slots[..pos])|;
            && at <= |Compact(p).slots|
            && LiveList(Compact(p).slots[..at]) == LiveList(p.slots[..pos])
            && LiveList(Compact(p).slots[at..]) == LiveList(p.slots[pos..])
  {
    LiveSplit(p.slots, pos);
    LiveOfRecords(LiveList(p.slots[..pos]));
    LiveOfRecords(LiveList(p.slots[pos..]));
    var at := |LiveList(p.slots[..pos])|;
    assert Compact(p).slots[..at] == AsSlots(LiveList(p.slots[..pos]));
    assert Compact(p).slots[at..] == AsSlots(LiveList(p.slots[pos..]));
  }

  /**
   * Positioned insertion refines list insertion: with or without compaction, the record lands at the
   * rank of `pos` among the live slots, and it is refused exactly when it is empty, out of range or
   * larger than the total free space, leaving the page alone.
   */
  lemma InsertAtRefinesList(p: Page, pos: nat, rec: Record)
    requires Valid(p)
    ensures var (slot, p') := InsertAt(p, pos, rec);
            && Valid(p')
            && (slot == None <==> rec == [] || pos > |p.slots| || |rec| + SLOT_SIZE > TotalFree(p))
            && (slot == None ==> p' == p)
            && (slot.Some? ==> Inserted(p, pos, rec, slot.value, p'))
    ensures var (slot, p') := InsertAt(p, pos, rec);
            slot.Some? ==>
              && var at := slot.value;
              && pos <= |p.slots| && at < |p'.slots| && p'.slots[at] == Live(rec)
              && LiveList(p'.slots[..at]) == LiveList(p.slots[..pos])
              && LiveList(p'.slots[at + 1..]) == LiveList(p.slots[pos..])
              && (p'.id, p'.kind, p'.left, p'.right) == (p.id, p.kind, p.left, p.right)
              && (p.freePtr - HEADER_SIZE - SLOT_SIZE * |p.slots| >= |rec| + SLOT_SIZE ==>
                    at == pos && p'.slots == p.slots[..pos] + [Live(rec)] + p.slots[pos..])
  {
    var (slot, p') := InsertAt(p, pos, rec);
    if slot.Some? {
      if Gap(p) >= |rec| + SLOT_SIZE {
        InsertedDirectly(p, pos, rec);
      } else {
        CompactedFree(p);
        RankAfterCompact(p, pos);
        LiveSplit(p.slots, pos);
        InsertedDirectly(Compact(p), slot.value, rec);
      }
    }
  }

  function Append(p: Page, rec: Record): Page {
    p.(slots := p.slots + [Live(rec)], freePtr := p.freePtr - |rec|)
  }

  /** A page without tombstones takes a record that fits its gap at the end of the slot array. */
  lemma InsertAppends(p: Page, rec: Record)
    requires DeadSpace(p.slots) == 0 && rec != [] && |rec| + SLOT_SIZE <= Gap(p)
    ensures Insert(p, rec) == (Stored(|p.slots|), Append(p, rec))
  {
    NoDeadNoGain(p.slots);
    hide DeadSpace, LiveList;
  }

  lemma AppendKeeps(p: Page, rec: Record)
    requires Valid(p) && DeadSpace(p.slots) == 0 && rec != [] && |rec| + SLOT_SIZE <= Gap(p)
    ensures Valid(Append(p, rec)) && DeadSpace(Append(p, rec).slots) == 0
    ensures Gap(Append(p, rec)) == Gap(p) - |rec| - SLOT_SIZE
  {
    SumConcat(p.slots, [Live(rec)]);
    assert SumSize([Live(rec)]) == |rec| && DeadSpace([Live(rec)]) == 0;
    hide SumSize, DeadSpace;
  }

  function InsertAll(p: Page, recs: seq<Record>): (bool, Page)
    decreases |recs|
  {
    if recs == [] then (true, p)
    else
      var (r, p') := Insert(p, recs[0]);
      if r.Stored? then InsertAll(p', recs[1..]) else (false, p')
  }

  function Footprint(recs: seq<Record>): nat {
    if recs == [] then 0 else |recs[0]| + SLOT_SIZE + Footprint(recs[1..])
  }

  /** The records at the positions marked true. */
  function Select(recs: seq<Record>, keep: seq<bool>): (r: seq<Record>)
    requires |recs| == |keep|
    ensures forall x :: x in r ==> x in recs
  {
    if recs == [] then [] else (if keep[0] then [recs[0]] else []) + Select(recs[1..], keep[1..])
  }

  /** A fresh page takes a list of records one by one as long as they fit the page at all. */
  lemma {:induction false} InsertAllAppends(p: Page, recs: seq<Record>)
    requires Valid(p) && DeadSpace(p.slots) == 0
    requires Footprint(recs) <= Gap(p) && forall r :: r in recs ==> r != []
    ensures var (ok, q) := InsertAll(p, recs);
            && ok && Valid(q) && DeadSpace(q.slots) == 0
            && q == p.(slots := p.slots + AsSlots(recs), freePtr := q.freePtr)
            && Gap(q) == Gap(p) - Footprint(recs)
    decreases |recs|
  {
    hide Insert, Valid, DeadSpace, Gap;
    if recs == [] {
      assert p.slots + AsSlots(recs) == p.slots;
    } else {
      assert recs[0] in recs && forall r :: r in recs[1..] ==> r in recs;
      InsertAppends(p, recs[0]);
      AppendKeeps(p, recs[0]);
      var p' := Append(p, recs[0]);
      InsertAllAppends(p', recs[1..]);
      assert p'.slots + AsSlots(recs[1..]) == p.slots + AsSlots(recs);
    }
  }

  lemma {:induction false} FootprintOfSlots(slots: seq<SlotView>)
    ensures Footprint(LiveList(slots)) <= SumSize(slots) + SLOT_SIZE * |slots|
  {
    if slots != [] {
      FootprintOfSlots(slots[1..]);
      if slots[0].Live? {
        assert LiveList(slots)[1..] == LiveList(slots[1..]);
      } else {
        assert LiveList(slots) == LiveList(slots[1..]);
      }
    }
  }

  /**
   * The total free space is what the page has, less what the live records take with their slot entries, less the heap
   * bytes no slot accounts for.
   */
  lemma TotalFreeIs(p: Page)
    ensures TotalFree(p) == (PAGE_SIZE - HEADER_SIZE - Footprint(LiveList(p.slots)))
                            - (PAGE_SIZE - p.freePtr - SumSize(p.slots))
  {
    SumLive(p.slots);
    FootprintIs(LiveList(p.slots));
  }

  lemma {:induction false} FootprintIs(recs: seq<Record>)
    ensures Footprint(recs) == SumSize(AsSlots(recs)) + SLOT_SIZE * |recs|
  {
    if recs != [] {
      FootprintIs(recs[1..]);
      assert AsSlots(recs)[1..] == AsSlots(recs[1..]);
    }
  }

  lemma {:induction false} FootprintOfSelection(recs: seq<Record>, keep: seq<bool>)
    requires |recs| == |keep|
    ensures Footprint(Select(recs, keep)) <= Footprint(recs)
  {
    if recs != [] {
      FootprintOfSelection(recs[1..], keep[1..]);
      if keep[0] {
        assert Select(recs, keep)[1..] == Select(recs[1..], keep[1..]);
      } else {
        assert Select(recs, keep) == Select(recs[1..], keep[1..]);
      }
    }
  }

  /** Moving any part of a page's records to a fresh page, in order, always succeeds. */
  lemma MovingNeverFails(p: Page, keep: seq<bool>, id: nat, kind: PageKind)
    requires Valid(p) && id < TWO32 && |keep| == |LiveList(p.slots)|
    ensures var moved := Select(LiveList(p.slots), keep);
            var (ok, q) := InsertAll(Init(id, kind), moved);
            ok && Valid(q) && q.slots == AsSlots(moved) && LiveList(q.slots) == moved
  {
    var moved := Select(LiveList(p.slots), keep);
    FootprintOfSlots(p.slots);
    FootprintOfSelection(LiveList(p.slots), keep);
    LiveMembers(p.slots);
    InsertAllAppends(Init(id, kind), moved);
    assert [] + AsSlots(moved) == AsSlots(moved);
    LiveOfRecords(moved);
  }

  lemma AllLiveCount(slots: seq<SlotView>)
    requires forall i :: 0 <= i < |slots| ==> slots[i].Live?
    ensures |LiveList(slots)| == |slots|
  {
    NoDeadNoGain(slots);
  }

  lemma InsertInGap(p: Page, rec: Record)
    requires Valid(p) && rec != [] && Needed(p, rec) <= Gap(p)
    ensures var (r, p') := Insert(p, rec);
            r.Stored? && multiset(LiveList(p'.slots)) == multiset(LiveList(p.slots)) + multiset{rec}
  {
    var f := FirstDead(p.slots);
    var p' := Insert(p, rec).1;
    if f == |p.slots| {
      assert p'.slots == p.slots + [Live(rec)];
      LiveConcat(p.slots, [Live(rec)]);
    } else {
      assert p'.slots == p.slots[..f] + [Live(rec)] + p.slots[f + 1..];
      LiveReplaced(p.slots, f, rec);
    }
  }

  lemma InsertAfterCompact(p: Page, rec: Record)
    requires Valid(p) && Insert(p, rec).0 != NoSpace && Needed(p, rec) > Gap(p)
    ensures |LiveList(Insert(p, rec).1.slots)| == |LiveList(p.slots)|
  {
    var p' := Insert(p, rec).1;
    assert |p'.slots| == |AsSlots(LiveList(p.slots))|;
    AllLiveCount(p'.slots);
  }

  /**
   * Unpositioned insertion adds the record to the ones already there if and only if the contiguous gap
   * suffices. When it has to compact, the stale slot number either overwrites a record or is out of range.
   */
  lemma InsertExact(p: Page, rec: Record)
    requires Valid(p) && Insert(p, rec).0 != NoSpace
    ensures var (r, p') := Insert(p, rec);
            (r.Stored? && multiset(LiveList(p'.slots)) == multiset(LiveList(p.slots)) + multiset{rec})
            <==> Needed(p, rec) <= Gap(p)
  {
    if Needed(p, rec) <= Gap(p) {
      InsertInGap(p, rec);
    } else {
      InsertAfterCompact(p, rec);
      var p' := Insert(p, rec).1;
      assert |multiset(LiveList(p'.slots))| == |LiveList(p.slots)|;
    }
  }

  lemma {:induction false} LiveReplaced(slots: seq<SlotView>, f: nat, rec: Record)
    requires f < |slots| && slots[f].Dead?
    ensures LiveList(slots) == LiveList(slots[..f]) + LiveList(slots[f + 1..])
    ensures LiveList(slots[..f] + [Live(rec)] + slots[f + 1..])
         == LiveList(slots[..f]) + [rec] + LiveList(slots[f + 1..])
  {
    var a, b := slots[..f], slots[f + 1..];
    assert slots == a + [slots[f]] + b;
    LiveConcat(a + [slots[f]], b); LiveConcat(a, [slots[f]]);
    LiveConcat(a + [Live(rec)], b); LiveConcat(a, [Live(rec)]);
  }

  /**
   * Where an unpositioned insert puts its record: in the first dead slot, or in a new one behind the last; refused, and
   * then the page is as it was, exactly when the record is empty or needs more than the total free space.
   */
  lemma InsertPlaces(p: Page, rec: Record)
    requires Valid(p)
    ensures var (r, p') := Insert(p, rec);
            && (p'.id, p'.kind, p'.left, p'.right) == (p.id, p.kind, p.left, p.right)
            && (r == NoSpace ==> p' == p)
            && (r == NoSpace <==>
                  || rec == []
                  || TotalFree(p) < |rec| + if exists i :: 0 <= i < |p.slots| && p.slots[i].Dead? then 0 else SLOT_SIZE)
            && (r.Stored? ==>
                  && r.slot < |p'.slots| && p'.slots[r.slot] == Live(rec) && r.slot <= |p.slots|
                  && (forall i :: 0 <= i < r.slot ==> p.slots[i].Live?)
                  && (r.slot < |p.slots| ==> p.slots[r.slot].Dead?))
  {
    hide TotalFree, LiveList, SumSize;
    var f := FirstDead(p.slots);
    assert f < |p.slots| <==> exists i :: 0 <= i < |p.slots| && p.slots[i].Dead?;
    if f == |p.slots| {
      NoDeadNoGain(p.slots);
      assert TotalFree(p) == Gap(p) by {
        NoDeadGap(p);
      }
    }
  }

  lemma NoDeadGap(p: Page)
    requires DeadSpace(p.slots) == 0
    ensures TotalFree(p) == Gap(p)
  {
  }

  /**
   * Records too long for the 16-bit sum: it wraps to 0 up to 3, so the space check lets them pass if and only if a slot
   * is needed for them, as it always is in a positioned insert, and that much space is free.
   */
  lemma LongRecordPasses(p: Page, rec: Record)
    requires Valid(p) && MAX_RECORD < |rec| < TWO16
    ensures (|rec| + SLOT_SIZE) % TWO16 <= TotalFree(p) <==> |rec| - MAX_RECORD - 1 <= TotalFree(p)
    ensures Needed(p, rec) % TWO16 <= TotalFree(p) <==>
              FirstDead(p.slots) == |p.slots| && |rec| - MAX_RECORD - 1 <= TotalFree(p)
  {
    hide FirstDead, SumSize, DeadSpace;
    SumLive(p.slots);
    assert TotalFree(p) <= PAGE_SIZE;
  }

  /** Three slots, the first one dead, on a full page: the record in the third slot disappears. */
  lemma InsertLosesRecord()
    ensures exists p, rec :: Valid(p) && Insert(p, rec).0 == Stored(0)
                             && LiveList(p.slots) == [[1], [2]] && LiveList(Insert(p, rec).1.slots) == [[3], [2]]
  {
    var p := Page(1, Leaf, INVALID_PAGE, INVALID_PAGE, 52, [Dead(1), Live([1]), Live([2])]);
    var rec: Record := [3];
    assert SumSize(p.slots) == 3 && DeadSpace(p.slots) == 5 by {
      assert p.slots[1..] == [Live([1]), Live([2])];
      assert p.slots[1..][1..] == [Live([2])];
      assert p.slots[1..][1..][1..] == [];
    }
    assert LiveList(p.slots) == [[1], [2]] by {
      assert p.slots[1..] == [Live([1]), Live([2])];
      assert p.slots[1..][1..] == [Live([2])];
    }
    var c := Compact(p);
    assert c.slots == [Live([1]), Live([2])];
    var p' := Insert(p, rec).1;
    assert p'.slots == [Live([3]), Live([2])];
    assert LiveList(p'.slots) == [[3], [2]] by {
      assert p'.slots[1..] == [Live([2])];
      assert p'.slots[1..][1..] == [];
    }
  }
}
