/** The range iterator: it re-seeks by the last key it returned and follows the right links of the leaves. */
module Iterators {
  import opened Bytes
  import opened Pages
  import PageBytes
  import opened SlottedPages
  import opened Disk
  import opened Levels
  import opened Trees
  import opened TreeEdits
  import opened Cascade
  import opened Splits
  import opened BPlusTrees
  import opened RangeScans

  class BPlusTreeIterator {
    const tree: BPlusTree
    const end: int
    /** The slot the scan starts at; only used before the first record has been returned. */
    const startSlot: nat
    ghost const start: int
    var page: nat
    var data: SlottedPage
    var lastKey: Option<int>
    ghost var c: nat

    /** Everything below this has been returned or passed over. */
    ghost function Bound(): int
      reads this
    {
      if lastKey.Some? then lastKey.value + 1 else start
    }

    /** The cursor is in leaf c, whose page is in the buffer. */
    ghost predicate Placed()
      reads this, tree, tree.disk, data, data.data
    {
      && tree.Valid() && data.Valid()
      && |tree.levels| > 0 && InStore(tree.Store(), tree.levels[0])
          && Cursor(tree.Store(), tree.levels[0], c, Bound(), tree.w)
      && page == tree.levels[0][c] && data.View() == tree.Store()[page]
    }

    ghost predicate Valid()
      reads this, tree, tree.disk, data, data.data
    {
      Placed() && (lastKey == None ==> SplitsAt(data.View().slots, startSlot, start, tree.w))
    }

    /** scan: starts at the place findRecord gives for the lower end of the range. */
    constructor Scan(tree: BPlusTree, start: int, end: int)
      requires tree.Valid()
      ensures this.tree == tree && this.end == end && this.start == start && lastKey == None
      ensures Valid() && fresh(data) && fresh(data.data)
    {
      hide PageBytes.View, PageBytes.Wf, StoreOf, DiskManager.Valid, DiskManager.LiveIds, DiskManager.FreeIds,
           Pages.Valid, IsTree, LowerPos, Covers, PathOk, Seps, Cursor, AllRecs, LiveList;
      var leaf, l, stack, c := tree.FindRecord(start);
      CursorStarts(tree.Store(), tree.root, tree.levels, c, leaf, l, stack, start, tree.w);
      var p := tree.LoadPage(leaf);
      this.tree, this.end, this.startSlot, this.start := tree, end, l, start;
      this.page, this.data, this.lastKey, this.c := leaf, p, None, c;
    }

    static lemma CursorStarts(pages: Store, root: nat, levels: seq<seq<nat>>, c: nat, leaf: nat, l: nat,
                              stack: seq<Crumb>, start: int, w: nat)
      requires IsTree(pages, root, levels, w) && BPlusTree.Found(pages, levels, c, leaf, l, stack, start, w)
      ensures InStore(pages, levels[0]) && Cursor(pages, levels[0], c, start, w)
      ensures leaf == levels[0][c] && SplitsAt(pages[leaf].slots, l, start, w)
    {
      TreeAround(pages, root, levels, c, start, w);
      hide IsTree, AllRecs, LiveList, KeyOf;
    }

    /** The slot after the last record returned: first live key above it, found by a tombstone-aware binary search. */
    method SeekFirstAfter(p: SlottedPage, key: int) returns (lo: nat)
      requires p.Valid() && IsLeaf(p.View(), tree.w)
      ensures SplitsAt(p.View().slots, lo, key + 1, tree.w)
    {
      hide PageBytes.View, PageBytes.Wf, Pages.Valid, LiveList, KeyOf, Seeking, SortedRecs;
      ghost var slots := p.View().slots;
      var hi := p.GetSlotCount();
      lo := 0;
      SeekStarts(slots, key, tree.w);
      while lo < hi
        invariant lo <= hi <= |slots| && Seeking(slots, lo, hi, key, tree.w)
      {
        var mid := lo + (hi - lo) / 2;
        var probe, rec := tree.NextLive(p, mid, hi);
        if probe >= hi {
          SeekDead(slots, lo, hi, mid, key, tree.w);
          hi := mid;
        } else {
          SeekLive(slots, lo, hi, probe, key, tree.w);
          if KeyOf(rec, tree.w) <= key {
            lo := probe + 1;
          } else {
            hi := probe;
          }
        }
      }
      SeekDone(slots, lo, key, tree.w);
    }

    static lemma SeekStarts(slots: seq<SlotView>, key: int, w: nat)
      requires SortedRecs(LiveList(slots), w)
      ensures Seeking(slots, 0, |slots|, key, w)
    {
    }

    /**
     * The next record of the range, or nothing. The records come in the order of the whole tree: each call returns the
     * first one not below the bound, if its key is not above the end of the range.
     */
    method Next() returns (r: Option<Record>)
      requires Valid()
      modifies this
      ensures var recs, i := tree.Records(), Rank(tree.Records(), old(Bound()), tree.w);
              && (i < |recs| && KeyOf(recs[i], tree.w) <= end ==> r == Some(recs[i]))
              && (i < |recs| && KeyOf(recs[i], tree.w) > end ==> r == None)
              && (i == |recs| ==> r == None)
      ensures r.Some? ==> Valid() && HasKeyBytes(r.value) && lastKey == Some(KeyOf(r.value, tree.w))
      ensures data == old(data) || (fresh(data) && fresh(data.data))
    {
      hide PageBytes.View, PageBytes.Wf, StoreOf, DiskManager.Valid, DiskManager.LiveIds, DiskManager.FreeIds,
           Pages.Valid, IsTree, Cursor, SplitsAt, AllRecs, LiveList, KeyOf, Rank, SortedRecs, Keyed, IsLeaf,
           FirstLiveFrom;
      ghost var bound := Bound();
      ghost var pages, root, levels := tree.Store(), tree.root, tree.levels;
      var pos := StartSlot();
      r := Advance(pos, bound);
    }

    predicate HasKeyBytes(rec: Record) { tree.w <= |rec| }

    /** Where to start in the current page. */
    method StartSlot() returns (pos: nat)
      requires Valid()
      ensures SplitsAt(data.View().slots, pos, Bound(), tree.w)
    {
      hide PageBytes.View, PageBytes.Wf, StoreOf, DiskManager.Valid, DiskManager.LiveIds, DiskManager.FreeIds,
           Pages.Valid, IsTree, Cursor, SplitsAt, AllRecs, LiveList, KeyOf, IsLeaf;
      CursorIn(tree.Store(), tree.levels[0], c, Bound(), tree.w);
      BPlusTree.PageOfLevel(tree.Store(), tree.root, tree.levels, 0, c, tree.w);
      if lastKey.Some? {
        pos := SeekFirstAfter(data, lastKey.value);
      } else {
        pos := startSlot;
      }
    }

    static lemma CursorIn(pages: Store, leaves: seq<nat>, c: nat, bound: int, w: nat)
      requires Cursor(pages, leaves, c, bound, w)
      ensures c < |leaves| && leaves[c] in pages
    {
    }

    /** Skips tombstones, and whole leaves that are exhausted, until a record turns up. */
    method Advance(from: nat, ghost bound: int) returns (r: Option<Record>)
      requires Placed() && bound == Bound() && SplitsAt(data.View().slots, from, bound, tree.w)
      modifies this
      ensures var recs, i := tree.Records(), Rank(tree.Records(), bound, tree.w);
              && (i < |recs| && KeyOf(recs[i], tree.w) <= end ==> r == Some(recs[i]))
              && (i < |recs| && KeyOf(recs[i], tree.w) > end ==> r == None)
              && (i == |recs| ==> r == None)
      ensures r.Some? ==> Valid() && HasKeyBytes(r.value) && lastKey == Some(KeyOf(r.value, tree.w))
      ensures data == old(data) || (fresh(data) && fresh(data.data))
    {
      hide PageBytes.View, PageBytes.Wf, StoreOf, DiskManager.Valid, DiskManager.LiveIds, DiskManager.FreeIds,
           Pages.Valid, IsTree, Cursor, SplitsAt, AllRecs, LiveList, KeyOf, Rank, SortedRecs, Keyed, IsLeaf,
           FirstLiveFrom, Chained;
      var pos := from;
      r := None;
      while true
        invariant Placed() && Bound() == bound && SplitsAt(data.View().slots, pos, bound, tree.w)
        invariant data == old(data) || (fresh(data) && fresh(data.data))
        decreases |tree.levels[0]| - c
      {
        ghost var slots := data.View().slots;
        SkipDead(slots, pos, bound, tree.w);
        pos := SkipTombstones(pos);
        NextInList(tree.Store(), tree.root, tree.levels, c, pos, bound, tree.w);
        var n := data.GetSlotCount();
        if pos < n {
          r := Emit(pos, bound);
          return;
        }
        var right := data.GetRight();
        RightIs(tree.Store(), tree.root, tree.levels, c, bound, tree.w);
        if right == INVALID_PAGE {
          return;
        }
        CrossOver(tree.Store(), tree.levels[0], c, bound, tree.w);
        CursorIn(tree.Store(), tree.levels[0], c + 1, bound, tree.w);
        var p := tree.LoadPage(right);
        page, data, c := right, p, c + 1;
        pos := 0;
      }
    }

    /** The right link of leaf c: the next leaf, or nothing behind the last one. */
    static lemma RightIs(pages: Store, root: nat, levels: seq<seq<nat>>, c: nat, bound: int, w: nat)
      requires IsTree(pages, root, levels, w) && InStore(pages, levels[0]) && Cursor(pages, levels[0], c, bound, w)
      requires forall x :: x in pages ==> x < MAX_PAGES
      ensures c < |levels[0]| && levels[0][c] in pages
      ensures var right := pages[levels[0][c]].right;
              && (right == INVALID_PAGE <==> c + 1 == |levels[0]|)
              && (right != INVALID_PAGE ==> c + 1 < |levels[0]| && right == levels[0][c + 1] && right in pages)
    {
    }

    method SkipTombstones(from: nat) returns (pos: nat)
      requires data.Valid() && from <= |data.View().slots|
      ensures pos == FirstLiveFrom(data.View().slots, from)
    {
      PageBytes.WfIsValid(data.data[..]);
      hide PageBytes.View, PageBytes.Wf;
      var n := data.GetSlotCount();
      pos := from;
      var rec := data.GetRecord(pos);
      while pos < n && rec == []
        invariant from <= pos <= n && rec == GetRecord(data.View(), pos)
        invariant FirstLiveFrom(data.View().slots, from) == FirstLiveFrom(data.View().slots, pos)
      {
        pos := pos + 1;
        rec := data.GetRecord(pos);
      }
    }

    /** Returns the record in a slot unless it lies past the end of the range. */
    method Emit(pos: nat, ghost bound: int) returns (r: Option<Record>)
      requires Placed() && Bound() == bound && SplitsAt(data.View().slots, pos, bound, tree.w)
      requires pos < |data.View().slots| && data.View().slots[pos].Live?
      modifies this`lastKey
      ensures HasKeyBytes(data.View().slots[pos].rec)
      ensures var rec := data.View().slots[pos].rec; r == if KeyOf(rec, tree.w) <= end then Some(rec) else None
      ensures r.Some? ==> Valid() && lastKey == Some(KeyOf(r.value, tree.w))
    {
      hide PageBytes.View, PageBytes.Wf, StoreOf, DiskManager.Valid, DiskManager.LiveIds, DiskManager.FreeIds,
           Pages.Valid, IsTree, Cursor, SplitsAt, AllRecs, LiveList, KeyOf;
      BoundMoves(tree.Store(), tree.root, tree.levels, c, pos, bound, tree.w);
      var rec := data.GetRecord(pos);
      var key := KeyOf(rec, tree.w);
      if key > end {
        return None;
      }
      lastKey := Some(key);
      r := Some(rec);
    }
  }

  /** A scan read to its end: exactly the records of the range, each once, in ascending order. */
  method ScanAll(tree: BPlusTree, start: int, end: int) returns (out: seq<Record>)
    requires tree.Valid()
    ensures out == InRange(tree.Records(), start, end, tree.w)
  {
    hide PageBytes.View, PageBytes.Wf, StoreOf, DiskManager.Valid, DiskManager.LiveIds, DiskManager.FreeIds,
         Pages.Valid, IsTree, KeyOf, Rank, SortedRecs, InRange, Cursor, SplitsAt, BPlusTree.Records;
    var it := new BPlusTreeIterator.Scan(tree, start, end);
    ghost var recs, w := tree.Records(), tree.w;
    ghost var first := Rank(recs, start, w);
    out := [];
    var r := it.Next();
    ghost var bound := start;
    while r.Some?
      invariant fresh(it) && it.tree == tree && it.end == end && tree.Valid() && recs == tree.Records() && w == tree.w
      invariant fresh(it.data) && fresh(it.data.data)
      invariant start <= bound && first <= Rank(recs, bound, w) && (first < Rank(recs, bound, w) ==> bound <= end + 1)
      invariant out == recs[first..Rank(recs, bound, w)]
      invariant NextOf(recs, Rank(recs, bound, w), end, w, r)
      invariant r.Some? ==> it.Valid() && it.lastKey == Some(KeyOf(recs[Rank(recs, bound, w)], w))
      decreases |recs| - Rank(recs, bound, w)
    {
      NextBound(recs, bound, end, w, r);
      RankAfter(recs, bound, w);
      ghost var i := Rank(recs, bound, w);
      assert recs[first..i + 1] == recs[first..i] + [recs[i]];
      out := out + [r.value];
      bound := KeyOf(recs[i], w) + 1;
      r := it.Next();
    }
    ScanIsRange(recs, start, end, bound, w);
  }

  /** What the call at position i returns. */
  predicate NextOf(recs: seq<Record>, i: nat, end: int, w: nat, r: Option<Record>)
    requires Keyed(recs, w) && i <= |recs|
  {
    r == if i < |recs| && KeyOf(recs[i], w) <= end then Some(recs[i]) else None
  }

  lemma NextBound(recs: seq<Record>, bound: int, end: int, w: nat, r: Option<Record>)
    requires SortedRecs(recs, w) && NextOf(recs, Rank(recs, bound, w), end, w, r) && r.Some?
    ensures Rank(recs, bound, w) < |recs| && r.value == recs[Rank(recs, bound, w)]
    ensures bound <= KeyOf(recs[Rank(recs, bound, w)], w) <= end
  {
    RankSplits(recs, bound, w);
    assert recs[Rank(recs, bound, w)..][0] == recs[Rank(recs, bound, w)];
  }
}
