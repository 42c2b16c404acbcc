/**
 * The index-organized B+ tree. Pages live in the database file as bytes; every operation reads page
 * images into buffers, edits them as slotted pages and writes them back.
 */
module BPlusTrees {
  import opened Bytes
  import opened Pages
  import PageBytes
  import opened SlottedPages
  import opened Disk
  import Numeric
  import opened Levels
  import opened Trees
  import opened TreeEdits
  import opened Cascade
  import opened Splits
  import opened Growth
  import opened LeafSplits
  import opened StrictMinKeys

  /** The pages in use that hold well-formed slotted pages. */
  function StoreOf(file: seq<PageBytes.Buffer>, live: set<nat>): (s: Store)
    ensures forall x :: x in s ==> x in live && x < |file|
  {
    map x: nat | x in live && x < |file| && PageBytes.Wf(file[x]) :: PageBytes.View(file[x])
  }

  /** Writing one page in use replaces it in the store; the zeros a longer file is filled with are no pages. */
  lemma StoreWrite(file: seq<PageBytes.Buffer>, live: set<nat>, id: nat, d: PageBytes.Buffer)
    requires id in live && PageBytes.Wf(d)
    ensures StoreOf(WriteAt(file, id, d), live) == StoreOf(file, live)[id := PageBytes.View(d)]
  {
    hide PageBytes.View;
    assert PageBytes.Roomy(d);
    hide PageBytes.Wf;
    ZerosAreNoPage();
    var f := WriteAt(file, id, d);
    assert forall x :: |file| <= x < |f| && x != id ==> f[x] == seq(PAGE_SIZE, _ => 0);
    assert StoreOf(f, live) == StoreOf(file, live)[id := PageBytes.View(d)];
  }

  lemma ZerosAreNoPage()
    ensures !PageBytes.Wf(seq(PAGE_SIZE, _ => 0))
  {
    var z: PageBytes.Buffer := seq(PAGE_SIZE, _ => 0);
    assert PageBytes.MaxSlot(z) == 0 && PageBytes.FreePtr(z) == 0;
  }

  class BPlusTree {
    const disk: DiskManager
    /** key_width_: how many bytes a key takes. */
    const w: nat
    /** What a key of no bytes happens to compare as; get and remove compare against one when nothing is found. */
    const emptyKey: int
    var root: nat
    ghost var levels: seq<seq<nat>>

    ghost predicate Ready()
      reads this, disk
    {
      disk.Valid() && Numeric.IsWidth(w)
    }

    ghost function Store(): (s: Store)
      reads disk
      requires disk.Valid()
      ensures forall x :: x in s ==> x in disk.LiveIds() && x < MAX_PAGES
    {
      StoreOf(disk.file, disk.LiveIds())
    }

    ghost predicate Valid()
      reads this, disk
    {
      Ready() && IsTree(Store(), root, levels, w)
    }

    /** Every live record, left to right. */
    ghost function Records(): (recs: seq<Record>)
      reads this, disk
      requires Valid()
      ensures Keyed(recs, w) && SortedRecs(recs, w)
    {
      TreeSorted(Store(), root, levels, w);
      AllRecs(Store(), levels[0])
    }

    /** The keys the leaves are filed under, with the leaves. */
    ghost function Separators(): (f: seq<Pair>)
      reads this, disk
      requires Valid()
      ensures |f| == |levels[0]| > 0
    {
      Seps(Store(), levels, w)
    }

    /** No record is below the leftmost separator: strict min-key at every slot, by StrictEverywhere. */
    ghost predicate StrictMinKey()
      reads this, disk
      requires Valid()
    {
      Strict(Store(), root, levels, w)
    }

    constructor (disk: DiskManager, root: nat, w: nat, emptyKey: int)
      ensures this.disk == disk && this.root == root && this.w == w && this.emptyKey == emptyKey
    {
      this.disk, this.root, this.w, this.emptyKey := disk, root, w, emptyKey;
    }

    // ---- pages in and out -----------------------------------------------------------------------

    method NewPage() returns (p: SlottedPage)
      ensures fresh(p) && fresh(p.data) && p.IsBuffer()
    {
      var a := new Byte[PAGE_SIZE](_ => 0);
      p := new SlottedPage(a);
    }

    method LoadPage(id: nat) returns (p: SlottedPage)
      requires disk.Valid() && id in Store()
      ensures fresh(p) && fresh(p.data) && p.Valid() && p.View() == Store()[id]
    {
      var r := disk.ReadPage(id);
      var d := r.data;
      var a := new Byte[PAGE_SIZE](i requires 0 <= i < PAGE_SIZE => d[i]);
      p := new SlottedPage(a);
      assert a[..] == d;
    }

    method SavePage(id: nat, p: SlottedPage)
      requires disk.Valid() && id in disk.LiveIds() && p.Valid()
      modifies disk`file
      ensures disk.Valid() && disk.LiveIds() == old(disk.LiveIds()) && disk.FreeIds() == old(disk.FreeIds())
      ensures Store() == old(Store())[id := p.View()] && Capacity() == old(Capacity())
    {
      ghost var d := p.data[..];
      StoreWrite(disk.file, disk.LiveIds(), id, d);
      hide StoreOf, PageBytes.Wf;
      var ok := disk.WritePage(id, p.data[..]);
    }

    /** How many more pages the file can hand out. */
    ghost function Capacity(): int
      reads disk
      requires disk.Valid()
    {
      |disk.FreeIds()| + MAX_PAGES - disk.meta.next
    }

    /** A page id nobody uses; what the store holds under the other ids stays. */
    method NewId() returns (id: nat)
      requires disk.Valid() && Capacity() >= 1
      modifies disk
      ensures disk.Valid() && id !in old(disk.LiveIds()) && disk.LiveIds() == old(disk.LiveIds()) + {id}
      ensures Capacity() == old(Capacity()) - 1 && id < TWO32
      ensures id !in old(Store()) && Store() - {id} == old(Store())
    {
      hide PageBytes.View, PageBytes.Wf;
      ghost var before := disk.file;
      ghost var live := disk.LiveIds();
      id := disk.AllocatePage();
      StoreAllocated(before, disk.file, live, id);
    }

    static lemma StoreAllocated(before: seq<PageBytes.Buffer>, file: seq<PageBytes.Buffer>, live: set<nat>, id: nat)
      requires id !in live && |file| == |before| && forall x :: x in live && x < |file| ==> file[x] == before[x]
      ensures StoreOf(file, live + {id}) - {id} == StoreOf(before, live)
    {
      hide PageBytes.View, PageBytes.Wf;
    }

    // ---- searching one page -----------------------------------------------------------------------

    /** The key of pair j of an internal page. */
    method KeyAt(p: SlottedPage, j: nat) returns (key: int)
      requires p.Valid() && 0 < w && IsInternal(p.View(), w) && j < |Pairs(p.View(), w)|
      ensures key == Pairs(p.View(), w)[j].key
    {
      var rec := p.GetRecord(2 * j);
      assert p.View().slots[2 * j].Live?;
      key := KeyOf(rec, w);
    }

    method ChildAt(p: SlottedPage, j: nat) returns (child: nat)
      requires p.Valid() && 0 < w && IsInternal(p.View(), w) && j < |Pairs(p.View(), w)|
      ensures child == Pairs(p.View(), w)[j].child
    {
      var rec := p.GetRecord(2 * j + 1);
      assert p.View().slots[2 * j + 1].Live?;
      child := U32(rec, 0);
    }

    /** First pair with a key above the target. */
    method UpperBound(p: SlottedPage, target: int) returns (lo: nat)
      requires p.Valid() && 0 < w && IsInternal(p.View(), w) && Ascending(Pairs(p.View(), w))
      ensures UpperPos(Pairs(p.View(), w), lo, target)
    {
      var n := p.GetSlotCount();
      ghost var f := Pairs(p.View(), w);
      hide IsInternal, Pairs, PageBytes.View, PageBytes.Wf, Ascending;
      var hi := n / 2;
      lo := 0;
      while lo < hi
        invariant lo <= hi <= |f| && Bracket(f, lo, hi, target + 1)
      {
        var mid := lo + (hi - lo) / 2;
        var key := KeyAt(p, mid);
        BracketStep(f, lo, hi, mid, target + 1);
        if key <= target {
          lo := mid + 1;
        } else {
          hi := mid;
        }
      }
    }

    /** First pair with a key not below the target. */
    method LowerBound(p: SlottedPage, target: int) returns (lo: nat)
      requires p.Valid() && 0 < w && IsInternal(p.View(), w) && Ascending(Pairs(p.View(), w))
      ensures Bracket(Pairs(p.View(), w), lo, lo, target)
    {
      var n := p.GetSlotCount();
      ghost var f := Pairs(p.View(), w);
      hide IsInternal, Pairs, PageBytes.View, PageBytes.Wf, Ascending, Bracket;
      BracketStart(f, target);
      var hi := n / 2;
      lo := 0;
      while lo < hi
        invariant lo <= hi <= |f| && Bracket(f, lo, hi, target)
      {
        var mid := lo + (hi - lo) / 2;
        var key := KeyAt(p, mid);
        BracketStep(f, lo, hi, mid, target);
        if key < target {
          lo := mid + 1;
        } else {
          hi := mid;
        }
      }
    }

    static lemma BracketStart(f: seq<Pair>, bound: int)
      ensures Bracket(f, 0, |f|, bound)
    {
    }

    static lemma BracketStep(f: seq<Pair>, lo: nat, hi: nat, mid: nat, bound: int)
      requires Ascending(f) && Bracket(f, lo, hi, bound) && lo <= mid < hi
      ensures f[mid].key < bound ==> Bracket(f, mid + 1, hi, bound)
      ensures bound <= f[mid].key ==> Bracket(f, lo, mid, bound)
    {
    }

    /**
     * Where a key belongs among a leaf's slots. A probe that hits a tombstone scans forward for a live slot
     * to stand in for it; `best` keeps the closest match when that slot lies at the bracket's end.
     */
    method SearchLeaf(p: SlottedPage, target: int) returns (l: nat)
      requires p.Valid() && IsLeaf(p.View(), w)
      ensures LowerPos(p.View().slots, l, target, w)
    {
      ghost var slots := p.View().slots;
      var n := p.GetSlotCount();
      var lo, hi, best := 0, n, n;
      while lo < hi
        invariant lo <= hi <= best <= n && SearchState(slots, lo, hi, best, target, w)
      {
        var mid := lo + (hi - lo) / 2;
        var probe, rec := NextLive(p, mid, hi);
        SearchStep(slots, lo, hi, best, target, mid, probe, w);
        if rec == [] {
          hi := mid;
        } else {
          var key := KeyOf(rec, w);
          if key < target {
            lo := probe + 1;
          } else {
            best := probe;
            hi := mid;
          }
        }
      }
      l := if best < n then best else lo;
      SearchDone(slots, lo, best, target, w);
    }

    /** The first live slot from `from` up to and including `to`, and its bytes; no bytes if there is none. */
    method NextLive(p: SlottedPage, from: nat, to: nat) returns (probe: nat, rec: Record)
      requires p.Valid() && from <= to <= |p.View().slots|
      ensures from <= probe <= to && rec == GetRecord(p.View(), probe)
      ensures forall i :: from <= i < probe ==> p.View().slots[i].Dead?
      ensures rec == [] ==> probe == to
      ensures rec == [] <==> probe == |p.View().slots| || p.View().slots[probe].Dead?
    {
      hide PageBytes.View, PageBytes.Wf;
      PageBytes.WfIsValid(p.data[..]);
      probe := from;
      rec := p.GetRecord(probe);
      while rec == [] && probe < to
        invariant from <= probe <= to && rec == GetRecord(p.View(), probe)
        invariant forall i :: from <= i < probe ==> p.View().slots[i].Dead?
      {
        probe := probe + 1;
        rec := p.GetRecord(probe);
      }
    }

    /** Live slots below lo are smaller; those from hi on are not, and the first of them is `best`. */
    static ghost predicate SearchState(slots: seq<SlotView>, lo: nat, hi: nat, best: nat, target: int, w: nat) {
      && SortedRecs(LiveList(slots), w)
      && lo <= hi <= best <= |slots|
      && (forall i :: 0 <= i < lo && slots[i].Live? ==> w <= |slots[i].rec| && KeyOf(slots[i].rec, w) < target)
      && (forall i :: hi <= i < best ==> slots[i].Dead?)
      && (best < |slots| ==> slots[best].Live? && w <= |slots[best].rec| && target <= KeyOf(slots[best].rec, w))
    }

    static lemma SearchStep(slots: seq<SlotView>, lo: nat, hi: nat, best: nat, target: int, mid: nat, probe: nat,
                            w: nat)
      requires SearchState(slots, lo, hi, best, target, w) && lo <= mid < hi && mid <= probe <= hi
      requires forall i :: mid <= i < probe ==> slots[i].Dead?
      requires (probe == |slots| || slots[probe].Dead?) ==> probe == hi
      ensures probe == |slots| || slots[probe].Dead? ==> SearchState(slots, lo, mid, best, target, w)
      ensures probe < |slots| && slots[probe].Live? ==>
                && w <= |slots[probe].rec|
                && (KeyOf(slots[probe].rec, w) < target ==>
                          probe < hi && SearchState(slots, probe + 1, hi, best, target, w))
                && (target <= KeyOf(slots[probe].rec, w) ==> SearchState(slots, lo, mid, probe, target, w))
    {
      if probe < |slots| && slots[probe].Live? {
        LiveIndex(slots, probe);
        hide KeyOf, LiveList;
        forall i | 0 <= i < probe && slots[i].Live?
          ensures w <= |slots[i].rec| && KeyOf(slots[i].rec, w) < KeyOf(slots[probe].rec, w)
        {
          SortedSlots(slots, w, i, probe);
        }
      }
    }

    static lemma SearchDone(slots: seq<SlotView>, lo: nat, best: nat, target: int, w: nat)
      requires SearchState(slots, lo, lo, best, target, w)
      ensures LowerPos(slots, if best < |slots| then best else lo, target, w)
    {
      var l := if best < |slots| then best else lo;
      forall i | l <= i < |slots| && slots[i].Live?
        ensures w <= |slots[i].rec| && target <= KeyOf(slots[i].rec, w)
      {
        if i > l {
          SortedSlots(slots, w, best, i);
        }
      }
      hide KeyOf, LiveList;
      BelowSlots(slots[..l], target, w);
      AtLeastSlots(slots[l..], target, w);
      NoneLive(slots, lo, best);
    }

    static lemma NoneLive(slots: seq<SlotView>, lo: nat, best: nat)
      requires lo <= best <= |slots| && (forall i :: lo <= i < best ==> slots[i].Dead?)
      ensures best == |slots| ==> LiveList(slots[lo..]) == []
    {
      if best == |slots| {
        DeadIsEmpty(slots[lo..]);
      }
    }

    // ---- descent ----------------------------------------------------------------------------------

    /** Page i of level t, whose kind says whether it is a leaf. */
    static lemma PageOfLevel(pages: Store, root: nat, levels: seq<seq<nat>>, t: nat, i: nat, w: nat)
      requires IsTree(pages, root, levels, w) && t < |levels| && i < |levels[t]|
      ensures levels[t][i] in pages
      ensures t == 0 ==> IsLeaf(pages[levels[t][i]], w)
      ensures t > 0 ==> IsInternal(pages[levels[t][i]], w) && GoodLevel(pages, levels[t], w)
    {
      if t > 0 {
        UpperAt(pages, root, levels, t, w);
      }
    }

    /** Pairs of one page are in key order, because the level's are. */
    static lemma PageAscending(pages: Store, root: nat, levels: seq<seq<nat>>, t: nat, i: nat, w: nat)
      requires IsTree(pages, root, levels, w) && 0 < t < |levels| && i < |levels[t]|
      ensures levels[t][i] in pages && IsInternal(pages[levels[t][i]], w) && Ascending(Pairs(pages[levels[t][i]], w))
    {
      UpperAt(pages, root, levels, t, w);
      PairsAscending(pages, levels[t], i, w);
    }

    static lemma PairsAscending(pages: Store, level: seq<nat>, i: nat, w: nat)
      requires GoodLevel(pages, level, w) && i < |level| && Ascending(Flat(pages, level, w))
      ensures Ascending(Pairs(pages[level[i]], w))
    {
      PageInFlat(pages, level, i, w);
      var f, p, off := Flat(pages, level, w), Pairs(pages[level[i]], w), Off(pages, level, i, w);
      hide Flat, Off, Pairs;
      assert forall a :: 0 <= a < |p| ==> p[a] == f[off + a];
    }

    /** `page` is page c of level t, the one to look for the target in, and `stack` its ancestors. */
    static ghost predicate Reached(pages: Store, levels: seq<seq<nat>>, t: nat, c: nat, page: nat, stack: seq<Crumb>,
                                   target: int, w: nat)
    {
      && t < |levels| && c < |levels[t]| && page == levels[t][c] && page in pages
      && CoversAt(pages, levels, t, c, target, w) && PathOk(pages, levels, stack, t, c, w)
    }

    /** One step down: the child that can hold the target, and the breadcrumb for it. */
    method Descend(cur: nat, p: SlottedPage, target: int, stack: seq<Crumb>, ghost t: nat, ghost i: nat)
      returns (child: nat, stack': seq<Crumb>, ghost c: nat)
      requires Valid() && p.Valid() && 0 < t
      requires Reached(Store(), levels, t, i, cur, stack, target, w) && p.View() == Store()[cur]
      ensures Reached(Store(), levels, t - 1, c, child, stack', target, w)
      ensures child in Store() && |stack'| == |stack| + 1 && stack'[..|stack|] == stack && stack'[|stack|].page == cur
    {
      hide IsTree, CoversAt, PathOk, PageBytes.View, PageBytes.Wf, StoreOf, LowerPos, Seps, Covers, Found,
           DiskManager.Valid, DiskManager.LiveIds, DiskManager.FreeIds, Pages.Valid, IsInternal, Pairs, UpperPos,
           Ascending;
      ghost var pages := Store();
      ReachedIn(pages, levels, t, i, cur, stack, target, w);
      hide Reached;
      PageAscending(pages, root, levels, t, i, w);
      var lo := UpperBound(p, target);
      var floor := FloorOf(lo);
      c := RouteDown(pages, root, levels, stack, t, i, lo, target, w);
      child := ChildAt(p, floor);
      stack' := stack + [Crumb(cur, 2 * floor + 1)];
      ReachedIn(pages, levels, t - 1, c, child, stack', target, w);
    }

    static lemma ReachedIn(pages: Store, levels: seq<seq<nat>>, t: nat, c: nat, page: nat, stack: seq<Crumb>,
                           target: int, w: nat)
      requires Reached(pages, levels, t, c, page, stack, target, w)
      ensures t < |levels| && c < |levels[t]| && page == levels[t][c] && page in pages
    {
    }

    static lemma RouteDown(pages: Store, root: nat, levels: seq<seq<nat>>, stack: seq<Crumb>, t: nat, i: nat, lo: nat,
                           target: int, w: nat) returns (c: nat)
      requires IsTree(pages, root, levels, w) && 0 < t < |levels| && i < |levels[t]|
      requires Reached(pages, levels, t, i, levels[t][i], stack, target, w)
      requires levels[t][i] in pages && IsInternal(pages[levels[t][i]], w)
      requires UpperPos(Pairs(pages[levels[t][i]], w), lo, target)
      ensures FloorOf(lo) < |Pairs(pages[levels[t][i]], w)|
      ensures Reached(pages, levels, t - 1, c, Pairs(pages[levels[t][i]], w)[FloorOf(lo)].child,
                      stack + [Crumb(levels[t][i], 2 * FloorOf(lo) + 1)], target, w)
    {
      RouteStep(pages, root, levels, t, i, lo, target, w);
      hide Flat, Off, Pairs, Owner, IsInternal, PathOk, GoodLevel, UpperPos, FloorOf;
      c := Off(pages, levels[t], i, w) + FloorOf(lo);
      CoversIndex(Flat(pages, levels[t], w), c, target);
      ChildNames(pages, root, levels, t, c, w);
      hide IsTree;
      CoversInFlat(pages, levels, t, c, target, w);
      hide Covers, CoversAt;
      PathDown(pages, levels, stack, t, i, FloorOf(lo), w);
    }

    static lemma PathDown(pages: Store, levels: seq<seq<nat>>, stack: seq<Crumb>, t: nat, i: nat, j: nat, w: nat)
      requires 0 < t < |levels| && i < |levels[t]| && PathOk(pages, levels, stack, t, i, w)
               && GoodLevel(pages, levels[t], w)
      requires Off(pages, levels[t], i, w) + j < |Flat(pages, levels[t], w)|
      requires Owner(pages, levels[t], Off(pages, levels[t], i, w) + j, w) == i
      ensures PathOk(pages, levels, stack + [Crumb(levels[t][i], 2 * j + 1)], t - 1, Off(pages, levels[t], i, w) + j, w)
    {
      hide Flat, Off, Owner, GoodLevel;
      var crumb := Crumb(levels[t][i], 2 * j + 1);
      assert (stack + [crumb])[..|stack|] == stack;
    }

    static lemma CoversIndex(f: seq<Pair>, c: nat, target: int)
      requires Covers(f, c, target)
      ensures c < |f|
    {
    }

    static lemma CoversInFlat(pages: Store, levels: seq<seq<nat>>, t: nat, c: nat, target: int, w: nat)
      requires 0 < t < |levels| && GoodLevel(pages, levels[t], w) && |Flat(pages, levels[t], w)| == |levels[t - 1]|
      requires Covers(Flat(pages, levels[t], w), c, target)
      ensures CoversAt(pages, levels, t - 1, c, target, w)
    {
    }

    /** The pairs of level t name the pages of level t - 1 in order. */
    static lemma ChildNames(pages: Store, root: nat, levels: seq<seq<nat>>, t: nat, c: nat, w: nat)
      requires IsTree(pages, root, levels, w) && 0 < t < |levels|
      requires GoodLevel(pages, levels[t], w) && c < |Flat(pages, levels[t], w)|
      ensures |Flat(pages, levels[t], w)| == |levels[t - 1]| && Flat(pages, levels[t], w)[c].child == levels[t - 1][c]
      ensures levels[t - 1][c] in pages
    {
      UpperAt(pages, root, levels, t, w);
      if t > 1 {
        UpperAt(pages, root, levels, t - 1, w);
      }
    }

    /** The leaf that can hold the target, the target's place in it, and the path of ancestors. */
    method FindRecord(target: int) returns (leaf: nat, l: nat, stack: seq<Crumb>, ghost c: nat)
      requires Valid()
      ensures Found(Store(), levels, c, leaf, l, stack, target, w)
      ensures leaf in Store() && Store()[leaf].kind == Leaf && LowerPos(Store()[leaf].slots, l, target, w)
    {
      hide IsTree, CoversAt, PathOk, PageBytes.View, PageBytes.Wf, StoreOf, LowerPos, Seps, Covers, Found,
           DiskManager.Valid, DiskManager.LiveIds, DiskManager.FreeIds, Pages.Valid, IsInternal, Pairs, UpperPos,
           Ascending;
      TreeIds(Store(), root, levels, w);
      ghost var t: nat := |levels| - 1;
      c := 0;
      leaf := root;
      stack := [];
      RootReached(Store(), root, levels, target, w);
      var p := LoadPage(leaf);
      var kind := p.GetKind();
      while kind == Internal
        invariant Reached(Store(), levels, t, c, leaf, stack, target, w)
        invariant fresh(p) && fresh(p.data) && p.Valid() && p.View() == Store()[leaf] && kind == p.View().kind
        decreases t
      {
        PageOfLevel(Store(), root, levels, t, c, w);
        leaf, stack, c := Descend(leaf, p, target, stack, t, c);
        t := t - 1;
        p := LoadPage(leaf);
        kind := p.GetKind();
      }
      PageOfLevel(Store(), root, levels, t, c, w);
      l := SearchLeaf(p, target);
      LeafFound(Store(), root, levels, c, leaf, l, stack, target, w);
    }

    /**
     * What a search for a key comes back with: leaf c is the only one that can hold it, and slot l is its place
     * there.
     */
    static ghost predicate Found(pages: Store, levels: seq<seq<nat>>, c: nat, leaf: nat, l: nat, stack: seq<Crumb>,
                                 target: int, w: nat)
    {
      && |levels| > 0 && c < |levels[0]| && leaf == levels[0][c] && leaf in pages
      && (|levels| > 1 ==> GoodLevel(pages, levels[1], w))
      && Covers(Seps(pages, levels, w), c, target) && PathOk(pages, levels, stack, 0, c, w)
      && LowerPos(pages[leaf].slots, l, target, w)
    }

    static lemma RootReached(pages: Store, root: nat, levels: seq<seq<nat>>, target: int, w: nat)
      requires IsTree(pages, root, levels, w)
      ensures Reached(pages, levels, |levels| - 1, 0, root, [], target, w)
    {
      TopCovers(pages, root, levels, target, w);
      PageOfLevel(pages, root, levels, |levels| - 1, 0, w);
    }

    static lemma TopCovers(pages: Store, root: nat, levels: seq<seq<nat>>, target: int, w: nat)
      requires IsTree(pages, root, levels, w)
      ensures levels[|levels| - 1] == [root] && CoversAt(pages, levels, |levels| - 1, 0, target, w)
      ensures PathOk(pages, levels, [], |levels| - 1, 0, w)
    {
    }

    static lemma LeafFound(pages: Store, root: nat, levels: seq<seq<nat>>, c: nat, leaf: nat, l: nat, stack: seq<Crumb>,
                           target: int, w: nat)
      requires IsTree(pages, root, levels, w) && Reached(pages, levels, 0, c, leaf, stack, target, w)
      requires LowerPos(pages[leaf].slots, l, target, w)
      ensures Found(pages, levels, c, leaf, l, stack, target, w)
    {
      hide LowerPos, PathOk, LeafLevel;
      if |levels| == 1 {
        assert c == 0;
      }
    }

    // ---- lookups and edits of one leaf --------------------------------------------------------------

    /** The key a record found in a leaf compares as; an empty slot yields the key of no bytes. */
    method FoundKey(rec: Record) returns (key: int)
      requires rec != [] ==> w <= |rec|
      ensures key == if rec == [] then emptyKey else KeyOf(rec, w)
    {
      key := if rec == [] then emptyKey else KeyOf(rec, w);
    }

    static lemma FoundIs(pages: Store, root: nat, levels: seq<seq<nat>>, c: nat, leaf: nat, l: nat, stack: seq<Crumb>,
                         target: int, w: nat)
      requires IsTree(pages, root, levels, w) && Found(pages, levels, c, leaf, l, stack, target, w)
      ensures InStore(pages, levels[0]) && leaf in pages
      ensures Keyed(AllRecs(pages, levels[0]), w) && SortedRecs(AllRecs(pages, levels[0]), w)
      ensures !HasKey(AllRecs(pages, levels[0]), target, w) ==>
                Without(AllRecs(pages, levels[0]), target, w) == AllRecs(pages, levels[0])
      ensures var rec := GetRecord(pages[leaf], l);
              && (rec != [] ==> w <= |rec|) && (Delete(pages[leaf], l).0 <==> rec != [])
              && (HasKey(AllRecs(pages, levels[0]), target, w) <==> rec != [] && KeyOf(rec, w) == target)
              && Find(AllRecs(pages, levels[0]), target, w) == if rec != [] && KeyOf(rec, w) == target then rec else []
    {
      FindEffect(pages, root, levels, c, l, target, w);
      NotThere(AllRecs(pages, levels[0]), target, w);
      assert IsLeaf(pages[leaf], w);
    }

    /**
     * The record with the key. For a key that is not there the answer is nothing, unless the key compares equal to the
     * key of no bytes and its leaf has no live key at or above it: then it is an empty record.
     */
    method Get(target: int) returns (r: Option<Record>)
      requires Valid()
      ensures HasKey(Records(), target, w) ==> r == Some(Find(Records(), target, w)) && r.value != []
      ensures !HasKey(Records(), target, w) ==>
                r == if target == emptyKey && AllBelow(LiveList(Store()[levels[0][HomeOf(target)]].slots), target, w)
                     then Some([]) else None
    {
      var leaf, l, stack, c := FindRecord(target);
      FoundIs(Store(), root, levels, c, leaf, l, stack, target, w);
      FoundHome(Store(), root, levels, c, leaf, l, stack, target, w);
      hide IsTree, PageBytes.View, PageBytes.Wf, StoreOf, HasKey, Find, AllRecs, KeyOf, SortedRecs;
      var p := LoadPage(leaf);
      var rec := p.GetRecord(l);
      var key := FoundKey(rec);
      if target != key {
        return None;
      }
      r := Some(rec);
    }

    /** The leaf found is the key's home, and the slot is empty if and only if all its keys are below the target. */
    static lemma FoundHome(pages: Store, root: nat, levels: seq<seq<nat>>, c: nat, leaf: nat, l: nat, stack: seq<Crumb>,
                           target: int, w: nat)
      requires IsTree(pages, root, levels, w) && Found(pages, levels, c, leaf, l, stack, target, w)
      ensures c == FloorIn(Seps(pages, levels, w), target) && c < |levels[0]| && leaf == levels[0][c] && leaf in pages
      ensures GetRecord(pages[leaf], l) == [] <==> AllBelow(LiveList(pages[leaf].slots), target, w)
    {
      FloorInCovers(Seps(pages, levels, w), target);
      CoversUnique(Seps(pages, levels, w), c, FloorIn(Seps(pages, levels, w), target), target);
      assert IsLeaf(pages[leaf], w);
      EmptyAtEnd(pages[leaf], l, target, w);
    }

    static lemma EmptyAtEnd(p: Page, l: nat, target: int, w: nat)
      requires IsLeaf(p, w) && LowerPos(p.slots, l, target, w)
      ensures GetRecord(p, l) == [] <==> AllBelow(LiveList(p.slots), target, w)
    {
      hide KeyOf;
      LowerPosParts(p.slots, l, target, w);
      LiveSplit(p.slots, l);
      FirstLive(p.slots, l);
      var x, y := LiveList(p.slots[..l]), LiveList(p.slots[l..]);
      assert y != [] ==> (x + y)[|x|] == y[0];
      assert y == [] ==> x + y == x;
    }

    /** Pages that are on no level of the tree stay as they are. */
    static ghost predicate OthersStay(pages: Store, pages': Store, levels: seq<seq<nat>>) {
      forall x :: x in pages && (forall t :: 0 <= t < |levels| ==> x !in levels[t]) ==>
        x in pages' && pages'[x] == pages[x]
    }

    static lemma OneLeafChanged(pages: Store, levels: seq<seq<nat>>, c: nat, v: Page)
      requires 0 < |levels| && c < |levels[0]|
      ensures OthersStay(pages, pages[levels[0][c] := v], levels) && OthersStay(pages, pages, levels)
    {
    }

    static lemma OthersAfterSplit(pages: Store, pages1: Store, pages2: Store, live: set<nat>, levels: seq<seq<nat>>,
                                  levels2: seq<seq<nat>>, c: nat, id: nat)
      requires 0 < |levels| && c < |levels[0]| && OneLevel(pages, pages1, levels[0], id)
      requires Grown(pages1, pages2, live, levels[0 := InsertId(levels[0], c, id)], levels2, 1)
      ensures OthersStay(pages, pages2, levels)
    {
      hide DistinctIds, AllIn, InsertId;
      var levels1 := levels[0 := InsertId(levels[0], c, id)];
      forall x | x in pages && forall t :: 0 <= t < |levels| ==> x !in levels[t]
        ensures x in pages2 && pages2[x] == pages[x]
      {
        assert x in pages1 && pages1[x] == pages[x];
        assert !InLevels(levels1, 1, x);
      }
    }

    /** Removes the record with the key; true exactly when there was one. */
    method Remove(target: int) returns (ok: bool)
      requires Valid()
      modifies disk`file
      ensures Valid() && levels == old(levels)
      ensures ok <==> HasKey(old(Records()), target, w)
      ensures Records() == Without(old(Records()), target, w)
      ensures Separators() == old(Separators()) && (old(StrictMinKey()) ==> StrictMinKey())
      ensures OthersStay(old(Store()), Store(), old(levels))
      ensures disk.LiveIds() == old(disk.LiveIds()) && disk.FreeIds() == old(disk.FreeIds())
    {
      hide IsTree, HasKey, Without, AllRecs, KeyOf, SortedRecs, Keyed, Found, PageBytes.View, PageBytes.Wf, StoreOf,
           DiskManager.Valid, DiskManager.LiveIds, DiskManager.FreeIds, Seps, Strict, OthersStay;
      var leaf, l, stack, c := FindRecord(target);
      ghost var pages := Store();
      FoundAt(pages, levels, c, leaf, l, stack, target, w);
      OneLeafChanged(pages, levels, c, Delete(pages[leaf], l).1);
      FoundIs(pages, root, levels, c, leaf, l, stack, target, w);
      var p := LoadPage(leaf);
      var rec := p.GetRecord(l);
      var key := FoundKey(rec);
      if target == key {
        if rec != [] {
          Removed(pages, root, levels, c, leaf, l, stack, target, w);
        }
        ok := DeleteAt(leaf, p, l);
      } else {
        ok := false;
      }
    }

    /** Tombstones the slot and writes the page back, unless the slot was dead already. */
    method DeleteAt(leaf: nat, p: SlottedPage, l: nat) returns (ok: bool)
      requires Ready() && leaf in Store() && p.Valid() && p.View() == Store()[leaf]
      modifies p.data, disk`file
      ensures Ready() && disk.LiveIds() == old(disk.LiveIds()) && disk.FreeIds() == old(disk.FreeIds())
      ensures ok == Delete(old(Store())[leaf], l).0
      ensures Store() == if ok then old(Store())[leaf := Delete(old(Store())[leaf], l).1] else old(Store())
    {
      hide PageBytes.View, PageBytes.Wf, StoreOf, Delete;
      ok := p.DeleteRecord(l);
      if ok {
        SavePage(leaf, p);
      }
    }

    static lemma FoundAt(pages: Store, levels: seq<seq<nat>>, c: nat, leaf: nat, l: nat, stack: seq<Crumb>, target: int,
                         w: nat)
      requires Found(pages, levels, c, leaf, l, stack, target, w)
      ensures 0 < |levels| && c < |levels[0]| && leaf == levels[0][c] && leaf in pages
    {
    }

    static lemma NotThere(recs: seq<Record>, key: int, w: nat)
      requires SortedRecs(recs, w)
      ensures !HasKey(recs, key, w) ==> Without(recs, key, w) == recs
    {
      hide KeyOf;
    }

    /** The pages of a tree are all there, each at one place. */
    static lemma TreeIds(pages: Store, root: nat, levels: seq<seq<nat>>, w: nat)
      requires IsTree(pages, root, levels, w)
      ensures |levels| > 0 && DistinctIds(levels) && AllIn(pages, levels)
    {
      forall t, i | 0 <= t < |levels| && 0 <= i < |levels[t]|
        ensures levels[t][i] in pages
      {
        PageOfLevel(pages, root, levels, t, i, w);
      }
    }

    static lemma EditedLeaf(pages: Store, root: nat, levels: seq<seq<nat>>, c: nat, v: Page, w: nat)
      requires IsTree(pages, root, levels, w) && c < |levels[0]|
      requires v.left == pages[levels[0][c]].left && v.right == pages[levels[0][c]].right
      ensures LeafEdited(pages, pages[levels[0][c] := v], levels, c)
    {
      TreeIds(pages, root, levels, w);
      hide IsTree;
      OtherLevelsStay(pages, levels, c, v);
      OtherLeavesStay(pages, levels[0], c, v);
      hide SameOn, DistinctIds, AllIn;
    }

    static lemma OtherLeavesStay(pages: Store, leaves: seq<nat>, c: nat, v: Page)
      requires NoDup(leaves) && InStore(pages, leaves) && c < |leaves|
      ensures SlotsChanged(pages, pages[leaves[c] := v], leaves, c)
      ensures forall i :: 0 <= i < |leaves| && i != c ==> pages[leaves[c] := v][leaves[i]] == pages[leaves[i]]
    {
    }

    static lemma OtherLevelsStay(pages: Store, levels: seq<seq<nat>>, c: nat, v: Page)
      requires |levels| > 0 && DistinctIds(levels) && AllIn(pages, levels) && c < |levels[0]|
      ensures forall t :: 1 <= t < |levels| ==> SameOn(pages, pages[levels[0][c] := v], levels[t])
    {
      forall t, i | 1 <= t < |levels| && 0 <= i < |levels[t]|
        ensures levels[t][i] in pages && levels[t][i] != levels[0][c]
      {
      }
    }

    static lemma Removed(pages: Store, root: nat, levels: seq<seq<nat>>, c: nat, leaf: nat, l: nat, stack: seq<Crumb>,
                         target: int, w: nat)
      requires IsTree(pages, root, levels, w) && Found(pages, levels, c, leaf, l, stack, target, w)
      requires GetRecord(pages[leaf], l) != [] && w <= |GetRecord(pages[leaf], l)|
               && KeyOf(GetRecord(pages[leaf], l), w) == target
      ensures var pages' := pages[leaf := Delete(pages[leaf], l).1];
              && IsTree(pages', root, levels, w)
              && InStore(pages, levels[0]) && InStore(pages', levels[0]) && SortedRecs(AllRecs(pages, levels[0]), w)
              && AllRecs(pages', levels[0]) == Without(AllRecs(pages, levels[0]), target, w)
              && (|levels| > 1 ==> GoodLevel(pages, levels[1], w) && GoodLevel(pages', levels[1], w))
              && Seps(pages', levels, w) == Seps(pages, levels, w)
              && (Strict(pages, root, levels, w) ==> Strict(pages', root, levels, w))
    {
      var v := Delete(pages[leaf], l).1;
      EditedLeaf(pages, root, levels, c, v, w);
      SepsStay(pages, pages[leaf := v], root, levels, c, w);
      hide IsTree, LeafEdited, LowerPos, Covers, Seps, AllRecs, KeyOf, Without, PathOk, Strict;
      RemoveEffect(pages, pages[leaf := v], root, levels, c, l, target, w);
      RemoveKeepsStrict(pages, pages[leaf := v], root, levels, target, w);
    }

    // ---- internal splits ------------------------------------------------------------------------------

    /** A tree whose levels from some level on may be out of step with the level below. */
    ghost predicate Rising()
      reads this, disk
    {
      Ready() && 0 < |levels| && DistinctIds(levels) && AllIn(Store(), levels)
    }

    /** Makes room for a pair by compacting, if that is enough. */
    method PairRoom(p: SlottedPage) returns (fits: bool)
      requires Numeric.IsWidth(w) && p.Valid() && IsInternal(p.View(), w)
      modifies p.data
      ensures p.Valid() && IsInternal(p.View(), w) && Pairs(p.View(), w) == old(Pairs(p.View(), w))
      ensures fits ==> Gap(p.View()) >= PairSpace(w)
      ensures !fits ==> 3 <= |Pairs(p.View(), w)|
      ensures fits <==> Gap(Compact(old(p.View()))) >= PairSpace(w)
    {
      GapAfterCompact(p.View(), w);
      hide PageBytes.View, PageBytes.Wf, IsInternal, Pairs, Compact;
      ghost var v := p.View();
      var gap := p.GetFreeSpace();
      fits := gap >= PairSpace(w);
      if !fits {
        CompactInternal(v, w);
        p.Compactify();
        gap := p.GetFreeSpace();
        fits := gap >= PairSpace(w);
        if !fits {
          FullPage(v, w);
        }
      }
    }

    static lemma GapAfterCompact(v: Page, w: nat)
      requires IsInternal(v, w)
      ensures Gap(v) <= Gap(Compact(v))
    {
      CompactedFree(v);
      hide LiveList, SumSize, DeadSpace;
    }

    /** Moves the upper half of an internal page's pairs to a new page. */
    method DivideNode(node: nat) returns (id: nat, sep: Record, ghost v: Page, ghost t: Page)
      requires Ready() && node in Store() && IsInternal(Store()[node], w) && Capacity() >= 1
      requires 2 <= |Pairs(Store()[node], w)|
      modifies disk
      ensures Ready() && id !in old(disk.LiveIds()) && disk.LiveIds() == old(disk.LiveIds()) + {id}
      ensures Capacity() == old(Capacity()) - 1 && id < TWO32
      ensures id !in old(Store()) && Store() == old(Store())[node := v][id := t]
      ensures IsInternal(v, w) && IsInternal(t, w) && Gap(v) >= PairSpace(w) && Gap(t) >= PairSpace(w)
      ensures var f := Pairs(old(Store())[node], w);
              Pairs(v, w) == f[..|f| / 2] && Pairs(t, w) == f[|f| / 2..]
      ensures |sep| == w && KeyOf(sep, w) == PairAt(t, w, 0).key
    {
      hide PageBytes.View, PageBytes.Wf, StoreOf, DiskManager.Valid, DiskManager.LiveIds, DiskManager.FreeIds,
           Pages.Valid, Divided, KeyOf, LiveList, Append, Pages.Insert;
      ghost var base := Store();
      id := NewId();
      var p := LoadPage(node);
      var u := NewPage();
      u.Init(id, Internal);
      var n := p.GetSlotCount();
      ghost var v0, t0 := p.View(), u.View();
      var pivotKey := n / 2 / 2;
      MoveTail(p, u, 2 * pivotKey);
      v, t := p.View(), u.View();
      HalfPages(v0, t0, pivotKey, v, t, w);
      sep := FirstKey(u);
      ghost var mixed := Store();
      SavePage(node, p);
      SavePage(id, u);
      StoresMeet(mixed, base, id, t, node, v);
    }

    /** The key in slot 0 of an internal page, as bytes. */
    method FirstKey(p: SlottedPage) returns (sep: Record)
      requires p.Valid() && IsInternal(p.View(), w)
      ensures |sep| == w && KeyOf(sep, w) == PairAt(p.View(), w, 0).key
    {
      hide PageBytes.View, PageBytes.Wf, KeyOf, Pages.Valid;
      sep := p.GetRecord(0);
      assert p.View().slots[0].Live?;
    }

    /**
     * Splits the page on top of the stack, which holds entry i of level k, and hands the new page to the level above.
     * The pairs of level k stay what they were.
     */
    method SplitInternal(stack: seq<Crumb>, ghost k: nat, ghost i: nat) returns (id: nat)
      requires Rising() && 0 < k < |levels| && Upper(Store(), root, levels, k, w)
      requires PathOk(Store(), levels, stack, k - 1, i, w)
      requires GoodLevel(Store(), levels[k], w) && i < |Flat(Store(), levels[k], w)|
      requires 2 <= |Pairs(Store()[levels[k][Owner(Store(), levels[k], i, w)]], w)|
      requires Capacity() >= 1 + NewPages(Store(), levels, k + 1, Owner(Store(), levels[k], i, w), w)
      modifies this, disk
      ensures Rising() && k < |levels| && Upper(Store(), root, levels, k, w)
      ensures var m := old(NewPages(Store(), levels, k + 1, Owner(Store(), levels[k], i, w), w));
              && Capacity() == old(Capacity()) - 1 - m
              && |levels| == |old(levels)| + if m == |old(levels)| - k then 1 else 0
      ensures Grown(old(Store()), Store(), old(disk.LiveIds()), old(levels), levels, k)
      ensures old(disk.LiveIds()) <= disk.LiveIds()
      ensures var q := Owner(old(Store()), old(levels)[k], i, w);
              HalvesOf(old(Store()), Store(), old(levels)[k], levels[k], q, id, w)
      decreases |stack|, 0
    {
      hide PageBytes.View, PageBytes.Wf, StoreOf, DiskManager.Valid, DiskManager.LiveIds, DiskManager.FreeIds,
           Pages.Valid, KeyOf, IsInternal, Pairs, PairAt, Flat, Off, Owner, Heads, DistinctIds, AllIn, PathOk, Upper,
           Ascending, Grown, OneLevel, PageSplit, InsertId, PutAfter, Between, GoodLevel, HalvesOf, NewPages;
      ghost var pages, levels0, root0, live := Store(), levels, root, disk.LiveIds();
      ghost var q := Owner(pages, levels[k], i, w);
      PathTop(pages, levels, stack, k - 1, i, w);
      PageAt(pages, levels[k], q, w);
      var node := stack[|stack| - 1].page;
      var sep; ghost var v, t;
      id, sep, v, t := DivideNode(node);
      ghost var pages1 := Store();
      HalvesMeet(pages[node], v, t, w);
      NodeSplit(pages, root, levels, k, q, id, v, t, w);
      PathAfterSplit(pages, pages1, levels, k, q, id, stack[..|stack| - 1], w);
      SameAboveSplit(pages, pages1, root, levels, k, q, id, w);
      levels := levels[k := InsertId(levels[k], q, id)];
      ghost var levels1 := levels;
      var parents := stack[..|stack| - 1];
      if parents == [] {
        TopHeads(pages, pages1, root, levels0, k, q, id, w);
        SplitRoot(node, sep, id);
      } else {
        InsertIntoParent(parents, sep, id, k + 1, q);
      }
      NodeJoined(pages, pages1, Store(), root0, root, live, levels0, levels1, levels, k, q, id, w);
      SplitLevels(pages, Store(), root0, root, levels0, levels, k, w);
      HalvesAre(pages, Store(), levels0[k], levels[k], q, id, v, t, w);
    }

    /** Dividing a page changes nothing about how much room there is above it. */
    static lemma SameAboveSplit(pages: Store, pages1: Store, root: nat, levels: seq<seq<nat>>, k: nat, q: nat, id: nat,
                                w: nat)
      requires Upper(pages, root, levels, k, w) && q < |levels[k]|
      requires DistinctIds(levels) && AllIn(pages, levels) && OneLevel(pages, pages1, levels[k], id)
      ensures NewPages(pages1, levels[k := InsertId(levels[k], q, id)], k + 1, q, w)
           == NewPages(pages, levels, k + 1, q, w)
      ensures k + 1 == |levels| ==> NewPages(pages, levels, k + 1, q, w) == 1
    {
      forall t | k + 1 <= t < |levels|
        ensures SameOn(pages, pages1, levels[t])
      {
        OneLevelRest(pages, pages1, levels, k, t, id);
      }
      hide DistinctIds, AllIn, OneLevel, InsertId, Flat;
      NewPagesFrame(pages, pages1, levels, levels[k := InsertId(levels[k], q, id)], k + 1, q, w);
    }

    static lemma SplitLevels(pages: Store, pages': Store, root: nat, root': nat, levels: seq<seq<nat>>,
                             levels': seq<seq<nat>>, k: nat, w: nat)
      requires Upper(pages, root, levels, k, w) && Upper(pages', root', levels', k, w)
      ensures GoodLevel(pages, levels[k], w) && GoodLevel(pages', levels'[k], w)
    {
      UpperLevel(pages, root, levels, k, w);
      UpperLevel(pages', root', levels', k, w);
    }

    static lemma HalvesAre(pages: Store, pages': Store, level: seq<nat>, level': seq<nat>, q: nat, id: nat, v: Page,
                           t: Page, w: nat)
      requires GoodLevel(pages, level, w) && GoodLevel(pages', level', w) && q < |level|
               && level' == InsertId(level, q, id)
      requires Flat(pages', level', w) == Flat(pages, level, w)
      requires Off(pages', level', q, w) == Off(pages, level, q, w)
      requires IsInternal(v, w) && IsInternal(t, w)
      requires Off(pages', level', q + 1, w) == Off(pages, level, q, w) + |Pairs(v, w)|
      requires level[q] in pages' && pages'[level[q]] == v && id in pages' && pages'[id] == t
      requires Gap(v) >= PairSpace(w) && Gap(t) >= PairSpace(w)
      requires var f := Pairs(pages[level[q]], w); Pairs(v, w) == f[..|f| / 2] && Pairs(t, w) == f[|f| / 2..]
      ensures HalvesOf(pages, pages', level, level', q, id, w)
    {
      hide IsInternal, Pairs, Flat, Off;
    }

    /**
     * Page q of a level was split in halves, its upper half now page `id` right after it, and both have room for a
     * pair.
     */
    static ghost predicate HalvesOf(pages: Store, pages': Store, level: seq<nat>, level': seq<nat>, q: nat, id: nat,
                                    w: nat) {
      && GoodLevel(pages, level, w) && GoodLevel(pages', level', w) && q < |level| && level' == InsertId(level, q, id)
      && Flat(pages', level', w) == Flat(pages, level, w)
      && Off(pages', level', q, w) == Off(pages, level, q, w)
      && q + 1 < |level'| && level'[q] == level[q] && level'[q + 1] == id
      && var f, l, r := Pairs(pages[level[q]], w), pages'[level'[q]], pages'[level'[q + 1]];
         && Off(pages', level', q + 1, w) == Off(pages, level, q, w) + |Pairs(l, w)|
         && Pairs(l, w) == f[..|f| / 2] && Pairs(r, w) == f[|f| / 2..]
         && Gap(l) >= PairSpace(w) && Gap(r) >= PairSpace(w)
    }

    static lemma HalvesMeet(v0: Page, v: Page, t: Page, w: nat)
      requires IsInternal(v0, w) && IsInternal(v, w) && IsInternal(t, w)
      requires var f := Pairs(v0, w); Pairs(v, w) == f[..|f| / 2] && Pairs(t, w) == f[|f| / 2..]
      ensures Pairs(v, w) + Pairs(t, w) == Pairs(v0, w)
    {
      hide IsInternal, Pairs;
    }

    static lemma PageAt(pages: Store, level: seq<nat>, q: nat, w: nat)
      requires GoodLevel(pages, level, w) && q < |level|
      ensures level[q] in pages && IsInternal(pages[level[q]], w)
    {
    }

    /** A root over the page that was the root and its new right half. */
    method SplitRoot(left: nat, sep: Record, right: nat)
      requires Rising() && left in Store() && left < TWO32 && right < TWO32 && |sep| == w && Capacity() >= 1
      requires var first := GetRecord(Store()[left], 0); w <= |first| && KeyOf(first, w) < KeyOf(sep, w)
      modifies this, disk
      ensures Rising() && levels == old(levels) + [[root]] && Upper(Store(), root, levels, |old(levels)|, w)
      ensures Flat(Store(), [root], w)
           == [Pair(KeyOf(GetRecord(old(Store())[left], 0), w), left), Pair(KeyOf(sep, w), right)]
      ensures Grown(old(Store()), Store(), old(disk.LiveIds()), old(levels), levels, |old(levels)|)
      ensures old(disk.LiveIds()) <= disk.LiveIds() && Capacity() == old(Capacity()) - 1
    {
      hide PageBytes.View, PageBytes.Wf, StoreOf, DiskManager.Valid, DiskManager.LiveIds, DiskManager.FreeIds,
           Pages.Valid, KeyOf, IsInternal, Pairs, PairAt, Flat, DistinctIds, AllIn, Upper, Grown, RootPage, BuiltRoot,
           Ascending, GetRecord;
      ghost var pages, live := Store(), disk.LiveIds();
      var p := LoadPage(left);
      var first := p.GetRecord(0);
      KeyIsPrefix(first, w);
      var id := NewId();
      var u := BuildRoot(id, first[..w], left, sep, right);
      ghost var mixed := Store();
      SavePage(id, u);
      StoreMeets(mixed, pages, id, u.View());
      GrownTop(pages, Store(), live, levels, id);
      RootIsBuilt(id, first[..w], left, sep, right, w);
      RootPairs(id, first[..w], left, sep, right, w);
      PairAscends(KeyOf(first, w), left, KeyOf(sep, w), right);
      RootOnTop(Store(), levels, id, w);
      TopAllIn(pages, Store(), levels, id, live);
      root := id;
      levels := levels + [[id]];
    }

    /** The new root page, filled by inserting its four entries; the first key may have no bytes. */
    method BuildRoot(id: nat, a: Record, left: nat, b: Record, right: nat) returns (u: SlottedPage)
      requires |a| <= MAX_RECORD && |b| <= MAX_RECORD && id < TWO32 && left < TWO32 && right < TWO32
      ensures fresh(u) && fresh(u.data) && u.Valid() && u.View() == BuiltRoot(id, a, left, b, right)
    {
      hide PageBytes.View, PageBytes.Wf, Pages.Insert;
      u := NewPage();
      u.Init(id, Internal);
      var r1 := u.InsertRecord(a);
      var r2 := u.InsertRecord(Bytes32(left));
      var r3 := u.InsertRecord(b);
      var r4 := u.InsertRecord(Bytes32(right));
    }

    static lemma KeyIsPrefix(rec: Record, w: nat)
      requires w <= |rec|
      ensures |rec[..w]| == w && KeyOf(rec[..w], w) == KeyOf(rec, w)
    {
      assert rec[..w][..w] == rec[..w];
    }

    static lemma PairAscends(a: int, x: nat, b: int, y: nat)
      requires a < b
      ensures Ascending([Pair(a, x), Pair(b, y)])
    {
    }

    static lemma StoreMeets(pages: Store, base: Store, id: nat, v: Page)
      requires pages - {id} == base && id !in base
      ensures pages[id := v] == base[id := v]
    {
      assert forall x :: x in base <==> x in pages && x != id;
      assert forall x :: x in base ==> (pages - {id})[x] == pages[x];
    }

    static lemma TopAllIn(pages: Store, pages': Store, levels: seq<seq<nat>>, id: nat, live: set<nat>)
      requires Grown(pages, pages', live, levels, levels + [[id]], |levels|)
      ensures DistinctIds(levels + [[id]]) && AllIn(pages', levels + [[id]])
    {
    }

    /**
     * Puts (separator, new page) right after entry i of level k. The parent that holds that entry is split first
     * when it is full, and then the half that now holds the entry takes the pair.
     */
    method InsertIntoParent(stack: seq<Crumb>, sep: Record, right: nat, ghost k: nat, ghost i: nat)
      requires Rising() && 0 < k < |levels| && Upper(Store(), root, levels, k, w)
      requires PathOk(Store(), levels, stack, k - 1, i, w)
      requires |sep| == w && right < TWO32
      requires GoodLevel(Store(), levels[k], w) && i < |Flat(Store(), levels[k], w)|
      requires Between(Flat(Store(), levels[k], w), i, KeyOf(sep, w))
      requires Capacity() >= NewPages(Store(), levels, k, i, w)
      modifies this, disk
      ensures Rising() && k < |levels| && Upper(Store(), root, levels, k, w)
      ensures var n := old(NewPages(Store(), levels, k, i, w));
              && Capacity() == old(Capacity()) - n && (n == 0 ==> levels == old(levels) && root == old(root))
              && |levels| == |old(levels)| + if n == |old(levels)| - k + 1 then 1 else 0
      ensures GoodLevel(Store(), levels[k], w)
      ensures Flat(Store(), levels[k], w)
           == PutAfter(old(Flat(Store(), levels[k], w)), i, Pair(KeyOf(sep, w), right))
      ensures Grown(old(Store()), Store(), old(disk.LiveIds()), old(levels), levels, k)
      ensures old(disk.LiveIds()) <= disk.LiveIds()
      decreases |stack|, 1
    {
      hide PageBytes.View, PageBytes.Wf, StoreOf, DiskManager.Valid, DiskManager.LiveIds, DiskManager.FreeIds,
           Pages.Valid, KeyOf, IsInternal, Pairs, PairAt, Flat, Off, Owner, Heads, DistinctIds, AllIn, PathOk, Upper,
           Ascending, Grown, InsertId, PutAfter, Between, GoodLevel, HalvesOf, OnPage, NewPages, Compact;
      ghost var pages, levels0, live := Store(), levels, disk.LiveIds();
      ghost var q := Owner(pages, levels[k], i, w);
      NewPagesHere(pages, levels, k, i, w);
      PathTop(pages, levels, stack, k - 1, i, w);
      PageAt(pages, levels[k], q, w);
      var parent := stack[|stack| - 1].page;
      var p := LoadPage(parent);
      var fits := PairRoom(p);
      if !fits {
        var id := SplitInternal(stack, k, i);
        ghost var pages1, levels1, live1 := Store(), levels, disk.LiveIds();
        parent, p, q := ChooseHalf(parent, id, KeyOf(sep, w), k, i, q, pages, levels0);
        PutPair(p, parent, sep, right, k, q, i);
        GrownTwice(pages, pages1, Store(), live, live1, levels0, levels1, levels, k);
      } else {
        PutPair(p, parent, sep, right, k, q, i);
      }
    }

    static lemma NewPagesHere(pages: Store, levels: seq<seq<nat>>, k: nat, i: nat, w: nat)
      requires k < |levels| && GoodLevel(pages, levels[k], w) && i < |Flat(pages, levels[k], w)|
      ensures var q := Owner(pages, levels[k], i, w);
              NewPages(pages, levels, k, i, w)
              == if Gap(Compact(pages[levels[k][q]])) >= PairSpace(w) then 0
                 else 1 + NewPages(pages, levels, k + 1, q, w)
    {
    }

    /** Which half takes a key: the new page if its first key is below it. */
    method ChooseHalf(node: nat, id: nat, key: int, ghost k: nat, ghost i: nat, ghost q: nat, ghost pages: Store,
                      ghost levels0: seq<seq<nat>>)
      returns (parent: nat, p: SlottedPage, ghost half: nat)
      requires Rising() && 0 < k < |levels| && k < |levels0| && Upper(Store(), root, levels, k, w)
      requires HalvesOf(pages, Store(), levels0[k], levels[k], q, id, w) && node == levels0[k][q]
      requires OnPage(pages, levels0[k], q, i, w) && Between(Flat(pages, levels0[k], w), i, key)
      requires 2 <= |Pairs(pages[levels0[k][q]], w)|
      ensures fresh(p) && fresh(p.data) && p.Valid() && parent in Store() && p.View() == Store()[parent]
      ensures half < |levels[k]| && parent == levels[k][half] && OnPage(Store(), levels[k], half, i, w)
      ensures IsInternal(p.View(), w) && Gap(p.View()) >= PairSpace(w)
      ensures GoodLevel(Store(), levels[k], w) && Flat(Store(), levels[k], w) == Flat(pages, levels0[k], w)
    {
      hide PageBytes.View, PageBytes.Wf, StoreOf, DiskManager.Valid, DiskManager.LiveIds, DiskManager.FreeIds,
           Pages.Valid, KeyOf, IsInternal, Pairs, PairAt, Flat, Off, Owner, Heads, DistinctIds, AllIn, PathOk, Upper,
           Ascending, Grown, InsertId, PutAfter, Between, HalvesOf, OnPage;
      HalvesSide(pages, Store(), root, levels0, levels, k, q, id, i, key, w);
      var u := LoadPage(id);
      var first := KeyAt(u, 0);
      if first < key {
        parent, p, half := id, u, q + 1;
      } else {
        p := LoadPage(node);
        parent, half := node, q;
      }
    }

    static lemma HalvesSide(pages: Store, pages': Store, root: nat, levels0: seq<seq<nat>>, levels: seq<seq<nat>>,
                            k: nat, q: nat, id: nat, i: nat, key: int, w: nat)
      requires k < |levels| && k < |levels0| && Upper(pages', root, levels, k, w)
      requires HalvesOf(pages, pages', levels0[k], levels[k], q, id, w)
      requires OnPage(pages, levels0[k], q, i, w) && Between(Flat(pages, levels0[k], w), i, key)
      requires 2 <= |Pairs(pages[levels0[k][q]], w)|
      ensures q + 1 < |levels[k]| && levels[k][q] == levels0[k][q] && levels[k][q + 1] == id
      ensures GoodLevel(pages', levels[k], w) && Flat(pages', levels[k], w) == Flat(pages, levels0[k], w)
      ensures id in pages' && IsInternal(pages'[id], w) && Gap(pages'[id]) >= PairSpace(w) && |Pairs(pages'[id], w)| > 0
      ensures levels[k][q] in pages' && IsInternal(pages'[levels[k][q]], w) && Gap(pages'[levels[k][q]]) >= PairSpace(w)
      ensures OnPage(pages', levels[k], if Pairs(pages'[id], w)[0].key < key then q + 1 else q, i, w)
    {
      UpperLevel(pages', root, levels, k, w);
      var level := levels[k];
      assert level[q] == levels0[k][q] && level[q + 1] == id;
      hide IsInternal, Pairs, Flat, Off, Ascending, Between, Upper;
      SideOf(pages', level, q, i, key, w);
    }

    /** The two positioned inserts, at the place a lower-bound search finds, and the write. */
    method PutPair(p: SlottedPage, id: nat, sep: Record, right: nat, ghost k: nat, ghost q: nat, ghost i: nat)
      requires Rising() && 0 < k < |levels| && Upper(Store(), root, levels, k, w)
      requires OnPage(Store(), levels[k], q, i, w) && id == levels[k][q]
      requires |sep| == w && right < TWO32 && Between(Flat(Store(), levels[k], w), i, KeyOf(sep, w))
      requires p.Valid() && IsInternal(p.View(), w) && Pairs(p.View(), w) == Pairs(Store()[id], w)
      requires Gap(p.View()) >= PairSpace(w)
      modifies p.data, disk`file
      ensures Rising() && Upper(Store(), root, levels, k, w) && GoodLevel(Store(), levels[k], w)
      ensures Flat(Store(), levels[k], w)
           == PutAfter(old(Flat(Store(), levels[k], w)), i, Pair(KeyOf(sep, w), right))
      ensures Grown(old(Store()), Store(), old(disk.LiveIds()), levels, levels, k)
      ensures old(disk.LiveIds()) == disk.LiveIds() && Capacity() == old(Capacity())
    {
      hide PageBytes.View, PageBytes.Wf, StoreOf, DiskManager.Valid, DiskManager.LiveIds, DiskManager.FreeIds,
           Pages.Valid, KeyOf, IsInternal, Pairs, PairAt, Flat, Off, Owner, Heads, DistinctIds, AllIn, PathOk, Upper,
           Ascending, Grown, InsertId, PutAfter, Between, OnPage, InsertAt, Bracket;
      ghost var pages, v := Store(), p.View();
      InOrderPage(pages, root, levels, k, q, i, w);
      var lo := LowerBound(p, KeyOf(sep, w));
      PutPairIs(pages, disk.LiveIds(), root, levels, k, q, i, lo, v, sep, right, w);
      hide InsertPair;
      InsertEntries(p, lo, sep, right);
      SavePage(id, p);
    }

    method InsertEntries(p: SlottedPage, lo: nat, sep: Record, right: nat)
      requires p.Valid() && |sep| <= MAX_RECORD && right < TWO32
      modifies p.data
      ensures p.Valid() && p.View() == InsertPair(old(p.View()), lo, sep, right)
    {
      hide PageBytes.View, PageBytes.Wf, InsertAt;
      var a := p.InsertRecordAt(2 * lo, sep);
      var b := p.InsertRecordAt(2 * lo + 1, Bytes32(right));
    }

    static lemma PutPairIs(pages: Store, live: set<nat>, root: nat, levels: seq<seq<nat>>, k: nat, q: nat, i: nat,
                           lo: nat, v: Page, sep: Record, right: nat, w: nat)
      requires DistinctIds(levels) && AllIn(pages, levels) && Upper(pages, root, levels, k, w)
      requires 0 < w && |sep| == w && right < TWO32
      requires OnPage(pages, levels[k], q, i, w) && Between(Flat(pages, levels[k], w), i, KeyOf(sep, w))
      requires levels[k][q] in pages && IsInternal(pages[levels[k][q]], w)
      requires IsInternal(v, w) && Pairs(v, w) == Pairs(pages[levels[k][q]], w) && Gap(v) >= PairSpace(w)
      requires Bracket(Pairs(v, w), lo, lo, KeyOf(sep, w))
      ensures var pages' := pages[levels[k][q] := InsertPair(v, lo, sep, right)];
              && Upper(pages', root, levels, k, w) && GoodLevel(pages', levels[k], w)
              && Flat(pages', levels[k], w) == PutAfter(Flat(pages, levels[k], w), i, Pair(KeyOf(sep, w), right))
              && Grown(pages, pages', live, levels, levels, k) && AllIn(pages', levels)
    {
      UpperLevel(pages, root, levels, k, w);
      hide KeyOf, IsInternal, Pairs, Flat, Off, DistinctIds, Ascending, InsertPair, PutAfter, Between, Bracket, Upper;
      PlaceInPage(pages, levels[k], q, i, lo, KeyOf(sep, w), w);
      InsertPairPage(v, w, lo, sep, right);
      PairPut(pages, root, levels, k, q, i, lo, InsertPair(v, lo, sep, right), Pair(KeyOf(sep, w), right), w);
      GrownInPlace(pages, pages[levels[k][q] := InsertPair(v, lo, sep, right)], live, levels, k, q);
    }

    static lemma InOrderPage(pages: Store, root: nat, levels: seq<seq<nat>>, k: nat, q: nat, i: nat, w: nat)
      requires Upper(pages, root, levels, k, w) && OnPage(pages, levels[k], q, i, w)
      ensures Ascending(Flat(pages, levels[k], w)) && q < |levels[k]|
      ensures levels[k][q] in pages && IsInternal(pages[levels[k][q]], w) && Ascending(Pairs(pages[levels[k][q]], w))
    {
      UpperLevel(pages, root, levels, k, w);
      PairsAscending(pages, levels[k], q, w);
    }

    // ---- leaf splits ------------------------------------------------------------------------------------

    /** Moves leaf c's records from the pivot on to a new leaf and links it in on the right. */
    method DivideLeaf(leaf: nat, ghost c: nat) returns (id: nat, sep: Record, ghost v: Page, ghost t: Page)
      requires Ready() && 0 < |levels| && c < |levels[0]| && leaf == levels[0][c] && InStore(Store(), levels[0])
      requires NoDup(levels[0]) && Chained(Store(), levels[0]) && HasCut(Store()[leaf].slots, w) && Capacity() >= 1
      modifies disk
      ensures Ready() && id !in old(disk.LiveIds()) && disk.LiveIds() == old(disk.LiveIds()) + {id}
      ensures Capacity() == old(Capacity()) - 1 && id < TWO32 && id !in old(Store())
      ensures Store() == Linked(old(Store()), levels[0], c, id, v, t)
      ensures var v0 := old(Store())[leaf];
              var t0 := Pages.Init(id, Leaf).(left := leaf, right := v0.right);
              && Divided(v0.(right := id), t0, Pivot(v0.slots), v, t)
              && |sep| == w && KeyOf(sep, w) == KeyOf(v0.slots[Pivot(v0.slots)].rec, w)
    {
      hide PageBytes.View, PageBytes.Wf, StoreOf, DiskManager.Valid, DiskManager.LiveIds, DiskManager.FreeIds,
           Pages.Valid, Divided, KeyOf, LiveList, Append, Pages.Insert, Pivot, Chained, NoDup, InStore, GoodLevel, Flat,
           Linked;
      ghost var base := Store();
      InStoreAt(base, levels[0], c);
      id := NewId();
      ghost var mixed := Store();
      var right, p, u;
      right, sep, p, u := CutLeaf(leaf, id);
      v, t := p.View(), u.View();
      SavePage(leaf, p);
      SavePage(id, u);
      StoresMeet(mixed, base, id, t, leaf, v);
      LinkedIs(base, levels[0], c, id, v, t, right);
      if right != INVALID_PAGE {
        Relink(right, id);
      }
    }

    static lemma SplittableCut(pages: Store, levels: seq<seq<nat>>, c: nat, w: nat)
      requires Splittable(pages, levels, c, w)
      ensures |levels| > 0 && c < |levels[0]| && levels[0][c] in pages && HasCut(pages[levels[0][c]].slots, w)
    {
    }

    /** The two halves of a leaf, in memory. */
    method CutLeaf(leaf: nat, id: nat) returns (right: nat, sep: Record, p: SlottedPage, u: SlottedPage)
      requires Ready() && leaf in Store() && id < TWO32
      requires HasCut(Store()[leaf].slots, w)
      ensures fresh(p) && fresh(p.data) && fresh(u) && fresh(u.data) && p.Valid() && u.Valid()
      ensures var v0 := Store()[leaf];
              var t0 := Pages.Init(id, Leaf).(left := leaf, right := v0.right);
              && right == v0.right && |sep| == w && KeyOf(sep, w) == KeyOf(v0.slots[Pivot(v0.slots)].rec, w)
              && Divided(v0.(right := id), t0, Pivot(v0.slots), p.View(), u.View())
    {
      hide PageBytes.View, PageBytes.Wf, StoreOf, DiskManager.Valid, DiskManager.LiveIds, DiskManager.FreeIds, KeyOf,
           LiveList, Append, Pages.Insert, Pivot;
      p := LoadPage(leaf);
      var pivot := FindPivot(p);
      right := p.GetRight();
      RightIsSmall(p);
      p.SetRight(id);
      u := NewPage();
      u.Init(id, Leaf);
      u.SetLeft(leaf);
      u.SetRight(right);
      ghost var v0 := p.View();
      MoveTail(p, u, pivot);
      sep := CutKey(u, v0.slots, pivot);
    }

    static lemma RightIsSmall(p: SlottedPage)
      requires p.Valid()
      ensures p.View().right < TWO32
    {
      PageBytes.WfIsValid(p.data[..]);
    }

    /** The key the upper part starts with. */
    method CutKey(u: SlottedPage, ghost slots: seq<SlotView>, ghost pivot: nat) returns (sep: Record)
      requires u.Valid() && LiveList(slots) != [] && pivot == Pivot(slots) < |slots| && slots[pivot].Live?
      requires w <= |slots[pivot].rec| && u.View().slots == AsSlots(LiveList(slots[pivot..]))
      ensures |sep| == w && KeyOf(sep, w) == KeyOf(slots[pivot].rec, w)
    {
      hide PageBytes.View, PageBytes.Wf, KeyOf, LiveList, Pivot;
      PivotIsLive(slots);
      var rec := u.GetRecord(0);
      assert u.View().slots[0] == Live(slots[pivot].rec);
      KeyIsPrefix(rec, w);
      sep := rec[..w];
    }

    /** Points a page's left link at the new page. */
    method Relink(right: nat, id: nat)
      requires Ready() && right in Store() && id < TWO32
      modifies disk`file
      ensures Ready() && disk.LiveIds() == old(disk.LiveIds()) && Capacity() == old(Capacity())
      ensures Store() == old(Store())[right := old(Store())[right].(left := id)]
    {
      hide PageBytes.View, PageBytes.Wf, StoreOf, DiskManager.Valid, DiskManager.LiveIds, DiskManager.FreeIds;
      var r := LoadPage(right);
      r.SetLeft(id);
      SavePage(right, r);
    }

    static lemma InStoreAt(pages: Store, leaves: seq<nat>, c: nat)
      requires InStore(pages, leaves) && c < |leaves|
      ensures leaves[c] in pages
    {
    }

    static lemma LinkedIs(pages: Store, leaves: seq<nat>, c: nat, id: nat, v: Page, t: Page, right: nat)
      requires InStore(pages, leaves) && NoDup(leaves) && Chained(pages, leaves) && c < |leaves| && id !in pages
      requires right == pages[leaves[c]].right && forall x :: x in pages ==> x < MAX_PAGES
      ensures var p := pages[leaves[c] := v][id := t];
              && (right == INVALID_PAGE ==> Linked(pages, leaves, c, id, v, t) == p)
              && (right != INVALID_PAGE ==>
                        right in p && Linked(pages, leaves, c, id, v, t) == p[right := p[right].(left := id)])
    {
      assert right == Neighbour(leaves, c + 1);
      if c + 1 < |leaves| {
        assert leaves[c + 1] in pages && leaves[c + 1] != leaves[c];
      }
    }

    /**
     * Splits the leaf that holds the place of a key, and as many of its ancestors as have to give way, up to a new
     * root. The tree is well-formed afterwards and holds the same records in the same order.
     */
    method SplitChild(stack: seq<Crumb>, key: int, ghost c: nat) returns (id: nat)
      requires Valid() && Covers(Seps(Store(), levels, w), c, key) && PathOk(Store(), levels, stack, 0, c, w)
      requires Splittable(Store(), levels, c, w) && Capacity() >= 1 + NewPages(Store(), levels, 1, c, w)
      modifies this, disk
      ensures Valid() && Records() == old(Records())
      ensures var n := old(NewPages(Store(), levels, 1, c, w));
              && Capacity() == old(Capacity()) - 1 - n
              && |levels| == |old(levels)| + if n == |old(levels)| then 1 else 0
      ensures levels[0] == InsertId(old(levels)[0], c, id) && id !in old(disk.LiveIds())
      ensures |levels| > 1 && Separators() == old(SepsAfterSplit(Store(), root, levels, c, id, w))
      ensures |old(levels)| > 1 ==>
                var slots, f := old(Store()[levels[0][c]].slots), old(Separators());
                Separators() == f[..c + 1] + [Pair(KeyOf(slots[Pivot(slots)].rec, w), id)] + f[c + 1..]
      ensures StrictMinKey() <==> old(StrictMinKey())
      ensures |old(levels)| > 1 ==> Separators()[0] == old(Separators()[0])
      ensures OthersStay(old(Store()), Store(), old(levels))
      ensures old(disk.LiveIds()) <= disk.LiveIds()
    {
      hide PageBytes.View, PageBytes.Wf, StoreOf, DiskManager.Valid, DiskManager.LiveIds, DiskManager.FreeIds,
           Pages.Valid, Divided, KeyOf, LiveList, Pivot, Chained, NoDup, InStore, GoodLevel, Flat, Linked, IsTree,
           Found, Covers, PathOk, Seps, Splittable, AllIn, DistinctIds, InsertId, LeafLevel, LeafSplit, OneLevel,
           Between, PutAfter, AllRecs, SortedRecs, Grown, Upper, Strict, SepsAfterSplit, NewPages,
           OthersStay;
      ghost var pages, levels0, root0 := Store(), levels, root;
      var leaf, l, again, c' := FindRecord(key);
      SameLeaf(pages, root, levels, stack, again, c, c', leaf, l, key, w);
      var sep; ghost var v, t;
      SplittableCut(Store(), levels, c, w);
      id, sep, v, t := DivideLeaf(leaf, c);
      ghost var pages1, live1 := Store(), disk.LiveIds();
      DividedIs(pages, root, levels, c, id, v, t, KeyOf(sep, w), w);
      LeafReady(pages, pages1, root, levels, c, id, w);
      SameAboveLeaf(pages, pages1, root, levels, c, id, w);
      levels := levels[0 := InsertId(levels[0], c, id)];
      ghost var levels1 := levels;
      if stack == [] {
        LoneLeafCut(pages, root0, levels0, c, id, v, t, KeyOf(sep, w), w);
        SplitRoot(leaf, sep, id);
        LeafJoined(pages, pages1, Store(), root, live1, levels0[0], levels1, levels,
                   [Pair(KeyOf(GetRecord(v, 0), w), root0)], c, id, w);
      } else {
        PathAfterLeafSplit(pages, pages1, root0, levels0, c, id, stack, w);
        InsertIntoParent(stack, sep, id, 1, c);
        LeafJoined(pages, pages1, Store(), root, live1, levels0[0], levels1, levels, Seps(pages, levels0, w), c, id, w);
      }
      UpperLevel(Store(), root, levels, 1, w);
      SplitSepsAre(pages, Store(), root0, root, levels0, levels, c, id, KeyOf(sep, w), w);
      SplitKeepsStrict(pages, Store(), root0, root, levels0, levels, c, id, w);
      FirstSepStays(pages, root0, levels0, c, id, w);
      SplitSepsSaid(pages, root0, levels0, c, id, w);
      OthersAfterSplit(pages, pages1, Store(), live1, levels0, levels, c, id);
    }

    static lemma SameAboveLeaf(pages: Store, pages1: Store, root: nat, levels: seq<seq<nat>>, c: nat, id: nat, w: nat)
      requires IsTree(pages, root, levels, w) && c < |levels[0]|
      requires DistinctIds(levels) && AllIn(pages, levels) && OneLevel(pages, pages1, levels[0], id)
      ensures NewPages(pages1, levels[0 := InsertId(levels[0], c, id)], 1, c, w) == NewPages(pages, levels, 1, c, w)
      ensures |levels| == 1 ==> NewPages(pages, levels, 1, c, w) == 1
    {
      hide DistinctIds, AllIn, OneLevel, InsertId, Flat, SameOn, GoodLevel, Upper, LeafLevel;
      forall t | 1 <= t < |levels|
        ensures SameOn(pages, pages1, levels[t]) && GoodLevel(pages, levels[t], w)
      {
        OneLevelRest(pages, pages1, levels, 0, t, id);
        UpperAt(pages, root, levels, t, w);
      }
      NewPagesFrame(pages, pages1, levels, levels[0 := InsertId(levels[0], c, id)], 1, c, w);
    }

    /** The second search comes to the same leaf. */
    static lemma SameLeaf(pages: Store, root: nat, levels: seq<seq<nat>>, stack: seq<Crumb>, again: seq<Crumb>, c: nat,
                          c': nat, leaf: nat, l: nat, key: int, w: nat)
      requires IsTree(pages, root, levels, w) && Covers(Seps(pages, levels, w), c, key)
               && PathOk(pages, levels, stack, 0, c, w)
      requires Found(pages, levels, c', leaf, l, again, key, w)
      ensures c' == c && 0 < |levels| && c < |levels[0]| && leaf == levels[0][c] && leaf in pages
      ensures AllIn(pages, levels) && InStore(pages, levels[0]) && NoDup(levels[0]) && Chained(pages, levels[0])
              && DistinctIds(levels)
      ensures stack == [] <==> |levels| == 1
    {
      TreeIds(pages, root, levels, w);
      CoversUnique(Seps(pages, levels, w), c, c', key);
      PathLength(pages, levels, stack, 0, c, w);
    }

    // ---- insert -----------------------------------------------------------------------------------------

    /** The page has room for the record, after compaction if need be. */
    static predicate Fits(v: Page, rec: Record) {
      |rec| + SLOT_SIZE <= TotalFree(v)
    }

    /** The place, among the leaves, of the one a key belongs to. */
    ghost function HomeOf(key: int): (c: nat)
      reads this, disk
      requires Valid()
      ensures c < |levels[0]| && levels[0][c] in Store()
      ensures Covers(Seps(Store(), levels, w), c, key)
    {
      HomeIs(Store(), root, levels, key, w);
      FloorIn(Seps(Store(), levels, w), key)
    }

    static lemma HomeIs(pages: Store, root: nat, levels: seq<seq<nat>>, key: int, w: nat)
      requires IsTree(pages, root, levels, w)
      ensures var c := FloorIn(Seps(pages, levels, w), key);
              c < |levels[0]| && levels[0][c] in pages && Covers(Seps(pages, levels, w), c, key)
    {
      FloorInCovers(Seps(pages, levels, w), key);
    }

    /**
     * Inserts a record. If its leaf has room, the record joins the others at its sorted place, and the tree is still
     * well-formed exactly when its key is new. If the leaf is full it is split and the record is not stored: the tree
     * is well-formed with the records it had. The result is true either way.
     */
    method Insert(rec: Record) returns (ok: bool)
      requires Valid() && w <= |rec| <= MAX_RECORD
      requires var c := HomeOf(KeyOf(rec, w));
               !Fits(Store()[levels[0][c]], rec) ==>
                 Splittable(Store(), levels, c, w) && Capacity() >= 1 + NewPages(Store(), levels, 1, c, w)
      modifies this, disk
      ensures ok && Ready() && 0 < |levels| && InStore(Store(), levels[0])
      ensures OthersStay(old(Store()), Store(), old(levels))
      ensures old(Fits(Store()[levels[0][HomeOf(KeyOf(rec, w))]], rec)) ==>
                && levels == old(levels) && root == old(root)
                && AllRecs(Store(), levels[0]) == Put(old(Records()), rec, w)
                && (Valid() <==> !HasKey(old(Records()), KeyOf(rec, w), w))
      ensures old(Fits(Store()[levels[0][HomeOf(KeyOf(rec, w))]], rec)) && Valid() ==>
                && Separators() == old(Separators())
                && (StrictMinKey() <==>
                      old(StrictMinKey()) && (|levels| > 1 ==> Separators()[0].key <= KeyOf(rec, w)))
      ensures !old(Fits(Store()[levels[0][HomeOf(KeyOf(rec, w))]], rec)) ==>
                && Valid() && Records() == old(Records()) && |levels[0]| == |old(levels)[0]| + 1
                && (StrictMinKey() <==> old(StrictMinKey()))
                && Capacity() == old(Capacity()) - 1 - old(NewPages(Store(), levels, 1, HomeOf(KeyOf(rec, w)), w))
                && (|old(levels)| > 1 ==> |levels| > 1 && Separators()[0] == old(Separators()[0]))
    {
      hide PageBytes.View, PageBytes.Wf, StoreOf, DiskManager.Valid, DiskManager.LiveIds, DiskManager.FreeIds,
           Pages.Valid, KeyOf, LiveList, NoDup, IsTree, Found, Covers, PathOk, Seps, Put, HasKey, Chained, AllRecs,
           SortedRecs, Splittable, AllIn, DistinctIds, InsertId, LeafLevel, InsertAt, Fits, InStore, HomeOf, Strict,
           SepsAfterSplit, NewPages, OthersStay;
      ghost var pages, root0, levels0 := Store(), root, levels;
      var key := KeyOf(rec, w);
      ghost var c := HomeOf(key);
      var leaf, l, stack, c' := FindRecord(key);
      SameHome(pages, root, levels, stack, c, c', leaf, l, key, w);
      var p := LoadPage(leaf);
      InsertedLeaf(pages, root, levels, c, leaf, l, stack, rec, w);
      var slot := p.InsertRecordAt(l, rec);
      if slot == None {
        var id := SplitChild(stack, key, c);
        TreeIds(Store(), root, levels, w);
        GrewByOne(levels0[0], c, id, levels[0]);
        AllInFirst(Store(), levels);
      } else {
        SavePage(leaf, p);
        OneLeafChanged(pages, levels, c, p.View());
      }
      ok := true;
    }

    static lemma AllInFirst(pages: Store, levels: seq<seq<nat>>)
      requires AllIn(pages, levels) && |levels| > 0
      ensures InStore(pages, levels[0])
    {
    }

    static lemma GrewByOne(level: seq<nat>, c: nat, id: nat, level': seq<nat>)
      requires c < |level| && level' == InsertId(level, c, id)
      ensures |level'| == |level| + 1
    {
    }

    static lemma SameHome(pages: Store, root: nat, levels: seq<seq<nat>>, stack: seq<Crumb>, c: nat, c': nat, leaf: nat,
                          l: nat, key: int, w: nat)
      requires IsTree(pages, root, levels, w) && Covers(Seps(pages, levels, w), c, key)
      requires Found(pages, levels, c', leaf, l, stack, key, w)
      ensures c' == c && 0 < |levels| && c < |levels[0]| && leaf == levels[0][c] && leaf in pages
      ensures PathOk(pages, levels, stack, 0, c, w)
    {
      CoversUnique(Seps(pages, levels, w), c, c', key);
    }

    /** The positioned insert into the leaf found, seen from the whole tree. */
    static lemma InsertedLeaf(pages: Store, root: nat, levels: seq<seq<nat>>, c: nat, leaf: nat, l: nat,
                              stack: seq<Crumb>, rec: Record, w: nat)
      requires 0 < w <= |rec| && IsTree(pages, root, levels, w)
               && Found(pages, levels, c, leaf, l, stack, KeyOf(rec, w), w)
      ensures InsertAt(pages[leaf], l, rec).0.Some? <==> Fits(pages[leaf], rec)
      ensures InStore(pages, levels[0]) && Keyed(AllRecs(pages, levels[0]), w)
      ensures InsertAt(pages[leaf], l, rec).0.Some? ==>
                var pages' := pages[leaf := InsertAt(pages[leaf], l, rec).1];
                && InStore(pages', levels[0]) && AllRecs(pages', levels[0]) == Put(AllRecs(pages, levels[0]), rec, w)
                && (IsTree(pages', root, levels, w) <==> !HasKey(AllRecs(pages, levels[0]), KeyOf(rec, w), w))
                && (IsTree(pages', root, levels, w) ==> KeptSeps(pages, pages', root, levels, rec, w))
    {
      PageOfLevel(pages, root, levels, 0, c, w);
      TreeSorted(pages, root, levels, w);
      hide KeyOf, LiveList, IsTree, Covers, PathOk, Seps, Put, HasKey, AllRecs, LeafEdited, LowerPos, Strict;
      InsertAtRefinesList(pages[leaf], l, rec);
      LowerIn(pages[leaf].slots, l, KeyOf(rec, w), w);
      var (slot, v) := InsertAt(pages[leaf], l, rec);
      if slot.Some? {
        hide InsertAt, Pages.Valid;
        KeepsLinks(pages[leaf], l, rec, slot.value, v);
        EditedLeaf(pages, root, levels, c, v, w);
        InsertEffect(pages, pages[leaf := v], root, levels, c, l, slot.value, rec, w);
        SepsStay(pages, pages[leaf := v], root, levels, c, w);
        if IsTree(pages[leaf := v], root, levels, w) {
          InsertKeepsStrict(pages, pages[leaf := v], root, levels, rec, w);
        }
      }
    }

    /** The separators are as before, and strict min-key is kept if the record is not below the leftmost one. */
    static ghost predicate KeptSeps(pages: Store, pages': Store, root: nat, levels: seq<seq<nat>>, rec: Record, w: nat)
      requires IsTree(pages, root, levels, w) && IsTree(pages', root, levels, w) && w <= |rec|
    {
      && Seps(pages', levels, w) == Seps(pages, levels, w)
      && (Strict(pages', root, levels, w) <==>
            && Strict(pages, root, levels, w)
            && (|levels| > 1 ==> Seps(pages', levels, w)[0].key <= KeyOf(rec, w)))
    }

    static lemma LowerIn(slots: seq<SlotView>, l: nat, key: int, w: nat)
      requires LowerPos(slots, l, key, w)
      ensures l <= |slots|
    {
    }

    static lemma KeepsLinks(p: Page, pos: nat, rec: Record, at: nat, v: Page)
      requires Inserted(p, pos, rec, at, v)
      ensures v.left == p.left && v.right == p.right
    {
    }
  }
}
