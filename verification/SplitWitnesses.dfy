/** Well-formed trees with a full leaf that cannot be split soundly. */
module SplitWitnesses {
  import opened Bytes
  import opened Pages
  import opened Levels
  import opened Trees
  import opened TreeEdits
  import opened Splits
  import opened Growth
  import opened LeafSplits
  import opened StrictMinKeys

  // ---- keys below the leftmost separator ------------------------------------------------------------

  /** A record whose one-byte key is b, with n bytes behind it. */
  function Rec(b: Byte, n: nat): (r: Record)
    ensures |r| == n + 1 && r[0] == b
  {
    [b] + seq(n, _ => 0)
  }

  lemma KeyOfRec(b: Byte, n: nat)
    requires b < 128
    ensures KeyOf(Rec(b, n), 1) == b
  {
    var s: seq<Byte> := [b];
    assert Rec(b, n)[..1] == s && s[1..] == [];
    assert FromLE(s) == b;
    assert Pow256(1) == 256 by {
      assert Pow256(0) == 1;
    }
  }

  function SmallLeaf(): Page {
    Page(7, Leaf, INVALID_PAGE, 8, 94, [Live(Rec(1, 2000)), Live(Rec(2, 2000))])
  }

  function NextLeaf(): Page { Page(8, Leaf, 7, INVALID_PAGE, 4095, [Live(Rec(20, 0))]) }

  /** A root with separators 10 and 20. The leaf under the first one has taken keys 1 and 2, as the descent lets it. */
  function SmallStore(): Store {
    map[7 := SmallLeaf(), 8 := NextLeaf(), 9 := RootPage(9, Rec(10, 0), 7, Rec(20, 0), 8)]
  }

  function SmallLevels(): seq<seq<nat>> { [[7, 8], [9]] }

  lemma OneLive(r: Record)
    ensures LiveList([Live(r)]) == [r] && SumSize([Live(r)]) == |r| && DeadSpace([Live(r)]) == 0
  {
    assert [Live(r)][1..] == [];
  }

  lemma TwoLive(r: Record, s: Record)
    ensures LiveList([Live(r), Live(s)]) == [r, s] && SumSize([Live(r), Live(s)]) == |r| + |s|
    ensures DeadSpace([Live(r), Live(s)]) == 0
  {
    assert [Live(r), Live(s)][1..] == [Live(s)] && [Live(s)][1..] == [];
    OneLive(s);
    assert LiveList([Live(r), Live(s)]) == [r] + [s];
  }

  lemma SmallLeaves()
    ensures IsLeaf(SmallLeaf(), 1) && LiveList(SmallLeaf().slots) == [Rec(1, 2000), Rec(2, 2000)]
    ensures IsLeaf(NextLeaf(), 1) && LiveList(NextLeaf().slots) == [Rec(20, 0)]
    ensures TotalFree(SmallLeaf()) == 46
  {
    hide KeyOf, LiveList, SumSize, Rec, DeadSpace;
    KeyOfRec(1, 2000);
    KeyOfRec(2, 2000);
    TwoLive(Rec(1, 2000), Rec(2, 2000));
    OneLive(Rec(20, 0));
  }

  lemma SmallRoot()
    ensures var pages, levels := SmallStore(), SmallLevels();
            && GoodLevel(pages, [9], 1) && Flat(pages, [9], 1) == [Pair(10, 7), Pair(20, 8)]
  {
    hide KeyOf, IsInternal, Pairs, RootPage, Rec;
    KeyOfRec(10, 0);
    KeyOfRec(20, 0);
    RootPairs(9, Rec(10, 0), 7, Rec(20, 0), 8, 1);
    FlatOne(SmallStore(), 9, 1);
  }

  /** It is a well-formed tree. */
  lemma SmallTree()
    ensures IsTree(SmallStore(), 9, SmallLevels(), 1)
    ensures Seps(SmallStore(), SmallLevels(), 1) == [Pair(10, 7), Pair(20, 8)]
  {
    hide KeyOf, LiveList, SumSize, Rec, RootPage, IsInternal, Pairs, Flat, IsLeaf, GoodLevel;
    var pages, levels, f := SmallStore(), SmallLevels(), [Pair(10, 7), Pair(20, 8)];
    SmallRoot();
    SmallLeaves();
    KeyOfRec(1, 2000);
    KeyOfRec(2, 2000);
    KeyOfRec(20, 0);
    assert Upper(pages, 9, levels, 1, 1);
    SmallLevel();
  }

  lemma SmallLevel()
    ensures LeafLevel(SmallStore(), [7, 8], [Pair(10, 7), Pair(20, 8)], 1)
  {
    hide KeyOf, LiveList, SumSize, Rec, RootPage, IsLeaf;
    var pages, leaves, f := SmallStore(), [7, 8], [Pair(10, 7), Pair(20, 8)];
    SmallLeaves();
    KeyOfRec(1, 2000);
    KeyOfRec(2, 2000);
    KeyOfRec(20, 0);
    assert Keyed(LiveList(SmallLeaf().slots), 1) && RecsCovered(f, 0, LiveList(SmallLeaf().slots), 1);
    assert Keyed(LiveList(NextLeaf().slots), 1) && RecsCovered(f, 1, LiveList(NextLeaf().slots), 1);
    assert Chained(pages, leaves);
  }

  /** The halves of its first leaf. */
  function LowHalf(): Page { Page(7, Leaf, INVALID_PAGE, 10, 2095, [Live(Rec(1, 2000))]) }

  function HighHalf(): Page { Page(10, Leaf, 7, 8, 2095, [Live(Rec(2, 2000))]) }

  lemma SmallCut()
    ensures LeafCut(SmallStore(), [7, 8], 0, 10, LowHalf(), HighHalf())
    ensures LiveList(HighHalf().slots) == [Rec(2, 2000)]
  {
    hide Rec, LiveList, SumSize, DeadSpace, Footprint;
    var slots, x, y := SmallLeaf().slots, Rec(1, 2000), Rec(2, 2000);
    assert slots[..1] == [Live(x)] && slots[1..] == [Live(y)];
    TwoLive(x, y);
    OneLive(x);
    OneLive(y);
    OneFootprint(x);
    OneFootprint(y);
    NoDeadNoGain([Live(y)]);
    assert AsSlots([x]) == [Live(x)] && AsSlots([y]) == [Live(y)];
    assert [x] + [y] == [x, y];
    assert Pivot(slots) == 1;
  }

  /**
   * A well-formed tree, a record that does not fit the leaf it belongs to, and the pages the split of that leaf writes:
   * wherever a lower-bound search puts the new leaf's pair, no order of the leaves is well-formed.
   */
  lemma SmallKeysDefeatTheCut()
    ensures exists pages: Store, root: nat, levels: seq<seq<nat>>, rec: Record, id: nat, v: Page, t: Page ::
              && IsTree(pages, root, levels, 1) && |levels| == 2 && |levels[0]| == 2 && rec != []
              && Covers(Seps(pages, levels, 1), 0, KeyOf(rec, 1))
              && levels[0][0] in pages && |rec| + SLOT_SIZE > TotalFree(pages[levels[0][0]])
              && InStore(pages, levels[0]) && id !in pages && LeafCut(pages, levels[0], 0, id, v, t)
              && Unsound(pages, levels, id, v, t)
  {
    hide LeafLevel, LeafCut, IsTree, KeyOf, LiveList, Linked, Seps, Rec, RootPage, SmallLeaf;
    var pages, levels, v, t := SmallStore(), SmallLevels(), LowHalf(), HighHalf();
    SmallTree();
    SmallRoot();
    SmallLeaves();
    SmallCut();
    KeyOfRec(2, 2000);
    KeyOfRec(3, 2000);
    CutUnsound(pages, 9, levels, 10, v, t);
    assert Covers(Seps(pages, levels, 1), 0, KeyOf(Rec(3, 2000), 1));
  }

  /** Wherever the search for the new leaf's first key puts its pair, the leaves are in no order well-formed. */
  ghost predicate Unsound(pages: Store, levels: seq<seq<nat>>, id: nat, v: Page, t: Page) {
    && |levels| > 1 && |levels[0]| > 1 && levels[0][1] in pages && GoodLevel(pages, levels[1], 1)
    && LiveList(t.slots) != [] && |LiveList(t.slots)[0]| > 0
    && var f, key := Seps(pages, levels, 1), KeyOf(LiveList(t.slots)[0], 1);
       forall j: nat, leaves' :: Bracket(f, j, j, key) ==>
         !LeafLevel(Linked(pages, levels[0], 0, id, v, t), leaves', f[..j] + [Pair(key, id)] + f[j..], 1)
  }

  lemma CutUnsound(pages: Store, root: nat, levels: seq<seq<nat>>, id: nat, v: Page, t: Page)
    requires IsTree(pages, root, levels, 1) && |levels| > 1 && |levels[0]| > 1 && InStore(pages, levels[0])
    requires LeafCut(pages, levels[0], 0, id, v, t) && id !in pages && id != INVALID_PAGE
    requires GoodLevel(pages, levels[1], 1) && LiveList(t.slots) != [] && |LiveList(t.slots)[0]| > 0
    requires var f := Seps(pages, levels, 1); f != [] && KeyOf(LiveList(t.slots)[0], 1) <= f[0].key
    ensures Unsound(pages, levels, id, v, t)
  {
    hide LeafLevel, LeafCut, IsTree, KeyOf, LiveList, Linked, Seps;
    var f, key := Seps(pages, levels, 1), KeyOf(LiveList(t.slots)[0], 1);
    forall j: nat, leaves' | Bracket(f, j, j, key)
      ensures !LeafLevel(Linked(pages, levels[0], 0, id, v, t), leaves', f[..j] + [Pair(key, id)] + f[j..], 1)
    {
      SplitExact(pages, root, levels, 0, id, v, t, j, 1);
    }
  }

  // ---- strict min-key alone is not enough -----------------------------------------------------------

  /** A leaf whose one record has the separator's own key, as the right half of any split comes to have. */
  function BigLeaf(): Page { Page(7, Leaf, INVALID_PAGE, 8, 2095, [Live(Rec(10, 2000))]) }

  function BigStore(): Store {
    map[7 := BigLeaf(), 8 := NextLeaf(), 9 := RootPage(9, Rec(10, 0), 7, Rec(20, 0), 8)]
  }

  function EmptyHalf(): Page { Page(7, Leaf, INVALID_PAGE, 10, 4096, []) }

  function WholeHalf(): Page { Page(10, Leaf, 7, 8, 2095, [Live(Rec(10, 2000))]) }

  lemma BigLeaves()
    ensures IsLeaf(BigLeaf(), 1) && LiveList(BigLeaf().slots) == [Rec(10, 2000)] && TotalFree(BigLeaf()) == 2051
    ensures IsLeaf(NextLeaf(), 1) && LiveList(NextLeaf().slots) == [Rec(20, 0)]
  {
    hide KeyOf, LiveList, SumSize, Rec, DeadSpace;
    OneLive(Rec(10, 2000));
    OneLive(Rec(20, 0));
  }

  lemma BigLevel()
    ensures LeafLevel(BigStore(), [7, 8], [Pair(10, 7), Pair(20, 8)], 1)
  {
    hide KeyOf, LiveList, SumSize, Rec, RootPage, IsLeaf;
    var pages, leaves, f := BigStore(), [7, 8], [Pair(10, 7), Pair(20, 8)];
    BigLeaves();
    KeyOfRec(10, 2000);
    KeyOfRec(20, 0);
    assert Keyed(LiveList(BigLeaf().slots), 1) && RecsCovered(f, 0, LiveList(BigLeaf().slots), 1);
    assert Keyed(LiveList(NextLeaf().slots), 1) && RecsCovered(f, 1, LiveList(NextLeaf().slots), 1);
    assert Chained(pages, leaves);
  }

  lemma BigTree()
    ensures var pages, levels := BigStore(), SmallLevels();
            && IsTree(pages, 9, levels, 1) && GoodLevel(pages, [9], 1)
            && Seps(pages, levels, 1) == [Pair(10, 7), Pair(20, 8)] && Strict(pages, 9, levels, 1)
  {
    hide KeyOf, LiveList, SumSize, Rec, RootPage, IsInternal, Pairs, Flat, IsLeaf, GoodLevel;
    var pages, levels := BigStore(), SmallLevels();
    KeyOfRec(10, 0);
    KeyOfRec(20, 0);
    RootPairs(9, Rec(10, 0), 7, Rec(20, 0), 8, 1);
    FlatOne(pages, 9, 1);
    assert Upper(pages, 9, levels, 1, 1);
    BigLevel();
    BigLeaves();
    KeyOfRec(10, 2000);
    StrictInFirst(pages, 9, levels, 1);
  }

  lemma BigCut()
    ensures LeafCut(BigStore(), [7, 8], 0, 10, EmptyHalf(), WholeHalf())
    ensures LiveList(WholeHalf().slots) == [Rec(10, 2000)]
  {
    hide Rec, LiveList, SumSize, DeadSpace, Footprint;
    var slots, x := BigLeaf().slots, Rec(10, 2000);
    assert slots[..0] == [] && slots[0..] == slots;
    OneLive(x);
    OneFootprint(x);
    NoneAtAll();
    assert AsSlots([x]) == [Live(x)] && AsSlots([]) == [];
    assert [] + [x] == [x];
    assert Pivot(slots) == 0;
  }

  lemma NoneAtAll()
    ensures LiveList([]) == [] && SumSize([]) == 0 && DeadSpace([]) == 0 && Footprint([]) == 0
  {
  }

  /** The same with strict min-key at every slot: the leaf's first record is the cut and has the separator's key. */
  lemma StrictIsNotEnough()
    ensures exists pages: Store, root: nat, levels: seq<seq<nat>>, rec: Record, id: nat, v: Page, t: Page ::
              && IsTree(pages, root, levels, 1) && StrictAtEverySlot(pages, root, levels, 1)
              && |levels| == 2 && |levels[0]| == 2 && rec != [] && Covers(Seps(pages, levels, 1), 0, KeyOf(rec, 1))
              && Seps(pages, levels, 1)[0].key < KeyOf(rec, 1)
              && levels[0][0] in pages && |rec| + SLOT_SIZE > TotalFree(pages[levels[0][0]])
              && InStore(pages, levels[0]) && id !in pages && LeafCut(pages, levels[0], 0, id, v, t)
              && Unsound(pages, levels, id, v, t)
  {
    hide LeafLevel, LeafCut, IsTree, KeyOf, LiveList, Linked, Seps, Rec, RootPage, BigLeaf, Strict, StrictAtEverySlot;
    var pages, levels, v, t := BigStore(), SmallLevels(), EmptyHalf(), WholeHalf();
    BigTree();
    BigLeaves();
    BigCut();
    KeyOfRec(10, 2000);
    KeyOfRec(15, 2100);
    CutUnsound(pages, 9, levels, 10, v, t);
    StrictEverywhere(pages, 9, levels, 1);
    assert Covers(Seps(pages, levels, 1), 0, KeyOf(Rec(15, 2100), 1));
  }

  // ---- a root leaf with one record ----------------------------------------------------------------

  /**
   * The tree after its first insert: one leaf with one record. The pivot is that record, so nothing is left of the cut,
   * and a second record that does not fit makes `insert` split it all the same.
   */
  lemma FirstInsertLeavesNothingLeft(root: nat, rec: Record, second: Record, w: nat)
    requires root < TWO32 && 0 < w <= |rec| && |rec| + SLOT_SIZE <= PAGE_SIZE - HEADER_SIZE
    ensures var p := InsertAt(Init(root, Leaf), 0, rec).1;
            && IsTree(map[root := p], root, [[root]], w) && LiveList(p.slots) == [rec]
            && LiveList(p.slots[..Pivot(p.slots)]) == []
            && (|second| + SLOT_SIZE > TotalFree(p) <==>
                  |rec| + |second| + 2 * SLOT_SIZE > PAGE_SIZE - HEADER_SIZE)
  {
    hide KeyOf;
    var p0 := Init(root, Leaf);
    InsertedDirectly(p0, 0, rec);
    var p := InsertAt(p0, 0, rec).1;
    assert p.slots == [Live(rec)];
    OneLive(rec);
    assert p.slots[..0] == [];
    assert Pivot(p.slots) == 0;
    assert DeadSpace(p.slots) == 0 by {
      NoDeadNoGain(p.slots);
    }
    assert LeafLevel(map[root := p], [root], Seps(map[root := p], [[root]], w), w);
  }

  /**
   * An empty tree and a first record too long for any page: the leaf refuses it, and the walk to the pivot of that leaf
   * goes round for ever.
   */
  lemma FirstInsertTooLong(root: nat, rec: Record, w: nat)
    requires root < TWO32
    ensures var p := Init(root, Leaf);
            && IsTree(map[root := p], root, [[root]], w) && LiveList(p.slots) == []
            && (InsertAt(p, 0, rec).0 == None <==> rec == [] || |rec| + SLOT_SIZE > PAGE_SIZE - HEADER_SIZE)
            && (forall k: nat :: GetRecord(p, WalkAt(p, k)) == [])
  {
    EmptyTree(map[root := Init(root, Leaf)], root, w);
    WalkEndsExactly(Init(root, Leaf));
  }
}
