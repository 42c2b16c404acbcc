/** Splitting a leaf: when it is safe, and why the tree is well-formed and holds the same records afterwards. */
module LeafSplits {
  import opened Bytes
  import opened Pages
  import opened Levels
  import opened Trees
  import opened TreeEdits
  import opened Cascade
  import opened Splits
  import opened Growth

  /** A page the pivot walk ends on, at a record with a key. */
  predicate HasCut(slots: seq<SlotView>, w: nat) {
    && LiveList(slots) != []
    && var p := Pivot(slots); p < |slots| && slots[p].Live? && w <= |slots[p].rec|
  }

  /** On a leaf that is any with a record. */
  lemma LeafHasCut(v: Page, w: nat)
    requires IsLeaf(v, w)
    ensures HasCut(v.slots, w) <==> LiveList(v.slots) != []
  {
    hide KeyOf;
    if LiveList(v.slots) != [] {
      PivotIsLive(v.slots);
      LiveIndex(v.slots, Pivot(v.slots));
    }
  }

  /**
   * The leaf has a record to cut at, and the cut leaves a record to the left (for a leaf that is the root), or
   * cuts above the leaf's own separator (for any other leaf).
   */
  ghost predicate Splittable(pages: Store, levels: seq<seq<nat>>, c: nat, w: nat) {
    && |levels| > 0 && c < |levels[0]| && levels[0][c] in pages
    && var slots := pages[levels[0][c]].slots;
       && HasCut(slots, w)
       && var p := Pivot(slots);
          && (|levels| == 1 ==> LiveList(slots[..p]) != [])
          && (|levels| > 1 ==> GoodLevel(pages, levels[1], w) && c < |Flat(pages, levels[1], w)|
                               && Flat(pages, levels[1], w)[c].key < KeyOf(slots[p].rec, w))
  }

  /** The store after the leaf, the new leaf and the old right neighbour have been written. */
  function Linked(pages: Store, leaves: seq<nat>, c: nat, id: nat, v: Page, t: Page): Store
    requires c < |leaves| && (c + 1 < |leaves| ==> leaves[c + 1] in pages)
  {
    var p := pages[leaves[c] := v][id := t];
    if c + 1 < |leaves| then p[leaves[c + 1] := pages[leaves[c + 1]].(left := id)] else p
  }

  lemma LeafDivided(pages: Store, leaves: seq<nat>, c: nat, id: nat, v: Page, t: Page, pivot: nat)
    requires InStore(pages, leaves) && NoDup(leaves) && Chained(pages, leaves) && c < |leaves| && id !in pages
    requires pages[leaves[c]].kind == Leaf && pivot <= |pages[leaves[c]].slots|
    requires var v0 := pages[leaves[c]];
             Divided(v0.(right := id), Init(id, Leaf).(left := leaves[c], right := v0.right), pivot, v, t)
    requires LiveList(pages[leaves[c]].slots[pivot..]) != []
    ensures LeafSplit(pages, Linked(pages, leaves, c, id, v, t), leaves, c, id)
    ensures OneLevel(pages, Linked(pages, leaves, c, id, v, t), leaves, id)
  {
    hide LiveList, Valid, Footprint, DeadSpace;
    var pages1 := Linked(pages, leaves, c, id, v, t);
    forall i | 0 <= i < |leaves|
      ensures leaves[i] in pages1
      ensures i != c && i != c + 1 ==> pages1[leaves[i]] == pages[leaves[i]]
      ensures i == c ==> pages1[leaves[i]] == v
    {
    }
    assert pages1[id] == t;
  }

  /** After the leaf has been divided the levels above still describe the old leaves. */
  lemma LeafReady(pages: Store, pages1: Store, root: nat, levels: seq<seq<nat>>, c: nat, id: nat, w: nat)
    requires IsTree(pages, root, levels, w) && AllIn(pages, levels) && c < |levels[0]| && id !in pages
    requires OneLevel(pages, pages1, levels[0], id)
    ensures var levels1 := levels[0 := InsertId(levels[0], c, id)];
            && DistinctIds(levels1) && AllIn(pages1, levels1)
            && (|levels| > 1 ==> Upper(pages1, root, levels1, 1, w) && GoodLevel(pages1, levels[1], w)
                                 && Flat(pages1, levels[1], w) == Seps(pages, levels, w))
  {
    hide LeafLevel, Flat, Heads, GoodLevel, InsertId, Ascending;
    FreshInNoLevel(pages, levels, id);
    DistinctInsert(levels, 0, c, id);
    AllInAfter(pages, pages1, levels, 0, c, id);
    if |levels| > 1 {
      forall u | 0 < u < |levels|
        ensures SameOn(pages, pages1, levels[u])
      {
        OneLevelRest(pages, pages1, levels, 0, u, id);
      }
      UpperFrame(pages, pages1, root, levels, 1, w);
      UpperLevel(pages1, root, levels, 1, w);
      hide Upper;
      UpperAbove(pages1, root, levels, levels[0 := InsertId(levels[0], c, id)], 0, w);
    }
  }

  /** A record that opens the upper part of leaf c lies below the next separator. */
  lemma CutBetween(pages: Store, leaves: seq<nat>, f: seq<Pair>, c: nat, pivot: nat, w: nat)
    requires LeafLevel(pages, leaves, f, w) && c < |leaves| && pivot < |pages[leaves[c]].slots|
    requires pages[leaves[c]].slots[pivot].Live? && w <= |pages[leaves[c]].slots[pivot].rec|
    requires f[c].key < KeyOf(pages[leaves[c]].slots[pivot].rec, w)
    ensures Between(f, c, KeyOf(pages[leaves[c]].slots[pivot].rec, w))
  {
    var slots := pages[leaves[c]].slots;
    LiveIndex(slots, pivot);
    assert RecsCovered(f, c, LiveList(slots), w);
    hide KeyOf, LiveList;
    assert Covers(f, c, KeyOf(LiveList(slots)[|LiveList(slots[..pivot])|], w));
  }

  lemma LeafLevelFrame(pages: Store, pages': Store, leaves: seq<nat>, f: seq<Pair>, w: nat)
    requires LeafLevel(pages, leaves, f, w) && SameOn(pages, pages', leaves)
    ensures LeafLevel(pages', leaves, f, w) && AllRecs(pages', leaves) == AllRecs(pages, leaves)
  {
    RecsFrame(pages, pages', leaves);
    hide IsLeaf, AllRecs, LiveList, RecsCovered, Ascending;
    assert GoodLeaves(pages', leaves, w);
    assert Chained(pages', leaves);
  }

  /** Once the level above names the new leaf, the tree is well-formed again and its records are the same. */
  lemma LeafJoined(pages: Store, pages1: Store, pages2: Store, root2: nat, live1: set<nat>, leaves: seq<nat>,
                   levels1: seq<seq<nat>>, levels2: seq<seq<nat>>, f: seq<Pair>, c: nat, id: nat, w: nat)
    requires LeafLevel(pages, leaves, f, w) && LeafSplit(pages, pages1, leaves, c, id) && id !in leaves
    requires |levels1| > 0 && levels1[0] == InsertId(leaves, c, id) && DistinctIds(levels1) && AllIn(pages1, levels1)
    requires Grown(pages1, pages2, live1, levels1, levels2, 1)
    requires Upper(pages2, root2, levels2, 1, w) && w <= |LiveList(pages1[id].slots)[0]|
    requires f[c].key < KeyOf(LiveList(pages1[id].slots)[0], w)
    requires Flat(pages2, levels2[1], w) == PutAfter(f, c, Pair(KeyOf(LiveList(pages1[id].slots)[0], w), id))
    ensures IsTree(pages2, root2, levels2, w) && levels2[0] == levels1[0]
    ensures InStore(pages, leaves) && InStore(pages2, levels2[0])
            && AllRecs(pages2, levels2[0]) == AllRecs(pages, leaves)
  {
    assert |f| == |leaves|;
    hide LiveList, KeyOf, Valid, AllRecs, Flat, IsLeaf, DistinctIds, AllIn, Upper, Separates, Ascending;
    LeafSplitOk(pages, pages1, leaves, f, c, id, w);
    GrownBelow(pages1, pages2, live1, levels1, levels2, 1, 0);
    hide LeafSplit, InsertId;
    PutIsInsert(f, c, Pair(KeyOf(LiveList(pages1[id].slots)[0], w), id));
    LeafLevelFrame(pages1, pages2, levels1[0], SplitSeps(pages1, f, c, id, w), w);
    hide LeafLevel, SplitSeps;
    IsTreeNow(pages2, root2, levels2, PutAfter(f, c, Pair(KeyOf(LiveList(pages1[id].slots)[0], w), id)), w);
  }

  lemma IsTreeNow(pages: Store, root: nat, levels: seq<seq<nat>>, f: seq<Pair>, w: nat)
    requires |levels| > 0 && DistinctIds(levels) && Upper(pages, root, levels, 1, w) && Flat(pages, levels[1], w) == f
    requires LeafLevel(pages, levels[0], f, w)
    ensures IsTree(pages, root, levels, w)
  {
    hide LeafLevel, Flat, Heads, Ascending, DistinctIds;
  }

  /** A lone leaf is well-formed under any separator of its own. */
  lemma LoneLeaf(pages: Store, root: nat, levels: seq<seq<nat>>, key: int, w: nat)
    requires IsTree(pages, root, levels, w) && |levels| == 1
    ensures levels[0] == [root] && LeafLevel(pages, levels[0], [Pair(key, root)], w)
  {
    var recs := LiveList(pages[root].slots);
    hide LiveList, KeyOf;
    assert RecsCovered([Pair(key, root)], 0, recs, w);
  }

  /** A lone leaf's lower part starts with a key below the cut. */
  lemma FirstBelowCut(v0: Page, v: Page, t: Page, w: nat)
    requires SortedRecs(LiveList(v0.slots), w) && LiveList(v0.slots) == LiveList(v.slots) + LiveList(t.slots)
    requires LiveList(v.slots) != [] && LiveList(t.slots) != [] && v.slots == AsSlots(LiveList(v.slots))
    ensures var first, cut := GetRecord(v, 0), LiveList(t.slots)[0];
            w <= |first| && w <= |cut| && KeyOf(first, w) < KeyOf(cut, w) && first == LiveList(v0.slots)[0]
  {
    hide KeyOf, LiveList;
    var l, r := LiveList(v.slots), LiveList(t.slots);
    assert v.slots[0] == Live(l[0]);
    assert (l + r)[0] == l[0] && (l + r)[|l|] == r[0];
  }

  /** What the leaf split hands upwards: the levels it leaves behind, and a separator that fits. */
  lemma DividedIs(pages: Store, root: nat, levels: seq<seq<nat>>, c: nat, id: nat, v: Page, t: Page, key: int, w: nat)
    requires IsTree(pages, root, levels, w) && AllIn(pages, levels) && Splittable(pages, levels, c, w) && id !in pages
    requires var v0 := pages[levels[0][c]];
             var t0 := Init(id, Leaf).(left := levels[0][c], right := v0.right);
             && Divided(v0.(right := id), t0, Pivot(v0.slots), v, t)
             && key == KeyOf(v0.slots[Pivot(v0.slots)].rec, w)
    ensures InStore(pages, levels[0])
    ensures var pages1 := Linked(pages, levels[0], c, id, v, t);
            && LeafSplit(pages, pages1, levels[0], c, id) && OneLevel(pages, pages1, levels[0], id)
            && pages1[id] == t && levels[0][c] in pages1 && pages1[levels[0][c]] == v && id !in levels[0]
            && LiveList(t.slots) != [] && w <= |LiveList(t.slots)[0]| && KeyOf(LiveList(t.slots)[0], w) == key
    ensures |levels| > 1 ==>
              && GoodLevel(pages, levels[1], w) && LeafLevel(pages, levels[0], Seps(pages, levels, w), w)
              && c < |Seps(pages, levels, w)| && Seps(pages, levels, w)[c].key < key
                  && Between(Seps(pages, levels, w), c, key)
  {
    var leaves := levels[0];
    var v0 := pages[leaves[c]];
    FreshInNoLevel(pages, levels, id);
    PivotIsLive(v0.slots);
    LeafDivided(pages, leaves, c, id, v, t, Pivot(v0.slots));
    hide Upper, Pivot, KeyOf, LiveList, Chained, Separates, IsLeaf, Flat, Between, Ascending, DistinctIds, AllIn,
         LeafSplit, OneLevel;
    if |levels| > 1 {
      CutBetween(pages, leaves, Seps(pages, levels, w), c, Pivot(v0.slots), w);
    }
    LinkedAt(pages, leaves, c, id, v, t);
  }

  lemma LinkedAt(pages: Store, leaves: seq<nat>, c: nat, id: nat, v: Page, t: Page)
    requires InStore(pages, leaves) && NoDup(leaves) && c < |leaves| && id !in pages
    ensures var pages1 := Linked(pages, leaves, c, id, v, t);
            id in pages1 && pages1[id] == t && leaves[c] in pages1 && pages1[leaves[c]] == v
  {
  }

  /**
   * When the leaf was the root: its lower part starts below the cut, and the new root's pairs are as they should
   * be.
   */
  lemma LoneLeafCut(pages: Store, root: nat, levels: seq<seq<nat>>, c: nat, id: nat, v: Page, t: Page, key: int, w: nat)
    requires IsTree(pages, root, levels, w) && |levels| == 1 && Splittable(pages, levels, c, w)
    requires var v0 := pages[levels[0][c]];
             var t0 := Init(id, Leaf).(left := levels[0][c], right := v0.right);
             && Divided(v0.(right := id), t0, Pivot(v0.slots), v, t)
    requires LiveList(t.slots) != [] && w <= |LiveList(t.slots)[0]| && KeyOf(LiveList(t.slots)[0], w) == key
    ensures levels[0] == [root] && c == 0
    ensures var first := GetRecord(v, 0);
            && w <= |first| && KeyOf(first, w) < key && LiveList(pages[root].slots) != []
            && first == LiveList(pages[root].slots)[0]
            && LeafLevel(pages, levels[0], [Pair(KeyOf(first, w), root)], w)
            && PutAfter([Pair(KeyOf(first, w), root)], 0, Pair(key, id)) == [Pair(KeyOf(first, w), root), Pair(key, id)]
  {
    assert levels[0] == [root] && root in pages && IsLeaf(pages[root], w);
    hide LiveList, KeyOf, Valid, IsTree, LeafLevel, Pivot;
    FirstBelowCut(pages[root], v, t, w);
    LoneLeaf(pages, root, levels, KeyOf(GetRecord(v, 0), w), w);
  }

  lemma PathAfterLeafSplit(pages: Store, pages1: Store, root: nat, levels: seq<seq<nat>>, c: nat, id: nat,
                           stack: seq<Crumb>, w: nat)
    requires |levels| > 1 && c < |levels[0]| && DistinctIds(levels) && AllIn(pages, levels)
    requires PathOk(pages, levels, stack, 0, c, w) && OneLevel(pages, pages1, levels[0], id)
    ensures var levels1 := levels[0 := InsertId(levels[0], c, id)];
            |levels1| == |levels| && levels1[1] == levels[1] && PathOk(pages1, levels1, stack, 0, c, w)
  {
    hide PathOk, DistinctIds, AllIn, OneLevel;
    PathAfterSplit(pages, pages1, levels, 0, c, id, stack, w);
  }

  // ---- when the split is safe -------------------------------------------------------------------------

  /** Under strict min-key, with a record on either side of the cut, the cut is above the leaf's separator. */
  lemma StrictMinKeySplits(pages: Store, root: nat, levels: seq<seq<nat>>, c: nat, w: nat)
    requires IsTree(pages, root, levels, w) && c < |levels[0]| && levels[0][c] in pages
    requires var slots := pages[levels[0][c]].slots;
             LiveList(slots) != [] && LiveList(slots[..Pivot(slots)]) != []
    requires |levels| > 1 ==> GoodLevel(pages, levels[1], w) && c < |Flat(pages, levels[1], w)|
                              && AllAtLeast(LiveList(pages[levels[0][c]].slots), Flat(pages, levels[1], w)[c].key, w)
    ensures Splittable(pages, levels, c, w)
  {
    var slots := pages[levels[0][c]].slots;
    PivotIsLive(slots);
    LiveIndex(slots, Pivot(slots));
    var recs, n := LiveList(slots), |LiveList(slots[..Pivot(slots)])|;
    assert IsLeaf(pages[levels[0][c]], w);
    hide KeyOf, LiveList, Pivot, Upper, LeafLevel, Flat;
    if |levels| > 1 {
      assert KeyOf(recs[0], w) < KeyOf(recs[n], w);
    }
  }

  /** Where the parent's lower-bound search puts the new leaf's pair: right after the split leaf's own, or not. */
  lemma CutPlace(f: seq<Pair>, c: nat, j: nat, key: int)
    requires c < |f| && Ascending(f) && Bracket(f, j, j, key) && (c + 1 < |f| ==> key < f[c + 1].key)
    ensures j <= c + 1 && (j == c + 1 <==> f[c].key < key)
  {
  }

  /**
   * With the new pair where the lower-bound search puts it, there is an order of the leaves that makes the leaf level
   * well-formed if and only if the cut is above the split leaf's separator.
   */
  lemma CutExact(pages: Store, pages1: Store, leaves: seq<nat>, f: seq<Pair>, c: nat, id: nat, j: nat, w: nat)
    requires LeafLevel(pages, leaves, f, w) && LeafSplit(pages, pages1, leaves, c, id) && id !in leaves
             && id != INVALID_PAGE
    requires w <= |LiveList(pages1[id].slots)[0]|
    requires Bracket(f, j, j, KeyOf(LiveList(pages1[id].slots)[0], w))
    ensures var key := KeyOf(LiveList(pages1[id].slots)[0], w);
            (exists leaves' :: LeafLevel(pages1, leaves', f[..j] + [Pair(key, id)] + f[j..], w)) <==> f[c].key < key
  {
    var key := KeyOf(LiveList(pages1[id].slots)[0], w);
    var f' := f[..j] + [Pair(key, id)] + f[j..];
    CutBelowNext(pages, pages1, leaves, f, c, id, w);
    CutPlace(f, c, j, key);
    if f[c].key < key {
      LeafSplitOk(pages, pages1, leaves, f, c, id, w);
      assert LeafLevel(pages1, InsertId(leaves, c, id), f', w);
    } else {
      forall leaves' | LeafLevel(pages1, leaves', f', w)
        ensures false
      {
        CutMisplaced(pages, pages1, leaves, leaves', f, f', c, id, j, key, w);
      }
    }
  }

  /** What a leaf split makes of leaf c and the new leaf `id`, the cut at the pivot. */
  ghost predicate LeafCut(pages: Store, leaves: seq<nat>, c: nat, id: nat, v: Page, t: Page) {
    && c < |leaves| && leaves[c] in pages
    && var v0 := pages[leaves[c]];
       && LiveList(v0.slots) != []
       && Divided(v0.(right := id), Init(id, Leaf).(left := leaves[c], right := v0.right), Pivot(v0.slots), v, t)
  }

  /** The same for whole trees: a split leaf can be put in order again if and only if it was cut above its separator. */
  lemma SplitExact(pages: Store, root: nat, levels: seq<seq<nat>>, c: nat, id: nat, v: Page, t: Page, j: nat, w: nat)
    requires IsTree(pages, root, levels, w) && |levels| > 1 && c < |levels[0]| && InStore(pages, levels[0])
    requires LeafCut(pages, levels[0], c, id, v, t) && id !in pages && id != INVALID_PAGE
    requires LiveList(t.slots) != [] ==>
               w <= |LiveList(t.slots)[0]| && Bracket(Seps(pages, levels, w), j, j, KeyOf(LiveList(t.slots)[0], w))
    ensures LiveList(t.slots) != []
    ensures var f, key := Seps(pages, levels, w), KeyOf(LiveList(t.slots)[0], w);
            (exists leaves' :: LeafLevel(Linked(pages, levels[0], c, id, v, t), leaves',
                                         f[..j] + [Pair(key, id)] + f[j..], w))
            <==> f[c].key < key
  {
    hide IsTree, Upper, Pivot, KeyOf, LiveList, Separates, IsLeaf, Flat;
    SplitReady(pages, root, levels, c, id, v, t, w);
    hide LeafLevel, LeafCut;
    LinkedAt(pages, levels[0], c, id, v, t);
    CutExact(pages, Linked(pages, levels[0], c, id, v, t), levels[0], Seps(pages, levels, w), c, id, j, w);
  }

  /** The key taken from a page's slot 0: none if there is no such slot or it is dead. */
  function FirstKeyBytes(v: Page, w: nat): Record {
    var first := GetRecord(v, 0);
    if |first| < w then first else first[..w]
  }

  /**
   * When the leaf was the root: the page built over its halves is an internal page if and only if a live record was
   * left of the cut.
   */
  lemma RootSplitExact(v0: Page, id: nat, v: Page, t: Page, root: nat, left: nat, sep: Record, w: nat)
    requires Keyed(LiveList(v0.slots), w) && Numeric.IsWidth(w) && |sep| == w
    requires root < TWO32 && left < TWO32 && id < TWO32
    requires Divided(v0.(right := id), Init(id, Leaf).(left := left, right := v0.right), Pivot(v0.slots), v, t)
    ensures IsInternal(BuiltRoot(root, FirstKeyBytes(v, w), left, sep, id), w)
       <==> LiveList(v0.slots[..Pivot(v0.slots)]) != []
  {
    hide KeyOf, LiveList, BuiltRoot, IsInternal, Valid, DeadSpace, Footprint;
    var recs := LiveList(v.slots);
    assert LiveList(v0.slots) == recs + LiveList(t.slots);
    if recs != [] {
      assert v.slots[0] == Live(recs[0]) && recs[0] == LiveList(v0.slots)[0];
    }
    RootBuiltExact(root, FirstKeyBytes(v, w), left, sep, id, w);
  }

  lemma SplitReady(pages: Store, root: nat, levels: seq<seq<nat>>, c: nat, id: nat, v: Page, t: Page, w: nat)
    requires IsTree(pages, root, levels, w) && |levels| > 1 && c < |levels[0]| && InStore(pages, levels[0])
    requires LeafCut(pages, levels[0], c, id, v, t) && id !in pages
    ensures GoodLevel(pages, levels[1], w) && LeafLevel(pages, levels[0], Seps(pages, levels, w), w)
    ensures LeafSplit(pages, Linked(pages, levels[0], c, id, v, t), levels[0], c, id) && id !in levels[0]
    ensures LiveList(t.slots) != [] && NoDup(levels[0]) && c < |Seps(pages, levels, w)|
  {
    var v0 := pages[levels[0][c]];
    PivotIsLive(v0.slots);
    LeafDivided(pages, levels[0], c, id, v, t, Pivot(v0.slots));
  }

  lemma CutBelowNext(pages: Store, pages1: Store, leaves: seq<nat>, f: seq<Pair>, c: nat, id: nat, w: nat)
    requires LeafLevel(pages, leaves, f, w) && LeafSplit(pages, pages1, leaves, c, id)
    requires w <= |LiveList(pages1[id].slots)[0]|
    ensures c < |f| && Ascending(f) && (c + 1 < |f| ==> KeyOf(LiveList(pages1[id].slots)[0], w) < f[c + 1].key)
  {
    var l, r := LiveList(pages1[leaves[c]].slots), LiveList(pages1[id].slots);
    assert RecsCovered(f, c, l + r, w);
    hide KeyOf, LiveList;
    assert (l + r)[|l|] == r[0];
    assert Covers(f, c, KeyOf((l + r)[|l|], w));
  }

  /** A pair put in front of the split leaf's own contradicts the links. */
  lemma CutMisplaced(pages: Store, pages1: Store, leaves: seq<nat>, leaves': seq<nat>, f: seq<Pair>, f': seq<Pair>,
                     c: nat, id: nat, j: nat, key: int, w: nat)
    requires LeafLevel(pages, leaves, f, w) && LeafSplit(pages, pages1, leaves, c, id) && id !in leaves
             && id != INVALID_PAGE
    requires j <= c && f' == f[..j] + [Pair(key, id)] + f[j..]
    ensures !LeafLevel(pages1, leaves', f', w)
  {
    hide LiveList, IsLeaf, RecsCovered, Ascending, Chained, Valid;
    assert f'[j].child == id && f'[c + 1] == f[c] && f[c].child == leaves[c] && pages1[leaves[c]].right == id;
    hide LeafLevel, LeafSplit;
    NotNamed(pages1, leaves', f', j, c + 1, id, w);
  }

  /** No leaf level has the right link of a later leaf lead back to an earlier one. */
  lemma NotNamed(pages: Store, leaves: seq<nat>, f: seq<Pair>, j: nat, i: nat, id: nat, w: nat)
    requires j < i < |f| && f[j].child == id != INVALID_PAGE && f[i].child in pages && pages[f[i].child].right == id
    ensures !LeafLevel(pages, leaves, f, w)
  {
    hide LeafLevel;
    if LeafLevel(pages, leaves, f, w) {
      NamedAt(pages, leaves, f, j, i, w);
    }
  }

  /** The leaves of a well-formed level are the ones its separators name, each linked to the next. */
  lemma NamedAt(pages: Store, leaves: seq<nat>, f: seq<Pair>, j: nat, i: nat, w: nat)
    requires LeafLevel(pages, leaves, f, w) && i < |f| && j < |f|
    ensures |leaves| == |f| && leaves[j] == f[j].child && leaves[i] == f[i].child && leaves[i] in pages && NoDup(leaves)
    ensures pages[leaves[i]].right == Neighbour(leaves, i + 1)
  {
  }
}
