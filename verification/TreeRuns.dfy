/**
 * The tree over whole runs: every answer is the one a plain map of the records stored so far gives, for as long as no
 * insert comes that the code cannot carry out soundly.
 */
module TreeRuns {
  import opened Bytes
  import opened Pages
  import PageBytes
  import opened SlottedPages
  import opened Disk
  import opened Levels
  import opened Trees
  import opened TreeEdits
  import opened TreeMaps
  import opened Splits
  import opened Growth
  import opened LeafSplits
  import Numeric
  import opened StrictMinKeys
  import opened BPlusTrees

  datatype Op = Insert(rec: Record) | Remove(key: int) | Get(key: int)

  /** `OnlySplit` is the answer to an insert into a full leaf: the leaf is split, and the record is not stored. */
  datatype Reply = Placed | OnlySplit | Removed(found: bool) | Answer(rec: Option<Record>)

  type Contents = map<int, Record>

  predicate WellTyped(op: Op, w: nat) {
    op.Insert? ==> w <= |op.rec| <= MAX_RECORD
  }

  predicate AllTyped(ops: seq<Op>, w: nat) {
    forall i :: 0 <= i < |ops| ==> WellTyped(ops[i], w)
  }

  /** What an operation is answered when the records stored so far are m. */
  predicate Answers(m: Contents, op: Op, a: Reply, w: nat, emptyKey: int)
    requires WellTyped(op, w)
  {
    match op
    case Insert(rec) => KeyOf(rec, w) !in m && (a == Placed || a == OnlySplit)
    case Remove(key) => a == Removed(key in m)
    case Get(key) =>
      if key in m then a == Answer(Some(m[key])) else a == Answer(None) || (key == emptyKey && a == Answer(Some([])))
  }

  /** What is stored afterwards. */
  function Effect(m: Contents, op: Op, a: Reply, w: nat): Contents
    requires WellTyped(op, w)
  {
    match op
    case Insert(rec) => if a == Placed then m[KeyOf(rec, w) := rec] else m
    case Remove(key) => m - {key}
    case Get(_) => m
  }

  /** The records stored after a run, told from the operations and their answers alone. */
  function MapAfter(m: Contents, ops: seq<Op>, replies: seq<Reply>, w: nat): Contents
    requires |ops| == |replies| && AllTyped(ops, w)
  {
    if ops == [] then m
    else
      var n := |ops| - 1;
      Effect(MapAfter(m, ops[..n], replies[..n], w), ops[n], replies[n], w)
  }

  // ---- may this insert go ahead? ----------------------------------------------------------------------

  /** The leaf a key belongs to. */
  ghost function Home(tree: BPlusTree, key: int): (leaf: Page)
    requires tree.Valid()
    reads tree, tree.disk
  {
    tree.Store()[tree.levels[0][tree.HomeOf(key)]]
  }

  /** A full leaf cannot be split soundly, or there may be too few pages left for the new ones. */
  ghost predicate Blocked(tree: BPlusTree, key: int)
    requires tree.Valid()
    reads tree, tree.disk
  {
    || !Splittable(tree.Store(), tree.levels, tree.HomeOf(key), tree.w)
    || MAX_PAGES - tree.disk.meta.next < |tree.levels| + 1
  }

  /** The insert that ends a run: of a key that is there, or into a full leaf that is blocked. */
  ghost predicate Refused(tree: BPlusTree, op: Op)
    requires tree.Valid() && WellTyped(op, tree.w)
    reads tree, tree.disk
  {
    && op.Insert?
    && var key := KeyOf(op.rec, tree.w);
       || HasKey(tree.Records(), key, tree.w)
       || (!BPlusTree.Fits(Home(tree, key), op.rec) && Blocked(tree, key))
  }

  /** The separator of leaf c, read from its parent through the last breadcrumb. */
  method SeparatorOf(tree: BPlusTree, stack: seq<Crumb>, ghost c: nat) returns (key: int)
    requires tree.Valid() && |tree.levels| > 1 && PathOk(tree.Store(), tree.levels, stack, 0, c, tree.w)
    ensures GoodLevel(tree.Store(), tree.levels[1], tree.w) && c < |Flat(tree.Store(), tree.levels[1], tree.w)|
    ensures key == Flat(tree.Store(), tree.levels[1], tree.w)[c].key
  {
    hide IsTree, PageBytes.View, PageBytes.Wf, StoreOf, DiskManager.Valid, DiskManager.LiveIds, DiskManager.FreeIds,
         IsInternal, Pairs, Flat, Off, Owner, KeyOf, Pages.Valid;
    ghost var q := Owner(tree.Store(), tree.levels[1], c, tree.w);
    CrumbIs(tree.Store(), tree.root, tree.levels, stack, c, tree.w);
    var crumb := stack[|stack| - 1];
    var p := tree.LoadPage(crumb.page);
    key := tree.KeyAt(p, crumb.childSlot / 2);
  }

  lemma CrumbIs(pages: Store, root: nat, levels: seq<seq<nat>>, stack: seq<Crumb>, c: nat, w: nat)
    requires IsTree(pages, root, levels, w) && |levels| > 1 && PathOk(pages, levels, stack, 0, c, w)
    ensures stack != [] && GoodLevel(pages, levels[1], w) && c < |Flat(pages, levels[1], w)|
    ensures var crumb := stack[|stack| - 1];
            && crumb.page in pages && IsInternal(pages[crumb.page], w) && 0 <= crumb.childSlot
            && crumb.childSlot / 2 < |Pairs(pages[crumb.page], w)|
            && Pairs(pages[crumb.page], w)[crumb.childSlot / 2] == Flat(pages, levels[1], w)[c]
  {
    hide IsTree, IsInternal, Pairs, Flat, Off, Owner;
    var q := Owner(pages, levels[1], c, w);
    OwnerIs(pages, levels[1], c, w);
    OwnerUnique(pages, levels[1], q, c - Off(pages, levels[1], q, w), w);
  }

  /** Whether a leaf can be split soundly. A caller could ask this before an insert; the code itself does not. */
  method CanSplit(tree: BPlusTree, p: SlottedPage, stack: seq<Crumb>, ghost c: nat) returns (ok: bool)
    requires tree.Valid() && c < |tree.levels[0]| && tree.levels[0][c] in tree.Store()
    requires p.Valid() && p.View() == tree.Store()[tree.levels[0][c]] && IsLeaf(p.View(), tree.w)
    requires PathOk(tree.Store(), tree.levels, stack, 0, c, tree.w)
    ensures ok <==> Splittable(tree.Store(), tree.levels, c, tree.w)
  {
    hide IsTree, PageBytes.View, PageBytes.Wf, StoreOf, DiskManager.Valid, DiskManager.LiveIds, DiskManager.FreeIds,
         IsInternal, Pairs, Flat, KeyOf, Pages.Valid, LiveList, Pivot, PathOk, IsLeaf, HasCut;
    ghost var slots := p.View().slots;
    LoneIs(tree.Store(), tree.root, tree.levels, stack, c, tree.w);
    LeafHasCut(p.View(), tree.w);
    var n := p.GetSlotCount();
    var first, rec := tree.NextLive(p, 0, n);
    FirstLiveIs(p.View(), first);
    if rec == [] {
      return false;
    }
    var pivot := FindPivot(p);
    var cut := p.GetRecord(pivot);
    CutIs(p.View(), tree.w);
    if stack == [] {
      ok := first < pivot;
    } else {
      var low := SeparatorOf(tree, stack, c);
      ok := low < KeyOf(cut, tree.w);
    }
  }

  lemma LoneIs(pages: Store, root: nat, levels: seq<seq<nat>>, stack: seq<Crumb>, c: nat, w: nat)
    requires IsTree(pages, root, levels, w) && PathOk(pages, levels, stack, 0, c, w)
    ensures |levels| > 0 && (stack == [] <==> |levels| == 1)
  {
    hide PathOk;
    PathLength(pages, levels, stack, 0, c, w);
  }

  /** The first live slot: something is left of the pivot if and only if that slot is. */
  lemma FirstLiveIs(v: Page, first: nat)
    requires first <= |v.slots| && (forall i :: 0 <= i < first ==> v.slots[i].Dead?)
    ensures first == |v.slots| ==> LiveList(v.slots) == []
    ensures first < |v.slots| && v.slots[first].Live? ==>
              LiveList(v.slots) != [] && (first < Pivot(v.slots) <==> LiveList(v.slots[..Pivot(v.slots)]) != [])
  {
    hide LiveList, Pivot;
    DeadIsEmpty(v.slots);
    DeadIsEmpty(v.slots[..Pivot(v.slots)]);
  }

  lemma CutIs(v: Page, w: nat)
    requires IsLeaf(v, w) && LiveList(v.slots) != []
    ensures HasCut(v.slots, w) && Pivot(v.slots) < |v.slots| && v.slots[Pivot(v.slots)].Live?
    ensures w <= |v.slots[Pivot(v.slots)].rec|
  {
    LeafHasCut(v, w);
  }

  /** Whether an insert can go ahead, and if so whether its record will be stored. */
  method Admits(tree: BPlusTree, rec: Record) returns (ok: bool, fits: bool)
    requires tree.Valid() && tree.w <= |rec| <= MAX_RECORD
    ensures ok <==> !Refused(tree, Insert(rec))
    ensures fits <==> BPlusTree.Fits(Home(tree, KeyOf(rec, tree.w)), rec)
  {
    hide IsTree, PageBytes.View, PageBytes.Wf, StoreOf, DiskManager.Valid, DiskManager.LiveIds, DiskManager.FreeIds,
         KeyOf, Pages.Valid, LiveList, PathOk, IsLeaf, Splittable, HasKey, AllRecs, SortedRecs, Find, TotalFree;
    var key := KeyOf(rec, tree.w);
    var leaf, l, stack, c := tree.FindRecord(key);
    BPlusTree.FoundIs(tree.Store(), tree.root, tree.levels, c, leaf, l, stack, key, tree.w);
    HomeFound(tree, c, leaf, l, stack, key);
    var p := tree.LoadPage(leaf);
    var there := p.GetRecord(l);
    var space := p.GetTotalFreeSpace();
    fits := |rec| + SLOT_SIZE <= space;
    if there != [] && KeyOf(there, tree.w) == key {
      ok := false;
    } else if fits {
      ok := true;
    } else {
      ok := CanSplit(tree, p, stack, c);
      ok := ok && MAX_PAGES - tree.disk.meta.next >= |stack| + 2;
    }
  }

  lemma HomeFound(tree: BPlusTree, c: nat, leaf: nat, l: nat, stack: seq<Crumb>, key: int)
    requires tree.Valid() && BPlusTree.Found(tree.Store(), tree.levels, c, leaf, l, stack, key, tree.w)
    ensures c == tree.HomeOf(key) && c < |tree.levels[0]| && leaf == tree.levels[0][c]
    ensures IsLeaf(tree.Store()[leaf], tree.w) && PathOk(tree.Store(), tree.levels, stack, 0, c, tree.w)
    ensures |stack| + 1 == |tree.levels|
  {
    BPlusTree.FoundHome(tree.Store(), tree.root, tree.levels, c, leaf, l, stack, key, tree.w);
    BPlusTree.PageOfLevel(tree.Store(), tree.root, tree.levels, 0, c, tree.w);
    hide PathOk;
    PathLength(tree.Store(), tree.levels, stack, 0, c, tree.w);
  }

  /** A split takes at most one page per level and one more. */
  lemma PagesSuffice(tree: BPlusTree, key: int)
    requires tree.Valid()
    ensures MAX_PAGES - tree.disk.meta.next <= tree.Capacity()
    ensures NewPages(tree.Store(), tree.levels, 1, tree.HomeOf(key), tree.w) <= |tree.levels|
  {
    assert |tree.levels| > 0;
  }

  // ---- one operation --------------------------------------------------------------------------------------

  /** The records of a tree, by key. */
  ghost function MapOf(tree: BPlusTree): Contents
    requires tree.Valid()
    reads tree, tree.disk
  {
    AsMap(tree.Records(), tree.w)
  }

  /** A placed record is not below `low`. */
  predicate NotBelow(op: Op, a: Reply, low: int, w: nat)
    requires WellTyped(op, w)
  {
    op.Insert? && a == Placed ==> low <= KeyOf(op.rec, w)
  }

  /** Carries out one operation, unless it is an insert that is refused. */
  method Step(tree: BPlusTree, op: Op) returns (a: Option<Reply>)
    requires tree.Valid() && WellTyped(op, tree.w)
    modifies tree, tree.disk
    ensures tree.Valid()
    ensures a == None <==> old(Refused(tree, op))
    ensures a == None ==> unchanged(tree) && unchanged(tree.disk)
    ensures a.Some? ==>
              && Answers(old(MapOf(tree)), op, a.value, tree.w, tree.emptyKey)
              && MapOf(tree) == Effect(old(MapOf(tree)), op, a.value, tree.w)
    ensures a.Some? && op.Insert? ==>
              (a.value == Placed <==> old(BPlusTree.Fits(Home(tree, KeyOf(op.rec, tree.w)), op.rec)))
    ensures |old(tree.levels)| > 1 ==> |tree.levels| > 1 && tree.Separators()[0] == old(tree.Separators()[0])
    ensures a.Some? && old(tree.StrictMinKey()) ==>
              (|tree.levels| > 1 ==> NotBelow(op, a.value, tree.Separators()[0].key, tree.w)) ==> tree.StrictMinKey()
  {
    hide IsTree, PageBytes.View, PageBytes.Wf, StoreOf, DiskManager.Valid, DiskManager.LiveIds, DiskManager.FreeIds,
         KeyOf, Pages.Valid, Splittable, HasKey, AllRecs, SortedRecs, Find, TotalFree, AsMap, Seps, Strict, Put,
         Without;
    ghost var recs := tree.Records();
    match op
    case Insert(rec) =>
      var ok, fits := Admits(tree, rec);
      if !ok {
        return None;
      }
      FindIsLookup(recs, KeyOf(rec, tree.w), tree.w);
      PutIsUpdate(recs, rec, tree.w);
      PagesSuffice(tree, KeyOf(rec, tree.w));
      var done := tree.Insert(rec);
      a := Some(if fits then Placed else OnlySplit);
    case Remove(key) =>
      FindIsLookup(recs, key, tree.w);
      WithoutIsRemoval(recs, key, tree.w);
      var found := tree.Remove(key);
      a := Some(Removed(found));
    case Get(key) =>
      FindIsLookup(recs, key, tree.w);
      var rec := tree.Get(key);
      a := Some(Answer(rec));
  }

  /** A tree whose root is a freshly formatted leaf holds nothing, and has strict min-key. */
  lemma StartsEmpty(tree: BPlusTree)
    requires tree.Ready() && tree.levels == [[tree.root]] && tree.root in tree.Store() && tree.root < TWO32
    requires tree.Store()[tree.root] == Init(tree.root, Leaf)
    ensures tree.Valid() && MapOf(tree) == map[] && tree.StrictMinKey()
  {
    hide StoreOf, DiskManager.Valid, DiskManager.LiveIds, DiskManager.FreeIds;
    EmptyTree(tree.Store(), tree.root, tree.w);
  }

  /**
   * A record that starts with a number, written in the key's width, is stored and looked up by that number: it is
   * there, and every other number still finds what it found before.
   */
  method StoreThenGet(tree: BPlusTree, v: int, rest: seq<Byte>) returns (a: Option<Reply>, r: Option<Reply>)
    requires tree.Valid() && Numeric.FitsWidth(v, tree.w) && tree.w + |rest| <= MAX_RECORD
    modifies tree, tree.disk
    ensures tree.Valid()
    ensures a == None <==> old(Refused(tree, Insert(Numeric.Serialize(v, tree.w) + rest)))
    ensures a == Some(Placed) ==>
              && r == Some(Answer(Some(Numeric.Serialize(v, tree.w) + rest)))
              && MapOf(tree) == old(MapOf(tree))[v := Numeric.Serialize(v, tree.w) + rest]
  {
    var rec: Record := Numeric.Serialize(v, tree.w) + rest;
    KeyOfWritten(v, tree.w, rest);
    hide IsTree, StoreOf, DiskManager.Valid, DiskManager.LiveIds, DiskManager.FreeIds, KeyOf, Refused, MapOf, Strict,
         Seps, Home;
    a := Step(tree, Insert(rec));
    r := Step(tree, Get(v));
  }

  // ---- whole runs -------------------------------------------------------------------------------------------

  /** Every answer is the one the map of the records stored up to then gives. */
  predicate AllAnswered(m: Contents, ops: seq<Op>, replies: seq<Reply>, w: nat, emptyKey: int)
    requires |ops| == |replies| && AllTyped(ops, w)
  {
    forall i :: 0 <= i < |ops| ==> Answers(MapAfter(m, ops[..i], replies[..i], w), ops[i], replies[i], w, emptyKey)
  }

  predicate NoneBelow(ops: seq<Op>, replies: seq<Reply>, low: int, w: nat)
    requires |ops| == |replies| && AllTyped(ops, w)
  {
    forall i :: 0 <= i < |ops| ==> NotBelow(ops[i], replies[i], low, w)
  }

  lemma RunGrows(m: Contents, ops: seq<Op>, replies: seq<Reply>, op: Op, a: Reply, low: int, w: nat, emptyKey: int)
    requires |ops| == |replies| && AllTyped(ops, w) && WellTyped(op, w)
    ensures AllTyped(ops + [op], w)
    ensures MapAfter(m, ops + [op], replies + [a], w) == Effect(MapAfter(m, ops, replies, w), op, a, w)
    ensures AllAnswered(m, ops + [op], replies + [a], w, emptyKey) <==>
              AllAnswered(m, ops, replies, w, emptyKey) && Answers(MapAfter(m, ops, replies, w), op, a, w, emptyKey)
    ensures NoneBelow(ops + [op], replies + [a], low, w) <==>
              NoneBelow(ops, replies, low, w) && NotBelow(op, a, low, w)
  {
    hide Effect, Answers, NotBelow, WellTyped;
    var n, ops', replies' := |ops|, ops + [op], replies + [a];
    assert forall i :: 0 <= i <= n ==> ops'[..i] == ops[..i] && replies'[..i] == replies[..i];
    assert ops[..n] == ops && replies[..n] == replies;
    assert ops' != [] && MapAfter(m, ops', replies', w) == Effect(MapAfter(m, ops, replies, w), op, a, w);
  }

  lemma Longer(ops: seq<Op>, n: nat)
    requires n < |ops|
    ensures ops[..n + 1] == ops[..n] + [ops[n]]
  {
  }

  /**
   * Serves operations until an insert comes that is refused: one of a key that is there, or one into a full leaf that
   * is blocked. Every answer up to then is that of a map of the records stored so far, and the tree holds those
   * records. Strict min-key is kept if no record placed is below the leftmost separator.
   */
  method Serve(tree: BPlusTree, ops: seq<Op>) returns (replies: seq<Reply>)
    requires tree.Valid() && AllTyped(ops, tree.w)
    modifies tree, tree.disk
    ensures tree.Valid() && |replies| <= |ops|
    ensures AllAnswered(old(MapOf(tree)), ops[..|replies|], replies, tree.w, tree.emptyKey)
    ensures MapOf(tree) == MapAfter(old(MapOf(tree)), ops[..|replies|], replies, tree.w)
    ensures |replies| < |ops| ==> Refused(tree, ops[|replies|])
    ensures old(tree.StrictMinKey()) ==>
              (|tree.levels| > 1 ==>
                 NoneBelow(ops[..|replies|], replies, tree.Separators()[0].key, tree.w)) ==> tree.StrictMinKey()
  {
    hide IsTree, PageBytes.View, PageBytes.Wf, StoreOf, DiskManager.Valid, DiskManager.LiveIds, DiskManager.FreeIds,
         AsMap, Seps, Strict, Answers, Effect, WellTyped, MapAfter, Refused, AllAnswered, NoneBelow, NotBelow, AllTyped;
    ghost var m := MapOf(tree);
    ghost var strict := tree.StrictMinKey();
    replies := [];
    TypedParts(ops, 0, tree.w);
    NoRun(m, tree.w, tree.emptyKey);
    while |replies| < |ops|
      invariant tree.Valid() && |replies| <= |ops| && AllTyped(ops[..|replies|], tree.w)
      invariant AllAnswered(m, ops[..|replies|], replies, tree.w, tree.emptyKey)
      invariant MapOf(tree) == MapAfter(m, ops[..|replies|], replies, tree.w)
      invariant strict ==>
                  (|tree.levels| > 1 ==>
                     NoneBelow(ops[..|replies|], replies, tree.Separators()[0].key, tree.w)) ==> tree.StrictMinKey()
    {
      var n := |replies|;
      TypedParts(ops, n, tree.w);
      LoneIsStrict(tree.Store(), tree.root, tree.levels, tree.w);
      var a := Step(tree, ops[n]);
      if a == None {
        return;
      }
      Longer(ops, n);
      RunGrows(m, ops[..n], replies, ops[n], a.value, LowOf(tree), tree.w, tree.emptyKey);
      replies := replies + [a.value];
    }
  }

  /** The leftmost separator's key, whatever it is for a lone leaf. */
  ghost function LowOf(tree: BPlusTree): int
    requires tree.Valid()
    reads tree, tree.disk
  {
    tree.Separators()[0].key
  }

  lemma TypedParts(ops: seq<Op>, n: nat, w: nat)
    requires AllTyped(ops, w) && n <= |ops|
    ensures AllTyped(ops[..n], w) && (n < |ops| ==> WellTyped(ops[n], w))
  {
    hide WellTyped;
  }

  lemma NoRun(m: Contents, w: nat, emptyKey: int)
    ensures AllTyped([], w) && MapAfter(m, [], [], w) == m && AllAnswered(m, [], [], w, emptyKey)
  {
  }

  /**
   * The insert that ends a run under strict min-key: its key is there, or its leaf is full and pages are short, or the
   * leaf has no record, or its cut is its first record and, unless it is the root, that record's key is the separator.
   */
  lemma RefusedExactly(tree: BPlusTree, rec: Record)
    requires tree.Valid() && tree.StrictMinKey() && tree.w <= |rec| <= MAX_RECORD
    ensures var key := KeyOf(rec, tree.w);
            var c, slots := tree.HomeOf(key), Home(tree, key).slots;
            && (LiveList(slots) != [] ==> HasCut(slots, tree.w))
            && (Refused(tree, Insert(rec)) <==>
                  || HasKey(tree.Records(), key, tree.w)
                  || (&& !BPlusTree.Fits(Home(tree, key), rec)
                      && (|| MAX_PAGES - tree.disk.meta.next < |tree.levels| + 1
                          || LiveList(slots) == []
                          || (&& LiveList(slots[..Pivot(slots)]) == []
                              && (|tree.levels| > 1 ==>
                                    tree.Separators()[c].key == KeyOf(slots[Pivot(slots)].rec, tree.w))))))
  {
    BPlusTree.HomeIs(tree.Store(), tree.root, tree.levels, KeyOf(rec, tree.w), tree.w);
    BPlusTree.PageOfLevel(tree.Store(), tree.root, tree.levels, 0, tree.HomeOf(KeyOf(rec, tree.w)), tree.w);
    hide IsTree, StoreOf, DiskManager.Valid, DiskManager.LiveIds, DiskManager.FreeIds, KeyOf, LiveList, Pivot,
         Splittable, HasKey, AllRecs, SortedRecs, Seps, Strict, HasCut;
    var key := KeyOf(rec, tree.w);
    var c := tree.HomeOf(key);
    LeafHasCut(Home(tree, key), tree.w);
    StrictSplitExact(tree.Store(), tree.root, tree.levels, c, tree.w);
  }
}
