/** What inserting, removing and splitting on one leaf does to the whole tree. */
module TreeEdits {
  import opened Bytes
  import opened Pages
  import opened Levels
  import opened Trees

  /** The two stores agree on the given pages. */
  predicate SameOn(pages: Store, pages': Store, ids: seq<nat>) {
    forall i :: 0 <= i < |ids| ==> ids[i] in pages && ids[i] in pages' && pages'[ids[i]] == pages[ids[i]]
  }

  lemma UpperFrame(pages: Store, pages': Store, root: nat, levels: seq<seq<nat>>, k: nat, w: nat)
    requires Upper(pages, root, levels, k, w)
    requires forall t :: k <= t < |levels| ==> SameOn(pages, pages', levels[t])
    ensures Upper(pages', root, levels, k, w)
    ensures Flat(pages', levels[k], w) == Flat(pages, levels[k], w)
  {
    forall t | k <= t < |levels|
      ensures GoodLevel(pages', levels[t], w) && Flat(pages', levels[t], w) == Flat(pages, levels[t], w)
      ensures Heads(pages', levels[t], w) == Heads(pages, levels[t], w)
    {
      FlatFrame(pages, pages', levels[t], w);
    }
  }

  /** Only leaf c differs, and it keeps its links. */
  predicate LeafEdited(pages: Store, pages': Store, levels: seq<seq<nat>>, c: nat) {
    && |levels| > 0 && c < |levels[0]|
    && (forall t :: 1 <= t < |levels| ==> SameOn(pages, pages', levels[t]))
    && SlotsChanged(pages, pages', levels[0], c)
    && (forall i :: 0 <= i < |levels[0]| && i != c ==> pages'[levels[0][i]] == pages[levels[0][i]])
    && pages'[levels[0][c]].left == pages[levels[0][c]].left && pages'[levels[0][c]].right == pages[levels[0][c]].right
  }

  /** A leaf rewritten with sorted records that its separators cover: still a tree. */
  lemma LeafEditKeepsTree(pages: Store, pages': Store, root: nat, levels: seq<seq<nat>>, c: nat, w: nat)
    requires IsTree(pages, root, levels, w) && LeafEdited(pages, pages', levels, c)
    requires IsLeaf(pages'[levels[0][c]], w)
    requires RecsCovered(Seps(pages, levels, w), c, LiveList(pages'[levels[0][c]].slots), w)
    ensures IsTree(pages', root, levels, w)
  {
    if |levels| > 1 {
      UpperFrame(pages, pages', root, levels, 1, w);
    }
    assert Seps(pages', levels, w) == Seps(pages, levels, w);
    LeafEditKeepsLevel(pages, pages', levels[0], Seps(pages, levels, w), c, w);
  }

  lemma LeafEditKeepsLevel(pages: Store, pages': Store, leaves: seq<nat>, f: seq<Pair>, c: nat, w: nat)
    requires LeafLevel(pages, leaves, f, w) && SlotsChanged(pages, pages', leaves, c)
    requires forall i :: 0 <= i < |leaves| && i != c ==> pages'[leaves[i]] == pages[leaves[i]]
    requires pages'[leaves[c]].left == pages[leaves[c]].left && pages'[leaves[c]].right == pages[leaves[c]].right
    requires IsLeaf(pages'[leaves[c]], w) && RecsCovered(f, c, LiveList(pages'[leaves[c]].slots), w)
    ensures LeafLevel(pages', leaves, f, w)
  {
    hide IsLeaf, LiveList, Ascending, RecsCovered;
    assert GoodLeaves(pages', leaves, w);
    assert Chained(pages', leaves);
  }

  /** A freshly formatted leaf is a tree with no records. */
  lemma EmptyTree(pages: Store, root: nat, w: nat)
    requires root < TWO32 && root in pages && pages[root] == Init(root, Leaf)
    ensures IsTree(pages, root, [[root]], w) && InStore(pages, [root]) && AllRecs(pages, [root]) == []
  {
    RecsOne(pages, root);
    var levels: seq<seq<nat>> := [[root]];
    assert LeafLevel(pages, levels[0], Seps(pages, levels, w), w);
  }

  /** In a well-formed tree the records of all leaves, left to right, are in strictly ascending key order. */
  lemma TreeSorted(pages: Store, root: nat, levels: seq<seq<nat>>, w: nat)
    requires IsTree(pages, root, levels, w)
    ensures InStore(pages, levels[0]) && SortedRecs(AllRecs(pages, levels[0]), w)
  {
    RecsSorted(pages, levels[0], Seps(pages, levels, w), 0, w);
    assert levels[0][0..] == levels[0];
  }

  /** In a well-formed tree the links of the leaves are the leaf list and its reverse, with 2^32 - 1 at the two ends. */
  lemma TreeLinks(pages: Store, root: nat, levels: seq<seq<nat>>, w: nat, c: nat)
    requires IsTree(pages, root, levels, w) && c < |levels[0]|
    ensures var leaves := levels[0];
            && leaves[c] in pages && pages[leaves[c]].kind == Leaf
            && pages[leaves[c]].right == (if c + 1 < |leaves| then leaves[c + 1] else 0xFFFF_FFFF)
            && pages[leaves[c]].left == (if c > 0 then leaves[c - 1] else 0xFFFF_FFFF)
            && forall i :: 0 <= i < |leaves| && i != c ==> leaves[i] != leaves[c]
  {
    hide Separates, Upper;
    assert NoDup(levels[0]);
  }

  /** Facts about leaf c and its surroundings, for a key its separators cover. */
  lemma TreeAround(pages: Store, root: nat, levels: seq<seq<nat>>, c: nat, key: int, w: nat)
    requires IsTree(pages, root, levels, w) && Covers(Seps(pages, levels, w), c, key)
    ensures var leaves := levels[0];
            && c < |leaves| && InStore(pages, leaves) && IsLeaf(pages[leaves[c]], w)
            && AllRecs(pages, leaves)
               == AllRecs(pages, leaves[..c]) + LiveList(pages[leaves[c]].slots) + AllRecs(pages, leaves[c + 1..])
            && AllBelow(AllRecs(pages, leaves[..c]), key, w)
            && AllAtLeast(AllRecs(pages, leaves[c + 1..]), key + 1, w)
            && SortedRecs(AllRecs(pages, leaves), w)
  {
    var leaves, f := levels[0], Seps(pages, levels, w);
    RecsAt(pages, leaves, c);
    AroundLeaf(pages, leaves, f, c, key, w);
    RecsSorted(pages, leaves, f, 0, w);
    assert leaves[0..] == leaves;
  }

  /** Rank splits the whole list where the leaf position splits the leaf. */
  lemma RankInTree(a: seq<Record>, x: seq<Record>, y: seq<Record>, b: seq<Record>, key: int, w: nat)
    requires AllBelow(a, key, w) && AllBelow(x, key, w) && AllAtLeast(y, key, w) && AllAtLeast(b, key + 1, w)
    ensures Keyed(a + (x + y) + b, w) && Rank(a + (x + y) + b, key, w) == |a| + |x|
    ensures (a + (x + y) + b)[..|a| + |x|] == a + x && (a + (x + y) + b)[|a| + |x|..] == y + b
  {
    assert a + (x + y) + b == (a + x) + (y + b);
    assert AllBelow(a + x, key, w);
    assert AllAtLeast(y + b, key, w);
    RankIs(a + x, y + b, key, w);
  }

  /**
   * The leaf takes the record at the searched position: the tree's list takes it at its sorted place, and the
   * result is a well-formed tree exactly when the key was not there before.
   */
  lemma InsertEffect(pages: Store, pages': Store, root: nat, levels: seq<seq<nat>>, c: nat, l: nat, at: nat,
                     rec: Record, w: nat)
    requires IsTree(pages, root, levels, w) && w <= |rec| && Covers(Seps(pages, levels, w), c, KeyOf(rec, w))
    requires LeafEdited(pages, pages', levels, c)
    requires LowerPos(pages[levels[0][c]].slots, l, KeyOf(rec, w), w)
    requires Valid(pages'[levels[0][c]]) && Inserted(pages[levels[0][c]], l, rec, at, pages'[levels[0][c]])
    ensures InStore(pages, levels[0]) && InStore(pages', levels[0]) && SortedRecs(AllRecs(pages, levels[0]), w)
    ensures AllRecs(pages', levels[0]) == Put(AllRecs(pages, levels[0]), rec, w)
    ensures IsTree(pages', root, levels, w) <==> !HasKey(AllRecs(pages, levels[0]), KeyOf(rec, w), w)
  {
    var key, leaves := KeyOf(rec, w), levels[0];
    TreeAround(pages, root, levels, c, key, w);
    RecsReplaced(pages, pages', leaves, c);
    if IsTree(pages', root, levels, w) {
      TreeSorted(pages', root, levels, w);
    }
    var slots := pages[leaves[c]].slots;
    var a, b := AllRecs(pages, leaves[..c]), AllRecs(pages, leaves[c + 1..]);
    var x, y := LiveList(slots[..l]), LiveList(slots[l..]);
    var f := Seps(pages, levels, w);
    assert RecsCovered(f, c, LiveList(slots), w);
    hide AllRecs, LiveList, IsTree, Find, HasKey, KeyOf, Seps, Put;
    PutInList(a, x, y, b, rec, w);
    PutSorted(AllRecs(pages, leaves), rec, w);
    if !HasKey(AllRecs(pages, leaves), key, w) {
      SortedPart(a, x + [rec] + y, b, w);
      CoveredPut(f, c, x, y, rec, w);
      LeafEditKeepsTree(pages, pages', root, levels, c, w);
    }
  }

  lemma PutInList(a: seq<Record>, x: seq<Record>, y: seq<Record>, b: seq<Record>, rec: Record, w: nat)
    requires w <= |rec|
    requires AllBelow(a, KeyOf(rec, w), w) && AllBelow(x, KeyOf(rec, w), w)
    requires AllAtLeast(y, KeyOf(rec, w), w) && AllAtLeast(b, KeyOf(rec, w) + 1, w)
    ensures Keyed(a + (x + y) + b, w)
    ensures Put(a + (x + y) + b, rec, w) == a + (x + [rec] + y) + b
  {
    RankInTree(a, x, y, b, KeyOf(rec, w), w);
    PutRegroup(a, x, y, b, rec);
  }

  lemma CoveredPut(f: seq<Pair>, c: nat, x: seq<Record>, y: seq<Record>, rec: Record, w: nat)
    requires Keyed(x + y, w) && w <= |rec| && RecsCovered(f, c, x + y, w) && Covers(f, c, KeyOf(rec, w))
    ensures Keyed(x + [rec] + y, w) && RecsCovered(f, c, x + [rec] + y, w)
  {
    var z: seq<Record>, m: seq<Record> := x + y, x + [rec] + y;
    forall r: nat | r < |m|
      ensures w <= |m[r]| && Covers(f, c, KeyOf(m[r], w))
    {
      if r < |x| {
        assert m[r] == z[r];
      } else if r > |x| {
        assert m[r] == z[r - 1];
      }
    }
  }

  lemma PutRegroup(a: seq<Record>, x: seq<Record>, y: seq<Record>, b: seq<Record>, rec: Record)
    ensures a + (x + [rec] + y) + b == (a + x) + [rec] + (y + b)
  {
  }

  lemma SortedPart(a: seq<Record>, m: seq<Record>, b: seq<Record>, w: nat)
    requires SortedRecs(a + m + b, w)
    ensures SortedRecs(m, w)
  {
    var z: seq<Record> := a + m + b;
    assert forall i :: 0 <= i < |m| ==> m[i] == z[|a| + i];
  }

  /** A lookup at the searched position returns the record with the key, or nothing. */
  lemma FindEffect(pages: Store, root: nat, levels: seq<seq<nat>>, c: nat, l: nat, key: int, w: nat)
    requires IsTree(pages, root, levels, w) && Covers(Seps(pages, levels, w), c, key)
    requires LowerPos(pages[levels[0][c]].slots, l, key, w)
    ensures InStore(pages, levels[0]) && SortedRecs(AllRecs(pages, levels[0]), w)
    ensures var slots := pages[levels[0][c]].slots;
            var hit := l < |slots| && slots[l].Live?;
            && (hit ==> w <= |slots[l].rec|)
            && (HasKey(AllRecs(pages, levels[0]), key, w) <==> hit && KeyOf(slots[l].rec, w) == key)
            && Find(AllRecs(pages, levels[0]), key, w)
               == if hit && KeyOf(slots[l].rec, w) == key then slots[l].rec else []
  {
    var leaves := levels[0];
    hide AllRecs, LiveList, IsTree, Find, HasKey, IsLeaf, KeyOf, Seps, Covers, SortedRecs, LowerPos, AllBelow,
         AllAtLeast;
    TreeAround(pages, root, levels, c, key, w);
    var slots := pages[leaves[c]].slots;
    FindInLeaf(AllRecs(pages, leaves[..c]), slots, l, AllRecs(pages, leaves[c + 1..]), key, w);
  }

  lemma FindInLeaf(a: seq<Record>, slots: seq<SlotView>, l: nat, b: seq<Record>, key: int, w: nat)
    requires LowerPos(slots, l, key, w) && AllBelow(a, key, w) && AllAtLeast(b, key + 1, w)
    requires SortedRecs(a + LiveList(slots) + b, w)
    ensures var recs, hit := a + LiveList(slots) + b, l < |slots| && slots[l].Live?;
            && (hit ==> w <= |slots[l].rec|)
            && (HasKey(recs, key, w) <==> hit && KeyOf(slots[l].rec, w) == key)
            && Find(recs, key, w) == if hit && KeyOf(slots[l].rec, w) == key then slots[l].rec else []
  {
    hide LiveList, KeyOf, Find, HasKey, LowerPos;
    LowerPosParts(slots, l, key, w);
    LiveSplit(slots, l);
    FirstLive(slots, l);
    FindInList(a, LiveList(slots[..l]), LiveList(slots[l..]), b, key, w);
  }

  lemma LowerPosParts(slots: seq<SlotView>, l: nat, key: int, w: nat)
    requires LowerPos(slots, l, key, w)
    ensures l <= |slots| && AllBelow(LiveList(slots[..l]), key, w) && AllAtLeast(LiveList(slots[l..]), key, w)
    ensures LiveList(slots[l..]) != [] ==> l < |slots| && slots[l].Live?
  {
    assert l == |slots| ==> slots[l..] == [];
  }

  lemma FindInList(a: seq<Record>, x: seq<Record>, y: seq<Record>, b: seq<Record>, key: int, w: nat)
    requires AllBelow(a, key, w) && AllBelow(x, key, w) && AllAtLeast(y, key, w) && AllAtLeast(b, key + 1, w)
    requires Keyed(a + (x + y) + b, w) && SortedRecs(a + (x + y) + b, w)
    ensures HasKey(a + (x + y) + b, key, w) <==> y != [] && KeyOf(y[0], w) == key
    ensures Find(a + (x + y) + b, key, w) == if y != [] && KeyOf(y[0], w) == key then y[0] else []
  {
    var recs: seq<Record>, n := a + (x + y) + b, |a| + |x|;
    RankInTree(a, x, y, b, key, w);
    RankFinds(recs, key, w);
    assert n < |recs| ==> recs[n] == if y != [] then y[0] else b[0];
  }

  lemma FirstLive(slots: seq<SlotView>, l: nat)
    requires l <= |slots|
    ensures l < |slots| && slots[l].Live? ==> LiveList(slots[l..]) != [] && LiveList(slots[l..])[0] == slots[l].rec
  {
    if l < |slots| {
      assert slots[l..][0] == slots[l];
    }
  }

  /** Tombstoning the slot found for a key takes exactly that record out of the list. */
  lemma RemoveEffect(pages: Store, pages': Store, root: nat, levels: seq<seq<nat>>, c: nat, l: nat, key: int, w: nat)
    requires IsTree(pages, root, levels, w) && Covers(Seps(pages, levels, w), c, key)
    requires LeafEdited(pages, pages', levels, c)
    requires LowerPos(pages[levels[0][c]].slots, l, key, w)
    requires l < |pages[levels[0][c]].slots| && pages[levels[0][c]].slots[l].Live?
    requires w <= |pages[levels[0][c]].slots[l].rec| && KeyOf(pages[levels[0][c]].slots[l].rec, w) == key
    requires pages'[levels[0][c]] == Delete(pages[levels[0][c]], l).1
    ensures InStore(pages, levels[0]) && InStore(pages', levels[0]) && SortedRecs(AllRecs(pages, levels[0]), w)
    ensures HasKey(AllRecs(pages, levels[0]), key, w)
    ensures AllRecs(pages', levels[0]) == Without(AllRecs(pages, levels[0]), key, w)
    ensures IsTree(pages', root, levels, w)
  {
    var leaves := levels[0];
    var p, slots := pages[leaves[c]], pages[leaves[c]].slots;
    FindEffect(pages, root, levels, c, l, key, w);
    TreeAround(pages, root, levels, c, key, w);
    RecsReplaced(pages, pages', leaves, c);
    ValidDelete(p, l);
    LiveSplit(slots, l);
    var a, b := AllRecs(pages, leaves[..c]), AllRecs(pages, leaves[c + 1..]);
    var x, y, r := LiveList(slots[..l]), LiveList(slots[l + 1..]), slots[l].rec;
    assert LiveList(slots[l..]) == [r] + y by {
      assert slots[l..][1..] == slots[l + 1..];
    }
    assert RecsCovered(Seps(pages, levels, w), c, LiveList(slots), w);
    hide AllRecs, LiveList, KeyOf, Find, HasKey, Seps;
    WithoutInList(a, x, r, y, b, key, w);
    SubCovered(Seps(pages, levels, w), c, x, r, y, w);
    LeafEditKeepsTree(pages, pages', root, levels, c, w);
  }

  lemma WithoutInList(a: seq<Record>, x: seq<Record>, r: Record, y: seq<Record>, b: seq<Record>, key: int, w: nat)
    requires AllBelow(a, key, w) && AllBelow(x, key, w) && AllAtLeast([r] + y, key, w) && AllAtLeast(b, key + 1, w)
    requires w <= |r| && KeyOf(r, w) == key
    ensures Keyed(a + (x + ([r] + y)) + b, w)
    ensures Without(a + (x + ([r] + y)) + b, key, w) == a + (x + y) + b
  {
    hide KeyOf;
    RankInTree(a, x, [r] + y, b, key, w);
    DropRegroup(a, x, r, y, b);
    var z: seq<Record>, n := a + (x + ([r] + y)) + b, |a| + |x|;
    assert z[n] == r;
  }

  lemma DropRegroup(a: seq<Record>, x: seq<Record>, r: Record, y: seq<Record>, b: seq<Record>)
    ensures var z := a + (x + ([r] + y)) + b;
            z[..|a| + |x|] + z[|a| + |x| + 1..] == a + (x + y) + b
  {
  }

  lemma SubCovered(f: seq<Pair>, c: nat, x: seq<Record>, r: Record, y: seq<Record>, w: nat)
    requires SortedRecs(x + ([r] + y), w) && RecsCovered(f, c, x + ([r] + y), w)
    ensures SortedRecs(x + y, w) && RecsCovered(f, c, x + y, w)
  {
    var z: seq<Record>, m: seq<Record> := x + ([r] + y), x + y;
    forall i: nat | i < |m|
      ensures w <= |m[i]| && Covers(f, c, KeyOf(m[i], w))
    {
      assert m[i] == z[if i < |x| then i else i + 1];
    }
    forall i: nat, j: nat | i < j < |m|
      ensures KeyOf(m[i], w) < KeyOf(m[j], w)
    {
      assert m[i] == z[if i < |x| then i else i + 1];
      assert m[j] == z[if j < |x| then j else j + 1];
    }
  }
}
