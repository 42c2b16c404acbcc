/**
 * Strict min-key: a key in an internal page is at most every key reachable through the child pointer behind it. In a
 * well-formed tree only the leftmost leaf can break it, and then only by records below the leftmost separator.
 */
module StrictMinKeys {
  import opened Bytes
  import opened Pages
  import opened Levels
  import opened Trees
  import opened TreeEdits
  import opened Cascade
  import opened Splits
  import opened Growth
  import opened LeafSplits

  /** Everything reachable from page `id`, t levels above the leaves, has a key of at least `key`. */
  ghost predicate AtLeastFrom(pages: Store, id: nat, t: nat, key: int, w: nat)
    decreases t
  {
    && id in pages
    && if t == 0 then AllAtLeast(LiveList(pages[id].slots), key, w)
       else
         && IsInternal(pages[id], w)
         && forall j :: 0 <= j < |Pairs(pages[id], w)| ==>
              AtLeastFrom(pages, Pairs(pages[id], w)[j].child, t - 1, key, w)
  }

  /** Page `id`, t levels above the leaves, keeps strict min-key at all of its slots. */
  ghost predicate MinKeys(pages: Store, id: nat, t: nat, w: nat)
    requires id in pages && IsInternal(pages[id], w) && 0 < t
  {
    forall j :: 0 <= j < |Pairs(pages[id], w)| ==>
      AtLeastFrom(pages, Pairs(pages[id], w)[j].child, t - 1, Pairs(pages[id], w)[j].key, w)
  }

  /** Strict min-key at every slot of every internal page. */
  ghost predicate StrictAtEverySlot(pages: Store, root: nat, levels: seq<seq<nat>>, w: nat)
    requires IsTree(pages, root, levels, w)
  {
    forall t, q :: 0 < t < |levels| && 0 <= q < |levels[t]| ==>
      && levels[t][q] in pages && IsInternal(pages[levels[t][q]], w) && MinKeys(pages, levels[t][q], t, w)
  }

  /** No record is below the leftmost separator. A lone leaf has no separators. */
  ghost predicate Strict(pages: Store, root: nat, levels: seq<seq<nat>>, w: nat)
    requires IsTree(pages, root, levels, w)
  {
    |levels| > 1 ==> AllAtLeast(AllRecs(pages, levels[0]), Seps(pages, levels, w)[0].key, w)
  }

  /** Told from the leftmost leaf alone. */
  lemma StrictInFirst(pages: Store, root: nat, levels: seq<seq<nat>>, w: nat)
    requires IsTree(pages, root, levels, w) && |levels| > 1
    ensures levels[0] != [] && levels[0][0] in pages && Seps(pages, levels, w) != []
    ensures Strict(pages, root, levels, w) <==>
              AllAtLeast(LiveList(pages[levels[0][0]].slots), Seps(pages, levels, w)[0].key, w)
  {
    var leaves, f := levels[0], Seps(pages, levels, w);
    RightOfSeparator(pages, leaves, f, 1, w);
    hide LiveList, KeyOf, Upper, Flat, IsLeaf;
    assert AllRecs(pages, leaves) == LiveList(pages[leaves[0]].slots) + AllRecs(pages, leaves[1..]);
    AtLeastConcat(LiveList(pages[leaves[0]].slots), AllRecs(pages, leaves[1..]), f[0].key, w);
  }

  lemma AtLeastConcat(a: seq<Record>, b: seq<Record>, key: int, w: nat)
    ensures AllAtLeast(a + b, key, w) <==> AllAtLeast(a, key, w) && AllAtLeast(b, key, w)
  {
    hide KeyOf;
    var m := a + b;
    assert forall r :: 0 <= r < |a| ==> m[r] == a[r];
    assert forall r :: 0 <= r < |b| ==> m[|a| + r] == b[r];
  }

  /** Under strict min-key no leaf has a record below its own separator. */
  lemma StrictLeaf(pages: Store, root: nat, levels: seq<seq<nat>>, c: nat, w: nat)
    requires IsTree(pages, root, levels, w) && |levels| > 1 && c < |levels[0]| && Strict(pages, root, levels, w)
    ensures GoodLevel(pages, levels[1], w) && levels[0][c] in pages && c < |Seps(pages, levels, w)|
    ensures AllAtLeast(LiveList(pages[levels[0][c]].slots), Seps(pages, levels, w)[c].key, w)
  {
    StrictInFirst(pages, root, levels, w);
    hide KeyOf, LiveList, Upper, Flat, IsLeaf, Strict;
    var f, recs := Seps(pages, levels, w), LiveList(pages[levels[0][c]].slots);
    assert RecsCovered(f, c, recs, w);
  }

  // ---- at every slot ------------------------------------------------------------------------------------

  /** The key page q of level t is filed under in the level above. */
  ghost function HeadKey(pages: Store, root: nat, levels: seq<seq<nat>>, t: nat, q: nat, w: nat): int
    requires IsTree(pages, root, levels, w) && |levels| > 1 && t < |levels| && q < |levels[t]|
  {
    if t == 0 then Seps(pages, levels, w)[q].key else PairAt(pages[levels[t][q]], w, 0).key
  }

  /** Pair j of page q names a page of the level below, and has the key that page is filed under. */
  lemma ChildIs(pages: Store, root: nat, levels: seq<seq<nat>>, t: nat, q: nat, j: nat, w: nat) returns (c: nat)
    requires IsTree(pages, root, levels, w) && 0 < t < |levels| && q < |levels[t]|
    ensures levels[t][q] in pages && IsInternal(pages[levels[t][q]], w)
    ensures j < |Pairs(pages[levels[t][q]], w)| ==>
              && c < |levels[t - 1]|
              && Pairs(pages[levels[t][q]], w)[j] == Pair(HeadKey(pages, root, levels, t - 1, c, w), levels[t - 1][c])
  {
    UpperAt(pages, root, levels, t, w);
    var level := levels[t];
    hide Off, Flat, Pairs, PairAt, IsInternal;
    c := Off(pages, level, q, w) + j;
    if j < |Pairs(pages[level[q]], w)| {
      OwnerUnique(pages, level, q, j, w);
      if t > 1 {
        UpperAt(pages, root, levels, t - 1, w);
      }
    }
  }

  /** Nothing reachable from a page is below the key it is filed under. */
  lemma {:induction false} FromHead(pages: Store, root: nat, levels: seq<seq<nat>>, t: nat, q: nat, key: int, w: nat)
    requires IsTree(pages, root, levels, w) && |levels| > 1 && t < |levels| && q < |levels[t]|
    requires Strict(pages, root, levels, w) && key <= HeadKey(pages, root, levels, t, q, w)
    ensures AtLeastFrom(pages, levels[t][q], t, key, w)
    decreases t
  {
    hide IsTree, Strict, HeadKey;
    if t == 0 {
      StrictLeaf(pages, root, levels, q, w);
      HeadOfLeaf(pages, root, levels, q, w);
    } else {
      var c0 := ChildIs(pages, root, levels, t, q, 0, w);
      forall j | 0 <= j < |Pairs(pages[levels[t][q]], w)|
        ensures AtLeastFrom(pages, Pairs(pages[levels[t][q]], w)[j].child, t - 1, key, w)
      {
        var c := ChildIs(pages, root, levels, t, q, j, w);
        HeadIsLeast(pages, root, levels, t, q, j, w);
        FromHead(pages, root, levels, t - 1, c, key, w);
      }
    }
  }

  lemma HeadOfLeaf(pages: Store, root: nat, levels: seq<seq<nat>>, q: nat, w: nat)
    requires IsTree(pages, root, levels, w) && |levels| > 1 && q < |levels[0]|
    ensures q < |Seps(pages, levels, w)| && HeadKey(pages, root, levels, 0, q, w) == Seps(pages, levels, w)[q].key
  {
  }

  lemma HeadIsLeast(pages: Store, root: nat, levels: seq<seq<nat>>, t: nat, q: nat, j: nat, w: nat)
    requires IsTree(pages, root, levels, w) && 0 < t < |levels| && q < |levels[t]|
    requires levels[t][q] in pages && IsInternal(pages[levels[t][q]], w) && j < |Pairs(pages[levels[t][q]], w)|
    ensures HeadKey(pages, root, levels, t, q, w) <= Pairs(pages[levels[t][q]], w)[j].key
  {
    UpperAt(pages, root, levels, t, w);
    var f, p, off := Flat(pages, levels[t], w), Pairs(pages[levels[t][q]], w), Off(pages, levels[t], q, w);
    OwnerUnique(pages, levels[t], q, 0, w);
    OwnerUnique(pages, levels[t], q, j, w);
    hide Flat, Off, Pairs, IsTree, Ascending, Owner;
    InOrder(f, off, off + j);
  }

  /** Strict min-key holds at every slot of every page if and only if no record is below the leftmost separator. */
  lemma StrictEverywhere(pages: Store, root: nat, levels: seq<seq<nat>>, w: nat)
    requires IsTree(pages, root, levels, w)
    ensures StrictAtEverySlot(pages, root, levels, w) <==> Strict(pages, root, levels, w)
  {
    hide IsTree, Strict, HeadKey, Pairs, AtLeastFrom;
    if Strict(pages, root, levels, w) {
      forall t, q | 0 < t < |levels| && 0 <= q < |levels[t]|
        ensures levels[t][q] in pages && IsInternal(pages[levels[t][q]], w) && MinKeys(pages, levels[t][q], t, w)
      {
        var c0 := ChildIs(pages, root, levels, t, q, 0, w);
        forall j | 0 <= j < |Pairs(pages[levels[t][q]], w)|
          ensures AtLeastFrom(pages, Pairs(pages[levels[t][q]], w)[j].child, t - 1,
                              Pairs(pages[levels[t][q]], w)[j].key, w)
        {
          var c := ChildIs(pages, root, levels, t, q, j, w);
          FromHead(pages, root, levels, t - 1, c, Pairs(pages[levels[t][q]], w)[j].key, w);
        }
      }
    }
    if StrictAtEverySlot(pages, root, levels, w) && |levels| > 1 {
      FirstSlotHolds(pages, root, levels, w);
    }
    LoneIsStrict(pages, root, levels, w);
  }

  lemma LoneIsStrict(pages: Store, root: nat, levels: seq<seq<nat>>, w: nat)
    requires IsTree(pages, root, levels, w)
    ensures |levels| <= 1 ==> Strict(pages, root, levels, w)
  {
  }

  /** The first slot of the leftmost page above the leaves is the one that counts. */
  lemma FirstSlotHolds(pages: Store, root: nat, levels: seq<seq<nat>>, w: nat)
    requires IsTree(pages, root, levels, w) && |levels| > 1 && StrictAtEverySlot(pages, root, levels, w)
    ensures Strict(pages, root, levels, w)
  {
    StrictInFirst(pages, root, levels, w);
    UpperAt(pages, root, levels, 1, w);
    var level := levels[1];
    assert level != [];
    OwnerUnique(pages, level, 0, 0, w);
    assert level[..0] == [];
    var p := pages[level[0]];
    assert Pairs(p, w)[0] == Seps(pages, levels, w)[0];
    assert Pairs(p, w)[0].child == levels[0][0];
    assert MinKeys(pages, levels[1][0], 1, w);
    assert AtLeastFrom(pages, Pairs(p, w)[0].child, 0, Pairs(p, w)[0].key, w);
  }

  // ---- what it is good for --------------------------------------------------------------------------------

  /**
   * Under strict min-key a leaf can be split if and only if it has a record to cut at and either a record on the left
   * of the cut or, when it is not the root, a separator that is not the cut's own key.
   */
  lemma StrictSplitExact(pages: Store, root: nat, levels: seq<seq<nat>>, c: nat, w: nat)
    requires IsTree(pages, root, levels, w) && Strict(pages, root, levels, w) && c < |levels[0]|
    ensures levels[0][c] in pages && c < |Seps(pages, levels, w)|
    ensures var slots := pages[levels[0][c]].slots;
            Splittable(pages, levels, c, w) <==>
              && HasCut(slots, w)
              && (|| LiveList(slots[..Pivot(slots)]) != []
                  || (|levels| > 1 && Seps(pages, levels, w)[c].key != KeyOf(slots[Pivot(slots)].rec, w)))
  {
    hide KeyOf, LiveList, Pivot, Upper, Flat, IsLeaf, Strict, AllAtLeast, HasCut;
    var slots := pages[levels[0][c]].slots;
    if HasCut(slots, w) && |levels| > 1 {
      StrictLeaf(pages, root, levels, c, w);
      CutAtLeast(slots, Seps(pages, levels, w)[c].key, w);
      if LiveList(slots[..Pivot(slots)]) != [] {
        HasCutIs(slots, w);
        StrictMinKeySplits(pages, root, levels, c, w);
      }
    }
  }

  lemma HasCutIs(slots: seq<SlotView>, w: nat)
    requires HasCut(slots, w)
    ensures LiveList(slots) != [] && Pivot(slots) < |slots| && slots[Pivot(slots)].Live?
    ensures w <= |slots[Pivot(slots)].rec|
  {
  }

  lemma CutAtLeast(slots: seq<SlotView>, key: int, w: nat)
    requires HasCut(slots, w) && AllAtLeast(LiveList(slots), key, w)
    ensures key <= KeyOf(slots[Pivot(slots)].rec, w)
  {
    LiveIndex(slots, Pivot(slots));
    hide KeyOf, LiveList, Pivot;
    var recs, n := LiveList(slots), |LiveList(slots[..Pivot(slots)])|;
    assert key <= KeyOf(recs[n], w);
  }

  // ---- what each operation does to it ---------------------------------------------------------------------

  /** The separators once leaf c has been split: the cut's key behind the leaf's own, or the two of a new root. */
  ghost function SepsAfterSplit(pages: Store, root: nat, levels: seq<seq<nat>>, c: nat, id: nat, w: nat): seq<Pair>
    requires IsTree(pages, root, levels, w) && Splittable(pages, levels, c, w)
  {
    var slots := pages[levels[0][c]].slots;
    var cut := Pair(KeyOf(slots[Pivot(slots)].rec, w), id);
    if |levels| > 1 then PutAfter(Seps(pages, levels, w), c, cut)
    else [Pair(KeyOf(LiveList(slots)[0], w), root), cut]
  }

  /** The level above the leaves, as the cascade leaves it, read as separators. */
  lemma SplitSepsAre(pages: Store, pages2: Store, root: nat, root2: nat, levels: seq<seq<nat>>,
                     levels2: seq<seq<nat>>, c: nat, id: nat, key: int, w: nat)
    requires IsTree(pages, root, levels, w) && IsTree(pages2, root2, levels2, w) && Splittable(pages, levels, c, w)
    requires var slots := pages[levels[0][c]].slots; key == KeyOf(slots[Pivot(slots)].rec, w)
    requires |levels2| > 1 && GoodLevel(pages2, levels2[1], w)
    requires |levels| > 1 ==> Flat(pages2, levels2[1], w) == PutAfter(Seps(pages, levels, w), c, Pair(key, id))
    requires |levels| == 1 ==>
               Flat(pages2, levels2[1], w) == [Pair(KeyOf(LiveList(pages[root].slots)[0], w), root), Pair(key, id)]
    ensures Seps(pages2, levels2, w) == SepsAfterSplit(pages, root, levels, c, id, w)
  {
    hide Flat, KeyOf, LiveList, Pivot;
  }

  lemma SplitSepsSaid(pages: Store, root: nat, levels: seq<seq<nat>>, c: nat, id: nat, w: nat)
    requires IsTree(pages, root, levels, w) && Splittable(pages, levels, c, w)
    ensures |levels| > 1 ==>
              var slots, f := pages[levels[0][c]].slots, Seps(pages, levels, w);
              && c < |f|
              && SepsAfterSplit(pages, root, levels, c, id, w)
                 == f[..c + 1] + [Pair(KeyOf(slots[Pivot(slots)].rec, w), id)] + f[c + 1..]
  {
    hide Flat, KeyOf, LiveList, Pivot;
  }

  lemma FirstSepStays(pages: Store, root: nat, levels: seq<seq<nat>>, c: nat, id: nat, w: nat)
    requires IsTree(pages, root, levels, w) && Splittable(pages, levels, c, w)
    ensures var f, f' := Seps(pages, levels, w), SepsAfterSplit(pages, root, levels, c, id, w);
            |levels| > 1 ==> f != [] && f' != [] && f'[0] == f[0]
  {
    hide Flat, KeyOf, LiveList, Pivot;
  }

  /** A split keeps strict min-key, and does not restore it. */
  lemma SplitKeepsStrict(pages: Store, pages2: Store, root: nat, root2: nat, levels: seq<seq<nat>>,
                         levels2: seq<seq<nat>>, c: nat, id: nat, w: nat)
    requires IsTree(pages, root, levels, w) && IsTree(pages2, root2, levels2, w) && Splittable(pages, levels, c, w)
    requires AllRecs(pages2, levels2[0]) == AllRecs(pages, levels[0]) && |levels2| > 1
    requires Seps(pages2, levels2, w) == SepsAfterSplit(pages, root, levels, c, id, w)
    ensures Strict(pages2, root2, levels2, w) <==> Strict(pages, root, levels, w)
  {
    if |levels| == 1 {
      RecsOne(pages, root);
      FirstIsLeast(AllRecs(pages, levels[0]), w);
    }
  }

  lemma FirstIsLeast(recs: seq<Record>, w: nat)
    requires SortedRecs(recs, w) && recs != []
    ensures AllAtLeast(recs, KeyOf(recs[0], w), w)
  {
    hide KeyOf;
  }

  /** Taking a record out keeps strict min-key. */
  lemma RemoveKeepsStrict(pages: Store, pages': Store, root: nat, levels: seq<seq<nat>>, key: int, w: nat)
    requires IsTree(pages, root, levels, w) && IsTree(pages', root, levels, w)
    requires Keyed(AllRecs(pages, levels[0]), w) && Seps(pages', levels, w) == Seps(pages, levels, w)
    requires AllRecs(pages', levels[0]) == Without(AllRecs(pages, levels[0]), key, w)
    ensures Strict(pages, root, levels, w) ==> Strict(pages', root, levels, w)
  {
    hide KeyOf, Upper, Flat, AllRecs, Rank;
  }

  /** Putting a record in keeps it if and only if the record is not below the leftmost separator. */
  lemma InsertKeepsStrict(pages: Store, pages': Store, root: nat, levels: seq<seq<nat>>, rec: Record, w: nat)
    requires IsTree(pages, root, levels, w) && IsTree(pages', root, levels, w)
    requires Keyed(AllRecs(pages, levels[0]), w) && Seps(pages', levels, w) == Seps(pages, levels, w) && w <= |rec|
    requires AllRecs(pages', levels[0]) == Put(AllRecs(pages, levels[0]), rec, w)
    ensures |levels| > 1 ==> Seps(pages, levels, w) != []
    ensures Strict(pages', root, levels, w) <==>
              && Strict(pages, root, levels, w)
              && (|levels| > 1 ==> Seps(pages, levels, w)[0].key <= KeyOf(rec, w))
  {
    hide KeyOf, Flat, AllRecs, Put, AllAtLeast;
    if |levels| > 1 {
      PutAtLeast(AllRecs(pages, levels[0]), rec, Seps(pages, levels, w)[0].key, w);
    }
  }

  lemma PutAtLeast(recs: seq<Record>, rec: Record, low: int, w: nat)
    requires Keyed(recs, w) && w <= |rec|
    ensures AllAtLeast(Put(recs, rec, w), low, w) <==> AllAtLeast(recs, low, w) && low <= KeyOf(rec, w)
  {
    hide KeyOf, Rank, AllAtLeast;
    var n := Rank(recs, KeyOf(rec, w), w);
    assert recs == recs[..n] + recs[n..];
    AtLeastConcat(recs[..n], recs[n..], low, w);
    AtLeastConcat(recs[..n] + [rec], recs[n..], low, w);
    AtLeastConcat(recs[..n], [rec], low, w);
    AtLeastOne(rec, low, w);
  }

  lemma AtLeastOne(rec: Record, key: int, w: nat)
    requires w <= |rec|
    ensures AllAtLeast([rec], key, w) <==> key <= KeyOf(rec, w)
  {
    hide KeyOf;
    assert [rec][0] == rec;
  }

  /** Rewriting one leaf leaves the separators alone. */
  lemma SepsStay(pages: Store, pages': Store, root: nat, levels: seq<seq<nat>>, c: nat, w: nat)
    requires IsTree(pages, root, levels, w) && LeafEdited(pages, pages', levels, c)
    ensures |levels| > 1 ==> GoodLevel(pages', levels[1], w)
    ensures Seps(pages', levels, w) == Seps(pages, levels, w)
  {
    hide LeafLevel, Flat, Heads;
    if |levels| > 1 {
      UpperFrame(pages, pages', root, levels, 1, w);
      UpperLevel(pages', root, levels, 1, w);
    }
  }
}
