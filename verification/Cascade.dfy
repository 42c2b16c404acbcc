/** Splits that travel up the tree: what each step does to the level it works on and to the levels above. */
module Cascade {
  import opened Bytes
  import opened Pages
  import opened Levels
  import opened Trees
  import opened TreeEdits

  predicate AllIn(pages: Store, levels: seq<seq<nat>>) {
    forall t :: 0 <= t < |levels| ==> InStore(pages, levels[t])
  }

  ghost predicate InLevels(levels: seq<seq<nat>>, k: nat, x: nat) {
    exists t :: k <= t < |levels| && x in levels[t]
  }

  /**
   * What a cascade starting at level k may change: the levels below k stay, pages outside level k and up
   * stay, and every page that joins a level is new.
   */
  ghost predicate Grown(pages: Store, pages': Store, live: set<nat>, levels: seq<seq<nat>>, levels': seq<seq<nat>>,
                        k: nat) {
    && k <= |levels| <= |levels'| && levels'[..k] == levels[..k]
    && DistinctIds(levels') && AllIn(pages', levels')
    && (forall x :: x in pages && !InLevels(levels, k, x) ==> x in pages' && pages'[x] == pages[x])
    && (forall x :: InLevels(levels', k, x) ==> InLevels(levels, k, x) || x !in live)
  }

  // ---- leaves -----------------------------------------------------------------------------------

  /** Leaf c was split over itself and the new leaf `id`, and the links around them were set. */
  predicate LeafSplit(pages: Store, pages': Store, leaves: seq<nat>, c: nat, id: nat) {
    && c < |leaves| && InStore(pages, leaves) && InStore(pages', leaves) && id in pages'
    && (forall i :: 0 <= i < |leaves| && i != c && i != c + 1 ==> pages'[leaves[i]] == pages[leaves[i]])
    && (c + 1 < |leaves| ==> pages'[leaves[c + 1]] == pages[leaves[c + 1]].(left := id))
    && var (old', l, r) := (pages[leaves[c]], pages'[leaves[c]], pages'[id]);
       && LiveList(l.slots) + LiveList(r.slots) == LiveList(old'.slots)
       && LiveList(r.slots) != [] && Valid(l) && Valid(r)
       && l.kind == Leaf && l.left == old'.left && l.right == id
       && r.kind == Leaf && r.left == leaves[c] && r.right == old'.right
  }

  /** The separators with one for the new leaf, taken from its first record. */
  function SplitSeps(pages': Store, f: seq<Pair>, c: nat, id: nat, w: nat): seq<Pair>
    requires c < |f| && id in pages' && LiveList(pages'[id].slots) != [] && w <= |LiveList(pages'[id].slots)[0]|
  {
    f[..c + 1] + [Pair(KeyOf(LiveList(pages'[id].slots)[0], w), id)] + f[c + 1..]
  }

  lemma SplitRecords(l: seq<Record>, r: seq<Record>, f: seq<Pair>, c: nat, id: nat, w: nat)
    requires SortedRecs(l + r, w) && RecsCovered(f, c, l + r, w) && r != [] && Ascending(f) && c < |f|
    ensures SortedRecs(l, w) && SortedRecs(r, w)
    ensures var p := KeyOf(r[0], w);
            var f' := f[..c + 1] + [Pair(p, id)] + f[c + 1..];
            f[c].key < p ==> Ascending(f') && RecsCovered(f', c, l, w) && RecsCovered(f', c + 1, r, w)
  {
    var z: seq<Record> := l + r;
    assert forall i :: 0 <= i < |l| ==> l[i] == z[i];
    assert forall i :: 0 <= i < |r| ==> r[i] == z[|l| + i];
    var p := KeyOf(r[0], w);
    assert Covers(f, c, KeyOf(z[|l|], w));
    var f' := f[..c + 1] + [Pair(p, id)] + f[c + 1..];
    if f[c].key < p {
      AscendingInsert(f, c + 1, Pair(p, id));
      forall i | 0 <= i < |l|
        ensures Covers(f', c, KeyOf(l[i], w))
      {
        assert Covers(f, c, KeyOf(z[i], w));
      }
      forall i | 0 <= i < |r|
        ensures Covers(f', c + 1, KeyOf(r[i], w))
      {
        assert Covers(f, c, KeyOf(z[|l| + i], w));
      }
    }
  }

  lemma AscendingInsert(f: seq<Pair>, j: nat, x: Pair)
    requires Ascending(f) && 0 < j <= |f| && f[j - 1].key < x.key && (j < |f| ==> x.key < f[j].key)
    ensures Ascending(f[..j] + [x] + f[j..])
  {
    var g := f[..j] + [x] + f[j..];
    forall a, b | 0 <= a < b < |g|
      ensures g[a].key < g[b].key
    {
      assert a < j ==> f[a].key <= f[j - 1].key;
      assert b > j ==> f[j].key <= f[b - 1].key;
    }
  }

  lemma SplitSepsOk(pages: Store, pages': Store, leaves: seq<nat>, f: seq<Pair>, c: nat, id: nat, w: nat)
    requires LeafLevel(pages, leaves, f, w) && LeafSplit(pages, pages', leaves, c, id) && id !in leaves
    ensures w <= |LiveList(pages'[id].slots)[0]|
    ensures GoodLeaves(pages', InsertId(leaves, c, id), w)
    ensures f[c].key < KeyOf(LiveList(pages'[id].slots)[0], w) ==>
              Separates(pages', InsertId(leaves, c, id), SplitSeps(pages', f, c, id, w), w)
  {
    var l, r := LiveList(pages'[leaves[c]].slots), LiveList(pages'[id].slots);
    assert RecsCovered(f, c, l + r, w);
    SplitRecords(l, r, f, c, id, w);
    SplitGoodLeaves(pages, pages', leaves, c, id, w);
    if f[c].key < KeyOf(r[0], w) {
      SplitSeparates(pages, pages', leaves, f, c, id, w);
    }
  }

  lemma SplitSeparates(pages: Store, pages': Store, leaves: seq<nat>, f: seq<Pair>, c: nat, id: nat, w: nat)
    requires GoodLeaves(pages, leaves, w) && Separates(pages, leaves, f, w) && LeafSplit(pages, pages', leaves, c, id)
    requires GoodLeaves(pages', InsertId(leaves, c, id), w) && w <= |LiveList(pages'[id].slots)[0]|
    requires var f' := SplitSeps(pages', f, c, id, w);
             && Ascending(f')
             && Keyed(LiveList(pages'[leaves[c]].slots), w) && RecsCovered(f', c, LiveList(pages'[leaves[c]].slots), w)
             && Keyed(LiveList(pages'[id].slots), w) && RecsCovered(f', c + 1, LiveList(pages'[id].slots), w)
    ensures Separates(pages', InsertId(leaves, c, id), SplitSeps(pages', f, c, id, w), w)
  {
    var leaves', f' := InsertId(leaves, c, id), SplitSeps(pages', f, c, id, w);
    hide LiveList, Valid, KeyOf, Ascending, RecsCovered;
    assert forall i :: 0 <= i < |leaves'| ==>
              IsLeaf(pages'[leaves'[i]], w) && Keyed(LiveList(pages'[leaves'[i]].slots), w);
    hide IsLeaf, Keyed;
    assert f'[..c + 1] == f[..c + 1] && f'[c + 2..] == f[c + 1..];
    forall i | 0 <= i < |f'|
      ensures f'[i].child == leaves'[i]
    {
    }
    forall i | 0 <= i < |f'|
      ensures RecsCovered(f', i, LiveList(pages'[leaves'[i]].slots), w)
    {
      LeafStillCovered(pages, pages', leaves, f, f', c, id, i, w);
    }
  }

  lemma SplitGoodLeaves(pages: Store, pages': Store, leaves: seq<nat>, c: nat, id: nat, w: nat)
    requires GoodLeaves(pages, leaves, w) && LeafSplit(pages, pages', leaves, c, id)
    requires SortedRecs(LiveList(pages'[leaves[c]].slots), w) && SortedRecs(LiveList(pages'[id].slots), w)
    ensures GoodLeaves(pages', InsertId(leaves, c, id), w)
  {
    hide LiveList, SortedRecs;
    var leaves' := InsertId(leaves, c, id);
    forall i | 0 <= i < |leaves'|
      ensures leaves'[i] in pages' && IsLeaf(pages'[leaves'[i]], w)
    {
      if i > c + 1 {
        assert leaves'[i] == leaves[i - 1];
      } else if i < c {
        assert leaves'[i] == leaves[i];
      }
    }
  }

  lemma LeafStillCovered(pages: Store, pages': Store, leaves: seq<nat>, f: seq<Pair>, f': seq<Pair>, c: nat, id: nat,
                         i: nat, w: nat)
    requires LeafSplit(pages, pages', leaves, c, id) && |f| == |leaves| && |f'| == |f| + 1 && i < |f'|
    requires f'[..c + 1] == f[..c + 1] && f'[c + 2..] == f[c + 1..]
    requires GoodLeaves(pages, leaves, w) && GoodLeaves(pages', InsertId(leaves, c, id), w)
    requires forall x :: 0 <= x < |f| ==> RecsCovered(f, x, LiveList(pages[leaves[x]].slots), w)
    requires RecsCovered(f', c, LiveList(pages'[InsertId(leaves, c, id)[c]].slots), w)
    requires RecsCovered(f', c + 1, LiveList(pages'[InsertId(leaves, c, id)[c + 1]].slots), w)
    ensures RecsCovered(f', i, LiveList(pages'[InsertId(leaves, c, id)[i]].slots), w)
  {
    hide LiveList, KeyOf;
    if i < c {
      CoveredBefore(f, f', c, i, LiveList(pages[leaves[i]].slots), w);
    } else if i > c + 1 {
      CoveredAfter(f, f', c, i, LiveList(pages[leaves[i - 1]].slots), w);
    }
  }

  lemma CoveredBefore(f: seq<Pair>, f': seq<Pair>, c: nat, i: nat, recs: seq<Record>, w: nat)
    requires c < |f| && i < c && |f'| > c && f'[..c + 1] == f[..c + 1] && Keyed(recs, w) && RecsCovered(f, i, recs, w)
    ensures RecsCovered(f', i, recs, w)
  {
    assert f'[i] == f'[..c + 1][i] && f'[i + 1] == f'[..c + 1][i + 1];
    assert f[i] == f[..c + 1][i] && f[i + 1] == f[..c + 1][i + 1];
    forall r | 0 <= r < |recs|
      ensures Covers(f', i, KeyOf(recs[r], w))
    {
      assert Covers(f, i, KeyOf(recs[r], w));
    }
  }

  lemma CoveredAfter(f: seq<Pair>, f': seq<Pair>, c: nat, i: nat, recs: seq<Record>, w: nat)
    requires c < |f| && c + 1 < i < |f'| && f'[c + 2..] == f[c + 1..] && Keyed(recs, w)
             && RecsCovered(f, i - 1, recs, w)
    ensures RecsCovered(f', i, recs, w)
  {
    assert |f'| == |f| + 1;
    assert f'[i] == f'[c + 2..][i - c - 2] == f[c + 1..][i - c - 2] == f[i - 1];
    assert i + 1 < |f'| ==> f'[i + 1] == f'[c + 2..][i - c - 1] == f[c + 1..][i - c - 1] == f[i];
    forall r | 0 <= r < |recs|
      ensures Covers(f', i, KeyOf(recs[r], w))
    {
      assert Covers(f, i - 1, KeyOf(recs[r], w));
    }
  }

  lemma SplitChained(pages: Store, pages': Store, leaves: seq<nat>, c: nat, id: nat)
    requires InStore(pages, leaves) && Chained(pages, leaves) && LeafSplit(pages, pages', leaves, c, id)
    ensures InStore(pages', InsertId(leaves, c, id)) && Chained(pages', InsertId(leaves, c, id))
  {
    hide LiveList, Valid;
    var leaves' := InsertId(leaves, c, id);
    forall i | 0 <= i < |leaves'|
      ensures pages'[leaves'[i]].right == Neighbour(leaves', i + 1)
              && pages'[leaves'[i]].left == Neighbour(leaves', i - 1)
    {
      if i <= c {
        assert leaves'[i] == leaves[i] && (i > 0 ==> leaves'[i - 1] == leaves[i - 1]);
      } else if i == c + 1 {
        assert leaves'[i] == id && leaves'[i - 1] == leaves[c];
      } else {
        assert leaves'[i] == leaves[i - 1] && (i > c + 2 ==> leaves'[i - 1] == leaves[i - 2]);
      }
    }
  }

  /**
   * A leaf split leaves the records as they were, and a well-formed leaf level if its new separator is above the
   * old one.
   */
  lemma LeafSplitOk(pages: Store, pages': Store, leaves: seq<nat>, f: seq<Pair>, c: nat, id: nat, w: nat)
    requires LeafLevel(pages, leaves, f, w) && LeafSplit(pages, pages', leaves, c, id) && id !in leaves
    ensures w <= |LiveList(pages'[id].slots)[0]|
    ensures InStore(pages', InsertId(leaves, c, id))
    ensures AllRecs(pages', InsertId(leaves, c, id)) == AllRecs(pages, leaves)
    ensures f[c].key < KeyOf(LiveList(pages'[id].slots)[0], w) ==>
              LeafLevel(pages', InsertId(leaves, c, id), SplitSeps(pages', f, c, id, w), w)
  {
    RecsSplit(pages, pages', leaves, c, id);
    SplitChained(pages, pages', leaves, c, id);
    SplitSepsOk(pages, pages', leaves, f, c, id, w);
    InsertIdNoDup(leaves, c, id);
  }

  // ---- internal levels ----------------------------------------------------------------------------

  lemma UpperLevel(pages: Store, root: nat, levels: seq<seq<nat>>, k: nat, w: nat)
    requires Upper(pages, root, levels, k, w)
    ensures GoodLevel(pages, levels[k], w) && Ascending(Flat(pages, levels[k], w))
  {
  }

  /** Level k changed without changing what the level above must say about it. */
  lemma UpperReplaced(pages: Store, pages': Store, root: nat, levels: seq<seq<nat>>, k: nat, w: nat)
    requires Upper(pages, root, levels, k, w)
    requires forall t :: k < t < |levels| ==> SameOn(pages, pages', levels[t])
    requires GoodLevel(pages', levels[k], w) && Ascending(Flat(pages', levels[k], w))
    requires Heads(pages', levels[k], w) == Heads(pages, levels[k], w)
    ensures Upper(pages', root, levels, k, w)
  {
    if k + 1 < |levels| {
      UpperShrink(pages, root, levels, k, k + 1, w);
      UpperLink(pages, root, levels, k, w);
      UpperFrame(pages, pages', root, levels, k + 1, w);
      UpperGrow(pages', root, levels, k, w);
    } else {
      UpperTop(pages, root, levels, k, w);
      UpperIsTop(pages', root, levels, k, w);
    }
  }

  /** A pair put into page q of a level, behind that page's first pair, in key order. */
  lemma InsertInOrder(pages: Store, pages': Store, level: seq<nat>, q: nat, pos: nat, x: Pair, w: nat)
    requires OnlyChanged(pages, pages', level, q, w)
    requires 0 < pos <= |Pairs(pages[level[q]], w)| && Ascending(Flat(pages, level, w))
    requires Pairs(pages'[level[q]], w) == Pairs(pages[level[q]], w)[..pos] + [x] + Pairs(pages[level[q]], w)[pos..]
    requires var f, j := Flat(pages, level, w), Off(pages, level, q, w) + pos;
             j <= |f| && f[j - 1].key < x.key && (j < |f| ==> x.key < f[j].key)
    ensures var f, j := Flat(pages, level, w), Off(pages, level, q, w) + pos;
            && GoodLevel(pages', level, w) && Flat(pages', level, w) == f[..j] + [x] + f[j..]
            && Ascending(Flat(pages', level, w)) && Heads(pages', level, w) == Heads(pages, level, w)
  {
    hide Flat, Ascending, Pairs, Heads, Off, IsInternal;
    InsertInLevel(pages, pages', level, q, pos, x, w);
    AscendingInsert(Flat(pages, level, w), Off(pages, level, q, w) + pos, x);
  }

  lemma UpperShrink(pages: Store, root: nat, levels: seq<seq<nat>>, k: nat, k': nat, w: nat)
    requires Upper(pages, root, levels, k, w) && k <= k' < |levels|
    ensures Upper(pages, root, levels, k', w)
  {
  }

  lemma UpperLink(pages: Store, root: nat, levels: seq<seq<nat>>, k: nat, w: nat)
    requires Upper(pages, root, levels, k, w) && k + 1 < |levels|
    ensures GoodLevel(pages, levels[k], w) && Ascending(Flat(pages, levels[k], w))
    ensures GoodLevel(pages, levels[k + 1], w) && Flat(pages, levels[k + 1], w) == Heads(pages, levels[k], w)
  {
  }

  lemma UpperTop(pages: Store, root: nat, levels: seq<seq<nat>>, k: nat, w: nat)
    requires Upper(pages, root, levels, k, w) && k + 1 == |levels|
    ensures levels[k] == [root] && GoodLevel(pages, levels[k], w) && Ascending(Flat(pages, levels[k], w))
  {
  }

  lemma UpperIsTop(pages: Store, root: nat, levels: seq<seq<nat>>, k: nat, w: nat)
    requires 0 < k == |levels| - 1 && levels[k] == [root]
    requires GoodLevel(pages, levels[k], w) && Ascending(Flat(pages, levels[k], w))
    ensures Upper(pages, root, levels, k, w)
  {
  }

  lemma UpperGrow(pages: Store, root: nat, levels: seq<seq<nat>>, k: nat, w: nat)
    requires 0 < k && k + 1 < |levels| && Upper(pages, root, levels, k + 1, w)
    requires GoodLevel(pages, levels[k], w) && Ascending(Flat(pages, levels[k], w))
    requires Flat(pages, levels[k + 1], w) == Heads(pages, levels[k], w)
    ensures Upper(pages, root, levels, k, w)
  {
    assert forall t :: k + 1 <= t < |levels| ==> GoodLevel(pages, levels[t], w);
    forall t | k < t < |levels|
      ensures GoodLevel(pages, levels[t], w) && Flat(pages, levels[t], w) == Heads(pages, levels[t - 1], w)
    {
      if t > k + 1 {
        assert k + 1 < t;
      }
    }
  }

  /** Page q of level k was split over itself and the new page `id`. */
  predicate PageSplit(pages: Store, pages': Store, level: seq<nat>, q: nat, id: nat, w: nat) {
    && OnlyChanged(pages, pages', level, q, w)
    && id in pages' && IsInternal(pages'[id], w)
    && Pairs(pages'[level[q]], w) + Pairs(pages'[id], w) == Pairs(pages[level[q]], w)
  }

  /** The level above does not know the new page yet; all else is in order. */
  lemma CascadeSplit(pages: Store, pages': Store, root: nat, levels: seq<seq<nat>>, k: nat, q: nat, id: nat, w: nat)
    requires Upper(pages, root, levels, k, w) && q < |levels[k]|
    requires PageSplit(pages, pages', levels[k], q, id, w)
    requires forall t :: k < t < |levels| ==> SameOn(pages, pages', levels[t])
    ensures var level', h := InsertId(levels[k], q, id), Heads(pages, levels[k], w);
            && GoodLevel(pages', level', w) && Flat(pages', level', w) == Flat(pages, levels[k], w)
            && Ascending(Flat(pages', level', w))
            && Heads(pages', level', w) == h[..q + 1] + [Pair(PairAt(pages'[id], w, 0).key, id)] + h[q + 1..]
            && Off(pages', level', q, w) == Off(pages, levels[k], q, w)
            && Off(pages', level', q + 1, w) == Off(pages, levels[k], q, w) + |Pairs(pages'[levels[k][q]], w)|
    ensures k + 1 < |levels| ==>
              && Upper(pages', root, levels, k + 1, w)
              && Flat(pages', levels[k + 1], w) == Heads(pages, levels[k], w)
  {
    SplitInLevel(pages, pages', levels[k], q, id, w);
    SplitHeads(pages, pages', levels[k], q, id, w);
    if k + 1 < |levels| {
      UpperShrink(pages, root, levels, k, k + 1, w);
      UpperLink(pages, root, levels, k, w);
      UpperFrame(pages, pages', root, levels, k + 1, w);
    }
  }

  /** The separator of the new page falls strictly between its neighbours' keys. */
  lemma HeadBetween(pages: Store, pages': Store, root: nat, levels: seq<seq<nat>>, k: nat, q: nat, id: nat, w: nat)
    requires Upper(pages, root, levels, k, w) && q < |levels[k]|
    requires PageSplit(pages, pages', levels[k], q, id, w)
    ensures var h, x := Heads(pages, levels[k], w), PairAt(pages'[id], w, 0).key;
            h[q].key < x && (q + 1 < |h| ==> x < h[q + 1].key)
  {
    assert Ascending(Flat(pages, levels[k], w));
    hide Upper, Flat, Heads;
    HeadBetweenIn(pages, pages', levels[k], q, id, w);
  }

  lemma HeadBetweenIn(pages: Store, pages': Store, level: seq<nat>, q: nat, id: nat, w: nat)
    requires PageSplit(pages, pages', level, q, id, w) && Ascending(Flat(pages, level, w))
    ensures var h, x := Heads(pages, level, w), PairAt(pages'[id], w, 0).key;
            h[q].key < x && (q + 1 < |h| ==> x < h[q + 1].key)
  {
    var n := |Pairs(pages'[level[q]], w)|;
    assert Pairs(pages[level[q]], w)[n] == Pairs(pages'[id], w)[0];
    hide Flat, Ascending;
    KeyInside(pages, level, q, n, w);
  }

  lemma KeyInside(pages: Store, level: seq<nat>, q: nat, n: nat, w: nat)
    requires GoodLevel(pages, level, w) && q < |level| && 0 < n < |Pairs(pages[level[q]], w)|
    requires Ascending(Flat(pages, level, w))
    ensures var h, x := Heads(pages, level, w), Pairs(pages[level[q]], w)[n].key;
            h[q].key < x && (q + 1 < |h| ==> x < h[q + 1].key)
  {
    hide Flat, Off, Heads, Pairs, IsInternal;
    PageInFlat(pages, level, q, w);
    HeadsAt(pages, level, q, w);
    if q + 1 < |level| {
      HeadsAt(pages, level, q + 1, w);
    }
    assert Flat(pages, level, w)[Off(pages, level, q, w) + n] == Pairs(pages[level[q]], w)[n];
  }

  /** Level k and the level above agree again, so levels k and up are in order. */
  lemma CascadeJoin(pages: Store, pages': Store, root: nat, levels: seq<seq<nat>>, k: nat, w: nat)
    requires 0 < k && k + 1 < |levels| && Upper(pages', root, levels, k + 1, w)
    requires GoodLevel(pages, levels[k], w) && Ascending(Flat(pages, levels[k], w)) && SameOn(pages, pages', levels[k])
    requires Flat(pages', levels[k + 1], w) == Heads(pages, levels[k], w)
    ensures Upper(pages', root, levels, k, w) && Flat(pages', levels[k], w) == Flat(pages, levels[k], w)
  {
    FlatFrame(pages, pages', levels[k], w);
    UpperGrow(pages', root, levels, k, w);
  }
}
