/** Range scans over the leaf chain: what they must return, and what one step along the chain knows. */
module RangeScans {
  import opened Bytes
  import opened Pages
  import Numeric
  import opened Levels
  import opened Trees
  import opened TreeEdits
  import opened Splits

  /** The records with keys from `low` to `high`, both included, in the order they come. */
  function InRange(recs: seq<Record>, low: int, high: int, w: nat): seq<Record>
    requires Keyed(recs, w)
  {
    if recs == [] then []
    else (if low <= KeyOf(recs[0], w) <= high then [recs[0]] else []) + InRange(recs[1..], low, high, w)
  }

  lemma {:induction false} InRangeConcat(a: seq<Record>, b: seq<Record>, low: int, high: int, w: nat)
    requires Keyed(a, w) && Keyed(b, w)
    ensures InRange(a + b, low, high, w) == InRange(a, low, high, w) + InRange(b, low, high, w)
  {
    hide KeyOf;
    if a == [] {
      assert a + b == b;
    } else {
      InRangeConcat(a[1..], b, low, high, w);
      assert (a + b)[1..] == a[1..] + b;
      assert (a + b)[0] == a[0];
    }
  }

  lemma {:induction false} NoneInRange(recs: seq<Record>, low: int, high: int, w: nat)
    requires Keyed(recs, w) && forall i :: 0 <= i < |recs| ==> !(low <= KeyOf(recs[i], w) <= high)
    ensures InRange(recs, low, high, w) == []
  {
    if recs != [] {
      NoneInRange(recs[1..], low, high, w);
    }
  }

  lemma {:induction false} AllInRange(recs: seq<Record>, low: int, high: int, w: nat)
    requires Keyed(recs, w) && forall i :: 0 <= i < |recs| ==> low <= KeyOf(recs[i], w) <= high
    ensures InRange(recs, low, high, w) == recs
  {
    if recs != [] {
      AllInRange(recs[1..], low, high, w);
    }
  }

  /** In a sorted list they are the stretch between two ranks. */
  lemma RangeIsSlice(recs: seq<Record>, low: int, high: int, w: nat)
    requires SortedRecs(recs, w) && low <= high + 1
    ensures var i, j := Rank(recs, low, w), Rank(recs, high + 1, w);
            i <= j <= |recs| && InRange(recs, low, high, w) == recs[i..j]
  {
    hide KeyOf, InRange, Rank, AllBelow, AllAtLeast;
    var i, j := Rank(recs, low, w), Rank(recs, high + 1, w);
    RankSplits(recs, low, w);
    RankSplits(recs, high + 1, w);
    RankGrows(recs, low, high + 1, w);
    var a: seq<Record>, m: seq<Record>, b: seq<Record> := recs[..i], recs[i..j], recs[j..];
    SliceBetween(recs, i, j, low, high, w);
    NoneInRange(a, low, high, w);
    AllInRange(m, low, high, w);
    NoneInRange(b, low, high, w);
    InRangeParts(recs, i, j, low, high, w);
  }

  lemma InRangeParts(recs: seq<Record>, i: nat, j: nat, low: int, high: int, w: nat)
    requires Keyed(recs, w) && i <= j <= |recs|
    ensures var a, m, b := InRange(recs[..i], low, high, w), InRange(recs[i..j], low, high, w),
                           InRange(recs[j..], low, high, w);
            InRange(recs, low, high, w) == a + m + b
  {
    hide InRange, KeyOf;
    InRangeConcat(recs[..i], recs[i..j], low, high, w);
    assert recs[..i] + recs[i..j] == recs[..j];
    InRangeConcat(recs[..j], recs[j..], low, high, w);
    assert recs[..j] + recs[j..] == recs;
  }

  /** A record written with a number is in a range of numbers exactly if its number is. */
  lemma RangeHolds(recs: seq<Record>, v: int, rest: seq<Byte>, low: int, high: int, w: nat)
    requires Keyed(recs, w) && w > 0 && Numeric.FitsWidth(v, w) && Numeric.Serialize(v, w) + rest in recs
    ensures Numeric.Serialize(v, w) + rest in InRange(recs, low, high, w) <==> low <= v <= high
  {
    var rec: Record := Numeric.Serialize(v, w) + rest;
    KeyOfWritten(v, w, rest);
    hide KeyOf;
    RangeMembers(recs, rec, low, high, w);
  }

  /** In the tree's list, and so in any scan, numbers come in ascending order, negative ones first. */
  lemma WrittenInOrder(recs: seq<Record>, i: nat, j: nat, u: int, v: int, x: seq<Byte>, y: seq<Byte>, w: nat)
    requires SortedRecs(recs, w) && i < j < |recs| && w > 0 && Numeric.FitsWidth(u, w) && Numeric.FitsWidth(v, w)
    requires recs[i] == Numeric.Serialize(u, w) + x && recs[j] == Numeric.Serialize(v, w) + y
    ensures u < v
  {
    KeyOfWritten(u, w, x);
    KeyOfWritten(v, w, y);
  }

  lemma {:induction false} RangeMembers(recs: seq<Record>, rec: Record, low: int, high: int, w: nat)
    requires Keyed(recs, w)
    ensures rec in InRange(recs, low, high, w) <==> rec in recs && w <= |rec| && low <= KeyOf(rec, w) <= high
  {
    hide KeyOf;
    if recs != [] {
      RangeMembers(recs[1..], rec, low, high, w);
      assert rec in recs <==> rec == recs[0] || rec in recs[1..];
    }
  }

  lemma {:induction false} RankGrows(recs: seq<Record>, a: int, b: int, w: nat)
    requires Keyed(recs, w) && a <= b
    ensures Rank(recs, a, w) <= Rank(recs, b, w)
  {
    if recs != [] && KeyOf(recs[0], w) < a {
      RankGrows(recs[1..], a, b, w);
    }
  }

  lemma SliceBetween(recs: seq<Record>, i: nat, j: nat, low: int, high: int, w: nat)
    requires i <= j <= |recs| && Keyed(recs, w)
    requires AllBelow(recs[..i], low, w) && AllAtLeast(recs[i..], low, w)
    requires AllBelow(recs[..j], high + 1, w) && AllAtLeast(recs[j..], high + 1, w)
    ensures Keyed(recs[..i], w) && Keyed(recs[i..j], w) && Keyed(recs[j..], w)
    ensures forall r :: 0 <= r < i ==> KeyOf(recs[..i][r], w) < low
    ensures forall r :: 0 <= r < j - i ==> low <= KeyOf(recs[i..j][r], w) <= high
    ensures forall r :: 0 <= r < |recs| - j ==> high < KeyOf(recs[j..][r], w)
  {
    hide KeyOf;
    forall r | 0 <= r < j - i
      ensures low <= KeyOf(recs[i..j][r], w) <= high
    {
      assert recs[i..j][r] == recs[i..][r] == recs[..j][i + r];
    }
  }

  /** Slot l splits a leaf's records at the bound; unlike a lower-bound search's result it may be a tombstone. */
  predicate SplitsAt(slots: seq<SlotView>, l: nat, bound: int, w: nat) {
    && l <= |slots|
    && AllBelow(LiveList(slots[..l]), bound, w) && AllAtLeast(LiveList(slots[l..]), bound, w)
  }

  /** The cursor is in leaf c: what was passed is below the bound, what is to come further right is not. */
  ghost predicate Cursor(pages: Store, leaves: seq<nat>, c: nat, bound: int, w: nat) {
    && InStore(pages, leaves) && c < |leaves|
    && AllBelow(AllRecs(pages, leaves[..c]), bound, w) && AllAtLeast(AllRecs(pages, leaves[c + 1..]), bound, w)
  }

  /** Skipping tombstones keeps the split and lands on the first record to come, if the leaf has one. */
  lemma SkipDead(slots: seq<SlotView>, l: nat, bound: int, w: nat)
    requires SplitsAt(slots, l, bound, w)
    ensures l <= |slots|
    ensures var s := FirstLiveFrom(slots, l);
            && SplitsAt(slots, s, bound, w)
            && (s < |slots| ==> LiveList(slots[s..]) != [] && LiveList(slots[s..])[0] == slots[s].rec)
            && (s == |slots| ==> LiveList(slots[s..]) == [])
  {
    var s := FirstLiveFrom(slots, l);
    if l < |slots| {
      var a, m, b := slots[..l], slots[l..s], slots[s..];
      assert slots[..s] == a + m && slots[l..] == m + b;
      LiveConcat(a, m);
      LiveConcat(m, b);
      DeadIsEmpty(m);
      assert LiveList(a) + [] == LiveList(a) && [] + LiveList(b) == LiveList(b);
      assert s < |slots| ==> b[0] == slots[s];
    }
  }

  /** The next record to come in the whole list, seen from the cursor's leaf. */
  lemma NextInList(pages: Store, root: nat, levels: seq<seq<nat>>, c: nat, s: nat, bound: int, w: nat)
    requires IsTree(pages, root, levels, w) && InStore(pages, levels[0]) && Cursor(pages, levels[0], c, bound, w)
    requires SplitsAt(pages[levels[0][c]].slots, s, bound, w)
    ensures var recs, slots := AllRecs(pages, levels[0]), pages[levels[0][c]].slots;
            && Keyed(recs, w) && Rank(recs, bound, w) <= |recs|
            && (LiveList(slots[s..]) != [] ==>
                  Rank(recs, bound, w) < |recs| && recs[Rank(recs, bound, w)] == LiveList(slots[s..])[0])
            && (LiveList(slots[s..]) == [] && c + 1 == |levels[0]| ==> Rank(recs, bound, w) == |recs|)
  {
    hide AllRecs, LiveList, KeyOf, Keyed, Cursor, SplitsAt, Rank, Upper, LeafLevel, Seps;
    NextInLeaves(pages, levels[0], c, s, bound, w);
  }

  lemma NextInLeaves(pages: Store, leaves: seq<nat>, c: nat, s: nat, bound: int, w: nat)
    requires InStore(pages, leaves) && Cursor(pages, leaves, c, bound, w)
    requires SplitsAt(pages[leaves[c]].slots, s, bound, w)
    ensures var recs, slots := AllRecs(pages, leaves), pages[leaves[c]].slots;
            && Keyed(recs, w) && Rank(recs, bound, w) <= |recs|
            && (LiveList(slots[s..]) != [] ==>
                  Rank(recs, bound, w) < |recs| && recs[Rank(recs, bound, w)] == LiveList(slots[s..])[0])
            && (LiveList(slots[s..]) == [] && c + 1 == |leaves| ==> Rank(recs, bound, w) == |recs|)
  {
    hide LiveList, KeyOf, Keyed, AllBelow, AllAtLeast, Rank;
    RecsAt(pages, leaves, c);
    var slots := pages[leaves[c]].slots;
    LiveSplit(slots, s);
    var a, b := AllRecs(pages, leaves[..c]), AllRecs(pages, leaves[c + 1..]);
    assert c + 1 == |leaves| ==> leaves[c + 1..] == [];
    RankAcross(a, LiveList(slots[..s]), LiveList(slots[s..]), b, bound, w);
  }

  lemma RankAcross(a: seq<Record>, x: seq<Record>, y: seq<Record>, b: seq<Record>, bound: int, w: nat)
    requires AllBelow(a, bound, w) && AllBelow(x, bound, w) && AllAtLeast(y, bound, w) && AllAtLeast(b, bound, w)
    ensures var recs := a + (x + y) + b;
            && Keyed(recs, w) && Rank(recs, bound, w) == |a| + |x|
            && (y != [] ==> |a| + |x| < |recs| && recs[|a| + |x|] == y[0])
            && (y == [] && b == [] ==> |recs| == |a| + |x|)
  {
    assert a + (x + y) + b == (a + x) + (y + b);
    RankIs(a + x, y + b, bound, w);
  }

  /** An exhausted leaf is left behind: its right neighbour is the next one, and the cursor moves there. */
  lemma CrossOver(pages: Store, leaves: seq<nat>, c: nat, bound: int, w: nat)
    requires Cursor(pages, leaves, c, bound, w) && c + 1 < |leaves|
    requires SplitsAt(pages[leaves[c]].slots, |pages[leaves[c]].slots|, bound, w)
    ensures Cursor(pages, leaves, c + 1, bound, w) && SplitsAt(pages[leaves[c + 1]].slots, 0, bound, w)
  {
    var slots, slots' := pages[leaves[c]].slots, pages[leaves[c + 1]].slots;
    assert slots[..|slots|] == slots;
    assert leaves[..c + 1] == leaves[..c] + [leaves[c]];
    RecsConcat(pages, leaves[..c], [leaves[c]]);
    RecsOne(pages, leaves[c]);
    assert leaves[c + 1..] == [leaves[c + 1]] + leaves[c + 2..];
    RecsConcat(pages, [leaves[c + 1]], leaves[c + 2..]);
    RecsOne(pages, leaves[c + 1]);
    assert slots'[0..] == slots';
    assert LiveList(slots'[..0]) == [];
    hide LiveList, KeyOf, AllRecs;
    BelowConcat(AllRecs(pages, leaves[..c]), LiveList(slots), bound, bound, w);
    AtLeastParts(LiveList(slots'), AllRecs(pages, leaves[c + 2..]), bound, w);
  }

  lemma AtLeastParts(a: seq<Record>, b: seq<Record>, bound: int, w: nat)
    requires AllAtLeast(a + b, bound, w)
    ensures AllAtLeast(a, bound, w) && AllAtLeast(b, bound, w)
  {
    hide KeyOf;
    var z: seq<Record> := a + b;
    assert forall i :: 0 <= i < |a| ==> a[i] == z[i];
    assert forall i :: 0 <= i < |b| ==> b[i] == z[|a| + i];
  }

  /** A record has been emitted from leaf c: the bound moves past its key. */
  lemma BoundMoves(pages: Store, root: nat, levels: seq<seq<nat>>, c: nat, s: nat, bound: int, w: nat)
    requires IsTree(pages, root, levels, w) && InStore(pages, levels[0]) && Cursor(pages, levels[0], c, bound, w)
    requires SplitsAt(pages[levels[0][c]].slots, s, bound, w)
    requires s < |pages[levels[0][c]].slots| && pages[levels[0][c]].slots[s].Live?
    ensures var rec := pages[levels[0][c]].slots[s].rec;
            w <= |rec| && bound <= KeyOf(rec, w) && Cursor(pages, levels[0], c, KeyOf(rec, w) + 1, w)
  {
    var leaves := levels[0];
    var slots := pages[leaves[c]].slots;
    assert slots[s..][0] == slots[s];
    LiveSplit(slots, s);
    TreeSorted(pages, root, levels, w);
    RecsAt(pages, leaves, c);
    var a, b := AllRecs(pages, leaves[..c]), AllRecs(pages, leaves[c + 1..]);
    var x, y := LiveList(slots[..s]), LiveList(slots[s..]);
    assert y != [] && y[0] == slots[s].rec;
    hide LiveList, KeyOf, AllRecs, IsTree;
    LastIsAbove(a, x, y, b, bound, w);
  }

  lemma LastIsAbove(a: seq<Record>, x: seq<Record>, y: seq<Record>, b: seq<Record>, bound: int, w: nat)
    requires AllBelow(a, bound, w) && AllAtLeast(y, bound, w) && AllAtLeast(b, bound, w) && y != []
    requires SortedRecs(a + (x + y) + b, w)
    ensures w <= |y[0]| && bound <= KeyOf(y[0], w)
    ensures AllBelow(a, KeyOf(y[0], w) + 1, w) && AllAtLeast(b, KeyOf(y[0], w) + 1, w)
  {
    hide KeyOf;
    var z: seq<Record> := a + (x + y) + b;
    assert z[|a| + |x|] == y[0];
    forall i | 0 <= i < |b|
      ensures KeyOf(y[0], w) + 1 <= KeyOf(b[i], w)
    {
      assert z[|a| + |x| + |y| + i] == b[i];
    }
  }

  lemma SortedAround(recs: seq<Record>, i: nat, w: nat)
    requires SortedRecs(recs, w) && i < |recs|
    ensures AllBelow(recs[..i + 1], KeyOf(recs[i], w) + 1, w) && AllAtLeast(recs[i + 1..], KeyOf(recs[i], w) + 1, w)
  {
    hide KeyOf;
  }

  /** After a record has been emitted the next rank is one further. */
  lemma RankAfter(recs: seq<Record>, bound: int, w: nat)
    requires SortedRecs(recs, w) && Rank(recs, bound, w) < |recs|
    ensures Rank(recs, KeyOf(recs[Rank(recs, bound, w)], w) + 1, w) == Rank(recs, bound, w) + 1
  {
    hide KeyOf, AllBelow, AllAtLeast;
    var i := Rank(recs, bound, w);
    SortedAround(recs, i, w);
    assert recs == recs[..i + 1] + recs[i + 1..];
    RankIs(recs[..i + 1], recs[i + 1..], KeyOf(recs[i], w) + 1, w);
  }

  /** When the scan has come to the end, what it returned is exactly the range. */
  lemma ScanIsRange(recs: seq<Record>, low: int, high: int, bound: int, w: nat)
    requires SortedRecs(recs, w) && low <= bound
    requires var i := Rank(recs, bound, w); i == |recs| || high < KeyOf(recs[i], w)
    requires Rank(recs, low, w) < Rank(recs, bound, w) ==> bound <= high + 1
    ensures Rank(recs, low, w) <= Rank(recs, bound, w)
    ensures InRange(recs, low, high, w) == recs[Rank(recs, low, w)..Rank(recs, bound, w)]
  {
    hide KeyOf, Rank, InRange;
    RankGrows(recs, low, bound, w);
    if low <= high + 1 {
      RangeIsSlice(recs, low, high, w);
      RankSplits(recs, bound, w);
      RankSplits(recs, low, w);
      RankEnds(recs, Rank(recs, bound, w), if Rank(recs, low, w) < Rank(recs, bound, w) then bound else low, high, w);
    } else {
      NoneInRange(recs, low, high, w);
    }
  }

  lemma RankEnds(recs: seq<Record>, i: nat, bound: int, high: int, w: nat)
    requires SortedRecs(recs, w) && i <= |recs| && AllBelow(recs[..i], bound, w) && bound <= high + 1
    requires i == |recs| || high < KeyOf(recs[i], w)
    ensures Rank(recs, high + 1, w) == i
  {
    hide KeyOf, Rank;
    var a: seq<Record>, b: seq<Record> := recs[..i], recs[i..];
    assert recs == a + b;
    RankIs(a, b, high + 1, w);
  }

  // ---- the strict search inside a leaf ------------------------------------------------------------

  /** Live slots below lo are at most the key, those from hi on are above it. */
  ghost predicate Seeking(slots: seq<SlotView>, lo: nat, hi: nat, key: int, w: nat) {
    && SortedRecs(LiveList(slots), w) && lo <= hi <= |slots|
    && (forall i :: 0 <= i < lo && slots[i].Live? ==> w <= |slots[i].rec| && KeyOf(slots[i].rec, w) <= key)
    && (forall i :: hi <= i < |slots| && slots[i].Live? ==> w <= |slots[i].rec| && key < KeyOf(slots[i].rec, w))
  }

  lemma SeekDead(slots: seq<SlotView>, lo: nat, hi: nat, mid: nat, key: int, w: nat)
    requires Seeking(slots, lo, hi, key, w) && lo <= mid <= hi && forall i :: mid <= i < hi ==> slots[i].Dead?
    ensures Seeking(slots, lo, mid, key, w)
  {
    hide KeyOf, LiveList;
  }

  lemma SeekLive(slots: seq<SlotView>, lo: nat, hi: nat, probe: nat, key: int, w: nat)
    requires Seeking(slots, lo, hi, key, w) && lo <= probe < hi && slots[probe].Live?
    ensures w <= |slots[probe].rec|
    ensures KeyOf(slots[probe].rec, w) <= key ==> Seeking(slots, probe + 1, hi, key, w)
    ensures key < KeyOf(slots[probe].rec, w) ==> Seeking(slots, lo, probe, key, w)
  {
    LiveIndex(slots, probe);
    hide KeyOf, LiveList;
    forall i | 0 <= i < |slots| && i != probe && slots[i].Live?
      ensures w <= |slots[i].rec|
      ensures i < probe ==> KeyOf(slots[i].rec, w) < KeyOf(slots[probe].rec, w)
      ensures probe < i ==> KeyOf(slots[probe].rec, w) < KeyOf(slots[i].rec, w)
    {
      if i < probe {
        SortedSlots(slots, w, i, probe);
      } else {
        SortedSlots(slots, w, probe, i);
      }
    }
  }

  lemma SeekDone(slots: seq<SlotView>, lo: nat, key: int, w: nat)
    requires Seeking(slots, lo, lo, key, w)
    ensures SplitsAt(slots, lo, key + 1, w)
  {
    hide KeyOf, LiveList;
    BelowSlots(slots[..lo], key + 1, w);
    AtLeastSlots(slots[lo..], key + 1, w);
  }
}
