/**
 * Well-formed B+ trees: the leaf level, its links, and what routing, inserting and splitting do to the
 * left-to-right list of records.
 */
module Trees {
  import opened Bytes
  import opened Pages
  import opened Levels

  datatype Crumb = Crumb(page: nat, childSlot: int)

  // ---- the leaf level ---------------------------------------------------------------------------

  predicate GoodLeaves(pages: Store, leaves: seq<nat>, w: nat) {
    forall c :: 0 <= c < |leaves| ==> leaves[c] in pages && IsLeaf(pages[leaves[c]], w)
  }

  predicate InStore(pages: Store, ids: seq<nat>) {
    forall c :: 0 <= c < |ids| ==> ids[c] in pages
  }

  /** Every live leaf record, left to right. */
  function AllRecs(pages: Store, leaves: seq<nat>): seq<Record>
    requires InStore(pages, leaves)
  {
    if leaves == [] then [] else LiveList(pages[leaves[0]].slots) + AllRecs(pages, leaves[1..])
  }

  function Neighbour(leaves: seq<nat>, c: int): nat {
    if 0 <= c < |leaves| then leaves[c] else INVALID_PAGE
  }

  /** The right links run through the leaves in order, and the left links are their exact reverse. */
  predicate Chained(pages: Store, leaves: seq<nat>)
    requires InStore(pages, leaves)
  {
    forall c :: 0 <= c < |leaves| ==>
      pages[leaves[c]].right == Neighbour(leaves, c + 1) && pages[leaves[c]].left == Neighbour(leaves, c - 1)
  }

  /** The key lies between the c-th separator and the next one; nothing bounds the leftmost child from below. */
  predicate Covers(f: seq<Pair>, c: nat, key: int) {
    c < |f| && (c > 0 ==> f[c].key <= key) && (c + 1 < |f| ==> key < f[c + 1].key)
  }

  predicate RecsCovered(f: seq<Pair>, c: nat, recs: seq<Record>, w: nat)
    requires Keyed(recs, w)
  {
    forall r :: 0 <= r < |recs| ==> Covers(f, c, KeyOf(recs[r], w))
  }

  /** The separators f name the leaves in order, ascend, and bound the records of each leaf. */
  predicate Separates(pages: Store, leaves: seq<nat>, f: seq<Pair>, w: nat)
    requires GoodLeaves(pages, leaves, w)
  {
    && |f| == |leaves| && Ascending(f)
    && (forall c :: 0 <= c < |f| ==> f[c].child == leaves[c])
    && (forall c :: 0 <= c < |f| ==> RecsCovered(f, c, LiveList(pages[leaves[c]].slots), w))
  }

  predicate LeafLevel(pages: Store, leaves: seq<nat>, f: seq<Pair>, w: nat) {
    && leaves != [] && NoDup(leaves) && GoodLeaves(pages, leaves, w)
    && Chained(pages, leaves) && Separates(pages, leaves, f, w)
  }

  /** The separators of the leaves: level 1's pairs, or nothing to say about a leaf that is the root. */
  function Seps(pages: Store, levels: seq<seq<nat>>, w: nat): seq<Pair>
    requires |levels| > 0
    requires |levels| > 1 ==> GoodLevel(pages, levels[1], w)
  {
    if |levels| == 1 then (if levels[0] == [] then [] else [Pair(0, levels[0][0])]) else Flat(pages, levels[1], w)
  }

  ghost predicate IsTree(pages: Store, root: nat, levels: seq<seq<nat>>, w: nat) {
    && |levels| > 0 && DistinctIds(levels)
    && (if |levels| == 1 then levels[0] == [root] else Upper(pages, root, levels, 1, w))
    && LeafLevel(pages, levels[0], Seps(pages, levels, w), w)
  }

  // ---- lists of leaves ---------------------------------------------------------------------------

  lemma {:induction false} RecsConcat(pages: Store, a: seq<nat>, b: seq<nat>)
    requires InStore(pages, a) && InStore(pages, b)
    ensures AllRecs(pages, a + b) == AllRecs(pages, a) + AllRecs(pages, b)
  {
    if a == [] {
      assert a + b == b;
    } else {
      RecsConcat(pages, a[1..], b);
      assert (a + b)[1..] == a[1..] + b;
    }
  }

  lemma {:induction false} RecsFrame(pages: Store, pages': Store, leaves: seq<nat>)
    requires InStore(pages, leaves) && InStore(pages', leaves)
    requires forall c :: 0 <= c < |leaves| ==> pages'[leaves[c]].slots == pages[leaves[c]].slots
    ensures AllRecs(pages', leaves) == AllRecs(pages, leaves)
  {
    if leaves != [] {
      RecsFrame(pages, pages', leaves[1..]);
    }
  }

  /** The records left of leaf c, in it, and right of it. */
  lemma RecsAt(pages: Store, leaves: seq<nat>, c: nat)
    requires InStore(pages, leaves) && c < |leaves|
    ensures AllRecs(pages, leaves)
         == AllRecs(pages, leaves[..c]) + LiveList(pages[leaves[c]].slots) + AllRecs(pages, leaves[c + 1..])
  {
    var x := [leaves[c]];
    assert leaves == leaves[..c] + x + leaves[c + 1..];
    RecsConcat(pages, leaves[..c] + x, leaves[c + 1..]);
    RecsConcat(pages, leaves[..c], x);
    RecsOne(pages, leaves[c]);
  }

  /** Only leaf c's slots differ. */
  predicate SlotsChanged(pages: Store, pages': Store, leaves: seq<nat>, c: nat) {
    && InStore(pages, leaves) && InStore(pages', leaves) && c < |leaves|
    && (forall i :: 0 <= i < |leaves| && i != c ==> pages'[leaves[i]].slots == pages[leaves[i]].slots)
  }

  lemma RecsReplaced(pages: Store, pages': Store, leaves: seq<nat>, c: nat)
    requires SlotsChanged(pages, pages', leaves, c)
    ensures InStore(pages, leaves[..c]) && InStore(pages, leaves[c + 1..])
    ensures AllRecs(pages', leaves)
         == AllRecs(pages, leaves[..c]) + LiveList(pages'[leaves[c]].slots) + AllRecs(pages, leaves[c + 1..])
  {
    RecsFrame(pages, pages', leaves[..c]);
    RecsFrame(pages, pages', leaves[c + 1..]);
    RecsAt(pages', leaves, c);
  }

  /** Splitting leaf c over itself and a new leaf to its right leaves the list of records as it was. */
  lemma RecsSplit(pages: Store, pages': Store, leaves: seq<nat>, c: nat, id: nat)
    requires SlotsChanged(pages, pages', leaves, c) && id in pages'
    requires LiveList(pages'[leaves[c]].slots) + LiveList(pages'[id].slots) == LiveList(pages[leaves[c]].slots)
    ensures InStore(pages', InsertId(leaves, c, id))
    ensures AllRecs(pages', InsertId(leaves, c, id)) == AllRecs(pages, leaves)
  {
    var a, b := leaves[..c], leaves[c + 1..];
    RecsFrame(pages, pages', a);
    RecsFrame(pages, pages', b);
    RecsAt(pages, leaves, c);
    hide AllRecs, LiveList;
    InsertIdParts(leaves, c, id);
    RecsOne(pages', leaves[c]);
    RecsOne(pages', id);
    RecsConcat(pages', a, [leaves[c]]);
    RecsConcat(pages', a + [leaves[c]], [id]);
    RecsConcat(pages', a + [leaves[c]] + [id], b);
    Regroup(AllRecs(pages, a), LiveList(pages'[leaves[c]].slots), LiveList(pages'[id].slots), AllRecs(pages, b));
  }

  lemma RecsOne(pages: Store, x: nat)
    requires x in pages
    ensures AllRecs(pages, [x]) == LiveList(pages[x].slots)
  {
    assert [x][1..] == [];
  }

  // ---- order --------------------------------------------------------------------------------------

  lemma CoversUnique(f: seq<Pair>, c: nat, c': nat, key: int)
    requires Ascending(f) && Covers(f, c, key) && Covers(f, c', key)
    ensures c == c'
  {
  }

  /** The child a key belongs to: the last one whose separator is not above it, or the first. */
  function FloorIn(f: seq<Pair>, key: int): nat {
    if |f| <= 1 || key < f[1].key then 0 else 1 + FloorIn(f[1..], key)
  }

  /** Every key belongs to exactly one child. */
  lemma {:induction false} FloorInCovers(f: seq<Pair>, key: int)
    requires Ascending(f) && f != []
    ensures Covers(f, FloorIn(f, key), key)
    ensures forall c :: Covers(f, c, key) ==> c == FloorIn(f, key)
  {
    if |f| > 1 && f[1].key <= key {
      FloorInCovers(f[1..], key);
      var c := FloorIn(f[1..], key);
      assert f[1..][c] == f[c + 1];
      assert c + 1 < |f[1..]| ==> f[1..][c + 1] == f[c + 2];
    }
    forall c | Covers(f, c, key)
      ensures c == FloorIn(f, key)
    {
      CoversUnique(f, c, FloorIn(f, key), key);
    }
  }

  predicate AllBelow(recs: seq<Record>, key: int, w: nat) {
    Keyed(recs, w) && forall r :: 0 <= r < |recs| ==> KeyOf(recs[r], w) < key
  }

  predicate AllAtLeast(recs: seq<Record>, key: int, w: nat) {
    Keyed(recs, w) && forall r :: 0 <= r < |recs| ==> key <= KeyOf(recs[r], w)
  }

  /** Separators in ascending order: the leaves before a position hold only smaller keys. */
  lemma {:induction false} LeftOfSeparator(pages: Store, leaves: seq<nat>, f: seq<Pair>, n: nat, key: int, w: nat)
    requires GoodLeaves(pages, leaves, w) && Separates(pages, leaves, f, w)
    requires n < |leaves| && f[n].key <= key
    ensures InStore(pages, leaves[..n]) && AllBelow(AllRecs(pages, leaves[..n]), key, w)
  {
    if n > 0 {
      SeparatorsAscend(pages, leaves, f, n - 1, w);
      hide GoodLeaves, Separates, AllBelow, AllRecs, InStore;
      LeftOfSeparator(pages, leaves, f, n - 1, f[n - 1].key, w);
      LeafBelow(pages, leaves, f, n - 1, key, w);
      LeftGrows(pages, leaves, n, f[n - 1].key, key, w);
    }
  }

  lemma SeparatorsAscend(pages: Store, leaves: seq<nat>, f: seq<Pair>, c: nat, w: nat)
    requires GoodLeaves(pages, leaves, w) && Separates(pages, leaves, f, w) && c + 1 < |leaves|
    ensures |f| == |leaves| && f[c].key < f[c + 1].key
  {
  }

  lemma LeftGrows(pages: Store, leaves: seq<nat>, n: nat, low: int, key: int, w: nat)
    requires 0 < n <= |leaves| && InStore(pages, leaves[..n - 1]) && leaves[n - 1] in pages && low <= key
    requires AllBelow(AllRecs(pages, leaves[..n - 1]), low, w) && AllBelow(LiveList(pages[leaves[n - 1]].slots), key, w)
    ensures InStore(pages, leaves[..n]) && AllBelow(AllRecs(pages, leaves[..n]), key, w)
  {
    hide AllRecs, LiveList, AllBelow;
    assert leaves[..n] == leaves[..n - 1] + [leaves[n - 1]];
    RecsConcat(pages, leaves[..n - 1], [leaves[n - 1]]);
    RecsOne(pages, leaves[n - 1]);
    BelowConcat(AllRecs(pages, leaves[..n - 1]), LiveList(pages[leaves[n - 1]].slots), low, key, w);
  }

  lemma LeafBelow(pages: Store, leaves: seq<nat>, f: seq<Pair>, c: nat, key: int, w: nat)
    requires GoodLeaves(pages, leaves, w) && Separates(pages, leaves, f, w)
    requires c + 1 < |leaves| && f[c + 1].key <= key
    ensures leaves[c] in pages && AllBelow(LiveList(pages[leaves[c]].slots), key, w)
  {
    CoveredBelow(f, c, LiveList(pages[leaves[c]].slots), key, w);
  }

  lemma CoveredBelow(f: seq<Pair>, c: nat, recs: seq<Record>, key: int, w: nat)
    requires SortedRecs(recs, w) && RecsCovered(f, c, recs, w) && c + 1 < |f| && f[c + 1].key <= key
    ensures AllBelow(recs, key, w)
  {
    hide KeyOf;
    assert forall r :: 0 <= r < |recs| ==> Covers(f, c, KeyOf(recs[r], w));
  }

  lemma BelowConcat(a: seq<Record>, b: seq<Record>, low: int, high: int, w: nat)
    requires AllBelow(a, low, w) && AllBelow(b, high, w) && low <= high
    ensures AllBelow(a + b, high, w)
  {
  }

  lemma {:induction false} RightOfSeparator(pages: Store, leaves: seq<nat>, f: seq<Pair>, n: nat, w: nat)
    requires GoodLeaves(pages, leaves, w) && Separates(pages, leaves, f, w)
    requires 0 < n <= |leaves|
    ensures InStore(pages, leaves[n..])
    ensures n < |leaves| ==> AllAtLeast(AllRecs(pages, leaves[n..]), f[n].key, w)
    ensures n == |leaves| ==> AllRecs(pages, leaves[n..]) == []
    decreases |leaves| - n
  {
    if n < |leaves| {
      RightOfSeparator(pages, leaves, f, n + 1, w);
      assert n + 1 < |leaves| ==> f[n].key < f[n + 1].key;
      var first := LiveList(pages[leaves[n]].slots);
      assert RecsCovered(f, n, first, w);
      assert leaves[n..] == [leaves[n]] + leaves[n + 1..];
      assert leaves[n..][1..] == leaves[n + 1..];
      var b := AllRecs(pages, leaves[n + 1..]);
      var all: seq<Record> := first + b;
      forall r: nat | r < |all|
        ensures w <= |all[r]| && f[n].key <= KeyOf(all[r], w)
      {
        if r < |first| {
          assert Covers(f, n, KeyOf(first[r], w));
        }
      }
    }
  }

  /** A key covered by leaf c is above every record further left and below every record further right. */
  lemma AroundLeaf(pages: Store, leaves: seq<nat>, f: seq<Pair>, c: nat, key: int, w: nat)
    requires GoodLeaves(pages, leaves, w) && Separates(pages, leaves, f, w) && Covers(f, c, key)
    ensures InStore(pages, leaves[..c]) && InStore(pages, leaves[c + 1..])
    ensures AllBelow(AllRecs(pages, leaves[..c]), key, w)
    ensures AllAtLeast(AllRecs(pages, leaves[c + 1..]), key + 1, w)
  {
    if c > 0 {
      LeftOfSeparator(pages, leaves, f, c, key, w);
    }
    RightOfSeparator(pages, leaves, f, c + 1, w);
  }

  /** All records of a well-formed leaf level are in strictly ascending key order. */
  lemma {:induction false} RecsSorted(pages: Store, leaves: seq<nat>, f: seq<Pair>, n: nat, w: nat)
    requires GoodLeaves(pages, leaves, w) && Separates(pages, leaves, f, w) && n <= |leaves|
    ensures InStore(pages, leaves[n..]) && SortedRecs(AllRecs(pages, leaves[n..]), w)
    decreases |leaves| - n
  {
    if n < |leaves| {
      RecsSorted(pages, leaves, f, n + 1, w);
      RightOfSeparator(pages, leaves, f, n + 1, w);
      assert leaves[n..][1..] == leaves[n + 1..];
      var first, b := LiveList(pages[leaves[n]].slots), AllRecs(pages, leaves[n + 1..]);
      assert RecsCovered(f, n, first, w);
      forall i, j | 0 <= i < |first| && 0 <= j < |b|
        ensures KeyOf(first[i], w) < KeyOf(b[j], w)
      {
        assert Covers(f, n, KeyOf(first[i], w));
      }
      SortedConcat(first, b, w);
    }
  }

  lemma SortedConcat(a: seq<Record>, b: seq<Record>, w: nat)
    requires SortedRecs(a, w) && SortedRecs(b, w)
    requires forall i, j :: 0 <= i < |a| && 0 <= j < |b| ==> KeyOf(a[i], w) < KeyOf(b[j], w)
    ensures SortedRecs(a + b, w)
  {
  }

  // ---- the sorted list of records -----------------------------------------------------------------

  /** How many leading records have smaller keys. */
  function Rank(recs: seq<Record>, key: int, w: nat): (n: nat)
    requires Keyed(recs, w)
    ensures n <= |recs|
  {
    if recs == [] || key <= KeyOf(recs[0], w) then 0 else 1 + Rank(recs[1..], key, w)
  }

  /** The list with a record put at its sorted place. */
  function Put(recs: seq<Record>, rec: Record, w: nat): seq<Record>
    requires Keyed(recs, w) && w <= |rec|
  {
    var n := Rank(recs, KeyOf(rec, w), w);
    recs[..n] + [rec] + recs[n..]
  }

  predicate HasKey(recs: seq<Record>, key: int, w: nat)
    requires Keyed(recs, w)
  {
    exists i :: 0 <= i < |recs| && KeyOf(recs[i], w) == key
  }

  /** The record with the key, or the empty record. */
  function Find(recs: seq<Record>, key: int, w: nat): Record
    requires Keyed(recs, w)
  {
    var n := Rank(recs, key, w);
    if n < |recs| && KeyOf(recs[n], w) == key then recs[n] else []
  }

  function Without(recs: seq<Record>, key: int, w: nat): seq<Record>
    requires Keyed(recs, w)
  {
    var n := Rank(recs, key, w);
    if n < |recs| && KeyOf(recs[n], w) == key then recs[..n] + recs[n + 1..] else recs
  }

  lemma {:induction false} RankIs(a: seq<Record>, b: seq<Record>, key: int, w: nat)
    requires AllBelow(a, key, w) && AllAtLeast(b, key, w)
    ensures Keyed(a + b, w) && Rank(a + b, key, w) == |a|
  {
    if a == [] {
      assert a + b == b;
    } else {
      assert AllBelow(a[1..], key, w);
      RankIs(a[1..], b, key, w);
      assert (a + b)[1..] == a[1..] + b;
    }
  }

  /** The rank splits a sorted list into smaller keys and the others. */
  lemma {:induction false} RankSplits(recs: seq<Record>, key: int, w: nat)
    requires SortedRecs(recs, w)
    ensures var n := Rank(recs, key, w);
            AllBelow(recs[..n], key, w) && AllAtLeast(recs[n..], key, w)
  {
    if recs == [] || key <= KeyOf(recs[0], w) {
      assert recs[0..] == recs;
    } else {
      hide KeyOf;
      assert SortedRecs(recs[1..], w);
      RankSplits(recs[1..], key, w);
      var n := Rank(recs, key, w);
      assert recs[..n] == [recs[0]] + recs[1..][..n - 1];
      assert recs[n..] == recs[1..][n - 1..];
      hide Rank, SortedRecs;
      BelowAfter(recs[0], recs[1..][..n - 1], key, w);
    }
  }

  lemma BelowAfter(r: Record, a: seq<Record>, key: int, w: nat)
    requires w <= |r| && KeyOf(r, w) < key && AllBelow(a, key, w)
    ensures AllBelow([r] + a, key, w)
  {
  }

  /** In a sorted list the record at the rank is the only one that can have the key. */
  lemma RankFinds(recs: seq<Record>, key: int, w: nat)
    requires SortedRecs(recs, w)
    ensures var n := Rank(recs, key, w);
            && AllBelow(recs[..n], key, w) && AllAtLeast(recs[n..], key, w)
            && (HasKey(recs, key, w) <==> n < |recs| && KeyOf(recs[n], w) == key)
  {
    hide KeyOf, Rank;
    RankSplits(recs, key, w);
    var n := Rank(recs, key, w);
    var a: seq<Record>, b: seq<Record> := recs[..n], recs[n..];
    assert forall r :: 0 <= r < n ==> recs[r] == a[r];
    assert forall r :: n <= r < |recs| ==> recs[r] == b[r - n];
  }

  /** Putting keeps the list sorted exactly when the key is new. */
  lemma PutSorted(recs: seq<Record>, rec: Record, w: nat)
    requires SortedRecs(recs, w) && w <= |rec|
    ensures SortedRecs(Put(recs, rec, w), w) <==> !HasKey(recs, KeyOf(rec, w), w)
  {
    var key := KeyOf(rec, w);
    var n := Rank(recs, key, w);
    RankFinds(recs, key, w);
    var p := Put(recs, rec, w);
    if HasKey(recs, key, w) {
      assert p[n] == rec && p[n + 1] == recs[n];
    } else {
      forall i, j | 0 <= i < j < |p|
        ensures KeyOf(p[i], w) < KeyOf(p[j], w)
      {
        var a: seq<Record>, b: seq<Record> := recs[..n], recs[n..];
        assert p[i] == if i < n then a[i] else if i == n then rec else b[i - n - 1];
        assert p[j] == if j < n then a[j] else if j == n then rec else b[j - n - 1];
        assert n < |recs| ==> b[0] == recs[n];
      }
    }
  }

  // ---- slots and records of one leaf ----------------------------------------------------------------

  /**
   * Slot l is where `key` belongs: smaller live keys before it, none from it on, and no tombstone on it if
   * avoidable.
   */
  ghost predicate LowerPos(slots: seq<SlotView>, l: nat, key: int, w: nat) {
    && l <= |slots|
    && AllBelow(LiveList(slots[..l]), key, w) && AllAtLeast(LiveList(slots[l..]), key, w)
    && (LiveList(slots[l..]) != [] ==> l < |slots| && slots[l].Live?)
  }

  /** The slot a scan from the left stops at: the first live one with a key not below the target. */
  function LinearScan(slots: seq<SlotView>, key: int, w: nat): (n: nat)
    requires Keyed(LiveList(slots), w)
    ensures n <= |slots|
  {
    if slots == [] then 0
    else
      KeyedTail(slots, w);
      if slots[0].Live? && key <= KeyOf(slots[0].rec, w) then 0 else 1 + LinearScan(slots[1..], key, w)
  }

  lemma KeyedTail(slots: seq<SlotView>, w: nat)
    requires Keyed(LiveList(slots), w) && slots != []
    ensures Keyed(LiveList(slots[1..]), w)
    ensures slots[0].Live? ==> w <= |slots[0].rec|
  {
    var a := if slots[0].Live? then [slots[0].rec] else [];
    assert LiveList(slots) == a + LiveList(slots[1..]);
    assert slots[0].Live? ==> LiveList(slots)[0] == slots[0].rec;
    assert forall i :: 0 <= i < |LiveList(slots[1..])| ==> LiveList(slots[1..])[i] == LiveList(slots)[i + |a|];
  }

  /** The binary search's slot is the linear scan's slot whenever some live key is not below the target. */
  lemma {:induction false} LowerPosIsScan(slots: seq<SlotView>, l: nat, key: int, w: nat)
    requires LowerPos(slots, l, key, w) && Keyed(LiveList(slots), w) && LiveList(slots[l..]) != []
    ensures LinearScan(slots, key, w) == l
  {
    if l == 0 {
      assert slots[0..] == slots;
      assert LiveList(slots)[0] == slots[0].rec;
    } else {
      KeyedTail(slots, w);
      var a := slots[..l];
      assert a[1..] == slots[1..][..l - 1] && slots[l..] == slots[1..][l - 1..];
      if slots[0].Live? {
        assert LiveList(a) == [slots[0].rec] + LiveList(a[1..]);
        assert forall i :: 0 <= i < |LiveList(a[1..])| ==> LiveList(a[1..])[i] == LiveList(a)[i + 1];
        assert LiveList(a)[0] == slots[0].rec;
      } else {
        assert LiveList(a) == LiveList(a[1..]);
      }
      LowerPosIsScan(slots[1..], l - 1, key, w);
    }
  }

  lemma LiveIndex(slots: seq<SlotView>, i: nat)
    requires i < |slots| && slots[i].Live?
    ensures var n := |LiveList(slots[..i])|;
            n < |LiveList(slots)| && LiveList(slots)[n] == slots[i].rec && |LiveList(slots[..i + 1])| == n + 1
  {
    var a, b := slots[..i], slots[i + 1..];
    assert slots == (a + [slots[i]]) + b && slots[..i + 1] == a + [slots[i]];
    LiveConcat(a + [slots[i]], b);
    LiveConcat(a, [slots[i]]);
  }

  /** Slots of a sorted leaf are in key order, tombstones apart. */
  lemma SortedSlots(slots: seq<SlotView>, w: nat, i: nat, j: nat)
    requires SortedRecs(LiveList(slots), w) && i < j < |slots| && slots[i].Live? && slots[j].Live?
    ensures w <= |slots[i].rec| && w <= |slots[j].rec| && KeyOf(slots[i].rec, w) < KeyOf(slots[j].rec, w)
  {
    LiveIndex(slots, i);
    LiveIndex(slots, j);
    assert slots[..j] == slots[..i + 1] + slots[i + 1..j];
    LiveConcat(slots[..i + 1], slots[i + 1..j]);
  }

  lemma BelowSlots(slots: seq<SlotView>, key: int, w: nat)
    requires forall i :: 0 <= i < |slots| && slots[i].Live? ==> w <= |slots[i].rec| && KeyOf(slots[i].rec, w) < key
    ensures AllBelow(LiveList(slots), key, w)
  {
    LiveMembers(slots);
    forall r | 0 <= r < |LiveList(slots)|
      ensures w <= |LiveList(slots)[r]| && KeyOf(LiveList(slots)[r], w) < key
    {
      assert LiveList(slots)[r] in LiveList(slots);
    }
  }

  lemma AtLeastSlots(slots: seq<SlotView>, key: int, w: nat)
    requires forall i :: 0 <= i < |slots| && slots[i].Live? ==> w <= |slots[i].rec| && key <= KeyOf(slots[i].rec, w)
    ensures AllAtLeast(LiveList(slots), key, w)
  {
    LiveMembers(slots);
    forall r | 0 <= r < |LiveList(slots)|
      ensures w <= |LiveList(slots)[r]| && key <= KeyOf(LiveList(slots)[r], w)
    {
      assert LiveList(slots)[r] in LiveList(slots);
    }
  }

  // ---- routing ----------------------------------------------------------------------------------------

  /** The key belongs under page i of level t, as far as level t + 1 can tell. */
  ghost predicate CoversAt(pages: Store, levels: seq<seq<nat>>, t: nat, i: nat, key: int, w: nat) {
    && t < |levels| && i < |levels[t]|
    && (t + 1 < |levels| ==>
          GoodLevel(pages, levels[t + 1], w) && Covers(Flat(pages, levels[t + 1], w), i, key))
  }

  /** `stack` lists the ancestors of page i of level k, root first, with the slot taken in each. */
  ghost predicate PathOk(pages: Store, levels: seq<seq<nat>>, stack: seq<Crumb>, k: nat, i: nat, w: nat)
    decreases |levels| - k
  {
    if k + 1 >= |levels| then stack == []
    else
      && GoodLevel(pages, levels[k + 1], w) && i < |Flat(pages, levels[k + 1], w)|
      && stack != []
      && var q := Owner(pages, levels[k + 1], i, w);
         && stack[|stack| - 1] == Crumb(levels[k + 1][q], 2 * (i - Off(pages, levels[k + 1], q, w)) + 1)
         && PathOk(pages, levels, stack[..|stack| - 1], k + 1, q, w)
  }

  lemma {:induction false} PathLength(pages: Store, levels: seq<seq<nat>>, stack: seq<Crumb>, k: nat, i: nat, w: nat)
    requires PathOk(pages, levels, stack, k, i, w) && k < |levels|
    ensures |stack| == |levels| - 1 - k
    decreases |levels| - k
  {
    if k + 1 < |levels| {
      PathLength(pages, levels, stack[..|stack| - 1], k + 1, Owner(pages, levels[k + 1], i, w), w);
    }
  }

  /** A path only depends on the pages above it. */
  lemma {:induction false} PathFrame(pages: Store, pages': Store, levels: seq<seq<nat>>, levels': seq<seq<nat>>,
                                     stack: seq<Crumb>, k: nat, i: nat, w: nat)
    requires PathOk(pages, levels, stack, k, i, w) && |levels'| == |levels|
    requires forall t :: k < t < |levels| ==> levels'[t] == levels[t]
    requires forall t, c :: k < t < |levels| && 0 <= c < |levels[t]| ==>
               levels[t][c] in pages ==> levels[t][c] in pages' && pages'[levels[t][c]] == pages[levels[t][c]]
    ensures PathOk(pages', levels', stack, k, i, w)
    decreases |levels| - k
  {
    if k + 1 < |levels| {
      var level := levels[k + 1];
      var q := Owner(pages, level, i, w);
      OwnerFrame(pages, pages', level, i, w);
      hide Owner, Off, Flat, GoodLevel;
      PathFrame(pages, pages', levels, levels', stack[..|stack| - 1], k + 1, q, w);
    }
  }

  lemma OwnerFrame(pages: Store, pages': Store, level: seq<nat>, i: nat, w: nat)
    requires GoodLevel(pages, level, w) && i < |Flat(pages, level, w)|
    requires forall c :: 0 <= c < |level| ==> level[c] in pages' && pages'[level[c]] == pages[level[c]]
    ensures GoodLevel(pages', level, w) && Flat(pages', level, w) == Flat(pages, level, w)
    ensures Owner(pages', level, i, w) == Owner(pages, level, i, w)
    ensures var q := Owner(pages, level, i, w); Off(pages', level, q, w) == Off(pages, level, q, w)
  {
    FlatFrame(pages, pages', level, w);
    var q := Owner(pages, level, i, w);
    OwnerIs(pages, level, i, w);
    FlatFrame(pages, pages', level[..q], w);
    OwnerUnique(pages', level, q, i - Off(pages, level, q, w), w);
  }

  /** What an upper-bound search on a page's keys returns. */
  predicate UpperPos(f: seq<Pair>, lo: nat, key: int) {
    && lo <= |f|
    && (forall i :: 0 <= i < lo ==> f[i].key <= key)
    && (forall i :: lo <= i < |f| ==> key < f[i].key)
  }

  function FloorOf(lo: nat): nat { if lo > 0 then lo - 1 else 0 }

  lemma UpperAt(pages: Store, root: nat, levels: seq<seq<nat>>, t: nat, w: nat)
    requires Upper(pages, root, levels, 1, w) && 1 <= t < |levels|
    ensures GoodLevel(pages, levels[t], w) && Ascending(Flat(pages, levels[t], w))
    ensures t + 1 < |levels| ==> GoodLevel(pages, levels[t + 1], w)
                                 && Flat(pages, levels[t + 1], w) == Heads(pages, levels[t], w)
    ensures t + 1 == |levels| ==> levels[t] == [root]
  {
  }

  /** Pair j of page i is the level's only pair whose child can hold the key. */
  ghost predicate Routes(pages: Store, level: seq<nat>, i: nat, j: nat, key: int, w: nat) {
    && GoodLevel(pages, level, w) && i < |level| && j < |Pairs(pages[level[i]], w)|
    && var c := Off(pages, level, i, w) + j;
       && Covers(Flat(pages, level, w), c, key)
       && Owner(pages, level, c, w) == i
       && Flat(pages, level, w)[c] == Pairs(pages[level[i]], w)[j]
  }

  /** One step of the descent: the floor of the upper bound leads to the only child that can hold the key. */
  lemma RouteStep(pages: Store, root: nat, levels: seq<seq<nat>>, t: nat, i: nat, lo: nat, key: int, w: nat)
    requires Upper(pages, root, levels, 1, w) && 1 <= t < |levels|
    requires CoversAt(pages, levels, t, i, key, w)
    requires levels[t][i] in pages && IsInternal(pages[levels[t][i]], w)
    requires UpperPos(Pairs(pages[levels[t][i]], w), lo, key)
    ensures Routes(pages, levels[t], i, FloorOf(lo), key, w)
  {
    UpperAt(pages, root, levels, t, w);
    hide Upper, Ascending, Heads, Routes;
    RouteInLevel(pages, levels[t], i, lo, key, w);
  }

  lemma RouteInLevel(pages: Store, level: seq<nat>, i: nat, lo: nat, key: int, w: nat)
    requires GoodLevel(pages, level, w) && i < |level| && Ascending(Flat(pages, level, w))
    requires |level| == 1 || Covers(Heads(pages, level, w), i, key)
    requires UpperPos(Pairs(pages[level[i]], w), lo, key)
    ensures Routes(pages, level, i, FloorOf(lo), key, w)
  {
    hide Flat, Off, Pairs, Heads, Owner, Ascending, UpperPos, IsInternal;
    PageInFlat(pages, level, i, w);
    PageBounds(pages, level, i, key, w);
    FloorCovers(Flat(pages, level, w), Pairs(pages[level[i]], w), Off(pages, level, i, w), lo, key);
    OwnerUnique(pages, level, i, FloorOf(lo), w);
  }

  /** Seen from its own level, the key lies between the page's first key and the next page's. */
  lemma PageBounds(pages: Store, level: seq<nat>, i: nat, key: int, w: nat)
    requires GoodLevel(pages, level, w) && i < |level|
    requires |level| == 1 || Covers(Heads(pages, level, w), i, key)
    ensures var f, off, n := Flat(pages, level, w), Off(pages, level, i, w), |Pairs(pages[level[i]], w)|;
            && off + n <= |f|
            && (off > 0 ==> f[off].key <= key) && (off + n < |f| ==> key < f[off + n].key)
  {
    hide Flat, Off, Pairs, Heads, GoodLevel;
    HeadsAt(pages, level, i, w);
    PageInFlat(pages, level, i, w);
    if i + 1 < |level| {
      HeadsAt(pages, level, i + 1, w);
    }
  }

  lemma FloorCovers(f: seq<Pair>, p: seq<Pair>, off: nat, lo: nat, key: int)
    requires Ascending(f) && off + |p| <= |f| && |p| > 0
    requires forall x :: 0 <= x < |p| ==> f[off + x] == p[x]
    requires UpperPos(p, lo, key)
    requires (off > 0 ==> f[off].key <= key) && (off + |p| < |f| ==> key < f[off + |p|].key)
    ensures FloorOf(lo) < |p| && Covers(f, off + FloorOf(lo), key)
  {
    assert f[off + 0] == p[0];
    if lo == 0 {
      assert off == 0;
    } else {
      assert f[off + (lo - 1)] == p[lo - 1];
      assert lo < |p| ==> f[off + lo] == p[lo];
    }
  }

  /** Page i's pairs sit together in the level's list, followed by the next page's. */
  lemma PageInFlat(pages: Store, level: seq<nat>, i: nat, w: nat)
    requires GoodLevel(pages, level, w) && i < |level|
    ensures var f, p, off := Flat(pages, level, w), Pairs(pages[level[i]], w), Off(pages, level, i, w);
            && |p| > 0 && off + |p| <= |f| && (forall x :: 0 <= x < |p| ==> f[off + x] == p[x])
            && (i == 0 ==> off == 0)
            && (i + 1 == |level| ==> off + |p| == |f|)
            && (i + 1 < |level| ==> Off(pages, level, i + 1, w) == off + |p|)
  {
    FlatAt(pages, level, i, w);
    OffNext(pages, level, i, w);
  }

  lemma OffNext(pages: Store, level: seq<nat>, i: nat, w: nat)
    requires GoodLevel(pages, level, w) && i < |level|
    ensures Off(pages, level, i + 1, w) == Off(pages, level, i, w) + |Pairs(pages[level[i]], w)|
    ensures i == 0 ==> Off(pages, level, i, w) == 0
    ensures i + 1 == |level| ==> Off(pages, level, i + 1, w) == |Flat(pages, level, w)|
  {
    assert level[..i + 1] == level[..i] + [level[i]];
    FlatConcat(pages, level[..i], [level[i]], w);
    FlatOne(pages, level[i], w);
    if i + 1 == |level| {
      assert level[..i + 1] == level;
    }
  }

  /** A page's own first key is its entry in the level above. */
  lemma HeadsAt(pages: Store, level: seq<nat>, i: nat, w: nat)
    requires GoodLevel(pages, level, w) && i < |level|
    ensures Off(pages, level, i, w) < |Flat(pages, level, w)|
    ensures Heads(pages, level, w)[i].key == Flat(pages, level, w)[Off(pages, level, i, w)].key
    ensures Heads(pages, level, w)[i].child == level[i] && |Heads(pages, level, w)| == |level|
  {
    OwnerUnique(pages, level, i, 0, w);
  }
}