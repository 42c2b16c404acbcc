/**
 * A B+ tree over slotted pages, described level by level: level 0 lists the leaves from left to right,
 * and each level above lists the internal pages whose (key, child) pairs, read in order, name the pages
 * of the level below. The last level is the root alone.
 */
module Levels {
  import opened Bytes
  import opened Pages
  import Numeric

  type Store = map<nat, Page>

  const ID_SIZE: nat := 4

  datatype Pair = Pair(key: int, child: nat)

  // ---- pages ----------------------------------------------------------------------------------

  /** The key a record or a separator starts with. */
  function KeyOf(rec: Record, w: nat): int
    requires w <= |rec|
  {
    Numeric.Deserialize(rec, w)
  }

  /** A record that starts with a written number has that number as its key if and only if the number fits. */
  lemma KeyOfWritten(v: int, w: nat, rest: seq<Byte>)
    requires w > 0
    ensures w <= |Numeric.Serialize(v, w) + rest|
    ensures KeyOf(Numeric.Serialize(v, w) + rest, w) == v <==> Numeric.FitsWidth(v, w)
  {
    Numeric.RoundTrip(v, w, rest);
  }

  /** Keys are signed: the last byte of the key counts as negative from 128 on. */
  lemma KeyOfBytes(rec: Record, w: nat)
    requires 0 < w <= |rec|
    ensures w == 1 ==> KeyOf(rec, w) == if rec[0] < 128 then rec[0] as int else (rec[0] as int) - 256
    ensures w > 1 ==> KeyOf(rec, w) == (rec[0] as int) + 256 * KeyOf(rec[1..], w - 1)
  {
    Numeric.DeserializeIs(rec, w);
  }

  /** Key slots of w bytes alternate with page-id slots of 4 bytes; no tombstones. */
  predicate IsInternal(p: Page, w: nat) {
    && p.kind == Internal && Valid(p)
    && |p.slots| > 0 && |p.slots| % 2 == 0
    && (forall i :: 0 <= i < |p.slots| ==> p.slots[i].Live? && |p.slots[i].rec| == if i % 2 == 0 then w else ID_SIZE)
  }

  function PairAt(p: Page, w: nat, j: nat): Pair
    requires IsInternal(p, w) && j < |p.slots| / 2
  {
    Pair(KeyOf(p.slots[2 * j].rec, w), U32(p.slots[2 * j + 1].rec, 0))
  }

  function Pairs(p: Page, w: nat): (r: seq<Pair>)
    requires IsInternal(p, w)
    ensures |r| == |p.slots| / 2 > 0
    ensures forall j :: 0 <= j < |r| ==> r[j] == PairAt(p, w, j)
  {
    seq(|p.slots| / 2, j requires 0 <= j < |p.slots| / 2 => PairAt(p, w, j))
  }

  /** Pair j takes slots 2j and 2j + 1: the key, and the child's page id in four bytes, low byte first. */
  lemma PairBytesAre(p: Page, w: nat, j: nat)
    requires 0 < w && IsInternal(p, w) && 2 * j + 1 < |p.slots|
    ensures p.slots[2 * j].Live? && p.slots[2 * j + 1].Live? && j < |Pairs(p, w)|
    ensures var key, id := p.slots[2 * j].rec, p.slots[2 * j + 1].rec;
            && |key| == w && Pairs(p, w)[j].key == KeyOf(key, w) && |id| == 4
            && Pairs(p, w)[j].child == (id[0] as int) + 0x100 * (id[1] as int) + 0x1_0000 * (id[2] as int)
                                     + 0x100_0000 * (id[3] as int)
  {
    hide KeyOf, Valid;
    assert Pairs(p, w)[j] == PairAt(p, w, j);
  }

  predicate Ascending(f: seq<Pair>) {
    forall i, j :: 0 <= i < j < |f| ==> f[i].key < f[j].key
  }

  predicate Keyed(recs: seq<Record>, w: nat) {
    forall i :: 0 <= i < |recs| ==> w <= |recs[i]|
  }

  predicate SortedRecs(recs: seq<Record>, w: nat) {
    && Keyed(recs, w)
    && (forall i, j :: 0 <= i < j < |recs| ==> KeyOf(recs[i], w) < KeyOf(recs[j], w))
  }

  predicate IsLeaf(p: Page, w: nat) {
    p.kind == Leaf && Valid(p) && SortedRecs(LiveList(p.slots), w)
  }

  // ---- levels ---------------------------------------------------------------------------------

  predicate GoodLevel(pages: Store, level: seq<nat>, w: nat) {
    forall i :: 0 <= i < |level| ==> level[i] in pages && IsInternal(pages[level[i]], w)
  }

  /** The (key, child) pairs of a level, left to right. */
  function Flat(pages: Store, level: seq<nat>, w: nat): seq<Pair>
    requires GoodLevel(pages, level, w)
  {
    if level == [] then [] else Pairs(pages[level[0]], w) + Flat(pages, level[1..], w)
  }

  /** What the level above must say about this one: each page under its own first key. */
  function Heads(pages: Store, level: seq<nat>, w: nat): (r: seq<Pair>)
    requires GoodLevel(pages, level, w)
    ensures |r| == |level|
    ensures forall i :: 0 <= i < |r| ==> r[i] == Pair(PairAt(pages[level[i]], w, 0).key, level[i])
  {
    seq(|level|, i requires 0 <= i < |level| => Pair(PairAt(pages[level[i]], w, 0).key, level[i]))
  }

  predicate DistinctIds(levels: seq<seq<nat>>) {
    && (forall t :: 0 <= t < |levels| ==> NoDup(levels[t]))
    && (forall t, u, i, j :: 0 <= t < u < |levels| && 0 <= i < |levels[t]| && 0 <= j < |levels[u]| ==>
        levels[t][i] != levels[u][j])
  }

  /** Levels k and up are well-formed, correctly linked, and end in the root. */
  predicate Upper(pages: Store, root: nat, levels: seq<seq<nat>>, k: nat, w: nat) {
    && 0 < k < |levels| && levels[|levels| - 1] == [root]
    && (forall t :: k <= t < |levels| ==> GoodLevel(pages, levels[t], w) && Ascending(Flat(pages, levels[t], w)))
    && (forall t :: k < t < |levels| ==> Flat(pages, levels[t], w) == Heads(pages, levels[t - 1], w))
  }

  lemma {:induction false} FlatConcat(pages: Store, a: seq<nat>, b: seq<nat>, w: nat)
    requires GoodLevel(pages, a, w) && GoodLevel(pages, b, w)
    ensures GoodLevel(pages, a + b, w)
    ensures Flat(pages, a + b, w) == Flat(pages, a, w) + Flat(pages, b, w)
  {
    if a == [] {
      assert a + b == b;
    } else {
      FlatConcat(pages, a[1..], b, w);
      assert (a + b)[1..] == a[1..] + b;
    }
  }

  lemma {:induction false} FlatFrame(pages: Store, pages': Store, level: seq<nat>, w: nat)
    requires GoodLevel(pages, level, w)
    requires forall i :: 0 <= i < |level| ==> level[i] in pages' && pages'[level[i]] == pages[level[i]]
    ensures GoodLevel(pages', level, w) && Flat(pages', level, w) == Flat(pages, level, w)
    ensures Heads(pages', level, w) == Heads(pages, level, w)
  {
    if level != [] {
      FlatFrame(pages, pages', level[1..], w);
    }
  }

  lemma FlatAt(pages: Store, level: seq<nat>, q: nat, w: nat)
    requires GoodLevel(pages, level, w) && q < |level|
    ensures Flat(pages, level, w)
         == Flat(pages, level[..q], w) + Pairs(pages[level[q]], w) + Flat(pages, level[q + 1..], w)
  {
    var x := [level[q]];
    assert level == level[..q] + x + level[q + 1..];
    FlatConcat(pages, level[..q] + x, level[q + 1..], w);
    FlatConcat(pages, level[..q], x, w);
    assert x[1..] == [];
    assert Flat(pages, x, w) == Pairs(pages[level[q]], w);
  }

  /** Where page q's pairs start in the level's list. */
  function Off(pages: Store, level: seq<nat>, q: nat, w: nat): nat
    requires GoodLevel(pages, level, w) && q <= |level|
  {
    |Flat(pages, level[..q], w)|
  }

  /** The page of the level that holds the i-th pair. */
  function Owner(pages: Store, level: seq<nat>, i: nat, w: nat): (q: nat)
    requires GoodLevel(pages, level, w) && i < |Flat(pages, level, w)|
    ensures q < |level|
  {
    var n := |Pairs(pages[level[0]], w)|;
    if i < n then 0 else 1 + Owner(pages, level[1..], i - n, w)
  }

  lemma {:induction false} OwnerIs(pages: Store, level: seq<nat>, i: nat, w: nat)
    requires GoodLevel(pages, level, w) && i < |Flat(pages, level, w)|
    ensures var q := Owner(pages, level, i, w);
            Off(pages, level, q, w) <= i < Off(pages, level, q, w) + |Pairs(pages[level[q]], w)|
  {
    var n := |Pairs(pages[level[0]], w)|;
    if i >= n {
      OwnerIs(pages, level[1..], i - n, w);
      var q := Owner(pages, level[1..], i - n, w);
      assert level[..q + 1] == [level[0]] + level[1..][..q];
      assert level[..q + 1][1..] == level[1..][..q];
    }
  }

  lemma {:induction false} OwnerUnique(pages: Store, level: seq<nat>, q: nat, j: nat, w: nat)
    requires GoodLevel(pages, level, w) && q < |level| && j < |Pairs(pages[level[q]], w)|
    ensures Off(pages, level, q, w) + j < |Flat(pages, level, w)|
    ensures Flat(pages, level, w)[Off(pages, level, q, w) + j] == Pairs(pages[level[q]], w)[j]
    ensures Owner(pages, level, Off(pages, level, q, w) + j, w) == q
  {
    hide IsInternal, PairAt, Pairs;
    FlatAt(pages, level, q, w);
    if q > 0 {
      OwnerUnique(pages, level[1..], q - 1, j, w);
      assert level[..q] == [level[0]] + level[1..][..q - 1];
      assert level[..q][1..] == level[1..][..q - 1];
    }
  }

  // ---- replacing and splitting one page of a level --------------------------------------------

  /** The two stores agree on the level except for page q, which is an internal page in both. */
  predicate OnlyChanged(pages: Store, pages': Store, level: seq<nat>, q: nat, w: nat) {
    && GoodLevel(pages, level, w) && q < |level|
    && level[q] in pages' && IsInternal(pages'[level[q]], w)
    && (forall i :: 0 <= i < |level| && i != q ==> level[i] in pages' && pages'[level[i]] == pages[level[i]])
  }

  lemma PartsFrame(pages: Store, pages': Store, level: seq<nat>, q: nat, w: nat)
    requires OnlyChanged(pages, pages', level, q, w)
    ensures var a, b := level[..q], level[q + 1..];
            && GoodLevel(pages, a, w) && GoodLevel(pages', a, w) && Flat(pages', a, w) == Flat(pages, a, w)
            && GoodLevel(pages, b, w) && GoodLevel(pages', b, w) && Flat(pages', b, w) == Flat(pages, b, w)
            && Flat(pages, level, w) == Flat(pages, a, w) + Pairs(pages[level[q]], w) + Flat(pages, b, w)
  {
    FlatFrame(pages, pages', level[..q], w);
    FlatFrame(pages, pages', level[q + 1..], w);
    FlatAt(pages, level, q, w);
  }

  lemma ReplaceInLevel(pages: Store, pages': Store, level: seq<nat>, q: nat, w: nat)
    requires OnlyChanged(pages, pages', level, q, w)
    ensures GoodLevel(pages', level, w)
    ensures GoodLevel(pages, level[..q], w) && GoodLevel(pages, level[q + 1..], w)
    ensures Flat(pages', level, w)
         == Flat(pages, level[..q], w) + Pairs(pages'[level[q]], w) + Flat(pages, level[q + 1..], w)
    ensures Off(pages', level, q, w) == Off(pages, level, q, w)
  {
    FlatFrame(pages, pages', level[..q], w);
    FlatFrame(pages, pages', level[q + 1..], w);
    FlatAt(pages', level, q, w);
  }

  function InsertId(level: seq<nat>, q: nat, id: nat): seq<nat>
    requires q < |level|
  {
    level[..q + 1] + [id] + level[q + 1..]
  }

  lemma FlatOne(pages: Store, x: nat, w: nat)
    requires x in pages && IsInternal(pages[x], w)
    ensures GoodLevel(pages, [x], w) && Flat(pages, [x], w) == Pairs(pages[x], w)
  {
    assert [x][1..] == [];
  }

  lemma FlatTwo(pages: Store, a: seq<nat>, x: nat, y: nat, b: seq<nat>, w: nat)
    requires GoodLevel(pages, a, w) && GoodLevel(pages, b, w)
    requires x in pages && IsInternal(pages[x], w) && y in pages && IsInternal(pages[y], w)
    ensures GoodLevel(pages, a + [x], w) && Flat(pages, a + [x], w) == Flat(pages, a, w) + Pairs(pages[x], w)
    ensures GoodLevel(pages, a + [x] + [y] + b, w)
    ensures Flat(pages, a + [x] + [y] + b, w)
         == Flat(pages, a, w) + Pairs(pages[x], w) + Pairs(pages[y], w) + Flat(pages, b, w)
  {
    hide Flat, IsInternal, Pairs;
    FlatOne(pages, x, w);
    FlatOne(pages, y, w);
    FlatConcat(pages, a, [x], w);
    FlatConcat(pages, a + [x], [y], w);
    FlatConcat(pages, a + [x] + [y], b, w);
  }

  lemma InsertIdNoDup(level: seq<nat>, q: nat, id: nat)
    requires NoDup(level) && q < |level| && id !in level
    ensures NoDup(InsertId(level, q, id))
  {
  }

  /** Splitting a page in two, the new one right after it, leaves the level's pairs as they were. */
  lemma SplitInLevel(pages: Store, pages': Store, level: seq<nat>, q: nat, id: nat, w: nat)
    requires OnlyChanged(pages, pages', level, q, w)
    requires id in pages' && IsInternal(pages'[id], w)
    requires Pairs(pages'[level[q]], w) + Pairs(pages'[id], w) == Pairs(pages[level[q]], w)
    ensures var level' := InsertId(level, q, id);
            && GoodLevel(pages', level', w)
            && Flat(pages', level', w) == Flat(pages, level, w)
            && Off(pages', level', q, w) == Off(pages, level, q, w)
            && Off(pages', level', q + 1, w) == Off(pages, level, q, w) + |Pairs(pages'[level[q]], w)|
  {
    PartsFrame(pages, pages', level, q, w);
    hide Flat, IsInternal, Pairs, GoodLevel, InsertId, OnlyChanged, PairAt;
    var a, b := level[..q], level[q + 1..];
    FlatTwo(pages', a, level[q], id, b, w);
    InsertIdParts(level, q, id);
    Regroup(Flat(pages, a, w), Pairs(pages'[level[q]], w), Pairs(pages'[id], w), Flat(pages, b, w));
  }

  lemma Regroup<T>(a: seq<T>, x: seq<T>, y: seq<T>, b: seq<T>)
    ensures a + x + y + b == a + (x + y) + b
  {
  }

  lemma InsertIdParts(level: seq<nat>, q: nat, id: nat)
    requires q < |level|
    ensures var level' := InsertId(level, q, id);
            && level' == level[..q] + [level[q]] + [id] + level[q + 1..]
            && level'[..q] == level[..q] && level'[..q + 1] == level[..q] + [level[q]]
  {
  }

  lemma SplitHeads(pages: Store, pages': Store, level: seq<nat>, q: nat, id: nat, w: nat)
    requires OnlyChanged(pages, pages', level, q, w)
    requires id in pages' && IsInternal(pages'[id], w)
    requires Pairs(pages'[level[q]], w) + Pairs(pages'[id], w) == Pairs(pages[level[q]], w)
    ensures var level', h := InsertId(level, q, id), Heads(pages, level, w);
            && GoodLevel(pages', level', w)
            && Heads(pages', level', w) == h[..q + 1] + [Pair(PairAt(pages'[id], w, 0).key, id)] + h[q + 1..]
  {
    var l := pages'[level[q]];
    assert PairAt(l, w, 0) == PairAt(pages[level[q]], w, 0) by {
      assert Pairs(l, w)[0] == Pairs(pages[level[q]], w)[0];
    }
    hide IsInternal, PairAt, Pairs;
    var level' := InsertId(level, q, id);
    assert GoodLevel(pages', level', w);
    assert Heads(pages', level', w)
        == Heads(pages, level, w)[..q + 1] + [Pair(PairAt(pages'[id], w, 0).key, id)] + Heads(pages, level, w)[q + 1..];
  }

  // ---- one internal page ----------------------------------------------------------------------

  /** The page with one more pair, as two positioned inserts leave it. */
  function InsertPair(p: Page, j: nat, key: Record, child: nat): Page
    requires child < TWO32
  {
    InsertAt(InsertAt(p, 2 * j, key).1, 2 * j + 1, Bytes32(child)).1
  }

  function PairSpace(w: nat): nat { w + ID_SIZE + 2 * SLOT_SIZE }

  lemma InternalSizes(slots: seq<SlotView>, w: nat)
    requires |slots| % 2 == 0
    requires forall i :: 0 <= i < |slots| ==> slots[i].Live? && |slots[i].rec| == if i % 2 == 0 then w else ID_SIZE
    ensures SumSize(slots) == (w + ID_SIZE) * (|slots| / 2) && DeadSpace(slots) == 0
    decreases |slots|
  {
    NoDeadNoGain(slots);
    if slots != [] {
      InternalSizes(slots[2..], w);
      assert slots[1..][1..] == slots[2..];
      OneMore(w + ID_SIZE, |slots| / 2);
    }
  }

  lemma OneMore(x: nat, m: nat)
    requires m > 0
    ensures x * m == x * (m - 1) + x
  {
  }

  /** Compaction leaves an internal page's slots alone and makes its free space contiguous. */
  lemma CompactInternal(p: Page, w: nat)
    requires IsInternal(p, w)
    ensures IsInternal(Compact(p), w) && Compact(p).slots == p.slots && Pairs(Compact(p), w) == Pairs(p, w)
    ensures Gap(Compact(p)) == PAGE_SIZE - HEADER_SIZE - PairSpace(w) * |Pairs(p, w)|
  {
    InternalSizes(p.slots, w);
    NoDeadNoGain(p.slots);
    CompactedFree(p);
    hide LiveList, SumSize, DeadSpace, AsSlots;
    var m := |p.slots| / 2;
    assert (w + ID_SIZE) * m + 2 * SLOT_SIZE * m == PairSpace(w) * m;
  }

  lemma TwoInserts(p: Page, k: nat, a: Record, b: Record)
    requires Valid(p) && k <= |p.slots| && a != [] && b != [] && |a| + |b| + 2 * SLOT_SIZE <= Gap(p)
    ensures var (x, p1) := InsertAt(p, k, a);
            var (y, p2) := InsertAt(p1, k + 1, b);
            && x.Some? && y.Some? && Valid(p2)
            && p2 == p.(slots := p.slots[..k] + [Live(a), Live(b)] + p.slots[k..], freePtr := p.freePtr - |a| - |b|)
  {
    var p1 := p.(slots := p.slots[..k] + [Live(a)] + p.slots[k..], freePtr := p.freePtr - |a|);
    GapIsFree(p);
    InsertedDirectly(p, k, a);
    GapIsFree(p1);
    InsertedDirectly(p1, k + 1, b);
    hide SumSize, DeadSpace, LiveList, Valid, Compact;
    assert p1.slots[..k + 1] + [Live(b)] + p1.slots[k + 1..] == p.slots[..k] + [Live(a), Live(b)] + p.slots[k..];
  }

  lemma GapIsFree(p: Page)
    ensures Gap(p) <= TotalFree(p)
  {
  }

  lemma InsertPairPage(p: Page, w: nat, j: nat, key: Record, child: nat)
    requires IsInternal(p, w) && 0 < w && j <= |Pairs(p, w)| && |key| == w && child < TWO32
    requires Gap(p) >= PairSpace(w)
    ensures var p' := InsertPair(p, j, key, child);
            && IsInternal(p', w) && p'.id == p.id
            && Pairs(p', w) == Pairs(p, w)[..j] + [Pair(KeyOf(key, w), child)] + Pairs(p, w)[j..]
    ensures InsertAt(p, 2 * j, key).0.Some? && InsertAt(InsertAt(p, 2 * j, key).1, 2 * j + 1, Bytes32(child)).0.Some?
  {
    hide InsertAt, Valid, Gap, KeyOf, Pairs, Bytes32;
    TwoInserts(p, 2 * j, key, Bytes32(child));
    SplicedInternal(p, InsertPair(p, j, key, child), w, j, key, child);
    hide IsInternal;
    PairsOfSpliced(p, InsertPair(p, j, key, child), w, j, key, child);
  }

  lemma SplicedInternal(p: Page, p': Page, w: nat, j: nat, key: Record, child: nat)
    requires IsInternal(p, w) && Valid(p') && p'.kind == p.kind && j <= |Pairs(p, w)| && |key| == w && child < TWO32
    requires p'.slots == p.slots[..2 * j] + [Live(key), Live(Bytes32(child))] + p.slots[2 * j..]
    ensures IsInternal(p', w)
  {
    hide Valid, Pairs, Bytes32;
    forall i | 0 <= i < |p'.slots|
      ensures p'.slots[i].Live? && |p'.slots[i].rec| == if i % 2 == 0 then w else ID_SIZE
    {
      if i >= 2 * j + 2 {
        assert p'.slots[i] == p.slots[i - 2] && (i - 2) % 2 == i % 2;
      } else if i < 2 * j {
        assert p'.slots[i] == p.slots[i];
      }
    }
  }

  lemma PairsOfSpliced(p: Page, p': Page, w: nat, j: nat, key: Record, child: nat)
    requires IsInternal(p, w) && IsInternal(p', w) && j <= |Pairs(p, w)| && |key| == w && child < TWO32
    requires p'.slots == p.slots[..2 * j] + [Live(key), Live(Bytes32(child))] + p.slots[2 * j..]
    ensures Pairs(p', w) == Pairs(p, w)[..j] + [Pair(KeyOf(key, w), child)] + Pairs(p, w)[j..]
  {
    hide IsInternal, KeyOf, Bytes32;
    var f := Pairs(p, w)[..j] + [Pair(KeyOf(key, w), child)] + Pairs(p, w)[j..];
    forall i | 0 <= i < |f|
      ensures Pairs(p', w)[i] == f[i]
    {
      if i < j {
        assert p'.slots[2 * i] == p.slots[2 * i] && p'.slots[2 * i + 1] == p.slots[2 * i + 1];
      } else if i > j {
        assert p'.slots[2 * i] == p.slots[2 * (i - 1)] && p'.slots[2 * i + 1] == p.slots[2 * (i - 1) + 1];
      }
    }
  }

  /** A run of whole pairs of an internal page, on a page of its own. */
  lemma PartOfInternal(p: Page, v: Page, w: nat, a: nat, b: nat)
    requires IsInternal(p, w) && a < b <= |p.slots| / 2
    requires Valid(v) && v.kind == Internal && v.slots == p.slots[2 * a..2 * b]
    ensures IsInternal(v, w) && Pairs(v, w) == Pairs(p, w)[a..b]
  {
    hide Valid, KeyOf;
    forall i | 0 <= i < b - a
      ensures PairAt(v, w, i) == PairAt(p, w, a + i)
    {
    }
    assert Pairs(v, w) == Pairs(p, w)[a..b];
  }

  /** A pair put into page q of a level, at place pos of that page. */
  lemma InsertInLevel(pages: Store, pages': Store, level: seq<nat>, q: nat, pos: nat, x: Pair, w: nat)
    requires OnlyChanged(pages, pages', level, q, w) && pos <= |Pairs(pages[level[q]], w)|
    requires Pairs(pages'[level[q]], w)
          == Pairs(pages[level[q]], w)[..pos] + [x] + Pairs(pages[level[q]], w)[pos..]
    ensures GoodLevel(pages', level, w)
    ensures var f, j := Flat(pages, level, w), Off(pages, level, q, w) + pos;
            j <= |f| && Flat(pages', level, w) == f[..j] + [x] + f[j..]
    ensures pos > 0 ==> Heads(pages', level, w) == Heads(pages, level, w)
  {
    hide IsInternal, PairAt, Flat, Pairs;
    PartsFrame(pages, pages', level, q, w);
    ReplaceInLevel(pages, pages', level, q, w);
    var a, p, b := Flat(pages, level[..q], w), Pairs(pages[level[q]], w), Flat(pages, level[q + 1..], w);
    if pos > 0 {
      assert PairAt(pages'[level[q]], w, 0) == PairAt(pages[level[q]], w, 0) by {
        assert Pairs(pages'[level[q]], w)[0] == p[0];
      }
      HeadsKept(pages, pages', level, q, w);
    }
    InsertRegroup(a, p, b, pos, x);
  }

  lemma HeadsKept(pages: Store, pages': Store, level: seq<nat>, q: nat, w: nat)
    requires OnlyChanged(pages, pages', level, q, w) && GoodLevel(pages, level, w) && GoodLevel(pages', level, w)
    requires PairAt(pages'[level[q]], w, 0) == PairAt(pages[level[q]], w, 0)
    ensures Heads(pages', level, w) == Heads(pages, level, w)
  {
    hide IsInternal, PairAt;
  }

  lemma InsertRegroup<T>(a: seq<T>, p: seq<T>, b: seq<T>, pos: nat, x: T)
    requires pos <= |p|
    ensures a + (p[..pos] + [x] + p[pos..]) + b == (a + p + b)[..|a| + pos] + [x] + (a + p + b)[|a| + pos..]
  {
    assert (a + p + b)[..|a| + pos] == a + p[..pos];
    assert (a + p + b)[|a| + pos..] == p[pos..] + b;
  }
}
