/** How one split at some level combines with the cascade above it. */
module Growth {
  import opened Bytes
  import opened Pages
  import Numeric
  import opened Levels
  import opened Trees
  import opened TreeEdits
  import opened Cascade
  import opened Splits

  // ---- ids --------------------------------------------------------------------------------------

  lemma InsertIdMembers(level: seq<nat>, q: nat, id: nat, x: nat)
    requires q < |level|
    ensures x in InsertId(level, q, id) <==> x in level || x == id
  {
    var l' := InsertId(level, q, id);
    assert l'[q + 1] == id;
    assert forall i :: 0 <= i <= q ==> l'[i] == level[i];
    assert forall i :: q < i < |level| ==> l'[i + 1] == level[i];
  }

  predicate Unshared(a: seq<nat>, b: seq<nat>) {
    forall i, j :: 0 <= i < |a| && 0 <= j < |b| ==> a[i] != b[j]
  }

  /** Distinct ids, said level by level. */
  lemma DistinctLevels(levels: seq<seq<nat>>)
    ensures DistinctIds(levels) <==>
              && (forall t :: 0 <= t < |levels| ==> NoDup(levels[t]))
              && (forall t, u :: 0 <= t < u < |levels| ==> Unshared(levels[t], levels[u]))
  {
    if forall t, u :: 0 <= t < u < |levels| ==> Unshared(levels[t], levels[u]) {
      forall t, u, i, j | 0 <= t < u < |levels| && 0 <= i < |levels[t]| && 0 <= j < |levels[u]|
        ensures levels[t][i] != levels[u][j]
      {
        assert Unshared(levels[t], levels[u]);
      }
    }
  }

  lemma ApartInsert(a: seq<nat>, q: nat, id: nat, b: seq<nat>)
    requires q < |a| && Unshared(a, b) && id !in b
    ensures Unshared(InsertId(a, q, id), b) && Unshared(b, InsertId(a, q, id))
  {
    forall i, j | 0 <= i < |InsertId(a, q, id)| && 0 <= j < |b|
      ensures InsertId(a, q, id)[i] != b[j]
    {
      InsertIdMembers(a, q, id, InsertId(a, q, id)[i]);
    }
  }

  /** A fresh id put into level k keeps all ids distinct. */
  lemma DistinctInsert(levels: seq<seq<nat>>, k: nat, q: nat, id: nat)
    requires DistinctIds(levels) && k < |levels| && q < |levels[k]|
    requires forall t :: 0 <= t < |levels| ==> id !in levels[t]
    ensures DistinctIds(levels[k := InsertId(levels[k], q, id)])
  {
    var levels' := levels[k := InsertId(levels[k], q, id)];
    DistinctLevels(levels);
    hide DistinctIds, InsertId;
    forall t | 0 <= t < |levels|
      ensures NoDup(levels'[t])
    {
      if t == k {
        InsertIdNoDup(levels[k], q, id);
      }
    }
    forall t, u | 0 <= t < u < |levels|
      ensures Unshared(levels'[t], levels'[u])
    {
      if t == k {
        ApartInsert(levels[k], q, id, levels[u]);
      } else if u == k {
        ApartInsert(levels[k], q, id, levels[t]);
      }
    }
    DistinctLevels(levels');
  }

  lemma DistinctAppend(levels: seq<seq<nat>>, id: nat)
    requires DistinctIds(levels) && forall t :: 0 <= t < |levels| ==> id !in levels[t]
    ensures DistinctIds(levels + [[id]])
  {
    var levels' := levels + [[id]];
    DistinctLevels(levels);
    hide DistinctIds;
    forall t, u | 0 <= t < u < |levels'|
      ensures Unshared(levels'[t], levels'[u])
    {
    }
    DistinctLevels(levels');
  }

  // ---- pages in and around the levels -----------------------------------------------------------

  /** Pages outside one level are as they were; its pages and the new one are in the store. */
  predicate OneLevel(pages: Store, pages': Store, level: seq<nat>, id: nat) {
    && (forall x :: x in pages && x !in level ==> x in pages' && pages'[x] == pages[x])
    && id in pages' && (forall x :: x in level ==> x in pages')
  }

  lemma OneLevelRest(pages: Store, pages': Store, levels: seq<seq<nat>>, k: nat, t: nat, id: nat)
    requires DistinctIds(levels) && AllIn(pages, levels) && k < |levels| && t < |levels| && t != k
    requires OneLevel(pages, pages', levels[k], id)
    ensures SameOn(pages, pages', levels[t])
  {
    forall i | 0 <= i < |levels[t]|
      ensures levels[t][i] in pages && levels[t][i] !in levels[k]
    {
      assert InStore(pages, levels[t]);
    }
  }

  /** All levels are in the store once the new page is in level k. */
  lemma AllInAfter(pages: Store, pages': Store, levels: seq<seq<nat>>, k: nat, q: nat, id: nat)
    requires DistinctIds(levels) && AllIn(pages, levels) && k < |levels| && q < |levels[k]|
    requires OneLevel(pages, pages', levels[k], id)
    ensures AllIn(pages', levels[k := InsertId(levels[k], q, id)])
  {
    var levels' := levels[k := InsertId(levels[k], q, id)];
    forall t, i | 0 <= t < |levels'| && 0 <= i < |levels'[t]|
      ensures levels'[t][i] in pages'
    {
      if t == k {
        InsertIdMembers(levels[k], q, id, levels'[t][i]);
      } else {
        OneLevelRest(pages, pages', levels, k, t, id);
      }
    }
  }

  /** Ids of pages that are not in use are in no level. */
  lemma FreshInNoLevel(pages: Store, levels: seq<seq<nat>>, id: nat)
    requires AllIn(pages, levels) && id !in pages
    ensures forall t :: 0 <= t < |levels| ==> id !in levels[t]
  {
    forall t | 0 <= t < |levels|
      ensures id !in levels[t]
    {
      assert InStore(pages, levels[t]);
    }
  }

  /** A change to level k followed by a cascade from level k + 1 on is a cascade from level k on. */
  lemma GrownStep(pages: Store, pages1: Store, pages2: Store, live: set<nat>, levels: seq<seq<nat>>,
                  levels1: seq<seq<nat>>, levels2: seq<seq<nat>>, k: nat, q: nat, id: nat)
    requires DistinctIds(levels) && AllIn(pages, levels) && k < |levels| && q < |levels[k]|
    requires id !in live && id !in pages && levels1 == levels[k := InsertId(levels[k], q, id)]
    requires OneLevel(pages, pages1, levels[k], id)
    requires Grown(pages1, pages2, live + {id}, levels1, levels2, k + 1)
    ensures Grown(pages, pages2, live, levels, levels2, k)
  {
    hide DistinctIds, AllIn, InsertId, InStore;
    assert levels2[k] == levels2[..k + 1][k] == levels1[..k + 1][k] == levels1[k];
    assert levels2[..k] == levels2[..k + 1][..k] == levels1[..k + 1][..k] == levels[..k];
    forall x | x in pages && !InLevels(levels, k, x)
      ensures x in pages2 && pages2[x] == pages[x]
    {
      assert x !in levels[k];
      assert !InLevels(levels1, k + 1, x) by {
        SameAbove(levels, levels1, k, x);
      }
    }
    forall x | InLevels(levels2, k, x)
      ensures InLevels(levels, k, x) || x !in live
    {
      IdsAfterStep(live, levels, levels1, levels2, k, q, id, x);
    }
  }

  lemma SameAbove(levels: seq<seq<nat>>, levels1: seq<seq<nat>>, k: nat, x: nat)
    requires k < |levels| == |levels1| && forall t :: k < t < |levels| ==> levels1[t] == levels[t]
    ensures InLevels(levels1, k + 1, x) ==> InLevels(levels, k, x)
  {
    if InLevels(levels1, k + 1, x) {
      var t :| k + 1 <= t < |levels1| && x in levels1[t];
      assert x in levels[t];
    }
  }

  lemma IdsAfterStep(live: set<nat>, levels: seq<seq<nat>>, levels1: seq<seq<nat>>, levels2: seq<seq<nat>>, k: nat,
                     q: nat, id: nat, x: nat)
    requires k < |levels| && q < |levels[k]| && levels1 == levels[k := InsertId(levels[k], q, id)] && id !in live
    requires k < |levels2| && levels2[k] == levels1[k] && InLevels(levels2, k, x)
    requires InLevels(levels2, k + 1, x) ==> InLevels(levels1, k + 1, x) || x !in live + {id}
    ensures InLevels(levels, k, x) || x !in live
  {
    var t :| k <= t < |levels2| && x in levels2[t];
    if t == k {
      InsertIdMembers(levels[k], q, id, x);
      if x in levels[k] {
        assert InLevels(levels, k, x);
      }
    } else {
      assert InLevels(levels2, k + 1, x);
      SameAbove(levels, levels1, k, x);
    }
  }

  /** Rewriting pages of level k is a cascade that stays within that level. */
  lemma GrownInPlace(pages: Store, pages': Store, live: set<nat>, levels: seq<seq<nat>>, k: nat, q: nat)
    requires DistinctIds(levels) && AllIn(pages, levels) && k < |levels| && q < |levels[k]|
    requires forall x :: x in pages ==> x in pages' && (x != levels[k][q] ==> pages'[x] == pages[x])
    ensures Grown(pages, pages', live, levels, levels, k)
  {
    forall t | 0 <= t < |levels|
      ensures InStore(pages', levels[t])
    {
      assert InStore(pages, levels[t]);
    }
    forall x | x in pages && !InLevels(levels, k, x)
      ensures x in pages' && pages'[x] == pages[x]
    {
      assert x !in levels[k];
    }
  }

  /** One cascade after another from the same level. */
  lemma GrownTwice(pages: Store, pages1: Store, pages2: Store, live: set<nat>, live1: set<nat>, levels: seq<seq<nat>>,
                   levels1: seq<seq<nat>>, levels2: seq<seq<nat>>, k: nat)
    requires Grown(pages, pages1, live, levels, levels1, k) && Grown(pages1, pages2, live1, levels1, levels2, k)
    requires live <= live1 && forall x :: x in pages ==> x in live
    ensures Grown(pages, pages2, live, levels, levels2, k)
  {
    hide DistinctIds, AllIn, InLevels;
    forall x | x in pages && !InLevels(levels, k, x)
      ensures x in pages2 && pages2[x] == pages[x]
    {
      assert !InLevels(levels1, k, x);
    }
  }

  /** A cascade from level k on leaves the pages of a level below k alone. */
  lemma GrownBelow(pages: Store, pages': Store, live: set<nat>, levels: seq<seq<nat>>, levels': seq<seq<nat>>, k: nat,
                   t: nat)
    requires Grown(pages, pages', live, levels, levels', k) && t < k && t < |levels|
    requires DistinctIds(levels) && AllIn(pages, levels)
    ensures levels'[t] == levels[t] && SameOn(pages, pages', levels[t])
  {
    assert levels'[t] == levels'[..k][t] == levels[..k][t];
    forall i | 0 <= i < |levels[t]|
      ensures levels[t][i] in pages && !InLevels(levels, k, levels[t][i])
    {
      assert InStore(pages, levels[t]);
    }
  }

  /** A root added on top. */
  lemma GrownTop(pages: Store, pages': Store, live: set<nat>, levels: seq<seq<nat>>, id: nat)
    requires DistinctIds(levels) && AllIn(pages, levels) && id !in pages && id !in live
    requires id in pages' && forall x :: x in pages ==> x in pages' && pages'[x] == pages[x]
    ensures Grown(pages, pages', live, levels, levels + [[id]], |levels|)
  {
    hide DistinctIds, InLevels;
    FreshInNoLevel(pages, levels, id);
    DistinctAppend(levels, id);
    var levels' := levels + [[id]];
    assert levels'[..|levels|] == levels && levels[..|levels|] == levels;
    TopIds(live, levels, id);
    forall t | 0 <= t < |levels'|
      ensures InStore(pages', levels'[t])
    {
      if t < |levels| {
        assert InStore(pages, levels[t]);
      }
    }
  }

  lemma TopIds(live: set<nat>, levels: seq<seq<nat>>, id: nat)
    requires id !in live
    ensures forall x :: InLevels(levels + [[id]], |levels|, x) ==> x !in live
  {
  }

  /** Writes to the new page and to one old page give the store these pages on top of what it was. */
  lemma StoresMeet(pages: Store, base: Store, id: nat, v: Page, node: nat, u: Page)
    requires pages - {id} == base && id !in base && node in base
    ensures pages[node := u][id := v] == base[node := u][id := v]
  {
    assert forall x :: x in base <==> x in pages && x != id;
    assert forall x :: x in base ==> (pages - {id})[x] == pages[x];
  }

  // ---- one pair into one internal page ------------------------------------------------------------

  /** Keys below lo are under the bound, keys from hi on are not. */
  predicate Bracket(f: seq<Pair>, lo: nat, hi: nat, bound: int) {
    && lo <= hi <= |f|
    && (forall i :: 0 <= i < lo ==> f[i].key < bound)
    && (forall i :: hi <= i < |f| ==> bound <= f[i].key)
  }

  /** Between entries i and i + 1 of a level. */
  predicate Between(f: seq<Pair>, i: nat, key: int) {
    i < |f| && f[i].key < key && (i + 1 < |f| ==> key < f[i + 1].key)
  }

  /** The level's list with x right after entry i. */
  function PutAfter(f: seq<Pair>, i: nat, x: Pair): seq<Pair>
    requires i < |f|
  {
    f[..i + 1] + [x] + f[i + 1..]
  }

  /** Entry i of the level is on page q. */
  predicate OnPage(pages: Store, level: seq<nat>, q: nat, i: nat, w: nat) {
    && GoodLevel(pages, level, w) && q < |level|
    && Off(pages, level, q, w) <= i < Off(pages, level, q, w) + |Pairs(pages[level[q]], w)|
  }

  /** A lower-bound search in the page that holds entry i finds the place right after that entry. */
  lemma PlaceInPage(pages: Store, level: seq<nat>, q: nat, i: nat, lo: nat, key: int, w: nat)
    requires OnPage(pages, level, q, i, w) && Between(Flat(pages, level, w), i, key)
    requires Ascending(Flat(pages, level, w)) && Bracket(Pairs(pages[level[q]], w), lo, lo, key)
    ensures 0 < lo <= |Pairs(pages[level[q]], w)| && Off(pages, level, q, w) + lo == i + 1
  {
    hide Flat, Off, Pairs, Bracket, Between, Ascending, IsInternal;
    PageInFlat(pages, level, q, w);
    var f, p, off := Flat(pages, level, w), Pairs(pages[level[q]], w), Off(pages, level, q, w);
    PlaceInRun(f, p, off, i, lo, key);
  }

  lemma PlaceInRun(f: seq<Pair>, p: seq<Pair>, off: nat, i: nat, lo: nat, key: int)
    requires off <= i < off + |p| <= |f| && (forall x :: 0 <= x < |p| ==> f[off + x] == p[x])
    requires Between(f, i, key) && Bracket(p, lo, lo, key)
    requires Ascending(f)
    ensures 0 < lo <= |p| && off + lo == i + 1
  {
    assert f[off + (i - off)] == p[i - off];
    if i - off + 1 < |p| {
      assert f[off + (i - off + 1)] == p[i - off + 1];
    }
  }

  /** The whole effect of putting a pair into the page that holds its left neighbour. */
  lemma PairPut(pages: Store, root: nat, levels: seq<seq<nat>>, k: nat, q: nat, i: nat, pos: nat, u: Page, x: Pair,
                w: nat)
    requires DistinctIds(levels) && AllIn(pages, levels) && Upper(pages, root, levels, k, w)
    requires OnPage(pages, levels[k], q, i, w) && Between(Flat(pages, levels[k], w), i, x.key)
    requires 0 < pos <= |Pairs(pages[levels[k][q]], w)| && Off(pages, levels[k], q, w) + pos == i + 1
    requires IsInternal(u, w)
    requires Pairs(u, w) == Pairs(pages[levels[k][q]], w)[..pos] + [x] + Pairs(pages[levels[k][q]], w)[pos..]
    ensures var pages' := pages[levels[k][q] := u];
            && Upper(pages', root, levels, k, w) && GoodLevel(pages', levels[k], w)
            && Flat(pages', levels[k], w) == PutAfter(Flat(pages, levels[k], w), i, x)
  {
    hide Flat, Off, Pairs, IsInternal, Ascending;
    var pages' := pages[levels[k][q] := u];
    UpperLevel(pages, root, levels, k, w);
    SetInLevel(pages, levels, k, q, u, w);
    InsertInOrder(pages, pages', levels[k], q, pos, x, w);
    hide Upper;
    UpperReplaced(pages, pages', root, levels, k, w);
  }

  lemma SetInLevel(pages: Store, levels: seq<seq<nat>>, k: nat, q: nat, u: Page, w: nat)
    requires DistinctIds(levels) && AllIn(pages, levels) && k < |levels| && q < |levels[k]|
    requires GoodLevel(pages, levels[k], w) && IsInternal(u, w)
    ensures OnlyChanged(pages, pages[levels[k][q] := u], levels[k], q, w)
    ensures forall t :: 0 <= t < |levels| && t != k ==> SameOn(pages, pages[levels[k][q] := u], levels[t])
  {
    hide IsInternal;
    var pages' := pages[levels[k][q] := u];
    forall t, i | 0 <= t < |levels| && t != k && 0 <= i < |levels[t]|
      ensures levels[t][i] in pages && levels[t][i] != levels[k][q]
    {
      assert InStore(pages, levels[t]);
    }
    assert NoDup(levels[k]);
  }

  // ---- one internal page in two -------------------------------------------------------------------

  predicate PairSlots(slots: seq<SlotView>, w: nat) {
    && |slots| % 2 == 0
    && (forall i :: 0 <= i < |slots| ==> slots[i].Live? && |slots[i].rec| == if i % 2 == 0 then w else ID_SIZE)
  }

  lemma InternalFootprint(slots: seq<SlotView>, w: nat)
    requires PairSlots(slots, w)
    ensures Footprint(LiveList(slots)) == PairSpace(w) * (|slots| / 2) && AsSlots(LiveList(slots)) == slots
  {
    InternalSizes(slots, w);
    NoDeadNoGain(slots);
    PackedFootprint(LiveList(slots));
    hide LiveList, SumSize, DeadSpace, Footprint, AsSlots;
    PairBytes(w, |slots| / 2);
  }

  lemma PairBytes(w: nat, m: nat)
    ensures (w + ID_SIZE) * m + SLOT_SIZE * (2 * m) == PairSpace(w) * m
  {
  }

  lemma PairSlotsOf(v: Page, w: nat)
    requires IsInternal(v, w)
    ensures PairSlots(v.slots, w) && Valid(v) && v.kind == Internal
  {
  }

  lemma HalfSlots(slots: seq<SlotView>, w: nat, a: nat)
    requires PairSlots(slots, w) && 2 * a <= |slots|
    ensures PairSlots(slots[..2 * a], w) && PairSlots(slots[2 * a..], w)
  {
  }

  /** Two proper parts of an internal page: each is one again, with room for another pair. */
  lemma HalfPages(v0: Page, t0: Page, a: nat, v: Page, t: Page, w: nat)
    requires IsInternal(v0, w) && t0.kind == Internal && 0 < a < |Pairs(v0, w)| && 2 * a <= |v0.slots|
    requires Divided(v0, t0, 2 * a, v, t)
    ensures IsInternal(v, w) && Pairs(v, w) == Pairs(v0, w)[..a] && Gap(v) >= PairSpace(w)
    ensures IsInternal(t, w) && Pairs(t, w) == Pairs(v0, w)[a..] && Gap(t) >= PairSpace(w)
  {
    var m := |v0.slots| / 2;
    PairSlotsOf(v0, w);
    hide LiveList, Footprint, Valid, PairSlots, AsSlots, DeadSpace, IsInternal, PairSpace, Pairs, SumSize;
    HalfSlots(v0.slots, w, a);
    PageFits(v0);
    InternalFootprint(v0.slots, w);
    InternalFootprint(v0.slots[..2 * a], w);
    InternalFootprint(v0.slots[2 * a..], w);
    HalfRoom(PairSpace(w), a, m);
    HalfRoom(PairSpace(w), m - a, m);
    HalfPairs(v0, v, t, a, w);
  }

  lemma HalfPairs(v0: Page, v: Page, t: Page, a: nat, w: nat)
    requires IsInternal(v0, w) && 0 < a < |Pairs(v0, w)| && 2 * a <= |v0.slots|
    requires Valid(v) && v.kind == Internal && v.slots == v0.slots[..2 * a]
    requires Valid(t) && t.kind == Internal && t.slots == v0.slots[2 * a..]
    ensures IsInternal(v, w) && Pairs(v, w) == Pairs(v0, w)[..a]
    ensures IsInternal(t, w) && Pairs(t, w) == Pairs(v0, w)[a..]
  {
    var m := |v0.slots| / 2;
    assert |v0.slots| == 2 * m;
    hide Valid;
    assert v0.slots[0..2 * a] == v0.slots[..2 * a] && v0.slots[2 * a..2 * m] == v0.slots[2 * a..];
    PartOfInternal(v0, v, w, 2 * 0, a);
    PartOfInternal(v0, t, w, a, m);
  }

  lemma HalfRoom(space: nat, a: nat, m: nat)
    requires a < m
    ensures space * a + space <= space * m
  {
    assert space * (a + 1) <= space * m;
  }

  lemma PageFits(v: Page)
    requires Valid(v)
    ensures Footprint(LiveList(v.slots)) <= PAGE_SIZE - HEADER_SIZE
  {
    FootprintOfSlots(v.slots);
  }

  /** A full page of pairs holds at least three, whatever the key width. */
  lemma FullPage(v: Page, w: nat)
    requires IsInternal(v, w) && Numeric.IsWidth(w) && Gap(Compact(v)) < PairSpace(w)
    ensures 3 <= |Pairs(v, w)|
  {
    CompactInternal(v, w);
    var m := |Pairs(v, w)|;
    assert PairSpace(w) * m <= 20 * m;
  }

  lemma SideByKey(f: seq<Pair>, off: nat, i: nat, key: int)
    requires Ascending(f) && Between(f, i, key) && off < |f|
    ensures f[off].key < key <==> off <= i
  {
    InOrder(f, i + 1, off);
    InOrder(f, off, i);
  }

  lemma InOrder(f: seq<Pair>, a: nat, b: nat)
    requires Ascending(f)
    ensures a <= b < |f| ==> f[a].key <= f[b].key
  {
  }

  /** Where the split leaves entry i, told from the new page's first key. */
  lemma SideOf(pages: Store, level: seq<nat>, q: nat, i: nat, key: int, w: nat)
    requires GoodLevel(pages, level, w) && Ascending(Flat(pages, level, w)) && Between(Flat(pages, level, w), i, key)
    requires q + 1 < |level|
    requires Off(pages, level, q, w) <= i
    requires i < Off(pages, level, q + 1, w) + |Pairs(pages[level[q + 1]], w)|
    ensures OnPage(pages, level, if Pairs(pages[level[q + 1]], w)[0].key < key then q + 1 else q, i, w)
  {
    PageInFlat(pages, level, q, w);
    PageInFlat(pages, level, q + 1, w);
    var f, off := Flat(pages, level, w), Off(pages, level, q + 1, w);
    assert f[off + 0] == Pairs(pages[level[q + 1]], w)[0];
    hide Flat, Off, Pairs;
    SideByKey(f, off, i, key);
  }

  /** Page q of level k over itself and the new page: the levels are in order but for the level above. */
  lemma NodeSplit(pages: Store, root: nat, levels: seq<seq<nat>>, k: nat, q: nat, id: nat, v: Page, t: Page, w: nat)
    requires DistinctIds(levels) && AllIn(pages, levels) && Upper(pages, root, levels, k, w)
    requires q < |levels[k]| && id !in pages && IsInternal(v, w) && IsInternal(t, w)
    requires IsInternal(pages[levels[k][q]], w) && Pairs(v, w) + Pairs(t, w) == Pairs(pages[levels[k][q]], w)
    ensures var pages1, levels1 := pages[levels[k][q] := v][id := t], levels[k := InsertId(levels[k], q, id)];
            && PageSplit(pages, pages1, levels[k], q, id, w) && OneLevel(pages, pages1, levels[k], id)
            && DistinctIds(levels1) && AllIn(pages1, levels1)
            && GoodLevel(pages, levels[k], w) && Between(Heads(pages, levels[k], w), q, PairAt(t, w, 0).key)
            && (k + 1 < |levels| ==> Upper(pages1, root, levels1, k + 1, w) && GoodLevel(pages1, levels[k + 1], w)
                                     && Flat(pages1, levels[k + 1], w) == Heads(pages, levels[k], w))
  {
    hide IsInternal, Flat, Pairs, Heads, PairAt, Ascending;
    var pages1, levels1 := pages[levels[k][q] := v][id := t], levels[k := InsertId(levels[k], q, id)];
    UpperLevel(pages, root, levels, k, w);
    FreshInNoLevel(pages, levels, id);
    DistinctInsert(levels, k, q, id);
    SplitPlaces(pages, levels[k], q, id, v, t, w);
    AllInAfter(pages, pages1, levels, k, q, id);
    forall u | k < u < |levels|
      ensures SameOn(pages, pages1, levels[u])
    {
      OneLevelRest(pages, pages1, levels, k, u, id);
    }
    CascadeSplit(pages, pages1, root, levels, k, q, id, w);
    HeadBetween(pages, pages1, root, levels, k, q, id, w);
    if k + 1 < |levels| {
      UpperAbove(pages1, root, levels, levels1, k, w);
    }
  }

  lemma SplitPlaces(pages: Store, level: seq<nat>, q: nat, id: nat, v: Page, t: Page, w: nat)
    requires GoodLevel(pages, level, w) && NoDup(level) && q < |level| && id !in pages
    requires IsInternal(v, w) && IsInternal(t, w) && Pairs(v, w) + Pairs(t, w) == Pairs(pages[level[q]], w)
    ensures var pages1 := pages[level[q] := v][id := t];
            PageSplit(pages, pages1, level, q, id, w) && OneLevel(pages, pages1, level, id)
  {
    hide IsInternal, Pairs;
  }

  lemma UpperAbove(pages: Store, root: nat, levels: seq<seq<nat>>, levels1: seq<seq<nat>>, k: nat, w: nat)
    requires |levels1| == |levels| && (forall t :: k < t < |levels| ==> levels1[t] == levels[t])
    requires Upper(pages, root, levels, k + 1, w)
    ensures Upper(pages, root, levels1, k + 1, w)
  {
    hide Flat, Heads, GoodLevel, Ascending;
  }

  /** Once the level above names the new page, levels k and up are in order, and nothing below has moved. */
  lemma NodeJoined(pages: Store, pages1: Store, pages2: Store, root: nat, root2: nat, live: set<nat>,
                   levels: seq<seq<nat>>, levels1: seq<seq<nat>>, levels2: seq<seq<nat>>, k: nat, q: nat, id: nat,
                   w: nat)
    requires DistinctIds(levels) && AllIn(pages, levels) && Upper(pages, root, levels, k, w)
    requires q < |levels[k]| && levels1 == levels[k := InsertId(levels[k], q, id)]
    requires DistinctIds(levels1) && AllIn(pages1, levels1)
    requires PageSplit(pages, pages1, levels[k], q, id, w) && OneLevel(pages, pages1, levels[k], id)
    requires id !in live && id !in pages
    requires Grown(pages1, pages2, live + {id}, levels1, levels2, k + 1)
    requires k + 1 < |levels2| && Upper(pages2, root2, levels2, k + 1, w)
    requires Flat(pages2, levels2[k + 1], w)
          == PutAfter(Heads(pages, levels[k], w), q, Pair(PairAt(pages1[id], w, 0).key, id))
    ensures Grown(pages, pages2, live, levels, levels2, k) && Upper(pages2, root2, levels2, k, w)
    ensures levels2[k] == InsertId(levels[k], q, id) && Flat(pages2, levels2[k], w) == Flat(pages, levels[k], w)
    ensures levels[k][q] in pages2 && pages2[levels[k][q]] == pages1[levels[k][q]]
    ensures id in pages2 && pages2[id] == pages1[id]
    ensures Off(pages2, levels2[k], q, w) == Off(pages, levels[k], q, w)
    ensures Off(pages2, levels2[k], q + 1, w) == Off(pages, levels[k], q, w) + |Pairs(pages1[levels[k][q]], w)|
  {
    assert 0 < k < |levels|;
    hide IsInternal, Flat, Pairs, Heads, PairAt, Ascending, Upper, Off, DistinctIds, AllIn;
    GrownBelow(pages1, pages2, live + {id}, levels1, levels2, k + 1, k);
    GrownStep(pages, pages1, pages2, live, levels, levels1, levels2, k, q, id);
    SplitOrdered(pages, pages1, root, levels, k, q, id, w);
    PutIsInsert(Heads(pages, levels[k], w), q, Pair(PairAt(pages1[id], w, 0).key, id));
    CascadeJoin(pages1, pages2, root2, levels2, k, w);
    SameOffsets(pages1, pages2, levels2[k], q, w);
    SameTwo(pages1, pages2, levels[k], q, id);
  }

  lemma SplitOrdered(pages: Store, pages1: Store, root: nat, levels: seq<seq<nat>>, k: nat, q: nat, id: nat, w: nat)
    requires Upper(pages, root, levels, k, w) && q < |levels[k]| && PageSplit(pages, pages1, levels[k], q, id, w)
    ensures var level', h := InsertId(levels[k], q, id), Heads(pages, levels[k], w);
            && GoodLevel(pages1, level', w) && Ascending(Flat(pages1, level', w))
            && Flat(pages1, level', w) == Flat(pages, levels[k], w)
            && Heads(pages1, level', w) == h[..q + 1] + [Pair(PairAt(pages1[id], w, 0).key, id)] + h[q + 1..]
            && Off(pages1, level', q, w) == Off(pages, levels[k], q, w)
            && Off(pages1, level', q + 1, w) == Off(pages, levels[k], q, w) + |Pairs(pages1[levels[k][q]], w)|
  {
    UpperLevel(pages, root, levels, k, w);
    hide IsInternal, Flat, Pairs, Heads, PairAt, Upper, Off;
    SplitInLevel(pages, pages1, levels[k], q, id, w);
    SplitHeads(pages, pages1, levels[k], q, id, w);
  }

  lemma PutIsInsert(f: seq<Pair>, i: nat, x: Pair)
    requires i < |f|
    ensures PutAfter(f, i, x) == f[..i + 1] + [x] + f[i + 1..]
  {
  }

  lemma SameOffsets(pages: Store, pages': Store, level: seq<nat>, q: nat, w: nat)
    requires GoodLevel(pages, level, w) && SameOn(pages, pages', level) && q + 1 < |level|
    ensures GoodLevel(pages', level, w)
    ensures Off(pages', level, q, w) == Off(pages, level, q, w)
            && Off(pages', level, q + 1, w) == Off(pages, level, q + 1, w)
  {
    FlatFrame(pages, pages', level[..q], w);
    FlatFrame(pages, pages', level[..q + 1], w);
  }

  lemma SameTwo(pages: Store, pages': Store, level: seq<nat>, q: nat, id: nat)
    requires q < |level| && SameOn(pages, pages', InsertId(level, q, id))
    ensures level[q] in pages && id in pages && level[q] in pages' && id in pages'
    ensures pages'[level[q]] == pages[level[q]] && pages'[id] == pages[id]
  {
    var l' := InsertId(level, q, id);
    assert l'[q] == level[q] && l'[q + 1] == id;
  }

  // ---- a new root -----------------------------------------------------------------------------------

  /** What the four unpositioned inserts that fill a new root leave, whether or not the first key has any bytes. */
  function BuiltRoot(id: nat, a: Record, left: nat, b: Record, right: nat): Page
    requires left < TWO32 && right < TWO32
  {
    Insert(Insert(Insert(Insert(Init(id, Internal), a).1, Bytes32(left)).1, b).1, Bytes32(right)).1
  }

  /** Four entries in a row. */
  function RootPage(id: nat, a: Record, left: nat, b: Record, right: nat): Page
    requires left < TWO32 && right < TWO32
  {
    Append(Append(Append(Append(Init(id, Internal), a), Bytes32(left)), b), Bytes32(right))
  }

  lemma RootAppends(p: Page, rec: Record)
    requires Valid(p) && DeadSpace(p.slots) == 0 && rec != [] && |rec| <= 8 && Gap(p) >= 12
    ensures Insert(p, rec) == (Stored(|p.slots|), Append(p, rec))
    ensures Valid(Append(p, rec)) && DeadSpace(Append(p, rec).slots) == 0 && Gap(Append(p, rec)) >= Gap(p) - 12
  {
    InsertAppends(p, rec);
    AppendKeeps(p, rec);
  }

  /** The new root holds the two pairs, in that order. */
  lemma RootPairs(id: nat, a: Record, left: nat, b: Record, right: nat, w: nat)
    requires id < TWO32 && left < TWO32 && right < TWO32 && Numeric.IsWidth(w) && |a| == w && |b| == w
    ensures var p := RootPage(id, a, left, b, right);
            && IsInternal(p, w) && Pairs(p, w) == [Pair(KeyOf(a, w), left), Pair(KeyOf(b, w), right)]
  {
    var p0 := Init(id, Internal);
    var p1 := Append(p0, a);
    var p2 := Append(p1, Bytes32(left));
    var p3 := Append(p2, b);
    RootAppends(p0, a);
    RootAppends(p1, Bytes32(left));
    RootAppends(p2, b);
    RootAppends(p3, Bytes32(right));
    hide Valid, KeyOf, DeadSpace, Insert, Numeric.IsWidth;
    var p := RootPage(id, a, left, b, right);
    assert p.slots == [Live(a), Live(Bytes32(left)), Live(b), Live(Bytes32(right))];
    assert IsInternal(p, w);
    assert PairAt(p, w, 0) == Pair(KeyOf(a, w), left);
    assert PairAt(p, w, 1) == Pair(KeyOf(b, w), right);
  }

  /** With a first key the new root has its four entries. */
  lemma RootIsBuilt(id: nat, a: Record, left: nat, b: Record, right: nat, w: nat)
    requires id < TWO32 && left < TWO32 && right < TWO32 && Numeric.IsWidth(w) && |a| == w && |b| == w
    ensures BuiltRoot(id, a, left, b, right) == RootPage(id, a, left, b, right)
  {
    hide Append, DeadSpace, Insert, Valid;
    var p0 := Init(id, Internal);
    RootStart(id);
    RootAppends(p0, a);
    RootAppends(Append(p0, a), Bytes32(left));
    RootAppends(Append(Append(p0, a), Bytes32(left)), b);
    RootAppends(Append(Append(Append(p0, a), Bytes32(left)), b), Bytes32(right));
  }

  lemma RootStart(id: nat)
    requires id < TWO32
    ensures Valid(Init(id, Internal)) && DeadSpace(Init(id, Internal).slots) == 0 && Gap(Init(id, Internal)) >= 48
  {
  }

  /** Without one, its insert is refused, and the other three entries take the places of the wrong kind. */
  lemma RootWithoutKey(id: nat, left: nat, b: Record, right: nat, w: nat)
    requires id < TWO32 && left < TWO32 && right < TWO32 && Numeric.IsWidth(w) && |b| == w
    ensures BuiltRoot(id, [], left, b, right).slots == [Live(Bytes32(left)), Live(b), Live(Bytes32(right))]
  {
    hide DeadSpace, Insert, Valid;
    var p0 := Init(id, Internal);
    RootStart(id);
    EmptyRefused(p0);
    RootAppends(p0, Bytes32(left));
    RootAppends(Append(p0, Bytes32(left)), b);
    RootAppends(Append(Append(p0, Bytes32(left)), b), Bytes32(right));
  }

  lemma EmptyRefused(p: Page)
    ensures Insert(p, []) == (NoSpace, p)
  {
  }

  /** The new root is an internal page if and only if its first key has bytes. */
  lemma RootBuiltExact(id: nat, a: Record, left: nat, b: Record, right: nat, w: nat)
    requires id < TWO32 && left < TWO32 && right < TWO32 && Numeric.IsWidth(w) && |b| == w && (a == [] || |a| == w)
    ensures IsInternal(BuiltRoot(id, a, left, b, right), w) <==> a != []
  {
    hide BuiltRoot, RootPage, KeyOf, Pairs;
    if a == [] {
      RootWithoutKey(id, left, b, right, w);
    } else {
      RootIsBuilt(id, a, left, b, right, w);
      RootPairs(id, a, left, b, right, w);
    }
  }

  lemma RootOnTop(pages: Store, levels: seq<seq<nat>>, id: nat, w: nat)
    requires 0 < |levels| && id in pages && IsInternal(pages[id], w) && Ascending(Pairs(pages[id], w))
    ensures Upper(pages, id, levels + [[id]], |levels|, w)
    ensures Flat(pages, [id], w) == Pairs(pages[id], w)
  {
    hide IsInternal, Pairs, Flat;
    FlatOne(pages, id, w);
    UpperIsTop(pages, id, levels + [[id]], |levels|, w);
  }

  // ---- how far a cascade goes -----------------------------------------------------------------------

  /**
   * How many pages it takes to put a pair behind entry i of level k: none if the page with that entry has room for one,
   * compacted if need be; otherwise one for its right half, and what the pair for that takes in the level above. Above
   * the root that is a new root.
   */
  ghost function NewPages(pages: Store, levels: seq<seq<nat>>, k: nat, i: nat, w: nat): (n: nat)
    ensures k <= |levels| ==> n <= |levels| - k + 1
    decreases |levels| - k
  {
    if k >= |levels| then 1
    else if !GoodLevel(pages, levels[k], w) || i >= |Flat(pages, levels[k], w)| then 0
    else
      var q := Owner(pages, levels[k], i, w);
      if Gap(Compact(pages[levels[k][q]])) >= PairSpace(w) then 0 else 1 + NewPages(pages, levels, k + 1, q, w)
  }

  lemma {:induction false} NewPagesFrame(pages: Store, pages': Store, levels: seq<seq<nat>>, levels': seq<seq<nat>>,
                                         k: nat, i: nat, w: nat)
    requires |levels'| == |levels| && forall t :: k <= t < |levels| ==> levels'[t] == levels[t]
    requires forall t :: k <= t < |levels| ==> SameOn(pages, pages', levels[t]) && GoodLevel(pages, levels[t], w)
    ensures NewPages(pages', levels', k, i, w) == NewPages(pages, levels, k, i, w)
    decreases |levels| - k
  {
    if k < |levels| {
      var level := levels[k];
      FlatFrame(pages, pages', level, w);
      if i < |Flat(pages, level, w)| {
        OwnerFrame(pages, pages', level, i, w);
        hide Owner, Off, Flat, GoodLevel, Compact;
        NewPagesFrame(pages, pages', levels, levels', k + 1, Owner(pages, level, i, w), w);
      }
    }
  }

  // ---- paths ----------------------------------------------------------------------------------------

  /** The last breadcrumb names the page that holds entry i; the others lead to that page. */
  lemma PathTop(pages: Store, levels: seq<seq<nat>>, stack: seq<Crumb>, k: nat, i: nat, w: nat)
    requires PathOk(pages, levels, stack, k, i, w) && k + 1 < |levels|
    ensures stack != [] && GoodLevel(pages, levels[k + 1], w) && i < |Flat(pages, levels[k + 1], w)|
    ensures var q := Owner(pages, levels[k + 1], i, w);
            && OnPage(pages, levels[k + 1], q, i, w) && stack[|stack| - 1].page == levels[k + 1][q]
            && PathOk(pages, levels, stack[..|stack| - 1], k + 1, q, w)
  {
    hide Flat, Off, Owner;
    OwnerIs(pages, levels[k + 1], i, w);
  }

  lemma PathAfterSplit(pages: Store, pages1: Store, levels: seq<seq<nat>>, k: nat, q: nat, id: nat, stack: seq<Crumb>,
                       w: nat)
    requires PathOk(pages, levels, stack, k, q, w) && k < |levels| && q < |levels[k]|
    requires DistinctIds(levels) && AllIn(pages, levels) && OneLevel(pages, pages1, levels[k], id)
    ensures PathOk(pages1, levels[k := InsertId(levels[k], q, id)], stack, k, q, w)
    ensures stack == [] <==> k + 1 == |levels|
  {
    hide InsertId, PathOk;
    PathLength(pages, levels, stack, k, q, w);
    forall t, c | k < t < |levels| && 0 <= c < |levels[t]|
      ensures levels[t][c] in pages1 && pages1[levels[t][c]] == pages[levels[t][c]]
    {
      OneLevelRest(pages, pages1, levels, k, t, id);
    }
    PathFrame(pages, pages1, levels, levels[k := InsertId(levels[k], q, id)], stack, k, q, w);
  }

  /** At the top there is one page, and the new root is to say about its halves what their level says. */
  lemma TopHeads(pages: Store, pages1: Store, root: nat, levels: seq<seq<nat>>, k: nat, q: nat, id: nat, w: nat)
    requires Upper(pages, root, levels, k, w) && k + 1 == |levels| && q < |levels[k]|
    requires PageSplit(pages, pages1, levels[k], q, id, w)
    requires Between(Heads(pages, levels[k], w), q, PairAt(pages1[id], w, 0).key)
    ensures q == 0 && levels[k] == [root]
    ensures var first := GetRecord(pages1[root], 0);
            |first| == w && KeyOf(first, w) == PairAt(pages1[root], w, 0).key < PairAt(pages1[id], w, 0).key
    ensures PutAfter(Heads(pages, levels[k], w), q, Pair(PairAt(pages1[id], w, 0).key, id))
         == [Pair(PairAt(pages1[root], w, 0).key, root), Pair(PairAt(pages1[id], w, 0).key, id)]
  {
    assert Pairs(pages1[root], w)[0] == Pairs(pages[root], w)[0];
  }
}
