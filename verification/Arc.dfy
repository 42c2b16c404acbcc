/** The ARC replacement policy on plain values: what each operation does to the four lists and the two maps. */
module Arc {
  import opened Bytes

  datatype Status = Mru | Mfu | MruGhost | MfuGhost

  datatype FrameStatus = FrameStatus(page: nat, frame: nat, evictable: bool, status: Status)

  const INVALID_FRAME: nat := 0xFFFF_FFFF

  /** Front of a list first. Frame ids in the first two lists, page ids in the ghost lists. */
  datatype Lists = Lists(mru: seq<nat>, mfu: seq<nat>, mruGhost: seq<nat>, mfuGhost: seq<nat>,
                         alive: map<nat, FrameStatus>, ghosts: map<nat, FrameStatus>, target: nat)

  // ---- lists ----------------------------------------------------------------------------------

  /** The list without the first occurrence of x. */
  function Without(s: seq<nat>, x: nat): seq<nat> {
    if s == [] then [] else if s[0] == x then s[1..] else [s[0]] + Without(s[1..], x)
  }

  predicate Separate(a: seq<nat>, b: seq<nat>) {
    NoDup(a) && NoDup(b) && forall x :: x in a ==> x !in b
  }

  lemma {:induction false} WithoutMembers(s: seq<nat>, x: nat)
    requires NoDup(s)
    ensures NoDup(Without(s, x)) && (forall y :: y in Without(s, x) <==> y in s && y != x)
    ensures |Without(s, x)| == if x in s then |s| - 1 else |s|
  {
    if s != [] {
      var t := s[1..];
      assert NoDup(t) by {
        assert forall i :: 0 <= i < |t| ==> t[i] == s[i + 1];
      }
      assert s[0] !in t by {
        assert forall i :: 0 <= i < |t| ==> t[i] == s[i + 1];
      }
      assert forall y :: y in s <==> y == s[0] || y in t by {
        assert s == [s[0]] + t;
      }
      WithoutMembers(t, x);
      if s[0] != x {
        PushMembers(Without(t, x), s[0]);
      }
    }
  }

  lemma PushMembers(s: seq<nat>, x: nat)
    requires NoDup(s) && x !in s
    ensures NoDup([x] + s) && forall y :: y in [x] + s <==> y == x || y in s
  {
  }

  /** The list without the entry at i. */
  function DropAt(s: seq<nat>, i: nat): seq<nat>
    requires i < |s|
  {
    s[..i] + s[i + 1..]
  }

  lemma {:induction false} DropAtIsWithout(s: seq<nat>, i: nat)
    requires i < |s| && forall j :: 0 <= j < i ==> s[j] != s[i]
    ensures DropAt(s, i) == Without(s, s[i])
  {
    if i > 0 {
      var t := s[1..];
      DropAtIsWithout(t, i - 1);
      FrontAgain(s, i);
    }
  }

  lemma FrontAgain(s: seq<nat>, i: nat)
    requires 0 < i < |s|
    ensures DropAt(s, i) == [s[0]] + DropAt(s[1..], i - 1) && s[1..][i - 1] == s[i]
  {
    assert s[..i] == [s[0]] + s[1..][..i - 1] && s[i + 1..] == s[1..][i..];
  }

  function DropLast(s: seq<nat>): seq<nat>
    requires s != []
  {
    s[..|s| - 1]
  }

  lemma DropLastMembers(s: seq<nat>)
    requires NoDup(s) && s != []
    ensures NoDup(DropLast(s)) && forall y :: y in DropLast(s) ==> y in s
  {
  }

  /** As many different numbers below c as fit. */
  lemma {:induction false} Pigeonhole(s: seq<nat>, c: nat)
    requires NoDup(s) && forall x :: x in s ==> x < c
    ensures |s| <= c
    decreases c
  {
    if s != [] {
      assert s[0] in s;
      WithoutMembers(s, c - 1);
      Pigeonhole(Without(s, c - 1), c - 1);
    }
  }

  lemma RoomForFrame(a: seq<nat>, b: seq<nat>, f: nat, c: nat)
    requires Separate(a, b) && f < c && f !in a && f !in b && (forall x :: x in a || x in b ==> x < c)
    ensures |a| + |b| < c
  {
    var s := [f] + a + b;
    assert forall x :: x in s <==> x == f || x in a || x in b;
    forall i, j | 0 <= i < j < |s|
      ensures s[i] != s[j]
    {
      assert i > 0 && i <= |a| ==> s[i] == a[i - 1];
      assert i > |a| ==> s[i] == b[i - 1 - |a|];
      assert j <= |a| ==> s[j] == a[j - 1];
      assert j > |a| ==> s[j] == b[j - 1 - |a|];
      assert s[j] in a || s[j] in b;
      assert i > 0 && i <= |a| ==> s[i] in a;
    }
    Pigeonhole(s, c);
  }

  // ---- the invariant ----------------------------------------------------------------------------

  /** alive_map_ is exactly the two alive lists, with matching status. */
  predicate AliveOk(a: Lists) {
    && Separate(a.mru, a.mfu)
    && (forall f :: f in a.alive ==> f in a.mru || f in a.mfu)
    && (forall f :: f in a.mru ==> f in a.alive && a.alive[f].status == Mru)
    && (forall f :: f in a.mfu ==> f in a.alive && a.alive[f].status == Mfu)
    && (forall f :: f in a.alive ==> a.alive[f].frame == f)
  }

  predicate FramesOk(a: Lists, c: nat) {
    forall f :: f in a.alive ==> f < c
  }

  /** Every ghost page has its entry; ghost_map_ may hold stale entries besides. */
  predicate GhostsOk(a: Lists) {
    && Separate(a.mruGhost, a.mfuGhost)
    && (forall p :: p in a.mruGhost ==> p in a.ghosts && a.ghosts[p].status == MruGhost && a.ghosts[p].page == p)
    && (forall p :: p in a.mfuGhost ==> p in a.ghosts && a.ghosts[p].status == MfuGhost && a.ghosts[p].page == p)
    && (forall p :: p in a.ghosts ==> a.ghosts[p].status == MruGhost || a.ghosts[p].status == MfuGhost)
  }

  /** A page is alive in one frame only, and not a ghost at the same time. */
  predicate PagesOk(a: Lists) {
    && (forall f, g :: f in a.alive && g in a.alive && a.alive[f].page == a.alive[g].page ==> f == g)
    && (forall f :: f in a.alive ==> a.alive[f].page !in a.mruGhost && a.alive[f].page !in a.mfuGhost)
  }

  predicate SizesOk(a: Lists, c: nat) {
    && |a.mru| + |a.mruGhost| <= c
    && |a.mru| + |a.mfu| + |a.mruGhost| + |a.mfuGhost| <= 2 * c
  }

  predicate Inv(a: Lists, c: nat) {
    AliveOk(a) && FramesOk(a, c) && GhostsOk(a) && PagesOk(a) && SizesOk(a, c)
  }

  predicate IsGhost(a: Lists, p: nat) {
    p in a.mruGhost || p in a.mfuGhost
  }

  /** A page whose ghost entry outlived its place in the ghost lists. */
  predicate Stale(a: Lists, p: nat) {
    p in a.ghosts && !IsGhost(a, p)
  }

  predicate Alive(a: Lists, p: nat) {
    exists f :: f in a.alive && a.alive[f].page == p
  }

  function Empty(): Lists {
    Lists([], [], [], [], map[], map[], 0)
  }

  lemma EmptyInv(c: nat)
    ensures Inv(Empty(), c)
  {
  }

  // ---- evict ------------------------------------------------------------------------------------

  /** Where the last evictable frame of a list is; the length of the list if there is none. */
  function LastEvictable(s: seq<nat>, alive: map<nat, FrameStatus>): (i: nat)
    requires forall f :: f in s ==> f in alive
    ensures i <= |s|
    ensures i < |s| ==> alive[s[i]].evictable && forall j :: i < j < |s| ==> !alive[s[j]].evictable
    ensures i == |s| ==> forall j :: 0 <= j < |s| ==> !alive[s[j]].evictable
  {
    if s == [] then 0
    else if alive[s[|s| - 1]].evictable then |s| - 1
    else
      var i := LastEvictable(s[..|s| - 1], alive);
      if i == |s| - 1 then |s| else i
  }

  datatype Place = Place(inMru: bool, at: nat)

  /** The preferred list gives up its last evictable frame, or the other list when the preferred one is fully pinned. */
  function Choice(a: Lists): Option<Place>
    requires AliveOk(a)
  {
    var i, j := LastEvictable(a.mru, a.alive), LastEvictable(a.mfu, a.alive);
    var fromMru := if i < |a.mru| then Some(Place(true, i)) else None;
    var fromMfu := if j < |a.mfu| then Some(Place(false, j)) else None;
    if |a.mru| >= a.target then (if fromMru.Some? then fromMru else fromMfu)
    else (if fromMfu.Some? then fromMfu else fromMru)
  }

  function FrameAt(a: Lists, v: Place): nat
    requires v.at < |if v.inMru then a.mru else a.mfu|
  {
    if v.inMru then a.mru[v.at] else a.mfu[v.at]
  }

  /** The frame at a place moved out, its page to the front of the matching ghost list. */
  function MoveOut(a: Lists, v: Place): Lists
    requires AliveOk(a) && v.at < |if v.inMru then a.mru else a.mfu|
  {
    var f := FrameAt(a, v);
    var p := a.alive[f].page;
    var st := a.alive[f].(frame := INVALID_FRAME, status := if v.inMru then MruGhost else MfuGhost);
    var b := a.(alive := a.alive - {f}, ghosts := a.ghosts[p := st]);
    if v.inMru then b.(mru := DropAt(a.mru, v.at), mruGhost := [p] + a.mruGhost)
    else b.(mfu := DropAt(a.mfu, v.at), mfuGhost := [p] + a.mfuGhost)
  }

  /** The evicted page and frame, and what is left. */
  function Evict(a: Lists): (Option<(nat, nat)>, Lists)
    requires AliveOk(a)
  {
    match Choice(a)
    case None => (None, a)
    case Some(v) => (Some((a.alive[FrameAt(a, v)].page, FrameAt(a, v))), MoveOut(a, v))
  }

  /** The evictable frames, as Size() counts them. */
  function EvictableFrames(alive: map<nat, FrameStatus>): set<nat> {
    set f | f in alive && alive[f].evictable
  }

  /** There is a victim unless no frame is evictable. */
  lemma ChoiceExists(a: Lists)
    requires AliveOk(a)
    ensures Choice(a) == None <==> EvictableFrames(a.alive) == {}
  {
    if f :| f in EvictableFrames(a.alive) {
      if f in a.mru {
        var i :| 0 <= i < |a.mru| && a.mru[i] == f;
        assert LastEvictable(a.mru, a.alive) < |a.mru|;
      } else {
        var i :| 0 <= i < |a.mfu| && a.mfu[i] == f;
        assert LastEvictable(a.mfu, a.alive) < |a.mfu|;
      }
    }
    if Choice(a).Some? {
      var f := FrameAt(a, Choice(a).value);
      assert f in EvictableFrames(a.alive);
    }
  }

  /**
   * The victim is never a pinned frame, and it is the least recent evictable one of the list that comes first by
   * |mru| >= target, or of the other when the first has none.
   */
  lemma VictimIsLeastRecent(a: Lists)
    requires AliveOk(a) && Choice(a).Some?
    ensures var v := Choice(a).value;
            var list, other := if v.inMru then a.mru else a.mfu, if v.inMru then a.mfu else a.mru;
            && v.at < |list| && a.alive[list[v.at]].evictable
            && (forall j :: v.at < j < |list| ==> !a.alive[list[j]].evictable)
            && (v.inMru != (|a.mru| >= a.target) ==> forall j :: 0 <= j < |other| ==> !a.alive[other[j]].evictable)
  {
  }

  /** An eviction returns nothing, and changes nothing, exactly when no frame is evictable. */
  lemma EvictsNothing(a: Lists)
    requires AliveOk(a)
    ensures var (r, b) := Evict(a);
            && (r == None <==> forall f :: f in a.alive ==> !a.alive[f].evictable)
            && (r == None ==> b == a)
  {
    ChoiceExists(a);
    if f :| f in a.alive && a.alive[f].evictable {
      assert f in EvictableFrames(a.alive);
    }
  }

  /**
   * The frame an eviction returns is evictable, and behind it its list has no evictable one. The list is the first if
   * that has at least `target` frames and an evictable one among them, or if the second has none. The frame leaves its
   * list and its page goes to the front of that list's ghosts.
   */
  lemma EvictExact(a: Lists)
    requires AliveOk(a)
    ensures var (r, b) := Evict(a);
            r.Some? ==>
              && var (p, f) := r.value;
              && f in a.alive && a.alive[f].evictable && a.alive[f].page == p
              && b.alive == a.alive - {f} && b.target == a.target
              && if f in a.mru then
                   && b.ghosts == a.ghosts[p := FrameStatus(p, 0xFFFF_FFFF, true, MruGhost)]
                   && b.mruGhost == [p] + a.mruGhost && b.mfuGhost == a.mfuGhost && b.mfu == a.mfu
                   && (|a.mru| < a.target ==> forall j :: 0 <= j < |a.mfu| ==> !a.alive[a.mfu[j]].evictable)
                   && exists i :: 0 <= i < |a.mru| && a.mru[i] == f && b.mru == a.mru[..i] + a.mru[i + 1..]
                                  && forall j :: i < j < |a.mru| ==> !a.alive[a.mru[j]].evictable
                 else
                   && b.ghosts == a.ghosts[p := FrameStatus(p, 0xFFFF_FFFF, true, MfuGhost)]
                   && b.mfuGhost == [p] + a.mfuGhost && b.mruGhost == a.mruGhost && b.mru == a.mru
                   && (|a.mru| >= a.target ==> forall j :: 0 <= j < |a.mru| ==> !a.alive[a.mru[j]].evictable)
                   && exists i :: 0 <= i < |a.mfu| && a.mfu[i] == f && b.mfu == a.mfu[..i] + a.mfu[i + 1..]
                                  && forall j :: i < j < |a.mfu| ==> !a.alive[a.mfu[j]].evictable
  {
    if Choice(a).Some? {
      VictimIsLeastRecent(a);
      hide Choice, LastEvictable;
      var v := Choice(a).value;
      var f := FrameAt(a, v);
      assert v.inMru <==> f in a.mru;
      assert v.inMru ==> a.mru[v.at] == f && Evict(a).1.mru == a.mru[..v.at] + a.mru[v.at + 1..];
      assert !v.inMru ==> a.mfu[v.at] == f && Evict(a).1.mfu == a.mfu[..v.at] + a.mfu[v.at + 1..];
    }
  }

  lemma MoveOutAlive(a: Lists, v: Place)
    requires AliveOk(a) && v.at < |if v.inMru then a.mru else a.mfu|
    ensures AliveOk(MoveOut(a, v)) && FrameAt(a, v) in a.alive
    ensures MoveOut(a, v).alive == a.alive - {FrameAt(a, v)}
  {
    var list := if v.inMru then a.mru else a.mfu;
    assert NoDup(list);
    DropAtIsWithout(list, v.at);
    WithoutMembers(list, list[v.at]);
  }

  lemma MoveOutGhosts(a: Lists, v: Place)
    requires AliveOk(a) && GhostsOk(a) && PagesOk(a) && v.at < |if v.inMru then a.mru else a.mfu|
    ensures GhostsOk(MoveOut(a, v)) && PagesOk(MoveOut(a, v))
  {
    var f := FrameAt(a, v);
    assert f in a.alive;
    var p := a.alive[f].page;
    PushMembers(if v.inMru then a.mruGhost else a.mfuGhost, p);
    var b := MoveOut(a, v);
    assert forall g :: g in b.alive ==> g in a.alive && g != f && b.alive[g] == a.alive[g];
  }

  /** Evicting keeps the invariant. */
  lemma EvictInv(a: Lists, c: nat)
    requires Inv(a, c)
    ensures Inv(Evict(a).1, c)
  {
    if Choice(a).Some? {
      var v := Choice(a).value;
      hide AliveOk, GhostsOk, PagesOk;
      MoveOutAlive(a, v);
      MoveOutGhosts(a, v);
    }
  }

  // ---- record access ----------------------------------------------------------------------------

  function GrownTarget(a: Lists): nat
    requires a.mruGhost != []
  {
    a.target + if |a.mruGhost| >= |a.mfuGhost| then 1 else |a.mfuGhost| / |a.mruGhost|
  }

  function ShrunkTarget(a: Lists): nat
    requires a.mfuGhost != []
  {
    var d := if |a.mfuGhost| >= |a.mruGhost| then 1 else |a.mruGhost| / |a.mfuGhost|;
    if a.target >= d then a.target - d else a.target
  }

  function HitAlive(a: Lists, f: nat): Lists
    requires f in a.alive
  {
    a.(mru := if a.alive[f].status == Mru then Without(a.mru, f) else a.mru,
       mfu := [f] + (if a.alive[f].status == Mru then a.mfu else Without(a.mfu, f)),
       alive := a.alive[f := a.alive[f].(status := Mfu)])
  }

  function HitGhost(a: Lists, f: nat, p: nat): Lists
    requires p in a.ghosts && IsGhost(a, p) && GhostsOk(a)
  {
    var b := a.(mfu := [f] + a.mfu, alive := a.alive[f := FrameStatus(p, f, false, Mfu)], ghosts := a.ghosts - {p});
    if a.ghosts[p].status == MruGhost then b.(mruGhost := Without(a.mruGhost, p), target := GrownTarget(a))
    else b.(mfuGhost := Without(a.mfuGhost, p), target := ShrunkTarget(a))
  }

  /** Whichever ghost list a miss pops has something to pop. */
  predicate PopsAllowed(a: Lists, c: nat) {
    && (|a.mru| + |a.mruGhost| == c ==> a.mruGhost != [])
    && (|a.mru| + |a.mruGhost| != c && |a.mru| + |a.mruGhost| + |a.mfu| + |a.mfuGhost| == 2 * c ==> a.mfuGhost != [])
  }

  /**
   * A page seen for the first time; a ghost list that is at its bound forgets its oldest page, but not its map
   * entry.
   */
  function Miss(a: Lists, f: nat, p: nat, c: nat): Lists
    requires PopsAllowed(a, c)
  {
    var b :=
      if |a.mru| + |a.mruGhost| == c then a.(mruGhost := DropLast(a.mruGhost))
      else if |a.mru| + |a.mruGhost| + |a.mfu| + |a.mfuGhost| == 2 * c then a.(mfuGhost := DropLast(a.mfuGhost))
      else a;
    b.(mru := [f] + a.mru, alive := a.alive[f := FrameStatus(p, f, false, Mru)])
  }

  /** An access the code can take: frame ids below capacity, a frame keeps its page, a page is in one frame. */
  predicate CanAccess(a: Lists, f: nat, p: nat, c: nat) {
    f < c && if f in a.alive then a.alive[f].page == p else !Alive(a, p)
  }

  /** The code aborts on a page whose ghost entry is stale. */
  predicate Aborts(a: Lists, f: nat, p: nat) {
    f !in a.alive && Stale(a, p)
  }

  /** pop_back is never reached on an empty ghost list. */
  lemma PopsAreSafe(a: Lists, f: nat, c: nat)
    requires Inv(a, c) && f < c && f !in a.alive
    ensures PopsAllowed(a, c)
  {
    RoomForFrame(a.mru, a.mfu, f, c);
  }

  function Access(a: Lists, f: nat, p: nat, c: nat): Lists
    requires Inv(a, c) && CanAccess(a, f, p, c) && !Aborts(a, f, p)
  {
    if f in a.alive then HitAlive(a, f)
    else if p in a.ghosts then HitGhost(a, f, p)
    else
      PopsAreSafe(a, f, c);
      Miss(a, f, p, c)
  }

  lemma HitAliveInv(a: Lists, f: nat, c: nat)
    requires Inv(a, c) && f in a.alive
    ensures Inv(HitAlive(a, f), c)
  {
    hide Without, Separate, NoDup;
    HitAliveLists(a, f);
    var b := HitAlive(a, f);
    assert b.alive.Keys == a.alive.Keys;
    assert forall g :: g in b.alive ==> b.alive[g].page == a.alive[g].page;
  }

  lemma HitAliveLists(a: Lists, f: nat)
    requires AliveOk(a) && f in a.alive
    ensures AliveOk(HitAlive(a, f))
    ensures |HitAlive(a, f).mru| <= |a.mru| && |HitAlive(a, f).mru| + |HitAlive(a, f).mfu| == |a.mru| + |a.mfu|
  {
    hide Without;
    var list := if a.alive[f].status == Mru then a.mru else a.mfu;
    WithoutMembers(list, f);
    PushMembers(if a.alive[f].status == Mru then a.mfu else Without(a.mfu, f), f);
  }

  lemma HitGhostInv(a: Lists, f: nat, p: nat, c: nat)
    requires Inv(a, c) && f < c && f !in a.alive && !Alive(a, p) && p in a.ghosts && IsGhost(a, p)
    ensures Inv(HitGhost(a, f, p), c)
  {
    PushMembers(a.mfu, f);
    WithoutMembers(if a.ghosts[p].status == MruGhost then a.mruGhost else a.mfuGhost, p);
    var b := HitGhost(a, f, p);
    HitGhostAlive(a, f, p, b);
    HitGhostGhosts(a, f, p, b);
    NewPageOk(a, b, f, p);
  }

  lemma HitGhostAlive(a: Lists, f: nat, p: nat, b: Lists)
    requires AliveOk(a) && f !in a.alive
    requires b.mru == a.mru && b.mfu == [f] + a.mfu && b.alive == a.alive[f := FrameStatus(p, f, false, Mfu)]
    ensures AliveOk(b)
  {
    PushMembers(a.mfu, f);
  }

  lemma HitGhostGhosts(a: Lists, f: nat, p: nat, b: Lists)
    requires GhostsOk(a) && IsGhost(a, p) && b == HitGhost(a, f, p)
    ensures GhostsOk(b) && !IsGhost(b, p) && forall q :: IsGhost(b, q) ==> IsGhost(a, q)
  {
    WithoutMembers(if a.ghosts[p].status == MruGhost then a.mruGhost else a.mfuGhost, p);
  }

  /** A new frame for a page that was not alive and is no ghost any more. */
  lemma NewPageOk(a: Lists, b: Lists, f: nat, p: nat)
    requires PagesOk(a) && !Alive(a, p) && f !in a.alive && !IsGhost(b, p)
    requires f in b.alive && b.alive == a.alive[f := b.alive[f]] && b.alive[f].page == p
    requires forall q :: IsGhost(b, q) ==> IsGhost(a, q)
    ensures PagesOk(b)
  {
    forall g | g in b.alive
      ensures !IsGhost(b, b.alive[g].page)
      ensures g != f ==> b.alive[g].page != p
    {
      if g != f {
        assert g in a.alive && b.alive[g] == a.alive[g];
      }
    }
  }

  lemma MissInv(a: Lists, f: nat, p: nat, c: nat)
    requires Inv(a, c) && f < c && f !in a.alive && !Alive(a, p) && p !in a.ghosts
    requires PopsAllowed(a, c)
    ensures Inv(Miss(a, f, p, c), c)
  {
    var b := Miss(a, f, p, c);
    PushMembers(a.mru, f);
    if a.mruGhost != [] {
      DropLastMembers(a.mruGhost);
    }
    if a.mfuGhost != [] {
      DropLastMembers(a.mfuGhost);
    }
    MissAlive(a, f, p, b);
    NewPageOk(a, b, f, p);
  }

  lemma MissAlive(a: Lists, f: nat, p: nat, b: Lists)
    requires AliveOk(a) && f !in a.alive
    requires b.mfu == a.mfu && b.mru == [f] + a.mru && b.alive == a.alive[f := FrameStatus(p, f, false, Mru)]
    ensures AliveOk(b)
  {
    PushMembers(a.mru, f);
  }

  /** Every access that does not abort keeps the invariant. */
  lemma AccessInv(a: Lists, f: nat, p: nat, c: nat)
    requires Inv(a, c) && CanAccess(a, f, p, c) && !Aborts(a, f, p)
    ensures Inv(Access(a, f, p, c), c)
  {
    hide Inv, HitAlive, HitGhost, Miss;
    if f in a.alive {
      HitAliveInv(a, f, c);
    } else if p in a.ghosts {
      HitGhostInv(a, f, p, c);
    } else {
      PopsAreSafe(a, f, c);
      MissInv(a, f, p, c);
    }
  }

  /** Frame f now holds page p and is in front of a list; no other frame's entry or rank has changed. */
  ghost predicate Touched(a: Lists, b: Lists, f: nat, p: nat) {
    && b.alive.Keys == a.alive.Keys + {f} && b.alive[f].page == p
    && (b.alive[f].evictable <==> f in a.alive && a.alive[f].evictable)
    && (forall g :: g in a.alive && g != f ==> b.alive[g] == a.alive[g])
    && Without(b.mru, f) == Without(a.mru, f) && Without(b.mfu, f) == Without(a.mfu, f)
    && !IsGhost(b, p)
  }

  /**
   * What an access means. The frame is the most recent one of its list: of the second list if the page was alive or
   * remembered, of the first otherwise. All other frames keep their entries and order. A page remembered from the
   * first list raises the target by 1, or by how many times the second ghost list is longer than the first; one from
   * the second lowers it the same way the other way round, unless it is too low for that. Both are forgotten as ghosts.
   */
  lemma AccessEffect(a: Lists, f: nat, p: nat, c: nat)
    requires Inv(a, c) && CanAccess(a, f, p, c) && !Aborts(a, f, p)
    ensures var b := Access(a, f, p, c);
            && Touched(a, b, f, p)
            && if f in a.alive || IsGhost(a, p) then b.mfu != [] && b.mfu[0] == f && f !in b.mru
               else b.mru != [] && b.mru[0] == f && f !in b.mfu
    ensures var b := Access(a, f, p, c);
            if f in a.alive then b.target == a.target && b.mruGhost == a.mruGhost && b.mfuGhost == a.mfuGhost
            else if p in a.mruGhost then
              var up := if |a.mruGhost| >= |a.mfuGhost| then 1 else |a.mfuGhost| / |a.mruGhost|;
              b.target == a.target + up > a.target && b.mruGhost == Without(a.mruGhost, p) && b.mfuGhost == a.mfuGhost
            else if p in a.mfuGhost then
              var down := if |a.mfuGhost| >= |a.mruGhost| then 1 else |a.mruGhost| / |a.mfuGhost|;
              && b.target == (if a.target >= down then a.target - down else a.target)
              && b.mruGhost == a.mruGhost && b.mfuGhost == Without(a.mfuGhost, p)
            else b.target == a.target && b.mruGhost <= a.mruGhost && b.mfuGhost <= a.mfuGhost
  {
    hide Touched, Without, Separate, NoDup;
    AccessInv(a, f, p, c);
    if f in a.alive {
      HitAliveEffect(a, f, c);
    } else if p in a.ghosts {
      HitGhostEffect(a, f, p, c);
      if p in a.mruGhost {
        TargetGrows(a);
      }
    } else {
      PopsAreSafe(a, f, c);
      MissEffect(a, f, p, c);
    }
  }

  /** An access to a frame that holds its page already: it leaves its place and goes to the front of the second list. */
  lemma AliveExact(a: Lists, f: nat, c: nat)
    requires Inv(a, c) && f in a.alive && CanAccess(a, f, a.alive[f].page, c) && !Aborts(a, f, a.alive[f].page)
    ensures var b, touched := Access(a, f, a.alive[f].page, c), a.alive[f := a.alive[f].(status := Mfu)];
            if f in a.mru then
              exists i :: 0 <= i < |a.mru| && a.mru[i] == f
                          && b == a.(mru := a.mru[..i] + a.mru[i + 1..], mfu := [f] + a.mfu, alive := touched)
            else
              exists i :: 0 <= i < |a.mfu| && a.mfu[i] == f
                          && b == a.(mfu := [f] + (a.mfu[..i] + a.mfu[i + 1..]), alive := touched)
  {
    assert AliveOk(a) && Separate(a.mru, a.mfu);
    hide Without, Inv, GhostsOk, PagesOk;
    if f in a.mru {
      var i := WithoutAt(a.mru, f);
    } else {
      var i := WithoutAt(a.mfu, f);
    }
  }

  /** Taking out a member is leaving out one place. */
  lemma WithoutAt(s: seq<nat>, x: nat) returns (i: nat)
    requires x in s && NoDup(s)
    ensures i < |s| && s[i] == x && Without(s, x) == s[..i] + s[i + 1..]
  {
    i :| i < |s| && s[i] == x;
    DropAtIsWithout(s, i);
  }

  /** An access to a page remembered in a ghost list: it comes back to the second list, and the target moves. */
  lemma GhostExact(a: Lists, f: nat, p: nat, c: nat)
    requires Inv(a, c) && f !in a.alive && IsGhost(a, p) && CanAccess(a, f, p, c) && !Aborts(a, f, p)
    ensures var b := Access(a, f, p, c);
            && b.mru == a.mru && b.mfu == [f] + a.mfu && b.alive == a.alive[f := FrameStatus(p, f, false, Mfu)]
            && b.ghosts == a.ghosts - {p}
            && if p in a.mruGhost then
                 && b.mfuGhost == a.mfuGhost
                 && exists i :: 0 <= i < |a.mruGhost| && a.mruGhost[i] == p
                                && b.mruGhost == a.mruGhost[..i] + a.mruGhost[i + 1..]
               else
                 && b.mruGhost == a.mruGhost
                 && exists i :: 0 <= i < |a.mfuGhost| && a.mfuGhost[i] == p
                                && b.mfuGhost == a.mfuGhost[..i] + a.mfuGhost[i + 1..]
  {
    assert GhostsOk(a) && Separate(a.mruGhost, a.mfuGhost);
    hide Without, Inv, AliveOk, PagesOk, GrownTarget, ShrunkTarget, Alive;
    if p in a.mruGhost {
      var i := WithoutAt(a.mruGhost, p);
    } else {
      var i := WithoutAt(a.mfuGhost, p);
    }
  }

  /**
   * An access to any other page: it goes to the front of the first list. When that list and its ghosts are at capacity
   * their oldest ghost is dropped, or else, when all four lists are at twice the capacity, the oldest of the second's.
   */
  lemma NewExact(a: Lists, f: nat, p: nat, c: nat)
    requires Inv(a, c) && f !in a.alive && p !in a.ghosts && CanAccess(a, f, p, c)
    ensures var b := Access(a, f, p, c);
            var first, all := |a.mru| + |a.mruGhost| == c, |a.mru| + |a.mruGhost| + |a.mfu| + |a.mfuGhost| == 2 * c;
            && b.mru == [f] + a.mru && b.mfu == a.mfu && b.alive == a.alive[f := FrameStatus(p, f, false, Mru)]
            && b.ghosts == a.ghosts && b.target == a.target
            && (first ==> a.mruGhost != [] && b.mruGhost == a.mruGhost[..|a.mruGhost| - 1])
            && (!first ==> b.mruGhost == a.mruGhost)
            && (!first && all ==> a.mfuGhost != [] && b.mfuGhost == a.mfuGhost[..|a.mfuGhost| - 1])
            && (first || !all ==> b.mfuGhost == a.mfuGhost)
  {
    PopsAreSafe(a, f, c);
  }

  lemma HitAliveEffect(a: Lists, f: nat, c: nat)
    requires Inv(a, c) && f in a.alive
    ensures var b := HitAlive(a, f); Touched(a, b, f, a.alive[f].page) && f !in b.mru
  {
    hide Without, NoDup;
    WithoutMembers(a.mru, f);
    WithoutMembers(a.mfu, f);
    if a.alive[f].status == Mru {
      NotIn(a.mfu, f);
      NotIn(Without(a.mru, f), f);
      FrontGone(a.mfu, f);
    } else {
      FrontGone(Without(a.mfu, f), f);
    }
  }

  lemma HitGhostEffect(a: Lists, f: nat, p: nat, c: nat)
    requires Inv(a, c) && f < c && f !in a.alive && !Alive(a, p) && p in a.ghosts && IsGhost(a, p)
    ensures var b := HitGhost(a, f, p); Touched(a, b, f, p) && f !in b.mru
    ensures var b := HitGhost(a, f, p);
            if p in a.mruGhost then
              b.target == GrownTarget(a) && b.mruGhost == Without(a.mruGhost, p) && b.mfuGhost == a.mfuGhost
            else b.target == ShrunkTarget(a) && b.mruGhost == a.mruGhost && b.mfuGhost == Without(a.mfuGhost, p)
  {
    hide Without, NoDup, GrownTarget, ShrunkTarget;
    WithoutMembers(a.mruGhost, p);
    WithoutMembers(a.mfuGhost, p);
    NotIn(a.mru, f);
    NotIn(a.mfu, f);
    FrontGone(a.mfu, f);
  }

  lemma TargetGrows(a: Lists)
    requires a.mruGhost != []
    ensures GrownTarget(a) > a.target
  {
    var x, y := |a.mruGhost|, |a.mfuGhost|;
    if x < y {
      assert y == x * (y / x) + y % x && y % x < x;
    }
  }

  lemma MissEffect(a: Lists, f: nat, p: nat, c: nat)
    requires Inv(a, c) && f < c && f !in a.alive && !Alive(a, p) && p !in a.ghosts && PopsAllowed(a, c)
    ensures var b := Miss(a, f, p, c);
            && Touched(a, b, f, p) && f !in b.mfu
            && b.target == a.target && b.mruGhost <= a.mruGhost && b.mfuGhost <= a.mfuGhost
  {
    hide Without, NoDup;
    NotIn(a.mru, f);
    NotIn(a.mfu, f);
    FrontGone(a.mru, f);
    assert forall q :: q in Miss(a, f, p, c).mruGhost ==> q in a.mruGhost;
    assert forall q :: q in Miss(a, f, p, c).mfuGhost ==> q in a.mfuGhost;
  }

  /** The evicted page is remembered in front of its list's ghosts, and nothing else moves. */
  lemma EvictEffect(a: Lists, c: nat)
    requires Inv(a, c) && Choice(a).Some?
    ensures var (r, b) := Evict(a);
            && r.Some? && r.value.1 in a.alive && a.alive[r.value.1].page == r.value.0
            && b.alive == a.alive - {r.value.1} && b.target == a.target
            && b.mru == Without(a.mru, r.value.1) && b.mfu == Without(a.mfu, r.value.1)
            && if Choice(a).value.inMru then b.mruGhost == [r.value.0] + a.mruGhost && b.mfuGhost == a.mfuGhost
               else b.mfuGhost == [r.value.0] + a.mfuGhost && b.mruGhost == a.mruGhost
  {
    hide Without, LastEvictable;
    VictimIsLeastRecent(a);
    var v := Choice(a).value;
    var list := if v.inMru then a.mru else a.mfu;
    hide Choice;
    DropAtIsWithout(list, v.at);
    NotIn(if v.inMru then a.mfu else a.mru, FrameAt(a, v));
  }

  lemma FrontGone(s: seq<nat>, x: nat)
    ensures Without([x] + s, x) == s
  {
    assert ([x] + s)[1..] == s;
  }

  lemma {:induction false} NotIn(s: seq<nat>, x: nat)
    requires x !in s
    ensures Without(s, x) == s
  {
    if s != [] {
      NotIn(s[1..], x);
    }
  }

  // ---- pins and removal ---------------------------------------------------------------------------

  function SetEvictable(a: Lists, f: nat, evictable: bool): Lists {
    if f in a.alive then a.(alive := a.alive[f := a.alive[f].(evictable := evictable)]) else a
  }

  lemma SetEvictableInv(a: Lists, f: nat, evictable: bool, c: nat)
    requires Inv(a, c)
    ensures Inv(SetEvictable(a, f, evictable), c)
  {
    var b := SetEvictable(a, f, evictable);
    assert b.alive.Keys == a.alive.Keys;
    assert forall g :: g in b.alive ==> b.alive[g].page == a.alive[g].page && b.alive[g].status == a.alive[g].status;
  }

  function Remove(a: Lists, f: nat): Lists {
    if f in a.alive then
      var b := a.(alive := a.alive - {f});
      if a.alive[f].status == Mru then b.(mru := Without(a.mru, f)) else b.(mfu := Without(a.mfu, f))
    else a
  }

  lemma RemoveInv(a: Lists, f: nat, c: nat)
    requires Inv(a, c)
    ensures Inv(Remove(a, f), c)
  {
    if f in a.alive {
      WithoutMembers(a.mru, f);
      WithoutMembers(a.mfu, f);
      var b := Remove(a, f);
      assert forall g :: g in b.alive ==> g in a.alive && b.alive[g] == a.alive[g];
    }
  }

  /** A frame removed leaves its entry and its place in its list; nothing else changes, the ghosts included. */
  lemma RemoveExact(a: Lists, f: nat)
    requires AliveOk(a)
    ensures f !in a.alive ==> Remove(a, f) == a
    ensures f in a.alive && f in a.mru ==>
              exists i :: 0 <= i < |a.mru| && a.mru[i] == f
                          && Remove(a, f) == a.(mru := a.mru[..i] + a.mru[i + 1..], alive := a.alive - {f})
    ensures f in a.alive && f !in a.mru ==>
              exists i :: 0 <= i < |a.mfu| && a.mfu[i] == f
                          && Remove(a, f) == a.(mfu := a.mfu[..i] + a.mfu[i + 1..], alive := a.alive - {f})
  {
    assert Separate(a.mru, a.mfu);
    hide Without;
    if f in a.mru {
      var i := WithoutAt(a.mru, f);
    } else if f in a.alive {
      var i := WithoutAt(a.mfu, f);
    }
  }

  // ---- stale ghosts -------------------------------------------------------------------------------

  /** A page stops being a ghost without losing its entry only when a miss pops it off the end of a ghost list. */
  lemma StaleComesFromPop(a: Lists, f: nat, p: nat, c: nat, q: nat)
    requires Inv(a, c) && CanAccess(a, f, p, c) && !Aborts(a, f, p) && !Stale(a, q) && Stale(Access(a, f, p, c), q)
    ensures f !in a.alive && p !in a.ghosts
    ensures (|a.mru| + |a.mruGhost| == c && a.mruGhost != [] && q == a.mruGhost[|a.mruGhost| - 1])
         || (a.mfuGhost != [] && q == a.mfuGhost[|a.mfuGhost| - 1])
  {
    if f !in a.alive && p in a.ghosts {
      WithoutMembers(a.mruGhost, p);
      WithoutMembers(a.mfuGhost, p);
    }
    if f !in a.alive && p !in a.ghosts {
      PopsAreSafe(a, f, c);
      assert a.mruGhost != [] ==> a.mruGhost == DropLast(a.mruGhost) + [a.mruGhost[|a.mruGhost| - 1]];
      assert a.mfuGhost != [] ==> a.mfuGhost == DropLast(a.mfuGhost) + [a.mfuGhost[|a.mfuGhost| - 1]];
    }
  }

  // ---- runs ---------------------------------------------------------------------------------------

  datatype Op = AccessOp(f: nat, p: nat) | EvictOp | SetOp(f: nat, evictable: bool) | RemoveOp(f: nat)

  /** Operations that do not abort, called as the buffer pool calls them. */
  predicate Allowed(a: Lists, op: Op, c: nat) {
    match op
    case AccessOp(f, p) => CanAccess(a, f, p, c) && !Aborts(a, f, p)
    case EvictOp => true
    case SetOp(f, _) => f < c
    case RemoveOp(f) => f in a.alive ==> a.alive[f].evictable
  }

  function Apply(a: Lists, op: Op, c: nat): Lists
    requires Inv(a, c) && Allowed(a, op, c)
  {
    match op
    case AccessOp(f, p) => Access(a, f, p, c)
    case EvictOp => Evict(a).1
    case SetOp(f, e) => SetEvictable(a, f, e)
    case RemoveOp(f) => Remove(a, f)
  }

  lemma ApplyInv(a: Lists, op: Op, c: nat)
    requires Inv(a, c) && Allowed(a, op, c)
    ensures Inv(Apply(a, op, c), c)
  {
    hide Inv, Allowed;
    match op
    case AccessOp(f, p) => AllowedAccess(a, f, p, c); AccessInv(a, f, p, c);
    case EvictOp => EvictInv(a, c);
    case SetOp(f, e) => SetEvictableInv(a, f, e, c);
    case RemoveOp(f) => RemoveInv(a, f, c);
  }

  lemma AllowedAccess(a: Lists, f: nat, p: nat, c: nat)
    requires Allowed(a, AccessOp(f, p), c)
    ensures CanAccess(a, f, p, c) && !Aborts(a, f, p)
  {
  }

  /**
   * The state after a run from empty lists, if every operation of it was allowed. Whatever the run, the invariant
   * holds.
   */
  function Replay(ops: seq<Op>, c: nat): (r: Option<Lists>)
    ensures r.Some? ==> Inv(r.value, c)
  {
    if ops == [] then
      EmptyInv(c);
      Some(Empty())
    else
      match Replay(ops[..|ops| - 1], c)
      case None => None
      case Some(a) =>
        if Allowed(a, ops[|ops| - 1], c) then
          ApplyInv(a, ops[|ops| - 1], c);
          Some(Apply(a, ops[|ops| - 1], c))
        else None
  }

  lemma ReplayStep(ops: seq<Op>, op: Op, c: nat)
    requires Replay(ops, c).Some? && Allowed(Replay(ops, c).value, op, c)
    ensures Replay(ops + [op], c) == Some(Apply(Replay(ops, c).value, op, c))
  {
    assert (ops + [op])[..|ops|] == ops;
  }

  lemma EmptyReplay(c: nat)
    ensures Replay([], c) == Some(Empty())
  {
  }
}
