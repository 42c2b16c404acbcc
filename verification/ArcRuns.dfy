/** Whole runs of the replacer: how far the target goes, and when exactly an access aborts. */
module ArcRuns {
  import opened Bytes
  import opened Arc

  // ---- the target ---------------------------------------------------------------------------------

  /** A target within the capacity stays there unless a page remembered from the first list raises it beyond. */
  lemma TargetStaysWithin(a: Lists, f: nat, p: nat, c: nat)
    requires Inv(a, c) && CanAccess(a, f, p, c) && !Aborts(a, f, p) && a.target <= c
    ensures Access(a, f, p, c).target <= c
       <==> f in a.alive || p !in a.mruGhost
            || a.target + (if |a.mruGhost| >= |a.mfuGhost| then 1 else |a.mfuGhost| / |a.mruGhost|) <= c
  {
    AccessEffect(a, f, p, c);
  }

  /** Nothing is alive and the first ghost list is empty: where each round below starts and ends. */
  ghost predicate Quiet(a: Lists, c: nat) {
    Inv(a, c) && a.mru == [] && a.mfu == [] && a.mruGhost == [] && a.alive == map[]
  }

  /** Load a page into frame 0, let go of it, and evict it. */
  function LoadOut(p: nat): seq<Op> { [AccessOp(0, p), SetOp(0, true), EvictOp] }

  /** The same twice: the second load finds the page among the first list's ghosts. */
  function Round(p: nat): seq<Op> { LoadOut(p) + LoadOut(p) }

  /** One page loaded into frame 0 and made evictable, in either list, and then evicted. */
  lemma EvictOnly(a: Lists, p: nat, st: Status)
    requires st == Mru || st == Mfu
    requires a.mru == (if st == Mru then [0] else []) && a.mfu == if st == Mru then [] else [0]
    requires a.alive == map[0 := FrameStatus(p, 0, true, st)]
    ensures AliveOk(a)
    ensures var ghost' := FrameStatus(p, INVALID_FRAME, true, if st == Mru then MruGhost else MfuGhost);
            var mruGhost' := if st == Mru then [p] + a.mruGhost else a.mruGhost;
            var mfuGhost' := if st == Mru then a.mfuGhost else [p] + a.mfuGhost;
            Evict(a).1 == Lists([], [], mruGhost', mfuGhost', map[], a.ghosts[p := ghost'], a.target)
  {
    assert AliveOk(a);
    var list := [0];
    assert LastEvictable(list, a.alive) == 0 && LastEvictable([], a.alive) == 0;
    assert DropAt(list, 0) == [];
    assert a.alive - {0} == map[];
  }

  /** The page is new: it comes in through the first list and leaves to the first ghost list. */
  lemma FirstHalf(a: Lists, p: nat, c: nat) returns (s: seq<nat>)
    requires Quiet(a, c) && 0 < c && p !in a.ghosts
    ensures CanAccess(a, 0, p, c) && !Aborts(a, 0, p) && |s| <= |a.mfuGhost|
    ensures var b := SetEvictable(Access(a, 0, p, c), 0, true);
            && AliveOk(b)
            && var g := FrameStatus(p, INVALID_FRAME, true, MruGhost);
               Evict(b).1 == Lists([], [], [p], s, map[], a.ghosts[p := g], a.target)
  {
    s := if |a.mfuGhost| == 2 * c then DropLast(a.mfuGhost) else a.mfuGhost;
    var b := SetEvictable(Access(a, 0, p, c), 0, true);
    assert b == Lists([0], [], [], s, map[0 := FrameStatus(p, 0, true, Mru)], a.ghosts, a.target);
    EvictOnly(b, p, Mru);
  }

  /** The page is a ghost of the first list: it raises the target, and leaves to the second ghost list. */
  lemma SecondHalf(a: Lists, p: nat, c: nat)
    requires Inv(a, c) && 0 < c && a.mru == [] && a.mfu == [] && a.mruGhost == [p] && a.alive == map[]
    ensures CanAccess(a, 0, p, c) && !Aborts(a, 0, p)
    ensures var b := SetEvictable(Access(a, 0, p, c), 0, true);
            && AliveOk(b)
            && var e := Evict(b).1;
               && e.mru == [] && e.mfu == [] && e.mruGhost == [] && e.alive == map[]
               && e.ghosts.Keys == a.ghosts.Keys && e.target > a.target
  {
    assert p in a.mruGhost && IsGhost(a, p);
    TargetGrows(a);
    assert Without([p], p) == [];
    var b := SetEvictable(Access(a, 0, p, c), 0, true);
    assert b == Lists([], [0], [], a.mfuGhost, map[0 := FrameStatus(p, 0, true, Mfu)], a.ghosts - {p}, GrownTarget(a));
    EvictOnly(b, p, Mfu);
  }

  /** Three operations in a row, the first an access and the second one that makes its frame evictable. */
  lemma ThreeSteps(ops: seq<Op>, p: nat, c: nat)
    requires Replay(ops, c).Some? && 0 < c
    requires var a := Replay(ops, c).value; CanAccess(a, 0, p, c) && !Aborts(a, 0, p)
    ensures var b := SetEvictable(Access(Replay(ops, c).value, 0, p, c), 0, true);
            && AliveOk(b)
            && Replay(ops + LoadOut(p), c) == Some(Evict(b).1)
  {
    hide Inv, Replay, Access, SetEvictable, Evict, CanAccess, Aborts;
    ReplayStep(ops, AccessOp(0, p), c);
    ReplayStep(ops + [AccessOp(0, p)], SetOp(0, true), c);
    InvAlive(Replay(ops + [AccessOp(0, p)] + [SetOp(0, true)], c).value, c);
    ReplayStep(ops + [AccessOp(0, p)] + [SetOp(0, true)], EvictOp, c);
    assert ops + [AccessOp(0, p)] + [SetOp(0, true)] + [EvictOp] == ops + LoadOut(p);
  }

  lemma InvAlive(a: Lists, c: nat)
    requires Inv(a, c)
    ensures AliveOk(a)
  {
  }

  /** Each round with a page not met before raises the target. */
  lemma RoundRaises(ops: seq<Op>, p: nat, c: nat)
    requires 0 < c && Replay(ops, c).Some?
    requires Quiet(Replay(ops, c).value, c) && p !in Replay(ops, c).value.ghosts
    ensures Replay(ops + Round(p), c).Some?
    ensures var a, b := Replay(ops, c).value, Replay(ops + Round(p), c).value;
            Quiet(b, c) && b.ghosts.Keys == a.ghosts.Keys + {p} && b.target > a.target
  {
    hide Inv, Replay, Access, SetEvictable, Evict, CanAccess, Aborts;
    var a := Replay(ops, c).value;
    var s := FirstHalf(a, p, c);
    ThreeSteps(ops, p, c);
    var half := ops + LoadOut(p);
    SecondHalf(Replay(half, c).value, p, c);
    ThreeSteps(half, p, c);
    assert half + LoadOut(p) == ops + Round(p);
  }

  /** Rounds with pages 0 up to n, in order. */
  function Rounds(n: nat): seq<Op> {
    if n == 0 then [] else Rounds(n - 1) + Round(n - 1)
  }

  /** The target has no upper bound: after n rounds it is at least n, whatever the capacity. */
  lemma {:induction false} TargetUnbounded(c: nat, n: nat)
    requires 0 < c
    ensures Replay(Rounds(n), c).Some?
    ensures var a := Replay(Rounds(n), c).value;
            Quiet(a, c) && a.target >= n && (forall p :: p in a.ghosts ==> p < n)
  {
    hide Quiet, Replay, Round;
    if n == 0 {
      EmptyReplay(c);
      EmptyQuiet(c);
    } else {
      TargetUnbounded(c, n - 1);
      RoundRaises(Rounds(n - 1), n - 1, c);
    }
  }

  lemma EmptyQuiet(c: nat)
    ensures Quiet(Empty(), c)
  {
    EmptyInv(c);
  }

  /** For every capacity some run from empty lists takes the target beyond it. */
  lemma TargetExceedsCapacity(c: nat)
    requires 0 < c
    ensures exists ops :: Replay(ops, c).Some? && Replay(ops, c).value.target > c
  {
    hide Replay;
    TargetUnbounded(c, c + 1);
  }

  // ---- stale entries ------------------------------------------------------------------------------

  /** The page a step forgets: the oldest of a ghost list that is at its bound when a new page comes in. */
  function Pops(a: Lists, op: Op, c: nat): set<nat> {
    if !op.AccessOp? || op.f in a.alive || op.p in a.ghosts then {}
    else if |a.mru| + |a.mruGhost| == c then
      if a.mruGhost == [] then {} else {a.mruGhost[|a.mruGhost| - 1]}
    else if |a.mru| + |a.mruGhost| + |a.mfu| + |a.mfuGhost| == 2 * c && a.mfuGhost != [] then
      {a.mfuGhost[|a.mfuGhost| - 1]}
    else {}
  }

  /** No alive page has an entry in ghost_map_. */
  predicate AliveForgotten(a: Lists) {
    forall f :: f in a.alive ==> a.alive[f].page !in a.ghosts
  }

  lemma LastApart(s: seq<nat>, q: nat)
    requires s != [] && NoDup(s)
    ensures q in DropLast(s) <==> q in s && q != s[|s| - 1]
  {
    assert s == DropLast(s) + [s[|s| - 1]];
  }

  /** A step makes stale what it pops, and makes nothing that was stale fresh again. */
  lemma StaleStep(a: Lists, op: Op, c: nat, q: nat)
    requires Inv(a, c) && Allowed(a, op, c) && AliveForgotten(a)
    ensures Stale(Apply(a, op, c), q) <==> Stale(a, q) || q in Pops(a, op, c)
    ensures AliveForgotten(Apply(a, op, c))
  {
    match op
    case AccessOp(f, p) => StaleAccess(a, f, p, c, q);
    case EvictOp => StaleEvict(a, c, q);
    case SetOp(f, e) =>
    case RemoveOp(f) =>
  }

  lemma StaleAccess(a: Lists, f: nat, p: nat, c: nat, q: nat)
    requires Inv(a, c) && CanAccess(a, f, p, c) && !Aborts(a, f, p) && AliveForgotten(a)
    ensures Stale(Access(a, f, p, c), q) <==> Stale(a, q) || q in Pops(a, AccessOp(f, p), c)
    ensures AliveForgotten(Access(a, f, p, c))
  {
    if f in a.alive {
    } else if p in a.ghosts {
      WithoutMembers(a.mruGhost, p);
      WithoutMembers(a.mfuGhost, p);
    } else {
      PopsAreSafe(a, f, c);
      if a.mruGhost != [] {
        LastApart(a.mruGhost, q);
      }
      if a.mfuGhost != [] {
        LastApart(a.mfuGhost, q);
      }
    }
  }

  lemma StaleEvict(a: Lists, c: nat, q: nat)
    requires Inv(a, c) && AliveForgotten(a)
    ensures Stale(Evict(a).1, q) <==> Stale(a, q)
    ensures AliveForgotten(Evict(a).1)
  {
    if Choice(a).Some? {
      VictimIsLeastRecent(a);
      var f := FrameAt(a, Choice(a).value);
      assert f in a.alive;
    }
  }

  /** Everything a run has popped off a ghost list. */
  function Forgotten(ops: seq<Op>, c: nat): set<nat> {
    if ops == [] then {}
    else
      var before := ops[..|ops| - 1];
      Forgotten(before, c) + match Replay(before, c)
                             case None => {}
                             case Some(a) => Pops(a, ops[|ops| - 1], c)
  }

  /** After any run a page is stale if and only if the run has popped it; no later operation brings it back. */
  lemma {:induction false} StaleIsForgotten(ops: seq<Op>, c: nat, q: nat)
    requires Replay(ops, c).Some?
    ensures Stale(Replay(ops, c).value, q) <==> q in Forgotten(ops, c)
    ensures AliveForgotten(Replay(ops, c).value)
  {
    hide Stale, Pops, Inv, Apply, Allowed, AliveForgotten;
    if ops == [] {
      NothingStale(q);
    } else {
      var n := |ops| - 1;
      StaleIsForgotten(ops[..n], c, q);
      StaleStep(Replay(ops[..n], c).value, ops[n], c, q);
    }
  }

  lemma NothingStale(q: nat)
    ensures !Stale(Empty(), q) && AliveForgotten(Empty())
  {
  }

  /** So an access after a run aborts if and only if its frame is not alive and the run has popped its page. */
  lemma AbortsExactly(ops: seq<Op>, c: nat, f: nat, p: nat)
    requires Replay(ops, c).Some?
    ensures Aborts(Replay(ops, c).value, f, p) <==> f !in Replay(ops, c).value.alive && p in Forgotten(ops, c)
  {
    hide Replay, Stale, Forgotten;
    StaleIsForgotten(ops, c, p);
  }

  /** One frame: page 7 comes and goes, page 8 comes and goes. The next access to page 7 aborts. */
  lemma StaleAborts()
    ensures var r := Replay(LoadOut(7) + LoadOut(8), 1);
            r.Some? && CanAccess(r.value, 0, 7, 1) && Aborts(r.value, 0, 7)
  {
    hide Inv, Replay, Access, SetEvictable, Evict, Quiet, Forgotten;
    EmptyReplay(1);
    EmptyQuiet(1);
    var s := FirstHalf(Empty(), 7, 1);
    ThreeSteps([], 7, 1);
    assert [] + LoadOut(7) == LoadOut(7);
    SecondPage(Replay(LoadOut(7), 1).value, s);
    ThreeSteps(LoadOut(7), 8, 1);
  }

  lemma SecondPage(b: Lists, s: seq<nat>)
    requires b == Lists([], [], [7], s, map[], map[7 := FrameStatus(7, INVALID_FRAME, true, MruGhost)], 0)
    requires s == []
    ensures CanAccess(b, 0, 8, 1) && !Aborts(b, 0, 8) && Inv(b, 1)
    ensures var a := SetEvictable(Access(b, 0, 8, 1), 0, true);
            AliveOk(a) && Aborts(Evict(a).1, 0, 7) && CanAccess(Evict(a).1, 0, 7, 1)
  {
    var a := SetEvictable(Access(b, 0, 8, 1), 0, true);
    assert a == Lists([0], [], [], [], map[0 := FrameStatus(8, 0, true, Mru)], b.ghosts, 0);
    EvictOnly(a, 8, Mru);
  }
}
