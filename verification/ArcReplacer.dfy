/**
 * The replacer object: four lists with separate counters, two maps, and the size and target counters, updated in
 * place.
 */
module ArcReplacers {
  import opened Bytes
  import opened Arc

  // ---- how many frames are evictable ------------------------------------------------------------

  lemma CountWithout(alive: map<nat, FrameStatus>, f: nat)
    requires f in alive && alive[f].evictable
    ensures EvictableFrames(alive - {f}) == EvictableFrames(alive) - {f}
    ensures |EvictableFrames(alive - {f})| == |EvictableFrames(alive)| - 1
  {
  }

  lemma CountSame(alive: map<nat, FrameStatus>, f: nat, st: FrameStatus)
    requires st.evictable == (f in alive && alive[f].evictable)
    ensures EvictableFrames(alive[f := st]) == EvictableFrames(alive)
  {
  }

  lemma CountSet(alive: map<nat, FrameStatus>, f: nat, evictable: bool)
    requires f in alive && alive[f].evictable != evictable
    ensures |EvictableFrames(alive[f := alive[f].(evictable := evictable)])|
         == |EvictableFrames(alive)| + if evictable then 1 else -1
  {
    var b := alive[f := alive[f].(evictable := evictable)];
    if evictable {
      assert EvictableFrames(b) == EvictableFrames(alive) + {f};
    } else {
      assert EvictableFrames(b) == EvictableFrames(alive) - {f};
    }
  }

  class ArcReplacer {
    var mru: seq<nat>
    var mfu: seq<nat>
    var mruGhost: seq<nat>
    var mfuGhost: seq<nat>
    var mruSize: nat
    var mfuSize: nat
    var mruGhostSize: nat
    var mfuGhostSize: nat
    var alive: map<nat, FrameStatus>
    var ghosts: map<nat, FrameStatus>
    var currSize: nat
    var target: nat
    const capacity: nat

    ghost function View(): Lists
      reads this
    {
      Lists(mru, mfu, mruGhost, mfuGhost, alive, ghosts, target)
    }

    /** The lists and maps agree, and every counter counts what it says. */
    ghost predicate Valid()
      reads this
    {
      && Inv(View(), capacity)
      && mruSize == |mru| && mfuSize == |mfu| && mruGhostSize == |mruGhost| && mfuGhostSize == |mfuGhost|
      && currSize == |EvictableFrames(alive)|
    }

    constructor (capacity: nat)
      ensures Valid() && View() == Empty() == Lists([], [], [], [], map[], map[], 0) && this.capacity == capacity
    {
      mru, mfu, mruGhost, mfuGhost := [], [], [], [];
      mruSize, mfuSize, mruGhostSize, mfuGhostSize := 0, 0, 0, 0;
      alive, ghosts, currSize, target := map[], map[], 0, 0;
      this.capacity := capacity;
    }

    /** find and erase. */
    method Erase(list: seq<nat>, x: nat) returns (rest: seq<nat>)
      ensures rest == Without(list, x)
    {
      var i := 0;
      while i < |list| && list[i] != x
        invariant i <= |list| && forall j :: 0 <= j < i ==> list[j] != x
      {
        i := i + 1;
      }
      if i < |list| {
        rest := list[..i] + list[i + 1..];
        DropAtIsWithout(list, i);
      } else {
        rest := list;
        NotThere(list, x);
      }
    }

    static lemma {:induction false} NotThere(s: seq<nat>, x: nat)
      requires forall j :: 0 <= j < |s| ==> s[j] != x
      ensures Without(s, x) == s
    {
      if s != [] {
        NotThere(s[1..], x);
      }
    }

    /** Scans a list from the back for an evictable frame. */
    method EvictFrom(list: seq<nat>) returns (at: nat)
      requires forall f :: f in list ==> f in alive
      ensures at == LastEvictable(list, alive)
    {
      var i := |list|;
      while i > 0
        invariant 0 <= i <= |list| && forall j :: i <= j < |list| ==> list[j] in alive && !alive[list[j]].evictable
      {
        i := i - 1;
        if alive[list[i]].evictable {
          return i;
        }
      }
      at := |list|;
    }

    /** The frame to take and its page; nothing exactly when no frame is evictable. */
    method Evict() returns (r: Option<(nat, nat)>)
      requires Valid()
      modifies this
      ensures Valid() && (r, View()) == Arc.Evict(old(View()))
      ensures r == None <==> old(currSize) == 0
      ensures r.Some? ==>
                && var (page, frame) := r.value;
                && frame in old(alive) && old(alive)[frame].evictable && old(alive)[frame].page == page
                && alive == old(alive) - {frame} && currSize == old(currSize) - 1
                && LeastRecent(if frame in old(mru) then old(mru) else old(mfu), frame, old(alive))
                && (frame in old(mru) && |old(mru)| < old(target) ==> NoneEvictable(old(mfu), old(alive)))
                && (frame !in old(mru) && |old(mru)| >= old(target) ==> NoneEvictable(old(mru), old(alive)))
    {
      hide Inv, AliveOk, EvictableFrames, LastEvictable, MoveOut, DropAt, Choice;
      ghost var a := View();
      EvictInv(a, capacity);
      EvictFacts(a, capacity);
      var inMru := mruSize >= target;
      var at := EvictFrom(if inMru then mru else mfu);
      if at == |if inMru then mru else mfu| {
        inMru := !inMru;
        at := EvictFrom(if inMru then mru else mfu);
        if at == |if inMru then mru else mfu| {
          Chosen(a, at, inMru);
          return None;
        }
      }
      Chosen(a, at, inMru);
      r := TakeOut(inMru, at);
      VictimIs(a);
    }

    /** No frame of the list is evictable. */
    static predicate NoneEvictable(list: seq<nat>, alive: map<nat, FrameStatus>) {
      forall f :: f in list ==> f in alive && !alive[f].evictable
    }

    /** The frame stands in the list, and no frame behind it is evictable. */
    static predicate LeastRecent(list: seq<nat>, frame: nat, alive: map<nat, FrameStatus>) {
      exists i :: 0 <= i < |list| && list[i] == frame && NoneEvictable(list[i + 1..], alive)
    }

    static lemma VictimIs(a: Lists)
      requires AliveOk(a) && Arc.Evict(a).0.Some?
      ensures var (page, frame) := Arc.Evict(a).0.value;
              && frame in a.alive && a.alive[frame].evictable && a.alive[frame].page == page
              && Arc.Evict(a).1.alive == a.alive - {frame}
              && LeastRecent(if frame in a.mru then a.mru else a.mfu, frame, a.alive)
              && (frame in a.mru && |a.mru| < a.target ==> NoneEvictable(a.mfu, a.alive))
              && (frame !in a.mru && |a.mru| >= a.target ==> NoneEvictable(a.mru, a.alive))
    {
      EvictExact(a);
    }

    static lemma EvictFacts(a: Lists, c: nat)
      requires Inv(a, c)
      ensures AliveOk(a)
      ensures (forall f :: f in a.mru ==> f in a.alive) && (forall f :: f in a.mfu ==> f in a.alive)
      ensures Choice(a) == None <==> |EvictableFrames(a.alive)| == 0
    {
      ChoiceExists(a);
    }

    /** What the two scans find is the choice. */
    static lemma Chosen(a: Lists, at: nat, inMru: bool)
      requires AliveOk(a)
      requires at == LastEvictable(if inMru then a.mru else a.mfu, a.alive)
      requires inMru != (|a.mru| >= a.target) ==>
                 LastEvictable(if inMru then a.mfu else a.mru, a.alive) == |if inMru then a.mfu else a.mru|
      ensures at < |if inMru then a.mru else a.mfu| ==>
                Choice(a) == Some(Place(inMru, at)) && FrameAt(a, Place(inMru, at)) in a.alive
      ensures at == |if inMru then a.mru else a.mfu| && inMru != (|a.mru| >= a.target) ==> Choice(a) == None
    {
      hide LastEvictable;
    }

    /** The victim leaves its list, and its page becomes a ghost. */
    method TakeOut(inMru: bool, at: nat) returns (r: Option<(nat, nat)>)
      requires Valid() && AliveOk(View()) && at < |if inMru then mru else mfu|
      requires Choice(View()) == Some(Place(inMru, at)) && FrameAt(View(), Place(inMru, at)) in alive
      requires Inv(MoveOut(View(), Place(inMru, at)), capacity)
      modifies this
      ensures Valid() && (r, View()) == Arc.Evict(old(View())) && r.Some? && currSize == old(currSize) - 1
    {
      hide Inv, AliveOk, EvictableFrames, LastEvictable, Choice;
      VictimIsEvictable(View());
      var frame := if inMru then mru[at] else mfu[at];
      var st := alive[frame];
      CountWithout(alive, frame);
      alive := alive - {frame};
      currSize := currSize - 1;
      if inMru {
        mru, mruSize := mru[..at] + mru[at + 1..], mruSize - 1;
        st := st.(status := MruGhost);
        mruGhost, mruGhostSize := [st.page] + mruGhost, mruGhostSize + 1;
      } else {
        mfu, mfuSize := mfu[..at] + mfu[at + 1..], mfuSize - 1;
        st := st.(status := MfuGhost);
        mfuGhost, mfuGhostSize := [st.page] + mfuGhost, mfuGhostSize + 1;
      }
      st := st.(frame := INVALID_FRAME);
      ghosts := ghosts[st.page := st];
      r := Some((st.page, frame));
    }

    static lemma VictimIsEvictable(a: Lists)
      requires AliveOk(a) && Choice(a).Some?
      ensures var v := Choice(a).value;
              && v.at < |if v.inMru then a.mru else a.mfu|
              && FrameAt(a, v) in a.alive && a.alive[FrameAt(a, v)].evictable
    {
    }

    /**
     * Brings the page to the front of the list it belongs to. False: the process has aborted on a stale ghost
     * entry.
     */
    method RecordAccess(frame: nat, page: nat) returns (ok: bool)
      requires Valid() && CanAccess(View(), frame, page, capacity)
      modifies this
      ensures ok <==> !Aborts(old(View()), frame, page)
      ensures ok <==> frame in old(alive) || page !in old(ghosts) || page in old(mruGhost) || page in old(mfuGhost)
      ensures ok ==> Valid() && View() == Access(old(View()), frame, page, capacity)
    {
      ok := true;
      if frame in alive {
        TouchAlive(frame, page);
      } else if page in ghosts {
        ok := TouchGhost(frame, page);
      } else {
        TouchNew(frame, page);
      }
    }

    method TouchAlive(frame: nat, page: nat)
      requires Valid() && frame in alive && frame < capacity
      modifies this
      ensures Valid() && View() == HitAlive(old(View()), frame)
    {
      hide Inv, EvictableFrames, Without, NoDup;
      HitAliveInv(View(), frame, capacity);
      AliveFacts(View(), frame, capacity);
      var st := alive[frame];
      CountSame(alive, frame, st.(status := Mfu));
      if st.status == Mru {
        mru := Erase(mru, frame);
        mruSize := mruSize - 1;
      } else {
        mfu := Erase(mfu, frame);
        mfuSize := mfuSize - 1;
      }
      alive := alive[frame := st.(status := Mfu)];
      mfu, mfuSize := [st.frame] + mfu, mfuSize + 1;
    }

    /** An alive frame is in the list its status says, once. */
    static lemma AliveFacts(a: Lists, frame: nat, c: nat)
      requires Inv(a, c) && frame in a.alive
      ensures a.alive[frame].frame == frame
      ensures a.alive[frame].status == Mru || a.alive[frame].status == Mfu
      ensures a.alive[frame].status == Mru ==> |Without(a.mru, frame)| == |a.mru| - 1
      ensures a.alive[frame].status == Mfu ==> |Without(a.mfu, frame)| == |a.mfu| - 1
    {
      WithoutMembers(a.mru, frame);
      WithoutMembers(a.mfu, frame);
    }

    /**
     * False when the entry is stale: either the division by the empty list's size or the failed find ends the
     * process.
     */
    method TouchGhost(frame: nat, page: nat) returns (ok: bool)
      requires Valid() && frame !in alive && page in ghosts && CanAccess(View(), frame, page, capacity)
      modifies this
      ensures ok <==> IsGhost(old(View()), page)
      ensures ok ==> Valid() && View() == HitGhost(old(View()), frame, page)
    {
      hide Inv, EvictableFrames, Without, NoDup, Alive, GhostsOk, GrownTarget, ShrunkTarget;
      GhostFacts(View(), frame, page, capacity);
      if ghosts[page].status == MruGhost {
        ok := page in mruGhost;
        if ok {
          target := Grow();
          mruGhost := Erase(mruGhost, page);
          mruGhostSize := mruGhostSize - 1;
          Revive(frame, page);
        }
      } else {
        ok := page in mfuGhost;
        if ok {
          target := Shrink();
          mfuGhost := Erase(mfuGhost, page);
          mfuGhostSize := mfuGhostSize - 1;
          Revive(frame, page);
        }
      }
    }

    /** The entry moves from ghost_map_ to alive_map_, and the frame to the front of the second list. */
    method Revive(frame: nat, page: nat)
      requires page in ghosts && ghosts[page].page == page && frame !in alive
      modifies this`ghosts, this`alive, this`mfu, this`mfuSize
      ensures ghosts == old(ghosts) - {page} && alive == old(alive)[frame := FrameStatus(page, frame, false, Mfu)]
      ensures mfu == [frame] + old(mfu) && mfuSize == old(mfuSize) + 1
      ensures EvictableFrames(alive) == EvictableFrames(old(alive))
    {
      var st := ghosts[page].(frame := frame, status := Mfu, evictable := false);
      CountSame(alive, frame, st);
      ghosts := ghosts - {page};
      alive := alive[frame := st];
      mfu, mfuSize := [frame] + mfu, mfuSize + 1;
    }

    method Grow() returns (t: nat)
      requires Valid() && mruGhost != []
      ensures t == GrownTarget(View())
    {
      t := target + if mruGhostSize >= mfuGhostSize then 1 else mfuGhostSize / mruGhostSize;
    }

    method Shrink() returns (t: nat)
      requires Valid() && mfuGhost != []
      ensures t == ShrunkTarget(View())
    {
      var decrease := if mfuGhostSize >= mruGhostSize then 1 else mruGhostSize / mfuGhostSize;
      t := if target >= decrease then target - decrease else target;
    }

    static lemma GhostFacts(a: Lists, frame: nat, page: nat, c: nat)
      requires Inv(a, c) && page in a.ghosts && frame !in a.alive && CanAccess(a, frame, page, c)
      ensures GhostsOk(a) && (IsGhost(a, page) ==> Inv(HitGhost(a, frame, page), c))
      ensures a.ghosts[page].status == MruGhost || a.ghosts[page].status == MfuGhost
      ensures IsGhost(a, page) <==> page in if a.ghosts[page].status == MruGhost then a.mruGhost else a.mfuGhost
      ensures IsGhost(a, page) ==> a.ghosts[page].page == page
      ensures |Without(a.mruGhost, page)| == if page in a.mruGhost then |a.mruGhost| - 1 else |a.mruGhost|
      ensures |Without(a.mfuGhost, page)| == if page in a.mfuGhost then |a.mfuGhost| - 1 else |a.mfuGhost|
    {
      WithoutMembers(a.mruGhost, page);
      WithoutMembers(a.mfuGhost, page);
      if IsGhost(a, page) {
        HitGhostInv(a, frame, page, c);
      }
    }

    method TouchNew(frame: nat, page: nat)
      requires Valid() && frame !in alive && page !in ghosts && CanAccess(View(), frame, page, capacity)
      modifies this
      ensures PopsAllowed(old(View()), capacity)
      ensures Valid() && View() == Miss(old(View()), frame, page, capacity)
    {
      hide Inv, EvictableFrames, NoDup, Alive;
      ghost var a := View();
      PopsAreSafe(a, frame, capacity);
      MissInv(a, frame, page, capacity);
      if mruSize + mruGhostSize == capacity {
        mruGhost, mruGhostSize := mruGhost[..|mruGhost| - 1], mruGhostSize - 1;
      } else if mruSize + mruGhostSize + mfuSize + mfuGhostSize == 2 * capacity {
        mfuGhost, mfuGhostSize := mfuGhost[..|mfuGhost| - 1], mfuGhostSize - 1;
      }
      mru, mruSize := [frame] + mru, mruSize + 1;
      CountSame(alive, frame, FrameStatus(page, frame, false, Mru));
      alive := alive[frame := FrameStatus(page, frame, false, Mru)];
    }

    /** False: the process has aborted on a frame id out of range. */
    method SetEvictable(frame: nat, evictable: bool) returns (ok: bool)
      requires Valid()
      modifies this
      ensures ok <==> frame < capacity
      ensures Valid() && View() == if ok then Arc.SetEvictable(old(View()), frame, evictable) else old(View())
      ensures View() == old(View()).(alive := if ok && frame in old(alive) then
                                                old(alive)[frame := old(alive)[frame].(evictable := evictable)]
                                              else old(alive))
    {
      if frame >= capacity {
        return false;
      }
      ok := true;
      if frame !in alive {
        return;
      }
      var st := alive[frame];
      SetEvictableInv(View(), frame, evictable, capacity);
      if st.evictable == evictable {
        SameEntry(View(), frame, evictable);
        return;
      }
      hide Inv, EvictableFrames;
      CountSet(alive, frame, evictable);
      alive := alive[frame := st.(evictable := evictable)];
      currSize := if evictable then currSize + 1 else currSize - 1;
    }

    static lemma SameEntry(a: Lists, frame: nat, evictable: bool)
      requires frame in a.alive && a.alive[frame].evictable == evictable
      ensures Arc.SetEvictable(a, frame, evictable) == a
    {
      assert a.alive[frame := a.alive[frame].(evictable := evictable)] == a.alive;
    }

    /** Takes a frame out for good. False: the process has aborted on a frame that is not evictable. */
    method Remove(frame: nat) returns (ok: bool)
      requires Valid()
      modifies this
      ensures ok <==> (frame in old(alive) ==> old(alive)[frame].evictable)
      ensures Valid() && View() == if ok then Arc.Remove(old(View()), frame) else old(View())
      ensures alive == if ok then old(alive) - {frame} else old(alive)
    {
      hide Inv, EvictableFrames, Without, NoDup;
      ok := frame !in alive || alive[frame].evictable;
      if frame !in alive || !ok {
        return;
      }
      RemoveInv(View(), frame, capacity);
      AliveFacts(View(), frame, capacity);
      if alive[frame].status == Mru {
        mru := Erase(mru, frame);
        mruSize := mruSize - 1;
      } else {
        mfu := Erase(mfu, frame);
        mfuSize := mfuSize - 1;
      }
      CountWithout(alive, frame);
      alive := alive - {frame};
      currSize := currSize - 1;
    }

    /** The number of evictable frames. */
    method Size() returns (n: nat)
      requires Valid()
      ensures n == |EvictableFrames(alive)| == |set f | f in alive && alive[f].evictable|
    {
      assert EvictableFrames(alive) == set f | f in alive && alive[f].evictable;
      n := currSize;
    }
  }
}
