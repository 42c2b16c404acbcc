/**
 * The buffer pool over whole runs: requests served one guard at a time. What a read returns is told from the requests
 * and replies before it alone, and so is which pages a new pool can serve at all.
 */
module PoolRuns {
  import opened Bytes
  import opened Arc
  import opened ArcReplacers
  import opened BufferPools

  /** Read and Write fetch a guard, use it and drop it; the others call the pool directly. */
  datatype Request = Read(page: nat) | Write(page: nat, data: Data) | Flush(page: nat) | Delete(page: nat) | FlushAll

  datatype Reply = Got(data: Data) | Done | Untouched | Refused

  predicate Brings(r: Request) { r.Read? || r.Write? || r.Flush? }

  /** The last bytes written to a page that is still there: the run's own record of it. */
  function LastBytes(disk: map<nat, Data>, reqs: seq<Request>, replies: seq<Reply>, p: nat): Option<Data>
    requires |reqs| == |replies|
    decreases |reqs|
  {
    if reqs == [] then if p in disk then Some(disk[p]) else None
    else
      var n := |reqs| - 1;
      if reqs[n].Write? && reqs[n].page == p && replies[n] == Done then Some(reqs[n].data)
      else if reqs[n].Delete? && reqs[n].page == p && replies[n] == Done then None
      else LastBytes(disk, reqs[..n], replies[..n], p)
  }

  /** One request's effect on what the pages hold. */
  predicate Effect(v: map<nat, Data>, req: Request, a: Reply, v': map<nat, Data>) {
    match req
    case Read(p) => v' == v && (a == Refused || (p in v && a == Got(v[p])))
    case Write(p, d) => (a == Refused && v' == v) || (a == Done && v' == v[p := d])
    case Flush(_) => v' == v && (a == Refused || a == Done)
    case Delete(p) => !a.Got? && v' == if a == Done then v - {p} else v
    case FlushAll => v' == v && a == Done
  }

  lemma RefusedEffect(v: map<nat, Data>, req: Request)
    requires Brings(req)
    ensures Effect(v, req, Refused, v)
  {
  }

  // ---- pin counts that have wrapped ---------------------------------------------------------------

  /**
   * How a run leaves every frame when guards that did not pin it are dropped: the pin count one below zero, the frame
   * not evictable, and nothing ever evicted.
   */
  ghost predicate Leaked(frames: seq<Frame>, table: map<nat, nat>, free: seq<nat>, a: Lists) {
    && (forall p :: p in table ==> table[p] < |frames| && frames[table[p]].pins == PIN_LIMIT - 1)
    && (forall f :: f in free ==> f < |frames| && frames[f].pins == 0)
    && NothingEvictable(a)
  }

  ghost predicate NothingEvictable(a: Lists) {
    a.ghosts == map[] && forall f :: f in a.alive ==> !a.alive[f].evictable
  }

  ghost predicate Leaky(pool: BufferPool)
    reads pool, pool.replacer
  {
    Leaked(pool.frames, pool.table, pool.free, pool.replacer.View())
  }

  lemma NoneCounted(frames: seq<Frame>, table: map<nat, nat>, free: seq<nat>, a: Lists)
    requires Leaked(frames, table, free, a)
    ensures |EvictableFrames(a.alive)| == 0 && forall p :: !Stale(a, p)
  {
    assert EvictableFrames(a.alive) == {};
  }

  lemma FreeCounts(free: seq<nat>, table: map<nat, nat>, n: nat)
    requires FreeOk(free, table, n)
    ensures |free| + |table| == n
  {
  }

  lemma HitLeaks(a: Lists, f: nat)
    requires NothingEvictable(a) && f in a.alive
    ensures NothingEvictable(BufferPool.HitView(a, f, PIN_LIMIT - 1))
  {
  }

  lemma LoadLeaks(a: Lists, b: Lists, f: nat, p: nat, n: nat)
    requires NothingEvictable(a) && BufferPool.LoadedView(a, b, f, p, n)
    ensures NothingEvictable(b)
  {
  }

  /** One frame used and dropped again: `frames1` and `b` after the fetch, `frames2` and `c` after the drop. */
  predicate Dropped(frames1: seq<Frame>, frames2: seq<Frame>, b: Lists, c: Lists, f: nat) {
    && |frames2| == |frames1| && f < |frames1| && frames2[f].pins == PinDown(frames1[f]).pins
    && (forall g :: 0 <= g < |frames1| && g != f ==> frames2[g] == frames1[g])
    && c == if frames1[f].pins == 1 then Arc.SetEvictable(b, f, true) else b
  }

  /** A hit on a leaked frame pins it from one below zero to zero, and the drop takes it back. */
  lemma HitStaysLeaked(frames: seq<Frame>, frames2: seq<Frame>, table: map<nat, nat>, free: seq<nat>, a: Lists,
                       b: Lists, c: Lists, p: nat, n: nat)
    requires Leaked(frames, table, free, a) && TableOk(table, n) && FreeOk(free, table, n) && p in table
    requires table[p] < |frames| && table[p] in a.alive && b == BufferPool.HitView(a, table[p], frames[table[p]].pins)
    requires Dropped(frames[table[p] := PinUp(frames[table[p]])], frames2, b, c, table[p])
    ensures Leaked(frames2, table, free, c)
  {
    hide BufferPool.HitView, NothingEvictable;
    HitLeaks(a, table[p]);
  }

  /** A load does not pin the frame at all, and the drop takes its count below zero. */
  lemma LoadLeaksFrame(frames: seq<Frame>, frames2: seq<Frame>, table: map<nat, nat>, free: seq<nat>, a: Lists,
                       b: Lists, c: Lists, p: nat, d: Data, n: nat)
    requires Leaked(frames, table, free, a) && FreeOk(free, table, n) && free != [] && free[0] < |frames|
    requires BufferPool.LoadedView(a, b, free[0], p, n)
    requires Dropped(frames[free[0] := frames[free[0]].(data := d)], frames2, b, c, free[0])
    ensures Leaked(frames2, table[p := free[0]], free[1..], c)
  {
    hide BufferPool.LoadedView, NothingEvictable;
    LoadLeaks(a, b, free[0], p, n);
    assert free[0] in free;
    assert forall f :: f in free[1..] ==> f in free && f != free[0];
  }

  /** What fetching a guard does to frames, table, free list and replacer, short of an eviction. */
  ghost predicate Brought(frames: seq<Frame>, frames1: seq<Frame>, table: map<nat, nat>, table1: map<nat, nat>,
                          free: seq<nat>, free1: seq<nat>, a: Lists, b: Lists, p: nat, n: nat) {
    if p in table then
      && table1 == table && free1 == free && table[p] < |frames| && table[p] in a.alive
      && frames1 == frames[table[p] := PinUp(frames[table[p]])]
      && b == BufferPool.HitView(a, table[p], frames[table[p]].pins)
    else
      && free != [] && free[0] < |frames| && table1 == table[p := free[0]] && free1 == free[1..]
      && (exists d :: frames1 == frames[free[0] := frames[free[0]].(data := d)])
      && BufferPool.LoadedView(a, b, free[0], p, n)
  }

  lemma StaysLeaked(frames: seq<Frame>, frames1: seq<Frame>, frames2: seq<Frame>, table: map<nat, nat>,
                    table1: map<nat, nat>, free: seq<nat>, free1: seq<nat>, a: Lists, b: Lists, c: Lists, p: nat,
                    n: nat)
    requires Leaked(frames, table, free, a) && TableOk(table, n) && FreeOk(free, table, n)
    requires Brought(frames, frames1, table, table1, free, free1, a, b, p, n)
    requires p in table1 && Dropped(frames1, frames2, b, c, table1[p])
    ensures Leaked(frames2, table1, free1, c) && table1.Keys == table.Keys + {p}
  {
    hide Leaked, TableOk, FreeOk, Dropped, BufferPool.HitView, BufferPool.LoadedView;
    if p in table {
      HitStaysLeaked(frames, frames2, table, free, a, b, c, p, n);
    } else {
      var d :| frames1 == frames[free[0] := frames[free[0]].(data := d)];
      LoadLeaksFrame(frames, frames2, table, free, a, b, c, p, d, n);
    }
  }

  /** The pages in the pool after a request that can only fill frames that are still free. */
  function Resident(disk: set<nat>, resident: set<nat>, n: nat, req: Request): set<nat> {
    if Brings(req) && req.page in disk && |resident| < n then resident + {req.page} else resident
  }

  lemma ResidentIs(frames: seq<Frame>, table: map<nat, nat>, free: seq<nat>, disk: map<nat, Data>, n: nat, req: Request)
    requires CleanOk(frames, table, free, disk) && FreeOk(free, table, n) && Brings(req)
    ensures var now := Resident(disk.Keys, table.Keys, n, req);
            if req.page !in disk || (req.page !in table && |table| == n) then now == table.Keys && req.page !in now
            else now == table.Keys + {req.page}
  {
    assert |table| == |table.Keys| <= n;
    if |table| == n && req.page in table {
      assert table.Keys + {req.page} == table.Keys;
    }
  }

  // ---- serving --------------------------------------------------------------------------------------

  /** Fetches the guard. On a leaked pool nothing is ever evicted for it. */
  method Fetch(pool: BufferPool, page: nat) returns (r: Fetched)
    requires pool.Valid() && page in pool.disk
    modifies pool, pool.replacer
    ensures r == OutOfMemory <==> page !in old(pool.table) && |old(pool.table)| == pool.numFrames
                                  && old(pool.replacer.currSize) == 0
    ensures r != Died ==> pool.Valid() && pool.View() == old(pool.View()) && pool.disk.Keys == old(pool.disk).Keys
    ensures r.Guard? ==> page in pool.table
    ensures r == Died <==> page !in old(pool.table) && r != OutOfMemory && Stale(old(pool.replacer.View()), page)
    ensures old(Leaky(pool)) ==> r != Died && old(pool.replacer.currSize) == 0
    ensures old(Leaky(pool)) && r.OutOfMemory? ==> Leaky(pool) && pool.table == old(pool.table)
    ensures old(Leaky(pool)) && r.Guard? ==>
              Brought(old(pool.frames), pool.frames, old(pool.table), pool.table, old(pool.free), pool.free,
                      old(pool.replacer.View()), pool.replacer.View(), page, pool.numFrames)
  {
    hide TableOk, Linked, Inv, CleanOk, EvictableFrames, Stale, Leaked, FreeOk, Contents;
    hide BufferPool.HitView, BufferPool.LoadedView;
    if Leaky(pool) {
      NoneCounted(pool.frames, pool.table, pool.free, pool.replacer.View());
      FreeCounts(pool.free, pool.table, pool.numFrames);
    }
    r := pool.CheckedPage(page);
  }

  /** What is done with a guard: use it as the request says, and drop it. */
  method UseGuard(pool: BufferPool, req: Request) returns (a: Reply)
    requires pool.Valid() && Brings(req) && req.page in pool.table && req.page in pool.disk
    modifies pool`frames, pool`disk, pool.replacer
    ensures pool.Valid() && Effect(old(pool.View()), req, a, pool.View()) && a != Refused
    ensures pool.disk.Keys == old(pool.disk).Keys && pool.table[req.page] < |old(pool.frames)|
    ensures Dropped(old(pool.frames), pool.frames, old(pool.replacer.View()), pool.replacer.View(),
                    pool.table[req.page])
  {
    hide TableOk, FreeOk, Linked, Inv, CleanOk, EvictableFrames;
    hide Contents;
    match req {
      case Read(p) =>
        var d := pool.GuardRead(p);
        a := Got(d);
      case Write(p, d) =>
        pool.GuardWrite(p, d);
        a := Done;
      case Flush(p) =>
        pool.GuardFlush(p);
        a := Done;
    }
    pool.GuardDrop(req.page);
  }

  /** All frames are taken by other pages, and none of them can be evicted. */
  ghost predicate Crowded(table: map<nat, nat>, evictable: nat, n: nat, p: nat) {
    p !in table && |table| == n && evictable == 0
  }

  /**
   * A request for one page: fetch the guard, use it, drop it. It is refused exactly when the pool is crowded. Otherwise
   * the run is over, not alive, if the page has to be read and is not on disk, which throws, or if its ghost entry is
   * stale, which aborts.
   */
  method ServePage(pool: BufferPool, req: Request) returns (a: Reply, alive: bool)
    requires pool.Valid() && Brings(req)
    modifies pool, pool.replacer
    ensures alive ==> pool.Valid() && Effect(old(pool.View()), req, a, pool.View())
    ensures alive ==> pool.disk.Keys == old(pool.disk).Keys
    ensures alive ==>
              (a == Refused <==> Crowded(old(pool.table), old(pool.replacer.currSize), pool.numFrames, req.page))
    ensures alive <==> Crowded(old(pool.table), old(pool.replacer.currSize), pool.numFrames, req.page)
                       || req.page in old(pool.table)
                       || (req.page in old(pool.disk) && !Stale(old(pool.replacer.View()), req.page))
    ensures old(Leaky(pool)) && req.page in old(pool.disk) ==> alive
    ensures old(Leaky(pool)) && alive ==>
              && Leaky(pool)
              && var resident := Resident(old(pool.disk).Keys, old(pool.table).Keys, pool.numFrames, req);
                 pool.table.Keys == resident && (a == Refused <==> req.page !in resident)
  {
    hide TableOk, Linked, Inv, CleanOk, EvictableFrames, Stale, Leaked, NothingEvictable, FreeOk;
    hide BufferPool.HitView, BufferPool.LoadedView, Effect, Brought, Dropped;
    ghost var frames, table, free, b := pool.frames, pool.table, pool.free, pool.replacer.View();
    ghost var leaky := Leaky(pool);
    RefusedEffect(pool.View(), req);
    ResidentIs(frames, table, free, pool.disk, pool.numFrames, req);
    if req.page !in pool.disk {
      var n := pool.replacer.Size();
      SizeIs(pool.replacer);
      return Refused, |pool.table| == pool.numFrames && n == 0;
    }
    var r := Fetch(pool, req.page);
    if !r.Guard? {
      return Refused, r != Died;
    }
    ghost var frames1, table1, free1, c := pool.frames, pool.table, pool.free, pool.replacer.View();
    a := UseGuard(pool, req);
    alive := true;
    if leaky {
      StaysLeaked(frames, frames1, pool.frames, table, table1, free, free1, b, c, pool.replacer.View(), req.page,
                  pool.numFrames);
    }
  }

  lemma SizeIs(r: ArcReplacer)
    requires r.Valid()
    ensures |EvictableFrames(r.alive)| == r.currSize
  {
  }

  /** DeletePage. On a leaked pool the pin count of every resident page is far from zero, so it is refused. */
  method ServeDelete(pool: BufferPool, page: nat) returns (a: Reply, alive: bool)
    requires pool.Valid()
    modifies pool, pool.replacer
    ensures alive ==> pool.Valid() && Effect(old(pool.View()), Delete(page), a, pool.View())
    ensures alive ==> pool.disk.Keys <= old(pool.disk).Keys
    ensures old(Leaky(pool)) ==>
              && alive && Leaky(pool) && pool.disk.Keys == old(pool.disk).Keys && pool.table == old(pool.table)
              && (page in old(pool.table) ==> a == Refused)
  {
    hide TableOk, Linked, Inv, CleanOk, EvictableFrames, FreeOk, Contents, NothingEvictable;
    var known := page in pool.table;
    ContentsKeys(pool.frames, pool.table, pool.disk);
    var r := pool.DeletePage(page);
    ContentsKeys(pool.frames, pool.table, pool.disk);
    a := if r == Pinned then Refused else if known then Done else Untouched;
    alive := r != Crashed;
  }

  lemma ContentsKeys(frames: seq<Frame>, table: map<nat, nat>, disk: map<nat, Data>)
    ensures Contents(frames, table, disk).Keys == disk.Keys
  {
  }

  /** FlushAllPagesUnsafe. */
  method ServeFlushAll(pool: BufferPool)
    requires pool.Valid()
    modifies pool`frames, pool`disk, pool.replacer
    ensures pool.Valid() && pool.View() == old(pool.View()) && pool.disk.Keys == old(pool.disk).Keys
    ensures old(Leaky(pool)) ==> Leaky(pool)
  {
    hide TableOk, Linked, Inv, CleanOk, EvictableFrames, FreeOk, Contents, Leaked, BufferPool.SamePins;
    ghost var frames, a := pool.frames, pool.replacer.View();
    ghost var leaky := Leaky(pool);
    AliveInTable(pool.table, a, pool.numFrames);
    pool.FlushAllPagesUnsafe();
    if leaky {
      FlushStaysLeaked(frames, pool.frames, pool.table, pool.free, a, pool.replacer.View());
    }
  }

  lemma AliveInTable(table: map<nat, nat>, a: Lists, n: nat)
    requires Linked(table, a.alive)
    ensures forall f :: f in a.alive ==> exists p :: p in table && table[p] == f
  {
  }

  lemma FlushStaysLeaked(frames: seq<Frame>, frames1: seq<Frame>, table: map<nat, nat>, free: seq<nat>, a: Lists,
                         b: Lists)
    requires Leaked(frames, table, free, a) && BufferPool.SamePins(frames, frames1, a, b)
    requires forall f :: f in a.alive ==> exists p :: p in table && table[p] == f
    ensures Leaked(frames1, table, free, b)
  {
  }

  /** Any request. A page is refused exactly when all frames are taken by others and none of them is evictable. */
  method ServeOne(pool: BufferPool, req: Request) returns (a: Reply, alive: bool)
    requires pool.Valid()
    modifies pool, pool.replacer
    ensures alive ==> pool.Valid() && Effect(old(pool.View()), req, a, pool.View())
    ensures alive && Brings(req) ==>
              (a == Refused <==> Crowded(old(pool.table), old(pool.replacer.currSize), pool.numFrames, req.page))
    ensures alive ==> pool.disk.Keys <= old(pool.disk).Keys
    ensures alive && Brings(req) && |old(pool.disk)| <= pool.numFrames && req.page in old(pool.disk) ==> a != Refused
    ensures old(Leaky(pool)) && (Brings(req) ==> req.page in old(pool.disk)) ==> alive
    ensures old(Leaky(pool)) && alive ==>
              && Leaky(pool) && pool.disk.Keys == old(pool.disk).Keys
              && pool.table.Keys == Resident(old(pool.disk).Keys, old(pool.table).Keys, pool.numFrames, req)
    ensures old(Leaky(pool)) && alive && Brings(req) ==>
              (a == Refused <==> req.page !in Resident(old(pool.disk).Keys, old(pool.table).Keys, pool.numFrames, req))
  {
    hide TableOk, Linked, Inv, CleanOk, EvictableFrames, FreeOk, Contents, Leaked, Effect;
    FlushAllEffect(pool.View());
    if Brings(req) && |pool.disk| <= pool.numFrames && req.page in pool.disk && req.page !in pool.table {
      NotCrowded(pool.frames, pool.table, pool.free, pool.disk, pool.numFrames, req.page);
    }
    if req.Delete? {
      a, alive := ServeDelete(pool, req.page);
    } else if req.FlushAll? {
      ServeFlushAll(pool);
      a, alive := Done, true;
    } else {
      a, alive := ServePage(pool, req);
    }
  }

  /** With as many frames as there are pages, a page that is not in the pool has a frame to go to. */
  lemma NotCrowded(frames: seq<Frame>, table: map<nat, nat>, free: seq<nat>, disk: map<nat, Data>, n: nat, p: nat)
    requires CleanOk(frames, table, free, disk) && |disk| <= n && p in disk && p !in table
    ensures |table| < n
  {
    SubsetSize(table.Keys, disk.Keys - {p});
    assert |table| == |table.Keys| && |disk| == |disk.Keys|;
  }

  lemma {:induction false} SubsetSize(a: set<nat>, b: set<nat>)
    requires a <= b
    ensures |a| <= |b|
    decreases a
  {
    if a != {} {
      var x :| x in a;
      SubsetSize(a - {x}, b - {x});
    }
  }

  lemma FlushAllEffect(v: map<nat, Data>)
    ensures Effect(v, FlushAll, Done, v)
  {
  }

  /** What the pages hold after a run, in terms of the run alone. */
  ghost predicate Remembers(disk: map<nat, Data>, reqs: seq<Request>, replies: seq<Reply>, v: map<nat, Data>) {
    |reqs| == |replies| && forall p :: LastBytes(disk, reqs, replies, p) == if p in v then Some(v[p]) else None
  }

  lemma RemembersMore(disk: map<nat, Data>, reqs: seq<Request>, replies: seq<Reply>, v: map<nat, Data>, req: Request,
                      a: Reply, v': map<nat, Data>)
    requires Remembers(disk, reqs, replies, v) && Effect(v, req, a, v')
    ensures Remembers(disk, reqs + [req], replies + [a], v')
  {
    var n := |reqs|;
    assert (reqs + [req])[..n] == reqs && (replies + [a])[..n] == replies;
    assert (reqs + [req])[n] == req && (replies + [a])[n] == a;
    forall p
      ensures LastBytes(disk, reqs + [req], replies + [a], p) == if p in v' then Some(v'[p]) else None
    {
      assert LastBytes(disk, reqs, replies, p) == if p in v then Some(v[p]) else None;
    }
  }

  /** Each read got the last bytes written to that page in the run before it, or was refused. */
  ghost predicate ReadsRight(disk: map<nat, Data>, reqs: seq<Request>, replies: seq<Reply>) {
    && |replies| <= |reqs|
    && forall i :: 0 <= i < |replies| && reqs[i].Read? ==>
         replies[i] == Refused || (replies[i].Got? && LastBytes(disk, reqs[..i], replies[..i], reqs[i].page)
                                                      == Some(replies[i].data))
  }

  lemma ReadsRightMore(disk: map<nat, Data>, reqs: seq<Request>, n: nat, replies: seq<Reply>, v: map<nat, Data>,
                       a: Reply, v': map<nat, Data>)
    requires n < |reqs| && |replies| == n && ReadsRight(disk, reqs, replies)
    requires Remembers(disk, reqs[..n], replies, v) && Effect(v, reqs[n], a, v')
    ensures ReadsRight(disk, reqs, replies + [a])
  {
    forall i | 0 <= i <= n && reqs[i].Read?
      ensures var all := replies + [a];
              all[i] == Refused || (all[i].Got? && LastBytes(disk, reqs[..i], all[..i], reqs[i].page)
                                                   == Some(all[i].data))
    {
      if i < n {
        assert (replies + [a])[..i] == replies[..i] && (replies + [a])[i] == replies[i];
      } else {
        assert (replies + [a])[..n] == replies;
        assert LastBytes(disk, reqs[..n], replies, reqs[n].page)
            == if reqs[n].page in v then Some(v[reqs[n].page]) else None;
      }
    }
  }

  /** The pages in a pool that never evicts, after a run. */
  function Residents(disk: set<nat>, start: set<nat>, n: nat, reqs: seq<Request>): set<nat>
    decreases |reqs|
  {
    if reqs == [] then start
    else Resident(disk, Residents(disk, start, n, reqs[..|reqs| - 1]), n, reqs[|reqs| - 1])
  }

  /** A page request is refused exactly if its page did not get a frame while there were free ones. */
  ghost predicate ServesFirst(disk: set<nat>, start: set<nat>, n: nat, reqs: seq<Request>, replies: seq<Reply>) {
    && |replies| <= |reqs|
    && forall i :: 0 <= i < |replies| && Brings(reqs[i]) ==>
         (replies[i] == Refused <==> reqs[i].page !in Residents(disk, start, n, reqs[..i + 1]))
  }

  lemma ServesFirstMore(disk: set<nat>, start: set<nat>, n: nat, reqs: seq<Request>, replies: seq<Reply>, a: Reply)
    requires |replies| < |reqs| && ServesFirst(disk, start, n, reqs, replies)
    requires var i := |replies|; Brings(reqs[i]) ==>
               (a == Refused <==> reqs[i].page !in Residents(disk, start, n, reqs[..i + 1]))
    ensures ServesFirst(disk, start, n, reqs, replies + [a])
  {
  }

  lemma ResidentsMore(disk: set<nat>, start: set<nat>, n: nat, reqs: seq<Request>, i: nat)
    requires i < |reqs|
    ensures Residents(disk, start, n, reqs[..i + 1])
         == Resident(disk, Residents(disk, start, n, reqs[..i]), n, reqs[i])
  {
    assert reqs[..i + 1][..i] == reqs[..i];
  }

  /**
   * A run of requests, one guard at a time. Every read returns the last bytes written to its page in the run, or what
   * the page held before, across any evictions and reloads; the run ends early only if the process throws or aborts. A
   * pool with as many frames as there are pages refuses none that is there to the end. A leaked pool serves the pages
   * that got a frame while there were free ones, and no others.
   */
  method Serve(pool: BufferPool, reqs: seq<Request>) returns (replies: seq<Reply>, alive: bool)
    requires pool.Valid()
    modifies pool, pool.replacer
    ensures alive ==> |replies| == |reqs| && pool.Valid() && Remembers(old(pool.View()), reqs, replies, pool.View())
    ensures ReadsRight(old(pool.View()), reqs, replies)
    ensures alive && |old(pool.disk)| <= pool.numFrames ==>
              forall i :: 0 <= i < |reqs| && Brings(reqs[i]) && reqs[i].page in pool.disk ==> replies[i] != Refused
    ensures old(Leaky(pool)) && (forall r :: r in reqs && Brings(r) ==> r.page in old(pool.disk)) ==> alive
    ensures old(Leaky(pool)) ==>
              && (alive ==> Leaky(pool))
              && ServesFirst(old(pool.disk).Keys, old(pool.table).Keys, pool.numFrames, reqs, replies)
  {
    hide TableOk, Linked, Inv, CleanOk, EvictableFrames, FreeOk, Contents, Leaked, Effect, LastBytes, Residents;
    hide Remembers, ReadsRight, ServesFirst, Resident;
    ghost var v0, keys, start := pool.View(), pool.disk.Keys, pool.table.Keys;
    ghost var leaky := Leaky(pool);
    replies := [];
    NothingServed(v0, reqs, keys, start, pool.numFrames);
    ghost var roomy := |pool.disk| <= pool.numFrames;
    for i := 0 to |reqs|
      invariant |replies| == i && pool.Valid()
      invariant Remembers(v0, reqs[..i], replies, pool.View()) && ReadsRight(v0, reqs, replies)
      invariant roomy ==> |pool.disk| <= pool.numFrames
      invariant roomy ==>
                  forall k :: 0 <= k < i && Brings(reqs[k]) && reqs[k].page in pool.disk ==> replies[k] != Refused
      invariant leaky ==> Leaky(pool) && pool.disk.Keys == keys
      invariant leaky ==> pool.table.Keys == Residents(keys, start, pool.numFrames, reqs[..i])
      invariant leaky ==> ServesFirst(keys, start, pool.numFrames, reqs, replies)
    {
      ghost var v, disk := pool.View(), pool.disk;
      var a, going := ServeOne(pool, reqs[i]);
      if !going {
        return replies, false;
      }
      SubsetSize(pool.disk.Keys, disk.Keys);
      assert |pool.disk| == |pool.disk.Keys| && |disk| == |disk.Keys|;
      RemembersMore(v0, reqs[..i], replies, v, reqs[i], a, pool.View());
      ReadsRightMore(v0, reqs, i, replies, v, a, pool.View());
      ResidentsMore(keys, start, pool.numFrames, reqs, i);
      if leaky {
        ServesFirstMore(keys, start, pool.numFrames, reqs, replies, a);
      }
      assert reqs[..i + 1] == reqs[..i] + [reqs[i]];
      replies := replies + [a];
    }
    alive := true;
    assert reqs[..|reqs|] == reqs;
  }

  lemma NothingServed(v: map<nat, Data>, reqs: seq<Request>, disk: set<nat>, start: set<nat>, n: nat)
    ensures Remembers(v, reqs[..0], [], v) && ReadsRight(v, reqs, []) && ServesFirst(disk, start, n, reqs, [])
    ensures Residents(disk, start, n, reqs[..0]) == start
  {
  }

  /**
   * A new pool never evicts: each load leaves its frame's pin count one below zero, so no frame becomes evictable
   * again. It answers everything about the first pages that fill it, and refuses all others for good.
   */
  method ServeNew(n: nat, disk: map<nat, Data>, reqs: seq<Request>) returns (replies: seq<Reply>)
    ensures (forall r :: r in reqs && Brings(r) ==> r.page in disk) ==> |replies| == |reqs|
    ensures ReadsRight(disk, reqs, replies) && ServesFirst(disk.Keys, {}, n, reqs, replies)
  {
    hide Linked, Inv, CleanOk, EvictableFrames, Contents, LastBytes, Residents;
    var pool := new BufferPool(n, disk);
    var alive;
    replies, alive := Serve(pool, reqs);
  }

  // ---- a held page ------------------------------------------------------------------------------------

  /** The page's frame is pinned once, and the replacer will not give it away. */
  predicate Held(frames: seq<Frame>, table: map<nat, nat>, alive: map<nat, FrameStatus>, p: nat, f: nat) {
    && p in table && table[p] == f && f < |frames| && frames[f].pins == 1 && f in alive && !alive[f].evictable
  }

  lemma StaysHeld(frames: seq<Frame>, frames': seq<Frame>, table: map<nat, nat>, table': map<nat, nat>,
                  alive: map<nat, FrameStatus>, alive': map<nat, FrameStatus>, p: nat, f: nat, g: nat)
    requires Held(frames, table, alive, p, f) && OnlyFrame(frames, frames', table, table', alive, alive', g) && g != f
    ensures Held(frames', table', alive', p, f)
  {
  }

  /** A guard on another page takes a frame that is not the held one: its own, a free one or the replacer's victim. */
  method FetchOther(pool: BufferPool, p: nat, f: nat, q: nat) returns (r: Fetched)
    requires pool.Valid() && Held(pool.frames, pool.table, pool.replacer.alive, p, f) && q != p && q in pool.disk
    modifies pool, pool.replacer
    ensures r != Died ==>
              && pool.Valid() && pool.View() == old(pool.View()) && pool.disk.Keys == old(pool.disk).Keys
              && Held(pool.frames, pool.table, pool.replacer.alive, p, f)
    ensures r.Guard? ==> q in pool.table && pool.table[q] != f
  {
    FrameApart(pool.table, pool.free, p, pool.numFrames);
    hide TableOk, Linked, Inv, CleanOk, EvictableFrames, Stale, FreeOk, Contents, AliveOk, EvictableFrames;
    hide BufferPool.HitView, BufferPool.LoadedView, BufferPool.Swapped, OnlyFrame, PinUp;
    ghost var frames, table, alive := pool.frames, pool.table, pool.replacer.alive;
    r := pool.CheckedPage(q);
    if r.Guard? {
      assert r.frame != f;
      StaysHeld(frames, pool.frames, table, pool.table, alive, pool.replacer.alive, p, f, r.frame);
    }
  }

  lemma FrameApart(table: map<nat, nat>, free: seq<nat>, p: nat, n: nat)
    requires TableOk(table, n) && FreeOk(free, table, n) && p in table
    ensures forall q :: q in table && q != p ==> table[q] != table[p]
    ensures free != [] ==> free[0] != table[p]
  {
  }

  /** The other guard is dropped again. */
  method DropOther(pool: BufferPool, p: nat, f: nat, q: nat)
    requires pool.Valid() && Held(pool.frames, pool.table, pool.replacer.alive, p, f) && q in pool.table
    requires pool.table[q] != f
    modifies pool`frames, pool.replacer
    ensures pool.Valid() && pool.View() == old(pool.View())
    ensures Held(pool.frames, pool.table, pool.replacer.alive, p, f)
  {
    hide TableOk, Linked, Inv, CleanOk, EvictableFrames, FreeOk, Contents, PinDown;
    pool.GuardDrop(q);
  }

  /**
   * A guard fetched by a hit on a page nobody had pinned holds the page, whatever other pages are fetched and dropped
   * meanwhile, evictions included: it stays in its frame with its bytes.
   */
  method HoldWhile(pool: BufferPool, p: nat, others: seq<nat>) returns (f: nat, alive: bool)
    requires pool.Valid() && p in pool.table && pool.table[p] < |pool.frames| && pool.frames[pool.table[p]].pins == 0
    requires forall i :: 0 <= i < |others| ==> others[i] != p && others[i] in pool.disk
    modifies pool, pool.replacer
    ensures alive ==>
              && pool.Valid() && pool.View() == old(pool.View()) && p in pool.table && pool.table[p] == f
              && f == old(pool.table)[p] < |pool.frames| && pool.frames[f].pins == 1 && p in old(pool.View())
              && pool.frames[f].data == old(pool.View())[p]
  {
    hide *;
    OnDisk(pool, p);
    f := HoldHit(pool, p);
    alive := true;
    for i := 0 to |others|
      invariant pool.Valid() && Held(pool.frames, pool.table, pool.replacer.alive, p, f)
      invariant pool.View() == old(pool.View()) && pool.disk.Keys == old(pool.disk).Keys
    {
      var r := FetchOther(pool, p, f, others[i]);
      if r == Died {
        return f, false;
      }
      if r.Guard? {
        DropOther(pool, p, f, others[i]);
      }
    }
    HeldData(pool, p, f);
  }

  method HoldHit(pool: BufferPool, p: nat) returns (f: nat)
    requires pool.Valid() && p in pool.table && pool.table[p] < |pool.frames| && pool.frames[pool.table[p]].pins == 0
    requires p in pool.disk
    modifies pool, pool.replacer
    ensures pool.Valid() && pool.View() == old(pool.View()) && pool.disk.Keys == old(pool.disk).Keys
    ensures f == old(pool.table)[p] && Held(pool.frames, pool.table, pool.replacer.alive, p, f)
  {
    hide *;
    f := pool.table[p];
    var r := pool.CheckedPage(p);
    NowHeld(pool.frames, pool.table, pool.replacer.alive, p, f);
  }

  lemma OnDisk(pool: BufferPool, p: nat)
    requires pool.Valid() && p in pool.table
    ensures p in pool.disk && p in pool.View()
  {
    BufferPool.ResidentData(pool.frames, pool.table, pool.free, pool.disk, p);
  }

  lemma NowHeld(frames: seq<Frame>, table: map<nat, nat>, alive: map<nat, FrameStatus>, p: nat, f: nat)
    requires p in table && table[p] == f && f < |frames| && frames[f].pins == 1 && f in alive && !alive[f].evictable
    ensures Held(frames, table, alive, p, f)
  {
  }

  lemma HeldData(pool: BufferPool, p: nat, f: nat)
    requires pool.Valid() && Held(pool.frames, pool.table, pool.replacer.alive, p, f)
    ensures p in pool.table && pool.table[p] == f && f < |pool.frames| && pool.frames[f].pins == 1
    ensures p in pool.View() && pool.frames[f].data == pool.View()[p]
  {
    BufferPool.ResidentData(pool.frames, pool.table, pool.free, pool.disk, p);
  }
}
