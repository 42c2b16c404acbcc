/** The buffer pool as a cache of the disk: frames, page table and free list, with the replacer choosing victims. */
module BufferPools {
  import opened Bytes
  import opened Pages
  import opened Arc
  import opened ArcReplacers

  type Data = d: seq<Byte> | |d| == PAGE_SIZE witness seq(PAGE_SIZE, _ => 0)

  /** pin_count_ is an unsigned 64-bit counter and wraps. */
  const PIN_LIMIT: nat := 0x1_0000_0000_0000_0000

  datatype Frame = Frame(data: Data, pins: nat, dirty: bool)

  function Zeros(): Data { seq(PAGE_SIZE, _ => 0) }

  /** fetch_add and fetch_sub on the pin count. */
  function PinUp(d: Frame): Frame { d.(pins := (d.pins + 1) % PIN_LIMIT) }

  function PinDown(d: Frame): Frame { d.(pins := (d.pins + PIN_LIMIT - 1) % PIN_LIMIT) }

  // ---- the invariant --------------------------------------------------------------------------

  predicate TableOk(table: map<nat, nat>, n: nat) {
    && (forall p :: p in table ==> table[p] < n)
    && (forall p, q :: p in table && q in table && table[p] == table[q] ==> p == q)
  }

  /** Free and resident frames partition all frames. */
  predicate FreeOk(free: seq<nat>, table: map<nat, nat>, n: nat) {
    && NoDup(free) && (forall f :: f in free ==> f < n)
    && (forall p :: p in table ==> table[p] !in free)
    && |free| + |table| == n
  }

  /** The replacer knows exactly the resident frames, each under its page. */
  predicate Linked(table: map<nat, nat>, alive: map<nat, FrameStatus>) {
    && (forall p :: p in table ==> table[p] in alive && alive[table[p]].page == p)
    && (forall f :: f in alive ==> alive[f].page in table && table[alive[f].page] == f)
  }

  /** Resident pages exist on disk, and a clean frame equals its disk page; free frames are clean. */
  predicate CleanOk(frames: seq<Frame>, table: map<nat, nat>, free: seq<nat>, disk: map<nat, Data>) {
    && (forall p :: p in table ==> p in disk && table[p] < |frames|)
    && (forall p :: p in table && !frames[table[p]].dirty ==> frames[table[p]].data == disk[p])
    && (forall f :: f in free ==> f < |frames| && !frames[f].dirty)
  }

  /** What each page holds: the frame's bytes while it is resident, the disk's otherwise. */
  function Contents(frames: seq<Frame>, table: map<nat, nat>, disk: map<nat, Data>): map<nat, Data> {
    map p | p in disk :: if p in table && table[p] < |frames| then frames[table[p]].data else disk[p]
  }

  // ---- steps on values --------------------------------------------------------------------------

  /** A frame's bookkeeping may change at will. */
  lemma PinsChange(frames: seq<Frame>, table: map<nat, nat>, free: seq<nat>, disk: map<nat, Data>, f: nat, pins: nat)
    requires CleanOk(frames, table, free, disk) && f < |frames|
    ensures CleanOk(frames[f := frames[f].(pins := pins)], table, free, disk)
    ensures Contents(frames[f := frames[f].(pins := pins)], table, disk) == Contents(frames, table, disk)
  {
  }

  /** A resident page written out: its frame is clean, and no page's contents change. */
  lemma WrittenOut(frames: seq<Frame>, table: map<nat, nat>, free: seq<nat>, disk: map<nat, Data>, p: nat, pins: nat,
                   n: nat)
    requires CleanOk(frames, table, free, disk) && TableOk(table, n) && p in table
    ensures var f := table[p];
            var frames', disk' := frames[f := frames[f].(pins := pins, dirty := false)], disk[p := frames[f].data];
            CleanOk(frames', table, free, disk') && Contents(frames', table, disk') == Contents(frames, table, disk)
  {
  }

  /** A clean page dropped from the table: its contents stay, on disk. */
  lemma DroppedClean(frames: seq<Frame>, table: map<nat, nat>, free: seq<nat>, disk: map<nat, Data>, p: nat, n: nat)
    requires CleanOk(frames, table, free, disk) && TableOk(table, n) && FreeOk(free, table, n)
    requires p in table && table[p] < |frames| && !frames[table[p]].dirty
    ensures TableOk(table - {p}, n) && FreeOk([table[p]] + free, table - {p}, n)
    ensures CleanOk(frames, table - {p}, [table[p]] + free, disk)
    ensures Contents(frames, table - {p}, disk) == Contents(frames, table, disk)
  {
    DropTable(table, free, p, n);
    hide TableOk, FreeOk;
    DropClean(frames, table, free, disk, p);
  }

  lemma DropClean(frames: seq<Frame>, table: map<nat, nat>, free: seq<nat>, disk: map<nat, Data>, p: nat)
    requires CleanOk(frames, table, free, disk) && p in table && table[p] < |frames| && !frames[table[p]].dirty
    ensures CleanOk(frames, table - {p}, [table[p]] + free, disk)
    ensures Contents(frames, table - {p}, disk) == Contents(frames, table, disk)
  {
    assert forall f :: f in [table[p]] + free <==> f == table[p] || f in free;
  }

  lemma DropTable(table: map<nat, nat>, free: seq<nat>, p: nat, n: nat)
    requires TableOk(table, n) && FreeOk(free, table, n) && p in table
    ensures TableOk(table - {p}, n) && FreeOk([table[p]] + free, table - {p}, n)
  {
    SizeWithout(table, p);
    PushMembers(free, table[p]);
    hide NoDup;
    assert forall q :: q in table - {p} ==> table[q] != table[p];
  }

  lemma SizeWithout(table: map<nat, nat>, p: nat)
    requires p in table
    ensures |table - {p}| == |table| - 1
  {
    assert table.Keys == (table - {p}).Keys + {p};
    assert |table - {p}| == |(table - {p}).Keys| && |table| == |table.Keys|;
  }

  lemma SizeWith(table: map<nat, nat>, p: nat, f: nat)
    requires p !in table
    ensures |table[p := f]| == |table| + 1
  {
    assert table[p := f].Keys == table.Keys + {p};
    assert |table[p := f]| == |table[p := f].Keys| && |table| == |table.Keys|;
  }

  /** A frame off the free list loaded with a page from disk. */
  lemma Loaded(frames: seq<Frame>, table: map<nat, nat>, f: nat, free: seq<nat>, disk: map<nat, Data>, p: nat, n: nat)
    requires CleanOk(frames, table, [f] + free, disk) && TableOk(table, n) && FreeOk([f] + free, table, n)
    requires p !in table && p in disk && |frames| == n
    ensures f < n && TableOk(table[p := f], n) && FreeOk(free, table[p := f], n)
    ensures CleanOk(frames[f := frames[f].(data := disk[p])], table[p := f], free, disk)
    ensures Contents(frames[f := frames[f].(data := disk[p])], table[p := f], disk) == Contents(frames, table, disk)
    ensures Contents(frames, table, disk)[p] == disk[p]
  {
    LoadTable(table, f, free, p, n);
    OffList(table, f, free, n);
    hide TableOk, FreeOk;
    LoadClean(frames, table, f, free, disk, p);
  }

  lemma OffList(table: map<nat, nat>, f: nat, free: seq<nat>, n: nat)
    requires FreeOk([f] + free, table, n)
    ensures f < n && f !in free && forall q :: q in table ==> table[q] != f
  {
    var all := [f] + free;
    assert all[0] == f && f in all;
    TailApart(f, free);
  }

  lemma LoadTable(table: map<nat, nat>, f: nat, free: seq<nat>, p: nat, n: nat)
    requires TableOk(table, n) && FreeOk([f] + free, table, n) && p !in table
    ensures f < n && TableOk(table[p := f], n) && FreeOk(free, table[p := f], n)
  {
    OffList(table, f, free, n);
    TailApart(f, free);
    SizeWith(table, p, f);
    assert forall g :: g in free ==> g in [f] + free;
    hide NoDup;
  }

  lemma LoadClean(frames: seq<Frame>, table: map<nat, nat>, f: nat, free: seq<nat>, disk: map<nat, Data>, p: nat)
    requires CleanOk(frames, table, [f] + free, disk) && p !in table && p in disk && f < |frames|
    requires f !in free && forall q :: q in table ==> table[q] != f
    ensures CleanOk(frames[f := frames[f].(data := disk[p])], table[p := f], free, disk)
    ensures Contents(frames[f := frames[f].(data := disk[p])], table[p := f], disk) == Contents(frames, table, disk)
    ensures Contents(frames, table, disk)[p] == disk[p]
  {
    assert forall g :: g in free ==> g in [f] + free;
  }

  lemma TailApart(f: nat, free: seq<nat>)
    requires NoDup([f] + free)
    ensures NoDup(free) && f !in free
  {
    var all := [f] + free;
    assert forall i :: 0 <= i < |free| ==> free[i] == all[i + 1];
    assert all[0] == f;
  }

  /** A page taken out of pool and disk; its frame, wiped, goes to the end of the free list. */
  lemma Removed(frames: seq<Frame>, table: map<nat, nat>, free: seq<nat>, disk: map<nat, Data>, p: nat, n: nat)
    requires CleanOk(frames, table, free, disk) && TableOk(table, n) && FreeOk(free, table, n) && p in table
             && |frames| == n
    ensures table[p] < n
    ensures var f, table' := table[p], table - {p};
            var frames' := frames[f := Frame(Zeros(), 0, false)];
            && TableOk(table', n) && FreeOk(free + [f], table', n) && CleanOk(frames', table', free + [f], disk - {p})
            && Contents(frames', table', disk - {p}) == Contents(frames, table, disk) - {p}
  {
    RemoveTable(table, free, p, n);
    RemoveClean(frames, table, free, disk, p, n);
  }

  lemma RemoveTable(table: map<nat, nat>, free: seq<nat>, p: nat, n: nat)
    requires TableOk(table, n) && FreeOk(free, table, n) && p in table
    ensures TableOk(table - {p}, n) && FreeOk(free + [table[p]], table - {p}, n)
  {
    SizeWithout(table, p);
    assert forall q :: q in table - {p} ==> table[q] != table[p];
  }

  lemma RemoveClean(frames: seq<Frame>, table: map<nat, nat>, free: seq<nat>, disk: map<nat, Data>, p: nat, n: nat)
    requires CleanOk(frames, table, free, disk) && TableOk(table, n) && p in table && |frames| == n
    ensures var f, table' := table[p], table - {p};
            var frames' := frames[f := Frame(Zeros(), 0, false)];
            && CleanOk(frames', table', free + [f], disk - {p})
            && Contents(frames', table', disk - {p}) == Contents(frames, table, disk) - {p}
  {
    assert forall q :: q in table - {p} ==> table[q] != table[p];
    hide TableOk;
    WipedClean(frames, table, free, disk, p);
    WipedContents(frames, table, disk, p);
  }

  lemma WipedClean(frames: seq<Frame>, table: map<nat, nat>, free: seq<nat>, disk: map<nat, Data>, p: nat)
    requires CleanOk(frames, table, free, disk) && p in table && forall q :: q in table - {p} ==> table[q] != table[p]
    ensures CleanOk(frames[table[p] := Frame(Zeros(), 0, false)], table - {p}, free + [table[p]], disk - {p})
  {
  }

  lemma WipedContents(frames: seq<Frame>, table: map<nat, nat>, disk: map<nat, Data>, p: nat)
    requires p in table && table[p] < |frames| && forall q :: q in table - {p} ==> table[q] != table[p]
    ensures Contents(frames[table[p] := Frame(Zeros(), 0, false)], table - {p}, disk - {p})
         == Contents(frames, table, disk) - {p}
  {
  }

  /** With a frame missing from the table there is one on the free list. */
  lemma SomethingFree(free: seq<nat>, table: map<nat, nat>, n: nat)
    requires FreeOk(free, table, n)
    ensures |table| != n <==> free != []
    ensures |table| <= n
  {
  }

  lemma LinkedLoad(table: map<nat, nat>, alive: map<nat, FrameStatus>, p: nat, f: nat, st: FrameStatus)
    requires Linked(table, alive) && p !in table && f !in alive && st.page == p
    ensures Linked(table[p := f], alive[f := st])
  {
  }

  lemma LinkedDrop(table: map<nat, nat>, alive: map<nat, FrameStatus>, p: nat)
    requires Linked(table, alive) && p in table
    ensures Linked(table - {p}, alive - {table[p]})
  {
  }

  /** The same frames under the same pages, whatever else the replacer notes about them. */
  lemma LinkedSame(table: map<nat, nat>, alive: map<nat, FrameStatus>, alive': map<nat, FrameStatus>)
    requires Linked(table, alive) && alive'.Keys == alive.Keys && forall f :: f in alive ==>
             alive'[f].page == alive[f].page
    ensures Linked(table, alive')
  {
  }

  /** Frames other than g, the pages in them, and what the replacer says of them stay what they are. */
  predicate OnlyFrame(frames: seq<Frame>, frames': seq<Frame>, table: map<nat, nat>, table': map<nat, nat>,
                      alive: map<nat, FrameStatus>, alive': map<nat, FrameStatus>, g: nat) {
    && |frames'| == |frames| && (forall x :: 0 <= x < |frames| && x != g ==> frames'[x] == frames[x])
    && (forall q :: q in table && table[q] != g ==> q in table' && table'[q] == table[q])
    && alive'.Keys == alive.Keys + {g} && (forall x :: x in alive && x != g ==> alive'[x] == alive[x])
  }

  datatype DeleteResult = Deleted | Pinned | Crashed

  datatype Fetched = Guard(frame: nat) | OutOfMemory | Died

  class BufferPool {
    const numFrames: nat
    const replacer: ArcReplacer
    var frames: seq<Frame>
    var table: map<nat, nat>
    var free: seq<nat>
    /** The disk behind the scheduler: pages written so far. */
    var disk: map<nat, Data>

    ghost predicate Valid()
      reads this, replacer
    {
      && replacer.Valid() && replacer.capacity == numFrames == |frames|
      && TableOk(table, numFrames) && FreeOk(free, table, numFrames) && Linked(table, replacer.alive)
      && CleanOk(frames, table, free, disk)
    }

    ghost function View(): map<nat, Data>
      reads this
    {
      Contents(frames, table, disk)
    }

    constructor (n: nat, disk: map<nat, Data>)
      ensures Valid() && fresh(replacer) && numFrames == n && View() == disk && table == map[] && this.disk == disk
      ensures replacer.View() == Empty() && forall f :: 0 <= f < n ==> frames[f] == Frame(Zeros(), 0, false)
      ensures |free| == n && forall f :: 0 <= f < n ==> free[f] == f
    {
      numFrames := n;
      replacer := new ArcReplacer(n);
      frames := seq(n, _ => Frame(Zeros(), 0, false));
      table := map[];
      free := seq(n, i => i);
      this.disk := disk;
    }

    method Pin(f: nat) returns (before: nat)
      requires Valid() && f < numFrames
      modifies this`frames
      ensures Valid() && View() == old(View()) && before == old(frames)[f].pins
      ensures frames == old(frames)[f := PinUp(old(frames)[f])]
    {
      hide TableOk, FreeOk, Linked, Inv, CleanOk, Contents, EvictableFrames;
      before := frames[f].pins;
      PinsChange(frames, table, free, disk, f, (before + 1) % PIN_LIMIT);
      frames := frames[f := PinUp(frames[f])];
    }

    method Unpin(f: nat) returns (before: nat)
      requires Valid() && f < numFrames
      modifies this`frames
      ensures Valid() && View() == old(View()) && before == old(frames)[f].pins
      ensures frames == old(frames)[f := PinDown(old(frames)[f])]
    {
      hide TableOk, FreeOk, Linked, Inv, CleanOk, Contents, EvictableFrames;
      before := frames[f].pins;
      PinsChange(frames, table, free, disk, f, (before + PIN_LIMIT - 1) % PIN_LIMIT);
      frames := frames[f := PinDown(frames[f])];
    }

    method SetEvictable(f: nat, evictable: bool)
      requires Valid() && f < numFrames
      modifies replacer
      ensures Valid() && replacer.View() == Arc.SetEvictable(old(replacer.View()), f, evictable)
    {
      hide TableOk, FreeOk, Linked, Inv, CleanOk, Contents, EvictableFrames;
      ghost var a := replacer.View();
      var ok := replacer.SetEvictable(f, evictable);
      EvictableKeeps(a, f, evictable);
      LinkedSame(table, a.alive, replacer.alive);
    }

    static lemma EvictableKeeps(a: Lists, f: nat, evictable: bool)
      ensures var b := Arc.SetEvictable(a, f, evictable);
              && b.alive.Keys == a.alive.Keys && (forall g :: g in a.alive ==> b.alive[g].page == a.alive[g].page)
              && b.ghosts == a.ghosts && b.mruGhost == a.mruGhost && b.mfuGhost == a.mfuGhost
    {
    }

    /** CheckedWritePage and CheckedReadPage: brings a page in and returns its frame. */
    method CheckedPage(page: nat) returns (r: Fetched)
      requires Valid() && page in disk
      modifies this, replacer
      ensures r == OutOfMemory <==> page !in old(table) && |old(table)| == numFrames && old(replacer.currSize) == 0
      ensures r == Died <==> page !in old(table) && !r.OutOfMemory? && Stale(old(replacer.View()), page)
      ensures r != Died ==> Valid() && View() == old(View())
      ensures r.Guard? ==> page in table && table[page] == r.frame && frames[r.frame].data == old(View())[page]
      ensures disk.Keys == old(disk).Keys
      ensures r == OutOfMemory ==>
                && table == old(table) && free == old(free) && frames == old(frames) && disk == old(disk)
                && replacer.View() == old(replacer.View())
      ensures page in old(table) ==>
                && table == old(table) && free == old(free) && disk == old(disk) && table[page] < |old(frames)|
                && frames == old(frames)[table[page] := PinUp(old(frames)[table[page]])]
                && table[page] in old(replacer.View()).alive
                && replacer.View() == HitView(old(replacer.View()), table[page], old(frames)[table[page]].pins)
      ensures page !in old(table) && old(free) != [] && r.Guard? ==>
                && r.frame == old(free)[0] && free == old(free)[1..] && table == old(table)[page := r.frame]
                && disk == old(disk) && r.frame < |old(frames)|
                && frames == old(frames)[r.frame := old(frames)[r.frame].(data := disk[page])]
                && LoadedView(old(replacer.View()), replacer.View(), r.frame, page, numFrames)
      ensures page !in old(table) && old(free) == [] && r.Guard? ==>
                && AliveOk(old(replacer.View())) && free == old(free)
                && Swapped(old(replacer.View()), old(table), old(frames), old(disk), table, frames, disk, page, r.frame)
                && r.frame in old(replacer.alive) && old(replacer.alive)[r.frame].evictable
      ensures r.Guard? ==>
                && r.frame in replacer.alive && replacer.alive[r.frame].page == page
                && OnlyFrame(old(frames), frames, old(table), table, old(replacer.alive), replacer.alive, r.frame)
                && (page in old(table) ==>
                      && r.frame in old(replacer.alive) && r.frame < |old(frames)| && r.frame < |frames|
                      && frames[r.frame].pins == (old(frames)[r.frame].pins + 1) % 0x1_0000_0000_0000_0000
                      && (replacer.alive[r.frame].evictable <==>
                            old(frames)[r.frame].pins != 0 && old(replacer.alive)[r.frame].evictable))
                && (page !in old(table) ==> !replacer.alive[r.frame].evictable)
    {
      hide TableOk, FreeOk, Linked, Inv, CleanOk, Contents, EvictableFrames, Stale, HitView, LoadedView, AliveOk,
           Swapped, OnlyFrame, HeldBy, Takes, PinUp;
      SomethingFree(free, table, numFrames);
      ghost var frames0, table0, alive0 := frames, table, replacer.alive;
      if page in table {
        r := Hit(page);
        OnlyHit(frames0, table, alive0, replacer.alive, r.frame, page);
      } else if numFrames == |table| {
        r := MissFull(page);
        if r.Guard? {
          SwappedFrames(old(replacer.View()), old(table), old(frames), old(disk), table, frames, disk, page, r.frame);
          OnlyTaken(frames0, frames, table0, table, alive0, replacer.alive, r.frame, page);
        }
      } else {
        r := MissFree(page);
        if r.Guard? {
          OnlyTaken(frames0, frames, table0, table, alive0, replacer.alive, r.frame, page);
        }
      }
    }

    static lemma OnlyHit(frames: seq<Frame>, table: map<nat, nat>, alive: map<nat, FrameStatus>,
                         alive': map<nat, FrameStatus>, f: nat, p: nat)
      requires f < |frames| && HeldBy(alive, alive', f, p, frames[f].pins)
      ensures var frames' := frames[f := PinUp(frames[f])];
              && OnlyFrame(frames, frames', table, table, alive, alive', f)
              && frames'[f].pins == (frames[f].pins + 1) % 0x1_0000_0000_0000_0000
              && f in alive && f in alive' && alive'[f].page == p
              && (alive'[f].evictable <==> frames[f].pins != 0 && alive[f].evictable)
    {
    }

    static lemma OnlyTaken(frames: seq<Frame>, frames': seq<Frame>, table: map<nat, nat>, table': map<nat, nat>,
                           alive: map<nat, FrameStatus>, alive': map<nat, FrameStatus>, f: nat, p: nat)
      requires Takes(alive, alive', f, p)
      requires |frames'| == |frames| && forall g :: 0 <= g < |frames| && g != f ==> frames'[g] == frames[g]
      requires forall q :: q in table && table[q] != f ==> q in table' && table'[q] == table[q]
      ensures OnlyFrame(frames, frames', table, table', alive, alive', f)
      ensures f in alive' && alive'[f].page == p && !alive'[f].evictable
    {
    }

    /** What a hit leaves in the replacer: the access, and the frame pinned down if nobody had it pinned. */
    static function HitView(a: Lists, f: nat, pins: nat): Lists
      requires f in a.alive
    {
      var b := HitAlive(a, f);
      if pins == 0 then Arc.SetEvictable(b, f, false) else b
    }

    /** What loading a page into a frame leaves in the replacer. */
    static ghost predicate LoadedView(a: Lists, b: Lists, f: nat, p: nat, n: nat) {
      && Inv(a, n) && CanAccess(a, f, p, n) && !Aborts(a, f, p) && f !in a.alive
      && b == Arc.SetEvictable(Access(a, f, p, n), f, false)
    }

    /** Case 1: the page is resident. */
    method Hit(page: nat) returns (r: Fetched)
      requires Valid() && page in table
      modifies this`frames, replacer
      ensures Valid() && View() == old(View()) && r == Guard(table[page])
      ensures table[page] < |frames| && page in disk && frames[table[page]].data == old(View())[page]
      ensures table[page] < |old(frames)| && frames == old(frames)[table[page] := PinUp(old(frames)[table[page]])]
      ensures table[page] in old(replacer.View()).alive
      ensures replacer.View() == HitView(old(replacer.View()), table[page], old(frames)[table[page]].pins)
      ensures HeldBy(old(replacer.View()).alive, replacer.View().alive, table[page], page,
                     old(frames)[table[page]].pins)
    {
      hide FreeOk, Inv, CleanOk, Contents, EvictableFrames, CanAccess, Aborts, Access, HitAlive, HeldBy;
      var f := table[page];
      ghost var a := replacer.View();
      HitAllowed(a, table, page, numFrames);
      var ok := replacer.RecordAccess(f, page);
      HitKeeps(a, f, page, numFrames);
      AccessIsHit(a, f, page, numFrames);
      LinkedSame(table, a.alive, replacer.alive);
      hide Linked;
      ResidentData(frames, table, free, disk, page);
      var before := Pin(f);
      if before == 0 {
        SetEvictable(f, false);
      }
      r := Guard(f);
      HitHolds(a, f, page, before);
    }

    /** The frame is evictable only if it was, and pinned before; its page and all other frames' entries stay. */
    static predicate HeldBy(alive: map<nat, FrameStatus>, alive': map<nat, FrameStatus>, f: nat, p: nat, pins: nat) {
      && alive'.Keys == alive.Keys && f in alive && (alive'[f].evictable <==> pins != 0 && alive[f].evictable)
      && alive'[f].page == p && forall g :: g in alive && g != f ==> alive'[g] == alive[g]
    }

    static lemma HitHolds(a: Lists, f: nat, p: nat, pins: nat)
      requires f in a.alive && a.alive[f].page == p
      ensures HeldBy(a.alive, HitView(a, f, pins).alive, f, p, pins)
    {
    }

    static lemma ResidentData(frames: seq<Frame>, table: map<nat, nat>, free: seq<nat>, disk: map<nat, Data>, p: nat)
      requires CleanOk(frames, table, free, disk) && p in table
      ensures table[p] < |frames| && p in disk && Contents(frames, table, disk)[p] == frames[table[p]].data
    {
    }

    static lemma HitAllowed(a: Lists, table: map<nat, nat>, p: nat, n: nat)
      requires Linked(table, a.alive) && TableOk(table, n) && p in table
      ensures table[p] in a.alive && a.alive[table[p]].page == p
      ensures CanAccess(a, table[p], p, n) && !Aborts(a, table[p], p)
    {
    }

    static lemma HitKeeps(a: Lists, f: nat, p: nat, n: nat)
      requires Inv(a, n) && f in a.alive && CanAccess(a, f, p, n) && !Aborts(a, f, p)
      ensures var b := Access(a, f, p, n);
              b.alive.Keys == a.alive.Keys && forall g :: g in a.alive ==> b.alive[g].page == a.alive[g].page
    {
    }

    static lemma AccessIsHit(a: Lists, f: nat, p: nat, n: nat)
      requires Inv(a, n) && f in a.alive && CanAccess(a, f, p, n) && !Aborts(a, f, p)
      ensures Access(a, f, p, n) == HitAlive(a, f)
    {
    }

    /** Case 2: a frame is free. */
    method MissFree(page: nat) returns (r: Fetched)
      requires Valid() && page !in table && page in disk && free != []
      modifies this, replacer
      ensures r.Died? || r.Guard?
      ensures r == Died <==> Stale(old(replacer.View()), page)
      ensures disk == old(disk)
      ensures r.Guard? ==> Valid() && View() == old(View())
      ensures r.Guard? ==> page in table && table[page] == r.frame && frames[r.frame].data == old(View())[page]
      ensures r.Guard? ==>
                && r.frame == old(free)[0] < |old(frames)| && free == old(free)[1..]
                && table == old(table)[page := r.frame] && disk == old(disk)
                && frames == old(frames)[r.frame := old(frames)[r.frame].(data := disk[page])]
                && LoadedView(old(replacer.View()), replacer.View(), r.frame, page, numFrames)
                && Takes(old(replacer.alive), replacer.alive, r.frame, page)
    {
      hide TableOk, FreeOk, Linked, Inv, CleanOk, Contents, EvictableFrames, Stale, LoadedView;
      var f := free[0];
      assert free == [f] + free[1..];
      free := free[1..];
      r := LoadInto(f, page);
    }

    /** Reads a page into a frame that is out of use, and tells page table and replacer. */
    method LoadInto(f: nat, page: nat) returns (r: Fetched)
      requires replacer.Valid() && replacer.capacity == numFrames == |frames|
      requires TableOk(table, numFrames) && FreeOk([f] + free, table, numFrames) && Linked(table, replacer.alive)
      requires CleanOk(frames, table, [f] + free, disk) && page !in table && page in disk
      modifies this, replacer
      ensures r == (if Stale(old(replacer.View()), page) then Died else Guard(f)) && disk == old(disk)
      ensures r.Guard? ==> Valid() && View() == old(View())
      ensures r.Guard? ==> page in table && table[page] == f && f < |frames| && frames[f].data == old(View())[page]
      ensures r.Guard? ==>
                && f < |old(frames)| && table == old(table)[page := f] && free == old(free)
                && frames == old(frames)[f := old(frames)[f].(data := disk[page])]
                && LoadedView(old(replacer.View()), replacer.View(), f, page, numFrames)
                && Takes(old(replacer.alive), replacer.alive, f, page)
    {
      hide TableOk, FreeOk, Inv, CleanOk, Contents, EvictableFrames, Access, Stale, CanAccess, Linked;
      ghost var a := replacer.View();
      Loaded(frames, table, f, free, disk, page, numFrames);
      LoadAllowed(a, table, [f] + free, f, page, numFrames);
      frames := frames[f := frames[f].(data := disk[page])];
      ghost var table0 := table;
      table := table[page := f];
      var ok := replacer.RecordAccess(f, page);
      if !ok {
        return Died;
      }
      LoadKeeps(a, f, page, numFrames);
      LinkedLoad(table0, a.alive, page, f, replacer.alive[f]);
      SetEvictable(f, false);
      LoadTakes(a, f, page, numFrames);
      r := Guard(f);
    }

    /** The frame now holds the page and is not evictable; all other frames' entries are as before. */
    static predicate Takes(alive: map<nat, FrameStatus>, alive': map<nat, FrameStatus>, f: nat, p: nat) {
      && alive'.Keys == alive.Keys + {f} && alive'[f].page == p && !alive'[f].evictable
      && forall g :: g in alive && g != f ==> alive'[g] == alive[g]
    }

    static lemma TakesBack(alive: map<nat, FrameStatus>, alive': map<nat, FrameStatus>, f: nat, p: nat)
      requires f in alive && Takes(alive - {f}, alive', f, p)
      ensures Takes(alive, alive', f, p)
    {
    }

    static lemma LoadTakes(a: Lists, f: nat, p: nat, n: nat)
      requires Inv(a, n) && CanAccess(a, f, p, n) && !Aborts(a, f, p) && f !in a.alive
      ensures Takes(a.alive, Arc.SetEvictable(Access(a, f, p, n), f, false).alive, f, p)
    {
    }

    static lemma LoadAllowed(a: Lists, table: map<nat, nat>, free: seq<nat>, f: nat, p: nat, n: nat)
      requires Linked(table, a.alive) && FreeOk(free, table, n) && f in free && p !in table
      ensures f < n && f !in a.alive && CanAccess(a, f, p, n) && (Aborts(a, f, p) <==> Stale(a, p))
    {
    }

    static lemma LoadKeeps(a: Lists, f: nat, p: nat, n: nat)
      requires Inv(a, n) && f !in a.alive && CanAccess(a, f, p, n) && !Aborts(a, f, p)
      ensures var b := Access(a, f, p, n);
              f in b.alive && b.alive == a.alive[f := b.alive[f]] && b.alive[f].page == p
    {
    }

    /** Case 3: a resident page has to go, written out first if it is dirty. */
    method MissFull(page: nat) returns (r: Fetched)
      requires Valid() && page !in table && page in disk && free == []
      modifies this, replacer
      ensures r == OutOfMemory <==> old(replacer.currSize) == 0
      ensures r == Died <==> !r.OutOfMemory? && Stale(old(replacer.View()), page)
      ensures !r.Died? ==> Valid() && View() == old(View())
      ensures r.Guard? ==> page in table && table[page] == r.frame && frames[r.frame].data == old(View())[page]
      ensures disk.Keys == old(disk).Keys
      ensures r == OutOfMemory ==>
                && table == old(table) && free == old(free) && frames == old(frames) && disk == old(disk)
                && replacer.View() == old(replacer.View())
      ensures r.Guard? ==>
                && AliveOk(old(replacer.View())) && free == old(free)
                && Swapped(old(replacer.View()), old(table), old(frames), old(disk), table, frames, disk, page, r.frame)
                && r.frame in old(replacer.alive) && old(replacer.alive)[r.frame].evictable
                && Takes(old(replacer.alive), replacer.alive, r.frame, page)
                && (forall q :: q in old(table) && old(table)[q] != r.frame ==> q in table && table[q] == old(table)[q])
    {
      hide TableOk, FreeOk, Inv, CleanOk, Contents, EvictableFrames, Stale, AliveOk, Linked, MoveOut, LoadedView,
           ArcReplacer.LeastRecent, ArcReplacer.NoneEvictable, Takes;
      ghost var a, table0 := replacer.View(), table;
      var evicted := replacer.Evict();
      if evicted == None {
        EvictNothing(a, numFrames);
        return OutOfMemory;
      }
      var (stale, f) := evicted.value;
      EvictLinked(a, table, stale, f, page, numFrames);
      LinkedIn(table, a.alive, stale, f, frames, free, disk);
      if frames[f].dirty {
        ghost var e := replacer.View();
        var ok := FlushPageUnsafe(stale);
        FlushingKeeps(e, f, frames[f].pins);
      }
      DroppedClean(frames, table, free, disk, stale, numFrames);
      table := table - {stale};
      LinkedDrop(table0, a.alive, stale);
      r := LoadInto(f, page);
      if r.Guard? {
        TakesBack(a.alive, replacer.alive, f, page);
      }
    }

    /** What a frame is left with when its page has to go: written out if it was dirty, under a pin of its own. */
    static function Vacated(d: Frame): Frame {
      if d.dirty then PinDown(PinUp(d)).(dirty := false) else d
    }

    /** The victim's frame f has taken the new page; the victim's bytes are on disk. */
    static ghost predicate Swapped(a: Lists, table: map<nat, nat>, frames: seq<Frame>, disk: map<nat, Data>,
                                   table': map<nat, nat>, frames': seq<Frame>, disk': map<nat, Data>, page: nat, f: nat)
      requires AliveOk(a)
    {
      && f < |frames| && page in disk'
      && frames' == frames[f := Vacated(frames[f]).(data := disk'[page])]
      && exists stale :: Arc.Evict(a).0 == Some((stale, f)) && table' == (table - {stale})[page := f]
                         && disk' == if frames[f].dirty then disk[stale := frames[f].data] else disk
    }

    static lemma SwappedFrames(a: Lists, table: map<nat, nat>, frames: seq<Frame>, disk: map<nat, Data>,
                               table': map<nat, nat>, frames': seq<Frame>, disk': map<nat, Data>, page: nat, f: nat)
      requires AliveOk(a) && Swapped(a, table, frames, disk, table', frames', disk', page, f)
      ensures |frames'| == |frames| && forall g :: 0 <= g < |frames| && g != f ==> frames'[g] == frames[g]
    {
    }

    /** The replacer's victim is frame f. */
    static ghost predicate Evicts(a: Lists, f: nat)
      requires AliveOk(a)
    {
      exists stale :: Arc.Evict(a).0 == Some((stale, f))
    }

    static lemma EvictNothing(a: Lists, n: nat)
      requires Inv(a, n) && Arc.Evict(a).0 == None
      ensures Arc.Evict(a).1 == a
    {
    }

    static lemma LinkedIn(table: map<nat, nat>, alive: map<nat, FrameStatus>, p: nat, f: nat, frames: seq<Frame>,
                          free: seq<nat>, disk: map<nat, Data>)
      requires CleanOk(frames, table, free, disk) && p in table && table[p] == f
      ensures f < |frames|
    {
    }

    /** The evicted frame is the one the evicted page is in, and a page that is not resident is no staler afterwards. */
    static lemma EvictLinked(a: Lists, table: map<nat, nat>, stale: nat, f: nat, page: nat, n: nat)
      requires Inv(a, n) && Linked(table, a.alive) && Arc.Evict(a).0 == Some((stale, f)) && page !in table
      ensures AliveOk(a) && stale in table && table[stale] == f && Arc.Evict(a).1.alive == a.alive - {f}
      ensures Stale(Arc.Evict(a).1, page) <==> Stale(a, page)
    {
      var v := Choice(a).value;
      assert f == FrameAt(a, v) && f in a.alive;
    }

    /**
     * FlushPageUnsafe: writes a resident page to disk, pinning its frame meanwhile. Also runs on a frame the
     * replacer has just let go of, when the two calls of SetEvictable find nothing to change.
     */
    method FlushPageUnsafe(page: nat) returns (ok: bool)
      requires replacer.Valid() && replacer.capacity == numFrames == |frames|
      requires TableOk(table, numFrames) && CleanOk(frames, table, free, disk)
      modifies this`frames, this`disk, replacer
      ensures ok <==> page in table
      ensures replacer.Valid() && CleanOk(frames, table, free, disk) && View() == old(View())
              && |frames| == |old(frames)|
      ensures disk.Keys == old(disk).Keys
      ensures ok ==>
                table[page] < |frames| && !frames[table[page]].dirty && page in disk && disk[page] == old(View())[page]
      ensures ok ==> replacer.View() == Flushing(old(replacer.View()), table[page], frames[table[page]].pins)
      ensures !ok ==> replacer.View() == old(replacer.View())
      ensures forall f :: 0 <= f < |frames| && !old(frames)[f].dirty ==> !frames[f].dirty
      ensures ok ==>
                && table[page] < |old(frames)| && disk == old(disk)[page := old(frames)[table[page]].data]
                && frames == old(frames)[table[page] := PinDown(PinUp(old(frames)[table[page]])).(dirty := false)]
      ensures !ok ==> disk == old(disk)
    {
      hide TableOk, Inv, CleanOk, Contents, EvictableFrames;
      if page !in table {
        return false;
      }
      ResidentData(frames, table, free, disk, page);
      FrameExists(table, page, numFrames);
      var f := table[page];
      var d := frames[f];
      var held := (d.pins + 1) % PIN_LIMIT;
      var after := (held + PIN_LIMIT - 1) % PIN_LIMIT;
      WrittenOut(frames, table, free, disk, page, after, numFrames);
      var e1 := replacer.SetEvictable(f, false);
      disk := disk[page := d.data];
      frames := frames[f := d.(dirty := false, pins := after)];
      if after == 0 {
        var e2 := replacer.SetEvictable(f, true);
      }
      ok := true;
    }

    static lemma FrameExists(table: map<nat, nat>, p: nat, n: nat)
      requires TableOk(table, n) && p in table
      ensures table[p] < n
    {
    }

    /** What a flush leaves in the replacer: the frame is evictable exactly if nobody else pins it. */
    static function Flushing(a: Lists, f: nat, pins: nat): Lists {
      var b := Arc.SetEvictable(a, f, false);
      if pins == 0 then Arc.SetEvictable(b, f, true) else b
    }

    /** A flush leaves the frame evictable exactly if its pin count, which it gives back as it was, is 0. */
    static lemma FlushingIs(a: Lists, f: nat, d: Frame)
      requires f in a.alive && d.pins < 0x1_0000_0000_0000_0000
      ensures PinDown(PinUp(d)) == d
      ensures Flushing(a, f, d.pins) == a.(alive := a.alive[f := a.alive[f].(evictable := d.pins == 0)])
    {
    }

    static lemma FlushingKeeps(a: Lists, f: nat, pins: nat)
      ensures var b := Flushing(a, f, pins);
              && b.alive.Keys == a.alive.Keys && (forall g :: g in a.alive ==> b.alive[g].page == a.alive[g].page)
              && b.ghosts == a.ghosts && b.mruGhost == a.mruGhost && b.mfuGhost == a.mfuGhost
              && (f !in a.alive ==> b == a)
    {
    }

    // ---- guards -------------------------------------------------------------------------------------

    /** WritePageGuard's access to the bytes: marks the frame dirty and changes just that page. */
    method GuardWrite(page: nat, data: Data)
      requires Valid() && page in table
      modifies this`frames
      ensures Valid() && View() == old(View())[page := data]
      ensures table[page] < |old(frames)|
      ensures frames == old(frames)[table[page] := old(frames)[table[page]].(data := data, dirty := true)]
    {
      hide FreeOk, Linked, Inv, EvictableFrames;
      FrameExists(table, page, numFrames);
      Overwritten(frames, table, free, disk, page, data, numFrames);
      hide TableOk, CleanOk, Contents;
      frames := frames[table[page] := frames[table[page]].(data := data, dirty := true)];
    }

    static lemma Overwritten(frames: seq<Frame>, table: map<nat, nat>, free: seq<nat>, disk: map<nat, Data>, p: nat,
                             data: Data, n: nat)
      requires CleanOk(frames, table, free, disk) && TableOk(table, n) && FreeOk(free, table, n) && p in table
               && table[p] < |frames|
      ensures var frames' := frames[table[p] := frames[table[p]].(data := data, dirty := true)];
              CleanOk(frames', table, free, disk)
                  && Contents(frames', table, disk) == Contents(frames, table, disk)[p := data]
    {
      hide NoDup;
      assert p in disk;
      assert table[p] !in free;
    }

    method GuardRead(page: nat) returns (data: Data)
      requires Valid() && page in table
      ensures page in View() && data == View()[page]
    {
      ResidentData(frames, table, free, disk, page);
      data := frames[table[page]].data;
    }

    /** Gives the pin back; the frame becomes evictable when it was the last one. */
    method GuardDrop(page: nat)
      requires Valid() && page in table
      modifies this`frames, replacer
      ensures Valid() && View() == old(View())
      ensures table[page] < |old(frames)| && frames == old(frames)[table[page] := PinDown(old(frames)[table[page]])]
      ensures replacer.View()
           == if old(frames)[table[page]].pins == 1 then Arc.SetEvictable(old(replacer.View()), table[page], true)
              else old(replacer.View())
      ensures frames[table[page]].pins
           == (old(frames)[table[page]].pins + 0xFFFF_FFFF_FFFF_FFFF) % 0x1_0000_0000_0000_0000
    {
      FrameExists(table, page, numFrames);
      hide TableOk, FreeOk, Linked, Inv, CleanOk, Contents, EvictableFrames;
      var before := Unpin(table[page]);
      if before == 1 {
        SetEvictable(table[page], true);
      }
    }

    /** Writes the guarded page through to disk. */
    method GuardFlush(page: nat)
      requires Valid() && page in table
      modifies this`frames, this`disk
      ensures Valid() && View() == old(View()) && page in disk && disk[page] == View()[page]
      ensures disk == old(disk)[page := View()[page]] && table[page] < |old(frames)|
      ensures frames == old(frames)[table[page] := old(frames)[table[page]].(dirty := false)]
    {
      hide TableOk, FreeOk, Linked, Inv, CleanOk, Contents, EvictableFrames;
      ResidentData(frames, table, free, disk, page);
      FrameExists(table, page, numFrames);
      var d := frames[table[page]];
      WrittenOut(frames, table, free, disk, page, d.pins, numFrames);
      frames := frames[table[page] := d.(dirty := false)];
      disk := disk[page := d.data];
    }

    // ---- flushing and deleting ------------------------------------------------------------------------

    /** FlushPage: fetch, flush, drop. */
    method FlushPage(page: nat) returns (r: Fetched)
      requires Valid() && page in disk
      modifies this, replacer
      ensures r != Died ==> Valid() && View() == old(View())
      ensures r.Guard? ==> page in disk && disk[page] == old(View())[page]
      ensures page in old(table) ==>
                && r.Guard? && table == old(table) && free == old(free) && table[page] < |old(frames)|
                && var d := old(frames)[table[page]];
                   && frames == old(frames)[table[page] := PinDown(PinUp(d)).(dirty := false)]
                   && table[page] in old(replacer.View()).alive
                   && var b := HitView(old(replacer.View()), table[page], d.pins);
                      replacer.View() == if PinUp(d).pins == 1 then Arc.SetEvictable(b, table[page], true) else b
      ensures page !in old(table) && old(free) != [] && r.Guard? ==>
                && r.frame < |frames| && !frames[r.frame].dirty
                && r.frame == old(free)[0] < |old(frames)|
                && frames[r.frame].pins == PinDown(old(frames)[r.frame]).pins
      ensures page !in old(table) && old(free) == [] && r.Guard? ==>
                && r.frame < |frames| && !frames[r.frame].dirty && r.frame < |old(frames)|
                && frames[r.frame].pins == PinDown(Vacated(old(frames)[r.frame])).pins
                && AliveOk(old(replacer.View())) && Evicts(old(replacer.View()), r.frame)
    {
      hide TableOk, FreeOk, Linked, Inv, CleanOk, Contents, EvictableFrames, Stale, HitView, LoadedView, AliveOk;
      r := CheckedPage(page);
      if r.Guard? {
        GuardFlush(page);
        GuardDrop(page);
      }
    }

    /** Writes every dirty resident page. Afterwards no frame is dirty, and the disk alone holds all contents. */
    method FlushAllPagesUnsafe()
      requires Valid()
      modifies this`frames, this`disk, replacer
      ensures Valid() && View() == old(View()) && disk == View() && disk.Keys == old(disk).Keys
      ensures SamePins(old(frames), frames, old(replacer.View()), replacer.View())
      ensures |frames| == |old(frames)|
      ensures forall f :: 0 <= f < |frames| && old(frames)[f].pins < 0x1_0000_0000_0000_0000 ==>
                frames[f].pins == old(frames)[f].pins
    {
      hide TableOk, FreeOk, Linked, Inv, CleanOk, Contents, EvictableFrames, SamePins;
      var left := table.Keys;
      PinsStay(frames, replacer.View());
      while left != {}
        invariant Valid() && View() == old(View()) && left <= table.Keys && disk.Keys == old(disk).Keys
        invariant SamePins(old(frames), frames, old(replacer.View()), replacer.View())
        invariant forall p :: p in table && p !in left ==> table[p] < |frames| && !frames[table[p]].dirty
        decreases |left|
      {
        var page :| page in left;
        FrameExists(table, page, numFrames);
        if frames[table[page]].dirty {
          ghost var frames0, a0 := frames, replacer.View();
          FlushOne(page);
          FlushKeepsPins(old(frames), frames0, frames, old(replacer.View()), a0, replacer.View(), table[page]);
        }
        left := left - {page};
      }
      AllClean(frames, table, free, disk);
      PinsKept(old(frames), frames, old(replacer.View()), replacer.View());
    }

    /** Every frame is pinned as often as before, and only a frame nobody pins can have become evictable. */
    static ghost predicate SamePins(frames: seq<Frame>, frames': seq<Frame>, a: Lists, a': Lists) {
      && |frames'| == |frames|
      && (forall f :: 0 <= f < |frames| && frames[f].pins < PIN_LIMIT ==> frames'[f].pins == frames[f].pins)
      && a'.ghosts == a.ghosts && a'.alive.Keys == a.alive.Keys
      && (forall f :: f in a.alive && a'.alive[f].evictable ==>
            a.alive[f].evictable || (f < |frames'| && frames'[f].pins == 0))
    }

    static lemma PinsKept(frames: seq<Frame>, frames': seq<Frame>, a: Lists, a': Lists)
      requires SamePins(frames, frames', a, a')
      ensures |frames'| == |frames|
      ensures forall f :: 0 <= f < |frames| && frames[f].pins < 0x1_0000_0000_0000_0000 ==>
                frames'[f].pins == frames[f].pins
    {
    }

    static lemma PinsStay(frames: seq<Frame>, a: Lists)
      ensures SamePins(frames, frames, a, a)
    {
    }

    static lemma FlushKeepsPins(frames: seq<Frame>, frames0: seq<Frame>, frames1: seq<Frame>, a: Lists, a0: Lists,
                                a1: Lists, f: nat)
      requires SamePins(frames, frames0, a, a0) && f < |frames0|
      requires frames1 == frames0[f := PinDown(PinUp(frames0[f])).(dirty := false)]
      requires a1 == Flushing(a0, f, frames1[f].pins)
      ensures SamePins(frames, frames1, a, a1)
    {
    }

    /** One page of FlushAllPagesUnsafe: the replacer stays in step, and no clean frame gets dirty. */
    method FlushOne(page: nat)
      requires Valid() && page in table
      modifies this`frames, this`disk, replacer
      ensures Valid() && View() == old(View()) && table[page] < |frames| && !frames[table[page]].dirty
      ensures disk.Keys == old(disk).Keys
      ensures forall f :: 0 <= f < |frames| && !old(frames)[f].dirty ==> !frames[f].dirty
      ensures table[page] < |old(frames)|
      ensures frames == old(frames)[table[page] := PinDown(PinUp(old(frames)[table[page]])).(dirty := false)]
      ensures replacer.View() == Flushing(old(replacer.View()), table[page], frames[table[page]].pins)
    {
      hide TableOk, FreeOk, Inv, CleanOk, Contents, EvictableFrames;
      ghost var a := replacer.View();
      var ok := FlushPageUnsafe(page);
      FlushingKeeps(a, table[page], frames[table[page]].pins);
      LinkedSame(table, a.alive, replacer.alive);
    }

    static lemma AllClean(frames: seq<Frame>, table: map<nat, nat>, free: seq<nat>, disk: map<nat, Data>)
      requires CleanOk(frames, table, free, disk) && forall p :: p in table ==>
                table[p] < |frames| && !frames[table[p]].dirty
      ensures Contents(frames, table, disk) == disk
    {
    }

    /**
     * DeletePage: a resident page with no pins leaves the pool and the disk. A page that is not resident is reported
     * deleted without being touched. The process dies when the replacer still holds the frame to be in use.
     */
    method DeletePage(page: nat) returns (r: DeleteResult)
      requires Valid()
      modifies this, replacer
      ensures r == Crashed <==>
                page in old(table) && old(table)[page] < |old(frames)| && old(frames)[old(table)[page]].pins == 0
                && old(table)[page] in old(replacer.alive) && !old(replacer.alive)[old(table)[page]].evictable
      ensures r != Crashed ==> Valid()
      ensures r == Pinned ==>
                && View() == old(View()) && page in table && table[page] < |frames| && frames[table[page]].pins > 0
                && table == old(table) && free == old(free) && frames == old(frames) && disk == old(disk)
                && replacer.View() == old(replacer.View())
      ensures page in old(table) && r == Deleted ==>
                old(table)[page] < |old(frames)| && old(frames)[old(table)[page]].pins == 0
      ensures page !in old(table) ==>
                && r == Deleted && View() == old(View()) && table == old(table) && free == old(free)
                && frames == old(frames) && disk == old(disk) && replacer.View() == old(replacer.View())
      ensures r == Deleted && page in old(table) ==>
                && View() == old(View()) - {page} && page !in disk && page !in table
                && disk == old(disk) - {page} && table == old(table) - {page} && free == old(free) + [old(table)[page]]
                && frames == old(frames)[old(table)[page] := Frame(Zeros(), 0, false)]
                && replacer.alive == old(replacer.alive) - {old(table)[page]}
    {
      hide TableOk, FreeOk, Inv, CleanOk, Contents, EvictableFrames, Zeros, Linked;
      if page !in table {
        return Deleted;
      }
      FrameExists(table, page, numFrames);
      if frames[table[page]].pins > 0 {
        return Pinned;
      }
      hide Valid, View;
      var ok := DropPage(page);
      return if ok then Deleted else Crashed;
    }

    /** The rest of DeletePage, for a resident page with no pins. */
    method DropPage(page: nat) returns (ok: bool)
      requires Valid() && page in table && table[page] < |frames| && frames[table[page]].pins == 0
      modifies this, replacer
      ensures !ok <==> old(table)[page] in old(replacer.alive) && !old(replacer.alive)[old(table)[page]].evictable
      ensures ok ==>
                && Valid() && View() == old(View()) - {page} && disk == old(disk) - {page}
                && table == old(table) - {page} && free == old(free) + [old(table)[page]]
                && frames == old(frames)[old(table)[page] := Frame(Zeros(), 0, false)]
                && replacer.alive == old(replacer.alive) - {old(table)[page]}
    {
      hide TableOk, FreeOk, Inv, CleanOk, Contents, EvictableFrames, Zeros;
      ghost var alive0, table0 := replacer.alive, table;
      var f := table[page];
      assert f in alive0;
      LinkedDrop(table0, alive0, page);
      hide Linked, Arc.Remove;
      Removed(frames, table0, free, disk, page, numFrames);
      table := table - {page};
      ok := replacer.Remove(f);
      if ok {
        FreeFrame(page, f);
      }
    }

    /** The frame is emptied and free again, and the disk forgets the page. */
    method FreeFrame(page: nat, f: nat)
      requires f < |frames|
      modifies `frames, `free, `disk
      ensures frames == old(frames)[f := Frame(Zeros(), 0, false)]
      ensures free == old(free) + [f] && disk == old(disk) - {page}
    {
      frames := frames[f := Frame(Zeros(), 0, false)];
      free := free + [f];
      disk := disk - {page};
    }
  }
}
