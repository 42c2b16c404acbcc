/**
 * The database file: page images addressed by page id, page 0 holding the global metadata, and a chain
 * of freelist pages that works as one stack of free page ids.
 */
module Disk {
  import opened Bytes
  import opened Pages
  import opened PageBytes

  const MAGIC_NUMBER: nat := 0xFEED_FACE
  /** Ids a freelist page can hold besides its own. */
  const MAX_FREE_IDS: nat := 1022
  /** Above this many pages the 32-bit product page_id * PAGE_SIZE wraps. */
  const MAX_PAGES: nat := 0x10_0000

  /** The place in the file, in pages, that a page id is read from and written to. */
  function PageIndex(id: nat): nat {
    id * PAGE_SIZE % TWO32 / PAGE_SIZE
  }

  /** Two ids share a place in the file exactly when they agree modulo 2^20. */
  lemma PageIndexAliases(a: nat, b: nat)
    ensures PageIndex(a) == a % MAX_PAGES
    ensures PageIndex(a) == PageIndex(b) <==> a % MAX_PAGES == b % MAX_PAGES
  {
    IndexIsMod(a);
    IndexIsMod(b);
  }

  lemma IndexIsMod(a: nat)
    ensures PageIndex(a) == a % MAX_PAGES
  {
    var q, r := a / MAX_PAGES, a % MAX_PAGES;
    assert a == MAX_PAGES * q + r;
    assert a * PAGE_SIZE == r * PAGE_SIZE + TWO32 * q;
    DivModUnique(a * PAGE_SIZE, TWO32, q, r * PAGE_SIZE);
  }

  // ---- page 0 -----------------------------------------------------------------------------------

  datatype Metadata = Metadata(magic: nat, version: nat, root: nat, freelistHead: nat, next: nat)

  predicate FitsMeta(m: Metadata) {
    m.magic < TWO32 && m.version < TWO32 && m.root < TWO32 && m.freelistHead < TWO32 && m.next < TWO32
  }

  function EncodeMeta(m: Metadata): Buffer
    requires FitsMeta(m)
  {
    Bytes32(m.magic) + Bytes32(m.version) + Bytes32(m.root) + Bytes32(m.freelistHead) + Bytes32(m.next)
      + seq(PAGE_SIZE - 20, _ => 0)
  }

  function DecodeMeta(d: Buffer): Metadata {
    Metadata(U32(d, 0), U32(d, 4), U32(d, 8), U32(d, 12), U32(d, 16))
  }

  lemma U32In(a: seq<Byte>, x: nat, b: seq<Byte>)
    requires x < TWO32
    ensures U32(a + Bytes32(x) + b, |a|) == x
  {
    var d, s := a + Bytes32(x) + b, Bytes32(x);
    assert d[|a|] == s[0] && d[|a| + 1] == s[1] && d[|a| + 2] == s[2] && d[|a| + 3] == s[3];
    assert U32(s, 0) == x;
  }

  lemma MetaRoundTrip(m: Metadata)
    requires FitsMeta(m)
    ensures DecodeMeta(EncodeMeta(m)) == m
  {
    var a, b, c, d, e := Bytes32(m.magic), Bytes32(m.version), Bytes32(m.root), Bytes32(m.freelistHead),
        Bytes32(m.next);
    var z: seq<Byte> := seq(PAGE_SIZE - 20, _ => 0);
    hide Bytes32, U32;
    var f := EncodeMeta(m);
    assert f == [] + a + (b + c + d + e + z);
    assert f == a + b + (c + d + e + z);
    assert f == (a + b) + c + (d + e + z);
    assert f == (a + b + c) + d + (e + z);
    assert f == (a + b + c + d) + e + z;
    U32In([], m.magic, b + c + d + e + z);
    U32In(a, m.version, c + d + e + z);
    U32In(a + b, m.root, d + e + z);
    U32In(a + b + c, m.freelistHead, e + z);
    U32In(a + b + c + d, m.next, z);
  }

  // ---- freelist pages ---------------------------------------------------------------------------

  /** The five fields stand at fixed places on page 0. */
  lemma MetaLayout(m: Metadata)
    requires FitsMeta(m)
    ensures var d := EncodeMeta(m);
            && d[0..4] == Bytes32(m.magic) && d[4..8] == Bytes32(m.version) && d[8..12] == Bytes32(m.root)
            && d[12..16] == Bytes32(m.freelistHead) && d[16..20] == Bytes32(m.next)
            && forall k :: 20 <= k < PAGE_SIZE ==> d[k] == 0
  {
  }

  function NextOf(d: Buffer): nat { U32(d, 0) }
  function CountOf(d: Buffer): nat { U32(d, 4) }

  function IdAt(d: Buffer, k: nat): nat
    requires k < MAX_FREE_IDS
  {
    U32(d, 8 + 4 * k)
  }

  function IdsOf(d: Buffer): (r: seq<nat>)
    requires CountOf(d) <= MAX_FREE_IDS
    ensures |r| == CountOf(d) && forall k :: 0 <= k < |r| ==> r[k] == IdAt(d, k)
  {
    seq(CountOf(d), k requires 0 <= k < CountOf(d) => IdAt(d, k))
  }

  function Put32(d: Buffer, off: nat, x: nat): Buffer
    requires off + 4 <= PAGE_SIZE && x < TWO32
  {
    Splice(d, off, Bytes32(x))
  }

  /** The page with one more id in its next free place. */
  function PushId(d: Buffer, id: nat): Buffer
    requires CountOf(d) < MAX_FREE_IDS && id < TWO32
  {
    Put32(Put32(d, 8 + 4 * CountOf(d), id), 4, CountOf(d) + 1)
  }

  function PopId(d: Buffer): Buffer
    requires 0 < CountOf(d)
  {
    Put32(d, 4, CountOf(d) - 1)
  }

  /** A freelist page made from whatever the memory held: only its link and count are set. */
  function EmptyFreePage(garbage: Buffer, next: nat): Buffer
    requires next < TWO32
  {
    Put32(Put32(garbage, 4, 0), 0, next)
  }

  lemma Put32Reads(d: Buffer, off: nat, x: nat, at: nat)
    requires off + 4 <= PAGE_SIZE && at + 4 <= PAGE_SIZE && x < TWO32
    requires at == off || at + 4 <= off || off + 4 <= at
    ensures U32(Put32(d, off, x), at) == if at == off then x else U32(d, at)
  {
    SpliceU32(d, off, x, at);
  }

  lemma PushIdReads(d: Buffer, id: nat)
    requires CountOf(d) < MAX_FREE_IDS && id < TWO32
    ensures var e := PushId(d, id);
            NextOf(e) == NextOf(d) && CountOf(e) == CountOf(d) + 1 && IdsOf(e) == IdsOf(d) + [id]
  {
    hide U32, Put32, IdsOf;
    var off := 8 + 4 * CountOf(d);
    var m := Put32(d, off, id);
    Put32Reads(d, off, id, 0);
    Put32Reads(m, 4, CountOf(d) + 1, 4);
    Put32Reads(m, 4, CountOf(d) + 1, 0);
    forall k | 0 <= k < CountOf(d) + 1
      ensures IdAt(PushId(d, id), k) == if k == CountOf(d) then id else IdAt(d, k)
    {
      PushIdAt(d, id, k);
    }
  }

  lemma PushIdAt(d: Buffer, id: nat, k: nat)
    requires CountOf(d) < MAX_FREE_IDS && id < TWO32 && k <= CountOf(d)
    ensures IdAt(PushId(d, id), k) == if k == CountOf(d) then id else IdAt(d, k)
  {
    hide U32, Put32;
    var off := 8 + 4 * CountOf(d);
    Put32Reads(d, off, id, 8 + 4 * k);
    Put32Reads(Put32(d, off, id), 4, CountOf(d) + 1, 8 + 4 * k);
  }

  lemma PopIdReads(d: Buffer)
    requires 0 < CountOf(d) <= MAX_FREE_IDS
    ensures var e := PopId(d);
            NextOf(e) == NextOf(d) && CountOf(e) == CountOf(d) - 1 && IdsOf(d) == IdsOf(e) + [IdAt(d, CountOf(d) - 1)]
  {
    hide U32, Put32;
    Put32Reads(d, 4, CountOf(d) - 1, 4);
    Put32Reads(d, 4, CountOf(d) - 1, 0);
    forall k | 0 <= k < CountOf(d)
      ensures IdAt(PopId(d), k) == IdAt(d, k)
    {
      Put32Reads(d, 4, CountOf(d) - 1, 8 + 4 * k);
    }
  }

  lemma EmptyFreePageReads(garbage: Buffer, next: nat)
    requires next < TWO32
    ensures var e := EmptyFreePage(garbage, next); NextOf(e) == next && CountOf(e) == 0 && IdsOf(e) == []
  {
    hide U32, Put32;
    Put32Reads(garbage, 4, 0, 4);
    Put32Reads(Put32(garbage, 4, 0), 0, next, 0);
    Put32Reads(Put32(garbage, 4, 0), 0, next, 4);
  }

  // ---- the chain as one stack -------------------------------------------------------------------

  function HeadOf(chain: seq<nat>): nat {
    if chain == [] then INVALID_PAGE else chain[0]
  }

  function After(chain: seq<nat>, i: nat): nat {
    if i + 1 < |chain| then chain[i + 1] else INVALID_PAGE
  }

  /** `chain` lists the freelist pages from the head on, each linking to the next. */
  predicate ChainOk(file: seq<Buffer>, chain: seq<nat>) {
    forall i :: 0 <= i < |chain| ==>
      && chain[i] < |file| && chain[i] != INVALID_PAGE
      && CountOf(file[chain[i]]) <= MAX_FREE_IDS
      && NextOf(file[chain[i]]) == After(chain, i)
  }

  /** Bottom to top: the pages further down the chain, then the head page, then the ids on it. */
  function Stack(file: seq<Buffer>, chain: seq<nat>): seq<nat>
    requires ChainOk(file, chain)
  {
    if chain == [] then []
    else
      ChainTail(file, chain);
      Stack(file, chain[1..]) + ([chain[0]] + IdsOf(file[chain[0]]))
  }

  lemma ChainTail(file: seq<Buffer>, chain: seq<nat>)
    requires ChainOk(file, chain) && chain != []
    ensures ChainOk(file, chain[1..])
  {
    assert forall i :: 0 <= i < |chain[1..]| ==> After(chain[1..], i) == After(chain, i + 1);
  }

  lemma {:induction false} ChainInStack(file: seq<Buffer>, chain: seq<nat>)
    requires ChainOk(file, chain)
    ensures forall i :: 0 <= i < |chain| ==> chain[i] in Stack(file, chain)
  {
    if chain != [] {
      ChainTail(file, chain);
      ChainInStack(file, chain[1..]);
      var rest, top := Stack(file, chain[1..]), [chain[0]] + IdsOf(file[chain[0]]);
      assert top[0] == chain[0] && chain[0] in top;
      forall i | 0 <= i < |chain|
        ensures chain[i] in Stack(file, chain)
      {
        if i > 0 {
          assert chain[i] == chain[1..][i - 1];
          assert chain[1..][i - 1] in rest;
        }
      }
    }
  }

  lemma {:induction false} ChainFrame(file: seq<Buffer>, file': seq<Buffer>, chain: seq<nat>)
    requires ChainOk(file, chain) && |file| <= |file'|
    requires forall i :: 0 <= i < |chain| ==> file'[chain[i]] == file[chain[i]]
    ensures ChainOk(file', chain) && Stack(file', chain) == Stack(file, chain)
  {
    if chain != [] {
      ChainTail(file, chain);
      ChainFrame(file, file', chain[1..]);
    }
  }

  /** Everything about the file that the free stack needs. */
  predicate FreeOk(file: seq<Buffer>, chain: seq<nat>, next: nat) {
    && ChainOk(file, chain)
    && NoDup(Stack(file, chain))
    && (forall x :: x in Stack(file, chain) ==> 0 < x < next)
  }

  lemma HeadIsApart(file: seq<Buffer>, chain: seq<nat>)
    requires ChainOk(file, chain) && chain != [] && NoDup(Stack(file, chain))
    ensures forall i :: 0 < i < |chain| ==> chain[i] != chain[0]
  {
    ChainTail(file, chain);
    ChainInStack(file, chain[1..]);
    var rest, top := Stack(file, chain[1..]), [chain[0]] + IdsOf(file[chain[0]]);
    forall i | 0 < i < |chain|
      ensures chain[i] != chain[0]
    {
      assert chain[1..][i - 1] in rest;
      var k :| 0 <= k < |rest| && rest[k] == chain[i];
      assert (rest + top)[k] == rest[k] && (rest + top)[|rest|] == chain[0];
    }
  }

  /** A new head page whose link names the old head: its id goes on top. */
  lemma PushPage(file: seq<Buffer>, file': seq<Buffer>, chain: seq<nat>, page: nat)
    requires ChainOk(file, chain) && page !in Stack(file, chain) && page != INVALID_PAGE
    requires |file| <= |file'| && page < |file'|
    requires forall x :: 0 <= x < |file| && x != page ==> file'[x] == file[x]
    requires NextOf(file'[page]) == HeadOf(chain) && CountOf(file'[page]) == 0
    ensures ChainOk(file', [page] + chain) && Stack(file', [page] + chain) == Stack(file, chain) + [page]
  {
    ChainInStack(file, chain);
    ChainFrame(file, file', chain);
    var c := [page] + chain;
    assert c[1..] == chain;
    assert forall i :: 0 < i < |c| ==> c[i] == chain[i - 1] && After(c, i) == After(chain, i - 1);
    assert IdsOf(file'[page]) == [];
  }

  /** The head page rewritten with other ids: only the top of the stack changes. */
  lemma RewriteHead(file: seq<Buffer>, file': seq<Buffer>, chain: seq<nat>)
    requires ChainOk(file, chain) && chain != [] && NoDup(Stack(file, chain))
    requires |file| <= |file'|
    requires forall x :: 0 <= x < |file| && x != chain[0] ==> file'[x] == file[x]
    requires NextOf(file'[chain[0]]) == NextOf(file[chain[0]]) && CountOf(file'[chain[0]]) <= MAX_FREE_IDS
    ensures ChainOk(file, chain[1..]) && ChainOk(file', chain)
    ensures Stack(file', chain) == Stack(file, chain[1..]) + ([chain[0]] + IdsOf(file'[chain[0]]))
  {
    HeadIsApart(file, chain);
    ChainTail(file, chain);
    ChainFrame(file, file', chain[1..]);
    assert forall i :: 0 < i < |chain| ==> chain[i] == chain[1..][i - 1];
  }

  /** The file after a write of page i, which extends it with zeros as needed. */
  function WriteAt(file: seq<Buffer>, i: nat, d: Buffer): (r: seq<Buffer>)
    ensures |r| == (if i < |file| then |file| else i + 1) && r[i] == d
    ensures forall x :: 0 <= x < |file| && x != i ==> r[x] == file[x]
  {
    if i < |file| then file[i := d] else file + seq(i - |file|, _ => seq(PAGE_SIZE, _ => 0)) + [d]
  }

  function LiveSet(next: nat, free: seq<nat>): set<nat> {
    set x: nat | 0 < x < next && x !in free
  }

  /** A write to a page that is not free leaves the free stack as it is. */
  lemma WriteKeepsFree(file: seq<Buffer>, chain: seq<nat>, next: nat, i: nat, d: Buffer)
    requires FreeOk(file, chain, next) && i !in Stack(file, chain)
    ensures var file' := WriteAt(file, i, d);
            FreeOk(file', chain, next) && Stack(file', chain) == Stack(file, chain)
  {
    hide Stack;
    ChainInStack(file, chain);
    ChainFrame(file, WriteAt(file, i, d), chain);
  }

  /** What a pop leaves: a head page without ids gives up its own id, any other its last one. */
  lemma PopHead(file: seq<Buffer>, chain: seq<nat>, next: nat)
    requires FreeOk(file, chain, next) && chain != [] && CountOf(file[chain[0]]) == 0
    ensures FreeOk(file, chain[1..], next) && Stack(file, chain) == Stack(file, chain[1..]) + [chain[0]]
    ensures LiveSet(next, Stack(file, chain[1..])) == LiveSet(next, Stack(file, chain)) + {chain[0]}
    ensures chain[0] !in LiveSet(next, Stack(file, chain)) && 0 < chain[0]
    ensures NextOf(file[chain[0]]) == HeadOf(chain[1..])
  {
    ChainTail(file, chain);
    assert IdsOf(file[chain[0]]) == [];
    assert Stack(file, chain) == Stack(file, chain[1..]) + [chain[0]];
    hide Stack;
    StackShrinks(Stack(file, chain), Stack(file, chain[1..]), chain[0], next);
  }

  lemma PopFromHead(file: seq<Buffer>, chain: seq<nat>, next: nat)
    requires FreeOk(file, chain, next) && chain != [] && CountOf(file[chain[0]]) > 0
    ensures var file' := file[chain[0] := PopId(file[chain[0]])];
            && var id := IdAt(file[chain[0]], CountOf(file[chain[0]]) - 1);
            && FreeOk(file', chain, next) && Stack(file, chain) == Stack(file', chain) + [id]
            && LiveSet(next, Stack(file', chain)) == LiveSet(next, Stack(file, chain)) + {id}
            && id !in LiveSet(next, Stack(file, chain)) && 0 < id && chain[0] in Stack(file, chain)
  {
    hide LiveSet, NoDup, PopId, IdAt;
    var page := file[chain[0]];
    ChainTail(file, chain);
    ChainInStack(file, chain);
    PopIdReads(page);
    var file' := file[chain[0] := PopId(page)];
    RewriteHead(file, file', chain);
    var id := IdAt(page, CountOf(page) - 1);
    assert Stack(file, chain) == Stack(file', chain) + [id];
    hide Stack, IdsOf;
    StackShrinks(Stack(file, chain), Stack(file', chain), id, next);
  }

  /** What a push leaves: a new head page, or one more id on the head page. */
  lemma PushHead(file: seq<Buffer>, chain: seq<nat>, next: nat, page: nat, garbage: Buffer)
    requires FreeOk(file, chain, next) && page in LiveSet(next, Stack(file, chain)) && next < TWO32
    requires HeadOf(chain) < TWO32
    ensures var file' := WriteAt(file, page, EmptyFreePage(garbage, HeadOf(chain)));
            && FreeOk(file', [page] + chain, next) && Stack(file', [page] + chain) == Stack(file, chain) + [page]
            && LiveSet(next, Stack(file, chain) + [page]) == LiveSet(next, Stack(file, chain)) - {page}
  {
    EmptyFreePageReads(garbage, HeadOf(chain));
    PushPage(file, WriteAt(file, page, EmptyFreePage(garbage, HeadOf(chain))), chain, page);
    hide Stack;
    StackGrows(Stack(file, chain), page, next);
  }

  lemma PushOnHead(file: seq<Buffer>, chain: seq<nat>, next: nat, page: nat)
    requires FreeOk(file, chain, next) && page in LiveSet(next, Stack(file, chain)) && next < TWO32
    requires chain != [] && CountOf(file[chain[0]]) < MAX_FREE_IDS
    ensures var file' := file[chain[0] := PushId(file[chain[0]], page)];
            && FreeOk(file', chain, next) && Stack(file', chain) == Stack(file, chain) + [page]
            && LiveSet(next, Stack(file, chain) + [page]) == LiveSet(next, Stack(file, chain)) - {page}
            && chain[0] in Stack(file, chain)
  {
    ChainInStack(file, chain);
    PushIdReads(file[chain[0]], page);
    var file' := file[chain[0] := PushId(file[chain[0]], page)];
    RewriteHead(file, file', chain);
    ChainTail(file, chain);
    assert Stack(file', chain) == Stack(file, chain) + [page];
    hide Stack, IdsOf;
    StackGrows(Stack(file, chain), page, next);
  }

  lemma {:induction false} IdsCounted(next: nat, free: seq<nat>)
    requires 0 < next && NoDup(free) && forall x :: x in free ==> 0 < x < next
    ensures |LiveSet(next, free)| + |free| + 1 == next
    decreases |free|
  {
    if free == [] {
      AllLive(next);
    } else {
      var rest := free[..|free| - 1];
      assert free == rest + [free[|free| - 1]];
      StackShrinks(free, rest, free[|free| - 1], next);
      IdsCounted(next, rest);
    }
  }

  lemma {:induction false} AllLive(next: nat)
    requires 0 < next
    ensures |LiveSet(next, [])| == next - 1
  {
    if next == 1 {
      assert LiveSet(1, []) == {};
    } else {
      AllLive(next - 1);
      assert LiveSet(next, []) == LiveSet(next - 1, []) + {next - 1};
    }
  }

  lemma StackShrinks(s: seq<nat>, s': seq<nat>, id: nat, next: nat)
    requires s == s' + [id] && NoDup(s) && (forall x :: x in s ==> 0 < x < next)
    ensures NoDup(s') && (forall x :: x in s' ==> 0 < x < next) && 0 < id
    ensures LiveSet(next, s') == LiveSet(next, s) + {id} && id !in LiveSet(next, s)
  {
    assert forall i :: 0 <= i < |s'| ==> s'[i] == s[i];
    assert s[|s'|] == id;
    assert forall x :: x in s <==> x in s' || x == id;
    assert id !in s';
  }

  lemma StackGrows(s: seq<nat>, id: nat, next: nat)
    requires NoDup(s) && id in LiveSet(next, s) && (forall x :: x in s ==> 0 < x < next)
    ensures NoDup(s + [id]) && (forall x :: x in s + [id] ==> 0 < x < next)
    ensures LiveSet(next, s + [id]) == LiveSet(next, s) - {id}
  {
    assert forall x :: x in s + [id] <==> x in s || x == id;
  }

  lemma WriteGrows(file: seq<Buffer>, i: nat, d: Buffer)
    ensures var r := WriteAt(file, i, d);
            |file| <= |r| && i < |r| && (|r| == |file| || |r| == i + 1) && forall x :: 0 <= x < |file| && x != i ==>
                r[x] == file[x]
  {
  }

  lemma InUse(next: nat, free: seq<nat>, id: nat)
    requires id in LiveSet(next, free)
    ensures 0 < id < next && id !in free
  {
  }

  // ---- the manager ------------------------------------------------------------------------------

  datatype ReadResult = Got(data: Buffer) | OutOfRange | PastEnd

  class DiskManager {
    var file: seq<Buffer>
    var meta: Metadata
    ghost var chain: seq<nat>

    /** Page 0 equals the metadata in memory, and the free ids are on a proper chain. */
    ghost predicate Valid()
      reads this
    {
      && FitsMeta(meta) && 0 < meta.next <= MAX_PAGES && 0 < |file| <= meta.next
      && meta.magic == MAGIC_NUMBER && DecodeMeta(file[0]) == meta
      && meta.freelistHead == HeadOf(chain) && FreeOk(file, chain, meta.next)
    }

    /** The ids that can be handed out again, the next one last. */
    ghost function FreeIds(): seq<nat>
      reads this
      requires Valid()
    {
      Stack(file, chain)
    }

    /** The ids handed out and not given back. */
    ghost function LiveIds(): set<nat>
      reads this
      requires Valid()
    {
      LiveSet(meta.next, FreeIds())
    }

    /** A brand-new file. */
    constructor Create()
      ensures Valid() && FreeIds() == [] && LiveIds() == {} && meta.next == 1
      ensures meta == Metadata(0xFEED_FACE, 0, 0, 0xFFFF_FFFF, 1) && file == [EncodeMeta(meta)]
    {
      var m := Metadata(MAGIC_NUMBER, 0, 0, INVALID_PAGE, 1);
      MetaRoundTrip(m);
      meta := m;
      file := [EncodeMeta(m)];
      chain := [];
    }

    /** An existing file, whose header has been checked. What a manager saved comes back, its free ids in order. */
    constructor Reopen(contents: seq<Buffer>)
      requires 0 < |contents| && DecodeMeta(contents[0]).magic == MAGIC_NUMBER
      ensures file == contents && meta == DecodeMeta(contents[0])
      ensures Saved(contents) ==> Valid() && FreeIds() == SavedFree(contents)
    {
      file := contents;
      meta := DecodeMeta(contents[0]);
      chain := if Saved(contents) then SavedChain(contents) else [];
    }

    method UpdateMetadata()
      requires FitsMeta(meta) && 0 < |file|
      modifies this`file
      ensures file == old(file)[0 := EncodeMeta(meta)] && DecodeMeta(file[0]) == meta
    {
      file := file[0 := EncodeMeta(meta)];
      MetaRoundTrip(meta);
    }

    method ReadPage(id: nat) returns (r: ReadResult)
      requires Valid()
      ensures r == if id >= meta.next then OutOfRange else if id >= |file| then PastEnd else Got(file[id])
    {
      hide PageIndex, FreeOk, DecodeMeta;
      if id >= meta.next {
        return OutOfRange;
      }
      PageIndexAliases(id, id);
      var i := PageIndex(id);
      r := if i >= |file| then PastEnd else Got(file[i]);
    }

    /**
     * Writes a page; false when the id was never allocated. Nothing keeps a caller from overwriting page 0 or a free
     * page; writing a page in use leaves the free stack alone.
     */
    method WritePage(id: nat, data: Buffer) returns (ok: bool)
      requires Valid()
      modifies this`file
      ensures ok <==> id < meta.next
      ensures file == if ok then WriteAt(old(file), id, data) else old(file)
      ensures (ok ==> id in old(LiveIds())) ==>
                Valid() && FreeIds() == old(FreeIds()) && LiveIds() == old(LiveIds())
    {
      hide Stack, ChainOk, PageIndex, DecodeMeta, WriteAt, NoDup, LiveSet;
      ok := id < meta.next;
      if ok {
        ghost var file0 := file;
        PageIndexAliases(id, id);
        file := WriteAt(file, PageIndex(id), data);
        if id in LiveSet(meta.next, Stack(file0, chain)) {
          InUse(meta.next, Stack(file0, chain), id);
          WriteKeepsFree(file0, chain, meta.next, id, data);
          WriteGrows(file0, id, data);
        }
      }
    }

    /** Pops the free stack, or extends the id space when it is empty. */
    method AllocatePage() returns (id: nat)
      requires Valid() && (FreeIds() == [] ==> meta.next < MAX_PAGES)
      modifies this
      ensures Valid()
      ensures old(FreeIds()) == [] ==>
                id == old(meta.next) && meta.next == id + 1 && FreeIds() == []
      ensures old(FreeIds()) != [] ==>
                FreeIds() + [id] == old(FreeIds()) && meta.next == old(meta.next)
      ensures id !in old(LiveIds()) && LiveIds() == old(LiveIds()) + {id} && id > 0
      ensures |file| == |old(file)| && forall x :: x in old(LiveIds()) && x < |file| ==> file[x] == old(file[x])
    {
      var head := meta.freelistHead;
      if head == INVALID_PAGE {
        id := ExtendIds();
      } else {
        var i, page := HeadPage();
        hide ChainOk, Stack, U32;
        if CountOf(page) == 0 {
          id := TakeHead();
        } else {
          id := TakeFromHead();
        }
      }
    }

    /** The head of the chain, read from the file. */
    method HeadPage() returns (i: nat, page: Buffer)
      requires Valid() && chain != []
      ensures i == chain[0] == meta.freelistHead != INVALID_PAGE && i < |file| && page == file[i]
      ensures CountOf(page) <= MAX_FREE_IDS
    {
      hide Stack, NoDup, PageIndex, DecodeMeta;
      PageIndexAliases(meta.freelistHead, meta.freelistHead);
      i := PageIndex(meta.freelistHead);
      page := file[i];
    }

    method ExtendIds() returns (id: nat)
      requires Valid() && chain == [] && meta.next < MAX_PAGES
      modifies this
      ensures Valid() && id == old(meta.next) && meta.next == id + 1 && FreeIds() == []
      ensures id !in old(LiveIds()) && LiveIds() == old(LiveIds()) + {id}
      ensures |file| == |old(file)| && forall x :: 0 < x < |file| ==> file[x] == old(file[x])
    {
      id := meta.next;
      meta := meta.(next := meta.next + 1);
      SaveMetadata();
    }

    /** The head page holds no ids: it is handed out itself, and its link becomes the head. */
    method TakeHead() returns (id: nat)
      requires Valid() && chain != [] && CountOf(file[chain[0]]) == 0
      modifies this
      ensures Valid() && meta.next == old(meta.next) && FreeIds() + [id] == old(FreeIds()) && 0 < id
      ensures id !in old(LiveIds()) && LiveIds() == old(LiveIds()) + {id}
      ensures |file| == |old(file)| && forall x :: 0 < x < |file| ==> file[x] == old(file[x])
    {
      var page;
      id, page := HeadPage();
      PopHead(file, chain, meta.next);
      hide Stack, LiveSet, FreeOk, ChainOk;
      meta := meta.(freelistHead := NextOf(page));
      chain := chain[1..];
      SaveMetadata();
    }

    method TakeFromHead() returns (id: nat)
      requires Valid() && chain != [] && CountOf(file[chain[0]]) > 0
      modifies this
      ensures Valid() && meta.next == old(meta.next) && FreeIds() + [id] == old(FreeIds()) && 0 < id
      ensures id !in old(LiveIds()) && LiveIds() == old(LiveIds()) + {id}
      ensures |file| == |old(file)| && forall x :: x in old(LiveIds()) && x < |file| ==> file[x] == old(file[x])
    {
      var i, page := HeadPage();
      PopFromHead(file, chain, meta.next);
      id := IdAt(page, CountOf(page) - 1);
      hide Stack, FreeOk, ChainOk, PopId, IdAt;
      file := file[i := PopId(page)];
      SaveMetadata();
    }

    /** UpdateMetadata on a manager whose page 0 may be out of date. */
    method SaveMetadata()
      requires FitsMeta(meta) && 0 < meta.next <= MAX_PAGES && 0 < |file| <= meta.next
      requires meta.magic == MAGIC_NUMBER && meta.freelistHead == HeadOf(chain) && FreeOk(file, chain, meta.next)
      modifies this`file
      ensures Valid() && FreeIds() == old(Stack(file, chain))
      ensures |file| == |old(file)| && forall x :: 0 < x < |file| ==> file[x] == old(file[x])
    {
      WriteKeepsFree(file, chain, meta.next, 0, EncodeMeta(meta));
      UpdateMetadata();
    }

    /** Pushes a page id: on the head page, or as a new head when there is none or it is full. */
    method DeallocatePage(page: nat, garbage: Buffer)
      requires Valid() && page in LiveIds()
      modifies this
      ensures Valid() && meta.next == old(meta.next)
      ensures FreeIds() == old(FreeIds()) + [page]
      ensures LiveIds() == old(LiveIds()) - {page}
      ensures old(meta.freelistHead) != INVALID_PAGE ==> old(meta.freelistHead) < |old(file)|
      ensures meta.freelistHead
           == if old(meta.freelistHead) == INVALID_PAGE || U32(old(file)[old(meta.freelistHead)], 4) == 1022 then page
              else old(meta.freelistHead)
      ensures forall x :: x in LiveIds() && x < |old(file)| ==> x < |file| && file[x] == old(file[x])
    {
      var head := meta.freelistHead;
      if head == INVALID_PAGE {
        MakeHead(page, garbage);
      } else {
        var i, top := HeadPage();
        hide ChainOk, Stack, U32;
        if CountOf(top) == MAX_FREE_IDS {
          MakeHead(page, garbage);
        } else {
          AddToHead(page);
        }
      }
    }

    method MakeHead(page: nat, garbage: Buffer)
      requires Valid() && page in LiveIds()
      modifies this
      ensures Valid() && meta.next == old(meta.next)
      ensures FreeIds() == old(FreeIds()) + [page] && LiveIds() == old(LiveIds()) - {page}
      ensures |old(file)| <= |file| && forall x :: 0 < x < |old(file)| && x != page ==> file[x] == old(file[x])
      ensures meta.freelistHead == page
    {
      hide Stack, ChainOk, EmptyFreePage, U32, PageIndex, DecodeMeta, NoDup, WriteAt;
      PageIndexAliases(page, page);
      InUse(meta.next, Stack(file, chain), page);
      PushHead(file, chain, meta.next, page, garbage);
      WriteGrows(file, page, EmptyFreePage(garbage, meta.freelistHead));
      file := WriteAt(file, PageIndex(page), EmptyFreePage(garbage, meta.freelistHead));
      chain := [page] + chain;
      meta := meta.(freelistHead := page);
      SaveMetadata();
    }

    method AddToHead(page: nat)
      requires Valid() && page in LiveIds() && chain != [] && CountOf(file[chain[0]]) < MAX_FREE_IDS
      modifies this`file
      ensures Valid()
      ensures FreeIds() == old(FreeIds()) + [page] && LiveIds() == old(LiveIds()) - {page}
      ensures |file| == |old(file)| && forall x :: x in old(LiveIds()) && x < |file| ==> file[x] == old(file[x])
    {
      hide Stack, ChainOk, PushId, U32, NoDup, DecodeMeta;
      var i, top := HeadPage();
      PushOnHead(file, chain, meta.next, page);
      file := file[i := PushId(top, page)];
    }

    /** Every id below the count is the metadata page, in use or free. */
    method GetPageCount() returns (n: nat)
      requires Valid()
      ensures n == 1 + |LiveIds()| + |FreeIds()|
      ensures forall id :: 0 <= id < n <==> id == 0 || id in LiveIds() || id in FreeIds()
    {
      hide Stack, ChainOk, DecodeMeta;
      IdsCounted(meta.next, Stack(file, chain));
      n := meta.next;
    }
  }

  /** A file some manager left behind, through which this chain of freelist pages runs. */
  ghost predicate SavedWith(file: seq<Buffer>, chain: seq<nat>) {
    && file != []
    && var m := DecodeMeta(file[0]);
       && 0 < m.next <= MAX_PAGES && |file| <= m.next && m.magic == MAGIC_NUMBER
       && m.freelistHead == HeadOf(chain) && FreeOk(file, chain, m.next)
  }

  ghost predicate Saved(file: seq<Buffer>) {
    exists chain :: SavedWith(file, chain)
  }

  /** Following the links from one head page leads along one chain only. */
  lemma {:induction false} OneChain(file: seq<Buffer>, a: seq<nat>, b: seq<nat>)
    requires ChainOk(file, a) && ChainOk(file, b) && HeadOf(a) == HeadOf(b)
    ensures a == b
    decreases |a|
  {
    hide ChainOk, NextOf;
    if a != [] && b != [] {
      ChainTail(file, a);
      ChainTail(file, b);
      HeadOfTail(file, a);
      HeadOfTail(file, b);
      OneChain(file, a[1..], b[1..]);
      assert a == [a[0]] + a[1..] && b == [b[0]] + b[1..];
    } else {
      HeadIsPage(file, a);
      HeadIsPage(file, b);
    }
  }

  lemma HeadOfTail(file: seq<Buffer>, chain: seq<nat>)
    requires ChainOk(file, chain) && chain != []
    ensures chain[0] < |file| && HeadOf(chain[1..]) == NextOf(file[chain[0]])
  {
  }

  lemma HeadIsPage(file: seq<Buffer>, chain: seq<nat>)
    requires ChainOk(file, chain)
    ensures HeadOf(chain) == INVALID_PAGE <==> chain == []
  {
  }

  /** The bytes of a file alone say which ids are free and in which order. */
  lemma SavedOnce(file: seq<Buffer>, a: seq<nat>, b: seq<nat>)
    requires SavedWith(file, a) && SavedWith(file, b)
    ensures a == b
  {
    OneChain(file, a, b);
  }

  /** The chain through a saved file. */
  ghost function SavedChain(file: seq<Buffer>): (chain: seq<nat>)
    requires Saved(file)
    ensures SavedWith(file, chain)
  {
    var chain :| SavedWith(file, chain);
    chain
  }

  /** The free ids of a saved file, the next one last. */
  ghost function SavedFree(file: seq<Buffer>): seq<nat>
    requires Saved(file)
  {
    Stack(file, SavedChain(file))
  }

  /** At any time a valid manager's file says all there is to know about it. */
  lemma ValidIsSaved(d: DiskManager)
    requires d.Valid()
    ensures Saved(d.file) && DecodeMeta(d.file[0]) == d.meta && SavedFree(d.file) == d.FreeIds()
  {
    assert SavedWith(d.file, d.chain);
    SavedOnce(d.file, d.chain, SavedChain(d.file));
  }

  /**
   * A freelist page in bytes: the next page's id at 0, the number of ids at 4, the ids from 8 on. The head's own id and
   * then its ids in order are the top of the free stack, and the rest is what its link leads to.
   */
  lemma HeadLayout(d: DiskManager)
    requires d.Valid() && d.meta.freelistHead != INVALID_PAGE
    ensures d.meta.freelistHead < |d.file| && U32(d.file[d.meta.freelistHead], 4) <= 1022
    ensures var page, free := d.file[d.meta.freelistHead], d.FreeIds();
            var n := U32(page, 4);
            && n < |free| && free[|free| - 1 - n] == d.meta.freelistHead
            && (forall k :: 0 <= k < n ==> free[|free| - n + k] == U32(page, 8 + 4 * k))
            && (|free| == n + 1 <==> U32(page, 0) == INVALID_PAGE)
            && (U32(page, 0) != INVALID_PAGE ==> U32(page, 0) in free[..|free| - 1 - n])
  {
    hide U32, FreeOk, NoDup;
    HeadParts(d.file, d.chain, d.meta.next);
    var rest, ids := Stack(d.file, d.chain[1..]), IdsOf(d.file[d.chain[0]]);
    hide Stack;
    assert d.FreeIds()[..|rest|] == rest;
  }

  lemma HeadParts(file: seq<Buffer>, chain: seq<nat>, next: nat)
    requires FreeOk(file, chain, next) && chain != []
    ensures chain[0] < |file| && ChainOk(file, chain[1..]) && CountOf(file[chain[0]]) <= MAX_FREE_IDS
    ensures Stack(file, chain) == Stack(file, chain[1..]) + ([chain[0]] + IdsOf(file[chain[0]]))
    ensures |chain| == 1 ==> NextOf(file[chain[0]]) == INVALID_PAGE && Stack(file, chain[1..]) == []
    ensures |chain| > 1 ==> NextOf(file[chain[0]]) != INVALID_PAGE
                            && NextOf(file[chain[0]]) in Stack(file, chain[1..])
  {
    ChainTail(file, chain);
    ChainInStack(file, chain[1..]);
    if |chain| > 1 {
      assert chain[1..][0] == chain[1];
    }
  }

  /** A manager opens a file: fresh when it is empty, an error on a wrong magic number, else as the file says. */
  method Open(contents: seq<Buffer>) returns (d: Option<DiskManager>)
    ensures d == None <==> contents != [] && DecodeMeta(contents[0]).magic != MAGIC_NUMBER
    ensures d.Some? ==> fresh(d.value)
    ensures contents == [] && d.Some? ==> d.value.Valid() && d.value.FreeIds() == [] && d.value.meta.next == 1
    ensures Saved(contents) ==>
              && d.Some? && d.value.Valid() && d.value.file == contents && d.value.meta == DecodeMeta(contents[0])
              && d.value.FreeIds() == SavedFree(contents)
  {
    if contents == [] {
      var fresh' := new DiskManager.Create();
      return Some(fresh');
    }
    if DecodeMeta(contents[0]).magic != MAGIC_NUMBER {
      return None;
    }
    var again := new DiskManager.Reopen(contents);
    d := Some(again);
  }

  /** Two managers over the same bytes agree on everything: reopening resumes the same free stack. */
  lemma ReopenResumes(d: DiskManager, e: DiskManager)
    requires d.Valid() && e.Valid() && e.file == d.file
    ensures e.meta == d.meta && e.FreeIds() == d.FreeIds() && e.LiveIds() == d.LiveIds()
  {
    ValidIsSaved(d);
    ValidIsSaved(e);
  }
}
