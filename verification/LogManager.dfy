/** Log records as bytes, and the append buffer they are built in. FlushProtocol.dfy takes it from there. */
module LogManagers {
  import opened Bytes
  import opened Crc32c
  import FlushProtocol
  import Numeric

  const RECORD_HEADER: nat := 64

  /** The fields of LogRecordHeader that the caller of append sets; sizes, LSN and checksum are filled in by it. */
  datatype Header = Header(
    prevLsn: nat,
    undoNextLsn: nat,
    txId: nat,
    pageId: nat,
    tableId: nat,
    indexId: nat,
    slot: nat,
    flags: nat,
    kind: bv8,
    op: bv8)

  /** Little-endian bytes, truncating what does not fit. */
  function Packed(x: nat, n: nat): (s: seq<bv8>)
    ensures |s| == n
  {
    if n == 0 then [] else [(x % 256) as bv8] + Packed(x / 256, n - 1)
  }

  function CrcBytes(crc: bv32): (s: seq<bv8>)
    ensures |s| == 4
  {
    [(crc & 0xFF) as bv8, ((crc >> 8) & 0xFF) as bv8, ((crc >> 16) & 0xFF) as bv8, ((crc >> 24) & 0xFF) as bv8]
  }

  /** The 64 header bytes, with the checksum field zero. */
  function HeaderBytes(h: Header, lsn: nat, beforeLen: nat, afterLen: nat): (s: seq<bv8>)
    ensures |s| == RECORD_HEADER && s[4..8] == [0, 0, 0, 0]
  {
    Packed(RECORD_HEADER + beforeLen + afterLen, 4) + [0, 0, 0, 0] + Packed(lsn, 8) + Packed(h.prevLsn, 8)
    + Packed(h.undoNextLsn, 8) + Packed(h.txId, 8) + Packed(h.pageId, 4) + Packed(h.tableId, 2) + Packed(h.indexId, 2)
    + Packed(h.slot, 2) + Packed(h.flags, 2) + Packed(beforeLen, 4) + Packed(afterLen, 4) + [h.kind, h.op, 0, 0]
  }

  /** The record with its checksum, taken over the whole record with the checksum field zero. */
  function Sealed(h: Header, lsn: nat, before: seq<bv8>, after: seq<bv8>): (rec: seq<bv8>)
    ensures |rec| == RECORD_HEADER + |before| + |after|
  {
    var plain := HeaderBytes(h, lsn, |before|, |after|) + before + after;
    plain[..4] + CrcBytes(Computed(plain)) + plain[8..]
  }

  // ---- reading a record back ------------------------------------------------------------------------

  /** The number that little-endian bytes stand for. */
  function Unpacked(s: seq<bv8>): nat {
    if s == [] then 0 else s[0] as nat + 256 * Unpacked(s[1..])
  }

  /** A number that fits its field is read back, and its lowest byte stands first. */
  lemma {:induction false} PackedReads(x: nat, n: nat)
    requires x < Pow256(n)
    ensures Unpacked(Packed(x, n)) == x
    ensures n > 0 ==> Packed(x, n)[0] as nat == x % 256 && Unpacked(Packed(x, n)[1..]) == x / 256
  {
    if n > 0 {
      var q, r := x / 256, x % 256;
      assert q < Pow256(n - 1);
      PackedReads(q, n - 1);
      var low: bv8 := r as bv8;
      ByteBack(r);
      assert Packed(x, n) == [low] + Packed(q, n - 1);
      hide Packed, Pow256;
      FirstByte(low, Packed(q, n - 1));
    }
  }

  lemma ByteBack(r: nat)
    requires r < 256
    ensures (r as bv8) as nat == r
  {
    assert r % 256 == r;
  }

  lemma FirstByte(b: bv8, s: seq<bv8>)
    ensures Unpacked([b] + s) == b as nat + 256 * Unpacked(s) && ([b] + s)[1..] == s
  {
    assert ([b] + s)[1..] == s;
  }

  /** A reader finds every field of the header at its fixed place, and the two images behind it. */
  lemma FieldsRead(h: Header, lsn: nat, before: seq<bv8>, after: seq<bv8>)
    requires 64 + |before| + |after| < 0x1_0000_0000 && lsn < 0x1_0000_0000_0000_0000
    requires h.prevLsn < 0x1_0000_0000_0000_0000 && h.undoNextLsn < 0x1_0000_0000_0000_0000
    requires h.txId < 0x1_0000_0000_0000_0000 && h.pageId < 0x1_0000_0000
    requires h.tableId < 0x1_0000 && h.indexId < 0x1_0000 && h.slot < 0x1_0000 && h.flags < 0x1_0000
    ensures var rec := Sealed(h, lsn, before, after);
            && Unpacked(rec[0..4]) == |rec| && Unpacked(rec[8..16]) == lsn && Unpacked(rec[16..24]) == h.prevLsn
            && Unpacked(rec[24..32]) == h.undoNextLsn && Unpacked(rec[32..40]) == h.txId
            && Unpacked(rec[40..44]) == h.pageId && Unpacked(rec[44..46]) == h.tableId
            && Unpacked(rec[46..48]) == h.indexId && Unpacked(rec[48..50]) == h.slot
            && Unpacked(rec[50..52]) == h.flags && Unpacked(rec[52..56]) == |before|
            && Unpacked(rec[56..60]) == |after| && rec[60..64] == [h.kind, h.op, 0, 0]
            && rec[64..64 + |before|] == before && rec[64 + |before|..] == after
  {
    Numeric.Powers();
    hide Packed, Unpacked, Pow256, Computed, CrcBytes;
    var b, a := |before|, |after|;
    var rec := Sealed(h, lsn, before, after);
    FieldPlaces(h, lsn, b, a);
    var head := HeaderBytes(h, lsn, b, a);
    SealedParts(h, lsn, before, after);
    hide HeaderBytes, Sealed;
    assert forall i, j :: 8 <= i <= j <= 64 ==> rec[i..j] == head[i..j] by {
      forall i, j | 8 <= i <= j <= 64
        ensures rec[i..j] == head[i..j]
      {
        SameSlice(rec, head, i, j);
      }
    }
    PackedReads(RECORD_HEADER + b + a, 4);
    PackedReads(lsn, 8);
    PackedReads(h.prevLsn, 8);
    PackedReads(h.undoNextLsn, 8);
    PackedReads(h.txId, 8);
    PackedReads(h.pageId, 4);
    PackedReads(h.tableId, 2);
    PackedReads(h.indexId, 2);
    PackedReads(h.slot, 2);
    PackedReads(h.flags, 2);
    PackedReads(b, 4);
    PackedReads(a, 4);
  }

  lemma SameSlice(rec: seq<bv8>, head: seq<bv8>, i: nat, j: nat)
    requires |head| == 64 <= |rec| && (forall k :: 8 <= k < 64 ==> rec[k] == head[k]) && 8 <= i <= j <= 64
    ensures rec[i..j] == head[i..j]
  {
  }

  lemma SealedParts(h: Header, lsn: nat, before: seq<bv8>, after: seq<bv8>)
    ensures var rec, head := Sealed(h, lsn, before, after), HeaderBytes(h, lsn, |before|, |after|);
            && rec[..4] == head[..4] && (forall k :: 8 <= k < 64 ==> rec[k] == head[k])
            && rec[64..64 + |before|] == before && rec[64 + |before|..] == after
  {
    hide HeaderBytes, Computed, CrcBytes;
  }

  lemma FieldPlaces(h: Header, lsn: nat, b: nat, a: nat)
    ensures var head := HeaderBytes(h, lsn, b, a);
            && head[..4] == Packed(RECORD_HEADER + b + a, 4) && head[8..16] == Packed(lsn, 8)
            && head[16..24] == Packed(h.prevLsn, 8) && head[24..32] == Packed(h.undoNextLsn, 8)
            && head[32..40] == Packed(h.txId, 8) && head[40..44] == Packed(h.pageId, 4)
            && head[44..46] == Packed(h.tableId, 2) && head[46..48] == Packed(h.indexId, 2)
            && head[48..50] == Packed(h.slot, 2) && head[50..52] == Packed(h.flags, 2)
            && head[52..56] == Packed(b, 4) && head[56..60] == Packed(a, 4) && head[60..64] == [h.kind, h.op, 0, 0]
  {
    hide Packed;
  }

  /** The checksum's four bytes, lowest first, stand for the checksum of the record with zeros in their place. */
  lemma ChecksumRead(h: Header, lsn: nat, before: seq<bv8>, after: seq<bv8>)
    ensures var rec := Sealed(h, lsn, before, after);
            (rec[4] as bv32) | ((rec[5] as bv32) << 8) | ((rec[6] as bv32) << 16) | ((rec[7] as bv32) << 24)
            == Computed(rec[..4] + [0, 0, 0, 0] + rec[8..])
  {
    hide Computed, CrcBytes, HeaderBytes;
    var plain := HeaderBytes(h, lsn, |before|, |after|) + before + after;
    var rec := Sealed(h, lsn, before, after);
    var crc := Computed(plain);
    assert plain[4..8] == [0, 0, 0, 0];
    assert rec[..4] + [0, 0, 0, 0] + rec[8..] == plain;
    assert rec[4] == CrcBytes(crc)[0] && rec[5] == CrcBytes(crc)[1];
    assert rec[6] == CrcBytes(crc)[2] && rec[7] == CrcBytes(crc)[3];
    CrcBytesRead(crc);
  }

  lemma CrcBytesRead(crc: bv32)
    ensures var s := CrcBytes(crc);
            (s[0] as bv32) | ((s[1] as bv32) << 8) | ((s[2] as bv32) << 16) | ((s[3] as bv32) << 24) == crc
  {
  }

  /** What a reader computes the checksum over. */
  function Unsealed(rec: seq<bv8>): seq<bv8>
    requires |rec| >= 8
  {
    Splice(rec, 4, [0, 0, 0, 0])
  }

  /** The reader's test of a record. */
  predicate Intact(rec: seq<bv8>)
    requires |rec| >= 8
  {
    rec[4..8] == CrcBytes(Computed(Unsealed(rec)))
  }

  /** Every record append writes passes the reader's test. */
  lemma SealedIsIntact(h: Header, lsn: nat, before: seq<bv8>, after: seq<bv8>)
    ensures Intact(Sealed(h, lsn, before, after))
  {
    hide Computed, CrcBytes, HeaderBytes;
    var plain := HeaderBytes(h, lsn, |before|, |after|) + before + after;
    var rec := Sealed(h, lsn, before, after);
    assert plain[4..8] == [0, 0, 0, 0];
    assert rec[4..8] == CrcBytes(Computed(plain));
    assert Unsealed(rec) == plain;
  }

  /** The same bytes outside the window of k bytes at i. */
  predicate SameOutside(a: seq<bv8>, b: seq<bv8>, i: nat, k: nat) {
    |a| == |b| && i + k <= |a| && a[..i] == b[..i] && a[i + k..] == b[i + k..]
  }

  lemma UnsealedSame(a: seq<bv8>, b: seq<bv8>, i: nat, k: nat)
    requires |a| >= 8 && SameOutside(a, b, i, k) && a[4..8] == b[4..8]
    ensures SameOutside(Unsealed(a), Unsealed(b), i, k)
    ensures Unsealed(a) == Unsealed(b) <==> a == b
  {
    hide Splice;
    var x, y := Unsealed(a), Unsealed(b);
    forall j | 0 <= j < |a| && !(i <= j < i + k)
      ensures a[j] == b[j] && x[j] == y[j]
    {
      SameThere(a, b, i, k, j);
    }
    forall j | 0 <= j < |a| && x[j] == y[j]
      ensures a[j] == b[j]
    {
      if 4 <= j < 8 {
        assert a[j] == a[4..8][j - 4] && b[j] == b[4..8][j - 4];
      }
    }
  }

  lemma SameThere(a: seq<bv8>, b: seq<bv8>, i: nat, k: nat, j: nat)
    requires SameOutside(a, b, i, k) && j < |a| && !(i <= j < i + k)
    ensures a[j] == b[j]
  {
    if j < i {
      assert a[j] == a[..i][j] && b[j] == b[..i][j];
    } else {
      assert a[j] == a[i + k..][j - i - k] && b[j] == b[i + k..][j - i - k];
    }
  }

  lemma CrcBytesInjective(a: bv32, b: bv32)
    ensures CrcBytes(a) == CrcBytes(b) <==> a == b
  {
    if CrcBytes(a) == CrcBytes(b) {
      assert CrcBytes(a)[0] == CrcBytes(b)[0] && CrcBytes(a)[1] == CrcBytes(b)[1];
      assert CrcBytes(a)[2] == CrcBytes(b)[2] && CrcBytes(a)[3] == CrcBytes(b)[3];
      FromParts(a, b);
    }
  }

  lemma FromParts(a: bv32, b: bv32)
    requires (a & 0xFF) as bv8 == (b & 0xFF) as bv8 && ((a >> 8) & 0xFF) as bv8 == ((b >> 8) & 0xFF) as bv8
    requires ((a >> 16) & 0xFF) as bv8 == ((b >> 16) & 0xFF) as bv8
    requires ((a >> 24) & 0xFF) as bv8 == ((b >> 24) & 0xFF) as bv8
    ensures a == b
  {
  }

  /**
   * A record damaged within four consecutive bytes, its checksum field left alone, passes the test only if it is
   * undamaged.
   */
  lemma DamageDetected(rec: seq<bv8>, damaged: seq<bv8>, i: nat, k: nat)
    requires |rec| >= 8 && Intact(rec) && k <= 4 && SameOutside(rec, damaged, i, k) && rec[4..8] == damaged[4..8]
    ensures Intact(damaged) <==> damaged == rec
  {
    hide Computed, CrcBytes, Unsealed;
    UnsealedSame(rec, damaged, i, k);
    var a, b := Unsealed(rec), Unsealed(damaged);
    Window(a, i, k);
    Window(b, i, k);
    WindowDetected(a[..i], a[i..i + k], b[i..i + k], a[i + k..]);
    CrcBytesInjective(Computed(a), Computed(b));
  }

  lemma Window(a: seq<bv8>, i: nat, k: nat)
    requires i + k <= |a|
    ensures a == a[..i] + a[i..i + k] + a[i + k..]
  {
  }

  class LogManager {
    /** append_buffer; the bytes behind the fill offset are zero or left over. */
    const buffer: array<bv8>
    var fill: nat
    var currentLSN: nat
    var flushedLSN: nat
    var flushing: bool
    /** The log file, and how much of it is sure to survive a crash. */
    var file: seq<bv8>
    ghost var synced: nat
    /** The run of the protocol that the calls so far amount to, with one thread. */
    ghost var run: seq<FlushProtocol.State>

    ghost predicate Valid()
      reads this, buffer
    {
      InStep() && !flushing && Idle(Now())
    }

    /** The fields are the protocol's state after the run. */
    ghost predicate InStep()
      reads this, buffer
    {
      && buffer.Length == FlushProtocol.APPEND_BUFFER_SIZE && fill <= buffer.Length
      && run != [] && FlushProtocol.Run(run)
      && var s := run[|run| - 1];
         && s.buffer == buffer[..fill] && s.current == currentLSN && s.flushed == flushedLSN
         && s.flushing == flushing && s.file == file && s.synced == synced
    }

    ghost function Now(): FlushProtocol.State
      reads this
      requires run != []
    {
      run[|run| - 1]
    }

    static predicate Idle(s: FlushProtocol.State) {
      s.phases == map[] || (s.phases.Keys == {0} && s.phases[0].Returned?)
    }

    /** The protocol takes a step. */
    ghost method Take(step: FlushProtocol.Step)
      requires FlushProtocol.Run(run) && FlushProtocol.Enabled(Now(), step)
      modifies this`run
      ensures run != [] && FlushProtocol.Run(run) && run == old(run) + [FlushProtocol.After(old(Now()), step)]
    {
      hide FlushProtocol.After, FlushProtocol.Enabled, FlushProtocol.Init;
      assert FlushProtocol.Takes(Now(), step, FlushProtocol.After(Now(), step));
      run := run + [FlushProtocol.After(Now(), step)];
    }

    ghost function Contents(): seq<bv8>
      reads this, buffer
      requires InStep()
    {
      buffer[..fill]
    }

    constructor (start: nat)
      ensures Valid() && fresh(buffer) && Contents() == [] && currentLSN == start
    {
      buffer := new bv8[FlushProtocol.APPEND_BUFFER_SIZE](_ => 0);
      fill := 0;
      currentLSN, flushedLSN, flushing, file, synced := start, start, false, [], 0;
      run := [FlushProtocol.State([], start, start, false, [], 0, [], 0, map[], [], start)];
    }

    /** memcpy into the buffer. */
    method Copy(off: nat, s: seq<bv8>)
      requires off + |s| <= buffer.Length
      modifies buffer
      ensures buffer[..off] == old(buffer[..off]) && buffer[off..off + |s|] == s
      ensures buffer[off + |s|..] == old(buffer[off + |s|..])
    {
      forall k | 0 <= k < |s| {
        buffer[off + k] := s[k];
      }
    }

    /** Appends one record, sealed under the next LSN; nothing, and no change, when it does not fit. */
    method Append(h: Header, before: seq<bv8>, after: seq<bv8>) returns (lsn: Option<nat>)
      requires Valid() && RECORD_HEADER + |before| + |after| < TWO32
      modifies this, buffer
      ensures Valid()
      ensures lsn == None <==> old(fill) + 64 + |before| + |after| > 0x800_0000
      ensures lsn == None ==> Contents() == old(Contents()) && currentLSN == old(currentLSN) && run == old(run)
      ensures flushedLSN == old(flushedLSN) && file == old(file) && synced == old(synced)
      ensures lsn.Some? ==>
                && lsn.value == old(currentLSN) && currentLSN == old(currentLSN) + 1
                && Contents() == old(Contents()) + Sealed(h, lsn.value, before, after)
                && Now().recs == old(Now()).recs + [Sealed(h, lsn.value, before, after)]
                && Now().base == old(Now()).base
    {
      hide Computed, CrcBytes, HeaderBytes, Intact, Unsealed, FlushProtocol.Run;
      var size := (RECORD_HEADER + |before| + |after|) % TWO32;
      if fill + size > FlushProtocol.APPEND_BUFFER_SIZE {
        return None;
      }
      lsn := Some(currentLSN);
      currentLSN := currentLSN + 1;
      Write(HeaderBytes(h, lsn.value, |before|, |after|), before, after);
      Seal(size);
      hide Sealed;
      Lengthened(buffer[..], fill, size);
      assert buffer[..][..fill + size] == buffer[..fill + size];
      fill := fill + size;
      Take(FlushProtocol.Append(Sealed(h, lsn.value, before, after)));
    }

    static lemma Lengthened(all: seq<bv8>, at: nat, size: nat)
      requires at + size <= |all|
      ensures all[..at + size] == all[..at] + all[at..at + size]
    {
    }

    /** The three pieces of a record, behind one another. */
    method Write(head: seq<bv8>, before: seq<bv8>, after: seq<bv8>)
      requires fill + |head| + |before| + |after| <= buffer.Length
      modifies buffer
      ensures buffer[..fill] == old(buffer[..fill])
      ensures buffer[fill..fill + |head| + |before| + |after|] == head + before + after
    {
      var b, c := fill + |head|, fill + |head| + |before|;
      Copy(fill, head);
      ghost var one := buffer[..b];
      Copy(b, before);
      ghost var two := buffer[..c];
      Copy(c, after);
      Joined(buffer[..], fill, one, two, head, before, after);
    }

    static lemma Joined(now: seq<bv8>, at: nat, one: seq<bv8>, two: seq<bv8>, x: seq<bv8>, y: seq<bv8>, z: seq<bv8>)
      requires at + |x| + |y| + |z| <= |now| && |one| == at + |x| && |two| == at + |x| + |y|
      requires one[at..] == x && two[..|one|] == one && two[|one|..] == y
      requires now[..|two|] == two && now[|two|..|two| + |z|] == z
      ensures now[at..at + |x| + |y| + |z|] == x + y + z && now[..at] == one[..at]
    {
      assert two == one + y;
      assert now[at..|two| + |z|] == two[at..] + z;
      assert two[at..] == one[at..] + y;
    }

    /** Computes the checksum of the record just written and patches it into its field. */
    method Seal(size: nat)
      requires RECORD_HEADER <= size && fill + size <= buffer.Length
      modifies buffer
      ensures buffer[..fill] == old(buffer[..fill])
      ensures var plain := old(buffer[fill..fill + size]);
              buffer[fill..fill + size] == plain[..4] + CrcBytes(Computed(plain)) + plain[8..]
    {
      hide Computed, CrcBytes;
      ghost var all := buffer[..];
      var crc := Compute(buffer[fill..fill + size]);
      Copy(fill + 4, CrcBytes(crc));
      Patched(all, buffer[..], fill, size, CrcBytes(crc));
      assert buffer[..fill] == buffer[..][..fill] && buffer[fill..fill + size] == buffer[..][fill..fill + size];
    }

    static lemma Patched(all: seq<bv8>, now: seq<bv8>, at: nat, size: nat, crc: seq<bv8>)
      requires |crc| == 4 && |now| == |all| && 8 <= size && at + size <= |all|
      requires now[..at + 4] == all[..at + 4] && now[at + 4..at + 8] == crc && now[at + 8..] == all[at + 8..]
      ensures now[..at] == all[..at]
      ensures now[at..at + size] == all[at..at + size][..4] + crc + all[at..at + size][8..]
    {
      assert forall k :: 0 <= k < at + 4 ==> now[k] == now[..at + 4][k] && all[k] == all[..at + 4][k];
      assert forall k :: at + 4 <= k < at + 8 ==> now[k] == now[at + 4..at + 8][k - at - 4];
      assert forall k :: at + 8 <= k < |all| ==>
                now[k] == now[at + 8..][k - at - 8] && all[k] == all[at + 8..][k - at - 8];
    }

    /** copy_to_fill_buffer: the leader takes the whole buffer as its batch and zeroes it. */
    method CopyToFillBuffer() returns (end: nat, batch: seq<bv8>)
      requires fill <= buffer.Length
      modifies this`fill, buffer
      ensures batch == old(buffer[..fill]) && end == currentLSN && fill == 0
      ensures (forall k :: 0 <= k < old(fill) ==> buffer[k] == 0) && buffer[old(fill)..] == old(buffer[fill..])
    {
      batch := buffer[..fill];
      forall k | 0 <= k < fill {
        buffer[k] := 0;
      }
      fill := 0;
      end := currentLSN;
    }

    /** append_durable: writes until the system has taken all bytes, some at a time, and then syncs. */
    method AppendDurable(batch: seq<bv8>, target: nat, end: nat)
      requires InStep() && Now().phases == map[0 := FlushProtocol.Writing(target, end)]
      requires Now().fill == batch && Now().sent == 0
      modifies this`file, this`synced, this`run
      ensures InStep() && file == old(file) + batch && synced == |file|
      ensures Now().phases == map[0 := FlushProtocol.Synced(target, end)]
      ensures old(run) <= run && SameRecords(old(Now()), Now())
    {
      hide FlushProtocol.Run;
      var sent := 0;
      assert batch[..0] == [];
      while sent < |batch|
        invariant InStep() && sent <= |batch| && file == old(file) + batch[..sent]
        invariant Now().phases == map[0 := FlushProtocol.Writing(target, end)]
        invariant Now().fill == batch && Now().sent == sent
        invariant old(run) <= run && SameRecords(old(Now()), Now())
      {
        var n: nat :| 0 < n <= |batch| - sent;
        assert batch[..sent] + batch[sent..sent + n] == batch[..sent + n];
        file := file + batch[sent..sent + n];
        sent := sent + n;
        Take(FlushProtocol.Write(0, n));
      }
      assert batch[..sent] == batch;
      synced := |file|;
      Take(FlushProtocol.Sync(0));
    }

    static ghost predicate SameRecords(s: FlushProtocol.State, t: FlushProtocol.State) {
      s.recs == t.recs && s.base == t.base
    }

    /** Becomes the leader and takes the batch. */
    method TakeBatch(target: nat) returns (end: nat, batch: seq<bv8>)
      requires InStep() && !flushing && Now().phases == map[0 := FlushProtocol.Checking(target)]
      requires flushedLSN < target
      modifies this`fill, this`flushing, this`run, buffer
      ensures InStep() && flushing && Now().phases == map[0 := FlushProtocol.Writing(target, end)]
      ensures Now().fill == batch == old(Contents()) && Now().sent == 0 && end == currentLSN && fill == 0
      ensures old(run) <= run && SameRecords(old(Now()), Now())
    {
      hide FlushProtocol.Run;
      flushing := true;
      Take(FlushProtocol.Check(0));
      assert Now().phases == map[0 := FlushProtocol.Leading(target)];
      end, batch := CopyToFillBuffer();
      Take(FlushProtocol.Copy(0));
    }

    /** One turn as leader: everything appended so far goes to the file and is published. */
    method Lead(target: nat)
      requires InStep() && !flushing && Now().phases == map[0 := FlushProtocol.Checking(target)]
      requires flushedLSN < target
      modifies this`fill, this`flushedLSN, this`flushing, this`file, this`synced, this`run, buffer
      ensures InStep() && !flushing && Now().phases == map[0 := FlushProtocol.Checking(target)]
      ensures flushedLSN == currentLSN && fill == 0 && file == old(file) + old(Contents()) && synced == |file|
      ensures old(run) <= run && SameRecords(old(Now()), Now())
    {
      hide FlushProtocol.Run;
      var end, batch := TakeBatch(target);
      AppendDurable(batch, target, end);
      flushedLSN := end;
      flushing := false;
      Take(FlushProtocol.Publish(0));
    }

    /**
     * flush_to, called by the only thread. It comes back when flushedLSN has reached the target, with every record
     * below the target durable; when it had to flush, with everything appended so far durable. A target above the next
     * LSN would keep the only thread leading empty batches for ever.
     */
    method FlushTo(target: nat)
      requires Valid() && target <= currentLSN
      modifies this`fill, this`flushedLSN, this`flushing, this`file, this`synced, this`run, buffer
      ensures Valid() && target <= flushedLSN && old(run) <= run && SameRecords(old(Now()), Now())
      ensures Now().base <= target ==> FlushProtocol.DurableBelow(Now(), target)
      ensures if old(flushedLSN) >= target
              then file == old(file) && Contents() == old(Contents()) && flushedLSN == old(flushedLSN)
              else file == old(file) + old(Contents()) && Contents() == [] && flushedLSN == currentLSN
                   && synced == |file|
    {
      hide FlushProtocol.Run, FlushProtocol.DurableBelow;
      Take(FlushProtocol.Call(0, target));
      while flushedLSN < target
        invariant InStep() && !flushing && Now().phases == map[0 := FlushProtocol.Checking(target)]
        invariant old(run) <= run && SameRecords(old(Now()), Now())
        invariant flushedLSN == old(flushedLSN) ==>
                    file == old(file) && buffer[..fill] == old(buffer[..fill]) && fill == old(fill)
        invariant flushedLSN == old(flushedLSN)
                  || (old(flushedLSN) < target && flushedLSN == currentLSN && fill == 0
                      && file == old(file) + old(Contents()) && synced == |file|)
        decreases target - flushedLSN
      {
        Lead(target);
      }
      Take(FlushProtocol.Check(0));
      if Now().base <= target {
        FlushProtocol.FlushGuarantee(run, |run| - 1, 0);
      }
    }
  }
}
