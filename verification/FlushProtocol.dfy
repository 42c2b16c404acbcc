/**
 * Group commit: threads append records to a shared buffer and flush it through one leader at a time.
 * The steps below are the atomic actions between lock operations; a run is any interleaving of them.
 */
module FlushProtocol {
  const APPEND_BUFFER_SIZE: nat := 0x800_0000

  type Bytes = seq<bv8>

  /** Where a thread is inside flush_to. */
  datatype Phase =
    | Checking(target: nat)
    | Leading(target: nat)
    | Writing(target: nat, end: nat)
    | Synced(target: nat, end: nat)
    | Waiting(target: nat)
    | Returned(target: nat)

  datatype State = State(
    buffer: Bytes,              // append_buffer up to its fill offset
    current: nat,               // currentLSN, the next one to hand out
    flushed: nat,               // flushedLSN
    flushing: bool,
    fill: Bytes,                // fill_buffer: the batch being written
    sent: nat,                  // how much of the batch write() has taken
    file: Bytes,                // the log file as the system would read it back
    synced: nat,                // how much of the file is sure to survive a crash
    phases: map<nat, Phase>,    // the threads in or back from flush_to
    recs: seq<Bytes>,           // every record ever appended
    base: nat)                  // the LSN of the first of them

  datatype Step =
    | Append(rec: Bytes)
    | Call(t: nat, target: nat)
    | Check(t: nat)
    | Wake(t: nat)
    | Copy(t: nat)
    | Write(t: nat, n: nat)
    | Sync(t: nat)
    | WriteBack(n: nat)
    | Publish(t: nat)

  function Flat(recs: seq<Bytes>): Bytes {
    if recs == [] then [] else recs[0] + Flat(recs[1..])
  }

  predicate Init(s: State) {
    && s.buffer == [] && s.current == s.flushed == s.base && !s.flushing
    && s.file == [] && s.synced == 0 && s.phases == map[] && s.recs == []
  }

  predicate At(s: State, t: nat) { t in s.phases }

  /** Whether a step can be taken. */
  predicate Enabled(s: State, step: Step) {
    match step
    case Append(rec) => |s.buffer| + |rec| <= APPEND_BUFFER_SIZE
    case Call(t, _) => t !in s.phases || s.phases[t].Returned?
    case Check(t) => t in s.phases && s.phases[t].Checking?
    case Wake(t) =>
      t in s.phases && s.phases[t].Waiting? && (s.flushed >= s.phases[t].target || !s.flushing)
    case Copy(t) => t in s.phases && s.phases[t].Leading?
    case Write(t, n) => t in s.phases && s.phases[t].Writing? && s.sent + n <= |s.fill|
    case Sync(t) => t in s.phases && s.phases[t].Writing? && s.sent == |s.fill|
    case WriteBack(n) => s.synced <= n <= |s.file|
    case Publish(t) => t in s.phases && s.phases[t].Synced?
  }

  function Move(s: State, t: nat, p: Phase): State { s.(phases := s.phases[t := p]) }

  /** What it does. */
  function After(s: State, step: Step): State
    requires Enabled(s, step)
  {
    match step
    case Append(rec) => s.(buffer := s.buffer + rec, current := s.current + 1, recs := s.recs + [rec])
    case Call(t, target) => Move(s, t, Checking(target))
    case Check(t) =>
      var target := s.phases[t].target;
      if s.flushed >= target then Move(s, t, Returned(target))
      else if !s.flushing then Move(s, t, Leading(target)).(flushing := true)
      else Move(s, t, Waiting(target))
    case Wake(t) => Move(s, t, Checking(s.phases[t].target))
    case Copy(t) =>
      Move(s, t, Writing(s.phases[t].target, s.current)).(fill := s.buffer, sent := 0, buffer := [])
    case Write(t, n) => s.(file := s.file + s.fill[s.sent..s.sent + n], sent := s.sent + n)
    case Sync(t) => Move(s, t, Synced(s.phases[t].target, s.phases[t].end)).(synced := |s.file|)
    case WriteBack(n) => s.(synced := n)
    case Publish(t) =>
      Move(s, t, Checking(s.phases[t].target)).(flushed := s.phases[t].end, flushing := false)
  }

  predicate Takes(s: State, step: Step, s': State) {
    Enabled(s, step) && s' == After(s, step)
  }

  ghost predicate Next(s: State, s': State) {
    exists step :: Takes(s, step, s')
  }

  /** A run: each state follows from the one before it by some step. */
  ghost predicate Run(states: seq<State>) {
    && states != [] && Init(states[0])
    && (forall i :: 0 < i < |states| ==> Next(states[i - 1], states[i]))
  }

  // ---- the invariant ----------------------------------------------------------------------------

  predicate IsLeader(p: Phase) { p.Leading? || p.Writing? || p.Synced? }

  predicate HasBatch(p: Phase) { p.Writing? || p.Synced? }

  ghost predicate NoBatch(s: State) {
    forall t :: t in s.phases ==> !HasBatch(s.phases[t])
  }

  predicate InOrder(s: State) {
    s.base <= s.flushed <= s.current == s.base + |s.recs|
  }

  /** With no batch in flight: published records are in the file for good, the others are in the buffer. */
  predicate Rest(s: State)
    requires InOrder(s)
  {
    && s.file == Flat(s.recs[..s.flushed - s.base]) && s.buffer == Flat(s.recs[s.flushed - s.base..])
    && s.synced == |s.file|
  }

  /**
   * With a batch up to `end` in flight: its unsent part is missing from the file, the records behind it are in the
   * buffer.
   */
  predicate Flight(s: State, end: nat)
    requires InOrder(s)
  {
    && s.flushed <= end <= s.current
    && s.fill == Flat(s.recs[s.flushed - s.base..end - s.base]) && s.sent <= |s.fill|
    && s.file == Flat(s.recs[..s.flushed - s.base]) + s.fill[..s.sent]
    && s.buffer == Flat(s.recs[end - s.base..])
    && |Flat(s.recs[..s.flushed - s.base])| <= s.synced <= |s.file|
  }

  predicate PhaseOk(s: State, p: Phase)
    requires InOrder(s)
  {
    match p
    case Writing(_, end) => Flight(s, end)
    case Synced(_, end) => Flight(s, end) && s.sent == |s.fill| && s.synced == |s.file|
    case Returned(target) => s.flushed >= target
    case _ => true
  }

  ghost predicate OneLeader(s: State) {
    && (forall t, u :: t in s.phases && u in s.phases && IsLeader(s.phases[t]) && IsLeader(s.phases[u]) ==> t == u)
    && (s.flushing <==> exists t :: t in s.phases && IsLeader(s.phases[t]))
  }

  ghost predicate Inv(s: State) {
    && InOrder(s) && OneLeader(s)
    && (forall t :: t in s.phases ==> PhaseOk(s, s.phases[t]))
    && (NoBatch(s) ==> Rest(s))
  }

  // ---- lists of records ---------------------------------------------------------------------------

  lemma {:induction false} FlatConcat(a: seq<Bytes>, b: seq<Bytes>)
    ensures Flat(a + b) == Flat(a) + Flat(b)
  {
    if a == [] {
      assert a + b == b;
    } else {
      FlatConcat(a[1..], b);
      assert (a + b)[1..] == a[1..] + b;
    }
  }

  lemma FlatSplit(recs: seq<Bytes>, i: nat)
    requires i <= |recs|
    ensures Flat(recs) == Flat(recs[..i]) + Flat(recs[i..])
  {
    assert recs == recs[..i] + recs[i..];
    FlatConcat(recs[..i], recs[i..]);
  }

  lemma FlatOne(rec: Bytes)
    ensures Flat([rec]) == rec
  {
    assert [rec][1..] == [];
  }

  // ---- every step keeps the invariant ---------------------------------------------------------------

  lemma InitInv(s: State)
    requires Init(s)
    ensures Inv(s)
  {
  }

  lemma TailGrows(recs: seq<Bytes>, rec: Bytes, i: nat)
    requires i <= |recs|
    ensures (recs + [rec])[..i] == recs[..i]
    ensures Flat((recs + [rec])[i..]) == Flat(recs[i..]) + rec
  {
    assert (recs + [rec])[i..] == recs[i..] + [rec];
    FlatConcat(recs[i..], [rec]);
    FlatOne(rec);
  }

  lemma AppendPhase(s: State, rec: Bytes, p: Phase)
    requires InOrder(s) && PhaseOk(s, p) && Enabled(s, Append(rec))
    ensures PhaseOk(After(s, Append(rec)), p)
  {
    hide Flat;
    var s' := After(s, Append(rec));
    if HasBatch(p) {
      TailGrows(s.recs, rec, p.end - s.base);
      TailGrows(s.recs, rec, s.flushed - s.base);
      assert s'.recs[s.flushed - s.base..p.end - s.base] == s.recs[s.flushed - s.base..p.end - s.base];
    }
  }

  lemma AppendInv(s: State, rec: Bytes)
    requires Inv(s) && Enabled(s, Append(rec))
    ensures Inv(After(s, Append(rec)))
  {
    hide Flat, Flight, PhaseOk;
    var s' := After(s, Append(rec));
    forall t | t in s.phases
      ensures PhaseOk(s', s'.phases[t])
    {
      AppendPhase(s, rec, s.phases[t]);
    }
    assert NoBatch(s') <==> NoBatch(s);
    TailGrows(s.recs, rec, s.flushed - s.base);
  }

  /** Steps that only move one thread between phases without a batch. */
  lemma MoveInv(s: State, t: nat, p: Phase)
    requires Inv(s) && !HasBatch(p) && PhaseOk(s, p) && !IsLeader(p)
    requires t in s.phases ==> !IsLeader(s.phases[t])
    ensures Inv(Move(s, t, p))
  {
    hide Flat, Flight, Rest;
    var s' := Move(s, t, p);
    forall u | u in s'.phases
      ensures PhaseOk(s', s'.phases[u])
    {
      SamePhase(s, s', s'.phases[u]);
    }
    SameRest(s, s');
    MoveLeaders(s, t, p);
    assert NoBatch(s') ==> NoBatch(s) by {
      if NoBatch(s') {
        forall u | u in s.phases
          ensures !HasBatch(s.phases[u])
        {
          assert u != t ==> s'.phases[u] == s.phases[u];
        }
      }
    }
  }

  predicate SameLog(s: State, s': State) {
    s' == s.(phases := s'.phases, flushing := s'.flushing)
  }

  lemma SamePhase(s: State, s': State, p: Phase)
    requires InOrder(s) && SameLog(s, s') && PhaseOk(s, p)
    ensures PhaseOk(s', p)
  {
    hide Flat;
  }

  lemma SameRest(s: State, s': State)
    requires InOrder(s) && SameLog(s, s')
    ensures InOrder(s') && (Rest(s') <==> Rest(s))
  {
    hide Flat;
  }

  lemma MoveLeaders(s: State, t: nat, p: Phase)
    requires OneLeader(s) && !IsLeader(p) && (t in s.phases ==> !IsLeader(s.phases[t]))
    ensures OneLeader(Move(s, t, p))
  {
    var s' := Move(s, t, p);
    forall u | u in s.phases && IsLeader(s.phases[u])
      ensures u in s'.phases && IsLeader(s'.phases[u])
    {
    }
  }

  lemma LeadInv(s: State, t: nat)
    requires Inv(s) && t in s.phases && s.phases[t].Checking? && !s.flushing
    ensures Inv(Move(s, t, Leading(s.phases[t].target)).(flushing := true))
  {
    hide Flat, Flight, Rest;
    var s' := Move(s, t, Leading(s.phases[t].target)).(flushing := true);
    forall u | u in s'.phases
      ensures PhaseOk(s', s'.phases[u])
    {
      SamePhase(s, s', s'.phases[u]);
    }
    SameRest(s, s');
    assert NoBatch(s);
    assert t in s'.phases && IsLeader(s'.phases[t]);
  }

  /** The leader takes over the buffer. Nobody else has a batch. */
  lemma CopyInv(s: State, t: nat)
    requires Inv(s) && Enabled(s, Copy(t))
    ensures Inv(After(s, Copy(t)))
  {
    var s' := After(s, Copy(t));
    assert NoBatch(s) && Rest(s);
    CopyFlight(s, t);
    hide Flat, Flight, Rest;
    forall u | u in s'.phases
      ensures PhaseOk(s', s'.phases[u])
    {
      if u != t {
        assert PhaseOk(s, s.phases[u]) && !HasBatch(s.phases[u]);
      }
    }
    assert t in s'.phases && HasBatch(s'.phases[t]);
  }

  lemma CopyFlight(s: State, t: nat)
    requires InOrder(s) && Rest(s) && Enabled(s, Copy(t))
    ensures InOrder(After(s, Copy(t))) && Flight(After(s, Copy(t)), s.current)
  {
    assert s.recs[s.flushed - s.base..s.current - s.base] == s.recs[s.flushed - s.base..];
    assert s.recs[s.current - s.base..] == [];
    assert s.fill[..0] == [];
  }

  /** A step of the thread that has the batch: nobody else has one. */
  lemma BatchInv(s: State, t: nat, s': State)
    requires Inv(s) && t in s.phases && HasBatch(s.phases[t])
    requires t in s'.phases
    requires s' == s.(file := s'.file, sent := s'.sent, synced := s'.synced, phases := s.phases[t := s'.phases[t]])
    requires HasBatch(s'.phases[t]) && InOrder(s') && PhaseOk(s', s'.phases[t])
    ensures Inv(s')
  {
    hide Flat, Flight, Rest;
    forall u | u in s'.phases
      ensures PhaseOk(s', s'.phases[u])
    {
      if u != t {
        assert PhaseOk(s, s.phases[u]) && !IsLeader(s.phases[u]);
      }
    }
    assert IsLeader(s'.phases[t]);
    assert !NoBatch(s');
  }

  lemma WriteInv(s: State, t: nat, n: nat)
    requires Inv(s) && Enabled(s, Write(t, n))
    ensures Inv(After(s, Write(t, n)))
  {
    hide Flat;
    var s' := After(s, Write(t, n));
    assert PhaseOk(s, s.phases[t]);
    assert s.fill[..s.sent] + s.fill[s.sent..s.sent + n] == s.fill[..s.sent + n];
    assert s.phases[t := s'.phases[t]] == s.phases;
    BatchInv(s, t, s');
  }

  lemma SyncInv(s: State, t: nat)
    requires Inv(s) && Enabled(s, Sync(t))
    ensures Inv(After(s, Sync(t)))
  {
    hide Flat;
    assert PhaseOk(s, s.phases[t]);
    BatchInv(s, t, After(s, Sync(t)));
  }

  /** The system writing back early can only find something to write while a batch is in flight. */
  lemma WriteBackInv(s: State, n: nat)
    requires Inv(s) && Enabled(s, WriteBack(n))
    ensures Inv(After(s, WriteBack(n)))
  {
    hide Flat;
    var s' := After(s, WriteBack(n));
    forall u | u in s'.phases
      ensures PhaseOk(s', s'.phases[u])
    {
      assert PhaseOk(s, s.phases[u]);
    }
    assert NoBatch(s') <==> NoBatch(s);
  }

  /** The batch is published: all it held is in the file for good. */
  lemma PublishInv(s: State, t: nat)
    requires Inv(s) && Enabled(s, Publish(t))
    ensures Inv(After(s, Publish(t)))
  {
    var s' := After(s, Publish(t));
    assert PhaseOk(s, s.phases[t]);
    PublishRest(s, s.phases[t].end, s');
    hide Flat, Flight, Rest;
    forall u | u in s'.phases
      ensures PhaseOk(s', s'.phases[u]) && !IsLeader(s'.phases[u])
    {
      if u != t {
        assert PhaseOk(s, s.phases[u]) && !IsLeader(s.phases[u]);
      }
    }
  }

  lemma PublishRest(s: State, end: nat, s': State)
    requires InOrder(s) && Flight(s, end) && s.sent == |s.fill| && s.synced == |s.file|
    requires s' == s.(flushed := end, flushing := s'.flushing, phases := s'.phases)
    ensures InOrder(s') && Rest(s')
  {
    var a, b := s.flushed - s.base, end - s.base;
    assert s.recs[..b] == s.recs[..a] + s.recs[a..b];
    FlatConcat(s.recs[..a], s.recs[a..b]);
    assert s.fill[..s.sent] == s.fill;
  }

  lemma StepInv(s: State, step: Step, s': State)
    requires Inv(s) && Takes(s, step, s')
    ensures Inv(s')
  {
    hide Inv;
    match step
    case Append(rec) => AppendInv(s, rec);
    case Call(t, target) => CallInv(s, t, target);
    case Check(t) => CheckInv(s, t);
    case Wake(t) => WakeInv(s, t);
    case Copy(t) => CopyInv(s, t);
    case Write(t, n) => WriteInv(s, t, n);
    case Sync(t) => SyncInv(s, t);
    case WriteBack(n) => WriteBackInv(s, n);
    case Publish(t) => PublishInv(s, t);
  }

  lemma CallInv(s: State, t: nat, target: nat)
    requires Inv(s) && Enabled(s, Call(t, target))
    ensures Inv(After(s, Call(t, target)))
  {
    MoveInv(s, t, Checking(target));
  }

  lemma WakeInv(s: State, t: nat)
    requires Inv(s) && Enabled(s, Wake(t))
    ensures Inv(After(s, Wake(t)))
  {
    MoveInv(s, t, Checking(s.phases[t].target));
  }

  lemma CheckInv(s: State, t: nat)
    requires Inv(s) && Enabled(s, Check(t))
    ensures Inv(After(s, Check(t)))
  {
    var target := s.phases[t].target;
    if s.flushed >= target {
      MoveInv(s, t, Returned(target));
    } else if !s.flushing {
      LeadInv(s, t);
    } else {
      MoveInv(s, t, Waiting(target));
    }
  }

  // ---- what holds over whole runs ---------------------------------------------------------------------

  lemma {:induction false} RunInv(states: seq<State>, i: nat)
    requires Run(states) && i < |states|
    ensures Inv(states[i])
  {
    hide Inv, Takes;
    if i == 0 {
      InitInv(states[0]);
    } else {
      RunInv(states, i - 1);
      var step :| Takes(states[i - 1], step, states[i]);
      StepInv(states[i - 1], step, states[i]);
    }
  }

  /** At most one thread is between taking the leadership and giving it up. */
  lemma SingleLeader(states: seq<State>, i: nat, t: nat, u: nat)
    requires Run(states) && i < |states|
    requires t in states[i].phases && IsLeader(states[i].phases[t]) && u in states[i].phases
             && IsLeader(states[i].phases[u])
    ensures t == u
  {
    RunInv(states, i);
  }

  /** The bytes of a batch that write() has not taken yet. */
  ghost predicate Unsent(s: State, rest: Bytes) {
    && (NoBatch(s) ==> rest == [])
    && (forall t :: t in s.phases && HasBatch(s.phases[t]) ==> s.sent <= |s.fill| && rest == s.fill[s.sent..])
  }

  /**
   * Nothing is lost, repeated or reordered: file, unsent batch and buffer together are all records appended, in
   * LSN order.
   */
  lemma Conservation(states: seq<State>, i: nat)
    requires Run(states) && i < |states|
    ensures var s := states[i];
            && s.current == s.base + |s.recs|
            && (exists rest :: Unsent(s, rest) && s.file + rest + s.buffer == Flat(s.recs))
            && (forall t :: t in s.phases && (s.phases[t].Writing? || s.phases[t].Synced?) ==>
                  s.sent <= |s.fill| && s.file + s.fill[s.sent..] + s.buffer == Flat(s.recs))
            && ((forall t :: t in s.phases ==> !s.phases[t].Writing? && !s.phases[t].Synced?) ==>
                  s.file + s.buffer == Flat(s.recs))
  {
    RunInv(states, i);
    var s := states[i];
    var rest := AllThere(s);
  }

  lemma AllThere(s: State) returns (rest: Bytes)
    requires Inv(s)
    ensures Unsent(s, rest) && s.file + rest + s.buffer == Flat(s.recs)
  {
    hide Flat;
    if NoBatch(s) {
      FlatSplit(s.recs, s.flushed - s.base);
      rest := [];
      assert s.file + rest == s.file;
    } else {
      var t :| t in s.phases && HasBatch(s.phases[t]);
      assert PhaseOk(s, s.phases[t]);
      FlightAll(s, s.phases[t].end);
      rest := s.fill[s.sent..];
    }
  }

  lemma FlightAll(s: State, end: nat)
    requires InOrder(s) && Flight(s, end)
    ensures s.file + s.fill[s.sent..] + s.buffer == Flat(s.recs)
  {
    var a, b := s.flushed - s.base, end - s.base;
    ThreeParts(s.recs, a, b);
    hide Flat;
    Rejoined(s.file, Flat(s.recs[..a]), s.fill, s.sent, s.buffer);
  }

  lemma ThreeParts(recs: seq<Bytes>, a: nat, b: nat)
    requires a <= b <= |recs|
    ensures Flat(recs) == Flat(recs[..a]) + Flat(recs[a..b]) + Flat(recs[b..])
  {
    FlatSplit(recs, b);
    assert recs[..b] == recs[..a] + recs[a..b];
    FlatConcat(recs[..a], recs[a..b]);
  }

  lemma Rejoined(file: Bytes, old': Bytes, fill: Bytes, sent: nat, buffer: Bytes)
    requires sent <= |fill| && file == old' + fill[..sent]
    ensures file + fill[sent..] + buffer == old' + fill + buffer
  {
    assert fill[..sent] + fill[sent..] == fill;
  }

  /** All bytes of the records with LSNs below `lsn` are sure to survive a crash. */
  predicate DurableBelow(s: State, lsn: nat) {
    && s.base <= lsn <= s.base + |s.recs|
    && Flat(s.recs[..lsn - s.base]) <= s.file && |Flat(s.recs[..lsn - s.base])| <= s.synced
  }

  /** flushedLSN bounds the durable records strictly: every LSN below it is durable. */
  lemma FlushedIsDurable(s: State)
    requires Inv(s)
    ensures DurableBelow(s, s.flushed)
  {
    hide Flat;
    if !NoBatch(s) {
      var t :| t in s.phases && HasBatch(s.phases[t]);
      assert PhaseOk(s, s.phases[t]);
    }
  }

  lemma FlatPrefix(recs: seq<Bytes>, i: nat, j: nat)
    requires i <= j <= |recs|
    ensures Flat(recs[..i]) <= Flat(recs[..j])
  {
    assert recs[..j] == recs[..i] + recs[i..j];
    FlatConcat(recs[..i], recs[i..j]);
  }

  /** When flush_to(target) has returned, every record with an LSN below the target is durable. */
  lemma FlushGuarantee(states: seq<State>, i: nat, t: nat)
    requires Run(states) && i < |states| && t in states[i].phases && states[i].phases[t].Returned?
    requires states[i].phases[t].target >= states[i].base
    ensures DurableBelow(states[i], states[i].phases[t].target)
  {
    RunInv(states, i);
    var s := states[i];
    var target := s.phases[t].target;
    assert PhaseOk(s, s.phases[t]);
    FlushedIsDurable(s);
    FlatPrefix(s.recs, target - s.base, s.flushed - s.base);
    hide Flat;
    PrefixOfPrefix(Flat(s.recs[..target - s.base]), Flat(s.recs[..s.flushed - s.base]), s.file);
  }

  /** flush_to(target) never returns while the target is above the next LSN to be handed out. */
  lemma ReturnsOnlyWhenReached(states: seq<State>, i: nat, t: nat)
    requires Run(states) && i < |states| && t in states[i].phases && states[i].phases[t].Returned?
    ensures states[i].phases[t].target <= states[i].flushed <= states[i].current
  {
    hide Run, Next, OneLeader, Rest, NoBatch;
    RunInv(states, i);
    assert PhaseOk(states[i], states[i].phases[t]);
  }

  lemma PrefixOfPrefix(a: Bytes, b: Bytes, c: Bytes)
    requires a <= b && b <= c
    ensures a <= c && |a| <= |b|
  {
  }

  /** Nothing that is durable is taken back, and flushedLSN is not lowered. */
  predicate Grows(s: State, s': State) {
    s.flushed <= s'.flushed && s.synced <= s'.synced && s.file <= s'.file && s.recs <= s'.recs && s.base == s'.base
  }

  lemma StepGrows(s: State, step: Step, s': State)
    requires Inv(s) && Takes(s, step, s')
    ensures Grows(s, s')
  {
    hide Flat;
    match step
    case Write(t, _) => assert PhaseOk(s, s.phases[t]);
    case Sync(t) => assert PhaseOk(s, s.phases[t]);
    case Publish(t) => assert PhaseOk(s, s.phases[t]);
    case _ =>
  }

  lemma GrowsOn(a: State, b: State, c: State)
    requires Grows(a, b) && Grows(b, c)
    ensures Grows(a, c)
  {
  }

  lemma {:induction false} NeverBack(states: seq<State>, i: nat, j: nat)
    requires Run(states) && i <= j < |states|
    ensures Grows(states[i], states[j])
    ensures states[i].flushed <= states[j].flushed && states[i].synced <= states[j].synced
    ensures states[i].file <= states[j].file && states[i].recs <= states[j].recs
    decreases j
  {
    hide Inv, Takes, Init;
    if i < j {
      NeverBack(states, i, j - 1);
      RunInv(states, j - 1);
      assert Next(states[j - 1], states[j]);
      var step :| Takes(states[j - 1], step, states[j]);
      StepGrows(states[j - 1], step, states[j]);
      hide Grows;
      GrowsOn(states[i], states[j - 1], states[j]);
    } else {
      GrowsSelf(states[i]);
    }
    GrowsMeans(states[i], states[j]);
  }

  lemma GrowsMeans(s: State, s': State)
    requires Grows(s, s')
    ensures s.flushed <= s'.flushed && s.synced <= s'.synced && s.file <= s'.file && s.recs <= s'.recs
  {
  }

  lemma GrowsSelf(s: State)
    ensures Grows(s, s)
  {
  }

  /** What a crash in state j leaves of the file still starts with every record that was durable in state i. */
  lemma SurvivesCrash(states: seq<State>, i: nat, j: nat, lsn: nat, kept: nat)
    requires Run(states) && i <= j < |states| && DurableBelow(states[i], lsn)
    requires states[j].synced <= kept <= |states[j].file|
    ensures Flat(states[i].recs[..lsn - states[i].base]) <= states[j].file[..kept]
  {
    hide Inv, Takes, Init, Flat;
    NeverBack(states, i, j);
    var p := Flat(states[i].recs[..lsn - states[i].base]);
    assert p <= states[i].file <= states[j].file && |p| <= kept;
  }

  // ---- the record at the target itself ------------------------------------------------------------

  /**
   * flush_to(target) returns as soon as flushedLSN reaches the target, and flushedLSN is the next LSN to be
   * written. So on a quiet log the record with the LSN `target` is durable if and only if flushedLSN is above it.
   */
  lemma TargetDurable(s: State, lsn: nat)
    requires Inv(s) && NoBatch(s) && s.base <= lsn < s.current && s.recs[lsn - s.base] != []
    ensures DurableBelow(s, lsn + 1) <==> lsn < s.flushed
  {
    var a, b := lsn - s.base, s.flushed - s.base;
    if a < b {
      FlatPrefix(s.recs, a + 1, b);
    } else {
      FlatPrefix(s.recs, b, a);
      assert s.recs[..a + 1] == s.recs[..a] + [s.recs[a]];
      FlatConcat(s.recs[..a], [s.recs[a]]);
      FlatOne(s.recs[a]);
    }
  }

  /** One record appended, flush_to with its own LSN: it returns at once, and nothing is in the file. */
  lemma OwnLsnNotDurable()
    ensures exists states: seq<State> ::
              && Run(states) && |states| == 4
              && var s := states[3]; s.phases == map[1 := Returned(0)] && s.recs == [[7]] && s.base == 0 && s.file == []
  {
    var rec: Bytes := [7];
    var s0 := State([], 0, 0, false, [], 0, [], 0, map[], [], 0);
    var s1 := After(s0, Append(rec));
    var s2 := After(s1, Call(1, 0));
    var s3 := After(s2, Check(1));
    var states := [s0, s1, s2, s3];
    assert Takes(s0, Append(rec), s1) && Takes(s1, Call(1, 0), s2) && Takes(s2, Check(1), s3);
    assert Next(s0, s1) && Next(s1, s2) && Next(s2, s3);
    assert Run(states);
  }
}
