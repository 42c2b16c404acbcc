/** CRC32C, the portable bit-by-bit form: reflected, polynomial 0x82F63B78 (section 12.1 of RFC 3720). */
module Crc32c {
  const POLY: bv32 := 0x82F6_3B78
  const INIT: bv32 := 0xFFFF_FFFF
  const XOR_OUT: bv32 := 0xFFFF_FFFF

  function Xor(a: bv32, b: bv32): bv32 { a ^ b }

  function Low(b: bv8): bv32 { b as bv32 }

  function Half(s: bv32): bv32 { s >> 1 }

  /** The polynomial if the low bit is about to fall out, else nothing. */
  function Mask(s: bv32): bv32 { POLY & (0 - (s & 1)) }

  /** One bit step. */
  function Step(s: bv32): bv32 { Xor(Half(s), Mask(s)) }

  /** What a bit step came from. */
  function Unstep(s: bv32): bv32 {
    if s & 0x8000_0000 == 0 then s << 1 else (Xor(s, POLY) << 1) | 1
  }

  function Steps(s: bv32, n: nat): bv32
    decreases n
  {
    if n == 0 then s else Steps(Step(s), n - 1)
  }

  function ByteStep(s: bv32, b: bv8): bv32 { Steps(Xor(s, Low(b)), 8) }

  function Extended(s: bv32, m: seq<bv8>): bv32
    decreases |m|
  {
    if m == [] then s else Extended(ByteStep(s, m[0]), m[1..])
  }

  function Finalize(s: bv32): bv32 { Xor(s, XOR_OUT) }

  function Computed(m: seq<bv8>): bv32 { Finalize(Extended(INIT, m)) }

  /** The double loop over bytes and bits. */
  method Extend(state: bv32, p: seq<bv8>) returns (s: bv32)
    ensures s == Extended(state, p)
  {
    hide Xor, Low, Step, Steps;
    s := state;
    var i := 0;
    while i < |p|
      invariant i <= |p| && Extended(s, p[i..]) == Extended(state, p)
    {
      ghost var rest := p[i..];
      s := BitLoop(s ^ (p[i] as bv32));
      FedByte(p[i]);
      assert rest[0] == p[i] && rest[1..] == p[i + 1..];
      i := i + 1;
    }
    assert p[|p|..] == [];
  }

  lemma FedByte(b: bv8)
    ensures forall s: bv32 :: s ^ (b as bv32) == Xor(s, Low(b))
  {
  }

  method BitLoop(state: bv32) returns (s: bv32)
    ensures s == Steps(state, 8)
  {
    s := state;
    for k := 0 to 8
      invariant Steps(s, 8 - k) == Steps(state, 8)
    {
      s := (s >> 1) ^ (POLY & (0 - (s & 1)));
    }
  }

  method Compute(p: seq<bv8>) returns (crc: bv32)
    ensures crc == Computed(p)
  {
    hide Xor;
    var s := Extend(INIT, p);
    crc := Finalize(s);
  }

  // ---- xor ------------------------------------------------------------------------------------

  lemma XorGroups(a: bv32, b: bv32, c: bv32)
    ensures Xor(a, Xor(b, c)) == Xor(Xor(a, b), c)
  {
  }

  lemma XorSwaps(a: bv32, b: bv32)
    ensures Xor(a, b) == Xor(b, a)
  {
  }

  lemma XorCancels(a: bv32, b: bv32, c: bv32)
    ensures Xor(a, c) == Xor(b, c) <==> a == b
  {
  }

  lemma XorPairs(w: bv32, x: bv32, y: bv32, z: bv32)
    ensures Xor(Xor(w, y), Xor(x, z)) == Xor(Xor(w, x), Xor(y, z))
  {
    hide Xor;
    XorGroups(w, y, Xor(x, z));
    XorGroups(y, x, z);
    XorSwaps(y, x);
    XorGroups(x, y, z);
    XorGroups(w, x, Xor(y, z));
  }

  // ---- a bit step is a linear bijection -------------------------------------------------------

  lemma LowBit(s: bv32)
    ensures s & 1 == 0 ==> Mask(s) == 0
    ensures s & 1 == 1 ==> Mask(s) == POLY
    ensures s & 1 == 0 || s & 1 == 1
  {
  }

  /** Every state is the step of exactly one state. */
  lemma StepBijective(s: bv32)
    ensures Unstep(Step(s)) == s && Step(Unstep(s)) == s
  {
    Forth(s);
    Back(s);
  }

  lemma Forth(s: bv32)
    ensures Unstep(Step(s)) == s
  {
    LowBit(s);
    hide Mask;
  }

  lemma Back(s: bv32)
    ensures Step(Unstep(s)) == s
  {
    hide Mask, Half, Xor;
    if s & 0x8000_0000 == 0 {
      ShiftBack(s);
      LowBit(s << 1);
      XorNothing(s);
    } else {
      TopBit(s);
      ShiftBack(Xor(s, POLY));
      LowBit((Xor(s, POLY) << 1) | 1);
    }
  }

  lemma ShiftBack(s: bv32)
    requires s & 0x8000_0000 == 0
    ensures Half(s << 1) == s && (s << 1) & 1 == 0
    ensures Half((s << 1) | 1) == s && ((s << 1) | 1) & 1 == 1
  {
  }

  lemma XorNothing(s: bv32)
    ensures Xor(s, 0) == s
  {
  }

  lemma TopBit(s: bv32)
    requires s & 0x8000_0000 != 0
    ensures Xor(s, POLY) & 0x8000_0000 == 0 && Xor(Xor(s, POLY), POLY) == s
  {
  }

  lemma StepLinear(a: bv32, b: bv32)
    ensures Step(Xor(a, b)) == Xor(Step(a), Step(b))
  {
    hide Mask, Half, Xor;
    MaskLinear(a, b);
    HalfLinear(a, b);
    XorPairs(Half(a), Mask(a), Half(b), Mask(b));
  }

  lemma MaskLinear(a: bv32, b: bv32)
    ensures Mask(Xor(a, b)) == Xor(Mask(a), Mask(b))
  {
  }

  lemma HalfLinear(a: bv32, b: bv32)
    ensures Half(Xor(a, b)) == Xor(Half(a), Half(b))
  {
  }

  lemma {:induction false} StepsInjective(a: bv32, b: bv32, n: nat)
    ensures Steps(a, n) == Steps(b, n) <==> a == b
    decreases n
  {
    hide Step, Unstep;
    if n > 0 {
      StepsInjective(Step(a), Step(b), n - 1);
      StepBijective(a);
      StepBijective(b);
    }
  }

  lemma {:induction false} StepsLinear(a: bv32, b: bv32, n: nat)
    ensures Steps(Xor(a, b), n) == Xor(Steps(a, n), Steps(b, n))
    decreases n
  {
    hide Step, Xor;
    if n > 0 {
      StepLinear(a, b);
      StepsLinear(Step(a), Step(b), n - 1);
    }
  }

  lemma {:induction false} StepsSum(s: bv32, m: nat, n: nat)
    ensures Steps(Steps(s, m), n) == Steps(s, m + n)
    decreases m
  {
    hide Step;
    if m > 0 {
      StepsSum(Step(s), m - 1, n);
    }
  }

  // ---- messages -------------------------------------------------------------------------------

  /** Extending over a concatenation is extending twice. */
  lemma {:induction false} ExtendedConcat(s: bv32, a: seq<bv8>, b: seq<bv8>)
    ensures Extended(s, a + b) == Extended(Extended(s, a), b)
    decreases |a|
  {
    hide ByteStep;
    if a == [] {
      assert a + b == b;
    } else {
      ExtendedConcat(ByteStep(s, a[0]), a[1..], b);
      assert (a + b)[1..] == a[1..] + b;
    }
  }

  /** Equal bytes never make different states equal. */
  lemma {:induction false} ExtendedInjective(s: bv32, t: bv32, m: seq<bv8>)
    ensures Extended(s, m) == Extended(t, m) <==> s == t
    decreases |m|
  {
    hide ByteStep;
    if m != [] {
      ByteStepInjective(s, t, m[0]);
      ExtendedInjective(ByteStep(s, m[0]), ByteStep(t, m[0]), m[1..]);
    }
  }

  lemma ByteStepInjective(s: bv32, t: bv32, b: bv8)
    ensures ByteStep(s, b) == ByteStep(t, b) <==> s == t
  {
    hide Steps, Xor, Low;
    StepsInjective(Xor(s, Low(b)), Xor(t, Low(b)), 8);
    XorCancels(s, t, Low(b));
  }

  // ---- four bytes at a time -------------------------------------------------------------------

  function Up(r: bv32): bv32 { r << 8 }

  /** Nothing is lost when r is shifted up by a byte. */
  predicate Small(r: bv32) { r & 0xFF00_0000 == 0 }

  predicate Tiny(r: bv32) { r & 0xFFFF_0000 == 0 }

  /** A byte with more bytes above it. */
  function Cons(a: bv8, r: bv32): bv32 { Xor(Low(a), Up(r)) }

  lemma ConsInjective(a: bv8, r: bv32, b: bv8, t: bv32)
    requires Small(r) && Small(t)
    ensures Cons(a, r) == Cons(b, t) <==> a == b && r == t
  {
    UpInjective(r, t);
    hide Small;
    if Cons(a, r) == Cons(b, t) {
      LowPart(a, r);
      LowPart(b, t);
      hide Cons;
      LowInjective(a, b);
    }
  }

  lemma UpInjective(r: bv32, t: bv32)
    requires Small(r) && Small(t)
    ensures Up(r) == Up(t) <==> r == t
  {
  }

  lemma LowPart(a: bv8, r: bv32)
    ensures Cons(a, r) & 0xFF == Low(a) && Cons(a, r) & 0xFFFF_FF00 == Up(r)
  {
  }

  lemma LowInjective(a: bv8, b: bv8)
    ensures Low(a) == Low(b) <==> a == b
  {
  }

  lemma Sizes(a: bv8, b: bv8, c: bv8)
    ensures Tiny(Low(a)) && Small(Low(a)) && Tiny(Cons(b, Low(a))) && Small(Cons(b, Low(a)))
    ensures Small(Cons(c, Cons(b, Low(a))))
  {
  }

  /** Eight steps bring the bytes above the first down again. */
  lemma EightSteps(r: bv32)
    requires Small(r)
    ensures Steps(Up(r), 8) == r
  {
    hide Steps, Small, Up, Twice, TopClear;
    var r1 := Twice(r);
    var r2 := Twice(r1);
    var r3 := Twice(r2);
    var r4 := Twice(r3);
    var r5 := Twice(r4);
    var r6 := Twice(r5);
    var r7 := Twice(r6);
    EightTimes(r);
    HighBits(r);
    ShiftOut(r7, 7);
    ShiftOut(r6, 6);
    ShiftOut(r5, 5);
    ShiftOut(r4, 4);
    ShiftOut(r3, 3);
    ShiftOut(r2, 2);
    ShiftOut(r1, 1);
    ShiftOut(r, 0);
    NoSteps(r);
  }

  function Twice(s: bv32): bv32 { s << 1 }

  predicate TopClear(s: bv32) { s & 0x8000_0000 == 0 }

  lemma NoSteps(r: bv32)
    ensures Steps(r, 0) == r
  {
  }

  lemma EightTimes(r: bv32)
    ensures Up(r) == Twice(Twice(Twice(Twice(Twice(Twice(Twice(Twice(r))))))))
  {
  }

  lemma HighBits(r: bv32)
    requires Small(r)
    ensures TopClear(r) && TopClear(Twice(r)) && TopClear(Twice(Twice(r))) && TopClear(Twice(Twice(Twice(r))))
    ensures TopClear(Twice(Twice(Twice(Twice(r))))) && TopClear(Twice(Twice(Twice(Twice(Twice(r))))))
    ensures TopClear(Twice(Twice(Twice(Twice(Twice(Twice(r)))))))
    ensures TopClear(Twice(Twice(Twice(Twice(Twice(Twice(Twice(r))))))))
  {
  }

  lemma ShiftOut(x: bv32, n: nat)
    requires TopClear(x)
    ensures Steps(Twice(x), n + 1) == Steps(x, n)
  {
    ShiftBack(x);
    hide Mask, Half, Xor;
    LowBit(x << 1);
    XorNothing(x);
  }

  /** Bytes still to come can be xored in early, shifted up by the bits still to be stepped. */
  lemma FeedAhead(s: bv32, a: bv8, r: bv32, n: nat)
    requires Small(r)
    ensures Steps(Xor(s, Cons(a, r)), 8 + n) == Steps(Xor(ByteStep(s, a), r), n)
  {
    hide Steps, Xor, Up, Low, Small;
    var x, y := Xor(s, Low(a)), Up(r);
    XorGroups(s, Low(a), y);
    StepsSum(Xor(x, y), 8, n);
    StepsLinear(x, y, 8);
    EightSteps(r);
  }

  /** Four bytes as one little-endian word. */
  function Word(m: seq<bv8>): bv32
    requires |m| == 4
  {
    Cons(m[0], Cons(m[1], Cons(m[2], Low(m[3]))))
  }

  /** Feeding four bytes is thirty-two steps on the state xored with their word. */
  lemma FourBytes(s: bv32, m: seq<bv8>)
    requires |m| == 4
    ensures Extended(s, m) == Steps(Xor(s, Word(m)), 32)
  {
    hide Steps, Xor, Cons, Low, Small, Tiny, Extended;
    var a, b, c, d := m[0], m[1], m[2], m[3];
    Sizes(d, c, b);
    var w2 := Cons(c, Low(d));
    var w3 := Cons(b, w2);
    var s1 := ByteStep(s, a);
    var s2 := ByteStep(s1, b);
    var s3 := ByteStep(s2, c);
    FeedAhead(s, a, w3, 24);
    FeedAhead(s1, b, w2, 16);
    FeedAhead(s2, c, Low(d), 8);
    FourFolds(s, m);
  }

  lemma FourFolds(s: bv32, m: seq<bv8>)
    requires |m| == 4
    ensures Extended(s, m) == ByteStep(ByteStep(ByteStep(ByteStep(s, m[0]), m[1]), m[2]), m[3])
  {
    hide ByteStep;
    var m1, m2, m3 := m[1..], m[2..], m[3..];
    assert m1[1..] == m2 && m2[1..] == m3 && m3[1..] == [];
    var s1 := ByteStep(s, m[0]);
    var s2 := ByteStep(s1, m[1]);
    var s3 := ByteStep(s2, m[2]);
    assert Extended(s1, m1) == Extended(s2, m2);
    assert Extended(s3, m3) == ByteStep(s3, m[3]);
  }

  /** Different windows of four bytes lead to different states. */
  lemma WindowInjective(s: bv32, x: seq<bv8>, y: seq<bv8>)
    requires |x| == |y| == 4
    ensures Extended(s, x) == Extended(s, y) <==> x == y
  {
    hide Steps, Extended, Xor, Word;
    FourBytes(s, x);
    FourBytes(s, y);
    StepsInjective(Xor(s, Word(x)), Xor(s, Word(y)), 32);
    XorCancels(Word(x), Word(y), s);
    XorSwaps(s, Word(x));
    XorSwaps(s, Word(y));
    WordInjective(x, y);
  }

  lemma WordInjective(x: seq<bv8>, y: seq<bv8>)
    requires |x| == |y| == 4
    ensures Word(x) == Word(y) <==> x == y
  {
    hide Cons, Low, Small, Tiny;
    Sizes(x[3], x[2], x[1]);
    Sizes(y[3], y[2], y[1]);
    ConsInjective(x[0], Cons(x[1], Cons(x[2], Low(x[3]))), y[0], Cons(y[1], Cons(y[2], Low(y[3]))));
    ConsInjective(x[1], Cons(x[2], Low(x[3])), y[1], Cons(y[2], Low(y[3])));
    ConsInjective(x[2], Low(x[3]), y[2], Low(y[3]));
    LowInjective(x[3], y[3]);
    assert x == [x[0], x[1], x[2], x[3]] && y == [y[0], y[1], y[2], y[3]];
  }

  /**
   * Error detection: two messages of equal length that agree outside a window of at most four bytes have the same
   * checksum only if they are the same.
   */
  lemma WindowDetected(pre: seq<bv8>, x: seq<bv8>, y: seq<bv8>, post: seq<bv8>)
    requires |x| == |y| <= 4
    ensures Computed(pre + x + post) == Computed(pre + y + post) <==> x == y
  {
    hide Extended, Xor;
    var z: seq<bv8> := seq(4 - |x|, _ => 0);
    var s := Extended(INIT, pre);
    SplitThree(pre, x, post);
    SplitThree(pre, y, post);
    ExtendedInjective(Extended(s, x), Extended(s, y), post);
    ExtendedInjective(Extended(s, x), Extended(s, y), z);
    ExtendedConcat(s, x, z);
    ExtendedConcat(s, y, z);
    WindowInjective(s, x + z, y + z);
    assert x == (x + z)[..|x|] && y == (y + z)[..|x|];
    XorCancels(Extended(INIT, pre + x + post), Extended(INIT, pre + y + post), XOR_OUT);
  }

  lemma SplitThree(pre: seq<bv8>, x: seq<bv8>, post: seq<bv8>)
    ensures Extended(INIT, pre + x + post) == Extended(Extended(Extended(INIT, pre), x), post)
  {
    hide Extended;
    ExtendedConcat(INIT, pre + x, post);
    ExtendedConcat(INIT, pre, x);
  }

  // ---- the check value ------------------------------------------------------------------------

  /** The checksum of the nine digits, as published for this polynomial. */
  lemma CheckValue()
    ensures Computed([0x31, 0x32, 0x33, 0x34, 0x35, 0x36, 0x37, 0x38, 0x39]) == 0xE306_9283
  {
    hide ByteStep;
    var m: seq<bv8> := [0x31, 0x32, 0x33, 0x34, 0x35, 0x36, 0x37, 0x38, 0x39];
    ByteValue(0xFFFFFFFF, 0x31, 0x6F0A661C);
    ByteValue(0x6F0A661C, 0x32, 0x8CAA3B9F);
    ByteValue(0x8CAA3B9F, 0x33, 0xEF84D04D);
    ByteValue(0xEF84D04D, 0x34, 0x09C50B11);
    ByteValue(0x09C50B11, 0x35, 0xE72EDCCA);
    ByteValue(0xE72EDCCA, 0x36, 0xBECA8E79);
    ByteValue(0xBECA8E79, 0x37, 0xEDBD6815);
    ByteValue(0xEDBD6815, 0x38, 0x9F787F65);
    ByteValue(0x9F787F65, 0x39, 0x1CF96D7C);
    ExtendedNine(m, 0x6F0A661C, 0x8CAA3B9F, 0xEF84D04D, 0x09C50B11, 0xE72EDCCA, 0xBECA8E79, 0xEDBD6815, 0x9F787F65,
        0x1CF96D7C);
  }

  lemma ExtendedNine(m: seq<bv8>, s1: bv32, s2: bv32, s3: bv32, s4: bv32, s5: bv32, s6: bv32, s7: bv32, s8: bv32,
                     s9: bv32)
    requires |m| == 9
    requires ByteStep(INIT, m[0]) == s1 && ByteStep(s1, m[1]) == s2 && ByteStep(s2, m[2]) == s3
             && ByteStep(s3, m[3]) == s4
    requires ByteStep(s4, m[4]) == s5 && ByteStep(s5, m[5]) == s6 && ByteStep(s6, m[6]) == s7
             && ByteStep(s7, m[7]) == s8
    requires ByteStep(s8, m[8]) == s9
    ensures Extended(INIT, m) == s9
  {
    hide ByteStep, Extended;
    FourFolds(INIT, m[..4]);
    FourFolds(s4, m[4..8]);
    OneFold(s8, m[8]);
    ExtendedConcat(INIT, m[..4], m[4..8]);
    ExtendedConcat(INIT, m[..4] + m[4..8], [m[8]]);
    assert m == m[..4] + m[4..8] + [m[8]];
  }

  lemma OneFold(s: bv32, b: bv8)
    ensures Extended(s, [b]) == ByteStep(s, b)
  {
    assert [b][1..] == [];
  }

  lemma ByteValue(s: bv32, b: bv8, t: bv32)
    requires t == Step(Step(Step(Step(Step(Step(Step(Step(Xor(s, Low(b))))))))))
    ensures ByteStep(s, b) == t
  {
    hide Step, Xor, Low;
    var x := Xor(s, Low(b));
    assert Steps(x, 8) == Steps(Step(Step(x)), 6);
    assert Steps(Step(Step(x)), 6) == Steps(Step(Step(Step(Step(x)))), 4);
    assert Steps(Step(Step(Step(Step(x)))), 4) == Steps(Step(Step(Step(Step(Step(Step(x)))))), 2);
  }
}
