/** Bytes, byte splices and little-endian integers, shared by every on-disk format. */
module Bytes {

  type Byte = x: int | 0 <= x < 256

  datatype Option<+T> = None | Some(value: T)

  predicate NoDup(ids: seq<nat>) {
    forall i, j :: 0 <= i < j < |ids| ==> ids[i] != ids[j]
  }

  /** `d` with the bytes from `off` on replaced by `s`; what memcpy and memmove do to a buffer. */
  function Splice<T>(d: seq<T>, off: nat, s: seq<T>): (r: seq<T>)
    requires off + |s| <= |d|
    ensures |r| == |d|
    ensures forall k :: 0 <= k < |d| ==> r[k] == if off <= k < off + |s| then s[k - off] else d[k]
  {
    d[..off] + s + d[off + |s|..]
  }

  /** Little-endian encoding of x in n bytes, truncating what does not fit. */
  function LE(x: nat, n: nat): (s: seq<Byte>)
    ensures |s| == n
  {
    if n == 0 then [] else [x % 256] + LE(x / 256, n - 1)
  }

  function FromLE(s: seq<Byte>): nat {
    if s == [] then 0 else s[0] + 256 * FromLE(s[1..])
  }

  function Pow256(n: nat): (p: nat)
    ensures p > 0
  {
    if n == 0 then 1 else 256 * Pow256(n - 1)
  }

  lemma DivModStep(x: nat, p: nat)
    requires p > 0
    ensures 256 * p > 0
    ensures x % (256 * p) == x % 256 + 256 * ((x / 256) % p)
  {
    var q, r := x / 256, x % 256;
    var q', r' := q / p, q % p;
    assert x == 256 * q + r && q == q' * p + r';
    var y := r + 256 * r';
    assert x == y + (256 * p) * q' by {
      assert 256 * (q' * p) == (256 * p) * q';
    }
    assert 0 <= r' <= p - 1;
    assert 0 <= y < 256 * p;
    DivModUnique(x, 256 * p, q', y);
  }

  lemma DivModUnique(x: int, m: nat, q: int, y: nat)
    requires m > 0 && x == y + m * q && y < m
    ensures x % m == y && x / m == q
  {
    var d := x / m - q;
    assert x == m * (x / m) + x % m;
    assert m * d == y - x % m by {
      assert m * (x / m) - m * q == m * d;
    }
    assert m * d < m && m * d + m > 0;
    assert d >= 1 ==> m * d >= m;
    assert d <= -1 ==> m * d + m <= 0;
  }

  lemma {:induction false} DecodeEncode(x: nat, n: nat)
    ensures FromLE(LE(x, n)) == x % Pow256(n)
  {
    if n > 0 {
      DecodeEncode(x / 256, n - 1);
      DivModStep(x, Pow256(n - 1));
      assert LE(x, n)[1..] == LE(x / 256, n - 1);
    }
  }

  lemma {:induction false} EncodeDecode(s: seq<Byte>)
    ensures FromLE(s) < Pow256(|s|)
    ensures LE(FromLE(s), |s|) == s
  {
    if s != [] {
      EncodeDecode(s[1..]);
      assert FromLE(s) % 256 == s[0] && FromLE(s) / 256 == FromLE(s[1..]);
    }
  }

  const TWO16: nat := 0x1_0000
  const TWO32: nat := 0x1_0000_0000

  /** The 16- and 32-bit fields that pages keep at fixed offsets. */
  function U16(d: seq<Byte>, off: nat): (x: nat)
    requires off + 2 <= |d|
    ensures x < TWO16
  {
    (d[off] as int) + 256 * d[off + 1] as int
  }

  function U32(d: seq<Byte>, off: nat): (x: nat)
    requires off + 4 <= |d|
    ensures x < TWO32
  {
    (d[off] as int) + 256 * (d[off + 1] as int) + 0x1_0000 * (d[off + 2] as int) + 0x100_0000 * d[off + 3] as int
  }

  function Bytes16(x: nat): (s: seq<Byte>)
    requires x < TWO16
    ensures |s| == 2 && U16(s, 0) == x
  {
    [x % 256, x / 256]
  }

  function Bytes32(x: nat): (s: seq<Byte>)
    requires x < TWO32
    ensures |s| == 4 && U32(s, 0) == x
  {
    Bytes16(x % TWO16) + Bytes16(x / TWO16)
  }

  /** Fields stand low byte first, and reading one gives the number whose bytes stand there. */
  lemma LowByteFirst(d: seq<Byte>, off: nat, x: nat)
    requires off + 4 <= |d| && x < TWO32
    ensures Bytes32(x) == [x % 256, x / 0x100 % 256, x / 0x1_0000 % 256, x / 0x100_0000]
    ensures x < TWO16 ==> Bytes16(x) == [x % 256, x / 256]
    ensures Bytes32(U32(d, off)) == d[off..off + 4] && Bytes16(U16(d, off)) == d[off..off + 2]
  {
    Parts(x);
    var a: Byte, b: Byte, c: Byte, e: Byte := d[off], d[off + 1], d[off + 2], d[off + 3];
    Whole(a as int, b as int, c as int, e as int);
  }

  lemma Parts(x: nat)
    requires x < TWO32
    ensures x % TWO16 % 256 == x % 256 && x % TWO16 / 256 == x / 256 % 256
    ensures x / TWO16 % 256 == x / 0x1_0000 % 256 && x / TWO16 / 256 == x / 0x100_0000
  {
  }

  lemma Whole(a: int, b: int, c: int, e: int)
    requires 0 <= a < 256 && 0 <= b < 256 && 0 <= c < 256 && 0 <= e < 256
    ensures var x := a + 256 * b + 0x1_0000 * c + 0x100_0000 * e;
            x % TWO16 % 256 == a && x % TWO16 / 256 == b && x / TWO16 % 256 == c && x / TWO16 / 256 == e
    ensures (a + 256 * b) % 256 == a && (a + 256 * b) / 256 == b
  {
    var x := a + 256 * b + 0x1_0000 * c + 0x100_0000 * e;
    assert x == TWO16 * (c + 256 * e) + (a + 256 * b);
    assert x / TWO16 == c + 256 * e && x % TWO16 == a + 256 * b;
  }

  /** Reading a field back after a splice: the field just written, or one it does not touch. */
  lemma SpliceU32(d: seq<Byte>, off: nat, x: nat, at: nat)
    requires off + 4 <= |d| && at + 4 <= |d| && x < TWO32
    requires at == off || at + 4 <= off || off + 4 <= at
    ensures U32(Splice(d, off, Bytes32(x)), at) == if at == off then x else U32(d, at)
  {
    var r := Splice(d, off, Bytes32(x));
    if at == off {
      var b := Bytes32(x);
      assert r[at] == b[0] && r[at + 1] == b[1] && r[at + 2] == b[2] && r[at + 3] == b[3];
      assert U32(b, 0) == x;
    }
  }
}
