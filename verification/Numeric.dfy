/** The NUMERIC type: 64-bit integers stored little-endian in 1, 2, 4 or 8 bytes, sign-extended when read. */
module Numeric {
  import opened Bytes

  predicate IsWidth(w: nat) { w == 1 || w == 2 || w == 4 || w == 8 }

  /** The two's-complement range of w bytes. */
  predicate FitsWidth(v: int, w: nat) {
    0 <= 2 * v + Pow256(w) < 2 * Pow256(w)
  }

  /** Truncates to the width, as copying the low w bytes of the integer does. */
  function Serialize(v: int, w: nat): (s: seq<Byte>)
    ensures |s| == w
  {
    LE(v % Pow256(w), w)
  }

  /** Reads w bytes and sign-extends. */
  function Deserialize(s: seq<Byte>, w: nat): int
    requires w <= |s|
  {
    var x := FromLE(s[..w]);
    if 2 * x >= Pow256(w) then x - Pow256(w) else x
  }

  /** Reading back what was written gives the value if and only if it fits the width. */
  lemma RoundTrip(v: int, w: nat, rest: seq<Byte>)
    requires w > 0
    ensures Deserialize(Serialize(v, w) + rest, w) == v <==> FitsWidth(v, w)
  {
    var m := Pow256(w);
    var u: nat := v % m;
    assert (Serialize(v, w) + rest)[..w] == LE(u, w);
    DecodeEncode(u, w);
    DivModUnique(u, m, 0, u);
    if FitsWidth(v, w) {
      if v >= 0 {
        DivModUnique(v, m, 0, v);
      } else {
        DivModUnique(v, m, -1, v + m);
      }
    }
  }

  /** The bytes determine the value, and the value the bytes: a key read twice is the same key. */
  lemma BytesRoundTrip(s: seq<Byte>)
    requires s != []
    ensures FitsWidth(Deserialize(s, |s|), |s|)
    ensures Serialize(Deserialize(s, |s|), |s|) == s
  {
    var w, m := |s|, Pow256(|s|);
    assert s[..w] == s;
    var x := FromLE(s);
    EncodeDecode(s);
    DivModUnique(x, m, 0, x);
    if 2 * x >= m {
      DivModUnique((x as int) - m, m, -1, x);
    }
  }

  // ---- the format itself --------------------------------------------------------------------------

  /** The ranges of the four widths. */
  lemma Ranges(v: int)
    ensures FitsWidth(v, 1) <==> -0x80 <= v < 0x80
    ensures FitsWidth(v, 2) <==> -0x8000 <= v < 0x8000
    ensures FitsWidth(v, 4) <==> -0x8000_0000 <= v < 0x8000_0000
    ensures FitsWidth(v, 8) <==> -0x8000_0000_0000_0000 <= v < 0x8000_0000_0000_0000
  {
    Powers();
  }

  lemma Powers()
    ensures Pow256(1) == 0x100 && Pow256(2) == 0x1_0000 && Pow256(4) == 0x1_0000_0000
    ensures Pow256(8) == 0x1_0000_0000_0000_0000
  {
    assert Pow256(1) == 256 * Pow256(0);
    assert Pow256(2) == 256 * Pow256(1);
    assert Pow256(3) == 256 * Pow256(2);
    assert Pow256(4) == 256 * Pow256(3);
    assert Pow256(5) == 256 * Pow256(4);
    assert Pow256(6) == 256 * Pow256(5);
    assert Pow256(7) == 256 * Pow256(6);
  }

  /** Low byte first, each byte the rest of the value modulo 256: two's complement, little-endian. */
  lemma SerializeIs(v: int, w: nat)
    requires w > 0
    ensures Serialize(v, w)[0] == v % 256 && Serialize(v, w)[1..] == Serialize(v / 256, w - 1)
  {
    var m := Pow256(w - 1);
    var q, r := v / 256, v % 256;
    var a, b := q / m, q % m;
    assert v == 256 * q + r && q == m * a + b;
    assert v == (256 * b + r) + 256 * m * a;
    DivModUnique(v, 256 * m, a, 256 * b + r);
    var u: nat := v % Pow256(w);
    assert u == 256 * b + r && u / 256 == b && u % 256 == r;
  }

  /** The top byte carries the sign; every byte below it adds its digit. */
  lemma DeserializeIs(s: seq<Byte>, w: nat)
    requires 0 < w <= |s|
    ensures w == 1 ==> Deserialize(s, w) == if s[0] < 128 then s[0] as int else (s[0] as int) - 256
    ensures w > 1 ==> Deserialize(s, w) == (s[0] as int) + 256 * Deserialize(s[1..], w - 1)
  {
    assert s[..w][1..] == s[1..][..w - 1];
    if w == 1 {
      Powers();
      assert FromLE(s[..1]) == s[0] + 256 * FromLE(s[..1][1..]);
    } else {
      var m := Pow256(w - 2);
      assert Pow256(w - 1) == 256 * m && Pow256(w) == 256 * (256 * m);
    }
  }
}
