/**
 * Tuples as bytes: a fixed section with one field per column, a VARCHAR field holding only its length, and a tail
 * with the VARCHAR bytes. Writing and reading each walk the columns once with two cursors.
 */
module Tuples {
  import opened Bytes
  import opened Schemas
  import Numeric

  datatype Value = Int(v: int, width: nat) | Bool(b: bool) | Str(s: seq<Byte>)

  /**
   * The value is of the column's type and width, and the column's length is what the type takes in the fixed
   * section.
   */
  predicate Conforms(v: Value, c: Column) {
    match v
    case Int(_, w) => c.typeCode == NUMERIC && Numeric.IsWidth(w) && c.length == w
    case Bool(_) => c.typeCode == BOOLEAN && c.length == 1
    case Str(s) => c.typeCode == VARCHAR && c.length == 2 && |s| < TWO16
  }

  predicate AllConform(vals: seq<Value>, cols: seq<Column>) {
    |vals| == |cols| && forall i :: 0 <= i < |vals| ==> Conforms(vals[i], cols[i])
  }

  /** fixed_size_: where the tail starts. */
  function FixedSize(cols: seq<Column>): nat {
    if cols == [] then 0 else cols[0].length + FixedSize(cols[1..])
  }

  // ---- what is written ----------------------------------------------------------------------

  function FixedOf(v: Value): seq<Byte>
    requires v.Str? ==> |v.s| < TWO16
  {
    match v
    case Int(x, w) => Numeric.Serialize(x, w)
    case Bool(b) => [if b then 1 else 0]
    case Str(s) => Bytes16(|s|)
  }

  function TailOf(v: Value): seq<Byte> {
    if v.Str? then v.s else []
  }

  predicate ShortStrings(vals: seq<Value>) {
    forall i :: 0 <= i < |vals| && vals[i].Str? ==> |vals[i].s| < TWO16
  }

  function FixedBytes(vals: seq<Value>): seq<Byte>
    requires ShortStrings(vals)
  {
    if vals == [] then [] else FixedOf(vals[0]) + FixedBytes(vals[1..])
  }

  function TailBytes(vals: seq<Value>): seq<Byte> {
    if vals == [] then [] else TailOf(vals[0]) + TailBytes(vals[1..])
  }

  /** The two cursors line up: the fixed section ends exactly where the tail starts. */
  lemma {:induction false} CursorsMeet(vals: seq<Value>, cols: seq<Column>)
    requires AllConform(vals, cols)
    ensures ShortStrings(vals) && |FixedBytes(vals)| == FixedSize(cols)
  {
    if vals != [] {
      assert Conforms(vals[0], cols[0]);
      CursorsMeet(vals[1..], cols[1..]);
    }
  }

  /** The buffer after the values have been written at the two cursors. */
  function Image(d: seq<Byte>, f: nat, t: nat, vals: seq<Value>): (r: seq<Byte>)
    requires ShortStrings(vals) && f + |FixedBytes(vals)| <= t && t + |TailBytes(vals)| <= |d|
    ensures |r| == |d|
    decreases |vals|
  {
    if vals == [] then d
    else
      var x, y := FixedOf(vals[0]), TailOf(vals[0]);
      Image(Splice(Splice(d, f, x), t, y), f + |x|, t + |y|, vals[1..])
  }

  /** Tuple::Serialize. */
  method Serialize(vals: seq<Value>, cols: seq<Column>, buf: array<Byte>) returns (size: nat)
    requires AllConform(vals, cols) && ShortStrings(vals)
    requires FixedSize(cols) + |TailBytes(vals)| <= buf.Length && |FixedBytes(vals)| == FixedSize(cols)
    modifies buf
    ensures buf[..] == Image(old(buf[..]), 0, FixedSize(cols), vals)
    ensures size == (FixedSize(cols) + |TailBytes(vals)|) % TWO16
  {
    hide Splice, FixedOf, TailOf, Conforms, FixedSize;
    var fixed: nat, tail: nat := 0, FixedSize(cols);
    ghost var goal := Image(buf[..], fixed, tail, vals);
    assert vals[0..] == vals;
    var i := 0;
    while i < |vals|
      invariant i <= |vals| && ShortStrings(vals[i..])
      invariant fixed + |FixedBytes(vals[i..])| == FixedSize(cols) <= tail
      invariant tail + |TailBytes(vals[i..])| == FixedSize(cols) + |TailBytes(vals)|
      invariant Image(buf[..], fixed, tail, vals[i..]) == goal
    {
      assert vals[i..][0] == vals[i] && vals[i..][1..] == vals[i + 1..];
      fixed := WriteFixed(vals[i], cols[i], buf, fixed);
      tail := WriteTail(vals[i], buf, tail);
      i := i + 1;
    }
    assert vals[|vals|..] == [];
    size := tail % TWO16;
  }

  /** One field of the fixed section. */
  method WriteFixed(v: Value, c: Column, buf: array<Byte>, at: nat) returns (next: nat)
    requires Conforms(v, c) && (v.Str? ==> |v.s| < TWO16) && at + |FixedOf(v)| <= buf.Length
    modifies buf
    ensures buf[..] == Splice(old(buf[..]), at, FixedOf(v)) && next == at + |FixedOf(v)|
  {
    if c.typeCode == VARCHAR {
      next := Write(buf, at, Bytes16(|v.s|));
    } else if c.typeCode == NUMERIC {
      next := Write(buf, at, Numeric.Serialize(v.v, v.width));
    } else {
      next := Write(buf, at, [if v.b then 1 else 0]);
    }
  }

  method WriteTail(v: Value, buf: array<Byte>, at: nat) returns (next: nat)
    requires at + |TailOf(v)| <= buf.Length
    modifies buf
    ensures buf[..] == Splice(old(buf[..]), at, TailOf(v)) && next == at + |TailOf(v)|
  {
    if v.Str? {
      next := Write(buf, at, v.s);
    } else {
      next := at;
      assert Splice(buf[..], at, []) == buf[..];
    }
  }

  // ---- what is read -------------------------------------------------------------------------

  /** One column's value at the two cursors, and the cursors behind it; nothing if the bytes run out. */
  function ParseValue(c: Column, d: seq<Byte>, f: nat, t: nat): Option<(Value, nat, nat)> {
    if c.typeCode == VARCHAR then
      if f + 2 > |d| || t + U16(d, f) > |d| then None
      else Some((Str(d[t..t + U16(d, f)]), f + 2, t + U16(d, f)))
    else if c.typeCode == NUMERIC && Numeric.IsWidth(c.length) then
      if f + c.length > |d| then None
      else Some((Int(Numeric.Deserialize(d[f..f + c.length], c.length), c.length), f + c.length, t))
    else if c.typeCode == BOOLEAN && c.length == 1 then
      if f + 1 > |d| then None else Some((Bool(d[f] != 0), f + 1, t))
    else None
  }

  function ParseValues(cols: seq<Column>, d: seq<Byte>, f: nat, t: nat): Option<seq<Value>>
    decreases |cols|
  {
    if cols == [] then Some([])
    else
      match ParseValue(cols[0], d, f, t)
      case None => None
      case Some((v, f', t')) =>
        match ParseValues(cols[1..], d, f', t')
        case None => None
        case Some(rest) => Some([v] + rest)
  }

  function Prepend(vals: seq<Value>, r: Option<seq<Value>>): Option<seq<Value>> {
    match r
    case None => None
    case Some(rest) => Some(vals + rest)
  }

  lemma PrependOne(vals: seq<Value>, v: Value, r: Option<seq<Value>>)
    ensures Prepend(vals, Prepend([v], r)) == Prepend(vals + [v], r)
  {
    if r.Some? {
      assert vals + ([v] + r.value) == vals + [v] + r.value;
    }
  }

  lemma PrependNothing(r: Option<seq<Value>>)
    ensures Prepend([], r) == r
  {
    if r.Some? {
      assert [] + r.value == r.value;
    }
  }

  /** Tuple::Deserialize. */
  method Deserialize(cols: seq<Column>, d: seq<Byte>) returns (r: Option<seq<Value>>)
    ensures r == ParseValues(cols, d, 0, FixedSize(cols))
  {
    hide ParseValue, FixedSize;
    var fixed, tail, vals, i := 0, FixedSize(cols), [], 0;
    assert cols[0..] == cols;
    PrependNothing(ParseValues(cols, d, fixed, tail));
    while i < |cols|
      invariant i <= |cols|
      invariant Prepend(vals, ParseValues(cols[i..], d, fixed, tail)) == ParseValues(cols, d, 0, FixedSize(cols))
    {
      assert cols[i..][0] == cols[i] && cols[i..][1..] == cols[i + 1..];
      var p := ParseValue(cols[i], d, fixed, tail);
      if p == None {
        return None;
      }
      PrependOne(vals, p.value.0, ParseValues(cols[i + 1..], d, p.value.1, p.value.2));
      vals, fixed, tail := vals + [p.value.0], p.value.1, p.value.2;
      i := i + 1;
    }
    assert cols[|cols|..] == [];
    r := Some(vals);
    assert vals + [] == vals;
  }

  // ---- round trip ---------------------------------------------------------------------------

  /** What comes back for a value: a number loses what its width cannot hold. */
  function ReadBack(v: Value): Value {
    if v.Int? then Int(Numeric.Deserialize(Numeric.Serialize(v.v, v.width), v.width), v.width) else v
  }

  predicate Representable(v: Value) {
    v.Int? ==> Numeric.FitsWidth(v.v, v.width)
  }

  lemma ReadBackExact(v: Value, c: Column)
    requires Conforms(v, c)
    ensures ReadBack(v) == v <==> Representable(v)
  {
    if v.Int? {
      Numeric.RoundTrip(v.v, v.width, []);
      assert Numeric.Serialize(v.v, v.width) + [] == Numeric.Serialize(v.v, v.width);
    }
  }

  /** `s` stands in `d` at `at`. */
  predicate Stands(d: seq<Byte>, at: nat, s: seq<Byte>) {
    at + |s| <= |d| && d[at..at + |s|] == s
  }

  lemma StandsParts(d: seq<Byte>, at: nat, s: seq<Byte>, t: seq<Byte>)
    ensures Stands(d, at, s + t) <==> Stands(d, at, s) && Stands(d, at + |s|, t)
  {
    if at + |s| + |t| <= |d| {
      assert d[at..at + |s| + |t|] == d[at..at + |s|] + d[at + |s|..at + |s| + |t|];
      assert Stands(d, at, s + t) ==>
                (s + t)[..|s|] == d[at..at + |s|] && (s + t)[|s|..] == d[at + |s|..at + |s| + |t|];
    }
  }

  lemma ParseOne(v: Value, c: Column, d: seq<Byte>, f: nat, t: nat)
    requires Conforms(v, c) && Stands(d, f, FixedOf(v)) && Stands(d, t, TailOf(v))
    ensures ParseValue(c, d, f, t) == Some((ReadBack(v), f + |FixedOf(v)|, t + |TailOf(v)|))
  {
    if v.Str? {
      var b := Bytes16(|v.s|);
      assert d[f..f + 2] == b && d[f] == b[0] && d[f + 1] == b[1];
      assert U16(b, 0) == |v.s|;
    } else if v.Bool? {
      assert d[f..f + 1][0] == d[f];
    }
  }

  /** Reading where the values stand gives them back, numbers cut to their widths. */
  lemma {:induction false} ParseStanding(vals: seq<Value>, cols: seq<Column>, d: seq<Byte>, f: nat, t: nat)
    requires AllConform(vals, cols) && ShortStrings(vals)
    requires Stands(d, f, FixedBytes(vals)) && Stands(d, t, TailBytes(vals))
    ensures ParseValues(cols, d, f, t).Some? && |ParseValues(cols, d, f, t).value| == |vals|
    ensures forall i :: 0 <= i < |vals| ==> ParseValues(cols, d, f, t).value[i] == ReadBack(vals[i])
    decreases |vals|
  {
    hide Stands, ParseValue, FixedOf, TailOf, ReadBack;
    if vals != [] {
      StandsParts(d, f, FixedOf(vals[0]), FixedBytes(vals[1..]));
      StandsParts(d, t, TailOf(vals[0]), TailBytes(vals[1..]));
      ParseOne(vals[0], cols[0], d, f, t);
      ParseStanding(vals[1..], cols[1..], d, f + |FixedOf(vals[0])|, t + |TailOf(vals[0])|);
    }
  }

  lemma SpliceStands(d: seq<Byte>, at: nat, s: seq<Byte>)
    requires at + |s| <= |d|
    ensures Stands(Splice(d, at, s), at, s)
  {
  }

  /** Writing one piece leaves what stands clear of it. */
  lemma SpliceClear(d: seq<Byte>, at: nat, s: seq<Byte>, other: nat, t: seq<Byte>)
    requires at + |s| <= |d| && Stands(d, other, t) && (other + |t| <= at || at + |s| <= other)
    ensures Stands(Splice(d, at, s), other, t)
  {
    var e := Splice(d, at, s);
    assert e[other..other + |t|] == d[other..other + |t|];
  }

  /**
   * What stands before either cursor, or between the fixed section to come and the tail cursor, survives the
   * writing.
   */
  lemma {:induction false} ImageClear(d: seq<Byte>, f: nat, t: nat, vals: seq<Value>, at: nat, s: seq<Byte>)
    requires ShortStrings(vals) && f + |FixedBytes(vals)| <= t && t + |TailBytes(vals)| <= |d|
    requires Stands(d, at, s) && (at + |s| <= f || (f + |FixedBytes(vals)| <= at && at + |s| <= t))
    ensures Stands(Image(d, f, t, vals), at, s)
    decreases |vals|
  {
    hide Stands, Splice, FixedOf, TailOf;
    if vals != [] {
      var x, y := FixedOf(vals[0]), TailOf(vals[0]);
      SpliceClear(d, f, x, at, s);
      SpliceClear(Splice(d, f, x), t, y, at, s);
      ImageClear(Splice(Splice(d, f, x), t, y), f + |x|, t + |y|, vals[1..], at, s);
    }
  }

  lemma {:induction false} ImageStands(d: seq<Byte>, f: nat, t: nat, vals: seq<Value>)
    requires ShortStrings(vals) && f + |FixedBytes(vals)| <= t && t + |TailBytes(vals)| <= |d|
    ensures Stands(Image(d, f, t, vals), f, FixedBytes(vals)) && Stands(Image(d, f, t, vals), t, TailBytes(vals))
    decreases |vals|
  {
    hide Splice, FixedOf, TailOf, Stands;
    if vals == [] {
      NothingStands(d, f);
      NothingStands(d, t);
    } else {
      var x, y, rest := FixedOf(vals[0]), TailOf(vals[0]), vals[1..];
      var d2 := Splice(Splice(d, f, x), t, y);
      BothStand(d, f, x, t, y);
      ImageClear(d2, f + |x|, t + |y|, rest, f, x);
      ImageClear(d2, f + |x|, t + |y|, rest, t, y);
      ImageStands(d2, f + |x|, t + |y|, rest);
      var e := Image(d2, f + |x|, t + |y|, rest);
      hide Image, FixedBytes, TailBytes;
      StandsParts(e, f, x, FixedBytes(rest));
      StandsParts(e, t, y, TailBytes(rest));
      FirstAndRest(vals);
      ImageUnrolls(d, f, t, vals);
    }
  }

  lemma NothingStands(d: seq<Byte>, at: nat)
    requires at <= |d|
    ensures Stands(d, at, [])
  {
    assert d[at..at] == [];
  }

  lemma BothStand(d: seq<Byte>, f: nat, x: seq<Byte>, t: nat, y: seq<Byte>)
    requires f + |x| <= t && t + |y| <= |d|
    ensures Stands(Splice(Splice(d, f, x), t, y), f, x) && Stands(Splice(Splice(d, f, x), t, y), t, y)
  {
    hide Stands, Splice;
    SpliceStands(d, f, x);
    SpliceClear(Splice(d, f, x), t, y, f, x);
    SpliceStands(Splice(d, f, x), t, y);
  }

  lemma FirstAndRest(vals: seq<Value>)
    requires ShortStrings(vals) && vals != []
    ensures FixedBytes(vals) == FixedOf(vals[0]) + FixedBytes(vals[1..])
    ensures TailBytes(vals) == TailOf(vals[0]) + TailBytes(vals[1..])
  {
  }

  lemma ImageUnrolls(d: seq<Byte>, f: nat, t: nat, vals: seq<Value>)
    requires ShortStrings(vals) && f + |FixedBytes(vals)| <= t && t + |TailBytes(vals)| <= |d| && vals != []
    ensures var x, y := FixedOf(vals[0]), TailOf(vals[0]);
            && f + |x| + |FixedBytes(vals[1..])| <= t + |y| && t + |y| + |TailBytes(vals[1..])| <= |d|
            && Image(d, f, t, vals) == Image(Splice(Splice(d, f, x), t, y), f + |x|, t + |y|, vals[1..])
  {
  }

  // ---- where each value stands ----------------------------------------------------------------------

  lemma {:induction false} FixedSizeGrows(cols: seq<Column>, i: nat)
    requires i < |cols|
    ensures FixedSize(cols[..0]) == 0 && FixedSize(cols[..i + 1]) == FixedSize(cols[..i]) + cols[i].length
  {
    if i > 0 {
      FixedSizeGrows(cols[1..], i - 1);
      assert cols[..i][1..] == cols[1..][..i - 1] && cols[..i + 1][1..] == cols[1..][..i];
    } else {
      assert cols[..1][1..] == [] && cols[..0] == [];
    }
  }

  lemma {:induction false} TailGrows(vals: seq<Value>, i: nat)
    requires i < |vals|
    ensures |TailBytes(vals[..0])| == 0
    ensures |TailBytes(vals[..i + 1])| == |TailBytes(vals[..i])| + if vals[i].Str? then |vals[i].s| else 0
  {
    if i > 0 {
      TailGrows(vals[1..], i - 1);
      assert vals[..i][1..] == vals[1..][..i - 1] && vals[..i + 1][1..] == vals[1..][..i];
    } else {
      assert vals[..1][1..] == [] && vals[..0] == [];
    }
  }

  lemma {:induction false} FixedStands(vals: seq<Value>, cols: seq<Column>, d: seq<Byte>, f: nat, i: nat)
    requires AllConform(vals, cols) && ShortStrings(vals) && i < |vals| && Stands(d, f, FixedBytes(vals))
    ensures Stands(d, f + FixedSize(cols[..i]), FixedOf(vals[i]))
  {
    hide Stands, FixedOf, Conforms, FixedBytes, FixedSize, AllConform;
    ConformsAt(vals, cols, 0);
    FirstAndRest(vals);
    FirstWidth(vals[0], cols[0]);
    StandsParts(d, f, FixedOf(vals[0]), FixedBytes(vals[1..]));
    if i > 0 {
      TailConforms(vals, cols);
      FixedStands(vals[1..], cols[1..], d, f + cols[0].length, i - 1);
      PartBefore(vals, cols, i);
    } else {
      NoneBefore(cols);
    }
  }

  lemma NoneBefore(cols: seq<Column>)
    ensures FixedSize(cols[..0]) == 0
  {
  }

  lemma {:induction false} TailStands(vals: seq<Value>, d: seq<Byte>, t: nat, i: nat)
    requires ShortStrings(vals) && i < |vals| && Stands(d, t, TailBytes(vals))
    ensures Stands(d, t + |TailBytes(vals[..i])|, TailOf(vals[i]))
  {
    FirstAndRest(vals);
    hide Stands, TailOf;
    StandsParts(d, t, TailOf(vals[0]), TailBytes(vals[1..]));
    if i > 0 {
      TailStands(vals[1..], d, t + |TailOf(vals[0])|, i - 1);
      assert vals[..i][1..] == vals[1..][..i - 1];
    } else {
      assert vals[..0] == [];
    }
  }

  lemma TailConforms(vals: seq<Value>, cols: seq<Column>)
    requires AllConform(vals, cols) && ShortStrings(vals) && vals != []
    ensures |vals| == |cols| && AllConform(vals[1..], cols[1..]) && ShortStrings(vals[1..])
  {
    hide Conforms;
  }

  lemma FirstWidth(v: Value, c: Column)
    requires Conforms(v, c)
    ensures |FixedOf(v)| == c.length
  {
  }

  lemma PartBefore(vals: seq<Value>, cols: seq<Column>, i: nat)
    requires |vals| == |cols| && 0 < i < |vals|
    ensures FixedSize(cols[..i]) == cols[0].length + FixedSize(cols[1..][..i - 1]) && vals[1..][i - 1] == vals[i]
  {
    assert cols[..i][1..] == cols[1..][..i - 1];
  }

  /**
   * The format: value i's field stands behind the fields before it, a number as its low bytes, a truth value as 1 or 0,
   * a string as its 16-bit length; the strings' own bytes stand one behind the other from the end of the fields on.
   */
  lemma FieldStands(vals: seq<Value>, cols: seq<Column>, buf: seq<Byte>, f: nat, t: nat, i: nat)
    requires AllConform(vals, cols) && FixedSize(cols) + |TailBytes(vals)| <= |buf| && i < |vals|
    requires f == FixedSize(cols[..i]) && t == FixedSize(cols) + |TailBytes(vals[..i])|
    ensures ShortStrings(vals) && |FixedBytes(vals)| == FixedSize(cols)
    ensures var d := Image(buf, 0, FixedSize(cols), vals);
            match vals[i]
            case Int(v, w) => cols[i].typeCode == 2 && f + w <= |d| && d[f..f + w] == Numeric.Serialize(v, w)
            case Bool(b) => cols[i].typeCode == 1 && f < |d| && d[f] == if b then 1 else 0
            case Str(s) => && cols[i].typeCode == 4 && f + 2 <= |d| && d[f] == |s| % 256 && d[f + 1] == |s| / 256
                           && t + |s| <= |d| && d[t..t + |s|] == s
  {
    CursorsMeet(vals, cols);
    ImageStands(buf, 0, FixedSize(cols), vals);
    ValueReads(vals, cols, Image(buf, 0, FixedSize(cols), vals), f, t, i);
    hide *;
  }

  lemma ValueReads(vals: seq<Value>, cols: seq<Column>, d: seq<Byte>, f: nat, t: nat, i: nat)
    requires AllConform(vals, cols) && ShortStrings(vals) && i < |vals|
    requires Stands(d, 0, FixedBytes(vals)) && Stands(d, FixedSize(cols), TailBytes(vals))
    requires f == FixedSize(cols[..i]) && t == FixedSize(cols) + |TailBytes(vals[..i])|
    ensures match vals[i]
            case Int(v, w) => cols[i].typeCode == 2 && f + w <= |d| && d[f..f + w] == Numeric.Serialize(v, w)
            case Bool(b) => cols[i].typeCode == 1 && f < |d| && d[f] == if b then 1 else 0
            case Str(s) => && cols[i].typeCode == 4 && f + 2 <= |d| && d[f] == |s| % 256 && d[f + 1] == |s| / 256
                           && t + |s| <= |d| && d[t..t + |s|] == s
  {
    hide *;
    ConformsAt(vals, cols, i);
    FixedStands(vals, cols, d, 0, i);
    TailStands(vals, d, FixedSize(cols), i);
    ShortAt(vals, i);
    OneReads(vals[i], cols[i], d, f, t);
  }

  /** The two cursors: both sums start at 0 and take in one value at a time. */
  lemma CursorsAdvance(vals: seq<Value>, cols: seq<Column>, i: nat)
    requires AllConform(vals, cols) && i < |vals|
    ensures |cols| == |vals| && FixedSize(cols[..0]) == 0 && |TailBytes(vals[..0])| == 0
    ensures FixedSize(cols[..i + 1]) == FixedSize(cols[..i]) + cols[i].length
    ensures |TailBytes(vals[..i + 1])| == |TailBytes(vals[..i])| + if vals[i].Str? then |vals[i].s| else 0
  {
    ConformsAt(vals, cols, i);
    hide *;
    FixedSizeGrows(cols, i);
    TailGrows(vals, i);
  }

  lemma ShortAt(vals: seq<Value>, i: nat)
    requires ShortStrings(vals) && i < |vals|
    ensures vals[i].Str? ==> |vals[i].s| < TWO16
  {
  }

  lemma ConformsAt(vals: seq<Value>, cols: seq<Column>, i: nat)
    requires AllConform(vals, cols) && i < |vals|
    ensures |cols| == |vals| && Conforms(vals[i], cols[i])
  {
    hide Conforms;
  }

  lemma OneReads(v: Value, c: Column, d: seq<Byte>, f: nat, t: nat)
    requires Conforms(v, c) && (v.Str? ==> |v.s| < TWO16)
    requires Stands(d, f, FixedOf(v)) && Stands(d, t, TailOf(v))
    ensures match v
            case Int(x, w) => c.typeCode == 2 && f + w <= |d| && d[f..f + w] == Numeric.Serialize(x, w)
            case Bool(b) => c.typeCode == 1 && f < |d| && d[f] == if b then 1 else 0
            case Str(s) => && c.typeCode == 4 && f + 2 <= |d| && d[f] == |s| % 256 && d[f + 1] == |s| / 256
                           && t + |s| <= |d| && d[t..t + |s|] == s
  {
    match v
    case Int(_, _) =>
    case Bool(_) => assert d[f..f + 1][0] == d[f];
    case Str(s) => assert d[f..f + 2][0] == d[f] && d[f..f + 2][1] == d[f + 1];
  }

  /**
   * A conforming tuple written into any buffer that holds it is read back if and only if its numbers fit their
   * widths.
   */
  lemma TupleRoundTrip(vals: seq<Value>, cols: seq<Column>, buf: seq<Byte>)
    requires AllConform(vals, cols) && FixedSize(cols) + |TailBytes(vals)| <= |buf|
    ensures ShortStrings(vals) && |FixedBytes(vals)| == FixedSize(cols)
    ensures ParseValues(cols, Image(buf, 0, FixedSize(cols), vals), 0, FixedSize(cols)) == Some(vals)
            <==> forall i :: 0 <= i < |vals| ==> Representable(vals[i])
  {
    CursorsMeet(vals, cols);
    var d := Image(buf, 0, FixedSize(cols), vals);
    ImageStands(buf, 0, FixedSize(cols), vals);
    ParseStanding(vals, cols, d, 0, FixedSize(cols));
    forall i | 0 <= i < |vals|
      ensures ReadBack(vals[i]) == vals[i] <==> Representable(vals[i])
    {
      ReadBackExact(vals[i], cols[i]);
    }
    hide Image, ParseValues, Stands, ReadBack, Representable;
    SameWhereEqual(ParseValues(cols, d, 0, FixedSize(cols)).value, vals);
  }

  lemma SameWhereEqual(a: seq<Value>, b: seq<Value>)
    requires |a| == |b|
    ensures a == b <==> forall i :: 0 <= i < |b| ==> a[i] == b[i]
  {
  }
}
