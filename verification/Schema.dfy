/** Columns and schemas as bytes, written through a moving cursor into a caller's buffer. */
module Schemas {
  import opened Bytes

  const BOOLEAN: Byte := 1
  const NUMERIC: Byte := 2
  const VARCHAR: Byte := 4

  /** The longest name whose column size still fits the 16 bits it is reported in. */
  const MAX_NAME: nat := 65524

  /** The type is kept as the byte it is stored as; length and offset are 32-bit. */
  datatype Column = Column(name: seq<Byte>, typeCode: Byte, length: nat, offset: nat)

  predicate Fits(c: Column) {
    c.length < TWO32 && c.offset < TWO32
  }

  predicate AllFit(cols: seq<Column>) {
    forall i :: 0 <= i < |cols| ==> Fits(cols[i])
  }

  // ---- one column -----------------------------------------------------------------------------

  /** What Serialize writes: a 16-bit name length, that many name bytes, the type, length and offset. */
  function ColumnBytes(c: Column): (s: seq<Byte>)
    requires Fits(c)
    ensures |s| == |c.name| % TWO16 + 11
  {
    Bytes16(|c.name| % TWO16) + c.name[..|c.name| % TWO16] + [c.typeCode] + Bytes32(c.length) + Bytes32(c.offset)
  }

  /** How many bytes it says it wrote. */
  function Reported(c: Column): nat {
    (|c.name| % TWO16 + 11) % TWO16
  }

  method Write(buf: array<Byte>, at: nat, s: seq<Byte>) returns (next: nat)
    requires at + |s| <= buf.Length
    modifies buf
    ensures buf[..] == Splice(old(buf[..]), at, s) && next == at + |s|
  {
    forall k | 0 <= k < |s| {
      buf[at + k] := s[k];
    }
    next := at + |s|;
  }

  lemma SpliceTwo(d: seq<Byte>, at: nat, s: seq<Byte>, t: seq<Byte>)
    requires at + |s| + |t| <= |d|
    ensures Splice(Splice(d, at, s), at + |s|, t) == Splice(d, at, s + t)
  {
  }

  method SerializeColumn(c: Column, buf: array<Byte>, at: nat) returns (size: nat)
    requires Fits(c) && at + |c.name| % TWO16 + 11 <= buf.Length
    modifies buf
    ensures buf[..] == Splice(old(buf[..]), at, ColumnBytes(c)) && size == Reported(c)
  {
    hide Splice, Bytes16, Bytes32;
    var nameLen := |c.name| % TWO16;
    ghost var d := buf[..];
    var cursor := Write(buf, at, Bytes16(nameLen));
    cursor := Write(buf, cursor, c.name[..nameLen]);
    SpliceTwo(d, at, Bytes16(nameLen), c.name[..nameLen]);
    ghost var s := Bytes16(nameLen) + c.name[..nameLen];
    cursor := Write(buf, cursor, [c.typeCode]);
    SpliceTwo(d, at, s, [c.typeCode]);
    s := s + [c.typeCode];
    cursor := Write(buf, cursor, Bytes32(c.length));
    SpliceTwo(d, at, s, Bytes32(c.length));
    s := s + Bytes32(c.length);
    cursor := Write(buf, cursor, Bytes32(c.offset));
    SpliceTwo(d, at, s, Bytes32(c.offset));
    size := (cursor - at) % TWO16;
  }

  /** The column at a position and where it ends; nothing if that is past the end of the bytes. */
  function ParseColumn(d: seq<Byte>, at: nat): Option<(Column, nat)> {
    if at + 2 > |d| then None
    else
      var nameLen := U16(d, at);
      var t := at + 2 + nameLen;
      if t + 9 > |d| then None
      else Some((Column(d[at + 2..t], d[t], U32(d, t + 1), U32(d, t + 5)), t + 9))
  }

  lemma U16At(pre: seq<Byte>, x: nat, post: seq<Byte>)
    requires x < TWO16
    ensures U16(pre + Bytes16(x) + post, |pre|) == x
  {
    var d, b := pre + Bytes16(x) + post, Bytes16(x);
    assert d[|pre|] == b[0] && d[|pre| + 1] == b[1] && U16(b, 0) == x;
  }

  lemma U32At(pre: seq<Byte>, x: nat, post: seq<Byte>)
    requires x < TWO32
    ensures U32(pre + Bytes32(x) + post, |pre|) == x
  {
    var d, b := pre + Bytes32(x) + post, Bytes32(x);
    assert d[|pre|] == b[0] && d[|pre| + 1] == b[1] && d[|pre| + 2] == b[2] && d[|pre| + 3] == b[3] && U32(b, 0) == x;
  }

  /** A column is read back, wherever it stands, if its name's length fits 16 bits. */
  lemma ColumnRoundTrip(pre: seq<Byte>, c: Column, post: seq<Byte>)
    requires Fits(c) && |c.name| < TWO16
    ensures ParseColumn(pre + ColumnBytes(c) + post, |pre|) == Some((c, |pre| + |c.name| + 11))
  {
    hide Bytes16, Bytes32, U16, U32;
    var d := pre + ColumnBytes(c) + post;
    var n, l, o := Bytes16(|c.name|), Bytes32(c.length), Bytes32(c.offset);
    assert c.name[..|c.name|] == c.name && |c.name| % TWO16 == |c.name|;
    var t := |pre| + 2 + |c.name|;
    assert d == pre + n + (c.name + [c.typeCode] + l + o + post);
    U16At(pre, |c.name|, c.name + [c.typeCode] + l + o + post);
    assert d == (pre + n + c.name + [c.typeCode]) + l + (o + post);
    U32At(pre + n + c.name + [c.typeCode], c.length, o + post);
    assert d == (pre + n + c.name + [c.typeCode] + l) + o + post;
    U32At(pre + n + c.name + [c.typeCode] + l, c.offset, post);
    assert d[|pre| + 2..t] == c.name && d[t] == c.typeCode;
  }

  // ---- schemas --------------------------------------------------------------------------------

  /** The buffer is long enough for what the cursor will come by. */
  predicate Room(cols: seq<Column>, at: nat, n: nat)
    requires AllFit(cols)
  {
    at <= n && (cols == [] || (at + |ColumnBytes(cols[0])| <= n && Room(cols[1..], at + Reported(cols[0]), n)))
  }

  /** The buffer after the columns have been written, and where the cursor ends. */
  function Image(d: seq<Byte>, at: nat, cols: seq<Column>): (r: (seq<Byte>, nat))
    requires AllFit(cols) && Room(cols, at, |d|)
    ensures |r.0| == |d|
    decreases |cols|
  {
    if cols == [] then (d, at)
    else Image(Splice(d, at, ColumnBytes(cols[0])), at + Reported(cols[0]), cols[1..])
  }

  /** SerializeSchema: the column count, then the columns, the cursor moving by what each column reports. */
  method SerializeSchema(cols: seq<Column>, buf: array<Byte>) returns (size: nat)
    requires AllFit(cols) && |cols| < TWO32 && 4 <= buf.Length && Room(cols, 4, buf.Length)
    modifies buf
    ensures (buf[..], size) == Image(Splice(old(buf[..]), 0, Bytes32(|cols|)), 4, cols)
  {
    hide Splice, ColumnBytes, Bytes32, Reported, Fits;
    ghost var d := buf[..];
    var cursor := Write(buf, 0, Bytes32(|cols|));
    ghost var goal := Image(buf[..], 4, cols);
    assert cols[0..] == cols;
    var i := 0;
    while i < |cols|
      invariant i <= |cols| && AllFit(cols[i..]) && Room(cols[i..], cursor, buf.Length)
      invariant Image(buf[..], cursor, cols[i..]) == goal
    {
      assert cols[i..][0] == cols[i] && cols[i..][1..] == cols[i + 1..];
      var size' := SerializeColumn(cols[i], buf, cursor);
      cursor := cursor + size';
      i := i + 1;
    }
    assert cols[|cols|..] == [];
    size := cursor;
  }

  function ParseColumns(d: seq<Byte>, at: nat, count: nat): Option<(seq<Column>, nat)>
    decreases count
  {
    if count == 0 then Some(([], at))
    else
      match ParseColumn(d, at)
      case None => None
      case Some((c, next)) =>
        match ParseColumns(d, next, count - 1)
        case None => None
        case Some((rest, end)) => Some(([c] + rest, end))
  }

  function ParseSchema(d: seq<Byte>): Option<(seq<Column>, nat)> {
    if |d| < 4 then None else ParseColumns(d, 4, U32(d, 0))
  }

  /** Schema::Deserialize: reads the count, then column after column. */
  method DeserializeSchema(d: seq<Byte>) returns (r: Option<(seq<Column>, nat)>)
    ensures r == ParseSchema(d)
  {
    if |d| < 4 {
      return None;
    }
    var count := U32(d, 0);
    var cursor, cols, i := 4, [], 0;
    assert ParseSchema(d) == Prepend([], ParseColumns(d, 4, count)) by {
      PrependNothing(ParseColumns(d, 4, count));
    }
    while i < count
      invariant i <= count && Prepend(cols, ParseColumns(d, cursor, count - i)) == ParseSchema(d)
    {
      var c := ParseColumn(d, cursor);
      if c == None {
        return None;
      }
      PrependOne(cols, c.value.0, ParseColumns(d, c.value.1, count - i - 1));
      cols, cursor := cols + [c.value.0], c.value.1;
      i := i + 1;
    }
    r := Some((cols, cursor));
    assert cols + [] == cols;
  }

  function Prepend(cols: seq<Column>, r: Option<(seq<Column>, nat)>): Option<(seq<Column>, nat)> {
    match r
    case None => None
    case Some((rest, end)) => Some((cols + rest, end))
  }

  lemma PrependNothing(r: Option<(seq<Column>, nat)>)
    ensures Prepend([], r) == r
  {
    if r.Some? {
      assert [] + r.value.0 == r.value.0;
    }
  }

  lemma PrependOne(cols: seq<Column>, c: Column, r: Option<(seq<Column>, nat)>)
    ensures Prepend(cols, Prepend([c], r)) == Prepend(cols + [c], r)
  {
    if r.Some? {
      assert cols + ([c] + r.value.0) == cols + [c] + r.value.0;
    }
  }

  // ---- round trip -----------------------------------------------------------------------------

  function SchemaBytes(cols: seq<Column>): seq<Byte>
    requires AllFit(cols)
  {
    if cols == [] then [] else ColumnBytes(cols[0]) + SchemaBytes(cols[1..])
  }

  /** The bytes a reader passes over: every name at its full length. */
  function Extent(cols: seq<Column>): nat {
    if cols == [] then 0 else |cols[0].name| + 11 + Extent(cols[1..])
  }

  /** The bytes the writer says it wrote. */
  function Claimed(cols: seq<Column>): nat {
    if cols == [] then 0 else Reported(cols[0]) + Claimed(cols[1..])
  }

  predicate ShortNames(cols: seq<Column>) {
    forall i :: 0 <= i < |cols| ==> |cols[i].name| <= MAX_NAME
  }

  lemma {:induction false} ImageEnd(d: seq<Byte>, at: nat, cols: seq<Column>)
    requires AllFit(cols) && Room(cols, at, |d|)
    ensures Image(d, at, cols).1 == at + Claimed(cols)
    decreases |cols|
  {
    hide Splice, ColumnBytes, Reported;
    if cols != [] {
      ImageEnd(Splice(d, at, ColumnBytes(cols[0])), at + Reported(cols[0]), cols[1..]);
    }
  }

  /** With short names the columns are written one behind the other. */
  lemma {:induction false} ImageIsSplice(d: seq<Byte>, at: nat, cols: seq<Column>)
    requires AllFit(cols) && Room(cols, at, |d|) && ShortNames(cols)
    ensures at + |SchemaBytes(cols)| <= |d| && Image(d, at, cols).0 == Splice(d, at, SchemaBytes(cols))
    decreases |cols|
  {
    if cols == [] {
      assert Splice(d, at, []) == d;
    } else {
      var s := ColumnBytes(cols[0]);
      assert |s| == Reported(cols[0]);
      hide ColumnBytes;
      ImageIsSplice(Splice(d, at, s), at + |s|, cols[1..]);
      SpliceTwo(d, at, s, SchemaBytes(cols[1..]));
    }
  }

  lemma {:induction false} ParseWritten(pre: seq<Byte>, cols: seq<Column>, post: seq<Byte>)
    requires AllFit(cols) && ShortNames(cols)
    ensures ParseColumns(pre + SchemaBytes(cols) + post, |pre|, |cols|) == Some((cols, |pre| + Extent(cols)))
    decreases |cols|
  {
    hide ParseColumn;
    if cols != [] {
      var s, rest := ColumnBytes(cols[0]), SchemaBytes(cols[1..]);
      assert |s| == |cols[0].name| + 11;
      hide ColumnBytes;
      ColumnRoundTrip(pre, cols[0], rest + post);
      ParseWritten(pre + s, cols[1..], post);
      Regrouped(pre, s, rest, post);
      assert [cols[0]] + cols[1..] == cols;
    } else {
      assert SchemaBytes(cols) == [];
    }
  }

  lemma Regrouped(a: seq<Byte>, b: seq<Byte>, c: seq<Byte>, d: seq<Byte>)
    ensures a + (b + c) + d == a + b + (c + d) && a + (b + c) + d == (a + b) + c + d
  {
  }

  /**
   * Whatever columns are read, the reader passes over exactly their extent, and no name is longer than 16 bits
   * count.
   */
  lemma {:induction false} ParseExtent(d: seq<Byte>, at: nat, count: nat)
    ensures ParseColumns(d, at, count).Some? ==>
              var (cols, end) := ParseColumns(d, at, count).value;
              && end == at + Extent(cols) && |cols| == count
              && forall i :: 0 <= i < |cols| ==> |cols[i].name| < TWO16
    decreases count
  {
    if count > 0 && ParseColumn(d, at).Some? {
      var (c, next) := ParseColumn(d, at).value;
      assert |c.name| < TWO16 && next == at + |c.name| + 11;
      hide ParseColumn;
      ParseExtent(d, next, count - 1);
      if ParseColumns(d, next, count - 1).Some? {
        var (rest, end) := ParseColumns(d, next, count - 1).value;
        assert ([c] + rest)[1..] == rest;
      }
    }
  }

  /** Writer and reader agree on the size only if no name is too long. */
  lemma {:induction false} ClaimedIsExtent(cols: seq<Column>)
    requires forall i :: 0 <= i < |cols| ==> |cols[i].name| < TWO16
    ensures Claimed(cols) <= Extent(cols)
    ensures Claimed(cols) == Extent(cols) <==> ShortNames(cols)
  {
    if cols != [] {
      ClaimedIsExtent(cols[1..]);
      assert ShortNames(cols) <==> |cols[0].name| <= MAX_NAME && ShortNames(cols[1..]) by {
        assert forall i :: 0 < i < |cols| ==> cols[i] == cols[1..][i - 1];
      }
    }
  }

  /** A column in bytes: name length in two bytes, name, type, length and offset in four bytes each. */
  lemma ColumnLayout(c: Column)
    requires c.length < TWO32 && c.offset < TWO32
    ensures var s, n := ColumnBytes(c), |c.name| % 0x1_0000;
            && |s| == n + 11 && s[0] == n % 256 && s[1] == n / 256 && s[2..2 + n] == c.name[..n]
            && s[2 + n] == c.typeCode && s[3 + n..7 + n] == Bytes32(c.length) && s[7 + n..] == Bytes32(c.offset)
  {
    LowByteFirst([0, 0, 0, 0], 0, |c.name| % TWO16);
    hide Bytes32, U32, U16, Bytes16;
  }

  lemma {:induction false} OneColumn(cols: seq<Column>, i: nat)
    requires AllFit(cols) && ShortNames(cols) && i < |cols|
    ensures Extent(cols[..0]) == 0 && Extent(cols[..i + 1]) == Extent(cols[..i]) + |cols[i].name| + 11
    ensures Extent(cols[..i + 1]) <= |SchemaBytes(cols)|
    ensures SchemaBytes(cols)[Extent(cols[..i])..Extent(cols[..i + 1])] == ColumnBytes(cols[i])
  {
    var s, rest := ColumnBytes(cols[0]), SchemaBytes(cols[1..]);
    assert |s| == |cols[0].name| + 11;
    assert cols[..0] == [];
    hide ColumnBytes;
    if i > 0 {
      OneColumn(cols[1..], i - 1);
      assert cols[..i][1..] == cols[1..][..i - 1] && cols[..i + 1][1..] == cols[1..][..i];
      var a, b := Extent(cols[1..][..i - 1]), Extent(cols[1..][..i]);
      Behind(s, rest, a, b);
    } else {
      assert cols[..1][1..] == [];
      assert (s + rest)[0..|s|] == s;
    }
  }

  lemma Behind(s: seq<Byte>, t: seq<Byte>, a: nat, b: nat)
    requires a <= b <= |t|
    ensures (s + t)[|s| + a..|s| + b] == t[a..b]
  {
  }

  /** A schema in bytes: the number of columns in four bytes, then one column behind the other. */
  lemma ColumnStands(cols: seq<Column>, buf: seq<Byte>, i: nat)
    requires AllFit(cols) && |cols| < TWO32 && 4 <= |buf| && Room(cols, 4, |buf|) && ShortNames(cols) && i < |cols|
    ensures Extent(cols[..0]) == 0 && Extent(cols[..i + 1]) == Extent(cols[..i]) + |cols[i].name| + 11
    ensures var d := Image(Splice(buf, 0, Bytes32(|cols|)), 4, cols).0;
            && d[..4] == Bytes32(|cols|) && 4 + Extent(cols[..i + 1]) <= |d|
            && d[4 + Extent(cols[..i])..4 + Extent(cols[..i + 1])] == ColumnBytes(cols[i])
  {
    hide Image, SchemaBytes, Extent, ColumnBytes, Bytes32, AllFit, ShortNames, Room;
    var d0 := Splice(buf, 0, Bytes32(|cols|));
    OneColumn(cols, i);
    ImageIsSplice(d0, 4, cols);
    var a, b := Extent(cols[..i]), Extent(cols[..i + 1]);
    SplicedPart(d0, 4, SchemaBytes(cols), a, b);
  }

  lemma SplicedPart(d: seq<Byte>, at: nat, s: seq<Byte>, a: nat, b: nat)
    requires at + |s| <= |d| && a <= b <= |s|
    ensures Splice(d, at, s)[at + a..at + b] == s[a..b] && Splice(d, at, s)[..at] == d[..at]
  {
  }

  /**
   * A schema written into a buffer is read back, with as many bytes consumed as written, if and only if its names
   * are short.
   */
  lemma SchemaRoundTrip(cols: seq<Column>, buf: seq<Byte>)
    requires AllFit(cols) && |cols| < TWO32 && 4 <= |buf| && Room(cols, 4, |buf|)
    ensures var (d, size) := Image(Splice(buf, 0, Bytes32(|cols|)), 4, cols);
            ParseSchema(d) == Some((cols, size)) <==> ShortNames(cols)
  {
    hide Splice, SchemaBytes, ParseSchema, ParseColumns, Image, Bytes32, U32, AllFit, Room, ShortNames;
    var d0 := Splice(buf, 0, Bytes32(|cols|));
    ImageEnd(d0, 4, cols);
    if ShortNames(cols) {
      WrittenShort(cols, buf, d0, Image(d0, 4, cols).0, Image(d0, 4, cols).1);
    }
    ReadShort(Image(d0, 4, cols).0, cols, Image(d0, 4, cols).1);
  }

  lemma WrittenShort(cols: seq<Column>, buf: seq<Byte>, d0: seq<Byte>, d: seq<Byte>, size: nat)
    requires AllFit(cols) && |cols| < TWO32 && 4 <= |buf| && Room(cols, 4, |buf|) && ShortNames(cols)
    requires d0 == Splice(buf, 0, Bytes32(|cols|)) && (d, size) == Image(d0, 4, cols)
    ensures ParseSchema(d) == Some((cols, size))
  {
    hide Splice, SchemaBytes, ParseSchema, Image, Bytes32, U32, AllFit, Room, ShortNames;
    ShortImage(cols, d0, d, size);
    SchemaInBuffer(buf, cols, d);
  }

  lemma ShortImage(cols: seq<Column>, d0: seq<Byte>, d: seq<Byte>, size: nat)
    requires AllFit(cols) && Room(cols, 4, |d0|) && ShortNames(cols) && (d, size) == Image(d0, 4, cols)
    ensures 4 + |SchemaBytes(cols)| <= |d0| && d == Splice(d0, 4, SchemaBytes(cols)) && size == 4 + Extent(cols)
  {
    hide Splice, SchemaBytes, Image, AllFit, Room, ShortNames;
    ShortClaims(cols);
    ImageEnd(d0, 4, cols);
    ImageIsSplice(d0, 4, cols);
  }

  lemma ShortClaims(cols: seq<Column>)
    requires ShortNames(cols)
    ensures Claimed(cols) == Extent(cols)
  {
    ClaimedIsExtent(cols);
  }

  lemma ReadShort(d: seq<Byte>, cols: seq<Column>, size: nat)
    requires size == 4 + Claimed(cols)
    ensures ParseSchema(d) == Some((cols, size)) ==> ShortNames(cols)
  {
    hide ParseSchema, ShortNames;
    if ParseSchema(d) == Some((cols, size)) {
      ParsedExtent(d, cols, size);
      ClaimedIsExtent(cols);
    }
  }

  lemma ParsedExtent(d: seq<Byte>, cols: seq<Column>, size: nat)
    requires ParseSchema(d) == Some((cols, size))
    ensures size == 4 + Extent(cols) && forall i :: 0 <= i < |cols| ==> |cols[i].name| < TWO16
  {
    hide U32, ParseColumns;
    ParseExtent(d, 4, U32(d, 0));
  }

  lemma SchemaInBuffer(buf: seq<Byte>, cols: seq<Column>, d: seq<Byte>)
    requires AllFit(cols) && ShortNames(cols) && |cols| < TWO32 && 4 + |SchemaBytes(cols)| <= |buf|
    requires d == Splice(Splice(buf, 0, Bytes32(|cols|)), 4, SchemaBytes(cols))
    ensures |d| >= 4 && ParseSchema(d) == Some((cols, 4 + Extent(cols)))
  {
    hide SchemaBytes, Bytes32, U32, ParseColumns;
    SpliceTwo(buf, 0, Bytes32(|cols|), SchemaBytes(cols));
    var all := Bytes32(|cols|) + SchemaBytes(cols);
    var post := buf[|all|..];
    assert d == all + post;
    assert d == [] + Bytes32(|cols|) + (SchemaBytes(cols) + post);
    U32At([], |cols|, SchemaBytes(cols) + post);
    ParseWritten(Bytes32(|cols|), cols, post);
  }
}
