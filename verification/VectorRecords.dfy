/** The records of the vector data file of `internal/storage/vector_storage.go`:
    an id and as many 32-bit words as a vector has components.  Floats are taken
    as the words of their bit patterns. */
module VectorRecords {
  import opened Bits
  import opened Bytes

  type Id = i: int | -0x8000_0000_0000_0000 <= i < 0x8000_0000_0000_0000

  type Word = w: int | 0 <= w < TWO_32

  type Vector = seq<Word>

  datatype Row = Row(id: Id, vec: Vector)

  /** `binary.LittleEndian.PutUint64(buf, uint64(id))` */
  function PutId(id: Id): (s: seq<byte>)
    ensures |s| == 8
  {
    var u := if id < 0 then id + 0x1_0000_0000_0000_0000 else id;
    PutU32(u % TWO_32) + PutU32(u / TWO_32)
  }

  /** `int64(binary.LittleEndian.Uint64(buf))` */
  function GetId(s: seq<byte>): Id
    requires |s| >= 8
  {
    var u := GetU32(s) + TWO_32 * GetU32(s[4..]);
    if u >= 0x8000_0000_0000_0000 then u - 0x1_0000_0000_0000_0000 else u
  }

  lemma IdRoundTrip(id: Id, rest: seq<byte>)
    ensures GetId(PutId(id) + rest) == id
  {
    hide PutU32, GetU32;
    var u := if id < 0 then id + 0x1_0000_0000_0000_0000 else id;
    U32RoundTrip(u % TWO_32, PutU32(u / TWO_32) + rest);
    assert PutId(id) + rest == PutU32(u % TWO_32) + (PutU32(u / TWO_32) + rest);
    U32RoundTrip(u / TWO_32, rest);
    assert (PutId(id) + rest)[4..] == PutU32(u / TWO_32) + rest;
  }

  lemma IdBytes(s: seq<byte>)
    requires |s| >= 8
    ensures PutId(GetId(s)) == s[..8]
  {
    hide PutU32, GetU32;
    U32Bytes(s);
    U32Bytes(s[4..]);
    assert s[..8] == s[..4] + s[4..][..4];
  }

  /** `float32ArrayToBytes` and `bytesToFloat32Array`. */
  function VectorBytes(vec: Vector): (s: seq<byte>)
    ensures |s| == 4 * |vec|
  {
    if vec == [] then [] else PutU32(vec[0]) + VectorBytes(vec[1..])
  }

  function BytesVector(s: seq<byte>): (vec: Vector)
    requires |s| % 4 == 0
    ensures |vec| == |s| / 4
  {
    if s == [] then [] else [GetU32(s)] + BytesVector(s[4..])
  }

  lemma {:induction false} VectorRoundTrip(vec: Vector)
    ensures BytesVector(VectorBytes(vec)) == vec
  {
    hide PutU32, GetU32;
    if vec != [] {
      U32RoundTrip(vec[0], VectorBytes(vec[1..]));
      VectorRoundTrip(vec[1..]);
    }
  }

  lemma {:induction false} BytesRoundTrip(s: seq<byte>)
    requires |s| % 4 == 0
    ensures VectorBytes(BytesVector(s)) == s
  {
    hide PutU32, GetU32;
    if s != [] {
      U32Bytes(s);
      BytesRoundTrip(s[4..]);
      assert s == s[..4] + s[4..];
    }
  }

  function RowBytes(row: Row): (s: seq<byte>)
    ensures |s| == 8 + 4 * |row.vec|
  {
    PutId(row.id) + VectorBytes(row.vec)
  }

  /** A file of whole rows. */
  function FileBytes(rows: seq<Row>): seq<byte> {
    if rows == [] then [] else FileBytes(rows[..|rows| - 1]) + RowBytes(rows[|rows| - 1])
  }

  ghost predicate AllOf(rows: seq<Row>, dim: nat) {
    forall i :: 0 <= i < |rows| ==> |rows[i].vec| == dim
  }

  function RowSize(dim: nat): nat {
    8 + 4 * dim
  }

  /** Where the `n`-th row starts. */
  function Offset(n: nat, dim: nat): nat {
    n * RowSize(dim)
  }

  lemma OffsetStep(n: nat, dim: nat)
    ensures Offset(0, dim) == 0 && Offset(n + 1, dim) == Offset(n, dim) + RowSize(dim)
  {
    Distribute(n, 1, RowSize(dim));
  }

  lemma FileLast(rows: seq<Row>, row: Row)
    ensures FileBytes(rows + [row]) == FileBytes(rows) + RowBytes(row)
  {
    assert (rows + [row])[..|rows|] == rows;
  }

  lemma {:induction false} FileSize(rows: seq<Row>, dim: nat)
    requires AllOf(rows, dim)
    ensures |FileBytes(rows)| == Offset(|rows|, dim)
  {
    hide Offset, RowBytes;
    OffsetStep(0, dim);
    if rows != [] {
      FileSize(rows[..|rows| - 1], dim);
      OffsetStep(|rows| - 1, dim);
    }
  }

  /** The bytes at the offset of a row are that row. */
  lemma {:induction false} RowInFile(rows: seq<Row>, dim: nat, i: nat)
    requires AllOf(rows, dim) && i < |rows|
    ensures Offset(i, dim) + RowSize(dim) <= |FileBytes(rows)|
    ensures FileBytes(rows)[Offset(i, dim)..Offset(i, dim) + RowSize(dim)] == RowBytes(rows[i])
  {
    hide Offset, RowBytes;
    var front, last := rows[..|rows| - 1], rows[|rows| - 1];
    FileSize(front, dim);
    if i < |front| {
      RowInFile(front, dim, i);
    }
  }

  // ----- the last row of each id -----

  /** The offset of the last row of each id, for rows that start at `base`. */
  function Offsets(rows: seq<Row>, dim: nat, base: nat): map<Id, nat> {
    if rows == [] then map[]
    else Offsets(rows[..|rows| - 1], dim, base)[rows[|rows| - 1].id := base + Offset(|rows| - 1, dim)]
  }

  /** The vector of the last row of each id. */
  function Latest(rows: seq<Row>): map<Id, Vector> {
    if rows == [] then map[] else Latest(rows[..|rows| - 1])[rows[|rows| - 1].id := rows[|rows| - 1].vec]
  }

  lemma LastRow(rows: seq<Row>, row: Row, dim: nat, base: nat)
    ensures Offsets(rows + [row], dim, base) == Offsets(rows, dim, base)[row.id := base + Offset(|rows|, dim)]
    ensures Latest(rows + [row]) == Latest(rows)[row.id := row.vec]
  {
    assert (rows + [row])[..|rows|] == rows;
  }

  lemma {:induction false} LatestConcat(a: seq<Row>, b: seq<Row>)
    ensures Latest(a + b) == Latest(a) + Latest(b)
    decreases |b|
  {
    if b == [] {
      assert a + b == a;
    } else {
      var front, last := b[..|b| - 1], b[|b| - 1];
      LatestConcat(a, front);
      assert (a + b)[..|a + b| - 1] == a + front && (a + b)[|a + b| - 1] == last;
    }
  }

  lemma {:induction false} SameIds(rows: seq<Row>, dim: nat, base: nat)
    ensures Offsets(rows, dim, base).Keys == Latest(rows).Keys
  {
    if rows != [] {
      SameIds(rows[..|rows| - 1], dim, base);
    }
  }

  /** At the last offset of an id there is a row of that id with its latest
      vector, and no later row has that id. */
  lemma {:induction false} OffsetIsLast(rows: seq<Row>, dim: nat, base: nat, id: Id) returns (i: nat)
    requires id in Offsets(rows, dim, base)
    ensures i < |rows| && Offsets(rows, dim, base)[id] == base + Offset(i, dim)
    ensures rows[i].id == id && id in Latest(rows) && Latest(rows)[id] == rows[i].vec
    ensures forall j :: i < j < |rows| ==> rows[j].id != id
  {
    hide Offset;
    var front, last := rows[..|rows| - 1], rows[|rows| - 1];
    if last.id == id {
      i := |front|;
    } else {
      i := OffsetIsLast(front, dim, base, id);
    }
  }

  /** The vector of the row at an offset. */
  function VectorAt(file: seq<byte>, at: nat, dim: nat): (vec: Vector)
    requires at + RowSize(dim) <= |file|
    ensures |vec| == dim
  {
    BytesVector(file[at..at + RowSize(dim)][8..])
  }

  /** Reading the row at the last offset of an id gives its latest vector, bit for
      bit, whatever lies before and behind the rows. */
  lemma ReadLatest(before: seq<byte>, rows: seq<Row>, after: seq<byte>, dim: nat, id: Id, at: nat)
    requires AllOf(rows, dim) && id in Offsets(rows, dim, |before|)
    requires at == Offsets(rows, dim, |before|)[id]
    ensures at + RowSize(dim) <= |before + FileBytes(rows) + after|
    ensures id in Latest(rows) && VectorAt(before + FileBytes(rows) + after, at, dim) == Latest(rows)[id]
  {
    hide Offset, FileBytes, Latest, Offsets, PutId;
    var i := OffsetIsLast(rows, dim, |before|, id);
    RowInFile(rows, dim, i);
    SliceBehind(before, FileBytes(rows), after, Offset(i, dim), Offset(i, dim) + RowSize(dim));
    assert RowBytes(rows[i])[8..] == VectorBytes(rows[i].vec);
    VectorRoundTrip(rows[i].vec);
  }

  lemma SliceBehind(before: seq<byte>, s: seq<byte>, after: seq<byte>, lo: nat, hi: nat)
    requires lo <= hi <= |s|
    ensures (before + s + after)[|before| + lo..|before| + hi] == s[lo..hi]
  {
  }

  // ----- the rows of a file -----

  lemma {:induction false} FileConcat(a: seq<Row>, b: seq<Row>)
    ensures FileBytes(a + b) == FileBytes(a) + FileBytes(b)
    decreases |b|
  {
    hide RowBytes;
    if b == [] {
      assert a + b == a;
    } else {
      var front, last := b[..|b| - 1], b[|b| - 1];
      FileConcat(a, front);
      assert (a + b)[..|a + b| - 1] == a + front && (a + b)[|a + b| - 1] == last;
    }
  }

  lemma {:induction false} OffsetsConcat(a: seq<Row>, b: seq<Row>, dim: nat, base: nat)
    ensures Offsets(a + b, dim, base) == Offsets(a, dim, base) + Offsets(b, dim, base + Offset(|a|, dim))
    decreases |b|
  {
    hide Offset, Offsets, Latest;
    var base' := base + Offset(|a|, dim);
    if b == [] {
      assert a + b == a;
      NoOffsets(dim, base', Offsets(a, dim, base));
    } else {
      var front, last := b[..|b| - 1], b[|b| - 1];
      OffsetsConcat(a, front, dim, base);
      ConcatLast(a, b);
      LastRow(a + front, last, dim, base);
      LastRow(front, last, dim, base');
      OffsetSum(|a|, |front|, dim);
      UnionInsert(Offsets(a, dim, base), Offsets(front, dim, base'), last.id, base + Offset(|a + front|, dim));
    }
  }

  lemma NoOffsets(dim: nat, base: nat, m: map<Id, nat>)
    ensures Offsets([], dim, base) == map[] && m + map[] == m
  {
  }

  lemma ConcatLast<T>(a: seq<T>, b: seq<T>)
    requires b != []
    ensures var front, last := b[..|b| - 1], b[|b| - 1]; a + b == a + front + [last] && b == front + [last]
  {
  }

  lemma UnionInsert(a: map<Id, nat>, b: map<Id, nat>, id: Id, at: nat)
    ensures a + b[id := at] == (a + b)[id := at]
  {
  }

  lemma OffsetSum(m: nat, n: nat, dim: nat)
    ensures Offset(m, dim) + Offset(n, dim) == Offset(m + n, dim)
  {
    Distribute(m, n, RowSize(dim));
  }

  lemma OffsetsApart(m: nat, n: nat, extra: nat, dim: nat)
    requires 0 < extra < RowSize(dim)
    ensures Offset(m, dim) != Offset(n, dim) + extra
  {
    var x := Offset(m, dim);
    DivModUnique(x, RowSize(dim), m, 0);
    if x == Offset(n, dim) + extra {
      DivModUnique(x, RowSize(dim), n, extra);
    }
  }

  /** Any bytes of the size of a row are a row. */
  lemma BytesAreRow(s: seq<byte>, dim: nat)
    requires |s| == RowSize(dim)
    ensures RowBytes(Row(GetId(s), BytesVector(s[8..]))) == s
  {
    hide PutId, GetId;
    IdBytes(s);
    BytesRoundTrip(s[8..]);
    assert s == s[..8] + s[8..];
  }

  lemma SameRow(a: Row, b: Row)
    requires RowBytes(a) == RowBytes(b)
    ensures a == b
  {
    hide PutId, GetId;
    IdRoundTrip(a.id, VectorBytes(a.vec));
    IdRoundTrip(b.id, VectorBytes(b.vec));
    VectorRoundTrip(a.vec);
    VectorRoundTrip(b.vec);
    assert VectorBytes(a.vec) == RowBytes(a)[8..] == VectorBytes(b.vec);
  }

  /** A file determines its whole rows and its short tail. */
  lemma WholeRowsUnique(a: seq<Row>, s: seq<byte>, b: seq<Row>, t: seq<byte>, dim: nat)
    requires AllOf(a, dim) && AllOf(b, dim) && |s| < RowSize(dim) && |t| < RowSize(dim)
    requires FileBytes(a) + s == FileBytes(b) + t
    ensures a == b && s == t
  {
    hide FileBytes, RowBytes;
    FileSize(a, dim);
    FileSize(b, dim);
    DivModUnique(Offset(|a|, dim) + |s|, RowSize(dim), |a|, |s|);
    DivModUnique(Offset(|b|, dim) + |t|, RowSize(dim), |b|, |t|);
    assert FileBytes(a) == (FileBytes(a) + s)[..Offset(|a|, dim)] == FileBytes(b);
    hide Offset;
    forall i | 0 <= i < |a|
      ensures a[i] == b[i]
    {
      RowInFile(a, dim, i);
      RowInFile(b, dim, i);
      SameRow(a[i], b[i]);
    }
    assert s == (FileBytes(a) + s)[|FileBytes(a)|..];
  }
}
