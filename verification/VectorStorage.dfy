/** `internal/storage/vector_storage.go`: vectors wait for the index to be trained,
    then go into the index at once and into an append-only file in batches. */
module VectorStorage {
  import opened Bits
  import opened Bytes
  import opened OrderedKeyValue
  import opened VectorLog
  import opened VectorRecords
  import opened VectorShelf
  import opened Wrappers
  import I = VectorIndex
  import W = Wal

  // ----- the file and the offset table -----

  /** The offset of the last row of each id in a file that had the rows `whole`
      and a torn `tail` when it was opened and had `added` appended since. */
  function AllOffsets(whole: seq<Row>, tail: seq<byte>, added: seq<Row>, dim: nat): map<Id, nat> {
    Offsets(whole, dim, 0) + Offsets(added, dim, |FileBytes(whole) + tail|)
  }

  ghost predicate Image(file: seq<byte>, offsets: map<Id, nat>, whole: seq<Row>, tail: seq<byte>, added: seq<Row>,
                        dim: nat)
  {
    && AllOf(whole, dim) && AllOf(added, dim)
    && file == FileBytes(whole) + tail + FileBytes(added)
    && forall id :: id in offsets ==>
         id in AllOffsets(whole, tail, added, dim) && offsets[id] == AllOffsets(whole, tail, added, dim)[id]
  }

  /** What the offset table leads to: the latest vector of each id in it. */
  function Readable(offsets: map<Id, nat>, rows: seq<Row>): Vectors {
    map id | id in offsets && id in Latest(rows) :: Latest(rows)[id]
  }

  lemma ImageAppend(file: seq<byte>, offsets: map<Id, nat>, whole: seq<Row>, tail: seq<byte>, added: seq<Row>,
                    dim: nat, row: Row)
    requires Image(file, offsets, whole, tail, added, dim) && |row.vec| == dim
    ensures Image(file + RowBytes(row), offsets[row.id := |file|], whole, tail, added + [row], dim)
    ensures AllOffsets(whole, tail, added + [row], dim) == AllOffsets(whole, tail, added, dim)[row.id := |file|]
  {
    hide FileBytes, RowBytes, Offsets, Offset;
    FileLast(added, row);
    FileSize(added, dim);
    LastRow(added, row, dim, |FileBytes(whole) + tail|);
  }

  lemma ReadableAppend(offsets: map<Id, nat>, rows: seq<Row>, row: Row, pos: nat)
    ensures Readable(offsets[row.id := pos], rows + [row]) == Readable(offsets, rows)[row.id := row.vec]
  {
    hide Offsets, Latest;
    LastRow(rows, row, 0, 0);
  }

  lemma ImageForget(file: seq<byte>, offsets: map<Id, nat>, whole: seq<Row>, tail: seq<byte>, added: seq<Row>,
                    dim: nat, id: Id)
    requires Image(file, offsets, whole, tail, added, dim)
    ensures Image(file, offsets - {id}, whole, tail, added, dim)
    ensures Readable(offsets - {id}, whole + added) == Readable(offsets, whole + added) - {id}
  {
    hide FileBytes, AllOffsets, Latest;
  }

  /** Every offset in the table leads to the latest vector of its id. */
  lemma ImageRead(file: seq<byte>, offsets: map<Id, nat>, whole: seq<Row>, tail: seq<byte>, added: seq<Row>,
                  dim: nat, id: Id)
    requires Image(file, offsets, whole, tail, added, dim) && id in offsets
    ensures offsets[id] + RowSize(dim) <= |file|
    ensures id in Readable(offsets, whole + added)
    ensures VectorAt(file, offsets[id], dim) == Readable(offsets, whole + added)[id]
  {
    hide FileBytes, Offsets, Latest, VectorAt;
    LatestConcat(whole, added);
    var base := FileBytes(whole) + tail;
    SameIds(added, dim, |base|);
    if id in Offsets(added, dim, |base|) {
      ReadLatest(base, added, [], dim, id, offsets[id]);
      assert base + FileBytes(added) + [] == file;
    } else {
      ReadLatest([], whole, tail + FileBytes(added), dim, id, offsets[id]);
      assert [] + FileBytes(whole) + (tail + FileBytes(added)) == file;
    }
  }

  /** The whole rows a file starts with, and what is left of a torn one. */
  function WholeRows(file: seq<byte>, dim: nat): seq<Row> {
    if |file| < RowSize(dim) then []
    else [RowOf(file[..RowSize(dim)], dim)] + WholeRows(file[RowSize(dim)..], dim)
  }

  function RowOf(s: seq<byte>, dim: nat): (row: Row)
    requires |s| == RowSize(dim)
    ensures |row.vec| == dim
  {
    Row(GetId(s), BytesVector(s[8..]))
  }

  function TornRow(file: seq<byte>, dim: nat): seq<byte> {
    if |file| < RowSize(dim) then file else TornRow(file[RowSize(dim)..], dim)
  }

  lemma NextRow(rows: seq<Row>, file: seq<byte>, dim: nat)
    requires |file| >= RowSize(dim)
    ensures var row := RowOf(file[..RowSize(dim)], dim);
            && rows + WholeRows(file, dim) == rows + [row] + WholeRows(file[RowSize(dim)..], dim)
            && RowBytes(row) == file[..RowSize(dim)]
    ensures TornRow(file, dim) == TornRow(file[RowSize(dim)..], dim)
  {
    hide GetId, BytesVector, RowBytes;
    BytesAreRow(file[..RowSize(dim)], dim);
  }

  lemma NoRowLeft(file: seq<byte>, dim: nat)
    requires |file| < RowSize(dim)
    ensures WholeRows(file, dim) == [] && TornRow(file, dim) == file
  {
  }

  /** `rebuildOffsetsFromDataFile` on any file: the last offset of each id among the
      whole rows; a torn row at the end is ignored. */
  method RebuildOffsets(file: seq<byte>, dim: nat) returns (offsets: map<Id, nat>)
    ensures offsets == Offsets(WholeRows(file, dim), dim, 0)
    ensures AllOf(WholeRows(file, dim), dim) && |TornRow(file, dim)| < RowSize(dim)
    ensures file == FileBytes(WholeRows(file, dim)) + TornRow(file, dim)
  {
    hide Offset, RowBytes, GetId, BytesVector, WholeRows, TornRow;
    offsets := map[];
    var at := 0;
    ghost var rows := [];
    OffsetStep(0, dim);
    assert file[0..] == file;
    while true
      invariant at == Offset(|rows|, dim) && at <= |file| && file[..at] == FileBytes(rows)
      invariant WholeRows(file, dim) == rows + WholeRows(file[at..], dim)
      invariant TornRow(file, dim) == TornRow(file[at..], dim)
      invariant AllOf(rows, dim) && offsets == Offsets(rows, dim, 0)
      decreases |file| - at
    {
      var n := if |file| - at < RowSize(dim) then |file| - at else RowSize(dim);
      if n < RowSize(dim) {
        break;
      }
      var buf := file[at..at + n];
      var id := GetId(buf);
      assert file[at..][..n] == buf && file[at..][n..] == file[at + n..];
      NextRow(rows, file[at..], dim);
      ghost var row := RowOf(buf, dim);
      FileLast(rows, row);
      LastRow(rows, row, dim, 0);
      OffsetStep(|rows|, dim);
      assert file[..at + n] == file[..at] + buf;
      offsets := offsets[id := at];
      rows := rows + [row];
      at := at + n;
    }
    assert file == file[..at] + file[at..];
    NoRowLeft(file[at..], dim);
    assert rows + [] == rows;
  }

  /** Without removals, building the table again gives the table of the session if
      and only if no row was appended behind a torn one. */
  lemma RebuiltIsSame(whole: seq<Row>, tail: seq<byte>, added: seq<Row>, dim: nat, rows: seq<Row>, rest: seq<byte>)
    requires AllOf(whole, dim) && AllOf(added, dim) && |tail| < RowSize(dim)
    requires AllOf(rows, dim) && |rest| < RowSize(dim)
    requires FileBytes(rows) + rest == FileBytes(whole) + tail + FileBytes(added)
    ensures Offsets(rows, dim, 0) == AllOffsets(whole, tail, added, dim) <==> tail == [] || added == []
    ensures tail == [] || added == [] ==> rows == whole + added
  {
    hide FileBytes, Offsets, Offset;
    NoRows(dim);
    FileSize(whole, dim);
    if tail == [] {
      FileConcat(whole, added);
      OffsetsConcat(whole, added, dim, 0);
      WholeRowsUnique(rows, rest, whole + added, [], dim);
    } else if added == [] {
      WholeRowsUnique(rows, rest, whole, tail, dim);
    } else {
      MisplacedRow(whole, tail, added, dim, rows);
    }
  }

  lemma NoRows(dim: nat)
    ensures FileBytes([]) == [] && forall base :: Offsets([], dim, base) == map[]
  {
  }

  /** A row behind a torn one does not start at a multiple of the row size. */
  lemma MisplacedRow(whole: seq<Row>, tail: seq<byte>, added: seq<Row>, dim: nat, rows: seq<Row>)
    requires AllOf(whole, dim) && 0 < |tail| < RowSize(dim) && added != []
    ensures Offsets(rows, dim, 0) != AllOffsets(whole, tail, added, dim)
  {
    hide FileBytes, Offset;
    FileSize(whole, dim);
    var id := added[|added| - 1].id;
    var base := |FileBytes(whole) + tail|;
    assert Offsets(added, dim, base)[id] == base + Offset(|added| - 1, dim);
    if Offsets(rows, dim, 0) == AllOffsets(whole, tail, added, dim) {
      var i := OffsetIsLast(rows, dim, 0, id);
      var n := |whole| + (|added| - 1);
      OffsetSum(|whole|, |added| - 1, dim);
      OffsetsApart(i, n, |tail|, dim);
      assert false;
    }
  }

  // ----- the engine -----

  /** The file of an engine and its offset table; while nothing was removed the table
      is complete. */
  ghost predicate FileKept(file: seq<byte>, offsets: map<Id, nat>, whole: seq<Row>, tail: seq<byte>, added: seq<Row>,
                           removed: bool, dim: nat)
  {
    && Image(file, offsets, whole, tail, added, dim)
    && |tail| < RowSize(dim)
    && (!removed ==> offsets == AllOffsets(whole, tail, added, dim))
  }

  datatype Failure = NotFound | WrongLength | SearchFailed

  lemma RowBytesAre(row: Row)
    ensures RowBytes(row) == PutId(row.id) + VectorBytes(row.vec)
  {
  }

  lemma UnionUpdate(a: Vectors, b: Vectors, id: Id, vec: Vector)
    ensures a + b[id := vec] == (a + b)[id := vec]
  {
  }

  lemma NoneLatest(m: Vectors)
    ensures Latest([]) == map[] && map[] + m == m
  {
  }

  lemma OpenedFile(file: seq<byte>, whole: seq<Row>, tail: seq<byte>, dim: nat)
    requires AllOf(whole, dim) && file == FileBytes(whole) + tail && |tail| < RowSize(dim)
    ensures FileKept(file, Offsets(whole, dim, 0), whole, tail, [], false, dim)
    ensures Readable(Offsets(whole, dim, 0), whole + []) == Latest(whole)
  {
    hide FileBytes, Offsets;
    NoRows(dim);
    SameIds(whole, dim, 0);
    assert whole + [] == whole;
  }

  /** The offset table of a file that is opened. */
  method OpenData(file: seq<byte>, dim: nat) returns (offsets: map<Id, nat>)
    ensures FileKept(file, offsets, WholeRows(file, dim), TornRow(file, dim), [], false, dim)
    ensures Readable(offsets, WholeRows(file, dim) + []) == Latest(WholeRows(file, dim))
  {
    hide FileBytes, Offsets, WholeRows, TornRow, FileKept, Readable, Latest;
    offsets := RebuildOffsets(file, dim);
    OpenedFile(file, WholeRows(file, dim), TornRow(file, dim), dim);
  }

  lemma OpenedIsPlaced(rows: seq<Row>, trained: bool, dim: nat, nTrain: nat, removable: bool, saved: Vectors)
    requires !trained ==> rows == []
    requires nTrain == 0 ==> trained
    ensures StagingKept(map[], [], rows, trained, dim, nTrain)
    ensures var opening := Shelf(nTrain == 0 || trained, 0, map[], Latest(rows), Latest([]), saved);
            opening.Placed(Latest(rows), nTrain, removable)
    ensures Latest([]) == map[] && AllOf([], dim)
  {
  }

  ghost predicate Lists(rows: seq<Row>, m: Vectors) {
    I.DistinctIds(rows) && Latest(rows) == m && forall r :: r in rows ==> r.id in m && r.vec == m[r.id]
  }

  lemma ListsNothing(m: Vectors)
    ensures Lists([], m - m.Keys) && m - {} == m
  {
  }

  lemma ListsMore(rows: seq<Row>, m: Vectors, rest: set<Id>, id: Id)
    requires Lists(rows, m - rest) && id in rest && rest <= m.Keys
    ensures Lists(rows + [Row(id, m[id])], m - (rest - {id}))
  {
    LastRow(rows, Row(id, m[id]), 0, 0);
    I.AddedIsDistinct(rows, Row(id, m[id]));
    assert m - (rest - {id}) == (m - rest)[id := m[id]];
  }

  /** Going through a map in any order visits every entry once. */
  method Listed(m: Vectors) returns (rows: seq<Row>)
    ensures Lists(rows, m)
  {
    hide Lists;
    rows := [];
    var rest := m.Keys;
    ListsNothing(m);
    while rest != {}
      invariant rest <= m.Keys && Lists(rows, m - rest)
      decreases |rest|
    {
      var id :| id in rest;
      ListsMore(rows, m, rest, id);
      rows := rows + [Row(id, m[id])];
      rest := rest - {id};
    }
  }

  lemma ReplacedInIndex(rows: seq<Row>, row: Row, removable: bool)
    requires removable ==> I.DistinctIds(rows)
    ensures var kept := if removable then I.Dropped(rows, row.id) else rows;
            && Latest(kept + [row]) == Latest(rows)[row.id := row.vec]
            && (removable ==> I.DistinctIds(kept + [row]))
  {
    hide Latest, I.Dropped, I.DistinctIds;
    LastRow(rows, row, 0, 0);
    if removable {
      I.DroppedIsRemoved(rows, row.id);
      I.DroppedIds(rows, row.id);
      I.DroppedIsDistinct(rows, row.id);
      I.AddedIsDistinct(I.Dropped(rows, row.id), row);
      LastRow(I.Dropped(rows, row.id), row, 0, 0);
    }
  }

  ghost predicate AllLong(m: Vectors, dim: nat) {
    forall id :: id in m ==> |m[id]| == dim
  }

  /** Before the index is trained it is empty, and there are at most as many staged
      vectors as samples, and fewer samples than training needs. */
  ghost predicate StagingKept(pendingAdd: Vectors, trainPool: seq<Vector>, rows: seq<Row>, trained: bool,
                              dim: nat, nTrain: nat)
  {
    && AllLong(pendingAdd, dim)
    && (nTrain == 0 ==> trained)
    && if trained then pendingAdd == map[] && trainPool == []
       else rows == [] && |pendingAdd| <= |trainPool| < nTrain
  }

  lemma StagingInsert(pendingAdd: Vectors, trainPool: seq<Vector>, rows: seq<Row>, trained: bool,
                      dim: nat, nTrain: nat, id: Id, vec: Vector)
    requires StagingKept(pendingAdd, trainPool, rows, trained, dim, nTrain) && !trained && |vec| == dim
    ensures rows == [] && |trainPool| < nTrain
    ensures AllLong(pendingAdd[id := vec], dim)
    ensures |trainPool| + 1 < nTrain ==>
              StagingKept(pendingAdd[id := vec], trainPool + [vec], rows, trained, dim, nTrain)
  {
    UpdateSize(pendingAdd, id, vec);
  }

  lemma NothingStaged(rows: seq<Row>, dim: nat, nTrain: nat)
    ensures StagingKept(map[], [], rows, true, dim, nTrain)
  {
  }

  /** Once trained nothing is staged, and the index may hold anything. */
  lemma StagingTrained(pendingAdd: Vectors, trainPool: seq<Vector>, rows: seq<Row>, trained: bool,
                       dim: nat, nTrain: nat)
    requires StagingKept(pendingAdd, trainPool, rows, trained, dim, nTrain) && (nTrain == 0 || trained)
    ensures trained && forall rows' :: StagingKept(pendingAdd, trainPool, rows', trained, dim, nTrain)
  {
  }

  lemma StagingForget(pendingAdd: Vectors, trainPool: seq<Vector>, rows: seq<Row>, rows': seq<Row>, trained: bool,
                      dim: nat, nTrain: nat, id: Id)
    requires StagingKept(pendingAdd, trainPool, rows, trained, dim, nTrain) && (rows == [] ==> rows' == [])
    ensures StagingKept(pendingAdd - {id}, trainPool, rows', trained, dim, nTrain)
  {
    RemoveSize(pendingAdd, id);
  }

  lemma FileForget(file: seq<byte>, offsets: map<Id, nat>, whole: seq<Row>, tail: seq<byte>, added: seq<Row>,
                   removed: bool, dim: nat, id: Id)
    requires FileKept(file, offsets, whole, tail, added, removed, dim)
    ensures FileKept(file, offsets - {id}, whole, tail, added, true, dim)
    ensures Readable(offsets - {id}, whole + added) == Readable(offsets, whole + added) - {id}
  {
    hide Image, AllOffsets, Readable;
    ImageForget(file, offsets, whole, tail, added, dim, id);
  }

  method OpenLog(log: Option<seq<byte>>) returns (wal: W.WAL?)
    ensures if log.None? then wal == null
            else wal != null && fresh(wal) && wal.file == log.value && wal.cursor == 0
  {
    wal := null;
    if log.Some? {
      wal := new W.WAL(log.value);
    }
  }

  class VectorEngine {
    const dim: nat
    const nTrain: nat
    const index: I.IdMapIndex
    const wal: W.WAL?
    var trainPool: seq<Vector>
    var pendingAdd: Vectors
    var persistBuf: seq<Row>
    var fileOffsets: map<Id, nat>
    var dataFile: seq<byte>
    ghost var whole: seq<Row>
    ghost var tail: seq<byte>
    ghost var added: seq<Row>
    ghost var removed: bool

    predicate Trained()
      reads index
    {
      nTrain == 0 || index.trained
    }

    ghost predicate Valid()
      reads this, index
    {
      && FileKept(dataFile, fileOffsets, whole, tail, added, removed, dim)
      && StagingKept(pendingAdd, trainPool, index.rows, index.trained, dim, nTrain)
      && 4 * dim < TWO_32 && AllOf(persistBuf, dim) && (index.removable ==> I.DistinctIds(index.rows))
    }

    ghost function State(): Shelf
      reads this, index
    {
      Shelf(Trained(), |trainPool|, pendingAdd, Latest(index.rows), Latest(persistBuf),
            Readable(fileOffsets, whole + added))
    }

    ghost function Fixed(): Setup {
      Setup(dim, nTrain, index.removable)
    }

    /** Opens an engine over any data file and an index that holds nothing before it
        is trained; the log is not replayed yet. */
    constructor (dim: nat, nTrain: nat, index: I.IdMapIndex, file: seq<byte>, log: Option<seq<byte>>)
      requires 4 * dim < TWO_32
      requires index.removable ==> I.DistinctIds(index.rows)
      requires nTrain == 0 ==> index.trained
      requires !index.trained ==> index.rows == []
      ensures Valid() && this.dim == dim && this.nTrain == nTrain && this.index == index
      ensures dataFile == file && added == [] && !removed
      ensures whole == WholeRows(file, dim) && tail == TornRow(file, dim)
      ensures State() == Shelf(Trained(), 0, map[], Latest(index.rows), map[], Latest(WholeRows(file, dim)))
      ensures State().Placed(Latest(index.rows), nTrain, index.removable)
      ensures if log.None? then wal == null
              else wal != null && fresh(wal) && wal.file == log.value && wal.cursor == 0
    {
      hide FileBytes, Offsets, I.DistinctIds, WholeRows, TornRow, FileKept, StagingKept, Readable, Latest, Shelf.Placed,
           AllOf, RowSize;
      var w := OpenLog(log);
      var offsets := OpenData(file, dim);
      OpenedIsPlaced(index.rows, index.trained, dim, nTrain, index.removable, Latest(WholeRows(file, dim)));
      this.dim, this.nTrain, this.index, wal := dim, nTrain, index, w;
      trainPool, pendingAdd, persistBuf := [], map[], [];
      dataFile, fileOffsets, removed := file, offsets, false;
      whole, tail, added := WholeRows(file, dim), TornRow(file, dim), [];
    }

    method EnqueuePersist(id: Id, vec: Vector)
      modifies this`persistBuf
      ensures persistBuf == old(persistBuf) + [Row(id, vec)]
    {
      persistBuf := persistBuf + [Row(id, vec)];
    }

    /** Logs the insertion, does it, and marks the log. */
    method InsertVector(id: Id, vec: Vector) returns (ok: bool)
      requires Valid()
      modifies this`trainPool, this`pendingAdd, this`persistBuf, index, wal
      ensures Valid() && ok == (|vec| == dim)
      ensures State() == if ok then old(State()).Insert(id, vec, nTrain) else old(State())
      ensures ok && (nTrain == 0 || old(index.trained)) ==> persistBuf == old(persistBuf) + [Row(id, vec)]
      ensures ok && nTrain > 0 && !old(index.trained) ==>
                && (index.trained <==> |old(trainPool)| + 1 >= nTrain)
                && (!index.trained ==> trainPool == old(trainPool) + [vec] && persistBuf == old(persistBuf))
      ensures wal != null && ok ==>
                wal.cursor == 9
                && wal.file == W.Marked(FileWrite(old(wal.file), old(wal.cursor), W.Encode(InsertOp(id, vec))))
      ensures wal != null && !ok ==> unchanged(wal)
    {
      hide FileKept, StagingKept, Readable, Latest, I.DistinctIds, PutId, VectorBytes, FileWrite, W.Marked, W.Encode;
      if |vec| != dim {
        return false;
      }
      if wal != null {
        wal.WriteEntry(PutId(id), VectorBytes(vec));
      }
      InsertAfterWAL(id, vec);
      if wal != null {
        wal.MarkCommitted();
      }
      ok := true;
    }

    /** Logs the removal as an entry without a value, does it, and marks the log. */
    method RemoveVector(id: Id)
      requires Valid()
      modifies this`pendingAdd, this`fileOffsets, this`removed, index`rows, wal
      ensures Valid() && State() == old(State()).Remove(id, index.removable)
      ensures wal != null ==>
                wal.cursor == 9
                && wal.file == W.Marked(FileWrite(old(wal.file), old(wal.cursor), W.Encode(RemoveOp(id))))
    {
      hide FileKept, StagingKept, Readable, Latest, I.DistinctIds, PutId, FileWrite, W.Marked, W.Encode;
      if wal != null {
        wal.WriteEntry(PutId(id), []);
      }
      RemoveAfterWAL(id);
      if wal != null {
        wal.MarkCommitted();
      }
    }

    /** Does again what the log holds, and empties it if that is anything. */
    method ReplayWAL() returns (outcome: Outcome)
      requires Valid() && wal != null
      modifies this`trainPool, this`pendingAdd, this`persistBuf, this`fileOffsets, this`removed, index, wal
      ensures outcome == Replaying(old(wal.file), dim)
      ensures outcome.Repeats? ==>
                && Valid() && State() == Run(Fixed(), old(State()), outcome.commands).0
                && wal.file == (if outcome.commands == [] then old(wal.file) else [])
                && wal.cursor == |old(wal.file)|
    {
      hide Valid, Trained, Latest, Readable, W.Parse, Run, Decoded, Scan;
      ghost var state := State();
      var entries := wal.Replay();
      if entries.Err? {
        return Refuses;
      }
      var es := entries.value;
      RunNothing(Fixed(), state);
      PrefixedTwice([], [], Scan(es, dim));
      var commands: seq<Command> := [];
      assert es[0..] == es;
      for i := 0 to |es|
        invariant Valid() && Scan(es, dim) == Prefixed(commands, Scan(es[i..], dim)) && |commands| == i
        invariant State() == Run(Fixed(), state, commands).0
        invariant wal.file == old(wal.file) && wal.cursor == |wal.file|
      {
        assert es[i..] == [es[i]] + es[i + 1..];
        ScanStep(es[i], es[i + 1..], dim);
        var command := Decoded(es[i]);
        if command.None? {
          return Refuses;
        }
        if !IsLogged(dim, command.value) {
          return Strays;
        }
        RunOneMore(Fixed(), state, commands, command.value);
        PrefixedTwice(commands, [command.value], Scan(es[i + 1..], dim));
        match command.value {
          case Remove(id) => RemoveAfterWAL(id);
          case Insert(id, vec) => InsertAfterWAL(id, vec);
          case _ =>
        }
        commands := commands + [command.value];
      }
      NothingToReplay(dim);
      assert es[|es|..] == [] && commands + [] == commands;
      if es != [] {
        wal.Clear();
      }
      outcome := Repeats(commands);
    }

    method ReplaceInIndex(id: Id, vec: Vector)
      requires index.trained && (index.removable ==> I.DistinctIds(index.rows))
      modifies index
      ensures index.trained && (index.removable ==> I.DistinctIds(index.rows))
      ensures Latest(index.rows) == old(Latest(index.rows))[id := vec]
    {
      hide Latest, I.Dropped, I.DistinctIds;
      ReplacedInIndex(index.rows, Row(id, vec), index.removable);
      index.RemoveIDs(id);
      index.AddWithIDs([Row(id, vec)]);
    }

    method InsertAfterWAL(id: Id, vec: Vector)
      requires Valid() && |vec| == dim
      modifies this`trainPool, this`pendingAdd, this`persistBuf, index
      ensures Valid() && State() == old(State()).Insert(id, vec, nTrain)
      ensures nTrain == 0 || old(index.trained) ==> persistBuf == old(persistBuf) + [Row(id, vec)]
      ensures nTrain > 0 && !old(index.trained) ==>
                && (index.trained <==> |old(trainPool)| + 1 >= nTrain)
                && (!index.trained ==> trainPool == old(trainPool) + [vec] && persistBuf == old(persistBuf))
    {
      if Trained() {
        Ingest(id, vec);
      } else {
        Stage(id, vec);
      }
    }

    /** The branch for a trained index. */
    method Ingest(id: Id, vec: Vector)
      requires Valid() && |vec| == dim && Trained()
      modifies this`persistBuf, index
      ensures Valid() && State() == old(State()).Insert(id, vec, nTrain)
      ensures persistBuf == old(persistBuf) + [Row(id, vec)] && index.trained
    {
      hide FileKept, StagingKept, Readable, Latest, Offsets, Offset, I.DistinctIds;
      StagingTrained(pendingAdd, trainPool, index.rows, index.trained, dim, nTrain);
      ReplaceInIndex(id, vec);
      EnqueuePersist(id, vec);
      LastRow(old(persistBuf), Row(id, vec), 0, 0);
    }

    /** The branch for an index that is not trained yet. */
    method Stage(id: Id, vec: Vector)
      requires Valid() && |vec| == dim && !Trained()
      modifies this`trainPool, this`pendingAdd, this`persistBuf, index
      ensures Valid() && State() == old(State()).Insert(id, vec, nTrain)
      ensures index.trained <==> |old(trainPool)| + 1 >= nTrain
      ensures !index.trained ==>
                && trainPool == old(trainPool) + [vec] && pendingAdd == old(pendingAdd)[id := vec]
                && persistBuf == old(persistBuf) && index.rows == []
      ensures index.trained ==> Latest(index.rows) == old(pendingAdd)[id := vec] && trainPool == []
    {
      hide FileKept, StagingKept, AllLong, Readable, Latest, I.DistinctIds;
      StagingInsert(pendingAdd, trainPool, index.rows, index.trained, dim, nTrain, id, vec);
      pendingAdd := pendingAdd[id := vec];
      trainPool := trainPool + [vec];
      if |trainPool| >= nTrain {
        NoneLatest(old(pendingAdd)[id := vec]);
        MoveStaged();
        NothingStaged(index.rows, dim, nTrain);
      }
    }

    /** The training threshold is crossed: everything staged goes into the index and
        is queued for the file. */
    method MoveStaged()
      requires index.rows == [] && AllOf(persistBuf, dim) && |trainPool| >= nTrain
      requires AllLong(pendingAdd, dim)
      modifies this`trainPool, this`pendingAdd, this`persistBuf, index
      ensures index.trained && I.DistinctIds(index.rows) && Latest(index.rows) == old(pendingAdd)
      ensures pendingAdd == map[] && trainPool == []
      ensures AllOf(persistBuf, dim) && Latest(persistBuf) == old(Latest(persistBuf) + pendingAdd)
    {
      hide Latest, I.DistinctIds;
      index.Train(trainPool, nTrain);
      var bulk := Listed(pendingAdd);
      index.AddWithIDs(bulk);
      assert [] + bulk == bulk;
      EnqueuePending();
      pendingAdd, trainPool := map[], [];
    }

    /** Everything that waited for training is queued for the file, in any order. */
    method EnqueuePending()
      requires AllOf(persistBuf, dim) && AllLong(pendingAdd, dim)
      modifies this`persistBuf
      ensures AllOf(persistBuf, dim) && Latest(persistBuf) == old(Latest(persistBuf)) + pendingAdd
    {
      hide Latest;
      var rows := Listed(pendingAdd);
      ghost var before := persistBuf;
      for i := 0 to |rows|
        invariant persistBuf == before + rows[..i]
      {
        EnqueuePersist(rows[i].id, rows[i].vec);
      }
      assert rows[..|rows|] == rows;
      LatestConcat(before, rows);
    }

    method RemoveAfterWAL(id: Id)
      requires Valid()
      modifies this`pendingAdd, this`fileOffsets, this`removed, index`rows
      ensures Valid() && State() == old(State()).Remove(id, index.removable)
      ensures pendingAdd == old(pendingAdd) - {id} && fileOffsets == old(fileOffsets) - {id}
      ensures index.rows == if index.removable then I.Dropped(old(index.rows), id) else old(index.rows)
    {
      hide FileKept, StagingKept, Readable, Latest, I.DistinctIds, I.Dropped;
      RemoveFromIndex(id);
      StagingForget(pendingAdd, trainPool, old(index.rows), index.rows, index.trained, dim, nTrain, id);
      pendingAdd := pendingAdd - {id};
      FileForget(dataFile, fileOffsets, whole, tail, added, removed, dim, id);
      fileOffsets := fileOffsets - {id};
      removed := true;
    }

    method RemoveFromIndex(id: Id)
      requires index.removable ==> I.DistinctIds(index.rows)
      modifies index`rows
      ensures index.removable ==> I.DistinctIds(index.rows)
      ensures Latest(index.rows) == if index.removable then old(Latest(index.rows)) - {id} else old(Latest(index.rows))
      ensures old(index.rows) == [] ==> index.rows == []
      ensures index.rows == if index.removable then I.Dropped(old(index.rows), id) else old(index.rows)
    {
      hide Latest, I.Dropped, I.DistinctIds;
      I.NothingDropped(id);
      I.DroppedIsRemoved(index.rows, id);
      if index.removable {
        I.DroppedIsDistinct(index.rows, id);
      }
      index.RemoveIDs(id);
    }

    method AppendToDataFile(id: Id, vec: Vector)
      requires Valid() && |vec| == dim
      modifies this`dataFile, this`fileOffsets, this`added
      ensures Valid() && State() == old(State()).(saved := old(State()).saved[id := vec])
      ensures dataFile == old(dataFile) + RowBytes(Row(id, vec)) && added == old(added) + [Row(id, vec)]
    {
      hide Image, AllOffsets, Readable, Latest, RowBytes, StagingKept;
      var pos := |dataFile|;
      ghost var row := Row(id, vec);
      ImageAppend(dataFile, fileOffsets, whole, tail, added, dim, row);
      assert whole + (added + [row]) == whole + added + [row];
      ReadableAppend(fileOffsets, whole + added, row, pos);
      assert RowBytes(row) == PutId(id) + VectorBytes(vec) by { RowBytesAre(row); }
      dataFile := dataFile + (PutId(id) + VectorBytes(vec));
      fileOffsets := fileOffsets[id := pos];
      added := added + [row];
    }

    method FlushData()
      requires Valid()
      modifies this`persistBuf, this`dataFile, this`fileOffsets, this`added
      ensures Valid() && State() == old(State()).Flush()
      ensures persistBuf == [] && added == old(added) + old(persistBuf)
      ensures dataFile == old(dataFile) + FileBytes(old(persistBuf))
    {
      hide FileKept, StagingKept, Readable, RowBytes, Latest, FileBytes, I.DistinctIds;
      NoRows(dim);
      NoneLatest(map[]);
      var buf := persistBuf;
      persistBuf := [];
      ghost var saved := State().saved;
      for i := 0 to |buf|
        invariant Valid() && persistBuf == []
        invariant State() == old(State()).(unsaved := map[], saved := saved + Latest(buf[..i]))
        invariant added == old(added) + buf[..i] && dataFile == old(dataFile) + FileBytes(buf[..i])
      {
        assert buf[..i + 1] == buf[..i] + [buf[i]];
        LastRow(buf[..i], buf[i], 0, 0);
        UnionUpdate(saved, Latest(buf[..i]), buf[i].id, buf[i].vec);
        FileLast(buf[..i], buf[i]);
        AppendToDataFile(buf[i].id, buf[i].vec);
      }
      assert buf[..|buf|] == buf;
    }

    method GetVectorByID(id: Id) returns (r: Result<Vector, Failure>)
      requires Valid()
      ensures r == match State().Get(id) case Some(vec) => Ok(vec) case None => Err(NotFound)
      ensures r.Ok? <==> id in fileOffsets
    {
      hide Latest, AllOffsets, FileBytes, BytesVector, StagingKept, Image;
      if id !in fileOffsets {
        return Err(NotFound);
      }
      ImageRead(dataFile, fileOffsets, whole, tail, added, dim, id);
      var offset := fileOffsets[id];
      var buf := dataFile[offset..offset + RowSize(dim)];
      r := Ok(BytesVector(buf[8..]));
    }

    /** The loop that goes through what was found. */
    method FirstTracked(found: seq<Pair>, k: nat) returns (filtered: seq<Pair>)
      requires k >= 1
      ensures var all := I.Tracked(found, fileOffsets.Keys); filtered == all[..Min(k, |all|)]
    {
      hide I.Tracked;
      filtered := [];
      var i := 0;
      ghost var ids := fileOffsets.Keys;
      ghost var all := I.Tracked(found, ids);
      I.TrackedStep([], ids);
      while i < |found|
        invariant 0 <= i <= |found| && filtered == I.Tracked(found[..i], ids) && |filtered| < k
      {
        assert found[..i + 1][..i] == found[..i];
        I.TrackedConcat(found[..i + 1], found[i + 1..], ids);
        assert found == found[..i + 1] + found[i + 1..];
        I.TrackedStep(found[..i + 1], ids);
        if found[i].id in fileOffsets {
          filtered := filtered + [found[i]];
          if |filtered| >= k {
            break;
          }
        }
        i := i + 1;
      }
      assert found[..|found|] == found;
    }

    /** The `k` nearest vectors: twice as many are asked for, and those whose id is
        not in the offset table are dropped.  What is left are the best of the tracked
        ones, unless a vector has id -1 and there are few enough for the padding to
        pass as results. */
    method SearchTopK(query: Vector, k: nat) returns (r: Result<seq<Pair>, Failure>, ghost places: seq<nat>)
      requires Valid()
      ensures r.Err? <==> |query| != dim || k == 0
      ensures r.Err? ==> r == Err(if |query| != dim then WrongLength else SearchFailed)
      ensures r.Ok? ==> |r.value| <= k && forall p :: p in r.value ==> p.id in fileOffsets
      ensures r.Ok? ==>
                var hits := index.Hits(query);
                var tracked := I.Tracked(hits, fileOffsets.Keys);
                && (I.BestOf(index.c, tracked, r.value)
                    <==> -1 !in fileOffsets || |hits| >= 2 * k || |tracked| >= k)
                && (I.BestOf(index.c, tracked, r.value) && |hits| - |tracked| + Min(k, |tracked|) <= 2 * k ==>
                      |r.value| == Min(k, |tracked|))
      ensures r.Ok? ==>
                var tracked := set m | 0 <= m < |index.rows| && index.rows[m].id in fileOffsets;
                -1 !in fileOffsets || |index.rows| >= 2 * k || |tracked| >= k ==>
                  && |places| == |r.value|
                  && (forall i :: 0 <= i < |r.value| ==>
                        && places[i] in tracked && r.value[i].id == index.rows[places[i]].id
                        && r.value[i].val == index.distance(query, index.rows[places[i]].vec))
                  && (forall i, j :: 0 <= i < j < |r.value| ==> places[i] != places[j])
                  && (forall i, j :: 0 <= i < j < |r.value| ==>
                        if index.c.CMin? then r.value[i].val >= r.value[j].val else r.value[i].val <= r.value[j].val)
                  && (forall m, i :: m in tracked && m !in places && 0 <= i < |r.value| ==>
                        var d := index.distance(query, index.rows[m].vec);
                        if index.c.CMin? then r.value[i].val >= d else r.value[i].val <= d)
                  && (|index.rows| - |tracked| + Min(k, |tracked|) <= 2 * k ==> |r.value| == Min(k, |tracked|))
    {
      hide Valid, I.Finds, I.BestOf, I.Tracked;
      if |query| != dim {
        return Err(WrongLength), [];
      }
      if k == 0 {
        return Err(SearchFailed), [];
      }
      var found := index.Search(query, 2 * k);
      var filtered := FirstTracked(found, k);
      ghost var ids := fileOffsets.Keys;
      I.FilteredSearch(index.c, index.Hits(query), ids, k, found, filtered);
      places := ReportedRows(index, query, ids, filtered);
      r := Ok(filtered);
    }
  }

  /** What opening an engine comes to; the last is a log that hands FAISS a vector of
      another length, after which nothing is modelled. */
  datatype Opening = Running(ve: VectorEngine) | Refused | Unspecified

  function EndOf(dim: nat, log: Option<seq<byte>>): Outcome {
    if log.None? then Repeats([]) else Replaying(log.value, dim)
  }

  /** Opening the files of an engine: the log, if there is one, is replayed, and if that
      fails there is no engine. */
  method NewVectorEngine(dim: nat, nTrain: nat, index: I.IdMapIndex, file: seq<byte>, log: Option<seq<byte>>)
    returns (r: Opening)
    requires 4 * dim < TWO_32
    requires index.removable ==> I.DistinctIds(index.rows)
    requires nTrain == 0 ==> index.trained
    requires !index.trained ==> index.rows == []
    modifies index
    ensures r.Running? <==> EndOf(dim, log).Repeats?
    ensures r.Refused? <==> EndOf(dim, log).Refuses?
    ensures r.Running? ==>
              var trained := nTrain == 0 || old(index.trained);
              var start := Shelf(trained, 0, map[], old(Latest(index.rows)), map[], Latest(WholeRows(file, dim)));
              && fresh(r.ve) && r.ve.Valid() && r.ve.Fixed() == Setup(dim, nTrain, index.removable)
              && r.ve.index == index && r.ve.dataFile == file && (r.ve.wal == null <==> log.None?)
              && (r.ve.wal != null ==>
                    fresh(r.ve.wal) && r.ve.wal.cursor == |log.value|
                    && r.ve.wal.file == (if EndOf(dim, log).commands == [] then log.value else []))
              && r.ve.State() == Run(r.ve.Fixed(), start, EndOf(dim, log).commands).0
  {
    hide VectorEngine.Valid, Latest, Readable, WholeRows, TornRow, Replaying, Run, Shelf.Placed;
    var ve := new VectorEngine(dim, nTrain, index, file, log);
    RunNothing(ve.Fixed(), ve.State());
    if ve.wal != null {
      var outcome := ve.ReplayWAL();
      if outcome.Refuses? {
        return Refused;
      }
      if outcome.Strays? {
        return Unspecified;
      }
    }
    r := Running(ve);
  }

  lemma ReopenableIndex(ve: VectorEngine)
    requires ve.Valid()
    ensures 4 * ve.dim < TWO_32
    ensures ve.index.removable ==> I.DistinctIds(ve.index.rows)
    ensures ve.nTrain == 0 ==> ve.index.trained
    ensures !ve.index.trained ==> ve.index.rows == []
  {
  }

  /** The rows that a best part of the tracked hits stands for. */
  lemma ReportedRows(index: I.IdMapIndex, query: Vector, ids: set<Id>, out: seq<Pair>) returns (places: seq<nat>)
    ensures |I.Tracked(index.Hits(query), ids)| == |set m | 0 <= m < |index.rows| && index.rows[m].id in ids|
    ensures I.BestOf(index.c, I.Tracked(index.Hits(query), ids), out) ==>
              && |places| == |out|
              && (forall i :: 0 <= i < |out| ==>
                    && places[i] < |index.rows| && out[i].id == index.rows[places[i]].id && out[i].id in ids
                    && out[i].val == index.distance(query, index.rows[places[i]].vec))
              && (forall i, j :: 0 <= i < j < |out| ==> places[i] != places[j])
              && (forall i, j :: 0 <= i < j < |out| ==>
                    if index.c.CMin? then out[i].val >= out[j].val else out[i].val <= out[j].val)
              && (forall m, i :: 0 <= m < |index.rows| && index.rows[m].id in ids && m !in places && 0 <= i < |out| ==>
                    var d := index.distance(query, index.rows[m].vec);
                    if index.c.CMin? then out[i].val >= d else out[i].val <= d)
  {
    hide I.Tracked, I.BestOf;
    var hits := index.Hits(query);
    I.TrackedSize(hits, ids);
    assert (set m | 0 <= m < |index.rows| && index.rows[m].id in ids) == I.PlacesOf(hits, ids);
    places := [];
    if I.BestOf(index.c, I.Tracked(hits, ids), out) {
      places := I.BestPlaces(index.c, hits, ids, out);
      forall m, i | 0 <= m < |index.rows| && index.rows[m].id in ids && m !in places && 0 <= i < |out|
        ensures var d := index.distance(query, index.rows[m].vec);
                if index.c.CMin? then out[i].val >= d else out[i].val <= d
      {
        assert hits[m].id in ids && !index.c.Cmp(out[i].val, hits[m].val);
      }
    }
  }

  /** In an index that supports removal every indexed id is there once, with its
      latest vector. */
  lemma IndexedOnce(ve: VectorEngine, id: Id) returns (i: nat)
    requires ve.Valid() && ve.index.removable && id in ve.State().indexed
    ensures i < |ve.index.rows| && ve.index.rows[i] == Row(id, ve.State().indexed[id])
    ensures forall j :: 0 <= j < |ve.index.rows| && j != i ==> ve.index.rows[j].id != id
  {
    SameIds(ve.index.rows, 0, 0);
    i := OffsetIsLast(ve.index.rows, 0, 0, id);
  }

  /** Without removals, the offset table is what opening the file again would
      compute, unless a row was appended behind a torn one. */
  method RebuildAfterSession(ve: VectorEngine) returns (offsets: map<Id, nat>)
    requires ve.Valid() && !ve.removed
    ensures offsets == ve.fileOffsets <==> ve.tail == [] || ve.added == []
  {
    hide FileBytes, AllOffsets, Offsets, WholeRows, TornRow;
    offsets := RebuildOffsets(ve.dataFile, ve.dim);
    RebuiltIsSame(ve.whole, ve.tail, ve.added, ve.dim, WholeRows(ve.dataFile, ve.dim), TornRow(ve.dataFile, ve.dim));
  }

  /** Closing an engine and opening its files again, its log included, which closing
      leaves as it is.  Staged vectors are gone.  If no row was written behind a torn one,
      every id ever written is back with its latest vector, removed or not, so everything
      that could be read still can; and then the log is replayed. */
  method CloseAndReopen(ve: VectorEngine) returns (again: Opening)
    requires ve.Valid()
    modifies ve, ve.index
    ensures ve.dataFile == old(ve.dataFile) + FileBytes(old(ve.persistBuf))
    ensures var outcome := if ve.wal == null then Repeats([]) else Replaying(ve.wal.file, ve.dim);
            && (again.Running? <==> outcome.Repeats?)
            && (again.Refused? <==> outcome.Refuses?)
            && (again.Running? ==>
                  again.ve.Valid()
                  && var was := Reopened(old(ve.State()), ve.dataFile, ve.dim);
                  again.ve.State() == Run(ve.Fixed(), was, outcome.commands).0)
    ensures ve.tail == [] || old(ve.added + ve.persistBuf) == [] ==>
              && WholeRows(ve.dataFile, ve.dim) == ve.whole + old(ve.added + ve.persistBuf)
              && forall id :: id in old(ve.State()).Flush().saved ==>
                   Reopened(old(ve.State()), ve.dataFile, ve.dim).Get(id) == old(ve.State()).Flush().Get(id)
  {
    hide VectorEngine.Valid, FileBytes, AllOffsets, Offsets, Latest, WholeRows, TornRow, Replaying, Run;
    ve.FlushData();
    ReopenedRows(ve);
    ReopenableIndex(ve);
    again := NewVectorEngine(ve.dim, ve.nTrain, ve.index, ve.dataFile,
      if ve.wal == null then None else Some(ve.wal.file));
  }

  /** Where vectors are when the files are opened again, before the log is replayed. */
  ghost function Reopened(was: Shelf, file: seq<byte>, dim: nat): Shelf {
    Shelf(was.trained, 0, map[], was.indexed, map[], Latest(WholeRows(file, dim)))
  }

  lemma ReopenedRows(ve: VectorEngine)
    requires ve.Valid()
    ensures ve.tail == [] || ve.added == [] ==>
              && WholeRows(ve.dataFile, ve.dim) == ve.whole + ve.added
              && forall id :: id in ve.State().saved ==>
                   id in Latest(ve.whole + ve.added) && Latest(ve.whole + ve.added)[id] == ve.State().saved[id]
  {
    hide FileBytes, AllOffsets, Offsets, Latest, WholeRows, TornRow;
    RowsAndTorn(ve.dataFile, ve.dim);
    RebuiltIsSame(ve.whole, ve.tail, ve.added, ve.dim, WholeRows(ve.dataFile, ve.dim), TornRow(ve.dataFile, ve.dim));
  }

  lemma {:induction false} RowsAndTorn(file: seq<byte>, dim: nat)
    ensures AllOf(WholeRows(file, dim), dim) && |TornRow(file, dim)| < RowSize(dim)
    ensures file == FileBytes(WholeRows(file, dim)) + TornRow(file, dim)
  {
    hide RowBytes, FileBytes, WholeRows, TornRow, GetId, BytesVector;
    NoRows(dim);
    if |file| < RowSize(dim) {
      NoRowLeft(file, dim);
    } else {
      var row, rest := RowOf(file[..RowSize(dim)], dim), file[RowSize(dim)..];
      RowsAndTorn(rest, dim);
      RowInFront(file, dim, row, WholeRows(rest, dim));
      assert file == file[..RowSize(dim)] + rest;
    }
  }

  lemma RowInFront(file: seq<byte>, dim: nat, row: Row, rows: seq<Row>)
    requires |file| >= RowSize(dim) && row == RowOf(file[..RowSize(dim)], dim)
    requires rows == WholeRows(file[RowSize(dim)..], dim)
    ensures WholeRows(file, dim) == [row] + rows && TornRow(file, dim) == TornRow(file[RowSize(dim)..], dim)
    ensures FileBytes([row] + rows) == file[..RowSize(dim)] + FileBytes(rows)
  {
    hide RowBytes, FileBytes, WholeRows, TornRow, RowOf;
    NextRow([], file, dim);
    assert [] + WholeRows(file, dim) == WholeRows(file, dim) && [] + [row] == [row];
    NoRows(dim);
    FileLast([], row);
    FileConcat([row], rows);
    assert [] + RowBytes(row) == RowBytes(row);
  }

  /** One insertion into an engine with an empty log, closing it and opening it again: the
      bytes of the id and of the vector decide. */
  method InsertThenReopen(ve: VectorEngine, id: Id, vec: Vector) returns (again: Opening)
    requires ve.Valid() && ve.wal != null && ve.wal.file == [] && ve.wal.cursor == 0
    requires |vec| == ve.dim > 0
    modifies ve, ve.index, ve.wal
    ensures var s := PutId(id) + VectorBytes(vec);
            && (again.Refused? <==> Blocked(s) && (W.Unreadable(s) || !HoldsOther(s, ve.dim)))
            && (again.Running? <==> !Blocked(s) && !HoldsOther(s, ve.dim))
    ensures var lo, hi := Unsigned(id) % TWO_32, Unsigned(id) / TWO_32;
            lo != 8 && vec[0] % 256 != W.COMMITTED as int ==>
              if lo + hi < 4 * ve.dim || lo + 1 == 4 * ve.dim then again.Refused? else again.Running?
  {
    hide VectorEngine.Valid, Latest, Replaying, Run, W.Marked, W.Encode, FileBytes, WholeRows, Blocked, HoldsOther,
         W.Unreadable;
    ReopenableIndex(ve);
    var ok := ve.InsertVector(id, vec);
    AppendWrite([], W.Encode(InsertOp(id, vec)));
    assert [] + W.Encode(InsertOp(id, vec)) == W.Encode(InsertOp(id, vec));
    CommittedInsertion(ve.dim, id, vec);
    OutcomeOfBytes(PutId(id) + VectorBytes(vec), ve.dim);
    again := CloseAndReopen(ve);
  }

  /** Every run of an engine answers what the maps answer, and its log is what the logged
      commands leave.  The index is trained as soon as there are enough vectors, and not before.
      Background flushes are `Flush` commands wherever they happen. */
  method Execute(ve: VectorEngine, commands: seq<Command>) returns (replies: seq<Reply>)
    requires ve.Valid()
    modifies ve, ve.index, ve.wal
    ensures ve.Valid()
    ensures (ve.State(), replies) == Run(ve.Fixed(), old(ve.State()), commands)
    ensures 4 * ve.dim < TWO_32
    ensures ve.wal != null ==>
              (ve.wal.file, ve.wal.cursor) == LogAfter(ve.dim, old((ve.wal.file, ve.wal.cursor)), commands)
    ensures ve.whole == old(ve.whole) && ve.tail == old(ve.tail)
    ensures (forall c :: c in commands ==> !c.Remove?) ==> ve.removed == old(ve.removed)
    ensures ve.nTrain > 0 && !old(ve.index.trained) ==>
              (ve.index.trained <==>
                 var accepted := set i | 0 <= i < |commands| && commands[i].Insert? && |commands[i].vec| == ve.dim;
                 |old(ve.trainPool)| + |accepted| >= ve.nTrain)
  {
    hide VectorEngine.Valid, Latest, Readable, LogStep, LogAfter, W.Marked, W.Encode, FileWrite;
    replies := [];
    ReopenableIndex(ve);
    ghost var s, setup := ve.State(), ve.Fixed();
    Underway(ve);
    ghost var log := if ve.wal == null then ([], 0) else (ve.wal.file, ve.wal.cursor);
    LogAfterNothing(ve.dim, log);
    for i := 0 to |commands|
      invariant ve.Valid()
      invariant (ve.State(), replies) == Run(ve.Fixed(), old(ve.State()), commands[..i])
      invariant ve.wal != null ==> (ve.wal.file, ve.wal.cursor) == LogAfter(ve.dim, log, commands[..i])
      invariant ve.whole == old(ve.whole) && ve.tail == old(ve.tail)
      invariant (forall c :: c in commands[..i] ==> !c.Remove?) ==> ve.removed == old(ve.removed)
    {
      assert commands[..i + 1] == commands[..i] + [commands[i]];
      RunOneMore(ve.Fixed(), old(ve.State()), commands[..i], commands[i]);
      LogAfterOneMore(ve.dim, log, commands, i);
      var reply := ExecuteOne(ve, commands[i]);
      replies := replies + [reply];
    }
    assert commands[..|commands|] == commands;
    if !s.trained {
      TrainedWhenEnough(setup, s, commands);
      assert Insertions(setup, commands)
          == set i | 0 <= i < |commands| && commands[i].Insert? && |commands[i].vec| == ve.dim;
    }
  }

  /** In any run of an engine a vector that is accepted (command `j`) is read back bit for bit
      (command `n`) behind a flush (command `f`), if its id is not inserted again or removed in
      between and the index was trained before the flush: at the start, or because there were
      enough insertions. */
  method InsertFlushRead(ve: VectorEngine, commands: seq<Command>, ghost j: nat, ghost f: nat, ghost n: nat)
    returns (replies: seq<Reply>)
    requires ve.Valid() && j < f < n < |commands|
    requires commands[j].Insert? && |commands[j].vec| == ve.dim
    requires commands[f] == Flush && commands[n] == Get(commands[j].id)
    requires forall i :: j < i < n && commands[i].Insert? && commands[i].id == commands[j].id ==>
               |commands[i].vec| != ve.dim
    requires forall i :: j < i < n && commands[i].Remove? ==> commands[i].id != commands[j].id
    requires ve.nTrain == 0 || ve.index.trained
      || |ve.trainPool| + |set i | 0 <= i < f && commands[i].Insert? && |commands[i].vec| == ve.dim| >= ve.nTrain
    modifies ve, ve.index, ve.wal
    ensures |replies| == |commands| && replies[n] == Found(Some(commands[j].vec))
  {
    hide VectorEngine.Valid, Latest, Readable, Run, LogAfter;
    ghost var s, setup := ve.State(), ve.Fixed();
    Underway(ve);
    assert Insertions(setup, commands[..f])
        == set i | 0 <= i < f && commands[i].Insert? && |commands[i].vec| == ve.dim;
    ReadsBack(setup, s, commands, j, f, n);
    replies := Execute(ve, commands);
  }

  lemma Underway(ve: VectorEngine)
    requires ve.Valid()
    ensures !ve.State().trained ==> ve.State().samples < ve.nTrain
  {
  }

  method ExecuteOne(ve: VectorEngine, command: Command) returns (reply: Reply)
    requires ve.Valid()
    modifies ve, ve.index, ve.wal
    ensures ve.Valid() && 4 * ve.dim < TWO_32
    ensures (ve.State(), reply) == Step(ve.Fixed(), old(ve.State()), command)
    ensures ve.wal != null ==>
              (ve.wal.file, ve.wal.cursor) == LogStep(ve.dim, old((ve.wal.file, ve.wal.cursor)), command)
    ensures ve.whole == old(ve.whole) && ve.tail == old(ve.tail)
    ensures !command.Remove? ==> ve.removed == old(ve.removed)
  {
    hide VectorEngine.Valid, Latest, Readable, W.Marked, W.Encode, FileWrite;
    ReopenableIndex(ve);
    reply := Done;
    match command {
      case Insert(id, vec) =>
        var ok := ve.InsertVector(id, vec);
        reply := Accepted(ok);
      case Remove(id) => ve.RemoveVector(id);
      case Flush => ve.FlushData();
      case Get(id) =>
        var r := ve.GetVectorByID(id);
        reply := Found(if r.Ok? then Some(r.value) else None);
    }
  }

  /** Opening an engine whose log repeats something empties the log and keeps its cursor.
      One insertion or removal later the engine can be closed and never opened again. */
  method RecoverThenReopen(dim: nat, nTrain: nat, index: I.IdMapIndex, file: seq<byte>, log: seq<byte>,
                           command: Command) returns (again: Opening)
    requires 4 * dim < TWO_32
    requires index.removable ==> I.DistinctIds(index.rows)
    requires nTrain == 0 ==> index.trained
    requires !index.trained ==> index.rows == []
    requires Replaying(log, dim).Repeats? && Replaying(log, dim).commands != [] && IsLogged(dim, command)
    modifies index
    ensures again.Refused?
  {
    hide VectorEngine.Valid, Latest, Replaying, Run, LogAfter, LogStep, FileBytes, WholeRows, W.Marked, W.Encode, LogOp,
         FileWrite;
    RepeatedIsLong(log, dim);
    var r := NewVectorEngine(dim, nTrain, index, file, Some(log));
    var ve := r.ve;
    var replies := Execute(ve, [command]);
    OneLogStep(dim, ([], |log|), command);
    BehindZerosRefuses(|log|, dim, command);
    again := CloseAndReopen(ve);
  }

  /** Any session of an engine with an empty log, closing it and opening it again: the
      trace of the session decides how that ends. */
  method RunThenReopen(ve: VectorEngine, commands: seq<Command>) returns (again: Opening)
    requires ve.Valid() && ve.dim > 0 && ve.wal != null && ve.wal.file == [] && ve.wal.cursor == 0
    modifies ve, ve.index, ve.wal
    ensures var outcome := Reopening(ve.dim, TraceOf(ve.dim, commands));
            && (again.Running? <==> outcome.Repeats?)
            && (again.Refused? <==> outcome.Refuses?)
            && (again.Running? ==>
                  again.ve.Valid()
                  && var was := Reopened(Run(ve.Fixed(), old(ve.State()), commands).0, ve.dataFile, ve.dim);
                  again.ve.State() == Run(ve.Fixed(), was, outcome.commands).0)
  {
    hide VectorEngine.Valid, Latest, Replaying, Run, LogAfter, Reopening, TraceOf, FileBytes, WholeRows;
    var replies := Execute(ve, commands);
    ReopeningAfter(ve.dim, commands);
    again := CloseAndReopen(ve);
  }
}
