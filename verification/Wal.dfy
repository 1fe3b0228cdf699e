/** The write-ahead log of `internal/wal/wal.go`. */
module Wal {
  import opened Bits
  import opened Bytes
  import opened Wrappers

  type Entry = (Str, Str)

  /** What is logged: a pending entry or the deletion of a key. */
  datatype Op = Put(key: Str, value: Str) | Delete(key: Str) {
    function Value(): Str {
      if Put? then value else []
    }

    function Flag(): byte {
      if Put? then PENDING else DELETED
    }
  }

  const PENDING: byte := 0x50   // 'P'
  const DELETED: byte := 0x44   // 'D'
  const COMMITTED: byte := 0x43 // 'C'

  function Header(keySize: nat, valSize: nat, flag: byte): (h: seq<byte>)
    ensures |h| == 9
  {
    PutU32(keySize) + PutU32(valSize) + [flag]
  }

  function Encode(op: Op): (s: seq<byte>)
    ensures |s| == 9 + |op.key| + |op.Value()|
  {
    Header(|op.key|, |op.Value()|, op.Flag()) + op.key + op.Value()
  }

  function EncodeAll(ops: seq<Op>): seq<byte> {
    if ops == [] then [] else Encode(ops[0]) + EncodeAll(ops[1..])
  }

  /** What replaying gives for logged operations: a deletion has an empty value. */
  function Entries(ops: seq<Op>): (es: seq<Entry>)
    ensures |es| == |ops| && forall i :: 0 <= i < |ops| ==> es[i] == (ops[i].key, ops[i].Value())
  {
    seq(|ops|, i requires 0 <= i < |ops| => (ops[i].key, ops[i].Value()))
  }

  // ----- replaying, as a function of the bytes -----

  datatype ReadError = Eof | UnexpectedEof

  type Replayed = Result<seq<Entry>, ReadError>

  function Prepend(es: seq<Entry>, r: Replayed): Replayed {
    if r.Err? then r else Ok(es + r.value)
  }

  /** The record at the start of `s`: the bytes after it and what is read of it,
      or how replaying ends. */
  datatype Step = Done(result: Replayed) | Skip(rest: seq<byte>) | Read(entry: Entry, rest: seq<byte>)

  function ParseStep(s: seq<byte>): (step: Step)
    ensures !step.Done? ==> |step.rest| < |s|
  {
    if s == [] then Done(Ok([]))
    else if |s| < 9 then Done(Err(UnexpectedEof))
    else
      var keySize, valSize := GetU32(s), GetU32(s[4..]);
      if s[8] == COMMITTED then Skip(s[9..])
      else if keySize > 0 && |s| == 9 then Done(Err(Eof))
      else if |s| < 9 + keySize then Done(Ok([]))
      else if valSize > 0 && |s| == 9 + keySize then Done(Err(Eof))
      else if |s| < 9 + keySize + valSize then Done(Ok([]))
      else Read((s[9..9 + keySize], s[9 + keySize..9 + keySize + valSize]), s[9 + keySize + valSize..])
  }

  function Parse(s: seq<byte>): Replayed {
    match ParseStep(s)
    case Done(r) => r
    case Skip(rest) => Parse(rest)
    case Read(e, rest) => Prepend([e], Parse(rest))
  }

  lemma ParseUnfold(s: seq<byte>)
    ensures ParseStep(s).Done? ==> Parse(s) == ParseStep(s).result
    ensures ParseStep(s).Skip? ==> Parse(s) == Parse(ParseStep(s).rest)
    ensures ParseStep(s).Read? ==> Parse(s) == Prepend([ParseStep(s).entry], Parse(ParseStep(s).rest))
  {
  }

  lemma ParseNothing()
    ensures Parse([]) == Ok([])
  {
  }

  lemma EncodeAllHead(ops: seq<Op>)
    ensures ops == [] ==> EncodeAll(ops) == [] && Entries(ops) == []
    ensures ops != [] ==> EncodeAll(ops) == Encode(ops[0]) + EncodeAll(ops[1..])
    ensures ops != [] ==> Entries(ops) == [(ops[0].key, ops[0].Value())] + Entries(ops[1..])
  {
  }

  lemma HeaderFields(op: Op, s: seq<byte>)
    requires |s| >= 9 && s[..9] == Header(|op.key|, |op.Value()|, op.Flag())
    ensures GetU32(s) == |op.key| && GetU32(s[4..]) == |op.Value()| && s[8] == op.Flag() != COMMITTED
  {
    hide PutU32, GetU32;
    var h := s[..9];
    U32RoundTrip(|op.key|, PutU32(|op.Value()|) + [op.Flag()] + s[9..]);
    assert s == PutU32(|op.key|) + (PutU32(|op.Value()|) + [op.Flag()] + s[9..]);
    U32RoundTrip(|op.Value()|, [op.Flag()] + s[9..]);
    assert s[4..] == PutU32(|op.Value()|) + ([op.Flag()] + s[9..]);
    assert h[8] == op.Flag();
  }

  /** The bytes of a logged operation: two lengths, a flag, the key and the value. */
  lemma EncodeLayout(op: Op)
    ensures var s, value := Encode(op), if op.Put? then op.value else [];
            && GetU32(s) == |op.key| && GetU32(s[4..]) == |value|
            && s[8] == (if op.Put? then 'P' else 'D') as int
            && s[9..9 + |op.key|] == op.key && s[9 + |op.key|..] == value
  {
    hide PutU32, GetU32, Header;
    var s := Encode(op);
    assert s[..9] == Header(|op.key|, |op.Value()|, op.Flag());
    HeaderFields(op, s);
  }

  lemma ParseEncoded(op: Op, tail: seq<byte>)
    ensures ParseStep(Encode(op) + tail) == Read((op.key, op.Value()), tail)
  {
    hide PutU32, GetU32, Header;
    var s := Encode(op) + tail;
    assert s[..9] == Header(|op.key|, |op.Value()|, op.Flag());
    HeaderFields(op, s);
    assert s[9..9 + |op.key|] == op.key;
    assert s[9 + |op.key|..9 + |op.key| + |op.Value()|] == op.Value();
    assert s[9 + |op.key| + |op.Value()|..] == tail;
  }

  lemma PrependTwice(a: seq<Entry>, b: seq<Entry>, r: Replayed)
    ensures Prepend(a, Prepend(b, r)) == Prepend(a + b, r)
    ensures Prepend([], r) == r
  {
    if r.Ok? {
      assert a + (b + r.value) == a + b + r.value;
      assert [] + r.value == r.value;
    }
  }

  /** Logged operations are read back in order, before whatever follows them. */
  lemma {:induction false} ParseAll(ops: seq<Op>, tail: seq<byte>)
    ensures Parse(EncodeAll(ops) + tail) == Prepend(Entries(ops), Parse(tail))
  {
    hide Parse, ParseStep, EncodeAll, Encode, Entries, Prepend;
    EncodeAllHead(ops);
    PrependTwice([], [], Parse(tail));
    if ops == [] {
      assert EncodeAll(ops) + tail == tail;
    } else {
      var rest := EncodeAll(ops[1..]) + tail;
      assert EncodeAll(ops) + tail == Encode(ops[0]) + rest;
      ParseEncoded(ops[0], rest);
      ParseUnfold(Encode(ops[0]) + rest);
      ParseAll(ops[1..], tail);
      PrependTwice([(ops[0].key, ops[0].Value())], Entries(ops[1..]), Parse(tail));
    }
  }

  /** A log holds exactly what was logged. */
  lemma ReplayReturnsLogged(ops: seq<Op>)
    ensures Parse(EncodeAll(ops)) == Ok(Entries(ops))
  {
    hide Parse, EncodeAll, Entries;
    ParseAll(ops, []);
    ParseNothing();
    assert EncodeAll(ops) + [] == EncodeAll(ops);
    assert Entries(ops) + [] == Entries(ops);
  }

  /** Bytes that replaying passes over without finding anything: none, or a header
      with a commit flag and such bytes behind it, or a header that announces more
      than there is, torn inside its key or inside its value. */
  predicate Skipped(s: seq<byte>) {
    s == [] ||
    (|s| >= 9 &&
     if s[8] == COMMITTED then Skipped(s[9..])
     else
       var keySize, valSize := GetU32(s), GetU32(s[4..]);
       9 < |s| < 9 + keySize || 9 + keySize < |s| < 9 + keySize + valSize)
  }

  lemma {:induction false} NothingIsRead(s: seq<byte>)
    ensures Parse(s) == Ok([]) <==> Skipped(s)
    decreases |s|
  {
    hide Parse, GetU32;
    ParseUnfold(s);
    match ParseStep(s)
    case Done(_) =>
    case Skip(rest) => NothingIsRead(rest);
    case Read(e, rest) =>
  }

  /** Bytes that replaying fails on: a header without all its bytes, or one with none of
      the bytes it announces next, after whole records and committed headers. */
  predicate Unreadable(s: seq<byte>) {
    s != [] &&
    (|s| < 9 ||
     if s[8] == COMMITTED then Unreadable(s[9..])
     else
       var keySize, valSize := GetU32(s), GetU32(s[4..]);
       || (keySize > 0 && |s| == 9)
       || (valSize > 0 && |s| == 9 + keySize)
       || (|s| >= 9 + keySize + valSize && Unreadable(s[9 + keySize + valSize..])))
  }

  lemma {:induction false} UnreadableIs(s: seq<byte>)
    ensures Parse(s).Err? <==> Unreadable(s)
    decreases |s|
  {
    hide Parse, GetU32;
    ParseUnfold(s);
    match ParseStep(s)
    case Done(_) =>
    case Skip(rest) => UnreadableIs(rest);
    case Read(e, rest) => UnreadableIs(rest);
  }

  // ----- torn logs -----

  /** A tear `n` bytes into a record is an error in the header, and where the
      next field that is not empty has no byte left. */
  predicate TearIsError(op: Op, n: nat) {
    0 < n < 9 || (n == 9 && op.key != []) || (n == 9 + |op.key| && op.Value() != [])
  }

  lemma ParseTorn(op: Op, n: nat)
    requires 0 < n < |Encode(op)|
    ensures Parse(Encode(op)[..n]).Err? <==> TearIsError(op, n)
    ensures !TearIsError(op, n) ==> Parse(Encode(op)[..n]) == Ok([])
  {
    hide PutU32, GetU32, Header, Parse;
    var s := Encode(op)[..n];
    ParseUnfold(s);
    if n >= 9 {
      assert s[..9] == Header(|op.key|, |op.Value()|, op.Flag());
      HeaderFields(op, s);
    }
  }

  /** After any truncation of a log, replaying fails or returns exactly the
      operations that are still whole: `m` of them, with `n` bytes of the next. */
  lemma {:induction false} TornLog(ops: seq<Op>, size: nat) returns (m: nat, n: nat)
    requires size <= |EncodeAll(ops)|
    ensures m <= |ops| && size == |EncodeAll(ops[..m])| + n
    ensures if m == |ops| then n == 0 else n < |Encode(ops[m])|
    ensures Parse(EncodeAll(ops)[..size]).Err? <==> m < |ops| && TearIsError(ops[m], n)
    ensures Parse(EncodeAll(ops)[..size]).Ok? ==> Parse(EncodeAll(ops)[..size]) == Ok(Entries(ops[..m]))
  {
    hide Parse, ParseStep, EncodeAll, Encode, Entries;
    EncodeAllHead(ops);
    EncodeAllHead([]);
    ParseNothing();
    if ops == [] {
      m, n := 0, 0;
      assert EncodeAll(ops)[..size] == [] && ops[..m] == [];
    } else if size < |Encode(ops[0])| {
      m, n := 0, size;
      assert EncodeAll(ops)[..size] == Encode(ops[0])[..size] && ops[..m] == [];
      if size > 0 { ParseTorn(ops[0], size); } else { assert EncodeAll(ops)[..size] == []; }
    } else {
      var size' := size - |Encode(ops[0])|;
      m, n := TornLog(ops[1..], size');
      var torn := EncodeAll(ops[1..])[..size'];
      assert EncodeAll(ops)[..size] == Encode(ops[0]) + torn;
      ParseEncoded(ops[0], torn);
      ParseUnfold(Encode(ops[0]) + torn);
      m := m + 1;
      EncodeAllHead(ops[..m]);
      assert ops[..m][1..] == ops[1..][..m - 1];
    }
  }

  // ----- commit marks -----

  /** The log after a commit mark: the flag of the first record is set. */
  function Marked(file: seq<byte>): (f: seq<byte>)
    ensures |f| == if |file| < 9 then 9 else |file|
  {
    FileWrite(file, 8, [COMMITTED])
  }

  /** What is left of the old log behind `size` bytes written after a mark. */
  function LeftBehind(file: seq<byte>, size: nat): seq<byte> {
    if 9 + size < |file| then file[9 + size..] else []
  }

  lemma MarkedBytes(file: seq<byte>, data: seq<byte>)
    ensures var f := FileWrite(Marked(file), 9, data);
            |f| >= 9 && f[8] == COMMITTED && f[9..] == data + LeftBehind(file, |data|)
    ensures FileWrite(Marked(file), 9, []) == Marked(file)
  {
    hide Marked, FileWrite;
    MarkBytes(file);
    WrittenBehindMark(Marked(file), data);
    WrittenBehindMark(Marked(file), []);
    var g := Marked(file);
    if 9 + |data| < |file| {
      assert g[9..][|data|..] == file[9..][|data|..] == file[9 + |data|..];
    }
  }

  /** A mark is the letter C at offset 8, and nothing else. */
  lemma MarkedIs(file: seq<byte>)
    ensures Marked(file)[8] == 'C' as int
    ensures forall i :: 0 <= i < |Marked(file)| && i != 8 ==>
              Marked(file)[i] == if i < |file| then file[i] else 0
  {
    hide FileWrite;
    assert Marked(file)[8] == Marked(file)[8..9][0];
  }

  lemma MarkBytes(file: seq<byte>)
    ensures Marked(file)[8] == COMMITTED && Marked(file)[9..] == if 9 < |file| then file[9..] else []
  {
    assert Marked(file)[8..9] == [COMMITTED];
  }

  lemma WrittenBehindMark(g: seq<byte>, data: seq<byte>)
    requires |g| >= 9
    ensures var f := FileWrite(g, 9, data);
            && |f| >= 9 && f[8] == g[8]
            && f[9..] == data + (if |data| < |g[9..]| then g[9..][|data|..] else [])
            && (data == [] ==> f == g)
  {
    var f := FileWrite(g, 9, data);
    assert f[..9] == g[..9];
    assert g == g[..9] + g[9..];
  }

  /** A log stays marked when more is written behind the mark. */
  lemma MarkedAgain(file: seq<byte>, data: seq<byte>)
    ensures Marked(FileWrite(Marked(file), 9, data)) == FileWrite(Marked(file), 9, data)
  {
    hide FileWrite;
    MarkedBytes(file, data);
    MarkIsThere(FileWrite(Marked(file), 9, data));
  }

  lemma MarkIsThere(g: seq<byte>)
    requires |g| >= 9 && g[8] == COMMITTED
    ensures Marked(g) == g
  {
    assert g == g[..8] + [COMMITTED] + g[9..];
  }

  /** Replaying a marked log passes over the first header and reads on with the
      bytes behind it. */
  lemma ParseMarked(file: seq<byte>, data: seq<byte>)
    ensures Parse(FileWrite(Marked(file), 9, data)) == Parse(data + LeftBehind(file, |data|))
  {
    hide FileWrite, Marked, Parse, LeftBehind, GetU32;
    MarkedBytes(file, data);
    ParseUnfold(FileWrite(Marked(file), 9, data));
  }

  /** A new batch written after a commit mark is read back, followed by whatever
      is left of the old log behind it. */
  lemma BatchAfterCommit(file: seq<byte>, ops: seq<Op>)
    ensures Parse(FileWrite(Marked(file), 9, EncodeAll(ops)))
         == Prepend(Entries(ops), Parse(LeftBehind(file, |EncodeAll(ops)|)))
  {
    hide FileWrite, Marked, Parse, LeftBehind, EncodeAll, Entries, Prepend;
    ParseMarked(file, EncodeAll(ops));
    ParseAll(ops, LeftBehind(file, |EncodeAll(ops)|));
  }

  /** So exactly the new batch is read back just when there is nothing to read in
      what is left of the old log, for one if the batch covers it all. */
  lemma BatchAloneAfterCommit(file: seq<byte>, ops: seq<Op>)
    ensures Parse(FileWrite(Marked(file), 9, EncodeAll(ops))) == Ok(Entries(ops))
      <==> Skipped(LeftBehind(file, |EncodeAll(ops)|))
    ensures |EncodeAll(ops)| >= |file| - 9 ==>
              Parse(FileWrite(Marked(file), 9, EncodeAll(ops))) == Ok(Entries(ops))
  {
    hide FileWrite, Marked, Parse, EncodeAll, Entries;
    BatchAfterCommit(file, ops);
    ParseNothing();
    NothingIsRead(LeftBehind(file, |EncodeAll(ops)|));
    var left := Parse(LeftBehind(file, |EncodeAll(ops)|));
    if left.Ok? {
      assert |Entries(ops) + left.value| == |Entries(ops)| + |left.value|;
      assert Entries(ops) + [] == Entries(ops);
    }
  }

  /** A committed entry is meant to be skipped.  Only its header is: replaying goes
      on inside the key and the value, and the entry is skipped just when there is
      nothing to be read in them. */
  lemma CommittedEntryIsReadAgain(op: Op)
    ensures Parse(Marked(Encode(op))) == Parse(op.key + op.Value())
    ensures Parse(Marked(Encode(op))) == Ok([]) <==> Skipped(op.key + op.Value())
    ensures 0 < |op.key| + |op.Value()| < 9 ==> Parse(Marked(Encode(op))).Err?
  {
    hide FileWrite, Marked, Parse, Header, GetU32, Skipped;
    ParseMarked(Encode(op), []);
    MarkedBytes(Encode(op), []);
    assert [] + LeftBehind(Encode(op), 0) == op.key + op.Value();
    ParseUnfold(op.key + op.Value());
    NothingIsRead(op.key + op.Value());
  }

  /** A committed entry can come back as another one that was never logged: its key
      of nine bytes reads as a header with a commit flag, and its value as a
      record. */
  lemma CommittedEntryInvented(outer: Op, op: Op)
    requires |outer.key| == 9 && outer.key[8] == COMMITTED && outer.Value() == Encode(op)
    ensures Parse(Marked(Encode(outer))) == Ok(Entries([op]))
  {
    hide Marked, Parse, Encode, Entries, EncodeAll, GetU32;
    CommittedEntryIsReadAgain(outer);
    var s := outer.key + Encode(op);
    ParseUnfold(s);
    assert s[9..] == Encode(op);
    EncodeAllHead([op]);
    EncodeAllHead([]);
    assert [op][1..] == [] && EncodeAll([op]) == Encode(op);
    ReplayReturnsLogged([op]);
  }

  // ----- emptied logs -----

  /** What nine zero bytes read as: an entry with an empty key and an empty value. */
  function Blanks(n: nat): (es: seq<Entry>)
    ensures |es| == n && forall e :: e in es ==> e == ([], [])
  {
    seq(n, _ => ([], []))
  }

  lemma {:induction false} ParseZeros(n: nat, s: seq<byte>)
    ensures Parse(Zeros(9 * n) + s) == Prepend(Blanks(n), Parse(s))
  {
    hide Parse, Prepend;
    PrependTwice([], [], Parse(s));
    if n == 0 {
      assert Zeros(0) + s == s;
    } else {
      var rest := Zeros(9 * (n - 1)) + s;
      var file := Zeros(9 * n) + s;
      assert file == Zeros(9) + rest;
      ParseUnfold(file);
      assert file[9..] == rest && file[9..9] == [];
      ParseZeros(n - 1, s);
      PrependTwice([([], [])], Blanks(n - 1), Parse(s));
      assert Blanks(n) == [([], [])] + Blanks(n - 1);
    }
  }

  /** Clearing a log keeps its cursor, so what is written next stands behind zeros.
      When these make up whole headers it is read back behind blank entries. */
  lemma BehindZeros(cursor: nat, data: seq<byte>)
    ensures Parse(FileWrite([], cursor, data))
         == Prepend(Blanks(cursor / 9), Parse(Zeros(cursor % 9) + data))
    ensures cursor % 9 == 0 ==>
              Parse(FileWrite([], cursor, data)) == Prepend(Blanks(cursor / 9), Parse(data))
  {
    hide Parse, Prepend;
    var n, r := cursor / 9, cursor % 9;
    ParseZeros(n, Zeros(r) + data);
    assert FileWrite([], cursor, data) == Zeros(9 * n) + (Zeros(r) + data);
    assert r == 0 ==> Zeros(r) + data == data;
  }

  /** The entry `("a", "v")` as it is logged. */
  function Short(): (s: seq<byte>)
    ensures s == Encode(Put([0x61], [0x76]))
  {
    [1, 0, 0, 0, 1, 0, 0, 0, PENDING, 0x61, 0x76]
  }

  /** Behind any other number of zeros it is never read back. */
  lemma MisalignedEntry(cursor: nat)
    requires cursor % 9 != 0
    ensures var r := Parse(FileWrite([], cursor, Encode(Put([0x61], [0x76]))));
            r.Err? || forall e :: e in r.value ==> e == ([], [])
  {
    hide Parse, FileWrite, Encode;
    BehindZeros(cursor, Short());
    var r := cursor % 9;
    var rest := Parse(Zeros(r) + Short());
    assert rest.Err? || rest == Ok([]) || rest == Ok(Blanks(1)) by {
      if r < 4 {
        KeyTooLong(r);
      } else if r == 4 {
        ShiftedByFour();
      } else if r < 8 {
        ValueTooLong(r);
      } else {
        ShiftedByEight();
      }
    }
    assert Parse(FileWrite([], cursor, Short())) == Prepend(Blanks(cursor / 9), rest);
  }

  lemma KeyTooLong(r: nat)
    requires 1 <= r <= 3
    ensures Parse(Zeros(r) + Short()) == Ok([])
  {
    hide Parse;
    var s := Zeros(r) + Short();
    ParseUnfold(s);
    assert s[8] == 0 && s[r] == 1;
  }

  lemma ValueTooLong(r: nat)
    requires 5 <= r <= 7
    ensures Parse(Zeros(r) + Short()) == Ok([])
  {
    hide Parse;
    var s := Zeros(r) + Short();
    ParseUnfold(s);
    assert s[8] == 0 && s[r] == 1 && s[0] == s[1] == s[2] == s[3] == 0;
    assert s[4..][r - 4] == 1;
  }

  lemma ShiftedByFour()
    ensures Parse(Zeros(4) + Short()).Err?
  {
    hide Parse;
    var s := Zeros(4) + Short();
    assert s == [0, 0, 0, 0, 1, 0, 0, 0, 1, 0, 0, 0, PENDING, 0x61, 0x76];
    assert s[4..][..4] == [1, 0, 0, 0];
    assert GetU32(s) == 0 && GetU32(s[4..]) == 1;
    hide GetU32;
    ParseUnfold(s);
    ParseUnfold(s[10..]);
  }

  lemma ShiftedByEight()
    ensures Parse(Zeros(8) + Short()) == Ok(Blanks(1))
  {
    hide Parse;
    var s := Zeros(8) + Short();
    ParseUnfold(s);
    assert s[8] == 1 && s[9..9] == [];
    var rest := s[9..];
    assert rest[3] == 1 && rest[8] == 0x61;
    ParseUnfold(rest);
    var blank: seq<Entry> := [([], [])];
    assert blank + [] == blank == Blanks(1);
  }

  // ----- the log itself -----

  class WAL {
    var file: seq<byte>
    var cursor: nat

    constructor (file: seq<byte>)
      ensures this.file == file && cursor == 0
    {
      this.file, cursor := file, 0;
    }

    method Write(data: seq<byte>)
      modifies this
      ensures file == FileWrite(old(file), old(cursor), data) && cursor == old(cursor) + |data|
    {
      file := FileWrite(file, cursor, data);
      cursor := cursor + |data|;
    }

    method WriteEntry(key: Str, value: Str)
      modifies this
      ensures file == FileWrite(old(file), old(cursor), Encode(Put(key, value)))
      ensures cursor == old(cursor) + |Encode(Put(key, value))|
    {
      hide PutU32, FileWrite;
      Write(PutU32(|key|) + PutU32(|value|) + [PENDING] + key + value);
    }

    method WriteDelete(key: Str)
      modifies this
      ensures file == FileWrite(old(file), old(cursor), Encode(Delete(key)))
      ensures cursor == old(cursor) + |Encode(Delete(key))|
    {
      hide PutU32, FileWrite;
      assert PutU32(|key|) + PutU32(0) + [DELETED] + key == Encode(Delete(key));
      Write(PutU32(|key|) + PutU32(0) + [DELETED] + key);
    }

    /** Sets the flag of the first record; the next write goes right behind its
        header. */
    method MarkCommitted()
      modifies this
      ensures file == Marked(old(file)) && cursor == 9
    {
      cursor := 8;
      Write([COMMITTED]);
    }

    /** Empties the file; the cursor stays where it was. */
    method Clear()
      modifies this`file
      ensures file == []
    {
      file := [];
    }

    /** `io.ReadFull` of `n` bytes. */
    method ReadFull(n: nat) returns (r: Result<seq<byte>, ReadError>)
      requires cursor <= |file|
      modifies this`cursor
      ensures old(cursor) <= cursor <= |file|
      ensures r == if old(cursor) + n <= |file| then Ok(file[old(cursor)..old(cursor) + n])
                   else if old(cursor) == |file| then Err(Eof) else Err(UnexpectedEof)
      ensures cursor == if old(cursor) + n <= |file| then old(cursor) + n else |file|
    {
      if cursor + n <= |file| {
        r := Ok(file[cursor..cursor + n]);
        cursor := cursor + n;
      } else {
        r := if cursor == |file| then Err(Eof) else Err(UnexpectedEof);
        cursor := |file|;
      }
    }

    /** One round of the replaying loop, from the cursor on. */
    method ReadRecord() returns (step: Step)
      requires cursor <= |file|
      modifies this`cursor
      ensures step == ParseStep(file[old(cursor)..])
      ensures old(cursor) <= cursor <= |file|
      ensures if step.Done? then cursor == |file| else step.rest == file[cursor..] && cursor > old(cursor)
    {
      hide GetU32;
      ghost var start, s := cursor, file[cursor..];
      var header := ReadFull(9);
      if header == Err(Eof) {
        return Done(Ok([]));
      } else if header.Err? {
        return Done(Err(header.error));
      }
      var keySize, valSize := GetU32(header.value), GetU32(header.value[4..]);
      SliceOfRest(file, start, 0, 9);
      SameHeader(s, header.value);
      if header.value[8] == COMMITTED {
        return Skip(file[cursor..]);
      }
      var key := ReadFull(keySize);
      if key == Err(UnexpectedEof) {
        return Done(Ok([]));
      }
      if key.Err? {
        return Done(Err(key.error));
      }
      var val := ReadFull(valSize);
      if val == Err(UnexpectedEof) {
        return Done(Ok([]));
      }
      if val.Err? {
        return Done(Err(val.error));
      }
      step := Read((key.value, val.value), file[cursor..]);
      SliceOfRest(file, start, 9, 9 + keySize);
      SliceOfRest(file, start, 9 + keySize, 9 + keySize + valSize);
    }

    /** Reads the whole log from the start. */
    method Replay() returns (r: Replayed)
      modifies this`cursor
      ensures r == Parse(file) && cursor == |file|
    {
      hide Parse, ParseStep, Prepend;
      cursor := 0;
      var entries: seq<Entry> := [];
      assert file[0..] == file;
      PrependTwice([], [], Parse(file));
      ghost var result := Parse(file);
      while true
        invariant cursor <= |file| && result == Prepend(entries, Parse(file[cursor..]))
        decreases |file| - cursor
      {
        ghost var s := file[cursor..];
        ParseUnfold(s);
        EndOfReplay(entries, s);
        var step := ReadRecord();
        match step {
          case Done(Ok(_)) => return Ok(entries);
          case Done(Err(e)) => return Err(e);
          case Skip(_) =>
          case Read(e, _) =>
            PrependTwice(entries, [e], Parse(file[cursor..]));
            entries := entries + [e];
        }
      }
    }
  }

  lemma EndOfReplay(entries: seq<Entry>, s: seq<byte>)
    ensures ParseStep(s).Done? && ParseStep(s).result.Ok? ==>
              ParseStep(s).result == Ok([]) && Prepend(entries, Parse(s)) == Ok(entries)
    ensures ParseStep(s).Done? && ParseStep(s).result.Err? ==> Prepend(entries, Parse(s)) == ParseStep(s).result
  {
    assert entries + [] == entries;
  }

  lemma SliceOfRest(file: seq<byte>, start: nat, from: nat, to: nat)
    requires from <= to && start + to <= |file|
    ensures file[start..][from..to] == file[start + from..start + to] && file[start..][to..] == file[start + to..]
  {
  }

  lemma SameHeader(s: seq<byte>, h: seq<byte>)
    requires |h| == 9 <= |s| && s[..9] == h
    ensures GetU32(s) == GetU32(h) && GetU32(s[4..]) == GetU32(h[4..]) && s[8] == h[8]
  {
    assert forall i :: 0 <= i < 9 ==> s[i] == s[..9][i];
  }

  // ----- runs of the log -----

  lemma {:induction false} EncodeAllLast(ops: seq<Op>, op: Op)
    ensures EncodeAll(ops + [op]) == EncodeAll(ops) + Encode(op)
  {
    hide Encode, EncodeAll;
    EncodeAllHead(ops);
    EncodeAllHead(ops + [op]);
    if ops == [] {
      EncodeAllHead([]);
      assert (ops + [op])[1..] == [];
    } else {
      EncodeAllLast(ops[1..], op);
      assert (ops + [op])[1..] == ops[1..] + [op];
    }
  }

  /** Logs operations one by one. */
  method LogAll(log: WAL, ops: seq<Op>)
    requires log.cursor <= |log.file|
    modifies log
    ensures log.file == FileWrite(old(log.file), old(log.cursor), EncodeAll(ops))
  {
    hide FileWrite, Encode, EncodeAll;
    ghost var file, start := log.file, log.cursor;
    EncodeAllHead([]);
    WriteNothing(file, start);
    for i := 0 to |ops|
      invariant log.cursor == start + |EncodeAll(ops[..i])|
      invariant log.file == FileWrite(file, start, EncodeAll(ops[..i]))
    {
      match ops[i] {
        case Put(key, value) => log.WriteEntry(key, value);
        case Delete(key) => log.WriteDelete(key);
      }
      WriteTwice(file, start, EncodeAll(ops[..i]), Encode(ops[i]));
      EncodeAllLast(ops[..i], ops[i]);
      assert ops[..i + 1] == ops[..i] + [ops[i]];
    }
    assert ops[..|ops|] == ops;
  }

  lemma WriteNothing(file: seq<byte>, pos: nat)
    requires pos <= |file|
    ensures FileWrite(file, pos, []) == file
  {
  }

  /** Any mix of entries and deletions, logged to an empty log and replayed. */
  method LogAndReplay(ops: seq<Op>) returns (r: Replayed)
    ensures r == Ok(Entries(ops))
  {
    hide FileWrite, EncodeAll, Parse, Entries;
    var log := new WAL([]);
    LogAll(log, ops);
    AppendWrite([], EncodeAll(ops));
    assert [] + EncodeAll(ops) == EncodeAll(ops);
    ReplayReturnsLogged(ops);
    r := log.Replay();
  }

  /** A commit mark, a new batch, and a replay, on any log. */
  method CommitAndReplay(log: WAL, ops: seq<Op>) returns (r: Replayed)
    modifies log
    ensures r == Prepend(Entries(ops), Parse(LeftBehind(old(log.file), |EncodeAll(ops)|)))
  {
    hide FileWrite, Marked, EncodeAll, Parse, Entries, Prepend, LeftBehind;
    BatchAfterCommit(log.file, ops);
    log.MarkCommitted();
    LogAll(log, ops);
    r := log.Replay();
  }
}
