/** The key-value engine of `internal/storage/key_value_storage.go`: a batch of
    pending writes over an append-only data file with an index, and a log. */
module KeyValueStorage {
  import opened Bits
  import opened Bytes
  import opened Wrappers
  import I = BTreeIndex
  import W = Wal

  datatype Failure = NotFound | ReadFailed | Deleted | KeyMismatch

  type Content = map<Str, Str>

  /** "__deleted__" */
  const SENTINEL: Str := [0x5f, 0x5f, 0x64, 0x65, 0x6c, 0x65, 0x74, 0x65, 0x64, 0x5f, 0x5f]

  lemma SentinelIs()
    ensures |SENTINEL| == |"__deleted__"|
    ensures forall i :: 0 <= i < |SENTINEL| ==> SENTINEL[i] == "__deleted__"[i] as int
  {
  }

  // ----- the two-layer map the engine stands for -----

  /** Pending writes over durable values.  The keys in `stray` are in the index, but
      not at a record of theirs; files of an engine have none but the empty key, to
      which the padding of the index file gives position 0, and keys whose records
      start beyond 4 GiB.  What is read for them is no promise of the map. */
  datatype Store = Store(pending: Content, durable: Content, stray: set<Str>) {
    function Get(key: Str): Result<Str, Failure> {
      if key in pending then Ok(pending[key])
      else if key !in durable then Err(NotFound)
      else if durable[key] == SENTINEL then Err(Deleted)
      else Ok(durable[key])
    }

    function Put(key: Str, value: Str): Store {
      this.(pending := pending[key := value])
    }

    function Flush(): Store {
      Store(map[], durable + pending, stray - pending.Keys)
    }

    function Delete(key: Str): Store {
      this.(durable := durable - {key}, stray := stray - {key})
    }

    /** A value put is read back, whatever it is, and no other key reads differently. */
    lemma PutIsRead(key: Str, value: Str, other: Str)
      ensures Put(key, value).Get(key) == Ok(value)
      ensures other != key ==> Put(key, value).Get(other) == Get(other)
      ensures Put(key, value).durable == durable && Put(key, value).stray == stray
    {
    }

    /** Flushing leaves nothing pending, and what was pending is durable in place of what was
        there before. */
    lemma FlushIsDurable(key: Str)
      ensures key !in Flush().pending
      ensures key in Flush().durable <==> key in pending || key in durable
      ensures key in Flush().durable ==> Flush().durable[key] == if key in pending then pending[key] else durable[key]
      ensures key in Flush().stray <==> key in stray && key !in pending
    {
    }

    /** Deleting a key leaves the others as they are. */
    lemma DeleteLeavesOthers(key: Str, other: Str)
      requires other != key
      ensures Delete(key).Get(other) == Get(other) && (other in Delete(key).stray <==> other in stray)
      ensures Delete(key).Flush().Get(other) == Flush().Get(other)
    {
    }

    /** Flushing changes what `Get` answers for a key just when the sentinel is
        pending for it. */
    lemma FlushIsInvisible(key: Str)
      ensures Flush().Get(key) == Get(key) <==> !(key in pending && pending[key] == SENTINEL)
    {
    }

    /** Deleting only looks at what is flushed: the key is gone just when nothing is
        pending for it, and a pending value comes back with the next flush. */
    lemma DeleteMissesPending(key: Str)
      ensures Delete(key).Get(key) == Err(NotFound) <==> key !in pending
      ensures key in pending ==> Delete(key).Get(key) == Get(key)
      ensures key in Delete(key).Flush().durable <==> key in pending
      ensures key in pending ==> Delete(key).Flush().durable[key] == pending[key]
    {
    }
  }

  // ----- records in the data file -----

  function Record(key: Str, value: Str): (s: seq<byte>)
    ensures |s| == 8 + |key| + |value|
  {
    PutU32(|key|) + PutU32(|value|) + key + value
  }

  ghost predicate RecordAt(file: seq<byte>, pos: nat, key: Str, value: Str) {
    pos + |Record(key, value)| <= |file| && file[pos..pos + |Record(key, value)|] == Record(key, value)
  }

  lemma RecordStays(file: seq<byte>, more: seq<byte>, pos: nat, key: Str, value: Str)
    requires RecordAt(file, pos, key, value)
    ensures RecordAt(file + more, pos, key, value)
  {
    hide Record;
    var n := pos + |Record(key, value)|;
    assert (file + more)[pos..n] == file[pos..n];
  }

  /** `ReadAt` of `n` bytes. */
  function ReadAt(file: seq<byte>, pos: nat, n: nat): Result<seq<byte>, Failure> {
    if n == 0 then Ok([])
    else if pos + n <= |file| then Ok(file[pos..pos + n])
    else Err(ReadFailed)
  }

  /** What reading a record at `pos` for `key` comes to. */
  function ReadRecord(file: seq<byte>, pos: nat, key: Str): (r: Result<Str, Failure>)
    ensures r != Ok(SENTINEL) && r != Err(NotFound)
  {
    if pos + 8 > |file| then Err(ReadFailed)
    else
      var keySize, valSize := GetU32(file[pos..]), GetU32(file[pos + 4..]);
      var k, v := ReadAt(file, pos + 8, keySize), ReadAt(file, pos + 8 + keySize, valSize);
      if k.Err? then Err(ReadFailed)
      else if v.Err? then Err(ReadFailed)
      else if k.value != key then Err(KeyMismatch)
      else if v.value == SENTINEL then Err(Deleted)
      else Ok(v.value)
  }

  lemma RecordFields(s: seq<byte>, key: Str, value: Str)
    requires |Record(key, value)| <= |s| && s[..|Record(key, value)|] == Record(key, value)
    ensures GetU32(s) == |key| && GetU32(s[4..]) == |value|
    ensures s[8..8 + |key|] == key && s[8 + |key|..8 + |key| + |value|] == value
  {
    hide PutU32, GetU32;
    var rest := s[|Record(key, value)|..];
    assert s == PutU32(|key|) + (PutU32(|value|) + key + value + rest);
    U32RoundTrip(|key|, PutU32(|value|) + key + value + rest);
    assert s[4..] == PutU32(|value|) + (key + value + rest);
    U32RoundTrip(|value|, key + value + rest);
  }

  /** A well-formed record is read as what it is. */
  lemma ReadWellFormed(file: seq<byte>, pos: nat, key: Str, value: Str)
    requires RecordAt(file, pos, key, value)
    ensures ReadRecord(file, pos, key) == if value == SENTINEL then Err(Deleted) else Ok(value)
  {
    hide Record, GetU32;
    var n := |Record(key, value)|;
    var s := file[pos..];
    assert s[..n] == file[pos..pos + n];
    RecordFields(s, key, value);
    assert s[4..] == file[pos + 4..];
    assert file[pos + 8..pos + 8 + |key|] == s[8..8 + |key|];
    assert file[pos + 8 + |key|..pos + n] == s[8 + |key|..8 + |key| + |value|];
  }

  /** Which error reading a record comes to: one for a file that ends too soon, else one for
      another key, else one for the sentinel. */
  lemma ReadErrors(file: seq<byte>, pos: nat, key: Str)
    ensures var r := ReadRecord(file, pos, key);
            if pos + 8 > |file| then r == Err(ReadFailed)
            else
              var keySize, valSize := GetU32(file[pos..]), GetU32(file[pos + 4..]);
              var keyEnd := pos + 8 + keySize;
              && (r == Err(ReadFailed) <==>
                    (keySize > 0 && keyEnd > |file|) || (valSize > 0 && keyEnd + valSize > |file|))
              && (r == Err(KeyMismatch) <==>
                    r != Err(ReadFailed) && !(|key| == keySize && (keySize == 0 || file[pos + 8..keyEnd] == key)))
              && (r == Err(Deleted) ==> valSize == |SENTINEL| && file[keyEnd..keyEnd + valSize] == SENTINEL)
              && (r.Ok? ==> |r.value| == valSize && (valSize == 0 || file[keyEnd..keyEnd + valSize] == r.value))
              && r != Err(NotFound)
  {
    hide GetU32;
  }

  /** The value of the record for `key` at `pos`, if there is one. */
  function RecordValue(file: seq<byte>, pos: nat, key: Str): Option<Str> {
    match ReadRecord(file, pos, key)
    case Ok(value) => Some(value)
    case Err(Deleted) => Some(SENTINEL)
    case Err(_) => None
  }

  /** Reading succeeds exactly at well-formed records of the key. */
  lemma RecordValueIs(file: seq<byte>, pos: nat, key: Str, value: Str)
    ensures RecordValue(file, pos, key) == Some(value) <==> RecordAt(file, pos, key, value)
  {
    hide ReadRecord, RecordAt;
    if RecordAt(file, pos, key, value) {
      ReadWellFormed(file, pos, key, value);
    }
    if RecordValue(file, pos, key) == Some(value) {
      ReadIsWellFormed(file, pos, key, value);
    }
  }

  lemma ReadIsWellFormed(file: seq<byte>, pos: nat, key: Str, value: Str)
    requires ReadRecord(file, pos, key) == if value == SENTINEL then Err(Deleted) else Ok(value)
    ensures RecordAt(file, pos, key, value)
  {
    hide PutU32, GetU32, RecordAt;
    BytesAreRecord(file, pos, key, value);
  }

  lemma BytesAreRecord(file: seq<byte>, pos: nat, key: Str, value: Str)
    requires pos + 8 + |key| + |value| <= |file|
    requires GetU32(file[pos..]) == |key| && GetU32(file[pos + 4..]) == |value|
    requires file[pos + 8..pos + 8 + |key|] == key
    requires file[pos + 8 + |key|..pos + 8 + |key| + |value|] == value
    ensures RecordAt(file, pos, key, value)
  {
    hide PutU32, GetU32;
    U32Bytes(file[pos..]);
    U32Bytes(file[pos + 4..]);
    var n := pos + 8 + |key| + |value|;
    assert file[pos..n] == file[pos..][..4] + file[pos + 4..][..4] + key + value;
  }

  /** Every index position is that of a well-formed record of the very key, except
      for the stray keys. */
  ghost predicate Indexed(file: seq<byte>, tree: I.Tree, durable: Content, stray: set<Str>) {
    && (forall k :: k in tree <==> k in durable || k in stray)
    && durable.Keys !! stray
    && (forall k :: k in durable ==> RecordAt(file, tree[k], k, durable[k]))
  }

  /** What the files of an engine hold. */
  ghost function Held(file: seq<byte>, tree: I.Tree): Store {
    Store(map[],
          map k | k in tree && RecordValue(file, tree[k], k).Some? :: RecordValue(file, tree[k], k).value,
          set k | k in tree && RecordValue(file, tree[k], k).None?)
  }

  lemma HeldIsIndexed(file: seq<byte>, tree: I.Tree)
    ensures Indexed(file, tree, Held(file, tree).durable, Held(file, tree).stray)
  {
    hide RecordValue, RecordAt;
    forall k | k in Held(file, tree).durable
      ensures RecordAt(file, tree[k], k, Held(file, tree).durable[k])
    {
      RecordValueIs(file, tree[k], k, Held(file, tree).durable[k]);
    }
  }

  /** What `Get` answers, from the parts of the engine. */
  function Lookup(batch: Content, tree: I.Tree, file: seq<byte>, key: Str): Result<Str, Failure> {
    if key in batch then Ok(batch[key])
    else if key !in tree then Err(NotFound)
    else ReadRecord(file, tree[key], key)
  }

  /** Which is what the two-layer map answers: there is no key mismatch and no failed
      read, but for stray keys. */
  lemma LookupIsGet(batch: Content, tree: I.Tree, file: seq<byte>, durable: Content, stray: set<Str>, key: Str)
    requires Indexed(file, tree, durable, stray) && (key in stray ==> key in batch)
    ensures Lookup(batch, tree, file, key) == Store(batch, durable, stray).Get(key)
  {
    hide RecordAt, ReadRecord;
    if key in durable {
      ReadWellFormed(file, tree[key], key, durable[key]);
    }
  }

  lemma IndexOneMore(file: seq<byte>, tree: I.Tree, durable: Content, stray: set<Str>, key: Str, value: Str)
    requires Indexed(file, tree, durable, stray)
    ensures Indexed(file + Record(key, value), tree[key := |file|], durable[key := value], stray - {key})
  {
    hide Record;
    var file' := file + Record(key, value);
    assert file'[|file|..] == Record(key, value);
    forall k | k in durable
      ensures RecordAt(file', tree[k], k, durable[k])
    {
      RecordStays(file, Record(key, value), tree[k], k, durable[k]);
    }
  }

  lemma IndexOneLess(file: seq<byte>, tree: I.Tree, durable: Content, stray: set<Str>, key: Str, more: seq<byte>)
    requires Indexed(file, tree, durable, stray)
    ensures Indexed(file + more, tree - {key}, durable - {key}, stray - {key})
    ensures key !in tree ==> durable - {key} == durable && stray - {key} == stray
    ensures key in tree <==> key in durable || key in stray
  {
    hide RecordAt;
    forall k | k in durable
      ensures RecordAt(file + more, tree[k], k, durable[k])
    {
      RecordStays(file, more, tree[k], k, durable[k]);
    }
  }

  // ----- logs -----

  /** The pending writes that replaying a log comes to: entries with a value. */
  function Replayable(entries: seq<W.Entry>): Content {
    if entries == [] then map[]
    else
      var last := entries[|entries| - 1];
      var before := Replayable(entries[..|entries| - 1]);
      if last.1 != [] then before[last.0 := last.1] else before
  }

  function Recovered(log: seq<byte>): Content {
    if W.Parse(log).Ok? then Replayable(W.Parse(log).value) else map[]
  }

  /** The operations log the entries of a batch, in some order. */
  ghost predicate Logs(ops: seq<W.Op>, entries: Content) {
    && (forall i :: 0 <= i < |ops| ==> ops[i].Put? && ops[i].key in entries && ops[i].value == entries[ops[i].key])
    && (forall k :: k in entries ==> W.Put(k, entries[k]) in ops)
  }

  lemma LogsOneMore(ops: seq<W.Op>, entries: Content, rest: set<Str>, key: Str)
    requires Logs(ops, entries - rest) && key in rest && rest <= entries.Keys
    ensures Logs(ops + [W.Put(key, entries[key])], entries - (rest - {key}))
  {
    var op := W.Put(key, entries[key]);
    var now := entries - (rest - {key});
    forall k | k in now
      ensures W.Put(k, now[k]) in ops + [op]
    {
      if k == key {
        assert (ops + [op])[|ops|] == op;
      } else {
        assert k in entries - rest && W.Put(k, entries[k]) in ops;
      }
    }
  }

  /** The log after a flush: the batch written at the cursor, the commit mark set,
      and all of it dropped above one megabyte. */
  ghost predicate FlushedLog(file: seq<byte>, cursor: nat, ops: seq<W.Op>, file': seq<byte>) {
    var marked := W.Marked(FileWrite(file, cursor, W.EncodeAll(ops)));
    file' == if |marked| > 1024 * 1024 then [] else marked
  }

  /** Entries that replaying brings back: those with a value. */
  function WithValue(m: Content): (n: Content)
    ensures forall k :: k in n <==> k in m && m[k] != []
    ensures forall k :: k in n ==> n[k] == m[k]
  {
    map k | k in m && m[k] != [] :: m[k]
  }

  lemma {:induction false} ReplayableLogs(ops: seq<W.Op>, entries: Content)
    requires forall i :: 0 <= i < |ops| ==> ops[i].Put? && ops[i].key in entries && ops[i].value == entries[ops[i].key]
    ensures forall k :: k in Replayable(W.Entries(ops)) <==> k in WithValue(entries) && W.Put(k, entries[k]) in ops
    ensures forall k :: k in Replayable(W.Entries(ops)) ==> Replayable(W.Entries(ops))[k] == entries[k]
  {
    if ops != [] {
      var front, op := ops[..|ops| - 1], ops[|ops| - 1];
      ReplayableLogs(front, entries);
      assert W.Entries(ops)[..|ops| - 1] == W.Entries(front);
      assert ops == front + [op];
      assert W.Entries(ops)[|ops| - 1] == (op.key, op.value);
    }
  }

  lemma {:induction false} ReplayableConcat(a: seq<W.Entry>, b: seq<W.Entry>)
    ensures Replayable(a + b) == Replayable(a) + Replayable(b)
    decreases |b|
  {
    if b == [] {
      assert a + b == a;
    } else {
      ReplayableConcat(a, b[..|b| - 1]);
      assert (a + b)[..|a + b| - 1] == a + b[..|b| - 1];
    }
  }

  lemma {:induction false} NothingReplayable(es: seq<W.Entry>)
    requires forall e :: e in es ==> e.1 == []
    ensures Replayable(es) == map[]
  {
    if es != [] {
      NothingReplayable(es[..|es| - 1]);
    }
  }

  /** Deletions logged before a batch do not matter for what is recovered. */
  lemma RecoveredBatch(dels: seq<W.Op>, ops: seq<W.Op>, batch: Content)
    requires Logs(ops, batch) && forall d :: d in dels ==> d.Delete?
    ensures Replayable(W.Entries(dels + ops)) == WithValue(batch)
  {
    hide Replayable;
    assert W.Entries(dels + ops) == W.Entries(dels) + W.Entries(ops);
    ReplayableConcat(W.Entries(dels), W.Entries(ops));
    forall e | e in W.Entries(dels)
      ensures e.1 == []
    {
      var i :| 0 <= i < |dels| && W.Entries(dels)[i] == e;
      assert dels[i] in dels;
    }
    NothingReplayable(W.Entries(dels));
    ReplayableLogs(ops, batch);
    assert Replayable(W.Entries(ops)) == WithValue(batch);
  }

  /** A crash after a batch went to the log and before the commit mark.  An emptied
      log keeps its cursor: where that is a multiple of nine, opening again finds
      every entry of the batch that has a value. */
  lemma CrashOnEmptiedLog(cursor: nat, dels: seq<W.Op>, ops: seq<W.Op>, batch: Content)
    requires Logs(ops, batch) && (forall d :: d in dels ==> d.Delete?) && cursor % 9 == 0
    ensures Recovered(FileWrite([], cursor, W.EncodeAll(dels + ops))) == WithValue(batch)
  {
    hide W.EncodeAll, W.Parse, W.Entries, FileWrite, Replayable, WithValue;
    W.BehindZeros(cursor, W.EncodeAll(dels + ops));
    W.ReplayReturnsLogged(dels + ops);
    RecoveredBatch(dels, ops, batch);
    NothingReplayable(W.Blanks(cursor / 9));
    ReplayableConcat(W.Blanks(cursor / 9), W.Entries(dels + ops));
    assert map[] + WithValue(batch) == WithValue(batch);
  }

  /** On a log with a commit mark, the batch and what can be read of the old log
      behind it are found, or nothing if that cannot be read. */
  lemma CrashOnMarkedLog(oldLog: seq<byte>, dels: seq<W.Op>, ops: seq<W.Op>, batch: Content)
    requires Logs(ops, batch) && forall d :: d in dels ==> d.Delete?
    ensures var left := W.LeftBehind(oldLog, |W.EncodeAll(dels + ops)|);
            Recovered(FileWrite(W.Marked(oldLog), 9, W.EncodeAll(dels + ops)))
            == if W.Unreadable(left) then map[] else WithValue(batch) + Recovered(left)
    ensures |W.EncodeAll(dels + ops)| >= |oldLog| - 9 ==>
              Recovered(FileWrite(W.Marked(oldLog), 9, W.EncodeAll(dels + ops))) == WithValue(batch)
  {
    hide W.EncodeAll, W.Parse, W.Entries, FileWrite, W.Marked, Replayable, WithValue;
    W.BatchAfterCommit(oldLog, dels + ops);
    W.BatchAloneAfterCommit(oldLog, dels + ops);
    RecoveredBatch(dels, ops, batch);
    var left := W.LeftBehind(oldLog, |W.EncodeAll(dels + ops)|);
    W.UnreadableIs(left);
    if W.Parse(left).Ok? {
      ReplayableConcat(W.Entries(dels + ops), W.Parse(left).value);
    }
  }

  /** Bytes that replaying gets through without finding a value. */
  predicate Harmless(s: seq<byte>) {
    s == [] ||
    (|s| >= 9 &&
     if s[8] == W.COMMITTED then Harmless(s[9..])
     else
       var keySize, valSize := GetU32(s), GetU32(s[4..]);
       || 9 < |s| < 9 + keySize || 9 + keySize < |s| < 9 + keySize + valSize
       || (|s| >= 9 + keySize && valSize == 0 && Harmless(s[9 + keySize..])))
  }

  lemma {:induction false} HarmlessIs(s: seq<byte>)
    ensures Harmless(s) <==> !W.Unreadable(s) && Recovered(s) == map[]
    decreases |s|
  {
    hide W.Parse, GetU32, Replayable;
    NothingReplayable([]);
    W.UnreadableIs(s);
    W.ParseUnfold(s);
    match W.ParseStep(s)
    case Done(_) =>
    case Skip(rest) =>
      W.UnreadableIs(rest);
      HarmlessIs(rest);
    case Read(e, rest) =>
      W.UnreadableIs(rest);
      HarmlessIs(rest);
      if W.Parse(rest).Ok? {
        ReplayableFirst(e, W.Parse(rest).value);
      }
  }

  lemma ReplayableFirst(e: W.Entry, es: seq<W.Entry>)
    ensures Replayable([e] + es) == map[] <==> e.1 == [] && Replayable(es) == map[]
  {
    ReplayableConcat([e], es);
    assert e.1 != [] ==> e.0 in Replayable([e]);
    assert e.1 != [] ==> e.0 in Replayable([e]) + Replayable(es);
  }

  /** On a marked log every batch of a size survives such a crash if and only if the
      bytes of the old log behind it are harmless. */
  lemma LeftoverDecides(oldLog: seq<byte>, size: nat)
    requires 10 <= size < 9 + TWO_32
    ensures (forall ops, batch ::
               Logs(ops, batch) && |W.EncodeAll(ops)| == size ==>
                 Recovered(FileWrite(W.Marked(oldLog), 9, W.EncodeAll(ops))) == WithValue(batch))
       <==> Harmless(W.LeftBehind(oldLog, size))
  {
    hide Logs, Recovered, FileWrite, W.EncodeAll, WithValue, W.Marked, Harmless, W.LeftBehind, W.Unreadable;
    var left := W.LeftBehind(oldLog, size);
    HarmlessIs(left);
    if Harmless(left) {
      forall ops, batch | Logs(ops, batch) && |W.EncodeAll(ops)| == size
        ensures Recovered(FileWrite(W.Marked(oldLog), 9, W.EncodeAll(ops))) == WithValue(batch)
      {
        assert [] + ops == ops;
        CrashOnMarkedLog(oldLog, [], ops, batch);
        assert WithValue(batch) + map[] == WithValue(batch);
      }
    } else {
      var ops, batch := HarmedBatch(oldLog, size);
    }
  }

  lemma HarmedBatch(oldLog: seq<byte>, size: nat) returns (ops: seq<W.Op>, batch: Content)
    requires 10 <= size < 9 + TWO_32 && !Harmless(W.LeftBehind(oldLog, size))
    ensures Logs(ops, batch) && |W.EncodeAll(ops)| == size
    ensures Recovered(FileWrite(W.Marked(oldLog), 9, W.EncodeAll(ops))) != WithValue(batch)
  {
    hide Logs, Recovered, FileWrite, W.EncodeAll, WithValue, W.Marked, Harmless, W.LeftBehind, W.Unreadable;
    var left := W.LeftBehind(oldLog, size);
    HarmlessIs(left);
    var zeros: Content := map[[] := Repeated(0, size - 9)];
    var value: Str := if Recovered(left) == zeros then Repeated(1, size - 9) else Repeated(0, size - 9);
    assert Repeated(0, size - 9)[0] != Repeated(1, size - 9)[0];
    ops, batch := [W.Put([], value)], map[[] := value];
    assert batch[[]] == value && zeros[[]] == Repeated(0, size - 9);
    OneEntry([], value);
    BehindOneEntry(oldLog, [], value);
    if !W.Unreadable(left) {
      OverlayShows(value, Recovered(left));
    }
  }

  lemma OverlayShows(value: Str, more: Content)
    requires more != map[] && more != map[[] := value]
    ensures map[[] := value] + more != map[[] := value]
  {
    var sum := map[[] := value] + more;
    if k :| k in more && k != [] {
      assert k in sum;
    } else {
      assert more.Keys == {[]};
      assert more == map[[] := more[[]]];
      assert sum[[]] == more[[]];
    }
  }

  function Repeated(x: byte, n: nat): (s: seq<byte>)
    ensures |s| == n && forall i :: 0 <= i < n ==> s[i] == x
  {
    seq(n, _ => x)
  }

  lemma OneEntry(key: Str, value: Str)
    ensures Logs([W.Put(key, value)], map[key := value]) && |W.EncodeAll([W.Put(key, value)])| == 9 + |key| + |value|
    ensures value != [] ==> WithValue(map[key := value]) == map[key := value]
  {
    hide W.Encode;
    var ops := [W.Put(key, value)];
    assert ops[0] in ops;
    W.EncodeAllHead(ops);
    W.EncodeAllHead([]);
    assert ops[1..] == [];
  }

  /** What is recovered after a crash when one entry was logged behind the mark. */
  lemma BehindOneEntry(oldLog: seq<byte>, key: Str, value: Str)
    requires value != []
    ensures var left := W.LeftBehind(oldLog, 9 + |key| + |value|);
            Recovered(FileWrite(W.Marked(oldLog), 9, W.EncodeAll([W.Put(key, value)])))
            == if W.Unreadable(left) then map[] else map[key := value] + Recovered(left)
  {
    hide Logs, Recovered, FileWrite, W.EncodeAll, WithValue, W.Marked, W.LeftBehind, W.Unreadable;
    var ops := [W.Put(key, value)];
    OneEntry(key, value);
    assert [] + ops == ops;
    CrashOnMarkedLog(oldLog, [], ops, map[key := value]);
  }

  /** The bytes behind a shorter write over a log that ended with the longer one. */
  lemma RestOfLonger(first: seq<byte>, data: seq<byte>, size: nat)
    requires |first| <= 9 + |data| && size <= |data|
    ensures W.LeftBehind(FileWrite(W.Marked(first), 9, data), size) == data[size..]
  {
    hide FileWrite, W.Marked;
    W.MarkedBytes(first, data);
    var log := FileWrite(W.Marked(first), 9, data);
    assert log[9..] == data + [] == data;
    assert 9 + size < |log| ==> log[9 + size..] == log[9..][size..];
  }

  /** A batch of one entry after one with the same key and a value up to eight bytes longer:
      the crash loses it. */
  lemma ShorterBatchIsLost(first: seq<byte>, key: Str, was: Str, now: Str)
    requires |first| <= 18 && now != [] && |now| < |was| < |now| + 9
    ensures var oldLog := FileWrite(W.Marked(first), 9, W.EncodeAll([W.Put(key, was)]));
            && Recovered(oldLog) == map[key := was]
            && Recovered(FileWrite(W.Marked(oldLog), 9, W.EncodeAll([W.Put(key, now)]))) == map[]
  {
    hide Recovered, FileWrite, W.EncodeAll, W.Marked, W.LeftBehind;
    var data := W.EncodeAll([W.Put(key, was)]);
    OneEntry(key, was);
    BehindOneEntry(first, key, was);
    RestOfLonger(first, data, |data|);
    W.MarkedBytes(first, data);
    HarmlessIs([]);
    assert W.LeftBehind(first, |data|) == [];
    var oldLog := FileWrite(W.Marked(first), 9, data);
    RestOfLonger(first, data, 9 + |key| + |now|);
    BehindOneEntry(oldLog, key, now);
    assert map[key := was] + map[] == map[key := was];
  }

  /** A batch of one entry after two entries, the first as long as the new one and the second with
      the same key: the crash brings back the old value of the key. */
  lemma StaleValueWins(first: seq<byte>, other: Str, value: Str, key: Str, was: Str, now: Str)
    requires |first| <= 27 && other != key && value != [] && was != [] && now != []
    requires |other| + |value| == |key| + |now|
    ensures var oldLog := FileWrite(W.Marked(first), 9, W.EncodeAll([W.Put(other, value), W.Put(key, was)]));
            && Recovered(oldLog) == map[other := value, key := was]
            && Recovered(FileWrite(W.Marked(oldLog), 9, W.EncodeAll([W.Put(key, now)]))) == map[key := was]
  {
    hide Recovered, FileWrite, W.EncodeAll, W.Marked, W.LeftBehind, WithValue, Logs;
    var ops := [W.Put(other, value), W.Put(key, was)];
    var data, rest := W.EncodeAll(ops), W.EncodeAll([ops[1]]);
    W.EncodeAllHead(ops);
    assert ops[1..] == [ops[1]];
    TwoEntries(first, other, value, key, was);
    OneEntry(key, was);
    RestOfLonger(first, data, 9 + |key| + |now|);
    assert data[9 + |key| + |now|..] == rest;
    OneEntryIsRead(key, was);
    BehindOneEntry(FileWrite(W.Marked(first), 9, data), key, now);
    assert map[key := now] + map[key := was] == map[key := was];
  }

  lemma OneEntryIsRead(key: Str, value: Str)
    requires value != []
    ensures !W.Unreadable(W.EncodeAll([W.Put(key, value)]))
    ensures Recovered(W.EncodeAll([W.Put(key, value)])) == map[key := value]
  {
    hide W.EncodeAll, Logs, WithValue, W.Parse, W.Entries, Replayable, W.Unreadable;
    var ops := [W.Put(key, value)];
    OneEntry(key, value);
    W.ReplayReturnsLogged(ops);
    W.UnreadableIs(W.EncodeAll(ops));
    RecoveredBatch([], ops, map[key := value]);
    assert [] + ops == ops;
  }

  lemma TwoEntries(first: seq<byte>, other: Str, value: Str, key: Str, was: Str)
    requires |first| <= 27 && other != key && value != [] && was != []
    ensures var ops := [W.Put(other, value), W.Put(key, was)];
            && |W.EncodeAll(ops)| >= 18
            && Recovered(FileWrite(W.Marked(first), 9, W.EncodeAll(ops))) == map[other := value, key := was]
  {
    hide Recovered, FileWrite, W.EncodeAll, W.Marked, W.LeftBehind, W.Encode;
    var ops, batch := [W.Put(other, value), W.Put(key, was)], map[other := value, key := was];
    W.EncodeAllHead(ops);
    assert ops[1..] == [ops[1]];
    OneEntry(key, was);
    assert ops[0] in ops && ops[1] in ops;
    assert Logs(ops, batch);
    assert [] + ops == ops && WithValue(batch) == batch;
    CrashOnMarkedLog(first, [], ops, batch);
  }

  /** On an emptied log every batch survives such a crash if and only if the cursor is
      a multiple of nine. */
  lemma CursorDecides(cursor: nat)
    ensures (forall ops, batch ::
               Logs(ops, batch) ==> Recovered(FileWrite([], cursor, W.EncodeAll(ops))) == WithValue(batch))
       <==> cursor % 9 == 0
  {
    hide Logs, Recovered, FileWrite, W.EncodeAll, WithValue;
    if cursor % 9 == 0 {
      forall ops, batch | Logs(ops, batch)
        ensures Recovered(FileWrite([], cursor, W.EncodeAll(ops))) == WithValue(batch)
      {
        assert [] + ops == ops;
        CrashOnEmptiedLog(cursor, [], ops, batch);
      }
    } else {
      ShortBatchIsLost(cursor, [W.Put([0x61], [0x76])]);
    }
  }

  /** One entry, `("a", "v")`. */
  const SHORT_BATCH: Content := map[[0x61] := [0x76]]

  lemma ShortBatchIsLost(cursor: nat, ops: seq<W.Op>)
    requires cursor % 9 != 0 && ops == [W.Put([0x61], [0x76])]
    ensures Logs(ops, SHORT_BATCH)
    ensures Recovered(FileWrite([], cursor, W.EncodeAll(ops))) == map[]
    ensures WithValue(SHORT_BATCH) == SHORT_BATCH != map[]
  {
    hide FileWrite, W.Encode, W.Parse;
    assert ops[0] in ops;
    assert W.EncodeAll(ops) == W.Encode(ops[0]) by {
      W.EncodeAllHead(ops);
      W.EncodeAllHead([]);
      assert ops[1..] == [];
    }
    W.MisalignedEntry(cursor);
    var log := FileWrite([], cursor, W.EncodeAll(ops));
    if W.Parse(log).Ok? {
      NothingReplayable(W.Parse(log).value);
    }
    assert [0x61] in SHORT_BATCH;
  }

  class ShibuDB {
    var file: seq<byte>
    const index: I.Index
    const wal: W.WAL?
    var batch: Content
    ghost var durable: Content
    ghost var stray: set<Str>

    ghost predicate Valid()
      reads this, index, index.mmapData
    {
      index.Sound() && Indexed(file, index.btree, durable, stray)
    }

    ghost function State(): Store
      reads this
    {
      Store(batch, durable, stray)
    }

    /** Opens any data file with any index image (`es` and `zeros` say what it consists of,
        if it is a chain of entries followed by zeros); replays the log, if there is one, and empties it unless it
        cannot be read.  The cursor of an emptied log is where a flush left it, or
        where replaying ended when there was nothing to flush. */
    constructor (data: seq<byte>, image: seq<byte>, log: Option<seq<byte>>, ghost es: seq<I.Item>, ghost zeros: nat)
      ensures Valid() && fresh(index) && fresh(index.mmapData) && (wal != null ==> fresh(wal))
      ensures image == [] || I.IsImage(image, es, zeros) ==> index.Valid()
      ensures wal == null <==> log.None?
      ensures log.None? || Recovered(log.value) == map[] ==> file == data && index.btree == Opened(image)
      ensures State()
           == Held(data, Opened(image)).(pending := if log.Some? then Recovered(log.value) else map[]).Flush()
      ensures log.Some? ==> wal.file == if W.Parse(log.value).Ok? then [] else log.value
      ensures log.Some? ==> wal.cursor == if Recovered(log.value) == map[] then |log.value| else 9
    {
      hide I.EncodeChain, I.Applied, I.IsImage, I.Load, I.LoadLength, I.Named, I.Cut, Indexed, Held, W.Parse;
      file := data;
      index := new I.Index(image, es, zeros);
      if log.Some? {
        wal := new W.WAL(log.value);
      } else {
        wal := null;
      }
      batch := map[];
      durable, stray := map[], {};
      new;
      I.LoadTwice(index.mmapData[..], map[]);
      var _ := index.BatchLoadFromMmap();
      HeldIsIndexed(data, index.btree);
      durable, stray := Held(data, index.btree).durable, Held(data, index.btree).stray;
      FlushNothing(durable, stray);
      if wal != null {
        ReplayWAL();
      }
    }

    method PutBatch(key: Str, value: Str)
      modifies this`batch
      ensures State() == old(State()).Put(key, value) && (old(Valid()) ==> Valid())
      ensures batch == old(batch)[key := value]
    {
      batch := batch[key := value];
    }

    /** Writes the whole batch, in any order, to the log and then to the data
        file. */
    method FlushBatch()
      requires Valid()
      modifies this`file, this`batch, this`durable, this`stray, index, index.mmapData, wal
      ensures Valid() && (index.mmapData == old(index.mmapData) || fresh(index.mmapData))
      ensures old(index.Valid()) ==> index.Valid()
      ensures State() == old(State()).Flush()
      ensures old(file) <= file && (old(batch) == map[] ==> file == old(file) && index.btree == old(index.btree))
      ensures wal != null && old(batch) == map[] ==> unchanged(wal)
      ensures wal != null && old(batch) != map[] ==>
                wal.cursor == 9
                && exists ops :: Logs(ops, old(batch))
                                 && FlushedLog(old(wal.file), old(wal.cursor), ops, wal.file)
    {
      hide Indexed, I.Index.Valid, I.Index.Sound, Logs, W.EncodeAll, FileWrite, W.Marked;
      var batchCopy := batch;
      batch := map[];
      FlushNothing(durable, stray);
      if |batchCopy| == 0 {
        return;
      }
      ghost var ops := [];
      if wal != null {
        ops := LogBatch(batchCopy);
      }
      assert old(index.Valid()) ==> index.Valid();
      AppendBatch(batchCopy);
      if wal != null {
        CommitLog();
        assert FlushedLog(old(wal.file), old(wal.cursor), ops, wal.file);
      }
    }

    /** Marks the log, and empties it above one megabyte. */
    method CommitLog()
      requires wal != null
      modifies wal
      ensures var marked := W.Marked(old(wal.file)); wal.file == if |marked| > 1024 * 1024 then [] else marked
      ensures wal.cursor == 9
    {
      hide W.Marked;
      wal.MarkCommitted();
      if |wal.file| > 1024 * 1024 {
        wal.Clear();
      }
    }

    /** Appends the records of a batch, in any order. */
    method AppendBatch(entries: Content)
      requires Valid()
      modifies this`file, this`durable, this`stray, index, index.mmapData
      ensures Valid() && (index.mmapData == old(index.mmapData) || fresh(index.mmapData))
      ensures old(index.Valid()) ==> index.Valid()
      ensures durable == old(durable) + entries && stray == old(stray) - entries.Keys && old(file) <= file
    {
      hide Valid, I.Index.Valid, DurableBut, StrayBut;
      var rest := entries.Keys;
      FlushEnds(durable, stray, entries);
      while rest != {}
        invariant Valid() && (index.mmapData == old(index.mmapData) || fresh(index.mmapData))
        invariant old(index.Valid()) ==> index.Valid()
        invariant old(file) <= file && rest <= entries.Keys
        invariant durable == DurableBut(old(durable), entries, rest) && stray == StrayBut(old(stray), entries, rest)
        decreases |rest|
      {
        var key :| key in rest;
        FlushStep(old(durable), old(stray), entries, rest, key);
        AppendRecord(key, entries[key]);
        rest := rest - {key};
      }
    }

    /** Logs every entry of a batch once, in any order. */
    method LogBatch(entries: Content) returns (ghost ops: seq<W.Op>)
      requires wal != null && entries != map[]
      modifies wal
      ensures Logs(ops, entries) && |ops| == |entries.Keys|
      ensures wal.file == FileWrite(old(wal.file), old(wal.cursor), W.EncodeAll(ops))
      ensures wal.cursor == old(wal.cursor) + |W.EncodeAll(ops)|
    {
      hide W.EncodeAll, W.Encode, FileWrite, Logs, Written;
      var rest := entries.Keys;
      ops := [];
      NothingWritten(wal.file, wal.cursor, entries);
      while rest != {}
        invariant rest <= entries.Keys && |ops| + |rest| == |entries.Keys|
        invariant Logs(ops, entries - rest)
        invariant wal.file == Written(old(wal.file), old(wal.cursor), ops)
        invariant wal.cursor == old(wal.cursor) + |W.EncodeAll(ops)|
        decreases |rest|
      {
        var key :| key in rest;
        ghost var op := W.Put(key, entries[key]);
        OneMoreWritten(old(wal.file), old(wal.cursor), ops, op);
        wal.WriteEntry(key, entries[key]);
        LogsOneMore(ops, entries, rest, key);
        ops := ops + [op];
        rest := rest - {key};
      }
      WholeBatchLogged(old(wal.file), old(wal.cursor), ops, entries);
    }

    /** Appends one record and points the index at it. */
    method AppendRecord(key: Str, value: Str)
      requires Valid()
      modifies this`file, this`durable, this`stray, index, index.mmapData
      ensures Valid() && (index.mmapData == old(index.mmapData) || fresh(index.mmapData))
      ensures old(index.Valid()) ==> index.Valid()
      ensures durable == old(durable)[key := value] && stray == old(stray) - {key}
      ensures file == old(file) + Record(key, value)
    {
      hide Indexed;
      var buf := PutU32(|key|) + PutU32(|value|) + key + value;
      IndexOneMore(file, index.btree, durable, stray, key, value);
      var pos := |file|;
      file := FileWrite(file, pos, buf);
      AppendWrite(old(file), buf);
      index.Add(key, pos);
      durable, stray := durable[key := value], stray - {key};
    }

    method Get(key: Str) returns (r: Result<Str, Failure>)
      ensures r == Lookup(batch, index.btree, file, key)
      ensures Valid() && (key in stray ==> key in batch) ==> r == State().Get(key)
    {
      hide RecordAt, Indexed, GetU32;
      if Valid() && (key in stray ==> key in batch) {
        LookupIsGet(batch, index.btree, file, durable, stray, key);
      }
      if key in batch {
        return Ok(batch[key]);
      }
      var pos := index.Get(key);
      if pos.None? {
        return Err(NotFound);
      }
      var header := ReadAt(file, pos.value, 8);
      if header.Err? {
        return Err(ReadFailed);
      }
      HeaderAt(file, pos.value, header.value);
      var keySize, valSize := GetU32(header.value), GetU32(header.value[4..]);
      var keyBytes := ReadAt(file, pos.value + 8, keySize);
      if keyBytes.Err? {
        return Err(ReadFailed);
      }
      var valBytes := ReadAt(file, pos.value + 8 + keySize, valSize);
      if valBytes.Err? {
        return Err(ReadFailed);
      }
      if keyBytes.value == key {
        if valBytes.value == SENTINEL {
          return Err(Deleted);
        }
        return Ok(valBytes.value);
      }
      return Err(KeyMismatch);
    }

    /** Deletes a flushed key; a pending value for it is left alone. */
    method Delete(key: Str) returns (found: bool)
      requires Valid()
      modifies this`file, this`durable, this`stray, index, index.mmapData, wal
      ensures Valid() && (index.mmapData == old(index.mmapData) || fresh(index.mmapData))
      ensures old(index.Valid()) ==> index.Valid()
      ensures found <==> key in old(durable) || key in old(stray)
      ensures State() == old(State()).Delete(key)
      ensures file == if found then old(file) + Record(key, []) else old(file)
      ensures wal != null ==>
                if found then wal.file == FileWrite(old(wal.file), old(wal.cursor), W.Encode(W.Delete(key)))
                              && wal.cursor == old(wal.cursor) + |W.Encode(W.Delete(key))|
                else unchanged(wal)
    {
      hide Indexed, Record, FileWrite, W.Encode, I.Index.Valid;
      var pos := index.Get(key);
      found := pos.Some?;
      IndexOneLess(file, index.btree, durable, stray, key, Record(key, []));
      if !found {
        return;
      }
      index.Remove(key);
      if wal != null {
        wal.WriteDelete(key);
      }
      Tombstone(key);
      var buf := PutU32(|key|) + PutU32(0) + key;
      AppendWrite(file, buf);
      file := FileWrite(file, |file|, buf);
      durable, stray := durable - {key}, stray - {key};
    }

    /** Replays the log into the batch and flushes it; a log that cannot be read
        is left alone. */
    method ReplayWAL()
      requires Valid() && wal != null && batch == map[]
      modifies this`file, this`batch, this`durable, this`stray, index, index.mmapData, wal
      ensures Valid() && (index.mmapData == old(index.mmapData) || fresh(index.mmapData))
      ensures old(index.Valid()) ==> index.Valid()
      ensures State() == old(State()).(pending := Recovered(old(wal.file))).Flush()
      ensures Recovered(old(wal.file)) == map[] ==> file == old(file) && index.btree == old(index.btree)
      ensures wal.file == if W.Parse(old(wal.file)).Ok? then [] else old(wal.file)
      ensures wal.cursor == if Recovered(old(wal.file)) == map[] then |old(wal.file)| else 9
    {
      hide Valid, I.Index.Valid, W.Parse, Logs, FlushedLog;
      var entries := wal.Replay();
      FlushNothing(durable, stray);
      if entries.Err? {
        return;
      }
      var es := entries.value;
      for i := 0 to |es|
        invariant Valid() && State() == old(State()).(pending := Replayable(es[..i]))
        invariant unchanged(index) && unchanged(index.mmapData) && file == old(file)
        invariant wal.file == old(wal.file) && wal.cursor == |wal.file|
      {
        assert es[..i + 1][..i] == es[..i];
        if es[i].1 != [] {
          PutBatch(es[i].0, es[i].1);
        }
      }
      assert es[..|es|] == es;
      FlushBatch();
      wal.Clear();
    }

    /** Flushes the batch and empties the log. */
    method Close()
      requires Valid()
      modifies this`file, this`batch, this`durable, this`stray, index, index.mmapData, wal
      ensures Valid() && State() == old(State()).Flush() && (old(index.Valid()) ==> index.Valid())
      ensures wal != null ==> wal.file == []
    {
      FlushBatch();
      if wal != null {
        wal.Clear();
      }
    }
  }

  /** The tree that opening an index file gives. */
  function Opened(image: seq<byte>): I.Tree {
    I.Load(if image == [] then Zeros(4096) else image, map[])
  }

  /** A log after writing `ops` at its cursor, if there are any. */
  function Written(file: seq<byte>, cursor: nat, ops: seq<W.Op>): seq<byte> {
    if ops == [] then file else FileWrite(file, cursor, W.EncodeAll(ops))
  }

  lemma NothingWritten(file: seq<byte>, cursor: nat, entries: Content)
    ensures Written(file, cursor, []) == file && W.EncodeAll([]) == []
    ensures Logs([], entries - entries.Keys)
  {
  }

  lemma OneMoreWritten(file: seq<byte>, cursor: nat, ops: seq<W.Op>, op: W.Op)
    ensures W.EncodeAll(ops + [op]) == W.EncodeAll(ops) + W.Encode(op)
    ensures FileWrite(Written(file, cursor, ops), cursor + |W.EncodeAll(ops)|, W.Encode(op))
         == Written(file, cursor, ops + [op])
  {
    hide W.EncodeAll, W.Encode, FileWrite;
    W.EncodeAllHead([]);
    W.EncodeAllLast(ops, op);
    WriteTwice(file, cursor, W.EncodeAll(ops), W.Encode(op));
    if ops == [] {
      assert W.EncodeAll([]) + W.Encode(op) == W.Encode(op);
    }
  }

  lemma WholeBatchLogged(file: seq<byte>, cursor: nat, ops: seq<W.Op>, entries: Content)
    requires Logs(ops, entries - {}) && entries != map[]
    ensures Logs(ops, entries)
    ensures Written(file, cursor, ops) == FileWrite(file, cursor, W.EncodeAll(ops))
  {
    hide W.EncodeAll, FileWrite;
    assert entries - {} == entries;
    var key :| key in entries;
    assert W.Put(key, entries[key]) in ops;
  }

  lemma Tombstone(key: Str)
    ensures PutU32(|key|) + PutU32(0) + key == Record(key, [])
  {
  }

  lemma HeaderAt(file: seq<byte>, pos: nat, header: seq<byte>)
    requires pos + 8 <= |file| && header == file[pos..pos + 8]
    ensures GetU32(header) == GetU32(file[pos..]) && GetU32(header[4..]) == GetU32(file[pos + 4..])
  {
    I.U32At(file[pos..], header[..4], header[4..]);
    I.U32At(header, header[..4], header[4..]);
    assert file[pos..][4..] == file[pos + 4..];
  }

  lemma FlushNothing(durable: Content, stray: set<Str>)
    ensures Store(map[], durable, stray).Flush() == Store(map[], durable, stray)
  {
  }

  /** What is durable, and stray, once the entries outside `rest` are flushed. */
  ghost function DurableBut(durable: Content, entries: Content, rest: set<Str>): Content {
    durable + (entries - rest)
  }

  ghost function StrayBut(stray: set<Str>, entries: Content, rest: set<Str>): set<Str> {
    stray - (entries.Keys - rest)
  }

  lemma FlushEnds(durable: Content, stray: set<Str>, entries: Content)
    ensures DurableBut(durable, entries, entries.Keys) == durable
    ensures StrayBut(stray, entries, entries.Keys) == stray
    ensures DurableBut(durable, entries, {}) == durable + entries
    ensures StrayBut(stray, entries, {}) == stray - entries.Keys
  {
    assert entries - {} == entries;
  }

  lemma FlushStep(durable: Content, stray: set<Str>, entries: Content, rest: set<Str>, key: Str)
    requires key in rest && rest <= entries.Keys
    ensures DurableBut(durable, entries, rest - {key}) == DurableBut(durable, entries, rest)[key := entries[key]]
    ensures StrayBut(stray, entries, rest - {key}) == StrayBut(stray, entries, rest) - {key}
  {
  }

  // ----- closing and opening again -----

  /** What a key reads as from the files of an engine: a position has lost all but 32
      of its bits. */
  function Reread(file: seq<byte>, tree: I.Tree, key: Str): Result<Str, Failure> {
    if key in tree then ReadRecord(file, tree[key] % TWO_32, key) else Err(NotFound)
  }

  lemma ReopenedPosition(db: ShibuDB, key: Str)
    requires db.Valid() && db.index.Valid() && key != []
    ensures var tree, again := db.index.btree, Opened(db.index.mmapData[..]);
            && (key in again <==> key in tree)
            && (key in tree ==> again[key] == tree[key] % TWO_32)
  {
    hide I.EncodeChain, I.Load, I.Applied, Indexed;
    I.Reopened(db.index);
    var tree := I.Load(db.index.mmapData[..], map[]);
    assert key in I.Named(tree) <==> key in I.Named(I.Cut(db.index.btree));
  }

  /** So a flushed key still reads as its value just when its record, or a copy of it,
      stands where the cut position points: for one if it starts below 4 GiB. */
  lemma RereadIsSame(file: seq<byte>, tree: I.Tree, durable: Content, stray: set<Str>, key: Str)
    requires Indexed(file, tree, durable, stray) && key in durable
    ensures Reread(file, tree, key) == Store(map[], durable, stray).Get(key)
      <==> RecordAt(file, tree[key] % TWO_32, key, durable[key])
    ensures tree[key] < TWO_32 ==> Reread(file, tree, key) == Store(map[], durable, stray).Get(key)
  {
    hide RecordAt, ReadRecord;
    ReadWellFormed(file, tree[key], key, durable[key]);
    RecordValueIs(file, tree[key] % TWO_32, key, durable[key]);
  }

  /** A key whose record starts at 4 GiB, in a file that starts with a record of another
      key: it is fine in this session, and a key mismatch in the next one. */
  lemma FarRecordIsLost(a: Str, v: Str, b: Str, w: Str, between: seq<byte>)
    requires a != b && |Record(b, w) + between| == TWO_32
    ensures var file := Record(b, w) + between + Record(a, v);
            var tree := map[a := TWO_32, b := 0];
            && Indexed(file, tree, map[a := v, b := w], {})
            && Reread(file, tree, a) == Err(KeyMismatch)
  {
    hide Record, GetU32;
    var file := Record(b, w) + between + Record(a, v);
    assert file[TWO_32..TWO_32 + |Record(a, v)|] == Record(a, v);
    assert file[0..|Record(b, w)|] == Record(b, w);
    RecordFields(file, b, w);
    assert file[0..] == file;
  }

  /** What opening the files again does for one key. */
  lemma ReopenedKey(db: ShibuDB, key: Str)
    requires db.Valid() && db.index.Valid() && key != []
    ensures var again := Opened(db.index.mmapData[..]);
            && Lookup(map[], again, db.file, key) == Reread(db.file, db.index.btree, key)
            && (key !in db.stray && (key in db.durable ==> db.index.btree[key] < TWO_32) ==>
                  key !in Held(db.file, again).stray
                  && Held(db.file, again).Get(key) == Store(map[], db.durable, db.stray).Get(key))
  {
    hide ReadRecord, RecordAt, I.Index.Valid, Opened;
    ReopenedPosition(db, key);
    var again := Opened(db.index.mmapData[..]);
    if key in db.durable && db.index.btree[key] < TWO_32 {
      RereadIsSame(db.file, db.index.btree, db.durable, db.stray, key);
      RecordValueIs(db.file, again[key], key, db.durable[key]);
    }
  }

  /** Closing an engine and opening its files again, with or without a log.  If the index
      image is a chain of entries followed by zeros, every key but the empty one reads as its
      record at the cut position does; so a key that is not stray and whose record starts
      below 4 GiB reads as if the batch had just been flushed. */
  method CloseAndReopen(db: ShibuDB, withLog: bool) returns (reopened: ShibuDB)
    requires db.Valid()
    modifies db, db.index, db.index.mmapData, db.wal
    ensures db.Valid() && db.State() == old(db.State()).Flush()
    ensures reopened.Valid() && reopened.batch == map[] && reopened.file == db.file
    ensures reopened.index.btree == Opened(db.index.mmapData[..])
    ensures reopened.State() == Held(db.file, reopened.index.btree)
    ensures old(db.index.Valid()) ==> db.index.Valid() && reopened.index.Valid()
    ensures old(db.index.Valid()) ==> forall key :: key != [] ==>
              Lookup(reopened.batch, reopened.index.btree, reopened.file, key) == Reread(db.file, db.index.btree, key)
    ensures old(db.index.Valid()) ==>
              forall key :: key != [] && key !in db.stray && (key in db.durable ==> db.index.btree[key] < TWO_32) ==>
                key !in reopened.stray && reopened.State().Get(key) == old(db.State()).Flush().Get(key)
    ensures withLog ==> reopened.wal != null && reopened.wal.file == []
  {
    hide I.Index.Valid, RecordAt, Held, Opened, I.EncodeChain, I.IsImage, W.Parse, Recovered, Reread, Lookup;
    db.Close();
    NothingToRecover();
    var index := db.index;
    ImageToOpen(db);
    reopened := new ShibuDB(db.file, index.mmapData[..], if withLog then Some([]) else None,
      index.entries, index.mmapData.Length - index.writeOffset);
    FlushHeld(db.file, Opened(index.mmapData[..]));
    if old(db.index.Valid()) {
      forall key: Str | key != []
        ensures Lookup(map[], reopened.index.btree, db.file, key) == Reread(db.file, db.index.btree, key)
        ensures key !in db.stray && (key in db.durable ==> db.index.btree[key] < TWO_32) ==>
                  key !in reopened.stray && reopened.State().Get(key) == db.State().Get(key)
      {
        ReopenedKey(db, key);
      }
    }
  }

  lemma ImageToOpen(db: ShibuDB)
    requires db.Valid()
    ensures db.index.writeOffset <= db.index.mmapData.Length
    ensures db.index.Valid() ==>
              I.IsImage(db.index.mmapData[..], db.index.entries, db.index.mmapData.Length - db.index.writeOffset)
  {
  }

  lemma FlushHeld(file: seq<byte>, tree: I.Tree)
    ensures Held(file, tree).Flush() == Held(file, tree) == Held(file, tree).(pending := map[])
  {
    FlushNothing(Held(file, tree).durable, Held(file, tree).stray);
  }

  lemma NothingToRecover()
    ensures W.Parse([]) == Ok([]) && Recovered([]) == map[]
  {
  }

  // ----- a batch that is lost -----

  /** An engine opens a log that holds one deletion, of a key of one byte, and empties
      it; a batch is logged, and the process ends before the commit mark.  Nothing of
      the batch can be recovered. */
  method LogAfterDeletion(key: Str) returns (log: seq<byte>)
    requires |key| == 1
    ensures Recovered(log) == map[]
  {
    hide ShibuDB.Valid, Held, Opened, FileWrite, W.EncodeAll, W.Parse, W.Encode, Recovered, Logs;
    var before := PutU32(1) + PutU32(0) + [W.DELETED] + key;
    DeletionRecoversNothing(key, before);
    var db := new ShibuDB([], [], Some(before), [], 0);
    ShortBatchIsLost(10, [W.Put([0x61], [0x76])]);
    ghost var ops := db.LogBatch(SHORT_BATCH);
    OnlyEntry(ops);
    log := db.wal.file;
  }

  lemma DeletionRecoversNothing(key: Str, log: seq<byte>)
    requires |key| == 1 && log == PutU32(1) + PutU32(0) + [W.DELETED] + key
    ensures W.Parse(log).Ok? && Recovered(log) == map[] && |log| == 10
  {
    hide W.Parse;
    var ops := [W.Delete(key)];
    W.EncodeAllHead(ops);
    W.EncodeAllHead([]);
    assert ops[1..] == [] && W.EncodeAll(ops) == log;
    W.ReplayReturnsLogged(ops);
    NothingReplayable(W.Entries(ops));
  }

  lemma OnlyEntry(ops: seq<W.Op>)
    requires Logs(ops, SHORT_BATCH) && |ops| == |SHORT_BATCH.Keys|
    ensures ops == [W.Put([0x61], [0x76])]
  {
    assert SHORT_BATCH.Keys == {[0x61]};
    assert |ops| == 1 && ops[0] == W.Put([0x61], [0x76]);
  }

  // ----- runs -----

  datatype Command = Put(key: Str, value: Str) | Flush | Delete(key: Str) | Get(key: Str)

  datatype Reply = Done | Found(found: bool) | Value(result: Result<Str, Failure>)

  /** What a command does to the two-layer map and what it answers. */
  function Step(store: Store, command: Command): (Store, Reply) {
    match command
    case Put(key, value) => (store.Put(key, value), Done)
    case Flush => (store.Flush(), Done)
    case Delete(key) => (store.Delete(key), Found(key in store.durable || key in store.stray))
    case Get(key) => (store, Value(store.Get(key)))
  }

  function After(store: Store, commands: seq<Command>): Store {
    if commands == [] then store
    else Step(After(store, commands[..|commands| - 1]), commands[|commands| - 1]).0
  }

  /** The answer of the map, but that a stray key may read as anything. */
  predicate Answers(store: Store, command: Command, reply: Reply) {
    if command.Get? && command.key in store.stray && command.key !in store.pending then reply.Value?
    else reply == Step(store, command).1
  }

  lemma {:induction false} StrayKeysVanish(store: Store, commands: seq<Command>)
    ensures After(store, commands).stray <= store.stray
  {
    if commands != [] {
      StrayKeysVanish(store, commands[..|commands| - 1]);
    }
  }

  /** In any run a key reads as the value it was last put with, if it was not deleted since;
      only `__deleted__` turns into an error, with the first flush behind it. */
  lemma {:induction false} LastPutIsRead(store: Store, commands: seq<Command>, j: nat, n: nat)
    requires j < n <= |commands| && commands[j].Put?
    requires forall i :: j < i < n && (commands[i].Put? || commands[i].Delete?) ==> commands[i].key != commands[j].key
    ensures var key, value, after := commands[j].key, commands[j].value, After(store, commands[..n]);
            && (key in after.pending || key !in after.stray)
            && (if value == SENTINEL && exists i :: j < i < n && commands[i] == Flush
                then after.Get(key) == Err(Deleted) else after.Get(key) == Ok(value))
  {
    LastPutIsHeld(store, commands, j, n);
  }

  /** It is pending until the first flush, and durable from then on. */
  lemma {:induction false} LastPutIsHeld(store: Store, commands: seq<Command>, j: nat, n: nat)
    requires j < n <= |commands| && commands[j].Put?
    requires forall i :: j < i < n && (commands[i].Put? || commands[i].Delete?) ==> commands[i].key != commands[j].key
    ensures var key, value, after := commands[j].key, commands[j].value, After(store, commands[..n]);
            if exists i :: j < i < n && commands[i] == Flush
            then key !in after.pending && key !in after.stray && key in after.durable && after.durable[key] == value
            else key in after.pending && after.pending[key] == value
    decreases n
  {
    hide After;
    AfterOne(store, commands, n - 1);
    if n > j + 1 {
      LastPutIsHeld(store, commands, j, n - 1);
      if commands[n - 1] != Flush && exists i :: j < i < n && commands[i] == Flush {
        var i :| j < i < n && commands[i] == Flush;
        assert i < n - 1;
      }
    }
  }

  /** And a key deleted while nothing is pending for it is not found, until it is put
      again. */
  lemma {:induction false} DeletedIsGone(store: Store, commands: seq<Command>, j: nat, n: nat)
    requires j < n <= |commands| && commands[j].Delete?
    requires commands[j].key !in After(store, commands[..j]).pending
    requires forall i :: j < i < n && commands[i].Put? ==> commands[i].key != commands[j].key
    ensures var key, after := commands[j].key, After(store, commands[..n]);
            after.Get(key) == Err(NotFound) && key !in after.stray && key !in after.pending
    decreases n
  {
    hide After;
    AfterOne(store, commands, n - 1);
    if n > j + 1 {
      DeletedIsGone(store, commands, j, n - 1);
    }
  }

  /** Every run of an engine answers what the two-layer map answers, so a key reads as it was
      last put.  Background flushes are `Flush` commands wherever they happen. */
  method Execute(db: ShibuDB, commands: seq<Command>) returns (replies: seq<Reply>)
    requires db.Valid()
    modifies db, db.index, db.index.mmapData, db.wal
    ensures db.Valid() && (old(db.index.Valid()) ==> db.index.Valid())
    ensures db.State() == After(old(db.State()), commands)
    ensures |replies| == |commands|
    ensures forall i :: 0 <= i < |commands| ==> Answers(After(old(db.State()), commands[..i]), commands[i], replies[i])
    ensures forall i, j ::
              && 0 <= j < i < |commands| && commands[i].Get? && commands[j].Put? && commands[j].key == commands[i].key
              && commands[j].value != SENTINEL
              && (forall m :: j < m < i && (commands[m].Put? || commands[m].Delete?) ==>
                    commands[m].key != commands[j].key)
              ==> replies[i] == Value(Ok(commands[j].value))
  {
    hide ShibuDB.Valid, I.Index.Valid, After;
    replies := [];
    ghost var store := db.State();
    AfterNothing(store);
    for i := 0 to |commands|
      invariant db.Valid() && (old(db.index.Valid()) ==> db.index.Valid())
      invariant db.index.mmapData == old(db.index.mmapData) || fresh(db.index.mmapData)
      invariant db.State() == After(store, commands[..i]) && |replies| == i
      invariant forall j :: 0 <= j < i ==> Answers(After(store, commands[..j]), commands[j], replies[j])
    {
      AfterOne(store, commands, i);
      var reply := Done;
      match commands[i] {
        case Put(key, value) => db.PutBatch(key, value);
        case Flush => db.FlushBatch();
        case Delete(key) =>
          var found := db.Delete(key);
          reply := Found(found);
        case Get(key) =>
          var r := db.Get(key);
          reply := Value(r);
      }
      replies := replies + [reply];
    }
    assert commands[..|commands|] == commands;
    forall i, j | && 0 <= j < i < |commands| && commands[i].Get? && commands[j].Put?
                  && commands[j].key == commands[i].key && commands[j].value != SENTINEL
                  && (forall m :: j < m < i && (commands[m].Put? || commands[m].Delete?) ==>
                        commands[m].key != commands[j].key)
      ensures replies[i] == Value(Ok(commands[j].value))
    {
      LastPutIsRead(store, commands, j, i);
    }
  }

  lemma AfterNothing(store: Store)
    ensures After(store, []) == store
  {
  }

  lemma AfterOne(store: Store, commands: seq<Command>, i: nat)
    requires i < |commands|
    ensures After(store, commands[..i + 1]) == Step(After(store, commands[..i]), commands[i]).0
  {
    assert commands[..i + 1][..i] == commands[..i];
  }
}
