/** The log of the vector engine: what it holds after a run, and what opening the engine
    again makes of it. */
module VectorLog {
  import opened Bits
  import opened Bytes
  import opened VectorRecords
  import opened VectorShelf
  import opened Wrappers
  import W = Wal

  /** How an insertion and a removal are logged. */
  function InsertOp(id: Id, vec: Vector): W.Op
    requires 4 * |vec| < TWO_32
  {
    W.Put(PutId(id), VectorBytes(vec))
  }

  function RemoveOp(id: Id): W.Op {
    W.Put(PutId(id), [])
  }

  /** A command that is accepted and logged. */
  predicate IsLogged(dim: nat, command: Command) {
    command.Remove? || (command.Insert? && |command.vec| == dim)
  }

  function LogOp(dim: nat, command: Command): (op: W.Op)
    requires 4 * dim < TWO_32 && IsLogged(dim, command)
    ensures |W.Encode(op)| == if command.Insert? then 17 + 4 * dim else 17
  {
    if command.Insert? then InsertOp(command.id, command.vec) else RemoveOp(command.id)
  }

  // ----- replaying -----

  /** What replaying does with a log entry, if it does not refuse it. */
  function Decoded(e: W.Entry): Option<Command> {
    if |e.0| != 8 then None
    else if e.1 == [] then Some(Remove(GetId(e.0)))
    else if |e.1| % 4 != 0 then None
    else Some(Insert(GetId(e.0), BytesVector(e.1)))
  }

  /** How replaying a log ends: commands are repeated, or the engine refuses to open, or
      it hands FAISS a vector of another length than the index takes, which the code does
      not check; what follows then is not modelled. */
  datatype Outcome = Repeats(commands: seq<Command>) | Refuses | Strays

  function Prefixed(commands: seq<Command>, outcome: Outcome): Outcome {
    if outcome.Repeats? then Repeats(commands + outcome.commands) else outcome
  }

  function Scan(es: seq<W.Entry>, dim: nat): Outcome {
    if es == [] then Repeats([])
    else
      match Decoded(es[0])
      case None => Refuses
      case Some(command) =>
        if !IsLogged(dim, command) then Strays else Prefixed([command], Scan(es[1..], dim))
  }

  function Replaying(log: seq<byte>, dim: nat): Outcome {
    match W.Parse(log)
    case Err(_) => Refuses
    case Ok(es) => Scan(es, dim)
  }

  lemma ScanStep(e: W.Entry, es: seq<W.Entry>, dim: nat)
    ensures Scan([e] + es, dim)
         == match Decoded(e)
            case None => Refuses
            case Some(command) => if !IsLogged(dim, command) then Strays else Prefixed([command], Scan(es, dim))
  {
    assert ([e] + es)[1..] == es;
  }

  lemma PrefixedTwice(a: seq<Command>, b: seq<Command>, outcome: Outcome)
    ensures Prefixed(a, Prefixed(b, outcome)) == Prefixed(a + b, outcome)
    ensures Prefixed([], outcome) == outcome
  {
    if outcome.Repeats? {
      assert a + (b + outcome.commands) == a + b + outcome.commands;
      assert [] + outcome.commands == outcome.commands;
    }
  }

  // ----- the outcome, on the bytes of a log -----

  /** Bytes that cannot be replayed because they end in the wrong place, or because
      they hold a record whose key is not eight bytes or whose value is no vector. */
  predicate Blocked(s: seq<byte>) {
    s != [] &&
    (|s| < 9 ||
     if s[8] == W.COMMITTED then Blocked(s[9..])
     else
       var keySize, valSize := GetU32(s), GetU32(s[4..]);
       || (keySize > 0 && |s| == 9)
       || (valSize > 0 && |s| == 9 + keySize)
       || (|s| >= 9 + keySize + valSize
           && (keySize != 8 || valSize % 4 != 0 || Blocked(s[9 + keySize + valSize..]))))
  }

  /** The first record that is not both an id and a vector of length `dim`, or no value,
      is an id and a vector of another length. */
  predicate HoldsOther(s: seq<byte>, dim: nat) {
    |s| >= 9 &&
    if s[8] == W.COMMITTED then HoldsOther(s[9..], dim)
    else
      var keySize, valSize := GetU32(s), GetU32(s[4..]);
      |s| >= 9 + keySize + valSize && keySize == 8 && valSize % 4 == 0
      && ((valSize != 0 && valSize != 4 * dim) || HoldsOther(s[9 + keySize + valSize..], dim))
  }

  /** These decide the outcome for any bytes. */
  lemma {:induction false} OutcomeOfBytes(s: seq<byte>, dim: nat)
    ensures Replaying(s, dim).Strays? <==> !W.Unreadable(s) && HoldsOther(s, dim)
    ensures Replaying(s, dim).Refuses? <==> Blocked(s) && (W.Unreadable(s) || !HoldsOther(s, dim))
    ensures Replaying(s, dim).Repeats? <==> !Blocked(s) && !HoldsOther(s, dim)
    decreases |s|
  {
    hide W.Parse, GetU32, Decoded;
    W.UnreadableIs(s);
    W.ParseUnfold(s);
    match W.ParseStep(s)
    case Done(_) =>
    case Skip(rest) => OutcomeOfBytes(rest, dim);
    case Read(e, rest) =>
      OutcomeOfBytes(rest, dim);
      W.UnreadableIs(rest);
      DecodedSizes(e, dim);
      if W.Parse(rest).Ok? {
        ScanStep(e, W.Parse(rest).value, dim);
      }
  }

  lemma DecodedSizes(e: W.Entry, dim: nat)
    ensures Decoded(e).None? <==> |e.0| != 8 || |e.1| % 4 != 0
    ensures Decoded(e).Some? ==> (IsLogged(dim, Decoded(e).value) <==> |e.1| == 0 || |e.1| == 4 * dim)
  {
  }

  // ----- what is logged is repeated -----

  lemma {:induction false} LoggedIsDecoded(dim: nat, command: Command)
    requires 0 < 4 * dim < TWO_32 && IsLogged(dim, command)
    ensures var op := LogOp(dim, command); Decoded((op.key, op.Value())) == Some(command)
  {
    hide PutId, GetId;
    IdRoundTrip(command.id, []);
    assert PutId(command.id) + [] == PutId(command.id);
    if command.Insert? {
      VectorRoundTrip(command.vec);
    }
  }

  /** A logged command is repeated, before whatever follows it. */
  lemma LoggedIsRepeated(dim: nat, command: Command, rest: seq<byte>)
    requires 0 < 4 * dim < TWO_32 && IsLogged(dim, command)
    ensures Replaying(W.Encode(LogOp(dim, command)) + rest, dim) == Prefixed([command], Replaying(rest, dim))
  {
    hide W.Parse, W.Encode, LogOp, Decoded;
    var op := LogOp(dim, command);
    W.ParseEncoded(op, rest);
    W.ParseUnfold(W.Encode(op) + rest);
    LoggedIsDecoded(dim, command);
    if W.Parse(rest).Ok? {
      ScanStep((op.key, op.Value()), W.Parse(rest).value, dim);
    }
  }

  lemma NothingToReplay(dim: nat)
    ensures Replaying([], dim) == Repeats([]) && Scan([], dim) == Repeats([])
  {
    W.ParseNothing();
  }

  /** A command logged at offset 9 of a log with a commit mark, and crashing or not before
      the next mark, which changes nothing: it is repeated, and then what can be read of
      the old log behind it. */
  lemma NextCommand(log: seq<byte>, dim: nat, command: Command)
    requires 0 < 4 * dim < TWO_32 && IsLogged(dim, command)
    ensures var after := FileWrite(W.Marked(log), 9, W.Encode(LogOp(dim, command)));
            && Replaying(after, dim)
               == Prefixed([command], Replaying(W.LeftBehind(log, |W.Encode(LogOp(dim, command))|), dim))
            && W.Marked(after) == after
  {
    hide W.Parse, W.Encode, W.Marked, FileWrite, LogOp, W.LeftBehind;
    var data := W.Encode(LogOp(dim, command));
    W.ParseMarked(log, data);
    LoggedIsRepeated(dim, command, W.LeftBehind(log, |data|));
    W.MarkedAgain(log, data);
  }

  /** The first command on an empty log is repeated after a crash before its mark.  Marked,
      its key and value are read as records instead. */
  lemma FirstCommand(dim: nat, command: Command)
    requires 0 < 4 * dim < TWO_32 && IsLogged(dim, command)
    ensures var op := LogOp(dim, command);
            && Replaying(W.Encode(op), dim) == Repeats([command])
            && Replaying(W.Marked(W.Encode(op)), dim) == Replaying(op.key + op.Value(), dim)
  {
    hide W.Parse, W.Encode, W.Marked, LogOp;
    var op := LogOp(dim, command);
    LoggedIsRepeated(dim, command, []);
    NothingToReplay(dim);
    assert W.Encode(op) + [] == W.Encode(op);
    assert [command] + [] == [command];
    W.CommittedEntryIsReadAgain(op);
  }

  /** Clearing a log keeps its cursor, which is behind a whole entry if anything was
      repeated. */
  lemma {:induction false} RepeatedIsLong(log: seq<byte>, dim: nat)
    requires Replaying(log, dim).Repeats? && Replaying(log, dim).commands != []
    ensures |log| >= 17
    decreases |log|
  {
    hide W.Parse, GetU32, Decoded;
    W.ParseUnfold(log);
    match W.ParseStep(log)
    case Done(_) =>
    case Skip(rest) => RepeatedIsLong(rest, dim);
    case Read(e, rest) =>
      DecodedSizes(e, dim);
      ScanStep(e, W.Parse(rest).value, dim);
  }

  /** So the next command is written behind zeros, and then the engine refuses to open,
      whether the command was marked or not. */
  lemma BehindZerosRefuses(cursor: nat, dim: nat, command: Command)
    requires 4 * dim < TWO_32 && IsLogged(dim, command) && cursor >= 17
    ensures var log := FileWrite([], cursor, W.Encode(LogOp(dim, command)));
            Replaying(log, dim).Refuses? && Replaying(W.Marked(log), dim).Refuses?
  {
    hide W.Parse, W.Encode, W.Marked, LogOp, GetU32, Blocked, Replaying;
    var data := W.Encode(LogOp(dim, command));
    var log := FileWrite([], cursor, data);
    NoCommitByte(dim, command);
    ZerosInFront(cursor, data);
    ZerosRefuse(log, dim);
    MarkedReplay(log, dim);
    ZerosRefuse(log[9..], dim);
  }

  lemma ZerosInFront(cursor: nat, data: seq<byte>)
    requires cursor >= 17 && data != [] && data[0] != W.COMMITTED
    ensures var log := FileWrite([], cursor, data);
            && |log| > cursor && log[..8] == log[9..][..8] == Zeros(8)
            && log[8] != W.COMMITTED && log[9..][8] != W.COMMITTED
  {
    var log := FileWrite([], cursor, data);
    assert log == Zeros(cursor) + data;
    assert log[9..][8] == if cursor == 17 then data[0] else 0;
  }

  lemma NoCommitByte(dim: nat, command: Command)
    requires 4 * dim < TWO_32 && IsLogged(dim, command)
    ensures W.Encode(LogOp(dim, command))[0] == 8
  {
    hide PutId, VectorBytes;
  }

  lemma MarkedReplay(log: seq<byte>, dim: nat)
    requires |log| >= 9
    ensures Replaying(W.Marked(log), dim) == Replaying(log[9..], dim)
  {
    hide W.Parse, W.Marked;
    W.ParseMarked(log, []);
    W.MarkedBytes(log, []);
    assert [] + W.LeftBehind(log, 0) == log[9..];
  }

  lemma ZerosRefuse(s: seq<byte>, dim: nat)
    requires |s| >= 9 && s[..8] == Zeros(8) && s[8] != W.COMMITTED
    ensures Replaying(s, dim).Refuses?
  {
    hide W.Parse;
    OutcomeOfBytes(s, dim);
    assert forall i :: 0 <= i < 8 ==> s[i] == s[..8][i];
    assert s[0] == s[1] == s[2] == s[3] == s[4] == s[5] == s[6] == s[7] == 0;
  }

  // ----- one insertion -----

  /** An id as it is stored, in two halves. */
  function Unsigned(id: Id): nat {
    if id < 0 then id + 0x1_0000_0000_0000_0000 else id
  }

  /** After the first insertion into an empty log is committed, the two halves of its id
      pass for the lengths of a key and a value.  Unless the first is 8, or the vector
      starts with the byte of the commit flag, the log is refused just when the vector has
      room for both, or ends with the key. */
  lemma CommittedInsertion(dim: nat, id: Id, vec: Vector)
    requires 0 < 4 * dim < TWO_32 && |vec| == dim
    ensures Replaying(W.Marked(W.Encode(InsertOp(id, vec))), dim) == Replaying(PutId(id) + VectorBytes(vec), dim)
    ensures var lo, hi := Unsigned(id) % TWO_32, Unsigned(id) / TWO_32;
            lo != 8 && vec[0] % 256 != W.COMMITTED as int ==>
              if lo + hi < 4 * dim || lo + 1 == 4 * dim
              then Replaying(PutId(id) + VectorBytes(vec), dim).Refuses?
              else Replaying(PutId(id) + VectorBytes(vec), dim) == Repeats([])
  {
    hide PutId, VectorBytes, W.Parse, W.Encode, W.Marked;
    FirstCommand(dim, Insert(id, vec));
    if Unsigned(id) % TWO_32 != 8 && vec[0] % 256 != W.COMMITTED as int {
      IdAsHeader(id, vec);
    }
  }

  lemma IdAsHeader(id: Id, vec: Vector)
    requires 0 < 4 * |vec| < TWO_32
    requires Unsigned(id) % TWO_32 != 8 && vec[0] % 256 != W.COMMITTED as int
    ensures var lo, hi, s := Unsigned(id) % TWO_32, Unsigned(id) / TWO_32, PutId(id) + VectorBytes(vec);
            if lo + hi < 4 * |vec| || lo + 1 == 4 * |vec| then Replaying(s, |vec|).Refuses?
            else Replaying(s, |vec|) == Repeats([])
  {
    hide W.Parse, GetU32, PutU32, PutId, Decoded;
    var s := PutId(id) + VectorBytes(vec);
    HeaderOfId(id, vec);
    W.ParseUnfold(s);
    NothingToReplay(|vec|);
    var step := W.ParseStep(s);
    if step.Read? {
      DecodedSizes(step.entry, |vec|);
      if W.Parse(step.rest).Ok? {
        ScanStep(step.entry, W.Parse(step.rest).value, |vec|);
      }
    }
  }

  lemma HeaderOfId(id: Id, vec: Vector)
    requires vec != []
    ensures var s := PutId(id) + VectorBytes(vec);
            && GetU32(s) == Unsigned(id) % TWO_32 && GetU32(s[4..]) == Unsigned(id) / TWO_32
            && s[8] as int == vec[0] % 256
  {
    hide GetU32, PutU32, VectorBytes;
    var bytes, lo, hi := VectorBytes(vec), Unsigned(id) % TWO_32, Unsigned(id) / TWO_32;
    FirstByte(vec);
    assert PutId(id) == PutU32(lo) + PutU32(hi);
    assert PutId(id) + bytes == PutU32(lo) + (PutU32(hi) + bytes);
    U32RoundTrip(lo, PutU32(hi) + bytes);
    U32RoundTrip(hi, bytes);
  }

  lemma FirstByte(vec: Vector)
    requires vec != []
    ensures VectorBytes(vec)[0] as int == vec[0] % 256
  {
    assert VectorBytes(vec)[0] == PutU32(vec[0])[0];
  }

  // ----- whole sessions -----

  /** The log and its cursor after a command. */
  function LogStep(dim: nat, log: (seq<byte>, nat), command: Command): (seq<byte>, nat)
    requires 4 * dim < TWO_32
  {
    if IsLogged(dim, command) then (W.Marked(FileWrite(log.0, log.1, W.Encode(LogOp(dim, command)))), 9) else log
  }

  function LogAfter(dim: nat, log: (seq<byte>, nat), commands: seq<Command>): (seq<byte>, nat)
    requires 4 * dim < TWO_32
  {
    if commands == [] then log
    else LogStep(dim, LogAfter(dim, log, commands[..|commands| - 1]), commands[|commands| - 1])
  }

  lemma LogAfterNothing(dim: nat, log: (seq<byte>, nat))
    requires 4 * dim < TWO_32
    ensures LogAfter(dim, log, []) == log
  {
  }

  lemma OneLogStep(dim: nat, log: (seq<byte>, nat), command: Command)
    requires 4 * dim < TWO_32 && IsLogged(dim, command)
    ensures LogAfter(dim, log, [command])
         == (W.Marked(FileWrite(log.0, log.1, W.Encode(LogOp(dim, command)))), 9)
  {
    assert [command][..0] == [];
  }

  lemma LogAfterOneMore(dim: nat, log: (seq<byte>, nat), commands: seq<Command>, i: nat)
    requires 4 * dim < TWO_32 && i < |commands|
    ensures LogAfter(dim, log, commands[..i + 1]) == LogStep(dim, LogAfter(dim, log, commands[..i]), commands[i])
  {
    assert commands[..i + 1][..i] == commands[..i];
  }

  /** What a session from an empty log leaves in it: the first command marked, or behind a
      committed header the latest one and then, if that is a removal, the vector bytes that
      longer entries had there. */
  datatype Trace = Empty | First(command: Command) | Later(last: Command, behind: seq<byte>)

  function VectorOf(command: Command): seq<byte> {
    if command.Insert? then VectorBytes(command.vec) else []
  }

  function TraceStep(trace: Trace, command: Command): Trace {
    match trace
    case Empty => First(command)
    case First(first) =>
      Later(command, if command.Insert? then VectorBytes(command.vec)
                     else if |VectorOf(first)| > 9 then VectorOf(first)[9..] else [])
    case Later(_, behind) => Later(command, if command.Insert? then VectorBytes(command.vec) else behind)
  }

  function TraceOf(dim: nat, commands: seq<Command>): Trace {
    if commands == [] then Empty
    else
      var before := TraceOf(dim, commands[..|commands| - 1]);
      if IsLogged(dim, commands[|commands| - 1]) then TraceStep(before, commands[|commands| - 1]) else before
  }

  /** How opening the engine again ends after a session. */
  function Reopening(dim: nat, trace: Trace): Outcome {
    match trace
    case Empty => Repeats([])
    case First(command) => Replaying(PutId(LoggedId(command)) + VectorOf(command), dim)
    case Later(last, behind) => Prefixed([last], if last.Insert? then Repeats([]) else Replaying(behind, dim))
  }

  function LoggedId(command: Command): Id {
    if command.Insert? || command.Remove? then command.id else 0
  }

  ghost predicate LogHolds(dim: nat, log: (seq<byte>, nat), trace: Trace)
    requires 0 < 4 * dim < TWO_32
  {
    match trace
    case Empty => log == ([], 0)
    case First(command) =>
      IsLogged(dim, command) && log == (W.Marked(W.Encode(LogOp(dim, command))), 9)
    case Later(last, behind) =>
      && IsLogged(dim, last) && log.1 == 9 && W.Marked(log.0) == log.0
      && |log.0| == 26 + |behind| && log.0[26..] == behind && |behind| <= 4 * dim
      && Replaying(log.0, dim) == Reopening(dim, trace)
  }

  lemma LaterHolds(log: seq<byte>, dim: nat, command: Command, behind: seq<byte>)
    requires 0 < 4 * dim < TWO_32 && IsLogged(dim, command) && 9 <= |log| <= 26 + 4 * dim
    requires behind == if command.Insert? then VectorBytes(command.vec) else W.LeftBehind(log, 17)
    ensures var after := FileWrite(W.Marked(log), 9, W.Encode(LogOp(dim, command)));
            W.Marked(after) == after && LogHolds(dim, (after, 9), Later(command, behind))
  {
    hide W.Marked, W.Encode, FileWrite, LogOp, Replaying, VectorBytes;
    var data := W.Encode(LogOp(dim, command));
    NextCommand(log, dim, command);
    W.MarkedBytes(log, data);
    NothingToReplay(dim);
    var after := FileWrite(W.Marked(log), 9, data);
    EncodedVector(dim, command);
    assert after[26..] == after[9..][17..];
    if command.Insert? {
      assert after[9..] == data;
    } else {
      assert after[9..][17..] == behind;
    }
  }

  lemma EncodedVector(dim: nat, command: Command)
    requires 4 * dim < TWO_32 && IsLogged(dim, command)
    ensures W.Encode(LogOp(dim, command))[17..] == VectorOf(command)
  {
    hide PutId, VectorBytes, PutU32;
  }

  lemma {:induction false} TraceHolds(dim: nat, log: (seq<byte>, nat), trace: Trace, command: Command)
    requires 0 < 4 * dim < TWO_32 && IsLogged(dim, command) && LogHolds(dim, log, trace)
    ensures LogHolds(dim, LogStep(dim, log, command), TraceStep(trace, command))
  {
    hide W.Marked, W.Encode, FileWrite, LogOp, Replaying, VectorBytes, W.LeftBehind;
    var data := W.Encode(LogOp(dim, command));
    match trace
    case Empty =>
      AppendWrite([], data);
      assert [] + data == data;
    case First(first) =>
      var entry := W.Encode(LogOp(dim, first));
      EncodedVector(dim, first);
      LeftOf(entry, 17);
      assert |VectorOf(first)| > 9 ==> entry[26..] == entry[17..][9..];
      LaterHolds(entry, dim, command, TraceStep(trace, command).behind);
    case Later(_, behind) =>
      LeftOf(log.0, 17);
      assert behind == [] ==> |log.0| == 26;
      LaterHolds(log.0, dim, command, TraceStep(trace, command).behind);
  }

  lemma LeftOf(log: seq<byte>, size: nat)
    ensures W.LeftBehind(log, size) == if 9 + size < |log| then log[9 + size..] else []
  {
  }

  lemma {:induction false} SessionHolds(dim: nat, commands: seq<Command>)
    requires 0 < 4 * dim < TWO_32
    ensures LogHolds(dim, LogAfter(dim, ([], 0), commands), TraceOf(dim, commands))
  {
    if commands != [] {
      hide LogHolds, TraceStep;
      var front, last := commands[..|commands| - 1], commands[|commands| - 1];
      SessionHolds(dim, front);
      if IsLogged(dim, last) {
        TraceHolds(dim, LogAfter(dim, ([], 0), front), TraceOf(dim, front), last);
      }
    }
  }

  /** After any session from an empty log, how opening the engine again ends: nothing is
      done after none, the bytes of a first command decide, a later insertion is repeated,
      and a later removal is repeated together with what the vector bytes behind it read
      as. */
  lemma ReopeningAfter(dim: nat, commands: seq<Command>)
    requires 0 < 4 * dim < TWO_32
    ensures Replaying(LogAfter(dim, ([], 0), commands).0, dim) == Reopening(dim, TraceOf(dim, commands))
  {
    hide Replaying, LogAfter, TraceOf, W.Encode, W.Marked;
    SessionHolds(dim, commands);
    NothingToReplay(dim);
    match TraceOf(dim, commands)
    case Empty =>
    case First(command) => FirstCommand(dim, command);
    case Later(_, _) =>
  }

  /** So the engine refuses to open just when the only command was a removal, or an
      insertion whose id and vector are blocked, or when the last of several was a removal
      and the vector bytes behind it are blocked; unless a vector of another length is come
      across first. */
  lemma RefusedAfter(dim: nat, commands: seq<Command>)
    requires 0 < 4 * dim < TWO_32
    ensures var trace := TraceOf(dim, commands);
            Replaying(LogAfter(dim, ([], 0), commands).0, dim).Refuses?
            <==> match trace
                 case Empty => false
                 case First(command) =>
                   var s := PutId(LoggedId(command)) + VectorOf(command);
                   command.Remove? || (Blocked(s) && (W.Unreadable(s) || !HoldsOther(s, dim)))
                 case Later(last, behind) =>
                   last.Remove? && Blocked(behind) && (W.Unreadable(behind) || !HoldsOther(behind, dim))
  {
    hide Replaying, LogAfter, Blocked, HoldsOther, W.Unreadable, LogHolds;
    ReopeningAfter(dim, commands);
    TraceIsLogged(dim, commands);
    match TraceOf(dim, commands)
    case Empty =>
    case First(command) =>
      var s := PutId(LoggedId(command)) + VectorOf(command);
      OutcomeOfBytes(s, dim);
      if command.Remove? {
        ShortIsRefused(s, dim);
      }
    case Later(last, behind) => OutcomeOfBytes(behind, dim);
  }

  lemma ShortIsRefused(s: seq<byte>, dim: nat)
    requires 0 < |s| < 9
    ensures Replaying(s, dim).Refuses?
  {
    OutcomeOfBytes(s, dim);
  }

  lemma {:induction false} TraceIsLogged(dim: nat, commands: seq<Command>)
    ensures match TraceOf(dim, commands)
            case Empty => true
            case First(command) => IsLogged(dim, command)
            case Later(last, _) => IsLogged(dim, last)
  {
    if commands != [] {
      TraceIsLogged(dim, commands[..|commands| - 1]);
    }
  }
}
