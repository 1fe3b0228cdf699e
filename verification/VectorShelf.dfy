/** What the vector engine does, as maps: where each vector is, what every command
    does to that, and what every run keeps. */
module VectorShelf {
  import opened VectorRecords
  import opened Wrappers

  type Vectors = map<Id, Vector>

  /** Where vectors are: `staged` until the index is trained (`samples` vectors have
      been collected for that), then `indexed`, and `unsaved` until they are `saved`
      in the file. */
  datatype Shelf = Shelf(trained: bool, samples: nat, staged: Vectors, indexed: Vectors, unsaved: Vectors,
                         saved: Vectors)
  {
    function Insert(id: Id, vec: Vector, nTrain: nat): Shelf {
      if trained then this.(indexed := indexed[id := vec], unsaved := unsaved[id := vec])
      else if samples + 1 < nTrain then this.(samples := samples + 1, staged := staged[id := vec])
      else Shelf(true, 0, map[], indexed + staged[id := vec], unsaved + staged[id := vec], saved)
    }

    function Remove(id: Id, removable: bool): Shelf {
      this.(staged := staged - {id}, saved := saved - {id},
            indexed := if removable then indexed - {id} else indexed)
    }

    function Flush(): Shelf {
      this.(unsaved := map[], saved := saved + unsaved)
    }

    function Get(id: Id): Option<Vector> {
      if id in saved then Some(saved[id]) else None
    }

    /** Every vector of `live` is in one place: staged before the index is trained,
        in the index from then on.  An index that supports removal has no others. */
    ghost predicate Placed(live: Vectors, nTrain: nat, removable: bool) {
      if trained then
        && staged == map[] && samples == 0
        && (forall id :: id in live ==> id in indexed && indexed[id] == live[id])
        && (removable ==> indexed == live)
      else indexed == map[] && staged == live && |staged| <= samples < nTrain
    }

    /** Every vector of `live` can be read back after the next flush. */
    ghost predicate Safe(live: Vectors) {
      if trained then forall id :: id in live ==> id in saved + unsaved && (saved + unsaved)[id] == live[id]
      else forall id :: id in live ==> id in staged && staged[id] == live[id]
    }
  }

  datatype Command = Insert(id: Id, vec: Vector) | Remove(id: Id) | Flush | Get(id: Id)

  datatype Reply = Done | Accepted(ok: bool) | Found(vec: Option<Vector>)

  /** The fixed parts of an engine: vector length, vectors needed for training, and
      whether the index supports removal. */
  datatype Setup = Setup(dim: nat, nTrain: nat, removable: bool)

  function Step(setup: Setup, s: Shelf, command: Command): (Shelf, Reply) {
    match command
    case Insert(id, vec) =>
      if |vec| == setup.dim then (s.Insert(id, vec, setup.nTrain), Accepted(true)) else (s, Accepted(false))
    case Remove(id) => (s.Remove(id, setup.removable), Done)
    case Flush => (s.Flush(), Done)
    case Get(id) => (s, Found(s.Get(id)))
  }

  function Run(setup: Setup, s: Shelf, commands: seq<Command>): (Shelf, seq<Reply>) {
    if commands == [] then (s, [])
    else
      var (before, replies) := Run(setup, s, commands[..|commands| - 1]);
      var (after, reply) := Step(setup, before, commands[|commands| - 1]);
      (after, replies + [reply])
  }

  lemma RunNothing(setup: Setup, s: Shelf)
    ensures Run(setup, s, []) == (s, [])
  {
  }

  lemma RunOneMore(setup: Setup, s: Shelf, commands: seq<Command>, command: Command)
    ensures Run(setup, s, commands + [command]).0 == Step(setup, Run(setup, s, commands).0, command).0
    ensures Run(setup, s, commands + [command]).1
         == Run(setup, s, commands).1 + [Step(setup, Run(setup, s, commands).0, command).1]
  {
    assert (commands + [command])[..|commands|] == commands;
  }

  function LiveStep(setup: Setup, live: Vectors, command: Command): Vectors {
    match command
    case Insert(id, vec) => if |vec| == setup.dim then live[id := vec] else live
    case Remove(id) => live - {id}
    case _ => live
  }

  /** What the caller of a run should still have: the last vector accepted for each
      id that was not removed afterwards. */
  function Live(setup: Setup, live: Vectors, commands: seq<Command>): Vectors {
    if commands == [] then live
    else LiveStep(setup, Live(setup, live, commands[..|commands| - 1]), commands[|commands| - 1])
  }

  lemma {:induction false} RunKeepsPlaced(setup: Setup, s: Shelf, live: Vectors, commands: seq<Command>)
    requires s.Placed(live, setup.nTrain, setup.removable)
    ensures Run(setup, s, commands).0.Placed(Live(setup, live, commands), setup.nTrain, setup.removable)
  {
    if commands != [] {
      hide Step, LiveStep, Shelf.Placed;
      var front, command := commands[..|commands| - 1], commands[|commands| - 1];
      RunKeepsPlaced(setup, s, live, front);
      var s', live' := Run(setup, s, front).0, Live(setup, live, front);
      StepKeepsPlaced(setup, s', live', command);
    }
  }

  lemma StepKeepsPlaced(setup: Setup, s: Shelf, live: Vectors, command: Command)
    requires s.Placed(live, setup.nTrain, setup.removable)
    ensures Step(setup, s, command).0.Placed(LiveStep(setup, live, command), setup.nTrain, setup.removable)
  {
    match command
    case Insert(id, vec) => InsertKeepsPlaced(s, live, id, vec, setup.nTrain, setup.removable);
    case Remove(id) => RemoveKeepsPlaced(s, live, id, setup.nTrain, setup.removable);
    case _ =>
  }

  lemma InsertKeepsPlaced(s: Shelf, live: Vectors, id: Id, vec: Vector, nTrain: nat, removable: bool)
    requires s.Placed(live, nTrain, removable)
    ensures s.Insert(id, vec, nTrain).Placed(live[id := vec], nTrain, removable)
  {
    UpdateSize(s.staged, id, vec);
    assert s.indexed == map[] ==> s.indexed + s.staged[id := vec] == s.staged[id := vec];
  }

  lemma RemoveKeepsPlaced(s: Shelf, live: Vectors, id: Id, nTrain: nat, removable: bool)
    requires s.Placed(live, nTrain, removable)
    ensures s.Remove(id, removable).Placed(live - {id}, nTrain, removable)
  {
    RemoveSize(s.staged, id);
  }

  lemma UpdateSize(m: Vectors, id: Id, vec: Vector)
    ensures |m[id := vec]| <= |m| + 1
  {
    assert m[id := vec].Keys == m.Keys + {id};
  }

  lemma RemoveSize(m: Vectors, id: Id)
    ensures |m - {id}| <= |m|
  {
    if id in m {
      assert m.Keys == (m - {id}).Keys + {id};
    } else {
      assert m - {id} == m;
    }
  }

  lemma {:induction false} RunKeepsSafe(setup: Setup, s: Shelf, live: Vectors, commands: seq<Command>)
    requires s.Safe(live)
    ensures Run(setup, s, commands).0.Safe(Live(setup, live, commands))
  {
    if commands != [] {
      hide Step, LiveStep, Shelf.Safe;
      var front, command := commands[..|commands| - 1], commands[|commands| - 1];
      RunKeepsSafe(setup, s, live, front);
      var s', live' := Run(setup, s, front).0, Live(setup, live, front);
      StepKeepsSafe(setup, s', live', command);
    }
  }

  lemma StepKeepsSafe(setup: Setup, s: Shelf, live: Vectors, command: Command)
    requires s.Safe(live)
    ensures Step(setup, s, command).0.Safe(LiveStep(setup, live, command))
  {
  }

  /** Once the index is trained, everything accepted and not removed reads back bit
      for bit after a flush, whatever the run was. */
  lemma AcceptedIsFound(setup: Setup, s: Shelf, commands: seq<Command>, id: Id)
    requires Run(setup, s, commands).0.trained
    requires id in Live(setup, map[], commands)
    ensures Run(setup, s, commands).0.Flush().Get(id) == Some(Live(setup, map[], commands)[id])
  {
    assert s.Safe(map[]);
    RunKeepsSafe(setup, s, map[], commands);
  }

  /** A removed id comes back with the next flush if and only if a vector of it was
      still waiting to be written. */
  lemma RemovedComesBack(s: Shelf, id: Id, removable: bool)
    ensures s.Remove(id, removable).Get(id) == None
    ensures s.Remove(id, removable).Flush().Get(id) != None <==> id in s.unsaved
  {
  }

  /** Removing an id takes it from where it is staged or saved, from the index if that
      supports removal, and leaves the other ids alone. */
  lemma RemoveTakesOne(s: Shelf, id: Id, removable: bool, other: Id)
    ensures var t := s.Remove(id, removable);
            && id !in t.staged && id !in t.saved && (removable ==> id !in t.indexed)
            && t.unsaved == s.unsaved && t.trained == s.trained && t.samples == s.samples
            && (other != id ==>
                  && (other in t.staged <==> other in s.staged) && (other in t.indexed <==> other in s.indexed)
                  && (other in t.staged ==> t.staged[other] == s.staged[other])
                  && (other in t.indexed ==> t.indexed[other] == s.indexed[other])
                  && t.Get(other) == s.Get(other))
  {
  }

  // ----- runs, command by command -----

  /** The insertions of a run that are accepted. */
  function Insertions(setup: Setup, commands: seq<Command>): (places: set<nat>)
    ensures forall i :: i in places <==>
              0 <= i < |commands| && commands[i].Insert? && |commands[i].vec| == setup.dim
  {
    set i | 0 <= i < |commands| && commands[i].Insert? && |commands[i].vec| == setup.dim
  }

  /** An untrained index is trained in a run just when there have been as many accepted
      insertions as training needs, counting those before.  Until then each of them is a sample,
      and no vector gets into the index, the queue or the file. */
  lemma {:induction false} TrainedWhenEnough(setup: Setup, s: Shelf, commands: seq<Command>)
    requires !s.trained && s.samples < setup.nTrain
    ensures var t, n := Run(setup, s, commands).0, |Insertions(setup, commands)|;
            && (t.trained <==> s.samples + n >= setup.nTrain)
            && (!t.trained ==>
                  && t.samples == s.samples + n
                  && (forall id :: id in t.indexed ==> id in s.indexed && t.indexed[id] == s.indexed[id])
                  && (forall id :: id in t.unsaved ==> id in s.unsaved && t.unsaved[id] == s.unsaved[id])
                  && (forall id :: id in t.saved ==>
                        || (id in s.saved && t.saved[id] == s.saved[id])
                        || (id in s.unsaved && t.saved[id] == s.unsaved[id]))
                  && (t.unsaved == s.unsaved || t.unsaved == map[]))
  {
    TrainedWhenEnoughWith(setup, s, commands);
  }

  /** `t` has no vector in the index, the queue or the file that `s` does not have there, or in
      the queue. */
  ghost predicate NoGain(s: Shelf, t: Shelf) {
    && (forall id :: id in t.indexed ==> id in s.indexed && t.indexed[id] == s.indexed[id])
    && (forall id :: id in t.unsaved ==> id in s.unsaved && t.unsaved[id] == s.unsaved[id])
    && (forall id :: id in t.saved ==>
          (id in s.saved && t.saved[id] == s.saved[id]) || (id in s.unsaved && t.saved[id] == s.unsaved[id]))
    && (t.unsaved == s.unsaved || t.unsaved == map[])
  }

  lemma {:induction false} TrainedWhenEnoughWith(setup: Setup, s: Shelf, commands: seq<Command>)
    requires !s.trained && s.samples < setup.nTrain
    ensures var t, n := Run(setup, s, commands).0, |Insertions(setup, commands)|;
            && (t.trained <==> s.samples + n >= setup.nTrain)
            && (!t.trained ==> t.samples == s.samples + n && NoGain(s, t))
  {
    hide Insertions, Step, NoGain;
    if commands == [] {
      NoInsertion(setup, s);
    } else {
      var front, last := commands[..|commands| - 1], commands[|commands| - 1];
      TrainedWhenEnoughWith(setup, s, front);
      OneMoreInsertion(setup, commands);
      StepTrains(setup, Run(setup, s, front).0, last);
      if !Run(setup, s, commands).0.trained {
        StepGains(setup, s, Run(setup, s, front).0, last);
      }
    }
  }

  lemma NoInsertion(setup: Setup, s: Shelf)
    ensures Insertions(setup, []) == {} && NoGain(s, s)
  {
  }

  lemma StepTrains(setup: Setup, s: Shelf, command: Command)
    ensures var t, one := Step(setup, s, command).0, if command.Insert? && |command.vec| == setup.dim then 1 else 0;
            && (s.trained ==> t.trained)
            && (!s.trained ==> (t.trained <==> one == 1 && s.samples + 1 >= setup.nTrain))
            && (!t.trained ==> t.samples == s.samples + one)
  {
  }

  lemma StepGains(setup: Setup, s: Shelf, t: Shelf, command: Command)
    requires NoGain(s, t) && !Step(setup, t, command).0.trained
    ensures NoGain(s, Step(setup, t, command).0)
  {
  }

  lemma OneMoreInsertion(setup: Setup, commands: seq<Command>)
    requires commands != []
    ensures var front, last := commands[..|commands| - 1], commands[|commands| - 1];
            |Insertions(setup, commands)|
            == |Insertions(setup, front)| + if last.Insert? && |last.vec| == setup.dim then 1 else 0
  {
    var front, last := commands[..|commands| - 1], commands[|commands| - 1];
    assert Insertions(setup, commands)
        == Insertions(setup, front) + if last.Insert? && |last.vec| == setup.dim then {|front|} else {};
  }

  /** The command changes what is kept for an id. */
  predicate Changes(setup: Setup, command: Command, id: Id) {
    (command.Insert? && |command.vec| == setup.dim && command.id == id) || (command.Remove? && command.id == id)
  }

  /** In any run the vector of an id that was accepted last, and not removed since, is staged
      until the index is trained, and queued or in the file from then on. */
  lemma {:induction false} LastInsertIsKept(setup: Setup, s: Shelf, commands: seq<Command>, j: nat, n: nat)
    requires j < n <= |commands| && commands[j].Insert? && |commands[j].vec| == setup.dim
    requires forall i :: j < i < n ==> !Changes(setup, commands[i], commands[j].id)
    ensures Run(setup, s, commands[..n]).0.Safe(map[commands[j].id := commands[j].vec])
    decreases n
  {
    hide Step, Shelf.Safe;
    var id, vec := commands[j].id, commands[j].vec;
    var before := Run(setup, s, commands[..n - 1]).0;
    assert commands[..n] == commands[..n - 1] + [commands[n - 1]];
    RunOneMore(setup, s, commands[..n - 1], commands[n - 1]);
    if n == j + 1 {
      NothingIsSafe(before);
      StepKeepsSafe(setup, before, map[], commands[j]);
    } else {
      LastInsertIsKept(setup, s, commands, j, n - 1);
      StepKeepsSafe(setup, before, map[id := vec], commands[n - 1]);
      FewerAreSafe(Step(setup, before, commands[n - 1]).0, LiveStep(setup, map[id := vec], commands[n - 1]), id, vec);
    }
  }

  lemma NothingIsSafe(s: Shelf)
    ensures s.Safe(map[])
  {
  }

  lemma FewerAreSafe(s: Shelf, live: Vectors, id: Id, vec: Vector)
    requires s.Safe(live) && id in live && live[id] == vec
    ensures s.Safe(map[id := vec])
  {
  }

  /** So it reads back, bit for bit, at any time after a flush behind the training. */
  lemma {:induction false} LastInsertIsRead(setup: Setup, s: Shelf, commands: seq<Command>, j: nat, f: nat, n: nat)
    requires j < f < n <= |commands| && commands[j].Insert? && |commands[j].vec| == setup.dim
    requires forall i :: j < i < n ==> !Changes(setup, commands[i], commands[j].id)
    requires commands[f] == Flush && Run(setup, s, commands[..f]).0.trained
    ensures var t := Run(setup, s, commands[..n]).0;
            t.trained && commands[j].id !in t.unsaved && t.Get(commands[j].id) == Some(commands[j].vec)
    decreases n
  {
    hide Step, Shelf.Safe, Changes;
    assert commands[..n] == commands[..n - 1] + [commands[n - 1]];
    RunOneMore(setup, s, commands[..n - 1], commands[n - 1]);
    var before := Run(setup, s, commands[..n - 1]).0;
    if n == f + 1 {
      LastInsertIsKept(setup, s, commands, j, f);
      FlushReads(setup, before, commands[j].id, commands[j].vec);
    } else {
      LastInsertIsRead(setup, s, commands, j, f, n - 1);
      ReadStays(setup, before, commands[j].id, commands[n - 1]);
    }
  }

  lemma FlushReads(setup: Setup, s: Shelf, id: Id, vec: Vector)
    requires s.trained && s.Safe(map[id := vec])
    ensures var t := Step(setup, s, Flush).0; t.trained && id !in t.unsaved && t.Get(id) == Some(vec)
  {
    assert id in map[id := vec];
  }

  lemma ReadStays(setup: Setup, s: Shelf, id: Id, command: Command)
    requires s.trained && id !in s.unsaved && !Changes(setup, command, id)
    ensures var t := Step(setup, s, command).0; t.trained && id !in t.unsaved && t.Get(id) == s.Get(id)
  {
  }

  lemma {:induction false} ReplyAt(setup: Setup, s: Shelf, commands: seq<Command>, i: nat)
    requires i < |commands|
    ensures |Run(setup, s, commands).1| == |commands|
    ensures Run(setup, s, commands).1[i] == Step(setup, Run(setup, s, commands[..i]).0, commands[i]).1
    decreases |commands|
  {
    hide Step;
    var n := |commands| - 1;
    RepliesOf(setup, s, commands[..n]);
    if i < n {
      ReplyAt(setup, s, commands[..n], i);
      assert commands[..n][..i] == commands[..i];
    }
  }

  lemma {:induction false} RepliesOf(setup: Setup, s: Shelf, commands: seq<Command>)
    ensures |Run(setup, s, commands).1| == |commands|
  {
    if commands != [] {
      RepliesOf(setup, s, commands[..|commands| - 1]);
    }
  }

  lemma {:induction false} TrainedForGood(setup: Setup, s: Shelf, commands: seq<Command>)
    requires s.trained
    ensures Run(setup, s, commands).0.trained
  {
    if commands != [] {
      TrainedForGood(setup, s, commands[..|commands| - 1]);
    }
  }

  /** What a read answers for the vector that was accepted last for its id. */
  lemma ReadsBack(setup: Setup, s: Shelf, commands: seq<Command>, j: nat, f: nat, n: nat)
    requires j < f < n < |commands| && commands[j].Insert? && |commands[j].vec| == setup.dim
    requires commands[f] == Flush && commands[n] == Get(commands[j].id)
    requires forall i :: j < i < n ==> !Changes(setup, commands[i], commands[j].id)
    requires !s.trained ==> s.samples < setup.nTrain
    requires s.trained || s.samples + |Insertions(setup, commands[..f])| >= setup.nTrain
    ensures |Run(setup, s, commands).1| == |commands|
    ensures Run(setup, s, commands).1[n] == Found(Some(commands[j].vec))
  {
    hide Run;
    if s.trained {
      TrainedForGood(setup, s, commands[..f]);
    } else {
      TrainedWhenEnough(setup, s, commands[..f]);
    }
    LastInsertIsRead(setup, s, commands, j, f, n);
    ReplyAt(setup, s, commands, n);
  }
}
