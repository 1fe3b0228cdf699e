/** The connection limiter of `cmd/server/server.go`: a semaphore that is replaced by
    one of another size while connections are open.  Each operation is one atomic
    step; limit updates are queued and applied later by another goroutine. */
module ConnectionManager {
  import opened Wrappers

  const MAX_INT32: nat := 0x7FFF_FFFF

  /** Room for limit updates that wait to be applied. */
  const MAX_UPDATES: nat := 10

  type Int32 = n: int | -0x8000_0000 <= n <= 0x7FFF_FFFF

  datatype Refusal = NotPositive | BelowActive | QueueFull

  // ----- the counts -----

  /** The limit (also the capacity of the semaphore), the open connections, the
      permits held in the semaphore, and the updates that wait. */
  datatype Counts = Counts(limit: int, active: int, permits: int, updates: seq<int>) {

    /** Connections that hold no permit of the present semaphore. */
    function Unbacked(): int {
      active - permits
    }

    /** No more permits than open connections or than the limit allows; and `active`
        can never leave 32 bits, since `limit + Unbacked()` bounds it. */
    predicate Sound() {
      && 0 <= permits <= Min(active, limit)
      && limit + Unbacked() <= MAX_INT32
      && |updates| <= MAX_UPDATES
      && forall i :: 0 <= i < |updates| ==> 0 < updates[i] <= MAX_INT32
    }

    function TryAcquire(): (Counts, bool) {
      if permits < limit then (this.(active := active + 1, permits := permits + 1), true) else (this, false)
    }

    /** A release takes a permit; when there is none it waits. */
    function Release(): (Counts, bool) {
      if permits > 0 then (this.(active := active - 1, permits := permits - 1), true) else (this, false)
    }

    function Request(newLimit: Int32): (Counts, Result<(), Refusal>) {
      if newLimit <= 0 then (this, Err(NotPositive))
      else if newLimit < active then (this, Err(BelowActive))
      else if |updates| >= MAX_UPDATES then (this, Err(QueueFull))
      else (this.(updates := updates + [newLimit]), Ok(()))
    }

    function Apply(): Counts {
      if updates == [] then this
      else Counts(updates[0], active, Min(active, updates[0]), updates[1..])
    }
  }

  datatype Command = TryAcquire | Release | Request(newLimit: Int32) | Apply

  datatype Reply = Granted(ok: bool) | Released(ok: bool) | Requested(r: Result<(), Refusal>) | Applied

  function Step(s: Counts, command: Command): (Counts, Reply) {
    match command
    case TryAcquire => (s.TryAcquire().0, Granted(s.TryAcquire().1))
    case Release => (s.Release().0, Released(s.Release().1))
    case Request(newLimit) => (s.Request(newLimit).0, Requested(s.Request(newLimit).1))
    case Apply => (s.Apply(), Applied)
  }

  function Run(s: Counts, commands: seq<Command>): (Counts, seq<Reply>) {
    if commands == [] then (s, [])
    else
      var (before, replies) := Run(s, commands[..|commands| - 1]);
      var (after, reply) := Step(before, commands[|commands| - 1]);
      (after, replies + [reply])
  }

  // ----- every run -----

  lemma {:induction false} RunIsSound(s: Counts, commands: seq<Command>)
    requires s.Sound()
    ensures Run(s, commands).0.Sound()
  {
    if commands != [] {
      RunIsSound(s, commands[..|commands| - 1]);
    }
  }

  /** The connections open after a run are those at the start, those let in since, and
      without those released since. */
  lemma {:induction false} ActiveIsBalance(s: Counts, commands: seq<Command>)
    ensures var (t, replies) := Run(s, commands);
            && |replies| == |commands|
            && t.active == s.active + |Places(replies, Granted(true))| - |Places(replies, Released(true))|
  {
    if commands != [] {
      var front := commands[..|commands| - 1];
      ActiveIsBalance(s, front);
      var replies, before := Run(s, commands).1, Run(s, front).1;
      OneMorePlace(before, replies, Granted(true));
      OneMorePlace(before, replies, Released(true));
    }
  }

  function Places<T(==)>(s: seq<T>, x: T): (places: set<nat>)
    ensures forall i :: i in places <==> 0 <= i < |s| && s[i] == x
  {
    set i | 0 <= i < |s| && s[i] == x
  }

  lemma OneMorePlace<T>(before: seq<T>, after: seq<T>, x: T)
    requires |after| == |before| + 1 && before == after[..|before|]
    ensures |Places(after, x)| == |Places(before, x)| + if after[|before|] == x then 1 else 0
  {
    assert Places(after, x) == Places(before, x) + if after[|before|] == x then {|before|} else {};
  }

  lemma RunLast(s: Counts, commands: seq<Command>)
    ensures commands == [] ==> Run(s, commands) == (s, [])
    ensures commands != [] ==>
              var (before, replies) := Run(s, commands[..|commands| - 1]);
              var (after, reply) := Step(before, commands[|commands| - 1]);
              Run(s, commands) == (after, replies + [reply])
  {
  }

  lemma StepIs(s: Counts, command: Command)
    ensures var (t, reply) := Step(s, command);
            && (reply == Requested(Ok(())) <==> command.Request? && s.Request(command.newLimit).1.Ok?)
            && (reply == Requested(Ok(())) ==> t.updates == s.updates + [command.newLimit])
            && (command.Apply? && s.updates != [] ==> t.limit == s.updates[0] && t.updates == s.updates[1..])
            && (!(command.Apply? && s.updates != []) ==> t.limit == s.limit)
            && (!(command.Apply? && s.updates != []) && reply != Requested(Ok(())) ==> t.updates == s.updates)
  {
  }

  /** Limits are applied in the order in which they were accepted, none left out: `limits`
      are those that waited at the start and those of the accepted requests (at the places
      `js`), and `applied` of them have been applied, one at a time. */
  lemma {:induction false} LimitsInOrder(s: Counts, commands: seq<Command>)
    returns (js: seq<nat>, limits: seq<int>, applied: nat)
    ensures var (t, replies) := Run(s, commands);
            && |replies| == |commands|
            && (forall i :: 0 <= i < |js| ==> js[i] < |commands| && commands[js[i]].Request?)
            && (forall i :: 0 <= i < |commands| ==> (i in js <==> replies[i] == Requested(Ok(()))))
            && (forall i, j :: 0 <= i < j < |js| ==> js[i] < js[j])
            && |limits| == |s.updates| + |js| && limits[..|s.updates|] == s.updates
            && (forall i :: 0 <= i < |js| ==> limits[|s.updates| + i] == commands[js[i]].newLimit)
            && applied <= |limits| && t.updates == limits[applied..]
            && t.limit == (if applied == 0 then s.limit else limits[applied - 1])
            && applied <= |Places(commands, Apply)|
  {
    hide Run, Places, Step;
    js, limits, applied := [], s.updates, 0;
    RunLast(s, commands);
    if commands != [] {
      var n := |commands| - 1;
      var front := commands[..n];
      js, limits, applied := LimitsInOrder(s, front);
      OneMorePlace(front, commands, Apply);
      var before := Run(s, front).0;
      StepIs(before, commands[n]);
      if commands[n].Request? && before.Request(commands[n].newLimit).1.Ok? {
        js, limits := js + [n], limits + [commands[n].newLimit];
      } else if commands[n].Apply? && before.updates != [] {
        applied := applied + 1;
      }
    }
  }

  /** How far the limit that was applied last was below the connections open at that
      moment; `start` when none was applied. */
  function Shortfall(s: Counts, commands: seq<Command>, start: int): int {
    if commands == [] then start
    else
      var before := Run(s, commands[..|commands| - 1]).0;
      if commands[|commands| - 1].Apply? && before.updates != [] then
        if before.active > before.updates[0] then before.active - before.updates[0] else 0
      else Shortfall(s, commands[..|commands| - 1], start)
  }

  /** In every run the connections without a permit are exactly those by which the
      last applied limit fell short. */
  lemma {:induction false} UnbackedIsShortfall(s: Counts, commands: seq<Command>)
    requires s.Sound()
    ensures Run(s, commands).0.Unbacked() == Shortfall(s, commands, s.Unbacked())
  {
    if commands != [] {
      UnbackedIsShortfall(s, commands[..|commands| - 1]);
    }
  }

  /** What unbacked connections cost: a release of an open connection waits if and
      only if only unbacked ones are left, and a new connection is let in if and only
      if there are fewer than the limit and the unbacked ones together. */
  lemma UnbackedMatters(s: Counts)
    requires s.Sound()
    ensures !s.Release().1 <==> s.active == s.Unbacked()
    ensures s.TryAcquire().1 <==> s.active < s.limit + s.Unbacked()
  {
  }

  // ----- runs in which limits fit -----

  /** A limit that is applied is not below the connections open at that moment. */
  predicate LimitFits(s: Counts, command: Command) {
    command.Apply? && s.updates != [] ==> s.active <= s.updates[0]
  }

  predicate LimitsFit(s: Counts, commands: seq<Command>) {
    forall n :: 0 <= n < |commands| ==> LimitFits(Run(s, commands[..n]).0, commands[n])
  }

  /** All along a run every connection has its permit. */
  predicate BackedAlong(s: Counts, commands: seq<Command>) {
    forall n :: 0 <= n <= |commands| ==> Run(s, commands[..n]).0.Unbacked() == 0
  }

  /** From a start where every connection has its permit, that stays so just as long as
      every limit fits when it is applied. */
  lemma {:induction false} BackedWhileLimitsFit(s: Counts, commands: seq<Command>)
    requires s.Sound() && s.Unbacked() == 0
    ensures BackedAlong(s, commands) <==> LimitsFit(s, commands)
    decreases |commands|
  {
    if commands == [] {
      assert commands[..0] == [];
    } else {
      var front, last := commands[..|commands| - 1], commands[|commands| - 1];
      forall n | 0 <= n <= |front|
        ensures front[..n] == commands[..n]
      {
      }
      BackedWhileLimitsFit(s, front);
      RunIsSound(s, front);
      var t := Run(s, front).0;
      assert commands[..|commands|] == commands && front[..|front|] == front;
      assert Run(s, commands).0 == Step(t, last).0;
      assert t.Unbacked() == 0 ==> (Step(t, last).0.Unbacked() == 0 <==> LimitFits(t, last));
      BackedSplit(s, commands);
      LimitsSplit(s, commands);
    }
  }

  lemma BackedSplit(s: Counts, commands: seq<Command>)
    requires commands != []
    ensures var front := commands[..|commands| - 1];
            BackedAlong(s, commands) <==> BackedAlong(s, front) && Run(s, commands).0.Unbacked() == 0
  {
    hide Run;
    var front := commands[..|commands| - 1];
    assert commands[..|commands|] == commands;
    forall n | 0 <= n <= |front|
      ensures front[..n] == commands[..n]
    {
    }
  }

  lemma LimitsSplit(s: Counts, commands: seq<Command>)
    requires commands != []
    ensures var front := commands[..|commands| - 1];
            LimitsFit(s, commands)
            <==> LimitsFit(s, front) && LimitFits(Run(s, front).0, commands[|commands| - 1])
  {
    hide Run, LimitFits;
    var front := commands[..|commands| - 1];
    forall n | 0 <= n < |front|
      ensures front[..n] == commands[..n] && front[n] == commands[n]
    {
    }
  }

  /** Such a run keeps the limit, accepts exactly below it, and no release of an open
      connection waits. */
  lemma FittingRunKeepsLimit(s: Counts, commands: seq<Command>)
    requires s.Sound() && s.Unbacked() == 0 && LimitsFit(s, commands)
    ensures var t := Run(s, commands).0;
            && t.permits == t.active <= t.limit
            && (t.active > 0 ==> t.Release().1)
            && (t.TryAcquire().1 <==> t.active < t.limit)
  {
    BackedWhileLimitsFit(s, commands);
    RunIsSound(s, commands);
    assert commands[..|commands|] == commands;
  }

  // ----- a guard that makes limits fit -----

  /** Every open connection has its permit, and no waiting limit is too low. */
  predicate Backed(s: Counts) {
    s.Unbacked() == 0 && forall i :: 0 <= i < |s.updates| ==> s.active <= s.updates[i]
  }

  /** No connection is let in that a waiting limit has no room for. */
  predicate Fits(s: Counts, command: Command) {
    command.TryAcquire? ==> !s.TryAcquire().1 || forall i :: 0 <= i < |s.updates| ==> s.active < s.updates[i]
  }

  predicate AllFit(s: Counts, commands: seq<Command>) {
    forall n :: 0 <= n < |commands| ==> Fits(Run(s, commands[..n]).0, commands[n])
  }

  lemma FitIsBacked(s: Counts, command: Command)
    requires s.Sound() && Backed(s)
    ensures Backed(Step(s, command).0) <==> Fits(s, command)
    ensures LimitFits(s, command)
  {
    if command.TryAcquire? {
      var s' := s.TryAcquire().0;
      if !Fits(s, command) {
        var i :| 0 <= i < |s.updates| && !(s.active < s.updates[i]);
        assert s'.active > s'.updates[i];
      }
    }
    if command.Apply? && s.updates != [] {
      assert s.active <= s.updates[0];
    }
  }

  /** It is enough to let in no connection past a limit that waits: then every limit
      still fits when it is applied. */
  lemma {:induction false} GuardedLimitsFit(s: Counts, commands: seq<Command>)
    requires s.Sound() && Backed(s) && AllFit(s, commands)
    ensures Backed(Run(s, commands).0) && LimitsFit(s, commands)
    decreases |commands|
  {
    if commands != [] {
      hide Fits, Backed, LimitFits, Step;
      var front := commands[..|commands| - 1];
      forall n | 0 <= n < |front|
        ensures Fits(Run(s, front[..n]).0, front[n])
      {
        assert front[..n] == commands[..n];
      }
      GuardedLimitsFit(s, front);
      RunIsSound(s, front);
      assert Fits(Run(s, front).0, commands[|commands| - 1]);
      FitIsBacked(Run(s, front).0, commands[|commands| - 1]);
      LimitsSplit(s, commands);
    }
  }

  /** The check of a request does not cover connections let in before it is applied:
      the limit is exceeded, a release waits although its connection is open, and a
      connection is let in above the limit. */
  lemma LateUpdate()
    ensures var s := Counts(2, 0, 0, []);
            var commands := [Request(1), TryAcquire, TryAcquire, Apply, Release];
            var (t, replies) := Run(s, commands);
            && replies == [Requested(Ok(())), Granted(true), Granted(true), Applied, Released(true)]
            && t.limit == 1 && t.active == 1
            && t.Release() == (t, false)
            && t.TryAcquire().1 && t.TryAcquire().0.active == 2
  {
    var s := Counts(2, 0, 0, []);
    var one: seq<int> := [1];
    assert s.updates + one == one && one[1..] == [];
    var c1, r1 := [] + [Request(1)], [] + [Requested(Ok(()))];
    RunOne(s, [], Request(1), s, [], Counts(2, 0, 0, [1]), Requested(Ok(())));
    RunOne(s, c1, TryAcquire, Counts(2, 0, 0, [1]), r1, Counts(2, 1, 1, [1]), Granted(true));
    var c2, r2 := c1 + [TryAcquire], r1 + [Granted(true)];
    RunOne(s, c2, TryAcquire, Counts(2, 1, 1, [1]), r2, Counts(2, 2, 2, [1]), Granted(true));
    var c3, r3 := c2 + [TryAcquire], r2 + [Granted(true)];
    RunOne(s, c3, Apply, Counts(2, 2, 2, [1]), r3, Counts(1, 2, 1, []), Applied);
    var c4, r4 := c3 + [Apply], r3 + [Applied];
    RunOne(s, c4, Release, Counts(1, 2, 1, []), r4, Counts(1, 1, 0, []), Released(true));
    assert c4 + [Release] == [Request(1), TryAcquire, TryAcquire, Apply, Release];
  }

  lemma RunOne(s: Counts, front: seq<Command>, command: Command, before: Counts, replies: seq<Reply>,
               after: Counts, reply: Reply)
    requires Run(s, front) == (before, replies) && Step(before, command) == (after, reply)
    ensures Run(s, front + [command]) == (after, replies + [reply])
  {
    assert (front + [command])[..|front|] == front;
  }

  // ----- the manager -----

  class ConnectionManager {
    var maxConnections: Int32
    var activeConnections: Int32
    /** The semaphore channel: its capacity and how many permits are in it. */
    var capacity: nat
    var permits: nat
    var limitUpdates: seq<Int32>

    predicate Valid()
      reads this
    {
      capacity == maxConnections && State().Sound()
    }

    function State(): Counts
      reads this
    {
      Counts(maxConnections, activeConnections, permits, limitUpdates)
    }

    /** A negative capacity makes the creation of the channel panic. */
    constructor (limit: Int32)
      requires limit >= 0
      ensures Valid() && State() == Counts(limit, 0, 0, []) && Backed(State())
    {
      maxConnections, activeConnections := limit, 0;
      capacity, permits, limitUpdates := limit, 0, [];
    }

    method TryAcquire() returns (ok: bool)
      requires Valid()
      modifies this`activeConnections, this`permits
      ensures Valid() && (State(), ok) == old(State()).TryAcquire()
      ensures ok <==> old(permits) < maxConnections
      ensures permits == old(permits) + (if ok then 1 else 0)
      ensures activeConnections == old(activeConnections) + (if ok then 1 else 0)
    {
      ok := permits < capacity;
      if ok {
        permits := permits + 1;
        activeConnections := activeConnections + 1;
      }
    }

    /** `done` is false where the source would wait. */
    method Release() returns (done: bool)
      requires Valid()
      modifies this`activeConnections, this`permits
      ensures Valid() && (State(), done) == old(State()).Release()
      ensures done <==> old(permits) > 0
      ensures permits == old(permits) - (if done then 1 else 0)
      ensures activeConnections == old(activeConnections) - (if done then 1 else 0)
    {
      done := permits > 0;
      if done {
        permits := permits - 1;
        activeConnections := activeConnections - 1;
      }
    }

    method UpdateLimit(newLimit: Int32) returns (r: Result<(), Refusal>)
      requires Valid()
      modifies this`limitUpdates
      ensures Valid() && (State(), r) == old(State()).Request(newLimit)
      ensures r.Ok? <==> newLimit > 0 && newLimit >= activeConnections && |old(limitUpdates)| < 10
      ensures r == Err(NotPositive) <==> newLimit <= 0
      ensures r == Err(BelowActive) <==> 0 < newLimit < activeConnections
      ensures limitUpdates == if r.Ok? then old(limitUpdates) + [newLimit] else old(limitUpdates)
    {
      if newLimit <= 0 {
        return Err(NotPositive);
      }
      if newLimit < activeConnections {
        return Err(BelowActive);
      }
      if |limitUpdates| >= MAX_UPDATES {
        return Err(QueueFull);
      }
      limitUpdates := limitUpdates + [newLimit];
      r := Ok(());
    }

    /** The limit manager takes the next update, if there is one. */
    method ApplyNextUpdate()
      requires Valid()
      modifies this
      ensures Valid() && State() == old(State()).Apply()
      ensures activeConnections == old(activeConnections)
      ensures old(limitUpdates) == [] ==> unchanged(this)
      ensures old(limitUpdates) != [] ==>
                && maxConnections == old(limitUpdates)[0] && limitUpdates == old(limitUpdates)[1..]
                && permits == if activeConnections < maxConnections then activeConnections else maxConnections
    {
      if limitUpdates != [] {
        var newLimit := limitUpdates[0];
        limitUpdates := limitUpdates[1..];
        ApplyLimit(newLimit);
      }
    }

    /** A new semaphore gets a permit for each open connection, as far as it has
        room; the loop goes on when it is full. */
    method ApplyLimit(newLimit: Int32)
      requires Valid() && newLimit > 0
      modifies this`maxConnections, this`capacity, this`permits
      ensures Valid() && State() == Counts(newLimit, activeConnections, Min(activeConnections, newLimit), limitUpdates)
    {
      maxConnections := newLimit;
      var newPermits := 0;
      for i := 0 to activeConnections
        invariant newPermits == Min(i, newLimit)
      {
        if newPermits < newLimit {
          newPermits := newPermits + 1;
        }
      }
      capacity, permits := newLimit, newPermits;
    }
  }

  /** Every run of a manager answers what the counts say. */
  method Execute(cm: ConnectionManager, commands: seq<Command>) returns (replies: seq<Reply>)
    requires cm.Valid()
    modifies cm
    ensures cm.Valid() && (cm.State(), replies) == Run(old(cm.State()), commands)
  {
    hide Counts.Sound;
    replies := [];
    for i := 0 to |commands|
      invariant cm.Valid() && (cm.State(), replies) == Run(old(cm.State()), commands[..i])
    {
      assert commands[..i + 1][..i] == commands[..i];
      var reply := Applied;
      match commands[i] {
        case TryAcquire =>
          var ok := cm.TryAcquire();
          reply := Granted(ok);
        case Release =>
          var done := cm.Release();
          reply := Released(done);
        case Request(newLimit) =>
          var r := cm.UpdateLimit(newLimit);
          reply := Requested(r);
        case Apply => cm.ApplyNextUpdate();
      }
      replies := replies + [reply];
    }
    assert commands[..|commands|] == commands;
  }
}
