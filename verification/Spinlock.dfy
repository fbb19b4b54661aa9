/** Any number of CPUs calling the allocator of one region, each critical section between a
    compare-exchange of the lock word and a store of 0 into it. */
module Spinlock {
  import opened Halving
  import opened Machine
  import opened Builds
  import opened Wrappers
  import opened Buddy
  import opened BuddyInit
  import opened BuddyRuns
  import opened BuddyBlocks
  import opened BuddyReserve

  /** Where a CPU is in its call. Inside the critical section it first copies the shared state and
      later stores what it computed from the copy. */
  datatype Cpu =
    | Idle
    | Waiting(op: Op)
    | Entered(op: Op)
    | Copied(op: Op, seen: System)
    | Stored(op: Op, result: Option<nat>, held: bool)

  /** The lock word, the region, the CPUs, and what happened so far: the calls in the order in which
      they took the lock, and the results in the order in which they were returned. */
  datatype World = World(lock: nat, region: System, cpus: seq<Cpu>, log: seq<Op>, results: seq<Option<nat>>)

  /** What the call returns. */
  function Result(b: Build, y: System, op: Op): Option<nat>
  {
    match op
    case AllocOp(k) => Alloc(b, y.zone, k).1
    case FreeOp(_, _) => None
    case ReserveOp(k, i) => Reserve(b, y.zone, k, i).1
  }

  /** The call returns without giving the lock back. */
  predicate Held(b: Build, y: System, op: Op)
  {
    op.FreeOp? && PagesFree(b, y.zone, y.start, y.size, op.address, op.order).1
  }

  /** The call is turned away: its address lies outside the region, or the block it works out is free already. Any
      caller can tell beforehand. */
  predicate Rejected(b: Build, y: System, op: Op)
  {
    op.FreeOp? &&
    var k, a := op.order, op.address;
    a < y.start || a >= y.start + y.size || FreeOffset(b, y.start, a, k) in y.zone.clear[k]
  }

  /** Exactly the calls that are turned away keep the lock, in the code as written. */
  lemma HeldIffRejected(b: Build, y: System, op: Op)
    ensures Held(b, y, op) <==> b == Source && Rejected(b, y, op)
  {
  }

  /** It happens: giving back the first block of the top order of 512 untouched pages, or any address past a region. */
  lemma FreshFreeHeld(start: nat, n: nat, k: Order, a: nat)
    requires n == 512 && a >= start + PAGE * n
    ensures Held(Source, Initial(start, n), FreeOp(9, start)) && Held(Source, Initial(start, n), FreeOp(k, a))
  {
    var y := Initial(start, n);
    RegionMapFresh(n);
    OneTopBlock(y.zone);
    HeldIffRejected(Source, y, FreeOp(9, start));
  }

  /** A request for an order the allocator does not have returns before the lock is touched; it is
      not a step of the model. */
  predicate TakesLock(op: Op)
  {
    op.AllocOp? ==> op.request < MAX_ORDER
  }

  /** One step of CPU i. */
  predicate Next(b: Build, y: World, z: World, i: nat)
  {
    i < |y.cpus| == |z.cpus| &&
    match y.cpus[i]
    case Idle => z.cpus[i].Waiting? && TakesLock(z.cpus[i].op) && z == y.(cpus := y.cpus[i := z.cpus[i]])
    case Waiting(op) =>
      if y.lock == 0 then z == y.(lock := 1, cpus := y.cpus[i := Entered(op)], log := y.log + [op]) else z == y
    case Entered(op) => z == y.(cpus := y.cpus[i := Copied(op, y.region)])
    case Copied(op, seen) =>
      z == y.(region := Step(b, seen, op), cpus := y.cpus[i := Stored(op, Result(b, seen, op), Held(b, seen, op))])
    case Stored(op, r, held) =>
      z == y.(lock := if held then y.lock else 0, cpus := y.cpus[i := Idle], results := y.results + [r])
  }

  predicate Inside(c: Cpu)
  {
    c.Entered? || c.Copied? || c.Stored?
  }

  // ---------------------------------------------------------------- the sequential run

  function Results(b: Build, y: System, ops: seq<Op>): seq<Option<nat>>
    decreases |ops|
  {
    if ops == [] then [] else [Result(b, y, ops[0])] + Results(b, Step(b, y, ops[0]), ops[1..])
  }

  /** No call of the sequential run is turned away by a program that keeps the lock then. */
  predicate NoneHeld(b: Build, y: System, ops: seq<Op>)
    decreases |ops|
  {
    ops == [] || (!(b == Source && Rejected(b, y, ops[0])) && NoneHeld(b, Step(b, y, ops[0]), ops[1..]))
  }

  lemma {:induction false} RunAppend(b: Build, y: System, ops: seq<Op>, op: Op)
    ensures Run(b, y, ops + [op]) == Step(b, Run(b, y, ops), op)
    ensures Results(b, y, ops + [op]) == Results(b, y, ops) + [Result(b, Run(b, y, ops), op)]
    ensures NoneHeld(b, y, ops + [op]) <==> NoneHeld(b, y, ops) && !Held(b, Run(b, y, ops), op)
    decreases |ops|
  {
    HeldIffRejected(b, Run(b, y, ops), op);
    if ops == [] {
      assert [] + [op] == [op] && [op][1..] == [];
    } else {
      assert (ops + [op])[1..] == ops[1..] + [op];
      RunAppend(b, Step(b, y, ops[0]), ops[1..], op);
    }
  }

  // ---------------------------------------------------------------- the invariant

  /** Nobody is inside: the calls logged have all been carried out, and the lock is taken only if the
      last of them kept it. */
  ghost predicate Quiet(b: Build, y0: System, y: World)
  {
    && y.region == Run(b, y0, y.log) && y.results == Results(b, y0, y.log)
    && (y.lock == 0 <==> NoneHeld(b, y0, y.log))
  }

  /** The CPU is inside with the last call logged; all calls before it have been carried out. */
  ghost predicate Busy(b: Build, y0: System, y: World, c: Cpu)
  {
    && y.lock == 1 && |y.log| > 0
    && var done, op := y.log[..|y.log| - 1], y.log[|y.log| - 1];
    && var before := Run(b, y0, done);
    && NoneHeld(b, y0, done) && y.results == Results(b, y0, done)
    && match c
       case Idle => false
       case Waiting(_) => false
       case Entered(o) => o == op && y.region == before
       case Copied(o, seen) => o == op && seen == before
       case Stored(o, r, held) =>
         o == op && y.region == Step(b, before, op) && r == Result(b, before, op) && held == Held(b, before, op)
  }

  ghost predicate Alone(y: World, i: nat)
  {
    forall j :: 0 <= j < |y.cpus| && Inside(y.cpus[j]) ==> j == i
  }

  ghost predicate Orderly(b: Build, y0: System, y: World)
  {
    && y.lock <= 1
    && (forall i: nat :: i < |y.cpus| && Inside(y.cpus[i]) ==> Alone(y, i) && Busy(b, y0, y, y.cpus[i]))
    && ((forall i: nat :: i < |y.cpus| ==> !Inside(y.cpus[i])) ==> Quiet(b, y0, y))
  }

  lemma NextOrderly(b: Build, y0: System, y: World, z: World, i: nat)
    requires Orderly(b, y0, y) && Next(b, y, z, i)
    ensures Orderly(b, y0, z)
  {
    if Inside(y.cpus[i]) {
      assert Alone(y, i) && Busy(b, y0, y, y.cpus[i]);
      InsideOrderly(b, y0, y, z, i);
    } else {
      OutsideOrderly(b, y0, y, z, i);
    }
  }

  lemma InsideOrderly(b: Build, y0: System, y: World, z: World, i: nat)
    requires Next(b, y, z, i) && Inside(y.cpus[i]) && Alone(y, i) && Busy(b, y0, y, y.cpus[i])
    ensures Orderly(b, y0, z)
  {
    assert forall j: nat :: j < |z.cpus| && j != i ==> z.cpus[j] == y.cpus[j];
    assert forall j: nat :: j < |z.cpus| && j != i ==> !Inside(z.cpus[j]);
    if y.cpus[i].Stored? {
      LeavingQuiet(b, y0, y, z, i);
    } else {
      StayingBusy(b, y0, y, z, i);
    }
  }

  /** The CPU leaves: the last call logged has been carried out. */
  lemma LeavingQuiet(b: Build, y0: System, y: World, z: World, i: nat)
    requires Next(b, y, z, i) && y.cpus[i].Stored? && Busy(b, y0, y, y.cpus[i])
    ensures Quiet(b, y0, z) && z.lock <= 1 && !Inside(z.cpus[i])
  {
    var done, op := y.log[..|y.log| - 1], y.log[|y.log| - 1];
    assert done + [op] == y.log;
    RunAppend(b, y0, done, op);
  }

  /** The CPU takes its next step inside. */
  lemma StayingBusy(b: Build, y0: System, y: World, z: World, i: nat)
    requires Next(b, y, z, i) && Inside(y.cpus[i]) && !y.cpus[i].Stored? && Busy(b, y0, y, y.cpus[i])
    ensures Inside(z.cpus[i]) && Busy(b, y0, z, z.cpus[i])
  {
  }

  lemma OutsideOrderly(b: Build, y0: System, y: World, z: World, i: nat)
    requires Orderly(b, y0, y) && Next(b, y, z, i) && !Inside(y.cpus[i])
    ensures Orderly(b, y0, z)
  {
    assert forall j: nat :: j < |z.cpus| && j != i ==> z.cpus[j] == y.cpus[j];
    if y.cpus[i].Waiting? && y.lock == 0 {
      assert forall j: nat :: j < |y.cpus| && Inside(y.cpus[j]) ==> Busy(b, y0, y, y.cpus[j]);
      assert forall j: nat :: j < |y.cpus| ==> !Inside(y.cpus[j]);
      assert z.log[..|z.log| - 1] == y.log;
      assert Alone(z, i) && Busy(b, y0, z, z.cpus[i]);
    } else {
      forall j: nat | j < |z.cpus| && Inside(z.cpus[j]) ensures Alone(z, j) && Busy(b, y0, z, z.cpus[j]) {
        assert Inside(y.cpus[j]) && Alone(y, j) && Busy(b, y0, y, y.cpus[j]);
      }
      if forall j: nat :: j < |z.cpus| ==> !Inside(z.cpus[j]) {
        assert forall j: nat :: j < |y.cpus| ==> !Inside(y.cpus[j]);
      }
    }
  }

  // ---------------------------------------------------------------- every run

  /** A run: each state follows from the one before by a step of some CPU. */
  ghost predicate Trace(b: Build, ws: seq<World>, who: seq<nat>)
  {
    |ws| == |who| + 1 && forall j: nat :: j < |who| ==> Next(b, ws[j], ws[j + 1], who[j])
  }

  predicate Start(y0: System, w: World)
  {
    w.lock == 0 && w.region == y0 && w.log == [] && w.results == [] && forall c :: c in w.cpus ==> c == Idle
  }

  lemma {:induction false} TraceOrderly(b: Build, y0: System, ws: seq<World>, who: seq<nat>)
    requires Trace(b, ws, who) && Start(y0, ws[0])
    ensures Orderly(b, y0, ws[|ws| - 1])
    decreases |who|
  {
    if who == [] {
      assert forall i: nat :: i < |ws[0].cpus| ==> ws[0].cpus[i] in ws[0].cpus;
    } else {
      var n := |who| - 1;
      TraceOrderly(b, y0, ws[..n + 1], who[..n]);
      NextOrderly(b, y0, ws[n], ws[n + 1], who[n]);
    }
  }

  /** Mutual exclusion: in every state of every run at most one CPU is inside, and then the lock is taken. */
  lemma MutualExclusion(b: Build, y0: System, ws: seq<World>, who: seq<nat>, i: nat, j: nat)
    requires Trace(b, ws, who) && Start(y0, ws[0])
    requires var w := ws[|ws| - 1]; i < |w.cpus| && j < |w.cpus| && Inside(w.cpus[i]) && Inside(w.cpus[j])
    ensures i == j && ws[|ws| - 1].lock == 1
  {
    TraceOrderly(b, y0, ws, who);
    var w := ws[|ws| - 1];
    assert Alone(w, i) && Busy(b, y0, w, w.cpus[i]);
  }

  /** Whenever the lock is free the region and all results returned are those of the sequential run in
      the order in which the lock was taken; and if the clients kept to the rules in that run, the
      region's whole invariant holds. */
  lemma SequentialWhenFree(b: Build, y0: System, ws: seq<World>, who: seq<nat>)
    requires Trace(b, ws, who) && Start(y0, ws[0]) && ws[|ws| - 1].lock == 0
    ensures var w := ws[|ws| - 1];
      && w.region == Run(b, y0, w.log) && w.results == Results(b, y0, w.log)
      && (Good(b, y0) && AllowedRun(b, y0, w.log) ==> Good(b, w.region))
  {
    TraceOrderly(b, y0, ws, who);
    var w := ws[|ws| - 1];
    assert forall i: nat :: i < |w.cpus| && Inside(w.cpus[i]) ==> Busy(b, y0, w, w.cpus[i]);
    assert forall i: nat :: i < |w.cpus| ==> !Inside(w.cpus[i]);
    if Good(b, y0) && AllowedRun(b, y0, w.log) {
      RunKeeps(b, y0, w.log);
    }
  }

  // ---------------------------------------------------------------- the lock that is never given back

  /** The lock is taken and nobody is inside. */
  predicate Stuck(w: World)
  {
    w.lock == 1 && forall c :: c in w.cpus ==> !Inside(c)
  }

  /** Some call of the sequential run is one that, before it, would have been seen to be turned away. */
  predicate SomeRejected(b: Build, y0: System, ops: seq<Op>)
  {
    exists n :: 0 <= n < |ops| && Rejected(b, Run(b, y0, ops[..n]), ops[n])
  }

  lemma {:induction false} NoneHeldMeans(b: Build, y: System, ops: seq<Op>)
    ensures NoneHeld(b, y, ops) <==> b == Repaired || !SomeRejected(b, y, ops)
    decreases |ops|
  {
    if ops == [] {
    } else {
      var done, op := ops[..|ops| - 1], ops[|ops| - 1];
      assert done + [op] == ops;
      RunAppend(b, y, done, op);
      HeldIffRejected(b, Run(b, y, done), op);
      NoneHeldMeans(b, y, done);
      RejectedLast(b, y, done, op);
    }
  }

  lemma RejectedLast(b: Build, y: System, done: seq<Op>, op: Op)
    ensures SomeRejected(b, y, done + [op]) <==> SomeRejected(b, y, done) || Rejected(b, Run(b, y, done), op)
  {
    var ops := done + [op];
    forall n | 0 <= n <= |done|
      ensures ops[..n] == done[..n]
    {
    }
    assert done[..|done|] == done;
    if n :| 0 <= n < |done| && Rejected(b, Run(b, y, done[..n]), done[n]) {
      assert Rejected(b, Run(b, y, ops[..n]), ops[n]);
    }
    assert Rejected(b, Run(b, y, done), op) ==> Rejected(b, Run(b, y, ops[..|done|]), ops[|done|]);
    if n :| 0 <= n < |ops| && Rejected(b, Run(b, y, ops[..n]), ops[n]) {
      assert n < |done| ==> Rejected(b, Run(b, y, done[..n]), done[n]);
    }
  }

  /** The lock is lost exactly when, in the code as written, one of the calls carried out was turned away. */
  lemma StuckIffHeld(b: Build, y0: System, ws: seq<World>, who: seq<nat>)
    requires Trace(b, ws, who) && Start(y0, ws[0])
    requires forall c :: c in ws[|ws| - 1].cpus ==> !Inside(c)
    ensures Stuck(ws[|ws| - 1]) <==> b == Source && SomeRejected(b, y0, ws[|ws| - 1].log)
  {
    NoneHeldMeans(b, y0, ws[|ws| - 1].log);
    TraceOrderly(b, y0, ws, who);
    var w := ws[|ws| - 1];
    assert forall i: nat :: i < |w.cpus| ==> w.cpus[i] in w.cpus;
  }

  /** Repaired, no call keeps the lock. */
  lemma {:induction false} RepairedNeverHolds(y0: System, ops: seq<Op>)
    ensures NoneHeld(Repaired, y0, ops)
    decreases |ops|
  {
    if ops == [] {
    } else {
      RepairedNeverHolds(Step(Repaired, y0, ops[0]), ops[1..]);
    }
  }

  /** As written, no call of clients that keep to the rules does. */
  lemma {:induction false} AllowedNeverHolds(b: Build, y0: System, ops: seq<Op>)
    requires Good(b, y0) && AllowedRun(b, y0, ops)
    ensures NoneHeld(b, y0, ops)
    decreases |ops|
  {
    if ops == [] {
    } else {
      AllowedNotHeld(b, y0, ops[0]);
      StepKeeps(b, y0, ops[0]);
      AllowedNeverHolds(b, Step(b, y0, ops[0]), ops[1..]);
    }
  }

  lemma AllowedNotHeld(b: Build, y: System, op: Op)
    requires Good(b, y) && Allowed(b, y, op)
    ensures !Held(b, y, op) && !Rejected(b, y, op)
  {
    if op.FreeOp? {
      var g := GrantAt(y.start, op.order, op.address);
      LiveIsBusy(y, g);
      InsideBlock((op.address - y.start) / PAGE, y.zone.pages, op.order);
      GiveAdds(y.zone.clear, op.order, g.index);
    }
  }

  /** Once lost, the lock stays lost: no call ever gets in again. */
  lemma {:induction false} StuckForever(b: Build, ws: seq<World>, who: seq<nat>)
    requires Trace(b, ws, who) && Stuck(ws[0])
    ensures var w := ws[|ws| - 1];
      Stuck(w) && w.log == ws[0].log && w.region == ws[0].region && w.results == ws[0].results
    decreases |who|
  {
    if who == [] {
    } else {
      var n := |who| - 1;
      StuckForever(b, ws[..n + 1], who[..n]);
      var y, z, i := ws[n], ws[n + 1], who[n];
      assert y.cpus[i] in y.cpus;
      forall c | c in z.cpus ensures !Inside(c) {
        var j :| 0 <= j < |z.cpus| && z.cpus[j] == c;
        assert y.cpus[j] in y.cpus;
      }
    }
  }
}
