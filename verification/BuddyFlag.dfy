/** When the program as written leaves a region's mem_full right: set exactly if no page is free. */
module BuddyFlag {
  import opened Halving
  import opened Builds
  import opened Buddy
  import opened BuddySteps
  import opened BuddyInit
  import opened BuddyRuns

  /** A right flag stays right: the request can be served or there is nothing to serve, and nothing is given
      back to a region that has run out. */
  ghost predicate KeepsFlag(y: System, op: Op)
  {
    match op
    case AllocOp(k) => k >= MAX_ORDER || !NoneFrom(y.zone.clear, k) || y.zone.free == 0
    case FreeOp(_, _) => y.zone.free > 0
    case ReserveOp(_, _) => true
  }

  /** A flag set too early becomes right: the call takes the last free pages. */
  ghost predicate TakesLast(y: System, op: Op)
  {
    match op
    case AllocOp(k) => k < MAX_ORDER && !NoneFrom(y.zone.clear, k) && y.zone.free == Pow2(k)
    case FreeOp(_, _) => false
    case ReserveOp(k, _) => y.zone.free == Pow2(k)
  }

  /** What one call as written does to the flag and the free count. */
  lemma StepFlag(y: System, op: Op)
    requires Good(Source, y) && Allowed(Source, y, op)
    ensures var s, t := y.zone, Step(Source, y, op).zone;
      match op
      case AllocOp(k) =>
        if k >= MAX_ORDER then t == s
        else if NoneFrom(s.clear, k) then t.full && t.free == s.free
        else t.free == s.free - Pow2(k) && t.full == (s.full || t.free == 0)
      case FreeOp(k, _) => t.free == s.free + Pow2(k) && t.full == (s.full || s.free == 0)
      case ReserveOp(k, _) => t.free == s.free - Pow2(k) && t.full == (s.full || t.free == 0)
  {
    match op
    case AllocOp(k) =>
      if k < MAX_ORDER {
        if NoneFrom(y.zone.clear, k) { AllocNone(Source, y.zone, k); } else { AllocSome(Source, y.zone, k); }
      }
    case FreeOp(k, a) =>
      AllowedFree(Source, y, k, a);
    case ReserveOp(k, i) =>
      SourceReserveTakes(y.zone, k, i);
  }

  /** Exactly when a call as written leaves the flag right, whether it was right before or set too early. */
  lemma FlagRightIff(y: System, op: Op)
    requires Good(Source, y) && Allowed(Source, y, op)
    ensures FullRight(Repaired, Step(Source, y, op).zone)
      <==> if FullRight(Repaired, y.zone) then KeepsFlag(y, op) else TakesLast(y, op)
  {
    StepFlag(y, op);
  }

  /** The same, call by call, over a run. */
  ghost predicate FlagAfter(right: bool, y: System, ops: seq<Op>)
    decreases |ops|
  {
    if ops == [] then right
    else FlagAfter(if right then KeepsFlag(y, ops[0]) else TakesLast(y, ops[0]), Step(Source, y, ops[0]), ops[1..])
  }

  /** Exactly when the flag is right at the end of a run. */
  lemma {:induction false} RunFlagIff(y: System, ops: seq<Op>)
    requires Good(Source, y) && AllowedRun(Source, y, ops)
    ensures FullRight(Repaired, Run(Source, y, ops).zone) <==> FlagAfter(FullRight(Repaired, y.zone), y, ops)
    decreases |ops|
  {
    if ops == [] {
    } else {
      StepKeeps(Source, y, ops[0]);
      FlagRightIff(y, ops[0]);
      RunFlagIff(Step(Source, y, ops[0]), ops[1..]);
    }
  }

  /** Once set, the full flag of the program as written never goes away. */
  lemma {:induction false} FullStays(y: System, ops: seq<Op>)
    requires Good(Source, y) && AllowedRun(Source, y, ops) && y.zone.full
    ensures Run(Source, y, ops).zone.full
    decreases |ops|
  {
    if ops == [] {
    } else {
      StepKeeps(Source, y, ops[0]);
      StepFlag(y, ops[0]);
      FullStays(Step(Source, y, ops[0]), ops[1..]);
    }
  }

  /** A request that fits no block of an untouched region of less than 512 pages marks all its pages full. */
  lemma UntouchedMarkedFull(start: nat, n: nat)
    requires 0 < n < 512
    ensures var y := Initial(start, n);
      Good(Source, y) && FullRight(Repaired, y.zone) && !KeepsFlag(y, AllocOp(9))
    ensures var z := Step(Source, Initial(start, n), AllocOp(9)).zone; z.full && z.free == n
  {
    var y := Initial(start, n);
    InitialGood(Source, start, n);
    RegionMapFresh(n);
    FreshBlocks(y.zone, 9);
    UpSmall(n);
    assert NoneFrom(y.zone.clear, 9);
    StepFlag(y, AllocOp(9));
  }

  lemma UpSmall(n: nat)
    requires n < 512
    ensures Up(n, 9) == 0
  {
    UpIsRange(n, 9, 0);
    FirstIsProduct(0, 9);
    FirstIsProduct(1, 9);
    assert Pow2(5) == 32;
  }
}
