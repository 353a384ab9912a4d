/**
 The memory-pressure policy in closed loop with the buffer pool: high pressure
 shrinks the pool a step at a time down to a floor, low pressure grows it a step
 at a time up to a ceiling, and in between nothing moves.
 */
module Policy {
  import opened Results
  import BufferPool

  const ULONG_MAX: nat := 0xFFFF_FFFF_FFFF_FFFF

  /** A maxFrames of zero means no ceiling of its own. */
  datatype Config = Config(shrinkAt: real, growAt: real, fraction: real, pageSize: nat, minFrames: nat, maxFrames: nat,
                           stepDown: nat, stepUp: nat)

  datatype Snapshot = Snapshot(valid: bool, hasMemory: bool, hasLimit: bool, pressure: real, limit: nat)

  datatype Action = Hold | Grow | Shrink

  datatype Reason =
    Decided | NoMetrics | Unlimited | WithinBand | AtMin | AtMax | Duplicate | RequestFailed | InvalidConfig

  datatype Decision = Decision(action: Action, target: nat, pressure: real, reason: Reason)

  /** The pool's capacity and the policy's memory of its last request. */
  datatype Loop = Loop(capacity: nat, have: bool, last: nat)

  predicate ConfigOk(c: Config) {
    && c.shrinkAt > 0.0 && 0.0 <= c.growAt < c.shrinkAt && 0.0 < c.fraction <= 1.0
    && c.pageSize > 0 && c.minFrames > 0 && (c.maxFrames != 0 ==> c.minFrames <= c.maxFrames)
    && (c.stepDown != 0 || c.stepUp != 0)
    && c.minFrames <= ULONG_MAX && c.maxFrames <= ULONG_MAX && c.stepUp <= ULONG_MAX && c.stepDown <= ULONG_MAX
  }

  /** The pool's share of a memory limit, in frames. */
  function Share(c: Config, limit: nat): (s: real)
    requires ConfigOk(c)
    ensures s >= 0.0
  {
    limit as real / c.pageSize as real * c.fraction
  }

  /** The frames a memory limit allows: a fraction of it, not below the floor nor above the configured maximum. */
  function Ceiling(c: Config, limit: nat): (f: nat)
    requires ConfigOk(c)
    ensures c.minFrames <= f <= ULONG_MAX && (c.maxFrames != 0 ==> f <= c.maxFrames)
    ensures f > c.minFrames ==> f as real <= Share(c, limit)
  {
    var share := Share(c, limit);
    var whole := if share >= ULONG_MAX as real then ULONG_MAX else share.Floor;
    var floored := if whole < c.minFrames then c.minFrames else whole;
    if c.maxFrames != 0 && floored > c.maxFrames then c.maxFrames else floored
  }

  function SubFloor(a: nat, b: nat): nat { if a > b then a - b else 0 }

  function AddSat(a: nat, b: nat): nat { if a + b > ULONG_MAX then ULONG_MAX else a + b }

  function ShrinkTarget(c: Config, now: nat): nat {
    if SubFloor(now, c.stepDown) < c.minFrames then c.minFrames else SubFloor(now, c.stepDown)
  }

  function GrowTarget(c: Config, limit: nat, now: nat): nat
    requires ConfigOk(c)
  {
    if AddSat(now, c.stepUp) > Ceiling(c, limit) then Ceiling(c, limit) else AddSat(now, c.stepUp)
  }

  /** The decision for one snapshot. */
  function Decide(c: Config, snap: Snapshot, l: Loop): Decision
    requires ConfigOk(c)
  {
    var hold := Decision(Hold, l.capacity, 0.0, Decided);
    if !snap.valid || !snap.hasMemory then hold.(reason := NoMetrics)
    else
      var pressure := if snap.pressure < 0.0 then 0.0 else snap.pressure;
      var held := hold.(pressure := pressure);
      if !snap.hasLimit then held.(reason := Unlimited)
      else if pressure >= c.shrinkAt then
        var target := ShrinkTarget(c, l.capacity);
        if target >= l.capacity then held.(reason := AtMin)
        else if l.have && l.last == target then held.(reason := Duplicate)
        else Decision(Shrink, target, pressure, Decided)
      else if pressure <= c.growAt then
        var target := GrowTarget(c, snap.limit, l.capacity);
        if target <= l.capacity then held.(reason := AtMax)
        else if l.have && l.last == target then held.(reason := Duplicate)
        else Decision(Grow, target, pressure, Decided)
      else held.(reason := WithinBand)
  }

  /** One turn of the loop; `works` says whether a request succeeded. */
  function Tick(c: Config, snap: Snapshot, l: Loop, works: bool): Loop
    requires ConfigOk(c)
  {
    var d := Decide(c, snap, l);
    if d.action.Hold? then l
    else if works then Loop(d.target, true, d.target)
    else Loop(l.capacity, false, 0)
  }

  // ---- the policy as it runs --------------------------------------------------------------

  class Policy {
    var last: nat
    var have: bool

    constructor ()
      ensures !have && last == 0
    {
      last, have := 0, false;
    }

    /** Evaluates a snapshot; a decision to resize is remembered. */
    method Evaluate(c: Config, snap: Snapshot, now: nat) returns (rc: Status, d: Decision)
      requires now <= ULONG_MAX
      modifies this
      ensures rc == if ConfigOk(c) then Ok else Error(InvalidArgument)
      ensures ConfigOk(c) ==> d == Decide(c, snap, Loop(now, old(have), old(last)))
      ensures d.action.Hold? ==> d.target == now && have == old(have) && last == old(last)
      ensures !d.action.Hold? ==> ConfigOk(c) && have && last == d.target
    {
      d := Decision(Hold, now, 0.0, Decided);
      if !ConfigOk(c) { return Error(InvalidArgument), d.(reason := InvalidConfig); }
      if !snap.valid || !snap.hasMemory { return Ok, d.(reason := NoMetrics); }
      var pressure := if snap.pressure < 0.0 then 0.0 else snap.pressure;
      d := d.(pressure := pressure);
      if !snap.hasLimit { return Ok, d.(reason := Unlimited); }
      var ceiling := Ceiling(c, snap.limit);
      if pressure >= c.shrinkAt {
        var target := SubFloor(now, c.stepDown);
        if target < c.minFrames { target := c.minFrames; }
        if target >= now { return Ok, d.(reason := AtMin); }
        if have && last == target { return Ok, d.(reason := Duplicate); }
        last, have := target, true;
        return Ok, d.(action := Shrink, target := target);
      }
      if pressure <= c.growAt {
        if now >= ceiling { return Ok, d.(reason := AtMax); }
        var target := AddSat(now, c.stepUp);
        if target > ceiling { target := ceiling; }
        if target <= now { return Ok, d.(reason := AtMax); }
        if have && last == target { return Ok, d.(reason := Duplicate); }
        last, have := target, true;
        return Ok, d.(action := Grow, target := target);
      }
      return Ok, d.(reason := WithinBand);
    }

    /** Evaluates against the pool's capacity and asks the pool to resize: one turn of the loop. */
    method Apply(c: Config, snap: Snapshot, pool: BufferPool.Pool) returns (rc: Status, d: Decision)
      requires pool.Valid()
      modifies this, pool`frames, pool`capacity, pool`recency, pool.storage, pool.sink
      ensures pool.Valid() && pool.View() == old(pool.View()) && pool.Quietly()
      ensures BufferPool.NamesKept(old(pool.frames), pool.frames, pool.held)
      ensures !ConfigOk(c) ==>
                rc == Error(InvalidArgument) && Loop(pool.capacity, have, last) == old(Loop(pool.capacity, have, last))
      ensures ConfigOk(c) ==>
                Loop(pool.capacity, have, last) == Tick(c, snap, old(Loop(pool.capacity, have, last)), rc.Ok?)
      ensures ConfigOk(c) && rc.Error? ==> d.reason == RequestFailed
      ensures ConfigOk(c) && old(pool.Slack()) >= 0 ==>
                rc == if d.action.Hold? then Ok else BufferPool.ResizeStatus(old(pool.frames), d.target)
    {
      hide BufferPool.Pool.Valid, BufferPool.Pool.View, BufferPool.NamesKept, Ceiling, BufferPool.Pool.Slack,
        BufferPool.ResizeStatus, BufferPool.Cleaned, BufferPool.Survives;
      pool.NothingMoved();
      pool.Bounded();
      rc, d := Evaluate(c, snap, pool.capacity);
      if rc.Error? { return; }
      if d.action.Hold? { return; }
      rc := pool.Resize(d.target);
      if rc.Error? {
        last, have := 0, false;
        d := d.(reason := RequestFailed);
      }
    }
  }

  // ---- what the loop does -----------------------------------------------------------------

  /** The policy alone resizes the pool: what it remembers is where the pool is. */
  predicate Closed(l: Loop) {
    l.have ==> l.last == l.capacity
  }

  /** Then suppression never stops a step. */
  lemma NeverDuplicate(c: Config, snap: Snapshot, l: Loop, works: bool)
    requires ConfigOk(c) && Closed(l)
    ensures Closed(Tick(c, snap, l, works)) && Decide(c, snap, l).reason != Duplicate
  {
    hide Ceiling;
  }

  /** No step is larger than configured, and a request always moves the right way. */
  lemma StepsBounded(c: Config, snap: Snapshot, l: Loop)
    requires ConfigOk(c) && l.capacity <= ULONG_MAX
    ensures var d := Decide(c, snap, l);
            match d.action
            case Hold => d.target == l.capacity
            case Shrink => l.capacity - c.stepDown <= d.target < l.capacity && c.minFrames <= d.target
            case Grow => l.capacity < d.target <= l.capacity + c.stepUp && d.target <= Ceiling(c, snap.limit)
  {
    hide Ceiling;
  }

  /**
   A request lies between floor and ceiling exactly when one step from the
   current capacity can get there: a pool far above a lowered ceiling shrinks to
   a target still above it, a pool far below the floor grows to one still below.
   */
  lemma TargetInRange(c: Config, snap: Snapshot, l: Loop)
    requires ConfigOk(c) && l.capacity <= ULONG_MAX
    ensures var d, top := Decide(c, snap, l), Ceiling(c, snap.limit);
            && (d.action.Shrink? ==> (c.minFrames <= d.target <= top <==> l.capacity <= top + c.stepDown))
            && (d.action.Grow? ==> (c.minFrames <= d.target <= top <==> c.minFrames <= l.capacity + c.stepUp))
  {
    hide Ceiling;
  }

  /** Inside the range under a fixed limit, every turn stays inside. */
  lemma StaysInRange(c: Config, snap: Snapshot, l: Loop, works: bool)
    requires ConfigOk(c) && c.minFrames <= l.capacity <= Ceiling(c, snap.limit)
    ensures c.minFrames <= Tick(c, snap, l, works).capacity <= Ceiling(c, snap.limit)
  {
    hide Ceiling;
  }

  /** A request can undershoot the floor and overshoot the ceiling. */
  lemma RangeCanBeMissed()
    ensures var c := Config(0.85, 0.6, 0.6, 4096, 16, 0, 256, 4);
            && ConfigOk(c)
            && Decide(c, Snapshot(true, true, true, 0.1, 0), Loop(1, false, 0)) == Decision(Grow, 5, 0.1, Decided)
            && Ceiling(c, 0) == 16
            && Decide(c, Snapshot(true, true, true, 0.9, 0), Loop(1000, false, 0)) ==
               Decision(Shrink, 744, 0.9, Decided)
  {
  }

  // ---- convergence -------------------------------------------------------------------------

  predicate High(c: Config, snap: Snapshot) {
    snap.valid && snap.hasMemory && snap.hasLimit && snap.pressure >= c.shrinkAt
  }

  predicate Low(c: Config, snap: Snapshot) {
    snap.valid && snap.hasMemory && snap.hasLimit && snap.pressure <= c.growAt
  }

  /** A turn of the loop: what the policy sees, and whether the pool grants a request made then. */
  datatype Turn = Turn(snap: Snapshot, works: bool)

  function Turns(c: Config, l: Loop, turns: seq<Turn>): Loop
    requires ConfigOk(c)
  {
    if turns == [] then l
    else
      var t := turns[|turns| - 1];
      Tick(c, t.snap, Turns(c, l, turns[..|turns| - 1]), t.works)
  }

  /** How many turns would have had a request granted. */
  function Granted(turns: seq<Turn>): nat {
    if turns == [] then 0
    else Granted(turns[..|turns| - 1]) + if turns[|turns| - 1].works then 1 else 0
  }

  predicate AllHigh(c: Config, turns: seq<Turn>) {
    forall i :: 0 <= i < |turns| ==> High(c, turns[i].snap)
  }

  /** Pressure stays low while the memory limit may move as long as it allows the same number of frames. */
  predicate AllLow(c: Config, turns: seq<Turn>, top: nat)
    requires ConfigOk(c)
  {
    forall i :: 0 <= i < |turns| ==> Low(c, turns[i].snap) && Ceiling(c, turns[i].snap.limit) == top
  }

  /** The smallest number of steps that covers a distance. */
  function StepsFor(distance: nat, step: nat): (k: nat)
    requires step > 0
    ensures (k - 1) * step < distance <= k * step || (distance == 0 && k == 0)
  {
    (distance + step - 1) / step
  }

  lemma {:induction false} ShrinkPath(c: Config, l: Loop, turns: seq<Turn>)
    requires ConfigOk(c) && AllHigh(c, turns) && Closed(l) && c.stepDown > 0 && c.minFrames <= l.capacity <= ULONG_MAX
    ensures var m, n := Turns(c, l, turns), Granted(turns);
            Closed(m) && m.capacity == if l.capacity - n * c.stepDown >= c.minFrames then l.capacity - n * c.stepDown
                else c.minFrames
  {
    hide Ceiling;
    if turns != [] {
      var before, t := turns[..|turns| - 1], turns[|turns| - 1];
      ShrinkPath(c, l, before);
      NeverDuplicate(c, t.snap, Turns(c, l, before), t.works);
      assert (Granted(before) + 1) * c.stepDown == Granted(before) * c.stepDown + c.stepDown;
    }
  }

  /**
   Sustained high pressure, however it varies, reaches the floor with exactly the
   rounded-up number of granted requests, then holds it.
   */
  lemma ReachesFloor(c: Config, l: Loop, turns: seq<Turn>, next: Snapshot)
    requires ConfigOk(c) && AllHigh(c, turns) && Closed(l) && c.stepDown > 0 && c.minFrames <= l.capacity <= ULONG_MAX
    ensures var m, k := Turns(c, l, turns), StepsFor(l.capacity - c.minFrames, c.stepDown);
            && (m.capacity == c.minFrames <==> Granted(turns) >= k)
            && (Granted(turns) >= k && High(c, next) ==> Decide(c, next, m).reason == AtMin)
  {
    hide Ceiling, StepsFor, Granted, Turns;
    ShrinkPath(c, l, turns);
    StepsCompare(Granted(turns), StepsFor(l.capacity - c.minFrames, c.stepDown), c.stepDown);
  }

  lemma StepsCompare(n: nat, k: nat, step: nat)
    ensures n >= k ==> n * step >= k * step
    ensures n < k ==> n * step <= (k - 1) * step
  {
    if n >= k { MoreSteps(k, n, step); } else { MoreSteps(n, k - 1, step); }
  }

  lemma {:induction false} MoreSteps(a: nat, b: nat, step: nat)
    requires a <= b
    ensures a * step <= b * step
    decreases b
  {
    if a < b {
      MoreSteps(a, b - 1, step);
      assert b * step == (b - 1) * step + step;
    }
  }

  lemma {:induction false} GrowPath(c: Config, l: Loop, turns: seq<Turn>, top: nat)
    requires ConfigOk(c) && AllLow(c, turns, top) && Closed(l) && c.stepUp > 0 && l.capacity <= top <= ULONG_MAX
    ensures var m, n := Turns(c, l, turns), Granted(turns);
            Closed(m) && m.capacity == if l.capacity + n * c.stepUp <= top then l.capacity + n * c.stepUp else top
  {
    hide Ceiling;
    if turns != [] {
      var before, t := turns[..|turns| - 1], turns[|turns| - 1];
      GrowPath(c, l, before, top);
      NeverDuplicate(c, t.snap, Turns(c, l, before), t.works);
      assert (Granted(before) + 1) * c.stepUp == Granted(before) * c.stepUp + c.stepUp;
    }
  }

  /**
   Sustained low pressure under one ceiling reaches it with exactly the
   rounded-up number of granted requests, then holds it.
   */
  lemma ReachesCeiling(c: Config, l: Loop, turns: seq<Turn>, top: nat, next: Snapshot)
    requires ConfigOk(c) && AllLow(c, turns, top) && Closed(l) && c.stepUp > 0 && l.capacity <= top <= ULONG_MAX
    ensures var m, k := Turns(c, l, turns), StepsFor(top - l.capacity, c.stepUp);
            && (m.capacity == top <==> Granted(turns) >= k)
            && (Granted(turns) >= k && Low(c, next) && Ceiling(c, next.limit) == top ==>
                Decide(c, next, m).reason == AtMax)
  {
    hide Ceiling, StepsFor, Granted, Turns;
    GrowPath(c, l, turns, top);
    StepsCompare(Granted(turns), StepsFor(top - l.capacity, c.stepUp), c.stepUp);
  }
}
