/**
 The container lifecycle around the gated start: created, running, stopped,
 deleted. A container that is not running owns no child process, a failed call
 leaves the lifecycle where it was, and no call loses track of a child.
 */
module Container {
  import opened Gate

  datatype Life = Created | Running | Stopped | Deleted

  datatype Code = Success | ErrInvalid | ErrState | ErrProcess

  const NO_PID: int := -1

  /** The children this process has not reaped yet, running or not. */
  class Host {
    var children: set<int>

    /**
     One gated start: any interleaving of parent and child until the parent returns.
     A child becomes ours when it is forked and stops being ours when it is reaped.
     */
    method GatedStart() returns (ok: bool, pid: int, ghost g: Gate)
      modifies this
      ensures Inv(g) && g.parent == Returned(ok)
      ensures ok ==> pid > 0 && pid !in old(children) && children == old(children) + {pid} && g.attached
      ensures !ok ==> children == old(children) && (g.ran ==> g.lost)
    {
      hide Left, Inv, Enabled, Next, Move;
      StartOk();
      pid := *;  // what fork answers: no pid of an unreaped child, or a failure
      var run := START;
      while !run.parent.Returned?
        invariant Inv(run) && run.parent != Gone
        invariant if run.child in {Unborn, Reaped} then children == old(children)
                  else pid > 0 && pid !in old(children) && children == old(children) + {pid}
        decreases Left(run)
      {
        var e: Event := *;
        if !Enabled(run, e) || e.ParentDies? { e := Move(run); }
        if e == Fork(true) && (pid <= 0 || pid in children) { e := NoFork(run); }
        StepSafe(run, e);
        StepEnds(run, e);
        StaysWith(run, e);
        ChildrenMove(run, e);
        run := Next(run, e);
        if e == Fork(true) {
          children := children + {pid};
        } else if Reaps(e) {
          children := children - {pid};
        }
      }
      GateOutcome(run);
      g, ok := run, run.parent.ok;
    }

    /** Signal 0: true for every unreaped child; a pid that is no child of ours may be anybody's. */
    method IsAlive(pid: int) returns (yes: bool)
      ensures pid in children && pid > 0 ==> yes
      ensures pid <= 0 ==> !yes
    {
      if pid <= 0 { return false; }
      if pid in children { return true; }
      yes := *;
    }

    /** Terminates and reaps a child; a failure leaves it. */
    method Stop(pid: int) returns (ok: bool)
      modifies this
      ensures ok ==> pid > 0 && children == old(children) - {pid}
      ensures !ok ==> children == old(children)
    {
      if pid <= 0 { return false; }
      if * { return false; }
      children := children - {pid};
      return true;
    }
  }

  lemma StartOk()
    ensures Inv(START)
  {
  }

  lemma StaysWith(g: Gate, e: Event)
    requires Enabled(g, e) && g.parent != Gone && !e.ParentDies?
    ensures Next(g, e).parent != Gone
  {
    if e.Fork? {
    } else if e.Attach? {
    } else if e.Send? {
    } else if e.Kill? || Reaps(e) || e.ReadError? || e.ReadEof? || e.ReadFails? {
    } else {
      assert Next(g, e).parent == g.parent;
    }
  }

  /** The steps in which the parent collects its child. */
  predicate Reaps(e: Event) {
    e.AbortReap? || e.SendReap? || e.Reap? || e.LostReap?
  }

  /** A fork may always be refused. */
  function NoFork(g: Gate): (e: Event)
    requires Enabled(g, Fork(true))
    ensures e == Fork(false) && Enabled(g, e)
  {
    Fork(false)
  }

  /** Only a successful fork makes a child, and only those steps collect it. */
  lemma ChildrenMove(g: Gate, e: Event)
    requires Inv(g) && Enabled(g, e)
    ensures var h := Next(g, e);
            if e == Fork(true) then g.child == Unborn && h.child !in {Unborn, Reaped}
            else if Reaps(e) then g.child !in {Unborn, Reaped} && h.child == Reaped
            else (g.child in {Unborn, Reaped}) == (h.child in {Unborn, Reaped})
  {
  }

  /** A start that failed has no child left; one that succeeded still has it. */
  lemma GateOutcome(g: Gate)
    requires Inv(g) && g.parent.Returned?
    ensures if g.parent.ok then g.attached && g.child !in {Unborn, Reaped}
              else (g.ran ==> g.lost) && g.child in {Unborn, Reaped}
  {
  }

  class Slot {
    const host: Host
    var state: Life
    var pid: int

    constructor (host: Host)
      ensures this.host == host && state == Created && pid == NO_PID && Tidy()
    {
      this.host := host;
      state, pid := Created, NO_PID;
    }

    /** A child is recorded exactly while the container runs, and it is one of ours. */
    ghost predicate Tidy()
      reads this, host
    {
      (state == Running <==> pid != NO_PID) && (pid != NO_PID ==> pid > 0 && pid in host.children)
    }

    /** The workload starts inside its control group or not at all; `g` is how the gate was left. */
    method Start() returns (rc: Code, ghost g: Gate)
      modifies this, host
      ensures old(Tidy()) ==> Tidy() && (rc == ErrState <==> old(state) == Running || old(state) == Deleted)
      ensures old(state) == Running || old(state) == Deleted ==> rc == ErrState
      ensures
        && Inv(g) && (rc == Success ==> g.parent == Returned(true) && g.attached) && (rc != Success && g.ran ==> g.lost)
      ensures rc == Success ==>
                state == Running && pid !in old(host.children) && host.children == old(host.children) + {pid}
      ensures rc != Success ==> state == old(state) && host.children == old(host.children)
    {
      g := START;
      StartOk();
      if state != Created && state != Stopped { return ErrState, g; }
      if pid != NO_PID {
        var alive := host.IsAlive(pid);
        if alive { return ErrState, g; }
      }
      if * { return ErrInvalid, g; }  // no command line can be made for the workload
      var ok, child;
      ok, child, g := host.GatedStart();
      if !ok {
        pid := NO_PID;
        return ErrProcess, g;
      }
      pid, state := child, Running;
      return Success, g;
    }

    method Stop() returns (rc: Code)
      modifies this, host
      ensures old(Tidy()) ==> Tidy()
      ensures rc == ErrState <==> old(state) != Running
      ensures rc == Success ==> state == Stopped && pid == NO_PID && (old(pid) != NO_PID ==> old(pid) !in host.children)
      ensures rc != Success ==> state == old(state) && pid == old(pid) && host.children == old(host.children)
    {
      if state != Running { return ErrState; }
      if pid != NO_PID {
        var ok := host.Stop(pid);
        if !ok { return ErrProcess; }
        pid := NO_PID;
      }
      state := Stopped;
      return Success;
    }

    /** Refused while running; a control group that cannot be removed keeps the state, so the call can be repeated. */
    method Delete() returns (rc: Code)
      modifies this, host
      ensures old(Tidy()) ==> Tidy() && host.children == old(host.children)
      ensures rc == ErrState <==> old(state) == Running || old(state) == Deleted
      ensures rc == Success ==> state == Deleted
      ensures rc != Success ==> state == old(state)
    {
      if state == Running || state == Deleted { return ErrState; }
      if pid != NO_PID {
        var alive := host.IsAlive(pid);
        if alive { var ok := host.Stop(pid); }
        pid := NO_PID;
      }
      if * { return ErrProcess; }
      state := Deleted;
      return Success;
    }
  }
}
