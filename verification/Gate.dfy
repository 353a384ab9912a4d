/**
 The gated start: a child process is created but held before it runs the
 workload, the parent puts it into its control group, and only then lets it go.
 Parent and child are two processes that interleave freely, meet over a release
 channel and a status pipe, and may be killed from outside at any moment.
 */
module Gate {

  /** Where the parent stands inside the start; Gone means the parent process died. */
  datatype Parent =
    | Forking
    | Attaching
    | Aborting       // attach failed: about to kill the held child
    | AbortReaping
    | Sending        // about to send the release byte
    | SendReaping    // the release byte could not be sent: channel closed, about to reap
    | Reading        // waiting on the status pipe
    | Reaping        // the child reported an error: about to reap
    | LostReaping    // the status pipe could not be read: about to reap
    | Returned(ok: bool)
    | Gone

  datatype Child =
    | Unborn
    | Held           // blocked on the release channel
    | Preparing      // released, configuring itself
    | Execing
    | Reporting      // about to write an error to the status pipe
    | Exiting
    | Working        // the workload runs
    | Dead           // ended, not yet reaped
    | Reaped

  /**
   `attached`: the child is in its control group. `sent`: the release byte is in
   the channel. `status`: an error waits in the status pipe. `ran`: the workload
   has begun to run. `killed`: the child was killed from outside. `lost`: the
   status pipe could not be read.
   */
  datatype Gate = Gate(parent: Parent, child: Child, attached: bool, sent: bool, status: bool, ran: bool, killed: bool,
                       lost: bool)

  datatype Event =
    | Fork(ok: bool)
    | Attach(ok: bool)
    | Kill
    | AbortReap
    | Send(ok: bool)
    | SendReap
    | ReadError
    | ReadEof
    | ReadFails
    | LostReap
    | Reap
    | Release           // the child reads the release byte
    | HangUp            // the child sees the channel closed
    | Prepare(ok: bool)
    | Exec(ok: bool)
    | Report
    | Exit
    | Finish            // the workload ends
    | KilledOutside
    | ParentDies

  const START: Gate := Gate(Forking, Unborn, false, false, false, false, false, false)

  predicate Alive(c: Child) {
    c != Unborn && c != Dead && c != Reaped
  }

  /** The child still holds the write end of the status pipe. */
  predicate HoldsStatus(c: Child) {
    Alive(c) && c != Working
  }

  predicate Enabled(g: Gate, e: Event) {
    match e
    case Fork(_) => g.parent == Forking
    case Attach(_) => g.parent == Attaching
    case Kill => g.parent == Aborting
    case AbortReap => g.parent == AbortReaping && g.child == Dead
    case Send(ok) => g.parent == Sending && (ok ==> Alive(g.child))
    case SendReap => g.parent == SendReaping && g.child == Dead
    case ReadError => g.parent == Reading && g.status
    case ReadEof => g.parent == Reading && !g.status && !HoldsStatus(g.child)
    case ReadFails => g.parent == Reading
    case LostReap => g.parent == LostReaping && g.child == Dead
    case Reap => g.parent == Reaping && g.child == Dead
    case Release => g.child == Held && g.sent
    case HangUp => g.child == Held && !g.sent && g.parent in {Gone, SendReaping}
    case Prepare(_) => g.child == Preparing
    case Exec(_) => g.child == Execing
    case Report => g.child == Reporting
    case Exit => g.child == Exiting
    case Finish => g.child == Working
    case KilledOutside => Alive(g.child)
    case ParentDies => !g.parent.Returned? && g.parent != Gone
  }

  function Next(g: Gate, e: Event): Gate
    requires Enabled(g, e)
  {
    match e
    case Fork(ok) => if ok then g.(parent := Attaching, child := Held) else g.(parent := Returned(false))
    case Attach(ok) => if ok then g.(parent := Sending, attached := true) else g.(parent := Aborting)
    case Kill => g.(parent := AbortReaping, child := if Alive(g.child) then Dead else g.child)
    case AbortReap => g.(parent := Returned(false), child := Reaped)
    case Send(ok) => if ok then g.(parent := Reading, sent := true) else g.(parent := SendReaping)
    case SendReap => g.(parent := Returned(false), child := Reaped)
    case ReadError => g.(parent := Reaping, status := false)
    case ReadEof => g.(parent := Returned(true))
    case ReadFails => g.(parent := LostReaping, lost := true)
    case LostReap => g.(parent := Returned(false), child := Reaped)
    case Reap => g.(parent := Returned(false), child := Reaped)
    case Release => g.(child := Preparing)
    case HangUp => g.(child := Exiting)
    case Prepare(ok) => g.(child := if ok then Execing else Reporting)
    case Exec(ok) => if ok then g.(child := Working, ran := true) else g.(child := Reporting)
    case Report => g.(child := Exiting, status := true)
    case Exit => g.(child := Dead)
    case Finish => g.(child := Dead)
    case KilledOutside => g.(child := Dead, killed := true)
    case ParentDies => g.(parent := Gone)
  }

  // ---- what always holds -----------------------------------------------------------------

  predicate ParentOk(g: Gate) {
    match g.parent
    case Forking => g == START
    case Attaching => !g.attached && !g.sent && g.child in {Held, Dead}
    case Aborting => !g.attached && !g.sent && g.child in {Held, Dead}
    case AbortReaping => !g.attached && !g.sent && g.child == Dead
    case Sending => g.attached && !g.sent && g.child in {Held, Dead}
    case SendReaping => g.attached && !g.sent && g.child in {Held, Exiting, Dead}
    case Reading =>
      && g.sent && g.child != Unborn && g.child != Reaped
      && (g.child == Exiting ==> g.status) && (g.child == Dead && !g.ran && !g.status ==> g.killed)
    case Reaping => g.sent && !g.ran && g.child in {Exiting, Dead}
    case LostReaping => g.sent && g.child != Unborn && g.child != Reaped && g.lost
    case Returned(ok) =>
      if ok then g.sent && (g.ran || g.killed) && g.child in {Working, Dead}
      else (g.ran ==> g.lost) && g.child in {Unborn, Reaped}
    case Gone => true
  }

  predicate Inv(g: Gate) {
    && ParentOk(g)
    && (g.sent ==> g.attached)
    && (g.lost ==> g.sent && g.parent in {LostReaping, Returned(false), Gone})
    && (g.child in {Preparing, Execing, Reporting, Working} ==> g.sent)
    && (g.ran ==> g.sent && g.child in {Working, Dead, Reaped})
    && (g.child == Working ==> g.ran)
    && (g.status ==> g.sent && !g.ran && g.child in {Exiting, Dead, Reaped})
  }

  lemma StepSafe(g: Gate, e: Event)
    requires Inv(g) && Enabled(g, e)
    ensures Inv(Next(g, e))
  {
  }

  predicate Legal(g: Gate, es: seq<Event>)
    decreases |es|
  {
    es == [] || (Enabled(g, es[0]) && Legal(Next(g, es[0]), es[1..]))
  }

  function Run(g: Gate, es: seq<Event>): Gate
    requires Legal(g, es)
    decreases |es|
  {
    if es == [] then g else Run(Next(g, es[0]), es[1..])
  }

  lemma {:induction false} RunSafe(g: Gate, es: seq<Event>)
    requires Inv(g) && Legal(g, es)
    ensures Inv(Run(g, es)) && |es| + Left(Run(g, es)) <= Left(g)
    decreases |es|
  {
    hide Inv, Enabled, Next, Left;
    if es != [] {
      StepSafe(g, es[0]);
      StepEnds(g, es[0]);
      RunSafe(Next(g, es[0]), es[1..]);
    }
  }

  /**
   Over every interleaving: the workload runs only inside its control group; a
   start that fails has left no child and, unless the status pipe could not be
   read, has run nothing; a start that succeeds has attached and released the
   child, and the workload ran unless the child was killed from outside before it
   could.
   */
  lemma GateSafe(es: seq<Event>)
    requires Legal(START, es)
    ensures var g := Run(START, es);
            && (g.ran ==> g.attached)
            && (g.parent == Returned(false) ==> (g.ran ==> g.lost) && !Alive(g.child) && g.child != Dead)
            && (g.parent == Returned(true) ==> g.attached && !g.lost && (g.ran || g.killed) && !HoldsStatus(g.child))
  {
    RunSafe(START, es);
  }

  lemma Prepend(g: Gate, e: Event, es: seq<Event>)
    requires Enabled(g, e) && Legal(Next(g, e), es)
    ensures Legal(g, [e] + es) && Run(g, [e] + es) == Run(Next(g, e), es)
  {
    assert ([e] + es)[1..] == es;
  }

  /**
   From every state in which the workload runs while the parent still waits for
   the pipe, the start can fail after all.
   */
  lemma LostStart(g: Gate)
    requires g.parent == Reading && g.child == Working && g.ran
    ensures var es := [ReadFails] + ([Finish] + ([LostReap] + []));
            Legal(g, es) && Run(g, es).parent == Returned(false) && Run(g, es).ran
  {
    hide Run, Legal;
    var h := Next(g, ReadFails);
    var d := Next(h, Finish);
    assert Legal(Next(d, LostReap), [])
        && Run(Next(d, LostReap), []) == Next(d, LostReap) by { Nothing(Next(d, LostReap)); }
    Prepend(d, LostReap, []);
    Prepend(h, Finish, [LostReap] + []);
    Prepend(g, ReadFails, [Finish] + ([LostReap] + []));
  }

  lemma Nothing(g: Gate)
    ensures Legal(g, []) && Run(g, []) == g
  {
  }

  /** So can a start whose child has been released. */
  lemma ReleasedCanRun(g: Gate) returns (es: seq<Event>)
    requires g.parent == Reading && g.child == Preparing
    ensures Legal(g, es) && Run(g, es).parent == Returned(false) && Run(g, es).ran
  {
    hide Run, Legal;
    var working := g.(child := Working, ran := true);
    LostStart(working);
    es := [ReadFails] + ([Finish] + ([LostReap] + []));
    Prepend(g.(child := Execing), Exec(true), es);
    es := [Exec(true)] + es;
    Prepend(g, Prepare(true), es);
    es := [Prepare(true)] + es;
  }

  lemma FailedStartCanRun() returns (es: seq<Event>)
    ensures Legal(START, es) && Run(START, es).parent == Returned(false) && Run(START, es).ran
  {
    hide Run, Legal;
    var forked := START.(parent := Attaching, child := Held);
    var attached := forked.(parent := Sending, attached := true);
    var sent := attached.(parent := Reading, sent := true);
    es := ReleasedCanRun(sent.(child := Preparing));
    Prepend(sent, Release, es);
    es := [Release] + es;
    Prepend(attached, Send(true), es);
    es := [Send(true)] + es;
    Prepend(forked, Attach(true), es);
    es := [Attach(true)] + es;
    Prepend(START, Fork(true), es);
    es := [Fork(true)] + es;
  }

  /** If the parent dies before releasing, the workload never runs. */
  lemma {:induction false} OrphanNeverRuns(g: Gate, es: seq<Event>)
    requires Inv(g) && g.parent == Gone && !g.sent && Legal(g, es)
    ensures !Run(g, es).ran && !Run(g, es).sent
    decreases |es|
  {
    if es != [] {
      StepSafe(g, es[0]);
      OrphanNeverRuns(Next(g, es[0]), es[1..]);
    }
  }

  // ---- it always comes to an end ---------------------------------------------------------

  function ParentLeft(p: Parent): nat {
    match p
    case Forking => 5
    case Attaching => 4
    case Sending => 3
    case Aborting => 3
    case AbortReaping => 2
    case SendReaping => 2
    case Reading => 2
    case Reaping => 1
    case LostReaping => 1
    case Returned(_) => 0
    case Gone => 0
  }

  function ChildLeft(c: Child): nat {
    match c
    case Unborn => 0
    case Held => 7
    case Preparing => 6
    case Execing => 5
    case Reporting => 4
    case Exiting => 3
    case Working => 2
    case Dead => 1
    case Reaped => 0
  }

  /** A bound on the steps still to come. */
  function Left(g: Gate): nat {
    8 * ParentLeft(g.parent) + ChildLeft(g.child)
  }

  lemma StepEnds(g: Gate, e: Event)
    requires Inv(g) && Enabled(g, e)
    ensures Left(Next(g, e)) < Left(g)
  {
  }

  /** The parent is never stuck: until it has returned, it or its child can move, with no death from outside. */
  function Move(g: Gate): (e: Event)
    requires Inv(g) && !g.parent.Returned? && g.parent != Gone
    ensures Enabled(g, e) && !e.KilledOutside? && !e.ParentDies?
  {
    match g.parent
    case Forking => Fork(true)
    case Attaching => Attach(true)
    case Aborting => Kill
    case AbortReaping => AbortReap
    case Sending => Send(Alive(g.child))
    case SendReaping => if g.child == Dead then SendReap else if g.child == Held then HangUp else Exit
    case Reaping => if g.child == Dead then Reap else Exit
    case LostReaping =>
      match g.child {
        case Held => Release
        case Preparing => Prepare(true)
        case Execing => Exec(true)
        case Reporting => Report
        case Exiting => Exit
        case Working => Finish
        case _ => LostReap
      }
    case Reading =>
      if g.status then ReadError
      else if !HoldsStatus(g.child) then ReadEof
      else if g.child == Held then Release
      else if g.child == Preparing then Prepare(true)
      else if g.child == Execing then Exec(true)
      else Report
  }

  /** No run is longer than a fixed bound, so every start returns unless its process dies. */
  lemma StartsReturn(es: seq<Event>)
    requires Legal(START, es)
    ensures |es| <= 40
    ensures var g := Run(START, es);
            g.parent.Returned? || g.parent == Gone || exists e :: Enabled(g, e) && !e.ParentDies? && !e.KilledOutside?
  {
    RunSafe(START, es);
    var g := Run(START, es);
    if !g.parent.Returned? && g.parent != Gone {
      assert Enabled(g, Move(g));
    }
  }
}
