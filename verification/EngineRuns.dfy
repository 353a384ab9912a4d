/**
 Whole runs of the engine over its files, writes and crashes interleaved: pages
 are written only as the tables and the catalog write them, everything else is
 left to the machine, and the process may stop between any two steps. Every stop
 leaves the files of a database.
 */
module EngineRuns {
  import opened Bytes
  import opened Results
  import opened Chain
  import opened Structure
  import opened CrashMachine
  import opened CrashSafety
  import opened CrashConsistency
  import opened DatabaseState
  import LogFormat

  /** The machine, its logical pages, and what each page is for. */
  datatype Engine = Engine(s: State, V: seq<Page>, use: seq<Use>)

  /**
   The machine can take the step, and a page is written as its use allows; `u`
   is what a page being initialised is for.
   */
  ghost predicate Allowed(g: Engine, e: Event, u: Use) {
    && Enabled(g.s, e)
    && match e
       case Mutate(p, image) =>
         && p < |g.V| && p < |g.use| && g.use[p] != Header
         && Precedes(g.use[p], g.V[p], image) && Precedes(g.use[p], image, image) && Well(g.V[p := image], g.use)
       case InitPage(image) => Target(g.s) < |g.V| && Target(g.s) < |g.use| && FirstImage(u, image)
       case _ => true
  }

  ghost function After(g: Engine, e: Event, u: Use): Engine
    requires Allowed(g, e, u)
  {
    var t := Next(g.s, e);
    match e
    case Mutate(p, image) => Engine(t, g.V[p := image], g.use)
    case Allocate => Engine(t, g.V + [ZERO_PAGE], g.use + [Unused])
    case InitPage(image) => Engine(t, g.V[Target(g.s) := image], g.use[Target(g.s) := u])
    case Crash(_) => Engine(t, Durable(t), g.use)
    case _ => g.(s := t)
  }

  /** A database, running or not; a page just allocated is the last one and unused. */
  ghost predicate EngineOk(g: Engine, root: nat) {
    && RunningOk(g.s, g.V, g.use, root)
    && (g.s.phase.Up? && g.s.phase.stage.Fresh? ==> Target(g.s) == |g.use| - 1 && g.use[|g.use| - 1] == Unused)
  }

  /** The last page of a file, if unused, can be left out. */
  lemma WithoutUnused(V: seq<Page>, use: seq<Use>, z: Page)
    requires |V| == |use| && Well(V + [z], use + [Unused])
    ensures Well(V, use)
  {
    hide HeaderOk, NextOf, EntryAt, Clash, CountOf;
    var W, used := V + [z], use + [Unused];
    forall p: nat | p < |V|
      ensures PageOk(V, use, p)
    {
      assert PageOk(W, used, p);
    }
    forall k: Kind, p: nat, i: nat | Lists(V, use, k, p, i)
      ensures Lists(W, used, k, p, i) && EntryOk(V, use, k, p, i)
    {
      assert Lists(W, used, k, p, i) && EntryOk(W, used, k, p, i);
    }
    assert forall k: Kind, p: nat :: LinkPage(use, k, p) ==> LinkPage(used, k, p);
  }

  lemma AllocateKeeps(g: Engine, root: nat, u: Use)
    requires EngineOk(g, root) && Allowed(g, Allocate, u)
    ensures EngineOk(After(g, Allocate, u), root)
  {
    hide Inv, Logical, Durable, Well, RootIn, Precedes, Pristine;
    var s, t := g.s, Next(g.s, Allocate);
    StepSound(s, Allocate);
    AddKeeps(g.V, g.use, Unused, ZERO_PAGE);
    var W, used := g.V + [ZERO_PAGE], g.use + [Unused];
    forall q | 0 <= q < |W|
      ensures Fits(W, used)(q, Logical(t)[q]) && Fits(W, used)(q, Durable(t)[q])
    {
      if q < |g.V| {
        assert Fits(g.V, g.use)(q, Logical(s)[q]) && Fits(g.V, g.use)(q, Durable(s)[q]);
      } else {
        assert used[q] == Unused;
      }
    }
    FitsLater(s, t, g.V, g.use, W, used);
    forall q: nat | q < |used| && used[q] == Header
      ensures Pristine(t, q)
    {
      PristineStep(s, Allocate, q);
    }
  }

  /** Records in flight fit the grown or initialised file when the last page is none of theirs. */
  lemma FitsLater(s: State, t: State, V: seq<Page>, use: seq<Use>, W: seq<Page>, used: seq<Use>)
    requires Everywhere(s, Fits(V, use)) && |V| == |use| && |W| == |used| && t.sent == s.sent && Landed(t) == Landed(s)
    requires 0 < |W| && forall q :: 0 <= q < |W| - 1 ==> q < |V| && W[q] == V[q] && used[q] == use[q]
    requires used[|W| - 1] == Unused || forall i :: 0 <= i < |s.sent| ==> s.sent[i].page != |W| - 1
    ensures forall i :: Landed(t) <= i < |t.sent| ==> Fits(W, used)(t.sent[i].page, t.sent[i].image)
  {
    hide Logical, Durable, Precedes;
    forall i | Landed(t) <= i < |t.sent|
      ensures Fits(W, used)(t.sent[i].page, t.sent[i].image)
    {
      assert Fits(V, use)(s.sent[i].page, s.sent[i].image);
      if s.sent[i].page == |W| - 1 && used[|W| - 1] == Unused { AnythingFits(s.sent[i].image, W[|W| - 1]); }
    }
  }

  lemma AnythingFits(a: Page, b: Page)
    ensures Precedes(Unused, a, b)
  {
  }

  lemma InitKeeps(g: Engine, root: nat, image: Page, u: Use)
    requires EngineOk(g, root) && Allowed(g, InitPage(image), u)
    ensures EngineOk(After(g, InitPage(image), u), root)
  {
    hide Inv, Logical, Durable, Well, RootIn, Precedes, Pristine, FirstImage;
    var s, e, p := g.s, InitPage(image), Target(g.s);
    var t := Next(s, e);
    StepSound(s, e);
    InitImage(g.V, g.use, root, p, image, u);
    var W, used := g.V[p := image], g.use[p := u];
    forall q | 0 <= q < |W|
      ensures Fits(W, used)(q, Logical(t)[q]) && Fits(W, used)(q, Durable(t)[q])
    {
      if q != p { assert Fits(g.V, g.use)(q, Logical(s)[q]) && Fits(g.V, g.use)(q, Durable(s)[q]); }
    }
    FreshIsNew(s);
    FitsLater(s, t, g.V, g.use, W, used);
    forall q: nat | q < |used| && used[q] == Header
      ensures Pristine(t, q)
    {
      PristineStep(s, e, q);
    }
  }

  lemma FreshIsNew(s: State)
    requires Inv(s) && s.phase.Up? && s.phase.stage.Fresh?
    ensures forall i :: 0 <= i < |s.sent| ==> s.sent[i].page != Target(s)
  {
    hide Durable, OnDisk, Stream;
  }

  lemma InitImage(V: seq<Page>, use: seq<Use>, root: nat, p: nat, image: Page, u: Use)
    requires Image(V, use, root) && p == |V| - 1 && use[p] == Unused && FirstImage(u, image)
    ensures Image(V[p := image], use[p := u], root) && Precedes(u, image, image) && u != Header
  {
    hide Well, RootIn, Precedes;
    assert V == V[..p] + [V[p]] && use == use[..p] + [Unused];
    WithoutUnused(V[..p], use[..p], V[p]);
    WellBound(V, use);
    AddKeeps(V[..p], use[..p], u, image);
    assert V[p := image] == V[..p] + [image] && use[p := u] == use[..p] + [u];
  }

  lemma WellBound(V: seq<Page>, use: seq<Use>)
    requires Well(V, use)
    ensures |V| == |use| <= INVALID_ID
  {
    hide PageOk, EntriesOk, LinksOk;
  }

  lemma MutateKeeps(g: Engine, root: nat, p: nat, image: Page, u: Use)
    requires EngineOk(g, root) && Allowed(g, Mutate(p, image), u)
    ensures EngineOk(After(g, Mutate(p, image), u), root)
  {
    hide Inv, Logical, Durable, Well, RootIn, Precedes, Disciplined;
    StepSound(g.s, Mutate(p, image));
    WriteKeepsDiscipline(g.s, g.V, g.use, p, image);
  }

  lemma QuietKeeps(g: Engine, root: nat, e: Event, u: Use)
    requires EngineOk(g, root) && Allowed(g, e, u) && Quiet(e)
    ensures EngineOk(After(g, e, u), root)
  {
    hide Inv, Logical, Durable, Image, Disciplined, Enabled, Next, QuietlyReaches, Well;
    QuietStep(g.s, e);
    QuietMeaning(g.s, Next(g.s, e));
    QuietKeepsDiscipline(g.s, Next(g.s, e), g.V, g.use);
    StaysFresh(g.s, e);
  }

  lemma StaysFresh(s: State, e: Event)
    requires Enabled(s, e) && Quiet(e)
    ensures Next(s, e).phase.Up? && Next(s, e).phase.stage.Fresh? ==> Next(s, e).phase == s.phase
  {
    hide LogFormat.Scan, OnDisk, LogFormat.RecordBytes;
  }

  lemma CrashKeeps(g: Engine, root: nat, n: nat, u: Use)
    requires EngineOk(g, root) && Allowed(g, Crash(n), u)
    ensures EngineOk(After(g, Crash(n), u), root) && AtRestOk(Next(g.s, Crash(n)), g.use, root)
  {
    hide Inv, Logical, Durable, Image, Disciplined, Steadily, HeadersPristine;
    CrashIsSteady(g.s, n);
    ComesToRest(g.s, g.V, g.use, root, Next(g.s, Crash(n)));
    RestIsDisciplined(Next(g.s, Crash(n)), g.use, root);
  }

  /** Every step keeps a database a database. */
  lemma StepKeeps(g: Engine, root: nat, e: Event, u: Use)
    requires EngineOk(g, root) && Allowed(g, e, u)
    ensures EngineOk(After(g, e, u), root)
  {
    hide EngineOk, Allowed, After;
    match e
    case Mutate(p, image) => MutateKeeps(g, root, p, image, u);
    case Allocate => AllocateKeeps(g, root, u);
    case InitPage(image) => InitKeeps(g, root, image, u);
    case Crash(n) => CrashKeeps(g, root, n, u);
    case _ => QuietKeeps(g, root, e, u);
  }

  ghost predicate Legal(g: Engine, run: seq<(Event, Use)>)
    decreases |run|
  {
    run == [] || (Allowed(g, run[0].0, run[0].1) && Legal(After(g, run[0].0, run[0].1), run[1..]))
  }

  ghost function Exec(g: Engine, run: seq<(Event, Use)>): Engine
    requires Legal(g, run)
    decreases |run|
  {
    if run == [] then g else Exec(After(g, run[0].0, run[0].1), run[1..])
  }

  lemma {:induction false} RunKeeps(g: Engine, root: nat, run: seq<(Event, Use)>)
    requires EngineOk(g, root) && Legal(g, run)
    ensures EngineOk(Exec(g, run), root)
    decreases |run|
  {
    hide EngineOk, Allowed, After;
    if run != [] {
      StepKeeps(g, root, run[0].0, run[0].1);
      RunKeeps(After(g, run[0].0, run[0].1), root, run[1..]);
    }
  }

  /**
   Over whole runs: from a database at rest, whatever is written, allocated,
   flushed and evicted, however often the process stops and starts again, a stop
   with any part of the log stream on disk leaves a database at rest, and the next
   start can open it.
   */
  lemma EveryStopIsSafe(down: State, use: seq<Use>, root: nat, run: seq<(Event, Use)>, n: nat)
    requires AtRestOk(down, use, root) && Legal(Engine(down, Durable(down), use), run)
    requires n <= |Exec(Engine(down, Durable(down), use), run).s.pending|
    ensures var g := Exec(Engine(down, Durable(down), use), run);
            && AtRestOk(Next(g.s, Crash(n)), g.use, root)
            && (|g.s.pages| < 0xFFFF_FFFE ==> CatalogOpens(Durable(Next(g.s, Crash(n))), root))
  {
    hide EngineOk, AtRestOk, Legal, Exec, CatalogOpens, Durable;
    StartsOk(down, use, root);
    var g := Engine(down, Durable(down), use);
    RunKeeps(g, root, run);
    var h := Exec(g, run);
    CrashKeeps(h, root, n, Unused);
    if |h.s.pages| < 0xFFFF_FFFE { RestOpens(Next(h.s, Crash(n)), h.use, root); }
  }

  lemma StartsOk(down: State, use: seq<Use>, root: nat)
    requires AtRestOk(down, use, root)
    ensures EngineOk(Engine(down, Durable(down), use), root)
  {
    hide Inv, Durable, Image, HeadersPristine, Disciplined;
    RestIsDisciplined(down, use, root);
  }

  /** The process stops; the first n bytes of the log stream reach the file. */
  function Stopped(s: State, n: nat): State
    requires n <= |s.pending|
  {
    Next(s, Crash(n))
  }

  function Allocated(s: State): (t: State)
    requires Enabled(s, Allocate)
    ensures t.pending == s.pending
  {
    Next(s, Allocate)
  }

  /** A crash between allocating a page and writing its first image leaves an unused page behind and nothing else. */
  lemma InterruptedAllocation(s: State, V: seq<Page>, use: seq<Use>, root: nat, n: nat)
    requires RunningOk(s, V, use, root) && Enabled(s, Allocate) && n <= |s.pending|
    ensures AtRestOk(Stopped(Allocated(s), n), use + [Unused], root)
    ensures Durable(Stopped(Allocated(s), n)) == Durable(Stopped(s, n)) + [ZERO_PAGE]
  {
    hide RunningOk, AtRestOk, Durable;
    var g := Engine(s, V, use);
    AllocateKeeps(g, root, Unused);
    CrashKeeps(After(g, Allocate, Unused), root, n, Unused);
    assert Inv(s) by { Runs(s, V, use, root); }
    StopAfterGrowth(s, n);
  }

  lemma Runs(s: State, V: seq<Page>, use: seq<Use>, root: nat)
    requires RunningOk(s, V, use, root)
    ensures Inv(s)
  {
    hide Inv, Logical, Image, Disciplined;
  }

  lemma StopAfterGrowth(s: State, n: nat)
    requires Inv(s) && Enabled(s, Allocate) && n <= |s.pending|
    ensures Durable(Stopped(Allocated(s), n)) == Durable(Stopped(s, n)) + [ZERO_PAGE]
  {
    hide Inv, OnDisk, LastImage;
    var a := Stopped(s, n);
    StepSound(s, Crash(n));
    SentBelow(a);
    NotCovered(OnDisk(a.log), |a.pages|);
  }
}
