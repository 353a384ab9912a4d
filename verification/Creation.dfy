/**
 Creating a database so that a crash cannot leave half of one. The image is
 built at a temporary path, a stale log is removed, and one rename publishes it.
 The machine takes these steps one by one and may crash, fail or lose a race
 with a user who deletes the database file, between any two of them. A published
 database is served by the engine, whose steps go on step by step in turn.
 */
module Creation {
  import opened Bytes
  import opened Results
  import opened Chain
  import opened Structure
  import opened CrashMachine
  import opened CrashSafety
  import opened CrashConsistency
  import opened DatabaseState
  import opened EngineRuns
  import M = CrashMachine

  /** A temporary file left in any state: missing, whole pages, or cut inside a page. */
  datatype Temp = Missing | Whole(pages: seq<Page>) | Ragged

  /** Where the opening process stands. */
  datatype Pc =
    | NoProcess
    | Clearing              // discarding a leftover temporary file
    | OpeningTemp
    | Reserving             // about to reserve the header page
    | Cataloguing           // about to add the catalog page
    | Heading(root: nat)    // about to write the header page
    | Closing(root: nat)    // about to close the temporary file
    | Unlogging(root: nat)  // about to remove a stale log
    | Replacing(root: nat)  // about to remove an empty placeholder
    | Renaming(root: nat)   // about to publish
    | Attaching             // about to open the published file and its log
    | Serving(engine: Engine)

  /**
   The three paths and the process. `era` counts publications; `logEra` is the
   one the log file was created in; `use` and `root` tell what the pages of the
   published file are for.
   */
  datatype World = World(db: Option<seq<Page>>, temp: Temp, log: Option<seq<byte>>, era: nat, logEra: nat,
                         use: seq<Use>, root: nat, pc: Pc)

  datatype Act =
    | Start                                             // look at the database path
    | Clear(worked: bool)
    | OpenTemp
    | Reserve
    | AddCatalog
    | WriteHeader
    | CloseTemp
    | RemoveLog
    | RemovePlaceholder
    | Publish
    | Attach
    | Serve(e: M.Event, u: Use)                         // one step of the engine, recovery included
    | Shut(bytes: nat)                                  // the engine stops; so much of its log stream reaches the file
    | Fail(left: Temp)                                  // a step fails; the temporary file is removed, or not
    | Die(left: Temp, bytes: nat)                       // the process crashes
    | Delete                                            // a user removes the database file, leaving its log
    | Truncate                                          // or empties it

  predicate Vacant(db: Option<seq<Page>>) {
    db.None? || db.value == []
  }

  predicate Building(pc: Pc) {
    pc != NoProcess && pc != Attaching && !pc.Serving?
  }

  function LogBytes(w: World): seq<byte> {
    if w.log.Some? then w.log.value else []
  }

  /** The two files as the engine finds them. */
  function Found(w: World): M.State
    requires w.db.Some?
  {
    Files(w.db.value, LogBytes(w))
  }

  /** The files of the world are those of an engine in this state. */
  function Left(w: World, s: M.State): World {
    w.(db := Some(s.pages), log := Some(s.log))
  }

  ghost predicate Enabled(w: World, a: Act) {
    match a
    case Start => w.pc == NoProcess
    case Clear(_) => w.pc == Clearing
    case OpenTemp => w.pc == OpeningTemp && !w.temp.Ragged?
    case Reserve => w.pc == Reserving && w.temp.Whole? && |w.temp.pages| < INVALID_ID
    case AddCatalog => w.pc == Cataloguing && w.temp.Whole? && |w.temp.pages| < INVALID_ID
    case WriteHeader => w.pc.Heading? && w.temp.Whole? && w.temp.pages != []
    case CloseTemp => w.pc.Closing?
    case RemoveLog => w.pc.Unlogging?
    case RemovePlaceholder => w.pc.Replacing?
    case Publish => w.pc.Renaming? && w.temp.Whole?
    case Attach => w.pc == Attaching && w.db.Some?
    case Serve(e, u) => w.pc.Serving? && !e.Crash? && Allowed(w.pc.engine, e, u)
    case Shut(n) => w.pc.Serving? && n <= |w.pc.engine.s.pending|
    case Fail(_) => Building(w.pc)
    case Die(left, n) =>
      && w.pc != NoProcess && (!Building(w.pc) ==> left == w.temp)
      && (w.pc.Serving? ==> n <= |w.pc.engine.s.pending|)
    case Delete => w.pc == NoProcess
    case Truncate => w.pc == NoProcess && w.db.Some?
  }

  ghost function Next(w: World, a: Act): World
    requires Enabled(w, a)
  {
    match a
    case Start => if Vacant(w.db) then w.(pc := Clearing) else w.(pc := Attaching)
    case Clear(worked) => w.(temp := if worked then Missing else w.temp, pc := OpeningTemp)
    case OpenTemp => w.(temp := if w.temp.Missing? then Whole([]) else w.temp, pc := Reserving)
    case Reserve => w.(temp := Whole(w.temp.pages + [ZERO_PAGE]), pc := Cataloguing)
    case AddCatalog => w.(temp := Whole(w.temp.pages + [EmptyPage(Kind.Catalog)]), pc := Heading(|w.temp.pages|))
    case WriteHeader => w.(temp := Whole(w.temp.pages[0 := HeaderPage(w.pc.root)]), pc := Closing(w.pc.root))
    case CloseTemp => w.(pc := Unlogging(w.pc.root))
    case RemoveLog => w.(log := None, pc := Replacing(w.pc.root))
    case RemovePlaceholder => w.(db := None, pc := Renaming(w.pc.root))
    case Publish =>
      w.(db := Some(w.temp.pages), temp := Missing, era := w.era + 1, use := NewUse(w.pc.root), root := w.pc.root,
         pc := Attaching)
    case Attach =>
      w.(log := Some(LogBytes(w)), logEra := if w.log.None? then w.era else w.logEra,
         pc := Serving(Engine(Found(w), Durable(Found(w)), w.use)))
    case Serve(e, u) =>
      var g := After(w.pc.engine, e, u);
      Left(w, g.s).(use := g.use, pc := Serving(g))
    case Shut(n) => Left(w, Stopped(w.pc.engine.s, n)).(pc := NoProcess)
    case Fail(left) => w.(temp := left, pc := NoProcess)
    case Die(left, n) => (if w.pc.Serving? then Left(w, Stopped(w.pc.engine.s, n)) else w).(temp := left,
                                                                                            pc := NoProcess)
    case Delete => w.(db := None)
    case Truncate => w.(db := Some([]))
  }

  // ---- what always holds -----------------------------------------------------------------

  /** The temporary file holds a finished image. */
  predicate Finished(temp: Temp, root: nat) {
    && temp.Whole? && 0 < root && |temp.pages| == root + 1 <= INVALID_ID
    && temp.pages[0] == HeaderPage(root) && temp.pages[root] == EmptyPage(Kind.Catalog)
  }

  predicate Progress(w: World) {
    match w.pc
    case Cataloguing => w.temp.Whole? && w.temp.pages != []
    case Heading(root) =>
      w.temp.Whole? && 0 < root && |w.temp.pages| == root + 1 <= INVALID_ID
          && w.temp.pages[root] == EmptyPage(Kind.Catalog)
    case Closing(root) => Finished(w.temp, root)
    case Unlogging(root) => Finished(w.temp, root)
    case Replacing(root) => Finished(w.temp, root) && w.log.None?
    case Renaming(root) => Finished(w.temp, root) && w.log.None?
    case _ => true
  }

  /**
   A database file that is not empty is complete: with its log it is a database
   at rest or the engine's running one, and the log is not older than the file.
   */
  ghost predicate Safe(w: World) {
    && (!Vacant(w.db) ==>
          && (w.log.Some? ==> w.logEra == w.era)
          && (if w.pc.Serving? then EngineOk(w.pc.engine, w.root) else AtRestOk(Found(w), w.use, w.root)))
    && (Building(w.pc) ==> Vacant(w.db))
    && (w.pc == Attaching || w.pc.Serving? ==> !Vacant(w.db))
    && (w.pc.Serving? ==> w.log.Some? && Left(w, w.pc.engine.s) == w && w.use == w.pc.engine.use)
    && Progress(w)
  }

  /** The uses of the pages of a new image; pages of an abandoned attempt are unused. */
  function NewUse(root: nat): (use: seq<Use>)
    ensures root > 0 ==> |use| == root + 1 && use[0] == Header && use[root] == Link(Kind.Catalog)
    ensures forall p :: 0 < p < root ==> use[p] == Unused
  {
    [Header] + seq(if root == 0 then 0 else root - 1, _ => Unused) + [Link(Kind.Catalog)]
  }

  /** A finished image is a complete database, whatever an earlier attempt left in the file. */
  lemma NewImage(temp: Temp, root: nat)
    requires Finished(temp, root)
    ensures Image(temp.pages, NewUse(root), root) && AtRestOk(Files(temp.pages, []), NewUse(root), root)
  {
    hide HeaderOk, EmptyPage, HeaderPage, NextOf, RootIn, EntryAt, Entries, NewUse;
    var V, use := temp.pages, NewUse(root);
    EmptyPageMeaning(Kind.Catalog);
    HeaderReads(root);
    assert CountOf(V[root]) == |Entries(Kind.Catalog, V[root])|;
    assert forall k: Kind, p: nat :: LinkPage(use, k, p) ==> p == root && k == Kind.Catalog;
    assert forall k: Kind, p: nat, i: nat :: !Lists(V, use, k, p, i);
    forall p | 0 <= p < |V|
      ensures PageOk(V, use, p)
    {
    }
    assert Well(V, use);
    assert AtRestOk(Files(V, []), use, root) by {
      FreshRuns(V, use, root);
    }
  }

  /** A step of the engine keeps a file that is never empty. */
  lemma ServeSafe(w: World, e: M.Event, u: Use)
    requires Safe(w) && Enabled(w, Serve(e, u))
    ensures Safe(Next(w, Serve(e, u)))
  {
    hide EngineOk, Allowed, After, AtRestOk;
    StepKeeps(w.pc.engine, w.root, e, u);
    NeverVacant(After(w.pc.engine, e, u), w.root);
  }

  lemma NeverVacant(g: Engine, root: nat)
    requires EngineOk(g, root)
    ensures g.s.pages != []
  {
    hide Inv, Disciplined, Well, RootIn;
  }

  /** However the engine stops, what it leaves is a database at rest. */
  lemma StopSafe(w: World, n: nat)
    requires Safe(w) && w.pc.Serving? && n <= |w.pc.engine.s.pending|
    ensures var s := Stopped(w.pc.engine.s, n);
            s == Files(s.pages, s.log) && s.pages != [] && AtRestOk(s, w.use, w.root)
  {
    hide EngineOk, AtRestOk, Progress;
    NeverVacant(w.pc.engine, w.root);
    CrashKeeps(w.pc.engine, w.root, n, Unused);
  }

  /** Every step, failure and crash keeps it. */
  lemma StepSafe(w: World, a: Act)
    requires Safe(w) && Enabled(w, a)
    ensures Safe(Next(w, a))
  {
    hide EmptyPage, HeaderPage, AtRestOk, EngineOk, Allowed, After, M.Next, NewUse, Durable;
    match a
    case Publish => NewImage(w.temp, w.pc.root);
    case Attach => StartsOk(Found(w), w.use, w.root);
    case Serve(e, u) => ServeSafe(w, e, u);
    case Shut(n) => StopSafe(w, n);
    case Die(_, n) => if w.pc.Serving? { StopSafe(w, n); }
    case _ =>
  }

  ghost predicate Legal(w: World, acts: seq<Act>)
    decreases |acts|
  {
    acts == [] || (Enabled(w, acts[0]) && Legal(Next(w, acts[0]), acts[1..]))
  }

  ghost function Exec(w: World, acts: seq<Act>): World
    requires Legal(w, acts)
    decreases |acts|
  {
    if acts == [] then w else Exec(Next(w, acts[0]), acts[1..])
  }

  /** Nothing at the database path, anything at the others. */
  predicate Initial(w: World) {
    Vacant(w.db) && w.pc == NoProcess
  }

  /** Over all sequences of opens, failures, crashes and deletions. */
  lemma {:induction false} RunSafe(w: World, acts: seq<Act>)
    requires Safe(w) && Legal(w, acts)
    ensures Safe(Exec(w, acts))
    decreases |acts|
  {
    hide Safe, Enabled, Next;
    if acts != [] {
      StepSafe(w, acts[0]);
      RunSafe(Next(w, acts[0]), acts[1..]);
    }
  }

  lemma AlwaysSafe(w: World, acts: seq<Act>)
    requires Initial(w) && Legal(w, acts)
    ensures Safe(Exec(w, acts))
  {
    assert Safe(w);
    RunSafe(w, acts);
  }

  /** What a non-empty database path promises the next start. */
  lemma NonEmptyOpens(w: World)
    requires Safe(w) && !Vacant(w.db) && w.pc == NoProcess && |w.db.value| < 0xFFFF_FFFE
    ensures RootIn(w.db.value[0]) == Some(w.root) && CatalogOpens(Durable(Found(w)), w.root)
    ensures w.log.Some? ==> w.logEra == w.era
  {
    hide AtRestOk, RootIn, Durable, CatalogOpens;
    RestOpens(Found(w), w.use, w.root);
  }

  // ---- an interrupted creation is rebuilt ----------------------------------------------

  /** The steps of one undisturbed open of a vacant path. */
  const REBUILD: seq<Act> := [Start, Clear(true), OpenTemp, Reserve, AddCatalog, WriteHeader] + PUBLISH

  const PUBLISH: seq<Act> := [CloseTemp, RemoveLog, RemovePlaceholder, Publish, Attach]

  /** Whatever was left behind, an undisturbed open of a vacant path ends with a new database being served. */
  lemma Rebuilds(w: World)
    requires Safe(w) && w.pc == NoProcess && Vacant(w.db)
    ensures Legal(w, REBUILD)
    ensures var v := Exec(w, REBUILD);
            && v.pc.Serving? && v.db == Some([HeaderPage(1), EmptyPage(Kind.Catalog)]) && v.log == Some([])
            && v.logEra == v.era == w.era + 1 && Safe(v)
  {
    hide EmptyPage, HeaderPage, Legal, Exec, Safe, Durable, NewUse;
    var made := Whole([HeaderPage(1), EmptyPage(Kind.Catalog)]);
    var built := w.(temp := made, pc := Closing(1));
    Publishes(built);
    var w5 := w.(temp := Whole([ZERO_PAGE, EmptyPage(Kind.Catalog)]), pc := Heading(1));
    assert Next(w5, WriteHeader) == built by {
      assert w5.temp.pages[0 := HeaderPage(1)] == made.pages;
    }
    Then(w5, WriteHeader, PUBLISH);
    var w4 := w.(temp := Whole([ZERO_PAGE]), pc := Cataloguing);
    assert Next(w4, AddCatalog) == w5 by {
      assert [ZERO_PAGE] + [EmptyPage(Kind.Catalog)] == w5.temp.pages;
    }
    Then(w4, AddCatalog, [WriteHeader] + PUBLISH);
    var w3 := w.(temp := Whole([]), pc := Reserving);
    assert Next(w3, Reserve) == w4;
    Then(w3, Reserve, [AddCatalog] + ([WriteHeader] + PUBLISH));
    var w2 := w.(temp := Missing, pc := OpeningTemp);
    Then(w2, OpenTemp, [Reserve] + ([AddCatalog] + ([WriteHeader] + PUBLISH)));
    var w1 := w.(pc := Clearing);
    Then(w1, Clear(true), [OpenTemp] + ([Reserve] + ([AddCatalog] + ([WriteHeader] + PUBLISH))));
    Then(w, Start, [Clear(true)] + ([OpenTemp] + ([Reserve] + ([AddCatalog] + ([WriteHeader] + PUBLISH)))));
    assert REBUILD ==
        [Start] + ([Clear(true)] + ([OpenTemp] + ([Reserve] + ([AddCatalog] + ([WriteHeader] + PUBLISH)))));
    RunSafe(w, REBUILD);
  }

  lemma Then(w: World, a: Act, rest: seq<Act>)
    requires Enabled(w, a) && Legal(Next(w, a), rest)
    ensures Legal(w, [a] + rest) && Exec(w, [a] + rest) == Exec(Next(w, a), rest)
  {
    hide Enabled, Next;
    assert ([a] + rest)[1..] == rest;
  }

  /** From a finished image to serving it. */
  lemma Publishes(w: World)
    requires w.pc.Closing? && w.temp.Whole?
    ensures Legal(w, PUBLISH)
    ensures var v := Exec(w, PUBLISH);
            && v.pc.Serving? && v.db == Some(w.temp.pages) && v.log == Some([]) && v.temp == Missing
            && v.era == v.logEra == w.era + 1 && v.root == w.pc.root
  {
    hide Legal, Exec, Durable, NewUse;
    var root := w.pc.root;
    var w5 := w.(db := Some(w.temp.pages), temp := Missing, log := None, era := w.era + 1, use := NewUse(root),
                 root := root, pc := Attaching);
    Done(Next(w5, Attach));
    Then(w5, Attach, []);
    var w4 := w.(db := None, log := None, pc := Renaming(root));
    Then(w4, Publish, [Attach] + []);
    var w3 := w.(log := None, pc := Replacing(root));
    Then(w3, RemovePlaceholder, [Publish] + ([Attach] + []));
    var w2 := w.(pc := Unlogging(root));
    Then(w2, RemoveLog, [RemovePlaceholder] + ([Publish] + ([Attach] + [])));
    Then(w, CloseTemp, [RemoveLog] + ([RemovePlaceholder] + ([Publish] + ([Attach] + []))));
    assert PUBLISH == [CloseTemp] + ([RemoveLog] + ([RemovePlaceholder] + ([Publish] + ([Attach] + []))));
  }

  lemma Done(w: World)
    ensures Legal(w, []) && Exec(w, []) == w
  {
  }

  /** An open of a database that is there goes straight to serving it. */
  lemma Reopens(w: World)
    requires Safe(w) && w.pc == NoProcess && !Vacant(w.db)
    ensures Legal(w, [Start, Attach])
    ensures Exec(w, [Start, Attach]).pc.Serving? && Exec(w, [Start, Attach]).db == w.db
  {
    hide AtRestOk, Durable;
    var acts := [Start, Attach];
    var v := Next(w, Start);
    assert acts[1..] == [Attach] && [Attach][1..] == [];
    assert Legal(Next(v, Attach), []);
    assert Legal(v, [Attach]);
  }
}
