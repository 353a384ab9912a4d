/**
 Opening and closing a database: validate the log, check the header, replay,
 truncate, attach the pool, open the catalog; flush, truncate, close. Every exit
 is proved to leave the files of a database that the next start can open.
 */
module Database {
  import opened Bytes
  import opened Results
  import opened LogFormat
  import opened CrashMachine
  import opened CrashSafety
  import opened Frames
  import opened PoolState
  import opened Storage
  import opened Wal
  import opened BufferPool
  import opened Chain
  import opened Structure
  import opened CrashConsistency
  import opened DatabaseState
  import opened PageSpace
  import opened LinkedPages
  import opened TableRows
  import opened HeapTable
  import Catalog
  import Executor
  import Policy
  import Walk
  import SP = SlottedPage

  // ---- replay as a run of the machine ------------------------------------------------

  /** Applying the first records of the log is that many replay steps. */
  lemma {:induction false} ReplayRun(down: State, done: seq<Record>)
    requires
      && Inv(down) && down.phase.Down? && down.sent == OnDisk(down.log) && done <= down.sent
      && InFile(done, |down.pages|)
    ensures var t := down.(pages := Replayed(done, down.pages), phase := Replaying(|done|));
            Inv(t) && QuietlyReaches(down, t)
  {
    hide OnDisk, LogFormat.Scan, Replayed, Inv;
    if done == [] {
      NothingReplayed(down.pages);
      LogReadsWhole(down);
      assert Enabled(down, StartReplay);
      StepSound(down, StartReplay);
      QuietStep(down, StartReplay);
    } else {
      var n := |done| - 1;
      var front, r := done[..n], done[n];
      assert done == front + [r];
      ReplayRun(down, front);
      var t := down.(pages := Replayed(front, down.pages), phase := Replaying(n));
      assert OnDisk(t.log)[n] == r;
      assert Enabled(t, ReplayWrite);
      StepSound(t, ReplayWrite);
      QuietStep(t, ReplayWrite);
      ReplayedSnoc(front, r, down.pages);
      QuietTrans(down, t, Next(t, ReplayWrite));
    }
  }

  lemma LogReadsWhole(s: State)
    requires Inv(s) && s.phase.Down?
    ensures LogFormat.Scan(s.log, 0).Scanned? && OnDisk(s.log) == s.sent && InFile(s.sent, |s.pages|)
  {
    hide OnDisk, LogFormat.Scan, Stream, Durable;
    LogReads(s);
    assert s.sent[..|s.sent|] == s.sent;
  }

  /** A complete replay followed by the truncation brings the machine up on what was recovered. */
  lemma RecoveredRun(down: State)
    requires Inv(down) && down.phase.Down? && down.sent == OnDisk(down.log) && !down.wedged
    ensures var up := State(Durable(down), [], [], false, [], map[], Up(Idle));
            Inv(up) && QuietlyReaches(down, up) && Replayed(OnDisk(down.log), down.pages) == Durable(down)
  {
    hide OnDisk, LogFormat.Scan, Replayed, Stream;
    LogReadsWhole(down);
    ReplayRun(down, down.sent);
    var t := down.(pages := Durable(down), phase := Replaying(|down.sent|));
    assert Enabled(t, FinishReplay);
    StepSound(t, FinishReplay);
    QuietStep(t, FinishReplay);
    QuietTrans(down, t, Next(t, FinishReplay));
  }

  /** Wherever a replay stops, the files still recover to the same pages. */
  lemma InterruptedRun(pages: seq<Page>, log: seq<byte>, done: seq<Record>, after: seq<Page>)
    requires Inv(Files(pages, log)) && done <= OnDisk(log) && PartlyReplayed(done, OnDisk(log), pages, after)
    ensures Steadily(Files(pages, log), Files(after, log)) && Durable(Files(after, log)) == Durable(Files(pages, log))
  {
    hide OnDisk, LogFormat.Scan, Replayed, Inv, Durable, Logical;
    var down := Files(pages, log);
    ReplayRun(down, done);
    var t := down.(pages := Replayed(done, pages), phase := Replaying(|done|));
    QuietIsSteady(down, t);
    QuietMeaning(down, t);
    DownMeans(down);
    DownMeans(t);
    if after == Replayed(done, pages) {
      assert t.log + t.pending[..0] == log;
      CrashIsSteady(t, 0);
      SteadyTrans(down, t, Files(after, log));
      SameDurable(t, Files(after, log));
    } else {
      var junk := after[OnDisk(log)[|done|].page];
      assert Enabled(t, ReplayFail(junk));
      QuietStep(t, ReplayFail(junk));
      var u := Next(t, ReplayFail(junk));
      QuietIsSteady(t, u);
      QuietMeaning(t, u);
      DownMeans(u);
      SteadyTrans(down, t, u);
      assert u == Files(after, log);
    }
  }

  lemma DownMeans(s: State)
    requires !s.phase.Up?
    ensures Logical(s) == Durable(s)
  {
    hide Durable;
  }

  lemma EmptyFiles(pages: seq<Page>)
    ensures Files(pages, []) == State(pages, [], [], false, [], map[], Down) && Durable(Files(pages, [])) == pages
  {
  }

  /** Truncated after a complete replay: the files alone hold everything. */
  lemma TruncatedRun(pages: seq<Page>, log: seq<byte>)
    requires Inv(Files(pages, log))
    ensures var D := Durable(Files(pages, log));
            Steadily(Files(pages, log), Files(D, [])) && Durable(Files(D, [])) == D
  {
    hide OnDisk, LogFormat.Scan, Replayed, Inv, Durable;
    var down := Files(pages, log);
    RecoveredRun(down);
    var up := State(Durable(down), [], [], false, [], map[], Up(Idle));
    QuietIsSteady(down, up);
    EmptyFiles(Durable(down));
    assert up.log + up.pending[..0] == [];
    CrashIsSteady(up, 0);
    SteadyTrans(down, up, Next(up, Crash(0)));
  }

  // ---- recovery ------------------------------------------------------------------------

  /** The log is readable and names only pages of the file. */
  predicate Replayable(pages: seq<Page>, file: seq<byte>) {
    LogFormat.Scan(file, 0).Scanned? && InFile(OnDisk(file), |pages|)
  }

  /**
   Replays the log of any two files over storage and truncates it. Between the
   files of a database it can be interrupted anywhere and run again.
   */
  method Recover(storage: PageStorage, log: Log) returns (s: Status)
    requires log.open && log.pending == [] && !log.failed && |storage.pages| <= INVALID_ID
    modifies storage, log
    ensures storage.open == old(storage.open) && log.pending == []
    ensures s.Ok? ==>
              && old(Replayable(storage.pages, log.file))
              && storage.pages == old(Durable(Files(storage.pages, log.file)))
              && log.open && log.Valid() && log.file == [] && !log.failed && log.sent == []
    ensures storage.reliable && storage.open && log.reliable ==> (s.Ok? <==> old(Replayable(storage.pages, log.file)))
    ensures s.Error? && old(Inv(Files(storage.pages, log.file))) ==>
              && Steadily(old(Files(storage.pages, log.file)), Files(storage.pages, log.file))
              && Durable(Files(storage.pages, log.file)) == old(Durable(Files(storage.pages, log.file)))
  {
    hide OnDisk, LogFormat.Scan, Replayed, Inv, Steadily, PartlyReplayed;
    ghost var pages, file := storage.pages, log.file;
    ghost var down := Files(pages, file);
    if Inv(down) { LogReadsWhole(down); }
    ghost var done;
    s, done := log.Recover(storage);
    if s.Error? {
      if Inv(down) { InterruptedRun(pages, file, done, storage.pages); }
      return;
    }
    ghost var n;
    s, n := log.Reset();
    if s.Error? && Inv(down) {
      assert file + [][..n] == file;
      WholeReplay(OnDisk(file), pages);
      InterruptedRun(pages, file, OnDisk(file), storage.pages);
      TruncatedRun(pages, file);
    }
  }

  lemma WholeReplay(recs: seq<Record>, pages: seq<Page>)
    requires InFile(recs, |pages|)
    ensures PartlyReplayed(recs, recs, pages, Replayed(recs, pages))
  {
    hide Replayed;
  }

  /** Reads the catalog root from page 0. */
  method ReadHeader(storage: PageStorage) returns (s: Status, root: nat)
    ensures s.Ok? ==> storage.pages != [] && RootIn(storage.pages[0]) == Some(root)
    ensures storage.reliable && storage.open ==> (s.Ok? <==> storage.pages != [] && RootIn(storage.pages[0]).Some?)
  {
    hide RootIn;
    root := INVALID_ID;
    var page;
    s, page := storage.ReadPage(0);
    if s.Error? { return; }
    var found := RootIn(page);
    if found.None? { return Error(BadState), root; }
    return Ok, found.value;
  }

  // ---- the running database ------------------------------------------------------------

  class Db {
    const storage: PageStorage
    const wal: Log
    const pool: Pool
    const space: Space
    const catalog: Catalog.TableCatalog
    const root: nat

    ghost predicate Valid()
      reads this, catalog, catalog.list, space, pool, storage, wal, pool.held.Keys
    {
      && catalog.space == space && space.pool == pool && pool.storage == storage && pool.sink == wal
      && catalog.Valid() && catalog.list.root == root && Image(space.View(), space.use, root)
    }

    constructor (catalog: Catalog.TableCatalog, wal: Log, root: nat)
      ensures catalog.Valid() && catalog.list.root == root && catalog.space.pool.sink == wal ==>
                Image(catalog.space.View(), catalog.space.use, root) ==> Valid()
      ensures this.catalog == catalog && space == catalog.space && pool == catalog.space.pool
      ensures storage == catalog.space.pool.storage && this.wal == wal && this.root == root
    {
      hide Catalog.TableCatalog.Valid, Image, Space.View;
      this.catalog := catalog;
      this.space := catalog.space;
      this.pool := catalog.space.pool;
      this.storage := catalog.space.pool.storage;
      this.wal := wal;
      this.root := root;
    }

    /** The running database as the machine sees it. */
    lemma Running()
      requires Valid()
      ensures pool.Valid() && RunningOk(pool.Abs(Idle), space.View(), space.use, root)
    {
      hide Inv, Catalog.IsCatalog, Image, Disciplined, Logical, FramesOk, RecencyOk, PinsOk, Cache, Contents,
        Frames.Table, Count, Find, Linked.Valid;
      catalog.Opened();
      LogicalIsView(pool.Abs(Idle), pool.frames, storage.pages);
    }

    /** What keeps the catalog valid and the header page in place keeps the database. */
    twostate lemma StaysOpen()
      requires old(Valid()) && catalog.Valid() && pool.sink == old(pool.sink)
      requires Executor.HeadersKept(old(space.View()), old(space.use), space.View(), space.use)
      ensures Valid()
    {
      hide Space.Valid, Space.View, Well, RootIn, Catalog.IsCatalog, Linked.Valid;
      catalog.Opened();
      space.Facts();
    }

    method CreateTable(name: seq<byte>) returns (s: Status)
      requires Valid()
      modifies catalog, catalog.list, space`use, pool`frames, pool`clock, pool`held, pool`recency, storage, wal
      ensures Valid() && pool.held == old(pool.held)
      ensures old(pool.Slack()) >= LogFormat.RECORD_SIZE ==>
                pool.Slack() >= old(pool.Slack()) - 2 * LogFormat.RECORD_SIZE
      ensures Executor.OthersKept(old(space.View()), old(space.use), space.View(), space.use, old(catalog.entries),
                                  INVALID_ID)
      ensures if s.Error? then catalog.entries == old(catalog.entries) else
                exists at: nat :: catalog.entries == old(catalog.entries) + [Catalog.TableEntry(name, at)]
                                  && Executor.IdsOf(space.View(), space.use, at) == []
      ensures old(Executor.Calm(catalog, Walk.WalkCost(|space.View()| + 1) + 2)) ==>
                (s.Ok? <==> ValidName(name) && !Catalog.Named(old(catalog.entries), name))
    {
      hide Catalog.TableCatalog.Valid, Image, Space.View, Executor.HeadersKept, Executor.OthersKept, Executor.IdsOf,
        Executor.Calm, ValidName, Catalog.Named, Walk.WalkCost, LinkPage;
      s := Executor.CreateTable(catalog, name);
      StaysOpen();
    }

    method Insert(name: seq<byte>, data: seq<byte>) returns (s: Status, id: RecordId, ghost at: nat)
      requires Valid()
      modifies space`use, pool`frames, pool`clock, pool`held, pool`recency, storage, wal
      ensures Valid() && pool.held == old(pool.held)
      ensures old(pool.Slack()) >= 3 * LogFormat.RECORD_SIZE ==>
                pool.Slack() >= old(pool.Slack()) - 3 * LogFormat.RECORD_SIZE
      ensures Executor.Ran(old(space.View()), old(space.use), space.View(), space.use, catalog.entries, name, s, at,
                           Executor.Added(id, data))
      ensures old(Executor.Calm(catalog, Executor.CallCost(|space.View()|))) ==>
                (s.Ok? <==> Catalog.Named(catalog.entries, name) && 0 < |data| <= SP.MAX_RECORD_SIZE)
    {
      hide Catalog.TableCatalog.Valid, Image, Space.View, Executor.HeadersKept, Executor.OthersKept, Executor.Effect,
        Executor.Calm, Catalog.Named, Executor.CallCost, LinkPage, Executor.TableIds, Well;
      s, id, at := Executor.Insert(catalog, name, data);
      StaysOpen();
    }

    method Get(name: seq<byte>, id: RecordId) returns (s: Status, data: seq<byte>, ghost at: nat)
      requires Valid()
      modifies pool`frames, pool`clock, pool`held, pool`recency, storage, wal
      ensures Valid() && space.View() == old(space.View()) && pool.held == old(pool.held)
      ensures old(pool.Slack()) >= 0 ==> pool.Slack() == old(pool.Slack())
      ensures s.Ok? ==>
                && Catalog.TableEntry(name, at) in catalog.entries
                && Lookup(space.View(), Executor.IdsOf(space.View(), space.use, at), id) == Some(data)
      ensures old(Executor.Calm(catalog, Executor.CallCost(|space.View()|))) ==>
                if !Catalog.Named(catalog.entries, name) then s == Error(NotFound) else
                  && Catalog.TableEntry(name, at) in catalog.entries
                  && s == RowStatus(space.View(), Executor.IdsOf(space.View(), space.use, at), id)
    {
      hide Catalog.TableCatalog.Valid, Image, Space.View, Executor.Calm, Catalog.Named, Executor.CallCost,
        Executor.IdsOf, Lookup, RowStatus;
      s, data, at := Executor.Get(catalog, name, id);
    }

    method Update(name: seq<byte>, id: RecordId, data: seq<byte>) returns (s: Status, ghost at: nat)
      requires Valid()
      modifies pool`frames, pool`clock, pool`held, pool`recency, storage, wal
      ensures Valid() && pool.held == old(pool.held)
      ensures old(pool.Slack()) >= 3 * LogFormat.RECORD_SIZE ==>
                pool.Slack() >= old(pool.Slack()) - 3 * LogFormat.RECORD_SIZE
      ensures Executor.Ran(old(space.View()), space.use, space.View(), space.use, catalog.entries, name, s, at,
                           Executor.Changed(id, Some(data)))
      ensures old(Executor.Calm(catalog, Executor.CallCost(|space.View()|))) && 0 < |data| <= SP.MAX_RECORD_SIZE ==>
                if !Catalog.Named(catalog.entries, name) then s == Error(NotFound) else
                  && Catalog.TableEntry(name, at) in catalog.entries
                  && s == UpdatedStatus(old(space.View()), Executor.IdsOf(old(space.View()), space.use, at), id, data)
    {
      hide Catalog.TableCatalog.Valid, Image, Space.View, Executor.HeadersKept, Executor.OthersKept, Executor.Effect,
        Executor.Calm, Catalog.Named, Executor.CallCost, LinkPage, Executor.TableIds, Well, Executor.IdsOf,
        UpdatedStatus;
      s, at := Executor.Update(catalog, name, id, data);
      StaysOpen();
    }

    method Delete(name: seq<byte>, id: RecordId) returns (s: Status, ghost at: nat)
      requires Valid()
      modifies pool`frames, pool`clock, pool`held, pool`recency, storage, wal
      ensures Valid() && pool.held == old(pool.held)
      ensures old(pool.Slack()) >= 3 * LogFormat.RECORD_SIZE ==>
                pool.Slack() >= old(pool.Slack()) - 3 * LogFormat.RECORD_SIZE
      ensures Executor.Ran(old(space.View()), space.use, space.View(), space.use, catalog.entries, name, s, at,
                           Executor.Changed(id, None))
      ensures old(Executor.Calm(catalog, Executor.CallCost(|space.View()|))) ==>
                if !Catalog.Named(catalog.entries, name) then s == Error(NotFound) else
                  && Catalog.TableEntry(name, at) in catalog.entries
                  && s == RowStatus(old(space.View()), Executor.IdsOf(old(space.View()), space.use, at), id)
    {
      hide Catalog.TableCatalog.Valid, Image, Space.View, Executor.HeadersKept, Executor.OthersKept, Executor.Effect,
        Executor.Calm, Catalog.Named, Executor.CallCost, LinkPage, Executor.TableIds, Well, Executor.IdsOf, RowStatus;
      s, at := Executor.Delete(catalog, name, id);
      StaysOpen();
    }

    method Scan(name: seq<byte>, goOn: (RecordId, seq<byte>) -> bool)
      returns (s: Status, seen: seq<(RecordId, seq<byte>)>, ghost at: nat)
      requires Valid()
      modifies pool`frames, pool`clock, pool`held, pool`recency, storage, wal
      ensures Valid() && space.View() == old(space.View()) && pool.held == old(pool.held)
      ensures old(pool.Slack()) >= 0 ==> pool.Slack() == old(pool.Slack())
      ensures s.Ok? ==>
                var ids := Executor.IdsOf(space.View(), space.use, at);
                && Catalog.TableEntry(name, at) in catalog.entries && HeapTable.Listed(space.View(), ids)
                && seen == Seen(AllRows(space.View(), ids), goOn)
      ensures old(Executor.Calm(catalog, Executor.CallCost(|space.View()|))) ==>
                (s.Ok? <==> Catalog.Named(catalog.entries, name))
    {
      hide Catalog.TableCatalog.Valid, Image, Space.View, Executor.Calm, Catalog.Named, Executor.CallCost,
        Executor.IdsOf, Seen, AllRows, HeapTable.Listed;
      s, seen, at := Executor.Scan(catalog, name, goOn);
    }

    /**
     What only moves pages between the pool, the log and the data file keeps the
     database, a resize by the policy included.
     */
    twostate lemma Undisturbed()
      requires
        && old(Valid()) && pool.Valid() && space.View() == old(space.View()) && space.use == old(space.use)
        && pool.Quietly()
      requires pool.held == old(pool.held) && unchanged(catalog) && unchanged(catalog.list)
      ensures Valid()
    {
      hide Pool.Valid, Image, Catalog.IsCatalog, Disciplined, Well, QuietlyReaches, Pool.View;
      space.StillValid();
    }

    method Resize(frames: nat) returns (s: Status)
      requires Valid()
      modifies pool`frames, pool`capacity, pool`recency, storage, wal
      ensures Valid() && space.View() == old(space.View())
      ensures s.Ok? ==> pool.capacity == frames
      ensures s.Error? ==> pool.capacity == old(pool.capacity)
      ensures old(pool.Slack()) >= 0 ==>
                pool.Slack() >= old(pool.Slack()) && s == ResizeStatus(old(pool.frames), frames)
    {
      hide Pool.Valid, Image, Catalog.TableCatalog.Valid, Pool.View, Pool.Slack, ResizeStatus, NamesKept, Survives,
        Cleaned, Pool.Quietly;
      Running();
      s := pool.Resize(frames);
      Undisturbed();
    }

    /** One turn of the policy loop leaves the database as it is, whatever becomes of its request. */
    method Adapt(policy: Policy.Policy, c: Policy.Config, snap: Policy.Snapshot) returns (s: Status)
      requires Valid()
      modifies policy, pool`frames, pool`capacity, pool`recency, storage, wal
      ensures Valid() && space.View() == old(space.View())
      ensures !Policy.ConfigOk(c) ==> s == Error(InvalidArgument) && pool.capacity == old(pool.capacity)
      ensures Policy.ConfigOk(c) ==>
                Policy.Loop(pool.capacity, policy.have, policy.last) ==
                Policy.Tick(c, snap, old(Policy.Loop(pool.capacity, policy.have, policy.last)), s.Ok?)
    {
      hide Pool.Valid, Image, Catalog.TableCatalog.Valid, Pool.View, Pool.Slack, ResizeStatus, NamesKept, Policy.Tick,
        Policy.Decide, Pool.Quietly;
      Running();
      var d;
      s, d := policy.Apply(c, snap, pool);
      Undisturbed();
    }

    /**
     A clean close: everything is flushed, then the log is truncated. Success
     leaves every logical page in the data file and the log empty; a failure at
     any point leaves the files of the database at rest.
     */
    method Close() returns (s: Status)
      requires Valid()
      modifies pool`frames, storage, wal
      ensures s.Ok? && old(storage.open) ==>
                storage.pages == old(space.View()) && wal.file == [] && wal.pending == [] && !storage.open
      ensures old(storage.open) ==> AtRestOk(Files(storage.pages, wal.file + wal.pending), space.use, root)
      ensures !old(storage.open) || old(pool.Slack()) >= 0 ==> s.Ok?
    {
      hide Pool.Slack, Inv, Durable, Logical, OnDisk, Image, Disciplined, HeadersPristine, QuietlyReaches, Steadily,
        Pool.Valid, Pool.View, Space.View, Catalog.TableCatalog.Valid;
      if !storage.open { return Ok; }
      Running();
      ghost var a, V := pool.Abs(Idle), space.View();
      ghost var outcome;
      s, outcome := pool.FlushAll();
      ghost var b := pool.Abs(Idle);
      FlushedRun(a, V, space.use, root, b);
      if s.Error? { return; }
      if pool.Slack() >= 0 { pool.SlackMeans(); pool.LogMeans(); }
      CleanCache(pool.frames);
      Checkpointed(a, V, space.use, root, b);
      assert wal.Valid() by { pool.LogValid(); }
      ghost var n;
      s, n := wal.Reset();
      if s.Error? {
        PartlyFlushed(a, V, space.use, root, b, n);
        if wal.pending == [] { assert wal.file + wal.pending == wal.file; }
        return;
      }
      assert wal.file + wal.pending == [];
      s := wal.Close();
      if s.Error? { return; }
      s := storage.Close();
    }
  }

  /** A running database that stops now is a database at rest. */
  lemma PartlyFlushed(a: State, V: seq<Page>, use: seq<Use>, root: nat, b: State, n: nat)
    requires RunningOk(a, V, use, root) && QuietlyReaches(a, b) && n <= |b.pending|
    ensures AtRestOk(Files(b.pages, b.log + b.pending[..n]), use, root)
  {
    hide Inv, Durable, Logical, OnDisk, Image, Disciplined, HeadersPristine, QuietlyReaches, Steadily;
    QuietIsSteady(a, b);
    CrashIsSteady(b, n);
    SteadyTrans(a, b, Next(b, Crash(n)));
    ComesToRest(a, V, use, root, Next(b, Crash(n)));
  }

  lemma FlushedRun(a: State, V: seq<Page>, use: seq<Use>, root: nat, b: State)
    requires RunningOk(a, V, use, root) && QuietlyReaches(a, b)
    ensures AtRestOk(Files(b.pages, b.log + b.pending), use, root)
  {
    hide AtRestOk, RunningOk, QuietlyReaches, Files;
    assert b.pending[..|b.pending|] == b.pending;
    PartlyFlushed(a, V, use, root, b, |b.pending|);
  }

  lemma CleanCache(fs: seq<Frame>)
    requires forall i :: 0 <= i < |fs| ==> !fs[i].dirty
    ensures forall p :: p in Cache(fs) ==> !Cache(fs)[p].dirty
  {
    hide Find;
  }

  /** With nothing dirty the data file alone is the database, and the log may go. */
  lemma Checkpointed(a: State, V: seq<Page>, use: seq<Use>, root: nat, b: State)
    requires RunningOk(a, V, use, root) && QuietlyReaches(a, b) && b.phase == Up(Idle)
    requires forall p :: p in b.cache ==> !b.cache[p].dirty
    ensures b.pages == V && AtRestOk(Files(b.pages, []), use, root)
  {
    hide Inv, Durable, Logical, OnDisk, Image, Disciplined, HeadersPristine, QuietlyReaches, Steadily;
    QuietMeaning(a, b);
    assert Enabled(b, Checkpoint);
    CheckpointSafe(b, Checkpoint);
    QuietStep(b, Checkpoint);
    QuietTrans(a, b, Next(b, Checkpoint));
    QuietIsSteady(a, Next(b, Checkpoint));
    EmptyFiles(b.pages);
    ComesToRest(a, V, use, root, Next(b, Checkpoint));
  }

  /** What opening checks of the two files: the log, the header, and the catalog on the replayed pages. */
  ghost predicate Opens(pages: seq<Page>, file: seq<byte>) {
    && Replayable(pages, file) && pages != [] && RootIn(pages[0]).Some?
    && CatalogOpens(Durable(Files(pages, file)), RootIn(pages[0]).value)
  }

  /** So many frames do for every fetch of opening the catalog of a file of this size. */
  predicate EnoughFrames(capacity: nat, pageCount: nat) {
    2 <= capacity <= MAX_FRAMES || (capacity == 1 && Catalog.CatalogCost(pageCount) <= MAX_STAMP)
  }

  /**
   Opens any two files as a database. It comes up on exactly what the files
   recover to. When no call can fail, it succeeds exactly if every check of the
   log, the header and the catalog holds, as they do for every database at rest
   below 2^32 - 2 pages. A database at rest stays that database whatever happens.
   */
  method Open(storage: PageStorage, file: seq<byte>, capacity: nat, ghost use: seq<Use>, ghost root: nat)
    returns (s: Status, db: Db?, log: Log)
    requires |storage.pages| <= INVALID_ID
    modifies storage
    ensures fresh(log)
    ensures s.Ok? ==>
              && db != null && fresh(db) && db.storage == storage && db.wal == log && db.pool.capacity == capacity
              && db.pool.Valid() && db.space.View() == old(Durable(Files(storage.pages, file)))
              && old(Opens(storage.pages, file)) && Some(db.root) == old(RootIn(storage.pages[0]))
    ensures s.Ok? ==> fresh(db.catalog) && fresh(db.catalog.list) && fresh(db.space) && fresh(db.pool)
    ensures s.Ok? ==> db.pool.held == map[]
    ensures s.Ok? && storage.reliable && old(storage.open) ==> db.pool.Slack() == MAX_FILE_SIZE
    ensures s.Error? ==> db == null
    ensures storage.reliable && old(storage.open) && EnoughFrames(capacity, |old(storage.pages)|) ==>
              (s.Ok? <==> old(Opens(storage.pages, file)))
    ensures old(AtRestOk(Files(storage.pages, file), use, root)) ==> if s.Ok? then db.root == root && db.Valid() else
              && AtRestOk(Files(storage.pages, log.file + log.pending), use, root)
              && Durable(Files(storage.pages, log.file + log.pending)) == old(Durable(Files(storage.pages, file)))
    ensures storage.reliable && old(storage.open) && EnoughFrames(capacity, |old(storage.pages)|) ==>
              |old(storage.pages)| < 0xFFFF_FFFE && old(AtRestOk(Files(storage.pages, file), use, root)) ==> s.Ok?
  {
    hide OnDisk, LogFormat.Scan, Replayed, Inv, Durable, Steadily, Image, HeadersPristine, RootIn, CatalogOpens,
      EnoughFrames;
    db := null;
    log := new Log(file, storage.reliable);
    assert log.file + log.pending == file;
    NoFrames(|storage.pages|);
    if capacity == 0 { return Error(InvalidArgument), null, log; }
    ghost var down := Files(storage.pages, file);
    ghost var rests := AtRestOk(down, use, root);
    if rests { RestLog(down, use, root); }
    var recs, truncated;
    s, recs, truncated := log.ScanFile();
    if s.Error? { return s, null, log; }
    var found;
    s, found := ReadHeader(storage);
    if s.Error? { return; }
    if rests { RestIsDisciplined(down, use, root); }
    s := Recover(storage, log);
    assert log.file + log.pending == log.file;
    if s.Error? {
      if rests { ComesToRest(down, Durable(down), use, root, Files(storage.pages, log.file)); }
      return;
    }
    s, db := Attach(storage, log, capacity, found, Durable(down), use);
  }

  lemma NoFrames(pageCount: nat)
    ensures !EnoughFrames(0, pageCount)
  {
  }

  /**
   What the start relies on: a readable log, an intact header and, while the
   walk bound holds, a catalog that opens.
   */
  lemma RestLog(s: State, use: seq<Use>, root: nat)
    requires AtRestOk(s, use, root)
    ensures LogFormat.Scan(s.log, 0).Scanned? && s.pages != [] && RootIn(s.pages[0]) == Some(root)
    ensures InFile(OnDisk(s.log), |s.pages|) && (|s.pages| < 0xFFFF_FFFE ==> CatalogOpens(Durable(s), root))
  {
    hide OnDisk, Stream, RootIn, Well, Replayed, LogFormat.Scan, CatalogOpens;
    LogReadsWhole(s);
    PristineMeans(s, 0);
    if |s.pages| < 0xFFFF_FFFE { RestOpens(s, use, root); }
  }

  /** Creates the pool over the recovered file, attaches the log and opens the catalog. */
  method Attach(storage: PageStorage, log: Log, capacity: nat, root: nat, ghost D: seq<Page>, ghost use: seq<Use>)
    returns (s: Status, db: Db?)
    requires storage.pages == D && |D| <= INVALID_ID && capacity > 0
    requires log.open && log.Valid() && log.file == [] && log.pending == [] && !log.failed && log.sent == []
    modifies storage, log
    ensures s.Ok? ==>
              && db != null && fresh(db) && db.storage == storage && db.wal == log && db.root == root
              && db.pool.Valid() && db.space.View() == D && db.pool.capacity == capacity && CatalogOpens(D, root)
    ensures s.Ok? ==> fresh(db.catalog) && fresh(db.catalog.list) && fresh(db.space) && fresh(db.pool)
    ensures s.Ok? ==> db.pool.held == map[]
    ensures s.Ok? && storage.reliable && old(storage.open) && log.reliable ==> db.pool.Slack() == MAX_FILE_SIZE
    ensures s.Error? ==> db == null
    ensures storage.reliable && old(storage.open) && log.reliable && EnoughFrames(capacity, |D|) ==>
              (s.Ok? <==> CatalogOpens(D, root))
    ensures Image(D, use, root) ==> if s.Ok? then db.Valid() else
              && AtRestOk(Files(storage.pages, log.file + log.pending), use, root)
              && Durable(Files(storage.pages, log.file + log.pending)) == D
  {
    hide Inv, Durable, Image, AtRestOk, Space.Valid, Space.View, Pool.Valid, Catalog.OnlyCatalog, LinkPage, Db.Valid,
      CatalogOpens, Pool.Slack, Pool.Fuel, Catalog.CatalogCost;
    db := null;
    assert log.file + log.pending == [];
    if Image(D, use, root) { FreshRuns(D, use, root); }
    if capacity > MAX_FRAMES { return Error(OutOfMemory), null; }
    var fails := storage.Fails();
    if fails { return Error(OutOfMemory), null; }
    var space := Mount(storage, log, capacity, root, use);
    s, db := Raise(space, log, root, D, use);
  }

  /** Opens the catalog over a mounted pool. */
  method Raise(space: Space, log: Log, root: nat, ghost D: seq<Page>, ghost use: seq<Use>) returns (s: Status, db: Db?)
    requires space.pool.Valid() && space.pool.sink == log && space.View() == D && |D| <= INVALID_ID
    requires space.pool.Abs(Idle) == Risen(D)
    modifies space.pool`frames, space.pool`clock, space.pool`held, space.pool`recency, space.pool.storage, log
    ensures s.Ok? ==>
              && db != null && fresh(db) && db.space == space && db.pool == space.pool
              && db.storage == space.pool.storage
              && db.wal == log && db.root == root && db.pool.Valid() && db.space.View() == D && CatalogOpens(D, root)
    ensures s.Ok? ==> fresh(db.catalog) && fresh(db.catalog.list) && db.pool.held == old(space.pool.held)
    ensures s.Ok? && old(space.pool.Slack()) >= 0 ==> db.pool.Slack() == old(space.pool.Slack())
    ensures s.Error? ==> db == null
    ensures old(space.pool.Slack()) >= 0 && old(space.pool.Fuel()) >= Catalog.CatalogCost(|D|) ==>
              (s.Ok? <==> CatalogOpens(D, root))
    ensures s.Ok? && old(space.Valid()) && Catalog.OnlyCatalog(D, space.use, root) && Image(D, space.use, root) ==>
              db.Valid()
    ensures s.Error? && Image(D, use, root) ==>
              && AtRestOk(Files(space.pool.storage.pages, log.file + log.pending), use, root)
              && Durable(Files(space.pool.storage.pages, log.file + log.pending)) == D
  {
    hide Inv, Durable, Image, AtRestOk, QuietlyReaches, Space.Valid, Space.View, Pool.Valid, Pool.View,
      Catalog.OnlyCatalog, LinkPage, Catalog.TableCatalog.Valid, Db.Valid, CatalogOpens, NamesOk, Pool.Slack, Pool.Fuel,
      Catalog.CatalogCost;
    db := null;
    var catalog;
    s, catalog := Catalog.Open(space, root);
    if s.Error? {
      if Image(D, use, root) { GivenUp(D, use, root, space.pool.Abs(Idle)); }
      return;
    }
    db := new Db(catalog, log, root);
  }

  /** A pool over the recovered file with the log attached. */
  method Mount(storage: PageStorage, log: Log, capacity: nat, ghost root: nat, ghost use: seq<Use>)
    returns (space: Space)
    requires |storage.pages| <= INVALID_ID && 0 < capacity <= MAX_FRAMES
    requires log.open && log.Valid() && log.file == [] && log.pending == [] && !log.failed && log.sent == []
    ensures fresh(space) && fresh(space.pool) && space.pool.Valid() && space.View() == storage.pages
    ensures space.pool.storage == storage && space.pool.sink == log && space.pool.capacity == capacity
    ensures space.pool.Abs(Idle) == Risen(storage.pages)
    ensures space.pool.held == map[]
    ensures storage.reliable && storage.open && log.reliable ==> space.pool.Slack() == MAX_FILE_SIZE
    ensures EnoughFrames(capacity, |storage.pages|) ==> space.pool.Fuel() >= Catalog.CatalogCost(|storage.pages|)
    ensures Image(storage.pages, use, root) ==>
              && space.Valid() && Image(space.View(), space.use, root)
              && Catalog.OnlyCatalog(space.View(), space.use, root) && LinkPage(space.use, Kind.Catalog, root)
  {
    hide Inv, Durable, Well, RootIn, Disciplined, Logical, Frames.Table, FramesOk, RecencyOk, PinsOk, Cache, Contents,
      Count, Find, Catalog.CatalogCost;
    ghost var kept := [];
    if Image(storage.pages, use, root) {
      kept := Catalog.Pruned(use, Follow(storage.pages, use, Kind.Catalog, root));
      PrunedImage(storage.pages, use, root);
      FreshRuns(storage.pages, kept, root);
    }
    NothingAgrees(storage.pages);
    Catalog.CostBound(|storage.pages|);
    var pool := new Pool(storage, log, capacity);
    assert pool.held.Values == {};
    assert DirtyIn(map[]) == {};
    pool.FreshAbs();
    space := new Space(pool, kept);
  }

  /** Dropping every object leaves what a crash with a flushed log would leave. */
  lemma GivenUp(D: seq<Page>, use: seq<Use>, root: nat, a: State)
    requires Image(D, use, root) && |D| <= INVALID_ID && QuietlyReaches(Risen(D), a)
    ensures AtRestOk(Files(a.pages, a.log + a.pending), use, root) && Durable(Files(a.pages, a.log + a.pending)) == D
  {
    hide OnDisk, Inv, Durable, Steadily, Image, Disciplined, Logical, QuietlyReaches;
    FreshRuns(D, use, root);
    QuietIsSteady(Risen(D), a);
    assert a.pending[..|a.pending|] == a.pending;
    CrashIsSteady(a, |a.pending|);
    var t := Next(a, Crash(|a.pending|));
    SteadyTrans(Risen(D), a, t);
    ComesToRest(Risen(D), D, use, root, t);
    SettledRecovers(Risen(D), D, t);
  }

  lemma PrunedImage(D: seq<Page>, use: seq<Use>, root: nat)
    requires Image(D, use, root)
    ensures var kept := Catalog.Pruned(use, Follow(D, use, Kind.Catalog, root));
            Image(D, kept, root) && Catalog.OnlyCatalog(D, kept, root)
  {
    hide Well, RootIn, Follow;
    Catalog.PrunedIsWell(D, use, root);
  }

  // ---- close, then open -----------------------------------------------------------------

  /**
   A clean close followed by an open of the same two files: the database comes back
   with the same pages, tables and rows. When no call can fail, it always comes back.
   */
  method Restart(db: Db, capacity: nat) returns (s: Status, again: Db?)
    requires db.Valid() && db.storage.open
    modifies db.pool`frames, db.storage, db.wal
    ensures s.Ok? ==>
              && again != null && fresh(again) && fresh(again.catalog) && fresh(again.catalog.list)
              && fresh(again.space)
              && fresh(again.pool) && fresh(again.storage) && fresh(again.wal) && again.Valid() && again.root == db.root
              && again.pool.capacity == capacity
              && again.space.View() == old(db.space.View()) && again.catalog.entries == old(db.catalog.entries)
              && SameTables(old(db.space.View()), old(db.space.use), again.space.use, old(db.catalog.entries))
    ensures old(db.pool.Slack()) >= 0 && |old(db.space.View())| < 0xFFFF_FFFE ==>
              EnoughFrames(capacity, |old(db.space.View())|) ==> s.Ok?
  {
    hide Pool.Slack, Image, Catalog.IsCatalog, Space.View, AtRestOk, Durable, SameTables, EnoughFrames, Opens, RootIn,
      Space.Valid;
    again := null;
    ghost var V, use, c := db.space.View(), db.space.use, db.catalog.list.Dir();
    ghost var sure := db.pool.Slack() >= 0;
    if sure { db.pool.SlackMeans(); }
    db.catalog.Opened();
    db.space.Facts();
    s := db.Close();
    if s.Error? { return; }
    assert db.wal.file + db.wal.pending == [];
    var storage := new PageStorage(db.storage.pages, db.storage.reliable);
    var log;
    EmptyLogRecovers(storage.pages);
    s, again, log := Open(storage, db.wal.file, capacity, use, db.root);
    if s.Ok? { SameCatalog(V, use, c, again.space.use, again.catalog.list.Dir()); }
  }

  lemma EmptyLogRecovers(pages: seq<Page>)
    ensures Durable(Files(pages, [])) == pages
  {
    NothingReplayed(pages);
  }

  /** Every table is stored on the same data pages under both uses of the file, so it has the same rows. */
  ghost predicate SameTables(V: seq<Page>, use: seq<Use>, used: seq<Use>, entries: seq<Catalog.TableEntry>) {
    forall e :: e in entries ==> Executor.IdsOf(V, use, e.root) == Executor.IdsOf(V, used, e.root)
  }

  /** A file has one catalog at a root, whatever its pages are taken to be used for. */
  lemma SameCatalog(V: seq<Page>, use: seq<Use>, c: Listing, used: seq<Use>, d: Listing)
    requires |V| <= INVALID_ID && Catalog.IsCatalog(V, use, c) && Catalog.IsCatalog(V, used, d) && c.root == d.root
    ensures c.raw == d.raw && SameTables(V, use, used, Catalog.Tables(c.raw))
  {
    hide Well, HeaderOk, NextOf, CountOf, AllEntries, NamesOk, Catalog.Tables, Sole, Executor.IdsOf;
    ChainUnique(Kind.Catalog, V, c.chain, d.chain);
    forall e | e in Catalog.Tables(c.raw)
      ensures Executor.IdsOf(V, use, e.root) == Executor.IdsOf(V, used, e.root)
    {
      Executor.EntryIsRoot(V, use, c, e);
      Executor.EntryIsRoot(V, used, d, e);
      SamePages(V, use, used, e.root);
    }
  }

  lemma SamePages(V: seq<Page>, use: seq<Use>, used: seq<Use>, root: nat)
    requires |V| <= INVALID_ID && Well(V, use) && Well(V, used)
    requires LinkPage(use, Kind.Directory, root) && LinkPage(used, Kind.Directory, root)
    ensures Executor.IdsOf(V, use, root) == Executor.IdsOf(V, used, root)
  {
    hide Well, HeaderOk, NextOf, AllEntries, Ids, Follow;
    ChainUnique(Kind.Directory, V, Follow(V, use, Kind.Directory, root), Follow(V, used, Kind.Directory, root));
  }
}
