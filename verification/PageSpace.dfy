/**
 The pages tables and catalogs work on: the pool over its storage, with the use
 of every page. All changes go through a pinned page or add a page, and each is
 proved to keep the file well formed and every recoverable image in order.
 */
module PageSpace {
  import opened Bytes
  import opened Results
  import opened CrashMachine
  import opened CrashSafety
  import opened Frames
  import opened PoolState
  import opened BufferPool
  import opened Chain
  import opened Structure
  import opened CrashConsistency
  import opened Walk
  import L = LogFormat
  import Directory
  import Storage

  class Space {
    const pool: Pool
    ghost var use: seq<Use>

    ghost function View(): seq<Page>
      reads pool, pool.storage
    {
      pool.View()
    }

    ghost predicate Valid()
      reads this, pool, pool.storage, pool.sink, pool.held.Keys
    {
      && pool.Valid() && Well(View(), use)
      && (pool.sink != null ==> Disciplined(pool.Abs(Idle), View(), use))
    }

    lemma Facts()
      requires Valid()
      ensures Well(View(), use) && |View()| == |use| <= INVALID_ID
    {
      hide Inv, Disciplined, Pool.Valid, PageOk, EntriesOk, LinksOk;
    }

    lemma ResidentsInFile()
      requires Valid()
      ensures forall p :: p in pool.Residents() ==> p < |View()|
    {
      hide Well, Disciplined, Inv, RecencyOk, PinsOk, Cache, Count, Find;
      pool.ViewSize();
    }

    /** A page just added can be had unless every frame is pinned. */
    lemma NewReach(id: nat)
      requires Valid() && id < |View()| && forall p :: p in pool.Residents() ==> p < id
      ensures id in pool.Reach() <==> !pool.Jammed()
    {
      hide Well, Disciplined, Inv, RecencyOk, PinsOk, Cache, Table, Count;
      pool.ViewSize();
    }

    lemma PoolValid()
      requires Valid()
      ensures pool.Valid()
    {
      hide Pool.Valid, Well, Disciplined;
    }

    /** What only moves pages between the pool and the disk keeps the space valid. */
    twostate lemma StillValid()
      requires old(Valid()) && pool.Valid() && View() == old(View()) && use == old(use) && pool.Quietly()
      ensures Valid()
    {
      hide Inv, FramesOk, RecencyOk, Cache, Contents, Frames.Table, QuietlyReaches, PinsOk, Count, Find, Well,
        Disciplined;
      if pool.sink != null { QuietKeepsDiscipline(old(pool.Abs(Idle)), pool.Abs(Idle), View(), use); }
    }

    /** Handle h pins page id. */
    ghost predicate Holding(h: Handle, id: nat)
      reads this, pool, h
    {
      h.pool == pool && h in pool.held && Fetched(pool.frames, h.frame, id)
    }

    constructor (pool: Pool, ghost use: seq<Use>)
      ensures this.pool == pool && this.use == use
      ensures pool.Valid() && Well(pool.View(), use) ==>
                (pool.sink != null ==> Disciplined(pool.Abs(Idle), pool.View(), use)) ==> Valid()
    {
      hide Inv, FramesOk, RecencyOk, Cache, Contents, Frames.Table, PinsOk, Count, Find, Well, Disciplined;
      this.pool := pool;
      this.use := use;
    }

    /** Pins a page and reads it. */
    method Pin(id: nat) returns (s: Status, h: Handle, page: Page)
      requires Valid()
      modifies pool`frames, pool`clock, pool`held, pool`recency, pool.storage, pool.sink
      ensures Valid() && View() == old(View()) && pool.sink == old(pool.sink) && fresh(h)
      ensures s.Ok? ==> Holding(h, id) && id < |View()| && page == View()[id] && pool.held - {h} == old(pool.held)
      ensures s.Error? ==> pool.held == old(pool.held) && s != Error(NeverReturns)
      ensures s == Error(NotFound) || s == Error(InvalidArgument) ==> id >= |View()|
      ensures pool.clock <= old(pool.clock) + 1 && |pool.storage.pages| == |old(pool.storage.pages)| == |View()|
      ensures old(pool.Jammed()) ==> pool.Residents() == old(pool.Residents())
      ensures old(pool.Slack()) >= 0 ==> pool.Slack() == old(pool.Slack())
      ensures old(pool.Sure(1)) && id < |View()| ==> s == if id in old(pool.Reach()) then Ok else Error(BufferFull)
      ensures old(pool.Slack()) >= 0 && old(pool.Fuel()) >= 1 && id < |View()| ==> s.Ok?
    {
      hide Inv, FramesOk, RecencyOk, Cache, Contents, Frames.Table, QuietlyReaches, PinsOk, Count, Find, Well,
        Disciplined, Pinned, NamesKept, Pool.Slack, Pool.Residents, FetchStatus;
      if pool.Sure(1) && id < |View()| { pool.SureFetches(id); }
      StorageBound(pool.frames, pool.capacity, pool.clock, pool.storage.pages);
      s, h := pool.Fetch(id);
      if pool.sink != null { QuietKeepsDiscipline(old(pool.Abs(Idle)), pool.Abs(Idle), View(), use); }
      page := ZERO_PAGE;
      if s.Ok? {
        page := pool.frames[h.frame].data;
        assert pool.held - {h} == old(pool.held);
        FrameShowsView(pool.frames, h.frame, pool.capacity, pool.clock, pool.storage.pages);
      }
    }

    /** Gives the pin back. */
    method Drop(h: Handle)
      requires Valid() && h.pool == pool && h in pool.held
      modifies pool`frames, pool`held, h
      ensures Valid() && View() == old(View()) && pool.held == old(pool.held) - {h}
      ensures pool.Residents() == old(pool.Residents()) && pool.Slack() == old(pool.Slack())
    {
      hide Inv, FramesOk, RecencyOk, Cache, Contents, Frames.Table, QuietlyReaches, PinsOk, Count, Find, Well,
        Disciplined, Pinned, NamesKept, Pool.Slack, Pool.Residents;
      var s := pool.Release(h);
      if pool.sink != null { QuietKeepsDiscipline(old(pool.Abs(Idle)), pool.Abs(Idle), View(), use); }
    }

    /** Loads the directory rooted at a page of any file, well formed or not. */
    method Load(root: nat) returns (s: Status, ids: seq<nat>, lastDir: nat, lastCount: nat, ghost chain: seq<nat>)
      requires pool.Valid() && root != INVALID_ID
      modifies pool`frames, pool`clock, pool`held, pool`recency, pool.storage, pool.sink
      ensures pool.Valid() && (old(Valid()) ==> Valid()) && View() == old(View()) && pool.held == old(pool.held)
      ensures s.Ok? ==>
                && TableChain(View(), root, chain)
                && ids == Directory.Ids(AllEntries(Kind.Directory, View(), chain))
                && lastDir == Last(chain) && lastCount == CountOf(View()[lastDir])
      ensures s == Error(NeverReturns) ==> |View()| == UNGUARDED && Endless(Kind.Directory, View(), root)
      ensures
        && pool.clock <= old(pool.clock) + WalkCost(|View()|)
        && (old(pool.Slack()) >= 0 ==> pool.Slack() == old(pool.Slack()))
      ensures old(pool.Slack()) >= 0 && old(pool.Fuel()) >= WalkCost(|View()|) ==>
                && (s.Ok? <==> TableOpens(View(), root))
                && (s == Error(NeverReturns) <==> |View()| == UNGUARDED && Endless(Kind.Directory, View(), root))
    {
      hide Inv, FramesOk, RecencyOk, Cache, Contents, Frames.Table, QuietlyReaches, PinsOk, Count, Find, Well,
        Disciplined, TableChain, TableOpens, AllEntries, CountOf, Pool.Slack, Endless;
      s, ids, lastDir, lastCount, chain := Directory.Load(pool, root);
      if old(Valid()) { StillValid(); }
    }

    /** Writes a later image of a pinned page. */
    method Store(h: Handle, id: nat, image: Page)
      requires Valid() && Holding(h, id) && id < |View()|
      requires
        && id < |use| && use[id] != Header && Precedes(use[id], View()[id], image) && Precedes(use[id], image, image)
      requires Well(View()[id := image], use)
      modifies pool`frames
      ensures Valid() && Holding(h, id) && View() == old(View())[id := image]
      ensures pool.Slack() >= old(pool.Slack()) - L.RECORD_SIZE && pool.Residents() == old(pool.Residents())
    {
      hide Inv, FramesOk, RecencyOk, Cache, Contents, Frames.Table, PinsOk, Count, Find, Well, Disciplined, Precedes,
        Pool.Slack, Pool.Residents;
      ghost var a := if pool.sink != null then Some(pool.Abs(Idle)) else None;
      WellSize(View(), use);
      pool.Write(h, image);
      pool.ResidentsStay();
      if pool.sink != null {
        LogicalIsView(a.value, old(pool.frames), old(pool.storage.pages));
        StoreKeeps(a.value, pool.Abs(Idle), old(View()), use, id, image);
      }
    }

    /** Adds a page with its first image; a failed addition leaves at most an unused page behind. */
    method Add(image: Page, ghost u: Use) returns (s: Status, id: nat)
      requires Valid() && FirstImage(u, image)
      modifies pool.storage, this`use
      ensures Valid() && (s.Error? ==> s.code in {BadState, IoError})
      ensures s.Ok? ==> id == |old(View())| && View() == old(View()) + [image] && use == old(use) + [u]
      ensures s.Error? ==> Extends(old(View()), View(), old(use), use)
      ensures pool.Slack() == old(pool.Slack()) && (old(pool.Slack()) >= 0 ==> (s.Ok? <==> |old(View())| < INVALID_ID))
    {
      hide Inv, FramesOk, RecencyOk, Cache, Contents, Frames.Table, PinsOk, Count, Find, Well, Disciplined, Precedes,
        Pool.Slack;
      ghost var V := View();
      WellSize(V, use);
      s, id := pool.NewPage(image);
      if |View()| > |V| {
        ghost var v := if s.Ok? then u else Unused;
        use := use + [v];
        ghost var first := View()[|V|];
        assert View() == V + [first];
        StorageBound(pool.frames, pool.capacity, pool.clock, pool.storage.pages);
        AddKeeps(V, old(use), v, first);
        if pool.sink != null {
          LogicalIsView(old(pool.Abs(Idle)), old(pool.frames), old(pool.storage.pages));
          GrewKeeps(old(pool.Abs(Idle)), pool.Abs(Idle), V, old(use), v, first);
        }
      }
    }
  }

  /** An empty file behind a pool of one frame; no call can fail. */
  method OneFrame() returns (space: Space)
    ensures
      && fresh(space) && fresh(space.pool) && fresh(space.pool.storage) && space.pool.sink == null && space.Valid()
      && space.View() == []
    ensures space.pool.capacity == 1 && space.pool.Fuel() >= 7 && space.pool.Slack() >= 3 * L.RECORD_SIZE
  {
    hide Cache, Contents, FramesOk, RecencyOk, PinsOk, Count, Find;
    var storage := new Storage.PageStorage([], true);
    var pool := new Pool(storage, null, 1);
    space := new Space(pool, []);
    assert pool.held.Values == {};
    NothingIsWell();
  }

  lemma NothingIsWell()
    ensures Well([], [])
  {
  }

  /** At most one unused page was added. */
  predicate Extends(V: seq<Page>, W: seq<Page>, use: seq<Use>, used: seq<Use>) {
    || (W == V && used == use)
    || (|W| == |V| + 1 && W[..|V|] == V && used == use + [Unused])
  }

  /** The machine's logical pages are the pool's view. */
  lemma LogicalIsView(a: State, fs: seq<Frame>, pages: seq<Page>)
    requires a.pages == pages && a.cache == Cache(fs) && a.phase.Up?
    ensures Logical(a) == Contents(fs, pages)
  {
    hide Find, Table, Durable;
  }

  lemma StoreKeeps(a: State, b: State, V: seq<Page>, use: seq<Use>, p: nat, image: Page)
    requires Inv(a) && a.phase == Up(Idle) && V == Logical(a) && p < |V| == |use| && use[p] != Header
    requires Enabled(a, Mutate(p, image)) && b == Next(a, Mutate(p, image))
    requires Disciplined(a, V, use) && Precedes(use[p], V[p], image) && Precedes(use[p], image, image)
    ensures Disciplined(b, V[p := image], use)
  {
    hide Inv, Logical, Disciplined, Precedes;
    WriteKeepsDiscipline(a, V, use, p, image);
  }

  lemma GrewKeeps(a: State, b: State, V: seq<Page>, use: seq<Use>, u: Use, image: Page)
    requires Inv(a) && a.phase == Up(Idle) && V == Logical(a) && |V| == |use| < INVALID_ID && u != Header
    requires Disciplined(a, V, use) && Precedes(u, image, image)
    requires Grew(a, b) && |b.pages| == |V| + 1 && b.pages[|V|] == image
    ensures Disciplined(b, V + [image], use + [u])
  {
    hide Inv, Logical, Disciplined, Precedes;
    AddKeepsDiscipline(a, V, use, u, image);
    assert b.pages == a.pages + [image];
  }
}
