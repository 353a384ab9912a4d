/**
 A table's directory: the walk that loads it, exact for arbitrary page bytes,
 and what the loaded list has to do with the pages.
 */
module Directory {
  import opened Bytes
  import opened Results
  import opened CrashMachine
  import opened CrashSafety
  import opened Chain
  import opened Structure
  import opened Walk
  import opened BufferPool
  import opened Storage
  import opened TableRows
  import SP = SlottedPage

  /** The page ids a list of directory entries names. */
  function Ids(es: seq<seq<byte>>): (ids: seq<nat>)
    ensures |ids| == |es| && forall i :: 0 <= i < |es| ==> ids[i] == IdOf(es[i])
  {
    seq(|es|, i requires 0 <= i < |es| => IdOf(es[i]))
  }

  lemma IdsConcat(a: seq<seq<byte>>, b: seq<seq<byte>>)
    ensures Ids(a + b) == Ids(a) + Ids(b)
  {
  }

  lemma IdsOkConcat(V: seq<Page>, root: nat, a: seq<seq<byte>>, b: seq<seq<byte>>)
    ensures IdsOk(V, root, a + b) <==> IdsOk(V, root, a) && IdsOk(V, root, b)
  {
    hide IdOf;
    assert forall j :: 0 <= j < |a| ==> (a + b)[j] == a[j];
    assert forall j :: 0 <= j < |b| ==> (a + b)[|a| + j] == b[j];
  }

  // ---- the walk ------------------------------------------------------------------

  /** Checks one directory page's entries and returns the ids. */
  method ReadIds(storage: PageStorage, page: Page, root: nat, ghost V: seq<Page>) returns (s: Status, ids: seq<nat>)
    requires HeaderOk(Kind.Directory, page) && |V| == |storage.pages|
    ensures s.Ok? ==> IdsOk(V, root, Entries(Kind.Directory, page)) && ids == Ids(Entries(Kind.Directory, page))
    ensures s.Error? ==> s == Error(BadState)
    ensures storage.reliable && storage.open ==> (s.Ok? <==> IdsOk(V, root, Entries(Kind.Directory, page)))
  {
    hide U32, EntryAt;
    ids := [];
    ghost var es := Entries(Kind.Directory, page);
    for i := 0 to CountOf(page)
      invariant IdsOk(V, root, es[..i]) && ids == Ids(es[..i])
    {
      var id := IdAt(page, i);
      assert es[..i + 1] == es[..i] + [es[i]];
      if id == INVALID_ID || id == root { return Error(BadState), ids; }
      var there := storage.PageExists(id);
      if !there { return Error(BadState), ids; }
      ids := ids + [id];
    }
    assert es[..|es|] == es;
    return Ok, ids;
  }

  /** The i-th id of a directory page. */
  function IdAt(page: Page, i: nat): (id: nat)
    requires i < Capacity(Kind.Directory)
    ensures id == IdOf(EntryAt(Kind.Directory, page, i))
  {
    U32(page, HEADER_SIZE + i * 4)
  }

  /**
   Loads the directory from its root. Success returns the one terminated chain
   that leaves the root and everything it lists. When no call can fail, it
   succeeds exactly if there is a chain that passes the checks, and it does not
   return exactly if the walk is endless in a file of 2^32 - 3 pages.
   */
  method Load(pool: Pool, root: nat)
    returns (s: Status, ids: seq<nat>, lastDir: nat, lastCount: nat, ghost chain: seq<nat>)
    requires pool.Valid() && root != INVALID_ID
    modifies pool`frames, pool`clock, pool`held, pool`recency, pool.storage, pool.sink
    ensures pool.Valid() && pool.View() == old(pool.View()) && pool.Quietly() && pool.held == old(pool.held)
    ensures s.Ok? ==>
              && TableChain(pool.View(), root, chain)
              && ids == Ids(AllEntries(Kind.Directory, pool.View(), chain))
              && lastDir == Last(chain) && lastCount == CountOf(pool.View()[lastDir])
    ensures s == Error(NeverReturns) ==> |pool.View()| == UNGUARDED && Endless(Kind.Directory, pool.View(), root)
    ensures
      && pool.clock <= old(pool.clock) + WalkCost(|pool.View()|)
      && (old(pool.Slack()) >= 0 ==> pool.Slack() == old(pool.Slack()))
    ensures old(pool.Slack()) >= 0 && old(pool.Fuel()) >= WalkCost(|pool.View()|) ==>
              && (s.Ok? <==> TableOpens(pool.View(), root))
              && (s == Error(NeverReturns) <==>
                  |pool.View()| == UNGUARDED && Endless(Kind.Directory, pool.View(), root))
  {
    hide Inv, QuietlyReaches, HeaderOk, TableOpens, Pool.Valid, Pool.View, TableChain, Standing, Endless, Entries,
      NextOf, CountOf, AllEntries, Ids, IdsOk, DirectoryPage, Pool.Slack, MaxWalk, Counted, Limit, IdsListed;
    ids, lastDir, lastCount, chain := [], INVALID_ID, 0, [];
    ghost var V := pool.View();
    pool.ViewSize();
    if pool.sink != null { QuietRefl(pool.Abs(Idle)); }
    if pool.Slack() >= 0 { pool.SlackMeans(); }
    var total;
    s, total := pool.storage.NumPages();
    if s.Error? { return; }
    var maxWalk := MaxWalk(total);
    var dir: nat, prev: nat, walked: nat, steps: nat := root, INVALID_ID, 0, 0;
    AtRoot(V, root, total);
    while true
      invariant pool.Valid() && pool.View() == V && pool.Quietly() && pool.held == old(pool.held)
      invariant steps == |chain| && Counted(total, steps, walked)
      invariant Standing(Kind.Directory, V, root, chain, dir, prev) && IdsListed(V, chain, ids)
      invariant pool.clock <= old(pool.clock) + steps && (old(pool.Slack()) >= 0 ==> pool.Slack() == old(pool.Slack()))
      decreases Limit(total) - steps
    {
      CountedStep(total, steps, walked);
      AtPage(V, root, chain, dir, prev, ids);
      // The step counter is the code's only other way out of a ring, and at this size it has none.
      if total == UNGUARDED && steps == 2 * total + 1 {
        return Error(NeverReturns), ids, lastDir, lastCount, chain;
      }
      if walked > maxWalk { return Error(BadState), ids, lastDir, lastCount, chain; }
      walked, steps := (walked + 1) % WRAP, steps + 1;
      var more, count, next;
      label Before:
      s, more, count, next := Visit(pool, dir, root);
      if pool.sink != null { QuietTrans(old(pool.Abs(Idle)), old@Before(pool.Abs(Idle)), pool.Abs(Idle)); }
      if s.Error? { return; }
      ids, lastDir, lastCount, chain := ids + more, dir, count, chain + [dir];
      if next == INVALID_ID { return; }
      if next == dir || next == prev { return Error(BadState), ids, lastDir, lastCount, chain; }
      prev, dir := dir, next;
    }
  }

  lemma AtRoot(V: seq<Page>, root: nat, total: nat)
    ensures Standing(Kind.Directory, V, root, [], root, INVALID_ID) && IdsListed(V, [], []) && Counted(total, 0, 0)
  {
    hide Counted;
    CountedStart(total);
  }

  /** What is known of the page a directory walk stands at. */
  lemma AtPage(V: seq<Page>, root: nat, w: seq<nat>, dir: nat, prev: nat, ids: seq<nat>)
    requires
      && |V| <= INVALID_ID && root != INVALID_ID && Standing(Kind.Directory, V, root, w, dir, prev)
      && IdsListed(V, w, ids)
    ensures DirectoryPage(V, dir, root) ==>
              var next, c := NextOf(V[dir]), w + [dir];
              && dir < |V| && HeaderOk(Kind.Directory, V[dir])
              && IdsListed(V, c, ids + Ids(Entries(Kind.Directory, V[dir]))) && Last(c) == dir
              && (next == INVALID_ID && (|w| <= MaxWalk(|V|) || |V| == UNGUARDED) ==>
                    TableChain(V, root, c) && TableOpens(V, root)
                        && ids + Ids(Entries(Kind.Directory, V[dir])) == Ids(AllEntries(Kind.Directory, V, c)))
              && (next != INVALID_ID && next != dir && next != prev ==> Standing(Kind.Directory, V, root, c, next, dir))
              && (next != INVALID_ID && (next == dir || next == prev) ==> !TableOpens(V, root))
              && (next == INVALID_ID || next == dir || next == prev ==> !Endless(Kind.Directory, V, root))
    ensures !DirectoryPage(V, dir, root) ==> !TableOpens(V, root) && !Endless(Kind.Directory, V, root)
    ensures |w| > MaxWalk(|V|) ==> !TableOpens(V, root)
    ensures |w| == 2 * |V| + 1 ==> Endless(Kind.Directory, V, root) && !TableOpens(V, root)
  {
    hide HeaderOk, NextOf, Entries, AllEntries, IdsOk, Passes, Endless, Accepts, Onward, TableOpens, TableChain,
      GoodChain, DirectoryPage, Ids;
    OnGoodChain(Kind.Directory, V, root, w, dir, prev);
    OnEndless(Kind.Directory, V, root, w, dir, prev);
    TableIsGood(V, root);
    PagePasses(V, root, w, dir, prev);
    if |w| == 2 * |V| + 1 { CameRound(Kind.Directory, V, root, w, dir, prev); }
    if DirectoryPage(V, dir, root) {
      StandNext(Kind.Directory, V, root, w, dir, prev);
      IdsConcat(AllEntries(Kind.Directory, V, w), Entries(Kind.Directory, V[dir]));
      if NextOf(V[dir]) == INVALID_ID && (|w| <= MaxWalk(|V|) || |V| == UNGUARDED) {
        assert TableChain(V, root, w + [dir]);
        ChainIsAccepted(Kind.Directory, V, root, w + [dir]);
      }
    }
  }

  /** One page of the walk: fetched, validated, its ids checked. */
  method Visit(pool: Pool, dir: nat, root: nat) returns (s: Status, ids: seq<nat>, count: nat, next: nat)
    requires pool.Valid()
    modifies pool`frames, pool`clock, pool`held, pool`recency, pool.storage, pool.sink
    ensures pool.Valid() && pool.View() == old(pool.View()) && pool.Quietly() && pool.held == old(pool.held)
    ensures s.Ok? ==>
              && DirectoryPage(pool.View(), dir, root) && ids == Ids(Entries(Kind.Directory, pool.View()[dir]))
              && count == CountOf(pool.View()[dir]) && next == NextOf(pool.View()[dir])
    ensures s != Error(NeverReturns)
    ensures pool.clock <= old(pool.clock) + 1 && (old(pool.Slack()) >= 0 ==> pool.Slack() == old(pool.Slack()))
    ensures old(pool.Slack()) >= 0 && old(pool.Fuel()) >= 1 ==> (s.Ok? <==> DirectoryPage(pool.View(), dir, root))
  {
    hide Inv, QuietlyReaches, HeaderOk, Pool.Valid, Pool.View, Entries, NextOf, CountOf, Ids, IdsOk, Pool.Slack,
      FetchStatus;
    ids, count, next := [], 0, INVALID_ID;
    ghost var V := pool.View();
    pool.ViewSize();
    ghost var sure := pool.Slack() >= 0 && pool.Fuel() >= 1;
    if sure && dir < |V| { pool.FuelFetches(dir); }
    var page;
    s, page := pool.Peek(dir);
    if s.Error? { return; }
    if !HeaderOk(Kind.Directory, page) { return Error(InvalidArgument), ids, count, next; }
    pool.ViewSize();
    if sure { pool.SlackMeans(); }
    s, ids := ReadIds(pool.storage, page, root, V);
    count, next := CountOf(page), NextOf(page);
  }

  /** The page is there, validates, and lists existing pages other than the root. */
  predicate DirectoryPage(V: seq<Page>, dir: nat, root: nat) {
    dir < |V| && HeaderOk(Kind.Directory, V[dir]) && IdsOk(V, root, Entries(Kind.Directory, V[dir]))
  }

  /** The ids are those the pages of the path list. */
  predicate IdsListed(V: seq<Page>, c: seq<nat>, ids: seq<nat>) {
    && (forall i :: 0 <= i < |c| ==> c[i] < |V| && HeaderOk(Kind.Directory, V[c[i]]))
    && ids == Ids(AllEntries(Kind.Directory, V, c))
  }

  lemma TableIsGood(V: seq<Page>, root: nat)
    ensures TableOpens(V, root) <==> Accepts(Kind.Directory, V, root)
    ensures forall c :: TableChain(V, root, c) <==> GoodChain(Kind.Directory, V, root, c)
  {
    hide IsChain, AllEntries, IdsOk;
    if c: seq<nat> :| TableChain(V, root, c) {
      assert GoodChain(Kind.Directory, V, root, c);
    }
    if c: seq<nat> :| GoodChain(Kind.Directory, V, root, c) {
      assert TableChain(V, root, c);
    }
  }

  /** The ids of the pages before have passed, so the next page is all there is to check. */
  lemma PagePasses(V: seq<Page>, root: nat, w: seq<nat>, dir: nat, prev: nat)
    requires Standing(Kind.Directory, V, root, w, dir, prev)
    ensures DirectoryPage(V, dir, root) <==>
            && dir < |V| && HeaderOk(Kind.Directory, V[dir])
            && (forall i :: 0 <= i < |w| ==> w[i] < |V| && HeaderOk(Kind.Directory, V[w[i]]))
            && Passes(Kind.Directory, V, root, AllEntries(Kind.Directory, V, w) + Entries(Kind.Directory, V[dir]))
  {
    hide HeaderOk, NextOf, Entries, AllEntries, IdsOk;
    if dir < |V| && HeaderOk(Kind.Directory, V[dir]) {
      IdsOkConcat(V, root, AllEntries(Kind.Directory, V, w), Entries(Kind.Directory, V[dir]));
    }
  }
}
