/**
 The catalog: a chain of pages that maps table names to directory roots. The
 walk that loads it is exact for arbitrary page bytes; creating a table adds
 exactly one name.
 */
module Catalog {
  import opened Bytes
  import opened Results
  import opened CrashMachine
  import opened CrashSafety
  import opened Chain
  import opened Structure
  import opened Walk
  import opened CrashConsistency
  import opened BufferPool
  import opened PageSpace
  import opened LinkedPages
  import L = LogFormat
  import HeapTable
  import Directory
  import SP = SlottedPage

  datatype TableEntry = TableEntry(name: seq<byte>, root: nat)

  function TableOf(e: seq<byte>): TableEntry
    requires |e| == 36 && NameOf(e).Some?
  {
    TableEntry(NameOf(e).value, RootOf(e))
  }

  /** The tables a list of valid entries names. */
  function Tables(es: seq<seq<byte>>): (ts: seq<TableEntry>)
    requires NamesOk(es)
    ensures |ts| == |es| && forall i :: 0 <= i < |es| ==> ts[i] == TableOf(es[i])
  {
    seq(|es|, i requires 0 <= i < |es| => TableOf(es[i]))
  }

  lemma NamesOkPrefix(es: seq<seq<byte>>, n: nat)
    requires NamesOk(es) && n <= |es|
    ensures NamesOk(es[..n]) && Tables(es[..n]) == Tables(es)[..n]
  {
    hide NameOf, RootOf, ValidName;
  }

  /** When one more entry keeps the list acceptable. */
  predicate EntryFits(es: seq<seq<byte>>, e: seq<byte>) {
    && |e| == 36 && NameOf(e).Some? && ValidName(NameOf(e).value) && RootOf(e) != INVALID_ID
    && forall i :: 0 <= i < |es| ==> |es[i]| == 36 && NameOf(es[i]) != NameOf(e)
  }

  lemma NamesOkSnoc(es: seq<seq<byte>>, e: seq<byte>)
    requires NamesOk(es)
    ensures NamesOk(es + [e]) <==> EntryFits(es, e)
    ensures EntryFits(es, e) ==> Tables(es + [e]) == Tables(es) + [TableOf(e)]
  {
    hide NameOf, RootOf, ValidName;
    var all := es + [e];
    assert all[|es|] == e && forall i :: 0 <= i < |es| ==> all[i] == es[i];
    if NamesOk(all) {
      forall i | 0 <= i < |es|
        ensures NameOf(es[i]) != NameOf(e)
      {
        assert NameOf(all[i]) != NameOf(all[|es|]);
      }
    }
  }

  // ---- loading ---------------------------------------------------------------------

  /** A valid table name: one to 31 letters, digits and underscores. */
  method IsValidTableName(name: seq<byte>) returns (ok: bool)
    ensures ok <==> ValidName(name)
  {
    if name == [] || |name| > NAME_SIZE - 1 { return false; }
    for i := 0 to |name|
      invariant forall j :: 0 <= j < i ==> NameByte(name[j])
    {
      if !NameByte(name[i]) { return false; }
    }
    return true;
  }

  method HasName(found: seq<TableEntry>, name: seq<byte>) returns (yes: bool)
    ensures yes <==> Named(found, name)
  {
    for i := 0 to |found|
      invariant forall j :: 0 <= j < i ==> found[j].name != name
    {
      if found[i].name == name { return true; }
    }
    return false;
  }

  /** Checks one page's entries against those found before. */
  method ReadEntries(page: Page, found: seq<TableEntry>, ghost raw: seq<seq<byte>>)
    returns (s: Status, tables: seq<TableEntry>)
    requires HeaderOk(Kind.Catalog, page) && NamesOk(raw) && found == Tables(raw)
    ensures s.Ok? ==> NamesOk(raw + Entries(Kind.Catalog, page)) && tables == Tables(raw + Entries(Kind.Catalog, page))
    ensures s.Error? ==> s == Error(BadState) && !NamesOk(raw + Entries(Kind.Catalog, page))
  {
    hide CountOf, EntryAt, NameOf, RootOf, ValidName, NamesOk, EntryFits, Tables, HeaderOk;
    tables := found;
    ghost var es := Entries(Kind.Catalog, page);
    assert raw + es[..0] == raw;
    CountBound(Kind.Catalog, page);
    for i := 0 to CountOf(page)
      invariant NamesOk(raw + es[..i]) && tables == Tables(raw + es[..i])
    {
      var e := EntryAt(Kind.Catalog, page, i);
      EntryStep(raw, es, i);
      var name := NameOf(e);
      if name.None? { return Error(BadState), tables; }
      var valid := IsValidTableName(name.value);
      if !valid { return Error(BadState), tables; }
      var taken := HasName(tables, name.value);
      if taken { return Error(BadState), tables; }
      if RootOf(e) == INVALID_ID { return Error(BadState), tables; }
      tables := tables + [TableEntry(name.value, RootOf(e))];
    }
    assert es[..|es|] == es;
    return Ok, tables;
  }

  /** What the next entry has to pass for the list to stay acceptable. */
  lemma EntryStep(raw: seq<seq<byte>>, es: seq<seq<byte>>, i: nat)
    requires i < |es| && NamesOk(raw + es[..i]) && |es[i]| == 36
    ensures NamesOk(raw + es) ==> NamesOk(raw + es[..i + 1])
    ensures NamesOk(raw + es[..i + 1]) <==>
              && NameOf(es[i]).Some? && ValidName(NameOf(es[i]).value) && RootOf(es[i]) != INVALID_ID
              && !Named(Tables(raw + es[..i]), NameOf(es[i]).value)
    ensures NamesOk(raw + es[..i + 1]) ==> Tables(raw + es[..i + 1]) == Tables(raw + es[..i]) + [TableOf(es[i])]
  {
    hide NameOf, RootOf, ValidName, NamesOk, Tables;
    assert raw + es[..i + 1] == raw + es[..i] + [es[i]];
    NamesOkSnoc(raw + es[..i], es[i]);
    Prefixed(raw + es, |raw| + i + 1);
    assert (raw + es)[..|raw| + i + 1] == raw + es[..i + 1];
    if NameOf(es[i]).Some? { FoundNames(raw + es[..i], es[i]); }
  }

  /** Some table has this name. */
  predicate Named(tables: seq<TableEntry>, name: seq<byte>) {
    exists i :: 0 <= i < |tables| && tables[i].name == name
  }

  /** An acceptable list is acceptable up to any point. */
  lemma Prefixed(es: seq<seq<byte>>, n: nat)
    requires n <= |es|
    ensures NamesOk(es) ==> NamesOk(es[..n])
  {
    if NamesOk(es) { NamesOkPrefix(es, n); }
  }

  lemma FoundNames(es: seq<seq<byte>>, e: seq<byte>)
    requires NamesOk(es) && |e| == 36 && NameOf(e).Some?
    ensures forall i :: 0 <= i < |es| ==> |es[i]| == 36
    ensures Named(Tables(es), NameOf(e).value) <==>
              exists i :: 0 <= i < |es| && |es[i]| == 36 && NameOf(es[i]) == NameOf(e)
  {
    hide NameOf, RootOf, ValidName;
    forall i | 0 <= i < |es|
      ensures |es[i]| == 36 && (NameOf(es[i]) == NameOf(e) <==> Tables(es)[i].name == NameOf(e).value)
    {
    }
  }

  /** The tables are those the entries on the pages of the path name. */
  predicate Found(V: seq<Page>, c: seq<nat>, tables: seq<TableEntry>) {
    && (forall i :: 0 <= i < |c| ==> c[i] < |V| && HeaderOk(Kind.Catalog, V[c[i]]))
    && NamesOk(AllEntries(Kind.Catalog, V, c)) && tables == Tables(AllEntries(Kind.Catalog, V, c))
  }

  /** The page is there, validates, and its entries are acceptable behind those of the pages before. */
  predicate PageFits(V: seq<Page>, page: nat, raw: seq<seq<byte>>) {
    page < |V| && HeaderOk(Kind.Catalog, V[page]) && NamesOk(raw + Entries(Kind.Catalog, V[page]))
  }

  lemma AtRoot(V: seq<Page>, root: nat, total: nat)
    ensures Standing(Kind.Catalog, V, root, [], root, INVALID_ID) && Found(V, [], []) && Counted(total, 0, 0)
  {
    hide Counted;
    CountedStart(total);
  }

  /** What is known of the page a catalog walk stands at. */
  lemma AtPage(V: seq<Page>, root: nat, w: seq<nat>, page: nat, prev: nat, tables: seq<TableEntry>)
    returns (raw: seq<seq<byte>>)
    requires
      && |V| <= INVALID_ID && root != INVALID_ID && Standing(Kind.Catalog, V, root, w, page, prev)
      && Found(V, w, tables)
    ensures NamesOk(raw) && tables == Tables(raw)
    ensures PageFits(V, page, raw) ==>
              var next, c := NextOf(V[page]), w + [page];
              && page < |V| && HeaderOk(Kind.Catalog, V[page])
              && Found(V, c, Tables(raw + Entries(Kind.Catalog, V[page]))) && Last(c) == page
              && (next == INVALID_ID && (|w| <= MaxWalk(|V|) || |V| == UNGUARDED) ==>
                    NamedChain(V, root, c, Tables(raw + Entries(Kind.Catalog, V[page])))
                        && Accepts(Kind.Catalog, V, root))
              && (next != INVALID_ID && next != page && next != prev ==> Standing(Kind.Catalog, V, root, c, next, page))
              && (next != INVALID_ID && (next == page || next == prev) ==> !Accepts(Kind.Catalog, V, root))
              && (next == INVALID_ID || next == page || next == prev ==> !Endless(Kind.Catalog, V, root))
    ensures !PageFits(V, page, raw) ==> !Accepts(Kind.Catalog, V, root) && !Endless(Kind.Catalog, V, root)
    ensures |w| > MaxWalk(|V|) ==> !Accepts(Kind.Catalog, V, root)
    ensures |w| == 2 * |V| + 1 ==> Endless(Kind.Catalog, V, root) && !Accepts(Kind.Catalog, V, root)
  {
    hide HeaderOk, NextOf, Entries, AllEntries, NamesOk, Endless, Accepts, Onward, Tables, IsChain;
    raw := AllEntries(Kind.Catalog, V, w);
    OnGoodChain(Kind.Catalog, V, root, w, page, prev);
    OnEndless(Kind.Catalog, V, root, w, page, prev);
    if |w| == 2 * |V| + 1 { CameRound(Kind.Catalog, V, root, w, page, prev); }
    if PageFits(V, page, raw) {
      StandNext(Kind.Catalog, V, root, w, page, prev);
      if NextOf(V[page]) == INVALID_ID && (|w| <= MaxWalk(|V|) || |V| == UNGUARDED) {
        ChainIsAccepted(Kind.Catalog, V, root, w + [page]);
      }
    }
  }

  /** One page of the walk: fetched, validated, its entries checked against those found before. */
  method Visit(pool: Pool, page: nat, found: seq<TableEntry>, ghost raw: seq<seq<byte>>)
    returns (s: Status, tables: seq<TableEntry>, count: nat, next: nat)
    requires pool.Valid() && NamesOk(raw) && found == Tables(raw)
    modifies pool`frames, pool`clock, pool`held, pool`recency, pool.storage, pool.sink
    ensures pool.Valid() && pool.View() == old(pool.View()) && pool.Quietly() && pool.held == old(pool.held)
    ensures s.Ok? ==>
              && PageFits(pool.View(), page, raw) && tables == Tables(raw + Entries(Kind.Catalog, pool.View()[page]))
              && count == CountOf(pool.View()[page]) && next == NextOf(pool.View()[page])
    ensures s != Error(NeverReturns)
    ensures pool.clock <= old(pool.clock) + 1 && (old(pool.Slack()) >= 0 ==> pool.Slack() == old(pool.Slack()))
    ensures old(pool.Slack()) >= 0 && old(pool.Fuel()) >= 1 ==> (s.Ok? <==> PageFits(pool.View(), page, raw))
  {
    hide Inv, QuietlyReaches, HeaderOk, Pool.Valid, Pool.View, Entries, NextOf, CountOf, NamesOk, Tables, Pool.Slack,
      FetchStatus;
    tables, count, next := found, 0, INVALID_ID;
    pool.ViewSize();
    if pool.Slack() >= 0 && pool.Fuel() >= 1 && page < |pool.View()| { pool.FuelFetches(page); }
    var image;
    s, image := pool.Peek(page);
    if s.Error? { return; }
    if !HeaderOk(Kind.Catalog, image) { return Error(InvalidArgument), tables, count, next; }
    s, tables := ReadEntries(image, found, raw);
    count, next := CountOf(image), NextOf(image);
  }

  /** Walks the chain and collects its entries; the tables they name are not looked at yet. */
  method LoadChain(pool: Pool, root: nat)
    returns (s: Status, tables: seq<TableEntry>, lastPage: nat, lastCount: nat, ghost chain: seq<nat>)
    requires pool.Valid() && root != INVALID_ID
    modifies pool`frames, pool`clock, pool`held, pool`recency, pool.storage, pool.sink
    ensures pool.Valid() && pool.View() == old(pool.View()) && pool.Quietly() && pool.held == old(pool.held)
    ensures s.Ok? ==>
              && NamedChain(pool.View(), root, chain, tables)
              && lastPage == Last(chain) && lastCount == CountOf(pool.View()[lastPage])
    ensures s == Error(NeverReturns) ==> |pool.View()| == UNGUARDED && Endless(Kind.Catalog, pool.View(), root)
    ensures
      && pool.clock <= old(pool.clock) + WalkCost(|pool.View()|)
      && (old(pool.Slack()) >= 0 ==> pool.Slack() == old(pool.Slack()))
    ensures old(pool.Slack()) >= 0 && old(pool.Fuel()) >= WalkCost(|pool.View()|) ==>
              && (s.Ok? <==> Accepts(Kind.Catalog, pool.View(), root))
              && (s == Error(NeverReturns) <==> |pool.View()| == UNGUARDED && Endless(Kind.Catalog, pool.View(), root))
  {
    hide Inv, QuietlyReaches, HeaderOk, Pool.Valid, Pool.View, NamedChain, Standing, Endless, Accepts, Entries, NextOf,
      CountOf, AllEntries, NamesOk, Tables, PageFits, Pool.Slack, MaxWalk, Counted, Limit, Found;
    tables, lastPage, lastCount, chain := [], INVALID_ID, 0, [];
    ghost var V := pool.View();
    pool.ViewSize();
    if pool.sink != null { QuietRefl(pool.Abs(Idle)); }
    if pool.Slack() >= 0 { pool.SlackMeans(); }
    var total;
    s, total := pool.storage.NumPages();
    if s.Error? { return; }
    var maxWalk := MaxWalk(total);
    var page: nat, prev: nat, walked: nat, steps: nat := root, INVALID_ID, 0, 0;
    AtRoot(V, root, total);
    while true
      invariant pool.Valid() && pool.View() == V && pool.Quietly() && pool.held == old(pool.held)
      invariant steps == |chain| && Counted(total, steps, walked)
      invariant Standing(Kind.Catalog, V, root, chain, page, prev) && Found(V, chain, tables)
      invariant pool.clock <= old(pool.clock) + steps && (old(pool.Slack()) >= 0 ==> pool.Slack() == old(pool.Slack()))
      decreases Limit(total) - steps
    {
      CountedStep(total, steps, walked);
      ghost var raw := AtPage(V, root, chain, page, prev, tables);
      // The step counter is the code's only other way out of a ring, and at this size it has none.
      if total == UNGUARDED && steps == 2 * total + 1 {
        return Error(NeverReturns), tables, lastPage, lastCount, chain;
      }
      if walked > maxWalk { return Error(BadState), tables, lastPage, lastCount, chain; }
      walked, steps := (walked + 1) % WRAP, steps + 1;
      var all, count, next;
      label Before:
      s, all, count, next := Visit(pool, page, tables, raw);
      if pool.sink != null { QuietTrans(old(pool.Abs(Idle)), old@Before(pool.Abs(Idle)), pool.Abs(Idle)); }
      if s.Error? { return; }
      tables, lastPage, lastCount, chain := all, page, count, chain + [page];
      if next == INVALID_ID { return; }
      if next == page || next == prev { return Error(BadState), tables, lastPage, lastCount, chain; }
      prev, page := page, next;
    }
  }

  /** A terminated chain from the root whose entries name the tables and pass the entry checks. */
  predicate NamedChain(V: seq<Page>, root: nat, c: seq<nat>, tables: seq<TableEntry>) {
    && IsChain(Kind.Catalog, V, c) && c[0] == root && |c| - 1 <= MaxWalk(|V|)
    && NamesOk(AllEntries(Kind.Catalog, V, c)) && tables == Tables(AllEntries(Kind.Catalog, V, c))
  }

  /** Opens every table the entries name. */
  method CheckTables(pool: Pool, tables: seq<TableEntry>) returns (s: Status)
    requires pool.Valid() && forall j :: 0 <= j < |tables| ==> tables[j].root != INVALID_ID
    modifies pool`frames, pool`clock, pool`held, pool`recency, pool.storage, pool.sink
    ensures pool.Valid() && pool.View() == old(pool.View()) && pool.Quietly() && pool.held == old(pool.held)
    ensures s.Ok? ==> AllOpen(pool.View(), tables)
    ensures s == Error(NeverReturns) ==>
              |pool.View()| == UNGUARDED && exists j ::
                  0 <= j < |tables| && Endless(Kind.Directory, pool.View(), tables[j].root)
    ensures pool.clock <= old(pool.clock) + Visits(|pool.View()|, |tables|)
    ensures old(pool.Slack()) >= 0 ==> pool.Slack() == old(pool.Slack())
    ensures old(pool.Slack()) >= 0 && old(pool.Fuel()) >= Visits(|pool.View()|, |tables|) ==>
              (s.Ok? <==> AllOpen(pool.View(), tables))
  {
    hide Inv, QuietlyReaches, Pool.Valid, Pool.View, TableOpens, TableChain, AllEntries, Directory.Ids, CountOf,
      Pool.Slack, WalkCost, Endless;
    if pool.sink != null { QuietRefl(pool.Abs(Idle)); }
    ghost var V := pool.View();
    for i := 0 to |tables|
      invariant pool.Valid() && pool.View() == V && pool.Quietly() && pool.held == old(pool.held)
      invariant AllOpen(V, tables[..i])
      invariant
        && pool.clock <= old(pool.clock) + Visits(|V|, i)
        && (old(pool.Slack()) >= 0 ==> pool.Slack() == old(pool.Slack()))
    {
      pool.ViewSize();
      VisitsGrow(|V|, i + 1, |tables|);
      if pool.Slack() >= 0 { pool.SlackMeans(); }
      var yes := pool.storage.PageExists(tables[i].root);
      if !yes { return Error(BadState); }
      label Before:
      var ids, lastDir, lastCount; ghost var chain;
      s, ids, lastDir, lastCount, chain := Directory.Load(pool, tables[i].root);
      if pool.sink != null { QuietTrans(old(pool.Abs(Idle)), old@Before(pool.Abs(Idle)), pool.Abs(Idle)); }
      if s == Error(NeverReturns) { return s; }
      if s.Error? { return Error(BadState); }
      Opened(V, tables[i].root, chain);
    }
    return Ok;
  }

  /** The most fetches that opening so many tables of a file takes. */
  function Visits(pageCount: nat, tables: nat): nat {
    if tables == 0 then 0 else Visits(pageCount, tables - 1) + WalkCost(pageCount)
  }

  lemma {:induction false} VisitsGrow(pageCount: nat, a: nat, b: nat)
    requires a <= b
    ensures Visits(pageCount, a) <= Visits(pageCount, b)
    decreases b
  {
    if a < b { VisitsGrow(pageCount, a, b - 1); }
  }

  /**
   The most fetches that loading the catalog of a file takes: its chain, then
   every table its pages have room to name.
   */
  function CatalogCost(pageCount: nat): nat {
    WalkCost(pageCount) + Visits(pageCount, Capacity(Kind.Catalog) * pageCount)
  }

  /** There is fuel for that in every pool with a frame to spare. */
  lemma CostBound(pageCount: nat)
    requires pageCount <= INVALID_ID
    ensures CatalogCost(pageCount) <= PLENTY
  {
    hide WalkCost;
    VisitsBound(pageCount, Capacity(Kind.Catalog) * pageCount);
    WalkBound(pageCount);
  }

  lemma WalkBound(pageCount: nat)
    requires pageCount <= INVALID_ID
    ensures WalkCost(pageCount) <= 0x2_0000_0002
  {
  }

  lemma {:induction false} VisitsBound(pageCount: nat, tables: nat)
    requires pageCount <= INVALID_ID
    ensures Visits(pageCount, tables) <= tables * 0x2_0000_0002
  {
    hide WalkCost;
    if tables > 0 {
      VisitsBound(pageCount, tables - 1);
      WalkBound(pageCount);
    }
  }

  lemma {:induction false} EntriesBound(V: seq<Page>, c: seq<nat>)
    requires forall i :: 0 <= i < |c| ==> c[i] < |V| && HeaderOk(Kind.Catalog, V[c[i]])
    ensures |AllEntries(Kind.Catalog, V, c)| <= Capacity(Kind.Catalog) * |c|
  {
    hide HeaderOk, CountOf;
    if c != [] {
      EntriesBound(V, c[..|c| - 1]);
      CountBound(Kind.Catalog, V[Last(c)]);
    }
  }

  lemma TablesBound(V: seq<Page>, root: nat, c: seq<nat>, tables: seq<TableEntry>)
    requires |V| <= INVALID_ID && NamedChain(V, root, c, tables)
    ensures WalkCost(|V|) + Visits(|V|, |tables|) <= CatalogCost(|V|)
  {
    hide HeaderOk, NextOf, AllEntries, NamesOk, Tables, WalkCost, MaxWalk, Visits;
    assert |tables| <= Capacity(Kind.Catalog) * |V| by {
      ChainFits(Kind.Catalog, V, c);
      EntriesBound(V, c);
      assert |tables| <= 113 * |c| <= 113 * |V|;
    }
    hide NamedChain, IsChain;
    VisitsGrow(|V|, |tables|, Capacity(Kind.Catalog) * |V|);
  }

  ghost predicate AllOpen(V: seq<Page>, tables: seq<TableEntry>) {
    forall j :: 0 <= j < |tables| ==> tables[j].root < |V| && TableOpens(V, tables[j].root)
  }

  lemma Opened(V: seq<Page>, root: nat, chain: seq<nat>)
    requires TableChain(V, root, chain)
    ensures TableOpens(V, root)
  {
    hide TableChain;
  }

  /** A catalog opens exactly when its chain is well named and every table it names opens. */
  lemma OpensExactly(V: seq<Page>, root: nat, c: seq<nat>, tables: seq<TableEntry>)
    requires |V| <= INVALID_ID && NamedChain(V, root, c, tables)
    ensures CatalogOpens(V, root) <==> AllOpen(V, tables)
    ensures AllOpen(V, tables) ==> CatalogChain(V, root, c)
    ensures forall j :: 0 <= j < |tables| ==> tables[j].root != INVALID_ID
  {
    hide NamesOk, TableOpens, AllEntries, NameOf, RootOf, HeaderOk, NextOf;
    var es := AllEntries(Kind.Catalog, V, c);
    RootsNamed(es);
    if AllOpen(V, tables) {
      assert CatalogChain(V, root, c);
    }
    if CatalogOpens(V, root) {
      var d :| CatalogChain(V, root, d);
      ChainUnique(Kind.Catalog, V, c, d);
    }
  }

  lemma RootsNamed(es: seq<seq<byte>>)
    requires NamesOk(es)
    ensures forall j :: 0 <= j < |es| ==> |es[j]| == 36 && Tables(es)[j].root == RootOf(es[j]) != INVALID_ID
  {
    hide NameOf, RootOf, ValidName;
  }

  lemma OpensIsAccepted(V: seq<Page>, root: nat)
    ensures CatalogOpens(V, root) ==> Accepts(Kind.Catalog, V, root)
  {
    hide AllEntries, NamesOk, IsChain, TableOpens;
    if CatalogOpens(V, root) {
      var c :| CatalogChain(V, root, c);
      assert GoodChain(Kind.Catalog, V, root, c);
    }
  }

  /**
   Loads a catalog. Success yields the one terminated chain that leaves the root,
   its names all valid and different, and every table it names opens. When no
   call can fail, it succeeds exactly if all of this holds.
   */
  method Load(pool: Pool, root: nat)
    returns (s: Status, tables: seq<TableEntry>, lastPage: nat, lastCount: nat, ghost chain: seq<nat>)
    requires pool.Valid() && root != INVALID_ID
    modifies pool`frames, pool`clock, pool`held, pool`recency, pool.storage, pool.sink
    ensures pool.Valid() && pool.View() == old(pool.View()) && pool.Quietly() && pool.held == old(pool.held)
    ensures s.Ok? ==>
              && CatalogChain(pool.View(), root, chain) && NamedChain(pool.View(), root, chain, tables)
              && lastPage == Last(chain) && lastCount == CountOf(pool.View()[lastPage])
    ensures s == Error(NeverReturns) ==> |pool.View()| == UNGUARDED
    ensures old(pool.Slack()) >= 0 ==> pool.Slack() == old(pool.Slack())
    ensures old(pool.Slack()) >= 0 && old(pool.Fuel()) >= CatalogCost(|pool.View()|) ==>
              && (s.Ok? <==> CatalogOpens(pool.View(), root))
              && (|pool.View()| == UNGUARDED && Endless(Kind.Catalog, pool.View(), root) ==> s == Error(NeverReturns))
  {
    hide Inv, QuietlyReaches, Pool.Valid, Pool.View, CatalogOpens, CatalogChain, AllOpen, CountOf, AllEntries, NamesOk,
      Tables, IsChain, Pool.Slack, Accepts, Endless, NamedChain, WalkCost, Visits;
    OpensIsAccepted(pool.View(), root);
    s, tables, lastPage, lastCount, chain := LoadChain(pool, root);
    if s.Error? { return; }
    pool.ViewSize();
    OpensExactly(pool.View(), root, chain, tables);
    TablesBound(pool.View(), root, chain, tables);
    label Walked:
    s := CheckTables(pool, tables);
    if pool.sink != null { QuietTrans(old(pool.Abs(Idle)), old@Walked(pool.Abs(Idle)), pool.Abs(Idle)); }
  }

  // ---- the catalog object ------------------------------------------------------------

  /** The one catalog of a well-formed file. */
  ghost predicate IsCatalog(V: seq<Page>, use: seq<Use>, d: Listing) {
    && Well(V, use) && d.kind == Kind.Catalog && LinkPage(use, d.kind, d.root) && InMemory(V, d)
    && Sole(V, use, d.kind, d.chain) && NamesOk(d.raw)
  }

  class TableCatalog {
    const space: Space
    const list: Linked
    var entries: seq<TableEntry>

    ghost predicate Valid()
      reads this, list, space, space.pool, space.pool.storage, space.pool.sink, space.pool.held.Keys
    {
      && list.space == space && list.Valid()
      && IsCatalog(space.View(), space.use, list.Dir()) && entries == Tables(list.raw)
    }

    constructor (list: Linked, entries: seq<TableEntry>)
      ensures this.space == list.space && this.list == list && this.entries == entries
    {
      this.space := list.space;
      this.list := list;
      this.entries := entries;
    }

    lemma Opened()
      requires Valid()
      ensures space.Valid()
    {
      hide Space.Valid, Space.View, IsCatalog;
    }

    /** No two tables have the same name, and every root is a directory page of the file. */
    lemma NamesUnique()
      requires Valid()
      ensures forall i, j :: 0 <= i < j < |entries| ==> entries[i].name != entries[j].name
      ensures forall i :: 0 <= i < |entries| ==>
                ValidName(entries[i].name) && LinkPage(space.use, Kind.Directory, entries[i].root)
    {
      hide Space.Valid, Space.View, Well, HeaderOk, NextOf, NameOf, RootOf, ValidName, AllEntries, LinkPage;
      EntriesMeaning(space.View(), space.use, list.Dir());
    }

    method FindTable(name: seq<byte>) returns (s: Status, root: nat)
      ensures s.Ok? ==> TableEntry(name, root) in entries
      ensures s.Error? ==> s == Error(NotFound) && forall i :: 0 <= i < |entries| ==> entries[i].name != name
    {
      root := INVALID_ID;
      for i := 0 to |entries|
        invariant forall j :: 0 <= j < i ==> entries[j].name != name
      {
        if entries[i].name == name {
          assert entries[i] == TableEntry(name, entries[i].root);
          return Ok, entries[i].root;
        }
      }
      return Error(NotFound), root;
    }

    /** Opens a table by name. When no call can fail, below 2^32 - 2 pages every listed table opens. */
    method OpenTable(name: seq<byte>) returns (s: Status, table: HeapTable.Table?)
      requires Valid()
      modifies space.pool`frames, space.pool`clock, space.pool`held, space.pool`recency, space.pool.storage,
               space.pool.sink
      ensures Valid() && space.View() == old(space.View()) && space.pool.held == old(space.pool.held)
      ensures s.Ok? ==>
                && table != null && fresh(table) && fresh(table.list) && table.space == space && table.Valid()
                && TableEntry(name, table.list.root) in entries
      ensures !Named(entries, name) ==> s == Error(NotFound)
      ensures space.pool.clock <= old(space.pool.clock) + WalkCost(|space.View()|)
      ensures old(space.pool.Slack()) >= 0 ==> space.pool.Slack() == old(space.pool.Slack())
      ensures
        && old(space.pool.Slack()) >= 0 && old(space.pool.Fuel()) >= WalkCost(|space.View()|)
        && |space.View()| < 0xFFFF_FFFE ==>
                (s.Ok? <==> Named(entries, name))
    {
      hide Space.Valid, Space.View, Well, LinkPage, InMemory, Sole, NamesOk, Tables, Pool.Slack, Pool.Fuel, WalkCost,
        Endless;
      table := null;
      NamesUnique();
      var root;
      s, root := FindTable(name);
      if s.Error? { return; }
      space.PoolValid();
      s, table := HeapTable.Open(space, root);
    }

    /**
     Creates a table: first its root page, then the entry. Success adds exactly
     the one name with a new, empty table; a failure leaves every entry as it was.
     Pages keep their use. When no call can fail and the files have room, exactly
     the new valid names are taken.
     */
    method CreateTable(name: seq<byte>) returns (s: Status, root: nat)
      requires Valid()
      modifies this, list, space`use, space.pool`frames, space.pool`clock, space.pool`held, space.pool`recency,
               space.pool.storage, space.pool.sink
      ensures
        && Valid() && space.pool.held == old(space.pool.held)
        && Touches(old(space.View()), space.View(), old(list.chain))
      ensures old(space.use) <= space.use
      ensures s.Ok? ==>
                && ValidName(name) && !Named(old(entries), name) && entries == old(entries) + [TableEntry(name, root)]
                && root == |old(space.View())| < |space.View()| && space.View()[root] == EmptyPage(Kind.Directory)
      ensures s.Error? ==> entries == old(entries)
      ensures !ValidName(name) || Named(old(entries), name) ==>
                s == Error(InvalidArgument) && space.View() == old(space.View())
      ensures old(space.pool.Slack()) >= L.RECORD_SIZE ==>
                space.pool.Slack() >= old(space.pool.Slack()) - 2 * L.RECORD_SIZE
      ensures
        && old(space.pool.Slack()) >= L.RECORD_SIZE
        && old(space.pool.Fuel()) >= WalkCost(|old(space.View())| + 1) + 2 ==>
                |old(space.View())| + 1 < 0xFFFF_FFFE ==> (s.Ok? <==> ValidName(name) && !Named(old(entries), name))
    {
      hide Space.Valid, Space.View, InMemory, LinkPage, Named, EmptyPage, MayList, CatalogEntry, Well, Sole, NamesOk,
        Tables, NameByte, Pool.Slack, Pool.Fuel, WalkCost;
      root := INVALID_ID;
      var valid := IsValidTableName(name);
      if !valid { return Error(InvalidArgument), root; }
      var taken := HasName(entries, name);
      if taken { return Error(InvalidArgument), root; }
      ghost var V, use, d := space.View(), space.use, list.Dir();
      space.Facts();
      var table, newRoot;
      s, table, newRoot := HeapTable.Create(space);
      space.Facts();
      CreatedFrame(V, space.View(), use, space.use, d, s);
      if s.Error? { return; }
      NewTableMayList(V, use, d, name);
      ghost var W, used := space.View(), space.use;
      s := list.Append(CatalogEntry(name, newRoot));
      space.Facts();
      AppendedCatalog(V, d, W, space.View(), space.use, list.Dir(), name, s);
      if s.Ok? {
        entries := entries + [TableEntry(name, newRoot)];
        root := newRoot;
      }
    }
  }

  lemma EntriesMeaning(V: seq<Page>, use: seq<Use>, d: Listing)
    requires IsCatalog(V, use, d)
    ensures var es := Tables(d.raw);
            && (forall i, j :: 0 <= i < j < |es| ==> es[i].name != es[j].name)
            && (forall i :: 0 <= i < |es| ==> ValidName(es[i].name) && LinkPage(use, Kind.Directory, es[i].root))
  {
    hide HeaderOk, NextOf, NameOf, RootOf, ValidName, AllEntries, LinksOk, PageOk, EntriesOk, Sole, Follow;
    ListingFacts(V, use, d);
    ChainHeaders(Kind.Catalog, V, d.chain);
    forall j | 0 <= j < |d.raw|
      ensures
        && NameOf(d.raw[j]).Some? && ValidName(NameOf(d.raw[j]).value)
        && LinkPage(use, Kind.Directory, RootOf(d.raw[j]))
    {
      var i, m := ListedInChain(V, use, Kind.Catalog, d.chain, j);
    }
  }

  /** A directory page was added, or an unused page, or nothing: the catalog does not notice. */
  lemma CreatedFrame(V: seq<Page>, W: seq<Page>, use: seq<Use>, used: seq<Use>, d: Listing, s: Status)
    requires IsCatalog(V, use, d) && Well(W, used) && |W| == |used|
    requires || Extends(V, W, use, used)
             || (W == V + [EmptyPage(Kind.Directory)] && used == use + [Link(Kind.Directory)])
    ensures IsCatalog(W, used, d) && Touches(V, W, []) && forall i :: 0 <= i < |d.chain| ==> d.chain[i] < |V|
  {
    hide Well, AllEntries, HeaderOk, NextOf, CountOf, Follow, EmptyPage, NamesOk;
    ListingFacts(V, use, d);
    assert forall p: nat :: p < |V| ==> W[p] == V[p] by {
      if W != V { assert forall p: nat :: p < |V| ==> W[p] == W[..|V|][p]; }
    }
    InMemoryFrame(V, W, d);
    forall p: nat, i: nat | Lists(W, used, Kind.Catalog, p, i)
      ensures p in d.chain
    {
      assert Lists(V, use, Kind.Catalog, p, i);
    }
  }

  /** A name nobody has may be listed for a directory page that was just added. */
  lemma NewTableMayList(V: seq<Page>, use: seq<Use>, d: Listing, name: seq<byte>)
    requires IsCatalog(V, use, d) && |V| < INVALID_ID && ValidName(name) && !Named(Tables(d.raw), name)
    ensures MayList(V + [EmptyPage(Kind.Directory)], use + [Link(Kind.Directory)], Kind.Catalog,
                    CatalogEntry(name, |V|))
  {
    hide AllEntries, HeaderOk, NextOf, Follow, EmptyPage, NamesOk, NameOf, RootOf, NameByte, CatalogEntry, EntryAt,
      Named, LinksOk, InMemory;
    var W, used, e := V + [EmptyPage(Kind.Directory)], use + [Link(Kind.Directory)], CatalogEntry(name, |V|);
    CatalogEntryReads(name, |V|);
    EmptyPageMeaning(Kind.Directory);
    forall p: nat, i: nat | Lists(W, used, Kind.Catalog, p, i)
      ensures !Clash(Kind.Catalog, EntryAt(Kind.Catalog, W[p], i), e)
    {
      AddedEntry(V, use, Link(Kind.Directory), EmptyPage(Kind.Directory), Kind.Catalog, p, i);
      ListedElsewhere(V, use, d, p, i, name);
    }
    forall q: nat | LinkPage(used, Kind.Directory, q)
      ensures NextOf(W[q]) != |V|
    {
      if q < |V| { assert PageOk(V, use, q); }
    }
  }

  lemma ListedElsewhere(V: seq<Page>, use: seq<Use>, d: Listing, p: nat, i: nat, name: seq<byte>)
    requires IsCatalog(V, use, d) && !Named(Tables(d.raw), name) && Lists(V, use, Kind.Catalog, p, i)
    ensures NameOf(EntryAt(Kind.Catalog, V[p], i)) != Some(name) && RootOf(EntryAt(Kind.Catalog, V[p], i)) < |V|
  {
    hide NextOf, NameOf, RootOf, ValidName, EntryAt, LinksOk, PageOk, AllEntries;
    assert EntryOk(V, use, Kind.Catalog, p, i);
    assert p in d.chain;
    var k :| 0 <= k < |d.chain| && d.chain[k] == p;
    var j := EntryInAll(Kind.Catalog, V, d.chain, k, i);
    assert Tables(d.raw)[j] == TableOf(d.raw[j]);
  }

  /** The entry stands on the catalog's chain, and nothing else changed. */
  lemma AppendedCatalog(V: seq<Page>, d: Listing, W: seq<Page>, X: seq<Page>, use: seq<Use>, dd: Listing,
                        name: seq<byte>, s: Status)
    requires NamesOk(d.raw) && ValidName(name) && !Named(Tables(d.raw), name) && |V| < INVALID_ID
    requires W == V + [EmptyPage(Kind.Directory)] && (forall i :: 0 <= i < |d.chain| ==> d.chain[i] < |V|)
    requires
      && Well(X, use) && |X| == |use| && dd.kind == Kind.Catalog && LinkPage(use, dd.kind, dd.root) && InMemory(X, dd)
    requires Sole(X, use, dd.kind, dd.chain) && Touches(W, X, d.chain)
    requires dd.raw == if s.Ok? then d.raw + [CatalogEntry(name, |V|)] else d.raw
    ensures IsCatalog(X, use, dd) && Touches(V, X, d.chain) && |V| < |X| && X[|V|] == EmptyPage(Kind.Directory)
    ensures s.Ok? ==> Tables(dd.raw) == Tables(d.raw) + [TableEntry(name, |V|)]
  {
    hide InMemory, HeaderOk, EmptyPage, NamesOk, Tables, NameOf, RootOf, CatalogEntry, Named, NameByte, Sole, PageOk,
      EntriesOk, LinksOk;
    CatalogEntryReads(name, |V|);
    var e := CatalogEntry(name, |V|);
    NamesOkSnoc(d.raw, e);
    FoundNames(d.raw, e);
  }

  // ---- opening and creating ------------------------------------------------------------

  /**
   Opens the catalog rooted at a page of any file. When no call can fail, it
   succeeds exactly if every check holds, as it does on the catalog page of a
   well-formed file below 2^32 - 2 pages.
   */
  method Open(space: Space, root: nat) returns (s: Status, catalog: TableCatalog?)
    requires space.pool.Valid()
    modifies space.pool`frames, space.pool`clock, space.pool`held, space.pool`recency, space.pool.storage,
             space.pool.sink
    ensures space.pool.Valid() && (old(space.Valid()) ==> space.Valid())
    ensures space.View() == old(space.View()) && space.pool.held == old(space.pool.held) && space.pool.Quietly()
    ensures s.Ok? ==>
              && catalog != null && fresh(catalog) && fresh(catalog.list) && catalog.space == space
              && catalog.list.root == root
              && NamesOk(catalog.list.raw) && catalog.entries == Tables(catalog.list.raw)
              && CatalogOpens(space.View(), root) && InMemory(space.View(), catalog.list.Dir())
              && (old(space.Valid()) && OnlyCatalog(space.View(), space.use, root) ==> catalog.Valid())
    ensures s.Error? ==> catalog == null
    ensures s == Error(NeverReturns) ==> |space.View()| == UNGUARDED
    ensures old(space.pool.Slack()) >= 0 ==> space.pool.Slack() == old(space.pool.Slack())
    ensures old(space.pool.Slack()) >= 0 && old(space.pool.Fuel()) >= CatalogCost(|space.View()|) ==>
              (s.Ok? <==> CatalogOpens(space.View(), root))
    ensures
      && old(space.pool.Slack()) >= 0 && old(space.pool.Fuel()) >= CatalogCost(|space.View()|) && old(space.Valid()) ==>
              LinkPage(space.use, Kind.Catalog, root) && |space.View()| < 0xFFFF_FFFE ==> s.Ok?
  {
    hide Space.Valid, InMemory, Well, CatalogOpens, CatalogChain, AllEntries, Tables, NamesOk, CountOf, LinkPage,
      IsChain, Sole, OnlyCatalog, NamedChain, Pool.Valid, Pool.View, Pool.Slack, Pool.Fuel, CatalogCost;
    catalog := null;
    assert |space.View()| <= INVALID_ID by { space.pool.ViewSize(); }
    ghost var well := space.Valid();
    if well { space.Facts(); }
    if space.pool.sink != null { QuietRefl(space.pool.Abs(Idle)); }
    NoSuchCatalog(space.View(), space.use);
    if root == INVALID_ID { return Error(InvalidArgument), null; }
    var tables, lastPage, lastCount; ghost var chain;
    s, tables, lastPage, lastCount, chain := LoadIn(space, root);
    if well { CatalogHere(space.View(), space.use, root); }
    if s.Error? { return; }
    ghost var d := LoadedCatalog(space.View(), space.use, root, chain, tables, lastPage, lastCount);
    var list := new Linked(space, d, Kind.Catalog, root, lastPage, lastCount);
    catalog := new TableCatalog(list, tables);
  }

  /** Loads the catalog rooted at a page of the space. */
  method LoadIn(space: Space, root: nat)
    returns (s: Status, tables: seq<TableEntry>, lastPage: nat, lastCount: nat, ghost chain: seq<nat>)
    requires space.pool.Valid() && root != INVALID_ID
    modifies space.pool`frames, space.pool`clock, space.pool`held, space.pool`recency, space.pool.storage,
             space.pool.sink
    ensures space.pool.Valid() && (old(space.Valid()) ==> space.Valid())
    ensures space.View() == old(space.View()) && space.pool.held == old(space.pool.held) && space.pool.Quietly()
    ensures s.Ok? ==>
              && CatalogChain(space.View(), root, chain) && NamedChain(space.View(), root, chain, tables)
              && lastPage == Last(chain) && lastCount == CountOf(space.View()[lastPage])
    ensures s == Error(NeverReturns) ==> |space.View()| == UNGUARDED
    ensures old(space.pool.Slack()) >= 0 ==> space.pool.Slack() == old(space.pool.Slack())
    ensures old(space.pool.Slack()) >= 0 && old(space.pool.Fuel()) >= CatalogCost(|space.View()|) ==>
              (s.Ok? <==> CatalogOpens(space.View(), root))
  {
    hide Space.Valid, Pool.Valid, Pool.View, Well, CatalogOpens, CatalogChain, AllEntries, CountOf, NamedChain,
      QuietlyReaches, Pool.Slack, Pool.Fuel, CatalogCost;
    s, tables, lastPage, lastCount, chain := Load(space.pool, root);
    if old(space.Valid()) { space.StillValid(); }
  }

  /** The file's only catalog starts at this page. */
  ghost predicate OnlyCatalog(V: seq<Page>, use: seq<Use>, root: nat) {
    Well(V, use) && LinkPage(use, Kind.Catalog, root) && Sole(V, use, Kind.Catalog, Follow(V, use, Kind.Catalog, root))
  }

  lemma NoSuchCatalog(V: seq<Page>, use: seq<Use>)
    requires |V| <= INVALID_ID
    ensures !CatalogOpens(V, INVALID_ID) && (|use| <= INVALID_ID ==> !LinkPage(use, Kind.Catalog, INVALID_ID))
  {
    hide HeaderOk, NextOf, AllEntries, NamesOk, TableOpens;
  }

  lemma CatalogHere(V: seq<Page>, use: seq<Use>, root: nat)
    requires Well(V, use)
    ensures LinkPage(use, Kind.Catalog, root) && |V| < 0xFFFF_FFFE ==> CatalogOpens(V, root)
  {
    hide Well, CatalogChain, Follow;
    if LinkPage(use, Kind.Catalog, root) && |V| < 0xFFFF_FFFE {
      WellCatalogOpens(V, use, root);
    }
  }

  lemma LoadedCatalog(V: seq<Page>, use: seq<Use>, root: nat, chain: seq<nat>, tables: seq<TableEntry>, lastPage: nat,
                      lastCount: nat)
    returns (d: Listing)
    requires |V| <= INVALID_ID && CatalogChain(V, root, chain) && NamedChain(V, root, chain, tables)
    requires lastPage == Last(chain) && lastCount == CountOf(V[lastPage])
    ensures d.kind == Kind.Catalog && d.root == root && d.last == lastPage && d.count == lastCount
    ensures InMemory(V, d) && NamesOk(d.raw) && tables == Tables(d.raw) && CatalogOpens(V, root)
    ensures OnlyCatalog(V, use, root) ==> IsCatalog(V, use, d)
  {
    hide AllEntries, CountOf, HeaderOk, NextOf, Well, Follow, Sole, NamesOk, Tables, TableOpens;
    d := Listing(Kind.Catalog, root, chain, AllEntries(Kind.Catalog, V, chain), lastPage, lastCount);
    if OnlyCatalog(V, use, root) {
      ChainUnique(Kind.Catalog, V, chain, Follow(V, use, Kind.Catalog, root));
    }
  }

  /**
   After a restart the catalog pages that the chain does not reach count as
   unused. The file stays well formed and its one catalog is the chain.
   */
  function Pruned(use: seq<Use>, chain: seq<nat>): (r: seq<Use>)
    ensures |r| == |use|
    ensures forall p :: 0 <= p < |use| ==>
              r[p] == if use[p] == Link(Kind.Catalog) && p !in chain then Unused else use[p]
  {
    seq(|use|, p requires 0 <= p < |use| => if use[p] == Link(Kind.Catalog) && p !in chain then Unused else use[p])
  }

  lemma PrunedIsWell(V: seq<Page>, use: seq<Use>, root: nat)
    requires Well(V, use) && LinkPage(use, Kind.Catalog, root)
    ensures OnlyCatalog(V, Pruned(use, Follow(V, use, Kind.Catalog, root)), root)
    ensures forall p: nat :: LinkPage(use, Kind.Directory, p) ==>
              LinkPage(Pruned(use, Follow(V, use, Kind.Catalog, root)), Kind.Directory, p)
  {
    hide HeaderOk, NextOf, EntryAt, Clash, SP.Sound, Follow, Pruned, NameOf, RootOf;
    var c := Follow(V, use, Kind.Catalog, root);
    var kept := Pruned(use, c);
    forall p | 0 <= p < |V|
      ensures PageOk(V, kept, p)
    {
      assert PageOk(V, use, p);
      if kept[p] == Link(Kind.Catalog) && NextOf(V[p]) != INVALID_ID { NextInChain(V, use, root, p); }
    }
    forall k: Kind, p: nat, i: nat | Lists(V, kept, k, p, i)
      ensures Lists(V, use, k, p, i) && EntryOk(V, kept, k, p, i)
    {
      assert Lists(V, use, k, p, i) && EntryOk(V, use, k, p, i);
    }
    forall k: Kind, p: nat | LinkPage(kept, k, p)
      ensures LinkPage(use, k, p)
    {
    }
    assert EntriesOk(V, kept) && LinksOk(V, kept);
    ChainUnique(Kind.Catalog, V, c, Follow(V, kept, Kind.Catalog, root));
  }

  lemma NextInChain(V: seq<Page>, use: seq<Use>, root: nat, p: nat)
    requires
      && Well(V, use) && LinkPage(use, Kind.Catalog, root) && p in Follow(V, use, Kind.Catalog, root)
      && NextOf(V[p]) != INVALID_ID
    ensures NextOf(V[p]) in Follow(V, use, Kind.Catalog, root)
  {
    hide HeaderOk, NextOf, PageOk, EntriesOk, LinksOk, Follow;
    var c := Follow(V, use, Kind.Catalog, root);
    var i :| 0 <= i < |c| && c[i] == p;
    assert i < |c| - 1;
    assert c[i + 1] in c;
  }
}
