/**
 Operations on named tables: find the table in the catalog, open it, run the
 operation. The catalog stays valid and no other table changes.
 */
module Executor {
  import opened Bytes
  import opened Results
  import opened Chain
  import opened Structure
  import opened BufferPool
  import opened PageSpace
  import opened LinkedPages
  import opened TableRows
  import opened Directory
  import opened HeapTable
  import opened Catalog
  import opened Walk
  import L = LogFormat
  import SP = SlottedPage

  /** The data pages of the table rooted at a directory page. */
  ghost function TableIds(V: seq<Page>, use: seq<Use>, root: nat): seq<nat>
    requires Well(V, use) && LinkPage(use, Kind.Directory, root)
  {
    Ids(AllEntries(Kind.Directory, V, Follow(V, use, Kind.Directory, root)))
  }

  /** The data pages of the table rooted at a page; none if it is no directory. */
  ghost function IdsOf(V: seq<Page>, use: seq<Use>, root: nat): seq<nat> {
    if Well(V, use) && LinkPage(use, Kind.Directory, root) then TableIds(V, use, root) else []
  }

  /** Every table of the catalog has the rows it had, except possibly the one at `but`. */
  ghost predicate OthersKept(V: seq<Page>, use: seq<Use>, W: seq<Page>, used: seq<Use>, entries: seq<TableEntry>,
                             but: nat) {
    && Well(V, use) && Well(W, used)
    && forall e :: e in entries && e.root != but ==>
         && LinkPage(use, Kind.Directory, e.root) && LinkPage(used, Kind.Directory, e.root)
         && SameRows(V, TableIds(V, use, e.root), W, TableIds(W, used, e.root))
  }

  lemma InMemoryIds(V: seq<Page>, use: seq<Use>, d: Listing)
    requires IsDirectory(V, use, d)
    ensures Ids(d.raw) == TableIds(V, use, d.root)
  {
    hide Well, Follow, AllEntries, Ids, HeaderOk, NextOf, CountOf;
    ListingFacts(V, use, d);
  }

  lemma ListingOf(V: seq<Page>, use: seq<Use>, root: nat) returns (d: Listing)
    requires Well(V, use) && LinkPage(use, Kind.Directory, root)
    ensures IsDirectory(V, use, d) && d.root == root && Ids(d.raw) == TableIds(V, use, root)
  {
    hide Well, Follow, AllEntries, Ids, HeaderOk, NextOf, CountOf;
    var c := Follow(V, use, Kind.Directory, root);
    d := Listing(Kind.Directory, root, c, AllEntries(Kind.Directory, V, c), Last(c), CountOf(V[Last(c)]));
  }

  /** The roots of the catalog's tables are listed by it. */
  lemma EntryIsRoot(V: seq<Page>, use: seq<Use>, c: Listing, e: TableEntry)
    requires IsCatalog(V, use, c) && e in Tables(c.raw)
    ensures LinkPage(use, Kind.Directory, e.root) && IsRoot(V, use, e.root)
  {
    hide HeaderOk, NextOf, NameOf, RootOf, ValidName, AllEntries, LinksOk, PageOk, EntriesOk, Sole, Follow, EntryAt;
    ListingFacts(V, use, c);
    ChainHeaders(Kind.Catalog, V, c.chain);
    var j :| 0 <= j < |Tables(c.raw)| && Tables(c.raw)[j] == e;
    var i, m := ListedInChain(V, use, Kind.Catalog, c.chain, j);
    assert RootOf(EntryAt(Kind.Catalog, V[c.chain[i]], m)) == e.root;
  }

  /** What a table operation touches is no catalog page, so the catalog stays as it was. */
  lemma CatalogKept(V: seq<Page>, use: seq<Use>, c: Listing, t: Listing, W: seq<Page>, used: seq<Use>)
    requires IsCatalog(V, use, c) && IsDirectory(V, use, t) && Well(W, used) && |W| == |used|
    requires Touches(V, W, t.chain + Ids(t.raw)) && UseGrows(use, used, Kind.Directory)
    ensures IsCatalog(W, used, c)
  {
    hide Well, AllEntries, HeaderOk, NextOf, CountOf, Follow, NamesOk, Ids, SP.Sound;
    ListingFacts(V, use, c);
    DirectoryFacts(V, use, t);
    assert forall p: nat :: p < |use| ==> used[p] == used[..|use|][p];
    forall p: nat | p < |V| && use[p] == Link(Kind.Catalog)
      ensures W[p] == V[p]
    {
      assert p !in t.chain + Ids(t.raw);
    }
    InMemoryFrame(V, W, c);
    forall p: nat, i: nat | Lists(W, used, Kind.Catalog, p, i)
      ensures p in c.chain
    {
      assert Lists(V, use, Kind.Catalog, p, i);
    }
  }

  lemma OtherTables(V: seq<Page>, use: seq<Use>, c: Listing, t: Listing, W: seq<Page>, used: seq<Use>)
    requires IsCatalog(V, use, c) && IsDirectory(V, use, t) && IsRoot(V, use, t.root) && Well(W, used) && |W| == |used|
    requires Touches(V, W, t.chain + Ids(t.raw)) && UseGrows(use, used, Kind.Directory)
    ensures OthersKept(V, use, W, used, Tables(c.raw), t.root)
  {
    hide Well, IsCatalog, IsDirectory, IsRoot, SameRows, TableIds, Ids, InMemory, Tables, Touches;
    CatalogSize(V, use, c);
    forall e | e in Tables(c.raw) && e.root != t.root
      ensures LinkPage(use, Kind.Directory, e.root) && LinkPage(used, Kind.Directory, e.root)
      ensures SameRows(V, TableIds(V, use, e.root), W, TableIds(W, used, e.root))
    {
      EntryIsRoot(V, use, c, e);
      OtherTable(V, use, t, W, used, e.root);
    }
  }

  lemma CatalogSize(V: seq<Page>, use: seq<Use>, c: Listing)
    requires IsCatalog(V, use, c)
    ensures |V| == |use| && Well(V, use) && NamesOk(c.raw)
  {
    hide Well, InMemory, NamesOk;
  }

  lemma OtherTable(V: seq<Page>, use: seq<Use>, t: Listing, W: seq<Page>, used: seq<Use>, root: nat)
    requires
      && Well(V, use) && |V| == |use| && IsDirectory(V, use, t) && IsRoot(V, use, t.root) && Well(W, used)
      && |W| == |used|
    requires Touches(V, W, t.chain + Ids(t.raw)) && UseGrows(use, used, Kind.Directory)
    requires root != t.root && LinkPage(use, Kind.Directory, root) && IsRoot(V, use, root)
    ensures LinkPage(used, Kind.Directory, root) && SameRows(V, TableIds(V, use, root), W, TableIds(W, used, root))
  {
    hide Well, IsRoot, SameRows, TableIds, Ids, InMemory, Touches;
    var b := ListingOf(V, use, root);
    OtherTableKept(V, use, t, b, W);
    assert used[root] == used[..|use|][root];
    InMemoryIds(W, used, b);
  }

  /** What an operation does to the rows of its table. */
  datatype Change = Nothing | Added(id: RecordId, data: seq<byte>) | Changed(id: RecordId, record: Option<seq<byte>>)

  ghost predicate Effect(V: seq<Page>, ids: seq<nat>, W: seq<Page>, jds: seq<nat>, change: Change) {
    match change
    case Nothing => SameRows(V, ids, W, jds)
    case Added(id, data) => RowAdded(V, ids, W, jds, id, data)
    case Changed(id, record) => RowChanged(V, ids, W, jds, id, record)
  }

  /** Pages keep their use, and header pages their bytes. */
  predicate HeadersKept(V: seq<Page>, use: seq<Use>, W: seq<Page>, used: seq<Use>) {
    |V| == |use| && |V| <= |W| && use <= used && forall p: nat :: p < |use| && use[p] == Header ==> W[p] == V[p]
  }

  /** A success changed the rows of the named table as told, a failure no row; every other table keeps its rows. */
  ghost predicate Ran(V: seq<Page>, use: seq<Use>, W: seq<Page>, used: seq<Use>, entries: seq<TableEntry>,
                      name: seq<byte>, s: Status, root: nat, change: Change)
  {
    && HeadersKept(V, use, W, used)
    && if s.Error? then OthersKept(V, use, W, used, entries, INVALID_ID)
       else
         && TableEntry(name, root) in entries && OthersKept(V, use, W, used, entries, root)
         && LinkPage(use, Kind.Directory, root) && LinkPage(used, Kind.Directory, root)
         && Effect(V, TableIds(V, use, root), W, TableIds(W, used, root), change)
  }

  lemma NothingRan(V: seq<Page>, use: seq<Use>, c: Listing, name: seq<byte>, s: Status, change: Change)
    requires IsCatalog(V, use, c) && s.Error? && NamesOk(c.raw)
    ensures Ran(V, use, V, use, Tables(c.raw), name, s, INVALID_ID, change)
  {
    hide Well, InMemory, NamesOk, Tables, Sole, TableIds, Issued, Lookup;
    CatalogSize(V, use, c);
    forall e | e in Tables(c.raw)
      ensures LinkPage(use, Kind.Directory, e.root)
    {
      EntryIsRoot(V, use, c, e);
    }
  }

  lemma TableRan(V: seq<Page>, use: seq<Use>, c: Listing, t: Listing, W: seq<Page>, used: seq<Use>, t2: Listing,
                 name: seq<byte>, s: Status, change: Change)
    requires
      && IsCatalog(V, use, c) && NamesOk(c.raw) && IsDirectory(V, use, t) && TableEntry(name, t.root) in Tables(c.raw)
    requires
      && IsDirectory(W, used, t2) && t2.root == t.root && Touches(V, W, t.chain + Ids(t.raw))
      && UseGrows(use, used, Kind.Directory)
    requires Effect(V, Ids(t.raw), W, Ids(t2.raw), if s.Ok? then change else Nothing)
    ensures IsCatalog(W, used, c) && Ran(V, use, W, used, Tables(c.raw), name, s, t.root, change)
  {
    hide Well, InMemory, NamesOk, Tables, Sole, TableIds, RowAdded, SameRows, RowChanged, Ids, Touches, UseGrows,
      IsCatalog, HeadersKept;
    DirectorySize(W, used, t2);
    EntryIsRoot(V, use, c, TableEntry(name, t.root));
    CatalogKept(V, use, c, t, W, used);
    OtherTables(V, use, c, t, W, used);
    InMemoryIds(V, use, t);
    InMemoryIds(W, used, t2);
    HeadersStay(V, use, t, W, used);
  }

  /** The pages a table operation touches are directory and data pages. */
  lemma HeadersStay(V: seq<Page>, use: seq<Use>, t: Listing, W: seq<Page>, used: seq<Use>)
    requires IsDirectory(V, use, t) && |W| == |used|
    requires Touches(V, W, t.chain + Ids(t.raw)) && UseGrows(use, used, Kind.Directory)
    ensures HeadersKept(V, use, W, used)
  {
    hide Well, InMemory, Ids, IsDirectory;
    DirectoryFacts(V, use, t);
  }

  lemma DirectorySize(V: seq<Page>, use: seq<Use>, d: Listing)
    requires IsDirectory(V, use, d)
    ensures |V| == |use|
  {
    hide PageOk, EntriesOk, LinksOk, InMemory;
  }

  /** Creating a table writes catalog pages and new pages, so every table keeps its rows. */
  lemma TablesStay(V: seq<Page>, use: seq<Use>, c: Listing, W: seq<Page>, used: seq<Use>)
    requires IsCatalog(V, use, c) && Well(W, used) && |W| == |used| && Touches(V, W, c.chain) && use <= used
    ensures HeadersKept(V, use, W, used) && OthersKept(V, use, W, used, Tables(c.raw), INVALID_ID)
  {
    hide Well, InMemory, NamesOk, Tables, Sole, TableIds, SameRows;
    ListingFacts(V, use, c);
    CatalogSize(V, use, c);
    forall e | e in Tables(c.raw)
      ensures LinkPage(use, Kind.Directory, e.root) && LinkPage(used, Kind.Directory, e.root)
      ensures SameRows(V, TableIds(V, use, e.root), W, TableIds(W, used, e.root))
    {
      EntryIsRoot(V, use, c, e);
      TableStays(V, use, c, W, used, e.root);
    }
  }

  lemma TableStays(V: seq<Page>, use: seq<Use>, c: Listing, W: seq<Page>, used: seq<Use>, root: nat)
    requires Well(V, use) && |V| == |use| && Well(W, used) && |W| == |used| && Touches(V, W, c.chain) && use <= used
    requires (forall p :: p in c.chain ==> LinkPage(use, Kind.Catalog, p)) && LinkPage(use, Kind.Directory, root)
    ensures SameRows(V, TableIds(V, use, root), W, TableIds(W, used, root))
  {
    hide Well, InMemory, TableIds, SameRows, Ids, SP.Sound;
    var b := ListingOf(V, use, root);
    DirectoryFacts(V, use, b);
    forall i | 0 <= i < |b.chain|
      ensures W[b.chain[i]] == V[b.chain[i]]
    {
      assert b.chain[i] !in c.chain;
    }
    forall i | 0 <= i < |Ids(b.raw)|
      ensures W[Ids(b.raw)[i]] == V[Ids(b.raw)[i]]
    {
      assert Ids(b.raw)[i] !in c.chain;
    }
    InMemoryFrame(V, W, b);
    RowsFrame(V, Ids(b.raw), W);
    InMemoryIds(W, used, b);
  }

  lemma NewTableEmpty(W: seq<Page>, used: seq<Use>, root: nat)
    requires
      && Well(W, used) && |W| == |used| && LinkPage(used, Kind.Directory, root) && W[root] == EmptyPage(Kind.Directory)
    ensures TableIds(W, used, root) == []
  {
    hide Well, Ids, HeaderOk, Entries, NextOf, EmptyPage;
    EmptyPageMeaning(Kind.Directory);
    assert Follow(W, used, Kind.Directory, root) == [root];
    AllEntriesSnoc(Kind.Directory, W, [], root);
    assert [] + [root] == [root];
  }

  lemma NameListed(entries: seq<TableEntry>, name: seq<byte>, root: nat)
    requires TableEntry(name, root) in entries
    ensures Named(entries, name)
  {
    var i :| 0 <= i < |entries| && entries[i] == TableEntry(name, root);
    assert entries[i].name == name;
  }

  // ---- the calls -------------------------------------------------------------------------

  /** Finds the table and opens it. */
  method OpenTable(catalog: TableCatalog, name: seq<byte>) returns (s: Status, table: HeapTable.Table?)
    requires catalog.Valid()
    modifies catalog.space.pool`frames, catalog.space.pool`clock, catalog.space.pool`held, catalog.space.pool`recency,
             catalog.space.pool.storage, catalog.space.pool.sink
    ensures catalog.Valid() && catalog.space.View() == old(catalog.space.View())
    ensures catalog.space.pool.held == old(catalog.space.pool.held)
    ensures s.Ok? ==>
              && table != null && fresh(table) && fresh(table.list) && table.space == catalog.space && table.Valid()
              && TableEntry(name, table.list.root) in catalog.entries
    ensures s.Ok? ==> Named(catalog.entries, name)
    ensures !Named(catalog.entries, name) ==> s == Error(NotFound)
    ensures catalog.space.pool.clock <= old(catalog.space.pool.clock) + WalkCost(|catalog.space.View()|)
    ensures old(catalog.space.pool.Slack()) >= 0 ==> catalog.space.pool.Slack() == old(catalog.space.pool.Slack())
    ensures old(Calm(catalog, WalkCost(|catalog.space.View()|))) ==> (s.Ok? <==> Named(catalog.entries, name))
  {
    hide Space.Valid, Space.View, TableCatalog.Valid, HeapTable.Table.Valid, Pool.Slack, Pool.Fuel, WalkCost, Named;
    table := null;
    var root;
    s, root := catalog.FindTable(name);
    if s.Error? {
      NotNamed(catalog.entries, name);
      return;
    }
    NameListed(catalog.entries, name, root);
    s, table := catalog.OpenTable(name);
  }

  /** No call can fail, so many fetches find a frame, and the file is not about to outgrow its page ids. */
  ghost predicate Calm(catalog: TableCatalog, fetches: nat)
    reads catalog.space.pool, catalog.space.pool.storage, catalog.space.pool.sink
  {
    && catalog.space.pool.Slack() >= 3 * L.RECORD_SIZE && catalog.space.pool.Fuel() >= fetches
    && |catalog.space.View()| < 0xFFFF_FFFC
  }

  lemma NotNamed(entries: seq<TableEntry>, name: seq<byte>)
    ensures (forall i :: 0 <= i < |entries| ==> entries[i].name != name) ==> !Named(entries, name)
  {
  }

  lemma RoomInFile(table: HeapTable.Table)
    requires table.Valid()
    ensures |table.dataPages| <= |table.space.View()| <= INVALID_ID
  {
    hide Space.Valid, Space.View, Linked.Valid, Ids, SP.Sound;
    table.Facts();
    Pigeonhole(table.dataPages, |table.space.View()|);
  }

  /** With fuel left, nothing hinders a table and every one of its pages can be had. */
  lemma CalmTable(table: HeapTable.Table, id: RecordId, answer: Status)
    requires table.Valid() && table.space.pool.Slack() >= 3 * L.RECORD_SIZE && |table.space.View()| < 0xFFFF_FFFC
    requires table.space.pool.Fuel() >= |table.space.View()| + 4
    ensures table.Unhindered() && !table.space.pool.Jammed() && table.space.pool.Sure(1)
    ensures Reached(table.dataPages, id, table.space.pool.Reach(), answer) == answer
  {
    hide Space.Valid, Linked.Valid, Ids, SP.Sound, Pool.Valid, Pool.View, Pool.Slack;
    RoomInFile(table);
    table.Facts();
    table.space.PoolValid();
    table.space.pool.ViewSize();
  }

  /** The most fetches a call on a named table takes. */
  function CallCost(pageCount: nat): nat {
    WalkCost(pageCount) + pageCount + 4
  }

  /** Creates a table without rows. When no call can fail, exactly the valid names not taken yet succeed. */
  method CreateTable(catalog: TableCatalog, name: seq<byte>) returns (s: Status)
    requires catalog.Valid()
    modifies catalog, catalog.list, catalog.space`use, catalog.space.pool`frames, catalog.space.pool`clock,
             catalog.space.pool`held,
             catalog.space.pool`recency, catalog.space.pool.storage, catalog.space.pool.sink
    ensures catalog.Valid() && catalog.space.pool.held == old(catalog.space.pool.held)
    ensures HeadersKept(old(catalog.space.View()), old(catalog.space.use), catalog.space.View(), catalog.space.use)
    ensures OthersKept(old(catalog.space.View()), old(catalog.space.use), catalog.space.View(), catalog.space.use,
                       old(catalog.entries),
                       INVALID_ID)
    ensures s.Ok? ==> ValidName(name) && !Named(old(catalog.entries), name)
    ensures if s.Error? then catalog.entries == old(catalog.entries) else
              exists root: nat :: catalog.entries == old(catalog.entries) + [TableEntry(name, root)]
                                  && LinkPage(catalog.space.use, Kind.Directory, root)
                                  && IdsOf(catalog.space.View(), catalog.space.use, root) == []
    ensures !ValidName(name) || Named(old(catalog.entries), name) ==> s == Error(InvalidArgument)
    ensures old(catalog.space.pool.Slack()) >= L.RECORD_SIZE ==>
              catalog.space.pool.Slack() >= old(catalog.space.pool.Slack()) - 2 * L.RECORD_SIZE
    ensures old(Calm(catalog, WalkCost(|catalog.space.View()| + 1) + 2)) ==>
              (s.Ok? <==> ValidName(name) && !Named(old(catalog.entries), name))
  {
    hide Space.Valid, Space.View, IsCatalog, Well, TableIds, Pool.Slack, Pool.Fuel, WalkCost, Named, Touches,
      OthersKept, HeadersKept, Tables;
    ghost var V, use, c := catalog.space.View(), catalog.space.use, catalog.list.Dir();
    var root;
    s, root := catalog.CreateTable(name);
    catalog.space.Facts();
    TablesStay(V, use, c, catalog.space.View(), catalog.space.use);
    if s.Ok? {
      assert catalog.entries[|catalog.entries| - 1] == TableEntry(name, root);
      catalog.NamesUnique();
      NewTableEmpty(catalog.space.View(), catalog.space.use, root);
    }
  }

  /**
   Inserts into a named table. When no call can fail, exactly the records of a
   legal size for a listed name are taken.
   */
  method Insert(catalog: TableCatalog, name: seq<byte>, data: seq<byte>)
    returns (s: Status, id: RecordId, ghost root: nat)
    requires catalog.Valid()
    modifies catalog.space`use, catalog.space.pool`frames, catalog.space.pool`clock, catalog.space.pool`held,
             catalog.space.pool`recency,
             catalog.space.pool.storage, catalog.space.pool.sink
    ensures catalog.Valid() && catalog.space.pool.held == old(catalog.space.pool.held)
    ensures Ran(old(catalog.space.View()), old(catalog.space.use), catalog.space.View(), catalog.space.use,
                catalog.entries,
                name, s, root, Added(id, data))
    ensures !Named(catalog.entries, name) ==> s == Error(NotFound)
    ensures old(catalog.space.pool.Slack()) >= 3 * L.RECORD_SIZE ==>
              catalog.space.pool.Slack() >= old(catalog.space.pool.Slack()) - 3 * L.RECORD_SIZE
    ensures old(Calm(catalog, CallCost(|catalog.space.View()|))) ==>
              (s.Ok? <==> Named(catalog.entries, name) && 0 < |data| <= SP.MAX_RECORD_SIZE)
  {
    hide Space.Valid, Space.View, Ran, Well, InMemory, Sole, NamesOk, Tables, IsDirectory, Effect, Touches, UseGrows,
      Ids, Pool.Slack, Named, WalkCost, TableIds, Pool.Reach, AnyRoom, FirstFit;
    id, root := RecordId(INVALID_ID, INVALID_SLOT), INVALID_ID;
    ghost var V, use, c := catalog.space.View(), catalog.space.use, catalog.list.Dir();
    ghost var calm := Calm(catalog, CallCost(|V|));
    var table;
    s, table := OpenTable(catalog, name);
    if s.Error? {
      NothingRan(V, use, c, name, s, Added(id, data));
      return;
    }
    root := table.list.root;
    table.AsListing();
    ghost var t := table.list.Dir();
    if calm { CalmTable(table, id, Ok); }
    s, id := table.Insert(data);
    table.AsListing();
    InsertEffect(V, Ids(t.raw), catalog.space.View(), Ids(table.list.raw), s, id, data);
    TableRan(V, use, c, t, catalog.space.View(), catalog.space.use, table.list.Dir(), name, s, Added(id, data));
  }

  lemma InsertEffect(V: seq<Page>, ids: seq<nat>, W: seq<Page>, jds: seq<nat>, s: Status, id: RecordId, data: seq<byte>)
    requires if s.Ok? then RowAdded(V, ids, W, jds, id, data) else SameRows(V, ids, W, jds)
    ensures Effect(V, ids, W, jds, if s.Ok? then Added(id, data) else Nothing)
  {
    hide RowAdded, SameRows;
  }

  lemma ChangeEffect(V: seq<Page>, t: Listing, W: seq<Page>, use: seq<Use>, s: Status, id: RecordId,
                     record: Option<seq<byte>>)
    requires if s.Ok? then RowChanged(V, Ids(t.raw), W, Ids(t.raw), id, record) else W == V
    requires Touches(V, W, Ids(t.raw))
    ensures Effect(V, Ids(t.raw), W, Ids(t.raw), if s.Ok? then Changed(id, record) else Nothing)
    ensures Touches(V, W, t.chain + Ids(t.raw)) && UseGrows(use, use, Kind.Directory)
  {
    hide RowChanged, Issued, Lookup, Ids;
    assert use[..|use|] == use;
  }

  lemma DirectoryIds(V: seq<Page>, use: seq<Use>, d: Listing)
    requires IsDirectory(V, use, d)
    ensures IdsOf(V, use, d.root) == Ids(d.raw)
  {
    hide Well, InMemory, TableIds, Ids;
    InMemoryIds(V, use, d);
  }

  /** Reads a row of a named table. When no call can fail, it succeeds exactly if the table has the row. */
  method Get(catalog: TableCatalog, name: seq<byte>, id: RecordId) returns (s: Status, data: seq<byte>, ghost root: nat)
    requires catalog.Valid()
    modifies catalog.space.pool`frames, catalog.space.pool`clock, catalog.space.pool`held, catalog.space.pool`recency,
             catalog.space.pool.storage, catalog.space.pool.sink
    ensures catalog.Valid() && catalog.space.pool.held == old(catalog.space.pool.held)
    ensures catalog.space.View() == old(catalog.space.View())
    ensures !Named(catalog.entries, name) ==> s == Error(NotFound)
    ensures s.Ok? ==>
              && TableEntry(name, root) in catalog.entries
              && Lookup(catalog.space.View(), IdsOf(catalog.space.View(), catalog.space.use, root), id) == Some(data)
    ensures old(catalog.space.pool.Slack()) >= 0 ==> catalog.space.pool.Slack() == old(catalog.space.pool.Slack())
    ensures old(Calm(catalog, CallCost(|catalog.space.View()|))) && Named(catalog.entries, name) ==>
              && TableEntry(name, root) in catalog.entries
              && s == RowStatus(catalog.space.View(), IdsOf(catalog.space.View(), catalog.space.use, root), id)
  {
    hide Space.Valid, Space.View, Well, InMemory, Sole, NamesOk, Tables, IsDirectory, Ids, Pool.Slack, Named, WalkCost,
      Pool.Reach, IdsOf, Reached, Lookup, RowStatus;
    data, root := [], INVALID_ID;
    ghost var V, use := catalog.space.View(), catalog.space.use;
    ghost var calm := Calm(catalog, CallCost(|V|));
    var table;
    s, table := OpenTable(catalog, name);
    if s.Error? { return; }
    root := table.list.root;
    table.AsListing();
    DirectoryIds(V, use, table.list.Dir());
    if calm { CalmTable(table, id, RowStatus(V, table.dataPages, id)); }
    s, data := table.Get(id);
  }

  /** Replaces a row of a named table. */
  method Update(catalog: TableCatalog, name: seq<byte>, id: RecordId, data: seq<byte>)
    returns (s: Status, ghost root: nat)
    requires catalog.Valid()
    modifies catalog.space.pool`frames, catalog.space.pool`clock, catalog.space.pool`held, catalog.space.pool`recency,
             catalog.space.pool.storage, catalog.space.pool.sink
    ensures catalog.Valid() && catalog.space.pool.held == old(catalog.space.pool.held)
    ensures Ran(old(catalog.space.View()), catalog.space.use, catalog.space.View(), catalog.space.use, catalog.entries,
                name, s, root, Changed(id, Some(data)))
    ensures !Named(catalog.entries, name) ==> s == Error(NotFound)
    ensures old(catalog.space.pool.Slack()) >= 3 * L.RECORD_SIZE ==>
              catalog.space.pool.Slack() >= old(catalog.space.pool.Slack()) - 3 * L.RECORD_SIZE
    ensures
      && old(Calm(catalog, CallCost(|catalog.space.View()|))) && Named(catalog.entries, name)
      && 0 < |data| <= SP.MAX_RECORD_SIZE ==>
              && TableEntry(name, root) in catalog.entries
              && s == UpdatedStatus(old(catalog.space.View()),
                                    IdsOf(old(catalog.space.View()), catalog.space.use, root), id, data)
  {
    hide Space.Valid, Space.View, Ran, Well, InMemory, Sole, NamesOk, Tables, IsDirectory, Effect, Touches, UseGrows,
      Ids, Pool.Slack, Named, WalkCost, TableIds, Pool.Reach, Reached, RowStatus, UpdatedStatus, RowChanged, IdsOf;
    root := INVALID_ID;
    ghost var V, use, c := catalog.space.View(), catalog.space.use, catalog.list.Dir();
    ghost var calm := Calm(catalog, CallCost(|V|));
    var table;
    s, table := OpenTable(catalog, name);
    if s.Error? {
      NothingRan(V, use, c, name, s, Changed(id, Some(data)));
      return;
    }
    root := table.list.root;
    table.AsListing();
    ghost var t := table.list.Dir();
    DirectoryIds(V, use, t);
    if calm { CalmTable(table, id, UpdatedStatus(V, table.dataPages, id, data)); }
    s := table.Update(id, data);
    table.AsListing();
    ChangeEffect(V, t, catalog.space.View(), use, s, id, Some(data));
    TableRan(V, use, c, t, catalog.space.View(), use, table.list.Dir(), name, s, Changed(id, Some(data)));
  }

  /** Deletes a row of a named table. */
  method Delete(catalog: TableCatalog, name: seq<byte>, id: RecordId) returns (s: Status, ghost root: nat)
    requires catalog.Valid()
    modifies catalog.space.pool`frames, catalog.space.pool`clock, catalog.space.pool`held, catalog.space.pool`recency,
             catalog.space.pool.storage, catalog.space.pool.sink
    ensures catalog.Valid() && catalog.space.pool.held == old(catalog.space.pool.held)
    ensures Ran(old(catalog.space.View()), catalog.space.use, catalog.space.View(), catalog.space.use, catalog.entries,
                name, s, root, Changed(id, None))
    ensures !Named(catalog.entries, name) ==> s == Error(NotFound)
    ensures old(catalog.space.pool.Slack()) >= 3 * L.RECORD_SIZE ==>
              catalog.space.pool.Slack() >= old(catalog.space.pool.Slack()) - 3 * L.RECORD_SIZE
    ensures old(Calm(catalog, CallCost(|catalog.space.View()|))) && Named(catalog.entries, name) ==>
              && TableEntry(name, root) in catalog.entries
              && s == RowStatus(old(catalog.space.View()), IdsOf(old(catalog.space.View()), catalog.space.use, root),
                                id)
  {
    hide Space.Valid, Space.View, Ran, Well, InMemory, Sole, NamesOk, Tables, IsDirectory, Effect, Touches, UseGrows,
      Ids, Pool.Slack, Named, WalkCost, TableIds, Pool.Reach, Reached, RowStatus, UpdatedStatus, RowChanged, IdsOf;
    root := INVALID_ID;
    ghost var V, use, c := catalog.space.View(), catalog.space.use, catalog.list.Dir();
    ghost var calm := Calm(catalog, CallCost(|V|));
    var table;
    s, table := OpenTable(catalog, name);
    if s.Error? {
      NothingRan(V, use, c, name, s, Changed(id, None));
      return;
    }
    root := table.list.root;
    table.AsListing();
    ghost var t := table.list.Dir();
    DirectoryIds(V, use, t);
    if calm { CalmTable(table, id, RowStatus(V, table.dataPages, id)); }
    s := table.Delete(id);
    table.AsListing();
    ChangeEffect(V, t, catalog.space.View(), use, s, id, None);
    TableRan(V, use, c, t, catalog.space.View(), use, table.list.Dir(), name, s, Changed(id, None));
  }

  /** Visits the rows of a named table in directory-then-slot order until the visitor stops. */
  method Scan(catalog: TableCatalog, name: seq<byte>, goOn: (RecordId, seq<byte>) -> bool)
    returns (s: Status, seen: seq<(RecordId, seq<byte>)>, ghost root: nat)
    requires catalog.Valid()
    modifies catalog.space.pool`frames, catalog.space.pool`clock, catalog.space.pool`held, catalog.space.pool`recency,
             catalog.space.pool.storage, catalog.space.pool.sink
    ensures catalog.Valid() && catalog.space.pool.held == old(catalog.space.pool.held)
    ensures catalog.space.View() == old(catalog.space.View())
    ensures !Named(catalog.entries, name) ==> s == Error(NotFound)
    ensures s.Ok? ==>
              var ids := IdsOf(catalog.space.View(), catalog.space.use, root);
              && TableEntry(name, root) in catalog.entries && HeapTable.Listed(catalog.space.View(), ids)
              && seen == Seen(AllRows(catalog.space.View(), ids), goOn)
    ensures old(catalog.space.pool.Slack()) >= 0 ==> catalog.space.pool.Slack() == old(catalog.space.pool.Slack())
    ensures old(Calm(catalog, CallCost(|catalog.space.View()|))) ==> (s.Ok? <==> Named(catalog.entries, name))
  {
    hide Space.Valid, Space.View, Well, InMemory, Sole, NamesOk, Tables, IsDirectory, Ids, Pool.Slack, Named, WalkCost,
      IdsOf, AllRows, Seen, HeapTable.Listed;
    seen, root := [], INVALID_ID;
    ghost var V, use := catalog.space.View(), catalog.space.use;
    var table;
    s, table := OpenTable(catalog, name);
    if s.Error? { return; }
    root := table.list.root;
    table.AsListing();
    DirectoryIds(V, use, table.list.Dir());
    RoomInFile(table);
    s, seen := table.Scan(goOn);
  }
}
