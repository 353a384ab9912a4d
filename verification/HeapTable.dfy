/**
 Heap tables: records spread over data pages that a chain of directory pages
 lists. Every operation is proved against the table's map from record ids to
 bytes, keeps the in-memory directory equal to the on-page chain, leaks no pin,
 and touches no page of another table.
 */
module HeapTable {
  import opened Bytes
  import opened Results
  import opened CrashMachine
  import opened CrashSafety
  import opened Chain
  import opened Structure
  import opened CrashConsistency
  import opened BufferPool
  import opened PageSpace
  import opened Walk
  import L = LogFormat
  import opened TableRows
  import opened Directory
  import opened LinkedPages
  import SP = SlottedPage
  import SlottedPageFacts

  class Table {
    const space: Space
    const list: Linked  // the directory
    var dataPages: seq<nat>
    var lastDataPage: nat

    ghost predicate Valid()
      reads this, list, space, space.pool, space.pool.storage, space.pool.sink, space.pool.held.Keys
    {
      && list.space == space && list.kind == Kind.Directory && list.Valid() && dataPages == Ids(list.raw)
      && (lastDataPage == INVALID_ID || lastDataPage in dataPages)
    }

    constructor (list: Linked, dataPages: seq<nat>)
      ensures this.space == list.space && this.list == list && this.dataPages == dataPages
      ensures lastDataPage == if dataPages == [] then INVALID_ID else dataPages[|dataPages| - 1]
    {
      this.space := list.space;
      this.list := list;
      this.dataPages := dataPages;
      this.lastDataPage := if dataPages == [] then INVALID_ID else dataPages[|dataPages| - 1];
    }

    /** The table as its listing. */
    lemma AsListing()
      requires Valid()
      ensures space.Valid() && IsDirectory(space.View(), space.use, list.Dir()) && dataPages == Ids(list.Dir().raw)
    {
      hide Space.Valid, Space.View, InMemory, Ids;
      space.Facts();
    }

    /** The listed pages are sound data pages, all different. */
    lemma Facts()
      requires Valid()
      ensures space.Valid() && |space.View()| == |space.use| <= INVALID_ID && Pages(space.View(), dataPages)
      ensures forall i :: 0 <= i < |dataPages| ==> dataPages[i] < |space.View()| && space.use[dataPages[i]] == Data
      ensures lastDataPage == INVALID_ID || lastDataPage in dataPages
    {
      hide Space.Valid, Space.View, InMemory, Ids, Pages;
      space.Facts();
      DirectoryFacts(space.View(), space.use, list.Dir());
    }

    /** Inserts into one page, or reports why not and changes nothing. */
    method TryInsertIntoPage(page: nat, data: seq<byte>) returns (s: Status, slot: nat)
      requires Valid() && page < |space.View()| && page < |space.use| && space.use[page] == Data
      modifies space.pool`frames, space.pool`clock, space.pool`held, space.pool`recency, space.pool.storage,
               space.pool.sink
      ensures Valid() && space.pool.held == old(space.pool.held)
      ensures s.Ok? ==>
                && SP.InsertStatus(old(space.View())[page], data).Ok? && slot == SP.SlotCount(old(space.View())[page])
                && space.View() == old(space.View())[page := SP.Inserted(old(space.View())[page], data)]
      ensures s.Error? ==> space.View() == old(space.View())
      ensures space.pool.clock <= old(space.pool.clock) + 1 && space.pool.Reach() == old(space.pool.Reach())
      ensures old(space.pool.Slack()) >= 0 ==>
                space.pool.Slack() >= old(space.pool.Slack()) - (if s.Ok? then L.RECORD_SIZE else 0)
      ensures old(space.pool.Sure(1)) ==>
                s == if page in old(space.pool.Reach()) then SP.InsertStatus(old(space.View())[page], data)
                    else Error(BufferFull)
    {
      hide Space.Valid, Space.View, InMemory, SP.InsertStatus, SP.Inserted, SP.SlotCount, Precedes, Well, Ids,
        Pool.Slack, Pool.Fuel, Pool.Sure, Pool.Residents, Pool.Jammed;
      slot := INVALID_SLOT;
      ghost var V := space.View();
      var h, p;
      s, h, p := space.Pin(page);
      if s.Error? { return; }
      s := SP.InsertStatus(p, data);
      if s.Ok? {
        slot := SP.SlotCount(p);
        space.Facts();
        InsertFits(V, space.use, list.Dir(), page, data);
        space.Store(h, page, SP.Inserted(p, data));
      }
      space.Drop(h);
    }

    /** Adds a data page to the directory. A failure leaves the listed pages as they were. */
    method AppendDataPageId(id: nat) returns (s: Status)
      requires
        && Valid() && id < |space.View()| == |space.use| <= INVALID_ID
        && MayList(space.View(), space.use, Kind.Directory, Encode(id, 4))
      modifies this`dataPages, list, space`use, space.pool`frames, space.pool`clock, space.pool`held,
               space.pool`recency, space.pool.storage, space.pool.sink
      ensures Valid() && space.pool.held == old(space.pool.held)
      ensures
        && Touches(old(space.View()), space.View(), old(list.chain))
        && UseGrows(old(space.use), space.use, Kind.Directory)
      ensures dataPages == if s.Ok? then old(dataPages) + [id] else old(dataPages)
      ensures space.pool.clock <= old(space.pool.clock) + 2
      ensures old(space.pool.Slack()) >= L.RECORD_SIZE ==>
                space.pool.Slack() >= old(space.pool.Slack()) - 2 * L.RECORD_SIZE
      ensures old(space.pool.Slack()) >= L.RECORD_SIZE && old(space.pool.Fuel()) >= 2 ==>
                |old(space.View())| < INVALID_ID ==> s.Ok?
    {
      hide Space.Valid, Space.View, InMemory, MayList, LinkPage, Encode, Ids, Pool.Slack, Pool.Fuel;
      s := list.Append(Encode(id, 4));
      if s.Ok? {
        IdsConcat(old(list.raw), [Encode(id, 4)]);
        EncodedId(id);
        dataPages := dataPages + [id];
      }
    }

    // ---- operations ------------------------------------------------------------------

    /** Inserts into a page of the table. */
    method TryListed(page: nat, data: seq<byte>) returns (s: Status, id: RecordId)
      requires Valid() && page in dataPages && 0 < |data| <= SP.MAX_RECORD_SIZE
      modifies space.pool`frames, space.pool`clock, space.pool`held, space.pool`recency, space.pool.storage,
               space.pool.sink
      ensures Valid() && space.pool.held == old(space.pool.held)
      ensures s.Ok? ==>
                && RowAdded(old(space.View()), dataPages, space.View(), dataPages, id, data)
                && Touches(old(space.View()), space.View(), dataPages)
      ensures s.Error? ==> space.View() == old(space.View())
      ensures
        && space.pool.clock <= old(space.pool.clock) + 1 && space.pool.Reach() == old(space.pool.Reach())
        && id.page == page
      ensures old(space.pool.Slack()) >= 0 ==>
                space.pool.Slack() >= old(space.pool.Slack()) - (if s.Ok? then L.RECORD_SIZE else 0)
      ensures old(space.pool.Sure(1)) ==> s == TakeStatus(old(space.View()), page, data, old(space.pool.Reach()))
    {
      hide Space.Valid, Space.View, SP.InsertStatus, SP.Inserted, SP.SlotCount, RowAdded, Linked.Valid, Ids, Pool.Slack,
        Pool.Sure, Pool.Reach, Room;
      ghost var V := space.View();
      Facts();
      OnlyFull(V, dataPages, page, data);
      var slot;
      s, slot := TryInsertIntoPage(page, data);
      id := RecordId(page, slot);
      if s.Ok? { InsertRow(V, dataPages, page, data); }
    }

    /**
     Tries the page used last, then every other one. A full page, or a pool with
     no free frame, means: try the next.
     */
    method InsertExisting(data: seq<byte>) returns (s: Status, id: RecordId)
      requires Valid() && 0 < |data| <= SP.MAX_RECORD_SIZE
      modifies this`lastDataPage, space.pool`frames, space.pool`clock, space.pool`held, space.pool`recency,
               space.pool.storage, space.pool.sink
      ensures Valid() && space.pool.held == old(space.pool.held)
      ensures s.Ok? ==>
                && RowAdded(old(space.View()), dataPages, space.View(), dataPages, id, data)
                && Touches(old(space.View()), space.View(), dataPages)
      ensures s.Error? ==> space.View() == old(space.View())
      ensures
        && space.pool.clock <= old(space.pool.clock) + |dataPages| + 1 && space.pool.Reach() == old(space.pool.Reach())
      ensures old(space.pool.Slack()) >= 0 ==>
                space.pool.Slack() >= old(space.pool.Slack()) - (if s.Ok? then L.RECORD_SIZE else 0)
      ensures old(space.pool.Sure(|dataPages| + 1)) ==>
                if AnyRoom(old(space.View()), dataPages, data, old(space.pool.Reach()))
                then s.Ok? && FirstFit(old(space.View()), dataPages, old(lastDataPage), data, old(space.pool.Reach()),
                                       id.page)
                else s == Error(BufferFull)
    {
      hide Space.Valid, Space.View, RowAdded, Linked.Valid, Ids, Touches, Pool.Slack, Pool.Reach, TakeStatus, AnyRoom,
        FirstFit, Untaken;
      ghost var V, reach, last := space.View(), space.pool.Reach(), lastDataPage;
      Facts();
      if lastDataPage != INVALID_ID {
        s, id := TryListed(lastDataPage, data);
        TakesLast(V, dataPages, last, data, reach);
        if s.Ok? || s.code != BufferFull { return; }
      }
      NoneTaken(V, dataPages, last, data, reach);
      s, id := TryOthers(data);
    }

    /** Every page but the one used last, in directory order. */
    method TryOthers(data: seq<byte>) returns (s: Status, id: RecordId)
      requires Valid() && 0 < |data| <= SP.MAX_RECORD_SIZE
      modifies this`lastDataPage, space.pool`frames, space.pool`clock, space.pool`held, space.pool`recency,
               space.pool.storage, space.pool.sink
      ensures Valid() && space.pool.held == old(space.pool.held)
      ensures s.Ok? ==>
                && RowAdded(old(space.View()), dataPages, space.View(), dataPages, id, data)
                && Touches(old(space.View()), space.View(), dataPages)
      ensures s.Error? ==> space.View() == old(space.View())
      ensures space.pool.clock <= old(space.pool.clock) + |dataPages| && space.pool.Reach() == old(space.pool.Reach())
      ensures old(space.pool.Slack()) >= 0 ==>
                space.pool.Slack() >= old(space.pool.Slack()) - (if s.Ok? then L.RECORD_SIZE else 0)
      ensures
        && old(space.pool.Sure(|dataPages|))
        && Untaken(old(space.View()), dataPages, 0, old(lastDataPage), data, old(space.pool.Reach())) ==>
                if AnyRoom(old(space.View()), dataPages, data, old(space.pool.Reach()))
                then s.Ok? && FirstFit(old(space.View()), dataPages, old(lastDataPage), data, old(space.pool.Reach()),
                                       id.page)
                else s == Error(BufferFull)
    {
      hide Space.Valid, Space.View, RowAdded, Linked.Valid, Ids, Touches, Pool.Slack, Pool.Reach, TakeStatus, AnyRoom,
        FirstFit, Untaken;
      id := RecordId(INVALID_ID, INVALID_SLOT);
      ghost var V, reach, last := space.View(), space.pool.Reach(), lastDataPage;
      ghost var sure := space.pool.Sure(|dataPages|) && Untaken(V, dataPages, 0, last, data, reach);
      for i := 0 to |dataPages|
        invariant Valid() && space.View() == V && space.pool.held == old(space.pool.held)
        invariant lastDataPage == last && space.pool.clock <= old(space.pool.clock) + i
        invariant
          && space.pool.Reach() == reach
          && (old(space.pool.Slack()) >= 0 ==> space.pool.Slack() >= old(space.pool.Slack()))
        invariant sure ==> Untaken(V, dataPages, i, last, data, reach)
      {
        var page := dataPages[i];
        TakesNext(V, dataPages, i, last, data, reach);
        if page == lastDataPage { continue; }
        s, id := TryListed(page, data);
        if s.Ok? {
          lastDataPage := page;
          return;
        }
        if s.code != BufferFull { return; }
      }
      AllUntaken(V, dataPages, last, data, reach);
      return Error(BufferFull), id;
    }

    /** Allocates and initialises a data page that nothing lists yet. */
    method AllocateDataPage() returns (s: Status, page: nat)
      requires Valid()
      modifies space`use, space.pool.storage
      ensures
        && Valid() && SameRows(old(space.View()), dataPages, space.View(), dataPages)
        && Touches(old(space.View()), space.View(), [])
      ensures UseGrows(old(space.use), space.use, Kind.Directory)
      ensures s.Ok? ==>
                && page == |old(space.View())| && space.View() == old(space.View()) + [SP.EmptyPage()]
                && space.use == old(space.use) + [Data] && Unlisted(space.View(), space.use, page)
      ensures space.pool.Slack() == old(space.pool.Slack())
      ensures old(space.pool.Slack()) >= 0 ==> (s.Ok? <==> |old(space.View())| < INVALID_ID)
    {
      hide Space.Valid, Space.View, InMemory, SameRows, LinkPage, Pages, Unlisted, SP.EmptyPage, SP.Sound, Ids,
        Pool.Slack;
      ghost var V, use, d := space.View(), space.use, list.Dir();
      Facts();
      SlottedPageFacts.EmptySound();
      space.Facts();
      s, page := space.Add(SP.EmptyPage(), Data);
      space.Facts();
      AddedRows(V, space.View(), dataPages);
      if s.Error? {
        AddedFrame(V, space.View(), use, space.use, d);
      } else {
        DataPageFrame(V, use, d);
      }
    }

    /** Puts the record on a new page and only then lists the page. With every frame pinned the page stays unlisted. */
    method InsertFresh(data: seq<byte>) returns (s: Status, id: RecordId)
      requires Valid() && 0 < |data| <= SP.MAX_RECORD_SIZE
      modifies this, list, space`use, space.pool`frames, space.pool`clock, space.pool`held, space.pool`recency,
               space.pool.storage, space.pool.sink
      ensures Valid() && space.pool.held == old(space.pool.held)
      ensures
        && Touches(old(space.View()), space.View(), old(list.chain))
        && UseGrows(old(space.use), space.use, Kind.Directory)
      ensures s.Ok? ==> RowAdded(old(space.View()), old(dataPages), space.View(), dataPages, id, data)
      ensures s.Error? ==> SameRows(old(space.View()), old(dataPages), space.View(), dataPages)
      ensures s.Ok? ==> id.page == |old(space.View())| && dataPages == old(dataPages) + [id.page]
      ensures space.pool.clock <= old(space.pool.clock) + 3
      ensures old(space.pool.Slack()) >= 2 * L.RECORD_SIZE ==>
                space.pool.Slack() >= old(space.pool.Slack()) - 3 * L.RECORD_SIZE
      ensures
        && old(space.pool.Slack()) >= 2 * L.RECORD_SIZE && old(space.pool.Sure(3))
        && |old(space.View())| + 1 < INVALID_ID ==>
                if old(space.pool.Jammed()) then
                  s == Error(BufferFull) && dataPages == old(dataPages)
                      && space.View() == old(space.View()) + [SP.EmptyPage()]
                else s.Ok?
    {
      hide Space.Valid, Space.View, InMemory, SP.InsertStatus, SP.Inserted, SP.SlotCount, RowAdded, SameRows, LinkPage,
        Unlisted, SP.EmptyPage, Ids, MayList, Touches, UseGrows, Well, Pool.Slack, Pool.Reach;
      id := RecordId(INVALID_ID, INVALID_SLOT);
      ghost var V, use, d := space.View(), space.use, list.Dir();
      space.Facts();
      space.ResidentsInFile();
      var page;
      s, page := AllocateDataPage();
      TouchesMore(V, space.View(), list.chain);
      if s.Error? { return; }
      space.NewReach(page);
      ghost var W := space.View();
      var slot;
      EmptyHasRoom(data);
      s, slot := TryInsertIntoPage(page, data);
      id := RecordId(page, slot);
      if s.Error? { return; }
      ghost var X := space.View();
      space.Facts();
      FreshRow(V, use, d, W, X, data);
      UnlistedMayList(X, space.use, page);
      ghost var listed := space.use;
      s := AppendDataPageId(page);
      UseGrowsTrans(use, listed, space.use, Kind.Directory);
      FreshListed(V, use, d, X, space.View(), dataPages, data, s);
      if s.Ok? { lastDataPage := page; }
    }

    /**
     Adds a record under an id that was never handed out; a failure changes no
     row. When no call can fail, a record of a legal size goes to the first page
     that takes it, and to a new page if no listed one does. If handles pin every
     frame, only resident pages can be tried; then a record none of them takes is
     refused, and the file has grown by a page that nothing lists.
     */
    method Insert(data: seq<byte>) returns (s: Status, id: RecordId)
      requires Valid()
      modifies this, list, space`use, space.pool`frames, space.pool`clock, space.pool`held, space.pool`recency,
               space.pool.storage, space.pool.sink
      ensures Valid() && space.pool.held == old(space.pool.held)
      ensures
        && Touches(old(space.View()), space.View(), old(list.chain) + old(dataPages))
        && UseGrows(old(space.use), space.use, Kind.Directory)
      ensures s.Ok? ==> RowAdded(old(space.View()), old(dataPages), space.View(), dataPages, id, data)
      ensures s.Error? ==> SameRows(old(space.View()), old(dataPages), space.View(), dataPages)
      ensures data == [] ==> s == Error(InvalidArgument)
      ensures |data| > SP.MAX_RECORD_SIZE ==> s == Error(BufferFull)
      ensures space.pool.clock <= old(space.pool.clock) + |old(dataPages)| + 4
      ensures old(space.pool.Slack()) >= 3 * L.RECORD_SIZE ==>
                space.pool.Slack() >= old(space.pool.Slack()) - 3 * L.RECORD_SIZE
      ensures 0 < |data| <= SP.MAX_RECORD_SIZE && old(Unhindered()) ==>
                if AnyRoom(old(space.View()), old(dataPages), data, old(space.pool.Reach())) then
                  && s.Ok? && dataPages == old(dataPages)
                  && FirstFit(old(space.View()), old(dataPages), old(lastDataPage), data, old(space.pool.Reach()),
                              id.page)
                else if !old(space.pool.Jammed()) then
                  s.Ok? && id.page == |old(space.View())| && dataPages == old(dataPages) + [id.page]
                else
                  s == Error(BufferFull) && dataPages == old(dataPages)
                      && space.View() == old(space.View()) + [SP.EmptyPage()]
    {
      hide Space.Valid, Space.View, InMemory, RowAdded, LinkPage, Issued, Lookup, Room, Pool.Slack, Pool.Reach,
        SP.EmptyPage;
      id := RecordId(INVALID_ID, INVALID_SLOT);
      if data == [] { return Error(InvalidArgument), id; }
      if |data| > SP.MAX_RECORD_SIZE { return Error(BufferFull), id; }
      s, id := InsertExisting(data);
      if s.Ok? || s.code != BufferFull { return; }
      s, id := InsertFresh(data);
    }

    /** No call can fail, the log and the file have room, and the access clock is not about to run out. */
    ghost predicate Unhindered()
      reads this, space.pool, space.pool.storage, space.pool.sink
    {
      && space.pool.Slack() >= 3 * L.RECORD_SIZE && space.pool.Sure(|dataPages| + 4)
      && |space.View()| + 1 < INVALID_ID
    }

    /** An id that names a page this table lists. */
    method IsDataPage(page: nat) returns (yes: bool)
      ensures yes <==> page in dataPages
    {
      for i := 0 to |dataPages|
        invariant page !in dataPages[..i]
      {
        if dataPages[i] == page { return true; }
      }
      return false;
    }

    /** Reads a record. */
    method Get(id: RecordId) returns (s: Status, data: seq<byte>)
      requires Valid()
      modifies space.pool`frames, space.pool`clock, space.pool`held, space.pool`recency, space.pool.storage,
               space.pool.sink
      ensures Valid() && space.pool.held == old(space.pool.held) && space.View() == old(space.View())
      ensures s.Ok? ==> Lookup(space.View(), dataPages, id) == Some(data)
      ensures
        && space.pool.clock <= old(space.pool.clock) + 1
        && (old(space.pool.Slack()) >= 0 ==> space.pool.Slack() == old(space.pool.Slack()))
      ensures old(space.pool.Sure(1)) ==>
                s == Reached(dataPages, id, old(space.pool.Reach()), RowStatus(space.View(), dataPages, id))
      ensures s == Error(NotFound) || s == Error(InvalidArgument) ==> Lookup(space.View(), dataPages, id) == None
    {
      hide Space.Valid, Space.View, InMemory, LinkPage, SP.ReadStatus, SP.Valid, SP.Slots, SP.SlotCount, Pages,
        RowStatus, Pool.Slack, Pool.Fuel, Pool.Sure, Pool.Residents, Pool.Jammed, Pool.Reach;
      data := [];
      Facts();
      ReadIsRowStatus(space.View(), dataPages, id);
      if id.page == INVALID_ID || id.slot == INVALID_SLOT {
        NoSuchId(space.View(), dataPages, id);
        return Error(InvalidArgument), data;
      }
      var listed := IsDataPage(id.page);
      if !listed { return Error(NotFound), data; }
      var h, p;
      s, h, p := space.Pin(id.page);
      if s.Error? { return; }
      s := SP.ReadStatus(p, id.slot);
      ReadMeaning(space.View(), dataPages, id);
      if s.Ok? { data := SP.Slots(p)[id.slot]; }
      space.Drop(h);
    }

    /** Replaces a record; the id stays. A failure changes no row. */
    method Update(id: RecordId, data: seq<byte>) returns (s: Status)
      requires Valid()
      modifies space.pool`frames, space.pool`clock, space.pool`held, space.pool`recency, space.pool.storage,
               space.pool.sink
      ensures Valid() && space.pool.held == old(space.pool.held) && Touches(old(space.View()), space.View(), dataPages)
      ensures s.Ok? ==> RowChanged(old(space.View()), dataPages, space.View(), dataPages, id, Some(data))
      ensures s.Error? ==> space.View() == old(space.View())
      ensures data == [] ==> s == Error(InvalidArgument)
      ensures |data| > SP.MAX_RECORD_SIZE ==> s == Error(BufferFull)
      ensures space.pool.clock <= old(space.pool.clock) + 1
      ensures old(space.pool.Slack()) >= 0 ==> space.pool.Slack() >= old(space.pool.Slack()) - L.RECORD_SIZE
      ensures old(space.pool.Sure(1)) && 0 < |data| <= SP.MAX_RECORD_SIZE ==>
                s == Reached(dataPages, id, old(space.pool.Reach()),
                             UpdatedStatus(old(space.View()), dataPages, id, data))
    {
      hide Space.Valid, Space.View, RowChanged, SP.StatusOf, Linked.Valid, Ids, SP.Valid, SP.Sound, SP.FreeEnd,
        SP.FreeStart, Pool.Slack, Pool.Sure, Pool.Reach, UpdatedStatus, Reached;
      if data == [] { return Error(InvalidArgument); }
      if |data| > SP.MAX_RECORD_SIZE { return Error(BufferFull); }
      Facts();
      UpdateMeaning(space.View(), dataPages, id, data);
      s := ChangeRecord(id, SP.Update(id.slot, data));
    }

    /** Deletes a record; its id is never handed out again. A failure changes no row. */
    method Delete(id: RecordId) returns (s: Status)
      requires Valid()
      modifies space.pool`frames, space.pool`clock, space.pool`held, space.pool`recency, space.pool.storage,
               space.pool.sink
      ensures Valid() && space.pool.held == old(space.pool.held) && Touches(old(space.View()), space.View(), dataPages)
      ensures s.Ok? ==> RowChanged(old(space.View()), dataPages, space.View(), dataPages, id, None)
      ensures s.Error? ==> space.View() == old(space.View())
      ensures space.pool.clock <= old(space.pool.clock) + 1
      ensures old(space.pool.Slack()) >= 0 ==> space.pool.Slack() >= old(space.pool.Slack()) - L.RECORD_SIZE
      ensures old(space.pool.Sure(1)) ==>
                s == Reached(dataPages, id, old(space.pool.Reach()), RowStatus(old(space.View()), dataPages, id))
    {
      hide Space.Valid, Space.View, RowChanged, RowStatus, SP.StatusOf, Linked.Valid, Ids, SP.Valid, SP.Sound,
        Pool.Slack, Pool.Sure, Pool.Reach, Reached;
      Facts();
      DeleteMeaning(space.View(), dataPages, id);
      s := ChangeRecord(id, SP.Delete(id.slot));
    }

    /** What update and delete share: find the page, apply the page operation. */
    method ChangeRecord(id: RecordId, op: SP.Op) returns (s: Status)
      requires Valid() && (op.Update? || op.Delete?) && op.slot == id.slot
      modifies space.pool`frames, space.pool`clock, space.pool`held, space.pool`recency, space.pool.storage,
               space.pool.sink
      ensures Valid() && space.pool.held == old(space.pool.held) && Touches(old(space.View()), space.View(), dataPages)
      ensures s.Ok? ==> RowChanged(old(space.View()), dataPages, space.View(), dataPages, id,
                                   if op.Update? then Some(op.data) else None)
      ensures s.Error? ==> space.View() == old(space.View())
      ensures space.pool.clock <= old(space.pool.clock) + 1
      ensures old(space.pool.Slack()) >= 0 ==> space.pool.Slack() >= old(space.pool.Slack()) - L.RECORD_SIZE
      ensures old(space.pool.Sure(1)) ==>
                s == Reached(dataPages, id, old(space.pool.Reach()), ChangeStatus(old(space.View()), dataPages, id, op))
    {
      hide Space.Valid, Space.View, InMemory, LinkPage, SP.StatusOf, SP.Apply, SP.Valid, Pages, RowChanged, Precedes,
        Well, Pool.Slack, Pool.Fuel, Pool.Sure, Pool.Residents, Pool.Jammed, Pool.Reach;
      ghost var V := space.View();
      Facts();
      if id.page == INVALID_ID || id.slot == INVALID_SLOT { return Error(InvalidArgument); }
      var listed := IsDataPage(id.page);
      if !listed { return Error(NotFound); }
      var h, p;
      s, h, p := space.Pin(id.page);
      if s.Error? { return; }
      s := SP.StatusOf(p, op);
      if s.Ok? {
        ChangeRow(V, dataPages, id, op);
        space.Facts();
        ChangeFits(V, space.use, list.Dir(), id.page, SP.Apply(p, op));
        space.Store(h, id.page, SP.Apply(p, op));
      }
      space.Drop(h);
    }

    /** Visits the live records in directory-then-slot order until the visitor stops. */
    method Scan(goOn: (RecordId, seq<byte>) -> bool) returns (s: Status, seen: seq<(RecordId, seq<byte>)>)
      requires Valid()
      modifies space.pool`frames, space.pool`clock, space.pool`held, space.pool`recency, space.pool.storage,
               space.pool.sink
      ensures Valid() && space.pool.held == old(space.pool.held) && space.View() == old(space.View())
      ensures s.Ok? ==> Listed(space.View(), dataPages) && seen == Seen(AllRows(space.View(), dataPages), goOn)
      ensures space.pool.clock <= old(space.pool.clock) + |dataPages|
      ensures old(space.pool.Slack()) >= 0 ==> space.pool.Slack() == old(space.pool.Slack())
      ensures old(space.pool.Slack()) >= 0 && old(space.pool.Fuel()) >= |dataPages| ==> s.Ok?
    {
      hide Space.Valid, Space.View, InMemory, LinkPage, SP.Valid, SP.LiveSlots, SP.SlotCount, Pages, AllRows, Seen,
        SP.Sound, Pool.Slack, Pool.Sure, Pool.Residents, Pool.Jammed, Pool.Reach;
      ghost var V := space.View();
      Facts();
      PagesListed(V, dataPages);
      seen := [];
      NoRows(V, goOn);
      for i := 0 to |dataPages|
        invariant Valid() && space.pool.held == old(space.pool.held) && space.View() == V
        invariant space.pool.clock <= old(space.pool.clock) + i
        invariant old(space.pool.Slack()) >= 0 ==> space.pool.Slack() == old(space.pool.Slack())
        invariant seen == AllRows(V, dataPages[..i]) && Seen(seen, goOn) == seen && AllGo(seen, goOn)
      {
        var page := dataPages[i];
        var h, p;
        s, h, p := space.Pin(page);
        if s.Error? { return; }
        space.Drop(h);
        var rows := PageRows(page, SP.LiveSlots(p, SP.SlotCount(p)));
        var stop := FirstStop(rows, goOn);
        ScanStep(V, dataPages, i, rows, stop, goOn);
        if stop < |rows| {
          return Ok, seen + rows[..stop + 1];
        }
        seen := seen + rows;
      }
      assert dataPages[..|dataPages|] == dataPages;
      return Ok, seen;
    }
  }

  /** A table's directory in a well-formed file. */
  ghost predicate IsDirectory(V: seq<Page>, use: seq<Use>, d: Listing) {
    Well(V, use) && d.kind == Kind.Directory && LinkPage(use, d.kind, d.root) && InMemory(V, d)
  }

  /** The pages it lists are sound data pages, all different; its own pages are directory pages. */
  lemma DirectoryFacts(V: seq<Page>, use: seq<Use>, d: Listing)
    requires IsDirectory(V, use, d)
    ensures |V| == |use| <= INVALID_ID && Pages(V, Ids(d.raw))
    ensures forall i :: 0 <= i < |Ids(d.raw)| ==> Ids(d.raw)[i] < |V| && use[Ids(d.raw)[i]] == Data
    ensures forall i :: 0 <= i < |d.chain| ==> d.chain[i] < |V| && use[d.chain[i]] == Link(Kind.Directory)
  {
    hide Follow, Well, HeaderOk, NextOf, SP.Sound, AllEntries;
    ListingFacts(V, use, d);
    TableData(V, use, d.root);
  }

  lemma EncodedId(id: nat)
    requires id < 0x1_0000_0000
    ensures IdOf(Encode(id, 4)) == id && Ids([Encode(id, 4)]) == [id]
  {
    hide Encode, Decode;
    RadixValues();
    DecodeEncode(id, 4);
  }

  /** Nothing lists page id. */
  ghost predicate Unlisted(V: seq<Page>, use: seq<Use>, id: nat)
    requires |V| == |use|
  {
    forall p: nat, i: nat :: Lists(V, use, Kind.Directory, p, i) ==> IdOf(EntryAt(Kind.Directory, V[p], i)) != id
  }

  lemma UnlistedMayList(V: seq<Page>, use: seq<Use>, id: nat)
    requires |V| == |use| <= INVALID_ID && id < |V| && use[id] == Data && Unlisted(V, use, id)
    ensures MayList(V, use, Kind.Directory, Encode(id, 4))
  {
    hide HeaderOk, NextOf, EntryAt, Encode, IdOf;
    EncodedId(id);
  }

  /** A page that was just added is listed nowhere. */
  lemma AddedUnlisted(V: seq<Page>, use: seq<Use>, image: Page)
    requires Well(V, use) && |V| < INVALID_ID && SP.Sound(image)
    ensures Unlisted(V + [image], use + [Data], |V|)
  {
    hide SP.Sound, HeaderOk, NextOf, EntryAt, PageOk, LinksOk, Clash;
    forall p: nat, i: nat | Lists(V + [image], use + [Data], Kind.Directory, p, i)
      ensures IdOf(EntryAt(Kind.Directory, (V + [image])[p], i)) != |V|
    {
      AddedEntry(V, use, Data, image, Kind.Directory, p, i);
      assert EntryOk(V, use, Kind.Directory, p, i);
    }
  }

  /** Listing depends on the linked pages only. */
  lemma UnlistedFrame(V: seq<Page>, use: seq<Use>, W: seq<Page>, used: seq<Use>, id: nat)
    requires |V| == |use| && |W| == |used| && Unlisted(V, use, id)
    requires forall p: nat, i: nat :: Lists(W, used, Kind.Directory, p, i) ==>
               Lists(V, use, Kind.Directory, p, i)
                   && EntryAt(Kind.Directory, W[p], i) == EntryAt(Kind.Directory, V[p], i)
    ensures Unlisted(W, used, id)
  {
    hide HeaderOk, EntryAt, IdOf;
  }

  lemma InsertFits(V: seq<Page>, use: seq<Use>, d: Listing, page: nat, data: seq<byte>)
    requires IsDirectory(V, use, d)
    requires page < |V| == |use| && use[page] == Data && SP.InsertStatus(V[page], data).Ok?
    ensures var q := SP.Inserted(V[page], data);
            && SP.Sound(q) && Precedes(use[page], V[page], q) && Precedes(use[page], q, q)
            && Well(V[page := q], use) && InMemory(V[page := q], d)
  {
    hide SP.Sound, SP.InsertStatus, SP.Inserted, Well, InMemory;
    PrecedesSelf(V, use, page);
    SlottedPageFacts.InsertMeaning(V[page], data);
    ChangeFits(V, use, d, page, SP.Inserted(V[page], data));
  }

  lemma ChainAvoids(use: seq<Use>, chain: seq<nat>, page: nat)
    requires forall i :: 0 <= i < |chain| ==> chain[i] < |use| && use[chain[i]] == Link(Kind.Directory)
    requires page < |use| && use[page] == Data
    ensures page !in chain
  {
  }

  /** A page added behind the file changes no row. */
  lemma AddedRows(V: seq<Page>, W: seq<Page>, ids: seq<nat>)
    requires Pages(V, ids) && |V| <= |W| && W[..|V|] == V
    ensures SameRows(V, ids, W, ids) && Touches(V, W, [])
  {
    hide SP.Sound, SameRows;
    assert forall p: nat :: p < |V| ==> W[p] == W[..|V|][p];
    RowsFrame(V, ids, W);
  }

  lemma DataPageFrame(V: seq<Page>, use: seq<Use>, d: Listing)
    requires IsDirectory(V, use, d) && |V| < INVALID_ID
    ensures var W, used := V + [SP.EmptyPage()], use + [Data];
            && InMemory(W, d) && LinkPage(used, Kind.Directory, d.root) && Unlisted(W, used, |V|) && W[..|V|] == V
  {
    hide SP.Sound, Well, SP.EmptyPage, Unlisted, HeaderOk, NextOf, AllEntries, Ids;
    SlottedPageFacts.EmptySound();
    DirectoryFacts(V, use, d);
    InMemoryFrame(V, V + [SP.EmptyPage()], d);
    AddedUnlisted(V, use, SP.EmptyPage());
  }

  /** The new page holds the one record and is still listed nowhere. */
  lemma FreshRow(V: seq<Page>, use: seq<Use>, d: Listing, W: seq<Page>, X: seq<Page>, data: seq<byte>)
    requires IsDirectory(V, use, d) && |V| < INVALID_ID
    requires W == V + [SP.EmptyPage()] && SP.InsertStatus(W[|V|], data).Ok? && X == W[|V| := SP.Inserted(W[|V|], data)]
    ensures SP.SlotCount(W[|V|]) == 0 && SP.Valid(X[|V|]) && SP.Slots(X[|V|]) == [data] && data != []
    ensures X[..|V|] == V && Unlisted(X, use + [Data], |V|)
  {
    hide SP.Sound, Well, SP.EmptyPage, Unlisted, HeaderOk, NextOf, AllEntries, Ids, SP.Inserted, SP.InsertStatus,
      SP.SlotCount, SP.Valid, SP.Slots, EntryAt;
    SlottedPageFacts.EmptySound();
    DirectoryFacts(V, use, d);
    DataPageFrame(V, use, d);
    TableRows.PageOp(SP.EmptyPage(), SP.Insert(data));
    InsertApplies(SP.EmptyPage(), data);
    UnlistedFrame(W, use + [Data], X, use + [Data], |V|);
  }

  lemma InsertApplies(p: Page, data: seq<byte>)
    requires SP.InsertStatus(p, data).Ok?
    ensures SP.StatusOf(p, SP.Insert(data)).Ok? && SP.Apply(p, SP.Insert(data)) == SP.Inserted(p, data) && data != []
  {
    hide SP.Inserted;
  }

  /** Listing the new page adds its record; failing to list it adds nothing. */
  lemma FreshListed(V: seq<Page>, use: seq<Use>, d: Listing, X: seq<Page>, Y: seq<Page>, ids: seq<nat>, data: seq<byte>,
                    s: Status)
    requires IsDirectory(V, use, d)
    requires
      && |V| < |X| && X[..|V|] == V && SP.Valid(X[|V|]) && SP.Slots(X[|V|]) == [data] && data != []
      && Touches(X, Y, d.chain)
    requires ids == if s.Ok? then Ids(d.raw) + [|V|] else Ids(d.raw)
    ensures Touches(V, Y, d.chain)
    ensures s.Ok? ==> RowAdded(V, Ids(d.raw), Y, ids, RecordId(|V|, 0), data)
    ensures s.Error? ==> SameRows(V, Ids(d.raw), Y, ids)
  {
    hide SP.Sound, Well, HeaderOk, NextOf, AllEntries, Ids, SP.Valid, SP.Slots, RowAdded, SameRows;
    DirectoryFacts(V, use, d);
    assert forall p: nat :: p < |V| ==> X[p] == X[..|V|][p];
    forall i | 0 <= i < |Ids(d.raw)|
      ensures Y[Ids(d.raw)[i]] == V[Ids(d.raw)[i]]
    {
      ChainAvoids(use, d.chain, Ids(d.raw)[i]);
    }
    if s.Ok? {
      ListedRow(V, Ids(d.raw), Y, |V|, data);
    } else {
      RowsFrame(V, Ids(d.raw), Y);
    }
  }

  /** A data page may take any sound image, and the directory does not notice. */
  lemma ChangeFits(V: seq<Page>, use: seq<Use>, d: Listing, page: nat, q: Page)
    requires IsDirectory(V, use, d)
    requires page < |V| == |use| && use[page] == Data && SP.Sound(q)
    ensures
      && Precedes(use[page], V[page], q) && Precedes(use[page], q, q) && Well(V[page := q], use)
      && InMemory(V[page := q], d)
  {
    hide SP.Sound, Well, InMemory;
    PrecedesSelf(V, use, page);
    DataKeeps(V, use, page, q);
    DirectoryFacts(V, use, d);
    ChainAvoids(use, d.chain, page);
    InMemoryFrame(V, V[page := q], d);
  }

  lemma TouchesMore(V: seq<Page>, W: seq<Page>, own: seq<nat>)
    requires Touches(V, W, [])
    ensures Touches(V, W, own)
  {
  }

  /** What a page answers to a record of a legal size. */
  function TakeStatus(V: seq<Page>, page: nat, data: seq<byte>, reach: set<nat>): Status {
    if page in reach && Room(V, page, data) then Ok else Error(BufferFull)
  }

  /** Neither the page used last nor one of the first i takes the record. */
  predicate Untaken(V: seq<Page>, ids: seq<nat>, i: nat, last: nat, data: seq<byte>, reach: set<nat>) {
    && i <= |ids| && (last in ids ==> TakeStatus(V, last, data, reach).Error?)
    && forall j :: 0 <= j < i ==> TakeStatus(V, ids[j], data, reach).Error?
  }

  lemma TakesLast(V: seq<Page>, ids: seq<nat>, last: nat, data: seq<byte>, reach: set<nat>)
    requires last in ids
    ensures TakeStatus(V, last, data, reach).Ok? ==>
              AnyRoom(V, ids, data, reach) && FirstFit(V, ids, last, data, reach, last)
    ensures TakeStatus(V, last, data, reach).Error? ==> TakeStatus(V, last, data, reach) == Error(BufferFull)
  {
    hide Room;
  }

  lemma NoneTaken(V: seq<Page>, ids: seq<nat>, last: nat, data: seq<byte>, reach: set<nat>)
    ensures (last in ids ==> TakeStatus(V, last, data, reach).Error?) ==> Untaken(V, ids, 0, last, data, reach)
  {
    hide Room;
  }

  lemma TakesNext(V: seq<Page>, ids: seq<nat>, i: nat, last: nat, data: seq<byte>, reach: set<nat>)
    requires i < |ids|
    ensures TakeStatus(V, ids[i], data, reach).Error? ==> TakeStatus(V, ids[i], data, reach) == Error(BufferFull)
    ensures Untaken(V, ids, i, last, data, reach) ==>
              if TakeStatus(V, ids[i], data, reach).Ok?
                then AnyRoom(V, ids, data, reach) && FirstFit(V, ids, last, data, reach, ids[i])
              else Untaken(V, ids, i + 1, last, data, reach)
    ensures Untaken(V, ids, i, last, data, reach) && ids[i] == last ==> Untaken(V, ids, i + 1, last, data, reach)
  {
    hide Room;
  }

  lemma AllUntaken(V: seq<Page>, ids: seq<nat>, last: nat, data: seq<byte>, reach: set<nat>)
    ensures Untaken(V, ids, |ids|, last, data, reach) ==> !AnyRoom(V, ids, data, reach)
  {
    hide Room;
  }

  /** Only a full page refuses a record of a legal size. */
  lemma OnlyFull(V: seq<Page>, ids: seq<nat>, page: nat, data: seq<byte>)
    requires Pages(V, ids) && page in ids && 0 < |data| <= SP.MAX_RECORD_SIZE
    ensures page < |V| && SP.InsertStatus(V[page], data) == if Room(V, page, data) then Ok else Error(BufferFull)
  {
    hide SP.Valid, SP.FreeEnd, SP.FreeStart, SP.Disjoint, SP.DirEnd;
  }

  /** An empty page has room for the largest record. */
  lemma EmptyHasRoom(data: seq<byte>)
    requires 0 < |data| <= SP.MAX_RECORD_SIZE
    ensures SP.InsertStatus(SP.EmptyPage(), data).Ok?
  {
    hide SP.EmptyPage;
    SlottedPageFacts.EmptyFields();
    SlottedPageFacts.EmptySound();
  }

  /** What update and delete answer when the page can be fetched. */
  function ChangeStatus(V: seq<Page>, ids: seq<nat>, id: RecordId, op: SP.Op): Status {
    if id.page == INVALID_ID || id.slot == INVALID_SLOT then Error(InvalidArgument)
    else if id.page !in ids || id.page >= |V| then Error(NotFound)
    else SP.StatusOf(V[id.page], op)
  }

  /** The new record is longer and no longer fits the page's free space. */
  predicate Grows(V: seq<Page>, ids: seq<nat>, id: RecordId, data: seq<byte>) {
    && Lookup(V, ids, id).Some? && |data| > |Lookup(V, ids, id).value|
    && SP.FreeEnd(V[id.page]) - SP.FreeStart(V[id.page]) < |data|
  }

  /** How an update of legal size ends: a missing row, or a longer record its page has no room for, is refused. */
  function UpdatedStatus(V: seq<Page>, ids: seq<nat>, id: RecordId, data: seq<byte>): Status {
    if RowStatus(V, ids, id).Error? then RowStatus(V, ids, id)
    else if Grows(V, ids, id, data) then Error(BufferFull)
    else Ok
  }

  lemma UpdateMeaning(V: seq<Page>, ids: seq<nat>, id: RecordId, data: seq<byte>)
    requires Pages(V, ids) && |V| <= INVALID_ID && 0 < |data| <= SP.MAX_RECORD_SIZE
    ensures ChangeStatus(V, ids, id, SP.Update(id.slot, data)) == UpdatedStatus(V, ids, id, data)
  {
    hide SP.Slots, SP.FreeEnd, SP.FreeStart, SP.Valid, SP.Disjoint, SP.SlotCount, SP.Length, SP.Record, SP.DirEnd;
    ReadIsRowStatus(V, ids, id);
  }

  lemma DeleteMeaning(V: seq<Page>, ids: seq<nat>, id: RecordId)
    requires Pages(V, ids) && |V| <= INVALID_ID
    ensures ChangeStatus(V, ids, id, SP.Delete(id.slot)) == RowStatus(V, ids, id)
  {
    hide SP.ReadStatus, Lookup, RowStatus;
    ReadIsRowStatus(V, ids, id);
  }

  /** The page's answer about a slot is the table's answer about the id. */
  lemma ReadIsRowStatus(V: seq<Page>, ids: seq<nat>, id: RecordId)
    requires Pages(V, ids) && |V| <= INVALID_ID
    ensures RowStatus(V, ids, id) ==
            if id.page == INVALID_ID || id.slot == INVALID_SLOT then Error(InvalidArgument)
            else if id.page !in ids || id.page >= |V| then Error(NotFound)
            else SP.ReadStatus(V[id.page], id.slot)
    ensures RowStatus(V, ids, id).Ok? ==>
              Lookup(V, ids, id).Some? && SP.DirFits(id.slot + 1)
                  && |Lookup(V, ids, id).value| == SP.Length(V[id.page], id.slot)
  {
    hide SP.FreeEnd, SP.FreeStart, SP.Disjoint, SP.SlotCount, SP.DirEnd;
    if id.page == INVALID_ID || id.slot == INVALID_SLOT { NoSuchId(V, ids, id); }
    if id.page in ids {
      assert SP.Valid(V[id.page]);
    }
  }

  lemma NoSuchId(V: seq<Page>, ids: seq<nat>, id: RecordId)
    requires Pages(V, ids) && |V| <= INVALID_ID && (id.page == INVALID_ID || id.slot == INVALID_SLOT)
    ensures Lookup(V, ids, id) == None
  {
    hide SP.Slots, SP.Sound, U16;
  }

  /** A page's read status says whether the table has the record. */
  lemma ReadMeaning(V: seq<Page>, ids: seq<nat>, id: RecordId)
    requires Pages(V, ids) && id.page in ids && id.page < |V|
    ensures SP.ReadStatus(V[id.page], id.slot).Ok? ==>
              SP.Valid(V[id.page]) && id.slot < |SP.Slots(V[id.page])|
                  && Lookup(V, ids, id) == Some(SP.Slots(V[id.page])[id.slot])
    ensures SP.ReadStatus(V[id.page], id.slot).Error? ==> Lookup(V, ids, id) == None
  {
    hide SP.Disjoint, U16, SP.SlotFits, SP.Record;
    var i :| 0 <= i < |ids| && ids[i] == id.page;
    assert SP.Sound(V[ids[i]]);
  }

  // ---- scanning --------------------------------------------------------------------

  predicate Listed(V: seq<Page>, ids: seq<nat>) {
    forall i :: 0 <= i < |ids| ==> ids[i] < |V| && SP.Valid(V[ids[i]])
  }

  lemma PagesListed(V: seq<Page>, ids: seq<nat>)
    requires Pages(V, ids)
    ensures Listed(V, ids)
  {
    hide SP.Valid, SP.Disjoint;
  }

  predicate AllGo(rows: seq<(RecordId, seq<byte>)>, goOn: (RecordId, seq<byte>) -> bool) {
    forall k :: 0 <= k < |rows| ==> goOn(rows[k].0, rows[k].1)
  }

  lemma NoRows(V: seq<Page>, goOn: (RecordId, seq<byte>) -> bool)
    ensures AllRows(V, []) == [] && Seen([], goOn) == [] && AllGo([], goOn)
  {
  }

  /** Where the visitor stops, or the end. */
  method FirstStop(rows: seq<(RecordId, seq<byte>)>, goOn: (RecordId, seq<byte>) -> bool) returns (k: nat)
    ensures k <= |rows| && AllGo(rows[..k], goOn) && (k < |rows| ==> !goOn(rows[k].0, rows[k].1))
  {
    k := 0;
    while k < |rows|
      invariant k <= |rows| && AllGo(rows[..k], goOn)
    {
      if !goOn(rows[k].0, rows[k].1) { return; }
      k := k + 1;
    }
  }

  lemma AllRowsSplit(V: seq<Page>, ids: seq<nat>, n: nat) returns (rest: seq<(RecordId, seq<byte>)>)
    requires Listed(V, ids) && n <= |ids|
    ensures AllRows(V, ids) == AllRows(V, ids[..n]) + rest
    decreases |ids|
  {
    hide SP.Valid, SP.LiveSlots, SP.SlotCount;
    if n == |ids| {
      assert ids[..n] == ids;
      rest := [];
    } else {
      var m := |ids| - 1;
      assert ids[..m][..n] == ids[..n];
      var front := AllRowsSplit(V, ids[..m], n);
      rest := front + PageRows(ids[m], SP.LiveSlots(V[ids[m]], SP.SlotCount(V[ids[m]])));
    }
  }

  lemma AllRowsNext(V: seq<Page>, ids: seq<nat>, i: nat)
    requires Listed(V, ids) && i < |ids|
    ensures AllRows(V, ids[..i + 1]) ==
              AllRows(V, ids[..i]) + PageRows(ids[i], SP.LiveSlots(V[ids[i]], SP.SlotCount(V[ids[i]])))
  {
    hide SP.Valid, SP.LiveSlots, SP.SlotCount;
    assert ids[..i + 1][..i] == ids[..i];
  }

  /** One page of a scan: either all its rows are met, or the scan ends at the first stop. */
  lemma ScanStep(V: seq<Page>, ids: seq<nat>, i: nat, rows: seq<(RecordId, seq<byte>)>, stop: nat,
                 goOn: (RecordId, seq<byte>) -> bool)
    requires Listed(V, ids) && i < |ids| && rows == PageRows(ids[i], SP.LiveSlots(V[ids[i]], SP.SlotCount(V[ids[i]])))
    requires stop <= |rows| && AllGo(rows[..stop], goOn) && (stop < |rows| ==> !goOn(rows[stop].0, rows[stop].1))
    requires AllGo(AllRows(V, ids[..i]), goOn)
    ensures AllRows(V, ids[..i + 1]) == AllRows(V, ids[..i]) + rows
    ensures stop == |rows| ==>
              AllGo(AllRows(V, ids[..i + 1]), goOn) && Seen(AllRows(V, ids[..i + 1]), goOn) == AllRows(V, ids[..i + 1])
    ensures stop < |rows| ==> Seen(AllRows(V, ids), goOn) == AllRows(V, ids[..i]) + rows[..stop + 1]
  {
    hide SP.Valid, SP.LiveSlots, SP.SlotCount, Seen, AllRows, PageRows;
    var front := AllRows(V, ids[..i]);
    AllRowsNext(V, ids, i);
    if stop == |rows| {
      assert rows[..stop] == rows;
      SeenConcat(front + rows, [], goOn);
    } else {
      var rest := AllRowsSplit(V, ids, i + 1);
      StopHere(front, rows, stop, rest, goOn);
      assert AllRows(V, ids) == front + (rows + rest);
    }
  }

  lemma StopHere(front: seq<(RecordId, seq<byte>)>, rows: seq<(RecordId, seq<byte>)>, stop: nat,
                 rest: seq<(RecordId, seq<byte>)>, goOn: (RecordId, seq<byte>) -> bool)
    requires AllGo(front, goOn) && stop < |rows| && AllGo(rows[..stop], goOn) && !goOn(rows[stop].0, rows[stop].1)
    ensures Seen(front + (rows + rest), goOn) == front + rows[..stop + 1]
  {
    var before := front + rows[..stop];
    var after := rows[stop..] + rest;
    assert front + (rows + rest) == before + after;
    SeenConcat(before, after, goOn);
    assert after[0] == rows[stop];
    assert Seen(after, goOn) == [rows[stop]];
    assert before + [rows[stop]] == front + rows[..stop + 1];
  }

  // ---- opening and creating --------------------------------------------------------

  /**
   Opens the table rooted at a page of any file. Success yields a table whose
   directory is the on-page chain. When no call can fail, it succeeds exactly if
   there is an acceptable chain, as there is from every directory page of a
   well-formed file below 2^32 - 2 pages, and it does not return exactly if the
   walk is endless in a file of 2^32 - 3 pages.
   */
  method Open(space: Space, root: nat) returns (s: Status, table: Table?)
    requires space.pool.Valid()
    modifies space.pool`frames, space.pool`clock, space.pool`held, space.pool`recency, space.pool.storage,
             space.pool.sink
    ensures space.pool.Valid() && (old(space.Valid()) ==> space.Valid())
    ensures space.View() == old(space.View()) && space.pool.held == old(space.pool.held)
    ensures s.Ok? ==>
              && table != null && fresh(table) && fresh(table.list) && table.space == space && table.list.root == root
              && InMemory(space.View(), table.list.Dir()) && table.dataPages == Ids(table.list.raw)
              && (old(space.Valid()) && LinkPage(space.use, Kind.Directory, root) ==> table.Valid())
    ensures s.Error? ==> table == null
    ensures s.Ok? ==> TableOpens(space.View(), root)
    ensures space.pool.clock <= old(space.pool.clock) + WalkCost(|space.View()|)
    ensures old(space.pool.Slack()) >= 0 ==> space.pool.Slack() == old(space.pool.Slack())
    ensures old(space.pool.Slack()) >= 0 && old(space.pool.Fuel()) >= WalkCost(|space.View()|) ==>
              && (s.Ok? <==> TableOpens(space.View(), root))
              && (s == Error(NeverReturns) <==>
                    root != INVALID_ID && |space.View()| == UNGUARDED && Endless(Kind.Directory, space.View(), root))
    ensures old(space.pool.Slack()) >= 0 && old(space.pool.Fuel()) >= WalkCost(|space.View()|) && old(space.Valid()) ==>
              LinkPage(space.use, Kind.Directory, root) && |space.View()| < 0xFFFF_FFFE ==> s.Ok?
  {
    hide Space.Valid, InMemory, Well, TableChain, TableOpens, AllEntries, Ids, CountOf, LinkPage, IsChain, Pool.Valid,
      Pool.View, Pool.Slack, Endless, Pool.Fuel, WalkCost;
    table := null;
    assert |space.View()| <= INVALID_ID by { space.pool.ViewSize(); }
    ghost var well := space.Valid();
    if well { space.Facts(); }
    NoSuchRoot(space.View(), space.use);
    if root == INVALID_ID { return Error(InvalidArgument), null; }
    var ids, lastDir, lastCount; ghost var chain;
    s, ids, lastDir, lastCount, chain := space.Load(root);
    if well { OpensHere(space.View(), space.use, root); }
    if s.Error? { return; }
    ghost var d := LoadedListing(space.View(), root, chain, ids, lastDir, lastCount);
    var list := new Linked(space, d, Kind.Directory, root, lastDir, lastCount);
    table := new Table(list, ids);
  }

  lemma NoSuchRoot(V: seq<Page>, use: seq<Use>)
    requires |V| <= INVALID_ID
    ensures !TableOpens(V, INVALID_ID) && (|use| <= INVALID_ID ==> !LinkPage(use, Kind.Directory, INVALID_ID))
  {
    hide HeaderOk, NextOf, AllEntries, IdsOk;
  }

  lemma OpensHere(V: seq<Page>, use: seq<Use>, root: nat)
    requires Well(V, use)
    ensures LinkPage(use, Kind.Directory, root) && |V| < 0xFFFF_FFFE ==> TableOpens(V, root)
  {
    hide Well, TableChain, Follow;
    if LinkPage(use, Kind.Directory, root) && |V| < 0xFFFF_FFFE {
      WellTableOpens(V, use, root);
    }
  }

  lemma LoadedListing(V: seq<Page>, root: nat, chain: seq<nat>, ids: seq<nat>, lastDir: nat, lastCount: nat)
    returns (d: Listing)
    requires TableChain(V, root, chain)
    requires
      && ids == Ids(AllEntries(Kind.Directory, V, chain)) && lastDir == Last(chain) && lastCount == CountOf(V[lastDir])
    ensures d.kind == Kind.Directory && d.root == root && d.last == lastDir && d.count == lastCount && ids == Ids(d.raw)
    ensures InMemory(V, d) && TableOpens(V, root)
  {
    hide AllEntries, Ids, CountOf, HeaderOk, NextOf;
    d := Listing(Kind.Directory, root, chain, AllEntries(Kind.Directory, V, chain), lastDir, lastCount);
  }

  /** Creates an empty table on a page of its own. A failure leaves at most a page nothing refers to. */
  method Create(space: Space) returns (s: Status, table: Table?, root: nat)
    requires space.Valid()
    modifies space`use, space.pool`frames, space.pool`clock, space.pool`held, space.pool`recency, space.pool.storage,
             space.pool.sink
    ensures space.Valid() && space.pool.held == old(space.pool.held)
    ensures s.Ok? ==>
              && table != null && fresh(table) && fresh(table.list) && table.space == space && table.Valid()
              && table.dataPages == []
              && root == table.list.root == |old(space.View())| < INVALID_ID
              && space.View() == old(space.View()) + [EmptyPage(Kind.Directory)]
              && space.use == old(space.use) + [Link(Kind.Directory)]
    ensures s.Error? ==> Extended(old(space.View()), space.View(), old(space.use), space.use,
                                  Listing(Kind.Directory, 0, [], [], 0, 0), s)
    ensures space.pool.Fuel() >= old(space.pool.Fuel()) - WalkCost(|old(space.View())| + 1)
    ensures old(space.pool.Slack()) >= 0 ==> space.pool.Slack() == old(space.pool.Slack())
    ensures old(space.pool.Slack()) >= 0 && old(space.pool.Fuel()) >= WalkCost(|old(space.View())| + 1) ==>
              |old(space.View())| + 1 < 0xFFFF_FFFE ==> s.Ok?
  {
    hide Space.Valid, Space.View, InMemory, Well, TableOpens, EmptyPage, Pool.Slack;
    table := null;
    s, root := space.Add(EmptyPage(Kind.Directory), Link(Kind.Directory));
    if s.Error? { return; }
    space.Facts();
    space.PoolValid();
    s, table := Open(space, root);
    if s.Ok? { NewListing(space.View(), table.list.Dir()); }
  }

  /**
   The failure contract of insertion does not hold with a full pool: in a pool of
   one frame that a handle pins, every record of a legal size is refused by a new
   table, and yet the file has grown by a page that nothing lists.
   */
  method RefusedInsertGrows(data: seq<byte>) returns (s: Status, table: Table)
    requires 0 < |data| <= SP.MAX_RECORD_SIZE
    ensures s == Error(BufferFull) && table.Valid() && table.dataPages == []
    ensures table.space.View() == [EmptyPage(Kind.Directory), SP.EmptyPage()]
  {
    hide Table.Valid, Space.View, EmptyPage, SP.EmptyPage, Pool.Slack, Pool.Reach, Pool.Fuel, Pool.Jammed, FirstFit,
      Touches, UseGrows, RowAdded, SameRows;
    table := TableInFullPool();
    NoRoom(table.space.View(), data, table.space.pool.Reach());
    var id;
    s, id := table.Insert(data);
  }

  lemma NoRoom(V: seq<Page>, data: seq<byte>, reach: set<nat>)
    ensures !AnyRoom(V, [], data, reach)
  {
  }

  /** A new table in a pool whose only frame a handle pins. */
  method TableInFullPool() returns (table: Table)
    ensures
      && fresh(table) && fresh(table.list) && fresh(table.space) && fresh(table.space.pool)
      && fresh(table.space.pool.storage)
    ensures table.Valid() && table.dataPages == [] && table.space.pool.sink == null
    ensures table.space.View() == [EmptyPage(Kind.Directory)] && table.Unhindered() && table.space.pool.Jammed()
  {
    hide Space.Valid, Space.View, EmptyPage, Pool.Slack, WalkCost, Extended, Pool.Residents, Pool.Reach;
    var space := OneFrame();
    WalkCostOne();
    var s, made, root, h, page;
    s, made, root := Create(space);
    table := made;
    s, h, page := space.Pin(root);
    assert h in space.pool.held && space.pool.held[h] in space.pool.held.Values;
  }

  lemma WalkCostOne()
    ensures WalkCost(1) == 6
  {
  }

  lemma NewListing(V: seq<Page>, d: Listing)
    requires
      && |V| <= INVALID_ID && d.kind == Kind.Directory && d.root < |V| && V[d.root] == EmptyPage(Kind.Directory)
      && InMemory(V, d)
    ensures Ids(d.raw) == []
  {
    hide HeaderOk, NextOf, CountOf, EmptyPage, Entries;
    EmptyPageMeaning(Kind.Directory);
    assert IsChain(Kind.Directory, V, [d.root]);
    ChainUnique(Kind.Directory, V, [d.root], d.chain);
    AllEntriesSnoc(Kind.Directory, V, [], d.root);
    assert [] + [d.root] == d.chain;
  }

  // ---- tables do not meet ------------------------------------------------------------

  /** The catalog lists a table with this root. */
  ghost predicate IsRoot(V: seq<Page>, use: seq<Use>, root: nat)
    requires |V| == |use|
  {
    exists p: nat, i: nat :: Lists(V, use, Kind.Catalog, p, i) && RootOf(EntryAt(Kind.Catalog, V[p], i)) == root
  }

  lemma {:induction false} ChainsApart(V: seq<Page>, use: seq<Use>, a: Listing, b: Listing, i: nat, j: nat)
    requires IsDirectory(V, use, a) && IsDirectory(V, use, b) && |V| == |use|
    requires a.root != b.root && IsRoot(V, use, a.root) && IsRoot(V, use, b.root)
    requires i < |a.chain| && j < |b.chain|
    ensures a.chain[i] != b.chain[j]
  {
    hide PageOk, EntriesOk, HeaderOk, NextOf, EntryAt, AllEntries, Ids, CountOf, SP.Sound;
    DirectoryFacts(V, use, a);
    DirectoryFacts(V, use, b);
    if i > 0 {
      assert NextOf(V[a.chain[i - 1]]) == a.chain[i] && LinkPage(use, Kind.Directory, a.chain[i - 1]);
    }
    if j > 0 {
      assert NextOf(V[b.chain[j - 1]]) == b.chain[j] && LinkPage(use, Kind.Directory, b.chain[j - 1]);
    }
    if i > 0 && j > 0 {
      ChainsApart(V, use, a, b, i - 1, j - 1);
    }
  }

  /** Two tables of the catalog share no directory page and no data page. */
  lemma TablesApart(V: seq<Page>, use: seq<Use>, a: Listing, b: Listing)
    requires IsDirectory(V, use, a) && IsDirectory(V, use, b) && |V| == |use|
    requires a.root != b.root && IsRoot(V, use, a.root) && IsRoot(V, use, b.root)
    ensures forall p :: p in a.chain + Ids(a.raw) ==> p !in b.chain + Ids(b.raw)
  {
    hide Well, HeaderOk, NextOf, EntryAt, AllEntries, SP.Sound, IdOf;
    DirectoryFacts(V, use, a);
    DirectoryFacts(V, use, b);
    forall i, j | 0 <= i < |a.chain| && 0 <= j < |b.chain|
      ensures a.chain[i] != b.chain[j]
    {
      ChainsApart(V, use, a, b, i, j);
    }
    forall i, j | 0 <= i < |Ids(a.raw)| && 0 <= j < |Ids(b.raw)|
      ensures Ids(a.raw)[i] != Ids(b.raw)[j]
    {
      var c, m := ListedInChain(V, use, Kind.Directory, a.chain, i);
      var d, n := ListedInChain(V, use, Kind.Directory, b.chain, j);
      ListedApart(V, use, Kind.Directory, a.chain[c], m, b.chain[d], n);
    }
  }

  /** An operation on one table leaves every row and the directory of another as they were. */
  lemma OtherTableKept(V: seq<Page>, use: seq<Use>, a: Listing, b: Listing, W: seq<Page>)
    requires IsDirectory(V, use, a) && IsDirectory(V, use, b) && |V| == |use|
    requires a.root != b.root && IsRoot(V, use, a.root) && IsRoot(V, use, b.root)
    requires Touches(V, W, a.chain + Ids(a.raw))
    ensures InMemory(W, b) && SameRows(V, Ids(b.raw), W, Ids(b.raw))
  {
    hide Well, InMemory, SP.Sound, SameRows;
    TablesApart(V, use, a, b);
    DirectoryFacts(V, use, b);
    forall p: nat | p in b.chain + Ids(b.raw)
      ensures W[p] == V[p]
    {
      assert p !in a.chain + Ids(a.raw);
    }
    forall i | 0 <= i < |b.chain|
      ensures W[b.chain[i]] == V[b.chain[i]]
    {
      assert b.chain[i] in b.chain + Ids(b.raw);
    }
    forall i | 0 <= i < |Ids(b.raw)|
      ensures W[Ids(b.raw)[i]] == V[Ids(b.raw)[i]]
    {
      assert Ids(b.raw)[i] in b.chain + Ids(b.raw);
    }
    InMemoryFrame(V, W, b);
    RowsFrame(V, Ids(b.raw), W);
  }
}
