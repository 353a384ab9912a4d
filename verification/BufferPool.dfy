/**
 The resizable page cache as the engine runs it. Frames are changed in place,
 victims are found by loops over access stamps, and dirty pages are written
 behind the log. Every method is proved to leave the logical page map alone
 (writes through a handle excepted), to follow the recency list, to keep each
 pin count equal to the number of handles, and to move the disk only along runs
 of the crash machine.
 */
module BufferPool {
  import opened Bytes
  import opened Results
  import opened CrashMachine
  import opened CrashSafety
  import opened Frames
  import opened PoolState
  import R = RecencyList
  import opened Storage
  import opened Wal
  import L = LogFormat

  /** Pins one frame for as long as it is attached to a pool. */
  class Handle {
    var pool: Pool?
    var frame: nat

    constructor ()
      ensures pool == null
    {
      pool := null;
      frame := 0;
    }
  }

  class Pool {
    const storage: PageStorage
    var sink: Log?
    var capacity: nat
    var frames: seq<Frame>
    var clock: nat
    ghost var held: map<Handle, nat>  // the frame each attached handle pins
    ghost var recency: seq<nat>

    /** Every attached handle names this pool and the frame it is recorded for. */
    ghost predicate Attached()
      reads this`held, held.Keys
    {
      forall h :: h in held ==> h.pool == this && h.frame == held[h]
    }

    /** The crash machine's state for this pool, its file and its log. */
    ghost function Abs(stage: Stage): State
      requires sink != null
      reads this, storage, sink
    {
      State(storage.pages, sink.file, sink.pending, sink.failed, sink.sent, Cache(frames), Up(stage))
    }

    /** What clients of the pool read. */
    ghost function View(): seq<Page>
      reads this, storage
    {
      Contents(frames, storage.pages)
    }

    /** Everything but the state of a flush in progress. */
    ghost predicate Core()
      reads this, storage, sink, held.Keys
    {
      && FramesOk(frames, capacity, clock, storage.pages)
      && RecencyOk(frames, recency)
      && PinsOk(frames, held) && Attached()
      && (sink != null ==> sink.Valid())
    }

    ghost predicate Valid()
      reads this, storage, sink, held.Keys
    {
      Core() && (sink != null ==> Inv(Abs(Idle)))
    }

    /**
     The log bytes left over if every dirty page were written back. While it is
     negative a call may fail; otherwise reads keep it and a write costs a record.
     */
    ghost function Slack(): int
      reads this`frames, this`sink, storage`open, sink
    {
      SlackOf(storage.reliable && storage.open, if sink == null then None else Some(sink.Room()), Cache(frames))
    }

    lemma SlackMeans()
      requires Slack() >= 0
      ensures storage.reliable && storage.open
    {
    }

    lemma LogMeans()
      requires Slack() >= 0 && sink != null
      ensures sink.reliable && sink.open && !sink.failed
    {
      hide Cache, DirtyIn;
    }

    /** The slack depends on the room in the log and on the dirty pages alone. */
    twostate lemma SameSlack()
      requires
        && storage.open == old(storage.open) && sink == old(sink) && (sink != null ==> sink.Room() == old(sink.Room()))
      requires DirtyIn(Cache(frames)) == old(DirtyIn(Cache(frames)))
      ensures Slack() == old(Slack())
    {
      hide Cache, DirtyIn;
    }

    /** How many more fetches are sure to find a frame. */
    ghost function Fuel(): int
      reads this`held, this`capacity, this`clock
    {
      if |held.Values| + 2 <= capacity then PLENTY
      else if |held.Values| + 1 <= capacity then MAX_STAMP - clock
      else 0
    }

    /** Handles pin as many frames as the pool may fill. */
    ghost predicate Jammed()
      reads this`held, this`capacity
    {
      |held.Values| >= capacity
    }

    ghost function Residents(): set<nat>
      reads this`frames
    {
      Table(frames).Keys
    }

    twostate lemma ResidentsStay()
      requires SameNames(old(frames), frames)
      ensures Residents() == old(Residents())
    {
      hide Table;
      SameTable(old(frames), frames);
    }

    /** No call fails, and for k fetches it is settled which pages can be had. */
    ghost predicate Sure(k: int)
      reads this, storage, sink
    {
      Slack() >= 0 && (Jammed() || Fuel() >= k)
    }

    /** The pages that can be had: all, or those resident when every frame is pinned. */
    ghost function Reach(): set<nat>
      reads this`held, this`capacity, this`frames, storage`pages
    {
      set id: nat | id < |storage.pages| && (Jammed() ==> id in Residents())
    }

    lemma SureFetches(id: nat)
      requires Valid() && Sure(1) && id < |View()|
      ensures FetchStatus(frames, capacity, |View()|, id) == if id in Reach() then Ok else Error(BufferFull)
    {
      hide Inv, RecencyOk, Cache, Contents, Frames.Table, Find, Count, Full, NoVictim, Slack, Fuel, FetchStatus,
        FramesOk, PinsOk;
      StorageBound(frames, capacity, clock, storage.pages);
      if Jammed() {
        PinnedOut(frames, held, capacity, clock, storage.pages);
        FullFetch(frames, capacity, |View()|, id);
      } else {
        FuelFetches(id);
      }
    }

    /**
     A pool of free frames. It is valid over every file whose log, if there is
     one, is settled and agrees with the file: replaying it would change nothing.
     */
    constructor (storage: PageStorage, sink: Log?, capacity: nat)
      requires 0 < capacity <= MAX_FRAMES && |storage.pages| <= INVALID_ID
      ensures this.storage == storage && this.sink == sink && this.capacity == capacity
      ensures held == map[] && recency == [] && clock == 0
      ensures View() == storage.pages
      ensures (sink == null || (sink.Valid() && Agrees(sink.sent, sink.file, sink.pending, storage.pages))) ==> Valid()
      ensures RecencyOk(frames, recency) && Cache(frames) == map[]
    {
      hide Inv, FramesOk, RecencyOk, Cache, Contents, Frames.Table, Find, Count, R.Without, R.Victim, Pinned, Agrees;
      this.storage := storage;
      this.sink := sink;
      this.capacity := capacity;
      frames := seq(capacity, _ => FREE);
      clock := 0;
      held := map[];
      recency := [];
      new;
      FreeFrames(frames, capacity, storage.pages);
      if sink != null && Agrees(sink.sent, sink.file, sink.pending, storage.pages) {
        FreshUp(Abs(Idle));
      }
      assert forall i :: 0 <= i < |frames| ==> Holders(held, i) == {};
    }

    lemma FreshAbs()
      requires recency == [] && RecencyOk(frames, recency) && sink != null
      requires sink.file == [] && sink.pending == [] && !sink.failed && sink.sent == []
      ensures Abs(Idle) == State(storage.pages, [], [], false, [], map[], Up(Idle)) && View() == storage.pages
    {
      hide Find, Count;
      assert Frames.Table(frames) == map[] by {
        assert forall id :: id !in Stamps(frames);
      }
    }

    /** From the given stage to rest, the disk moved only along quiet steps of the crash machine. */
    twostate predicate QuietlyFrom(stage: Stage)
      reads this, storage, sink
    {
      sink == old(sink) && (sink != null ==> QuietlyReaches(old(Abs(stage)), Abs(Idle)))
    }

    twostate predicate Quietly()
      reads this, storage, sink
    {
      QuietlyFrom(Idle)
    }

    lemma NothingMoved()
      requires Valid()
      ensures NamesKept(frames, frames, held) && (sink != null ==> QuietlyReaches(Abs(Idle), Abs(Idle)))
    {
      hide Inv, FramesOk, RecencyOk, Cache, Contents, Frames.Table, QuietlyReaches, Count, Find, NamesKept, PinsOk;
      AllNamesKept(frames, held);
      if sink != null { QuietRefl(Abs(Idle)); }
    }

    // ---- looking up --------------------------------------------------------------

    method FindFrame(id: nat) returns (i: nat)
      ensures i == Find(frames, id)
    {
      hide Table, Find, Count, R.Without, R.Victim, Pinned;
      i := 0;
      while i < |frames|
        invariant i <= |frames|
        invariant forall j :: 0 <= j < i ==> !(frames[j].inUse && frames[j].id == id)
      {
        if frames[i].inUse && frames[i].id == id { return; }
        i := i + 1;
      }
    }

    method Size() returns (n: nat)
      ensures n == Count(frames)
    {
      n := 0;
      for i := 0 to |frames|
        invariant n == Count(frames[..i])
      {
        assert frames[..i + 1][..i] == frames[..i];
        if frames[i].inUse { n := n + 1; }
      }
      assert frames[..|frames|] == frames;
    }

    // ---- the access clock --------------------------------------------------------

    /** Compacts the stamps of the resident frames to 1..n in recency order. */
    method RenumberClock()
      requires StampsDistinct(frames)
      modifies this`frames, this`clock
      ensures Restamped(old(frames), frames) && clock == Count(frames)
      ensures forall i :: 0 <= i < |frames| && frames[i].inUse ==> 1 <= frames[i].stamp <= clock
    {
      hide Restamped, StampsDistinct, Find, Count, R.Without, R.Victim, Pinned;
      var order := ResidentsByAge(frames);
      var next := frames;
      for k := 0 to |order|
        invariant frames == old(frames)
        invariant StampedUpTo(frames, next, order, k)
      {
        StampNext(frames, next, order, k);
        next := next[order[k] := next[order[k]].(stamp := k + 1)];
      }
      RanksFollowAge(frames, next, order);
      OrderSize(frames, order);
      RestampCounts(frames, next);
      frames := next;
      clock := |order|;
    }

    /** The next stamp, later than every stamp in use; renumbers first when the clock is at its maximum. */
    method NextTimestamp() returns (now: nat)
      requires Valid()
      modifies this`frames, this`clock
      ensures Valid() && View() == old(View()) && Quietly()
      ensures now == clock > 0 && Restamped(old(frames), frames)
      ensures forall i :: 0 <= i < |frames| && frames[i].inUse ==> frames[i].stamp < now
      ensures old(clock) < MAX_STAMP ==> frames == old(frames) && clock == old(clock) + 1
      ensures clock <= old(clock) + 1 && Slack() == old(Slack())
    {
      hide Inv, Cache, Contents, Frames.Table, QuietlyReaches, RecencyOk, FramesOk, PinsOk, Attached, Find, Count,
        R.Without, R.Victim, Pinned, SlackOf;
      SmallCount(frames, capacity, clock, storage.pages);
      if clock == MAX_STAMP {
        RenumberClock();
      }
      clock := clock + 1;
      RestampKeepsAll(old(frames), frames, capacity, old(clock), clock, storage.pages, recency);
      PinsCarry(old(frames), frames, held);
      if sink != null { QuietRefl(Abs(Idle)); }
      return clock;
    }

    // ---- writing back ------------------------------------------------------------

    /** Writes frame i back if it is dirty: log image first, then the page. A failure keeps it dirty. */
    method FlushFrame(i: nat) returns (s: Status)
      requires Valid() && i < |frames|
      modifies this`frames, storage, sink
      ensures Valid() && View() == old(View())
      ensures s.Ok? ==> frames == old(frames)[i := old(frames)[i].(dirty := false)]
      ensures s.Error? ==>
                frames == old(frames) && old(frames)[i].inUse && old(frames)[i].dirty && s.code in {BadState, IoError}
      ensures SameBut(old(storage.pages), storage.pages, old(frames)[i].id)
      ensures Quietly()
      ensures old(Slack()) >= 0 ==> s.Ok? && Slack() == old(Slack())
    {
      hide Inv, FramesOk, RecencyOk, Cache, Contents, Frames.Table, QuietlyReaches, PinsOk, Attached, Find, Count,
        R.Without, R.Victim, Pinned, SlackOf;
      if !frames[i].inUse || !frames[i].dirty {
        NotDirty(frames, i, capacity, clock, storage.pages);
        if sink != null { QuietRefl(Abs(Idle)); }
        return Ok;
      }
      CleanKeeps(frames, i, capacity, clock, storage.pages, recency);
      SlackFlush(storage.reliable
                 && storage.open, if sink == null then None else Some(sink.Room()), Cache(frames), frames[i].id);
      if sink != null {
        s := LogFrame(i);
        if s.Error? { return s; }
      }
      ghost var id := frames[i].id;
      label Barrier:
      s := StoreFrame(i, id);
      if sink != null {
        QuietTrans(old(Abs(Idle)), old@Barrier(Abs(Logged(id))), Abs(Idle));
      }
    }

    /** Writes the page of a frame whose image is in the log. */
    method StoreFrame(i: nat, ghost id: nat) returns (s: Status)
      requires Core() && i < |frames| && frames[i].inUse && frames[i].dirty && frames[i].id == id
      requires sink != null ==> Inv(Abs(Logged(id)))
      modifies this`frames, storage
      ensures Valid() && View() == old(View())
      ensures s.Ok? ==> frames == old(frames)[i := old(frames)[i].(dirty := false)]
      ensures s.Error? ==> frames == old(frames) && s.code in {BadState, IoError}
      ensures SameBut(old(storage.pages), storage.pages, id)
      ensures QuietlyFrom(Logged(id))
      ensures storage.open == old(storage.open) && (storage.reliable && storage.open ==> s.Ok?)
    {
      hide Inv, FramesOk, RecencyOk, Cache, Contents, Frames.Table, QuietlyReaches, PinsOk, Attached, Find, Count,
        R.Without, R.Victim, Pinned;
      var f := frames[i];
      PinsCarry(frames, frames[i := f.(dirty := false)], held);
      CleanKeeps(frames, i, capacity, clock, storage.pages, recency);
      s := storage.WritePage(f.id, f.data);
      if s.Error? {
        TornKeeps(frames, i, capacity, clock, old(storage.pages), storage.pages[f.id]);
        if sink != null { FailedWrite(old(Abs(Logged(f.id))), storage.pages[f.id]); }
        return s;
      }
      frames := frames[i := f.(dirty := false)];
      if sink != null { DoneWrite(old(Abs(Logged(f.id)))); }
    }

    /** The write-ahead barrier: appends the page image and makes it durable before the page may be written. */
    method LogFrame(i: nat) returns (s: Status)
      requires Valid() && i < |frames| && frames[i].inUse && frames[i].dirty && sink != null
      modifies sink
      ensures sink.Valid()
      ensures s.Ok? ==> Inv(Abs(Logged(frames[i].id))) && QuietlyReaches(old(Abs(Idle)), Abs(Logged(frames[i].id)))
      ensures s.Error? ==> Inv(Abs(Idle)) && QuietlyReaches(old(Abs(Idle)), Abs(Idle)) && s.code in {BadState, IoError}
      ensures old(sink.Room()) >= L.RECORD_SIZE ==> s.Ok? && sink.Room() == old(sink.Room()) - L.RECORD_SIZE
    {
      hide Inv, FramesOk, RecencyOk, Cache, Contents, Frames.Table, QuietlyReaches, PinsOk, Attached, L.RecordBytes,
        Find, Count, R.Without, R.Victim, Pinned;
      var f := frames[i];
      ghost var a := Abs(Idle);
      CleanKeeps(frames, i, capacity, clock, storage.pages, recency);
      ghost var cut;
      s, cut := sink.AppendPageImage(f.id, f.data);
      if s.Error? {
        if a == Abs(Idle) { QuietRefl(a); } else { FailedAppend(a, f.id, cut); }
        return s;
      }
      DoneAppend(a, f.id);
      ghost var b := Abs(Appended(f.id));
      s := sink.Flush();
      if s.Error? {
        FailedFlush(b, |sink.file| - |b.log|);
        QuietTrans(a, b, Abs(Idle));
      } else {
        DoneFlush(b);
        QuietTrans(a, b, Abs(Logged(f.id)));
      }
    }

    // ---- choosing a frame ----------------------------------------------------------

    /** The first free frame; there is one while the pool is below capacity. */
    method FreeFrame() returns (slot: nat)
      ensures slot <= |frames| && (slot < |frames| ==> !frames[slot].inUse)
      ensures Count(frames) < |frames| ==> slot < |frames|
    {
      for i := 0 to |frames|
        invariant forall j :: 0 <= j < i ==> frames[j].inUse
      {
        if !frames[i].inUse { return i; }
      }
      CountFull(frames);
      return |frames|;
    }

    /** The unpinned frame with the smallest stamp below the maximum. */
    method FindVictim() returns (victim: nat)
      ensures victim <= |frames|
      ensures victim == |frames| <==> forall i :: 0 <= i < |frames| && frames[i].inUse && frames[i].pins == 0 ==>
                frames[i].stamp >= MAX_STAMP
      ensures victim < |frames| ==>
                Oldest(frames, victim) && frames[victim].stamp < MAX_STAMP
    {
      victim := |frames|;
      var oldest := MAX_STAMP;
      for i := 0 to |frames|
        invariant victim <= |frames|
        invariant victim == |frames| ==> oldest == MAX_STAMP
        invariant victim < |frames| ==>
                    frames[victim].inUse && frames[victim].pins == 0 && frames[victim].stamp == oldest < MAX_STAMP
        invariant forall j :: 0 <= j < i && frames[j].inUse && frames[j].pins == 0 ==> oldest <= frames[j].stamp
      {
        var f := frames[i];
        if f.inUse && f.pins == 0 && f.stamp < oldest {
          oldest, victim := f.stamp, i;
        }
      }
    }

    /** A free frame below capacity, otherwise the oldest unpinned one, written back first. */
    method AcquireFrame() returns (s: Status, slot: nat)
      requires Valid()
      modifies this`frames, storage, sink
      ensures Valid() && View() == old(View()) && Quietly()
      ensures SameOutside(old(frames), old(storage.pages), storage.pages)
      ensures s.Ok? ==> Acquired(old(frames), frames, slot, capacity, recency)
      ensures s.Error? ==> frames == old(frames) && Count(old(frames)) == capacity
      ensures s == Error(BufferFull) <==> Count(old(frames)) == capacity && NoVictim(old(frames))
      ensures s.Error? ==> s.code in {BufferFull, BadState, IoError}
      ensures old(Slack()) >= 0 ==> Slack() == old(Slack()) && (s.Error? ==> s == Error(BufferFull))
    {
      hide Inv, FramesOk, RecencyOk, Cache, Contents, Frames.Table, QuietlyReaches, PinsOk, Attached, Count, Find,
        R.Without, R.Victim, Pinned, Slack;
      slot := |frames|;
      PoolBounds(frames, capacity, clock, storage.pages);
      var n := Size();
      if n < capacity {
        slot := FreeFrame();
        if slot < |frames| {
          if sink != null { QuietRefl(Abs(Idle)); }
          return Ok, slot;
        }
      }
      slot := FindVictim();
      if slot == |frames| {
        if sink != null { QuietRefl(Abs(Idle)); }
        return Error(BufferFull), slot;
      }
      OldestFrameIsVictim(frames, slot, capacity, clock, storage.pages, recency);
      s := FlushFrame(slot);
    }

    // ---- fetching ------------------------------------------------------------------

    /** A resident page gets one more pin and becomes the most recent. */
    method PinResident(slot: nat) returns (h: Handle)
      requires Valid() && slot < |frames| && frames[slot].inUse
      modifies this`frames, this`clock, this`held, this`recency
      ensures Valid() && View() == old(View()) && Quietly()
      ensures fresh(h) && h.pool == this && held == old(held)[h := slot] && SameNames(old(frames), frames)
      ensures recency == R.Without(old(recency), old(frames)[slot].id) + [old(frames)[slot].id]
      ensures old(frames)[slot].id in old(recency)
      ensures clock <= old(clock) + 1 && Slack() == old(Slack())
    {
      hide Inv, FramesOk, RecencyOk, Cache, Contents, Frames.Table, QuietlyReaches, R.Without, PinsOk, Find, Count,
        R.Victim, Pinned, SlackOf;
      var now := NextTimestamp();
      var f := frames[slot].(pins := frames[slot].pins + 1, stamp := now);
      StampKeeps(frames, slot, f, capacity, now, storage.pages, recency);
      h := new Handle();
      PinAdded(frames, held, slot, f, h);
      recency := R.Without(recency, f.id) + [f.id];
      frames := frames[slot := f];
      h.pool, h.frame := this, slot;
      held := held[h := slot];
    }

    /** Loads a page into an acquired frame as the most recent one, with one pin. */
    method Install(slot: nat, id: nat, page: Page) returns (h: Handle)
      requires Valid() && slot < |frames| && Ready(frames, slot, capacity)
      requires id < |storage.pages| && page == storage.pages[id] && id !in Table(frames)
      modifies this`frames, this`clock, this`held, this`recency
      ensures Valid() && View() == old(View()) && Quietly()
      ensures fresh(h) && h.pool == this && held == old(held)[h := slot]
      ensures Replaced(old(frames), frames, slot, id)
      ensures recency == AfterInstall(old(frames), slot, old(recency), id)
      ensures clock <= old(clock) + 1 && Slack() == old(Slack())
    {
      hide Inv, FramesOk, RecencyOk, Cache, Contents, Frames.Table, QuietlyReaches, R.Without, PinsOk, Count, Restamped,
        Find, R.Victim, Pinned, Slack, DirtyIn;
      var now := NextTimestamp();
      label Stamped:
      RestampKeepsTable(old(frames), frames, slot, id);
      var f := Frame(id, page, false, 1, now, true);
      InstallKeeps(frames, slot, f, capacity, now, storage.pages, recency);
      DirtyInstall(Cache(frames), frames[slot].inUse, frames[slot].id, f);
      h := new Handle();
      PinAdded(frames, held, slot, f, h);
      recency := AfterInstall(frames, slot, recency, id);
      frames := frames[slot := f];
      h.pool, h.frame := this, slot;
      held := held[h := slot];
      if sink != null {
        InstallRun(old@Stamped(Abs(Idle)), old@Stamped(frames)[slot].inUse, old@Stamped(frames)[slot].id, id);
        QuietTrans(old(Abs(Idle)), old@Stamped(Abs(Idle)), Abs(Idle));
      }
      SameSlack@Stamped();
    }

    /**
     Pins page `id`, reading it on a miss. A success moves the recency list as
     specified; a failure changes no frame, pin, stamp or list, and only a pool
     with nothing to evict is full.
     */
    method Fetch(id: nat) returns (s: Status, h: Handle)
      requires Valid()
      modifies this`frames, this`clock, this`held, this`recency, storage, sink
      ensures Valid() && View() == old(View()) && Quietly() && fresh(h)
      ensures s.Ok? ==>
                && h.pool == this && Fetched(frames, h.frame, id) && held == old(held)[h := h.frame]
                && id < |storage.pages|
      ensures s.Ok? ==> R.Touch(old(recency), id, capacity, Pinned(old(frames))) == Some(recency)
      ensures s.Error? ==>
                && h.pool == null && held == old(held) && recency == old(recency) && frames == old(frames)
                && clock == old(clock)
      ensures NamesKept(old(frames), frames, old(held))
      ensures s == Error(BufferFull) ==>
                id !in Table(old(frames)) && Count(old(frames)) == capacity && NoVictim(old(frames))
      ensures id in Table(old(frames)) && id != INVALID_ID ==> s.Ok?
      ensures s == Error(NotFound) ==> id >= |old(storage.pages)|
      ensures s == Error(InvalidArgument) <==> id == INVALID_ID
      ensures s.Error? ==> s.code in {InvalidArgument, NotFound, BufferFull, BadState, IoError}
      ensures |storage.pages| == |old(storage.pages)| && clock <= old(clock) + 1
      ensures old(Slack()) >= 0 ==>
                Slack() == old(Slack()) && s == FetchStatus(old(frames), capacity, |old(storage.pages)|, id)
      ensures old(Jammed()) ==> Residents() == old(Residents())
    {
      hide Inv, FramesOk, RecencyOk, Cache, Contents, Frames.Table, QuietlyReaches, R.Without, R.Touch, PinsOk, Count,
        Pinned, Find, R.Victim, Slack, Full, NoVictim, Residents, NamesKept, Jammed;
      h := new Handle();
      if sink != null { QuietRefl(Abs(Idle)); }
      AllNamesKept(frames, held);
      if id == INVALID_ID { return Error(InvalidArgument), h; }
      var slot := FindFrame(id);
      if slot < |frames| {
        HitTouches(frames, slot, capacity, clock, storage.pages, recency);
        h := PinResident(slot);
        PinnedNow(frames, held, h);
        ResidentsStay();
        AllNamesStay(old(frames), frames, old(held));
        return Ok, h;
      }
      var page;
      if Slack() >= 0 { SlackMeans(); }
      s, page := storage.ReadPage(id);
      if s.Error? { return s, h; }
      s, h := Miss(id, page);
    }

    /** A page that is not resident takes a frame, evicting the oldest unpinned page if it must. */
    method Miss(id: nat, page: Page) returns (s: Status, h: Handle)
      requires Valid() && id < |storage.pages| && page == storage.pages[id] && id !in Table(frames)
      modifies this`frames, this`clock, this`held, this`recency, storage, sink
      ensures Valid() && View() == old(View()) && Quietly() && fresh(h) && NamesKept(old(frames), frames, old(held))
      ensures s.Ok? ==> h.pool == this && Fetched(frames, h.frame, id) && held == old(held)[h := h.frame]
      ensures s.Ok? ==> R.Touch(old(recency), id, capacity, Pinned(old(frames))) == Some(recency)
      ensures s.Error? ==>
                && h.pool == null && held == old(held) && recency == old(recency) && frames == old(frames)
                && clock == old(clock)
      ensures s == Error(BufferFull) <==> Count(old(frames)) == capacity && NoVictim(old(frames))
      ensures s.Error? ==> s.code in {BufferFull, BadState, IoError}
      ensures |storage.pages| == |old(storage.pages)| && clock <= old(clock) + 1
      ensures old(Slack()) >= 0 ==> Slack() == old(Slack()) && (s.Error? ==> s == Error(BufferFull))
      ensures old(Jammed()) ==> s == Error(BufferFull) || frames == old(frames)
    {
      hide Inv, FramesOk, RecencyOk, Cache, Contents, Frames.Table, QuietlyReaches, R.Without, R.Touch, PinsOk, Count,
        Pinned, Find, R.Victim, Slack, Full, NoVictim, NamesKept;
      if Jammed() { PinnedOut(frames, held, capacity, clock, storage.pages); }
      FullHasNoVictim(frames, capacity);
      h := new Handle();
      AllNamesKept(frames, held);
      var slot;
      s, slot := AcquireFrame();
      if s.Error? { return s, h; }
      ghost var acquired := frames;
      label Acquired:
      AcquiredReady(old(frames), frames, slot, capacity, clock, old(storage.pages), recency, id);
      MissTouches(old(frames), frames, slot, capacity, clock, old(storage.pages), recency, id);
      h := Install(slot, id, page);
      PinnedNow(frames, held, h);
      MissNamesKept(old(frames), acquired, frames, slot, id, old(held));
      if sink != null { QuietTrans(old(Abs(Idle)), old@Acquired(Abs(Idle)), Abs(Idle)); }
    }

    // ---- handles -------------------------------------------------------------------

    /** Takes one pin off frame i, if it has any. */
    method UnpinFrame(i: nat)
      modifies this`frames
      ensures frames == Unpinned(old(frames), i)
    {
      if i >= |frames| { return; }
      if frames[i].pins > 0 {
        frames := frames[i := frames[i].(pins := frames[i].pins - 1)];
      }
    }

    /** A handle that is empty or attached to this pool. */
    ghost predicate Mine(h: Handle)
      reads this, h
    {
      h.pool == null || (h.pool == this && h in held)
    }

    /** Releases the handle's pin; an empty handle is reported. */
    method Release(h: Handle) returns (s: Status)
      requires Valid() && Mine(h)
      modifies this`frames, this`held, h
      ensures Valid() && View() == old(View()) && Quietly()
      ensures h.pool == null && held == old(held) - {h}
      ensures s == if old(h.pool) == null then Error(InvalidArgument) else Ok
      ensures NamesKept(old(frames), frames, old(held)) && Residents() == old(Residents()) && Slack() == old(Slack())
    {
      hide Inv, FramesOk, RecencyOk, Cache, Contents, Frames.Table, QuietlyReaches, PinsOk, Count, Find, R.Without,
        R.Victim, Pinned, Slack, Residents, Log.Valid, Unpinned, NamesKept;
      AllNamesKept(frames, held);
      if sink != null { QuietRefl(Abs(Idle)); }
      if h.pool == null { return Error(InvalidArgument); }
      ReleaseKeeps(frames, held, h, capacity, clock, storage.pages, recency);
      UnpinFrame(h.frame);
      ResidentsStay();
      SameSlack();
      held := held - {h};
      h.pool := null;
      return Ok;
    }

    /** Move assignment: `dst` gives up its own pin and takes over the one of `src`, which becomes empty. */
    method MoveHandle(dst: Handle, src: Handle)
      requires Valid() && Mine(dst) && Mine(src)
      modifies this`frames, this`held, dst, src
      ensures Valid() && View() == old(View()) && Quietly() && NamesKept(old(frames), frames, old(held) - {dst})
      ensures held == Moved(old(held), dst, src)
      ensures dst != src ==> src.pool == null && dst.pool == old(src.pool)
      ensures Slack() == old(Slack())
    {
      hide Inv, FramesOk, RecencyOk, Cache, Contents, Frames.Table, QuietlyReaches, PinsOk, Count, NamesKept, Moved,
        Find, R.Without, R.Victim, Pinned, Log.Valid, Unpinned;
      AllNamesKept(frames, held);
      if sink != null { QuietRefl(Abs(Idle)); }
      MoveKeeps(frames, held, dst, src, capacity, clock, storage.pages, recency);
      MovedSelf(held, dst);
      if dst == src { return; }
      if dst.pool != null {
        UnpinFrame(dst.frame);
      }
      held := Moved(held, dst, src);
      dst.pool, dst.frame := src.pool, src.frame;
      src.pool := null;
      forall h | h in held
        ensures h.pool == this && h.frame == held[h]
      {
        assert h in old(held) || h == dst;
      }
    }

    /** A write through a handle: the page's bytes change and the page is marked dirty, in one step. */
    method Write(h: Handle, data: Page)
      requires Valid() && h.pool == this && h in held
      modifies this`frames
      ensures Valid() && h.frame < |frames| == |old(frames)|
      ensures frames == old(frames)[h.frame := old(frames)[h.frame].(data := data, dirty := true)]
      ensures frames[h.frame].id < |storage.pages| && View() == old(View())[frames[h.frame].id := data]
      ensures Wrote(frames[h.frame].id, data)
      ensures Slack() >= old(Slack()) - L.RECORD_SIZE
    {
      hide Inv, FramesOk, RecencyOk, Cache, Contents, Frames.Table, PinsOk, Count, Find, R.Without, R.Victim, Pinned;
      PinnedNow(frames, held, h);
      var f := frames[h.frame].(data := data, dirty := true);
      PinsCarry(frames, frames[h.frame := f], held);
      WriteKeeps(frames, h.frame, f, capacity, clock, storage.pages, recency);
      SlackWrite(storage.reliable
                 && storage.open, if sink == null then None else Some(sink.Room()), Cache(frames), f.id, data);
      frames := frames[h.frame := f];
      if sink != null { MutateRun(old(Abs(Idle)), f.id, data); }
    }

    /** The machine took exactly one step, a write of page `id`. */
    twostate predicate Wrote(id: nat, data: Page)
      reads this, storage, sink
    {
      && sink == old(sink)
      && (sink != null ==>
          Enabled(old(Abs(Idle)), Mutate(id, data)) && Abs(Idle) == Next(old(Abs(Idle)), Mutate(id, data)))
    }

    lemma LogValid()
      requires Valid() && sink != null
      ensures sink.Valid()
    {
      hide Inv, FramesOk, RecencyOk, Cache, PinsOk;
    }

    lemma ViewSize()
      requires Valid()
      ensures |View()| == |storage.pages| <= INVALID_ID
    {
      hide Inv, RecencyOk, Cache, PinsOk, Count;
    }

    lemma Positive()
      requires Valid()
      ensures capacity > 0
    {
      hide Inv, RecencyOk, Cache, PinsOk, Count, Contents, FramesOk;
      CapacityPositive(frames, capacity, clock, storage.pages);
    }

    lemma Bounded()
      requires Valid()
      ensures capacity <= MAX_FRAMES
    {
      hide Inv, RecencyOk, Cache, PinsOk, Count, Contents, FramesOk;
      PoolBounds(frames, capacity, clock, storage.pages);
    }

    /** A short visit: pin a page, copy its bytes, release it. */
    method Peek(id: nat) returns (s: Status, page: Page)
      requires Valid()
      modifies this`frames, this`clock, this`held, this`recency, storage, sink
      ensures Valid() && View() == old(View()) && Quietly() && held == old(held)
      ensures s.Ok? ==> id < |View()| && page == View()[id]
      ensures clock <= old(clock) + 1 && s != Error(NeverReturns) && (Jammed() ==> Residents() == old(Residents()))
      ensures old(Slack()) >= 0 ==> Slack() == old(Slack()) && s == FetchStatus(old(frames), capacity, |View()|, id)
    {
      hide Inv, FramesOk, RecencyOk, Cache, Contents, Frames.Table, QuietlyReaches, PinsOk, Count, Find, Pinned,
        NamesKept, R.Touch, Slack, FetchStatus, Residents;
      page := ZERO_PAGE;
      var h;
      s, h := Fetch(id);
      StorageBound(frames, capacity, clock, storage.pages);
      if s.Error? { return; }
      FrameShowsView(frames, h.frame, capacity, clock, storage.pages);
      page := frames[h.frame].data;
      label Copied:
      var released := Release(h);
      if sink != null { QuietTrans(old(Abs(Idle)), old@Copied(Abs(Idle)), Abs(Idle)); }
      assert held == old(held);
    }

    /** With fuel left, every page of the file can be fetched. */
    lemma FuelFetches(id: nat)
      requires Valid() && Fuel() >= 1 && id < |View()|
      ensures FetchStatus(frames, capacity, |View()|, id).Ok?
    {
      hide Inv, RecencyOk, Cache, Contents, Frames.Table, Find, Count;
      StorageBound(frames, capacity, clock, storage.pages);
      VictimLeft(frames, held, capacity, clock, storage.pages);
    }

    // ---- new pages -----------------------------------------------------------------

    /**
     How a table or catalog adds a page: allocate it, then write its first image
     straight to the file. A failure may leave a page of unknown bytes behind.
     */
    method NewPage(image: Page) returns (s: Status, id: nat)
      requires Valid()
      modifies storage
      ensures Valid() && Added(old(View()), View(), image, s) && (s.Ok? ==> id == |old(View())| < INVALID_ID)
      ensures s.Error? ==> s.code in {BadState, IoError}
      ensures |View()| == |old(View())| || storage.pages == old(storage.pages) + [View()[|old(View())|]]
      ensures sink != null ==> Grew(old(Abs(Idle)), Abs(Idle))
      ensures Slack() == old(Slack()) && (old(Slack()) >= 0 ==> (s.Ok? <==> |old(View())| < INVALID_ID))
    {
      hide Inv, FramesOk, RecencyOk, Cache, Contents, Frames.Table, PinsOk, Count, Find;
      StorageBound(frames, capacity, clock, storage.pages);
      s, id := storage.AllocatePage();
      if s.Error? { return; }
      s := storage.WritePage(id, image);
      ghost var first := storage.pages[id];
      assert storage.pages == old(storage.pages) + [first];
      GrownKeeps(frames, capacity, clock, old(storage.pages), first, recency);
      if sink != null { GrowRun(old(Abs(Idle)), first); }
    }

    // ---- flushing ------------------------------------------------------------------

    method FlushPage(id: nat) returns (s: Status)
      requires Valid()
      modifies this`frames, storage, sink
      ensures Valid() && View() == old(View()) && Quietly() && Cleaned(old(frames), frames)
      ensures s == Error(NotFound) <==> id !in Table(old(frames))
      ensures s.Ok? ==> id in Table(frames) && !Table(frames)[id].dirty
      ensures old(Slack()) >= 0 ==> Slack() == old(Slack()) && (s.Ok? <==> id in Table(old(frames)))
    {
      hide Inv, FramesOk, RecencyOk, Cache, Contents, QuietlyReaches, PinsOk, Attached, Count, Frames.Table, Find,
        R.Without, R.Victim, Pinned, Slack;
      var i := FindFrame(id);
      if i == |frames| {
        if sink != null { QuietRefl(Abs(Idle)); }
        return Error(NotFound);
      }
      s := FlushFrame(i);
      if s.Ok? { FlushedTable(old(frames), i, capacity, clock, old(storage.pages)); }
    }

    /**
     Tries every dirty page, whatever became of the ones before it, and reports
     the first failure. `outcome` says how each attempt ended; only a page whose
     write failed stays dirty.
     */
    method FlushAll() returns (first: Status, ghost outcome: map<nat, Status>)
      requires Valid()
      modifies this`frames, storage, sink
      ensures Valid() && View() == old(View()) && Quietly() && Cleaned(old(frames), frames)
      ensures Tried(old(frames), frames, |frames|, outcome, first)
      ensures first.Ok? ==> forall i :: 0 <= i < |frames| ==> !frames[i].dirty
      ensures |storage.pages| == |old(storage.pages)|
      ensures old(Slack()) >= 0 ==> first.Ok? && Slack() == old(Slack())
    {
      hide Inv, FramesOk, RecencyOk, Cache, Contents, Frames.Table, QuietlyReaches, PinsOk, Attached, Count, Find,
        R.Without, R.Victim, Pinned, Tried, Slack;
      first, outcome := Ok, map[];
      if sink != null { QuietRefl(Abs(Idle)); }
      var i := 0;
      NoneTried(frames);
      while i < |frames|
        invariant i <= |frames| == |old(frames)| && |storage.pages| == |old(storage.pages)|
        invariant Valid() && View() == old(View()) && Quietly() && Cleaned(old(frames), frames)
        invariant Tried(old(frames), frames, i, outcome, first) && frames[i..] == old(frames)[i..]
        invariant old(Slack()) >= 0 ==> first.Ok? && Slack() == old(Slack())
      {
        ghost var before := frames;
        assert frames[i] == frames[i..][0] == old(frames)[i] && frames[i + 1..] == frames[i..][1..];
        if frames[i].inUse && frames[i].dirty {
          label Before:
          var s := FlushFrame(i);
          if sink != null { QuietTrans(old(Abs(Idle)), old@Before(Abs(Idle)), Abs(Idle)); }
          TriedNext(old(frames), before, frames, i, outcome, first, s);
          outcome := outcome[i := s];
          if s.Error? && first.Ok? { first := s; }
        } else {
          NotDirty(frames, i, capacity, clock, storage.pages);
          TriedNone(old(frames), before, i, outcome, first);
        }
        i := i + 1;
      }
      AllTried(old(frames), frames, outcome, first);
    }

    // ---- resizing ------------------------------------------------------------------

    /** Releases trailing free frames, never below the capacity. */
    method TrimFreeFrames()
      requires Valid()
      modifies this`frames
      ensures Valid() && View() == old(View()) && Quietly() && NamesKept(old(frames), frames, held)
      ensures |frames| <= |old(frames)| && frames == old(frames)[..|frames|]
      ensures |frames| == capacity || frames[|frames| - 1].inUse
      ensures Slack() == old(Slack())
    {
      hide Inv, FramesOk, RecencyOk, Cache, Contents, Frames.Table, QuietlyReaches, Count, PinsOk, Find, R.Without,
        R.Victim, Pinned, SlackOf;
      if sink != null { QuietRefl(Abs(Idle)); }
      PoolBounds(frames, capacity, clock, storage.pages);
      var n := |frames|;
      while n > capacity && !frames[n - 1].inUse
        invariant capacity <= n <= |frames| && frames == old(frames)
        invariant forall i :: n <= i < |frames| ==> !frames[i].inUse
      {
        n := n - 1;
      }
      TrimKeeps(frames, n, capacity, clock, storage.pages, recency, held);
      frames := frames[..n];
    }

    /** The frames a shrink may evict, oldest first. */
    method Candidates() returns (victims: seq<nat>)
      ensures Evictable(frames, victims) && |victims| == Count(frames) - PinnedCount(frames)
    {
      hide Rank, Ranked;
      var fs := frames;
      victims := [];
      for i := 0 to |fs|
        invariant R.NoDuplicates(victims) && |victims| == Count(fs[..i]) - PinnedCount(fs[..i])
        invariant forall k :: 0 <= k < |victims| ==> victims[k] < i
        invariant forall k :: k in victims <==> 0 <= k < i && fs[k].inUse && fs[k].pins == 0
      {
        assert fs[..i + 1][..i] == fs[..i];
        if fs[i].inUse && fs[i].pins == 0 {
          R.SnocNoDuplicates(victims, i);
          victims := victims + [i];
        }
      }
      assert fs[..|fs|] == fs;
      victims := Rank(fs, victims);
    }

    /** Writes the victims back before any of them is given up. */
    method FlushVictims(victims: seq<nat>) returns (s: Status)
      requires Valid() && InRange(frames, victims)
      modifies this`frames, storage, sink
      ensures Valid() && View() == old(View()) && Quietly() && Cleaned(old(frames), frames)
      ensures forall i :: 0 <= i < |frames| && i !in victims ==> frames[i] == old(frames)[i]
      ensures s.Ok? ==> AllClean(frames, victims)
      ensures s.Error? ==> s.code in {BadState, IoError}
      ensures old(Slack()) >= 0 ==> s.Ok? && Slack() == old(Slack())
    {
      hide Inv, FramesOk, RecencyOk, Cache, Contents, Frames.Table, QuietlyReaches, PinsOk, Attached, Count, Find,
        R.Without, R.Victim, Pinned, Slack;
      if sink != null { QuietRefl(Abs(Idle)); }
      for k := 0 to |victims|
        invariant Valid() && View() == old(View()) && Quietly() && Cleaned(old(frames), frames)
        invariant forall i :: 0 <= i < |frames| && i !in victims ==> frames[i] == old(frames)[i]
        invariant InRange(frames, victims) && forall m :: 0 <= m < k ==> !frames[victims[m]].dirty
        invariant old(Slack()) >= 0 ==> Slack() == old(Slack())
      {
        label Before:
        s := FlushFrame(victims[k]);
        if sink != null { QuietTrans(old(Abs(Idle)), old@Before(Abs(Idle)), Abs(Idle)); }
        if s.Error? { return s; }
      }
      return Ok;
    }

    /** Gives up the first n candidates, all of them clean. */
    method FreeVictims(victims: seq<nat>, n: nat)
      requires Valid() && Evictable(frames, victims) && n <= |victims| && AllClean(frames, victims[..n])
      modifies this`frames, this`recency
      ensures Valid() && View() == old(View()) && Quietly() && NamesKept(old(frames), frames, held)
      ensures Freed(old(frames), frames, victims[..n]) && Count(frames) == Count(old(frames)) - n
      ensures recency == R.Shrink(old(recency), Pinned(old(frames)), n)
      ensures Slack() >= old(Slack())
    {
      hide SlackOf, Inv, FramesOk, RecencyOk, Cache, Contents, Frames.Table, QuietlyReaches, Count, PinsOk, R.Without,
        Pinned, NamesKept, Freed, Evictable, AllClean, R.Shrink, Attached, Find, R.Victim;
      ghost var list;
      frames, list := EmptyFrames(frames, victims, n, capacity, clock, storage.pages, recency, held);
      recency := list;
      FreedSlack(storage.reliable
                 && storage.open, if sink == null then None else Some(sink.Room()), old(frames), frames,
        victims[..n], capacity, clock, storage.pages);
      if sink != null { DropAll(old(Abs(Idle)), old(frames), frames, victims, n, capacity, clock, storage.pages); }
    }

    method Grow(newCapacity: nat)
      requires Valid() && capacity < newCapacity <= MAX_FRAMES
      modifies this`frames, this`capacity
      ensures Valid() && View() == old(View()) && Quietly() && NamesKept(old(frames), frames, held)
      ensures capacity == newCapacity && Survives(old(frames), frames) && Count(frames) == Count(old(frames))
      ensures Slack() == old(Slack())
    {
      hide SlackOf, Inv, FramesOk, RecencyOk, Cache, Contents, Frames.Table, QuietlyReaches, Count, PinsOk, Attached,
        NamesKept, Find, R.Without, R.Victim, Pinned;
      AllNamesKept(frames, held);
      if sink != null { QuietRefl(Abs(Idle)); }
      var extra := if newCapacity > |frames| then newCapacity - |frames| else 0;
      var more := frames + seq(extra, _ => FREE);
      PoolBounds(frames, capacity, clock, storage.pages);
      GrowKeeps(frames, more, newCapacity, capacity, clock, storage.pages, recency, held);
      frames := more;
      capacity := newCapacity;
    }

    /**
     Changes the capacity. A shrink evicts the oldest unpinned pages, all written
     back first; it is refused when too many pages are pinned. A failure keeps the
     capacity, every resident with its pins and stamp, and the recency list.
     */
    method Resize(newCapacity: nat) returns (s: Status)
      requires Valid()
      modifies this`frames, this`capacity, this`recency, storage, sink
      ensures Valid() && View() == old(View()) && Quietly() && NamesKept(old(frames), frames, held)
      ensures s.Ok? ==> capacity == newCapacity > 0 && Survives(old(frames), frames)
      ensures s.Ok? ==> recency == R.Shrink(old(recency), Pinned(old(frames)), Excess(old(frames), newCapacity))
      ensures s.Error? ==> capacity == old(capacity) && recency == old(recency) && Cleaned(old(frames), frames)
      ensures s == Error(InvalidArgument) <==> newCapacity == 0
      ensures 0 < newCapacity < PinnedCount(old(frames)) ==> s == Error(BufferFull) || s == Error(OutOfMemory)
      ensures s == Error(BufferFull) ==> newCapacity < PinnedCount(old(frames)) && frames == old(frames)
      ensures s == Error(OutOfMemory) ==> frames == old(frames)
      ensures old(Slack()) >= 0 ==> Slack() >= old(Slack()) && s == ResizeStatus(old(frames), newCapacity)
    {
      hide Slack, Inv, FramesOk, RecencyOk, Cache, Contents, Frames.Table, QuietlyReaches, Count, PinsOk, R.Shrink,
        Pinned, Attached, NamesKept, Find, R.Without, R.Victim;
      AllNamesKept(frames, held);
      if sink != null { QuietRefl(Abs(Idle)); }
      PoolBounds(frames, capacity, clock, storage.pages);
      if newCapacity == 0 { return Error(InvalidArgument); }
      ShrinkNothing(frames, capacity, recency);
      if newCapacity == capacity { return Ok; }
      if Slack() >= 0 { SlackMeans(); }
      var fails := storage.Fails();
      if fails { return Error(OutOfMemory); }
      if newCapacity > capacity {
        if newCapacity > MAX_FRAMES { return Error(OutOfMemory); }
        Grow(newCapacity);
        return Ok;
      }
      s := ShrinkTo(newCapacity);
    }

    /** Evicts the `needed` oldest unpinned pages, or refuses when there are not that many. */
    method EvictOldest(needed: nat) returns (s: Status)
      requires Valid() && needed <= Count(frames)
      modifies this`frames, this`recency, storage, sink
      ensures Valid() && View() == old(View()) && Quietly() && NamesKept(old(frames), frames, held)
      ensures s.Ok? ==> Count(frames) == Count(old(frames)) - needed && Survives(old(frames), frames)
      ensures s.Ok? ==> recency == R.Shrink(old(recency), Pinned(old(frames)), needed)
      ensures s.Error? ==> recency == old(recency) && Cleaned(old(frames), frames)
      ensures s == Error(BufferFull) <==> Count(old(frames)) - needed < PinnedCount(old(frames))
      ensures s == Error(BufferFull) ==> frames == old(frames)
      ensures s.Error? ==> s.code in {BufferFull, BadState, IoError}
      ensures old(Slack()) >= 0 ==> Slack() >= old(Slack()) && (s.Error? ==> s == Error(BufferFull))
    {
      hide Slack, Inv, FramesOk, RecencyOk, Cache, Contents, Frames.Table, QuietlyReaches, Count, PinsOk, R.Shrink,
        Pinned, Attached, NamesKept, Find, R.Without, R.Victim;
      AllNamesKept(frames, held);
      if sink != null { QuietRefl(Abs(Idle)); }
      var victims := Candidates();
      if |victims| < needed { return Error(BufferFull); }
      s := FlushVictims(victims[..needed]);
      CleanedKeepsNames(old(frames), frames, held);
      if s.Error? { return s; }
      CleanedSame(old(frames), frames, victims);
      label Flushed:
      FreeVictims(victims, needed);
      FreedSurvive(old(frames), old@Flushed(frames), frames, victims[..needed], held);
      if sink != null { QuietTrans(old(Abs(Idle)), old@Flushed(Abs(Idle)), Abs(Idle)); }
    }

    method ShrinkTo(newCapacity: nat) returns (s: Status)
      requires Valid() && 0 < newCapacity < capacity
      modifies this`frames, this`capacity, this`recency, storage, sink
      ensures Valid() && View() == old(View()) && Quietly() && NamesKept(old(frames), frames, held)
      ensures s.Ok? ==> capacity == newCapacity && Survives(old(frames), frames)
      ensures s.Ok? ==> recency == R.Shrink(old(recency), Pinned(old(frames)), Excess(old(frames), newCapacity))
      ensures s.Error? ==> capacity == old(capacity) && recency == old(recency) && Cleaned(old(frames), frames)
      ensures s == Error(BufferFull) <==> newCapacity < PinnedCount(old(frames))
      ensures s == Error(BufferFull) ==> frames == old(frames)
      ensures s.Error? ==> s.code in {BufferFull, BadState, IoError}
      ensures old(Slack()) >= 0 ==> Slack() >= old(Slack()) && (s.Error? ==> s == Error(BufferFull))
    {
      hide Slack, Inv, FramesOk, RecencyOk, Cache, Contents, Frames.Table, QuietlyReaches, Count, PinsOk, R.Shrink,
        Pinned, Attached, NamesKept, Find, R.Without, R.Victim;
      AllNamesKept(frames, held);
      if sink != null { QuietRefl(Abs(Idle)); }
      var residents := Size();
      if residents > newCapacity {
        s := EvictOldest(residents - newCapacity);
        if s.Error? { return s; }
      } else {
        ShrinkNothing(frames, newCapacity, recency);
      }
      label Evicted:
      Commit(newCapacity);
      NamesKeptTrans(old(frames), old@Evicted(frames), frames, held);
      if sink != null { QuietTrans(old(Abs(Idle)), old@Evicted(Abs(Idle)), Abs(Idle)); }
      return Ok;
    }

    /** The capacity drops once few enough pages are left. */
    method Commit(newCapacity: nat)
      requires Valid() && 0 < newCapacity < capacity && Count(frames) <= newCapacity
      modifies this`frames, this`capacity
      ensures Valid() && View() == old(View()) && Quietly() && NamesKept(old(frames), frames, held)
      ensures capacity == newCapacity && Survives(old(frames), frames) && Slack() == old(Slack())
    {
      hide SlackOf, Inv, FramesOk, RecencyOk, Cache, Contents, Frames.Table, QuietlyReaches, Count, PinsOk, Attached,
        NamesKept, Find, R.Without, R.Victim, Pinned;
      ShrinkKeeps(frames, capacity, newCapacity, clock, storage.pages);
      capacity := newCapacity;
      TrimFreeFrames();
    }
  }

  // ---- what a reliable pool can promise --------------------------------------------

  /** More fetches than any call of the engine makes. */
  const PLENTY: int := 0x1_0000_0000_0000_0000_0000_0000_0000_0000

  function SlackOf(io: bool, room: Option<int>, cache: map<nat, Entry>): int {
    if !io then -1
    else match room
         case None => MAX_FILE_SIZE
         case Some(r) => r - L.RECORD_SIZE * |DirtyIn(cache)|
  }

  function DirtyIn(cache: map<nat, Entry>): set<nat> {
    set p | p in cache && cache[p].dirty
  }

  /** Writing a dirty page back takes a record of room and leaves one dirty page less. */
  lemma SlackFlush(io: bool, room: Option<int>, cache: map<nat, Entry>, id: nat)
    requires id in cache && cache[id].dirty
    ensures SlackOf(io, room, cache) >= 0 ==> io && (room.Some? ==> room.value >= L.RECORD_SIZE)
    ensures var after := if room.None? then None else Some(room.value - L.RECORD_SIZE);
            SlackOf(io, after, cache[id := Entry(cache[id].data, false)]) == SlackOf(io, room, cache)
  {
    var clean := cache[id := Entry(cache[id].data, false)];
    assert DirtyIn(cache) == DirtyIn(clean) + {id};
    assert |DirtyIn(cache)| == |DirtyIn(clean)| + 1;
  }

  /** Loading a page in place of a clean one leaves the same pages dirty. */
  lemma DirtyInstall(cache: map<nat, Entry>, evict: bool, victim: nat, f: Frame)
    requires f.id !in cache && (evict ==> victim in cache && !cache[victim].dirty)
    ensures DirtyIn((if evict then cache - {victim} else cache)[f.id := Entry(f.data, false)]) == DirtyIn(cache)
  {
  }

  lemma SlackWrite(io: bool, room: Option<int>, cache: map<nat, Entry>, id: nat, data: Page)
    ensures SlackOf(io, room, cache[id := Entry(data, true)]) >= SlackOf(io, room, cache) - L.RECORD_SIZE
  {
    var after := cache[id := Entry(data, true)];
    assert DirtyIn(after) == DirtyIn(cache) + {id};
    assert |DirtyIn(after)| <= |DirtyIn(cache)| + 1;
  }

  /** Giving pages up leaves no more dirty ones than before. */
  lemma SlackSurvives(io: bool, room: Option<int>, fs: seq<Frame>, gs: seq<Frame>)
    requires Distinct(fs) && Distinct(gs) && Survives(fs, gs)
    ensures SlackOf(io, room, Cache(gs)) >= SlackOf(io, room, Cache(fs))
  {
    hide Find, Table;
    forall p | p in DirtyIn(Cache(gs))
      ensures p in DirtyIn(Cache(fs))
    {
      TableHas(fs, Find(gs, p));
    }
    SubsetSize(DirtyIn(Cache(gs)), DirtyIn(Cache(fs)));
  }

  lemma SubsetSize(a: set<nat>, b: set<nat>)
    requires a <= b
    ensures |a| <= |b|
  {
    assert b == a + (b - a);
  }

  /** How a fetch ends when no call fails. */
  function FetchStatus(fs: seq<Frame>, capacity: nat, pageCount: nat, id: nat): Status {
    if id == INVALID_ID then Error(InvalidArgument)
    else if id in Table(fs) then Ok
    else if id >= pageCount then Error(NotFound)
    else if Count(fs) == capacity && NoVictim(fs) then Error(BufferFull)
    else Ok
  }

  /** How a resize ends when no call fails: only zero, too many pins or too many frames are refused. */
  function ResizeStatus(fs: seq<Frame>, n: nat): Status {
    if n == 0 then Error(InvalidArgument)
    else if n > MAX_FRAMES then Error(OutOfMemory)
    else if n < PinnedCount(fs) then Error(BufferFull)
    else Ok
  }

  predicate Full(fs: seq<Frame>, capacity: nat) {
    Count(fs) == capacity && forall i :: 0 <= i < |fs| && fs[i].inUse ==> fs[i].pins > 0
  }

  lemma FreedSlack(io: bool, room: Option<int>, fs: seq<Frame>, gs: seq<Frame>, which: seq<nat>, capacity: nat,
                   clock: nat, pages: seq<Page>)
    requires FramesOk(fs, capacity, clock, pages) && FramesOk(gs, capacity, clock, pages) && Freed(fs, gs, which)
    ensures SlackOf(io, room, Cache(gs)) >= SlackOf(io, room, Cache(fs))
  {
    hide SlackOf, Cache, Count;
    SlackSurvives(io, room, fs, gs);
  }

  /** Two unpinned residents, or one below the top of the clock, leave something to evict. */
  lemma VictimLeft(fs: seq<Frame>, held: map<Handle, nat>, capacity: nat, clock: nat, pages: seq<Page>)
    requires FramesOk(fs, capacity, clock, pages) && PinsOk(fs, held) && |held.Values| < capacity
    requires |held.Values| + 2 <= capacity || clock < MAX_STAMP
    ensures !(Count(fs) == capacity && NoVictim(fs))
  {
    hide Find, Table, Count, FramesOk, PinsOk;
    SmallCount(fs, capacity, clock, pages);
    if Count(fs) == capacity {
      var i := LooseFrame(fs, held, {});
      if |held.Values| + 2 <= capacity {
        var j := LooseFrame(fs, held, {i});
      }
    }
  }

  /** A frame in use that no handle pins, other than the given ones. */
  lemma LooseFrame(fs: seq<Frame>, held: map<Handle, nat>, but: set<nat>) returns (i: nat)
    requires PinsOk(fs, held) && |held.Values| + |but| < Count(fs)
    ensures i < |fs| && fs[i].inUse && fs[i].pins == 0 && i !in but
  {
    hide Count;
    InUseSize(fs);
    SetLeft(InUse(fs), held.Values);
    SetLeft(InUse(fs) - held.Values, but);
    i :| i in InUse(fs) - held.Values - but;
    Unheld(fs, held, i);
  }

  lemma SetLeft(a: set<nat>, b: set<nat>)
    ensures |a - b| >= |a| - |b|
  {
    assert a == (a - b) + (a * b);
    assert b == (a * b) + (b - a);
  }

  lemma Unheld(fs: seq<Frame>, held: map<Handle, nat>, i: nat)
    requires PinsOk(fs, held) && i < |fs| && i !in held.Values
    ensures fs[i].pins == 0
  {
    assert Holders(held, i) == {};
  }

  /** As many pinned frames as the pool may fill: all of them are, and none is free. */
  lemma PinnedOut(fs: seq<Frame>, held: map<Handle, nat>, capacity: nat, clock: nat, pages: seq<Page>)
    requires FramesOk(fs, capacity, clock, pages) && PinsOk(fs, held) && |held.Values| >= capacity
    ensures Full(fs, capacity)
  {
    hide Find, Table, Count;
    InUseSize(fs);
    assert held.Values <= InUse(fs);
    SubsetSize(held.Values, InUse(fs));
    SetLeft(InUse(fs), held.Values);
    assert InUse(fs) == held.Values + (InUse(fs) - held.Values);
    assert InUse(fs) - held.Values == {};
    forall i | 0 <= i < |fs| && fs[i].inUse
      ensures fs[i].pins > 0
    {
      assert i in InUse(fs);
      var h :| h in held && held[h] == i;
      assert h in Holders(held, i);
    }
  }

  lemma FullFetch(fs: seq<Frame>, capacity: nat, pageCount: nat, id: nat)
    requires Full(fs, capacity) && id < pageCount <= INVALID_ID
    ensures FetchStatus(fs, capacity, pageCount, id) == if id in Table(fs) then Ok else Error(BufferFull)
  {
    hide Count, Table;
  }

  lemma AllNamesStay(fs: seq<Frame>, gs: seq<Frame>, held: map<Handle, nat>)
    requires PinsOk(fs, held) && SameNames(fs, gs)
    ensures NamesKept(fs, gs, held)
  {
  }

  lemma SameTable(fs: seq<Frame>, gs: seq<Frame>)
    requires SameNames(fs, gs)
    ensures Table(gs).Keys == Table(fs).Keys
  {
    hide Find, Count;
    SameResidents(fs, gs);
  }

  lemma FullHasNoVictim(fs: seq<Frame>, capacity: nat)
    ensures Full(fs, capacity) ==> Count(fs) == capacity && NoVictim(fs)
  {
  }

  /** The log holds whole records, numbered from one, and replaying them over the pages changes nothing. */
  predicate Agrees(sent: seq<L.Record>, file: seq<byte>, pending: seq<byte>, pages: seq<Page>) {
    Numbered(sent, |pages|) && pending == [] && file == L.LogBytes(sent) && Replayed(sent, pages) == pages
  }

  /** One page was added with the given image; a failure adds none, or one of unknown bytes. */
  predicate Added(before: seq<Page>, after: seq<Page>, image: Page, s: Status) {
    if s.Ok? then after == before + [image]
    else after == before || (|after| == |before| + 1 && after[..|before|] == before)
  }

  /** Nothing happened, or one page was allocated and given its first image. */
  predicate Grew(a: State, b: State) {
    || b == a
    || (&& Enabled(a, Allocate) && |b.pages| == |a.pages| + 1
        && var image := b.pages[|a.pages|];
           Enabled(Next(a, Allocate), InitPage(image)) && b == Next(Next(a, Allocate), InitPage(image)))
  }

  function Unpinned(fs: seq<Frame>, i: nat): seq<Frame> {
    if i < |fs| && fs[i].pins > 0 then fs[i := fs[i].(pins := fs[i].pins - 1)] else fs
  }

  /** Which handle pins which frame after `dst` takes over the pin of `src`. */
  ghost function Moved(held: map<Handle, nat>, dst: Handle, src: Handle): (m: map<Handle, nat>)
    ensures forall h :: h in m ==>
              (h != dst && h in held && m[h] == held[h]) || (h == dst && src in held && m[h] == held[src])
    ensures dst != src ==> src !in m
  {
    if dst == src then held
    else if src in held then (held - {dst} - {src})[dst := held[src]]
    else held - {dst}
  }

  /** The same frames, some of them no longer dirty. */
  predicate Cleaned(before: seq<Frame>, after: seq<Frame>) {
    |after| == |before| && forall i :: 0 <= i < |before| ==>
        after[i] == before[i] || after[i] == before[i].(dirty := false)
  }

  /**
   Exactly the first n frames that were dirty were tried; a failed one stays
   dirty and the first failure is reported.
   */
  predicate Tried(before: seq<Frame>, after: seq<Frame>, n: nat, outcome: map<nat, Status>, first: Status) {
    && n <= |before| == |after|
    && (forall i {:trigger i in outcome} {:trigger before[i]} :: 0 <= i < n ==> (i in outcome <==> before[i].dirty))
    && (forall i :: i in outcome ==> i < n && after[i].dirty == outcome[i].Error?)
    && (forall i :: 0 <= i < n && !before[i].dirty ==> !after[i].dirty)
    && (first.Ok? ==> forall i :: i in outcome ==> outcome[i].Ok?)
    && (first.Error? ==> exists i :: i in outcome && outcome[i] == first && forall j :: j in outcome && j < i ==>
        outcome[j].Ok?)
  }

  lemma NoneTried(fs: seq<Frame>)
    ensures Tried(fs, fs, 0, map[], Ok)
  {
  }

  lemma TriedNone(before: seq<Frame>, fs: seq<Frame>, i: nat, outcome: map<nat, Status>, first: Status)
    requires Tried(before, fs, i, outcome, first) && i < |fs| && fs[i] == before[i] && !fs[i].dirty
    ensures Tried(before, fs, i + 1, outcome, first)
  {
  }

  lemma TriedNext(before: seq<Frame>, fs: seq<Frame>, gs: seq<Frame>, i: nat, outcome: map<nat, Status>, first: Status,
                  s: Status)
    requires Tried(before, fs, i, outcome, first) && i < |fs| && fs[i] == before[i] && fs[i].dirty
    requires gs == if s.Ok? then fs[i := fs[i].(dirty := false)] else fs
    ensures Tried(before, gs, i + 1, outcome[i := s], if s.Error? && first.Ok? then s else first)
  {
    if first.Error? {
      var k :| k in outcome && outcome[k] == first && forall j :: j in outcome && j < k ==> outcome[j].Ok?;
      assert outcome[i := s][k] == first;
    } else if s.Error? {
      assert outcome[i := s][i] == s;
    }
  }

  lemma AllTried(before: seq<Frame>, after: seq<Frame>, outcome: map<nat, Status>, first: Status)
    requires Tried(before, after, |after|, outcome, first)
    ensures first.Ok? ==> forall i :: 0 <= i < |after| ==> !after[i].dirty
  {
  }

  /** Every frame in use afterwards is one of the old frames, unchanged and in its place. */
  predicate Survives(before: seq<Frame>, after: seq<Frame>) {
    forall i :: 0 <= i < |after| ==> after[i] == FREE || !after[i].inUse || (i < |before| && after[i] == before[i])
  }

  /** How many residents a capacity of n cannot hold. */
  function Excess(fs: seq<Frame>, n: nat): nat {
    if Count(fs) > n then Count(fs) - n else 0
  }

  /** The unpinned residents, oldest first. */
  ghost predicate Evictable(fs: seq<Frame>, victims: seq<nat>) {
    Ranked(fs, victims) && forall i :: i in victims <==> 0 <= i < |fs| && fs[i].inUse && fs[i].pins == 0
  }

  predicate AllClean(fs: seq<Frame>, which: seq<nat>) {
    forall k :: 0 <= k < |which| ==> which[k] < |fs| && !fs[which[k]].dirty
  }

  /** Exactly the listed frames were given up. */
  predicate Freed(before: seq<Frame>, after: seq<Frame>, which: seq<nat>) {
    |after| == |before| && forall i :: 0 <= i < |after| ==> after[i] == if i in which then FREE else before[i]
  }

  /** Frame v is unpinned and no unpinned frame was used earlier. */
  predicate Oldest(fs: seq<Frame>, v: nat) {
    && v < |fs| && fs[v].inUse && fs[v].pins == 0
    && forall i :: 0 <= i < |fs| && fs[i].inUse && fs[i].pins == 0 ==> fs[v].stamp <= fs[i].stamp
  }

  /** A frame a page may be loaded into. */
  predicate Ready(fs: seq<Frame>, slot: nat, capacity: nat)
    requires slot < |fs|
  {
    fs[slot].pins == 0 && !fs[slot].dirty && (!fs[slot].inUse ==> Count(fs) < capacity)
  }

  /** The list once page `id` has taken frame `slot`. */
  function AfterInstall(fs: seq<Frame>, slot: nat, r: seq<nat>, id: nat): seq<nat>
    requires slot < |fs|
  {
    (if fs[slot].inUse then R.Without(r, fs[slot].id) else r) + [id]
  }

  /** Frame `slot` now holds page `id`; every other frame holds what it held. */
  predicate Replaced(before: seq<Frame>, after: seq<Frame>, slot: nat, id: nat) {
    && |after| == |before| && slot < |before| && after[slot].inUse && after[slot].id == id
    && forall i :: 0 <= i < |before| && i != slot ==> after[i].inUse == before[i].inUse && after[i].id == before[i].id
  }

  predicate Fetched(fs: seq<Frame>, slot: nat, id: nat) {
    slot < |fs| && fs[slot].inUse && fs[slot].id == id && fs[slot].pins > 0
  }

  /** Every handle still names the same frame and that frame the same page. */
  ghost predicate NamesKept(before: seq<Frame>, after: seq<Frame>, held: map<Handle, nat>) {
    forall h :: h in held ==>
      && held[h] < |before| && held[h] < |after| && after[held[h]].inUse && after[held[h]].id == before[held[h]].id
  }

  /** Every frame in use still holds the same page. */
  predicate SameNames(before: seq<Frame>, after: seq<Frame>) {
    |after| == |before| && forall i :: 0 <= i < |before| ==>
        after[i].inUse == before[i].inUse && after[i].id == before[i].id
  }

  /**
   No frame may be evicted: every unpinned resident carries the largest stamp,
   which the strict comparison of the victim search never selects. At most one
   frame can carry it.
   */
  predicate NoVictim(fs: seq<Frame>) {
    forall i :: 0 <= i < |fs| && fs[i].inUse && fs[i].pins == 0 ==> fs[i].stamp == MAX_STAMP
  }

  /** `slot` is free, or holds the recency list's victim, clean and unpinned. */
  predicate Acquired(before: seq<Frame>, after: seq<Frame>, slot: nat, capacity: nat, r: seq<nat>) {
    && slot < |before|
    && if Count(before) < capacity then after == before && !before[slot].inUse
       else
         && before[slot].inUse && before[slot].pins == 0
         && after == before[slot := before[slot].(dirty := false)]
         && R.Victim(r, Pinned(before)) == Some(before[slot].id)
  }

  /** The two files agree on every page that is not resident. */
  predicate SameOutside(fs: seq<Frame>, before: seq<Page>, after: seq<Page>) {
    |after| == |before| && forall p :: 0 <= p < |before| && p !in Table(fs) ==> after[p] == before[p]
  }

  /** The two files differ at most in page `id`. */
  predicate SameBut(before: seq<Page>, after: seq<Page>, id: nat) {
    |after| == |before| && forall p :: 0 <= p < |before| && p != id ==> after[p] == before[p]
  }

  // ---- frames as values ----------------------------------------------------------

  /** The resident frames, oldest first. */
  method ResidentsByAge(fs: seq<Frame>) returns (order: seq<nat>)
    ensures Ranked(fs, order) && R.NoDuplicates(order) && |order| <= |fs|
    ensures forall i :: i in order <==> 0 <= i < |fs| && fs[i].inUse
  {
    hide Rank, Ranked;
    order := [];
    for i := 0 to |fs|
      invariant |order| <= i && R.NoDuplicates(order)
      invariant forall k :: 0 <= k < |order| ==> order[k] < i
      invariant forall k :: k in order <==> 0 <= k < i && fs[k].inUse
    {
      if fs[i].inUse {
        R.SnocNoDuplicates(order, i);
        order := order + [i];
      }
    }
    order := Rank(fs, order);
    RankedNoDuplicates(fs, order);
  }

  /** The first k frames of the order carry the stamps 1..k; nothing else changed. */
  predicate StampedUpTo(fs: seq<Frame>, gs: seq<Frame>, order: seq<nat>, k: nat) {
    && |gs| == |fs| && InRange(fs, order) && k <= |order|
    && (forall i :: 0 <= i < |fs| ==> gs[i] == fs[i].(stamp := gs[i].stamp) && (i !in order ==> gs[i] == fs[i]))
    && (forall m :: 0 <= m < k ==> gs[order[m]].stamp == m + 1)
  }

  lemma StampNext(fs: seq<Frame>, gs: seq<Frame>, order: seq<nat>, k: nat)
    requires R.NoDuplicates(order) && k < |order| && StampedUpTo(fs, gs, order, k)
    ensures StampedUpTo(fs, gs[order[k] := gs[order[k]].(stamp := k + 1)], order, k + 1)
  {
  }

  /** Stamps assigned along a ranking keep the order by age. */
  lemma RanksFollowAge(fs: seq<Frame>, gs: seq<Frame>, order: seq<nat>)
    requires StampsDistinct(fs) && Ranked(fs, order) && StampedUpTo(fs, gs, order, |order|)
    requires forall i :: i in order <==> 0 <= i < |fs| && fs[i].inUse
    ensures Restamped(fs, gs)
    ensures forall i :: 0 <= i < |gs| && gs[i].inUse ==> 1 <= gs[i].stamp <= |order|
  {
    forall i | 0 <= i < |fs| && fs[i].inUse
      ensures 1 <= gs[i].stamp <= |order| && order[gs[i].stamp - 1] == i
    {
      assert i in order;
      var m :| 0 <= m < |order| && order[m] == i;
    }
    forall i, j | 0 <= i < |fs| && 0 <= j < |fs| && fs[i].inUse && fs[j].inUse && fs[i].stamp < fs[j].stamp
      ensures gs[i].stamp < gs[j].stamp
    {
      var a, b := gs[i].stamp - 1, gs[j].stamp - 1;
      assert order[a] == i && order[b] == j;
    }
  }

  lemma OrderSize(fs: seq<Frame>, order: seq<nat>)
    requires R.NoDuplicates(order) && forall i :: i in order <==> 0 <= i < |fs| && fs[i].inUse
    ensures |order| == Count(fs)
  {
    ElementsSize(order);
    InUseSize(fs);
    assert Elements(order) == InUse(fs);
  }

  function InUse(fs: seq<Frame>): set<nat> {
    set i: nat | i < |fs| && fs[i].inUse
  }

  lemma {:induction false} InUseSize(fs: seq<Frame>)
    ensures |InUse(fs)| == Count(fs)
  {
    if fs != [] {
      var n := |fs| - 1;
      InUseSize(fs[..n]);
      if fs[n].inUse {
        assert InUse(fs) == InUse(fs[..n]) + {n};
      } else {
        assert InUse(fs) == InUse(fs[..n]);
      }
    }
  }

  lemma RestampCounts(fs: seq<Frame>, gs: seq<Frame>)
    requires Restamped(fs, gs)
    ensures Count(gs) == Count(fs)
  {
    hide Find, Count;
    SameResidents(fs, gs);
  }

  lemma PoolBounds(fs: seq<Frame>, capacity: nat, clock: nat, pages: seq<Page>)
    requires FramesOk(fs, capacity, clock, pages)
    ensures Count(fs) <= capacity <= |fs| <= MAX_FRAMES
    ensures forall i :: 0 <= i < |fs| && fs[i].inUse ==> fs[i].stamp <= MAX_STAMP
  {
    hide Count;
    forall i | 0 <= i < |fs| && fs[i].inUse
      ensures fs[i].stamp <= MAX_STAMP
    {
      assert FrameOk(fs[i], clock, pages);
    }
  }

  /** The frame the search picks holds the recency list's victim. */
  lemma OldestFrameIsVictim(fs: seq<Frame>, v: nat, capacity: nat, clock: nat, pages: seq<Page>, r: seq<nat>)
    requires FramesOk(fs, capacity, clock, pages) && RecencyOk(fs, r)
    requires Oldest(fs, v)
    ensures R.Victim(r, Pinned(fs)) == Some(fs[v].id)
    ensures fs[v].id in Table(fs)
  {
    hide Find, Count, Table, R.Victim;
    TableHas(fs, v);
    var id := fs[v].id;
    assert id in Stamps(fs) && Stamps(fs)[id] == fs[v].stamp;
    forall x | x in r && x !in Pinned(fs)
      ensures Stamps(fs)[id] <= Stamps(fs)[x]
    {
      assert x in Stamps(fs);
      var i := Find(fs, x);
      assert fs[i] == Table(fs)[x];
    }
    OldestIsVictim(r, Stamps(fs), Pinned(fs), id);
  }

  /** Stamping a resident frame with a later time than any other moves its page to the end of the list. */
  lemma StampKeeps(fs: seq<Frame>, i: nat, f: Frame, capacity: nat, now: nat, pages: seq<Page>, r: seq<nat>)
    requires FramesOk(fs, capacity, now, pages) && RecencyOk(fs, r) && i < |fs| && fs[i].inUse
    requires f == fs[i].(pins := f.pins, stamp := now)
    requires forall j :: 0 <= j < |fs| && fs[j].inUse ==> fs[j].stamp < now
    ensures FramesOk(fs[i := f], capacity, now, pages) && RecencyOk(fs[i := f], R.Without(r, f.id) + [f.id])
    ensures Cache(fs[i := f]) == Cache(fs) && Contents(fs[i := f], pages) == Contents(fs, pages) && f.id in r
  {
    hide Find, Table, Count, FramesOk, RecencyOk, Cache, R.Without, Contents;
    StampedFramesOk(fs, i, f, capacity, now, pages);
    TableRewrite(fs, i, f);
    StampedViews(fs, fs[i := f], f, pages);
    StampedRecency(fs, fs[i := f], f, now, r);
  }

  lemma StampedViews(fs: seq<Frame>, gs: seq<Frame>, f: Frame, pages: seq<Page>)
    requires f.id in Table(fs) && Table(gs) == Table(fs)[f.id := f]
    requires f.data == Table(fs)[f.id].data && f.dirty == Table(fs)[f.id].dirty
    ensures Cache(gs) == Cache(fs) && Contents(gs, pages) == Contents(fs, pages)
  {
    hide Table, CacheOf, ContentsOf;
    ViewsOfSame(Table(fs), f.id, f, pages);
  }

  lemma StampedRecency(fs: seq<Frame>, gs: seq<Frame>, f: Frame, now: nat, r: seq<nat>)
    requires RecencyOk(fs, r) && Table(gs) == Table(fs)[f.id := f] && f.id in Table(fs) && f.stamp == now
    requires forall j :: 0 <= j < |fs| && fs[j].inUse ==> fs[j].stamp < now
    ensures RecencyOk(gs, R.Without(r, f.id) + [f.id]) && f.id in r
  {
    hide Table, StampsOf, Increasing, R.Without;
    StampsOfUpdate(Table(fs), f.id, f);
    LaterThanAll(fs, now);
    UseMovesToEnd(r, Stamps(fs), f.id, now);
  }

  lemma LaterThanAll(fs: seq<Frame>, now: nat)
    requires forall j :: 0 <= j < |fs| && fs[j].inUse ==> fs[j].stamp < now
    ensures forall x :: x in Stamps(fs) ==> Stamps(fs)[x] < now
    ensures forall x :: x in Stamps(fs) <==> x in Table(fs)
  {
    hide Find, Table;
  }

  lemma StampedFramesOk(fs: seq<Frame>, i: nat, f: Frame, capacity: nat, now: nat, pages: seq<Page>)
    requires FramesOk(fs, capacity, now, pages) && i < |fs| && fs[i].inUse
    requires f == fs[i].(pins := f.pins, stamp := now)
    requires forall j :: 0 <= j < |fs| && fs[j].inUse ==> fs[j].stamp < now
    ensures FramesOk(fs[i := f], capacity, now, pages) && Distinct(fs) && f.id < |pages|
  {
    hide Find, Count;
    CountUpdate(fs, i, f);
    DistinctUpdate(fs, i, f);
    assert FrameOk(fs[i], now, pages);
    var gs := fs[i := f];
    forall j | 0 <= j < |gs|
      ensures FrameOk(gs[j], now, pages)
    {
      assert FrameOk(fs[j], now, pages);
    }
  }

  /** A page replaces what an acquired frame held: the victim, if any, leaves the list and the page joins its end. */
  lemma InstallKeeps(fs: seq<Frame>, slot: nat, f: Frame, capacity: nat, now: nat, pages: seq<Page>, r: seq<nat>)
    requires FramesOk(fs, capacity, now, pages) && RecencyOk(fs, r) && slot < |fs|
    requires fs[slot].inUse ==> !fs[slot].dirty
    requires !fs[slot].inUse ==> Count(fs) < capacity
    requires f.inUse && !f.dirty && f.stamp == now && f.id < |pages| && f.data == pages[f.id] && f.id !in Table(fs)
    requires now > 0 && forall j :: 0 <= j < |fs| && fs[j].inUse ==> fs[j].stamp < now
    ensures var gs := fs[slot := f];
            && FramesOk(gs, capacity, now, pages)
            && RecencyOk(gs, AfterInstall(fs, slot, r, f.id))
            && Contents(gs, pages) == Contents(fs, pages) && f.id !in Cache(fs)
            && Cache(gs) ==
               (if fs[slot].inUse then Cache(fs) - {fs[slot].id} else Cache(fs))[f.id := Entry(f.data, false)]
            && (fs[slot].inUse ==> fs[slot].id in Cache(fs) && Cache(fs)[fs[slot].id] == Entry(fs[slot].data, false))
  {
    hide Find, Table, Count, FramesOk, RecencyOk, Cache, Contents, R.Without;
    InstallFramesOk(fs, slot, f, capacity, now, pages);
    var gs := fs[slot := f];
    if fs[slot].inUse {
      var hs := fs[slot := FREE];
      TableFree(fs, slot, FREE);
      TableFill(hs, slot, f);
      assert hs[slot := f] == gs;
      InstallViews(fs, hs, gs, fs[slot], f, pages);
      EvictedRecency(fs, hs, fs[slot].id, r);
      JoinRecency(hs, gs, f, now, R.Without(r, fs[slot].id));
    } else {
      TableFill(fs, slot, f);
      JoinViews(fs, gs, f, pages);
      JoinRecency(fs, gs, f, now, r);
    }
  }

  lemma InstallFramesOk(fs: seq<Frame>, slot: nat, f: Frame, capacity: nat, now: nat, pages: seq<Page>)
    requires FramesOk(fs, capacity, now, pages) && slot < |fs|
    requires !fs[slot].inUse ==> Count(fs) < capacity
    requires f.inUse && !f.dirty && f.stamp == now && f.id < |pages| && f.data == pages[f.id] && f.id !in Table(fs)
    requires now > 0 && forall j :: 0 <= j < |fs| && fs[j].inUse ==> fs[j].stamp < now
    ensures FramesOk(fs[slot := f], capacity, now, pages) && Distinct(fs)
    ensures fs[slot].inUse && !fs[slot].dirty ==> fs[slot].id < |pages| && fs[slot].data == pages[fs[slot].id]
  {
    hide Find, Table, Count;
    CountUpdate(fs, slot, f);
    var gs := fs[slot := f];
    forall j | 0 <= j < |fs| && fs[j].inUse
      ensures fs[j].id != f.id
    {
      TableHas(fs, j);
    }
    DistinctUpdate(fs, slot, f);
    assert FrameOk(fs[slot], now, pages);
    forall j | 0 <= j < |gs|
      ensures FrameOk(gs[j], now, pages)
    {
      assert FrameOk(fs[j], now, pages);
    }
  }

  /** Joining the table shows nothing: the page's bytes are the stored ones. */
  lemma JoinViews(fs: seq<Frame>, gs: seq<Frame>, f: Frame, pages: seq<Page>)
    requires
      && Table(gs) == Table(fs)[f.id := f] && f.id !in Table(fs) && f.id < |pages| && f.data == pages[f.id] && !f.dirty
    ensures Contents(gs, pages) == Contents(fs, pages) && Cache(gs) == Cache(fs)[f.id := Entry(f.data, false)]
    ensures f.id !in Cache(fs)
  {
    hide Table, ContentsOf;
    ContentsOfJoin(Table(fs), f.id, f, pages);
    CacheOfUpdate(Table(fs), f.id, f);
  }

  lemma InstallViews(fs: seq<Frame>, hs: seq<Frame>, gs: seq<Frame>, v: Frame, f: Frame, pages: seq<Page>)
    requires v.id in Table(fs) && Table(fs)[v.id] == v && !v.dirty && v.id < |pages| && v.data == pages[v.id]
    requires Table(hs) == Table(fs) - {v.id} && Table(gs) == Table(hs)[f.id := f]
    requires f.id !in Table(fs) && f.id < |pages| && f.data == pages[f.id] && !f.dirty
    ensures Contents(gs, pages) == Contents(fs, pages)
    ensures Cache(gs) == (Cache(fs) - {v.id})[f.id := Entry(f.data, false)]
    ensures v.id in Cache(fs) && Cache(fs)[v.id] == Entry(v.data, false) && f.id !in Cache(fs)
  {
    hide Table, ContentsOf;
    JoinViews(hs, gs, f, pages);
    CacheOfRemove(Table(fs), v.id);
    ContentsOfLeave(Table(fs), v.id, pages);
  }

  lemma EvictedRecency(fs: seq<Frame>, hs: seq<Frame>, id: nat, r: seq<nat>)
    requires RecencyOk(fs, r) && Table(hs) == Table(fs) - {id}
    ensures RecencyOk(hs, R.Without(r, id))
  {
    hide Table, StampsOf, Increasing, R.Without;
    StampsOfRemove(Table(fs), id);
    EvictRemoves(r, Stamps(fs), id);
  }

  lemma JoinRecency(fs: seq<Frame>, gs: seq<Frame>, f: Frame, now: nat, r: seq<nat>)
    requires RecencyOk(fs, r) && Table(gs) == Table(fs)[f.id := f] && f.id !in Table(fs) && f.stamp == now
    requires forall j :: 0 <= j < |fs| && fs[j].inUse ==> fs[j].stamp < now
    ensures RecencyOk(gs, r + [f.id])
  {
    hide Table, StampsOf, Increasing, R.Without;
    StampsOfUpdate(Table(fs), f.id, f);
    LaterThanAll(fs, now);
    UseMovesToEnd(r, Stamps(fs), f.id, now);
    R.WithoutAbsent(r, f.id);
  }

  lemma AllNamesKept(fs: seq<Frame>, held: map<Handle, nat>)
    requires PinsOk(fs, held)
    ensures NamesKept(fs, fs, held)
  {
  }

  /** A held frame is pinned. */
  lemma PinnedNow(fs: seq<Frame>, held: map<Handle, nat>, h: Handle)
    requires PinsOk(fs, held) && h in held
    ensures held[h] < |fs| && fs[held[h]].inUse && fs[held[h]].pins > 0
  {
    assert h in Holders(held, held[h]);
  }

  lemma HitTouches(fs: seq<Frame>, slot: nat, capacity: nat, clock: nat, pages: seq<Page>, r: seq<nat>)
    requires FramesOk(fs, capacity, clock, pages) && RecencyOk(fs, r) && slot < |fs| && fs[slot].inUse
    ensures fs[slot].id < |pages| && fs[slot].id in Table(fs)
    ensures R.Touch(r, fs[slot].id, capacity, Pinned(fs)) == Some(R.Without(r, fs[slot].id) + [fs[slot].id])
  {
    hide Count, Find, Table, R.Without;
    TableHas(fs, slot);
    assert FrameOk(fs[slot], clock, pages);
    assert fs[slot].id in Stamps(fs);
  }

  lemma AcquiredReady(before: seq<Frame>, after: seq<Frame>, slot: nat, capacity: nat, clock: nat, pages: seq<Page>,
                      r: seq<nat>, id: nat)
    requires FramesOk(before, capacity, clock, pages) && Acquired(before, after, slot, capacity, r)
    ensures slot < |after| && Ready(after, slot, capacity) && SameNames(before, after)
    ensures id in Table(after) <==> id in Table(before)
  {
    hide Table, Find, Count, Pinned, R.Victim;
    assert FrameOk(before[slot], clock, pages);
    SameResidents(before, after);
  }

  lemma MissTouches(fs: seq<Frame>, gs: seq<Frame>, slot: nat, capacity: nat, clock: nat, pages: seq<Page>, r: seq<nat>,
                    id: nat)
    requires
      && FramesOk(fs, capacity, clock, pages) && RecencyOk(fs, r) && Acquired(fs, gs, slot, capacity, r)
      && id !in Table(fs)
    ensures R.Touch(r, id, capacity, Pinned(fs)) ==
            Some(AfterInstall(fs, slot, r, id))
  {
    hide Table, Find, Count, Pinned, R.Victim, R.Without;
    RecencySize(fs, r);
    assert id !in Stamps(fs);
  }

  lemma MissNamesKept(fs: seq<Frame>, gs: seq<Frame>, hs: seq<Frame>, slot: nat, id: nat, held: map<Handle, nat>)
    requires PinsOk(fs, held) && SameNames(fs, gs) && Replaced(gs, hs, slot, id) && fs[slot].pins == 0
    ensures NamesKept(fs, hs, held)
  {
    hide Holders;
    NoHolders(held, slot);
  }

  lemma RestampKeepsTable(fs: seq<Frame>, gs: seq<Frame>, slot: nat, id: nat)
    requires Restamped(fs, gs) && slot < |fs|
    ensures id in Table(gs) <==> id in Table(fs)
    ensures Count(gs) == Count(fs) && SameNames(fs, gs)
    ensures gs[slot] == fs[slot].(stamp := gs[slot].stamp)
  {
    hide Table, Find, Count;
    SameResidents(fs, gs);
  }

  lemma LoadRun(a: State, id: nat)
    requires Inv(a) && a.phase == Up(Idle) && id < |a.pages| && id !in a.cache
    ensures var b := a.(cache := a.cache[id := Entry(a.pages[id], false)]);
            Inv(b) && QuietlyReaches(a, b)
  {
    hide Inv;
    assert Enabled(a, Load(id));
    StepSound(a, Load(id));
    QuietStep(a, Load(id));
  }

  lemma SwapRun(a: State, victim: nat, id: nat)
    requires Inv(a) && a.phase == Up(Idle) && id < |a.pages| && id !in a.cache
    requires victim in a.cache && !a.cache[victim].dirty
    ensures var b := a.(cache := (a.cache - {victim})[id := Entry(a.pages[id], false)]);
            Inv(b) && QuietlyReaches(a, b)
  {
    hide Inv;
    assert Enabled(a, Drop(victim));
    StepSound(a, Drop(victim));
    QuietStep(a, Drop(victim));
    var c := Next(a, Drop(victim));
    LoadRun(c, id);
    QuietTrans(a, c, c.(cache := c.cache[id := Entry(c.pages[id], false)]));
  }

  lemma InstallRun(a: State, evict: bool, victim: nat, id: nat)
    requires Inv(a) && a.phase == Up(Idle) && id < |a.pages| && id !in a.cache
    requires evict ==> victim in a.cache && !a.cache[victim].dirty
    ensures var b := a.(cache := (if evict then a.cache - {victim} else a.cache)[id := Entry(a.pages[id], false)]);
            Inv(b) && QuietlyReaches(a, b)
  {
    hide Inv, QuietlyReaches;
    if evict { SwapRun(a, victim, id); } else { LoadRun(a, id); }
  }

  lemma ReleaseKeeps(fs: seq<Frame>, held: map<Handle, nat>, h: Handle, capacity: nat, clock: nat, pages: seq<Page>,
                     r: seq<nat>)
    requires FramesOk(fs, capacity, clock, pages) && RecencyOk(fs, r) && PinsOk(fs, held) && h in held
    ensures var gs := Unpinned(fs, held[h]);
            && FramesOk(gs, capacity, clock, pages) && RecencyOk(gs, r) && PinsOk(gs, held - {h})
            && Cache(gs) == Cache(fs) && Contents(gs, pages) == Contents(fs, pages) && NamesKept(fs, gs, held)
            && SameNames(fs, gs)
  {
    hide Find, Table, Count, RecencyOk, Cache, Contents, Holders, FramesOk;
    PinRemoved(fs, held, h);
    var f := fs[held[h]].(pins := fs[held[h]].pins - 1);
    InUseOk(fs, held[h], capacity, clock, pages);
    RewriteKeeps(fs, held[h], f, capacity, clock, pages, pages, r);
    StampedViews(fs, fs[held[h] := f], f, pages);
  }

  lemma MovedSelf(held: map<Handle, nat>, h: Handle)
    ensures Moved(held, h, h) == held
  {
  }

  lemma MoveKeeps(fs: seq<Frame>, held: map<Handle, nat>, dst: Handle, src: Handle, capacity: nat, clock: nat,
                  pages: seq<Page>, r: seq<nat>)
    requires FramesOk(fs, capacity, clock, pages) && RecencyOk(fs, r) && PinsOk(fs, held)
    ensures NamesKept(fs, fs, held - {dst})
    ensures dst != src ==>
              var gs := if dst in held then Unpinned(fs, held[dst]) else fs;
              && FramesOk(gs, capacity, clock, pages) && RecencyOk(gs, r) && PinsOk(gs, Moved(held, dst, src))
              && Cache(gs) == Cache(fs) && Contents(gs, pages) == Contents(fs, pages) && NamesKept(fs, gs, held - {dst})
  {
    hide FramesOk, RecencyOk, Cache, Contents, PinsOk;
    AllNamesKept(fs, held);
    var less := held - {dst};
    var gs := fs;
    if dst in held {
      ReleaseKeeps(fs, held, dst, capacity, clock, pages, r);
      gs := Unpinned(fs, held[dst]);
    } else {
      assert less == held;
    }
    if dst != src && src in held {
      PinMoved(gs, less, dst, src);
    }
  }

  lemma InUseOk(fs: seq<Frame>, i: nat, capacity: nat, clock: nat, pages: seq<Page>)
    requires FramesOk(fs, capacity, clock, pages) && i < |fs| && fs[i].inUse
    ensures FrameOk(fs[i], clock, pages) && fs[i].id < |pages| <= INVALID_ID && Distinct(fs)
  {
    hide Count;
  }

  lemma WriteKeeps(fs: seq<Frame>, i: nat, f: Frame, capacity: nat, clock: nat, pages: seq<Page>, r: seq<nat>)
    requires FramesOk(fs, capacity, clock, pages) && RecencyOk(fs, r) && i < |fs| && fs[i].inUse
    requires f == fs[i].(data := f.data, dirty := true)
    ensures FramesOk(fs[i := f], capacity, clock, pages) && RecencyOk(fs[i := f], r)
    ensures f.id < |pages| && Contents(fs[i := f], pages) == Contents(fs, pages)[f.id := f.data]
    ensures f.id in Cache(fs) && Cache(fs[i := f]) == Cache(fs)[f.id := Entry(f.data, true)]
  {
    hide Find, Table, Count, RecencyOk, FramesOk;
    InUseOk(fs, i, capacity, clock, pages);
    RewriteKeeps(fs, i, f, capacity, clock, pages, pages, r);
    CacheOfUpdate(Table(fs), f.id, f);
    ContentsOfWrite(Table(fs), f.id, f, pages);
  }

  lemma FrameShowsView(fs: seq<Frame>, i: nat, capacity: nat, clock: nat, pages: seq<Page>)
    requires FramesOk(fs, capacity, clock, pages) && i < |fs| && fs[i].inUse
    ensures fs[i].id < |pages| && Contents(fs, pages)[fs[i].id] == fs[i].data
  {
    hide Find, Table, Count;
    TableHas(fs, i);
    assert FrameOk(fs[i], clock, pages);
  }

  lemma StorageBound(fs: seq<Frame>, capacity: nat, clock: nat, pages: seq<Page>)
    requires FramesOk(fs, capacity, clock, pages)
    ensures |pages| <= INVALID_ID
  {
    hide Count;
  }

  /** A new page at the end of the file is resident nowhere. */
  lemma GrownKeeps(fs: seq<Frame>, capacity: nat, clock: nat, pages: seq<Page>, image: Page, r: seq<nat>)
    requires FramesOk(fs, capacity, clock, pages) && |pages| < INVALID_ID
    ensures FramesOk(fs, capacity, clock, pages + [image])
    ensures Contents(fs, pages + [image]) == Contents(fs, pages) + [image]
  {
    hide Find, Table, Count;
    forall i | 0 <= i < |fs|
      ensures FrameOk(fs[i], clock, pages + [image])
    {
      assert FrameOk(fs[i], clock, pages);
    }
    forall id | id in Table(fs)
      ensures id < |pages|
    {
      assert FrameOk(fs[Find(fs, id)], clock, pages);
    }
  }

  lemma GrowRun(a: State, image: Page)
    requires Inv(a) && a.phase == Up(Idle) && |a.pages| < INVALID_ID
    ensures var b := a.(pages := a.pages + [image]); Grew(a, b) && Inv(b)
  {
    hide Inv;
    assert Enabled(a, Allocate);
    StepSound(a, Allocate);
    var m := Next(a, Allocate);
    assert Enabled(m, InitPage(image));
    StepSound(m, InitPage(image));
    assert m.pages[|a.pages| := image] == a.pages + [image];
    assert (a.pages + [image])[|a.pages|] == image;
  }

  lemma MutateRun(a: State, id: nat, data: Page)
    requires Inv(a) && a.phase == Up(Idle) && id in a.cache
    ensures Enabled(a, Mutate(id, data)) && Next(a, Mutate(id, data)) == a.(cache := a.cache[id := Entry(data, true)])
    ensures Inv(a.(cache := a.cache[id := Entry(data, true)]))
  {
    hide Inv;
    assert Enabled(a, Mutate(id, data));
    StepSound(a, Mutate(id, data));
  }

  lemma FlushedTable(fs: seq<Frame>, i: nat, capacity: nat, clock: nat, pages: seq<Page>)
    requires FramesOk(fs, capacity, clock, pages) && i < |fs| && fs[i].inUse
    ensures var gs := fs[i := fs[i].(dirty := false)]; fs[i].id in Table(gs) && !Table(gs)[fs[i].id].dirty
  {
    hide Table, Find, Count;
    TableRewrite(fs, i, fs[i].(dirty := false));
  }

  lemma NamesKeptTrans(fs: seq<Frame>, gs: seq<Frame>, hs: seq<Frame>, held: map<Handle, nat>)
    requires NamesKept(fs, gs, held) && NamesKept(gs, hs, held)
    ensures NamesKept(fs, hs, held)
  {
  }

  lemma CleanedKeepsNames(fs: seq<Frame>, gs: seq<Frame>, held: map<Handle, nat>)
    requires PinsOk(fs, held) && Cleaned(fs, gs)
    ensures NamesKept(fs, gs, held)
  {
    hide Holders;
  }

  lemma TrimKeeps(fs: seq<Frame>, n: nat, capacity: nat, clock: nat, pages: seq<Page>, r: seq<nat>,
                  held: map<Handle, nat>)
    requires FramesOk(fs, capacity, clock, pages) && RecencyOk(fs, r) && PinsOk(fs, held)
    requires capacity <= n <= |fs| && forall i :: n <= i < |fs| ==> !fs[i].inUse
    ensures FramesOk(fs[..n], capacity, clock, pages) && RecencyOk(fs[..n], r) && PinsOk(fs[..n], held)
    ensures
      && Cache(fs[..n]) == Cache(fs) && Contents(fs[..n], pages) == Contents(fs, pages) && NamesKept(fs, fs[..n], held)
  {
    hide Find, Table, Count, Holders, CacheOf, ContentsOf, StampsOf;
    FreeTail(fs, n);
    PinsTail(fs, n, held);
  }

  lemma GrowKeeps(fs: seq<Frame>, gs: seq<Frame>, larger: nat, capacity: nat, clock: nat, pages: seq<Page>, r: seq<nat>,
                  held: map<Handle, nat>)
    requires FramesOk(fs, capacity, clock, pages) && RecencyOk(fs, r) && PinsOk(fs, held)
    requires
      && capacity <= larger <= |gs| <= MAX_FRAMES && |fs| <= |gs| && gs[..|fs|] == fs
      && forall i :: |fs| <= i < |gs| ==> gs[i] == FREE
    ensures FramesOk(gs, larger, clock, pages) && RecencyOk(gs, r) && PinsOk(gs, held) && Survives(fs, gs)
    ensures Cache(gs) == Cache(fs) && Contents(gs, pages) == Contents(fs, pages) && NamesKept(fs, gs, held)
    ensures Count(gs) == Count(fs)
  {
    hide Find, Table, Count, Holders, CacheOf, ContentsOf, StampsOf;
    FreeTail(gs, |fs|);
    PinsGrow(fs, gs, held);
    forall i | 0 <= i < |fs|
      ensures gs[i] == fs[i]
    {
      assert gs[i] == gs[..|fs|][i];
    }
  }

  lemma {:induction false} CleanedCounts(fs: seq<Frame>, gs: seq<Frame>)
    requires Cleaned(fs, gs)
    ensures Count(gs) == Count(fs) && PinnedCount(gs) == PinnedCount(fs)
  {
    if fs != [] {
      var n := |fs| - 1;
      CleanedCounts(fs[..n], gs[..n]);
    }
  }

  lemma CleanedSame(fs: seq<Frame>, gs: seq<Frame>, victims: seq<nat>)
    requires Cleaned(fs, gs) && Evictable(fs, victims)
    ensures Count(gs) == Count(fs) && Pinned(gs) == Pinned(fs) && Evictable(gs, victims)
  {
    hide Find, Table, Count;
    CleanedCounts(fs, gs);
    SameResidents(fs, gs);
  }

  lemma FreedSurvive(fs: seq<Frame>, gs: seq<Frame>, hs: seq<Frame>, freed: seq<nat>, held: map<Handle, nat>)
    requires PinsOk(fs, held) && Cleaned(fs, gs) && NamesKept(gs, hs, held) && Freed(gs, hs, freed)
    requires forall i :: 0 <= i < |gs| && i !in freed ==> gs[i] == fs[i]
    ensures Survives(fs, hs) && NamesKept(fs, hs, held)
  {
  }

  lemma ShrinkKeeps(fs: seq<Frame>, capacity: nat, smaller: nat, clock: nat, pages: seq<Page>)
    requires FramesOk(fs, capacity, clock, pages) && 0 < smaller < capacity && Count(fs) <= smaller
    ensures FramesOk(fs, smaller, clock, pages)
  {
    hide Count;
  }

  lemma ShrinkNothing(fs: seq<Frame>, n: nat, r: seq<nat>)
    requires Count(fs) <= n
    ensures R.Shrink(r, Pinned(fs), Excess(fs, n)) == r
  {
    hide Count, Pinned;
  }

  /** With the k oldest candidates gone, the next one is the oldest left. */
  lemma OldestLeft(was: seq<Frame>, fs: seq<Frame>, victims: seq<nat>, k: nat)
    requires Evictable(was, victims) && k < |victims|
    requires Freed(was, fs, victims[..k])
    ensures victims[k] < |fs| && Oldest(fs, victims[k]) && fs[victims[k]] == was[victims[k]]
    ensures Freed(was, fs[victims[k] := FREE], victims[..k + 1])
  {
    RankedNoDuplicates(was, victims);
    assert victims[k] in victims && victims[k] !in victims[..k];
    assert victims[..k + 1] == victims[..k] + [victims[k]];
    forall i | 0 <= i < |fs| && fs[i].inUse && fs[i].pins == 0
      ensures fs[victims[k]].stamp <= fs[i].stamp
    {
      assert i in victims && i !in victims[..k];
      assert victims == victims[..k] + victims[k..];
      var m :| 0 <= m < |victims[k..]| && victims[k..][m] == i;
      assert m == 0 || Older(was, victims[k], victims[k + m]);
    }
  }

  /** Giving up the oldest unpinned page, clean, is an eviction of the recency list. */
  lemma EvictKeeps(fs: seq<Frame>, v: nat, capacity: nat, clock: nat, pages: seq<Page>, r: seq<nat>,
                   held: map<Handle, nat>)
    requires FramesOk(fs, capacity, clock, pages) && RecencyOk(fs, r) && PinsOk(fs, held)
    requires Oldest(fs, v) && !fs[v].dirty
    ensures var gs := fs[v := FREE];
            && FramesOk(gs, capacity, clock, pages) && RecencyOk(gs, R.Without(r, fs[v].id)) && PinsOk(gs, held)
            && Cache(gs) == Cache(fs) - {fs[v].id} && Contents(gs, pages) == Contents(fs, pages)
            && Pinned(gs) == Pinned(fs) && Count(gs) == Count(fs) - 1 && NamesKept(fs, gs, held)
    ensures R.Victim(r, Pinned(fs)) == Some(fs[v].id)
    ensures fs[v].id in Cache(fs) && !Cache(fs)[fs[v].id].dirty
  {
    hide Find, Table, Count, Holders, ContentsOf, RecencyOk, R.Without, FramesOk, R.Victim;
    InUseOk(fs, v, capacity, clock, pages);
    OldestFrameIsVictim(fs, v, capacity, clock, pages, r);
    FreedFramesOk(fs, v, capacity, clock, pages);
    TableFree(fs, v, FREE);
    EvictedRecency(fs, fs[v := FREE], fs[v].id, r);
    UnpinnedFreed(fs, held, v, FREE);
    CacheOfRemove(Table(fs), fs[v].id);
    ContentsOfLeave(Table(fs), fs[v].id, pages);
    NoHolders(held, v);
  }

  /** The k oldest candidates have been given up. */
  ghost predicate Evicting(fs: seq<Frame>, next: seq<Frame>, victims: seq<nat>, k: nat,
                           capacity: nat, clock: nat, pages: seq<Page>, r: seq<nat>, list: seq<nat>,
                               held: map<Handle, nat>)
  {
    && FramesOk(next, capacity, clock, pages) && RecencyOk(next, list) && PinsOk(next, held)
    && Contents(next, pages) == Contents(fs, pages) && NamesKept(fs, next, held)
    && k <= |victims| && Freed(fs, next, victims[..k]) && Count(next) == Count(fs) - k
    && Pinned(next) == Pinned(fs) && list == R.Shrink(r, Pinned(fs), k)
  }

  lemma EvictNone(fs: seq<Frame>, victims: seq<nat>, capacity: nat, clock: nat, pages: seq<Page>, r: seq<nat>,
                  held: map<Handle, nat>)
    requires FramesOk(fs, capacity, clock, pages) && RecencyOk(fs, r) && PinsOk(fs, held)
    ensures Evicting(fs, fs, victims, 0, capacity, clock, pages, r, r, held)
  {
    hide FramesOk, RecencyOk, Contents, Count, PinsOk, Pinned, NamesKept;
    AllNamesKept(fs, held);
  }

  lemma EvictNext(fs: seq<Frame>, next: seq<Frame>, victims: seq<nat>, k: nat, n: nat,
                  capacity: nat, clock: nat, pages: seq<Page>, r: seq<nat>, list: seq<nat>, held: map<Handle, nat>)
    requires Evicting(fs, next, victims, k, capacity, clock, pages, r, list, held)
    requires Evictable(fs, victims) && k < n <= |victims| && AllClean(fs, victims[..n])
    ensures victims[k] < |next|
    ensures var id := next[victims[k]].id;
            && Evicting(fs, next[victims[k] := FREE], victims, k + 1, capacity, clock, pages, r, R.Without(list, id),
                        held)
            && id in Cache(next) && !Cache(next)[id].dirty
            && Cache(next[victims[k] := FREE]) == Cache(next) - {id}
  {
    hide FramesOk, RecencyOk, Cache, Contents, Table, Count, PinsOk, R.Victim, R.Without, Pinned, NamesKept, Freed,
      Oldest;
    OldestLeft(fs, next, victims, k);
    assert victims[..n][k] == victims[k];
    EvictKeeps(next, victims[k], capacity, clock, pages, list, held);
    NamesKeptTrans(fs, next, next[victims[k] := FREE], held);
  }

  /** Empties the first n candidates one after another. */
  method EmptyFrames(fs: seq<Frame>, victims: seq<nat>, n: nat, ghost capacity: nat, ghost clock: nat,
                     ghost pages: seq<Page>, ghost r: seq<nat>, ghost held: map<Handle, nat>)
    returns (next: seq<Frame>, ghost list: seq<nat>)
    requires FramesOk(fs, capacity, clock, pages) && RecencyOk(fs, r) && PinsOk(fs, held)
    requires Evictable(fs, victims) && n <= |victims| && AllClean(fs, victims[..n])
    ensures Evicting(fs, next, victims, n, capacity, clock, pages, r, list, held)
  {
    hide Evicting, R.Without, FramesOk, RecencyOk, PinsOk, Evictable;
    next, list := fs, r;
    EvictNone(fs, victims, capacity, clock, pages, r, held);
    for k := 0 to n
      invariant Evicting(fs, next, victims, k, capacity, clock, pages, r, list, held)
    {
      EvictNext(fs, next, victims, k, n, capacity, clock, pages, r, list, held);
      list := R.Without(list, next[victims[k]].id);
      next := next[victims[k] := FREE];
    }
  }

  /** Giving up clean pages is a run of drops. */
  lemma DropAll(a: State, fs: seq<Frame>, gs: seq<Frame>, victims: seq<nat>, n: nat, capacity: nat, clock: nat,
                pages: seq<Page>)
    requires Inv(a) && a.phase == Up(Idle) && a.cache == Cache(fs) && FramesOk(fs, capacity, clock, pages)
    requires Evictable(fs, victims) && n <= |victims| && AllClean(fs, victims[..n]) && Freed(fs, gs, victims[..n])
    ensures Inv(a.(cache := Cache(gs))) && QuietlyReaches(a, a.(cache := Cache(gs)))
  {
    hide Inv, QuietlyReaches, Cache, Count;
    RankedNoDuplicates(fs, victims);
    forall k | 0 <= k < n
      ensures fs[victims[..n][k]].inUse
    {
      assert victims[k] in victims;
    }
    DropFrames(a, fs, gs, victims[..n]);
  }

  lemma {:induction false} DropFrames(a: State, fs: seq<Frame>, gs: seq<Frame>, which: seq<nat>)
    requires Inv(a) && a.phase == Up(Idle) && a.cache == Cache(fs) && Distinct(fs)
    requires
      && Freed(fs, gs, which) && AllClean(fs, which) && R.NoDuplicates(which)
      && forall k :: 0 <= k < |which| ==> fs[which[k]].inUse
    ensures Inv(a.(cache := Cache(gs))) && QuietlyReaches(a, a.(cache := Cache(gs)))
    decreases |which|
  {
    hide Inv, QuietlyReaches, Cache, Table;
    if which == [] {
      assert gs == fs;
      QuietRefl(a);
    } else {
      var n := |which| - 1;
      var hs := gs[which[n] := fs[which[n]]];
      assert which == which[..n] + [which[n]];
      DropFrames(a, fs, hs, which[..n]);
      DroppedCache(hs, which[n]);
      assert hs[which[n] := FREE] == gs;
      var b := a.(cache := Cache(hs));
      DropRun(b, fs[which[n]].id);
      QuietTrans(a, b, a.(cache := Cache(gs)));
    }
  }

  lemma DroppedCache(hs: seq<Frame>, v: nat)
    requires Distinct(hs) && v < |hs| && hs[v].inUse && !hs[v].dirty
    ensures hs[v].id in Cache(hs) && !Cache(hs)[hs[v].id].dirty && Cache(hs[v := FREE]) == Cache(hs) - {hs[v].id}
  {
    hide Table;
    TableFree(hs, v, FREE);
    CacheOfRemove(Table(hs), hs[v].id);
  }

  lemma FreedFramesOk(fs: seq<Frame>, v: nat, capacity: nat, clock: nat, pages: seq<Page>)
    requires FramesOk(fs, capacity, clock, pages) && v < |fs| && fs[v].inUse
    ensures FramesOk(fs[v := FREE], capacity, clock, pages)
  {
    hide Find, Count;
    CountUpdate(fs, v, FREE);
    DistinctUpdate(fs, v, FREE);
    var gs := fs[v := FREE];
    forall j | 0 <= j < |gs|
      ensures FrameOk(gs[j], clock, pages)
    {
      assert FrameOk(fs[j], clock, pages);
    }
  }

  lemma DropRun(a: State, id: nat)
    requires Inv(a) && a.phase == Up(Idle) && id in a.cache && !a.cache[id].dirty
    ensures var b := a.(cache := a.cache - {id}); Inv(b) && QuietlyReaches(a, b)
  {
    hide Inv;
    assert Enabled(a, Drop(id));
    StepSound(a, Drop(id));
    QuietStep(a, Drop(id));
  }

  /** There are far fewer frames than stamps. */
  lemma SmallCount(fs: seq<Frame>, capacity: nat, clock: nat, pages: seq<Page>)
    requires FramesOk(fs, capacity, clock, pages)
    ensures |fs| < MAX_STAMP && clock <= MAX_STAMP && StampsDistinct(fs)
    ensures forall i :: 0 <= i < |fs| && fs[i].inUse ==> 1 <= fs[i].stamp <= clock
  {
    hide Count;
    forall i | 0 <= i < |fs| && fs[i].inUse
      ensures 1 <= fs[i].stamp <= clock
    {
      assert FrameOk(fs[i], clock, pages);
    }
  }

  lemma RewriteFramesOk(fs: seq<Frame>, i: nat, f: Frame, capacity: nat, clock: nat, pages: seq<Page>, after: seq<Page>)
    requires FramesOk(fs, capacity, clock, pages) && i < |fs| && fs[i].inUse
    requires f.inUse && f.id == fs[i].id && f.stamp == fs[i].stamp
    requires SameBut(pages, after, f.id) && FrameOk(f, clock, after)
    ensures FramesOk(fs[i := f], capacity, clock, after)
  {
    hide Find, Count;
    CountUpdate(fs, i, f);
    DistinctUpdate(fs, i, f);
    var gs := fs[i := f];
    forall j | 0 <= j < |gs|
      ensures FrameOk(gs[j], clock, after)
    {
      assert FrameOk(fs[j], clock, pages);
    }
  }

  /** Rewriting a frame without touching its stamp keeps the frame invariant and the recency list. */
  lemma RewriteKeeps(fs: seq<Frame>, i: nat, f: Frame, capacity: nat, clock: nat, pages: seq<Page>, after: seq<Page>,
                     r: seq<nat>)
    requires FramesOk(fs, capacity, clock, pages) && RecencyOk(fs, r) && i < |fs| && fs[i].inUse
    requires f.inUse && f.id == fs[i].id && f.stamp == fs[i].stamp
    requires SameBut(pages, after, f.id) && FrameOk(f, clock, after)
    ensures FramesOk(fs[i := f], capacity, clock, after) && RecencyOk(fs[i := f], r)
    ensures f.id in Table(fs) && Table(fs)[f.id] == fs[i] && Table(fs[i := f]) == Table(fs)[f.id := f]
  {
    hide Find, Table, Count, RecencyOk, StampsOf;
    RewriteFramesOk(fs, i, f, capacity, clock, pages, after);
    TableRewrite(fs, i, f);
    StampsOfUpdate(Table(fs), f.id, f);
    StampsOfUpdate(Table(fs), f.id, fs[i]);
    assert Table(fs)[f.id := fs[i]] == Table(fs);
    SameStamps(fs, fs[i := f], r);
  }

  lemma SameStamps(fs: seq<Frame>, gs: seq<Frame>, r: seq<nat>)
    requires RecencyOk(fs, r) && Stamps(gs) == Stamps(fs)
    ensures RecencyOk(gs, r)
  {
    hide Stamps;
  }

  /** Marking a frame clean once its page is on disk changes nothing a client can see. */
  lemma CleanKeeps(fs: seq<Frame>, i: nat, capacity: nat, clock: nat, pages: seq<Page>, r: seq<nat>)
    requires FramesOk(fs, capacity, clock, pages) && RecencyOk(fs, r) && i < |fs| && fs[i].inUse
    ensures var gs := fs[i := fs[i].(dirty := false)];
            && fs[i].id < |pages| <= INVALID_ID
            && FramesOk(gs, capacity, clock, pages[fs[i].id := fs[i].data]) && RecencyOk(gs, r)
            && Contents(gs, pages[fs[i].id := fs[i].data]) == Contents(fs, pages)
            && fs[i].id in Cache(fs) && Cache(fs)[fs[i].id] == Entry(fs[i].data, fs[i].dirty)
            && Cache(gs) == Cache(fs)[fs[i].id := Entry(fs[i].data, false)]
  {
    hide Find, Table, Count, RecencyOk, CacheOf, ContentsOf;
    assert FrameOk(fs[i], clock, pages);
    var f := fs[i].(dirty := false);
    RewriteKeeps(fs, i, f, capacity, clock, pages, pages[f.id := f.data], r);
    CacheOfUpdate(Table(fs), f.id, f);
    CacheOfUpdate(Table(fs), f.id, fs[i]);
    assert Table(fs)[f.id := fs[i]] == Table(fs);
    ContentsOfHidden(Table(fs), f.id, f, pages, f.data);
  }

  /** A torn write to the page of a dirty frame is invisible. */
  lemma TornKeeps(fs: seq<Frame>, i: nat, capacity: nat, clock: nat, pages: seq<Page>, junk: Page)
    requires FramesOk(fs, capacity, clock, pages) && i < |fs| && fs[i].inUse && fs[i].dirty
    ensures fs[i].id < |pages| && FramesOk(fs, capacity, clock, pages[fs[i].id := junk])
    ensures Contents(fs, pages[fs[i].id := junk]) == Contents(fs, pages)
  {
    hide Find, Table, Count, ContentsOf;
    TableHas(fs, i);
    assert FrameOk(fs[i], clock, pages);
    assert Table(fs)[fs[i].id := fs[i]] == Table(fs);
    ContentsOfHidden(Table(fs), fs[i].id, fs[i], pages, junk);
    forall j | 0 <= j < |fs|
      ensures FrameOk(fs[j], clock, pages[fs[i].id := junk])
    {
      assert FrameOk(fs[j], clock, pages);
    }
  }

  lemma FreeFrames(fs: seq<Frame>, capacity: nat, pages: seq<Page>)
    requires |fs| == capacity && 0 < capacity <= MAX_FRAMES && |pages| <= INVALID_ID
    requires forall i :: 0 <= i < |fs| ==> fs[i] == FREE
    ensures FramesOk(fs, capacity, 0, pages) && RecencyOk(fs, []) && Cache(fs) == map[] && Contents(fs, pages) == pages
  {
    hide Find, Table, Count;
    CountFreeTail(fs, 0);
    assert fs[..0] == [];
    NoneResident(fs);
    assert Stamps(fs) == map[];
  }

  lemma FreshUp(s: State)
    requires Agrees(s.sent, s.log, s.pending, s.pages) && s.cache == map[] && s.phase == Up(Idle)
    ensures Inv(s)
  {
    hide L.Scan, OnDisk, L.RecordBytes, Replayed;
    var n := L.RECORD_SIZE * |s.sent|;
    assert s.log + s.pending == s.log && s.log[..n] == s.log && s.log[n..] == [];
    EmptyIsTorn();
    assert LogOk(s);
    DurableIs(s);
    assert s.sent[..|s.sent|] == s.sent;
  }

  lemma NothingAgrees(pages: seq<Page>)
    requires |pages| <= INVALID_ID
    ensures Agrees([], [], [], pages)
  {
    NothingReplayed(pages);
  }

  lemma NoneResident(fs: seq<Frame>)
    requires forall i :: 0 <= i < |fs| ==> !fs[i].inUse
    ensures Table(fs) == map[]
  {
    hide Find;
  }

  lemma NotDirty(fs: seq<Frame>, i: nat, capacity: nat, clock: nat, pages: seq<Page>)
    requires FramesOk(fs, capacity, clock, pages) && i < |fs| && !(fs[i].inUse && fs[i].dirty)
    ensures fs[i := fs[i].(dirty := false)] == fs
  {
    hide Count, Find;
    assert FrameOk(fs[i], clock, pages);
  }

  lemma DoneWrite(a: State)
    requires Inv(a) && a.phase.Up? && a.phase.stage.Logged?
    ensures var p := a.phase.stage.page;
            && p < |a.pages| && p in a.cache
            && var b := a.(pages := a.pages[p := a.cache[p].data], cache := a.cache[p := a.cache[p].(dirty := false)],
                           phase := Up(Idle));
            Inv(b) && QuietlyReaches(a, b)
  {
    hide Durable, OnDisk, LogOk;
    assert Enabled(a, DataWrite);
    StepSound(a, DataWrite);
    QuietStep(a, DataWrite);
  }

  lemma FailedWrite(a: State, junk: Page)
    requires Inv(a) && a.phase.Up? && a.phase.stage.Logged?
    ensures var p := a.phase.stage.page;
            && p < |a.pages|
            && var b := a.(pages := a.pages[p := junk], phase := Up(Idle));
            Inv(b) && QuietlyReaches(a, b)
  {
    hide Durable, OnDisk, LogOk;
    assert Enabled(a, DataWriteFail(junk));
    StepSound(a, DataWriteFail(junk));
    QuietStep(a, DataWriteFail(junk));
  }

  lemma DoneAppend(a: State, id: nat)
    requires Inv(a) && a.phase == Up(Idle) && !a.wedged && id in a.cache && a.cache[id].dirty
    requires |a.sent| + 1 < 0x1_0000_0000_0000_0000
    ensures var r := L.Record(|a.sent| + 1, id, a.cache[id].data);
            var b := a.(pending := a.pending + L.RecordBytes(r), sent := a.sent + [r], phase := Up(Appended(id)));
            Inv(b) && QuietlyReaches(a, b)
  {
    hide Inv, L.RecordBytes;
    assert Enabled(a, Append(id));
    StepSound(a, Append(id));
    QuietStep(a, Append(id));
  }

  lemma FailedAppend(a: State, id: nat, cut: nat)
    requires Inv(a) && a.phase == Up(Idle) && !a.wedged && id in a.cache && a.cache[id].dirty && cut < L.RECORD_SIZE
    requires |a.sent| + 1 < 0x1_0000_0000_0000_0000
    ensures var r := L.Record(|a.sent| + 1, id, a.cache[id].data);
            var b := a.(pending := a.pending + L.RecordBytes(r)[..cut], wedged := true);
            Inv(b) && QuietlyReaches(a, b)
  {
    hide Inv, L.RecordBytes;
    assert Enabled(a, AppendFail(id, cut));
    StepSound(a, AppendFail(id, cut));
    QuietStep(a, AppendFail(id, cut));
  }

  lemma DoneFlush(a: State)
    requires Inv(a) && a.phase.Up? && a.phase.stage.Appended?
    ensures var b := a.(log := a.log + a.pending, pending := [], phase := Up(Logged(a.phase.stage.page)));
            Inv(b) && QuietlyReaches(a, b)
  {
    hide Inv;
    assert Enabled(a, LogFlush);
    StepSound(a, LogFlush);
    QuietStep(a, LogFlush);
  }

  /** A failed flush lets some bytes through and wedges the stream. */
  lemma FailedFlush(a: State, n: nat)
    requires Inv(a) && a.phase.Up? && a.phase.stage.Appended? && n <= |a.pending|
    ensures var b := a.(log := a.log + a.pending[..n], pending := a.pending[n..], wedged := true, phase := Up(Idle));
            Inv(b) && QuietlyReaches(a, b)
  {
    hide Inv;
    assert Enabled(a, Spill(n));
    StepSound(a, Spill(n));
    QuietStep(a, Spill(n));
    var c := Next(a, Spill(n));
    assert Enabled(c, LogFlushFail);
    StepSound(c, LogFlushFail);
    QuietStep(c, LogFlushFail);
    QuietTrans(a, c, Next(c, LogFlushFail));
  }

  // ---- consequences --------------------------------------------------------------

  /** Below the top of the clock the pool is full exactly when every resident page is pinned. */
  lemma FullMeansPinned(fs: seq<Frame>, capacity: nat, clock: nat, pages: seq<Page>)
    requires FramesOk(fs, capacity, clock, pages) && clock < MAX_STAMP
    ensures NoVictim(fs) <==> PinnedCount(fs) == Count(fs)
  {
    hide FramesOk;
    SmallCount(fs, capacity, clock, pages);
    AllPinned(fs);
  }

  lemma {:induction false} AllPinned(fs: seq<Frame>)
    ensures PinnedCount(fs) == Count(fs) <==> forall i :: 0 <= i < |fs| && fs[i].inUse ==> fs[i].pins > 0
  {
    if fs != [] {
      AllPinned(fs[..|fs| - 1]);
      assert forall i :: 0 <= i < |fs| - 1 ==> fs[..|fs| - 1][i] == fs[i];
    }
  }

  /** The one exception: at the top of the clock the page used last cannot be evicted even when unpinned. */
  lemma OnlyTheNewestIsSpared(fs: seq<Frame>, capacity: nat, clock: nat, pages: seq<Page>, r: seq<nat>, i: nat)
    requires FramesOk(fs, capacity, clock, pages) && RecencyOk(fs, r) && NoVictim(fs)
    requires i < |fs| && fs[i].inUse && fs[i].pins == 0
    ensures clock == MAX_STAMP && r != [] && r[|r| - 1] == fs[i].id
    ensures forall j :: 0 <= j < |fs| && fs[j].inUse && fs[j].pins == 0 ==> j == i
  {
    hide Count, Find, Table;
    InUseOk(fs, i, capacity, clock, pages);
    TableHas(fs, i);
    var id := fs[i].id;
    assert id in Stamps(fs);
    var k :| 0 <= k < |r| && r[k] == id;
    var last := r[|r| - 1];
    assert last in Stamps(fs);
    assert FrameOk(fs[Find(fs, last)], clock, pages);
  }

  lemma SparedPage(page: Page)
    ensures var fs := [Frame(0, page, false, 0, MAX_STAMP, true)];
            && FramesOk(fs, 1, MAX_STAMP, [page]) && NoVictim(fs) && PinnedCount(fs) == 0 < Count(fs)
  {
    var fs := [Frame(0, page, false, 0, MAX_STAMP, true)];
    assert fs[..0] == [];
    assert forall i :: 0 <= i < |fs| ==> FrameOk(fs[i], MAX_STAMP, [page]);
  }

  lemma NoHandlesNoPins(fs: seq<Frame>, held: map<Handle, nat>)
    requires PinsOk(fs, held) && held == map[]
    ensures Pinned(fs) == {}
  {
    hide Find, Table;
    forall id | id in Table(fs)
      ensures Table(fs)[id].pins == 0
    {
      assert Holders(held, Find(fs, id)) == {};
    }
  }

  /**
   Fetching pages one after another and releasing each at once: the pool then
   holds exactly the most recently fetched distinct pages, as many as fit.
   */
  method FetchTrace(pool: Pool, ids: seq<nat>) returns (s: Status)
    requires pool.Valid() && pool.held == map[] && pool.recency == []
    modifies pool`frames, pool`clock, pool`held, pool`recency, pool.storage, pool.sink
    ensures pool.Valid() && pool.View() == old(pool.View()) && pool.held == map[]
    ensures s.Ok? ==> pool.recency == R.Newest(R.ByLastUse(ids), pool.capacity)
    ensures old(pool.Slack()) >= 0 && old(pool.Fuel()) >= |ids| ==>
              (s.Ok? <==> forall k :: 0 <= k < |ids| ==> ids[k] < |pool.View()|)
  {
    hide Pool.Valid, Pool.View, R.Touch, R.Residents, R.Newest, R.ByLastUse, Pool.Slack;
    pool.Positive();
    ResidentsOfNone(pool.capacity);
    for k := 0 to |ids|
      invariant pool.Valid() && pool.View() == old(pool.View()) && pool.held == map[]
      invariant pool.sink == old(pool.sink) && pool.recency == R.Residents(ids[..k], pool.capacity)
      invariant pool.clock <= old(pool.clock) + k && (old(pool.Slack()) >= 0 ==> pool.Slack() == old(pool.Slack()))
      invariant forall j :: 0 <= j < k ==> ids[j] < |pool.View()|
    {
      s := FetchOnce(pool, ids[k]);
      if s.Error? { return s; }
      ResidentsSnoc(ids[..k], ids[k], pool.capacity);
      assert ids[..k + 1] == ids[..k] + [ids[k]];
    }
    assert ids[..|ids|] == ids;
    R.ResidentsAreNewest(ids, pool.capacity);
    return Ok;
  }

  /** Fetches a page and releases it at once, with no other page pinned. */
  method FetchOnce(pool: Pool, id: nat) returns (s: Status)
    requires pool.Valid() && pool.held == map[]
    modifies pool`frames, pool`clock, pool`held, pool`recency, pool.storage, pool.sink
    ensures pool.Valid() && pool.View() == old(pool.View()) && pool.held == map[] && pool.clock <= old(pool.clock) + 1
    ensures s.Ok? ==> id < |pool.View()| && R.Touch(old(pool.recency), id, pool.capacity, {}) == Some(pool.recency)
    ensures old(pool.Slack()) >= 0 ==> pool.Slack() == old(pool.Slack())
    ensures old(pool.Slack()) >= 0 && old(pool.Fuel()) >= 1 ==> (s.Ok? <==> id < |pool.View()|)
  {
    hide Inv, FramesOk, RecencyOk, Cache, Contents, Frames.Table, QuietlyReaches, PinsOk, Count, Find, R.Touch, Pinned,
      NamesKept, Pool.Slack, FetchStatus;
    NoHandlesNoPins(pool.frames, pool.held);
    StorageBound(pool.frames, pool.capacity, pool.clock, pool.storage.pages);
    if pool.Slack() >= 0 && pool.Fuel() >= 1 { TraceFetches(pool, id); }
    var h;
    s, h := pool.Fetch(id);
    if s.Error? { return; }
    var released := pool.Release(h);
    assert pool.held == map[];
  }

  /** With fuel left, exactly the pages of the file can be fetched. */
  lemma TraceFetches(pool: Pool, id: nat)
    requires pool.Valid() && pool.Slack() >= 0 && pool.Fuel() >= 1
    ensures FetchStatus(pool.frames, pool.capacity, |pool.View()|, id).Ok? <==> id < |pool.View()|
  {
    hide Inv, RecencyOk, Cache, Contents, Frames.Table, PinsOk, Count, Pool.Slack;
    if id < |pool.View()| { pool.FuelFetches(id); }
  }

  lemma CapacityPositive(fs: seq<Frame>, capacity: nat, clock: nat, pages: seq<Page>)
    requires FramesOk(fs, capacity, clock, pages)
    ensures capacity > 0
  {
  }

  lemma ResidentsOfNone(capacity: nat)
    requires capacity > 0
    ensures R.Residents([], capacity) == []
  {
  }

  lemma ResidentsSnoc(trace: seq<nat>, id: nat, capacity: nat)
    requires capacity > 0 && R.Touch(R.Residents(trace, capacity), id, capacity, {}).Some?
    ensures R.Touch(R.Residents(trace, capacity), id, capacity, {}) == Some(R.Residents(trace + [id], capacity))
  {
    hide R.Touch;
    assert (trace + [id])[..|trace|] == trace;
  }
}
