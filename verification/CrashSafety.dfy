/**
 The invariant of every run of the crash machine, and what each step does to
 the two views: recovery always yields a readable log, a page that is not
 cached dirty already equals its recovered image, and Durable only ever moves
 to an image the log carried.
 */
module CrashSafety {
  import opened Bytes
  import opened Results
  import opened LogFormat
  import opened CrashMachine

  predicate Dirty(s: State, p: nat) {
    p in s.cache && s.cache[p].dirty
  }

  /** A page whose recovered image differs from storage, or is about to, is cached and dirty. */
  predicate CacheOk(s: State) {
    && (forall p :: p in s.cache ==> p < |s.pages|)
    && (forall p :: p in s.cache && !s.cache[p].dirty ==> s.cache[p].data == s.pages[p])
    && (forall p :: 0 <= p < |s.pages| && !Dirty(s, p) ==> Durable(s)[p] == s.pages[p])
    && (forall i :: Landed(s) <= i < |s.sent| ==> Dirty(s, s.sent[i].page))
  }

  /** The newest record is the current image of the page being flushed. */
  predicate NewestIs(s: State, p: nat) {
    && Dirty(s, p) && !s.wedged && s.sent != []
    && s.sent[|s.sent| - 1].page == p && s.sent[|s.sent| - 1].image == s.cache[p].data
  }

  predicate Settled(s: State) {
    s.pending == [] && |s.log| == RECORD_SIZE * |s.sent|
  }

  predicate StageOk(s: State, stage: Stage) {
    match stage
    case Idle => s.wedged || Settled(s)
    case Appended(p) => NewestIs(s, p) && |s.log| + |s.pending| == RECORD_SIZE * |s.sent|
    case Logged(p) => NewestIs(s, p) && Settled(s)
    case Fresh(p) =>
      && (s.wedged || Settled(s)) && p < |s.pages| && p !in s.cache
      && forall i :: 0 <= i < |s.sent| ==> s.sent[i].page != p
  }

  predicate AtRest(s: State) {
    s.cache == map[] && s.pending == [] && Landed(s) == |s.sent|
  }

  ghost predicate Inv(s: State) {
    && LogOk(s)
    && match s.phase
       case Down => AtRest(s)
       case Replaying(k) => AtRest(s) && k <= |s.sent| && Replayed(s.sent[k..], s.pages) == Durable(s)
       case Up(stage) => CacheOk(s) && StageOk(s, stage)
  }

  /** A new database file with a log that holds nothing. */
  predicate Init(s: State) {
    s.log == [] && s.pending == [] && !s.wedged && s.sent == [] && s.cache == map[] && s.phase.Down?
        && |s.pages| <= INVALID_ID
  }

  lemma EmptyLogOk(s: State)
    requires s.log == [] && s.pending == [] && s.sent == [] && |s.pages| <= INVALID_ID
    ensures LogOk(s) && Landed(s) == 0 && Durable(s) == s.pages
  {
    assert LogBytes([]) == [];
    assert s.log + s.pending == [];
    LogReads(s);
  }

  lemma InitInv(s: State)
    requires Init(s)
    ensures Inv(s)
  {
    EmptyLogOk(s);
  }

  /** Durable in terms of the records that have landed. */
  lemma DurableIs(s: State)
    requires LogOk(s)
    ensures Landed(s) <= |s.sent| && OnDisk(s.log) == s.sent[..Landed(s)] && Scan(s.log, 0).Scanned?
    ensures Durable(s) == Replayed(s.sent[..Landed(s)], s.pages)
  {
    hide LogOk, OnDisk, Scan, Landed;
    LogReads(s);
  }

  lemma {:induction false} NotCovered(recs: seq<Record>, p: nat)
    requires forall i :: 0 <= i < |recs| ==> recs[i].page != p
    ensures LastImage(recs, p).None?
  {
    if recs != [] {
      NotCovered(recs[..|recs| - 1], p);
    }
  }

  lemma {:induction false} CoveredBySome(recs: seq<Record>, p: nat) returns (k: nat)
    requires LastImage(recs, p).Some?
    ensures k < |recs| && recs[k].page == p && LastImage(recs, p) == Some(recs[k].image)
  {
    k := |recs| - 1;
    if recs[k].page != p {
      k := CoveredBySome(recs[..|recs| - 1], p);
    }
  }

  // ---- more of the log lands -------------------------------------------------

  /** The records of `s` that reach the file on the way to `t`. */
  predicate Advances(s: State, t: State) {
    && t.pages == s.pages && Landed(s) <= Landed(t) <= |s.sent| && Landed(t) <= |t.sent|
    && t.sent[..Landed(t)] == s.sent[..Landed(t)]
  }

  /** Durable moved only by records that were in flight. */
  predicate Carried(s: State, t: State) {
    && |t.pages| == |s.pages|
    && forall p :: 0 <= p < |s.pages| && Durable(t)[p] != Durable(s)[p] ==>
         exists i :: Landed(s) <= i < |s.sent| && s.sent[i].page == p && s.sent[i].image == Durable(t)[p]
  }

  lemma AdvanceAt(s: State, t: State, p: nat)
    requires LogOk(s) && LogOk(t) && Advances(s, t) && p < |s.pages|
    ensures Landed(s) <= |s.sent|
    ensures Durable(t)[p] == ImageOr(s.sent[Landed(s)..Landed(t)], p, Durable(s)[p])
  {
    hide LogOk, OnDisk, Scan, Landed;
    DurableIs(s);
    DurableIs(t);
    var a, b := s.sent[..Landed(s)], s.sent[Landed(s)..Landed(t)];
    assert t.sent[..Landed(t)] == a + b;
    LastImageConcat(a, b, p);
  }

  lemma AdvanceCarries(s: State, t: State)
    requires LogOk(s) && LogOk(t) && Advances(s, t)
    ensures Landed(s) <= |s.sent| && Carried(s, t)
  {
    hide LogOk, OnDisk, Scan, Landed, Durable;
    DurableIs(s);
    forall p | 0 <= p < |s.pages| && Durable(t)[p] != Durable(s)[p]
      ensures exists i :: Landed(s) <= i < |s.sent| && s.sent[i].page == p && s.sent[i].image == Durable(t)[p]
    {
      AdvanceAt(s, t, p);
      var k := CoveredBySome(s.sent[Landed(s)..Landed(t)], p);
      assert s.sent[Landed(s) + k] == s.sent[Landed(s)..Landed(t)][k];
    }
  }

  // ---- each step keeps the invariant and moves the views as stated -----------

  /** Steps that change no logical page. */
  predicate Quiet(e: Event) {
    !e.Mutate? && !e.Allocate? && !e.InitPage? && !e.Crash?
  }

  /** What a step does to the two views and to the records in flight. */
  predicate Meaning(s: State, e: Event, t: State)
    requires Enabled(s, e)
  {
    && (forall i :: Landed(t) <= i < |t.sent| ==>
         || (Landed(s) <= i < |s.sent| && t.sent[i] == s.sent[i])
         || (e.Append? && t.sent[i].page == e.page && t.sent[i].image == s.cache[e.page].data))
    && match e
       case Mutate(p, image) => p < |s.pages| && Logical(t) == Logical(s)[p := image] && Durable(t) == Durable(s)
       case Allocate => Logical(t) == Logical(s) + [ZERO_PAGE] && Durable(t) == Durable(s) + [ZERO_PAGE]
       case InitPage(image) =>
         && Target(s) < |s.pages|
         && Logical(t) == Logical(s)[Target(s) := image] && Durable(t) == Durable(s)[Target(s) := image]
       case Crash(_) => Carried(s, t) && Logical(t) == Durable(t)
       case _ => Logical(t) == Logical(s) && Carried(s, t)
  }

  lemma SameStream(s: State, t: State)
    requires LogOk(s) && t.sent == s.sent && t.log + t.pending == s.log + s.pending && |t.pages| == |s.pages|
    ensures LogOk(t)
  {
  }

  lemma CacheStep(s: State, e: Event)
    requires Inv(s) && Enabled(s, e) && (e.Load? || e.Mutate? || e.Drop?)
    ensures Inv(Next(s, e)) && Meaning(s, e, Next(s, e))
  {
    hide OnDisk, Scan, LogOk, Replayed;
    var t := Next(s, e);
    SameStream(s, t);
    assert Durable(t) == Durable(s);
    DurableIs(s);
  }

  lemma AppendStep(s: State, e: Event)
    requires Inv(s) && Enabled(s, e) && (e.Append? || e.AppendFail?)
    ensures Inv(Next(s, e)) && Meaning(s, e, Next(s, e))
  {
    hide OnDisk, Scan, Replayed, RecordBytes, LogBytes, Torn, Durable;
    var t := Next(s, e);
    var r := NextRecord(s, e.page);
    DurableIs(s);
    assert s.log + s.pending == s.log;
    assert s.log[..RECORD_SIZE * |s.sent|] == s.log;
    if e.Append? {
      LogBytesSnoc(s.sent, r);
      assert t.log + t.pending == LogBytes(t.sent);
      assert (t.log + t.pending)[RECORD_SIZE * |t.sent|..] == [];
      EmptyIsTorn();
    } else {
      var bytes := t.log + t.pending;
      assert bytes[..RECORD_SIZE * |s.sent|] == s.log;
      assert bytes[RECORD_SIZE * |s.sent|..] == RecordBytes(r)[..e.bytes];
      TornPrefix(r, RecordBytes(r)[..e.bytes]);
    }
    assert LogOk(t);
    SameDurable(s, t);
  }

  lemma EmptyIsTorn()
    ensures Torn([])
  {
  }

  lemma SameDurable(s: State, t: State)
    requires t.log == s.log && t.pages == s.pages
    ensures Durable(t) == Durable(s) && Landed(t) == Landed(s)
  {
  }

  lemma FlushFailStep(s: State, e: Event)
    requires Inv(s) && Enabled(s, e) && e.LogFlushFail?
    ensures Inv(Next(s, e)) && Meaning(s, e, Next(s, e))
  {
    hide OnDisk, Scan, Replayed, LogOk, Durable;
    var t := Next(s, e);
    SameStream(s, t);
    SameDurable(s, t);
  }

  /** A dirty page is the only one a landing record can move in Durable. */
  lemma LandKeepsCache(s: State, t: State)
    requires LogOk(s) && LogOk(t) && CacheOk(s) && Advances(s, t) && t.sent == s.sent && t.cache == s.cache
    ensures CacheOk(t)
  {
    hide OnDisk, Scan, Replayed, LogOk, Durable;
    AdvanceCarries(s, t);
  }

  lemma LandStep(s: State, e: Event)
    requires Inv(s) && Enabled(s, e) && (e.LogFlush? || e.Spill?)
    ensures Inv(Next(s, e)) && Meaning(s, e, Next(s, e))
  {
    hide OnDisk, Scan, Replayed, LogOk, Durable, CacheOk, Carried;
    var t := Next(s, e);
    assert t.log + t.pending == s.log + s.pending;
    SameStream(s, t);
    DurableIs(s);
    DurableIs(t);
    AdvanceCarries(s, t);
    if s.phase.Up? {
      LandKeepsCache(s, t);
    } else {
      assert t == s;
    }
  }

  lemma WriteStep(s: State, e: Event)
    requires Inv(s) && Enabled(s, e) && (e.DataWrite? || e.DataWriteFail?)
    ensures Inv(Next(s, e)) && Meaning(s, e, Next(s, e))
  {
    hide OnDisk, Scan, LogOk, Replayed, Durable;
    var t := Next(s, e);
    SameStream(s, t);
    LoggedCovers(s, t);
    assert Durable(t) == Durable(s) && Landed(t) == Landed(s) == |s.sent|;
  }

  /** Once a page's image has landed, what is stored for the page does not matter. */
  lemma LoggedCovers(s: State, t: State)
    requires LogOk(s) && LogOk(t) && s.phase.Up? && s.phase.stage.Logged? && NewestIs(s, Target(s)) && Settled(s)
    requires
      && t.log == s.log && t.sent == s.sent && Target(s) < |s.pages|
      && t.pages == s.pages[Target(s) := t.pages[Target(s)]]
    ensures Durable(t) == Durable(s) && Durable(s)[Target(s)] == s.cache[Target(s)].data
    ensures Landed(t) == Landed(s) == |s.sent|
  {
    hide OnDisk, Scan, LogOk, Replayed, Durable;
    var p, n := Target(s), |s.sent|;
    DurableIs(s);
    DurableIs(t);
    assert Landed(s) == n && s.sent[..n] == s.sent;
    MemberIsCovered(s.sent, n - 1);
    assert LastImage(s.sent, p) == Some(s.cache[p].data);
    ReplayedCovered(s.sent, s.pages, p, t.pages[p]);
  }

  lemma AllocateStep(s: State, e: Event)
    requires Inv(s) && Enabled(s, e) && e.Allocate?
    ensures Inv(Next(s, e)) && Meaning(s, e, Next(s, e))
  {
    hide OnDisk, Scan, Replayed, Durable, Stream;
    var t := Next(s, e);
    assert LogOk(t);
    DurableIs(s);
    DurableIs(t);
    NotCovered(s.sent[..Landed(s)], |s.pages|);
    assert Durable(t) == Durable(s) + [ZERO_PAGE];
  }

  lemma InitStep(s: State, e: Event)
    requires Inv(s) && Enabled(s, e) && e.InitPage?
    ensures Inv(Next(s, e)) && Meaning(s, e, Next(s, e))
  {
    hide OnDisk, Scan, Replayed, Durable, LogOk;
    var t := Next(s, e);
    SameStream(s, t);
    DurableIs(s);
    DurableIs(t);
    NotCovered(s.sent[..Landed(s)], Target(s));
    assert Durable(t) == Durable(s)[Target(s) := e.image];
  }

  /** Whenever the log is truncated, storage alone already holds everything recovery would yield. */
  lemma CheckpointSafe(s: State, e: Event)
    requires Inv(s) && Enabled(s, e) && (e.Checkpoint? || e.FinishReplay?)
    ensures s.pages == Durable(s) == Logical(s)
  {
    hide OnDisk, Scan, Replayed, Durable, LogOk;
    DurableIs(s);
    if e.FinishReplay? {
      assert s.sent[..|s.sent|] == s.sent;
      assert Replayed(s.sent[s.phase.next..], s.pages) == s.pages;
    }
  }

  lemma TruncateStep(s: State, e: Event)
    requires Inv(s) && Enabled(s, e) && (e.Checkpoint? || e.FinishReplay?)
    ensures Inv(Next(s, e)) && Meaning(s, e, Next(s, e))
  {
    hide OnDisk, Scan, Replayed, Durable, Stream;
    var t := Next(s, e);
    CheckpointSafe(s, e);
    DurableIs(s);
    EmptyLogOk(t);
  }

  lemma ReplayStep(s: State, e: Event)
    requires Inv(s) && Enabled(s, e) && (e.StartReplay? || e.ReplayWrite? || e.ReplayFail?)
    ensures Inv(Next(s, e)) && Meaning(s, e, Next(s, e))
  {
    hide OnDisk, Scan, Replayed, Durable, LogOk;
    var t := Next(s, e);
    RestDurable(s);
    SameStream(s, t);
    assert SameRecords(s, t);
    if e.StartReplay? {
      SameDurable(s, t);
      assert s.sent[0..] == s.sent;
    } else {
      ReplayPage(s, t, s.phase.next);
    }
    SameMeaning(s, e, t);
  }

  predicate SameRecords(s: State, t: State) {
    t.sent == s.sent && t.log == s.log && t.pending == s.pending && t.cache == s.cache && |t.pages| == |s.pages|
  }

  /** At rest the whole log has landed. */
  lemma RestDurable(s: State)
    requires Inv(s) && !s.phase.Up?
    ensures OnDisk(s.log) == s.sent && Durable(s) == Replayed(s.sent, s.pages)
  {
    hide OnDisk, Scan, Replayed, Durable, Stream;
    DurableIs(s);
    assert s.sent[..|s.sent|] == s.sent;
  }

  /** Writing the page of the k-th record, whole or torn, changes nothing the log covers. */
  lemma ReplayPage(s: State, t: State, k: nat)
    requires
      && LogOk(s) && LogOk(t) && SameRecords(s, t) && Landed(s) == |s.sent| && k < |s.sent|
      && s.sent[k].page < |s.pages|
    requires
      && Replayed(s.sent[k..], s.pages) == Durable(s) && t.pages == s.pages[s.sent[k].page := t.pages[s.sent[k].page]]
    ensures Durable(t) == Durable(s)
    ensures t.pages[s.sent[k].page] == s.sent[k].image ==> Replayed(t.sent[k + 1..], t.pages) == Durable(t)
  {
    hide OnDisk, Scan, Replayed, Durable, LogOk;
    DurableIs(s);
    DurableIs(t);
    assert s.sent[..|s.sent|] == s.sent;
    var r := s.sent[k];
    MemberIsCovered(s.sent, k);
    ReplayedCovered(s.sent, s.pages, r.page, t.pages[r.page]);
    ReplayedFront(s.sent[k..], s.pages);
    assert s.sent[k..][1..] == s.sent[k + 1..];
  }

  lemma SameMeaning(s: State, e: Event, t: State)
    requires Enabled(s, e) && t == Next(s, e) && (e.StartReplay? || e.ReplayWrite? || e.ReplayFail?)
    requires SameRecords(s, t) && Durable(t) == Durable(s)
    ensures Meaning(s, e, t)
  {
    hide OnDisk, Scan, Durable;
    assert !s.phase.Up? && !t.phase.Up?;
    assert Logical(s) == Durable(s) && Logical(t) == Durable(t);
    assert Landed(t) == Landed(s) && Carried(s, t);
  }

  /** Replay in log order: writing the first record and replaying the rest is replaying all. */
  lemma ReplayedFront(recs: seq<Record>, pages: seq<Page>)
    requires recs != [] && recs[0].page < |pages|
    ensures Replayed(recs[1..], pages[recs[0].page := recs[0].image]) == Replayed(recs, pages)
  {
    forall p | 0 <= p < |pages|
      ensures ImageOr(recs[1..], p, pages[recs[0].page := recs[0].image][p]) == ImageOr(recs, p, pages[p])
    {
      assert recs == [recs[0]] + recs[1..];
      LastImageConcat([recs[0]], recs[1..], p);
    }
  }

  lemma CrashStep(s: State, e: Event)
    requires Inv(s) && Enabled(s, e) && e.Crash?
    ensures Inv(Next(s, e)) && Meaning(s, e, Next(s, e))
  {
    hide OnDisk, Scan, Replayed, Durable, Stream, Carried;
    var t := Next(s, e);
    var all := s.log + s.pending;
    assert t.log == all[..|t.log|];
    CutStream(s.sent, all, |t.log|, |s.pages|);
    ScanStream(s.sent[..Landed(t)], t.log, |s.pages|);
    assert t.log + t.pending == t.log;
    DurableIs(s);
    assert s.sent[..Landed(t)][..Landed(t)] == s.sent[..Landed(t)];
    AdvanceCarries(s, t);
  }

  /** Every step of the machine keeps the invariant and acts on the two views as stated. */
  lemma StepSound(s: State, e: Event)
    requires Inv(s) && Enabled(s, e)
    ensures Inv(Next(s, e)) && Meaning(s, e, Next(s, e))
  {
    hide Inv, Meaning, Next, Enabled;
    match e
    case Load(_) => CacheStep(s, e);
    case Mutate(_, _) => CacheStep(s, e);
    case Drop(_) => CacheStep(s, e);
    case Append(_) => AppendStep(s, e);
    case AppendFail(_, _) => AppendStep(s, e);
    case LogFlush => LandStep(s, e);
    case LogFlushFail => FlushFailStep(s, e);
    case Spill(_) => LandStep(s, e);
    case DataWrite => WriteStep(s, e);
    case DataWriteFail(_) => WriteStep(s, e);
    case Allocate => AllocateStep(s, e);
    case InitPage(_) => InitStep(s, e);
    case Checkpoint => TruncateStep(s, e);
    case StartReplay => ReplayStep(s, e);
    case ReplayWrite => ReplayStep(s, e);
    case ReplayFail(_) => ReplayStep(s, e);
    case FinishReplay => TruncateStep(s, e);
    case Crash(_) => CrashStep(s, e);
  }

  // ---- runs ------------------------------------------------------------------

  predicate Legal(s: State, es: seq<Event>)
    decreases |es|
  {
    es != [] ==> Enabled(s, es[0]) && Legal(Next(s, es[0]), es[1..])
  }

  function Exec(s: State, es: seq<Event>): State
    requires Legal(s, es)
    decreases |es|
  {
    if es == [] then s else Exec(Next(s, es[0]), es[1..])
  }

  /** In every run, with any number of crashes anywhere, the invariant holds. */
  lemma {:induction false} RunSound(s: State, es: seq<Event>)
    requires Inv(s) && Legal(s, es)
    ensures Inv(Exec(s, es))
    decreases |es|
  {
    hide Inv, Enabled, Next;
    if es != [] {
      StepSound(s, es[0]);
      RunSound(Next(s, es[0]), es[1..]);
    }
  }

  lemma {:induction false} LegalConcat(s: State, a: seq<Event>, b: seq<Event>)
    requires Legal(s, a) && Legal(Exec(s, a), b)
    ensures Legal(s, a + b) && Exec(s, a + b) == Exec(Exec(s, a), b)
    decreases |a|
  {
    hide Enabled, Next;
    if a == [] {
      assert a + b == b;
    } else {
      LegalConcat(Next(s, a[0]), a[1..], b);
      assert (a + b)[0] == a[0] && (a + b)[1..] == a[1..] + b;
    }
  }

  /** The whole of an uninterrupted start from replay position k. */
  function ReplayFrom(k: nat, n: nat): seq<Event>
    requires k <= n
    decreases n - k
  {
    if k == n then [FinishReplay] else [ReplayWrite] + ReplayFrom(k + 1, n)
  }

  /**
   Whatever state a crash left, a start that is not interrupted is never refused
   and brings the engine up on exactly the recovered pages with an empty log.
   */
  lemma StartRecovers(s: State)
    requires Inv(s) && s.phase.Down?
    ensures var es := [StartReplay] + ReplayFrom(0, |OnDisk(s.log)|);
            && Legal(s, es)
            && Exec(s, es).phase == Up(Idle) && Exec(s, es).log == []
            && Exec(s, es).pages == Durable(s) == Logical(Exec(s, es))
  {
    hide OnDisk, Scan, Replayed, Durable, LogOk, ReplayFrom;
    DurableIs(s);
    assert s.sent[..|s.sent|] == s.sent;
    StepSound(s, StartReplay);
    var t := Next(s, StartReplay);
    var es := [StartReplay] + ReplayFrom(0, |OnDisk(s.log)|);
    assert es[0] == StartReplay && es[1..] == ReplayFrom(0, |OnDisk(s.log)|);
    SameDurable(s, t);
    ReplayRuns(t);
  }

  lemma {:induction false} ReplayRuns(s: State)
    requires Inv(s) && s.phase.Replaying? && s.phase.next <= |OnDisk(s.log)| == |s.sent|
    ensures var es := ReplayFrom(s.phase.next, |s.sent|);
            && Legal(s, es)
            && Exec(s, es).phase == Up(Idle) && Exec(s, es).log == []
            && Exec(s, es).pages == Durable(s) == Logical(Exec(s, es))
    decreases |s.sent| - s.phase.next
  {
    hide OnDisk, Scan, Replayed, Durable, Stream;
    DurableIs(s);
    assert s.sent[..|s.sent|] == s.sent;
    var k, n := s.phase.next, |s.sent|;
    var es := ReplayFrom(k, n);
    if k == n {
      StepSound(s, FinishReplay);
      CheckpointSafe(s, FinishReplay);
      var t := Next(s, FinishReplay);
      assert es[1..] == [];
      assert Legal(t, es[1..]) && Exec(s, es) == t;
    } else {
      assert Enabled(s, ReplayWrite);
      StepSound(s, ReplayWrite);
      var t := Next(s, ReplayWrite);
      DurableIs(t);
      assert Durable(t) == Durable(s) by {
        ReplayKeepsDurable(s);
      }
      ReplayRuns(t);
      assert es[0] == ReplayWrite && es[1..] == ReplayFrom(k + 1, n);
    }
  }

  lemma ReplayKeepsDurable(s: State)
    requires Inv(s) && Enabled(s, ReplayWrite)
    ensures Durable(Next(s, ReplayWrite)) == Durable(s)
  {
    hide OnDisk, Scan, Replayed, Durable, Stream;
    var t := Next(s, ReplayWrite);
    StepSound(s, ReplayWrite);
    DurableIs(s);
  }

  // ---- what holds of every image a page ever had holds after recovery --------

  /** `ok` holds of the logical, the durable and every in-flight image of every page. */
  ghost predicate Everywhere(s: State, ok: (nat, Page) -> bool) {
    && (forall p :: 0 <= p < |s.pages| ==> ok(p, Logical(s)[p]) && ok(p, Durable(s)[p]))
    && (forall i :: Landed(s) <= i < |s.sent| ==> ok(s.sent[i].page, s.sent[i].image))
  }

  /** Flushes in any order, evictions, restarts and crashes cannot produce a page image that was not there. */
  lemma SteadyStep(s: State, e: Event, ok: (nat, Page) -> bool)
    requires Inv(s) && Enabled(s, e) && (Quiet(e) || e.Crash?)
    requires Everywhere(s, ok)
    ensures Everywhere(Next(s, e), ok)
  {
    hide Inv, Durable, Logical, Next, OnDisk;
    StepSound(s, e);
    var t := Next(s, e);
    assert Carried(s, t);
    if e.Append? {
      AppendIsLogical(s, e);
    }
  }

  lemma AppendIsLogical(s: State, e: Event)
    requires Inv(s) && Enabled(s, e) && e.Append?
    ensures e.page < |s.pages| && s.cache[e.page].data == Logical(s)[e.page]
  {
    hide Durable, OnDisk, LogOk;
  }

  lemma {:induction false} SteadyRun(s: State, es: seq<Event>, ok: (nat, Page) -> bool)
    requires Inv(s) && Legal(s, es) && (forall i :: 0 <= i < |es| ==> Quiet(es[i]) || es[i].Crash?)
    requires Everywhere(s, ok)
    ensures Everywhere(Exec(s, es), ok)
    decreases |es|
  {
    hide Inv, Enabled, Next, Everywhere;
    if es != [] {
      StepSound(s, es[0]);
      SteadyStep(s, es[0], ok);
      SteadyRun(Next(s, es[0]), es[1..], ok);
    }
  }

  // ---- reaching one state from another ---------------------------------------

  predicate AllQuiet(es: seq<Event>) {
    forall i :: 0 <= i < |es| ==> Quiet(es[i])
  }

  /** By steps that change no logical page. */
  ghost predicate QuietlyReaches(s: State, t: State) {
    exists es :: AllQuiet(es) && Legal(s, es) && Exec(s, es) == t
  }

  lemma QuietRefl(s: State)
    ensures QuietlyReaches(s, s)
  {
    assert AllQuiet([]) && Legal(s, []) && Exec(s, []) == s;
  }

  lemma OneStep(s: State, e: Event)
    requires Enabled(s, e)
    ensures Legal(s, [e]) && Exec(s, [e]) == Next(s, e)
  {
    hide Enabled, Next;
    var es := [e];
    assert es[1..] == [];
    assert Legal(Next(s, e), []) && Exec(Next(s, e), []) == Next(s, e);
  }

  lemma QuietStep(s: State, e: Event)
    requires Enabled(s, e) && Quiet(e)
    ensures QuietlyReaches(s, Next(s, e))
  {
    hide Enabled, Next;
    OneStep(s, e);
    assert AllQuiet([e]);
  }

  lemma QuietTrans(s: State, t: State, u: State)
    requires QuietlyReaches(s, t) && QuietlyReaches(t, u)
    ensures QuietlyReaches(s, u)
  {
    hide Legal, Exec;
    var a :| AllQuiet(a) && Legal(s, a) && Exec(s, a) == t;
    var b :| AllQuiet(b) && Legal(t, b) && Exec(t, b) == u;
    LegalConcat(s, a, b);
    assert AllQuiet(a + b);
  }

  lemma {:induction false} QuietRunKeepsLogical(s: State, es: seq<Event>)
    requires Inv(s) && Legal(s, es) && AllQuiet(es)
    ensures Inv(Exec(s, es)) && Logical(Exec(s, es)) == Logical(s)
    decreases |es|
  {
    hide Inv, Enabled, Next, Logical;
    if es != [] {
      StepSound(s, es[0]);
      QuietRunKeepsLogical(Next(s, es[0]), es[1..]);
    }
  }

  lemma QuietMeaning(s: State, t: State)
    requires Inv(s) && QuietlyReaches(s, t)
    ensures Inv(t) && Logical(t) == Logical(s)
  {
    hide Inv, Legal, Exec, Logical;
    var es :| AllQuiet(es) && Legal(s, es) && Exec(s, es) == t;
    QuietRunKeepsLogical(s, es);
  }

  lemma QuietKeepsImages(s: State, t: State, ok: (nat, Page) -> bool)
    requires Inv(s) && QuietlyReaches(s, t) && Everywhere(s, ok)
    ensures Everywhere(t, ok)
  {
    hide Inv, Legal, Exec, Everywhere;
    var es :| AllQuiet(es) && Legal(s, es) && Exec(s, es) == t;
    SteadyRun(s, es, ok);
  }
}
