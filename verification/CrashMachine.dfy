/**
 The storage engine as a crashable machine: the data file, the log file with
 bytes that have not reached it yet, and a page cache that a crash throws away.
 Log append, log flush and data write are separate steps, so a crash can fall
 between any two of them, cut the log anywhere and tear the page being written.

 Two views give every state its meaning. Logical is what the running engine
 reads; Durable is what the next start would recover. The machine is proved to
 move them only in the ways a two-level store would: a write changes Logical,
 the log carries a logical image to Durable, and a crash drops Logical back to
 Durable.
 */
module CrashMachine {
  import opened Bytes
  import opened LogFormat
  import opened Results

  datatype Entry = Entry(data: Page, dirty: bool)

  /** Where the single-threaded engine is inside a page flush or a page allocation. */
  datatype Stage =
    | Idle
    | Appended(page: nat)  // image handed to the log stream, not yet flushed
    | Logged(page: nat)    // image in the log file, data page not yet written
    | Fresh(page: nat)     // page just allocated, first image not yet written

  datatype Phase = Down | Replaying(next: nat) | Up(stage: Stage)

  /**
   `log` is the log file, `pending` the bytes still in the stream, `wedged` the
   stream's sticky error state; `sent` lists the records handed to the stream
   since the log was last truncated.
   */
  datatype State = State(
    pages: seq<Page>,
    log: seq<byte>,
    pending: seq<byte>,
    wedged: bool,
    sent: seq<Record>,
    cache: map<nat, Entry>,
    phase: Phase)

  datatype Event =
    | Load(page: nat)
    | Mutate(page: nat, image: Page)
    | Drop(page: nat)
    | Append(page: nat)
    | AppendFail(page: nat, bytes: nat)
    | LogFlush
    | LogFlushFail
    | Spill(bytes: nat)
    | DataWrite
    | DataWriteFail(junk: Page)
    | Allocate
    | InitPage(image: Page)
    | Checkpoint
    | StartReplay
    | ReplayWrite
    | ReplayFail(junk: Page)
    | FinishReplay
    | Crash(bytes: nat)

  predicate IsUp(s: State, stage: Stage) {
    s.phase == Up(stage)
  }

  /** The page a flush or allocation in progress is about. */
  function Target(s: State): nat
    requires s.phase.Up? && !s.phase.stage.Idle?
  {
    s.phase.stage.page
  }

  /** The complete records of a log file. */
  function OnDisk(log: seq<byte>): seq<Record> {
    match Scan(log, 0)
    case Scanned(recs, _, _) => recs
    case Damaged(_) => []
  }

  /** The record the next append would write for a cached page. */
  function NextRecord(s: State, page: nat): Record
    requires page in s.cache
  {
    Record(|s.sent| + 1, page, s.cache[page].data)
  }

  /** When the code can take a step; nothing here speaks of recovery. */
  predicate Enabled(s: State, e: Event) {
    match e
    case Load(p) => IsUp(s, Idle) && p < |s.pages| && p !in s.cache
    case Mutate(p, _) => IsUp(s, Idle) && p in s.cache
    case Drop(p) => IsUp(s, Idle) && p in s.cache && !s.cache[p].dirty
    case Append(p) =>
      IsUp(s, Idle) && !s.wedged && p in s.cache && s.cache[p].dirty && |s.sent| + 1 < 0x1_0000_0000_0000_0000
    case AppendFail(p, n) =>
      && IsUp(s, Idle) && !s.wedged && p in s.cache && s.cache[p].dirty
      && |s.sent| + 1 < 0x1_0000_0000_0000_0000 && n < RECORD_SIZE
    case LogFlush => s.phase.Up? && s.phase.stage.Appended?
    case LogFlushFail => s.phase.Up? && s.phase.stage.Appended?
    case Spill(n) => n <= |s.pending|
    case DataWrite => s.phase.Up? && s.phase.stage.Logged? && Target(s) in s.cache && Target(s) < |s.pages|
    case DataWriteFail(_) => s.phase.Up? && s.phase.stage.Logged? && Target(s) < |s.pages|
    case Allocate => IsUp(s, Idle) && |s.pages| < INVALID_ID
    case InitPage(_) => s.phase.Up? && s.phase.stage.Fresh? && Target(s) < |s.pages|
    case Checkpoint => IsUp(s, Idle) && forall p :: p in s.cache ==> !s.cache[p].dirty
    case StartReplay => s.phase.Down? && Scan(s.log, 0).Scanned?
    case ReplayWrite =>
      s.phase.Replaying? && s.phase.next < |OnDisk(s.log)| && OnDisk(s.log)[s.phase.next].page < |s.pages|
    case ReplayFail(_) =>
      s.phase.Replaying? && s.phase.next < |OnDisk(s.log)| && OnDisk(s.log)[s.phase.next].page < |s.pages|
    case FinishReplay => s.phase.Replaying? && s.phase.next == |OnDisk(s.log)|
    case Crash(n) => n <= |s.pending|
  }

  function Next(s: State, e: Event): State
    requires Enabled(s, e)
  {
    match e
    case Load(p) => s.(cache := s.cache[p := Entry(s.pages[p], false)])
    case Mutate(p, image) => s.(cache := s.cache[p := Entry(image, true)])
    case Drop(p) => s.(cache := s.cache - {p})
    case Append(p) =>
      var r := NextRecord(s, p);
      s.(pending := s.pending + RecordBytes(r), sent := s.sent + [r], phase := Up(Appended(p)))
    case AppendFail(p, n) =>
      s.(pending := s.pending + RecordBytes(NextRecord(s, p))[..n], wedged := true)
    case LogFlush =>
      s.(log := s.log + s.pending, pending := [], phase := Up(Logged(Target(s))))
    case LogFlushFail => s.(wedged := true, phase := Up(Idle))
    case Spill(n) => s.(log := s.log + s.pending[..n], pending := s.pending[n..])
    case DataWrite =>
      var p := Target(s);
      s.(pages := s.pages[p := s.cache[p].data], cache := s.cache[p := s.cache[p].(dirty := false)], phase := Up(Idle))
    case DataWriteFail(junk) => s.(pages := s.pages[Target(s) := junk], phase := Up(Idle))
    case Allocate => s.(pages := s.pages + [ZERO_PAGE], phase := Up(Fresh(|s.pages|)))
    case InitPage(image) => s.(pages := s.pages[Target(s) := image], phase := Up(Idle))
    case Checkpoint => s.(log := [], pending := [], wedged := false, sent := [], cache := map[], phase := Down)
    case StartReplay => s.(phase := Replaying(0))
    case ReplayWrite =>
      var r := OnDisk(s.log)[s.phase.next];
      s.(pages := s.pages[r.page := r.image], phase := Replaying(s.phase.next + 1))
    case ReplayFail(junk) => s.(pages := s.pages[OnDisk(s.log)[s.phase.next].page := junk], phase := Down)
    case FinishReplay => s.(log := [], wedged := false, sent := [], phase := Up(Idle))
    case Crash(n) =>
      var log := s.log + s.pending[..n];
      s.(log := log, pending := [], wedged := false, sent := OnDisk(log), cache := map[], phase := Down)
  }

  // ---- replay ----------------------------------------------------------------

  /** The newest image of page p among the records. */
  function LastImage(recs: seq<Record>, p: nat): Option<Page> {
    if recs == [] then None
    else
      var last := recs[|recs| - 1];
      if last.page == p then Some(last.image) else LastImage(recs[..|recs| - 1], p)
  }

  function ImageOr(recs: seq<Record>, p: nat, otherwise: Page): Page {
    match LastImage(recs, p)
    case Some(image) => image
    case None => otherwise
  }

  /** Storage after replaying the records over `pages`: the last image of a page wins. */
  function Replayed(recs: seq<Record>, pages: seq<Page>): (r: seq<Page>)
    ensures |r| == |pages|
    ensures forall p :: 0 <= p < |pages| ==> r[p] == ImageOr(recs, p, pages[p])
  {
    seq(|pages|, p requires 0 <= p < |pages| => ImageOr(recs, p, pages[p]))
  }

  lemma {:induction false} LastImageConcat(a: seq<Record>, b: seq<Record>, p: nat)
    ensures LastImage(a + b, p) == if LastImage(b, p).Some? then LastImage(b, p) else LastImage(a, p)
  {
    if b == [] {
      assert a + b == a;
    } else {
      var n := |b| - 1;
      assert (a + b)[..|a + b| - 1] == a + b[..n];
      LastImageConcat(a, b[..n], p);
    }
  }

  /** Replaying one more record writes one more page. */
  lemma ReplayedSnoc(recs: seq<Record>, r: Record, pages: seq<Page>)
    requires r.page < |pages|
    ensures Replayed(recs + [r], pages) == Replayed(recs, pages)[r.page := r.image]
  {
    assert (recs + [r])[..|recs|] == recs;
  }

  /** A write to a page the log covers does not change what replay yields. */
  lemma ReplayedCovered(recs: seq<Record>, pages: seq<Page>, p: nat, image: Page)
    requires p < |pages| && LastImage(recs, p).Some?
    ensures Replayed(recs, pages[p := image]) == Replayed(recs, pages)
  {
  }

  lemma {:induction false} MemberIsCovered(recs: seq<Record>, k: nat)
    requires k < |recs|
    ensures LastImage(recs, recs[k].page).Some?
  {
    if k < |recs| - 1 {
      MemberIsCovered(recs[..|recs| - 1], k);
    }
  }

  // ---- the two views ---------------------------------------------------------

  /** What the next start recovers: the complete records of the log file, replayed over the data file. */
  function Durable(s: State): (d: seq<Page>)
    ensures |d| == |s.pages|
  {
    Replayed(OnDisk(s.log), s.pages)
  }

  /** What the running engine reads; while it is down, what it will read when it is up again. */
  function Logical(s: State): (l: seq<Page>)
    ensures |l| == |s.pages|
  {
    if s.phase.Up? then
      seq(|s.pages|, p requires 0 <= p < |s.pages| => if p in s.cache then s.cache[p].data else s.pages[p])
    else Durable(s)
  }

  // ---- the log file is always readable ---------------------------------------

  predicate Numbered(sent: seq<Record>, pageCount: nat) {
    && pageCount <= INVALID_ID && |sent| < 0x1_0000_0000_0000_0000
    && forall i :: 0 <= i < |sent| ==> sent[i].lsn == i + 1 && sent[i].page < pageCount
  }

  /** `bytes` is the printed form of `sent`, possibly with a torn record behind it. */
  ghost predicate Stream(sent: seq<Record>, bytes: seq<byte>) {
    && RECORD_SIZE * |sent| <= |bytes|
    && bytes[..RECORD_SIZE * |sent|] == LogBytes(sent)
    && Torn(bytes[RECORD_SIZE * |sent|..])
  }

  ghost predicate LogOk(s: State) {
    Numbered(s.sent, |s.pages|) && Stream(s.sent, s.log + s.pending)
  }

  lemma {:induction false} LogBytesPrefix(recs: seq<Record>, n: nat)
    requires n <= |recs|
    ensures LogBytes(recs)[..RECORD_SIZE * n] == LogBytes(recs[..n])
  {
    hide RecordBytes;
    if n < |recs| {
      var front := recs[..|recs| - 1];
      LogBytesPrefix(front, n);
      assert front[..n] == recs[..n];
      assert LogBytes(recs)[..RECORD_SIZE * n] == LogBytes(front)[..RECORD_SIZE * n];
    } else {
      assert recs[..n] == recs;
    }
  }

  lemma LogBytesSnoc(recs: seq<Record>, r: Record)
    ensures LogBytes(recs + [r]) == LogBytes(recs) + RecordBytes(r)
  {
    assert (recs + [r])[..|recs|] == recs;
  }

  lemma TornPrefix(r: Record, s: seq<byte>)
    requires Encodable(r) && |s| < RECORD_SIZE && s == RecordBytes(r)[..|s|]
    ensures Torn(s)
  {
  }

  lemma TornCut(s: seq<byte>, k: nat)
    requires Torn(s) && k <= |s|
    ensures |s| < RECORD_SIZE && Torn(s[..k])
  {
    hide RecordBytes;
    if k > 0 {
      var r :| Encodable(r) && |s| < RECORD_SIZE && s == RecordBytes(r)[..|s|];
      assert s[..k] == RecordBytes(r)[..k];
      TornPrefix(r, s[..k]);
    }
  }

  /** Any prefix of a stream is a stream of its whole records. */
  lemma CutStream(sent: seq<Record>, bytes: seq<byte>, k: nat, pageCount: nat)
    requires Numbered(sent, pageCount) && Stream(sent, bytes) && k <= |bytes|
    ensures k / RECORD_SIZE <= |sent|
    ensures Stream(sent[..k / RECORD_SIZE], bytes[..k])
  {
    hide RecordBytes, Torn, LogBytes;
    var whole := RECORD_SIZE * |sent|;
    TornCut(bytes[whole..], if k <= whole then 0 else k - whole);
    var n := k / RECORD_SIZE;
    var cut := bytes[..k];
    LogBytesPrefix(sent, n);
    assert cut[..RECORD_SIZE * n] == bytes[..whole][..RECORD_SIZE * n];
    if n < |sent| {
      assert cut[RECORD_SIZE * n..] == LogBytes(sent)[RECORD_SIZE * n..k] by {
        assert bytes[..whole] == LogBytes(sent);
        SliceOfPrefix(bytes, k, RECORD_SIZE * n, k);
        SliceOfPrefix(bytes, whole, RECORD_SIZE * n, k);
      }
      NthRecordBytes(sent, n, k - RECORD_SIZE * n);
      TornPrefix(sent[n], cut[RECORD_SIZE * n..]);
    } else {
      assert cut[RECORD_SIZE * n..] == bytes[whole..][..k - whole];
    }
  }

  lemma NthRecordBytes(recs: seq<Record>, n: nat, k: nat)
    requires n < |recs| && k <= RECORD_SIZE
    ensures LogBytes(recs)[RECORD_SIZE * n..RECORD_SIZE * n + k] == RecordBytes(recs[n])[..k]
  {
    hide RecordBytes, LogBytes;
    LogBytesPrefix(recs, n + 1);
    LogBytesSnoc(recs[..n], recs[n]);
    var upto := LogBytes(recs[..n + 1]);
    assert recs[..n + 1] == recs[..n] + [recs[n]];
    assert upto == LogBytes(recs[..n]) + RecordBytes(recs[n]);
    SliceOfPrefix(LogBytes(recs), RECORD_SIZE * (n + 1), RECORD_SIZE * n, RECORD_SIZE * n + k);
    assert upto[RECORD_SIZE * n..RECORD_SIZE * n + k] == RecordBytes(recs[n])[..k];
  }

  lemma ScanStream(sent: seq<Record>, bytes: seq<byte>, pageCount: nat)
    requires Numbered(sent, pageCount) && Stream(sent, bytes)
    ensures Scan(bytes, 0).Scanned? && OnDisk(bytes) == sent
  {
    hide RecordBytes, Torn, LogBytes, Scan;
    var whole := RECORD_SIZE * |sent|;
    assert bytes == LogBytes(sent) + bytes[whole..];
    ScanPrinted(sent, bytes[whole..], 0);
  }

  /** How many whole records have reached the log file. */
  function Landed(s: State): nat {
    |s.log| / RECORD_SIZE
  }

  /** The log file scans cleanly and yields the records that have landed. */
  lemma LogReads(s: State)
    requires LogOk(s)
    ensures Landed(s) <= |s.sent| && OnDisk(s.log) == s.sent[..Landed(s)] && Scan(s.log, 0).Scanned?
  {
    hide Stream, OnDisk, Scan;
    CutStream(s.sent, s.log + s.pending, |s.log|, |s.pages|);
    assert (s.log + s.pending)[..|s.log|] == s.log;
    ScanStream(s.sent[..Landed(s)], s.log, |s.pages|);
  }
}
