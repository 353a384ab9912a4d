/**
 The write-ahead log as the engine runs it: a stream of records with a sticky
 error state, the scan that validates it, the replay loop and the truncation.
 */
module Wal {
  import opened Bytes
  import opened Results
  import opened LogFormat
  import opened CrashMachine
  import opened Storage
  import Crc32

  /** File offsets are signed 64-bit; a write that would pass this fails. */
  const MAX_FILE_SIZE: nat := 0x7FFF_FFFF_FFFF_FFFF

  class Log {
    const reliable: bool    // no call into the operating system fails
    var file: seq<byte>     // bytes in the log file
    var pending: seq<byte>  // bytes in the stream buffer
    var failed: bool        // the stream's error state; only Reset clears it
    var open: bool
    var nextLsn: nat
    var durableLsn: int
    ghost var sent: seq<Record>  // records handed to the stream since the last Reset

    ghost predicate Valid()
      reads this
    {
      && nextLsn == |sent| + 1
      && |file| + |pending| <= MAX_FILE_SIZE
      && RECORD_SIZE * |sent| <= |file| + |pending|
    }

    /** The bytes the file may still grow by; negative while a call may fail. */
    ghost function Room(): int
      reads this
    {
      if reliable && open && !failed then MAX_FILE_SIZE - |file| - |pending| else -1
    }

    method Fails() returns (yes: bool)
      ensures reliable ==> !yes
    {
      yes := *;
      if reliable { yes := false; }
    }

    /** Everything the log's calls leave alone unless they say otherwise. */
    twostate predicate Untouched()
      reads this
    {
      && file == old(file) && pending == old(pending) && failed == old(failed) && open == old(open)
      && nextLsn == old(nextLsn) && durableLsn == old(durableLsn) && sent == old(sent)
    }

    /**
     Appends one page image without flushing, numbered behind the last record. A
     failure either happens before the stream is touched or leaves `cut` bytes of
     the record in it and the stream failed.
     */
    method AppendPageImage(page: nat, data: Page) returns (s: Status, ghost cut: nat)
      modifies this
      ensures old(Valid()) ==> Valid()
      ensures open == old(open) && file == old(file) && durableLsn == old(durableLsn)
      ensures s.Ok? ==>
                && open && page != INVALID_ID && !old(failed) && !failed && nextLsn == old(nextLsn) + 1
                && sent == old(sent) + [Record(old(nextLsn), page, data)]
                && pending == old(pending) + RecordBytes(Record(old(nextLsn), page, data))
      ensures s.Error? ==>
                || Untouched()
                || (&& !old(failed) && failed && sent == old(sent) && nextLsn == old(nextLsn) && cut < RECORD_SIZE
                    && pending == old(pending) + RecordBytes(Record(old(nextLsn), page, data))[..cut])
      ensures s.Error? ==>
                s.code in {BadState, InvalidArgument, IoError} && (page != INVALID_ID ==> s.code != InvalidArgument)
      ensures old(Room()) >= RECORD_SIZE && page != INVALID_ID ==> s.Ok? && Room() == old(Room()) - RECORD_SIZE
    {
      hide RecordBytes;
      cut := 0;
      if !open { return Error(BadState), cut; }
      if page == INVALID_ID { return Error(InvalidArgument), cut; }
      if failed { return Error(IoError), cut; }
      var bytes := RecordBytes(Record(nextLsn, page, data));
      var broken := Fails();
      if broken || |file| + |pending| + RECORD_SIZE > MAX_FILE_SIZE {
        var n: int := *;
        n := if 0 <= n < RECORD_SIZE && |file| + |pending| + n <= MAX_FILE_SIZE then n else 0;
        pending := pending + bytes[..n];
        failed := true;
        return Error(IoError), n;
      }
      pending := pending + bytes;
      sent := sent + [Record(nextLsn, page, data)];
      nextLsn := nextLsn + 1;
      return Ok, cut;
    }

    /** Makes every appended record durable; a failure may let any part of the stream through. */
    method Flush() returns (s: Status)
      modifies this
      ensures old(Valid()) ==> Valid()
      ensures open == old(open) && sent == old(sent) && nextLsn == old(nextLsn)
      ensures s.Ok? ==>
                && open && !failed && !old(failed)
                && file == old(file) + old(pending) && pending == [] && durableLsn == nextLsn - 1
      ensures s.Error? ==>
                && (failed || !open) && (!open ==> Untouched()) && durableLsn == old(durableLsn)
                && |file| - |old(file)| <= |old(pending)| && |old(file)| <= |file|
                && file == old(file) + old(pending)[..|file| - |old(file)|]
                && pending == old(pending)[|file| - |old(file)|..]
      ensures s.Error? ==> s.code in {BadState, IoError}
      ensures reliable && open && !old(failed) ==> s.Ok? && Room() == old(Room())
    {
      if !open { return Error(BadState); }
      var broken := Fails();
      if failed || broken {
        var n: int := *;
        n := if !failed && 0 <= n <= |pending| then n else 0;
        file, pending := file + pending[..n], pending[n..];
        failed := true;
        return Error(IoError);
      }
      file, pending := file + pending, [];
      durableLsn := nextLsn - 1;
      return Ok;
    }

    /** Reads the records of the log file one after another; the loop computes LogFormat.Scan. */
    method ScanFile() returns (s: Status, recs: seq<Record>, truncated: bool)
      ensures s.Ok? ==> LogFormat.Scan(file, 0).Scanned? && recs == LogFormat.Scan(file, 0).recs
                        && truncated == LogFormat.Scan(file, 0).truncated
      ensures s == Error(BadState) ==> !open || LogFormat.Scan(file, 0).Damaged?
      ensures s.Error? ==> s.code in {BadState, IoError}
      ensures reliable && open ==> (s.Ok? <==> LogFormat.Scan(file, 0).Scanned?)
    {
      hide ReadRecord;
      recs, truncated := [], false;
      if !open { return Error(BadState), recs, truncated; }
      var fails := Fails();
      if fails { return Error(IoError), recs, truncated; }
      var at: nat, last: nat := 0, 0;
      assert file[0..] == file;
      while true
        invariant at <= |file|
        invariant Joined(recs, LogFormat.Scan(file[at..], last)) == LogFormat.Scan(file, 0)
        decreases |file| - at
      {
        var r := ReadRecord(file[at..]);
        match r
        case End(tail) => return Ok, recs, tail;
        case Corrupt(_) => return Error(BadState), recs, truncated;
        case Complete(rec) =>
          if rec.lsn <= last { return Error(BadState), recs, truncated; }
          JoinedStep(recs, rec, LogFormat.Scan(file[at + RECORD_SIZE..], rec.lsn));
          assert file[at..][RECORD_SIZE..] == file[at + RECORD_SIZE..];
          recs, last, at := recs + [rec], rec.lsn, at + RECORD_SIZE;
      }
    }

    /**
     Opens a log file and validates it. A torn record at the end is accepted; the
     next number continues behind the last complete record.
     */
    constructor (existing: seq<byte>, reliable: bool)
      ensures
        && this.reliable == reliable && file == existing && pending == [] && !failed && open && sent == OnDisk(existing)
      ensures LogFormat.Scan(existing, 0).Scanned? ==>
                nextLsn == LogFormat.Scan(existing, 0).lastLsn + 1 && durableLsn == nextLsn - 1
    {
      hide LogFormat.Scan;
      var r := LogFormat.Scan(existing, 0);
      this.reliable := reliable;
      file, pending, failed, open := existing, [], false, true;
      nextLsn := if r.Scanned? then r.lastLsn + 1 else 1;
      durableLsn := if r.Scanned? then r.lastLsn else 0;
      sent := OnDisk(existing);
    }

    /**
     Replays the complete records of the file over storage, in order. `done` lists
     the records applied. A failure may tear the page it was writing.
     */
    method Recover(storage: PageStorage) returns (s: Status, ghost done: seq<Record>)
      requires |storage.pages| <= INVALID_ID
      modifies storage
      ensures storage.open == old(storage.open) && |storage.pages| == |old(storage.pages)|
      ensures LogFormat.Scan(file, 0).Scanned? ==> done <= OnDisk(file)
      ensures s.Ok? ==> LogFormat.Scan(file, 0).Scanned? && done == OnDisk(file) && InFile(done, |storage.pages|)
      ensures s.Ok? ==> storage.pages == Replayed(done, old(storage.pages))
      ensures s.Error? && LogFormat.Scan(file, 0).Scanned? ==>
                PartlyReplayed(done, OnDisk(file), old(storage.pages), storage.pages)
      ensures reliable && open && storage.reliable && storage.open ==>
                (s.Ok? <==> LogFormat.Scan(file, 0).Scanned? && InFile(OnDisk(file), |storage.pages|))
    {
      hide ReadRecord, LogFormat.Scan, Replayed, OnDisk;
      done := [];
      NothingReplayed(storage.pages);
      if !open { return Error(BadState), done; }
      var fails := Fails();
      if fails { return Error(IoError), done; }
      var at: nat, last: nat := 0, 0;
      assert file[0..] == file;
      JoinedNone(LogFormat.Scan(file, 0));
      while true
        invariant at <= |file| && storage.open == old(storage.open) && |storage.pages| == |old(storage.pages)|
        invariant Joined(done, LogFormat.Scan(file[at..], last)) == LogFormat.Scan(file, 0)
        invariant storage.pages == Replayed(done, old(storage.pages)) && InFile(done, |storage.pages|)
        decreases |file| - at
      {
        ScanGoesOn(file, at, last, done);
        var r := ReadRecord(file[at..]);
        match r
        case End(tail) => return Ok, done;
        case Corrupt(_) => return Error(BadState), done;
        case Complete(rec) =>
          if rec.lsn <= last { return Error(BadState), done; }
          ReadNames(file[at..]);
          var yes := storage.PageExists(rec.page);
          if !yes {
            assert LogFormat.Scan(file, 0).Scanned? ==> OnDisk(file)[|done|] == rec;
            return Error(BadState), done;
          }
          ghost var before := storage.pages;
          s := storage.WritePage(rec.page, rec.image);
          if s.Error? {
            assert storage.pages == before[rec.page := storage.pages[rec.page]];
            return s, done;
          }
          ReplayedSnoc(done, rec, old(storage.pages));
          done, last, at := done + [rec], rec.lsn, at + RECORD_SIZE;
      }
    }

    /** Truncates the log. A failure leaves it as it was, flushed as far as it got, or empty. */
    method Reset() returns (s: Status, ghost n: nat)
      modifies this
      ensures s.Ok? ==>
                && open && old(open) && file == [] && pending == [] && !failed && sent == [] && nextLsn == 1
                && durableLsn == 0 && Valid()
      ensures s.Error? && old(open) ==> pending == []
      ensures !old(open) ==> file == old(file) && pending == old(pending)
      ensures s.Error? ==> n <= |old(pending)| && (file == old(file) + old(pending)[..n] || (file == [] && old(open)))
      ensures reliable && old(open) ==> s.Ok?
    {
      n := 0;
      if !open {
        assert old(pending)[..0] == [];
        return Error(BadState), 0;
      }
      var k: int := *;
      k := if 0 <= k <= |pending| then k else |pending|;
      file, pending := file + pending[..k], [];
      var fails := Fails();
      if fails {
        failed := true;
        if * { file := []; }
        return Error(IoError), k;
      }
      file, failed, nextLsn, durableLsn, sent := [], false, 1, 0, [];
      return Ok, k;
    }

    method Close() returns (s: Status)
      modifies this
      ensures !open
      ensures s.Ok? && old(open) ==> file == old(file) + old(pending) && pending == []
      ensures !old(open) ==> s.Ok? && file == old(file) && pending == old(pending)
      ensures old(pending) == [] ==> file == old(file) && pending == []
      ensures reliable && !old(failed) ==> s.Ok?
    {
      if !open { return Ok; }
      s := Flush();
      open := false;
    }
  }

  /** A scan result with more records in front. */
  function Joined(front: seq<Record>, r: ScanResult): ScanResult {
    match r
    case Scanned(recs, lastLsn, truncated) => Scanned(front + recs, lastLsn, truncated)
    case Damaged(_) => r
  }

  lemma JoinedStep(front: seq<Record>, rec: Record, r: ScanResult)
    ensures Joined(front, Prepend(rec, r)) == Joined(front + [rec], r)
  {
    if r.Scanned? {
      assert front + ([rec] + r.recs) == front + [rec] + r.recs;
    }
  }

  lemma JoinedNone(r: ScanResult)
    ensures Joined([], r) == r
  {
    if r.Scanned? { assert [] + r.recs == r.recs; }
  }

  predicate InFile(recs: seq<Record>, pageCount: nat) {
    forall i :: 0 <= i < |recs| ==> recs[i].page < pageCount
  }

  /** Some first records were applied; the page of the next one may hold anything. */
  ghost predicate PartlyReplayed(done: seq<Record>, recs: seq<Record>, before: seq<Page>, after: seq<Page>) {
    && |after| == |before| && InFile(done, |before|)
    && (|| after == Replayed(done, before)
        || (&& done < recs && recs[|done|].page < |before|
            && after == Replayed(done, before)[recs[|done|].page := after[recs[|done|].page]]))
  }

  lemma NothingReplayed(pages: seq<Page>)
    ensures Replayed([], pages) == pages
  {
  }

  lemma ReadNames(s: seq<byte>)
    requires ReadRecord(s).Complete?
    ensures ReadRecord(s).rec.page < INVALID_ID
  {
    hide U16, Crc32.Checksum;
  }

  /** Where the scan stands, the rest of the file decides how it goes on. */
  lemma ScanGoesOn(file: seq<byte>, at: nat, last: nat, done: seq<Record>)
    requires at <= |file| && Joined(done, LogFormat.Scan(file[at..], last)) == LogFormat.Scan(file, 0)
    ensures var r := ReadRecord(file[at..]);
            && (LogFormat.Scan(file, 0).Scanned? ==> done <= OnDisk(file))
            && (r.End? ==> LogFormat.Scan(file, 0).Scanned? && done == OnDisk(file))
            && (r.Corrupt? ==> LogFormat.Scan(file, 0).Damaged?)
            && (r.Complete? && r.rec.lsn <= last ==> LogFormat.Scan(file, 0).Damaged?)
            && (r.Complete? && r.rec.lsn > last ==>
                  && at + RECORD_SIZE <= |file|
                  && Joined(done + [r.rec], LogFormat.Scan(file[at + RECORD_SIZE..], r.rec.lsn)) ==
                     LogFormat.Scan(file, 0)
                  && (LogFormat.Scan(file, 0).Scanned? ==> done + [r.rec] <= OnDisk(file)))
  {
    hide ReadRecord;
    var r := ReadRecord(file[at..]);
    if r.Complete? && r.rec.lsn > last {
      assert file[at..][RECORD_SIZE..] == file[at + RECORD_SIZE..];
      JoinedStep(done, r.rec, LogFormat.Scan(file[at + RECORD_SIZE..], r.rec.lsn));
    }
  }
}
