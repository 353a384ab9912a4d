/**
 The on-disk format of the write-ahead log: full page images framed by a
 32-byte header with a sequence number and a checksum. Records print and parse
 as inverses, a torn trailing record is recognised as such, and damage to a
 complete record is always reported.
 */
module LogFormat {
  import opened Bytes
  import Crc32

  const HEADER_SIZE: nat := 32
  const RECORD_SIZE: nat := 4128
  const MAX_PAYLOAD: nat := 65536

  const MAGIC: seq<byte> := [0x4E, 0x57, 0x41, 0x31]
  const VERSION: nat := 1
  const PAGE_IMAGE: nat := 1

  datatype Record = Record(lsn: nat, page: nat, image: Page)

  /** The values the header fields can carry. */
  predicate Encodable(r: Record) {
    r.lsn < 0x1_0000_0000_0000_0000 && r.page < INVALID_ID
  }

  /** The header bytes in front of the checksum field. */
  function HeaderStart(r: Record): (h: seq<byte>)
    ensures |h| == 28
  {
    MAGIC + Encode(VERSION, 2) + Encode(PAGE_IMAGE, 2) + Encode(r.lsn, 8) + Encode(r.page, 4)
    + Encode(PAGE_SIZE, 4) + Encode(0, 4)
  }

  function RecordBytes(r: Record): (b: seq<byte>)
    ensures |b| == RECORD_SIZE
  {
    HeaderStart(r) + Encode(Crc32.Checksum(HeaderStart(r) + r.image), 4) + r.image
  }

  function LogBytes(recs: seq<Record>): (b: seq<byte>)
    ensures |b| == RECORD_SIZE * |recs|
  {
    if recs == [] then [] else LogBytes(recs[..|recs| - 1]) + RecordBytes(recs[|recs| - 1])
  }

  // ---- reading ---------------------------------------------------------------

  datatype Damage =
    | BadMagic
    | BadVersion
    | BadType
    | LengthOutOfRange
    | UnexpectedLength
    | InvalidPage
    | ChecksumMismatch
    | LsnNotIncreasing

  datatype ReadResult = Complete(rec: Record) | End(truncated: bool) | Corrupt(why: Damage)

  /** Reads and validates the record at the front of `s`, checking fields in the log's order. */
  function ReadRecord(s: seq<byte>): (r: ReadResult)
    ensures r.Complete? ==> |s| >= RECORD_SIZE
  {
    if |s| == 0 then End(false)
    else if |s| < HEADER_SIZE then End(true)
    else if s[..4] != MAGIC then Corrupt(BadMagic)
    else if U16(s, 4) != VERSION then Corrupt(BadVersion)
    else if U16(s, 6) != PAGE_IMAGE then Corrupt(BadType)
    else if U32(s, 20) > MAX_PAYLOAD then Corrupt(LengthOutOfRange)
    else if U32(s, 20) != PAGE_SIZE then Corrupt(UnexpectedLength)
    else if U32(s, 16) == INVALID_ID then Corrupt(InvalidPage)
    else if |s| < RECORD_SIZE then End(true)
    else if U32(s, 28) != Crc32.Checksum(s[..28] + s[32..RECORD_SIZE]) then Corrupt(ChecksumMismatch)
    else Complete(Record(Field(s, 8, 8), U32(s, 16), s[32..RECORD_SIZE]))
  }

  datatype ScanResult =
    | Scanned(recs: seq<Record>, lastLsn: nat, truncated: bool)
    | Damaged(why: Damage)

  /** Reads records to the end of `s`; sequence numbers must exceed `last` and keep increasing. */
  function Scan(s: seq<byte>, last: nat): ScanResult
    decreases |s|
  {
    match ReadRecord(s)
    case End(truncated) => Scanned([], last, truncated)
    case Corrupt(why) => Damaged(why)
    case Complete(rec) =>
      if rec.lsn <= last then Damaged(LsnNotIncreasing)
      else
        Prepend(rec, Scan(s[RECORD_SIZE..], rec.lsn))
  }

  // ---- print then parse ------------------------------------------------------

  /** Where the fields of a printed header lie. */
  lemma HeaderLayout(r: Record)
    ensures var h := HeaderStart(r);
            && h[..4] == MAGIC && h[4..6] == Encode(VERSION, 2) && h[6..8] == Encode(PAGE_IMAGE, 2)
            && h[8..16] == Encode(r.lsn, 8) && h[16..20] == Encode(r.page, 4)
            && h[20..24] == Encode(PAGE_SIZE, 4) && h[24..28] == Encode(0, 4)
  {
    hide Encode;
  }

  lemma RecordParts(r: Record)
    ensures var b := RecordBytes(r);
            && b[..28] == HeaderStart(r) && b[32..] == r.image
            && b[28..32] == Encode(Crc32.Checksum(HeaderStart(r) + r.image), 4)
  {
    hide HeaderStart, Crc32.Checksum, Encode;
  }

  lemma FieldReads(s: seq<byte>, at: nat, n: nat, v: nat)
    requires at + n <= |s| && v < Radix(n)
    requires s[at..at + n] == Encode(v, n)
    ensures Field(s, at, n) == v
  {
    DecodeEncode(v, n);
  }

  /** The fields of a printed header read back. */
  lemma HeaderFields(r: Record, s: seq<byte>)
    requires Encodable(r) && |s| >= HEADER_SIZE
    requires s[..28] == HeaderStart(r)
    ensures s[..4] == MAGIC
    ensures U16(s, 4) == VERSION && U16(s, 6) == PAGE_IMAGE
    ensures Field(s, 8, 8) == r.lsn && U32(s, 16) == r.page && U32(s, 20) == PAGE_SIZE
  {
    hide HeaderStart, Encode, Decode;
    var h := s[..28];
    HeaderLayout(r);
    RadixValues();
    assert s[..4] == h[..4] && s[4..6] == h[4..6] && s[6..8] == h[6..8];
    assert s[8..16] == h[8..16] && s[16..20] == h[16..20] && s[20..24] == h[20..24];
    FieldReads(s, 4, 2, VERSION);
    FieldReads(s, 6, 2, PAGE_IMAGE);
    FieldReads(s, 8, 8, r.lsn);
    FieldReads(s, 16, 4, r.page);
    FieldReads(s, 20, 4, PAGE_SIZE);
  }

  lemma ChecksumReads(r: Record, s: seq<byte>)
    requires |s| >= HEADER_SIZE && s[28..32] == RecordBytes(r)[28..32]
    ensures U32(s, 28) == Crc32.Checksum(HeaderStart(r) + r.image)
  {
    hide HeaderStart, RecordBytes, Crc32.Checksum, Encode, Decode;
    RadixValues();
    RecordParts(r);
    FieldReads(s, 28, 4, Crc32.Checksum(HeaderStart(r) + r.image));
  }

  lemma ReadPrinted(r: Record, rest: seq<byte>)
    requires Encodable(r)
    ensures ReadRecord(RecordBytes(r) + rest) == Complete(r)
  {
    hide HeaderStart, RecordBytes, Crc32.Checksum, U16, U32, Field;
    var b := RecordBytes(r);
    var s := b + rest;
    RecordParts(r);
    assert s[..28] == b[..28] && s[28..32] == b[28..32] && s[32..RECORD_SIZE] == b[32..];
    HeaderFields(r, s);
    ChecksumReads(r, s);
  }

  /** A record cut short anywhere reads as a truncated tail, never as damage. */
  lemma ReadTorn(r: Record, n: nat)
    requires Encodable(r) && 0 < n < RECORD_SIZE
    ensures ReadRecord(RecordBytes(r)[..n]) == End(true)
  {
    hide HeaderStart, RecordBytes, Crc32.Checksum, U16, U32, Field;
    var s := RecordBytes(r)[..n];
    if n >= HEADER_SIZE {
      RecordParts(r);
      assert s[..28] == RecordBytes(r)[..28];
      HeaderFields(r, s);
    }
  }

  /** Printable records whose sequence numbers rise from above `last`. */
  predicate Printable(recs: seq<Record>, last: nat) {
    && (forall i :: 0 <= i < |recs| ==> Encodable(recs[i]) && recs[i].lsn > last)
    && (forall i, j :: 0 <= i < j < |recs| ==> recs[i].lsn < recs[j].lsn)
  }

  /** `s` is what a crash can leave of one more record: a strict prefix of its bytes. */
  ghost predicate Torn(s: seq<byte>) {
    s == [] || exists r :: Encodable(r) && |s| < RECORD_SIZE && s == RecordBytes(r)[..|s|]
  }

  lemma ReadTail(torn: seq<byte>)
    requires Torn(torn)
    ensures ReadRecord(torn) == End(torn != [])
  {
    if torn != [] {
      var r :| Encodable(r) && |torn| < RECORD_SIZE && torn == RecordBytes(r)[..|torn|];
      ReadTorn(r, |torn|);
    }
  }

  lemma {:induction false} LogBytesFront(recs: seq<Record>)
    requires recs != []
    ensures LogBytes(recs) == RecordBytes(recs[0]) + LogBytes(recs[1..])
  {
    hide RecordBytes;
    if |recs| > 1 {
      var n := |recs| - 1;
      LogBytesFront(recs[..n]);
      assert recs[1..][..n - 1] == recs[..n][1..];
      assert recs[1..][n - 1] == recs[n];
    } else {
      assert recs[..0] == [];
    }
  }

  function Prepend(rec: Record, r: ScanResult): ScanResult {
    match r
    case Scanned(recs, lastLsn, truncated) => Scanned([rec] + recs, lastLsn, truncated)
    case Damaged(why) => r
  }

  lemma ScanFront(rec: Record, rest: seq<byte>, last: nat)
    requires Encodable(rec) && rec.lsn > last
    ensures Scan(RecordBytes(rec) + rest, last) == Prepend(rec, Scan(rest, rec.lsn))
  {
    hide RecordBytes, ReadRecord;
    var s := RecordBytes(rec) + rest;
    ReadPrinted(rec, rest);
    assert s[RECORD_SIZE..] == rest;
  }

  lemma ScanTail(torn: seq<byte>, last: nat)
    requires Torn(torn)
    ensures Scan(torn, last) == Scanned([], last, torn != [])
  {
    ReadTail(torn);
  }

  lemma ScanUnpeel(recs: seq<Record>, torn: seq<byte>, last: nat)
    requires recs != [] && Encodable(recs[0]) && recs[0].lsn > last
    ensures Scan(LogBytes(recs) + torn, last) == Prepend(recs[0], Scan(LogBytes(recs[1..]) + torn, recs[0].lsn))
  {
    hide RecordBytes, LogBytes, Scan, ReadRecord;
    LogBytesFront(recs);
    assert LogBytes(recs) + torn == RecordBytes(recs[0]) + (LogBytes(recs[1..]) + torn);
    ScanFront(recs[0], LogBytes(recs[1..]) + torn, last);
  }

  /** Scanning whole records and a torn tail yields exactly the whole records. */
  lemma {:induction false} ScanPrinted(recs: seq<Record>, torn: seq<byte>, last: nat)
    requires Printable(recs, last) && Torn(torn)
    ensures Scan(LogBytes(recs) + torn, last) ==
            Scanned(recs, if recs == [] then last else recs[|recs| - 1].lsn, torn != [])
    decreases |recs|
  {
    hide ReadRecord, RecordBytes, Scan;
    if recs == [] {
      assert LogBytes(recs) + torn == torn;
      ScanTail(torn, last);
    } else {
      ScanPrinted(recs[1..], torn, recs[0].lsn);
      ScanUnpeel(recs, torn, last);
    }
  }

  // ---- appending behind a torn tail -------------------------------------------

  /** The first bytes of every record. */
  const FRONT: seq<byte> := [0x4E, 0x57, 0x41, 0x31, 1, 0, 1, 0]

  lemma FieldBytes()
    ensures Encode(VERSION, 2) == [1, 0] && Encode(PAGE_IMAGE, 2) == [1, 0] && Encode(PAGE_SIZE, 4) == [0, 16, 0, 0]
  {
    assert Encode(0, 1) == [0] && Encode(0, 2) == [0, 0];
    assert Encode(16, 3) == [16] + Encode(0, 2);
  }

  lemma RecordFront(r: Record)
    ensures RecordBytes(r)[..8] == FRONT
  {
    hide Encode, RecordBytes, HeaderStart;
    FieldBytes();
    HeaderLayout(r);
    RecordParts(r);
    var h := HeaderStart(r);
    assert RecordBytes(r)[..8] == h[..8] == h[..4] + h[4..6] + h[6..8];
  }

  /** A field that reads as a value holds the bytes of that value. */
  lemma FieldIs(s: seq<byte>, at: nat, n: nat, v: nat)
    requires at + n <= |s|
    ensures Field(s, at, n) == v ==> s[at..at + n] == Encode(v, n)
  {
    EncodeDecode(s[at..at + n]);
  }

  /** The fields in front of the cut read as they were written. */
  lemma CutFields(cut: Record, s: seq<byte>, n: nat)
    requires Encodable(cut) && n <= RECORD_SIZE && n <= |s| && HEADER_SIZE <= |s| && s[..n] == RecordBytes(cut)[..n]
    ensures n >= 4 ==> s[..4] == MAGIC
    ensures n >= 6 ==> U16(s, 4) == VERSION
    ensures n >= 8 ==> U16(s, 6) == PAGE_IMAGE
    ensures n >= 24 ==> Field(s, 8, 8) == cut.lsn && U32(s, 16) == cut.page && U32(s, 20) == PAGE_SIZE
  {
    hide HeaderStart, Encode, Decode, RecordBytes;
    var b := RecordBytes(cut);
    RecordParts(cut);
    HeaderFields(cut, b);
    if n >= 4 { SameSlice(s, b, n, 0, 4); }
    if n >= 6 { SameSlice(s, b, n, 4, 6); }
    if n >= 8 { SameSlice(s, b, n, 6, 8); }
    if n >= 24 {
      SameSlice(s, b, n, 8, 16);
      SameSlice(s, b, n, 16, 20);
      SameSlice(s, b, n, 20, 24);
    }
  }

  lemma SameSlice(s: seq<byte>, b: seq<byte>, n: nat, x: nat, y: nat)
    requires x <= y <= n <= |s| && n <= |b| && s[..n] == b[..n]
    ensures s[x..y] == b[x..y]
  {
    assert s[x..y] == s[..n][x..y] && b[x..y] == b[..n][x..y];
  }

  /** The bytes behind the cut are those of the next record. */
  lemma BehindCut(a: seq<byte>, b: seq<byte>, k: nat)
    requires |b| >= 8 && b[..8] == FRONT && k < 8
    ensures (a + b)[|a| + k] == FRONT[k]
  {
    assert (a + b)[|a| + k] == b[..8][k];
  }

  /**
   Why a torn log must be truncated before anything is appended. The log is opened
   for appending, so the next record lands behind the torn bytes, and the log then
   reads as damaged. With less than the length field torn off, this can fail only
   while bytes of the next sequence number stand where the length is read; from
   there on it fails exactly when the checksum happens to fit the spliced bytes.
   */
  lemma AppendBehindTorn(cut: Record, n: nat, r: Record)
    requires Encodable(cut) && 0 < n < RECORD_SIZE
    ensures Torn(RecordBytes(cut)[..n])
    ensures var s := RecordBytes(cut)[..n] + RecordBytes(r);
            if n < 4 then Scan(s, 0) == Damaged(BadMagic)
            else if n < 6 then Scan(s, 0) == Damaged(BadVersion)
            else if n < 8 then Scan(s, 0) == Damaged(BadType)
            else if n < 14 then Scan(s, 0).Damaged? || Field(RecordBytes(r), 20 - n, 4) == PAGE_SIZE
            else if n < 24 then Scan(s, 0) in {Damaged(LengthOutOfRange), Damaged(UnexpectedLength)}
            else if U32(s, 28) != Crc32.Checksum(s[..28] + s[32..RECORD_SIZE])
              then Scan(s, 0) == Damaged(ChecksumMismatch)
            else ReadRecord(s) == Complete(Record(cut.lsn, cut.page, s[32..RECORD_SIZE]))
  {
    hide RecordBytes, U16, U32, Field, Crc32.Checksum;
    var s := RecordBytes(cut)[..n] + RecordBytes(r);
    assert s[..n] == RecordBytes(cut)[..n];
    CutFields(cut, s, n);
    RecordFront(r);
    if n < 4 {
      BehindCut(RecordBytes(cut)[..n], RecordBytes(r), 0);
    } else if n < 8 {
      ShiftedField(s, n, RecordBytes(cut)[..n], RecordBytes(r));
    } else if n < 14 {
      ShiftedLength(RecordBytes(cut)[..n], RecordBytes(r));
    } else if n < 24 {
      WrongLength(s, n, RecordBytes(cut)[..n], RecordBytes(r));
    }
  }

  lemma ShiftedField(s: seq<byte>, n: nat, a: seq<byte>, b: seq<byte>)
    requires 4 <= n < 8 && |a| == n && |b| >= 28 && b[..8] == FRONT && s == a + b
    ensures n < 6 ==> U16(s, 4) != VERSION
    ensures n >= 6 ==> U16(s, 6) != PAGE_IMAGE
  {
    hide Encode, Decode;
    var at := if n < 6 then 4 else 6;
    FieldBytes();
    BehindCut(a, b, at + 1 - n);
    assert s[at..at + 2][1] == s[at + 1];
    FieldIs(s, at, 2, 1);
  }

  lemma ShiftedLength(a: seq<byte>, b: seq<byte>)
    requires 8 <= |a| < 14 && |b| >= 28
    ensures U32(a + b, 20) == Field(b, 20 - |a|, 4)
  {
    hide Decode;
    assert (a + b)[20..24] == b[20 - |a|..24 - |a|];
  }

  /** A byte of the next record's front stands where a length of a page has another one. */
  lemma WrongLength(s: seq<byte>, n: nat, a: seq<byte>, b: seq<byte>)
    requires 14 <= n < 24 && |a| == n && |b| >= 28 && b[..8] == FRONT && s == a + b
    ensures U32(s, 20) != PAGE_SIZE
  {
    hide Encode, Decode;
    FieldBytes();
    var k := if n < 18 then 6 else if n < 20 then 4 else 23 - n;
    BehindCut(a, b, k);
    assert s[20..24][n + k - 20] == s[n + k];
    FieldIs(s, 20, 4, PAGE_SIZE);
  }

  /**
   Parse then print: a complete record came from the printer exactly when its
   reserved field is zero, the one field the reader does not look at.
   */
  lemma CompleteIsPrinted(s: seq<byte>)
    requires ReadRecord(s).Complete?
    ensures Encodable(ReadRecord(s).rec)
    ensures s[..RECORD_SIZE] == RecordBytes(ReadRecord(s).rec) <==> U32(s, 24) == 0
  {
    hide RecordBytes, Crc32.Checksum;
    var r := ReadRecord(s).rec;
    if s[..RECORD_SIZE] == RecordBytes(r) {
      ReservedIsZero(r, s);
    }
    if U32(s, 24) == 0 {
      PartsPrint(r, s);
    }
  }

  lemma PartsPrint(r: Record, s: seq<byte>)
    requires |s| >= RECORD_SIZE
    requires s[..4] == MAGIC && U16(s, 4) == VERSION && U16(s, 6) == PAGE_IMAGE && Field(s, 8, 8) == r.lsn
    requires U32(s, 16) == r.page && U32(s, 20) == PAGE_SIZE && U32(s, 24) == 0
    requires s[32..RECORD_SIZE] == r.image && U32(s, 28) == Crc32.Checksum(s[..28] + s[32..RECORD_SIZE])
    ensures s[..RECORD_SIZE] == RecordBytes(r)
  {
    hide HeaderStart, Encode, Decode, Crc32.Checksum;
    HeaderPrints(r, s);
    EncodeDecode(s[28..32]);
    assert s[..RECORD_SIZE] == s[..28] + s[28..32] + s[32..RECORD_SIZE];
  }

  lemma ReservedIsZero(r: Record, s: seq<byte>)
    requires |s| >= RECORD_SIZE && s[..RECORD_SIZE] == RecordBytes(r)
    ensures U32(s, 24) == 0
  {
    hide RecordBytes, HeaderStart, Encode, Decode;
    HeaderLayout(r);
    RecordParts(r);
    RadixValues();
    assert s[24..28] == RecordBytes(r)[24..28] == RecordBytes(r)[..28][24..28];
    FieldReads(s, 24, 4, 0);
  }

  lemma HeaderPrints(r: Record, s: seq<byte>)
    requires |s| >= HEADER_SIZE
    requires s[..4] == MAGIC && U16(s, 4) == VERSION && U16(s, 6) == PAGE_IMAGE && Field(s, 8, 8) == r.lsn
    requires U32(s, 16) == r.page && U32(s, 20) == PAGE_SIZE && U32(s, 24) == 0
    ensures s[..28] == HeaderStart(r)
  {
    hide Encode, Decode;
    EncodeDecode(s[4..6]);
    EncodeDecode(s[6..8]);
    EncodeDecode(s[8..16]);
    EncodeDecode(s[16..20]);
    EncodeDecode(s[20..24]);
    EncodeDecode(s[24..28]);
    assert s[..28] == s[..4] + s[4..6] + s[6..8] + s[8..16] + s[16..20] + s[20..24] + s[24..28];
  }

  // ---- damage ----------------------------------------------------------------

  /** `t` is `s` with some bytes of the window [at, at + n) changed. */
  predicate DiffersInside(s: seq<byte>, t: seq<byte>, at: nat, n: nat) {
    && |s| == |t| && at + n <= |s| && s != t
    && s[..at] == t[..at] && s[at + n..] == t[at + n..]
  }

  lemma ChecksumSeesWindow(s: seq<byte>, t: seq<byte>, at: nat, n: nat)
    requires DiffersInside(s, t, at, n) && n <= 4
    ensures Crc32.Checksum(s) != Crc32.Checksum(t)
  {
    assert s == s[..at] + s[at..at + n] + s[at + n..];
    assert t == t[..at] + t[at..at + n] + t[at + n..];
    Crc32.ChecksumDetectsBurst(s[..at], s[at..at + n], t[at..at + n], s[at + n..]);
  }

  /**
   Any change confined to at most four consecutive bytes of the header before
   the checksum, of the checksum itself, or of the payload is reported.
   */
  lemma BurstIsCorrupt(r: Record, t: seq<byte>, at: nat, n: nat, rest: seq<byte>)
    requires Encodable(r) && n <= 4
    requires DiffersInside(RecordBytes(r), t, at, n)
    requires at + n <= 28 || 28 <= at <= at + n <= 32 || 32 <= at
    ensures ReadRecord(t + rest).Corrupt?
  {
    hide RecordBytes, Crc32.Checksum, Decode;
    var s := t + rest;
    assert s[..28] == t[..28] && s[28..32] == t[28..32] && s[32..RECORD_SIZE] == t[32..];
    BurstBreaksChecksum(r, t, at, n);
  }

  lemma BurstBreaksChecksum(r: Record, t: seq<byte>, at: nat, n: nat)
    requires n <= 4 && DiffersInside(RecordBytes(r), t, at, n)
    requires at + n <= 28 || 28 <= at <= at + n <= 32 || 32 <= at
    ensures U32(t, 28) != Crc32.Checksum(t[..28] + t[32..])
  {
    hide RecordBytes, Crc32.Checksum, Decode;
    var b := RecordBytes(r);
    SameOutside(b, t, at, n);
    if 28 <= at <= at + n <= 32 {
      ChangedChecksum(r, t);
    } else {
      assert t[28..32] == b[28..32];
      WindowCarries(b, t, at, n);
      ChangedContent(r, t, if at + n <= 28 then at else at - 4, n);
    }
  }

  lemma SameOutside(b: seq<byte>, t: seq<byte>, at: nat, n: nat)
    requires DiffersInside(b, t, at, n)
    ensures forall k :: 0 <= k < |b| && !(at <= k < at + n) ==> b[k] == t[k]
  {
    forall k | 0 <= k < |b| && !(at <= k < at + n)
      ensures b[k] == t[k]
    {
      if k < at {
        assert b[k] == b[..at][k] && t[k] == t[..at][k];
      } else {
        assert b[k] == b[at + n..][k - at - n] && t[k] == t[at + n..][k - at - n];
      }
    }
  }

  lemma ChangedChecksum(r: Record, t: seq<byte>)
    requires |t| == RECORD_SIZE && t != RecordBytes(r)
    requires t[..28] == RecordBytes(r)[..28] && t[32..] == RecordBytes(r)[32..]
    ensures U32(t, 28) != Crc32.Checksum(t[..28] + t[32..])
  {
    hide RecordBytes, HeaderStart, Crc32.Checksum, Decode;
    var b := RecordBytes(r);
    RecordParts(r);
    if t[28..32] == b[28..32] {
      SameParts(b, t);
    } else {
      ChecksumReads(r, b);
      assert t[..28] + t[32..] == HeaderStart(r) + r.image;
      if U32(t, 28) == U32(b, 28) {
        DecodeInjective(t[28..32], b[28..32]);
      }
    }
  }

  lemma SameParts(b: seq<byte>, t: seq<byte>)
    requires |b| == |t| >= 32
    requires t[..28] == b[..28] && t[28..32] == b[28..32] && t[32..] == b[32..]
    ensures t == b
  {
    assert t == t[..28] + t[28..32] + t[32..];
    assert b == b[..28] + b[28..32] + b[32..];
  }

  lemma ChangedContent(r: Record, t: seq<byte>, at: nat, n: nat)
    requires |t| == RECORD_SIZE && n <= 4 && t[28..32] == RecordBytes(r)[28..32]
    requires DiffersInside(RecordBytes(r)[..28] + RecordBytes(r)[32..], t[..28] + t[32..], at, n)
    ensures U32(t, 28) != Crc32.Checksum(t[..28] + t[32..])
  {
    hide RecordBytes, HeaderStart, Crc32.Checksum, Decode;
    RecordParts(r);
    ChecksumReads(r, t);
    assert RecordBytes(r)[..28] + RecordBytes(r)[32..] == HeaderStart(r) + r.image;
    ChecksumSeesWindow(HeaderStart(r) + r.image, t[..28] + t[32..], at, n);
  }

  /** Cutting the checksum field out keeps a window that does not touch it. */
  lemma WindowCarries(b: seq<byte>, t: seq<byte>, at: nat, n: nat)
    requires |b| == RECORD_SIZE && DiffersInside(b, t, at, n)
    requires at + n <= 28 || 32 <= at
    ensures DiffersInside(b[..28] + b[32..], t[..28] + t[32..], if at + n <= 28 then at else at - 4, n)
  {
    var c, d := b[..28] + b[32..], t[..28] + t[32..];
    SameOutside(b, t, at, n);
    if c == d {
      forall k | 0 <= k < |b|
        ensures b[k] == t[k]
      {
        if k < 28 {
          assert b[k] == c[k] && t[k] == d[k];
        } else if k >= 32 {
          assert b[k] == c[k - 4] && t[k] == d[k - 4];
        }
      }
    }
  }

  /** Changing any single byte of a complete record is reported. */
  lemma ByteFlipIsCorrupt(r: Record, at: nat, b: byte, rest: seq<byte>)
    requires Encodable(r) && at < RECORD_SIZE && b != RecordBytes(r)[at]
    ensures ReadRecord(RecordBytes(r)[at := b] + rest).Corrupt?
  {
    hide RecordBytes;
    var t := RecordBytes(r)[at := b];
    assert t[at] != RecordBytes(r)[at];
    BurstIsCorrupt(r, t, at, 1, rest);
  }
}
