/**
 Variable-length records packed into one 4096-byte page: a header, a slot
 directory growing up and a record region growing down. The operations are
 functions on the page's bytes; on every page an operation sequence can build
 from an empty one they refine a plain list of records with stable slot ids.
 */
module SlottedPage {
  import opened Bytes
  import opened Results

  const HEADER_SIZE: nat := 16
  const ENTRY_SIZE: nat := 4
  const VERSION: nat := 1
  const MAX_RECORD_SIZE: nat := 4076
  const MAGIC: seq<byte> := [0x4E, 0x53, 0x50, 0x31]

  // ---- layout ----------------------------------------------------------------

  function SlotCount(p: Page): nat { U16(p, 6) }

  function FreeStart(p: Page): nat { U16(p, 8) }

  function FreeEnd(p: Page): nat { U16(p, 10) }

  function DirEnd(p: Page): nat { HEADER_SIZE + ENTRY_SIZE * SlotCount(p) }

  /** The directory's n entries lie on the page. */
  predicate DirFits(n: nat) {
    HEADER_SIZE + ENTRY_SIZE * n <= PAGE_SIZE
  }

  function Offset(p: Page, i: nat): nat
    requires DirFits(i + 1)
  {
    U16(p, HEADER_SIZE + ENTRY_SIZE * i)
  }

  function Length(p: Page, i: nat): nat
    requires DirFits(i + 1)
  {
    U16(p, HEADER_SIZE + ENTRY_SIZE * i + 2)
  }

  /** A live slot's bytes lie inside the record region. */
  predicate SlotFits(p: Page, i: nat)
    requires DirFits(i + 1)
  {
    Length(p, i) != 0 ==> FreeEnd(p) <= Offset(p, i) && Offset(p, i) + Length(p, i) <= PAGE_SIZE
  }

  /** Exactly what validation checks; it does not look for overlapping records. */
  predicate Valid(p: Page) {
    && p[..4] == MAGIC && U16(p, 4) == VERSION
    && DirFits(SlotCount(p))
    && DirEnd(p) <= FreeStart(p) <= FreeEnd(p) <= PAGE_SIZE
    && forall i :: 0 <= i < SlotCount(p) ==> SlotFits(p, i)
  }

  /** The bytes of slot i; the empty sequence for a deleted one. */
  function Record(p: Page, i: nat): (r: seq<byte>)
    requires DirFits(i + 1) && SlotFits(p, i)
    ensures |r| == Length(p, i)
  {
    if Length(p, i) == 0 then [] else p[Offset(p, i)..Offset(p, i) + Length(p, i)]
  }

  /** The page's meaning: the record of every slot ever handed out. */
  function Slots(p: Page): (s: seq<seq<byte>>)
    requires Valid(p)
    ensures |s| == SlotCount(p)
    ensures forall i :: 0 <= i < |s| ==> s[i] == Record(p, i)
  {
    seq(SlotCount(p), i requires 0 <= i < SlotCount(p) => Record(p, i))
  }

  /** Two slots share no byte. */
  predicate Apart(p: Page, i: nat, j: nat)
    requires DirFits(i + 1) && DirFits(j + 1)
  {
    || Length(p, i) == 0 || Length(p, j) == 0
    || Offset(p, i) + Length(p, i) <= Offset(p, j) || Offset(p, j) + Length(p, j) <= Offset(p, i)
  }

  predicate Disjoint(p: Page)
    requires Valid(p)
  {
    forall i, j :: 0 <= i < j < SlotCount(p) ==> Apart(p, i, j)
  }

  /** What operations keep, beyond what validation checks. */
  predicate Sound(p: Page) {
    Valid(p) && Disjoint(p) && FreeStart(p) == DirEnd(p)
  }

  // ---- operations ------------------------------------------------------------

  function EmptyPage(): Page {
    MAGIC + Encode(VERSION, 2) + Encode(0, 2) + Encode(HEADER_SIZE, 2) + Encode(PAGE_SIZE, 2) + Zeros(4084)
  }

  function InsertStatus(p: Page, data: seq<byte>): Status {
    if data == [] then Error(InvalidArgument)
    else if |data| > MAX_RECORD_SIZE then Error(BufferFull)
    else if !Valid(p) then Error(InvalidArgument)
    else if FreeEnd(p) - FreeStart(p) < ENTRY_SIZE + |data| then Error(BufferFull)
    else Ok
  }

  /** The record goes below the lowest one, its entry behind the last one. */
  function Inserted(p: Page, data: seq<byte>): Page
    requires InsertStatus(p, data).Ok?
  {
    var at := FreeEnd(p) - |data|;
    var p1 := Splice(p, at, data);
    var p2 := PutU16(p1, DirEnd(p), at);
    var p3 := PutU16(p2, DirEnd(p) + 2, |data|);
    var p4 := PutU16(p3, 6, SlotCount(p) + 1);
    var p5 := PutU16(p4, 8, FreeStart(p) + ENTRY_SIZE);
    PutU16(p5, 10, at)
  }

  function ReadStatus(p: Page, slot: nat): Status {
    if !Valid(p) then Error(InvalidArgument)
    else if slot >= SlotCount(p) then Error(InvalidArgument)
    else if Length(p, slot) == 0 then Error(NotFound)
    else Ok
  }

  function UpdateStatus(p: Page, slot: nat, data: seq<byte>): Status {
    if data == [] then Error(InvalidArgument)
    else if |data| > MAX_RECORD_SIZE then Error(BufferFull)
    else if ReadStatus(p, slot).Error? then ReadStatus(p, slot)
    else if |data| > Length(p, slot) && FreeEnd(p) - FreeStart(p) < |data| then Error(BufferFull)
    else Ok
  }

  /** In place when the record does not grow, otherwise moved below the lowest record. */
  function Updated(p: Page, slot: nat, data: seq<byte>): Page
    requires UpdateStatus(p, slot, data).Ok?
  {
    var entry := HEADER_SIZE + ENTRY_SIZE * slot;
    assert SlotFits(p, slot);
    if |data| <= Length(p, slot) then
      PutU16(Splice(p, Offset(p, slot), data), entry + 2, |data|)
    else
      var at := FreeEnd(p) - |data|;
      var p1 := Splice(p, at, data);
      var p2 := PutU16(p1, entry, at);
      var p3 := PutU16(p2, entry + 2, |data|);
      PutU16(p3, 10, at)
  }

  /** A tombstone: offset and length zero. */
  function Deleted(p: Page, slot: nat): Page
    requires ReadStatus(p, slot).Ok?
  {
    PutU16(PutU16(p, HEADER_SIZE + ENTRY_SIZE * slot, 0), HEADER_SIZE + ENTRY_SIZE * slot + 2, 0)
  }

  /** Live bytes in the first n slots. */
  function LiveBytes(p: Page, n: nat): nat
    requires DirFits(n)
  {
    if n == 0 then 0 else LiveBytes(p, n - 1) + Length(p, n - 1)
  }

  function CompactStatus(p: Page): Status {
    if !Valid(p) then Error(InvalidArgument)
    else if LiveBytes(p, SlotCount(p)) > PAGE_SIZE - FreeStart(p) then Error(InvalidArgument)
    else Ok
  }

  /** The records of the first n slots packed downwards from the end of the page. */
  function PackedRegion(p: Page, n: nat): (r: seq<byte>)
    requires Valid(p) && n <= SlotCount(p)
    ensures |r| == LiveBytes(p, n)
  {
    if n == 0 then [] else Record(p, n - 1) + PackedRegion(p, n - 1)
  }

  /** The page with the offsets of the first n live slots rewritten for the packed region. */
  function PackedDir(p: Page, n: nat): Page
    requires Valid(p) && n <= SlotCount(p) && LiveBytes(p, n) <= PAGE_SIZE
  {
    if n == 0 then p
    else if Length(p, n - 1) == 0 then PackedDir(p, n - 1)
    else PutU16(PackedDir(p, n - 1), HEADER_SIZE + ENTRY_SIZE * (n - 1), PAGE_SIZE - LiveBytes(p, n))
  }

  function Compacted(p: Page): Page
    requires CompactStatus(p).Ok?
  {
    var n := SlotCount(p);
    var end := PAGE_SIZE - LiveBytes(p, n);
    var p1 := Splice(PackedDir(p, n), end, PackedRegion(p, n));
    var p2 := PutU16(p1, 10, end);
    Splice(p2, FreeStart(p), Zeros(end - FreeStart(p)))
  }

  /** The live slots among the first n, in slot order. */
  function LiveSlots(p: Page, n: nat): seq<(nat, seq<byte>)>
    requires Valid(p) && n <= SlotCount(p)
  {
    if n == 0 then []
    else LiveSlots(p, n - 1) + if Length(p, n - 1) == 0 then [] else [(n - 1, Record(p, n - 1))]
  }

  // ---- the plain list they refine --------------------------------------------

  datatype Op =
    | Insert(data: seq<byte>)
    | Update(slot: nat, data: seq<byte>)
    | Delete(slot: nat)
    | Compact

  function StatusOf(p: Page, op: Op): Status {
    match op
    case Insert(data) => InsertStatus(p, data)
    case Update(slot, data) => UpdateStatus(p, slot, data)
    case Delete(slot) => ReadStatus(p, slot)
    case Compact => CompactStatus(p)
  }

  /** A failed operation leaves every byte alone. */
  function Apply(p: Page, op: Op): Page {
    if StatusOf(p, op).Error? then p
    else
      match op
      case Insert(data) => Inserted(p, data)
      case Update(slot, data) => Updated(p, slot, data)
      case Delete(slot) => Deleted(p, slot)
      case Compact => Compacted(p)
  }

  /** The records by slot and the contiguous free bytes. */
  datatype Records = Records(slots: seq<seq<byte>>, free: int)

  function View(p: Page): Records
    requires Valid(p)
  {
    Records(Slots(p), FreeEnd(p) - FreeStart(p))
  }

  function Total(slots: seq<seq<byte>>): nat {
    if slots == [] then 0 else Total(slots[..|slots| - 1]) + |slots[|slots| - 1]|
  }

  function SpecStatus(a: Records, op: Op): Status {
    match op
    case Insert(data) =>
      if data == [] then Error(InvalidArgument)
      else if |data| > MAX_RECORD_SIZE then Error(BufferFull)
      else if a.free < ENTRY_SIZE + |data| then Error(BufferFull)
      else Ok
    case Update(slot, data) =>
      if data == [] then Error(InvalidArgument)
      else if |data| > MAX_RECORD_SIZE then Error(BufferFull)
      else if slot >= |a.slots| then Error(InvalidArgument)
      else if a.slots[slot] == [] then Error(NotFound)
      else if |data| > |a.slots[slot]| && a.free < |data| then Error(BufferFull)
      else Ok
    case Delete(slot) =>
      if slot >= |a.slots| then Error(InvalidArgument)
      else if a.slots[slot] == [] then Error(NotFound)
      else Ok
    case Compact => Ok
  }

  function SpecApply(a: Records, op: Op): Records {
    if SpecStatus(a, op).Error? then a
    else
      match op
      case Insert(data) => Records(a.slots + [data], a.free - ENTRY_SIZE - |data|)
      case Update(slot, data) =>
        Records(a.slots[slot := data], if |data| <= |a.slots[slot]| then a.free else a.free - |data|)
      case Delete(slot) => a.(slots := a.slots[slot := []])
      case Compact => a.(free := PAGE_SIZE - HEADER_SIZE - ENTRY_SIZE * |a.slots| - Total(a.slots))
  }
}
