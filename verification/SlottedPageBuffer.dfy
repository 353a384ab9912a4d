/**
 The slotted page as the engine runs it: loops and offset writes that change a
 4096-byte buffer in place. Each method is the corresponding function of the
 buffer's bytes, failures included.
 */
module SlottedPageBuffer {
  import opened Bytes
  import opened Results
  import opened SlottedPage
  import opened SlottedPageFacts

  method CopyInto(d: array<byte>, at: nat, data: seq<byte>)
    requires at + |data| <= d.Length
    modifies d
    ensures d[..] == Splice(old(d[..]), at, data)
  {
    hide Encode;
    for k := 0 to |data|
      invariant forall j :: 0 <= j < d.Length ==> d[j] == if at <= j < at + k then data[j - at] else old(d[j])
    {
      d[at + k] := data[k];
    }
    assert d[..] == Splice(old(d[..]), at, data);
  }

  method WriteU16(d: array<byte>, at: nat, v: nat)
    requires at + 2 <= d.Length && v < 0x1_0000
    modifies d
    ensures d[..] == PutU16(old(d[..]), at, v)
  {
    d[at] := v % 256;
    d[at + 1] := v / 256 % 256;
    assert Encode(v, 2) == [v % 256, v / 256 % 256] by {
      assert Encode(v / 256, 1) == [v / 256 % 256] + Encode(v / 256 / 256, 0);
    }
  }

  method ReadU16(d: array<byte>, at: nat) returns (v: nat)
    requires at + 2 <= d.Length
    ensures v == U16(d[..], at)
  {
    var low: nat, high: nat := d[at], d[at + 1];
    v := low + 256 * high;
    assert d[..][at..at + 2] == [d[at], d[at + 1]];
    assert Decode([d[at], d[at + 1]]) == d[at] + 256 * Decode([d[at + 1]]);
  }

  method Init(d: array<byte>)
    requires d.Length == PAGE_SIZE
    modifies d
    ensures d[..] == EmptyPage()
  {
    hide Encode;
    for k := 0 to d.Length
      invariant forall j :: 0 <= j < k ==> d[j] == 0
    {
      d[k] := 0;
    }
    assert d[..] == Zeros(PAGE_SIZE);
    d[0], d[1], d[2], d[3] := 0x4E, 0x53, 0x50, 0x31;
    WriteU16(d, 4, VERSION);
    WriteU16(d, 6, 0);
    WriteU16(d, 8, HEADER_SIZE);
    WriteU16(d, 10, PAGE_SIZE);
    assert d[..12] == EmptyPage()[..12];
    assert d[..] == EmptyPage();
  }

  /** The validation loop accepts exactly the valid pages. */
  method Validate(d: array<byte>) returns (s: Status)
    requires d.Length == PAGE_SIZE
    ensures s == if Valid(d[..]) then Ok else Error(InvalidArgument)
  {
    hide Decode, U16;
    ghost var p: Page := d[..];
    if d[0] != 0x4E || d[1] != 0x53 || d[2] != 0x50 || d[3] != 0x31 {
      assert p[0] != MAGIC[0] || p[1] != MAGIC[1] || p[2] != MAGIC[2] || p[3] != MAGIC[3];
      return Error(InvalidArgument);
    }
    assert p[..4] == MAGIC;
    var version := ReadU16(d, 4);
    if version != VERSION { return Error(InvalidArgument); }
    var count := ReadU16(d, 6);
    var dirEnd := HEADER_SIZE + count * ENTRY_SIZE;
    if dirEnd > PAGE_SIZE { return Error(InvalidArgument); }
    var freeStart := ReadU16(d, 8);
    var freeEnd := ReadU16(d, 10);
    if freeStart < dirEnd || freeEnd < freeStart || freeEnd > PAGE_SIZE { return Error(InvalidArgument); }
    for i := 0 to count
      invariant forall j :: 0 <= j < i ==> SlotFits(p, j)
    {
      var offset := ReadU16(d, HEADER_SIZE + i * ENTRY_SIZE);
      var length := ReadU16(d, HEADER_SIZE + i * ENTRY_SIZE + 2);
      if length == 0 { continue; }
      if offset < freeEnd || offset + length > PAGE_SIZE {
        assert !SlotFits(p, i);
        return Error(InvalidArgument);
      }
    }
    return Ok;
  }

  method Insert(d: array<byte>, data: seq<byte>) returns (s: Status, slot: nat)
    requires d.Length == PAGE_SIZE
    modifies d
    ensures s == InsertStatus(old(d[..]), data)
    ensures d[..] == Apply(old(d[..]), Op.Insert(data))
    ensures s.Ok? ==> slot == SlotCount(old(d[..]))
  {
    hide Decode, Encode, Splice, U16, Valid, PutU16;
    ghost var p: Page := d[..];
    slot := 0xFFFF;
    if data == [] { return Error(InvalidArgument), slot; }
    if |data| > MAX_RECORD_SIZE { return Error(BufferFull), slot; }
    s := Validate(d);
    if s.Error? { return s, slot; }
    ValidBounds(p);
    var count := ReadU16(d, 6);
    var dirEnd := HEADER_SIZE + count * ENTRY_SIZE;
    var freeStart := ReadU16(d, 8);
    var freeEnd := ReadU16(d, 10);
    if freeEnd - freeStart < ENTRY_SIZE + |data| { return Error(BufferFull), slot; }
    var at := freeEnd - |data|;
    CopyInto(d, at, data);
    WriteU16(d, dirEnd, at);
    WriteU16(d, dirEnd + 2, |data|);
    WriteU16(d, 6, count + 1);
    WriteU16(d, 8, freeStart + ENTRY_SIZE);
    WriteU16(d, 10, at);
    assert d[..] == Inserted(p, data);
    return Ok, count;
  }

  /** Returns the record's bytes; the buffer is only read. */
  method Read(d: array<byte>, slot: nat) returns (s: Status, data: seq<byte>)
    requires d.Length == PAGE_SIZE
    ensures s == ReadStatus(d[..], slot)
    ensures s.Ok? ==> Valid(d[..]) && slot < |Slots(d[..])| && data == Slots(d[..])[slot]
  {
    hide Decode, U16;
    data := [];
    s := Validate(d);
    if s.Error? { return s, data; }
    var count := ReadU16(d, 6);
    if slot >= count { return Error(InvalidArgument), data; }
    var offset := ReadU16(d, HEADER_SIZE + slot * ENTRY_SIZE);
    var length := ReadU16(d, HEADER_SIZE + slot * ENTRY_SIZE + 2);
    if length == 0 { return Error(NotFound), data; }
    assert SlotFits(d[..], slot);
    data := d[offset..offset + length];
    SliceOfPrefix(d[..], d.Length, offset, offset + length);
  }

  method Update(d: array<byte>, slot: nat, data: seq<byte>) returns (s: Status)
    requires d.Length == PAGE_SIZE
    modifies d
    ensures s == UpdateStatus(old(d[..]), slot, data)
    ensures d[..] == Apply(old(d[..]), Op.Update(slot, data))
  {
    hide Decode, Encode, Splice, U16, Valid, PutU16;
    ghost var p: Page := d[..];
    if data == [] { return Error(InvalidArgument); }
    if |data| > MAX_RECORD_SIZE { return Error(BufferFull); }
    s := Validate(d);
    if s.Error? { return s; }
    ValidBounds(p);
    var count := ReadU16(d, 6);
    if slot >= count { return Error(InvalidArgument); }
    var entry := HEADER_SIZE + slot * ENTRY_SIZE;
    var offset := ReadU16(d, entry);
    var oldLen := ReadU16(d, entry + 2);
    if oldLen == 0 { return Error(NotFound); }
    LiveSlotBounds(p, slot);
    if |data| <= oldLen {
      CopyInto(d, offset, data);
      WriteU16(d, entry + 2, |data|);
      assert d[..] == Updated(p, slot, data);
      return Ok;
    }
    var freeStart := ReadU16(d, 8);
    var freeEnd := ReadU16(d, 10);
    if freeEnd - freeStart < |data| { return Error(BufferFull); }
    var at := freeEnd - |data|;
    CopyInto(d, at, data);
    WriteU16(d, entry, at);
    WriteU16(d, entry + 2, |data|);
    WriteU16(d, 10, at);
    assert d[..] == Updated(p, slot, data);
    return Ok;
  }

  method Delete(d: array<byte>, slot: nat) returns (s: Status)
    requires d.Length == PAGE_SIZE
    modifies d
    ensures s == ReadStatus(old(d[..]), slot)
    ensures d[..] == Apply(old(d[..]), Op.Delete(slot))
  {
    hide Decode, Encode, Splice, U16, Valid, PutU16;
    ghost var p: Page := d[..];
    s := Validate(d);
    if s.Error? { return s; }
    ValidBounds(p);
    var count := ReadU16(d, 6);
    if slot >= count { return Error(InvalidArgument); }
    var entry := HEADER_SIZE + slot * ENTRY_SIZE;
    var length := ReadU16(d, entry + 2);
    if length == 0 { return Error(NotFound); }
    WriteU16(d, entry, 0);
    WriteU16(d, entry + 2, 0);
    assert d[..] == Deleted(p, slot);
    return Ok;
  }

  /** The pre-pass: total live bytes, or an error as soon as they exceed the page. */
  method CountLive(d: array<byte>, count: nat) returns (s: Status, total: nat)
    requires d.Length == PAGE_SIZE && DirFits(count)
    ensures s.Ok? ==> total == LiveBytes(d[..], count)
    ensures s.Error? ==> s == Error(InvalidArgument) && LiveBytes(d[..], count) > PAGE_SIZE
  {
    hide U16;
    total := 0;
    for i := 0 to count
      invariant total == LiveBytes(d[..], i)
    {
      var length := ReadU16(d, HEADER_SIZE + i * ENTRY_SIZE + 2);
      if length == 0 { continue; }
      if total + length > PAGE_SIZE {
        LiveBytesMonotone(d[..], i + 1, count);
        return Error(InvalidArgument), total;
      }
      total := total + length;
    }
    s := Ok;
  }

  /** The packing loop: offsets are rewritten in the directory, bytes are staged in a scratch buffer. */
  method Pack(d: array<byte>, count: nat, scratch: array<byte>) returns (end: nat)
    requires d.Length == PAGE_SIZE && scratch.Length == PAGE_SIZE && d != scratch
    requires Valid(d[..]) && count == SlotCount(d[..]) && LiveBytes(d[..], count) <= PAGE_SIZE - FreeStart(d[..])
    modifies d, scratch
    ensures end == PAGE_SIZE - LiveBytes(old(d[..]), count)
    ensures d[..] == PackedDir(old(d[..]), count)
    ensures scratch[end..] == PackedRegion(old(d[..]), count)
  {
    hide U16, Encode, Decode, Valid, PutU16, Splice, Record;
    ghost var p: Page := d[..];
    end := PAGE_SIZE;
    ValidBounds(p);
    for i := 0 to count
      invariant LiveBytes(p, i) <= PAGE_SIZE && end == PAGE_SIZE - LiveBytes(p, i)
      invariant d[..] == PackedDir(p, i)
      invariant scratch[end..] == PackedRegion(p, i)
    {
      LiveBytesStep(p, count, i);
      PackedDirFields(p, i);
      SameEntry(p, d[..], HEADER_SIZE + ENTRY_SIZE * i, PAGE_SIZE, i);
      var offset := ReadU16(d, HEADER_SIZE + i * ENTRY_SIZE);
      var length := ReadU16(d, HEADER_SIZE + i * ENTRY_SIZE + 2);
      if length == 0 {
        EmptyRecord(p, i);
        continue;
      }
      LiveSlotBounds(p, i);
      end := end - length;
      var bytes := d[offset..offset + length];
      RecordBytesAt(p, d[..], i);
      ghost var staged := scratch[..];
      CopyInto(scratch, end, bytes);
      SplicedTail(staged, end, bytes);
      WriteU16(d, HEADER_SIZE + i * ENTRY_SIZE, end);
    }
  }

  lemma EmptyRecord(p: Page, i: nat)
    requires Valid(p) && i < SlotCount(p) && Length(p, i) == 0
    ensures PackedRegion(p, i + 1) == PackedRegion(p, i)
  {
    assert SlotFits(p, i);
  }

  /** The record region is untouched while the directory is rewritten. */
  lemma RecordBytesAt(p: Page, q: seq<byte>, i: nat)
    requires Valid(p) && i < SlotCount(p) && Length(p, i) != 0
    requires |q| == PAGE_SIZE && forall k :: DirEnd(p) <= k < PAGE_SIZE ==> q[k] == p[k]
    ensures Offset(p, i) + Length(p, i) <= PAGE_SIZE && SlotFits(p, i)
    ensures q[Offset(p, i)..Offset(p, i) + Length(p, i)] == Record(p, i)
  {
    hide U16;
    assert SlotFits(p, i);
  }

  lemma SplicedTail(s: seq<byte>, at: nat, b: seq<byte>)
    requires at + |b| <= |s|
    ensures Splice(s, at, b)[at..] == b + s[at + |b|..]
  {
  }

  method Compact(d: array<byte>) returns (s: Status)
    requires d.Length == PAGE_SIZE
    modifies d
    ensures s == CompactStatus(old(d[..]))
    ensures d[..] == Apply(old(d[..]), Op.Compact)
  {
    hide U16, Encode, Decode, Valid, PutU16, Splice, LiveBytes, PackedDir, PackedRegion;
    ghost var p: Page := d[..];
    s := Validate(d);
    if s.Error? { return s; }
    ValidBounds(p);
    var count := ReadU16(d, 6);
    var freeStart := ReadU16(d, 8);
    var total;
    s, total := CountLive(d, count);
    if s.Error? { return s; }
    if total > PAGE_SIZE - freeStart { return Error(InvalidArgument); }
    var scratch := new byte[PAGE_SIZE](_ => 0);
    var end := Pack(d, count, scratch);
    var region := scratch[end..];
    CopyInto(d, end, region);
    WriteU16(d, 10, end);
    CopyInto(d, freeStart, Zeros(end - freeStart));
    assert d[..] == Compacted(p);
    return Ok;
  }

  /** What a visitor sees: everything up to and including the record it stops at. */
  function Visited(items: seq<(nat, seq<byte>)>, goOn: (nat, seq<byte>) -> bool): seq<(nat, seq<byte>)> {
    if items == [] then []
    else if !goOn(items[0].0, items[0].1) then [items[0]]
    else [items[0]] + Visited(items[1..], goOn)
  }

  lemma {:induction false} VisitedMore(a: seq<(nat, seq<byte>)>, b: seq<(nat, seq<byte>)>,
                                       goOn: (nat, seq<byte>) -> bool)
    ensures (forall k :: 0 <= k < |a| ==> goOn(a[k].0, a[k].1)) ==> Visited(a + b, goOn) == a + Visited(b, goOn)
  {
    if a == [] {
      assert a + b == b;
    } else {
      VisitedMore(a[1..], b, goOn);
      assert (a + b)[1..] == a[1..] + b;
      assert a == [a[0]] + a[1..];
    }
  }

  /** Visits the live records in ascending slot order until the visitor stops. */
  method Scan(d: array<byte>, goOn: (nat, seq<byte>) -> bool) returns (s: Status, seen: seq<(nat, seq<byte>)>)
    requires d.Length == PAGE_SIZE
    ensures s == if Valid(d[..]) then Ok else Error(InvalidArgument)
    ensures s.Ok? ==> seen == Visited(LiveSlots(d[..], SlotCount(d[..])), goOn)
  {
    hide U16, Valid, Visited;
    seen := [];
    s := Validate(d);
    if s.Error? { return s, seen; }
    ghost var p: Page := d[..];
    ValidBounds(p);
    var count := ReadU16(d, 6);
    for i := 0 to count
      invariant seen == LiveSlots(p, i)
      invariant forall k :: 0 <= k < |seen| ==> goOn(seen[k].0, seen[k].1)
    {
      var offset := ReadU16(d, HEADER_SIZE + i * ENTRY_SIZE);
      var length := ReadU16(d, HEADER_SIZE + i * ENTRY_SIZE + 2);
      if length == 0 {
        assert LiveSlots(p, i + 1) == LiveSlots(p, i);
        continue;
      }
      LiveSlotBounds(p, i);
      RecordBytesAt(p, d[..], i);
      SliceOfPrefix(d[..], d.Length, offset, offset + length);
      var bytes := d[offset..offset + length];
      ghost var before := seen;
      seen := seen + [(i, bytes)];
      if !goOn(i, bytes) {
        StoppedHere(p, i, goOn, before);
        return s, seen;
      }
    }
    AllSeen(seen, goOn);
  }

  lemma AllSeen(items: seq<(nat, seq<byte>)>, goOn: (nat, seq<byte>) -> bool)
    requires forall k :: 0 <= k < |items| ==> goOn(items[k].0, items[k].1)
    ensures Visited(items, goOn) == items
  {
    VisitedMore(items, [], goOn);
    assert items + [] == items;
  }

  lemma {:induction false} LiveSlotsExtend(p: Page, i: nat, n: nat) returns (rest: seq<(nat, seq<byte>)>)
    requires Valid(p) && i <= n <= SlotCount(p)
    ensures LiveSlots(p, n) == LiveSlots(p, i) + rest
    decreases n - i
  {
    hide U16, Valid;
    if i == n {
      rest := [];
    } else {
      var front := LiveSlotsExtend(p, i, n - 1);
      rest := LiveSlots(p, n)[|LiveSlots(p, i)|..];
    }
  }

  lemma StoppedHere(p: Page, i: nat, goOn: (nat, seq<byte>) -> bool, before: seq<(nat, seq<byte>)>)
    requires Valid(p) && i < SlotCount(p) && Length(p, i) != 0 && SlotFits(p, i)
    requires before == LiveSlots(p, i) && forall k :: 0 <= k < |before| ==> goOn(before[k].0, before[k].1)
    requires !goOn(i, Record(p, i))
    ensures Visited(LiveSlots(p, SlotCount(p)), goOn) == before + [(i, Record(p, i))]
  {
    hide U16, Valid;
    ValidBounds(p);
    var rest := LiveSlotsExtend(p, i + 1, SlotCount(p));
    var item := (i, Record(p, i));
    assert LiveSlots(p, SlotCount(p)) == before + ([item] + rest);
    VisitedMore(before, [item] + rest, goOn);
    assert ([item] + rest)[0] == item;
  }
}
