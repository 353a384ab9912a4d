/**
 The slotted page refines its list of records: every operation on a page built
 from an empty one acts on the list at its own slot only, and compaction keeps
 every record on any page that passes validation.
 */
module SlottedPageFacts {
  import opened Bytes
  import opened Results
  import opened SlottedPage

  // ---- reading through partial changes ---------------------------------------

  /** The two pages hold the same bytes in [lo, hi). */
  predicate Same(p: Page, q: Page, lo: nat, hi: nat)
    requires lo <= hi <= PAGE_SIZE
  {
    forall k :: lo <= k < hi ==> q[k] == p[k]
  }

  lemma SameU16(p: Page, q: Page, lo: nat, hi: nat, at: nat)
    requires lo <= hi <= PAGE_SIZE && Same(p, q, lo, hi) && lo <= at && at + 2 <= hi
    ensures U16(q, at) == U16(p, at)
  {
    assert p[at..at + 2] == q[at..at + 2];
  }

  /** Slot i has the same entry on both pages. */
  lemma SameEntry(p: Page, q: Page, lo: nat, hi: nat, i: nat)
    requires lo <= hi <= PAGE_SIZE && Same(p, q, lo, hi)
    requires DirFits(i + 1) && lo <= HEADER_SIZE + ENTRY_SIZE * i && HEADER_SIZE + ENTRY_SIZE * (i + 1) <= hi
    ensures Offset(q, i) == Offset(p, i) && Length(q, i) == Length(p, i)
  {
    SameU16(p, q, lo, hi, HEADER_SIZE + ENTRY_SIZE * i);
    SameU16(p, q, lo, hi, HEADER_SIZE + ENTRY_SIZE * i + 2);
  }

  lemma SameMagic(p: Page, q: Page, hi: nat)
    requires 6 <= hi <= PAGE_SIZE && Same(p, q, 0, hi)
    ensures q[..4] == p[..4] && U16(q, 4) == U16(p, 4)
  {
    SameU16(p, q, 0, hi, 4);
  }

  // ---- the empty page --------------------------------------------------------

  lemma EmptyFields()
    ensures var p := EmptyPage();
            && p[..4] == MAGIC && U16(p, 4) == VERSION && SlotCount(p) == 0
            && FreeStart(p) == HEADER_SIZE && FreeEnd(p) == PAGE_SIZE
  {
    hide Encode, Decode;
    var p := EmptyPage();
    RadixValues();
    assert p[4..6] == Encode(VERSION, 2) && p[6..8] == Encode(0, 2);
    assert p[8..10] == Encode(HEADER_SIZE, 2) && p[10..12] == Encode(PAGE_SIZE, 2);
    DecodeEncode(VERSION, 2);
    DecodeEncode(0, 2);
    DecodeEncode(HEADER_SIZE, 2);
    DecodeEncode(PAGE_SIZE, 2);
  }

  lemma EmptySound()
    ensures Sound(EmptyPage()) && View(EmptyPage()) == Records([], PAGE_SIZE - HEADER_SIZE)
  {
    hide EmptyPage, U16;
    EmptyFields();
  }

  lemma ValidBounds(p: Page)
    requires Valid(p)
    ensures HEADER_SIZE <= DirEnd(p) <= FreeStart(p) <= FreeEnd(p) <= PAGE_SIZE
  {
  }

  lemma LiveSlotBounds(p: Page, slot: nat)
    requires Valid(p) && slot < SlotCount(p) && Length(p, slot) != 0
    ensures FreeEnd(p) <= Offset(p, slot) && Offset(p, slot) + Length(p, slot) <= PAGE_SIZE
  {
    assert SlotFits(p, slot);
  }

  // ---- insert ----------------------------------------------------------------

  lemma InsertBytes(p: Page, data: seq<byte>)
    requires InsertStatus(p, data).Ok?
    ensures var q := Inserted(p, data);
            && Same(p, q, 0, 6) && Same(p, q, 12, DirEnd(p)) && Same(p, q, FreeEnd(p), PAGE_SIZE)
            && q[FreeEnd(p) - |data|..FreeEnd(p)] == data
  {
    hide Encode, U16, Splice;
    var at := FreeEnd(p) - |data|;
    var q := Inserted(p, data);
    forall k | at <= k < FreeEnd(p)
      ensures q[k] == data[k - at]
    {
    }
  }

  lemma InsertFields(p: Page, data: seq<byte>)
    requires InsertStatus(p, data).Ok?
    ensures var q := Inserted(p, data);
            && SlotCount(q) == SlotCount(p) + 1 && FreeStart(q) == FreeStart(p) + ENTRY_SIZE
            && FreeEnd(q) == FreeEnd(p) - |data|
            && Offset(q, SlotCount(p)) == FreeEnd(p) - |data| && Length(q, SlotCount(p)) == |data|
  {
    hide Encode, Splice, Decode;
    var at := FreeEnd(p) - |data|;
    var p1 := Splice(p, at, data);
    var p2 := PutU16(p1, DirEnd(p), at);
    var p3 := PutU16(p2, DirEnd(p) + 2, |data|);
    var p4 := PutU16(p3, 6, SlotCount(p) + 1);
    var p5 := PutU16(p4, 8, FreeStart(p) + ENTRY_SIZE);
    hide U16, PutU16;
    PutU16Reads(p1, DirEnd(p), at);
    PutU16Reads(p2, DirEnd(p) + 2, |data|);
    PutU16Reads(p3, 6, SlotCount(p) + 1);
    PutU16Reads(p4, 8, FreeStart(p) + ENTRY_SIZE);
    PutU16Reads(p5, 10, at);
  }

  /** On any valid page an insert adds its record and keeps every other one; soundness carries over. */
  lemma InsertMeaning(p: Page, data: seq<byte>)
    requires InsertStatus(p, data).Ok?
    ensures var q := Inserted(p, data);
            && Valid(q) && Slots(q) == Slots(p) + [data]
            && FreeStart(q) == FreeStart(p) + ENTRY_SIZE && FreeEnd(q) == FreeEnd(p) - |data|
            && (Sound(p) ==> Sound(q))
  {
    hide Inserted, U16;
    var q := Inserted(p, data);
    InsertBytes(p, data);
    InsertFields(p, data);
    SameMagic(p, q, 6);
    var n := SlotCount(p);
    forall i | 0 <= i < n
      ensures Offset(q, i) == Offset(p, i) && Length(q, i) == Length(p, i) && SlotFits(q, i)
    {
      SameEntry(p, q, 12, DirEnd(p), i);
      assert SlotFits(p, i);
    }
    assert Valid(q);
    forall i | 0 <= i < n
      ensures Record(q, i) == Record(p, i)
    {
      assert SlotFits(p, i);
    }
    assert Record(q, n) == data;
    if Sound(p) {
      forall i, j | 0 <= i < j < SlotCount(q)
        ensures Apart(q, i, j)
      {
        if j < n {
          assert Apart(p, i, j);
        } else {
          assert SlotFits(p, i);
        }
      }
    }
  }

  // ---- delete ----------------------------------------------------------------

  lemma DeleteBytes(p: Page, slot: nat)
    requires ReadStatus(p, slot).Ok?
    ensures var q := Deleted(p, slot);
            var e := HEADER_SIZE + ENTRY_SIZE * slot;
            && Same(p, q, 0, e) && Same(p, q, e + 4, PAGE_SIZE)
            && Offset(q, slot) == 0 && Length(q, slot) == 0
  {
    hide Encode, Decode;
    var e := HEADER_SIZE + ENTRY_SIZE * slot;
    PutU16Reads(p, e, 0);
    PutU16Reads(PutU16(p, e, 0), e + 2, 0);
  }

  /** The entries around one changed slot. */
  lemma OtherEntries(p: Page, q: Page, slot: nat)
    requires Valid(p) && slot < SlotCount(p)
    requires Same(p, q, 12, HEADER_SIZE + ENTRY_SIZE * slot)
    requires Same(p, q, HEADER_SIZE + ENTRY_SIZE * (slot + 1), DirEnd(p))
    ensures forall i :: 0 <= i < SlotCount(p) && i != slot ==>
              Offset(q, i) == Offset(p, i) && Length(q, i) == Length(p, i)
  {
    hide U16;
    forall i | 0 <= i < SlotCount(p) && i != slot
      ensures Offset(q, i) == Offset(p, i) && Length(q, i) == Length(p, i)
    {
      if i < slot {
        SameEntry(p, q, 12, HEADER_SIZE + ENTRY_SIZE * slot, i);
      } else {
        SameEntry(p, q, HEADER_SIZE + ENTRY_SIZE * (slot + 1), DirEnd(p), i);
      }
    }
  }

  lemma SameHeader(p: Page, q: Page)
    requires Same(p, q, 0, 12)
    ensures q[..4] == p[..4] && U16(q, 4) == U16(p, 4)
    ensures SlotCount(q) == SlotCount(p) && FreeStart(q) == FreeStart(p) && FreeEnd(q) == FreeEnd(p)
  {
    SameMagic(p, q, 12);
    SameU16(p, q, 0, 12, 6);
    SameU16(p, q, 0, 12, 8);
    SameU16(p, q, 0, 12, 10);
  }

  lemma DeleteMeaning(p: Page, slot: nat)
    requires ReadStatus(p, slot).Ok?
    ensures var q := Deleted(p, slot);
            && Valid(q) && Slots(q) == Slots(p)[slot := []]
            && FreeStart(q) == FreeStart(p) && FreeEnd(q) == FreeEnd(p)
            && (Sound(p) ==> Sound(q))
  {
    hide Deleted, U16;
    var q := Deleted(p, slot);
    DeleteBytes(p, slot);
    SameHeader(p, q);
    OtherEntries(p, q, slot);
    forall i | 0 <= i < SlotCount(p)
      ensures SlotFits(q, i)
    {
      assert SlotFits(p, i);
    }
    assert Valid(q);
    forall i | 0 <= i < SlotCount(p) && i != slot
      ensures Record(q, i) == Record(p, i)
    {
      assert SlotFits(p, i);
    }
    if Sound(p) {
      forall i, j | 0 <= i < j < SlotCount(q)
        ensures Apart(q, i, j)
      {
        assert Apart(p, i, j);
      }
    }
  }

  // ---- update ----------------------------------------------------------------

  lemma UpdateInPlaceBytes(p: Page, slot: nat, data: seq<byte>)
    requires UpdateStatus(p, slot, data).Ok? && |data| <= Length(p, slot)
    ensures var q := Updated(p, slot, data);
            var e := HEADER_SIZE + ENTRY_SIZE * slot;
            var at := Offset(p, slot);
            && SlotFits(p, slot)
            && Same(p, q, 0, e + 2) && Same(p, q, e + 4, at) && Same(p, q, at + |data|, PAGE_SIZE)
            && q[at..at + |data|] == data && Length(q, slot) == |data|
  {
    hide Encode, Decode, Splice;
    assert SlotFits(p, slot);
    var e, at := HEADER_SIZE + ENTRY_SIZE * slot, Offset(p, slot);
    hide U16;
    var p1 := Splice(p, at, data);
    PutU16Reads(p1, e + 2, |data|);
    var q := Updated(p, slot, data);
    forall k | at <= k < at + |data|
      ensures q[k] == data[k - at]
    {
    }
  }

  lemma UpdateInPlace(p: Page, slot: nat, data: seq<byte>)
    requires UpdateStatus(p, slot, data).Ok? && |data| <= Length(p, slot)
    requires forall i :: 0 <= i < SlotCount(p) && i != slot ==> Apart(p, slot, i)
    ensures var q := Updated(p, slot, data);
            && Valid(q) && Slots(q) == Slots(p)[slot := data]
            && FreeStart(q) == FreeStart(p) && FreeEnd(q) == FreeEnd(p)
            && (Sound(p) ==> Sound(q))
  {
    hide Updated, U16;
    var q := Updated(p, slot, data);
    UpdateInPlaceBytes(p, slot, data);
    SameHeader(p, q);
    OtherEntries(p, q, slot);
    SameU16(p, q, 0, HEADER_SIZE + ENTRY_SIZE * slot + 2, HEADER_SIZE + ENTRY_SIZE * slot);
    assert Offset(q, slot) == Offset(p, slot);
    forall i | 0 <= i < SlotCount(p)
      ensures SlotFits(q, i)
    {
      assert SlotFits(p, i);
    }
    assert Valid(q);
    forall i | 0 <= i < SlotCount(p) && i != slot
      ensures Record(q, i) == Record(p, i)
    {
      assert SlotFits(p, i) && Apart(p, slot, i);
    }
    if Sound(p) {
      forall i, j | 0 <= i < j < SlotCount(q)
        ensures Apart(q, i, j)
      {
        assert Apart(p, i, j);
      }
    }
  }

  /** An in-place update of this slot, whatever the new bytes, changes no other slot. */
  ghost predicate Confined(p: Page, slot: nat)
    requires Valid(p) && slot < SlotCount(p)
  {
    forall data :: |data| == Length(p, slot) && UpdateStatus(p, slot, data).Ok? ==>
      var q := Updated(p, slot, data);
      Valid(q) && SlotCount(q) == SlotCount(p) && forall i :: 0 <= i < SlotCount(p) && i != slot ==>
          Record(q, i) == Record(p, i)
  }

  /**
   Validation lets overlapping records through, and then an in-place update
   writes into its neighbour: it is confined to its own slot exactly when the
   slot shares no byte with another live one.
   */
  lemma ConfinedExactly(p: Page, slot: nat)
    requires Valid(p) && slot < SlotCount(p) && Length(p, slot) > 0
    ensures Confined(p, slot) <==> forall i :: 0 <= i < SlotCount(p) && i != slot ==> Apart(p, slot, i)
  {
    hide Updated, U16;
    if forall i :: 0 <= i < SlotCount(p) && i != slot ==> Apart(p, slot, i) {
      forall data | |data| == Length(p, slot) && UpdateStatus(p, slot, data).Ok?
        ensures var q := Updated(p, slot, data);
                Valid(q) && SlotCount(q) == SlotCount(p) && forall i :: 0 <= i < SlotCount(p) && i != slot ==>
                    Record(q, i) == Record(p, i)
      {
        UpdateInPlace(p, slot, data);
        var q := Updated(p, slot, data);
        assert |Slots(q)| == |Slots(p)|;
        forall i | 0 <= i < SlotCount(p) && i != slot
          ensures Record(q, i) == Record(p, i)
        {
          assert Slots(q)[i] == Slots(p)[i];
        }
      }
    } else {
      var i :| 0 <= i < SlotCount(p) && i != slot && !Apart(p, slot, i);
      var data := OverlapShows(p, slot, i);
    }
  }

  /** New bytes for the slot that show in the overlapping one. */
  lemma OverlapShows(p: Page, slot: nat, i: nat) returns (data: seq<byte>)
    requires Valid(p) && slot < SlotCount(p) && i < SlotCount(p) && i != slot && !Apart(p, slot, i)
    ensures |data| == Length(p, slot) && UpdateStatus(p, slot, data).Ok?
    ensures var q := Updated(p, slot, data);
            SlotFits(q, i) && Record(q, i) != Record(p, i)
  {
    hide Updated, U16, SlotCount, FreeEnd, FreeStart, Offset, Length, Record;
    ValidBounds(p);
    assert SlotFits(p, slot) && SlotFits(p, i);
    var at, other := Offset(p, slot), Offset(p, i);
    var k := if at <= other then other else at;
    data := p[at..at + Length(p, slot)][k - at := if p[k] == 0 then 1 else 0];
    var q := Updated(p, slot, data);
    UpdateInPlaceBytes(p, slot, data);
    SameHeader(p, q);
    OtherEntries(p, q, slot);
    assert q[k] == q[at..at + |data|][k - at] == data[k - at] != p[k];
    ByteShows(p, q, i, k);
  }

  /** A byte of a slot that changed changes its record. */
  lemma ByteShows(p: Page, q: Page, i: nat, k: nat)
    requires DirFits(i + 1) && SlotFits(p, i) && Offset(p, i) <= k < Offset(p, i) + Length(p, i) && q[k] != p[k]
    requires Offset(q, i) == Offset(p, i) && Length(q, i) == Length(p, i) && FreeEnd(q) == FreeEnd(p)
    ensures SlotFits(q, i) && Record(q, i) != Record(p, i)
  {
    hide Offset, Length, FreeEnd;
    assert Record(q, i)[k - Offset(p, i)] == q[k] && Record(p, i)[k - Offset(p, i)] == p[k];
  }

  /** The page with the offset of one slot replaced. */
  function Redirected(p: Page, slot: nat, at: nat): Page
    requires DirFits(slot + 1)
  {
    PutU16(p, HEADER_SIZE + ENTRY_SIZE * slot, at)
  }

  /**
   Validation cannot see an overlap: point any live slot at the record of another
   one that is as long, and the page still passes although the two now share bytes.
   */
  lemma OverlapIsAdmitted(p: Page, i: nat, j: nat)
    requires Valid(p) && i < SlotCount(p) && j < SlotCount(p) && i != j && 0 < Length(p, j) <= Length(p, i)
    ensures var q := Redirected(p, j, Offset(p, i));
            Valid(q) && SlotCount(q) == SlotCount(p) && Length(q, j) > 0 && !Apart(q, j, i) && !Confined(q, j)
  {
    hide Decode, U16, PutU16, Confined;
    var e, q := HEADER_SIZE + ENTRY_SIZE * j, Redirected(p, j, Offset(p, i));
    assert SlotFits(p, i);
    ValidBounds(p);
    PutU16Reads(p, e, Offset(p, i));
    assert q[..4] == p[..4] by { RedirectedMagic(p, e, Offset(p, i)); }
    forall k | 0 <= k < SlotCount(p)
      ensures SlotFits(q, k) && Length(q, k) == Length(p, k) && (k != j ==> Offset(q, k) == Offset(p, k))
    {
      assert SlotFits(p, k);
    }
    ConfinedExactly(q, j);
  }

  lemma RedirectedMagic(p: Page, e: nat, v: nat)
    requires 12 <= e && e + 2 <= PAGE_SIZE
    ensures PutU16(p, e, v)[..4] == p[..4]
  {
    hide Encode;
  }

  /** Such a page: two records of one byte, the second pointed at the first. */
  lemma OverlapExists() returns (p: Page)
    ensures Valid(p) && SlotCount(p) == 2 && !Disjoint(p) && !Confined(p, 1)
  {
    hide EmptyPage, Inserted, U16, Redirected, Confined;
    EmptySound();
    var one := Inserted(EmptyPage(), [1]);
    InsertMeaning(EmptyPage(), [1]);
    var two := Inserted(one, [2]);
    InsertMeaning(one, [2]);
    assert Record(two, 0) == Slots(two)[0] == [1] && Record(two, 1) == Slots(two)[1] == [2];
    OverlapIsAdmitted(two, 0, 1);
    p := Redirected(two, 1, Offset(two, 0));
    assert !Apart(p, 0, 1);
  }

  lemma UpdateMovedBytes(p: Page, slot: nat, data: seq<byte>)
    requires UpdateStatus(p, slot, data).Ok? && |data| > Length(p, slot)
    ensures var q := Updated(p, slot, data);
            var e := HEADER_SIZE + ENTRY_SIZE * slot;
            var at := FreeEnd(p) - |data|;
            && Same(p, q, 0, 10) && Same(p, q, 12, e) && Same(p, q, e + 4, at) && Same(p, q, FreeEnd(p), PAGE_SIZE)
            && q[at..FreeEnd(p)] == data
  {
    hide Encode, U16, Splice;
    assert SlotFits(p, slot);
    var at := FreeEnd(p) - |data|;
    var q := Updated(p, slot, data);
    forall k | at <= k < FreeEnd(p)
      ensures q[k] == data[k - at]
    {
    }
  }

  lemma UpdateMovedFields(p: Page, slot: nat, data: seq<byte>)
    requires UpdateStatus(p, slot, data).Ok? && |data| > Length(p, slot)
    ensures var q := Updated(p, slot, data);
            && FreeEnd(q) == FreeEnd(p) - |data|
            && Offset(q, slot) == FreeEnd(p) - |data| && Length(q, slot) == |data|
  {
    hide Encode, Splice, Decode;
    assert SlotFits(p, slot);
    var e, at := HEADER_SIZE + ENTRY_SIZE * slot, FreeEnd(p) - |data|;
    var p1 := Splice(p, at, data);
    var p2 := PutU16(p1, e, at);
    var p3 := PutU16(p2, e + 2, |data|);
    hide U16, PutU16;
    PutU16Reads(p1, e, at);
    PutU16Reads(p2, e + 2, |data|);
    PutU16Reads(p3, 10, at);
  }

  lemma UpdateMoved(p: Page, slot: nat, data: seq<byte>)
    requires UpdateStatus(p, slot, data).Ok? && |data| > Length(p, slot)
    ensures var q := Updated(p, slot, data);
            && Valid(q) && Slots(q) == Slots(p)[slot := data]
            && FreeStart(q) == FreeStart(p) && FreeEnd(q) == FreeEnd(p) - |data|
            && (Sound(p) ==> Sound(q))
  {
    hide Updated, U16;
    var q := Updated(p, slot, data);
    UpdateMovedBytes(p, slot, data);
    UpdateMovedFields(p, slot, data);
    SameMagic(p, q, 10);
    SameU16(p, q, 0, 10, 6);
    SameU16(p, q, 0, 10, 8);
    OtherEntries(p, q, slot);
    forall i | 0 <= i < SlotCount(p)
      ensures SlotFits(q, i)
    {
      assert SlotFits(p, i);
    }
    assert Valid(q);
    forall i | 0 <= i < SlotCount(p) && i != slot
      ensures Record(q, i) == Record(p, i)
    {
      assert SlotFits(p, i);
    }
    if Sound(p) {
      forall i, j | 0 <= i < j < SlotCount(q)
        ensures Apart(q, i, j)
      {
        assert Apart(p, i, j) && SlotFits(p, i) && SlotFits(p, j);
      }
    }
  }

  // ---- compaction ------------------------------------------------------------

  lemma {:induction false} LiveBytesMonotone(p: Page, i: nat, n: nat)
    requires DirFits(n) && i <= n
    ensures LiveBytes(p, i) <= LiveBytes(p, n)
    decreases n - i
  {
    hide U16;
    if i < n {
      LiveBytesMonotone(p, i, n - 1);
    }
  }

  /** Rewriting offsets touches the directory only and gives live slot i the packed position. */
  lemma {:induction false} PackedDirFields(p: Page, n: nat)
    requires Valid(p) && n <= SlotCount(p) && LiveBytes(p, n) <= PAGE_SIZE
    ensures var q := PackedDir(p, n);
            && Same(p, q, 0, HEADER_SIZE) && Same(p, q, HEADER_SIZE + ENTRY_SIZE * n, PAGE_SIZE)
            && forall i :: 0 <= i < n ==>
                 && Length(q, i) == Length(p, i)
                 && (Length(p, i) != 0 ==>
                     LiveBytes(p, i + 1) <= PAGE_SIZE && Offset(q, i) == PAGE_SIZE - LiveBytes(p, i + 1))
  {
    hide Encode, Decode, Splice, U16;
    if n > 0 {
      PackedDirFields(p, n - 1);
      var q0 := PackedDir(p, n - 1);
      var e := HEADER_SIZE + ENTRY_SIZE * (n - 1);
      SameEntry(p, q0, e, PAGE_SIZE, n - 1);
      if Length(p, n - 1) != 0 {
        PutU16Reads(q0, e, PAGE_SIZE - LiveBytes(p, n));
        PackedDirStep(p, n, q0);
      }
    }
  }

  lemma PackedDirStep(p: Page, n: nat, q0: Page)
    requires Valid(p) && 0 < n <= SlotCount(p) && LiveBytes(p, n) <= PAGE_SIZE
    ensures var q := PutU16(q0, HEADER_SIZE + ENTRY_SIZE * (n - 1), PAGE_SIZE - LiveBytes(p, n));
            && Same(q0, q, 0, HEADER_SIZE + ENTRY_SIZE * (n - 1))
            && Same(q0, q, HEADER_SIZE + ENTRY_SIZE * (n - 1) + 2, PAGE_SIZE)
            && Length(q, n - 1) == Length(q0, n - 1)
            && forall i :: 0 <= i < n - 1 ==> Length(q, i) == Length(q0, i) && Offset(q, i) == Offset(q0, i)
  {
    hide Encode, Decode, LiveBytes, Splice;
    var e := HEADER_SIZE + ENTRY_SIZE * (n - 1);
    var q: Page := PutU16(q0, e, PAGE_SIZE - LiveBytes(p, n));
    assert Same(q0, q, 0, e) && Same(q0, q, e + 2, PAGE_SIZE);
    SameU16(q0, q, e + 2, PAGE_SIZE, e + 2);
    forall i | 0 <= i < n - 1
      ensures Length(q, i) == Length(q0, i) && Offset(q, i) == Offset(q0, i)
    {
      SameEntry(q0, q, 0, e, i);
    }
  }

  lemma LiveBytesStep(p: Page, n: nat, i: nat)
    requires DirFits(n) && i < n
    ensures LiveBytes(p, i) + Length(p, i) == LiveBytes(p, i + 1) <= LiveBytes(p, n)
  {
    hide U16;
    LiveBytesMonotone(p, i + 1, n);
  }

  /** Where record i ends up inside the packed region. */
  lemma {:induction false} PackedAt(p: Page, n: nat, i: nat)
    requires Valid(p) && i < n <= SlotCount(p)
    ensures LiveBytes(p, i) + Length(p, i) == LiveBytes(p, i + 1) <= LiveBytes(p, n)
    ensures PackedRegion(p, n)[LiveBytes(p, n) - LiveBytes(p, i + 1)..LiveBytes(p, n) - LiveBytes(p, i)] == Record(p, i)
  {
    hide U16, Record, LiveBytes;
    LiveBytesStep(p, n, i);
    LiveBytesStep(p, n, n - 1);
    var r, front := PackedRegion(p, n - 1), Record(p, n - 1);
    assert PackedRegion(p, n) == front + r;
    if i < n - 1 {
      PackedAt(p, n - 1, i);
      var lo, hi := LiveBytes(p, n - 1) - LiveBytes(p, i + 1), LiveBytes(p, n - 1) - LiveBytes(p, i);
      assert (front + r)[|front| + lo..|front| + hi] == r[lo..hi];
    } else {
      assert (front + r)[0..|front|] == front;
    }
  }

  lemma CompactBytes(p: Page)
    requires CompactStatus(p).Ok?
    ensures var q := Compacted(p);
            var end := PAGE_SIZE - LiveBytes(p, SlotCount(p));
            var dir := PackedDir(p, SlotCount(p));
            && FreeStart(p) <= end
            && Same(dir, q, 0, 10) && Same(dir, q, 12, FreeStart(p)) && FreeEnd(q) == end
            && q[end..] == PackedRegion(p, SlotCount(p))
            && forall k :: FreeStart(p) <= k < end ==> q[k] == 0
  {
    hide Encode, Decode, PackedDir, PackedRegion, LiveBytes, Splice;
    var n := SlotCount(p);
    var end := PAGE_SIZE - LiveBytes(p, n);
    var p1 := Splice(PackedDir(p, n), end, PackedRegion(p, n));
    PutU16Reads(p1, 10, end);
    var p2: Page := PutU16(p1, 10, end);
    var q := Compacted(p);
    assert q[10..12] == p2[10..12];
    assert forall k :: end <= k < PAGE_SIZE ==> q[k] == p1[k];
    assert q[end..] == p1[end..];
  }

  lemma CompactFields(p: Page)
    requires CompactStatus(p).Ok?
    ensures var q := Compacted(p);
            && q[..4] == p[..4] && U16(q, 4) == U16(p, 4) && SlotCount(q) == SlotCount(p)
            && FreeStart(q) == FreeStart(p)
            && forall i :: 0 <= i < SlotCount(p) ==>
                 && Length(q, i) == Length(p, i)
                 && (Length(p, i) != 0 ==>
                     LiveBytes(p, i + 1) <= PAGE_SIZE && Offset(q, i) == PAGE_SIZE - LiveBytes(p, i + 1))
  {
    hide U16, Compacted, PackedDir, PackedRegion, LiveBytes;
    var q, n := Compacted(p), SlotCount(p);
    var dir := PackedDir(p, n);
    CompactBytes(p);
    PackedDirFields(p, n);
    SameMagic(dir, q, 10);
    SameMagic(p, dir, HEADER_SIZE);
    SameU16(dir, q, 0, 10, 6);
    SameU16(dir, q, 0, 10, 8);
    SameU16(p, dir, 0, HEADER_SIZE, 6);
    SameU16(p, dir, 0, HEADER_SIZE, 8);
    forall i | 0 <= i < n
      ensures Length(q, i) == Length(dir, i) && Offset(q, i) == Offset(dir, i)
    {
      SameEntry(dir, q, 12, FreeStart(p), i);
    }
  }

  /** Compaction keeps every slot of any valid page, overlapping or not, and leaves the records apart and packed. */
  lemma CompactMeaning(p: Page)
    requires CompactStatus(p).Ok?
    ensures var q := Compacted(p);
            && Valid(q) && Slots(q) == Slots(p) && Disjoint(q)
            && FreeStart(q) == FreeStart(p) && FreeEnd(q) == PAGE_SIZE - LiveBytes(p, SlotCount(p))
            && forall k :: FreeStart(q) <= k < FreeEnd(q) ==> q[k] == 0
  {
    hide U16, Compacted, PackedDir, PackedRegion, LiveBytes, Record;
    var q, n := Compacted(p), SlotCount(p);
    CompactBytes(p);
    CompactFields(p);
    forall i | 0 <= i < n
      ensures SlotFits(q, i) && Record(q, i) == Record(p, i)
    {
      CompactSlot(p, i);
    }
    assert Valid(q);
    forall i, j | 0 <= i < j < n
      ensures Apart(q, i, j)
    {
      LiveBytesStep(p, n, i);
      LiveBytesStep(p, n, j);
      LiveBytesMonotone(p, i + 1, j);
    }
  }

  lemma CompactSlot(p: Page, i: nat)
    requires CompactStatus(p).Ok? && i < SlotCount(p)
    requires var q := Compacted(p);
             && Length(q, i) == Length(p, i) && FreeEnd(q) == PAGE_SIZE - LiveBytes(p, SlotCount(p))
             && q[FreeEnd(q)..] == PackedRegion(p, SlotCount(p))
             && (Length(p, i) != 0 ==>
                 LiveBytes(p, i + 1) <= PAGE_SIZE && Offset(q, i) == PAGE_SIZE - LiveBytes(p, i + 1))
    ensures SlotFits(p, i) && SlotFits(Compacted(p), i) && Record(Compacted(p), i) == Record(p, i)
  {
    hide U16, Compacted, PackedRegion, LiveBytes;
    var q, n := Compacted(p), SlotCount(p);
    PackedAt(p, n, i);
    assert SlotFits(p, i);
    if Length(p, i) != 0 {
      var total, lo, hi := LiveBytes(p, n), LiveBytes(p, n) - LiveBytes(p, i + 1), LiveBytes(p, n) - LiveBytes(p, i);
      SliceOfSuffix(q, PAGE_SIZE - total, lo, hi);
    }
  }

  // ---- disjoint records fit: counting the bytes they cover ---------------------

  function Range(lo: int, hi: int): (s: set<int>)
    ensures forall k :: k in s <==> lo <= k < hi
    decreases hi - lo
  {
    if lo >= hi then {} else Range(lo, hi - 1) + {hi - 1}
  }

  lemma {:induction false} RangeSize(lo: int, hi: int)
    requires lo <= hi
    ensures |Range(lo, hi)| == hi - lo
    decreases hi - lo
  {
    if lo < hi {
      RangeSize(lo, hi - 1);
    }
  }

  /** The byte positions of slot i. */
  function Cells(p: Page, i: nat): set<int>
    requires DirFits(i + 1)
  {
    Range(Offset(p, i), Offset(p, i) + Length(p, i))
  }

  function Covered(p: Page, n: nat): set<int>
    requires DirFits(n)
  {
    if n == 0 then {} else Covered(p, n - 1) + Cells(p, n - 1)
  }

  lemma {:induction false} CoveredBy(p: Page, n: nat, k: int) returns (i: nat)
    requires DirFits(n) && k in Covered(p, n)
    ensures i < n && k in Cells(p, i)
  {
    hide U16;
    if k in Cells(p, n - 1) {
      i := n - 1;
    } else {
      i := CoveredBy(p, n - 1, k);
    }
  }

  lemma CoveredApart(p: Page, n: nat)
    requires Valid(p) && Disjoint(p) && n < SlotCount(p)
    ensures Covered(p, n) !! Cells(p, n)
  {
    hide U16, Covered;
    forall k | k in Covered(p, n)
      ensures k !in Cells(p, n)
    {
      var i := CoveredBy(p, n, k);
      assert Apart(p, i, n);
    }
  }

  lemma {:induction false} CoveredSize(p: Page, n: nat)
    requires Valid(p) && Disjoint(p) && n <= SlotCount(p)
    ensures |Covered(p, n)| == LiveBytes(p, n)
  {
    hide U16, Range, Disjoint, SlotFits;
    if n > 0 {
      CoveredSize(p, n - 1);
      RangeSize(Offset(p, n - 1), Offset(p, n - 1) + Length(p, n - 1));
      CoveredApart(p, n - 1);
    }
  }

  lemma {:induction false} CoveredInside(p: Page, n: nat)
    requires Valid(p) && n <= SlotCount(p)
    ensures Covered(p, n) <= Range(FreeEnd(p), PAGE_SIZE)
  {
    hide U16;
    if n > 0 {
      CoveredInside(p, n - 1);
      assert SlotFits(p, n - 1);
    }
  }

  lemma SubsetSize(a: set<int>, b: set<int>)
    requires a <= b
    ensures |a| <= |b|
  {
    assert b == a + (b - a);
  }

  /** Disjoint records inside the record region never exceed it, so compaction has room. */
  lemma LiveFits(p: Page)
    requires Valid(p) && Disjoint(p)
    ensures LiveBytes(p, SlotCount(p)) <= PAGE_SIZE - FreeEnd(p)
    ensures CompactStatus(p).Ok?
  {
    hide U16, LiveBytes, Covered, Range;
    CoveredSize(p, SlotCount(p));
    CoveredInside(p, SlotCount(p));
    RangeSize(FreeEnd(p), PAGE_SIZE);
    SubsetSize(Covered(p, SlotCount(p)), Range(FreeEnd(p), PAGE_SIZE));
  }

  // ---- refinement ------------------------------------------------------------

  lemma {:induction false} TotalIsLive(p: Page, n: nat)
    requires Valid(p) && n <= SlotCount(p)
    ensures Total(Slots(p)[..n]) == LiveBytes(p, n)
  {
    hide U16, Record;
    if n > 0 {
      TotalIsLive(p, n - 1);
      assert Slots(p)[..n][..n - 1] == Slots(p)[..n - 1];
    }
  }

  lemma CompactView(p: Page)
    requires Sound(p)
    ensures CompactStatus(p).Ok? && Sound(Compacted(p)) && View(Compacted(p)) == SpecApply(View(p), Compact)
  {
    hide U16, LiveBytes, Compacted, Record, Total;
    LiveFits(p);
    CompactMeaning(p);
    TotalIsLive(p, SlotCount(p));
    assert Slots(p)[..SlotCount(p)] == Slots(p);
  }

  /**
   One operation on a sound page: it reports what the list of records says,
   keeps the page sound, and changes the list as specified.
   */
  lemma OpRefines(p: Page, op: Op)
    requires Sound(p)
    ensures Sound(Apply(p, op))
    ensures StatusOf(p, op) == SpecStatus(View(p), op)
    ensures View(Apply(p, op)) == SpecApply(View(p), op)
  {
    hide U16, LiveBytes, Compacted, Inserted, Updated, Deleted, Record, Total;
    match op
    case Insert(data) =>
      if InsertStatus(p, data).Ok? { InsertMeaning(p, data); }
    case Update(slot, data) =>
      if UpdateStatus(p, slot, data).Ok? {
        if |data| <= Length(p, slot) {
          ApartFromAll(p, slot);
          UpdateInPlace(p, slot, data);
        } else {
          UpdateMoved(p, slot, data);
        }
      }
    case Delete(slot) =>
      if ReadStatus(p, slot).Ok? { DeleteMeaning(p, slot); }
    case Compact =>
      CompactView(p);
  }

  lemma ApartFromAll(p: Page, slot: nat)
    requires Valid(p) && Disjoint(p) && slot < SlotCount(p)
    ensures forall i :: 0 <= i < SlotCount(p) && i != slot ==> Apart(p, slot, i)
  {
    hide U16;
    forall i | 0 <= i < SlotCount(p) && i != slot
      ensures Apart(p, slot, i)
    {
      if i < slot {
        assert Apart(p, i, slot);
      } else {
        assert Apart(p, slot, i);
      }
    }
  }

  function Run(p: Page, ops: seq<Op>): Page
    decreases |ops|
  {
    if ops == [] then p else Run(Apply(p, ops[0]), ops[1..])
  }

  function SpecRun(a: Records, ops: seq<Op>): Records
    decreases |ops|
  {
    if ops == [] then a else SpecRun(SpecApply(a, ops[0]), ops[1..])
  }

  /** Every run of operations refines the same run on the list of records. */
  lemma {:induction false} RunRefines(p: Page, ops: seq<Op>)
    requires Sound(p)
    ensures Sound(Run(p, ops)) && View(Run(p, ops)) == SpecRun(View(p), ops)
    decreases |ops|
  {
    hide Apply, SpecApply, Sound, View;
    if ops != [] {
      OpRefines(p, ops[0]);
      RunRefines(Apply(p, ops[0]), ops[1..]);
    } else {
      SoundIsValid(p);
    }
  }

  lemma SoundIsValid(p: Page)
    requires Sound(p)
    ensures Valid(p)
  {
  }

  /**
   Pages built from an empty one: validation accepts them, and slot ids are
   stable. A slot keeps its record unless an operation names it, and is never
   handed out again.
   */
  lemma RunFromEmpty(ops: seq<Op>)
    ensures Sound(Run(EmptyPage(), ops))
    ensures View(Run(EmptyPage(), ops)) == SpecRun(Records([], PAGE_SIZE - HEADER_SIZE), ops)
  {
    EmptySound();
    RunRefines(EmptyPage(), ops);
  }

  lemma {:induction false} SlotsAreStable(a: Records, ops: seq<Op>, i: nat)
    requires i < |a.slots|
    requires forall k :: 0 <= k < |ops| ==>
              !(ops[k].Update? && ops[k].slot == i) && !(ops[k].Delete? && ops[k].slot == i)
    ensures i < |SpecRun(a, ops).slots| && SpecRun(a, ops).slots[i] == a.slots[i]
    decreases |ops|
  {
    if ops != [] {
      SlotsAreStable(SpecApply(a, ops[0]), ops[1..], i);
    }
  }

  /** A deleted slot stays deleted: inserts take new slots and updates refuse it. */
  lemma {:induction false} DeletedStaysDeleted(a: Records, ops: seq<Op>, i: nat)
    requires i < |a.slots| && a.slots[i] == []
    ensures i < |SpecRun(a, ops).slots| && SpecRun(a, ops).slots[i] == []
    decreases |ops|
  {
    if ops != [] {
      DeletedStaysDeleted(SpecApply(a, ops[0]), ops[1..], i);
    }
  }
}
