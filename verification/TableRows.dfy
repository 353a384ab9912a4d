/**
 What a heap table means: a map from record ids to bytes, spread over the data
 pages its directory lists. Each page operation is an operation of this map.
 */
module TableRows {
  import opened Bytes
  import opened Results
  import SP = SlottedPage
  import SlottedPageFacts

  datatype RecordId = RecordId(page: nat, slot: nat)

  const INVALID_SLOT: nat := 0xFFFF

  /** The id was handed out by an insert, whether or not its record still lives. */
  predicate Issued(V: seq<Page>, ids: seq<nat>, id: RecordId) {
    id.page in ids && id.page < |V| && SP.Valid(V[id.page]) && id.slot < SP.SlotCount(V[id.page])
  }

  /** The table's map: the record an id names. */
  function Lookup(V: seq<Page>, ids: seq<nat>, id: RecordId): Option<seq<byte>> {
    if Issued(V, ids, id) && SP.Slots(V[id.page])[id.slot] != [] then Some(SP.Slots(V[id.page])[id.slot]) else None
  }

  /**
   How a request about an id ends: a deleted record or a page of another table
   is not found, any other id is refused.
   */
  function RowStatus(V: seq<Page>, ids: seq<nat>, id: RecordId): Status {
    if Lookup(V, ids, id).Some? then Ok
    else if id.page == INVALID_ID || id.slot == INVALID_SLOT || (id.page in ids && !Issued(V, ids, id))
      then Error(InvalidArgument)
    else Error(NotFound)
  }

  predicate Room(V: seq<Page>, page: nat, data: seq<byte>) {
    page < |V| && SP.InsertStatus(V[page], data).Ok?
  }

  /** Some listed page that can be had takes the record. */
  predicate AnyRoom(V: seq<Page>, ids: seq<nat>, data: seq<byte>, reach: set<nat>) {
    exists k :: 0 <= k < |ids| && ids[k] in reach && Room(V, ids[k], data)
  }

  /** Where a record goes: the page used last if it takes it, else the first listed one that does. */
  predicate FirstFit(V: seq<Page>, ids: seq<nat>, last: nat, data: seq<byte>, reach: set<nat>, page: nat) {
    if last in ids && last in reach && Room(V, last, data) then page == last
    else exists k :: 0 <= k < |ids| && ids[k] == page && page in reach && Room(V, page, data)
                     && forall j :: 0 <= j < k ==> !(ids[j] in reach && Room(V, ids[j], data))
  }

  /** The answer when the id's page has to be had first. */
  function Reached(ids: seq<nat>, id: RecordId, reach: set<nat>, answer: Status): Status {
    if id.page in ids && id.slot != INVALID_SLOT && id.page !in reach then Error(BufferFull) else answer
  }

  /** The data pages are there and sound, none listed twice. */
  predicate Pages(V: seq<Page>, ids: seq<nat>) {
    && (forall i :: 0 <= i < |ids| ==> ids[i] < |V| && SP.Sound(V[ids[i]]))
    && (forall i, j :: 0 <= i < j < |ids| ==> ids[i] != ids[j])
  }

  /** The two tables have the same ids and the same records. */
  ghost predicate SameRows(V: seq<Page>, ids: seq<nat>, W: seq<Page>, jds: seq<nat>) {
    forall id: RecordId :: Issued(W, jds, id) == Issued(V, ids, id) && Lookup(W, jds, id) == Lookup(V, ids, id)
  }

  /** The second table is the first with one record changed. */
  ghost predicate OneRow(V: seq<Page>, ids: seq<nat>, W: seq<Page>, jds: seq<nat>, at: RecordId,
                         record: Option<seq<byte>>) {
    forall id: RecordId :: Lookup(W, jds, id) == if id == at then record else Lookup(V, ids, id)
  }

  /** A new id with its record, and nothing else. */
  ghost predicate RowAdded(V: seq<Page>, ids: seq<nat>, W: seq<Page>, jds: seq<nat>, at: RecordId, record: seq<byte>) {
    && !Issued(V, ids, at) && OneRow(V, ids, W, jds, at, Some(record))
    && forall id: RecordId :: Issued(W, jds, id) <==> Issued(V, ids, id) || id == at
  }

  /** The record of one issued id changed; no id was issued. */
  ghost predicate RowChanged(V: seq<Page>, ids: seq<nat>, W: seq<Page>, jds: seq<nat>, at: RecordId,
                             record: Option<seq<byte>>) {
    && Lookup(V, ids, at).Some? && OneRow(V, ids, W, jds, at, record)
    && forall id: RecordId :: Issued(W, jds, id) <==> Issued(V, ids, id)
  }

  lemma RowsFrame(V: seq<Page>, ids: seq<nat>, W: seq<Page>)
    requires |V| <= |W| && Pages(V, ids) && forall i :: 0 <= i < |ids| ==> W[ids[i]] == V[ids[i]]
    ensures SameRows(V, ids, W, ids)
  {
    hide SP.Valid, SP.SlotCount, SP.Slots, SP.Sound;
    forall id: RecordId
      ensures Issued(W, ids, id) == Issued(V, ids, id) && Lookup(W, ids, id) == Lookup(V, ids, id)
    {
      if id.page in ids {
        var i :| 0 <= i < |ids| && ids[i] == id.page;
        assert W[ids[i]] == V[ids[i]];
      }
    }
  }

  /** What one page operation does to the slots of its page. */
  lemma PageOp(p: Page, op: SP.Op)
    requires SP.Sound(p) && SP.StatusOf(p, op).Ok? && !op.Compact?
    ensures var q := SP.Apply(p, op);
            && SP.Sound(q) && SP.Valid(q) && SP.Valid(p)
            && (op.Insert? ==> op.data != [] && SP.Slots(q) == SP.Slots(p) + [op.data])
            && (op.Update? ==>
                && op.slot < |SP.Slots(p)| && SP.Slots(p)[op.slot] != [] && op.data != []
                && SP.Slots(q) == SP.Slots(p)[op.slot := op.data])
            && (op.Delete? ==>
                op.slot < |SP.Slots(p)| && SP.Slots(p)[op.slot] != [] && SP.Slots(q) == SP.Slots(p)[op.slot := []])
  {
    hide SP.Apply, SP.Valid, SP.Slots, SP.Disjoint;
    SlottedPageFacts.OpRefines(p, op);
  }

  lemma InsertRow(V: seq<Page>, ids: seq<nat>, p: nat, data: seq<byte>)
    requires Pages(V, ids) && p in ids && p < |V| && SP.InsertStatus(V[p], data).Ok?
    ensures SP.Sound(SP.Inserted(V[p], data))
    ensures RowAdded(V, ids, V[p := SP.Inserted(V[p], data)], ids, RecordId(p, SP.SlotCount(V[p])), data)
  {
    hide SP.Valid, SP.Inserted, SP.Slots, SP.Sound, SP.SlotCount, SP.InsertStatus;
    var i :| 0 <= i < |ids| && ids[i] == p;
    PageOp(V[p], SP.Insert(data));
    var W := V[p := SP.Inserted(V[p], data)];
    assert SP.Apply(V[p], SP.Insert(data)) == SP.Inserted(V[p], data);
    var at := RecordId(p, SP.SlotCount(V[p]));
    forall id: RecordId
      ensures Lookup(W, ids, id) == if id == at then Some(data) else Lookup(V, ids, id)
      ensures Issued(W, ids, id) <==> Issued(V, ids, id) || id == at
    {
    }
  }

  lemma ChangeRow(V: seq<Page>, ids: seq<nat>, at: RecordId, op: SP.Op)
    requires Pages(V, ids) && at.page in ids && at.page < |V| && SP.StatusOf(V[at.page], op).Ok?
    requires (op.Update? || op.Delete?) && op.slot == at.slot
    ensures SP.Sound(SP.Apply(V[at.page], op))
    ensures RowChanged(V, ids, V[at.page := SP.Apply(V[at.page], op)], ids, at,
                       if op.Update? then Some(op.data) else None)
  {
    hide SP.Valid, SP.Apply, SP.Slots, SP.Sound, SP.SlotCount, SP.StatusOf;
    var i :| 0 <= i < |ids| && ids[i] == at.page;
    PageOp(V[at.page], op);
  }

  /** A record on a page of its own, listed behind the others. */
  lemma ListedRow(V: seq<Page>, ids: seq<nat>, W: seq<Page>, added: nat, data: seq<byte>)
    requires |V| <= |W| && Pages(V, ids) && (forall i :: 0 <= i < |ids| ==> W[ids[i]] == V[ids[i]])
    requires added !in ids && added < |W| && SP.Valid(W[added]) && SP.Slots(W[added]) == [data] && data != []
    ensures RowAdded(V, ids, W, ids + [added], RecordId(added, 0), data)
  {
    hide SP.Valid, SP.SlotCount, SP.Slots, SP.Sound;
    RowsFrame(V, ids, W);
    var at := RecordId(added, 0);
    forall id: RecordId
      ensures Lookup(W, ids + [added], id) == if id == at then Some(data) else Lookup(V, ids, id)
      ensures Issued(W, ids + [added], id) <==> Issued(V, ids, id) || id == at
    {
      assert Issued(W, ids, id) == Issued(V, ids, id) && Lookup(W, ids, id) == Lookup(V, ids, id);
      assert id.page in ids + [added] <==> id.page in ids || id.page == added;
    }
  }

  // ---- reading every record ------------------------------------------------------

  /** The live records of one page as rows. */
  function PageRows(page: nat, items: seq<(nat, seq<byte>)>): (rows: seq<(RecordId, seq<byte>)>)
    ensures |rows| == |items|
    ensures forall k :: 0 <= k < |items| ==> rows[k] == (RecordId(page, items[k].0), items[k].1)
  {
    seq(|items|, k requires 0 <= k < |items| => (RecordId(page, items[k].0), items[k].1))
  }

  /** All live records, in directory order and within a page in slot order. */
  function AllRows(V: seq<Page>, ids: seq<nat>): seq<(RecordId, seq<byte>)>
    requires forall i :: 0 <= i < |ids| ==> ids[i] < |V| && SP.Valid(V[ids[i]])
  {
    if ids == [] then []
    else
      var n := |ids| - 1;
      AllRows(V, ids[..n]) + PageRows(ids[n], SP.LiveSlots(V[ids[n]], SP.SlotCount(V[ids[n]])))
  }

  /** The live slots among the first n, in order, each with its record. */
  predicate LiveOnly(slots: seq<seq<byte>>, n: nat, items: seq<(nat, seq<byte>)>)
    requires n <= |slots|
  {
    && (forall k :: 0 <= k < |items| ==> items[k].0 < n && slots[items[k].0] == items[k].1 != [])
    && (forall j, k :: 0 <= j < k < |items| ==> items[j].0 < items[k].0)
    && (forall slot :: 0 <= slot < n && slots[slot] != [] ==> (slot, slots[slot]) in items)
  }

  lemma LiveOnlyNext(slots: seq<seq<byte>>, n: nat, items: seq<(nat, seq<byte>)>)
    requires n < |slots| && LiveOnly(slots, n, items)
    ensures LiveOnly(slots, n + 1, items + if slots[n] == [] then [] else [(n, slots[n])])
  {
  }

  lemma {:induction false} LiveSlotsMeaning(p: Page, n: nat)
    requires SP.Valid(p) && n <= SP.SlotCount(p)
    ensures LiveOnly(SP.Slots(p), n, SP.LiveSlots(p, n))
  {
    hide SP.Valid, SP.SlotCount, SP.Slots, SP.Record, LiveOnly;
    if n > 0 {
      LiveSlotsMeaning(p, n - 1);
      LiveSlot(p, n - 1);
      LiveOnlyNext(SP.Slots(p), n - 1, SP.LiveSlots(p, n - 1));
    } else {
      NoneLive(SP.Slots(p));
    }
  }

  lemma NoneLive(slots: seq<seq<byte>>)
    ensures LiveOnly(slots, 0, [])
  {
  }

  lemma LiveSlot(p: Page, i: nat)
    requires SP.Valid(p) && i < SP.SlotCount(p)
    ensures
      && SP.DirFits(i + 1) && SP.SlotFits(p, i) && SP.Slots(p)[i] == SP.Record(p, i)
      && (SP.Length(p, i) == 0 <==> SP.Slots(p)[i] == [])
  {
  }

  /** Every live record of the listed pages is among the rows, no id is there twice, and nothing else is there. */
  ghost predicate ExactlyOnce(V: seq<Page>, ids: seq<nat>, rows: seq<(RecordId, seq<byte>)>) {
    && (forall k :: 0 <= k < |rows| ==> Lookup(V, ids, rows[k].0) == Some(rows[k].1))
    && (forall j, k :: 0 <= j < k < |rows| ==> rows[j].0 != rows[k].0)
    && (forall id: RecordId :: Lookup(V, ids, id).Some? ==> (id, Lookup(V, ids, id).value) in rows)
  }

  /** The same for the records of page `p` alone. */
  ghost predicate OnceOn(V: seq<Page>, ids: seq<nat>, p: nat, rows: seq<(RecordId, seq<byte>)>) {
    && (forall k :: 0 <= k < |rows| ==> rows[k].0.page == p && Lookup(V, ids, rows[k].0) == Some(rows[k].1))
    && (forall j, k :: 0 <= j < k < |rows| ==> rows[j].0 != rows[k].0)
    && (forall id: RecordId :: id.page == p && Lookup(V, ids, id).Some? ==> (id, Lookup(V, ids, id).value) in rows)
  }

  /** A full scan meets every live record exactly once. */
  lemma {:induction false} RowsExactlyOnce(V: seq<Page>, ids: seq<nat>)
    requires Pages(V, ids)
    ensures forall i :: 0 <= i < |ids| ==> SP.Valid(V[ids[i]])
    ensures ExactlyOnce(V, ids, AllRows(V, ids))
  {
    hide SP.Valid, SP.SlotCount, SP.Slots, SP.LiveSlots, SP.Disjoint, OnceOn, Lookup, ExactlyOnce;
    if ids == [] {
      EmptyTable(V);
    } else {
      var n := |ids| - 1;
      var front := ids[..n];
      assert ids == front + [ids[n]];
      RowsExactlyOnce(V, front);
      LastPageRows(V, ids);
      JoinRows(V, front, ids[n], AllRows(V, front), PageRows(ids[n], SP.LiveSlots(V[ids[n]], SP.SlotCount(V[ids[n]]))));
    }
  }

  lemma EmptyTable(V: seq<Page>)
    ensures ExactlyOnce(V, [], [])
  {
  }

  lemma JoinRows(V: seq<Page>, front: seq<nat>, p: nat, before: seq<(RecordId, seq<byte>)>,
                 last: seq<(RecordId, seq<byte>)>)
    requires ExactlyOnce(V, front, before) && p !in front && OnceOn(V, front + [p], p, last)
    ensures ExactlyOnce(V, front + [p], before + last)
  {
    hide SP.Valid, SP.SlotCount, SP.Slots, SP.Disjoint, Lookup;
    var ids := front + [p];
    forall id: RecordId
      ensures if id.page == p then Lookup(V, front, id).None? else Lookup(V, ids, id) == Lookup(V, front, id)
    {
      OtherPages(V, front, p, id);
    }
  }

  lemma OtherPages(V: seq<Page>, front: seq<nat>, p: nat, id: RecordId)
    requires p !in front
    ensures if id.page == p then Lookup(V, front, id).None? else Lookup(V, front + [p], id) == Lookup(V, front, id)
  {
    hide SP.Valid, SP.SlotCount, SP.Slots, SP.Disjoint;
    assert id.page in front + [p] <==> id.page in front || id.page == p;
  }

  lemma LastPageRows(V: seq<Page>, ids: seq<nat>)
    requires Pages(V, ids) && ids != []
    ensures var p := ids[|ids| - 1];
            SP.Valid(V[p]) && OnceOn(V, ids, p, PageRows(p, SP.LiveSlots(V[p], SP.SlotCount(V[p]))))
  {
    hide SP.Valid, SP.SlotCount, SP.Slots, SP.LiveSlots, SP.Disjoint;
    var p := ids[|ids| - 1];
    assert SP.Sound(V[p]);
    LiveSlotsMeaning(V[p], SP.SlotCount(V[p]));
    var items := SP.LiveSlots(V[p], SP.SlotCount(V[p]));
    var last := PageRows(p, items);
    forall id: RecordId | id.page == p && Lookup(V, ids, id).Some?
      ensures (id, Lookup(V, ids, id).value) in last
    {
      var item := (id.slot, SP.Slots(V[p])[id.slot]);
      assert item in items;
      var k :| 0 <= k < |items| && items[k] == item;
      assert last[k] == (id, Lookup(V, ids, id).value);
    }
  }

  // ---- a visitor that may stop ---------------------------------------------------

  /** The rows a visitor sees: all of them, or up to and including the first it stops at. */
  function Seen(rows: seq<(RecordId, seq<byte>)>, goOn: (RecordId, seq<byte>) -> bool): seq<(RecordId, seq<byte>)> {
    if rows == [] then []
    else if goOn(rows[0].0, rows[0].1) then [rows[0]] + Seen(rows[1..], goOn)
    else [rows[0]]
  }

  lemma {:induction false} SeenConcat(a: seq<(RecordId, seq<byte>)>, b: seq<(RecordId, seq<byte>)>,
                                      goOn: (RecordId, seq<byte>) -> bool)
    ensures (forall k :: 0 <= k < |a| ==> goOn(a[k].0, a[k].1)) ==>
              Seen(a, goOn) == a && Seen(a + b, goOn) == a + Seen(b, goOn)
    ensures (exists k :: 0 <= k < |a| && !goOn(a[k].0, a[k].1)) ==> Seen(a + b, goOn) == Seen(a, goOn)
  {
    if a == [] {
      assert a + b == b;
    } else {
      SeenConcat(a[1..], b, goOn);
      assert (a + b)[1..] == a[1..] + b && a == [a[0]] + a[1..];
      if exists k :: 0 <= k < |a| && !goOn(a[k].0, a[k].1) {
        var k :| 0 <= k < |a| && !goOn(a[k].0, a[k].1);
        assert k > 0 ==> a[k] == a[1..][k - 1];
      }
    }
  }
}
