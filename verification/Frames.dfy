/**
 The frames of the buffer pool as values: which page each holds, how residents
 are counted and found, and the cache and page map a frame list stands for.
 */
module Frames {
  import opened Bytes
  import CrashMachine

  datatype Frame = Frame(id: nat, data: Page, dirty: bool, pins: nat, stamp: nat, inUse: bool)

  const FREE: Frame := Frame(INVALID_ID, ZERO_PAGE, false, 0, 0, false)

  /** The largest value of the 64-bit access clock. */
  const MAX_STAMP: nat := 0xFFFF_FFFF_FFFF_FFFF

  /** How many frames hold a page. */
  function Count(fs: seq<Frame>): (n: nat)
    ensures n <= |fs|
  {
    if fs == [] then 0 else Count(fs[..|fs| - 1]) + if fs[|fs| - 1].inUse then 1 else 0
  }

  /** No page is resident twice. */
  predicate Distinct(fs: seq<Frame>) {
    forall i, j :: 0 <= i < j < |fs| && fs[i].inUse && fs[j].inUse ==> fs[i].id != fs[j].id
  }

  /** The first frame holding page `id`, or |fs| when there is none. */
  function Find(fs: seq<Frame>, id: nat): (i: nat)
    ensures i <= |fs|
    ensures i < |fs| ==> fs[i].inUse && fs[i].id == id
    ensures forall j :: 0 <= j < i ==> !(fs[j].inUse && fs[j].id == id)
  {
    if fs == [] then 0
    else
      var n := |fs| - 1;
      var i := Find(fs[..n], id);
      if i < n then i else if fs[n].inUse && fs[n].id == id then n else n + 1
  }

  predicate Resident(fs: seq<Frame>, id: nat) {
    Find(fs, id) < |fs|
  }

  lemma FindIs(fs: seq<Frame>, i: nat)
    requires Distinct(fs) && i < |fs| && fs[i].inUse
    ensures Find(fs, fs[i].id) == i
  {
  }

  function Ids(fs: seq<Frame>): (s: set<nat>)
    ensures forall id :: id in s <==> Resident(fs, id)
  {
    var s := set i | 0 <= i < |fs| && fs[i].inUse :: fs[i].id;
    assert forall id :: id in s ==> Resident(fs, id);
    assert forall id :: Resident(fs, id) ==> fs[Find(fs, id)].id in s;
    s
  }

  /** The residents by page id. */
  function Table(fs: seq<Frame>): (t: map<nat, Frame>)
    ensures forall id :: id in t <==> Resident(fs, id)
    ensures forall id :: id in t ==> Resident(fs, id) && t[id] == fs[Find(fs, id)]
  {
    map id | id in Ids(fs) :: fs[Find(fs, id)]
  }

  /** The cache a table of residents stands for. */
  function CacheOf(t: map<nat, Frame>): map<nat, CrashMachine.Entry> {
    map id | id in t :: CrashMachine.Entry(t[id].data, t[id].dirty)
  }

  function StampsOf(t: map<nat, Frame>): map<nat, nat> {
    map id | id in t :: t[id].stamp
  }

  function ContentsOf(t: map<nat, Frame>, pages: seq<Page>): (v: seq<Page>)
    ensures |v| == |pages|
    ensures forall p :: 0 <= p < |pages| ==> v[p] == if p in t then t[p].data else pages[p]
  {
    seq(|pages|, p requires 0 <= p < |pages| => if p in t then t[p].data else pages[p])
  }

  function Cache(fs: seq<Frame>): map<nat, CrashMachine.Entry> {
    CacheOf(Table(fs))
  }

  /** The access stamps of the residents. */
  function Stamps(fs: seq<Frame>): map<nat, nat> {
    StampsOf(Table(fs))
  }

  /** The logical page map: cached bytes where a page is resident, stored bytes elsewhere. */
  function Contents(fs: seq<Frame>, pages: seq<Page>): (v: seq<Page>)
    ensures |v| == |pages|
  {
    ContentsOf(Table(fs), pages)
  }

  lemma CacheOfUpdate(t: map<nat, Frame>, id: nat, f: Frame)
    ensures CacheOf(t[id := f]) == CacheOf(t)[id := CrashMachine.Entry(f.data, f.dirty)]
  {
  }

  lemma CacheOfRemove(t: map<nat, Frame>, id: nat)
    ensures CacheOf(t - {id}) == CacheOf(t) - {id}
  {
  }

  lemma StampsOfUpdate(t: map<nat, Frame>, id: nat, f: Frame)
    ensures StampsOf(t[id := f]) == StampsOf(t)[id := f.stamp]
  {
  }

  lemma StampsOfRemove(t: map<nat, Frame>, id: nat)
    ensures StampsOf(t - {id}) == StampsOf(t) - {id}
  {
  }

  /** What is stored for a resident page does not show. */
  lemma ContentsOfHidden(t: map<nat, Frame>, id: nat, f: Frame, pages: seq<Page>, stored: Page)
    requires id < |pages| && id in t && f.data == t[id].data
    ensures ContentsOf(t[id := f], pages[id := stored]) == ContentsOf(t, pages)
  {
  }

  /** Pins and stamps do not show. */
  lemma ViewsOfSame(t: map<nat, Frame>, id: nat, f: Frame, pages: seq<Page>)
    requires id in t && f.data == t[id].data && f.dirty == t[id].dirty
    ensures CacheOf(t[id := f]) == CacheOf(t) && ContentsOf(t[id := f], pages) == ContentsOf(t, pages)
  {
    var u := t[id := f];
    assert forall x :: x in u ==> u[x].data == t[x].data && u[x].dirty == t[x].dirty;
  }

  lemma ContentsOfWrite(t: map<nat, Frame>, id: nat, f: Frame, pages: seq<Page>)
    requires id < |pages|
    ensures ContentsOf(t[id := f], pages) == ContentsOf(t, pages)[id := f.data]
  {
  }

  /** A page loaded with its stored bytes does not show. */
  lemma ContentsOfJoin(t: map<nat, Frame>, id: nat, f: Frame, pages: seq<Page>)
    requires id !in t && id < |pages| && f.data == pages[id]
    ensures ContentsOf(t[id := f], pages) == ContentsOf(t, pages)
  {
  }

  /** Nor does dropping a page that equals its stored bytes. */
  lemma ContentsOfLeave(t: map<nat, Frame>, id: nat, pages: seq<Page>)
    requires id in t && id < |pages| && t[id].data == pages[id]
    ensures ContentsOf(t - {id}, pages) == ContentsOf(t, pages)
  {
  }

  // ---- changing one frame ----------------------------------------------------

  lemma {:induction false} CountUpdate(fs: seq<Frame>, i: nat, f: Frame)
    requires i < |fs|
    ensures Count(fs[i := f]) == Count(fs) - (if fs[i].inUse then 1 else 0) + (if f.inUse then 1 else 0)
  {
    var n := |fs| - 1;
    if i < n {
      CountUpdate(fs[..n], i, f);
      assert fs[i := f][..n] == fs[..n][i := f];
    } else {
      assert fs[i := f][..n] == fs[..n];
    }
  }

  lemma {:induction false} CountFull(fs: seq<Frame>)
    requires forall i :: 0 <= i < |fs| ==> fs[i].inUse
    ensures Count(fs) == |fs|
  {
    if fs != [] {
      CountFull(fs[..|fs| - 1]);
    }
  }

  lemma {:induction false} CountFreeTail(fs: seq<Frame>, n: nat)
    requires n <= |fs| && forall i :: n <= i < |fs| ==> !fs[i].inUse
    ensures Count(fs[..n]) == Count(fs)
    decreases |fs|
  {
    if n < |fs| {
      CountFreeTail(fs[..|fs| - 1], n);
      assert fs[..|fs| - 1][..n] == fs[..n];
    } else {
      assert fs[..n] == fs;
    }
  }

  lemma FreeTailAt(fs: seq<Frame>, n: nat, id: nat)
    requires n <= |fs| && forall i :: n <= i < |fs| ==> !fs[i].inUse
    ensures Resident(fs[..n], id) <==> Resident(fs, id)
    ensures Resident(fs, id) ==> Find(fs[..n], id) == Find(fs, id)
  {
    hide Find;
    var i, j := Find(fs[..n], id), Find(fs, id);
    if i < n {
      assert fs[..n][i] == fs[i];
    }
    if j < |fs| {
      assert fs[..n][j] == fs[j];
    }
  }

  /** Dropping or adding free frames at the end changes nothing a client can see. */
  lemma FreeTail(fs: seq<Frame>, n: nat)
    requires n <= |fs| && forall i :: n <= i < |fs| ==> !fs[i].inUse
    ensures Count(fs[..n]) == Count(fs)
    ensures Table(fs[..n]) == Table(fs)
  {
    hide Find, Table, Count;
    CountFreeTail(fs, n);
    forall id
      ensures Resident(fs[..n], id) <==> Resident(fs, id)
      ensures Resident(fs, id) ==> Find(fs[..n], id) == Find(fs, id)
    {
      FreeTailAt(fs, n, id);
    }
  }

  /** Residency around one changed frame. */
  lemma FindUpdate(fs: seq<Frame>, i: nat, f: Frame, id: nat)
    requires i < |fs| && Distinct(fs) && Distinct(fs[i := f])
    requires (fs[i].inUse ==> fs[i].id != id) && (f.inUse ==> f.id != id)
    ensures Resident(fs[i := f], id) <==> Resident(fs, id)
    ensures Resident(fs, id) ==> Find(fs[i := f], id) == Find(fs, id) != i
  {
    var gs := fs[i := f];
    if Resident(fs, id) {
      FindIs(gs, Find(fs, id));
    }
    if Resident(gs, id) {
      FindIs(fs, Find(gs, id));
    }
  }

  lemma DistinctUpdate(fs: seq<Frame>, i: nat, f: Frame)
    requires Distinct(fs) && i < |fs|
    requires f.inUse ==> forall j :: 0 <= j < |fs| && j != i && fs[j].inUse ==> fs[j].id != f.id
    ensures Distinct(fs[i := f])
  {
  }

  /** Rewriting a resident frame in place changes one table entry. */
  lemma TableRewrite(fs: seq<Frame>, i: nat, f: Frame)
    requires Distinct(fs) && i < |fs| && fs[i].inUse && f.inUse && f.id == fs[i].id
    ensures Distinct(fs[i := f]) && Count(fs[i := f]) == Count(fs)
    ensures f.id in Table(fs) && Table(fs)[f.id] == fs[i] && Find(fs, f.id) == i
    ensures Table(fs[i := f]) == Table(fs)[f.id := f]
  {
    hide Find, Table, Count;
    var gs := fs[i := f];
    CountUpdate(fs, i, f);
    DistinctUpdate(fs, i, f);
    FindIs(fs, i);
    FindIs(gs, i);
    forall id | id != f.id
      ensures Resident(gs, id) <==> Resident(fs, id)
      ensures Resident(fs, id) ==> Find(gs, id) == Find(fs, id) != i
    {
      FindUpdate(fs, i, f, id);
    }
  }

  /** Filling a free frame adds one table entry. */
  lemma TableFill(fs: seq<Frame>, i: nat, f: Frame)
    requires Distinct(fs) && i < |fs| && !fs[i].inUse && f.inUse && f.id !in Table(fs)
    ensures Distinct(fs[i := f]) && Count(fs[i := f]) == Count(fs) + 1
    ensures Table(fs[i := f]) == Table(fs)[f.id := f]
  {
    hide Find, Table, Count;
    var gs := fs[i := f];
    CountUpdate(fs, i, f);
    assert !Resident(fs, f.id);
    DistinctUpdate(fs, i, f);
    FindIs(gs, i);
    forall id | id != f.id
      ensures Resident(gs, id) <==> Resident(fs, id)
      ensures Resident(fs, id) ==> Find(gs, id) == Find(fs, id) != i
    {
      FindUpdate(fs, i, f, id);
    }
  }

  /** Emptying a frame removes one table entry. */
  lemma TableFree(fs: seq<Frame>, i: nat, f: Frame)
    requires Distinct(fs) && i < |fs| && fs[i].inUse && !f.inUse
    ensures Distinct(fs[i := f]) && Count(fs[i := f]) == Count(fs) - 1
    ensures fs[i].id in Table(fs) && Table(fs)[fs[i].id] == fs[i]
    ensures Table(fs[i := f]) == Table(fs) - {fs[i].id}
  {
    hide Find, Table, Count;
    var gs := fs[i := f];
    CountUpdate(fs, i, f);
    DistinctUpdate(fs, i, f);
    FindIs(fs, i);
    forall id | id != fs[i].id
      ensures Resident(gs, id) <==> Resident(fs, id)
      ensures Resident(fs, id) ==> Find(gs, id) == Find(fs, id) != i
    {
      FindUpdate(fs, i, f, id);
    }
    assert !Resident(gs, fs[i].id);
  }

  lemma TableHas(fs: seq<Frame>, i: nat)
    requires Distinct(fs) && i < |fs| && fs[i].inUse
    ensures fs[i].id in Table(fs) && Table(fs)[fs[i].id] == fs[i] && Find(fs, fs[i].id) == i
  {
    hide Find, Table;
    FindIs(fs, i);
  }
}
