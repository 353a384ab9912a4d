/**
 What the buffer pool keeps about its frames: the invariant, the recency list
 its stamps encode, and the victim order both replacement and resizing use.
 */
module PoolState {
  import opened Bytes
  import opened Results
  import opened Frames
  import opened RecencyList

  /** More frames than any address space holds; a larger request cannot be allocated. */
  const MAX_FRAMES: nat := 0x7_FFFF_FFFF_FFFF

  predicate FrameOk(f: Frame, clock: nat, pages: seq<Page>) {
    if f.inUse then f.id < |pages| && 1 <= f.stamp <= clock && (!f.dirty ==> f.data == pages[f.id])
    else f.pins == 0 && !f.dirty
  }

  predicate StampsDistinct(fs: seq<Frame>) {
    forall i, j :: 0 <= i < j < |fs| && fs[i].inUse && fs[j].inUse ==> fs[i].stamp != fs[j].stamp
  }

  predicate FramesOk(fs: seq<Frame>, capacity: nat, clock: nat, pages: seq<Page>) {
    && 0 < capacity <= |fs| <= MAX_FRAMES && Count(fs) <= capacity && clock <= MAX_STAMP
    && |pages| <= INVALID_ID
    && Distinct(fs) && StampsDistinct(fs)
    && forall i :: 0 <= i < |fs| ==> FrameOk(fs[i], clock, pages)
  }

  /** `r` lists the residents by increasing stamp. */
  ghost predicate RecencyOk(fs: seq<Frame>, r: seq<nat>) {
    (forall id :: id in r <==> id in Stamps(fs)) && Increasing(r, Stamps(fs))
  }

  predicate Increasing(r: seq<nat>, stamps: map<nat, nat>) {
    && (forall i :: 0 <= i < |r| ==> r[i] in stamps)
    && (forall i, j :: 0 <= i < j < |r| ==> stamps[r[i]] < stamps[r[j]])
  }

  /** The pages some handle pins. */
  function Pinned(fs: seq<Frame>): (s: set<nat>)
    ensures forall id :: id in s <==> id in Table(fs) && Table(fs)[id].pins > 0
  {
    set id | id in Table(fs) && Table(fs)[id].pins > 0
  }

  /** How many frames some handle pins. */
  function PinnedCount(fs: seq<Frame>): (n: nat)
    ensures n <= Count(fs)
  {
    if fs == [] then 0
    else PinnedCount(fs[..|fs| - 1]) + if fs[|fs| - 1].inUse && fs[|fs| - 1].pins > 0 then 1 else 0
  }

  // ---- as many residents as list entries --------------------------------------

  function Elements(r: seq<nat>): (s: set<nat>)
    ensures forall x :: x in s <==> x in r
  {
    set i | 0 <= i < |r| :: r[i]
  }

  lemma {:induction false} ElementsSize(r: seq<nat>)
    requires NoDuplicates(r)
    ensures |Elements(r)| == |r|
  {
    if r == [] {
      assert Elements(r) == {};
    } else {
      var n := |r| - 1;
      ElementsSize(r[..n]);
      assert Elements(r) == Elements(r[..n]) + {r[n]};
      assert r[n] !in Elements(r[..n]);
    }
  }

  lemma {:induction false} IdsSize(fs: seq<Frame>)
    requires Distinct(fs)
    ensures |Ids(fs)| == Count(fs)
  {
    hide Find, Ids;
    if fs == [] {
      assert Ids(fs) == {};
    } else {
      var n := |fs| - 1;
      var front := fs[..n];
      IdsSize(front);
      forall id | !(fs[n].inUse && fs[n].id == id)
        ensures Resident(fs, id) <==> Resident(front, id)
      {
        FindFront(fs, id);
      }
      if fs[n].inUse {
        FindIs(fs, n);
        FindFrontLast(fs);
        assert Ids(fs) == Ids(front) + {fs[n].id};
      } else {
        assert Ids(fs) == Ids(front);
      }
    }
  }

  lemma FindFront(fs: seq<Frame>, id: nat)
    requires fs != [] && !(fs[|fs| - 1].inUse && fs[|fs| - 1].id == id)
    ensures Resident(fs, id) <==> Resident(fs[..|fs| - 1], id)
  {
    var n := |fs| - 1;
    assert forall i :: 0 <= i < n ==> fs[..n][i] == fs[i];
  }

  lemma FindFrontLast(fs: seq<Frame>)
    requires fs != [] && Distinct(fs) && fs[|fs| - 1].inUse
    ensures !Resident(fs[..|fs| - 1], fs[|fs| - 1].id)
  {
    var n := |fs| - 1;
    assert forall i :: 0 <= i < n ==> fs[..n][i] == fs[i];
  }

  lemma IncreasingNoDuplicates(r: seq<nat>, stamps: map<nat, nat>)
    requires Increasing(r, stamps)
    ensures NoDuplicates(r)
  {
  }

  lemma RecencySize(fs: seq<Frame>, r: seq<nat>)
    requires Distinct(fs) && RecencyOk(fs, r)
    ensures |r| == Count(fs) && NoDuplicates(r)
  {
    hide Find, Count, Table, Ids;
    IncreasingNoDuplicates(r, Stamps(fs));
    ElementsSize(r);
    IdsSize(fs);
    forall id
      ensures id in Elements(r) <==> id in Ids(fs)
    {
      assert id in Stamps(fs) <==> id in Table(fs);
    }
    assert Elements(r) == Ids(fs);
  }

  // ---- how the list moves ------------------------------------------------------

  lemma {:induction false} WithoutIncreasing(r: seq<nat>, stamps: map<nat, nat>, id: nat)
    requires Increasing(r, stamps)
    ensures Increasing(Without(r, id), stamps)
  {
    if r != [] {
      var n := |r| - 1;
      WithoutIncreasing(r[..n], stamps, id);
      var w := Without(r[..n], id);
      forall i | 0 <= i < |w|
        ensures stamps[w[i]] < stamps[r[n]]
      {
        assert w[i] in w;
        var j :| 0 <= j < n && r[j] == w[i];
      }
    }
  }

  /** Using page `id` at a time later than every stamp moves it to the end. */
  lemma UseMovesToEnd(r: seq<nat>, stamps: map<nat, nat>, id: nat, now: nat)
    requires Increasing(r, stamps) && (forall x :: x in r <==> x in stamps)
    requires forall x :: x in stamps ==> stamps[x] < now
    ensures var w := Without(r, id) + [id];
            && Increasing(w, stamps[id := now]) && forall x :: x in w <==> x in stamps[id := now]
  {
    hide Without;
    WithoutIncreasing(r, stamps, id);
    var w := Without(r, id);
    forall i | 0 <= i < |w|
      ensures w[i] != id && w[i] in stamps
    {
      assert w[i] in w;
    }
  }

  lemma EvictRemoves(r: seq<nat>, stamps: map<nat, nat>, id: nat)
    requires Increasing(r, stamps) && (forall x :: x in r <==> x in stamps)
    ensures var w := Without(r, id);
            && Increasing(w, stamps - {id}) && forall x :: x in w <==> x in stamps - {id}
  {
    hide Without;
    WithoutIncreasing(r, stamps, id);
    var w := Without(r, id);
    forall i | 0 <= i < |w|
      ensures w[i] in stamps - {id}
    {
      assert w[i] in w;
    }
  }

  /** Any order-preserving restamping keeps the list. */
  lemma RestampKeeps(r: seq<nat>, a: map<nat, nat>, b: map<nat, nat>)
    requires Increasing(r, a) && a.Keys == b.Keys
    requires forall x, y :: x in a && y in a && a[x] < a[y] ==> b[x] < b[y]
    ensures Increasing(r, b)
  {
  }

  /** The unpinned resident with the smallest stamp is the list's victim. */
  lemma {:induction false} OldestIsVictim(r: seq<nat>, stamps: map<nat, nat>, pinned: set<nat>, v: nat)
    requires Increasing(r, stamps)
    requires v in r && v !in pinned
    requires forall x :: x in r && x !in pinned ==> stamps[v] <= stamps[x]
    ensures Victim(r, pinned) == Some(v)
  {
    if r[0] !in pinned {
      assert r[0] in r;
      var k :| 0 <= k < |r| && r[k] == v;
    } else {
      OldestIsVictim(r[1..], stamps, pinned, v);
    }
  }

  // ---- ranking frames by age ---------------------------------------------------

  predicate InRange(fs: seq<Frame>, order: seq<nat>) {
    forall k :: 0 <= k < |order| ==> order[k] < |fs|
  }

  /** Frame a is older than frame b, ties by index. */
  predicate Older(fs: seq<Frame>, a: nat, b: nat)
    requires a < |fs| && b < |fs|
  {
    fs[a].stamp < fs[b].stamp || (fs[a].stamp == fs[b].stamp && a < b)
  }

  predicate Ranked(fs: seq<Frame>, order: seq<nat>) {
    && InRange(fs, order)
    && forall i, j :: 0 <= i < j < |order| ==> Older(fs, order[i], order[j])
  }

  function Place(fs: seq<Frame>, x: nat, order: seq<nat>): (r: seq<nat>)
    requires x < |fs| && Ranked(fs, order) && x !in order
    ensures |r| == |order| + 1 && Ranked(fs, r)
    ensures forall y :: y in r <==> y in order || y == x
  {
    if order == [] then [x]
    else if Older(fs, x, order[0]) then [x] + order
    else
      var rest := Place(fs, x, order[1..]);
      assert order == [order[0]] + order[1..];
      assert forall k :: 0 <= k < |rest| ==> rest[k] in rest;
      [order[0]] + rest
  }

  /** The frames of `order`, oldest first. */
  function Rank(fs: seq<Frame>, order: seq<nat>): (r: seq<nat>)
    requires InRange(fs, order) && NoDuplicates(order)
    ensures |r| == |order| && Ranked(fs, r)
    ensures forall y :: y in r <==> y in order
  {
    if order == [] then []
    else
      var n := |order| - 1;
      assert order == order[..n] + [order[n]];
      Place(fs, order[n], Rank(fs, order[..n]))
  }

  lemma RankedNoDuplicates(fs: seq<Frame>, r: seq<nat>)
    requires Ranked(fs, r)
    ensures NoDuplicates(r)
  {
    forall i, j | 0 <= i < j < |r|
      ensures r[i] != r[j]
    {
      assert Older(fs, r[i], r[j]);
    }
  }

  // ---- renumbering the clock ---------------------------------------------------

  /** The same frames with new stamps in the same order. */
  predicate Restamped(fs: seq<Frame>, gs: seq<Frame>) {
    && |gs| == |fs|
    && (forall i :: 0 <= i < |fs| ==> gs[i] == fs[i].(stamp := gs[i].stamp) && (!fs[i].inUse ==> gs[i] == fs[i]))
    && (forall i, j :: 0 <= i < |fs| && 0 <= j < |fs| && fs[i].inUse && fs[j].inUse && fs[i].stamp < fs[j].stamp ==>
          gs[i].stamp < gs[j].stamp)
  }

  lemma {:induction false} SameResidents(fs: seq<Frame>, gs: seq<Frame>)
    requires |gs| == |fs| && forall i :: 0 <= i < |fs| ==> gs[i].inUse == fs[i].inUse && gs[i].id == fs[i].id
    ensures Count(gs) == Count(fs)
    ensures forall id :: Find(gs, id) == Find(fs, id)
  {
    if fs != [] {
      var n := |fs| - 1;
      SameResidents(fs[..n], gs[..n]);
    }
  }

  /** Two tables that differ in stamps only. */
  predicate StampsOnly(t: map<nat, Frame>, u: map<nat, Frame>) {
    u.Keys == t.Keys && forall id :: id in t ==> u[id] == t[id].(stamp := u[id].stamp)
  }

  lemma StampsOnlyViews(t: map<nat, Frame>, u: map<nat, Frame>, pages: seq<Page>)
    requires StampsOnly(t, u)
    ensures
      && CacheOf(u) == CacheOf(t) && ContentsOf(u, pages) == ContentsOf(t, pages)
      && StampsOf(u).Keys == StampsOf(t).Keys
  {
  }

  lemma TableRestamped(fs: seq<Frame>, gs: seq<Frame>)
    requires Restamped(fs, gs) && forall id :: Find(gs, id) == Find(fs, id)
    ensures StampsOnly(Table(fs), Table(gs))
    ensures forall x, y :: x in Table(fs) && y in Table(fs) && Table(fs)[x].stamp < Table(fs)[y].stamp ==>
              x in Table(gs) && y in Table(gs) && Table(gs)[x].stamp < Table(gs)[y].stamp
  {
    hide Find, Table;
    assert forall id :: id in Table(gs) <==> id in Table(fs);
    forall x, y | x in Table(fs) && y in Table(fs) && Table(fs)[x].stamp < Table(fs)[y].stamp
      ensures x in Table(gs) && y in Table(gs) && Table(gs)[x].stamp < Table(gs)[y].stamp
    {
      var i, j := Find(fs, x), Find(fs, y);
      assert fs[i].inUse && fs[j].inUse;
    }
  }

  lemma RestampedFramesOk(fs: seq<Frame>, gs: seq<Frame>, capacity: nat, clock: nat, now: nat, pages: seq<Page>)
    requires FramesOk(fs, capacity, clock, pages) && Restamped(fs, gs) && now <= MAX_STAMP
    requires forall i :: 0 <= i < |gs| && gs[i].inUse ==> 1 <= gs[i].stamp <= now
    ensures FramesOk(gs, capacity, now, pages)
  {
    hide Find, Count;
    SameResidents(fs, gs);
    forall i, j | 0 <= i < j < |gs| && gs[i].inUse && gs[j].inUse
      ensures gs[i].stamp != gs[j].stamp
    {
      assert fs[i].stamp != fs[j].stamp;
    }
    forall i | 0 <= i < |gs|
      ensures FrameOk(gs[i], now, pages)
    {
      assert FrameOk(fs[i], clock, pages);
    }
  }

  lemma RestampKeepsAll(fs: seq<Frame>, gs: seq<Frame>, capacity: nat, clock: nat, now: nat, pages: seq<Page>,
                        r: seq<nat>)
    requires FramesOk(fs, capacity, clock, pages) && RecencyOk(fs, r) && Restamped(fs, gs) && now <= MAX_STAMP
    requires forall i :: 0 <= i < |gs| && gs[i].inUse ==> 1 <= gs[i].stamp <= now
    ensures FramesOk(gs, capacity, now, pages) && RecencyOk(gs, r) && StampsOnly(Table(fs), Table(gs))
    ensures Cache(gs) == Cache(fs) && Contents(gs, pages) == Contents(fs, pages)
    ensures forall id :: Find(gs, id) == Find(fs, id)
  {
    hide Find, Count, Table, FramesOk, CacheOf, ContentsOf;
    RestampedFramesOk(fs, gs, capacity, clock, now, pages);
    SameResidents(fs, gs);
    TableRestamped(fs, gs);
    StampsOnlyViews(Table(fs), Table(gs), pages);
    RestampKeeps(r, Stamps(fs), Stamps(gs));
  }

  // ---- pins ----------------------------------------------------------------------

  /** The handles that hold frame i. */
  function Holders<H(==)>(held: map<H, nat>, i: nat): set<H> {
    set h | h in held && held[h] == i
  }

  /** Handles hold resident frames, and a frame's pin count is the number of its handles. */
  predicate PinsOk<H(==)>(fs: seq<Frame>, held: map<H, nat>) {
    && (forall h :: h in held ==> held[h] < |fs| && fs[held[h]].inUse)
    && (forall i :: 0 <= i < |fs| ==> fs[i].pins == |Holders(held, i)|)
  }

  lemma NoHolders<H>(held: map<H, nat>, i: nat)
    requires |Holders(held, i)| == 0
    ensures forall h :: h in held ==> held[h] != i
  {
    assert Holders(held, i) == {};
    forall h | h in held
      ensures held[h] != i
    {
      assert h !in Holders(held, i);
    }
  }

  lemma HoldersAdd<H>(held: map<H, nat>, h: H, i: nat)
    requires h !in held
    ensures |Holders(held[h := i], i)| == |Holders(held, i)| + 1
    ensures forall j :: j != i ==> Holders(held[h := i], j) == Holders(held, j)
  {
    assert Holders(held[h := i], i) == Holders(held, i) + {h};
  }

  lemma HoldersRemove<H>(held: map<H, nat>, h: H)
    requires h in held
    ensures |Holders(held - {h}, held[h])| == |Holders(held, held[h])| - 1
    ensures forall j :: j != held[h] ==> Holders(held - {h}, j) == Holders(held, j)
  {
    assert Holders(held - {h}, held[h]) == Holders(held, held[h]) - {h};
  }

  /** One more handle on frame i, which holds a page with one more pin. */
  lemma PinAdded<H>(fs: seq<Frame>, held: map<H, nat>, i: nat, f: Frame, h: H)
    requires PinsOk(fs, held) && i < |fs| && h !in held && f.inUse && f.pins == fs[i].pins + 1
    ensures PinsOk(fs[i := f], held[h := i])
  {
    hide Holders;
    HoldersAdd(held, h, i);
  }

  lemma PinRemoved<H>(fs: seq<Frame>, held: map<H, nat>, h: H)
    requires PinsOk(fs, held) && h in held
    ensures fs[held[h]].pins > 0
    ensures PinsOk(fs[held[h] := fs[held[h]].(pins := fs[held[h]].pins - 1)], held - {h})
  {
    hide Holders;
    HoldersRemove(held, h);
  }

  /** A pin passes from one handle to another. */
  lemma PinMoved<H>(fs: seq<Frame>, held: map<H, nat>, dst: H, src: H)
    requires PinsOk(fs, held) && src in held && dst !in held
    ensures PinsOk(fs, (held - {src})[dst := held[src]])
  {
    hide Holders;
    HoldersRemove(held, src);
    HoldersAdd(held - {src}, dst, held[src]);
    assert forall j :: j != held[src] ==> Holders((held - {src})[dst := held[src]], j) == Holders(held - {src}, j);
  }

  /** Pins do not depend on what the frames hold. */
  lemma PinsCarry<H>(fs: seq<Frame>, gs: seq<Frame>, held: map<H, nat>)
    requires PinsOk(fs, held) && |gs| == |fs|
    requires forall i :: 0 <= i < |fs| ==> gs[i].pins == fs[i].pins && (fs[i].inUse ==> gs[i].inUse)
    ensures PinsOk(gs, held)
  {
    hide Holders;
  }

  /** A frame nobody holds can be emptied. */
  lemma UnpinnedFreed<H>(fs: seq<Frame>, held: map<H, nat>, i: nat, f: Frame)
    requires PinsOk(fs, held) && i < |fs| && fs[i].pins == 0 && f.pins == 0
    ensures PinsOk(fs[i := f], held)
  {
    NoHolders(held, i);
  }

  /** Free frames at the end come and go. */
  lemma PinsTail<H>(fs: seq<Frame>, n: nat, held: map<H, nat>)
    requires n <= |fs| && PinsOk(fs, held) && forall i :: n <= i < |fs| ==> !fs[i].inUse
    ensures PinsOk(fs[..n], held)
  {
    hide Holders;
  }

  lemma PinsGrow<H>(fs: seq<Frame>, gs: seq<Frame>, held: map<H, nat>)
    requires PinsOk(fs, held) && |fs| <= |gs| && gs[..|fs|] == fs && forall i :: |fs| <= i < |gs| ==> gs[i] == FREE
    ensures PinsOk(gs, held)
  {
    forall i | 0 <= i < |gs|
      ensures gs[i].pins == |Holders(held, i)|
    {
      if i < |fs| {
        assert gs[i] == gs[..|fs|][i];
      } else {
        assert Holders(held, i) == {};
      }
    }
    assert forall i :: 0 <= i < |fs| ==> gs[i] == gs[..|fs|][i];
  }
}
