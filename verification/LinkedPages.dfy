/**
 A chain of pages kept in memory: its last page, how full that page is, and the
 promise that both match the pages on disk. A table's directory and the catalog
 grow their chains the same way: fill the last page, then link a new one.
 */
module LinkedPages {
  import opened Bytes
  import opened Results
  import opened Chain
  import opened Structure
  import opened BufferPool
  import opened PageSpace
  import L = LogFormat

  /** What is known of a chain: its pages and the raw entries they list. */
  datatype Listing = Listing(kind: Kind, root: nat, chain: seq<nat>, raw: seq<seq<byte>>, last: nat, count: nat)

  /** The listing equals the on-page chain. */
  predicate InMemory(V: seq<Page>, d: Listing) {
    && IsChain(d.kind, V, d.chain) && d.chain[0] == d.root
    && d.raw == AllEntries(d.kind, V, d.chain)
    && d.last == Last(d.chain) && d.count == CountOf(V[d.last])
  }

  class Linked {
    const space: Space
    const kind: Kind
    const root: nat
    var last: nat
    var count: nat
    ghost var chain: seq<nat>
    ghost var raw: seq<seq<byte>>

    ghost function Dir(): Listing
      reads this
    {
      Listing(kind, root, chain, raw, last, count)
    }

    ghost predicate Valid()
      reads this, space, space.pool, space.pool.storage, space.pool.sink, space.pool.held.Keys
    {
      space.Valid() && LinkPage(space.use, kind, root) && InMemory(space.View(), Dir())
    }

    constructor (space: Space, ghost d: Listing, kind: Kind, root: nat, last: nat, count: nat)
      requires d.kind == kind && d.root == root && d.last == last && d.count == count
      ensures this.space == space && Dir() == d
    {
      this.space := space;
      this.kind := kind;
      this.root := root;
      this.last := last;
      this.count := count;
      this.chain := d.chain;
      this.raw := d.raw;
    }

    /** The last page, which has room, lists one more entry. */
    method ListInLast(e: seq<byte>) returns (s: Status)
      requires Valid() && count < Capacity(kind)
      requires |space.View()| == |space.use| && |e| == EntrySize(kind) && MayList(space.View(), space.use, kind, e)
      modifies this`count, this`raw, space.pool`frames, space.pool`clock, space.pool`held, space.pool`recency,
               space.pool.storage, space.pool.sink
      ensures Valid() && space.pool.held == old(space.pool.held)
      ensures s.Ok? ==> raw == old(raw) + [e] && Touches(old(space.View()), space.View(), chain)
      ensures Sole(old(space.View()), space.use, kind, chain) ==> Sole(space.View(), space.use, kind, chain)
      ensures s.Error? ==> raw == old(raw) && count == old(count) && space.View() == old(space.View())
      ensures space.pool.clock <= old(space.pool.clock) + 1
      ensures old(space.pool.Slack()) >= 0 ==> space.pool.Slack() >= old(space.pool.Slack()) - L.RECORD_SIZE
      ensures old(space.pool.Slack()) >= 0 && old(space.pool.Fuel()) >= 1 ==> s.Ok?
    {
      hide Space.Valid, Space.View, InMemory, MayList, Well, WithEntry, HeaderOk, CountOf, Precedes, LinkPage, Sole,
        Pool.Slack, Pool.Residents, Pool.Fuel, Pool.Jammed, Pool.Sure, Pool.Reach;
      ghost var V := space.View();
      space.Facts();
      AppendFits(V, space.use, Dir(), e);
      var h, p;
      s, h, p := space.Pin(last);
      if s.Error? { return; }
      space.Store(h, last, WithEntry(kind, p, e));
      space.Drop(h);
      count, raw := count + 1, raw + [e];
    }

    /** The last page is full: a new one is added and linked behind it. */
    method ExtendChain() returns (s: Status)
      requires Valid()
      modifies this`last, this`count, this`chain, space`use, space.pool`frames, space.pool`clock, space.pool`held,
               space.pool`recency, space.pool.storage, space.pool.sink
      ensures Valid() && space.pool.held == old(space.pool.held)
      ensures Extended(old(space.View()), space.View(), old(space.use), space.use, old(Dir()), s)
      ensures s.Ok? ==> count == 0 && chain == old(chain) + [|old(space.View())|]
      ensures s.Error? ==> Dir() == old(Dir())
      ensures space.pool.clock <= old(space.pool.clock) + 1
      ensures old(space.pool.Slack()) >= 0 ==> space.pool.Slack() >= old(space.pool.Slack()) - L.RECORD_SIZE
      ensures old(space.pool.Slack()) >= 0 && old(space.pool.Fuel()) >= 1 && |old(space.View())| < INVALID_ID ==> s.Ok?
    {
      hide Space.Valid, Space.View, InMemory, Well, WithNext, EmptyPage, HeaderOk, Precedes, LinkPage, Pool.Slack,
        Pool.Fuel;
      ghost var V, use, d := space.View(), space.use, Dir();
      space.Facts();
      var next;
      s, next := space.Add(EmptyPage(kind), Link(kind));
      space.Facts();
      if s.Error? {
        AddedFrame(V, space.View(), use, space.use, d);
        return;
      }
      ExtendFits(V, use, d);
      s := LinkBehind(next);
    }

    /** Links the last page to a new, empty one. */
    method LinkBehind(next: nat) returns (s: Status)
      requires Valid() && MayFollow(space.View(), space.use, Dir(), next)
      modifies this`last, this`count, this`chain, space.pool`frames, space.pool`clock, space.pool`held,
               space.pool`recency, space.pool.storage, space.pool.sink
      ensures Valid() && space.pool.held == old(space.pool.held)
      ensures s.Ok? ==>
                && last == next && count == 0 && chain == old(chain) + [next]
                && space.View() == old(space.View())[old(last) := WithNext(old(space.View())[old(last)], next)]
      ensures s.Error? ==> Dir() == old(Dir()) && space.View() == old(space.View())
      ensures space.pool.clock <= old(space.pool.clock) + 1
      ensures old(space.pool.Slack()) >= 0 ==> space.pool.Slack() >= old(space.pool.Slack()) - L.RECORD_SIZE
      ensures old(space.pool.Slack()) >= 0 && old(space.pool.Fuel()) >= 1 ==> s.Ok?
    {
      hide Space.Valid, Space.View, InMemory, Well, WithNext, HeaderOk, Precedes, LinkPage, Pool.Slack, Pool.Residents,
        Pool.Fuel, Pool.Jammed, Pool.Sure, Pool.Reach;
      var h, p;
      s, h, p := space.Pin(last);
      if s.Error? { return; }
      space.Store(h, last, WithNext(p, next));
      space.Drop(h);
      last, count, chain := next, 0, chain + [next];
    }

    /** Lists one more entry. A failure leaves the listed entries as they were. */
    method Append(e: seq<byte>) returns (s: Status)
      requires
        && Valid() && |space.View()| == |space.use| && |e| == EntrySize(kind)
        && MayList(space.View(), space.use, kind, e)
      modifies this, space`use, space.pool`frames, space.pool`clock, space.pool`held, space.pool`recency,
               space.pool.storage, space.pool.sink
      ensures Valid() && space.pool.held == old(space.pool.held)
      ensures Touches(old(space.View()), space.View(), old(chain)) && UseGrows(old(space.use), space.use, kind)
      ensures raw == if s.Ok? then old(raw) + [e] else old(raw)
      ensures space.pool.clock <= old(space.pool.clock) + 2
      ensures old(space.pool.Slack()) >= L.RECORD_SIZE ==>
                space.pool.Slack() >= old(space.pool.Slack()) - 2 * L.RECORD_SIZE
      ensures old(space.pool.Slack()) >= L.RECORD_SIZE && old(space.pool.Fuel()) >= 2 ==>
                |old(space.View())| < INVALID_ID ==> s.Ok?
      ensures Sole(old(space.View()), old(space.use), kind, old(chain)) ==> Sole(space.View(), space.use, kind, chain)
    {
      hide Space.Valid, Space.View, InMemory, MayList, Extended, LinkPage, Sole, Pool.Slack;
      if count >= Capacity(kind) {
        ghost var V, use, d := space.View(), space.use, Dir();
        space.Facts();
        s := ExtendChain();
        ExtendedFacts(V, space.View(), use, space.use, d, s, e);
        if s.Error? { return; }
      }
      ghost var V, W := old(space.View()), space.View();
      s := ListInLast(e);
      TouchesTrans(V, W, space.View(), old(chain), chain);
    }
  }

  /** Only the given pages changed; pages may have been added. */
  predicate Touches(V: seq<Page>, W: seq<Page>, own: seq<nat>) {
    |V| <= |W| && forall p: nat :: p < |V| && p !in own ==> W[p] == V[p]
  }

  /** Everything pages of this kind list stands on the one chain. */
  ghost predicate Sole(V: seq<Page>, use: seq<Use>, k: Kind, chain: seq<nat>) {
    |V| == |use| && forall p: nat, i: nat :: Lists(V, use, k, p, i) ==> p in chain
  }

  /** What extending the chain may have done to the file. */
  predicate Extended(V: seq<Page>, W: seq<Page>, use: seq<Use>, used: seq<Use>, d: Listing, s: Status) {
    var empty := EmptyPage(d.kind);
    if s.Ok? then
      && d.last < |V| && W == (V + [empty])[d.last := WithNext(V[d.last], |V|)]
      && used == use + [Link(d.kind)]
    else Extends(V, W, use, used) || (W == V + [empty] && used == use + [Link(d.kind)])
  }

  /** Pages keep their use; added ones are unused, data, or linked pages of one kind. */
  predicate UseGrows(use: seq<Use>, used: seq<Use>, k: Kind) {
    && |use| <= |used| && used[..|use|] == use
    && forall p: nat :: |use| <= p < |used| ==> used[p] in {Unused, Data, Link(k)}
  }

  lemma UseGrowsTrans(a: seq<Use>, b: seq<Use>, c: seq<Use>, k: Kind)
    requires UseGrows(a, b, k) && UseGrows(b, c, k)
    ensures UseGrows(a, c, k)
  {
    assert forall p: nat :: p < |b| ==> c[p] == c[..|b|][p];
    assert forall p: nat :: p < |a| ==> b[p] == b[..|a|][p];
  }

  // ---- a listing follows its pages -----------------------------------------------------

  lemma InMemoryFrame(V: seq<Page>, W: seq<Page>, d: Listing)
    requires InMemory(V, d) && |V| <= |W| && forall i :: 0 <= i < |d.chain| ==> W[d.chain[i]] == V[d.chain[i]]
    ensures InMemory(W, d)
  {
    hide HeaderOk, NextOf, CountOf, AllEntries;
    ChainFrame(d.kind, V, W, d.chain);
    AllEntriesFrame(d.kind, V, W, d.chain);
  }

  /** The last page lists one more entry. */
  lemma InMemoryAppend(V: seq<Page>, d: Listing, e: seq<byte>)
    requires |V| <= INVALID_ID && InMemory(V, d) && d.count < Capacity(d.kind) && |e| == EntrySize(d.kind)
    ensures d.last < |V| && HeaderOk(d.kind, V[d.last]) && CountOf(V[d.last]) < Capacity(d.kind)
    ensures InMemory(V[d.last := WithEntry(d.kind, V[d.last], e)], d.(raw := d.raw + [e], count := d.count + 1))
  {
    hide HeaderOk, NextOf, Entries, WithEntry, EntryAt;
    var p := d.last;
    assert HeaderOk(d.kind, V[p]);
    AppendedMeaning(d.kind, V[p], e);
    var q := WithEntry(d.kind, V[p], e);
    var W := V[p := q];
    ChainRewrite(d.kind, V, d.chain, p, q);
    ChainAcyclic(d.kind, V, d.chain);
    var n := |d.chain| - 1;
    AllEntriesFrame(d.kind, V, W, d.chain[..n]);
    var front := AllEntries(d.kind, V, d.chain[..n]);
    assert AllEntries(d.kind, W, d.chain) == front + (Entries(d.kind, V[p]) + [e]);
    assert front + (Entries(d.kind, V[p]) + [e]) == d.raw + [e];
    assert CountOf(q) == |Entries(d.kind, q)|;
    assert CountOf(V[p]) == |Entries(d.kind, V[p])|;
  }

  /** A new, empty page is linked behind the last one. */
  lemma InMemoryLink(V: seq<Page>, d: Listing, next: nat)
    requires |V| <= INVALID_ID && InMemory(V, d) && next < |V| && next !in d.chain && V[next] == EmptyPage(d.kind)
    ensures d.last < |V| && HeaderOk(d.kind, V[d.last])
    ensures InMemory(V[d.last := WithNext(V[d.last], next)], d.(chain := d.chain + [next], last := next, count := 0))
  {
    hide HeaderOk, NextOf, Entries, WithNext, EmptyPage;
    var p := d.last;
    assert HeaderOk(d.kind, V[p]);
    LinkedMeaning(d.kind, V[p], next);
    EmptyPageMeaning(d.kind);
    var q := WithNext(V[p], next);
    var W := V[p := q];
    ChainGrows(d.kind, V, d.chain, q, next);
    ChainAcyclic(d.kind, V, d.chain);
    var n := |d.chain| - 1;
    AllEntriesFrame(d.kind, V, W, d.chain[..n]);
    assert AllEntries(d.kind, W, d.chain) == d.raw;
    assert W[next] == V[next];
    AllEntriesSnoc(d.kind, W, d.chain, next);
    assert d.raw + [] == d.raw;
    assert CountOf(W[next]) == |Entries(d.kind, W[next])|;
  }

  /** In a well-formed file the pages of a chain all have its use, and the last one has no successor. */
  lemma ListingFacts(V: seq<Page>, use: seq<Use>, d: Listing)
    requires Well(V, use) && LinkPage(use, d.kind, d.root) && InMemory(V, d)
    ensures |V| == |use| <= INVALID_ID && d.chain == Follow(V, use, d.kind, d.root)
    ensures forall i :: 0 <= i < |d.chain| ==> d.chain[i] < |V| && use[d.chain[i]] == Link(d.kind)
    ensures d.last in d.chain && d.last < |V| && use[d.last] == Link(d.kind)
    ensures NextOf(V[d.last]) == INVALID_ID && HeaderOk(d.kind, V[d.last])
  {
    hide Follow, EntriesOk, LinksOk, HeaderOk, NextOf, AllEntries, PageOk;
    ChainUnique(d.kind, V, Follow(V, use, d.kind, d.root), d.chain);
  }

  /** Listing an entry that may be listed is a permitted change, and the listing follows it. */
  lemma AppendFits(V: seq<Page>, use: seq<Use>, d: Listing, e: seq<byte>)
    requires Well(V, use) && LinkPage(use, d.kind, d.root) && InMemory(V, d) && d.count < Capacity(d.kind)
    requires |V| == |use| && |e| == EntrySize(d.kind) && MayList(V, use, d.kind, e)
    ensures
      && d.last < |V| && d.last in d.chain && use[d.last] == Link(d.kind) && HeaderOk(d.kind, V[d.last])
      && CountOf(V[d.last]) < Capacity(d.kind)
    ensures var q := WithEntry(d.kind, V[d.last], e);
            && Precedes(use[d.last], V[d.last], q) && Precedes(use[d.last], q, q) && Well(V[d.last := q], use)
            && InMemory(V[d.last := q], d.(raw := d.raw + [e], count := d.count + 1))
            && (Sole(V, use, d.kind, d.chain) ==> Sole(V[d.last := q], use, d.kind, d.chain))
  {
    hide Well, WithEntry, HeaderOk, CountOf, Precedes, MayList, AllEntries, Follow;
    ListingFacts(V, use, d);
    InMemoryAppend(V, d, e);
    AppendKeeps(V, use, d.kind, d.last, e);
    var W := V[d.last := WithEntry(d.kind, V[d.last], e)];
    forall p: nat, i: nat | Sole(V, use, d.kind, d.chain) && Lists(W, use, d.kind, p, i)
      ensures p in d.chain
    {
      if p != d.last { assert Lists(V, use, d.kind, p, i); }
    }
  }

  lemma AddedFrame(V: seq<Page>, W: seq<Page>, use: seq<Use>, used: seq<Use>, d: Listing)
    requires Well(V, use) && LinkPage(use, d.kind, d.root) && InMemory(V, d) && Extends(V, W, use, used)
    ensures InMemory(W, d) && LinkPage(used, d.kind, d.root)
  {
    hide Well, AllEntries, HeaderOk, NextOf, CountOf, Follow;
    ListingFacts(V, use, d);
    assert forall p: nat :: p < |V| ==> W[p] == W[..|V|][p];
    InMemoryFrame(V, W, d);
  }

  /** Linking the last page to page n is a permitted change, and the listing follows it. */
  ghost predicate MayFollow(V: seq<Page>, use: seq<Use>, d: Listing, n: nat) {
    && d.last < |V| == |use| && use[d.last] == Link(d.kind)
    && var q := WithNext(V[d.last], n);
    && Precedes(use[d.last], V[d.last], q) && Precedes(use[d.last], q, q) && Well(V[d.last := q], use)
    && InMemory(V[d.last := q], d.(chain := d.chain + [n], last := n, count := 0))
  }

  lemma ExtendFits(V: seq<Page>, use: seq<Use>, d: Listing)
    requires Well(V, use) && LinkPage(use, d.kind, d.root) && InMemory(V, d) && |V| < INVALID_ID
    ensures var W, used := V + [EmptyPage(d.kind)], use + [Link(d.kind)];
            && d.last < |V| == |use| && d.last in d.chain
            && InMemory(W, d) && LinkPage(used, d.kind, d.root) && MayFollow(W, used, d, |V|)
  {
    hide Well, WithNext, EmptyPage, HeaderOk, NextOf, CountOf, Precedes, MayLink, AllEntries, Follow;
    var W, used := V + [EmptyPage(d.kind)], use + [Link(d.kind)];
    ListingFacts(V, use, d);
    AddKeeps(V, use, Link(d.kind), EmptyPage(d.kind));
    InMemoryFrame(V, W, d);
    InMemoryLink(W, d, |V|);
    LinkKeeps(W, used, d.kind, d.last, |V|);
  }

  /** Extending the chain lists nothing and touches only the last page; what could be listed still can. */
  lemma ExtendedFacts(V: seq<Page>, W: seq<Page>, use: seq<Use>, used: seq<Use>, d: Listing, s: Status, e: seq<byte>)
    requires Well(V, use) && LinkPage(use, d.kind, d.root) && InMemory(V, d) && Extended(V, W, use, used, d, s)
    requires |V| == |use| && |e| == EntrySize(d.kind) && MayList(V, use, d.kind, e)
    ensures |W| == |used| && MayList(W, used, d.kind, e)
    ensures Touches(V, W, d.chain) && UseGrows(use, used, d.kind)
    ensures s.Ok? ==> forall p :: p in d.chain + [|V|] ==> p in d.chain || p >= |V|
    ensures Sole(V, use, d.kind, d.chain) ==> Sole(W, used, d.kind, if s.Ok? then d.chain + [|V|] else d.chain)
  {
    hide Well, WithNext, EmptyPage, HeaderOk, NextOf, AllEntries, EntryAt, IdOf, Entries, Follow, NameOf, RootOf, Clash;
    ListingFacts(V, use, d);
    EmptyPageMeaning(d.kind);
    LinkedMeaning(d.kind, V[d.last], |V|);
    forall p: nat, i: nat | Lists(W, used, d.kind, p, i)
      ensures Lists(V, use, d.kind, p, i) && EntryAt(d.kind, W[p], i) == EntryAt(d.kind, V[p], i)
    {
      assert Entries(d.kind, W[p])[i] == EntryAt(d.kind, W[p], i);
      if p < |V| { assert p != d.last ==> W[p] == V[p]; }
      assert p < |V| && Entries(d.kind, W[p]) == Entries(d.kind, V[p]);
      assert CountOf(V[p]) == |Entries(d.kind, V[p])|;
    }
    if d.kind == Catalog {
      forall q: nat | LinkPage(used, Directory, q)
        ensures NextOf(W[q]) != RootOf(e)
      {
        assert q < |V| && q != d.last && W[q] == V[q];
        assert LinkPage(use, Directory, q);
      }
    }
  }

  lemma TouchesTrans(V: seq<Page>, W: seq<Page>, X: seq<Page>, a: seq<nat>, b: seq<nat>)
    requires Touches(V, W, a) && Touches(W, X, b) && forall p :: p in b ==> p in a || p >= |V|
    ensures Touches(V, X, a)
  {
  }
}
