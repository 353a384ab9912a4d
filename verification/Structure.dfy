/**
 What the pages of a database file are for, and why a crash cannot break the
 structure they form. Every page has a use; pages of an addition that did not
 finish are unused and nothing refers to them. An image of a page precedes
 another when it lists a prefix of its entries and has no link or the same one.
 Recovery can bring back any mixture of preceding images, one per page, and a
 mixture of images that precede a well-formed file is well formed.
 */
module Structure {
  import opened Bytes
  import opened Chain
  import opened Results
  import SP = SlottedPage

  datatype Use = Unused | Header | Link(kind: Kind) | Data

  // ---- entries -----------------------------------------------------------------

  /** The data page a directory entry names. */
  function IdOf(e: seq<byte>): nat { Decode(e) }

  const NAME_SIZE: nat := 32

  /** Letters, digits and the underscore. */
  predicate NameByte(b: byte) {
    0x41 <= b <= 0x5A || 0x61 <= b <= 0x7A || 0x30 <= b <= 0x39 || b == 0x5F
  }

  predicate ValidName(name: seq<byte>) {
    1 <= |name| < NAME_SIZE && forall i :: 0 <= i < |name| ==> NameByte(name[i])
  }

  /** Up to the first zero byte; nothing when there is none. */
  function NameIn(field: seq<byte>): (r: Option<seq<byte>>)
    ensures r.Some? ==> |r.value| < |field| && r.value == field[..|r.value|] && field[|r.value|] == 0 && 0 !in r.value
    ensures r.None? ==> 0 !in field
  {
    if field == [] then None
    else if field[0] == 0 then Some([])
    else
      match NameIn(field[1..])
      case None => None
      case Some(rest) => Some([field[0]] + rest)
  }

  function NameOf(e: seq<byte>): Option<seq<byte>>
    requires |e| == 36
  {
    NameIn(e[..NAME_SIZE])
  }

  /** The directory root a catalog entry names. */
  function RootOf(e: seq<byte>): nat
    requires |e| == 36
  {
    Decode(e[NAME_SIZE..])
  }

  function CatalogEntry(name: seq<byte>, root: nat): (e: seq<byte>)
    requires |name| < NAME_SIZE
    ensures |e| == 36
  {
    name + Zeros(NAME_SIZE - |name|) + Encode(root, 4)
  }

  lemma CatalogEntryReads(name: seq<byte>, root: nat)
    requires ValidName(name) && root < 0x1_0000_0000
    ensures NameOf(CatalogEntry(name, root)) == Some(name) && RootOf(CatalogEntry(name, root)) == root
  {
    hide Encode, Decode, NameIn;
    RadixValues();
    DecodeEncode(root, 4);
    var e := CatalogEntry(name, root);
    assert e[NAME_SIZE..] == Encode(root, 4);
    var field := e[..NAME_SIZE];
    assert field == name + [0] + Zeros(NAME_SIZE - |name| - 1);
    NameInPadded(name, Zeros(NAME_SIZE - |name| - 1));
  }

  lemma {:induction false} NameInPadded(name: seq<byte>, rest: seq<byte>)
    requires 0 !in name
    ensures NameIn(name + [0] + rest) == Some(name)
  {
    var field := name + [0] + rest;
    if name != [] {
      assert field[1..] == name[1..] + [0] + rest;
      NameInPadded(name[1..], rest);
      assert name == [name[0]] + name[1..];
    }
  }

  // ---- the well-formed file ----------------------------------------------------

  predicate LinkPage(use: seq<Use>, k: Kind, p: nat) {
    p < |use| && use[p] == Link(k)
  }

  /** Headers are valid, links go to later pages of the same kind, data pages are sound. */
  predicate PageOk(V: seq<Page>, use: seq<Use>, p: nat)
    requires p < |V| == |use|
  {
    match use[p]
    case Unused => true
    case Header => true
    case Data => SP.Sound(V[p])
    case Link(k) =>
      && HeaderOk(k, V[p])
      && (NextOf(V[p]) == INVALID_ID || (p < NextOf(V[p]) < |V| && use[NextOf(V[p])] == Link(k)))
  }

  /** Page p lists an i-th entry. */
  predicate Lists(V: seq<Page>, use: seq<Use>, k: Kind, p: nat, i: nat)
    requires |V| == |use|
  {
    LinkPage(use, k, p) && HeaderOk(k, V[p]) && i < CountOf(V[p]) <= Capacity(k)
  }

  predicate EntryOk(V: seq<Page>, use: seq<Use>, k: Kind, p: nat, i: nat)
    requires |V| == |use| && Lists(V, use, k, p, i)
  {
    var e := EntryAt(k, V[p], i);
    match k
    case Directory => IdOf(e) < |V| && use[IdOf(e)] == Data
    case Catalog =>
      NameOf(e).Some? && ValidName(NameOf(e).value) && RootOf(e) < |V| && use[RootOf(e)] == Link(Directory)
  }

  /** Two entries that may not stand together: the same data page, the same name or the same root. */
  predicate Clash(k: Kind, a: seq<byte>, b: seq<byte>)
    requires |a| == |b| == EntrySize(k)
  {
    match k
    case Directory => IdOf(a) == IdOf(b)
    case Catalog => NameOf(a) == NameOf(b) || RootOf(a) == RootOf(b)
  }

  ghost predicate EntriesOk(V: seq<Page>, use: seq<Use>)
    requires |V| == |use|
  {
    && (forall k: Kind, p: nat, i: nat :: Lists(V, use, k, p, i) ==> EntryOk(V, use, k, p, i))
    && (forall k: Kind, p: nat, i: nat, q: nat, j: nat ::
        Lists(V, use, k, p, i) && Lists(V, use, k, q, j) && Clash(k, EntryAt(k, V[p], i), EntryAt(k, V[q], j)) ==>
          p == q && i == j)
  }

  /** No page is linked to twice, and no table's root is linked to. */
  ghost predicate LinksOk(V: seq<Page>, use: seq<Use>)
    requires |V| == |use|
  {
    && (forall k: Kind, p: nat, q: nat ::
        LinkPage(use, k, p) && LinkPage(use, k, q) && NextOf(V[p]) == NextOf(V[q]) != INVALID_ID ==> p == q)
    && (forall p: nat, i: nat, q: nat :: Lists(V, use, Catalog, p, i) && LinkPage(use, Directory, q) ==>
        NextOf(V[q]) != RootOf(EntryAt(Catalog, V[p], i)))
  }

  ghost predicate Well(V: seq<Page>, use: seq<Use>) {
    && |V| == |use| <= INVALID_ID
    && (forall p :: 0 <= p < |V| ==> PageOk(V, use, p))
    && EntriesOk(V, use) && LinksOk(V, use)
  }

  // ---- earlier images ----------------------------------------------------------

  /** `a` can have been the image of a page before it was `b`. */
  predicate Precedes(u: Use, a: Page, b: Page) {
    match u
    case Unused => true
    case Header => a == b
    case Data => SP.Sound(a)
    case Link(k) =>
      && HeaderOk(k, a) && HeaderOk(k, b) && Entries(k, a) <= Entries(k, b)
      && (NextOf(a) == INVALID_ID || NextOf(a) == NextOf(b))
  }

  lemma PrecedesTrans(u: Use, a: Page, b: Page, c: Page)
    requires Precedes(u, a, b) && Precedes(u, b, c)
    ensures Precedes(u, a, c)
  {
    hide SP.Sound, HeaderOk, Entries, NextOf;
  }

  lemma PrecedesSelf(V: seq<Page>, use: seq<Use>, p: nat)
    requires Well(V, use) && p < |V|
    ensures Precedes(use[p], V[p], V[p])
  {
    hide SP.Sound, HeaderOk, Entries, NextOf, EntriesOk, LinksOk;
    assert PageOk(V, use, p);
  }

  ghost predicate Earlier(D: seq<Page>, V: seq<Page>, use: seq<Use>) {
    |D| == |V| == |use| && forall p :: 0 <= p < |V| ==> Precedes(use[p], D[p], V[p])
  }

  lemma EarlierEntry(D: seq<Page>, V: seq<Page>, use: seq<Use>, k: Kind, p: nat, i: nat)
    requires Earlier(D, V, use) && Lists(D, use, k, p, i)
    ensures Lists(V, use, k, p, i) && EntryAt(k, D[p], i) == EntryAt(k, V[p], i)
  {
    hide SP.Sound, NextOf, EntryAt;
    assert Precedes(use[p], D[p], V[p]);
    assert Entries(k, D[p])[i] == Entries(k, V[p])[i];
  }

  lemma EarlierEntries(D: seq<Page>, V: seq<Page>, use: seq<Use>)
    requires Well(V, use) && Earlier(D, V, use)
    ensures EntriesOk(D, use)
  {
    hide SP.Sound, HeaderOk, NextOf, EntryAt, Clash, PageOk, LinksOk, Precedes;
    forall k: Kind, p: nat, i: nat | Lists(D, use, k, p, i)
      ensures EntryOk(D, use, k, p, i)
    {
      EarlierEntry(D, V, use, k, p, i);
      SameEntryOk(D, V, use, k, p, i);
    }
    forall k: Kind, p: nat, i: nat, q: nat, j: nat | Lists(D, use, k, p, i) && Lists(D, use, k, q, j)
        && Clash(k, EntryAt(k, D[p], i), EntryAt(k, D[q], j))
      ensures p == q && i == j
    {
      EarlierEntry(D, V, use, k, p, i);
      EarlierEntry(D, V, use, k, q, j);
    }
  }

  lemma SameEntryOk(D: seq<Page>, V: seq<Page>, use: seq<Use>, k: Kind, p: nat, i: nat)
    requires |D| == |V| == |use| && Lists(V, use, k, p, i) && Lists(D, use, k, p, i)
    requires EntryAt(k, D[p], i) == EntryAt(k, V[p], i) && EntryOk(V, use, k, p, i)
    ensures EntryOk(D, use, k, p, i)
  {
  }

  lemma EarlierPage(D: seq<Page>, V: seq<Page>, use: seq<Use>, p: nat)
    requires Well(V, use) && Earlier(D, V, use) && p < |V|
    ensures PageOk(D, use, p)
    ensures use[p].Link? ==> NextOf(D[p]) == INVALID_ID || NextOf(D[p]) == NextOf(V[p])
  {
    hide SP.Sound, HeaderOk, NextOf, Entries, EntriesOk, LinksOk;
    assert PageOk(V, use, p) && Precedes(use[p], D[p], V[p]);
  }

  /** Any mixture of earlier images of a well-formed file is well formed. */
  lemma EarlierIsWell(D: seq<Page>, V: seq<Page>, use: seq<Use>)
    requires Well(V, use) && Earlier(D, V, use)
    ensures Well(D, use)
  {
    hide SP.Sound, HeaderOk, NextOf, EntryAt, Clash, PageOk, Precedes, EntriesOk, EntryOk;
    EarlierEntries(D, V, use);
    forall p | 0 <= p < |V|
      ensures PageOk(D, use, p) && (use[p].Link? ==> NextOf(D[p]) == INVALID_ID || NextOf(D[p]) == NextOf(V[p]))
    {
      EarlierPage(D, V, use, p);
    }
    forall p: nat, i: nat, q: nat | Lists(D, use, Catalog, p, i) && LinkPage(use, Directory, q)
      ensures NextOf(D[q]) != RootOf(EntryAt(Catalog, D[p], i))
    {
      EarlierEntry(D, V, use, Catalog, p, i);
      CatalogRootExists(V, use, p, i);
    }
  }

  lemma CatalogRootExists(V: seq<Page>, use: seq<Use>, p: nat, i: nat)
    requires Well(V, use) && Lists(V, use, Catalog, p, i)
    ensures RootOf(EntryAt(Catalog, V[p], i)) < |V| <= INVALID_ID
  {
    hide SP.Sound, HeaderOk, NextOf, EntryAt, Clash, PageOk, LinksOk;
    assert EntryOk(V, use, Catalog, p, i);
  }

  // ---- a well-formed file opens ------------------------------------------------

  predicate Increasing(c: seq<nat>) {
    forall i, j :: 0 <= i < j < |c| ==> c[i] < c[j]
  }

  /** The chain from page p. */
  ghost function Follow(V: seq<Page>, use: seq<Use>, k: Kind, p: nat): (c: seq<nat>)
    requires Well(V, use) && LinkPage(use, k, p)
    ensures IsChain(k, V, c) && c[0] == p && Increasing(c)
    ensures forall i :: 0 <= i < |c| ==> LinkPage(use, k, c[i])
    decreases |V| - p
  {
    assert PageOk(V, use, p);
    if NextOf(V[p]) == INVALID_ID then [p]
    else
      var rest := Follow(V, use, k, NextOf(V[p]));
      FollowStep(V, k, p, rest);
      [p] + rest
  }

  lemma FollowStep(V: seq<Page>, k: Kind, p: nat, rest: seq<nat>)
    requires p < |V| && HeaderOk(k, V[p]) && IsChain(k, V, rest) && NextOf(V[p]) == rest[0] > p && Increasing(rest)
    ensures IsChain(k, V, [p] + rest) && Increasing([p] + rest)
  {
    hide HeaderOk, NextOf;
    var c := [p] + rest;
    forall i | 0 <= i < |c| - 1
      ensures NextOf(V[c[i]]) == c[i + 1]
    {
      if i > 0 { assert c[i] == rest[i - 1] && c[i + 1] == rest[i]; }
    }
  }

  /** The entry checks of a directory walk: the page exists and is not the root. */
  predicate IdsOk(V: seq<Page>, root: nat, es: seq<seq<byte>>) {
    forall j :: 0 <= j < |es| ==> IdOf(es[j]) != INVALID_ID && IdOf(es[j]) != root && IdOf(es[j]) < |V|
  }

  /** Everything opening a table checks, for the chain from its root. */
  predicate TableChain(V: seq<Page>, root: nat, c: seq<nat>) {
    && IsChain(Directory, V, c) && c[0] == root && |c| - 1 <= MaxWalk(|V|)
    && IdsOk(V, root, AllEntries(Directory, V, c))
  }

  ghost predicate TableOpens(V: seq<Page>, root: nat) {
    exists c :: TableChain(V, root, c)
  }

  /** The entry checks of a catalog walk: terminated valid names, none twice, and a root id. */
  predicate NamesOk(es: seq<seq<byte>>) {
    && (forall j :: 0 <= j < |es| ==>
          |es[j]| == 36 && NameOf(es[j]).Some? && ValidName(NameOf(es[j]).value) && RootOf(es[j]) != INVALID_ID)
    && (forall i, j :: 0 <= i < j < |es| ==> NameOf(es[i]) != NameOf(es[j]))
  }

  /** Everything opening a catalog checks: its own chain, then every table it names. */
  ghost predicate CatalogChain(V: seq<Page>, root: nat, c: seq<nat>) {
    && IsChain(Catalog, V, c) && c[0] == root && |c| - 1 <= MaxWalk(|V|)
    && var es := AllEntries(Catalog, V, c);
       NamesOk(es) && forall j :: 0 <= j < |es| ==> RootOf(es[j]) < |V| && TableOpens(V, RootOf(es[j]))
  }

  ghost predicate CatalogOpens(V: seq<Page>, root: nat) {
    exists c :: CatalogChain(V, root, c)
  }

  lemma ListedInChain(V: seq<Page>, use: seq<Use>, k: Kind, c: seq<nat>, j: nat) returns (i: nat, m: nat)
    requires Well(V, use) && (forall i :: 0 <= i < |c| ==> LinkPage(use, k, c[i]) && HeaderOk(k, V[c[i]]))
    requires j < |AllEntries(k, V, c)|
    ensures
      && i < |c| && Lists(V, use, k, c[i], m) && AllEntries(k, V, c)[j] == EntryAt(k, V[c[i]], m)
      && EntryOk(V, use, k, c[i], m)
  {
    hide PageOk, LinksOk, NextOf, EntryAt, EntryOk, Clash, AllEntries;
    i, m := EntryOfSome(k, V, c, j);
    assert Lists(V, use, k, c[i], m);
  }

  predicate Clashless(k: Kind, es: seq<seq<byte>>) {
    && (forall a :: 0 <= a < |es| ==> |es[a]| == EntrySize(k))
    && (forall a, b :: 0 <= a < b < |es| ==> !Clash(k, es[a], es[b]))
  }

  lemma ListedApart(V: seq<Page>, use: seq<Use>, k: Kind, p: nat, i: nat, q: nat, j: nat)
    requires Well(V, use) && Lists(V, use, k, p, i) && Lists(V, use, k, q, j) && (p != q || i != j)
    ensures !Clash(k, EntryAt(k, V[p], i), EntryAt(k, V[q], j))
  {
    hide PageOk, LinksOk, NextOf, EntryAt, EntryOk, Clash;
  }

  lemma PageClashless(V: seq<Page>, use: seq<Use>, k: Kind, p: nat)
    requires Well(V, use) && LinkPage(use, k, p) && HeaderOk(k, V[p])
    ensures Clashless(k, Entries(k, V[p]))
  {
    hide PageOk, EntriesOk, LinksOk, EntryAt, Clash;
    var es := Entries(k, V[p]);
    forall a, b | 0 <= a < b < |es|
      ensures !Clash(k, es[a], es[b])
    {
      ListedApart(V, use, k, p, a, p, b);
    }
  }

  lemma ClashlessConcat(k: Kind, a: seq<seq<byte>>, b: seq<seq<byte>>)
    requires Clashless(k, a) && Clashless(k, b)
    requires forall i, j :: 0 <= i < |a| && 0 <= j < |b| ==> !Clash(k, a[i], b[j])
    ensures Clashless(k, a + b)
  {
    hide Clash;
    var es := a + b;
    forall i, j | 0 <= i < j < |es|
      ensures !Clash(k, es[i], es[j])
    {
      if j < |a| {
        assert es[i] == a[i] && es[j] == a[j];
      } else if i < |a| {
        assert es[i] == a[i] && es[j] == b[j - |a|];
      } else {
        assert es[i] == b[i - |a|] && es[j] == b[j - |a|];
      }
    }
  }

  /** No two entries along a chain of a well-formed file clash. */
  lemma {:induction false} NoClash(V: seq<Page>, use: seq<Use>, k: Kind, c: seq<nat>)
    requires
      && Well(V, use) && NoRepeats(c) && (forall i :: 0 <= i < |c| ==> LinkPage(use, k, c[i]) && HeaderOk(k, V[c[i]]))
    ensures Clashless(k, AllEntries(k, V, c))
  {
    hide PageOk, EntriesOk, LinksOk, EntryAt, EntryOk, Clash, Clashless, HeaderOk;
    if c == [] {
      NothingClashes(k);
    } else {
      var n := |c| - 1;
      var front, last := AllEntries(k, V, c[..n]), Entries(k, V[c[n]]);
      NoClash(V, use, k, c[..n]);
      PageClashless(V, use, k, c[n]);
      forall i, j | 0 <= i < |front| && 0 <= j < |last|
        ensures !Clash(k, front[i], last[j])
      {
        LaterPageApart(V, use, k, c, i, j);
      }
      ClashlessConcat(k, front, last);
    }
  }

  lemma NothingClashes(k: Kind)
    ensures Clashless(k, [])
  {
  }

  lemma LaterPageApart(V: seq<Page>, use: seq<Use>, k: Kind, c: seq<nat>, i: nat, j: nat)
    requires
      && Well(V, use) && NoRepeats(c) && c != []
      && (forall i :: 0 <= i < |c| ==> LinkPage(use, k, c[i]) && HeaderOk(k, V[c[i]]))
    requires i < |AllEntries(k, V, c[..|c| - 1])| && j < |Entries(k, V[Last(c)])|
    ensures !Clash(k, AllEntries(k, V, c[..|c| - 1])[i], Entries(k, V[Last(c)])[j])
  {
    hide PageOk, EntriesOk, LinksOk, EntryAt, EntryOk, Clash, AllEntries;
    var a, m := ListedInChain(V, use, k, c[..|c| - 1], i);
    assert c[..|c| - 1][a] == c[a];
    ListedApart(V, use, k, c[a], m, Last(c), j);
  }

  lemma FollowFits(V: seq<Page>, use: seq<Use>, k: Kind, root: nat)
    requires Well(V, use) && LinkPage(use, k, root) && |V| < 0xFFFF_FFFE
    ensures var c := Follow(V, use, k, root); |c| - 1 <= MaxWalk(|V|) && NoRepeats(c)
  {
    hide Follow, PageOk, EntriesOk, LinksOk;
    BoundNeverTrips(k, V, Follow(V, use, k, root));
  }

  /** What a table of a well-formed file lists: sound data pages, all different. */
  lemma TableData(V: seq<Page>, use: seq<Use>, root: nat)
    requires Well(V, use) && LinkPage(use, Directory, root)
    ensures var c := Follow(V, use, Directory, root);
            && NoRepeats(c) && IsChain(Directory, V, c)
            && var es := AllEntries(Directory, V, c);
               && IdsOk(V, root, es)
               && (forall j :: 0 <= j < |es| ==>
                   IdOf(es[j]) < |V| && use[IdOf(es[j])] == Data && SP.Sound(V[IdOf(es[j])]))
               && (forall i, j :: 0 <= i < j < |es| ==> IdOf(es[i]) != IdOf(es[j]))
  {
    hide Follow, EntriesOk, LinksOk, HeaderOk, NextOf, SP.Sound, AllEntries, IsChain;
    var c := Follow(V, use, Directory, root);
    ChainAcyclic(Directory, V, c);
    ChainHeaders(Directory, V, c);
    var es := AllEntries(Directory, V, c);
    forall j | 0 <= j < |es|
      ensures IdOf(es[j]) < |V| && use[IdOf(es[j])] == Data && SP.Sound(V[IdOf(es[j])]) && IdOf(es[j]) != root
    {
      var i, m := ListedInChain(V, use, Directory, c, j);
      assert PageOk(V, use, IdOf(es[j]));
    }
    NoClash(V, use, Directory, c);
    forall i, j | 0 <= i < j < |es|
      ensures IdOf(es[i]) != IdOf(es[j])
    {
      assert !Clash(Directory, es[i], es[j]);
    }
  }

  /** Every table of a well-formed file opens. */
  lemma WellTableOpens(V: seq<Page>, use: seq<Use>, root: nat)
    requires Well(V, use) && LinkPage(use, Directory, root) && |V| < 0xFFFF_FFFE
    ensures TableChain(V, root, Follow(V, use, Directory, root)) && Increasing(Follow(V, use, Directory, root))
  {
    hide Follow, Well, HeaderOk, NextOf, SP.Sound, AllEntries;
    FollowFits(V, use, Directory, root);
    TableData(V, use, root);
  }

  lemma ChainHeaders(k: Kind, V: seq<Page>, c: seq<nat>)
    requires IsChain(k, V, c)
    ensures forall i :: 0 <= i < |c| ==> c[i] < |V| && HeaderOk(k, V[c[i]])
  {
  }

  /** The catalog of a well-formed file opens, and so does every table it names. */
  lemma WellCatalogOpens(V: seq<Page>, use: seq<Use>, root: nat)
    requires Well(V, use) && LinkPage(use, Catalog, root) && |V| < 0xFFFF_FFFE
    ensures CatalogChain(V, root, Follow(V, use, Catalog, root)) && Increasing(Follow(V, use, Catalog, root))
  {
    hide Follow, PageOk, EntriesOk, LinksOk, HeaderOk, NextOf, AllEntries, IsChain, TableChain, NameOf;
    FollowFits(V, use, Catalog, root);
    var c := Follow(V, use, Catalog, root);
    ChainHeaders(Catalog, V, c);
    var es := AllEntries(Catalog, V, c);
    NoClash(V, use, Catalog, c);
    assert EntrySize(Catalog) == 36;
    forall j | 0 <= j < |es|
      ensures
        && NameOf(es[j]).Some? && ValidName(NameOf(es[j]).value) && RootOf(es[j]) < |V| && TableOpens(V, RootOf(es[j]))
    {
      var i, m := ListedInChain(V, use, Catalog, c, j);
      WellTableOpens(V, use, RootOf(es[j]));
      assert TableChain(V, RootOf(es[j]), Follow(V, use, Directory, RootOf(es[j])));
    }
    forall i, j | 0 <= i < j < |es|
      ensures NameOf(es[i]) != NameOf(es[j])
    {
      assert !Clash(Catalog, es[i], es[j]);
    }
    assert NamesOk(es);
  }

  // ---- changes that keep it well formed ------------------------------------------

  /** A page of records may take any sound image. */
  lemma DataKeeps(V: seq<Page>, use: seq<Use>, p: nat, image: Page)
    requires Well(V, use) && p < |V| && use[p] == Data && SP.Sound(image)
    ensures Well(V[p := image], use)
  {
    hide SP.Sound, HeaderOk, NextOf, EntryAt, Clash;
    var W := V[p := image];
    forall q | 0 <= q < |W|
      ensures PageOk(W, use, q)
    {
      assert PageOk(V, use, q);
    }
    SameLinksWell(V, W, use);
  }

  /** If the linked pages are the same, so are entries and links. */
  lemma SameLinksWell(V: seq<Page>, W: seq<Page>, use: seq<Use>)
    requires Well(V, use) && |W| == |V| && forall p: nat :: p < |V| && use[p].Link? ==> W[p] == V[p]
    ensures EntriesOk(W, use) && LinksOk(W, use)
  {
    hide SP.Sound, HeaderOk, NextOf, EntryAt, Clash, PageOk;
    forall k: Kind, p: nat, i: nat | Lists(W, use, k, p, i)
      ensures EntryOk(W, use, k, p, i)
    {
      assert Lists(V, use, k, p, i) && EntryOk(V, use, k, p, i);
    }
    forall k: Kind, p: nat, i: nat, q: nat, j: nat |
        Lists(W, use, k, p, i) && Lists(W, use, k, q, j) && Clash(k, EntryAt(k, W[p], i), EntryAt(k, W[q], j))
      ensures p == q && i == j
    {
      assert Lists(V, use, k, p, i) && Lists(V, use, k, q, j);
    }
    forall p: nat, i: nat, q: nat | Lists(W, use, Catalog, p, i) && LinkPage(use, Directory, q)
      ensures NextOf(W[q]) != RootOf(EntryAt(Catalog, W[p], i))
    {
      assert Lists(V, use, Catalog, p, i);
    }
  }

  /** An entry that may be added: it names a page of the right use, and nothing listed clashes with it. */
  ghost predicate MayList(V: seq<Page>, use: seq<Use>, k: Kind, e: seq<byte>)
    requires |V| == |use| && |e| == EntrySize(k)
  {
    && (forall p: nat, i: nat :: Lists(V, use, k, p, i) ==> !Clash(k, EntryAt(k, V[p], i), e))
    && match k
       case Directory => IdOf(e) < |V| && use[IdOf(e)] == Data
       case Catalog =>
         && NameOf(e).Some? && ValidName(NameOf(e).value) && RootOf(e) < |V| && use[RootOf(e)] == Link(Directory)
         && (forall q: nat :: LinkPage(use, Directory, q) ==> NextOf(V[q]) != RootOf(e))
  }

  /** After an append every listed entry is an old one or the new one. */
  lemma AppendedEntry(V: seq<Page>, use: seq<Use>, k: Kind, p: nat, e: seq<byte>, k2: Kind, p2: nat, i2: nat)
    requires
      && |V| == |use| && LinkPage(use, k, p) && HeaderOk(k, V[p]) && CountOf(V[p]) < Capacity(k) && |e| == EntrySize(k)
    requires Lists(V[p := WithEntry(k, V[p], e)], use, k2, p2, i2)
    ensures var W := V[p := WithEntry(k, V[p], e)];
            || (k2 == k && p2 == p && i2 == CountOf(V[p]) && EntryAt(k2, W[p2], i2) == e)
            || (Lists(V, use, k2, p2, i2) && EntryAt(k2, W[p2], i2) == EntryAt(k2, V[p2], i2))
  {
    hide SP.Sound, HeaderOk, NextOf, EntryAt, WithEntry;
    if p2 == p {
      AppendedMeaning(k, V[p], e);
      var q := WithEntry(k, V[p], e);
      assert Entries(k, q)[i2] == EntryAt(k, q, i2);
      if i2 < CountOf(V[p]) {
        assert Entries(k, V[p])[i2] == EntryAt(k, V[p], i2);
      }
    }
  }

  lemma AppendKeepsEntries(V: seq<Page>, use: seq<Use>, k: Kind, p: nat, e: seq<byte>)
    requires Well(V, use) && LinkPage(use, k, p) && HeaderOk(k, V[p]) && CountOf(V[p]) < Capacity(k)
    requires |e| == EntrySize(k) && MayList(V, use, k, e)
    ensures EntriesOk(V[p := WithEntry(k, V[p], e)], use)
  {
    hide SP.Sound, HeaderOk, NextOf, EntryAt, WithEntry, PageOk, Clash;
    var W := V[p := WithEntry(k, V[p], e)];
    forall k2: Kind, p2: nat, i2: nat | Lists(W, use, k2, p2, i2)
      ensures EntryOk(W, use, k2, p2, i2)
    {
      AppendedEntry(V, use, k, p, e, k2, p2, i2);
      if Lists(V, use, k2, p2, i2) { assert EntryOk(V, use, k2, p2, i2); }
    }
    forall k2: Kind, p2: nat, i2: nat, q2: nat, j2: nat |
        Lists(W, use, k2, p2, i2) && Lists(W, use, k2, q2, j2)
            && Clash(k2, EntryAt(k2, W[p2], i2), EntryAt(k2, W[q2], j2))
      ensures p2 == q2 && i2 == j2
    {
      AppendedEntry(V, use, k, p, e, k2, p2, i2);
      AppendedEntry(V, use, k, p, e, k2, q2, j2);
      ClashSymmetric(k2, EntryAt(k2, W[p2], i2), EntryAt(k2, W[q2], j2));
    }
  }

  lemma ClashSymmetric(k: Kind, a: seq<byte>, b: seq<byte>)
    requires |a| == |b| == EntrySize(k)
    ensures Clash(k, a, b) <==> Clash(k, b, a)
  {
  }

  /** Listing one more entry keeps the file well formed and the page's earlier images earlier. */
  lemma AppendKeeps(V: seq<Page>, use: seq<Use>, k: Kind, p: nat, e: seq<byte>)
    requires Well(V, use) && LinkPage(use, k, p) && HeaderOk(k, V[p]) && CountOf(V[p]) < Capacity(k)
    requires |e| == EntrySize(k) && MayList(V, use, k, e)
    ensures Well(V[p := WithEntry(k, V[p], e)], use)
    ensures
      && Precedes(use[p], V[p], WithEntry(k, V[p], e)) && Precedes(use[p], WithEntry(k, V[p], e), WithEntry(k, V[p], e))
  {
    hide SP.Sound, HeaderOk, NextOf, EntryAt, WithEntry, Clash, EntriesOk, Entries;
    var W := V[p := WithEntry(k, V[p], e)];
    AppendKeepsEntries(V, use, k, p, e);
    AppendedMeaning(k, V[p], e);
    forall q | 0 <= q < |W|
      ensures PageOk(W, use, q)
    {
      assert PageOk(V, use, q);
    }
    forall p2: nat, i2: nat, q: nat | Lists(W, use, Catalog, p2, i2) && LinkPage(use, Directory, q)
      ensures NextOf(W[q]) != RootOf(EntryAt(Catalog, W[p2], i2))
    {
      AppendedEntry(V, use, k, p, e, Catalog, p2, i2);
    }
  }

  /** A page that may be linked to: nothing links to it, and it is no table's root. */
  ghost predicate MayLink(V: seq<Page>, use: seq<Use>, k: Kind, n: nat)
    requires |V| == |use|
  {
    && (forall q: nat :: LinkPage(use, k, q) ==> NextOf(V[q]) != n)
    && (k == Directory ==> forall p: nat, i: nat :: Lists(V, use, Catalog, p, i) ==>
        RootOf(EntryAt(Catalog, V[p], i)) != n)
  }

  lemma LinkKeeps(V: seq<Page>, use: seq<Use>, k: Kind, p: nat, n: nat)
    requires Well(V, use) && LinkPage(use, k, p) && HeaderOk(k, V[p]) && NextOf(V[p]) == INVALID_ID
    requires p < n < |V| && LinkPage(use, k, n) && MayLink(V, use, k, n)
    ensures Well(V[p := WithNext(V[p], n)], use)
    ensures Precedes(use[p], V[p], WithNext(V[p], n)) && Precedes(use[p], WithNext(V[p], n), WithNext(V[p], n))
  {
    hide SP.Sound, HeaderOk, NextOf, EntryAt, WithNext, Clash, EntryOk, Entries;
    var W := V[p := WithNext(V[p], n)];
    LinkedMeaning(k, V[p], n);
    forall k2: Kind, p2: nat, i2: nat | Lists(W, use, k2, p2, i2)
      ensures
        && Lists(V, use, k2, p2, i2) && EntryAt(k2, W[p2], i2) == EntryAt(k2, V[p2], i2) && EntryOk(W, use, k2, p2, i2)
    {
      if p2 == p { assert Entries(k, W[p])[i2] == Entries(k, V[p])[i2]; }
      SameEntryOk(W, V, use, k2, p2, i2);
    }
    forall q | 0 <= q < |W|
      ensures PageOk(W, use, q)
    {
      assert PageOk(V, use, q);
    }
  }

  /** What a new page may be used for, given its first image. */
  predicate FirstImage(u: Use, image: Page) {
    match u
    case Unused => true
    case Header => false
    case Data => SP.Sound(image)
    case Link(k) => image == EmptyPage(k)
  }

  lemma AddedEntry(V: seq<Page>, use: seq<Use>, u: Use, image: Page, k: Kind, p: nat, i: nat)
    requires |V| == |use| && FirstImage(u, image) && Lists(V + [image], use + [u], k, p, i)
    ensures p < |V| && Lists(V, use, k, p, i)
  {
    if p == |V| { EmptyPageMeaning(k); }
  }

  /** A new page lists nothing and links to nothing. */
  lemma AddKeeps(V: seq<Page>, use: seq<Use>, u: Use, image: Page)
    requires Well(V, use) && |V| < INVALID_ID && FirstImage(u, image)
    ensures Well(V + [image], use + [u]) && Precedes(u, image, image)
    ensures u.Link? ==> MayLink(V + [image], use + [u], u.kind, |V|)
  {
    hide SP.Sound, HeaderOk, NextOf, EntryAt, Clash, EmptyPage, Entries;
    var W, used := V + [image], use + [u];
    if u.Link? { EmptyPageMeaning(u.kind); }
    forall q | 0 <= q < |W|
      ensures PageOk(W, used, q)
    {
      if q < |V| { assert PageOk(V, use, q); }
    }
    forall k: Kind, p: nat, i: nat | Lists(W, used, k, p, i)
      ensures p < |V| && Lists(V, use, k, p, i) && EntryOk(W, used, k, p, i)
      ensures k == Catalog ==> RootOf(EntryAt(k, W[p], i)) < |V|
    {
      AddedEntry(V, use, u, image, k, p, i);
      assert EntryOk(V, use, k, p, i);
    }
    assert EntriesOk(W, used);
    forall k: Kind, q: nat | LinkPage(used, k, q)
      ensures NextOf(W[q]) == INVALID_ID || (NextOf(W[q]) < |V| && q < |V| && LinkPage(use, k, q) && W[q] == V[q])
    {
      if q < |V| { assert PageOk(V, use, q); }
    }
    forall p: nat, i: nat, q: nat | Lists(W, used, Catalog, p, i) && LinkPage(used, Directory, q)
      ensures NextOf(W[q]) != RootOf(EntryAt(Catalog, W[p], i))
    {
      assert Lists(V, use, Catalog, p, i);
    }
  }
}
