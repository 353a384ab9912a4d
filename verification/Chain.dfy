/**
 Linked pages on disk. A table's directory and the catalog share one page
 layout: magic, version, an entry count, the id of the next page and an array
 of fixed-size entries. This module gives the layout, what a chain of such pages
 is, and why walking one is exact: at most one chain leaves any page, it never
 repeats, and it is no longer than the file.
 */
module Chain {
  import opened Bytes

  datatype Kind = Directory | Catalog

  const VERSION: nat := 1
  const HEADER_SIZE: nat := 16

  function Magic(k: Kind): (m: seq<byte>)
    ensures |m| == 4
  {
    match k
    case Directory => [0x4E, 0x48, 0x54, 0x31]
    case Catalog => [0x4E, 0x43, 0x41, 0x31]
  }

  function EntrySize(k: Kind): nat {
    match k
    case Directory => 4
    case Catalog => 36
  }

  /** How many entries one page holds. */
  function Capacity(k: Kind): (n: nat)
    ensures HEADER_SIZE + EntrySize(k) * n <= PAGE_SIZE < HEADER_SIZE + EntrySize(k) * (n + 1)
  {
    match k
    case Directory => 1020
    case Catalog => 113
  }

  function CountOf(p: Page): nat { U32(p, 8) }

  function NextOf(p: Page): nat { U32(p, 12) }

  /** What the header validation checks. */
  predicate HeaderOk(k: Kind, p: Page) {
    p[..4] == Magic(k) && U16(p, 4) == VERSION && CountOf(p) <= Capacity(k)
  }

  function At(k: Kind, i: nat): nat {
    HEADER_SIZE + EntrySize(k) * i
  }

  function EntryAt(k: Kind, p: Page, i: nat): (e: seq<byte>)
    requires i < Capacity(k)
    ensures |e| == EntrySize(k)
  {
    p[At(k, i)..At(k, i) + EntrySize(k)]
  }

  /** The entries a page lists. */
  function Entries(k: Kind, p: Page): (es: seq<seq<byte>>)
    requires HeaderOk(k, p)
    ensures |es| == CountOf(p)
    ensures forall i :: 0 <= i < |es| ==> es[i] == EntryAt(k, p, i)
  {
    seq(CountOf(p), i requires 0 <= i < CountOf(p) => EntryAt(k, p, i))
  }

  // ---- building pages ----------------------------------------------------------

  function EmptyPage(k: Kind): Page {
    Magic(k) + Encode(VERSION, 2) + Encode(0, 2) + Encode(0, 4) + Encode(INVALID_ID, 4) + Zeros(4080)
  }

  /** One more entry behind the last one. */
  function WithEntry(k: Kind, p: Page, e: seq<byte>): Page
    requires HeaderOk(k, p) && CountOf(p) < Capacity(k) && |e| == EntrySize(k)
  {
    PutU32(Splice(p, At(k, CountOf(p)), e), 8, CountOf(p) + 1)
  }

  function WithNext(p: Page, next: nat): Page {
    PutU32(p, 12, next)
  }

  lemma EmptyPageMeaning(k: Kind)
    ensures var p := EmptyPage(k); HeaderOk(k, p) && Entries(k, p) == [] && NextOf(p) == INVALID_ID
  {
    hide Encode, Decode;
    var p := EmptyPage(k);
    RadixValues();
    DecodeEncode(VERSION, 2);
    DecodeEncode(0, 4);
    DecodeEncode(INVALID_ID, 4);
    assert p[..4] == Magic(k);
    assert p[4..6] == Encode(VERSION, 2);
    assert p[8..12] == Encode(0, 4);
    assert p[12..16] == Encode(INVALID_ID, 4);
  }

  /** Two pages with the same magic and version bytes. */
  lemma SameHead(k: Kind, p: Page, q: Page)
    requires HeaderOk(k, p) && q[..6] == p[..6] && CountOf(q) <= Capacity(k)
    ensures HeaderOk(k, q)
  {
    hide Decode;
    SliceOfPrefix(p, 6, 0, 4);
    SliceOfPrefix(q, 6, 0, 4);
    SliceOfPrefix(p, 6, 4, 6);
    SliceOfPrefix(q, 6, 4, 6);
  }

  lemma EntriesOfSame(k: Kind, p: Page, q: Page, n: nat)
    requires n <= Capacity(k) && q[HEADER_SIZE..At(k, n)] == p[HEADER_SIZE..At(k, n)]
    ensures forall i :: 0 <= i < n ==> EntryAt(k, q, i) == EntryAt(k, p, i)
  {
    forall i | 0 <= i < n
      ensures EntryAt(k, q, i) == EntryAt(k, p, i)
    {
      assert At(k, i) + EntrySize(k) <= At(k, n) by { EntryInside(k, i, n); }
      InnerSlice(p, HEADER_SIZE, At(k, n), At(k, i), At(k, i) + EntrySize(k));
      InnerSlice(q, HEADER_SIZE, At(k, n), At(k, i), At(k, i) + EntrySize(k));
    }
  }

  lemma EntryInside(k: Kind, i: nat, n: nat)
    requires i < n
    ensures At(k, i) + EntrySize(k) <= At(k, n)
  {
  }

  lemma InnerSlice(p: seq<byte>, lo: nat, hi: nat, x: nat, y: nat)
    requires lo <= x <= y <= hi <= |p|
    ensures p[lo..hi][x - lo..y - lo] == p[x..y]
  {
    assert p[lo..hi] == p[..hi][lo..];
    SliceOfSuffix(p[..hi], lo, x - lo, y - lo);
    SliceOfPrefix(p, hi, x, y);
  }

  lemma AppendedMeaning(k: Kind, p: Page, e: seq<byte>)
    requires HeaderOk(k, p) && CountOf(p) < Capacity(k) && |e| == EntrySize(k)
    ensures var q := WithEntry(k, p, e);
            HeaderOk(k, q) && Entries(k, q) == Entries(k, p) + [e] && NextOf(q) == NextOf(p)
  {
    hide Encode, Decode, Splice, HeaderOk, Entries;
    var n := CountOf(p);
    assert At(k, n) + EntrySize(k) <= PAGE_SIZE by { EntryInside(k, n, Capacity(k)); }
    var p1: Page := Splice(p, At(k, n), e);
    var q := WithEntry(k, p, e);
    PutU32Reads(p1, 8, n + 1);
    SpliceElsewhere(p, At(k, n), e, 0, 6);
    SpliceElsewhere(p1, 8, Encode(n + 1, 4), 0, 6);
    SameHead(k, p, q);
    SpliceElsewhere(p, At(k, n), e, 12, 16);
    assert NextOf(q) == NextOf(p1) == NextOf(p);
    SpliceElsewhere(p, At(k, n), e, HEADER_SIZE, At(k, n));
    SpliceElsewhere(p1, 8, Encode(n + 1, 4), HEADER_SIZE, At(k, n));
    EntriesOfSame(k, p, q, n);
    SpliceElsewhere(p1, 8, Encode(n + 1, 4), At(k, n), At(k, n) + EntrySize(k));
    assert EntryAt(k, q, n) == e;
    EntriesSnoc(k, p, q, e);
  }

  lemma EntriesSnoc(k: Kind, p: Page, q: Page, e: seq<byte>)
    requires HeaderOk(k, p) && HeaderOk(k, q) && CountOf(q) == CountOf(p) + 1
    requires forall i :: 0 <= i < CountOf(p) ==> EntryAt(k, q, i) == EntryAt(k, p, i)
    requires EntryAt(k, q, CountOf(p)) == e
    ensures Entries(k, q) == Entries(k, p) + [e]
  {
    hide HeaderOk, EntryAt;
  }

  lemma LinkedMeaning(k: Kind, p: Page, next: nat)
    requires HeaderOk(k, p) && next < 0x1_0000_0000
    ensures var q := WithNext(p, next);
            HeaderOk(k, q) && Entries(k, q) == Entries(k, p) && NextOf(q) == next
  {
    hide Encode, Decode, Splice;
    var q := WithNext(p, next);
    PutU32Reads(p, 12, next);
    SpliceElsewhere(p, 12, Encode(next, 4), 0, 6);
    SameHead(k, p, q);
    var n := CountOf(p);
    assert At(k, n) <= PAGE_SIZE;
    SpliceElsewhere(p, 12, Encode(next, 4), HEADER_SIZE, At(k, n));
    EntriesOfSame(k, p, q, n);
  }

  // ---- chains ------------------------------------------------------------------

  /** Consecutive pages linked to one another, all with valid headers. */
  predicate IsPath(k: Kind, pages: seq<Page>, c: seq<nat>) {
    && c != []
    && (forall i :: 0 <= i < |c| ==> c[i] < |pages| && HeaderOk(k, pages[c[i]]))
    && (forall i :: 0 <= i < |c| - 1 ==> NextOf(pages[c[i]]) == c[i + 1])
  }

  function Last(c: seq<nat>): nat
    requires c != []
  {
    c[|c| - 1]
  }

  /** A path that ends: its last page has no successor. */
  predicate IsChain(k: Kind, pages: seq<Page>, c: seq<nat>) {
    IsPath(k, pages, c) && NextOf(pages[Last(c)]) == INVALID_ID
  }

  predicate NoRepeats(c: seq<nat>) {
    forall i, j :: 0 <= i < j < |c| ==> c[i] != c[j]
  }

  /** Two paths from the same page agree as far as the shorter one goes. */
  lemma {:induction false} PathsAgree(k: Kind, pages: seq<Page>, a: seq<nat>, b: seq<nat>)
    requires IsPath(k, pages, a) && IsPath(k, pages, b) && a[0] == b[0] && |a| <= |b|
    ensures b[..|a|] == a
  {
    hide HeaderOk, NextOf;
    var n := |a| - 1;
    if n > 0 {
      assert IsPath(k, pages, a[..n]);
      PathsAgree(k, pages, a[..n], b);
      assert b[n - 1] == b[..n][n - 1] == a[n - 1];
    }
    assert b[..|a|] == b[..n] + [b[n]];
    assert a == a[..n] + [a[n]];
  }

  /** A chain runs through every path from its first page. */
  lemma ChainExtendsPath(k: Kind, pages: seq<Page>, a: seq<nat>, c: seq<nat>)
    requires |pages| <= INVALID_ID && IsPath(k, pages, a) && IsChain(k, pages, c) && a[0] == c[0]
    ensures |a| <= |c| && c[..|a|] == a
  {
    hide HeaderOk, NextOf;
    if |c| < |a| {
      assert NextOf(pages[a[|c| - 1]]) == a[|c|] && a[|c| - 1] == a[..|c|][|c| - 1];
      PathsAgree(k, pages, c, a);
    } else {
      PathsAgree(k, pages, a, c);
    }
  }

  lemma ChainUnique(k: Kind, pages: seq<Page>, a: seq<nat>, b: seq<nat>)
    requires |pages| <= INVALID_ID && IsChain(k, pages, a) && IsChain(k, pages, b) && a[0] == b[0]
    ensures a == b
  {
    ChainExtendsPath(k, pages, a, b);
    ChainExtendsPath(k, pages, b, a);
  }

  lemma {:induction false} SameTail(k: Kind, pages: seq<Page>, c: seq<nat>, i: nat, j: nat, d: nat)
    requires IsPath(k, pages, c) && i < j && j + d < |c| && c[i] == c[j]
    ensures c[i + d] == c[j + d]
  {
    hide HeaderOk, NextOf;
    if d > 0 {
      SameTail(k, pages, c, i, j, d - 1);
      assert NextOf(pages[c[i + d - 1]]) == c[i + d];
      assert NextOf(pages[c[j + d - 1]]) == c[j + d];
    }
  }

  /** A chain that ends cannot repeat a page. */
  lemma ChainAcyclic(k: Kind, pages: seq<Page>, c: seq<nat>)
    requires |pages| <= INVALID_ID && IsChain(k, pages, c)
    ensures NoRepeats(c)
  {
    hide HeaderOk, NextOf;
    forall i, j | 0 <= i < j < |c|
      ensures c[i] != c[j]
    {
      var d := |c| - 1 - j;
      assert NextOf(pages[c[i + d]]) == c[i + d + 1] && NextOf(pages[c[j + d]]) == INVALID_ID;
      if c[i] == c[j] { SameTail(k, pages, c, i, j, d); }
    }
  }

  lemma {:induction false} Pigeonhole(c: seq<nat>, n: nat)
    requires NoRepeats(c) && forall i :: 0 <= i < |c| ==> c[i] < n
    ensures |c| <= n
    decreases n
  {
    if c != [] {
      assert c[0] < n;
      if exists i :: 0 <= i < |c| && c[i] == n - 1 {
        var i :| 0 <= i < |c| && c[i] == n - 1;
        var rest := c[..i] + c[i + 1..];
        assert forall j :: 0 <= j < |rest| ==> rest[j] == c[if j < i then j else j + 1];
        Pigeonhole(rest, n - 1);
      } else {
        Pigeonhole(c, n - 1);
      }
    }
  }

  /** No chain is longer than the file. */
  lemma ChainFits(k: Kind, pages: seq<Page>, c: seq<nat>)
    requires |pages| <= INVALID_ID && IsChain(k, pages, c)
    ensures |c| <= |pages|
  {
    ChainAcyclic(k, pages, c);
    Pigeonhole(c, |pages|);
  }

  /** The walk's bound on followed links, computed in 32 bits. */
  function MaxWalk(total: nat): nat {
    (total + 2) % 0x1_0000_0000
  }

  /** Below 2^32 - 2 pages the bound refuses no chain. */
  lemma BoundNeverTrips(k: Kind, pages: seq<Page>, c: seq<nat>)
    requires |pages| < 0xFFFF_FFFE && IsChain(k, pages, c)
    ensures |c| - 1 <= MaxWalk(|pages|)
  {
    ChainFits(k, pages, c);
  }

  /** From there on the bound has wrapped around, and a chain passes exactly when it is that short. */
  lemma BoundExactly(k: Kind, pages: seq<Page>, c: seq<nat>)
    requires |pages| <= INVALID_ID && IsChain(k, pages, c)
    ensures |c| - 1 <= MaxWalk(|pages|) <==> |pages| < 0xFFFF_FFFE || |c| - 1 <= |pages| - 0xFFFF_FFFE
  {
    ChainFits(k, pages, c);
  }

  // ---- changing the pages of a chain -------------------------------------------

  lemma ChainFrame(k: Kind, pages: seq<Page>, after: seq<Page>, c: seq<nat>)
    requires IsChain(k, pages, c) && |pages| <= |after| && forall i :: 0 <= i < |c| ==> after[c[i]] == pages[c[i]]
    ensures IsChain(k, after, c)
  {
    hide HeaderOk, NextOf;
  }

  /** A page of the chain may change anything but its link. */
  lemma ChainRewrite(k: Kind, pages: seq<Page>, c: seq<nat>, p: nat, image: Page)
    requires IsChain(k, pages, c) && p < |pages| && HeaderOk(k, image) && NextOf(image) == NextOf(pages[p])
    ensures IsChain(k, pages[p := image], c)
  {
    hide HeaderOk, NextOf;
  }

  /** Linking a chain's last page to a page that has no successor makes the chain one longer. */
  lemma ChainGrows(k: Kind, pages: seq<Page>, c: seq<nat>, image: Page, next: nat)
    requires |pages| <= INVALID_ID && IsChain(k, pages, c) && next < |pages| && next !in c
    requires HeaderOk(k, pages[next]) && NextOf(pages[next]) == INVALID_ID
    requires HeaderOk(k, image) && NextOf(image) == next
    ensures IsChain(k, pages[Last(c) := image], c + [next])
  {
    hide HeaderOk, NextOf;
    ChainAcyclic(k, pages, c);
    var after := pages[Last(c) := image];
    var d := c + [next];
    forall i | 0 <= i < |d| - 1
      ensures NextOf(after[d[i]]) == d[i + 1]
    {
      if i < |c| - 1 { assert c[i] != c[|c| - 1]; }
    }
  }

  // ---- everything a chain lists ------------------------------------------------

  /** The entries of all pages of a path, in chain order. */
  function AllEntries(k: Kind, pages: seq<Page>, c: seq<nat>): (es: seq<seq<byte>>)
    requires forall i :: 0 <= i < |c| ==> c[i] < |pages| && HeaderOk(k, pages[c[i]])
    ensures forall j :: 0 <= j < |es| ==> |es[j]| == EntrySize(k)
  {
    if c == [] then []
    else AllEntries(k, pages, c[..|c| - 1]) + Entries(k, pages[Last(c)])
  }

  lemma AllEntriesSnoc(k: Kind, pages: seq<Page>, c: seq<nat>, p: nat)
    requires forall i :: 0 <= i < |c| ==> c[i] < |pages| && HeaderOk(k, pages[c[i]])
    requires p < |pages| && HeaderOk(k, pages[p])
    ensures AllEntries(k, pages, c + [p]) == AllEntries(k, pages, c) + Entries(k, pages[p])
  {
    hide HeaderOk, Entries;
    assert (c + [p])[..|c|] == c;
  }

  /** What the front of a path lists comes first. */
  lemma {:induction false} AllEntriesPrefix(k: Kind, pages: seq<Page>, c: seq<nat>, n: nat)
    requires (forall i :: 0 <= i < |c| ==> c[i] < |pages| && HeaderOk(k, pages[c[i]])) && n <= |c|
    ensures AllEntries(k, pages, c[..n]) <= AllEntries(k, pages, c)
    decreases |c|
  {
    hide HeaderOk, Entries;
    if n < |c| {
      var m := |c| - 1;
      AllEntriesPrefix(k, pages, c[..m], n);
      assert c[..m][..n] == c[..n];
    } else {
      assert c[..n] == c;
    }
  }

  lemma {:induction false} AllEntriesFrame(k: Kind, pages: seq<Page>, after: seq<Page>, c: seq<nat>)
    requires forall i :: 0 <= i < |c| ==> c[i] < |pages| && HeaderOk(k, pages[c[i]])
    requires forall i :: 0 <= i < |c| ==> c[i] < |after| && after[c[i]] == pages[c[i]]
    ensures AllEntries(k, after, c) == AllEntries(k, pages, c)
  {
    hide HeaderOk, Entries;
    if c != [] {
      AllEntriesFrame(k, pages, after, c[..|c| - 1]);
    }
  }

  /** Every entry belongs to one page of the path. */
  lemma {:induction false} EntryOfSome(k: Kind, pages: seq<Page>, c: seq<nat>, j: nat) returns (i: nat, m: nat)
    requires forall i :: 0 <= i < |c| ==> c[i] < |pages| && HeaderOk(k, pages[c[i]])
    requires j < |AllEntries(k, pages, c)|
    ensures i < |c| && m < CountOf(pages[c[i]]) && AllEntries(k, pages, c)[j] == EntryAt(k, pages[c[i]], m)
  {
    hide HeaderOk, EntryAt;
    var front := AllEntries(k, pages, c[..|c| - 1]);
    if j < |front| {
      i, m := EntryOfSome(k, pages, c[..|c| - 1], j);
    } else {
      i, m := |c| - 1, j - |front|;
    }
  }

  /** Everything a page of the path lists is listed by the path. */
  lemma {:induction false} EntryInAll(k: Kind, pages: seq<Page>, c: seq<nat>, i: nat, m: nat) returns (j: nat)
    requires forall i :: 0 <= i < |c| ==> c[i] < |pages| && HeaderOk(k, pages[c[i]])
    requires i < |c| && m < CountOf(pages[c[i]]) <= Capacity(k)
    ensures j < |AllEntries(k, pages, c)| && AllEntries(k, pages, c)[j] == EntryAt(k, pages[c[i]], m)
  {
    hide HeaderOk, EntryAt;
    var n := |c| - 1;
    if i < n {
      j := EntryInAll(k, pages, c[..n], i, m);
    } else {
      j := |AllEntries(k, pages, c[..n])| + m;
    }
  }
}
