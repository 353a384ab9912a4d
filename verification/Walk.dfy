/**
 Walking a chain of linked pages whose bytes may be anything. Both walks of the
 engine, over a directory and over the catalog, check one page after the other,
 stop at a page linked to itself or back, and count their steps in 32 bits. The
 facts here say what a walk knows where it stands, which chains it accepts, and
 at which one file size it can run in circles forever.
 */
module Walk {
  import opened Bytes
  import opened Chain
  import opened Structure

  /** The entry checks of a walk from `root`. */
  predicate Passes(k: Kind, V: seq<Page>, root: nat, es: seq<seq<byte>>) {
    match k
    case Directory => IdsOk(V, root, es)
    case Catalog => NamesOk(es)
  }

  lemma PassesFront(k: Kind, V: seq<Page>, root: nat, es: seq<seq<byte>>, n: nat)
    requires Passes(k, V, root, es) && n <= |es|
    ensures Passes(k, V, root, es[..n])
  {
    hide IdOf, NameOf, RootOf, ValidName;
  }

  /** A chain the walk accepts. */
  predicate GoodChain(k: Kind, V: seq<Page>, root: nat, c: seq<nat>) {
    IsChain(k, V, c) && c[0] == root && |c| - 1 <= MaxWalk(|V|) && Passes(k, V, root, AllEntries(k, V, c))
  }

  ghost predicate Accepts(k: Kind, V: seq<Page>, root: nat) {
    exists c :: GoodChain(k, V, root, c)
  }

  lemma ChainIsAccepted(k: Kind, V: seq<Page>, root: nat, c: seq<nat>)
    requires GoodChain(k, V, root, c)
    ensures Accepts(k, V, root)
  {
    hide GoodChain;
  }

  /** No page is linked to itself or back to the page before it. */
  predicate NoShortLoop(w: seq<nat>) {
    forall i, j :: 0 <= i < j < |w| && j <= i + 2 ==> w[i] != w[j]
  }

  /** The walk has come along w and gone on from there. */
  predicate Onward(k: Kind, V: seq<Page>, root: nat, w: seq<nat>) {
    && (w == [] || (IsPath(k, V, w) && w[0] == root))
    && Passes(k, V, root, AllEntries(k, V, w)) && NoShortLoop(w)
  }

  /** The walk has checked the pages of w, stands at page `at` and came from `prev`. */
  predicate Standing(k: Kind, V: seq<Page>, root: nat, w: seq<nat>, at: nat, prev: nat) {
    && Onward(k, V, root, w) && NoShortLoop(w + [at])
    && if w == [] then at == root && prev == INVALID_ID
       else NextOf(V[Last(w)]) == at != INVALID_ID && prev == Last(w)
  }

  /** The page the walk stands at passes every check. */
  predicate GoesOn(k: Kind, V: seq<Page>, root: nat, w: seq<nat>, at: nat, prev: nat)
    requires Standing(k, V, root, w, at, prev)
  {
    && at < |V| && HeaderOk(k, V[at]) && Passes(k, V, root, AllEntries(k, V, w) + Entries(k, V[at]))
    && NextOf(V[at]) != at && (NextOf(V[at]) == INVALID_ID || NextOf(V[at]) != prev)
  }

  lemma StandingPath(k: Kind, V: seq<Page>, root: nat, w: seq<nat>, at: nat, prev: nat)
    requires Standing(k, V, root, w, at, prev) && at < |V| && HeaderOk(k, V[at])
    ensures IsPath(k, V, w + [at]) && (w + [at])[0] == root
    ensures forall i :: 0 <= i < |w| ==> w[i] < |V| && HeaderOk(k, V[w[i]])
    ensures AllEntries(k, V, w + [at]) == AllEntries(k, V, w) + Entries(k, V[at])
  {
    hide HeaderOk, NextOf, Entries, AllEntries, Passes;
    AllEntriesSnoc(k, V, w, at);
  }

  /** One more page checked: the chain ends here, or the walk goes on, or the page is linked to itself or back. */
  lemma StandNext(k: Kind, V: seq<Page>, root: nat, w: seq<nat>, at: nat, prev: nat)
    requires |V| <= INVALID_ID && Standing(k, V, root, w, at, prev) && at < |V| && HeaderOk(k, V[at])
    requires Passes(k, V, root, AllEntries(k, V, w) + Entries(k, V[at]))
    ensures Onward(k, V, root, w + [at]) && Last(w + [at]) == at
    ensures AllEntries(k, V, w + [at]) == AllEntries(k, V, w) + Entries(k, V[at])
    ensures var next := NextOf(V[at]);
            if next == INVALID_ID then |w| <= MaxWalk(|V|) || |V| == UNGUARDED ==> GoodChain(k, V, root, w + [at])
            else next != at && next != prev ==> Standing(k, V, root, w + [at], next, at)
  {
    hide HeaderOk, NextOf, Entries, AllEntries, Passes;
    StandingPath(k, V, root, w, at, prev);
    var next := NextOf(V[at]);
    if next == INVALID_ID {
      ChainFits(k, V, w + [at]);
    } else if next != at && next != prev {
      var c := w + [at] + [next];
      forall i, j | 0 <= i < j < |c| && j <= i + 2
        ensures j < |c| - 1 || c[i] != c[j]
      {
      }
    }
  }

  // ---- what the walk meets -----------------------------------------------------------

  /** A walk along the pages of a path from the root has the rest of the path before it. */
  lemma OnPath(k: Kind, V: seq<Page>, root: nat, w: seq<nat>, at: nat, prev: nat, c: seq<nat>)
    requires Standing(k, V, root, w, at, prev) && IsPath(k, V, c) && c[0] == root && |w| < |c|
    ensures c[..|w|] == w && c[|w|] == at && c[..|w| + 1] == w + [at] && (w != [] ==> c[|w| - 1] == prev)
  {
    hide HeaderOk, NextOf, AllEntries, Passes;
    if w != [] {
      PathsAgree(k, V, w, c);
      assert c[|w| - 1] == c[..|w|][|w| - 1] == Last(w);
    }
  }

  lemma ChainGoesOn(k: Kind, V: seq<Page>, root: nat, w: seq<nat>, at: nat, prev: nat, c: seq<nat>)
    requires |V| <= INVALID_ID && Standing(k, V, root, w, at, prev) && IsChain(k, V, c) && c[0] == root
    ensures |w| < |c|
  {
    hide HeaderOk, NextOf, AllEntries, Passes;
    if w != [] { ChainExtendsPath(k, V, w, c); }
  }

  lemma AlongPasses(k: Kind, V: seq<Page>, root: nat, w: seq<nat>, at: nat, prev: nat, c: seq<nat>)
    requires Standing(k, V, root, w, at, prev) && IsPath(k, V, c) && c[0] == root && |w| < |c|
    requires Passes(k, V, root, AllEntries(k, V, c))
    ensures at < |V| && HeaderOk(k, V[at]) && Passes(k, V, root, AllEntries(k, V, w) + Entries(k, V[at]))
  {
    hide HeaderOk, NextOf, AllEntries, Entries, Passes;
    OnPath(k, V, root, w, at, prev, c);
    StandingPath(k, V, root, w, at, prev);
    AllEntriesPrefix(k, V, c, |w| + 1);
    var n := |AllEntries(k, V, w + [at])|;
    PassesFront(k, V, root, AllEntries(k, V, c), n);
    assert AllEntries(k, V, c)[..n] == AllEntries(k, V, w + [at]);
  }

  /** If there is an acceptable chain, the walk is on it and the page it stands at passes every check. */
  lemma OnGoodChain(k: Kind, V: seq<Page>, root: nat, w: seq<nat>, at: nat, prev: nat)
    requires |V| <= INVALID_ID && root != INVALID_ID && Standing(k, V, root, w, at, prev)
    ensures Accepts(k, V, root) ==> |w| <= MaxWalk(|V|) && |w| < |V| && GoesOn(k, V, root, w, at, prev)
  {
    hide HeaderOk, NextOf, AllEntries, Entries, Passes;
    if Accepts(k, V, root) {
      var c :| GoodChain(k, V, root, c);
      ChainGoesOn(k, V, root, w, at, prev, c);
      OnPath(k, V, root, w, at, prev, c);
      AlongPasses(k, V, root, w, at, prev, c);
      ChainAcyclic(k, V, c);
      ChainFits(k, V, c);
      assert |w| + 1 < |c| ==> NextOf(V[c[|w|]]) == c[|w| + 1];
    }
  }

  // ---- walking in circles ------------------------------------------------------------

  /** The walk comes by some page so often that nothing but its step counter can stop it. */
  ghost predicate Endless(k: Kind, V: seq<Page>, root: nat) {
    exists w :: |w| == 2 * |V| + 1 && Onward(k, V, root, w)
  }

  lemma {:induction false} Repeats(c: seq<nat>, n: nat) returns (i: nat, j: nat)
    requires |c| > n && forall i :: 0 <= i < |c| ==> c[i] < n
    ensures i < j <= n && c[i] == c[j]
  {
    var d := c[..n + 1];
    if NoRepeats(d) { Pigeonhole(d, n); }
    i, j :| 0 <= i < j < |d| && d[i] == d[j];
  }

  /** A page on the path twice lists only what may be listed twice. */
  lemma TwiceListed(k: Kind, V: seq<Page>, root: nat, w: seq<nat>, i: nat, j: nat)
    requires Onward(k, V, root, w) && i < j < |w| && w[i] == w[j]
    ensures Passes(k, V, root, AllEntries(k, V, w) + Entries(k, V[w[i]]))
  {
    hide HeaderOk, NextOf, AllEntries, Entries, NameOf, RootOf, ValidName, IdOf;
    var all, es := AllEntries(k, V, w), Entries(k, V[w[i]]);
    CountBound(k, V[w[i]]);
    match k
    case Directory =>
      forall m | 0 <= m < |es|
        ensures es[m] in all
      {
        var a := EntryInAll(k, V, w, i, m);
      }
    case Catalog =>
      if es != [] { LaterEntry(k, V, w, i, j, 0); }
      assert all + es == all;
  }

  lemma CountBound(k: Kind, p: Page)
    requires HeaderOk(k, p)
    ensures CountOf(p) <= Capacity(k)
  {
  }

  lemma {:induction false} LaterEntry(k: Kind, V: seq<Page>, w: seq<nat>, i: nat, j: nat, m: nat)
    requires (forall i :: 0 <= i < |w| ==> w[i] < |V| && HeaderOk(k, V[w[i]])) && i < j < |w| && w[i] == w[j]
    requires m < CountOf(V[w[i]])
    ensures exists a, b :: 0 <= a < b < |AllEntries(k, V, w)| && AllEntries(k, V, w)[a] == AllEntries(k, V, w)[b]
  {
    hide NextOf, Entries, EntryAt;
    var n := |w| - 1;
    var front, last := AllEntries(k, V, w[..n]), Entries(k, V[w[n]]);
    if j == n {
      var a := EntryInAll(k, V, w[..n], i, m);
      assert AllEntries(k, V, w)[a] == AllEntries(k, V, w)[|front| + m];
    } else {
      LaterEntry(k, V, w[..n], i, j, m);
      var a, b :| 0 <= a < b < |front| && front[a] == front[b];
      assert AllEntries(k, V, w)[a] == AllEntries(k, V, w)[b];
    }
  }

  /** A walk that came round twice goes on. */
  lemma GoesRound(k: Kind, V: seq<Page>, root: nat, w: seq<nat>) returns (x: nat)
    requires |V| <= INVALID_ID && Onward(k, V, root, w) && |w| > 2 * |V|
    ensures Onward(k, V, root, w + [x])
  {
    hide HeaderOk, NextOf, AllEntries, Entries, Passes;
    var i, j := Repeats(w, |V|);
    var p, n := j - i, |w|;
    SameTail(k, V, w, i, j, n - 1 - j);
    SameTail(k, V, w, i, j, n - p - j);
    SameTail(k, V, w, i, j, n - 2 - j);
    x := w[n - p];
    assert w[n - 1 - p] == w[n - 1] && w[n - 2 * p] == x && w[n - 2 - p] == w[n - 2];
    TwiceListed(k, V, root, w, n - 2 * p, n - p);
    assert NextOf(V[w[n - 1 - p]]) == x;
    AllEntriesSnoc(k, V, w, x);
    assert w[n - 1 - p] != x && w[n - 2 - p] != x;
    assert IsPath(k, V, w + [x]);
  }

  /** An endless walk takes any number of steps: it never returns unless its counter stops it. */
  lemma {:induction false} EndlessForever(k: Kind, V: seq<Page>, root: nat, n: nat) returns (w: seq<nat>)
    requires |V| <= INVALID_ID && Endless(k, V, root)
    ensures |w| == n && Onward(k, V, root, w)
    decreases if n > 2 * |V| then n else 0
  {
    hide Onward;
    if n > 2 * |V| + 1 {
      var front := EndlessForever(k, V, root, n - 1);
      var x := GoesRound(k, V, root, front);
      w := front + [x];
    } else {
      var v :| |v| == 2 * |V| + 1 && Onward(k, V, root, v);
      OnwardFront(k, V, root, v, n);
      w := v[..n];
    }
  }

  lemma OnwardFront(k: Kind, V: seq<Page>, root: nat, w: seq<nat>, n: nat)
    requires Onward(k, V, root, w) && n <= |w|
    ensures Onward(k, V, root, w[..n])
  {
    hide HeaderOk, NextOf, AllEntries, Entries, Passes;
    AllEntriesPrefix(k, V, w, n);
    PassesFront(k, V, root, AllEntries(k, V, w), |AllEntries(k, V, w[..n])|);
    assert AllEntries(k, V, w)[..|AllEntries(k, V, w[..n])|] == AllEntries(k, V, w[..n]);
  }

  /** Where an endless walk stands, every check passes and no chain ends. */
  lemma OnEndless(k: Kind, V: seq<Page>, root: nat, w: seq<nat>, at: nat, prev: nat)
    requires |V| <= INVALID_ID && root != INVALID_ID && Standing(k, V, root, w, at, prev)
    ensures Endless(k, V, root) ==> GoesOn(k, V, root, w, at, prev) && NextOf(V[at]) != INVALID_ID
  {
    hide HeaderOk, NextOf, AllEntries, Entries, Passes, Endless;
    if Endless(k, V, root) {
      var c := EndlessForever(k, V, root, |w| + 2);
      OnPath(k, V, root, w, at, prev, c);
      AlongPasses(k, V, root, w, at, prev, c);
      assert NextOf(V[c[|w|]]) == c[|w| + 1];
      assert c[|w| + 1] < |V|;
    }
  }

  lemma CameRound(k: Kind, V: seq<Page>, root: nat, w: seq<nat>, at: nat, prev: nat)
    requires Standing(k, V, root, w, at, prev) && |w| == 2 * |V| + 1
    ensures Endless(k, V, root)
  {
    hide Onward;
  }

  // ---- the step counter --------------------------------------------------------------

  const WRAP: nat := 0x1_0000_0000

  /** The one page count at which the walk bound is the largest 32-bit value. */
  const UNGUARDED: nat := 0xFFFF_FFFD

  /** The guard can stop a long walk at every file size but one. */
  lemma GuardCanTrip(total: nat)
    requires total <= INVALID_ID
    ensures (exists steps: nat :: steps % WRAP > MaxWalk(total)) <==> total != UNGUARDED
  {
    if total != UNGUARDED {
      assert (MaxWalk(total) + 1) % WRAP == MaxWalk(total) + 1;
    }
  }

  /** The most steps before the guard stops the walk or, without a guard, before it has come round twice. */
  function Limit(total: nat): nat {
    if total == UNGUARDED then 2 * total + 1 else MaxWalk(total) + 1
  }

  /** The counter after so many steps. */
  predicate Counted(total: nat, steps: nat, walked: nat) {
    walked == steps % WRAP && steps <= Limit(total)
  }

  lemma CountedStart(total: nat)
    ensures Counted(total, 0, 0)
  {
  }

  /** The guard stops a walk exactly when it has outlived the bound, and never where it has wrapped. */
  lemma CountedStep(total: nat, steps: nat, walked: nat)
    requires total <= INVALID_ID && Counted(total, steps, walked)
    ensures walked > MaxWalk(total) <==> total != UNGUARDED && steps > MaxWalk(total)
    ensures walked <= MaxWalk(total) && !(total == UNGUARDED && steps == 2 * total + 1) ==>
              && Counted(total, steps + 1, (walked + 1) % WRAP) && steps < Limit(total)
              && (total != UNGUARDED ==> steps <= MaxWalk(total))
    ensures steps < WalkCost(total)
  {
  }

  /** The most steps a walk over a file of this size takes before it returns, or is known never to. */
  function WalkCost(total: nat): nat {
    2 * total + 4
  }

  /** Three pages or more that list nothing and are linked in a ring of three. */
  predicate Ring(k: Kind, V: seq<Page>) {
    3 <= |V| && forall p :: 0 <= p < |V| ==> HeaderOk(k, V[p]) && Entries(k, V[p]) == [] && NextOf(V[p]) == (p + 1) % 3
  }

  /** At every size a ring passes every check and is no chain, so only the counter can stop a walk round it. */
  lemma RingGoesRound(k: Kind, V: seq<Page>)
    requires |V| <= INVALID_ID && Ring(k, V)
    ensures Endless(k, V, 0) && !Accepts(k, V, 0)
  {
    hide HeaderOk, NextOf, Entries, AllEntries;
    var w := seq(2 * |V| + 1, i => i % 3);
    assert IsPath(k, V, w);
    NothingListed(k, V, w);
    assert NoShortLoop(w);
    assert Onward(k, V, 0, w);
  }

  /** At the one size without a guard, empty pages linked in a ring keep a walk going forever. */
  lemma RingIsEndless(k: Kind) returns (V: seq<Page>)
    ensures |V| == UNGUARDED && Endless(k, V, 0) && !Accepts(k, V, 0)
  {
    hide HeaderOk, NextOf, Entries, EmptyPage, WithNext, Endless, Accepts;
    V := seq(UNGUARDED, i requires 0 <= i < UNGUARDED => WithNext(EmptyPage(k), (i + 1) % 3));
    forall p | 0 <= p < |V|
      ensures HeaderOk(k, V[p]) && Entries(k, V[p]) == [] && NextOf(V[p]) == (p + 1) % 3
    {
      EmptyPageMeaning(k);
      LinkedMeaning(k, EmptyPage(k), (p + 1) % 3);
    }
    RingGoesRound(k, V);
  }

  lemma {:induction false} NothingListed(k: Kind, V: seq<Page>, c: seq<nat>)
    requires forall i :: 0 <= i < |c| ==> c[i] < |V| && HeaderOk(k, V[c[i]]) && Entries(k, V[c[i]]) == []
    ensures AllEntries(k, V, c) == []
  {
    hide HeaderOk, Entries;
    if c != [] { NothingListed(k, V, c[..|c| - 1]); }
  }
}
