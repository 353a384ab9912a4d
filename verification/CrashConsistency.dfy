/**
 Crash consistency of the file's structure: whatever the order in which dirty
 pages reach the disk, and whatever a crash cuts off, recovery brings back for
 every page an image that precedes its logical one.
 */
module CrashConsistency {
  import opened Bytes
  import opened Chain
  import opened CrashMachine
  import opened CrashSafety
  import opened Structure
  import LogFormat

  // ---- the discipline every image obeys ----------------------------------------

  /** Every image of page p that could still be recovered precedes V[p]. */
  function Fits(V: seq<Page>, use: seq<Use>): (nat, Page) -> bool {
    (p: nat, image: Page) => p < |V| && p < |use| ==> Precedes(use[p], image, V[p])
  }

  /** A write of a later image keeps the discipline. */
  lemma WriteKeepsFit(s: State, V: seq<Page>, use: seq<Use>, p: nat, image: Page)
    requires Inv(s) && s.phase == Up(Idle) && p in s.cache && V == Logical(s) && p < |V| == |use|
    requires Everywhere(s, Fits(V, use)) && Precedes(use[p], V[p], image) && Precedes(use[p], image, image)
    ensures Everywhere(s.(cache := s.cache[p := Entry(image, true)]), Fits(V[p := image], use))
  {
    hide Inv, Precedes, Durable, Logical;
    var e := Mutate(p, image);
    assert Enabled(s, e);
    StepSound(s, e);
    var t := Next(s, e);
    assert Durable(t) == Durable(s) && Logical(t) == V[p := image] by { hide Fits; }
    var W := V[p := image];
    assert forall q: nat, a: Page :: q < |V| && Precedes(use[q], a, V[q]) ==> Precedes(use[q], a, W[q]) by {
      forall q: nat, a: Page | q < |V| && Precedes(use[q], a, V[q])
        ensures Precedes(use[q], a, W[q])
      {
        if q == p { PrecedesTrans(use[p], a, V[p], image); }
      }
    }
    forall q | 0 <= q < |W|
      ensures Fits(W, use)(q, Logical(t)[q]) && Fits(W, use)(q, Durable(t)[q])
    {
      assert Fits(V, use)(q, Logical(s)[q]) && Fits(V, use)(q, Durable(s)[q]);
    }
    forall i | Landed(t) <= i < |t.sent|
      ensures Fits(W, use)(t.sent[i].page, t.sent[i].image)
    {
      assert Fits(V, use)(s.sent[i].page, s.sent[i].image);
    }
  }

  /** A page is added with its first image; a failed addition leaves an unused page. */
  lemma AddKeepsFit(s: State, V: seq<Page>, use: seq<Use>, u: Use, image: Page)
    requires Inv(s) && s.phase == Up(Idle) && V == Logical(s) && |V| == |use| < INVALID_ID
    requires Everywhere(s, Fits(V, use)) && Precedes(u, image, image)
    ensures Everywhere(s.(pages := s.pages + [image]), Fits(V + [image], use + [u]))
    ensures Logical(s.(pages := s.pages + [image])) == V + [image]
  {
    hide Inv, Precedes, Durable, Logical;
    assert Enabled(s, Allocate);
    StepSound(s, Allocate);
    var m := Next(s, Allocate);
    assert Enabled(m, InitPage(image));
    StepSound(m, InitPage(image));
    var t := Next(m, InitPage(image));
    assert m.pages[|s.pages| := image] == s.pages + [image];
    var W, used := V + [image], use + [u];
    assert Durable(t) == Durable(s) + [image] && Logical(t) == W;
    SentBelow(s);
    forall q | 0 <= q < |W|
      ensures Fits(W, used)(q, Logical(t)[q]) && Fits(W, used)(q, Durable(t)[q])
    {
      if q < |V| { assert Fits(V, use)(q, Logical(s)[q]) && Fits(V, use)(q, Durable(s)[q]); }
    }
    forall i | Landed(t) <= i < |t.sent|
      ensures Fits(W, used)(t.sent[i].page, t.sent[i].image)
    {
      assert Fits(V, use)(s.sent[i].page, s.sent[i].image);
    }
  }

  lemma SentBelow(s: State)
    requires Inv(s)
    ensures forall i :: 0 <= i < |s.sent| ==> s.sent[i].page < |s.pages|
  {
    hide Durable, OnDisk, Stream;
  }

  /** The durable pages are earlier images of the logical ones. */
  lemma DurableIsEarlier(s: State, V: seq<Page>, use: seq<Use>)
    requires Everywhere(s, Fits(V, use)) && |V| == |use| == |s.pages|
    ensures Earlier(Durable(s), V, use)
  {
    hide Precedes, Durable, Logical;
    forall p | 0 <= p < |V|
      ensures Precedes(use[p], Durable(s)[p], V[p])
    {
      assert Fits(V, use)(p, Durable(s)[p]);
    }
  }

  /**
   Structural crash consistency. From any state whose images obey the discipline,
   after any flushes, evictions, crashes and interrupted or completed restarts,
   what the next start recovers is a well-formed file: its catalog opens, every
   table the catalog names opens, links go to later pages only, and every data
   page a table lists is sound.
   */
  lemma CrashConsistent(s: State, V: seq<Page>, use: seq<Use>, es: seq<Event>, root: nat)
    requires Inv(s) && Legal(s, es) && forall i :: 0 <= i < |es| ==> Quiet(es[i]) || es[i].Crash?
    requires
      && |V| == |s.pages| < 0xFFFF_FFFE && Everywhere(s, Fits(V, use)) && Well(V, use) && LinkPage(use, Catalog, root)
    ensures var D := Durable(Exec(s, es));
            && Well(D, use)
            && CatalogChain(D, root, Follow(D, use, Catalog, root)) && Increasing(Follow(D, use, Catalog, root))
            && forall t :: LinkPage(use, Directory, t) ==>
                 TableChain(D, t, Follow(D, use, Directory, t)) && Increasing(Follow(D, use, Directory, t))
  {
    hide Inv, Legal, Exec, Everywhere, Well, Durable, TableChain, CatalogChain, Follow, Fits;
    SteadyRun(s, es, Fits(V, use));
    SteadySize(s, es);
    var t := Exec(s, es);
    WellSize(V, use);
    DurableIsEarlier(t, V, use);
    EarlierIsWell(Durable(t), V, use);
    WellCatalogOpens(Durable(t), use, root);
    forall r: nat | LinkPage(use, Directory, r)
      ensures
        && TableChain(Durable(t), r, Follow(Durable(t), use, Directory, r))
        && Increasing(Follow(Durable(t), use, Directory, r))
    {
      WellTableOpens(Durable(t), use, r);
    }
  }

  lemma WellSize(V: seq<Page>, use: seq<Use>)
    requires Well(V, use)
    ensures |V| == |use|
  {
    hide PageOk, EntriesOk, LinksOk;
  }

  lemma SteadySizeStep(s: State, e: Event)
    requires Enabled(s, e) && (Quiet(e) || e.Crash?)
    ensures |Next(s, e).pages| == |s.pages|
  {
  }

  lemma {:induction false} SteadySize(s: State, es: seq<Event>)
    requires Legal(s, es) && forall i :: 0 <= i < |es| ==> Quiet(es[i]) || es[i].Crash?
    ensures |Exec(s, es).pages| == |s.pages|
    decreases |es|
  {
    hide Enabled, Next, Quiet;
    if es != [] {
      SteadySizeStep(s, es[0]);
      SteadySize(Next(s, es[0]), es[1..]);
    }
  }

  // ---- pages that are written once ---------------------------------------------------

  /** Page p has not been written since the log was last empty: it is not dirty and no record names it. */
  predicate Pristine(s: State, p: nat) {
    p < |s.pages| && !Dirty(s, p) && forall i :: 0 <= i < |s.sent| ==> s.sent[i].page != p
  }

  lemma PristineStep(s: State, e: Event, p: nat)
    requires Inv(s) && Enabled(s, e) && Pristine(s, p) && !(e.Mutate? && e.page == p)
    ensures Pristine(Next(s, e), p)
  {
    hide Inv, OnDisk;
    if e.Crash? { CrashSent(s, e); } else { PristinePlain(s, e, p); }
  }

  lemma PristinePlain(s: State, e: Event, p: nat)
    requires Enabled(s, e) && Pristine(s, p) && !e.Crash? && !(e.Mutate? && e.page == p)
    ensures Pristine(Next(s, e), p)
  {
    hide OnDisk, LogFormat.Scan, LogFormat.RecordBytes;
  }

  /** A crash keeps some first records of those handed to the log. */
  lemma CrashSent(s: State, e: Event)
    requires Inv(s) && Enabled(s, e) && e.Crash?
    ensures Next(s, e).sent <= s.sent
  {
    hide Durable, OnDisk, Stream, LogFormat.Scan;
    var bytes := s.log + s.pending;
    var log := s.log + s.pending[..e.bytes];
    CutStream(s.sent, bytes, |log|, |s.pages|);
    assert bytes[..|log|] == log;
    ScanStream(s.sent[..|log| / LogFormat.RECORD_SIZE], log, |s.pages|);
  }

  /** Such a page is on disk as it is read. */
  lemma PristineMeans(s: State, p: nat)
    requires Inv(s) && Pristine(s, p) && (s.phase.Down? || s.phase == Up(Idle))
    ensures s.pages[p] == Durable(s)[p]
  {
    hide OnDisk, Stream, LogFormat.Scan;
    DurableIs(s);
    NotCovered(s.sent[..Landed(s)], p);
  }

  /** Every header page is as it was first written. */
  ghost predicate HeadersPristine(s: State, use: seq<Use>) {
    forall p: nat :: p < |use| && use[p] == Header ==> Pristine(s, p)
  }

  lemma {:induction false} SteadyHeaders(s: State, es: seq<Event>, use: seq<Use>)
    requires Inv(s) && Legal(s, es) && (forall i :: 0 <= i < |es| ==> Quiet(es[i]) || es[i].Crash?)
    requires HeadersPristine(s, use)
    ensures HeadersPristine(Exec(s, es), use)
    decreases |es|
  {
    hide Inv, Enabled, Next, Pristine;
    if es != [] {
      StepSound(s, es[0]);
      forall p: nat | p < |use| && use[p] == Header
        ensures Pristine(Next(s, es[0]), p)
      {
        PristineStep(s, es[0], p);
      }
      SteadyHeaders(Next(s, es[0]), es[1..], use);
    }
  }

  lemma QuietKeepsHeaders(s: State, t: State, use: seq<Use>)
    requires Inv(s) && QuietlyReaches(s, t) && HeadersPristine(s, use)
    ensures HeadersPristine(t, use)
  {
    hide Inv, Legal, Exec, HeadersPristine;
    var es :| AllQuiet(es) && Legal(s, es) && Exec(s, es) == t;
    SteadyHeaders(s, es, use);
  }

  /** Every recoverable image precedes the logical one, and header pages are as first written. */
  ghost predicate Disciplined(s: State, V: seq<Page>, use: seq<Use>) {
    Everywhere(s, Fits(V, use)) && HeadersPristine(s, use)
  }

  lemma QuietKeepsDiscipline(s: State, t: State, V: seq<Page>, use: seq<Use>)
    requires Inv(s) && QuietlyReaches(s, t) && Disciplined(s, V, use)
    ensures Disciplined(t, V, use)
  {
    hide Inv, QuietlyReaches, Everywhere, Fits, HeadersPristine;
    QuietKeepsImages(s, t, Fits(V, use));
    QuietKeepsHeaders(s, t, use);
  }

  lemma WriteKeepsDiscipline(s: State, V: seq<Page>, use: seq<Use>, p: nat, image: Page)
    requires Inv(s) && s.phase == Up(Idle) && p in s.cache && V == Logical(s) && p < |V| == |use| && use[p] != Header
    requires Disciplined(s, V, use) && Precedes(use[p], V[p], image) && Precedes(use[p], image, image)
    ensures Disciplined(s.(cache := s.cache[p := Entry(image, true)]), V[p := image], use)
  {
    hide Inv, Everywhere, Fits, Precedes, Logical;
    WriteKeepsFit(s, V, use, p, image);
    var e := Mutate(p, image);
    assert Enabled(s, e);
    forall q: nat | q < |use| && use[q] == Header
      ensures Pristine(Next(s, e), q)
    {
      PristineStep(s, e, q);
    }
  }

  lemma AddKeepsDiscipline(s: State, V: seq<Page>, use: seq<Use>, u: Use, image: Page)
    requires Inv(s) && s.phase == Up(Idle) && V == Logical(s) && |V| == |use| < INVALID_ID
    requires Disciplined(s, V, use) && Precedes(u, image, image) && u != Header
    ensures Disciplined(s.(pages := s.pages + [image]), V + [image], use + [u])
  {
    hide Inv, Everywhere, Fits, Precedes, Logical;
    AddKeepsFit(s, V, use, u, image);
  }

  // ---- runs without writes -------------------------------------------------------------

  predicate AllSteady(es: seq<Event>) {
    forall i :: 0 <= i < |es| ==> Quiet(es[i]) || es[i].Crash?
  }

  /** By flushes, evictions, restarts and crashes only. */
  ghost predicate Steadily(s: State, t: State) {
    exists es :: AllSteady(es) && Legal(s, es) && Exec(s, es) == t
  }

  lemma QuietIsSteady(s: State, t: State)
    requires QuietlyReaches(s, t)
    ensures Steadily(s, t)
  {
    hide Legal, Exec, Quiet;
    var es :| AllQuiet(es) && Legal(s, es) && Exec(s, es) == t;
    assert AllSteady(es);
  }

  lemma CrashIsSteady(s: State, n: nat)
    requires Enabled(s, Crash(n))
    ensures Steadily(s, Next(s, Crash(n)))
  {
    hide Enabled, Next;
    OneStep(s, Crash(n));
    assert AllSteady([Crash(n)]);
  }

  lemma SteadyTrans(s: State, t: State, u: State)
    requires Steadily(s, t) && Steadily(t, u)
    ensures Steadily(s, u)
  {
    hide Legal, Exec, Quiet;
    var a :| AllSteady(a) && Legal(s, a) && Exec(s, a) == t;
    var b :| AllSteady(b) && Legal(t, b) && Exec(t, b) == u;
    LegalConcat(s, a, b);
    assert AllSteady(a + b);
  }

  lemma SteadyKeepsDiscipline(s: State, t: State, V: seq<Page>, use: seq<Use>)
    requires Inv(s) && Steadily(s, t) && Disciplined(s, V, use)
    ensures Inv(t) && Disciplined(t, V, use) && |t.pages| == |s.pages|
  {
    hide Inv, Legal, Exec, Everywhere, Fits, HeadersPristine, Quiet;
    var es :| AllSteady(es) && Legal(s, es) && Exec(s, es) == t;
    RunSound(s, es);
    SteadyRun(s, es, Fits(V, use));
    SteadyHeaders(s, es, use);
    SteadySize(s, es);
  }
}
