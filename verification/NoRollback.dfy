/**
 Recovery never rolls a page back. Every image a page is ever given, by a write
 through a handle or by its first initialisation, gets the next number in that
 page's history. Over any run, with crashes anywhere, the page recovery would
 yield is the image with number `dur`, and `dur` never decreases.
 */
module NoRollback {
  import opened Bytes
  import opened LogFormat
  import opened CrashMachine
  import opened CrashSafety

  /**
   `hist[p]` lists every image page p was given, `cur[p]` numbers the logical
   one, `dur[p]` the durable one, and `tags[i]` the image in record `sent[i]`.
   */
  datatype Labels = Labels(hist: seq<seq<Page>>, cur: seq<nat>, dur: seq<nat>, tags: seq<nat>)

  /** The tag of the newest record for page p. */
  function LastTag(recs: seq<Record>, tags: seq<nat>, p: nat, otherwise: nat): nat
    requires |tags| == |recs|
  {
    if recs == [] then otherwise
    else
      var n := |recs| - 1;
      if recs[n].page == p then tags[n] else LastTag(recs[..n], tags[..n], p, otherwise)
  }

  /** The durable numbers once the records in positions [from, to) have landed. */
  function Land(s: State, lab: Labels, from: nat, upto: nat): (d: seq<nat>)
    requires from <= upto <= |s.sent| == |lab.tags|
    ensures |d| == |lab.dur|
    ensures forall p :: 0 <= p < |d| ==> d[p] == LastTag(s.sent[from..upto], lab.tags[from..upto], p, lab.dur[p])
  {
    seq(|lab.dur|, p requires 0 <= p < |lab.dur| => LastTag(s.sent[from..upto], lab.tags[from..upto], p, lab.dur[p]))
  }

  /** Every label names the image it should. */
  predicate LabelsOk(s: State, lab: Labels) {
    && |lab.hist| == |lab.cur| == |lab.dur| == |s.pages| && |lab.tags| == |s.sent|
    && (forall p :: 0 <= p < |s.pages| ==>
          && lab.dur[p] <= lab.cur[p] < |lab.hist[p]|
          && Logical(s)[p] == lab.hist[p][lab.cur[p]]
          && Durable(s)[p] == lab.hist[p][lab.dur[p]])
    && (forall i :: Landed(s) <= i < |s.sent| ==> TagOk(s, lab, i))
    && (forall i, j :: Landed(s) <= i < j < |s.sent| && s.sent[i].page == s.sent[j].page ==> lab.tags[i] <= lab.tags[j])
    && (forall p :: 0 <= p < |s.pages| && !(s.phase.Up? && Dirty(s, p)) ==> lab.cur[p] == lab.dur[p])
    && (s.phase.Up? && (s.phase.stage.Appended? || s.phase.stage.Logged?) ==> FlushLabels(s, lab, Target(s)))
  }

  /** The newest record is the page's current image; once it has landed, so is the durable one. */
  predicate FlushLabels(s: State, lab: Labels, p: nat)
    requires |lab.cur| == |lab.dur| == |s.pages| && |lab.tags| == |s.sent|
  {
    && p < |s.pages| && s.sent != [] && lab.tags[|s.sent| - 1] == lab.cur[p]
    && (Landed(s) == |s.sent| ==> lab.dur[p] == lab.cur[p])
  }

  predicate TagOk(s: State, lab: Labels, i: nat)
    requires |lab.hist| == |lab.cur| == |lab.dur| == |s.pages|
    requires i < |s.sent| == |lab.tags|
  {
    var p := s.sent[i].page;
    && p < |s.pages| && lab.dur[p] <= lab.tags[i] <= lab.cur[p] && lab.tags[i] < |lab.hist[p]|
    && lab.hist[p][lab.tags[i]] == s.sent[i].image
  }

  /** How a step numbers the image it creates and moves the numbers it carries along. */
  function NextLabels(s: State, lab: Labels, e: Event): Labels
    requires Inv(s) && LabelsOk(s, lab) && Enabled(s, e)
  {
    DurableIs(s);
    match e
    case Mutate(p, image) =>
      lab.(hist := lab.hist[p := lab.hist[p] + [image]], cur := lab.cur[p := |lab.hist[p]|])
    case Allocate => lab.(hist := lab.hist + [[ZERO_PAGE]], cur := lab.cur + [0], dur := lab.dur + [0])
    case InitPage(image) =>
      var p, n := Target(s), |lab.hist[Target(s)]|;
      lab.(hist := lab.hist[p := lab.hist[p] + [image]], cur := lab.cur[p := n], dur := lab.dur[p := n])
    case Append(p) => lab.(tags := lab.tags + [lab.cur[p]])
    case LogFlush => lab.(dur := Land(s, lab, Landed(s), |s.sent|))
    case Spill(n) => StepSound(s, e); DurableIs(Next(s, e)); lab.(dur := Land(s, lab, Landed(s), Landed(Next(s, e))))
    case Crash(n) =>
      StepSound(s, e);
      CrashLands(s, e);
      var d := Land(s, lab, Landed(s), Landed(Next(s, e)));
      lab.(cur := d, dur := d, tags := lab.tags[..Landed(Next(s, e))])
    case Checkpoint => lab.(tags := [])
    case FinishReplay => lab.(tags := [])
    case _ => lab
  }

  lemma CrashLands(s: State, e: Event)
    requires Inv(s) && Enabled(s, e) && e.Crash?
    ensures var t := Next(s, e);
            && LogOk(t) && Landed(s) <= Landed(t) <= |s.sent| && t.sent == s.sent[..Landed(t)] && t.pages == s.pages
  {
    hide OnDisk, Scan, Replayed, Durable, Stream;
    var t := Next(s, e);
    var all := s.log + s.pending;
    assert t.log == all[..|t.log|];
    CutStream(s.sent, all, |t.log|, |s.pages|);
    ScanStream(s.sent[..Landed(t)], t.log, |s.pages|);
    StepSound(s, e);
  }

  /** The newest tag in a window names the newest image in it and stays between the two numbers. */
  lemma {:induction false} LastTagNames(s: State, lab: Labels, from: nat, upto: nat, p: nat)
    requires |lab.hist| == |lab.cur| == |lab.dur| == |s.pages| && p < |s.pages|
    requires from <= upto <= |s.sent| == |lab.tags|
    requires forall i :: from <= i < upto ==> TagOk(s, lab, i)
    requires lab.dur[p] <= lab.cur[p] < |lab.hist[p]|
    ensures var v := LastTag(s.sent[from..upto], lab.tags[from..upto], p, lab.dur[p]);
            && lab.dur[p] <= v <= lab.cur[p]
            && ImageOr(s.sent[from..upto], p, lab.hist[p][lab.dur[p]]) == lab.hist[p][v]
            && (v == lab.dur[p] || exists i :: from <= i < upto && s.sent[i].page == p && v == lab.tags[i])
    decreases upto - from
  {
    if from < upto {
      var recs, tags := s.sent[from..upto], lab.tags[from..upto];
      assert recs[..|recs| - 1] == s.sent[from..upto - 1] && tags[..|tags| - 1] == lab.tags[from..upto - 1];
      assert recs[|recs| - 1] == s.sent[upto - 1] && tags[|tags| - 1] == lab.tags[upto - 1];
      assert TagOk(s, lab, upto - 1);
      LastTagNames(s, lab, from, upto - 1, p);
    }
  }

  /** Histories only get longer and no page's durable number goes down. */
  predicate Grows(a: Labels, b: Labels) {
    && |a.dur| == |a.hist| <= |b.dur| == |b.hist|
    && forall p :: 0 <= p < |a.dur| ==> a.dur[p] <= b.dur[p] && a.hist[p] <= b.hist[p]
  }

  /** Steps that neither create an image nor let a record land. */
  predicate Plain(e: Event) {
    e.Load? || e.Drop? || e.AppendFail? || e.LogFlushFail? || e.DataWrite? || e.DataWriteFail?
    || e.StartReplay? || e.ReplayWrite? || e.ReplayFail?
  }

  lemma PlainKeepsViews(s: State, e: Event)
    requires Inv(s) && Enabled(s, e) && Plain(e)
    ensures Durable(Next(s, e)) == Durable(s) && Logical(Next(s, e)) == Logical(s)
    ensures Next(s, e).log == s.log && Next(s, e).sent == s.sent && |Next(s, e).pages| == |s.pages|
  {
    hide OnDisk, Scan, Replayed, Durable, LogOk, Logical;
    StepSound(s, e);
    DurableIs(s);
    var t := Next(s, e);
    if t.pages == s.pages && t.log == s.log {
      SameDurable(s, t);
    }
  }

  lemma PlainLabels(s: State, lab: Labels, e: Event)
    requires Inv(s) && LabelsOk(s, lab) && Enabled(s, e) && Plain(e)
    ensures LabelsOk(Next(s, e), NextLabels(s, lab, e)) && Grows(lab, NextLabels(s, lab, e))
  {
    hide OnDisk, Scan, Replayed, Durable, LogOk, Logical, Land, TagOk, Inv, Enabled, Next;
    PlainKeepsViews(s, e);
    PlainKeepsDirt(s, e);
    var t := Next(s, e);
    assert NextLabels(s, lab, e) == lab;
    SentLanded(s);
    KeepTags(s, t, lab);
  }

  lemma SentLanded(s: State)
    requires Inv(s)
    ensures Landed(s) <= |s.sent|
  {
    hide OnDisk, Scan, Replayed, Durable, Stream;
    DurableIs(s);
  }

  /** Such a step dirties nothing; the one page it may clean is the one whose image has just landed. */
  lemma PlainKeepsDirt(s: State, e: Event)
    requires Inv(s) && Enabled(s, e) && Plain(e)
    ensures var t := Next(s, e);
            && Landed(t) == Landed(s) && (t.phase.Up? ==> s.phase.Up?)
            && (t.phase.Up? && (t.phase.stage.Appended? || t.phase.stage.Logged?) ==> t.phase == s.phase)
            && (forall p :: 0 <= p < |s.pages| && s.phase.Up? && Dirty(s, p) && !(t.phase.Up? && Dirty(t, p)) ==>
                  s.phase.stage.Logged? && p == Target(s) && Landed(s) == |s.sent|)
  {
    hide OnDisk, Scan, Replayed, Durable, LogOk, RecordBytes, CacheOk;
  }

  lemma TruncateLabels(s: State, lab: Labels, e: Event)
    requires Inv(s) && LabelsOk(s, lab) && Enabled(s, e) && (e.Checkpoint? || e.FinishReplay?)
    ensures LabelsOk(Next(s, e), NextLabels(s, lab, e)) && Grows(lab, NextLabels(s, lab, e))
  {
    hide OnDisk, Scan, Replayed, Durable, Stream, Land, TagOk;
    var t := Next(s, e);
    CheckpointSafe(s, e);
    EmptyLogOk(t);
  }

  lemma MutateLabels(s: State, lab: Labels, e: Event)
    requires Inv(s) && LabelsOk(s, lab) && Enabled(s, e) && e.Mutate?
    ensures LabelsOk(Next(s, e), NextLabels(s, lab, e)) && Grows(lab, NextLabels(s, lab, e))
  {
    hide OnDisk, Scan, Replayed, Durable, LogOk, Logical, Land;
    var t, next := Next(s, e), NextLabels(s, lab, e);
    StepSound(s, e);
    forall i | Landed(t) <= i < |t.sent|
      ensures TagOk(t, next, i)
    {
      assert TagOk(s, lab, i);
    }
  }

  lemma AppendLabels(s: State, lab: Labels, e: Event)
    requires Inv(s) && LabelsOk(s, lab) && Enabled(s, e) && e.Append?
    ensures LabelsOk(Next(s, e), NextLabels(s, lab, e)) && Grows(lab, NextLabels(s, lab, e))
  {
    hide OnDisk, Scan, Replayed, Durable, LogOk, Logical, Land, RecordBytes;
    var t, next := Next(s, e), NextLabels(s, lab, e);
    StepSound(s, e);
    SameDurable(s, t);
    DurableIs(s);
    AppendIsLogical(s, e);
    forall i | Landed(t) <= i < |t.sent|
      ensures TagOk(t, next, i)
    {
      assert i == |s.sent|;
    }
  }

  lemma AllocateLabels(s: State, lab: Labels, e: Event)
    requires Inv(s) && LabelsOk(s, lab) && Enabled(s, e) && e.Allocate?
    ensures LabelsOk(Next(s, e), NextLabels(s, lab, e)) && Grows(lab, NextLabels(s, lab, e))
  {
    hide OnDisk, Scan, Replayed, Durable, LogOk, Logical, Land;
    var t, next := Next(s, e), NextLabels(s, lab, e);
    StepSound(s, e);
    forall i | Landed(t) <= i < |t.sent|
      ensures TagOk(t, next, i)
    {
      assert TagOk(s, lab, i);
    }
  }

  lemma InitLabels(s: State, lab: Labels, e: Event)
    requires Inv(s) && LabelsOk(s, lab) && Enabled(s, e) && e.InitPage?
    ensures LabelsOk(Next(s, e), NextLabels(s, lab, e)) && Grows(lab, NextLabels(s, lab, e))
  {
    hide OnDisk, Scan, Replayed, Durable, LogOk, Logical, Land;
    var t, next := Next(s, e), NextLabels(s, lab, e);
    StepSound(s, e);
    forall i | Landed(t) <= i < |t.sent|
      ensures TagOk(t, next, i)
    {
      assert TagOk(s, lab, i) && s.sent[i].page != Target(s);
    }
  }

  lemma KeepTags(s: State, t: State, lab: Labels)
    requires LabelsOk(s, lab) && t.sent == s.sent && t.log == s.log && |t.pages| == |s.pages|
    ensures forall i :: Landed(t) <= i < |t.sent| ==> TagOk(t, lab, i)
  {
    hide OnDisk, Scan, Replayed, Durable, Logical;
    forall i | Landed(t) <= i < |t.sent|
      ensures TagOk(t, lab, i)
    {
      assert TagOk(s, lab, i);
    }
  }

  /** Landing records moves each durable number up to the number of the image it carries. */
  lemma LandLabels(s: State, t: State, lab: Labels)
    requires LogOk(s) && LogOk(t) && LabelsOk(s, lab) && Advances(s, t)
    ensures var d := Land(s, lab, Landed(s), Landed(t));
            && forall p :: 0 <= p < |s.pages| ==>
                 && lab.dur[p] <= d[p] <= lab.cur[p] && Durable(t)[p] == lab.hist[p][d[p]]
                 && forall i :: Landed(t) <= i < |s.sent| && s.sent[i].page == p ==> d[p] <= lab.tags[i]
  {
    hide OnDisk, Scan, Replayed, Durable, LogOk, Logical, TagOk, ImageOr, LastTag;
    DurableIs(s);
    var from, upto := Landed(s), Landed(t);
    forall p | 0 <= p < |s.pages|
      ensures var d := Land(s, lab, from, upto);
              && lab.dur[p] <= d[p] <= lab.cur[p] && Durable(t)[p] == lab.hist[p][d[p]]
              && forall i :: upto <= i < |s.sent| && s.sent[i].page == p ==> d[p] <= lab.tags[i]
    {
      AdvanceAt(s, t, p);
      LastTagNames(s, lab, from, upto, p);
      forall i | upto <= i < |s.sent| && s.sent[i].page == p
        ensures Land(s, lab, from, upto)[p] <= lab.tags[i]
      {
        TagAbove(s, lab, i);
      }
    }
  }

  lemma TagAbove(s: State, lab: Labels, i: nat)
    requires LabelsOk(s, lab) && Landed(s) <= i < |s.sent|
    ensures s.sent[i].page < |s.pages| && lab.dur[s.sent[i].page] <= lab.tags[i]
  {
    hide OnDisk, Durable, Logical;
    assert TagOk(s, lab, i);
  }

  /** When the record being flushed lands, the page's durable number becomes the current one. */
  lemma FlushLands(s: State, t: State, lab: Labels, p: nat)
    requires LogOk(s) && LogOk(t) && LabelsOk(s, lab) && Advances(s, t) && Landed(t) == |s.sent|
    requires FlushLabels(s, lab, p) && s.sent[|s.sent| - 1].page == p
    ensures Land(s, lab, Landed(s), Landed(t))[p] == lab.cur[p]
  {
    hide OnDisk, Scan, Replayed, Durable, LogOk, Logical, TagOk;
    var recs, tags := s.sent[Landed(s)..], lab.tags[Landed(s)..];
    assert s.sent[Landed(s)..Landed(t)] == recs && lab.tags[Landed(s)..Landed(t)] == tags;
    if Landed(s) < |s.sent| {
      assert recs[|recs| - 1] == s.sent[|s.sent| - 1] && tags[|tags| - 1] == lab.tags[|s.sent| - 1];
    }
  }

  lemma LandedOk(s: State, t: State, lab: Labels)
    requires LogOk(s) && LogOk(t) && LabelsOk(s, lab) && Advances(s, t) && t.sent == s.sent && t.cache == s.cache
    requires Logical(t) == Logical(s) && s.phase.Up? && t.phase.Up?
    requires t.phase == s.phase || (s.phase.stage.Appended? && t.phase.stage == Stage.Logged(Target(s)))
    requires s.phase.stage.Appended? || s.phase.stage.Logged? ==> s.sent != [] && s.sent[|s.sent| - 1].page == Target(s)
    ensures LabelsOk(t, lab.(dur := Land(s, lab, Landed(s), Landed(t))))
    ensures Grows(lab, lab.(dur := Land(s, lab, Landed(s), Landed(t))))
  {
    hide OnDisk, Scan, Replayed, Durable, LogOk, Logical, Land;
    var next := lab.(dur := Land(s, lab, Landed(s), Landed(t)));
    LandLabels(s, t, lab);
    forall i | Landed(t) <= i < |t.sent|
      ensures TagOk(t, next, i)
    {
      assert TagOk(s, lab, i);
    }
    if (s.phase.stage.Appended? || s.phase.stage.Logged?) && Landed(t) == |s.sent| {
      FlushLands(s, t, lab, Target(s));
    }
  }

  lemma SpillLabels(s: State, lab: Labels, e: Event)
    requires Inv(s) && LabelsOk(s, lab) && Enabled(s, e) && (e.Spill? || e.LogFlush?)
    ensures LabelsOk(Next(s, e), NextLabels(s, lab, e)) && Grows(lab, NextLabels(s, lab, e))
  {
    hide OnDisk, Scan, Replayed, Durable, LogOk, Logical, Land, LabelsOk, Grows, Inv, Enabled, Next, Landed;
    var t := Next(s, e);
    SpillViews(s, e);
    SentLanded(s);
    if s.phase.Up? {
      LandedOk(s, t, lab);
    } else {
      NothingLands(s, lab);
    }
  }

  lemma NothingLands(s: State, lab: Labels)
    requires LabelsOk(s, lab) && Landed(s) <= |s.sent|
    ensures lab.(dur := Land(s, lab, Landed(s), Landed(s))) == lab && Grows(lab, lab)
  {
    hide OnDisk, Durable, Logical, Landed;
    assert s.sent[Landed(s)..Landed(s)] == [];
  }

  /** What flushing the log or spilling part of it moves: bytes into the file, nothing else. */
  lemma SpillViews(s: State, e: Event)
    requires Inv(s) && Enabled(s, e) && (e.Spill? || e.LogFlush?)
    ensures var t := Next(s, e);
            && LogOk(s) && LogOk(t) && Advances(s, t) && t.sent == s.sent && t.cache == s.cache
            && Logical(t) == Logical(s)
            && (e.LogFlush? ==> s.phase.Up? && Landed(t) == |s.sent|)
            && (if s.phase.Up? then
                  && t.phase.Up?
                  && (t.phase == s.phase || (s.phase.stage.Appended? && t.phase.stage == Stage.Logged(Target(s))))
                  && (s.phase.stage.Appended? || s.phase.stage.Logged? ==>
                      s.sent != [] && s.sent[|s.sent| - 1].page == Target(s))
                else t == s)
  {
    hide OnDisk, Scan, Replayed, Durable, LogOk, Logical, CacheOk;
    StepSound(s, e);
    DurableIs(s);
    DurableIs(Next(s, e));
  }

  lemma CrashLabels(s: State, lab: Labels, e: Event)
    requires Inv(s) && LabelsOk(s, lab) && Enabled(s, e) && e.Crash?
    ensures LabelsOk(Next(s, e), NextLabels(s, lab, e)) && Grows(lab, NextLabels(s, lab, e))
  {
    hide OnDisk, Scan, Replayed, Durable, LogOk, Logical, Land, TagOk;
    var t, next := Next(s, e), NextLabels(s, lab, e);
    StepSound(s, e);
    CrashLands(s, e);
    DurableIs(s);
    assert s.sent[..Landed(t)][..Landed(t)] == s.sent[..Landed(t)];
    LandLabels(s, t, lab);
  }

  /**
   Over every step, crash included: the recovered image of each page is the one
   numbered `dur`, that number never goes down and no image is ever renumbered.
   */
  lemma StepNeverRollsBack(s: State, lab: Labels, e: Event)
    requires Inv(s) && LabelsOk(s, lab) && Enabled(s, e)
    ensures LabelsOk(Next(s, e), NextLabels(s, lab, e)) && Grows(lab, NextLabels(s, lab, e))
  {
    hide Inv, LabelsOk, Enabled, Next, NextLabels, Grows;
    match e
    case Mutate(_, _) => MutateLabels(s, lab, e);
    case Append(_) => AppendLabels(s, lab, e);
    case LogFlush => SpillLabels(s, lab, e);
    case Spill(_) => SpillLabels(s, lab, e);
    case Allocate => AllocateLabels(s, lab, e);
    case InitPage(_) => InitLabels(s, lab, e);
    case Checkpoint => TruncateLabels(s, lab, e);
    case FinishReplay => TruncateLabels(s, lab, e);
    case Crash(_) => CrashLabels(s, lab, e);
    case _ => PlainLabels(s, lab, e);
  }

  /** The labels at the end of a run. */
  function RunLabels(s: State, lab: Labels, es: seq<Event>): Labels
    requires Inv(s) && LabelsOk(s, lab) && Legal(s, es)
    decreases |es|
  {
    if es == [] then lab
    else
      StepSound(s, es[0]);
      StepNeverRollsBack(s, lab, es[0]);
      RunLabels(Next(s, es[0]), NextLabels(s, lab, es[0]), es[1..])
  }

  /**
   Recovery never rolls a page back: whatever image of page p is durable at some
   point of a run, every later recovery yields that image or one given to p later.
   */
  lemma {:induction false} RunNeverRollsBack(s: State, lab: Labels, es: seq<Event>)
    requires Inv(s) && LabelsOk(s, lab) && Legal(s, es)
    ensures LabelsOk(Exec(s, es), RunLabels(s, lab, es)) && Grows(lab, RunLabels(s, lab, es))
    decreases |es|
  {
    hide Inv, LabelsOk, Enabled, Next, NextLabels;
    if es != [] {
      StepSound(s, es[0]);
      StepNeverRollsBack(s, lab, es[0]);
      RunNeverRollsBack(Next(s, es[0]), NextLabels(s, lab, es[0]), es[1..]);
      GrowsTrans(lab, NextLabels(s, lab, es[0]), RunLabels(s, lab, es));
    } else {
      DurableIsLanded(s);
      NothingLands(s, lab);
    }
  }

  lemma DurableIsLanded(s: State)
    requires Inv(s)
    ensures Landed(s) <= |s.sent|
  {
    DurableIs(s);
  }

  lemma GrowsTrans(a: Labels, b: Labels, c: Labels)
    requires Grows(a, b) && Grows(b, c)
    ensures Grows(a, c)
  {
    forall p | 0 <= p < |a.dur|
      ensures a.hist[p] <= c.hist[p]
    {
      assert a.hist[p] <= b.hist[p] && b.hist[p] <= c.hist[p];
    }
  }

  /** Numbering starts with the pages of the initial file. */
  lemma InitialLabels(s: State)
    requires Init(s)
    ensures LabelsOk(s, Labels(seq(|s.pages|, p requires 0 <= p < |s.pages| => [s.pages[p]]),
                               seq(|s.pages|, _ => 0), seq(|s.pages|, _ => 0), []))
  {
    EmptyLogOk(s);
  }
}
