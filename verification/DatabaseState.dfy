/**
 What a database is at rest and while it runs, as values: the header page, the
 file image, the state its two files stand for, and the theorem that ties them:
 whatever a crash interrupts, the files are again those of a database.
 */
module DatabaseState {
  import opened Bytes
  import opened Results
  import opened LogFormat
  import opened CrashMachine
  import opened CrashSafety
  import opened Chain
  import opened Structure
  import opened CrashConsistency

  const MAGIC: seq<byte> := [0x4E, 0x44, 0x42, 0x31]
  const VERSION: nat := 1

  function HeaderPage(root: nat): Page {
    MAGIC + Encode(VERSION, 2) + Encode(0, 2) + Encode(root, 4) + Zeros(4084)
  }

  /** The catalog root a valid header page names. */
  function RootIn(p: Page): Option<nat> {
    if p[..4] == MAGIC && U16(p, 4) == VERSION && U32(p, 8) != INVALID_ID then Some(U32(p, 8)) else None
  }

  lemma HeaderReads(root: nat)
    requires root < INVALID_ID
    ensures RootIn(HeaderPage(root)) == Some(root)
  {
    hide Encode, Decode;
    var p := HeaderPage(root);
    RadixValues();
    DecodeEncode(VERSION, 2);
    DecodeEncode(root, 4);
    assert p[..4] == MAGIC && p[4..6] == Encode(VERSION, 2) && p[8..12] == Encode(root, 4);
  }

  /** A complete database file: header, catalog and everything they lead to. */
  ghost predicate Image(V: seq<Page>, use: seq<Use>, root: nat) {
    && Well(V, use) && |V| == |use| && 0 < |V| && use[0] == Header && RootIn(V[0]) == Some(root)
    && LinkPage(use, Kind.Catalog, root)
  }

  /** The machine state two files stand for when nothing runs. */
  function Files(pages: seq<Page>, log: seq<byte>): State {
    State(pages, log, [], false, OnDisk(log), map[], Down)
  }

  /** The files of a database at rest: what a start recovers is a complete database. */
  ghost predicate AtRestOk(s: State, use: seq<Use>, root: nat) {
    Inv(s) && s.phase.Down? && Image(Durable(s), use, root) && HeadersPristine(s, use)
  }

  /** A running database, as the machine sees it. */
  ghost predicate RunningOk(s: State, V: seq<Page>, use: seq<Use>, root: nat) {
    Inv(s) && V == Logical(s) && Image(V, use, root) && Disciplined(s, V, use)
  }

  lemma EarlierImage(D: seq<Page>, V: seq<Page>, use: seq<Use>, root: nat)
    requires Image(V, use, root) && Earlier(D, V, use)
    ensures Image(D, use, root)
  {
    hide Well, RootIn;
    EarlierIsWell(D, V, use);
    assert Precedes(use[0], D[0], V[0]);
  }

  lemma RestIsDisciplined(s: State, use: seq<Use>, root: nat)
    requires AtRestOk(s, use, root)
    ensures RunningOk(s, Durable(s), use, root)
  {
    hide OnDisk, Stream, RootIn, Precedes, Replayed;
    var D := Durable(s);
    forall p | 0 <= p < |s.pages|
      ensures Fits(D, use)(p, Logical(s)[p]) && Fits(D, use)(p, Durable(s)[p])
    {
      PrecedesSelf(D, use, p);
    }
  }

  /** From a running database or one at rest, however it comes to rest, it is a database at rest. */
  lemma ComesToRest(s: State, V: seq<Page>, use: seq<Use>, root: nat, t: State)
    requires RunningOk(s, V, use, root) && Steadily(s, t) && t.phase.Down?
    ensures AtRestOk(t, use, root)
  {
    hide Inv, Durable, Everywhere, Fits, HeadersPristine, Steadily, Well, RootIn, Logical;
    SteadyKeepsDiscipline(s, t, V, use);
    DurableIsEarlier(t, V, use);
    EarlierImage(Durable(t), V, use, root);
  }

  /**
   The next start always works: a database at rest has a readable log that names
   only its own pages, an intact header, a catalog that opens and, for every entry
   of the catalog, a table that opens.
   */
  lemma RestOpens(s: State, use: seq<Use>, root: nat)
    requires AtRestOk(s, use, root) && |s.pages| < 0xFFFF_FFFE
    ensures Scan(s.log, 0).Scanned? && s.pages != [] && RootIn(s.pages[0]) == Some(root)
    ensures CatalogOpens(Durable(s), root)
  {
    hide OnDisk, Stream, RootIn, Well, Replayed, CatalogChain, Follow, Scan;
    LogReads(s);
    PristineMeans(s, 0);
    WellCatalogOpens(Durable(s), use, root);
  }

  /** The machine as it comes up after recovery. */
  function Risen(pages: seq<Page>): State {
    State(pages, [], [], false, [], map[], Up(Idle))
  }

  lemma FreshRuns(D: seq<Page>, use: seq<Use>, root: nat)
    requires Image(D, use, root) && |D| <= INVALID_ID
    ensures RunningOk(Risen(D), D, use, root) && Settles(Risen(D), D)
    ensures AtRestOk(Files(D, []), use, root) && Durable(Files(D, [])) == D
  {
    hide Stream, RootIn, Precedes, Replayed, Well;
    var up := Risen(D);
    EmptyLogOk(up);
    EmptyLogOk(Files(D, []));
    forall p | 0 <= p < |D|
      ensures Fits(D, use)(p, D[p])
    {
      PrecedesSelf(D, use, p);
    }
  }

  /** Every image of every page is the given one. */
  ghost predicate Settles(s: State, D: seq<Page>) {
    |s.pages| == |D| && Everywhere(s, Exactly(D))
  }

  function Exactly(D: seq<Page>): (nat, Page) -> bool {
    (p: nat, image: Page) => p < |D| ==> image == D[p]
  }

  /** A database nobody wrote to recovers to itself, whatever happens. */
  lemma SettledRecovers(s: State, D: seq<Page>, t: State)
    requires Inv(s) && Settles(s, D) && Steadily(s, t)
    ensures Durable(t) == D
  {
    hide Inv, Durable, Logical, Legal, Exec, Quiet;
    var es :| AllSteady(es) && Legal(s, es) && Exec(s, es) == t;
    SteadyRun(s, es, Exactly(D));
    SteadySize(s, es);
    forall p | 0 <= p < |D|
      ensures Durable(t)[p] == D[p]
    {
      assert Exactly(D)(p, Durable(t)[p]);
    }
  }
}
