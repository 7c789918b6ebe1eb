/** The key-version table: anchors minted when a version is created, filled in when missing, and never
    rewritten, so that a lost master key can be told from a changed row. */
module Keys {
  import opened Bytes
  import opened Chain
  import opened ChainProofs
  import opened AuditRuns

  type Anchors = map<int, Option<Bytes>>

  /** The seed row, inserted when missing, has no anchor yet. */
  function Seeded(anchors: Anchors): Anchors {
    if 1 in anchors then anchors else anchors[1 := None]
  }

  function Backfilled(v: Verifier, anchors: Anchors): Anchors {
    map version | version in anchors ::
      if anchors[version].Some? then anchors[version] else Some(v.KeyAnchor(version))
  }

  /** The table while the versions in `todo` are still to be looked at. */
  function Partly(v: Verifier, anchors: Anchors, todo: set<int>): Anchors {
    map version | version in anchors ::
      if version in todo || anchors[version].Some? then anchors[version] else Some(v.KeyAnchor(version))
  }

  lemma PartlyStep(v: Verifier, anchors: Anchors, todo: set<int>, version: int)
    requires version in todo && version in anchors
    ensures version in Partly(v, anchors, todo)
    ensures Partly(v, anchors, todo - {version}) ==
            if Partly(v, anchors, todo)[version].None? then Partly(v, anchors, todo)[version := Some(v.KeyAnchor(version))]
            else Partly(v, anchors, todo)
  {
  }

  lemma PartlyEnds(v: Verifier, anchors: Anchors)
    ensures Partly(v, anchors, anchors.Keys) == anchors && Partly(v, anchors, {}) == Backfilled(v, anchors)
  {
  }

  /** The highest version. */
  ghost function MaxOf(versions: set<int>): (m: int)
    requires |versions| > 0
    ensures m in versions && forall k :: k in versions ==> k <= m
  {
    var x := Pick(versions);
    var rest := versions - {x};
    assert versions == rest + {x};
    if |rest| == 0 then x
    else
      var m := MaxOf(rest);
      if x > m then x else m
  }

  /** The table, the version new rows are written under, and the master key the store was opened with. */
  datatype KeyState = Closed(anchors: Anchors) | Open(anchors: Anchors, current: int, master: Bytes)

  ghost function Opened(v: Verifier, s: KeyState): KeyState {
    var anchors := Backfilled(v, Seeded(s.anchors));
    assert 1 in anchors.Keys;
    Open(anchors, MaxOf(anchors.Keys), v.master)
  }

  function RotatedKey(v: Verifier, s: KeyState): KeyState
    requires s.Open?
  {
    var version := s.current + 1;
    s.(anchors := s.anchors[version := Some(v.KeyAnchor(version))], current := version)
  }

  class KeyTable {
    const v: Verifier
    var anchors: Anchors
    var current: int

    ghost function State(): KeyState
      reads this
    {
      Open(anchors, current, v.master)
    }

    /** Opening the store: seed, backfill what has no anchor, and continue from the highest version. */
    constructor (v: Verifier, stored: Anchors)
      ensures this.v == v && State() == Opened(v, Closed(stored))
    {
      var table := if 1 in stored then stored else stored[1 := None];
      var todo, highest := table.Keys, 1;
      ghost var seeded := table;
      assert seeded == Seeded(stored);
      PartlyEnds(v, seeded);
      hide Partly, Backfilled, Seeded, MaxOf;
      while |todo| > 0
        invariant todo <= table.Keys == seeded.Keys && highest in table.Keys
        invariant forall k :: k in table.Keys && k !in todo ==> k <= highest
        invariant table == Partly(v, seeded, todo)
        decreases |todo|
      {
        var version := PickOne(todo);
        PartlyStep(v, seeded, todo, version);
        if table[version].None? {
          table := table[version := Some(v.KeyAnchor(version))];
        }
        highest := if version > highest then version else highest;
        todo := todo - {version};
      }
      this.v := v;
      anchors, current := table, highest;
    }

    method RotateKey() returns (version: int)
      modifies this
      ensures State() == RotatedKey(v, old(State())) && version == current
    {
      version := current + 1;
      anchors := anchors[version := Some(v.KeyAnchor(version))];
      current := version;
    }
  }

  // --- Runs of opens and rotations ---

  datatype Step = OpenWith(master: Bytes) | RotateKey

  ghost function Next(v: Verifier, s: KeyState, step: Step): KeyState {
    match step
    case OpenWith(master) => Opened(v.(master := master), s)
    case RotateKey => if s.Open? then RotatedKey(v.(master := s.master), s) else s
  }

  ghost function Run(v: Verifier, steps: seq<Step>): KeyState {
    if steps == [] then Closed(map[]) else Next(v, Run(v, steps[..|steps| - 1]), steps[|steps| - 1])
  }

  ghost predicate CurrentIsHighest(s: KeyState) {
    s.Open? ==> |s.anchors.Keys| > 0 && s.current == MaxOf(s.anchors.Keys)
  }

  /** Every anchor of `a` that is set is the same in `b`. */
  predicate AnchorsKept(a: Anchors, b: Anchors) {
    forall version :: version in a && a[version].Some? ==> version in b && b[version] == a[version]
  }

  lemma StepKeepsAnchors(v: Verifier, s: KeyState, step: Step)
    requires CurrentIsHighest(s)
    ensures CurrentIsHighest(Next(v, s, step))
    ensures AnchorsKept(s.anchors, Next(v, s, step).anchors)
  {
    var s' := Next(v, s, step);
    if step.RotateKey? && s.Open? {
      assert s.current + 1 !in s.anchors;
      assert s'.anchors.Keys == s.anchors.Keys + {s'.current};
    }
  }

  lemma {:induction false} RunKeepsHighest(v: Verifier, steps: seq<Step>)
    ensures CurrentIsHighest(Run(v, steps))
  {
    if steps != [] {
      RunKeepsHighest(v, steps[..|steps| - 1]);
      StepKeepsAnchors(v, Run(v, steps[..|steps| - 1]), steps[|steps| - 1]);
    }
  }

  /** An anchor once set never changes again, whichever masters open the store later. */
  lemma {:induction false} AnchorsNeverChange(v: Verifier, steps: seq<Step>, i: nat)
    requires i <= |steps|
    ensures AnchorsKept(Run(v, steps[..i]).anchors, Run(v, steps).anchors)
  {
    if i == |steps| {
      assert steps[..i] == steps;
    } else {
      var k := |steps| - 1;
      assert steps[..k][..i] == steps[..i];
      AnchorsNeverChange(v, steps[..k], i);
      RunKeepsHighest(v, steps[..k]);
      StepKeepsAnchors(v, Run(v, steps[..k]), steps[k]);
    }
  }

  /** Every version has the anchor that `minter` gives it. */
  predicate MintedBy(v: Verifier, minter: Bytes, anchors: Anchors) {
    forall version :: version in anchors ==> anchors[version] == Some(v.(master := minter).KeyAnchor(version))
  }

  predicate OpensWith(steps: seq<Step>, master: Bytes) {
    forall i :: 0 <= i < |steps| && steps[i].OpenWith? ==> steps[i].master == master
  }

  lemma {:induction false} OneMasterMints(v: Verifier, steps: seq<Step>, master: Bytes)
    requires OpensWith(steps, master)
    ensures MintedBy(v, master, Run(v, steps).anchors)
    ensures Run(v, steps).Open? ==> Run(v, steps).master == master
  {
    if steps != [] {
      var k := |steps| - 1;
      assert OpensWith(steps[..k], master);
      OneMasterMints(v, steps[..k], master);
    }
  }

  /** What the store holds after a life under `original` and one more opening under `later`. */
  ghost function VerifierAfter(v: Verifier, steps: seq<Step>, later: Bytes): Verifier {
    v.(master := later, anchors := Run(v, steps + [OpenWith(later)]).anchors)
  }

  lemma AnchorsSurviveReopening(v: Verifier, steps: seq<Step>, original: Bytes, later: Bytes)
    requires OpensWith(steps, original) && 1 in Run(v, steps).anchors
    ensures VerifierAfter(v, steps, later).anchors == Run(v, steps).anchors
  {
    OneMasterMints(v, steps, original);
    assert (steps + [OpenWith(later)])[..|steps|] == steps;
  }

  /** Rows of versions the table knows. */
  predicate KnownVersions(rows: seq<Row>, anchors: Anchors) {
    forall i :: 0 <= i < |rows| ==> rows[i].keyVersion in anchors
  }

  lemma ChainedLinks(v: Verifier, rows: seq<Row>, start: Bytes)
    requires Chained(v, rows, start)
    ensures LinksIntact(rows, start)
  {
    forall i | 0 <= i < |rows|
      ensures rows[i].eventHash != [] && rows[i].prevHash == if i == 0 then start else rows[i - 1].eventHash
    {
      ChainedAt(v, rows, start, i);
    }
  }

  /** The whole story. Rows chained under `original`, whose anchors it minted, are scanned after the store
      is opened with `later`, which has other anchors: nothing is reported as tampering, and every row that
      does not verify is reported as key loss. */
  lemma {:induction false} LostMasterIsKeyLoss(
    v: Verifier, steps: seq<Step>, original: Bytes, later: Bytes, rows: seq<Row>, start: Bytes, total: nat, scope: Option<Bytes>)
    requires OpensWith(steps, original) && 1 in Run(v, steps).anchors
    requires Chained(v.(master := original), rows, start) && KnownVersions(rows, Run(v, steps).anchors)
    requires forall i :: 0 <= i < |rows| ==>
      v.(master := later).KeyAnchor(rows[i].keyVersion) != v.(master := original).KeyAnchor(rows[i].keyVersion)
    ensures
      var after := VerifierAfter(v, steps, later);
      var report := ReportOf(total, rows, Findings(after, rows, start), scope);
      && !report.tampered
      && report.keyVersionUnknownRows == report.brokenLinks
      && report.verifiedLinks + report.keyVersionUnknownRows == ScopeSize(rows, scope)
  {
    var after := VerifierAfter(v, steps, later);
    AnchorsSurviveReopening(v, steps, original, later);
    OneMasterMints(v, steps, original);
    ChainedLinks(v.(master := original), rows, start);
    assert AnchoredBy(after, original, rows);
    OtherMasterSeesKeyLoss(after, original, rows, start, total, scope);
  }

  /** Under the original master nothing counts as key loss, and whatever breaks counts as tampering, a version
      column rewritten to an unknown version included. */
  lemma {:induction false} KeptMasterSeesTampering(
    v: Verifier, steps: seq<Step>, original: Bytes, rows: seq<Row>, start: Bytes, total: nat, scope: Option<Bytes>)
    requires OpensWith(steps, original) && 1 in Run(v, steps).anchors
    ensures
      var after := VerifierAfter(v, steps, original);
      var report := ReportOf(total, rows, Findings(after, rows, start), scope);
      report.keyVersionUnknownRows == 0 && (report.tampered <==> report.brokenLinks > 0)
  {
    var after := VerifierAfter(v, steps, original);
    AnchorsSurviveReopening(v, steps, original, original);
    OneMasterMints(v, steps, original);
    assert OwnAnchors(after, rows);
    MintingMasterSeesTampering(after, rows, start, total, scope);
  }
}
