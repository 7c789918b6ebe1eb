/** Whole runs of the audit store: one unbroken chain through archives and table, and verifications
    that stay clean whatever the store does to itself. */
module AuditRuns {
  import opened Bytes
  import opened Payload
  import opened Chain
  import opened ChainProofs
  import opened DeadLetter
  import opened AuditStore

  // --- Chained rows ---

  function TailHash(rows: seq<Row>, start: Bytes): Bytes {
    if rows == [] then start else rows[|rows| - 1].eventHash
  }

  predicate IsLinked(v: Verifier, row: Row, prev: Bytes) {
    row == LinkedRow(v, row.event, row.keyVersion, prev)
  }

  /** Each row is linked to the one before it, the first to `start`. */
  predicate Chained(v: Verifier, rows: seq<Row>, start: Bytes) {
    rows == [] ||
    var k := |rows| - 1;
    Chained(v, rows[..k], start) && IsLinked(v, rows[k], TailHash(rows[..k], start))
  }

  lemma {:induction false} ChainedConcat(v: Verifier, a: seq<Row>, b: seq<Row>, start: Bytes)
    ensures Chained(v, a + b, start) <==> Chained(v, a, start) && Chained(v, b, TailHash(a, start))
    ensures TailHash(a + b, start) == TailHash(b, TailHash(a, start))
  {
    if b == [] {
      assert a + b == a;
    } else {
      var k := |b| - 1;
      assert (a + b)[..|a + b| - 1] == a + b[..k];
      ChainedConcat(v, a, b[..k], start);
    }
  }

  lemma {:induction false} ChainedAt(v: Verifier, rows: seq<Row>, start: Bytes, i: nat)
    requires i < |rows| && Chained(v, rows, start)
    ensures IsLinked(v, rows[i], if i == 0 then start else rows[i - 1].eventHash)
    ensures rows[i].eventHash != []
  {
    if i < |rows| - 1 {
      ChainedAt(v, rows[..|rows| - 1], start, i);
    }
  }

  lemma {:induction false} ChainedIntact(v: Verifier, rows: seq<Row>, start: Bytes)
    requires Chained(v, rows, start)
    ensures AllIntact(Findings(v, rows, start))
    ensures ExpectedAfter(rows, start) == TailHash(rows, start)
  {
    if rows != [] {
      ChainedIntact(v, rows[..|rows| - 1], start);
    }
  }

  // --- The invariant ---

  function Archived(archives: seq<seq<Row>>): seq<Row> {
    if archives == [] then [] else Archived(archives[..|archives| - 1]) + archives[|archives| - 1]
  }

  /** Everything ever committed, in order. */
  function History(s: State): seq<Row> {
    Archived(s.archives) + s.live
  }

  function EventsOf(rows: seq<Row>): seq<AuditEvent> {
    if rows == [] then [] else EventsOf(rows[..|rows| - 1]) + [rows[|rows| - 1].event]
  }

  lemma {:induction false} EventsConcat(a: seq<Row>, b: seq<Row>)
    ensures EventsOf(a + b) == EventsOf(a) + EventsOf(b)
  {
    if b == [] {
      assert a + b == a;
    } else {
      assert (a + b)[..|a + b| - 1] == a + b[..|b| - 1];
      EventsConcat(a, b[..|b| - 1]);
    }
  }

  predicate DistinctIds(rows: seq<Row>) {
    forall i, j :: 0 <= i < j < |rows| ==> rows[i].event.auditId != rows[j].event.auditId
  }

  /** The checkpoint names the tail of the archives, and a row of the table or none. */
  predicate CheckpointFits(s: State) {
    var cp, archived := ReadCheckpoint(s.checkpoint), Archived(s.archives);
    match cp
    case None => archived == []
    case Some(c) =>
      && c.archivedHash == (if archived == [] then None else Some(archived[|archived| - 1].eventHash))
      && c.archivedId == (if archived == [] then None else Some(archived[|archived| - 1].event.auditId))
      && (c.verifiedId != [] ==> AnchorIn(s.live, c.verifiedId, c.verifiedHash))
  }

  predicate AnchorIn(rows: seq<Row>, id: Bytes, hash: Bytes) {
    exists i :: 0 <= i < |rows| && rows[i].event.auditId == id && rows[i].eventHash == hash
  }

  predicate Invariant(v: Verifier, s: State) {
    && Chained(v, History(s), GENESIS)
    && DistinctIds(s.live)
    && CheckpointFits(s)
    && Sound(v, s.deadLetter)
  }

  /** The archived rows end in a hash, and the checkpoint has it. */
  lemma ArchiveTail(v: Verifier, s: State)
    requires Invariant(v, s)
    ensures Chained(v, Archived(s.archives), GENESIS)
    ensures Chained(v, s.live, TailHash(Archived(s.archives), GENESIS))
    ensures LastArchivedHash(s.checkpoint) == TailHash(Archived(s.archives), GENESIS)
    ensures PrevHash(s) == TailHash(History(s), GENESIS)
  {
    var archived := Archived(s.archives);
    ChainedConcat(v, archived, s.live, GENESIS);
  }

  lemma AppendKeepsChain(v: Verifier, rows: seq<Row>, row: Row, start: Bytes)
    requires Chained(v, rows, start) && IsLinked(v, row, TailHash(rows, start))
    ensures Chained(v, rows + [row], start)
    ensures EventsOf(rows + [row]) == EventsOf(rows) + [row.event]
  {
    hide IsLinked;
    assert (rows + [row])[..|rows|] == rows;
  }

  lemma AppendKeepsCheckpoint(s: State, s': State, row: Row)
    requires CheckpointFits(s) && s' == s.(live := s.live + [row])
    ensures CheckpointFits(s')
  {
    var cp := ReadCheckpoint(s.checkpoint);
    if cp.Some? && cp.value.verifiedId != [] {
      var i :| 0 <= i < |s.live| && s.live[i].event.auditId == cp.value.verifiedId && s.live[i].eventHash == cp.value.verifiedHash;
      assert s'.live[i] == s.live[i];
    }
  }

  lemma {:induction false} InsertKeeps(v: Verifier, s: State, ev: AuditEvent, version: int)
    requires Invariant(v, s)
    ensures Invariant(v, Inserted(v, s, ev, version))
    ensures
      EventsOf(History(Inserted(v, s, ev, version))) ==
      EventsOf(History(s)) + if HasId(s.live, ev.auditId) then [] else [ev]
  {
    hide Chained, EventsOf, Archived, CheckpointFits, Sound, PayloadOf, PrevHash, TailHash;
    if !HasId(s.live, ev.auditId) {
      var row := LinkedRow(v, ev, version, PrevHash(s));
      var s' := Inserted(v, s, ev, version);
      ArchiveTail(v, s);
      AppendKeepsChain(v, History(s), row, GENESIS);
      assert History(s') == History(s) + [row];
      AppendKeepsCheckpoint(s, s', row);
    }
  }

  /** The rows older than the cutoff. */
  function Aged(rows: seq<Row>, cutoff: Bytes): set<nat> {
    set i | 0 <= i < |rows| && Less(rows[i].event.ts, cutoff)
  }

  /** A rotation by age takes as many rows from the front as there are old rows. */
  lemma {:induction false} AgedCountIsSize(rows: seq<Row>, cutoff: Bytes)
    ensures AgedCount(rows, cutoff) == |Aged(rows, cutoff)|
  {
    if rows != [] {
      var k := |rows| - 1;
      AgedCountIsSize(rows[..k], cutoff);
      assert Aged(rows[..k], cutoff) == Aged(rows, cutoff) - {k};
    }
  }

  /** When timestamps do not go back, a rotation by age takes exactly the old rows; when no row is old, an
      oversized file gives up its first rows, at most `ROTATE_LIMIT`, and any other none. */
  lemma {:induction false} RotationTakesTheOld(rows: seq<Row>, cutoff: Bytes, oversized: bool)
    ensures
      var n := RotateCount(rows, cutoff, oversized);
      && ((exists i :: 0 <= i < |rows| && Less(rows[i].event.ts, cutoff)) ==>
            n == |Aged(rows, cutoff)|
            && ((forall i, j :: 0 <= i < j < |rows| ==> !Less(rows[j].event.ts, rows[i].event.ts)) ==>
                forall i :: 0 <= i < |rows| ==> (i < n <==> Less(rows[i].event.ts, cutoff))))
      && ((forall i :: 0 <= i < |rows| ==> !Less(rows[i].event.ts, cutoff)) ==>
            n == (if !oversized then 0 else if |rows| < 50000 then |rows| else 50000))
  {
    hide Less;
    AgedCountIsSize(rows, cutoff);
    if i :| 0 <= i < |rows| && Less(rows[i].event.ts, cutoff) {
      assert i in Aged(rows, cutoff);
      if forall i, j :: 0 <= i < j < |rows| ==> !Less(rows[j].event.ts, rows[i].event.ts) {
        AgedIsFront(rows, cutoff);
      }
    } else {
      assert Aged(rows, cutoff) == {};
    }
  }

  lemma {:induction false} AgedIsFront(rows: seq<Row>, cutoff: Bytes)
    requires forall i, j :: 0 <= i < j < |rows| ==> !Less(rows[j].event.ts, rows[i].event.ts)
    ensures forall i :: 0 <= i < |rows| ==> (i < AgedCount(rows, cutoff) <==> Less(rows[i].event.ts, cutoff))
  {
    hide Less;
    if rows != [] {
      var k := |rows| - 1;
      AgedIsFront(rows[..k], cutoff);
      forall i | 0 <= i < k
        ensures Less(rows[k].event.ts, cutoff) ==> Less(rows[i].event.ts, cutoff)
      {
        OlderToo(rows[i].event.ts, rows[k].event.ts, cutoff);
      }
      assert forall i :: 0 <= i < k ==> rows[..k][i] == rows[i];
    }
  }

  lemma OlderToo(a: Bytes, b: Bytes, cutoff: Bytes)
    requires !Less(b, a)
    ensures Less(b, cutoff) ==> Less(a, cutoff)
  {
    LessTotal(a, b);
    if Less(a, b) && Less(b, cutoff) {
      LessTransitive(a, b, cutoff);
    }
  }

  lemma RotateKeepsHistory(s: State, cutoff: Bytes, oversized: bool)
    ensures History(Rotated(s, cutoff, oversized)) == History(s)
  {
    var n, s' := RotateCount(s.live, cutoff, oversized), Rotated(s, cutoff, oversized);
    if n > 0 {
      assert s'.archives[..|s.archives|] == s.archives;
      assert Archived(s'.archives) == Archived(s.archives) + s.live[..n];
      assert s.live[..n] + s.live[n..] == s.live;
    }
  }

  lemma RotateKeepsCheckpoint(v: Verifier, s: State, cutoff: Bytes, oversized: bool)
    requires Invariant(v, s)
    ensures CheckpointFits(Rotated(s, cutoff, oversized))
  {
    hide Chained, RotateCount, CheckpointFits, Sound, DistinctIds, Archived;
    var n, s' := RotateCount(s.live, cutoff, oversized), Rotated(s, cutoff, oversized);
    if n > 0 {
      ChainedAt(v, History(s), GENESIS, |Archived(s.archives)| + n - 1);
      RotatedCheckpointFits(s, s', n);
    }
  }

  lemma RotatedCheckpointFits(s: State, s': State, n: nat)
    requires 0 < n <= |s.live| && s.live[n - 1].eventHash != []
    requires s'.archives == s.archives + [s.live[..n]] && s'.live == s.live[n..] && s'.checkpoint.Some?
    requires s'.checkpoint.value.archivedHash == Some(s.live[n - 1].eventHash)
    requires s'.checkpoint.value.archivedId == Some(s.live[n - 1].event.auditId)
    requires s'.live != [] ==>
      s'.checkpoint.value.verifiedId == s'.live[0].event.auditId && s'.checkpoint.value.verifiedHash == s'.live[0].eventHash
    requires s'.live == [] ==> s'.checkpoint.value.verifiedId == []
    ensures CheckpointFits(s')
  {
    assert s'.archives[..|s.archives|] == s.archives;
    assert Archived(s'.archives) == Archived(s.archives) + s.live[..n];
  }

  lemma {:induction false} RotateKeeps(v: Verifier, s: State, cutoff: Bytes, oversized: bool)
    requires Invariant(v, s)
    ensures Invariant(v, Rotated(s, cutoff, oversized))
    ensures History(Rotated(s, cutoff, oversized)) == History(s)
  {
    RotateKeepsHistory(s, cutoff, oversized);
    RotateKeepsCheckpoint(v, s, cutoff, oversized);
  }

  lemma ChainedAfter(v: Verifier, rows: seq<Row>, start: Bytes, i: nat)
    requires i < |rows| && Chained(v, rows, start)
    ensures Chained(v, rows[i + 1..], rows[i].eventHash)
  {
    hide Chained;
    assert rows == rows[..i + 1] + rows[i + 1..];
    ChainedConcat(v, rows[..i + 1], rows[i + 1..], start);
  }

  lemma AnchorFound(rows: seq<Row>, id: Bytes, hash: Bytes)
    requires DistinctIds(rows) && AnchorIn(rows, id, hash)
    ensures FindId(rows, id).Some? && rows[FindId(rows, id).value].eventHash == hash
  {
    var i :| 0 <= i < |rows| && rows[i].event.auditId == id && rows[i].eventHash == hash;
    var at := FindId(rows, id).value;
    assert at == i;
  }

  /** A scan is incremental exactly when the checkpoint names a row of the table by its id and its hash. */
  lemma {:induction false} IncrementalExactly(s: State)
    requires DistinctIds(s.live)
    ensures
      var cp := ReadCheckpoint(s.checkpoint);
      ScanPlan(s).skip > 0 <==>
      cp.Some? && cp.value.verifiedId != [] && cp.value.verifiedHash != [] && AnchorIn(s.live, cp.value.verifiedId, cp.value.verifiedHash)
  {
    hide FindId;
    var cp, p := ReadCheckpoint(s.checkpoint), ScanPlan(s);
    if p.skip > 0 {
      assert s.live[p.skip - 1].event.auditId == cp.value.verifiedId;
    } else if cp.Some? && AnchorIn(s.live, cp.value.verifiedId, cp.value.verifiedHash) {
      AnchorFound(s.live, cp.value.verifiedId, cp.value.verifiedHash);
    }
  }

  /** Under the invariant a scan starts where the chain does, or at a row of it. */
  lemma PlanFollowsChain(v: Verifier, s: State)
    requires Invariant(v, s)
    ensures var p := ScanPlan(s); Chained(v, s.live[p.skip..], p.start)
  {
    hide Chained, Archived, FindId, DistinctIds, AnchorIn, Sound;
    ArchiveTail(v, s);
    var cp, start := ReadCheckpoint(s.checkpoint), TailHash(Archived(s.archives), GENESIS);
    assert s.live[0..] == s.live;
    if cp.Some? && cp.value.verifiedId != [] {
      AnchorFound(s.live, cp.value.verifiedId, cp.value.verifiedHash);
      var at := FindId(s.live, cp.value.verifiedId).value;
      ChainedAfter(v, s.live, start, at);
      LiveIsHashed(v, s, at);
    }
  }

  lemma LiveIsHashed(v: Verifier, s: State, i: nat)
    requires Invariant(v, s) && i < |s.live|
    ensures s.live[i].eventHash != []
  {
    ChainedAt(v, History(s), GENESIS, |Archived(s.archives)| + i);
  }

  /** With no row altered, a verification of any scope is clean and vouches for every row it reads. */
  lemma {:induction false} VerifyIsClean(v: Verifier, s: State, scope: Option<Bytes>)
    requires Invariant(v, s)
    ensures VerifyReport(v, s, scope) ==
            ChainVerification(ScopeSize(s.live, scope), 0, ScopeSize(s.live[ScanPlan(s).skip..], scope), 0, false, None, 0)
  {
    PlanFollowsChain(v, s);
    var p := ScanPlan(s);
    ChainedIntact(v, s.live[p.skip..], p.start);
    CleanReport(v, s.live[p.skip..], p.start, ScopeSize(s.live, scope), scope);
  }

  /** Moving the anchor to a row of the table, or to none, keeps the checkpoint fitting. */
  lemma MovedCheckpointFits(v: Verifier, s: State, id: Bytes, hash: Bytes, s': State)
    requires Invariant(v, s)
    requires
      var cp := ReadCheckpoint(s.checkpoint);
      s' == s.(checkpoint := Some(Checkpoint(id, hash,
        if cp.Some? then cp.value.archivedId else None,
        if cp.Some? then cp.value.archivedHash else None)))
    requires id == [] || AnchorIn(s.live, id, hash)
    ensures CheckpointFits(s')
  {
    hide AnchorIn, Chained;
    var archived := Archived(s.archives);
    if archived != [] {
      ChainedAt(v, History(s), GENESIS, |archived| - 1);
    }
  }

  lemma {:induction false} VerifyKeeps(v: Verifier, s: State, scope: Option<Bytes>)
    requires Invariant(v, s)
    ensures Invariant(v, AfterVerify(v, s, scope))
    ensures History(AfterVerify(v, s, scope)) == History(s)
  {
    hide VerifyReport, Chained, Archived, Sound, CheckpointFits, ScanPlan, DistinctIds;
    var p, s' := ScanPlan(s), AfterVerify(v, s, scope);
    var rows := s.live[p.skip..];
    if s'.checkpoint != s.checkpoint {
      var c := s'.checkpoint.value;
      if rows != [] {
        var last := |s.live| - 1;
        assert rows[|rows| - 1] == s.live[last];
        assert s.live[last].event.auditId == c.verifiedId && s.live[last].eventHash == c.verifiedHash;
      }
      MovedCheckpointFits(v, s, c.verifiedId, c.verifiedHash, s');
    }
  }

  // --- Runs ---

  datatype Step =
    | Append(ev: AuditEvent, version: int)
    | Confirm(confirmation: AuditEvent)
    | Spool(spooled: AuditEvent, spoolVersion: int)
    | Reimport
    | RotateKey
    | RotateArchive(cutoff: Bytes, oversized: bool)
    | Verify(scope: Option<Bytes>)

  function Apply(v: Verifier, s: State, step: Step): State {
    match step
    case Append(ev, version) => Inserted(v, s, ev, version)
    case Confirm(ev) => Inserted(v, s, ev, s.keyVersion)
    case Spool(ev, version) => s.(deadLetter := s.deadLetter + [SpoolLine(v, s.deadLetter, ev, version)])
    case Reimport => Reimported(v, s).0
    case RotateKey => s.(keyVersion := s.keyVersion + 1)
    case RotateArchive(cutoff, oversized) => Rotated(s, cutoff, oversized)
    case Verify(scope) => AfterVerify(v, s, scope)
  }

  /** The events whose insert committed during the step. */
  function Committed(v: Verifier, s: State, step: Step): seq<AuditEvent> {
    match step
    case Append(ev, _) => if HasId(s.live, ev.auditId) then [] else [ev]
    case Confirm(ev) => if HasId(s.live, ev.auditId) then [] else [ev]
    case Reimport => if Sound(v, s.deadLetter) then Importable(v, s, s.deadLetter) else []
    case _ => []
  }

  /** The events an import takes in: those of the lines before the first refusal. */
  function Importable(v: Verifier, s: State, lines: seq<Line>): seq<AuditEvent> {
    if lines == [] then []
    else
      var before, k := Importable(v, s, lines[..|lines| - 1]), |lines| - 1;
      if Imported(v, s, lines).1 && lines[k].Line? && lines[k].event.Some? then before + [lines[k].event.value]
      else before
  }

  const INITIAL: State := State([], [], None, 1, [])

  function Run(v: Verifier, steps: seq<Step>): State {
    if steps == [] then INITIAL else Apply(v, Run(v, steps[..|steps| - 1]), steps[|steps| - 1])
  }

  function CommittedIn(v: Verifier, steps: seq<Step>): seq<AuditEvent> {
    if steps == [] then []
    else
      var k := |steps| - 1;
      CommittedIn(v, steps[..k]) + Committed(v, Run(v, steps[..k]), steps[k])
  }

  /** What one import has done when it ends: the state it leaves is as good as the one it found. */
  predicate ImportedWell(v: Verifier, s: State, s': State, events: seq<AuditEvent>) {
    Invariant(v, s') && s'.deadLetter == s.deadLetter && EventsOf(History(s')) == EventsOf(History(s)) + events
  }

  lemma ImportOneMore(v: Verifier, s: State, s': State, events: seq<AuditEvent>, ev: AuditEvent)
    requires ImportedWell(v, s, s', events) && !HasId(s'.live, ev.auditId)
    ensures ImportedWell(v, s, Inserted(v, s', ev, s'.keyVersion), events + [ev])
  {
    hide Invariant, History, EventsOf, HasId;
    InsertKeeps(v, s', ev, s'.keyVersion);
  }

  lemma {:induction false} ImportKeeps(v: Verifier, s: State, lines: seq<Line>)
    requires Invariant(v, s)
    ensures ImportedWell(v, s, Imported(v, s, lines).0, Importable(v, s, lines))
  {
    if lines != [] {
      var k := |lines| - 1;
      ImportKeeps(v, s, lines[..k]);
      var (s', ok) := Imported(v, s, lines[..k]);
      if ok && lines[k].Line? && lines[k].event.Some? && !HasId(s'.live, lines[k].event.value.auditId) {
        ImportOneMore(v, s, s', Importable(v, s, lines[..k]), lines[k].event.value);
      }
    }
  }

  lemma ReimportKeeps(v: Verifier, s: State)
    requires Invariant(v, s)
    ensures Invariant(v, Reimported(v, s).0)
    ensures EventsOf(History(Reimported(v, s).0)) == EventsOf(History(s)) + Committed(v, s, Reimport)
  {
    hide Invariant, History, EventsOf, Imported, Importable, Sound;
    ImportKeeps(v, s, s.deadLetter);
    ClearKeeps(v, Imported(v, s, s.deadLetter).0);
  }

  lemma ClearKeeps(v: Verifier, s: State)
    requires Invariant(v, s)
    ensures
      var s' := s.(deadLetter := []);
      Invariant(v, s') && History(s') == History(s)
  {
    hide Chained, Archived, DistinctIds, AnchorIn, ReadCheckpoint;
  }

  lemma SpoolKeeps(v: Verifier, s: State, ev: AuditEvent, version: int)
    requires Invariant(v, s)
    ensures
      var s' := s.(deadLetter := s.deadLetter + [SpoolLine(v, s.deadLetter, ev, version)]);
      Invariant(v, s') && History(s') == History(s)
  {
    SpoolKeepsSound(v, s.deadLetter, ev, version);
  }

  lemma RotateKeyKeeps(v: Verifier, s: State)
    requires Invariant(v, s)
    ensures
      var s' := s.(keyVersion := s.keyVersion + 1);
      Invariant(v, s') && History(s') == History(s)
  {
  }

  lemma StepKeeps(v: Verifier, s: State, step: Step)
    requires Invariant(v, s)
    ensures Invariant(v, Apply(v, s, step))
    ensures EventsOf(History(Apply(v, s, step))) == EventsOf(History(s)) + Committed(v, s, step)
  {
    hide Invariant, History, EventsOf, Inserted, Rotated, AfterVerify, Reimported, Importable;
    match step
    case Append(ev, version) => InsertKeeps(v, s, ev, version);
    case Confirm(ev) => InsertKeeps(v, s, ev, s.keyVersion);
    case Spool(ev, version) => SpoolKeeps(v, s, ev, version);
    case Reimport => ReimportKeeps(v, s);
    case RotateKey => RotateKeyKeeps(v, s);
    case RotateArchive(cutoff, oversized) => RotateKeeps(v, s, cutoff, oversized);
    case Verify(scope) => VerifyKeeps(v, s, scope);
  }

  /** After any run, the archives followed by the table are exactly the committed events in order, chained
      without a break from genesis, and the dead-letter file is sound. */
  lemma {:induction false} RunKeepsOneChain(v: Verifier, steps: seq<Step>)
    ensures Invariant(v, Run(v, steps))
    ensures Chained(v, History(Run(v, steps)), GENESIS)
    ensures EventsOf(History(Run(v, steps))) == CommittedIn(v, steps)
  {
    if steps != [] {
      var k := |steps| - 1;
      RunKeepsOneChain(v, steps[..k]);
      StepKeeps(v, Run(v, steps[..k]), steps[k]);
    }
  }

  /** Every verification in every run, of any scope, reports no break, no tampering and no key loss. */
  lemma {:induction false} EveryVerifyIsClean(v: Verifier, steps: seq<Step>, k: nat)
    requires k < |steps| && steps[k].Verify?
    ensures
      var report := VerifyReport(v, Run(v, steps[..k]), steps[k].scope);
      && report.brokenLinks == 0 && !report.tampered && report.firstBrokenAt == None
      && report.unhashedRows == 0 && report.keyVersionUnknownRows == 0
      && report.totalRows == ScopeSize(Run(v, steps[..k]).live, steps[k].scope)
  {
    RunKeepsOneChain(v, steps[..k]);
    VerifyIsClean(v, Run(v, steps[..k]), steps[k].scope);
  }

  // --- Reimports ---

  predicate HasLineId(lines: seq<Line>, id: Bytes) {
    exists i :: 0 <= i < |lines| && lines[i].Line? && lines[i].event.Some? && lines[i].event.value.auditId == id
  }

  /** Every line has an event, no two have the same id, and none has an id of the table. */
  predicate Takeable(rows: seq<Row>, lines: seq<Line>) {
    lines == [] ||
    var k := |lines| - 1;
    && Takeable(rows, lines[..k]) && lines[k].Line? && lines[k].event.Some?
    && !HasId(rows, lines[k].event.value.auditId) && !HasLineId(lines[..k], lines[k].event.value.auditId)
  }

  lemma HasIdSnoc(rows: seq<Row>, row: Row, id: Bytes)
    ensures HasId(rows + [row], id) <==> HasId(rows, id) || row.event.auditId == id
  {
    var all := rows + [row];
    assert all[|rows|] == row && forall i :: 0 <= i < |rows| ==> all[i] == rows[i];
  }

  lemma HasLineIdSnoc(lines: seq<Line>, line: Line, id: Bytes)
    ensures HasLineId(lines + [line], id) <==>
            HasLineId(lines, id) || (line.Line? && line.event.Some? && line.event.value.auditId == id)
  {
    var all := lines + [line];
    assert all[|lines|] == line && forall i :: 0 <= i < |lines| ==> all[i] == lines[i];
  }

  /** An import goes through exactly when all its lines can be taken, and then the table has their ids. */
  lemma {:induction false} ImportSucceedsExactly(v: Verifier, s: State, lines: seq<Line>)
    ensures Imported(v, s, lines).1 <==> Takeable(s.live, lines)
    ensures Imported(v, s, lines).1 ==>
      forall id :: HasId(Imported(v, s, lines).0.live, id) <==> HasId(s.live, id) || HasLineId(lines, id)
  {
    hide HasId, HasLineId, PrevHash, LinkedRow;
    if lines == [] {
      NoLineId();
    } else {
      var k := |lines| - 1;
      ImportSucceedsExactly(v, s, lines[..k]);
      var s' := Imported(v, s, lines[..k]).0;
      assert lines == lines[..k] + [lines[k]];
      if Imported(v, s, lines).1 {
        var ev := lines[k].event.value;
        var row := LinkedRow(v, ev, s'.keyVersion, PrevHash(s'));
        LinkedRowHasEvent(v, ev, s'.keyVersion, PrevHash(s'));
        forall id
          ensures HasId(s'.live + [row], id) <==> HasId(s'.live, id) || ev.auditId == id
          ensures HasLineId(lines, id) <==> HasLineId(lines[..k], id) || ev.auditId == id
        {
          HasIdSnoc(s'.live, row, id);
          HasLineIdSnoc(lines[..k], lines[k], id);
        }
      }
    }
  }

  lemma NoLineId()
    ensures forall id :: !HasLineId([], id)
  {
  }

  lemma LinkedRowHasEvent(v: Verifier, ev: AuditEvent, version: int, prev: Bytes)
    ensures LinkedRow(v, ev, version, prev).event == ev
  {
  }

  lemma InsertAddsEvent(v: Verifier, s: State, ev: AuditEvent, version: int)
    requires !HasId(s.live, ev.auditId)
    ensures EventsOf(History(Inserted(v, s, ev, version))) == EventsOf(History(s)) + [ev]
  {
    hide Archived, PayloadOf, PrevHash;
    var rows, row := History(s), LinkedRow(v, ev, version, PrevHash(s));
    assert History(Inserted(v, s, ev, version)) == rows + [row];
    assert (rows + [row])[..|rows|] == rows;
  }

  /** An import writes its rows under the key version of the day, whatever version their lines had. */
  lemma {:induction false} ImportedUnderCurrentKey(v: Verifier, s: State, lines: seq<Line>)
    ensures
      var s' := Imported(v, s, lines).0;
      && s'.keyVersion == s.keyVersion && s.live <= s'.live
      && forall i :: |s.live| <= i < |s'.live| ==> s'.live[i].keyVersion == s.keyVersion
  {
    hide HasId, PrevHash, PayloadOf;
    if lines != [] {
      ImportedUnderCurrentKey(v, s, lines[..|lines| - 1]);
    }
  }

  /** Whatever an import takes is added to the history, and it is the file's events up to the first refusal. */
  lemma {:induction false} ImportAddsEvents(v: Verifier, s: State, lines: seq<Line>)
    ensures EventsOf(History(Imported(v, s, lines).0)) == EventsOf(History(s)) + Importable(v, s, lines)
    ensures Importable(v, s, lines) <= EventsOfLines(lines)
    ensures Imported(v, s, lines).1 ==> Importable(v, s, lines) == EventsOfLines(lines)
    ensures Imported(v, s, lines).0.deadLetter == s.deadLetter
  {
    hide History, EventsOf, HasId;
    if lines == [] {
      assert EventsOf(History(s)) + [] == EventsOf(History(s));
    } else {
      var k := |lines| - 1;
      ImportAddsEvents(v, s, lines[..k]);
      if Imported(v, s, lines).1 {
        var s' := Imported(v, s, lines[..k]).0;
        InsertAddsEvent(v, s', lines[k].event.value, s'.keyVersion);
      }
    }
  }

  /** However an import ends, the table then has the id of the file's first line. */
  lemma {:induction false} ImportedHasFirst(v: Verifier, s: State, lines: seq<Line>)
    requires lines != [] && lines[0].Line? && lines[0].event.Some?
    ensures HasId(Imported(v, s, lines).0.live, lines[0].event.value.auditId)
  {
    hide HasId, LinkedRow, PrevHash;
    var k := |lines| - 1;
    var s' := Imported(v, s, lines[..k]).0;
    var id := lines[0].event.value.auditId;
    if k > 0 {
      ImportedHasFirst(v, s, lines[..k]);
    } else {
      assert Imported(v, s, lines[..k]) == (s, true);
    }
    if Imported(v, s, lines).1 {
      var ev := lines[k].event.value;
      LinkedRowHasEvent(v, ev, s'.keyVersion, PrevHash(s'));
      HasIdSnoc(s'.live, LinkedRow(v, ev, s'.keyVersion, PrevHash(s')), id);
    }
  }

  lemma SoundHasEvents(v: Verifier, lines: seq<Line>)
    requires Sound(v, lines) && lines != []
    ensures lines[0].Line? && lines[0].event.Some?
  {
    SoundPrefix(v, lines, 1);
  }

  /** A file whose first id is in the table is refused at its first line, and nothing changes. */
  lemma RefusedAtOnce(v: Verifier, s: State, lines: seq<Line>)
    requires lines != [] && lines[0].Line? && lines[0].event.Some? && HasId(s.live, lines[0].event.value.auditId)
    ensures Imported(v, s, lines) == (s, false)
  {
    hide HasId, Inserted;
    assert lines[..1][..0] == [] && lines[..1][0] == lines[0];
    assert Imported(v, s, []) == (s, true);
    assert Imported(v, s, lines[..1]) == (s, false);
    ImportStops(v, s, lines, 1);
  }

  /** A reimport succeeds exactly when every line checks, no two lines have the same id and no id is in the
      table; it then appends every event in file order and empties the file. If a line does not check, nothing
      changes. If an id is refused, the events before it stay in the table while the file stays as it is, so
      that trying again is refused at the first line. */
  lemma {:induction false} ReimportOutcome(v: Verifier, s: State)
    ensures Reimported(v, s).1.Some? <==> Sound(v, s.deadLetter) && Takeable(s.live, s.deadLetter)
    ensures !Sound(v, s.deadLetter) ==> Reimported(v, s) == (s, None)
    ensures Reimported(v, s).1.Some? ==>
      var s' := Reimported(v, s).0;
      && s'.deadLetter == [] && Reimported(v, s).1 == Some(|s.deadLetter|)
      && EventsOf(History(s')) == EventsOf(History(s)) + EventsOfLines(s.deadLetter)
    ensures Sound(v, s.deadLetter) && !Takeable(s.live, s.deadLetter) ==>
      var s' := Reimported(v, s).0;
      && s'.deadLetter == s.deadLetter && Reimported(v, s') == (s', None)
      && EventsOf(History(s')) == EventsOf(History(s)) + Importable(v, s, s.deadLetter)
      && Importable(v, s, s.deadLetter) <= EventsOfLines(s.deadLetter)
  {
    hide Sound, Takeable, Imported, Importable, EventsOf, EventsOfLines, HasId;
    var lines := s.deadLetter;
    if Sound(v, lines) {
      var s' := Imported(v, s, lines).0;
      ImportSucceedsExactly(v, s, lines);
      ImportAddsEvents(v, s, lines);
      ClearedHistory(s');
      if !Takeable(s.live, lines) {
        NothingIsTakeable(s.live);
        SoundHasEvents(v, lines);
        ImportedHasFirst(v, s, lines);
        RefusedAtOnce(v, s', lines);
      }
    }
  }

  lemma ClearedHistory(s: State)
    ensures History(s.(deadLetter := [])) == History(s)
  {
  }

  lemma NothingIsTakeable(rows: seq<Row>)
    ensures Takeable(rows, [])
  {
  }

  // --- Incremental and full verification ---

  /** The rows up to the checkpoint's anchor are clean; with no anchor, the scan starts at genesis. */
  predicate CleanToAnchor(v: Verifier, s: State) {
    var p := ScanPlan(s);
    if p.skip == 0 then p.start == GENESIS else AllIntact(Findings(v, s.live[..p.skip], GENESIS))
  }

  /** Whatever the rows after the anchor are, verifying from the checkpoint reports what verifying
      everything from genesis reports, except that it counts only the links after the anchor, and
      positions from there. */
  lemma {:induction false} IncrementalVerifyAgrees(v: Verifier, s: State, scope: Option<Bytes>)
    requires CleanToAnchor(v, s)
    ensures
      var p, quick, full := ScanPlan(s), VerifyReport(v, s, scope), VerifyReport(v, s.(checkpoint := None), scope);
      && full.totalRows == quick.totalRows
      && full.tampered == quick.tampered
      && full.brokenLinks == quick.brokenLinks
      && full.unhashedRows == quick.unhashedRows
      && full.keyVersionUnknownRows == quick.keyVersionUnknownRows
      && full.verifiedLinks == quick.verifiedLinks + ScopeSize(s.live[..p.skip], scope)
      && full.firstBrokenAt == Shifted(quick.firstBrokenAt, p.skip)
  {
    hide *;
    var p, total := ScanPlan(s), ScopeSize(s.live, scope);
    var head, rest := s.live[..p.skip], s.live[p.skip..];
    assert head + rest == s.live && s.live[0..] == s.live;
    ReportIs(v, s, scope);
    ReportIs(v, s.(checkpoint := None), scope);
    NoCheckpointPlan(s);
    AnchorIsExpected(v, s);
    IncrementalMatchesFull(v, head, rest, GENESIS, total, scope);
  }

  lemma ReportIs(v: Verifier, s: State, scope: Option<Bytes>)
    ensures
      var p := ScanPlan(s);
      VerifyReport(v, s, scope) == ReportOf(ScopeSize(s.live, scope), s.live[p.skip..], Findings(v, s.live[p.skip..], p.start), scope)
  {
    hide ReportOf, Findings, ScopeSize, ScanPlan;
  }

  lemma NoCheckpointPlan(s: State)
    ensures ScanPlan(s.(checkpoint := None)) == Plan(0, GENESIS)
  {
  }

  /** The scan starts from the hash that the skipped rows end in, and they are clean. */
  lemma AnchorIsExpected(v: Verifier, s: State)
    requires CleanToAnchor(v, s)
    ensures
      var p := ScanPlan(s);
      ExpectedAfter(s.live[..p.skip], GENESIS) == p.start && AllIntact(Findings(v, s.live[..p.skip], GENESIS))
  {
    hide Findings, AllIntact;
    var p := ScanPlan(s);
    if p.skip > 0 {
      assert s.live[..p.skip][p.skip - 1].eventHash == p.start != [];
    } else {
      NothingIsIntact(v);
    }
  }

  lemma NothingIsIntact(v: Verifier)
    ensures AllIntact(Findings(v, [], GENESIS))
  {
  }

  // --- Verifying one tenant after another ---

  /** After a verification of any scope that read rows and reported no tampering, the next global one sees a
      break exactly when the last row has no hash; otherwise it reads nothing and reports a clean chain,
      whatever breaks other tenants' rows have. */
  lemma {:induction false} NextGlobalVerify(v: Verifier, s: State, scope: Option<Bytes>)
    requires ScanPlan(s).skip < |s.live| && !VerifyReport(v, s, scope).tampered
    requires s.live[|s.live| - 1].event.auditId != []
    ensures
      var report := VerifyReport(v, AfterVerify(v, s, scope), None);
      && (report.brokenLinks > 0 <==> s.live[|s.live| - 1].eventHash == [])
      && (s.live[|s.live| - 1].eventHash != [] ==> report == ChainVerification(ScopeSize(s.live, None), 0, 0, 0, false, None, 0))
  {
    hide VerifyReport, Findings, ReportOf, ScopeSize;
    var s', last := AfterVerify(v, s, scope), s.live[|s.live| - 1];
    AnchorMovesToLast(v, s, scope);
    ReportIs(v, s', None);
    if last.eventHash != [] {
      assert s.live[|s.live|..] == [];
      NothingScanned(v, ScopeSize(s.live, None), last.eventHash);
    } else {
      assert s.live[0..] == s.live;
      LastUnhashedBreaks(v, s.live, ScopeSize(s.live, None));
    }
  }

  lemma AnchorMovesToLast(v: Verifier, s: State, scope: Option<Bytes>)
    requires ScanPlan(s).skip < |s.live| && !VerifyReport(v, s, scope).tampered
    requires s.live[|s.live| - 1].event.auditId != []
    ensures
      var s', last := AfterVerify(v, s, scope), s.live[|s.live| - 1];
      s'.live == s.live && ScanPlan(s') == if last.eventHash == [] then Plan(0, GENESIS) else Plan(|s.live|, last.eventHash)
  {
    hide VerifyReport;
    var p := ScanPlan(s);
    var rows, s' := s.live[p.skip..], AfterVerify(v, s, scope);
    assert rows[|rows| - 1] == s.live[|s.live| - 1];
    var c := s'.checkpoint.value;
    assert c.verifiedId == s.live[|s.live| - 1].event.auditId && c.verifiedHash == s.live[|s.live| - 1].eventHash;
    assert ReadCheckpoint(s'.checkpoint) == Some(c);
    assert FindId(s.live, c.verifiedId) == Some(|s.live| - 1);
  }

  lemma NothingScanned(v: Verifier, total: nat, start: Bytes)
    ensures ReportOf(total, [], Findings(v, [], start), None) == ChainVerification(total, 0, 0, 0, false, None, 0)
  {
  }

  lemma LastUnhashedBreaks(v: Verifier, rows: seq<Row>, total: nat)
    requires rows != [] && rows[|rows| - 1].eventHash == []
    ensures ReportOf(total, rows, Findings(v, rows, GENESIS), None).brokenLinks > 0
  {
    hide PayloadOf;
    FindingsAt(v, rows, GENESIS, |rows| - 1);
  }

  /** Two rows, the first of another tenant and detached: verifying the second's tenant reports nothing, and
      the global verification after it reports nothing either, though one before it reports tampering. */
  lemma {:induction false} ScopedVerifyPassesOver(v: Verifier, bad: Row, good: Row)
    requires bad.eventHash != [] && bad.prevHash != GENESIS && bad.event.tenantId != good.event.tenantId
    requires IsLinked(v, good, bad.eventHash) && good.event.auditId != []
    ensures
      var s := INITIAL.(live := [bad, good]);
      && VerifyReport(v, s, None).tampered
      && !VerifyReport(v, s, Some(good.event.tenantId)).tampered
      && VerifyReport(v, AfterVerify(v, s, Some(good.event.tenantId)), None).brokenLinks == 0
  {
    var s := INITIAL.(live := [bad, good]);
    var scope := Some(good.event.tenantId);
    TwoFindings(v, bad, good);
    hide Findings, PayloadOf;
    assert s.live[0..] == s.live && ScanPlan(s) == Plan(0, GENESIS);
    ReportIs(v, s, None);
    ReportIs(v, s, scope);
    TwoTallies(bad, good, None);
    TwoTallies(bad, good, scope);
    assert good.eventHash != [];
    NextGlobalVerify(v, s, scope);
  }

  lemma TwoFindings(v: Verifier, bad: Row, good: Row)
    requires bad.eventHash != [] && bad.prevHash != GENESIS && IsLinked(v, good, bad.eventHash)
    ensures Findings(v, [bad, good], GENESIS) == [Detached, Intact]
  {
    hide PayloadOf;
    var rows := [bad, good];
    FindingsAt(v, rows, GENESIS, 0);
    FindingsAt(v, rows, GENESIS, 1);
    assert rows[..0] == [] && rows[..1] == [bad] && [bad][..0] == [];
  }

  lemma TwoTallies(bad: Row, good: Row, scope: Option<Bytes>)
    ensures Tally([bad, good], [Detached, Intact], scope, TAMPERINGS) == if InScope(bad, scope) then 1 else 0
  {
    var rows, fs := [bad, good], [Detached, Intact];
    assert rows[..1] == [bad] && fs[..1] == [Detached] && [bad][..0] == [] && [Detached][..0] == [];
    assert Tally([bad], [Detached], scope, TAMPERINGS) == if InScope(bad, scope) then 1 else 0;
  }
}
