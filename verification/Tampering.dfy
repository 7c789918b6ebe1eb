/** What a verification makes of altered rows: which ones it reports, that it goes on reporting them, and what
    an archive rotation puts out of its reach. */
module Tampering {
  import opened Bytes
  import opened Payload
  import opened Chain
  import opened ChainProofs
  import opened DeadLetter
  import opened AuditStore
  import opened AuditRuns

  // --- Which rows are reported ---

  /** The row concerns everyone, or this tenant. */
  predicate Concerns(row: Row, scope: Option<Bytes>) {
    match scope
    case None => true
    case Some(tenant) => row.event.tenantId == tenant
  }

  /** No hash, the wrong predecessor, or a MAC that fails although the key is the one that made it, as far as
      its anchor tells. */
  predicate IsTampered(v: Verifier, row: Row, expected: Bytes) {
    || row.eventHash == []
    || row.prevHash != expected
    || (v.hmac(v.chainKey(v.master, row.keyVersion), expected + PayloadOf(row.event)) != row.eventHash
        && !HasForeignAnchor(v, row.keyVersion))
  }

  /** An anchor is stored for the version and it is not this master's. */
  predicate HasForeignAnchor(v: Verifier, version: int) {
    version in v.anchors && v.anchors[version].Some?
    && v.anchors[version].value != v.hmac(v.chainKey(v.master, version), KEY_ANCHOR_MSG)
  }

  lemma {:induction false} TallyIsPositive(rows: seq<Row>, fs: seq<Finding>, scope: Option<Bytes>, kinds: set<Finding>)
    requires |rows| == |fs|
    ensures Tally(rows, fs, scope, kinds) > 0 <==> exists i :: 0 <= i < |rows| && InScope(rows[i], scope) && fs[i] in kinds
  {
    if rows != [] {
      var k := |rows| - 1;
      TallyIsPositive(rows[..k], fs[..k], scope, kinds);
      assert forall i :: 0 <= i < k ==> rows[..k][i] == rows[i] && fs[..k][i] == fs[i];
    }
  }

  lemma TamperingFound(v: Verifier, row: Row, expected: Bytes)
    ensures FindingOf(v, row, expected) in TAMPERINGS <==> IsTampered(v, row, expected)
    ensures FindingOf(v, row, expected) == Unhashed <==> row.eventHash == []
  {
    hide PayloadOf;
  }

  /** A verification reports tampering exactly when it reads a tampered row of its tenant, each row held
      against the last hash before it; and unhashed rows exactly when it reads one of its tenant. */
  lemma {:induction false} TamperingExactly(v: Verifier, s: State, scope: Option<Bytes>)
    ensures
      var p, report := ScanPlan(s), VerifyReport(v, s, scope);
      var rows := s.live[p.skip..];
      && (report.tampered <==>
          exists i :: 0 <= i < |rows| && Concerns(rows[i], scope) && IsTampered(v, rows[i], ExpectedAfter(rows[..i], p.start)))
      && (report.unhashedRows > 0 <==> exists i :: 0 <= i < |rows| && Concerns(rows[i], scope) && rows[i].eventHash == [])
  {
    hide ScanPlan, Findings, FindingOf, IsTampered, ExpectedAfter, FirstBreak, Tally;
    var p := ScanPlan(s);
    var rows := s.live[p.skip..];
    var fs := Findings(v, rows, p.start);
    ReportIs(v, s, scope);
    TallyIsPositive(rows, fs, scope, TAMPERINGS);
    TallyIsPositive(rows, fs, scope, {Unhashed});
    forall i | 0 <= i < |rows|
      ensures fs[i] in TAMPERINGS <==> IsTampered(v, rows[i], ExpectedAfter(rows[..i], p.start))
      ensures fs[i] in {Unhashed} <==> rows[i].eventHash == []
    {
      FindingsAt(v, rows, p.start, i);
      TamperingFound(v, rows[i], ExpectedAfter(rows[..i], p.start));
    }
  }

  /** A line of the dead-letter file that is not JSON, names the wrong predecessor, has no event, or has a MAC
      that fails although the key is the right one; a line without a hash is none of these. */
  predicate IsTamperedLine(v: Verifier, line: Line, expected: Bytes) {
    match line
    case Garbage => true
    case Line(prev, hmac, version, event) =>
      && hmac != []
      && (|| prev != expected
          || event.None?
          || (v.hmac(v.chainKey(v.master, version), expected + PayloadOf(event.value)) != hmac && !HasForeignAnchor(v, version)))
  }

  lemma LineTamperingFound(v: Verifier, line: Line, expected: Bytes)
    ensures
      var f := LineFindingOf(v, line, expected);
      f == Unparsed || f == Unlinked || f == NoEvent || f == Forged <==> IsTamperedLine(v, line, expected)
  {
    hide PayloadOf;
  }

  lemma {:induction false} LineFindingsAt(v: Verifier, lines: seq<Line>, i: nat)
    requires i < |lines|
    ensures LineFindings(v, lines)[i] == LineFindingOf(v, lines[i], ExpectedAfterLines(lines[..i]))
  {
    var k := |lines| - 1;
    if i < k {
      LineFindingsAt(v, lines[..k], i);
      assert lines[..k][..i] == lines[..i];
    }
  }

  /** The file check reports tampering exactly when there is such a line. */
  lemma {:induction false} LineTamperingExactly(v: Verifier, lines: seq<Line>, report: ChainVerification)
    requires Reports(report, LineFindings(v, lines))
    ensures report.tampered <==> exists i :: 0 <= i < |lines| && IsTamperedLine(v, lines[i], ExpectedAfterLines(lines[..i]))
  {
    hide LineFindings, LineFindingOf, IsTamperedLine, ExpectedAfterLines;
    var fs := LineFindings(v, lines);
    forall i | 0 <= i < |lines|
      ensures fs[i] == Unparsed || fs[i] == Unlinked || fs[i] == NoEvent || fs[i] == Forged <==>
              IsTamperedLine(v, lines[i], ExpectedAfterLines(lines[..i]))
    {
      LineFindingsAt(v, lines, i);
      LineTamperingFound(v, lines[i], ExpectedAfterLines(lines[..i]));
    }
  }

  // --- Reported again ---

  /** What a scope sees, all tenants see. */
  lemma TamperedForAll(v: Verifier, s: State, scope: Option<Bytes>)
    requires VerifyReport(v, s, scope).tampered
    ensures VerifyReport(v, s, None).tampered
  {
    hide VerifyReport, ScanPlan, ExpectedAfter, IsTampered;
    TamperingExactly(v, s, scope);
    TamperingExactly(v, s, None);
  }

  /** `s'` is `s` with rows added under new ids; the checkpoint is where it was. */
  predicate Extends(s: State, s': State) {
    && s.live <= s'.live && s'.checkpoint == s.checkpoint
    && forall i :: |s.live| <= i < |s'.live| ==> !HasId(s.live, s'.live[i].event.auditId)
  }

  /** No added row has both the id and the hash that the checkpoint looks for. */
  predicate NoNewAnchor(s: State, s': State) {
    var cp := ReadCheckpoint(s.checkpoint);
    cp.Some? && cp.value.verifiedId != [] && cp.value.verifiedHash != [] ==>
    forall i :: |s.live| <= i < |s'.live| ==>
      !(s'.live[i].event.auditId == cp.value.verifiedId && s'.live[i].eventHash == cp.value.verifiedHash)
  }

  lemma {:induction false} FindIdExtends(rows: seq<Row>, more: seq<Row>, id: Bytes)
    requires forall i :: 0 <= i < |more| ==> more[i].event.auditId != id
    ensures FindId(rows + more, id) == FindId(rows, id)
  {
    if more == [] {
      assert rows + more == rows;
    } else {
      assert (rows + more)[..|rows + more| - 1] == rows + more[..|more| - 1];
      FindIdExtends(rows, more[..|more| - 1], id);
    }
  }

  lemma PlanStays(s: State, s': State)
    requires Extends(s, s') && NoNewAnchor(s, s')
    ensures ScanPlan(s') == ScanPlan(s)
  {
    hide FindId;
    var cp := ReadCheckpoint(s.checkpoint);
    if cp.Some? && cp.value.verifiedId != [] && HasId(s.live, cp.value.verifiedId) {
      var id, more := cp.value.verifiedId, s'.live[|s.live|..];
      assert s'.live == s.live + more;
      forall i | 0 <= i < |more|
        ensures more[i].event.auditId != id
      {
        assert more[i] == s'.live[|s.live| + i];
      }
      FindIdExtends(s.live, more, id);
    }
  }

  /** Otherwise the scan starts behind that row, and none of the rows that were there before is judged. */
  lemma {:induction false} NewAnchorPassesOver(s: State, s': State)
    requires Extends(s, s') && DistinctIds(s'.live) && !NoNewAnchor(s, s')
    ensures ScanPlan(s').skip > |s.live|
  {
    hide FindId, HasId;
    var c := ReadCheckpoint(s.checkpoint).value;
    var i :| |s.live| <= i < |s'.live| && s'.live[i].event.auditId == c.verifiedId && s'.live[i].eventHash == c.verifiedHash;
    AnchorFound(s'.live, c.verifiedId, c.verifiedHash);
    assert FindId(s'.live, c.verifiedId) == Some(i);
  }

  lemma {:induction false} FirstBreakStays(p: seq<Row>, fp: seq<Finding>, s: seq<Row>, fs: seq<Finding>, scope: Option<Bytes>)
    requires |p| == |fp| && |s| == |fs| && FirstBreak(p, fp, scope).Some?
    ensures FirstBreak(p + s, fp + fs, scope) == FirstBreak(p, fp, scope)
  {
    hide InScope;
    if s == [] {
      assert p + s == p && fp + fs == fp;
    } else {
      var k := |s| - 1;
      FirstBreakStays(p, fp, s[..k], fs[..k], scope);
      assert (p + s)[..|p + s| - 1] == p + s[..k] && (fp + fs)[..|p + s| - 1] == fp + fs[..k];
    }
  }

  lemma {:induction false} TamperedIsBroken(rows: seq<Row>, fs: seq<Finding>, scope: Option<Bytes>)
    requires |rows| == |fs|
    ensures Tally(rows, fs, scope, TAMPERINGS) <= Tally(rows, fs, scope, BREAKS)
    ensures Tally(rows, fs, scope, BREAKS) > 0 ==> FirstBreak(rows, fs, scope).Some?
  {
    if rows != [] {
      var k := |rows| - 1;
      TamperedIsBroken(rows[..k], fs[..k], scope);
    }
  }

  /** Rows added behind it take nothing from a report of tampering. */
  lemma TamperingOutlivesGrowth(v: Verifier, s: State, s': State, scope: Option<Bytes>)
    requires Extends(s, s') && NoNewAnchor(s, s') && VerifyReport(v, s, scope).tampered
    ensures
      var before, after := VerifyReport(v, s, scope), VerifyReport(v, s', scope);
      && after.tampered && after.firstBrokenAt == before.firstBrokenAt && after.brokenLinks >= before.brokenLinks
      && (s'.live == s.live ==> after == before)
  {
    hide VerifyReport, ScanPlan, ReportOf, Findings, ExpectedAfter, ScopeSize, NoNewAnchor, HasId;
    var p := ScanPlan(s);
    PlanStays(s, s');
    ReportIs(v, s, scope);
    ReportIs(v, s', scope);
    var rows, more := s.live[p.skip..], s'.live[|s.live|..];
    assert s'.live[p.skip..] == rows + more;
    FindingsConcat(v, rows, more, p.start);
    ReportGrows(
      ScopeSize(s.live, scope), ScopeSize(s'.live, scope), rows, Findings(v, rows, p.start),
      more, Findings(v, more, ExpectedAfter(rows, p.start)), scope);
  }

  lemma ReportGrows(
    total: nat, total': nat, rows: seq<Row>, fs: seq<Finding>, more: seq<Row>, fs': seq<Finding>, scope: Option<Bytes>)
    requires |rows| == |fs| && |more| == |fs'| && ReportOf(total, rows, fs, scope).tampered
    ensures
      var before, after := ReportOf(total, rows, fs, scope), ReportOf(total', rows + more, fs + fs', scope);
      && after.tampered && after.firstBrokenAt == before.firstBrokenAt && after.brokenLinks >= before.brokenLinks
  {
    hide Tally, FirstBreak;
    TallyConcat(rows, fs, more, fs', scope, TAMPERINGS);
    TallyConcat(rows, fs, more, fs', scope, BREAKS);
    TamperedIsBroken(rows, fs, scope);
    FirstBreakStays(rows, fs, more, fs', scope);
  }

  /** Verifications of this scope or of all tenants, and anything that only adds rows. */
  predicate Harmless(step: Step, scope: Option<Bytes>) {
    !step.RotateArchive? && (step.Verify? ==> step.scope == None || step.scope == scope)
  }

  function RunFrom(v: Verifier, s: State, steps: seq<Step>): State {
    if steps == [] then s else Apply(v, RunFrom(v, s, steps[..|steps| - 1]), steps[|steps| - 1])
  }

  lemma ExtendsInsert(v: Verifier, s: State, s': State, ev: AuditEvent, version: int)
    requires Extends(s, s')
    ensures Extends(s, Inserted(v, s', ev, version))
  {
    hide PayloadOf, PrevHash;
    var s'' := Inserted(v, s', ev, version);
    if s'' != s' && HasId(s.live, ev.auditId) {
      HasIdStays(s.live, s'.live, ev.auditId);
    }
  }

  lemma HasIdStays(rows: seq<Row>, rows': seq<Row>, id: Bytes)
    requires rows <= rows' && HasId(rows, id)
    ensures HasId(rows', id)
  {
    var i :| 0 <= i < |rows| && rows[i].event.auditId == id;
    assert rows'[i] == rows[i];
  }

  lemma {:induction false} ExtendsImport(v: Verifier, s: State, s': State, lines: seq<Line>)
    requires Extends(s, s')
    ensures Extends(s, Imported(v, s', lines).0)
  {
    hide Extends, Inserted, HasId;
    if lines != [] {
      var k := |lines| - 1;
      ExtendsImport(v, s, s', lines[..k]);
      var t := Imported(v, s', lines[..k]).0;
      if lines[k].Line? && lines[k].event.Some? {
        ExtendsInsert(v, s, t, lines[k].event.value, t.keyVersion);
      }
    }
  }

  lemma ExtendsReimport(v: Verifier, s: State, s': State)
    requires Extends(s, s')
    ensures Extends(s, Reimported(v, s').0)
  {
    hide Imported, HasId, Sound;
    ExtendsImport(v, s, s', s'.deadLetter);
  }

  /** A verification that reports tampering changes nothing. */
  lemma TamperedStops(v: Verifier, s: State, scope: Option<Bytes>)
    requires VerifyReport(v, s, scope).tampered
    ensures AfterVerify(v, s, scope) == s
  {
    hide VerifyReport, ScanPlan;
  }

  lemma StepExtends(v: Verifier, s: State, s': State, step: Step, scope: Option<Bytes>)
    requires Extends(s, s') && Harmless(step, scope) && VerifyReport(v, s', scope).tampered
    ensures Extends(s, Apply(v, s', step))
  {
    hide VerifyReport, Inserted, Reimported, AfterVerify, HasId;
    match step
    case Append(ev, version) => ExtendsInsert(v, s, s', ev, version);
    case Confirm(ev) => ExtendsInsert(v, s, s', ev, s'.keyVersion);
    case Spool(_, _) =>
    case Reimport => ExtendsReimport(v, s, s');
    case RotateKey =>
    case Verify(other) =>
      TamperedForAll(v, s', scope);
      TamperedStops(v, s', other);
  }

  lemma NoEarlierAnchor(s: State, s': State, s'': State)
    requires s'.live <= s''.live && NoNewAnchor(s, s'')
    ensures NoNewAnchor(s, s')
  {
    assert forall i :: 0 <= i < |s'.live| ==> s'.live[i] == s''.live[i];
  }

  lemma StepGrows(v: Verifier, s: State, step: Step)
    requires !step.RotateArchive?
    ensures s.live <= Apply(v, s, step).live
  {
    hide VerifyReport, ScanPlan, Inserted, Reimported, HasId;
    ExtendsItself(s);
    match step
    case Append(ev, version) => ExtendsInsert(v, s, s, ev, version);
    case Confirm(ev) => ExtendsInsert(v, s, s, ev, s.keyVersion);
    case Reimport => ExtendsReimport(v, s, s);
    case _ =>
  }

  lemma ExtendsItself(s: State)
    ensures Extends(s, s)
  {
  }

  /** Once a verification has reported tampering, every later one of that scope reports it again, first broken
      at the same row, and reports exactly the same while no row was added: in between there may be any
      verifications of that scope or of all tenants, appends, confirmations, spools, reimports and key
      rotations, and the checkpoint stays where it was. The one way out is a new row with the very id and hash
      that the checkpoint looks for in vain. */
  lemma {:induction false} TamperingStaysReported(v: Verifier, s: State, scope: Option<Bytes>, steps: seq<Step>)
    requires VerifyReport(v, s, scope).tampered && forall i :: 0 <= i < |steps| ==> Harmless(steps[i], scope)
    requires NoNewAnchor(s, RunFrom(v, s, steps))
    ensures Extends(s, RunFrom(v, s, steps))
    ensures
      var before, after := VerifyReport(v, s, scope), VerifyReport(v, RunFrom(v, s, steps), scope);
      && after.tampered && after.firstBrokenAt == before.firstBrokenAt && after.brokenLinks >= before.brokenLinks
      && (RunFrom(v, s, steps).live == s.live ==> after == before)
  {
    hide VerifyReport, Apply, NoNewAnchor, Extends;
    if steps == [] {
      ExtendsItself(s);
    } else {
      var k := |steps| - 1;
      var s', s'' := RunFrom(v, s, steps[..k]), RunFrom(v, s, steps);
      StepGrows(v, s', steps[k]);
      NoEarlierAnchor(s, s', s'');
      TamperingStaysReported(v, s, scope, steps[..k]);
      StepExtends(v, s, s', steps[k], scope);
      TamperingOutlivesGrowth(v, s, s'', scope);
    }
  }

  /** The same verification, asked for again and again: nothing changes and the report is the same. */
  lemma {:induction false} VerifyingAgainReportsTheSame(v: Verifier, s: State, scope: Option<Bytes>, steps: seq<Step>)
    requires VerifyReport(v, s, scope).tampered
    requires forall i :: 0 <= i < |steps| ==> steps[i].Verify? && (steps[i].scope == None || steps[i].scope == scope)
    ensures RunFrom(v, s, steps) == s
    ensures VerifyReport(v, RunFrom(v, s, steps), scope) == VerifyReport(v, s, scope)
  {
    hide VerifyReport, AfterVerify;
    if steps != [] {
      var k := |steps| - 1;
      VerifyingAgainReportsTheSame(v, s, scope, steps[..k]);
      TamperedForAll(v, s, scope);
      TamperedStops(v, s, steps[k].scope);
    }
  }

  // --- Out of reach ---

  /** A rotation of the archive moves the anchor to the first row it leaves, so that the next verification
      judges only the rows behind that one: neither the rows taken nor the first one left are judged. When
      it takes all rows, nothing is left to judge. */
  lemma {:induction false} RotationPassesOver(v: Verifier, s: State, cutoff: Bytes, oversized: bool, scope: Option<Bytes>)
    requires DistinctIds(s.live) && RotateCount(s.live, cutoff, oversized) > 0
    ensures
      var rest := s.live[RotateCount(s.live, cutoff, oversized)..];
      var report := VerifyReport(v, Rotated(s, cutoff, oversized), scope);
      && (rest == [] ==> report == ChainVerification(0, 0, 0, 0, false, None, 0))
      && (rest != [] && rest[0].event.auditId != [] && rest[0].eventHash != [] ==>
          report == ReportOf(ScopeSize(rest, scope), rest[1..], Findings(v, rest[1..], rest[0].eventHash), scope))
  {
    hide ReportOf, Findings, ScopeSize, RotateCount, FindId;
    var n, s' := RotateCount(s.live, cutoff, oversized), Rotated(s, cutoff, oversized);
    var rest := s.live[n..];
    ReportIs(v, s', scope);
    if rest == [] {
      NothingToReport(v, ScanPlan(s').start, scope);
    } else if rest[0].event.auditId != [] && rest[0].eventHash != [] {
      assert rest[0] == s.live[n] && DistinctIds(rest);
      AnchorFound(rest, rest[0].event.auditId, rest[0].eventHash);
      assert FindId(rest, rest[0].event.auditId) == Some(0);
    }
  }

  lemma NothingToReport(v: Verifier, start: Bytes, scope: Option<Bytes>)
    ensures ReportOf(ScopeSize([], scope), [], Findings(v, [], start), scope) == ChainVerification(0, 0, 0, 0, false, None, 0)
  {
  }
}
