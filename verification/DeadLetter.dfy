/** The dead-letter file: events the main table could not take, in a hash chain of their own. */
module DeadLetter {
  import opened Bytes
  import opened Payload
  import opened Chain

  /** A non-empty line of the file: text that is not JSON, or an object with the fields the reader takes
      from it (a missing string reads as empty, a missing version as 1, an undecodable event as None). */
  datatype Line = Garbage | Line(prevHmac: Bytes, hmac: Bytes, keyVersion: int, event: Option<AuditEvent>)

  /** The events of lines that have one. */
  function EventsOfLines(lines: seq<Line>): seq<AuditEvent> {
    if lines == [] then []
    else
      var k := |lines| - 1;
      EventsOfLines(lines[..k]) + if lines[k].Line? && lines[k].event.Some? then [lines[k].event.value] else []
  }

  datatype LineFinding = Unparsed | NoHmac | Unlinked | NoEvent | Forged | UnknownKey | Verified

  function LineFindingOf(v: Verifier, line: Line, expected: Bytes): LineFinding {
    match line
    case Garbage => Unparsed
    case Line(prev, hmac, version, event) =>
      if hmac == [] then NoHmac
      else if prev != expected then Unlinked
      else if event.None? then NoEvent
      else if v.EventHmac(version, PayloadOf(event.value), prev) == hmac then Verified
      else if ClassifyBreak(v, version).KeyLoss? then UnknownKey
      else Forged
  }

  /** The hash the next line must name: the reader moves on only over lines whose hash it has looked at. */
  function NextExpected(line: Line, expected: Bytes): Bytes {
    match line
    case Garbage => expected
    case Line(prev, hmac, _, event) =>
      if hmac == [] || (prev == expected && event.None?) then expected else hmac
  }

  function ExpectedAfterLines(lines: seq<Line>): Bytes {
    if lines == [] then GENESIS
    else NextExpected(lines[|lines| - 1], ExpectedAfterLines(lines[..|lines| - 1]))
  }

  /** Past lines that are not JSON, have no hash, or are linked but have no event, the hash expected is that of
      the last other line, which need not be sound. */
  lemma {:induction false} ExpectedIsLastRead(lines: seq<Line>, n: nat)
    requires n <= |lines|
    requires n > 0 ==>
      var line := lines[n - 1];
      line.Line? && line.hmac != [] && (line.prevHmac != ExpectedAfterLines(lines[..n - 1]) || line.event.Some?)
    requires forall i :: n <= i < |lines| ==>
      var line := lines[i];
      line.Line? && line.hmac != [] ==> line.event.None? && line.prevHmac == if n == 0 then GENESIS else lines[n - 1].hmac
    ensures ExpectedAfterLines(lines) == if n == 0 then GENESIS else lines[n - 1].hmac
  {
    if n < |lines| {
      var k := |lines| - 1;
      assert n > 0 ==> lines[..k][..n - 1] == lines[..n - 1];
      ExpectedIsLastRead(lines[..k], n);
    }
  }

  function LineFindings(v: Verifier, lines: seq<Line>): (fs: seq<LineFinding>)
    ensures |fs| == |lines|
  {
    if lines == [] then []
    else
      var k := |lines| - 1;
      LineFindings(v, lines[..k]) + [LineFindingOf(v, lines[k], ExpectedAfterLines(lines[..k]))]
  }

  predicate IsBreak(f: LineFinding) {
    f != Verified && f != NoHmac
  }

  /** What the file check reports, in terms of the findings. */
  ghost predicate Reports(report: ChainVerification, fs: seq<LineFinding>) {
    var m := multiset(fs);
    && report.totalRows == |fs|
    && report.unhashedRows == m[NoHmac]
    && report.verifiedLinks == m[Verified]
    && report.brokenLinks == m[Unparsed] + m[Unlinked] + m[NoEvent] + m[Forged] + m[UnknownKey]
    && report.keyVersionUnknownRows == m[UnknownKey]
    && (report.tampered <==> Unparsed in fs || Unlinked in fs || NoEvent in fs || Forged in fs)
    && IsFirstBreak(report.firstBrokenAt, fs)
  }

  predicate IsFirstBreak(at: Option<nat>, fs: seq<LineFinding>) {
    match at
    case None => forall i :: 0 <= i < |fs| ==> !IsBreak(fs[i])
    case Some(k) => k < |fs| && IsBreak(fs[k]) && forall i :: 0 <= i < k ==> !IsBreak(fs[i])
  }

  /** `report` with one more line looked at. */
  function RecordedLine(report: ChainVerification, f: LineFinding): ChainVerification {
    var i := report.totalRows;
    var next := report.(totalRows := i + 1);
    match f
    case Verified => next.(verifiedLinks := report.verifiedLinks + 1)
    case NoHmac => next.(unhashedRows := report.unhashedRows + 1)
    case _ =>
      var broken := next.(
        brokenLinks := report.brokenLinks + 1,
        firstBrokenAt := if report.firstBrokenAt.None? then Some(i) else report.firstBrokenAt);
      if f == UnknownKey then broken.(keyVersionUnknownRows := report.keyVersionUnknownRows + 1)
      else broken.(tampered := true)
  }

  lemma ReportsExtends(report: ChainVerification, fs: seq<LineFinding>, f: LineFinding)
    requires Reports(report, fs)
    ensures Reports(RecordedLine(report, f), fs + [f])
  {
    assert multiset(fs + [f]) == multiset(fs) + multiset{f};
  }

  function ReportOfLines(fs: seq<LineFinding>): ChainVerification {
    if fs == [] then ChainVerification(0, 0, 0, 0, false, None, 0)
    else RecordedLine(ReportOfLines(fs[..|fs| - 1]), fs[|fs| - 1])
  }

  lemma {:induction false} ReportOfLinesReports(fs: seq<LineFinding>)
    ensures Reports(ReportOfLines(fs), fs)
  {
    if fs != [] {
      var k := |fs| - 1;
      ReportOfLinesReports(fs[..k]);
      ReportsExtends(ReportOfLines(fs[..k]), fs[..k], fs[k]);
      assert fs == fs[..k] + [fs[k]];
    }
  }

  /** What the file check does with one line. */
  method CheckLine(v: Verifier, line: Line, expected: Bytes) returns (finding: LineFinding, next: Bytes)
    ensures finding == LineFindingOf(v, line, expected) && next == NextExpected(line, expected)
  {
    hide PayloadOf;
    if line.Garbage? {
      return Unparsed, expected;
    }
    if line.hmac == [] {
      return NoHmac, expected;
    }
    if line.prevHmac != expected {
      return Unlinked, line.hmac;
    }
    if line.event.None? {
      return NoEvent, expected;
    }
    next := line.hmac;
    var payload := PayloadBytes(line.event.value);
    if v.EventHmac(line.keyVersion, payload, line.prevHmac) == line.hmac {
      finding := Verified;
    } else {
      match ClassifyBreak(v, line.keyVersion)
      case KeyLoss => finding := UnknownKey;
      case Tamper => finding := Forged;
      case MissingAnchor => finding := Forged;
    }
  }

  method VerifyDeadLetter(v: Verifier, lines: seq<Line>) returns (report: ChainVerification)
    ensures Reports(report, LineFindings(v, lines))
  {
    hide Reports, RecordedLine, LineFindingOf, NextExpected;
    report := ChainVerification(0, 0, 0, 0, false, None, 0);
    var expected := GENESIS;
    for i := 0 to |lines|
      invariant expected == ExpectedAfterLines(lines[..i])
      invariant report == ReportOfLines(LineFindings(v, lines[..i]))
    {
      assert lines[..i + 1][..i] == lines[..i];
      var finding, next := CheckLine(v, lines[i], expected);
      assert LineFindings(v, lines[..i + 1])[..i] == LineFindings(v, lines[..i]);
      report := RecordedLine(report, finding);
      expected := next;
    }
    assert lines[..|lines|] == lines;
    ReportOfLinesReports(LineFindings(v, lines));
  }

  /** The hash the last line carries. */
  function LastHmac(lines: seq<Line>): Bytes {
    if lines == [] || lines[|lines| - 1].Garbage? then GENESIS else lines[|lines| - 1].hmac
  }

  /** The line parses, names `prev`, and carries the right hash for its event. */
  predicate SoundLine(v: Verifier, line: Line, prev: Bytes) {
    && line.Line?
    && line.event.Some?
    && line.prevHmac == prev
    && line.hmac == v.EventHmac(line.keyVersion, PayloadOf(line.event.value), prev)
  }

  /** Every line is sound after the one before it. */
  predicate Sound(v: Verifier, lines: seq<Line>) {
    lines == [] ||
    var k := |lines| - 1;
    Sound(v, lines[..k]) && SoundLine(v, lines[k], LastHmac(lines[..k]))
  }

  lemma {:induction false} SoundPrefix(v: Verifier, lines: seq<Line>, i: nat)
    requires i <= |lines| && Sound(v, lines)
    ensures Sound(v, lines[..i])
  {
    if i < |lines| {
      var k := |lines| - 1;
      SoundPrefix(v, lines[..k], i);
      assert lines[..k][..i] == lines[..i];
    } else {
      assert lines[..i] == lines;
    }
  }

  /** The signature pass of a reimport: it stops at the first line that does not check. */
  method PreCheck(v: Verifier, lines: seq<Line>) returns (ok: bool)
    ensures ok <==> Sound(v, lines)
  {
    hide PayloadOf;
    var expected := GENESIS;
    for i := 0 to |lines|
      invariant Sound(v, lines[..i])
      invariant expected == LastHmac(lines[..i])
    {
      var line := lines[i];
      assert lines[..i + 1][..i] == lines[..i];
      var sound := line.Line? && line.prevHmac == expected && line.event.Some?;
      if sound {
        var payload := PayloadBytes(line.event.value);
        sound := v.EventHmac(line.keyVersion, payload, line.prevHmac) == line.hmac;
      }
      if !sound {
        assert !Sound(v, lines[..i + 1]);
        if Sound(v, lines) {
          SoundPrefix(v, lines, i + 1);
        }
        return false;
      }
      expected := line.hmac;
    }
    assert lines[..|lines|] == lines;
    return true;
  }

  predicate AllVerified(fs: seq<LineFinding>) {
    forall i :: 0 <= i < |fs| ==> fs[i] == Verified
  }

  lemma AllVerifiedSnoc(fs: seq<LineFinding>, f: LineFinding)
    ensures AllVerified(fs + [f]) <==> AllVerified(fs) && f == Verified
  {
    var all := fs + [f];
    assert all[|fs|] == f;
    assert forall i :: 0 <= i < |fs| ==> all[i] == fs[i];
  }

  lemma {:induction false} SoundFindings(v: Verifier, lines: seq<Line>)
    ensures Sound(v, lines) <==> AllVerified(LineFindings(v, lines))
    ensures Sound(v, lines) ==> ExpectedAfterLines(lines) == LastHmac(lines)
  {
    if lines != [] {
      var k := |lines| - 1;
      SoundFindings(v, lines[..k]);
      AllVerifiedSnoc(LineFindings(v, lines[..k]), LineFindingOf(v, lines[k], ExpectedAfterLines(lines[..k])));
    }
  }

  lemma {:induction false} AllVerifiedCount(fs: seq<LineFinding>)
    ensures multiset(fs)[Verified] <= |fs|
    ensures multiset(fs)[Verified] == |fs| <==> AllVerified(fs)
  {
    if fs != [] {
      var k := |fs| - 1;
      AllVerifiedCount(fs[..k]);
      AllVerifiedSnoc(fs[..k], fs[k]);
      assert fs == fs[..k] + [fs[k]];
      assert multiset(fs) == multiset(fs[..k]) + multiset{fs[k]};
    }
  }

  /** The signature pass accepts exactly the files that the file check verifies line for line. */
  lemma {:induction false} PreCheckMatchesVerify(v: Verifier, lines: seq<Line>, report: ChainVerification)
    requires Reports(report, LineFindings(v, lines))
    ensures Sound(v, lines) <==> report.verifiedLinks == report.totalRows
  {
    SoundFindings(v, lines);
    AllVerifiedCount(LineFindings(v, lines));
  }

  /** The line that spooling `ev` appends. */
  function SpoolLine(v: Verifier, lines: seq<Line>, ev: AuditEvent, version: int): Line {
    var prev := if LastHmac(lines) == [] then GENESIS else LastHmac(lines);
    Line(prev, v.EventHmac(version, PayloadOf(ev), prev), version, Some(ev))
  }

  lemma {:induction false} SpoolKeepsSound(v: Verifier, lines: seq<Line>, ev: AuditEvent, version: int)
    requires Sound(v, lines)
    ensures Sound(v, lines + [SpoolLine(v, lines, ev, version)])
  {
    assert (lines + [SpoolLine(v, lines, ev, version)])[..|lines|] == lines;
  }
}
