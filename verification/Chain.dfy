/** The HMAC chain over audit rows, the scan that verifies it, and what a verified tail hash binds. */
module Chain {
  import opened Bytes
  import opened Payload

  const HASH_LEN: nat := 64

  /** Sixty-four ASCII zeros: the previous hash of the first row ever written. */
  const GENESIS: Bytes := Repeat(48, HASH_LEN)

  /** A digest or MAC rendered in hexadecimal. */
  type Hex64 = h: Bytes | |h| == HASH_LEN witness Repeat(48, HASH_LEN)

  /** What a verifier works with: the chain-key derivation from a master key and a version, the MAC,
      its master key, and the anchors stored per key version (an absent or null anchor reads as None). */
  datatype Verifier = Verifier(
    chainKey: (Bytes, int) -> Bytes,
    hmac: (Bytes, Bytes) -> Hex64,
    master: Bytes,
    anchors: map<int, Option<Bytes>>)
  {
    function Mac(version: int, message: Bytes): Hex64 {
      hmac(chainKey(master, version), message)
    }

    function EventHmac(version: int, payload: Bytes, prev: Bytes): Hex64 {
      Mac(version, prev + payload)
    }

    /** The anchor `master` would store for `version`. */
    function KeyAnchor(version: int): Bytes {
      Mac(version, KEY_ANCHOR_MSG)
    }

    function StoredAnchor(version: int): Option<Bytes> {
      if version in anchors then anchors[version] else None
    }
  }

  /** ASCII of `fusion-guard/key-anchor/v1`. */
  const KEY_ANCHOR_MSG: Bytes :=
    [102, 117, 115, 105, 111, 110, 45, 103, 117, 97, 114, 100, 47, 107, 101, 121, 45, 97, 110, 99, 104, 111, 114, 47, 118, 49]

  datatype Row = Row(event: AuditEvent, prevHash: Bytes, eventHash: Bytes, keyVersion: int)

  datatype BreakKind = Tamper | KeyLoss | MissingAnchor

  function ClassifyBreak(v: Verifier, version: int): BreakKind {
    match v.StoredAnchor(version)
    case Some(stored) => if v.KeyAnchor(version) == stored then BreakKind.Tamper else BreakKind.KeyLoss
    case None => MissingAnchor
  }

  /** What one row turns out to be when the scan reaches it. */
  datatype Finding = Unhashed | Detached | Altered | KeyLost | Intact

  function FindingOf(v: Verifier, row: Row, expected: Bytes): Finding {
    if row.eventHash == [] then Unhashed
    else if row.prevHash != expected then Detached
    else if v.EventHmac(row.keyVersion, PayloadOf(row.event), expected) == row.eventHash then Intact
    else if ClassifyBreak(v, row.keyVersion).KeyLoss? then KeyLost
    else Altered
  }

  /** The hash the next row must name: that of the last hashed row, or `start`. */
  function ExpectedAfter(rows: seq<Row>, start: Bytes): Bytes {
    if rows == [] then start
    else
      var last := rows[|rows| - 1];
      if last.eventHash == [] then ExpectedAfter(rows[..|rows| - 1], start) else last.eventHash
  }

  /** One finding per row, each against the hash expected after the rows before it. */
  function Findings(v: Verifier, rows: seq<Row>, start: Bytes): (fs: seq<Finding>)
    ensures |fs| == |rows|
  {
    if rows == [] then []
    else
      var k := |rows| - 1;
      Findings(v, rows[..k], start) + [FindingOf(v, rows[k], ExpectedAfter(rows[..k], start))]
  }

  lemma {:induction false} FindingsAt(v: Verifier, rows: seq<Row>, start: Bytes, i: nat)
    requires i < |rows|
    ensures Findings(v, rows, start)[i] == FindingOf(v, rows[i], ExpectedAfter(rows[..i], start))
  {
    var k := |rows| - 1;
    if i < k {
      FindingsAt(v, rows[..k], start, i);
      assert rows[..k][..i] == rows[..i];
    }
  }

  /** The hash expected is that of the last row that has one, however many without come after it. */
  lemma {:induction false} ExpectedIsLastHashed(rows: seq<Row>, start: Bytes, n: nat)
    requires n <= |rows| && (n > 0 ==> rows[n - 1].eventHash != [])
    requires forall i :: n <= i < |rows| ==> rows[i].eventHash == []
    ensures ExpectedAfter(rows, start) == if n == 0 then start else rows[n - 1].eventHash
  {
    if n < |rows| {
      ExpectedIsLastHashed(rows[..|rows| - 1], start, n);
    }
  }

  predicate InScope(row: Row, scope: Option<Bytes>) {
    scope == None || scope == Some(row.event.tenantId)
  }

  /** How many rows in scope have a finding among `kinds`. */
  function Tally(rows: seq<Row>, fs: seq<Finding>, scope: Option<Bytes>, kinds: set<Finding>): (n: nat)
    requires |rows| == |fs|
    ensures n <= |rows|
  {
    if rows == [] then 0
    else
      var k := |rows| - 1;
      Tally(rows[..k], fs[..k], scope, kinds) + if InScope(rows[k], scope) && fs[k] in kinds then 1 else 0
  }

  const BREAKS: set<Finding> := {Unhashed, Detached, Altered, KeyLost}
  const TAMPERINGS: set<Finding> := {Unhashed, Detached, Altered}

  /** The least position in scope with a break. */
  function FirstBreak(rows: seq<Row>, fs: seq<Finding>, scope: Option<Bytes>): (at: Option<nat>)
    requires |rows| == |fs|
    ensures at.Some? ==> at.value < |rows| && InScope(rows[at.value], scope) && fs[at.value] != Intact
    ensures at.Some? ==> forall i :: 0 <= i < at.value ==> !(InScope(rows[i], scope) && fs[i] != Intact)
    ensures at.None? ==> forall i :: 0 <= i < |rows| ==> !(InScope(rows[i], scope) && fs[i] != Intact)
  {
    if rows == [] then None
    else
      var k := |rows| - 1;
      var before := FirstBreak(rows[..k], fs[..k], scope);
      if before.Some? then before
      else if InScope(rows[k], scope) && fs[k] != Intact then Some(k)
      else None
  }

  function ScopeSize(rows: seq<Row>, scope: Option<Bytes>): nat {
    if rows == [] then 0
    else ScopeSize(rows[..|rows| - 1], scope) + if InScope(rows[|rows| - 1], scope) then 1 else 0
  }

  datatype ChainVerification = ChainVerification(
    totalRows: nat,
    unhashedRows: nat,
    verifiedLinks: nat,
    brokenLinks: nat,
    tampered: bool,
    firstBrokenAt: Option<nat>,
    keyVersionUnknownRows: nat)

  /** The report that goes with a list of findings. */
  function ReportOf(total: nat, rows: seq<Row>, fs: seq<Finding>, scope: Option<Bytes>): ChainVerification
    requires |rows| == |fs|
  {
    ChainVerification(
      total,
      Tally(rows, fs, scope, {Unhashed}),
      Tally(rows, fs, scope, {Intact}),
      Tally(rows, fs, scope, BREAKS),
      Tally(rows, fs, scope, TAMPERINGS) > 0,
      FirstBreak(rows, fs, scope),
      Tally(rows, fs, scope, {KeyLost}))
  }

  /** The report of a scan of the whole table, all tenants, from genesis. */
  function GlobalReport(v: Verifier, rows: seq<Row>): ChainVerification {
    ReportOf(|rows|, rows, Findings(v, rows, GENESIS), None)
  }

  /** `r` with one more finding in scope, at position `i`. */
  function Recorded(r: ChainVerification, f: Finding, i: nat): ChainVerification {
    if f == Intact then r.(verifiedLinks := r.verifiedLinks + 1)
    else
      var broken := r.(
        brokenLinks := r.brokenLinks + 1,
        firstBrokenAt := if r.firstBrokenAt.None? then Some(i) else r.firstBrokenAt);
      match f
      case Unhashed => broken.(unhashedRows := r.unhashedRows + 1, tampered := true)
      case KeyLost => broken.(keyVersionUnknownRows := r.keyVersionUnknownRows + 1)
      case _ => broken.(tampered := true)
  }

  lemma ReportExtends(total: nat, rows: seq<Row>, fs: seq<Finding>, scope: Option<Bytes>, i: nat)
    requires |rows| == |fs| && i < |rows|
    ensures
      var r := ReportOf(total, rows[..i], fs[..i], scope);
      ReportOf(total, rows[..i + 1], fs[..i + 1], scope) ==
      if InScope(rows[i], scope) then Recorded(r, fs[i], i) else r
  {
    assert rows[..i + 1][..i] == rows[..i] && fs[..i + 1][..i] == fs[..i];
  }

  /** What the loop does with one row. */
  method CheckRow(v: Verifier, row: Row, expected: Bytes) returns (finding: Finding)
    ensures finding == FindingOf(v, row, expected)
  {
    hide PayloadOf;
    if row.eventHash == [] {
      return Unhashed;
    }
    if row.prevHash != expected {
      return Detached;
    }
    var payload := PayloadBytes(row.event);
    var recomputed := v.EventHmac(row.keyVersion, payload, expected);
    if recomputed == row.eventHash {
      return Intact;
    }
    match ClassifyBreak(v, row.keyVersion)
    case KeyLoss => finding := KeyLost;
    case Tamper => finding := Altered;
    case MissingAnchor => finding := Altered;
  }

  /** The verification loop. Besides the report it hands back the hash of the last row scanned, which
      the caller puts in the checkpoint. */
  method ScanRows(v: Verifier, rows: seq<Row>, start: Bytes, total: nat, scope: Option<Bytes>)
    returns (report: ChainVerification, lastHash: Bytes)
    ensures report == ReportOf(total, rows, Findings(v, rows, start), scope)
    ensures lastHash == if rows == [] then start else rows[|rows| - 1].eventHash
  {
    report := ChainVerification(total, 0, 0, 0, false, None, 0);
    var expected := start;
    lastHash := start;
    ghost var fs := Findings(v, rows, start);
    assert report == ReportOf(total, rows[..0], fs[..0], scope);
    hide ReportOf, Recorded, Findings, FindingOf;
    for i := 0 to |rows|
      invariant expected == ExpectedAfter(rows[..i], start)
      invariant lastHash == if i == 0 then start else rows[i - 1].eventHash
      invariant report == ReportOf(total, rows[..i], fs[..i], scope)
    {
      var row := rows[i];
      FindingsAt(v, rows, start, i);
      ReportExtends(total, rows, fs, scope, i);
      assert rows[..i + 1][..i] == rows[..i];
      var finding := CheckRow(v, row, expected);
      if row.eventHash != [] {
        expected := row.eventHash;
      }
      lastHash := row.eventHash;
      if InScope(row, scope) {
        report := Recorded(report, finding, i);
      }
    }
    assert rows[..|rows|] == rows && fs[..|rows|] == fs;
  }
}
