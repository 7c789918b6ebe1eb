/** The audit table with its archives, checkpoint and dead-letter file: appending, rotating rows out,
    verifying from the checkpoint, and reimporting. */
module AuditStore {
  import opened Bytes
  import opened Payload
  import opened Chain
  import opened DeadLetter

  /** The row of the checkpoint table. An empty `verifiedId` stands for "no row of the table". */
  datatype Checkpoint = Checkpoint(
    verifiedId: Bytes,
    verifiedHash: Bytes,
    archivedId: Option<Bytes>,
    archivedHash: Option<Bytes>)

  /** `live` is the audit table in rowid order; `archives` are the files rotated out of it, oldest first. */
  datatype State = State(
    archives: seq<seq<Row>>,
    live: seq<Row>,
    checkpoint: Option<Checkpoint>,
    keyVersion: int,
    deadLetter: seq<Line>)

  const ROTATE_LIMIT: nat := 50000

  function ReadCheckpoint(stored: Option<Checkpoint>): Option<Checkpoint> {
    match stored
    case None => None
    case Some(c) =>
      if c.verifiedId != [] then Some(c)
      else if c.archivedHash.Some? && c.archivedHash.value != [] then Some(c.(verifiedHash := []))
      else None
  }

  function LastArchivedHash(stored: Option<Checkpoint>): Bytes {
    match ReadCheckpoint(stored)
    case None => GENESIS
    case Some(c) => if c.archivedHash.Some? && c.archivedHash.value != [] then c.archivedHash.value else GENESIS
  }

  /** The hash a new row will name: the table's last, or the archive's last when the table is empty. */
  function PrevHash(s: State): Bytes {
    if s.live != [] && s.live[|s.live| - 1].eventHash != [] then s.live[|s.live| - 1].eventHash
    else LastArchivedHash(s.checkpoint)
  }

  function LinkedRow(v: Verifier, ev: AuditEvent, version: int, prev: Bytes): Row {
    Row(ev, prev, v.EventHmac(version, PayloadOf(ev), prev), version)
  }

  predicate HasId(rows: seq<Row>, id: Bytes) {
    exists i :: 0 <= i < |rows| && rows[i].event.auditId == id
  }

  /** One insert transaction. The audit id is the primary key, so a second use of it is refused. */
  function Inserted(v: Verifier, s: State, ev: AuditEvent, version: int): State {
    if HasId(s.live, ev.auditId) then s
    else s.(live := s.live + [LinkedRow(v, ev, version, PrevHash(s))])
  }

  /** Rows whose timestamp sorts before `cutoff`. */
  function AgedCount(rows: seq<Row>, cutoff: Bytes): (n: nat)
    ensures n <= |rows|
  {
    if rows == [] then 0
    else AgedCount(rows[..|rows| - 1], cutoff) + if Less(rows[|rows| - 1].event.ts, cutoff) then 1 else 0
  }

  /** How many of the oldest rows a rotation takes; `oversized` says the file has reached its size limit. */
  function RotateCount(rows: seq<Row>, cutoff: Bytes, oversized: bool): (n: nat)
    ensures n <= |rows|
  {
    var aged := AgedCount(rows, cutoff);
    if aged > 0 then aged
    else if !oversized then 0
    else if |rows| < ROTATE_LIMIT then |rows| else ROTATE_LIMIT
  }

  function Rotated(s: State, cutoff: Bytes, oversized: bool): State {
    var n := RotateCount(s.live, cutoff, oversized);
    if n == 0 then s
    else
      var segment, rest := s.live[..n], s.live[n..];
      var tail := segment[n - 1];
      var anchor := if rest == [] then ([], []) else (rest[0].event.auditId, rest[0].eventHash);
      s.(archives := s.archives + [segment],
         live := rest,
         checkpoint := Some(Checkpoint(anchor.0, anchor.1, Some(tail.event.auditId), Some(tail.eventHash))))
  }

  /** Position of the row with this id. */
  function FindId(rows: seq<Row>, id: Bytes): (at: Option<nat>)
    ensures at.Some? ==> at.value < |rows| && rows[at.value].event.auditId == id
    ensures at.None? ==> !HasId(rows, id)
  {
    if rows == [] then None
    else if rows[|rows| - 1].event.auditId == id then Some(|rows| - 1)
    else FindId(rows[..|rows| - 1], id)
  }

  /** Where a scan starts, and after which hash. */
  datatype Plan = Plan(skip: nat, start: Bytes)

  function ScanPlan(s: State): (p: Plan)
    ensures p.skip <= |s.live|
    ensures p.skip > 0 ==>
      var cp, anchor := ReadCheckpoint(s.checkpoint), s.live[p.skip - 1];
      && cp.Some? && cp.value.verifiedId == anchor.event.auditId != []
      && cp.value.verifiedHash == anchor.eventHash == p.start != []
    ensures p.skip == 0 ==>
      var cp := ReadCheckpoint(s.checkpoint);
      p.start == if cp.Some? && cp.value.verifiedId == [] then LastArchivedHash(s.checkpoint) else GENESIS
  {
    match ReadCheckpoint(s.checkpoint)
    case None => Plan(0, GENESIS)
    case Some(c) =>
      if c.verifiedId == [] then Plan(0, LastArchivedHash(s.checkpoint))
      else
        match FindId(s.live, c.verifiedId)
        case None => Plan(0, GENESIS)
        case Some(at) =>
          var h := s.live[at].eventHash;
          if h != [] && h == c.verifiedHash then Plan(at + 1, h) else Plan(0, GENESIS)
  }

  function VerifyReport(v: Verifier, s: State, scope: Option<Bytes>): ChainVerification {
    var p := ScanPlan(s);
    ReportOf(ScopeSize(s.live, scope), s.live[p.skip..], Findings(v, s.live[p.skip..], p.start), scope)
  }

  /** The state after a verification: a clean scan moves the checkpoint to the last row it read. */
  function AfterVerify(v: Verifier, s: State, scope: Option<Bytes>): State {
    var p, cp := ScanPlan(s), ReadCheckpoint(s.checkpoint);
    var rows := s.live[p.skip..];
    if VerifyReport(v, s, scope).tampered || (rows == [] && cp.Some?) then s
    else
      var last := if rows == [] then ([], p.start)
                  else (rows[|rows| - 1].event.auditId, rows[|rows| - 1].eventHash);
      s.(checkpoint := Some(Checkpoint(
           last.0, last.1,
           if cp.Some? then cp.value.archivedId else None,
           if cp.Some? then cp.value.archivedHash else None)))
  }

  /** Inserts the events of the lines in order, stopping at the first one refused. */
  function Imported(v: Verifier, s: State, lines: seq<Line>): (r: (State, bool)) {
    if lines == [] then (s, true)
    else
      var (s', ok) := Imported(v, s, lines[..|lines| - 1]);
      match lines[|lines| - 1]
      case Line(_, _, _, Some(ev)) =>
        if !ok || HasId(s'.live, ev.auditId) then (s', false) else (Inserted(v, s', ev, s'.keyVersion), true)
      case _ => (s', false)
  }

  /** The state after a reimport, and how many lines it took in (None when it was refused). */
  function Reimported(v: Verifier, s: State): (State, Option<nat>) {
    if !Sound(v, s.deadLetter) then (s, None)
    else
      var (s', ok) := Imported(v, s, s.deadLetter);
      if ok then (s'.(deadLetter := []), Some(|s.deadLetter|)) else (s', None)
  }

  /** The store as the daemon holds it, each method one step: the write lock makes it so for inserts, `Writers`
      takes rotations and verifications apart, and `Spools` what is done to the dead-letter file. */
  class Store {
    const v: Verifier
    var archives: seq<seq<Row>>
    var live: seq<Row>
    var checkpoint: Option<Checkpoint>
    var keyVersion: int
    var deadLetter: seq<Line>

    ghost function Contents(): State
      reads this
    {
      State(archives, live, checkpoint, keyVersion, deadLetter)
    }

    /** Opens a database as it was left; a new one is empty and at key version one. */
    constructor (v: Verifier, stored: Option<State>)
      ensures this.v == v && Contents() == if stored.Some? then stored.value else State([], [], None, 1, [])
    {
      var s := if stored.Some? then stored.value else State([], [], None, 1, []);
      this.v := v;
      archives, live, checkpoint, keyVersion, deadLetter := s.archives, s.live, s.checkpoint, s.keyVersion, s.deadLetter;
    }

    method InsertAuditEvent(ev: AuditEvent, version: int) returns (ok: bool)
      modifies this`live
      ensures Contents() == Inserted(v, old(Contents()), ev, version)
      ensures ok <==> !HasId(old(live), ev.auditId)
      ensures ok ==>
        var prev := PrevHash(old(Contents()));
        live == old(live) + [Row(ev, prev, v.hmac(v.chainKey(v.master, version), prev + PayloadOf(ev)), version)]
    {
      var at := FindId(live, ev.auditId);
      if at.Some? {
        return false;
      }
      var prev := GENESIS;
      if live != [] && live[|live| - 1].eventHash != [] {
        prev := live[|live| - 1].eventHash;
      } else {
        var cp := ReadCheckpoint(checkpoint);
        if cp.Some? && cp.value.archivedHash.Some? && cp.value.archivedHash.value != [] {
          prev := cp.value.archivedHash.value;
        }
      }
      var payload := PayloadBytes(ev);
      live := live + [Row(ev, prev, v.EventHmac(version, payload, prev), version)];
      return true;
    }

    /** When the archive file cannot be opened the rows stay where they are. */
    method RotateOldRows(cutoff: Bytes, oversized: bool, archiveOpens: bool) returns (archivedRows: nat)
      modifies this`archives, this`live, this`checkpoint
      ensures Contents() == if archiveOpens then Rotated(old(Contents()), cutoff, oversized) else old(Contents())
      ensures archivedRows == if archiveOpens then RotateCount(old(live), cutoff, oversized) else 0
    {
      archivedRows := RotateCount(live, cutoff, oversized);
      if archivedRows == 0 || !archiveOpens {
        archivedRows := 0;
        return;
      }
      var segment := live[..archivedRows];
      var tail := segment[archivedRows - 1];
      archives := archives + [segment];
      live := live[archivedRows..];
      if live != [] {
        checkpoint := Some(Checkpoint(live[0].event.auditId, live[0].eventHash, Some(tail.event.auditId), Some(tail.eventHash)));
      } else {
        checkpoint := Some(Checkpoint([], [], Some(tail.event.auditId), Some(tail.eventHash)));
      }
    }

    method VerifyChain(scope: Option<Bytes>) returns (report: ChainVerification)
      modifies this`checkpoint
      ensures report == VerifyReport(v, old(Contents()), scope)
      ensures Contents() == AfterVerify(v, old(Contents()), scope)
    {
      hide ReportOf, Findings, ScopeSize;
      var cp := ReadCheckpoint(checkpoint);
      var skip, start := 0, GENESIS;
      if cp.Some? {
        if cp.value.verifiedId == [] {
          start := cp.value.archivedHash.value;
        } else {
          var at := FindId(live, cp.value.verifiedId);
          if at.Some? && live[at.value].eventHash != [] && live[at.value].eventHash == cp.value.verifiedHash {
            skip, start := at.value + 1, cp.value.verifiedHash;
          }
        }
      }
      var rows := live[skip..];
      var lastHash;
      report, lastHash := ScanRows(v, rows, start, ScopeSize(live, scope), scope);
      if !report.tampered && (rows != [] || cp.None?) {
        var lastId := if rows != [] then rows[|rows| - 1].event.auditId else [];
        checkpoint := Some(Checkpoint(
          lastId, lastHash,
          if cp.Some? then cp.value.archivedId else None,
          if cp.Some? then cp.value.archivedHash else None));
      }
    }

    /** When the file cannot be opened the event is only logged. */
    method SpoolDeadLetter(ev: AuditEvent, version: int, fileOpens: bool)
      modifies this`deadLetter
      ensures deadLetter == old(deadLetter) + if fileOpens then [SpoolLine(v, old(deadLetter), ev, version)] else []
      ensures fileOpens ==>
        var line := deadLetter[|deadLetter| - 1];
        && line.Line? && line.event == Some(ev) && line.keyVersion == version
        && line.hmac == v.hmac(v.chainKey(v.master, version), line.prevHmac + PayloadOf(ev))
    {
      if !fileOpens {
        return;
      }
      var prev := GENESIS;
      if deadLetter != [] {
        var last := deadLetter[|deadLetter| - 1];
        if last.Line? && last.hmac != [] {
          prev := last.hmac;
        }
      }
      var payload := PayloadBytes(ev);
      deadLetter := deadLetter + [Line(prev, v.EventHmac(version, payload, prev), version, Some(ev))];
    }

    /** Lines are checked first; only then are their events inserted and the file emptied. */
    method ReimportDeadLetter() returns (imported: Option<nat>)
      modifies this`live, this`deadLetter
      ensures (Contents(), imported) == Reimported(v, old(Contents()))
    {
      var sound := PreCheck(v, deadLetter);
      if !sound {
        return None;
      }
      hide Inserted, HasId;
      var lines := deadLetter;
      ghost var s0 := Contents();
      for i := 0 to |lines|
        invariant deadLetter == lines && Imported(v, s0, lines[..i]) == (Contents(), true)
      {
        ImportStep(v, s0, lines, i);
        if lines[i].Garbage? || lines[i].event.None? {
          return None;
        }
        var ok := InsertAuditEvent(lines[i].event.value, keyVersion);
        if !ok {
          return None;
        }
      }
      assert lines[..|lines|] == lines;
      deadLetter := [];
      return Some(|lines|);
    }
  }

  /** What one more line does to an import that has gone well so far. */
  lemma ImportStep(v: Verifier, s: State, lines: seq<Line>, i: nat)
    requires i < |lines| && Imported(v, s, lines[..i]).1
    ensures
      var s' := Imported(v, s, lines[..i]).0;
      if lines[i].Line? && lines[i].event.Some? && !HasId(s'.live, lines[i].event.value.auditId)
      then Imported(v, s, lines[..i + 1]) == (Inserted(v, s', lines[i].event.value, s'.keyVersion), true)
      else Imported(v, s, lines) == (s', false)
  {
    hide Inserted, HasId;
    assert lines[..i + 1][..i] == lines[..i];
    if !Imported(v, s, lines[..i + 1]).1 {
      ImportStops(v, s, lines, i + 1);
    }
  }

  /** A refused line leaves nothing for the later ones to do. */
  lemma {:induction false} ImportStops(v: Verifier, s: State, lines: seq<Line>, n: nat)
    requires n <= |lines| && !Imported(v, s, lines[..n]).1
    ensures Imported(v, s, lines) == Imported(v, s, lines[..n])
  {
    if n == |lines| {
      assert lines[..n] == lines;
    } else {
      var k := |lines| - 1;
      assert lines[..k][..n] == lines[..n];
      ImportStops(v, s, lines[..k], n);
    }
  }
}
