/** Two connections writing the same table while rotations and verifications come and go: every interleaving
    of their statements, with aborts and crashes. */
module Writers {
  import opened Bytes
  import opened Payload
  import opened Chain
  import opened AuditStore
  import opened AuditRuns

  /** The synchronous connection for high-risk events and confirmations, and the drain thread's. */
  datatype Writer = High | Low

  /** How far a connection's transaction has come. */
  datatype Phase = Idle | Begun | Read(prev: Bytes) | Placed(row: Row)

  /** The database between two statements. Rows are taken to be numbered from the first ever written, and a
      rotation that has selected its rows is the number up to which it will delete. `fallback` is the archived hash in the
      checkpoint, `rotating` the hash a rotation has yet to write there after its delete committed, and
      `verifying` the one a verification read and may write back. */
  datatype Db = Db(
    archived: seq<Row>,
    live: seq<Row>,
    fallback: Bytes,
    lock: Option<Writer>,
    high: Phase,
    low: Phase,
    selected: map<nat, nat>,
    rotating: Option<Bytes>,
    verifying: Option<Bytes>)
  {
    function Of(w: Writer): Phase {
      if w == High then high else low
    }

    function With(w: Writer, p: Phase): Db {
      if w == High then this.(high := p) else this.(low := p)
    }

    function History(): seq<Row> {
      archived + live
    }

    /** What the tail query and its fallback return. */
    function TailRead(): Bytes {
      if live != [] then live[|live| - 1].eventHash else fallback
    }

    /** The table is empty and the checkpoint does not name the archive's last row. */
    predicate Stale() {
      live == [] && fallback != TailHash(archived, GENESIS)
    }

    /** Neither a transaction nor a rotation has the high connection, and nobody writes. */
    predicate HighIsFree() {
      lock == None && high == Idle && rotating == None
    }
  }

  datatype Step =
    | Begin(w: Writer)
    | ReadTail(w: Writer)
    | Place(w: Writer, ev: AuditEvent, version: int)
    | Commit(w: Writer)
    | Rollback(w: Writer)
    | RotateSelect(id: nat, n: nat)
    | RotateDelete(id: nat)
    | RotateCheckpoint
    | VerifyRead
    | VerifyWrite
    | VerifyEnd
    | Crash

  /** A step happens only where the write lock, the high connection and the reading connection allow it: a
      verification has the reading connection until it ends, and selecting rows needs it too. */
  predicate Enabled(s: Db, step: Step) {
    match step
    case Begin(w) => s.lock == None && s.Of(w) == Idle && (w == High ==> s.rotating == None)
    case ReadTail(w) => s.Of(w) == Begun
    case Place(w, _, _) => s.Of(w).Read?
    case Commit(w) => s.Of(w).Placed?
    case Rollback(w) => s.Of(w) != Idle
    case RotateSelect(id, n) => s.verifying == None && id !in s.selected && 0 < n <= |s.live|
    case RotateDelete(id) => s.HighIsFree() && id in s.selected && s.selected[id] <= |s.History()|
    case RotateCheckpoint => s.lock == None && s.rotating.Some?
    case VerifyRead => s.verifying == None
    case VerifyWrite => s.HighIsFree() && s.verifying.Some?
    case VerifyEnd => s.verifying.Some?
    case Crash => true
  }

  /** The delete takes those of the selected rows that are still there. */
  function Deleted(s: Db, upTo: nat): Db
    requires upTo <= |s.History()|
  {
    if upTo <= |s.archived| then s
    else
      var n := upTo - |s.archived|;
      s.(archived := s.archived + s.live[..n], live := s.live[n..])
  }

  function Next(v: Verifier, s: Db, step: Step): Db {
    if !Enabled(s, step) then s
    else
      match step
      case Begin(w) => s.With(w, Begun).(lock := Some(w))
      case ReadTail(w) => s.With(w, Read(s.TailRead()))
      case Place(w, ev, version) => s.With(w, Placed(LinkedRow(v, ev, version, s.Of(w).prev)))
      case Commit(w) => s.With(w, Idle).(live := s.live + [s.Of(w).row], lock := None)
      case Rollback(w) => s.With(w, Idle).(lock := None)
      case RotateSelect(id, n) => s.(selected := s.selected[id := |s.archived| + n])
      case RotateDelete(id) =>
        var upTo := s.selected[id];
        Deleted(s, upTo).(selected := s.selected - {id}, rotating := Some(TailHash(s.History()[..upTo], GENESIS)))
      case RotateCheckpoint => s.(fallback := s.rotating.value, rotating := None)
      case VerifyRead => s.(verifying := Some(s.fallback))
      case VerifyWrite => s.(fallback := s.verifying.value, verifying := None)
      case VerifyEnd => s.(verifying := None)
      case Crash => s.(lock := None, high := Idle, low := Idle, selected := map[], rotating := None, verifying := None)
  }

  const INITIAL: Db := Db([], [], GENESIS, None, Idle, Idle, map[], None, None)

  function Run(v: Verifier, steps: seq<Step>): Db {
    if steps == [] then INITIAL else Next(v, Run(v, steps[..|steps| - 1]), steps[|steps| - 1])
  }

  // --- Forks, told from the schedule ---

  /** Where the connection last read the tail. */
  function LastRead(v: Verifier, steps: seq<Step>, w: Writer): Option<nat> {
    if steps == [] then None
    else
      var k := |steps| - 1;
      if steps[k] == ReadTail(w) && Enabled(Run(v, steps[..k]), steps[k]) then Some(k) else LastRead(v, steps[..k], w)
  }

  lemma {:induction false} LastReadBelow(v: Verifier, steps: seq<Step>, w: Writer)
    ensures var r := LastRead(v, steps, w); r.Some? ==> r.value < |steps|
  {
    if steps != [] {
      LastReadBelow(v, steps[..|steps| - 1], w);
    }
  }

  /** The step commits a transaction that read its tail in a stale state. */
  predicate CommitsStaleRead(v: Verifier, before: seq<Step>, step: Step) {
    step.Commit? && Enabled(Run(v, before), step) &&
    var read := LastRead(v, before, step.w);
    read.Some? && read.value < |before| && Run(v, before[..read.value]).Stale()
  }

  predicate NoStaleCommit(v: Verifier, steps: seq<Step>) {
    steps == [] ||
    var k := |steps| - 1;
    NoStaleCommit(v, steps[..k]) && !CommitsStaleRead(v, steps[..k], steps[k])
  }

  // --- What every step keeps ---

  /** The lock is held by the one connection in a transaction. */
  predicate LockHeld(s: Db) {
    && (s.high != Idle <==> s.lock == Some(High))
    && (s.low != Idle <==> s.lock == Some(Low))
  }

  /** What an open transaction has read is still there. */
  predicate SnapshotHolds(v: Verifier, s: Db, p: Phase) {
    match p
    case Idle => true
    case Begun => true
    case Read(prev) => prev == s.TailRead()
    case Placed(row) => row == LinkedRow(v, row.event, row.keyVersion, s.TailRead())
  }

  predicate Invariant(v: Verifier, s: Db) {
    && LockHeld(s) && SnapshotHolds(v, s, s.high) && SnapshotHolds(v, s, s.low)
    && forall id :: id in s.selected ==> 0 < s.selected[id] <= |s.History()|
  }

  lemma DeleteKeepsHistory(s: Db, upTo: nat)
    requires upTo <= |s.History()|
    ensures Deleted(s, upTo).History() == s.History()
    ensures upTo > |s.archived| ==> Deleted(s, upTo).archived == s.History()[..upTo]
  {
    if upTo > |s.archived| {
      var n := upTo - |s.archived|;
      assert s.live == s.live[..n] + s.live[n..];
    }
  }

  lemma DeleteKeeps(v: Verifier, s: Db, id: nat)
    requires Invariant(v, s) && Enabled(s, RotateDelete(id))
    ensures Invariant(v, Next(v, s, RotateDelete(id))) && Next(v, s, RotateDelete(id)).History() == s.History()
  {
    hide LinkedRow, TailHash;
    DeleteKeepsHistory(s, s.selected[id]);
  }

  lemma CommitKeeps(v: Verifier, s: Db, w: Writer)
    requires Invariant(v, s) && Enabled(s, Commit(w))
    ensures Invariant(v, Next(v, s, Commit(w)))
  {
    hide LinkedRow, TailHash;
  }

  lemma OtherKeeps(v: Verifier, s: Db, step: Step)
    requires Invariant(v, s) && !step.Commit? && !step.RotateDelete?
    ensures Invariant(v, Next(v, s, step)) && Next(v, s, step).History() == s.History()
  {
    hide PayloadOf, TailHash, Deleted;
  }

  lemma StepKeeps(v: Verifier, s: Db, step: Step)
    requires Invariant(v, s)
    ensures Invariant(v, Next(v, s, step))
    ensures !(step.Commit? && Enabled(s, step)) ==> Next(v, s, step).History() == s.History()
  {
    hide Invariant, Enabled;
    if !Enabled(s, step) {
      assert Next(v, s, step) == s;
    } else if step.RotateDelete? {
      DeleteKeeps(v, s, step.id);
    } else if step.Commit? {
      CommitKeeps(v, s, step.w);
    } else {
      OtherKeeps(v, s, step);
    }
  }

  lemma {:induction false} RunKeeps(v: Verifier, steps: seq<Step>)
    ensures Invariant(v, Run(v, steps))
  {
    hide Invariant, Next;
    if steps == [] {
      NothingYet(v);
    } else {
      RunKeeps(v, steps[..|steps| - 1]);
      StepKeeps(v, Run(v, steps[..|steps| - 1]), steps[|steps| - 1]);
    }
  }

  lemma NothingYet(v: Verifier)
    ensures Invariant(v, INITIAL)
  {
  }

  predicate HasRead(p: Phase) {
    p.Read? || p.Placed?
  }

  /** While a connection has read the tail, nobody changes what it read. */
  lemma ReadStaysFresh(v: Verifier, s: Db, step: Step, w: Writer)
    requires Invariant(v, s) && HasRead(Next(v, s, step).Of(w))
    ensures (step == ReadTail(w) && Enabled(s, step)) || HasRead(s.Of(w))
    ensures Next(v, s, step).Stale() == s.Stale()
  {
    hide PayloadOf, TailHash;
  }

  lemma {:induction false} ReadIsOnRecord(v: Verifier, steps: seq<Step>, w: Writer)
    requires HasRead(Run(v, steps).Of(w))
    ensures
      var read := LastRead(v, steps, w);
      read.Some? && read.value < |steps| && Run(v, steps[..read.value]).Stale() == Run(v, steps).Stale()
  {
    hide Next, Enabled, HasRead, Invariant;
    if steps == [] {
      NobodyReads(w);
    } else {
      var k := |steps| - 1;
      RunKeeps(v, steps[..k]);
      ReadStaysFresh(v, Run(v, steps[..k]), steps[k], w);
      if !(steps[k] == ReadTail(w) && Enabled(Run(v, steps[..k]), steps[k])) {
        ReadIsOnRecord(v, steps[..k], w);
        var read := LastRead(v, steps[..k], w).value;
        assert steps[..k][..read] == steps[..read];
      }
    }
  }

  lemma NobodyReads(w: Writer)
    ensures !HasRead(INITIAL.Of(w))
  {
  }

  /** Unless it is stale, the tail query returns the hash of the last row ever committed. */
  lemma TailReadIsTail(s: Db)
    ensures s.TailRead() == TailHash(s.History(), GENESIS) <==> !s.Stale()
  {
    if s.live == [] {
      assert s.History() == s.archived;
    }
  }

  lemma ChainedSnoc(v: Verifier, rows: seq<Row>, row: Row)
    ensures Chained(v, rows + [row], GENESIS) <==> Chained(v, rows, GENESIS) && IsLinked(v, row, TailHash(rows, GENESIS))
  {
    hide IsLinked;
    assert (rows + [row])[..|rows|] == rows;
  }

  lemma LinkedExactly(v: Verifier, row: Row, prev: Bytes, other: Bytes)
    requires row == LinkedRow(v, row.event, row.keyVersion, prev)
    ensures IsLinked(v, row, other) <==> other == prev
  {
    hide PayloadOf;
    assert row.prevHash == prev;
  }

  /** A commit leaves one chain exactly when there was one and the state is not stale. */
  lemma {:induction false} CommitLinks(v: Verifier, s: Db, w: Writer)
    requires Invariant(v, s) && s.Of(w).Placed?
    ensures Chained(v, Next(v, s, Commit(w)).History(), GENESIS) <==> Chained(v, s.History(), GENESIS) && !s.Stale()
  {
    hide Chained, IsLinked, LinkedRow, TailHash;
    var row, rows := s.Of(w).row, s.History();
    assert Next(v, s, Commit(w)).History() == rows + [row];
    ChainedSnoc(v, rows, row);
    TailReadIsTail(s);
    LinkedExactly(v, row, s.TailRead(), TailHash(rows, GENESIS));
  }

  /** In every interleaving the committed rows form one chain from genesis exactly when no transaction that
      read the tail in a stale state was committed. */
  lemma {:induction false} ChainForksExactlyOnStaleReads(v: Verifier, steps: seq<Step>)
    ensures Chained(v, Run(v, steps).History(), GENESIS) <==> NoStaleCommit(v, steps)
  {
    hide Chained, Next, Invariant, Enabled;
    if steps == [] {
      NothingIsChained(v);
    } else {
      var k := |steps| - 1;
      var s, step := Run(v, steps[..k]), steps[k];
      ChainForksExactlyOnStaleReads(v, steps[..k]);
      RunKeeps(v, steps[..k]);
      StepKeeps(v, s, step);
      if step.Commit? && Enabled(s, step) {
        CommitNeedsPlaced(s, step.w);
        CommitLinks(v, s, step.w);
        ReadIsOnRecord(v, steps[..k], step.w);
      }
    }
  }

  lemma NothingIsChained(v: Verifier)
    ensures Chained(v, INITIAL.History(), GENESIS)
  {
  }

  lemma CommitNeedsPlaced(s: Db, w: Writer)
    requires Enabled(s, Commit(w))
    ensures s.Of(w).Placed? && HasRead(s.Of(w))
  {
  }

  // --- Schedules that never fork ---

  /** Every step is possible when its turn comes. */
  predicate Legal(v: Verifier, steps: seq<Step>) {
    steps == [] ||
    var k := |steps| - 1;
    Legal(v, steps[..k]) && Enabled(Run(v, steps[..k]), steps[k])
  }

  /** No rows were deleted since the last verification began. */
  predicate FreshRead(steps: seq<Step>) {
    steps != [] &&
    var last := steps[|steps| - 1];
    last == VerifyRead || (!last.RotateDelete? && FreshRead(steps[..|steps| - 1]))
  }

  /** No rows were deleted since this rotation selected its own. */
  predicate FreshSelect(steps: seq<Step>, id: nat) {
    steps != [] &&
    var last := steps[|steps| - 1];
    (last.RotateSelect? && last.id == id) || (!last.RotateDelete? && FreshSelect(steps[..|steps| - 1], id))
  }

  /** The three things a schedule must not do: let anything in between a rotation's delete and its checkpoint
      write, delete rows while a verification that will write is under way, or delete rows between another
      rotation's selection and its delete. */
  predicate Orderly(steps: seq<Step>) {
    steps == [] ||
    var k := |steps| - 1;
    && Orderly(steps[..k])
    && (k > 0 && steps[k - 1].RotateDelete? ==> steps[k] == RotateCheckpoint)
    && (steps[k] == VerifyWrite ==> FreshRead(steps[..k]))
    && (steps[k].RotateDelete? ==> FreshSelect(steps[..k], steps[k].id))
  }

  /** The checkpoint names the archive's tail, or the rotation about to write it does; a verification and a
      rotation that were not overtaken know the archive as it is. */
  predicate Settled(s: Db, steps: seq<Step>) {
    var tail := TailHash(s.archived, GENESIS);
    && (if s.rotating.Some? then s.rotating.value == tail else s.fallback == tail)
    && (s.rotating.Some? ==> steps != [] && steps[|steps| - 1].RotateDelete?)
    && (s.verifying.Some? && FreshRead(steps) ==> s.verifying.value == tail)
    && (forall id :: id in s.selected && FreshSelect(steps, id) ==> |s.archived| < s.selected[id])
  }

  lemma SettledDelete(v: Verifier, s: Db, before: seq<Step>, id: nat)
    requires Invariant(v, s) && Settled(s, before) && Enabled(s, RotateDelete(id)) && FreshSelect(before, id)
    ensures Settled(Next(v, s, RotateDelete(id)), before + [RotateDelete(id)])
  {
    hide FreshRead, FreshSelect;
    DeleteKeepsHistory(s, s.selected[id]);
    NothingFresh(before, id);
  }

  lemma NothingFresh(before: seq<Step>, id: nat)
    ensures !FreshRead(before + [RotateDelete(id)])
    ensures forall other :: !FreshSelect(before + [RotateDelete(id)], other)
  {
  }

  lemma FreshNext(before: seq<Step>, step: Step)
    requires !step.RotateDelete?
    ensures FreshRead(before + [step]) <==> step == VerifyRead || FreshRead(before)
    ensures forall id :: FreshSelect(before + [step], id) <==> (step.RotateSelect? && step.id == id) || FreshSelect(before, id)
  {
    assert (before + [step])[..|before|] == before;
  }

  lemma SettledStep(v: Verifier, s: Db, before: seq<Step>, step: Step)
    requires Invariant(v, s) && Settled(s, before) && Enabled(s, step) && !step.RotateDelete?
    requires s.rotating.Some? ==> step == RotateCheckpoint
    requires step == VerifyWrite ==> FreshRead(before)
    ensures Settled(Next(v, s, step), before + [step])
  {
    hide FreshRead, FreshSelect, TailHash, PayloadOf;
    FreshNext(before, step);
  }

  lemma {:induction false} SettledRun(v: Verifier, steps: seq<Step>)
    requires Legal(v, steps) && Orderly(steps)
    ensures Settled(Run(v, steps), steps)
  {
    if steps == [] {
      NothingUnsettled();
    } else {
      hide Settled, Invariant, Next, Enabled, FreshRead, FreshSelect;
      var k := |steps| - 1;
      var s, before := Run(v, steps[..k]), steps[..k];
      assert steps == before + [steps[k]];
      SettledRun(v, before);
      RunKeeps(v, before);
      RotatingComesLast(s, before);
      if steps[k].RotateDelete? {
        SettledDelete(v, s, before, steps[k].id);
      } else {
        SettledStep(v, s, before, steps[k]);
      }
    }
  }

  lemma NothingUnsettled()
    ensures Settled(INITIAL, [])
  {
  }

  lemma RotatingComesLast(s: Db, before: seq<Step>)
    requires Settled(s, before)
    ensures s.rotating.Some? ==> before != [] && before[|before| - 1].RotateDelete?
  {
  }

  /** A settled state is stale only in the middle of a rotation, where no transaction can have read. */
  lemma {:induction false} OrderlyNeverCommitsStale(v: Verifier, steps: seq<Step>)
    requires Legal(v, steps) && Orderly(steps)
    ensures Chained(v, Run(v, steps).History(), GENESIS)
  {
    hide Chained, Settled, Invariant, Next, Enabled;
    if steps == [] {
      NothingIsChained(v);
    } else {
      var k := |steps| - 1;
      var s, step := Run(v, steps[..k]), steps[k];
      OrderlyNeverCommitsStale(v, steps[..k]);
      RunKeeps(v, steps[..k]);
      StepKeeps(v, s, step);
      if step.Commit? {
        SettledRun(v, steps[..k]);
        RotatingComesLast(s, steps[..k]);
        CommitNeedsPlaced(s, step.w);
        SettledIsNotStale(s, steps[..k]);
        CommitLinks(v, s, step.w);
      }
    }
  }

  lemma SettledIsNotStale(s: Db, steps: seq<Step>)
    requires Settled(s, steps) && s.rotating == None
    ensures !s.Stale()
  {
  }

  /** Two connections never fork the chain, whatever their interleaving, aborts and crashes, and however
      rotations and verifications come in between, as long as the schedule is orderly. */
  lemma {:induction false} TwoWritersNeverFork(v: Verifier, steps: seq<Step>)
    requires Legal(v, steps) && Orderly(steps)
    ensures Chained(v, Run(v, steps).History(), GENESIS) && NoStaleCommit(v, steps)
  {
    hide *;
    OrderlyNeverCommitsStale(v, steps);
    ChainForksExactlyOnStaleReads(v, steps);
  }

  // --- Each of the three conditions is needed ---

  function RunFrom(v: Verifier, s: Db, steps: seq<Step>): Db
    decreases |steps|
  {
    if steps == [] then s else RunFrom(v, Next(v, s, steps[0]), steps[1..])
  }

  lemma {:induction false} RunFromConcat(v: Verifier, s: Db, a: seq<Step>, b: seq<Step>)
    ensures RunFrom(v, s, a + b) == RunFrom(v, RunFrom(v, s, a), b)
    decreases |a|
  {
    hide Next;
    if a == [] {
      assert a + b == b;
    } else {
      assert (a + b)[1..] == a[1..] + b;
      RunFromConcat(v, Next(v, s, a[0]), a[1..], b);
    }
  }

  lemma {:induction false} RunIsRunFrom(v: Verifier, steps: seq<Step>)
    ensures Run(v, steps) == RunFrom(v, INITIAL, steps)
  {
    hide Next;
    if steps != [] {
      var k := |steps| - 1;
      RunIsRunFrom(v, steps[..k]);
      assert steps == steps[..k] + [steps[k]];
      RunFromConcat(v, INITIAL, steps[..k], [steps[k]]);
      RunFromOne(v, Run(v, steps[..k]), steps[k]);
    }
  }

  lemma RunFromOne(v: Verifier, s: Db, step: Step)
    ensures RunFrom(v, s, [step]) == Next(v, s, step)
  {
    hide Next;
    assert [step][1..] == [];
    assert RunFrom(v, Next(v, s, step), []) == Next(v, s, step);
  }

  lemma RunFromTwo(v: Verifier, s: Db, a: Step, b: Step)
    ensures RunFrom(v, s, [a, b]) == Next(v, Next(v, s, a), b)
  {
    hide Next;
    assert [a, b] == [a] + [b];
    RunFromConcat(v, s, [a], [b]);
    RunFromOne(v, s, a);
    RunFromOne(v, Next(v, s, a), b);
  }

  /** One undisturbed insert by the drain thread. */
  function Insertion(ev: AuditEvent, version: int): seq<Step> {
    [Begin(Low), ReadTail(Low)] + [Place(Low, ev, version), Commit(Low)]
  }

  lemma InsertionEffect(v: Verifier, s: Db, ev: AuditEvent, version: int)
    requires s.lock == None && s.low == Idle
    ensures RunFrom(v, s, Insertion(ev, version)) == s.(live := s.live + [LinkedRow(v, ev, version, s.TailRead())])
  {
    hide RunFrom, LinkedRow;
    RunFromConcat(v, s, [Begin(Low), ReadTail(Low)], [Place(Low, ev, version), Commit(Low)]);
    RunFromTwo(v, s, Begin(Low), ReadTail(Low));
    var s2 := Next(v, Next(v, s, Begin(Low)), ReadTail(Low));
    assert s2 == s.(lock := Some(Low), low := Read(s.TailRead()));
    RunFromTwo(v, s2, Place(Low, ev, version), Commit(Low));
  }

  /** The rows chained so far, with nothing else going on. */
  function Quiet(live: seq<Row>): Db {
    INITIAL.(live := live)
  }

  /** An insert into a quiet database after `middle`, which leaves the table empty and the fallback `read`. */
  lemma ForkAfter(v: Verifier, start: seq<Step>, middle: seq<Step>, live: seq<Row>, s: Db, ev: AuditEvent, version: int)
    requires Run(v, start) == Quiet(live) && RunFrom(v, Quiet(live), middle) == s
    requires s.lock == None && s.low == Idle && s.live == [] && s.archived == live
    requires s.fallback != TailHash(live, GENESIS)
    ensures
      var s' := Run(v, start + middle + Insertion(ev, version));
      && s'.History() == live + [LinkedRow(v, ev, version, s.fallback)]
      && !Chained(v, s'.History(), GENESIS)
  {
    hide Run, RunFrom, Chained, Insertion, Next, IsLinked;
    RunIsRunFrom(v, start + middle + Insertion(ev, version));
    RunIsRunFrom(v, start);
    RunFromConcat(v, INITIAL, start + middle, Insertion(ev, version));
    RunFromConcat(v, INITIAL, start, middle);
    InsertionEffect(v, s, ev, version);
    var row := LinkedRow(v, ev, version, s.fallback);
    assert [] + [row] == [row];
    ChainedSnoc(v, live, row);
    LinkedExactly(v, row, s.fallback, TailHash(live, GENESIS));
  }

  lemma OneInsertion(v: Verifier, ev: AuditEvent, version: int)
    ensures Run(v, Insertion(ev, version)) == Quiet([LinkedRow(v, ev, version, GENESIS)])
  {
    hide Run, RunFrom, Insertion, Next, LinkedRow;
    RunIsRunFrom(v, Insertion(ev, version));
    InsertionEffect(v, INITIAL, ev, version);
    assert [] + [LinkedRow(v, ev, version, GENESIS)] == [LinkedRow(v, ev, version, GENESIS)];
  }

  lemma TwoInsertions(v: Verifier, a1: AuditEvent, a2: AuditEvent, version: int)
    ensures
      var first := LinkedRow(v, a1, version, GENESIS);
      Run(v, Insertion(a1, version) + Insertion(a2, version)) == Quiet([first, LinkedRow(v, a2, version, first.eventHash)])
  {
    hide Run, RunFrom, Insertion, Next, LinkedRow;
    var first := LinkedRow(v, a1, version, GENESIS);
    var second := LinkedRow(v, a2, version, first.eventHash);
    RunIsRunFrom(v, Insertion(a1, version) + Insertion(a2, version));
    RunIsRunFrom(v, Insertion(a1, version));
    RunFromConcat(v, INITIAL, Insertion(a1, version), Insertion(a2, version));
    OneInsertion(v, a1, version);
    InsertionEffect(v, Quiet([first]), a2, version);
    assert [first] + [second] == [first, second];
  }

  /** A rotation that selected the whole table empties it, and leaves the checkpoint for later. */
  lemma DeleteAll(v: Verifier, s: Db, id: nat)
    requires s.archived == [] && s.live != [] && s.HighIsFree() && id in s.selected && s.selected[id] == |s.live|
    ensures Next(v, s, RotateDelete(id)) ==
            s.(archived := s.live, live := [], selected := s.selected - {id}, rotating := Some(TailHash(s.live, GENESIS)))
  {
    hide TailHash;
    assert s.History() == s.live && s.live[..|s.live|] == s.live && s.live[|s.live|..] == [];
    assert [] + s.live == s.live;
  }

  /** With the checkpoint write it is complete. */
  lemma RotateAll(v: Verifier, s: Db, id: nat)
    requires s.archived == [] && s.live != [] && s.HighIsFree() && id in s.selected && s.selected[id] == |s.live|
    ensures RunFrom(v, s, [RotateDelete(id), RotateCheckpoint]) ==
            s.(archived := s.live, live := [], selected := s.selected - {id}, fallback := TailHash(s.live, GENESIS))
  {
    hide TailHash, RunFrom, Deleted;
    RunFromTwo(v, s, RotateDelete(id), RotateCheckpoint);
    DeleteAll(v, s, id);
  }

  /** A rotation that comes too late deletes nothing, and writes the hash of its own last row. */
  lemma RotateNone(v: Verifier, s: Db, id: nat)
    requires s.HighIsFree() && id in s.selected && 0 < s.selected[id] <= |s.archived|
    ensures RunFrom(v, s, [RotateDelete(id), RotateCheckpoint]) ==
            s.(selected := s.selected - {id}, fallback := s.archived[s.selected[id] - 1].eventHash)
  {
    hide RunFrom;
    RunFromTwo(v, s, RotateDelete(id), RotateCheckpoint);
  }

  /** The torn rotation: it empties the table, and before it has written the checkpoint the drain thread
      inserts. The new row then names genesis, not the row just archived. */
  lemma {:induction false} TornRotationForks(v: Verifier, first: AuditEvent, second: AuditEvent, version: int)
    requires v.EventHmac(version, PayloadOf(first), GENESIS) != GENESIS
    ensures
      var s := Run(v, Insertion(first, version) + [RotateSelect(0, 1), RotateDelete(0)] + Insertion(second, version));
      !Chained(v, s.History(), GENESIS)
  {
    hide Run, RunFrom, Insertion, Chained, PayloadOf, Deleted;
    var row := LinkedRow(v, first, version, GENESIS);
    var q := Quiet([row]);
    OneInsertion(v, first, version);
    var a := Next(v, q, RotateSelect(0, 1));
    RunFromTwo(v, q, RotateSelect(0, 1), RotateDelete(0));
    DeleteAll(v, a, 0);
    ForkAfter(v, Insertion(first, version), [RotateSelect(0, 1), RotateDelete(0)], [row], Next(v, a, RotateDelete(0)), second, version);
  }

  /** A complete rotation has selected its rows; a verification then reads the checkpoint, the rotation deletes
      and writes its own, and the verification writes back what it read. */
  const OVERTAKEN: seq<Step> :=
    [RotateSelect(0, 1), VerifyRead] + ([RotateDelete(0), RotateCheckpoint] + [VerifyWrite])

  /** The overtaken verification: the archived hash is lost, and the next row names genesis. */
  lemma {:induction false} OvertakenVerifyForks(v: Verifier, first: AuditEvent, second: AuditEvent, version: int)
    requires v.EventHmac(version, PayloadOf(first), GENESIS) != GENESIS
    ensures !Chained(v, Run(v, Insertion(first, version) + OVERTAKEN + Insertion(second, version)).History(), GENESIS)
  {
    hide Run, RunFrom, Insertion, Chained, PayloadOf, Deleted;
    var row := LinkedRow(v, first, version, GENESIS);
    var q := Quiet([row]);
    OneInsertion(v, first, version);
    RunFromConcat(v, q, [RotateSelect(0, 1), VerifyRead], [RotateDelete(0), RotateCheckpoint] + [VerifyWrite]);
    RunFromTwo(v, q, RotateSelect(0, 1), VerifyRead);
    var a := q.(selected := map[0 := 1], verifying := Some(GENESIS));
    assert Next(v, Next(v, q, RotateSelect(0, 1)), VerifyRead) == a;
    RunFromConcat(v, a, [RotateDelete(0), RotateCheckpoint], [VerifyWrite]);
    RotateAll(v, a, 0);
    var b := a.(archived := [row], live := [], selected := map[0 := 1] - {0}, fallback := TailHash([row], GENESIS));
    RunFromOne(v, b, VerifyWrite);
    ForkAfter(v, Insertion(first, version), OVERTAKEN, [row], Next(v, b, VerifyWrite), second, version);
  }

  /** Two rotations select, the later one fewer rows; the earlier one deletes and writes, then the later one. */
  const OVERLAPPING: seq<Step> :=
    [RotateSelect(0, 2), RotateSelect(1, 1)] + ([RotateDelete(0), RotateCheckpoint] + [RotateDelete(1), RotateCheckpoint])

  /** The overlapping rotations: the second writes the hash of a row before the archive's last, and the next
      row names that one. */
  lemma {:induction false} OverlappingRotationsFork(v: Verifier, a1: AuditEvent, a2: AuditEvent, ev: AuditEvent, version: int)
    requires
      var first := LinkedRow(v, a1, version, GENESIS);
      first.eventHash != LinkedRow(v, a2, version, first.eventHash).eventHash
    ensures
      var start := Insertion(a1, version) + Insertion(a2, version);
      !Chained(v, Run(v, start + OVERLAPPING + Insertion(ev, version)).History(), GENESIS)
  {
    hide Run, RunFrom, Insertion, Chained, Deleted, LinkedRow;
    var start, first := Insertion(a1, version) + Insertion(a2, version), LinkedRow(v, a1, version, GENESIS);
    var live := [first, LinkedRow(v, a2, version, first.eventHash)];
    var q := Quiet(live);
    TwoInsertions(v, a1, a2, version);
    RunFromConcat(v, q, [RotateSelect(0, 2), RotateSelect(1, 1)],
                  [RotateDelete(0), RotateCheckpoint] + [RotateDelete(1), RotateCheckpoint]);
    RunFromTwo(v, q, RotateSelect(0, 2), RotateSelect(1, 1));
    var a := q.(selected := map[0 := 2, 1 := 1]);
    assert Next(v, Next(v, q, RotateSelect(0, 2)), RotateSelect(1, 1)) == a;
    RunFromConcat(v, a, [RotateDelete(0), RotateCheckpoint], [RotateDelete(1), RotateCheckpoint]);
    RotateAll(v, a, 0);
    var b := a.(archived := live, live := [], selected := a.selected - {0}, fallback := TailHash(live, GENESIS));
    RotateNone(v, b, 1);
    var s := b.(selected := b.selected - {1}, fallback := first.eventHash);
    ForkAfter(v, start, OVERLAPPING, live, s, ev, version);
  }
}
