/** The asynchronous path of low-risk events: a bounded queue, a drain thread that inserts batches, and the
    dead-letter file for whatever does not fit or cannot be inserted. */
module LowRisk {
  import opened Payload

  const QUEUE_CAPACITY: nat := 8192
  const BATCH_SIZE: nat := 100

  /** `chain` and `spooled` list the low-risk events that reached the main table and the dead-letter file.
      While `flushing`, `batch` holds what is left of the batch being inserted. */
  datatype Path = Path(
    queue: seq<AuditEvent>,
    batch: seq<AuditEvent>,
    flushing: bool,
    chain: seq<AuditEvent>,
    spooled: seq<AuditEvent>)

  function Submitted(p: Path, ev: AuditEvent): Path {
    if |p.queue| < QUEUE_CAPACITY then p.(queue := p.queue + [ev]) else p.(spooled := p.spooled + [ev])
  }

  /** One receive by the drain thread, blocking when the batch is empty and not otherwise. */
  function Received(p: Path): Path {
    if p.flushing || p.queue == [] || |p.batch| >= BATCH_SIZE then p
    else p.(batch := p.batch + [p.queue[0]], queue := p.queue[1..])
  }

  /** The batch is closed once the queue has nothing more to give or the batch is full. */
  function Closed(p: Path): Path {
    if p.batch != [] && (p.queue == [] || |p.batch| >= BATCH_SIZE) then p.(flushing := true) else p
  }

  /** The next event of the batch goes to the table, or to the dead-letter file when its insert fails. */
  function Flushed(p: Path, inserted: bool): Path {
    if !p.flushing || p.batch == [] then p
    else
      var ev, rest := p.batch[0], p.batch[1..];
      var p' := p.(batch := rest, flushing := rest != []);
      if inserted then p'.(chain := p.chain + [ev]) else p'.(spooled := p.spooled + [ev])
  }

  function ReceivedTimes(p: Path, n: nat): Path {
    if n == 0 then p else Received(ReceivedTimes(p, n - 1))
  }

  function FlushedAll(p: Path, inserted: seq<bool>): Path {
    if inserted == [] then p
    else Flushed(FlushedAll(p, inserted[..|inserted| - 1]), inserted[|inserted| - 1])
  }

  /** The events whose mark is `mark`, in order. */
  function Marked(events: seq<AuditEvent>, marks: seq<bool>, mark: bool): seq<AuditEvent>
    requires |events| == |marks|
  {
    if events == [] then []
    else
      var k := |events| - 1;
      Marked(events[..k], marks[..k], mark) + if marks[k] == mark then [events[k]] else []
  }

  /** Flushing a batch takes the events that could be inserted to the table and the others to the
      dead-letter file, each in batch order. */
  lemma {:induction false} FlushSorts(p: Path, inserted: seq<bool>)
    requires p.flushing && |inserted| <= |p.batch| && p.batch != []
    ensures
      var n, p' := |inserted|, FlushedAll(p, inserted);
      && p'.queue == p.queue && p'.batch == p.batch[n..] && p'.flushing == (p'.batch != [])
      && p'.chain == p.chain + Marked(p.batch[..n], inserted, true)
      && p'.spooled == p.spooled + Marked(p.batch[..n], inserted, false)
  {
    hide Flushed, Marked;
    MarkedStep(p.batch, inserted, true);
    MarkedStep(p.batch, inserted, false);
    if inserted != [] {
      var k := |inserted| - 1;
      FlushSorts(p, inserted[..k]);
      FlushOneSorts(FlushedAll(p, inserted[..k]), inserted[k]);
    }
  }

  lemma MarkedStep(events: seq<AuditEvent>, marks: seq<bool>, mark: bool)
    requires |marks| <= |events|
    ensures
      var n := |marks|;
      Marked(events[..n], marks, mark) ==
      if n == 0 then [] else Marked(events[..n - 1], marks[..n - 1], mark) + if marks[n - 1] == mark then [events[n - 1]] else []
  {
    var n := |marks|;
    assert n > 0 ==> events[..n][..n - 1] == events[..n - 1];
  }

  lemma FlushOneSorts(p: Path, inserted: bool)
    requires p.flushing && p.batch != []
    ensures
      var p' := Flushed(p, inserted);
      && p'.queue == p.queue && p'.batch == p.batch[1..] && p'.flushing == (p'.batch != [])
      && p'.chain == p.chain + (if inserted then [p.batch[0]] else [])
      && p'.spooled == p.spooled + (if inserted then [] else [p.batch[0]])
  {
  }

  class LowRiskWriter {
    var queue: seq<AuditEvent>
    var batch: seq<AuditEvent>
    var flushing: bool
    var chain: seq<AuditEvent>
    var spooled: seq<AuditEvent>

    ghost function State(): Path
      reads this
    {
      Path(queue, batch, flushing, chain, spooled)
    }

    method Submit(ev: AuditEvent)
      modifies this`queue, this`spooled
      ensures State() == Submitted(old(State()), ev)
      ensures if |old(queue)| < 8192 then queue == old(queue) + [ev] else spooled == old(spooled) + [ev]
    {
      if |queue| < QUEUE_CAPACITY {
        queue := queue + [ev];
      } else {
        spooled := spooled + [ev];
      }
    }

    /** The receiving half of the drain loop: one event, then as many more as are waiting. */
    method Collect()
      requires !flushing && batch == [] && queue != []
      modifies this`queue, this`batch, this`flushing
      ensures exists n :: 0 < n <= BATCH_SIZE && State() == Closed(ReceivedTimes(old(State()), n)) && |batch| == n
      ensures batch + queue == old(queue) && flushing
      ensures |batch| == if |old(queue)| < 100 then |old(queue)| else 100
    {
      ghost var p, n := State(), 0;
      while |batch| < BATCH_SIZE && queue != []
        invariant n == |batch| <= BATCH_SIZE && !flushing && batch + queue == old(queue)
        invariant n > 0 || queue != []
        invariant State() == ReceivedTimes(p, n)
        decreases |queue|
      {
        batch := batch + [queue[0]];
        queue := queue[1..];
        n := n + 1;
      }
      flushing := true;
      assert State() == Closed(ReceivedTimes(p, n));
    }

    /** The inserting half; `inserted` says for each event whether its insert succeeded. */
    method Flush(inserted: seq<bool>)
      requires flushing && batch != [] && |inserted| == |batch|
      modifies this`batch, this`flushing, this`chain, this`spooled
      ensures State() == FlushedAll(old(State()), inserted)
      ensures batch == [] && !flushing
      ensures chain == old(chain) + Marked(old(batch), inserted, true)
      ensures spooled == old(spooled) + Marked(old(batch), inserted, false)
    {
      ghost var p, all := State(), batch;
      for i := 0 to |inserted|
        invariant batch == all[i..] && (flushing <==> batch != [])
        invariant State() == FlushedAll(p, inserted[..i])
      {
        var ev := batch[0];
        assert inserted[..i + 1][..i] == inserted[..i];
        batch := batch[1..];
        flushing := batch != [];
        if inserted[i] {
          chain := chain + [ev];
        } else {
          spooled := spooled + [ev];
        }
      }
      assert inserted[..|inserted|] == inserted && all[..|all|] == all;
      FlushSorts(p, inserted);
    }
  }

  // --- Conservation and order ---

  /** `a` can be had from `b` by leaving elements out. */
  predicate Subsequence(a: seq<AuditEvent>, b: seq<AuditEvent>) {
    if a == [] then true
    else if b == [] then false
    else
      var x, y := |a| - 1, |b| - 1;
      (a[x] == b[y] && Subsequence(a[..x], b[..y])) || Subsequence(a, b[..y])
  }

  lemma {:induction false} SubsequenceDrop(a: seq<AuditEvent>, b: seq<AuditEvent>, i: nat)
    requires i < |a| && Subsequence(a, b)
    ensures Subsequence(a[..i] + a[i + 1..], b)
    decreases |b|
  {
    var x, y, c := |a| - 1, |b| - 1, a[..i] + a[i + 1..];
    if Subsequence(a, b[..y]) {
      SubsequenceDrop(a, b[..y], i);
    } else if i < x {
      SubsequenceDrop(a[..x], b[..y], i);
      assert c[..x - 1] == a[..x][..i] + a[..x][i + 1..];
    } else {
      assert c == a[..x];
    }
  }

  lemma SubsequenceSnoc(a: seq<AuditEvent>, b: seq<AuditEvent>, ev: AuditEvent)
    requires Subsequence(a, b)
    ensures Subsequence(a + [ev], b + [ev]) && Subsequence(a, b + [ev])
  {
    assert (a + [ev])[..|a|] == a && (b + [ev])[..|b|] == b;
  }

  /** What is on its way to the table, in the order it will get there, after what is there already. */
  function InOrder(p: Path): seq<AuditEvent> {
    p.chain + p.batch + p.queue
  }

  function Contents(p: Path): multiset<AuditEvent> {
    multiset(p.queue) + multiset(p.batch) + multiset(p.chain) + multiset(p.spooled)
  }

  /** Each submitted event is in exactly one place, and none has overtaken another. */
  predicate Conserved(p: Path, submissions: seq<AuditEvent>) {
    && Contents(p) == multiset(submissions)
    && Subsequence(InOrder(p), submissions)
    && |p.queue| <= QUEUE_CAPACITY && |p.batch| <= BATCH_SIZE
  }

  datatype Step = Submit(ev: AuditEvent) | Receive | Close | FlushOne(inserted: bool)

  function Apply(p: Path, step: Step): Path {
    match step
    case Submit(ev) => Submitted(p, ev)
    case Receive => Received(p)
    case Close => Closed(p)
    case FlushOne(inserted) => Flushed(p, inserted)
  }

  function Run(steps: seq<Step>): Path {
    if steps == [] then Path([], [], false, [], []) else Apply(Run(steps[..|steps| - 1]), steps[|steps| - 1])
  }

  function Submissions(steps: seq<Step>): seq<AuditEvent> {
    if steps == [] then []
    else
      var last := steps[|steps| - 1];
      Submissions(steps[..|steps| - 1]) + if last.Submit? then [last.ev] else []
  }

  lemma SubmitAddsOne(p: Path, ev: AuditEvent)
    ensures Contents(Submitted(p, ev)) == Contents(p) + multiset{ev}
  {
    if |p.queue| < QUEUE_CAPACITY {
      assert multiset(p.queue + [ev]) == multiset(p.queue) + multiset{ev};
    } else {
      assert multiset(p.spooled + [ev]) == multiset(p.spooled) + multiset{ev};
    }
  }

  lemma SubmitConserves(p: Path, submissions: seq<AuditEvent>, ev: AuditEvent)
    requires Conserved(p, submissions)
    ensures Conserved(Submitted(p, ev), submissions + [ev])
  {
    hide Subsequence, Contents, InOrder, Submitted;
    SubsequenceSnoc(InOrder(p), submissions, ev);
    SubmitAddsOne(p, ev);
    SubmitGoesLast(p, ev);
    assert multiset(submissions + [ev]) == multiset(submissions) + multiset{ev};
  }

  lemma SubmitGoesLast(p: Path, ev: AuditEvent)
    requires |p.queue| <= QUEUE_CAPACITY
    ensures
      var p' := Submitted(p, ev);
      && InOrder(p') == (if |p.queue| < QUEUE_CAPACITY then InOrder(p) + [ev] else InOrder(p))
      && |p'.queue| <= QUEUE_CAPACITY && p'.batch == p.batch
  {
  }

  lemma ReceiveConserves(p: Path, submissions: seq<AuditEvent>)
    requires Conserved(p, submissions)
    ensures Conserved(Received(p), submissions)
  {
    hide Subsequence;
    var p' := Received(p);
    if p' != p {
      assert p.queue == [p.queue[0]] + p.queue[1..];
      assert multiset(p.queue) == multiset{p.queue[0]} + multiset(p'.queue);
      assert InOrder(p') == InOrder(p);
    }
  }

  lemma FlushKeepsContents(p: Path, inserted: bool)
    ensures Contents(Flushed(p, inserted)) == Contents(p)
  {
    if p.flushing && p.batch != [] {
      assert p.batch == [p.batch[0]] + p.batch[1..];
      assert multiset(p.batch) == multiset{p.batch[0]} + multiset(p.batch[1..]);
    }
  }

  lemma FlushKeepsOrder(p: Path, submissions: seq<AuditEvent>, inserted: bool)
    requires Subsequence(InOrder(p), submissions)
    ensures Subsequence(InOrder(Flushed(p, inserted)), submissions)
  {
    hide Subsequence, InOrder;
    if p.flushing && p.batch != [] {
      FlushedOrder(p, inserted);
      if !inserted {
        SubsequenceDrop(InOrder(p), submissions, |p.chain|);
      }
    }
  }

  lemma FlushedOrder(p: Path, inserted: bool)
    requires p.flushing && p.batch != []
    ensures |p.chain| < |InOrder(p)|
    ensures InOrder(Flushed(p, inserted)) ==
            if inserted then InOrder(p) else InOrder(p)[..|p.chain|] + InOrder(p)[|p.chain| + 1..]
  {
    FlushOneSorts(p, inserted);
    hide Flushed;
    MovedOver(p.chain, p.batch, p.queue);
    DroppedFrom(p.chain, p.batch, p.queue);
    assert p.chain + [] == p.chain;
  }

  lemma MovedOver(a: seq<AuditEvent>, b: seq<AuditEvent>, c: seq<AuditEvent>)
    requires b != []
    ensures a + [b[0]] + b[1..] + c == a + b + c
  {
    assert [b[0]] + b[1..] == b;
  }

  lemma DroppedFrom(a: seq<AuditEvent>, b: seq<AuditEvent>, c: seq<AuditEvent>)
    requires b != []
    ensures
      var all := a + b + c;
      |a| < |all| && a + b[1..] + c == all[..|a|] + all[|a| + 1..]
  {
    var all := a + b + c;
    assert all[..|a|] == a && all[|a| + 1..] == b[1..] + c;
  }

  lemma StepConserves(p: Path, submissions: seq<AuditEvent>, step: Step)
    requires Conserved(p, submissions)
    ensures Conserved(Apply(p, step), submissions + if step.Submit? then [step.ev] else [])
  {
    hide Subsequence, Contents;
    match step
    case Submit(ev) => SubmitConserves(p, submissions, ev);
    case Receive =>
      ReceiveConserves(p, submissions);
      assert submissions + [] == submissions;
    case Close =>
      CloseConserves(p, submissions);
      assert submissions + [] == submissions;
    case FlushOne(inserted) =>
      FlushKeepsContents(p, inserted);
      FlushKeepsOrder(p, submissions, inserted);
      assert submissions + [] == submissions;
  }

  lemma CloseConserves(p: Path, submissions: seq<AuditEvent>)
    requires Conserved(p, submissions)
    ensures Conserved(Closed(p), submissions)
  {
    hide Subsequence;
    assert InOrder(Closed(p)) == InOrder(p);
  }

  /** Over every run, each submitted event is in exactly one of queue, batch, main chain and dead-letter
      file, and the bounds hold. */
  lemma {:induction false} EveryEventIsAccountedFor(steps: seq<Step>)
    ensures Conserved(Run(steps), Submissions(steps))
  {
    hide Conserved, Apply;
    if steps == [] {
      NothingYet();
    } else {
      var k := |steps| - 1;
      EveryEventIsAccountedFor(steps[..k]);
      StepConserves(Run(steps[..k]), Submissions(steps[..k]), steps[k]);
    }
  }

  lemma NothingYet()
    ensures Conserved(Run([]), Submissions([]))
  {
    assert InOrder(Run([])) == [];
  }

  /** The main chain has its low-risk events in submission order. */
  lemma {:induction false} ChainKeepsSubmissionOrder(steps: seq<Step>)
    ensures Subsequence(Run(steps).chain, Submissions(steps))
  {
    hide Subsequence, Run, Submissions;
    EveryEventIsAccountedFor(steps);
    var p := Run(steps);
    SubsequencePrefix(InOrder(p), Submissions(steps), |p.chain|);
    assert InOrder(p)[..|p.chain|] == p.chain;
  }

  lemma {:induction false} SubsequencePrefix(a: seq<AuditEvent>, b: seq<AuditEvent>, n: nat)
    requires n <= |a| && Subsequence(a, b)
    ensures Subsequence(a[..n], b)
    decreases |a|
  {
    if n == |a| {
      assert a[..n] == a;
    } else {
      SubsequenceDrop(a, b, |a| - 1);
      assert a[..|a| - 1] + a[|a|..] == a[..|a| - 1];
      SubsequencePrefix(a[..|a| - 1], b, n);
      assert a[..|a| - 1][..n] == a[..n];
    }
  }
}
