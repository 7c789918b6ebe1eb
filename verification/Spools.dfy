/** The dead-letter file with no lock around it: threads that spool at the same time, and reimports that read
    the file, insert its events and empty it while others go on spooling. */
module Spools {
  import opened Bytes
  import opened Payload
  import opened Chain
  import opened DeadLetter
  import opened AuditStore

  /** A spool that has read the last hash of the file and not yet appended its line. */
  datatype Draft = Draft(prev: Bytes, ev: AuditEvent, version: int)

  /** A reimport that has read the file, and whether it has inserted all it read. */
  datatype Import = Import(lines: seq<Line>, inserted: bool)

  /** `table` lists the events reimported so far, `copied` how many lines at the front of the file are among
      them already, and `lost` the events of lines that were emptied out unread. */
  datatype Files = Files(
    file: seq<Line>,
    drafts: map<nat, Draft>,
    imports: map<nat, Import>,
    table: seq<AuditEvent>,
    copied: nat,
    lost: seq<AuditEvent>)

  datatype Step =
    | SpoolRead(t: nat, ev: AuditEvent, version: int)
    | SpoolAppend(t: nat)
    | SpoolFail(t: nat)
    | ImportRead(id: nat)
    | ImportTake(id: nat, n: nat)
    | ImportClear(id: nat)
    | ImportEnd(id: nat)
    | Crash

  /** The hash the next line will name. */
  function Tail(lines: seq<Line>): Bytes {
    if LastHmac(lines) == [] then GENESIS else LastHmac(lines)
  }

  function LineOf(v: Verifier, d: Draft): Line {
    Line(d.prev, v.EventHmac(d.version, PayloadOf(d.ev), d.prev), d.version, Some(d.ev))
  }

  predicate HasEvent(line: Line) {
    line.Line? && line.event.Some? && line.hmac != []
  }

  predicate InTable(table: seq<AuditEvent>, id: Bytes) {
    exists i :: 0 <= i < |table| && table[i].auditId == id
  }

  /** The first of the lines is in the table already, so the table refuses it. */
  predicate Refused(table: seq<AuditEvent>, lines: seq<Line>) {
    lines != [] && HasEvent(lines[0]) && InTable(table, lines[0].event.value.auditId)
  }

  /** A reimport takes lines from the front until one is refused, and never one that is in the table. */
  predicate Enabled(v: Verifier, s: Files, step: Step) {
    match step
    case SpoolRead(t, _, _) => t !in s.drafts
    case SpoolAppend(t) => t in s.drafts
    case SpoolFail(t) => t in s.drafts
    case ImportRead(id) => id !in s.imports && s.file != []
    case ImportTake(id, n) =>
      && id in s.imports && !s.imports[id].inserted && 0 < n <= |s.imports[id].lines|
      && Sound(v, s.imports[id].lines) && !Refused(s.table, s.imports[id].lines)
    case ImportClear(id) => id in s.imports && s.imports[id].inserted
    case ImportEnd(id) => id in s.imports
    case Crash => true
  }

  function Next(v: Verifier, s: Files, step: Step): Files {
    if !Enabled(v, s, step) then s
    else
      match step
      case SpoolRead(t, ev, version) => s.(drafts := s.drafts[t := Draft(Tail(s.file), ev, version)])
      case SpoolAppend(t) => s.(file := s.file + [LineOf(v, s.drafts[t])], drafts := s.drafts - {t})
      case SpoolFail(t) => s.(drafts := s.drafts - {t})
      case ImportRead(id) => s.(imports := s.imports[id := Import(s.file, false)])
      case ImportTake(id, n) =>
        var lines := s.imports[id].lines;
        s.(table := s.table + EventsOfLines(lines[..n]), copied := n,
           imports := if n == |lines| then s.imports[id := Import(lines, true)] else s.imports - {id})
      case ImportClear(id) =>
        var n := |s.imports[id].lines|;
        s.(file := [], copied := 0, imports := s.imports - {id},
           lost := s.lost + if n <= |s.file| then EventsOfLines(s.file[n..]) else [])
      case ImportEnd(id) => s.(imports := s.imports - {id})
      case Crash => s.(drafts := map[], imports := map[])
  }

  const INITIAL: Files := Files([], map[], map[], [], 0, [])

  function Run(v: Verifier, steps: seq<Step>): Files {
    if steps == [] then INITIAL else Next(v, Run(v, steps[..|steps| - 1]), steps[|steps| - 1])
  }

  /** Every step is possible when its turn comes. */
  predicate Legal(v: Verifier, steps: seq<Step>) {
    steps == [] ||
    var k := |steps| - 1;
    Legal(v, steps[..k]) && Enabled(v, Run(v, steps[..k]), steps[k])
  }

  // --- What every step keeps ---

  predicate AllHaveEvents(lines: seq<Line>) {
    forall i :: 0 <= i < |lines| ==> HasEvent(lines[i])
  }

  /** A reimport under way holds the front of the file, unless its first line went into the table since. The
      one that has inserted everything holds exactly the lines that are copied. */
  predicate ImportFits(s: Files, r: Import) {
    && r.lines != [] && AllHaveEvents(r.lines)
    && (if r.inserted then r.lines <= s.file && s.copied == |r.lines| else r.lines <= s.file || Refused(s.table, r.lines))
  }

  /** No two reimports have both inserted what they read. */
  predicate OneInserted(imports: map<nat, Import>) {
    forall a, b :: a in imports && b in imports && imports[a].inserted && imports[b].inserted ==> a == b
  }

  predicate Invariant(s: Files) {
    && AllHaveEvents(s.file) && OneInserted(s.imports)
    && s.copied <= |s.file| && (s.copied > 0 ==> Refused(s.table, s.file))
    && forall id :: id in s.imports ==> ImportFits(s, s.imports[id])
  }

  lemma RefusedStays(table: seq<AuditEvent>, more: seq<AuditEvent>, lines: seq<Line>)
    requires Refused(table, lines)
    ensures Refused(table + more, lines)
  {
    var i :| 0 <= i < |table| && table[i].auditId == lines[0].event.value.auditId;
    assert (table + more)[i] == table[i];
  }

  lemma RefusedPrefix(table: seq<AuditEvent>, a: seq<Line>, b: seq<Line>)
    requires a != [] && a <= b
    ensures Refused(table, a) <==> Refused(table, b)
  {
    assert a[0] == b[0];
  }

  lemma {:induction false} EventsConcat(a: seq<Line>, b: seq<Line>)
    ensures EventsOfLines(a + b) == EventsOfLines(a) + EventsOfLines(b)
  {
    if b == [] {
      assert a + b == a;
    } else {
      assert (a + b)[..|a + b| - 1] == a + b[..|b| - 1];
      EventsConcat(a, b[..|b| - 1]);
    }
  }

  lemma {:induction false} EventsCount(lines: seq<Line>)
    requires AllHaveEvents(lines)
    ensures |EventsOfLines(lines)| == |lines|
  {
    if lines != [] {
      EventsCount(lines[..|lines| - 1]);
    }
  }

  lemma FirstEvent(lines: seq<Line>)
    requires AllHaveEvents(lines) && lines != []
    ensures EventsOfLines(lines) != [] && EventsOfLines(lines)[0] == lines[0].event.value
  {
    hide AllHaveEvents;
    assert lines == lines[..1] + lines[1..];
    EventsConcat(lines[..1], lines[1..]);
    OneEvent(lines);
  }

  lemma OneEvent(lines: seq<Line>)
    requires AllHaveEvents(lines) && lines != []
    ensures EventsOfLines(lines[..1]) == [lines[0].event.value]
  {
    assert lines[..1] == [lines[0]] && lines[..1][..0] == [];
  }

  /** What was taken is refused from then on. */
  lemma TakenIsRefused(table: seq<AuditEvent>, lines: seq<Line>, n: nat)
    requires AllHaveEvents(lines) && 0 < n <= |lines|
    ensures Refused(table + EventsOfLines(lines[..n]), lines)
  {
    var taken := EventsOfLines(lines[..n]);
    FirstEvent(lines[..n]);
    assert (table + taken)[|table|] == lines[0].event.value;
  }

  lemma LineOfHasEvent(v: Verifier, d: Draft)
    ensures HasEvent(LineOf(v, d))
  {
    hide PayloadOf;
  }

  lemma AppendKeeps(v: Verifier, s: Files, t: nat)
    requires Invariant(s) && t in s.drafts
    ensures Invariant(Next(v, s, SpoolAppend(t)))
  {
    hide HasEvent, Refused, LineOf;
    var line := LineOf(v, s.drafts[t]);
    LineOfHasEvent(v, s.drafts[t]);
    if s.copied > 0 {
      RefusedPrefix(s.table, s.file, s.file + [line]);
    }
  }

  lemma TakeKeeps(v: Verifier, s: Files, id: nat, n: nat)
    requires Invariant(s) && Enabled(v, s, ImportTake(id, n))
    ensures Invariant(Next(v, s, ImportTake(id, n)))
    ensures s.copied == 0 && s.imports[id].lines <= s.file
  {
    hide HasEvent, Refused, Sound, EventsOfLines, AllHaveEvents;
    var lines := s.imports[id].lines;
    var s' := Next(v, s, ImportTake(id, n));
    assert ImportFits(s, s.imports[id]);
    RefusedPrefix(s.table, lines, s.file);
    TakenIsRefused(s.table, lines, n);
    RefusedPrefix(s'.table, lines, s.file);
    forall other | other in s'.imports
      ensures ImportFits(s', s'.imports[other])
    {
      var r := s.imports[other];
      assert ImportFits(s, r);
      if other != id && Refused(s.table, r.lines) {
        RefusedStays(s.table, EventsOfLines(lines[..n]), r.lines);
      }
    }
  }

  lemma ClearKeeps(v: Verifier, s: Files, id: nat)
    requires Invariant(s) && Enabled(v, s, ImportClear(id))
    ensures Invariant(Next(v, s, ImportClear(id)))
    ensures s.imports[id].lines <= s.file && s.copied == |s.imports[id].lines|
  {
    hide HasEvent, Refused, EventsOfLines;
    var s' := Next(v, s, ImportClear(id));
    assert ImportFits(s, s.imports[id]);
    forall other | other in s'.imports
      ensures ImportFits(s', s'.imports[other])
    {
      var r := s.imports[other];
      assert ImportFits(s, r);
      if r.lines <= s.file {
        RefusedPrefix(s.table, r.lines, s.file);
      }
    }
  }

  lemma OtherKeeps(v: Verifier, s: Files, step: Step)
    requires Invariant(s) && !step.SpoolAppend? && !step.ImportTake? && !step.ImportClear?
    ensures Invariant(Next(v, s, step))
  {
    hide HasEvent, Refused, EventsOfLines, Sound;
  }

  lemma StepKeeps(v: Verifier, s: Files, step: Step)
    requires Invariant(s)
    ensures Invariant(Next(v, s, step))
  {
    hide Invariant;
    if !Enabled(v, s, step) {
      assert Next(v, s, step) == s;
    } else if step.SpoolAppend? {
      AppendKeeps(v, s, step.t);
    } else if step.ImportTake? {
      TakeKeeps(v, s, step.id, step.n);
    } else if step.ImportClear? {
      ClearKeeps(v, s, step.id);
    } else {
      OtherKeeps(v, s, step);
    }
  }

  lemma {:induction false} RunKeeps(v: Verifier, steps: seq<Step>)
    ensures Invariant(Run(v, steps))
  {
    hide Invariant, Next;
    if steps == [] {
      NothingYet();
    } else {
      RunKeeps(v, steps[..|steps| - 1]);
      StepKeeps(v, Run(v, steps[..|steps| - 1]), steps[|steps| - 1]);
    }
  }

  lemma NothingYet()
    ensures Invariant(INITIAL)
  {
  }

  // --- Conservation ---

  /** The event a step appends to the file. */
  function AppendedBy(v: Verifier, s: Files, step: Step): seq<AuditEvent> {
    if step.SpoolAppend? && Enabled(v, s, step) then [s.drafts[step.t].ev] else []
  }

  /** Everything appended to the file in a run. */
  function Appended(v: Verifier, steps: seq<Step>): seq<AuditEvent> {
    if steps == [] then []
    else
      var k := |steps| - 1;
      Appended(v, steps[..k]) + AppendedBy(v, Run(v, steps[..k]), steps[k])
  }

  /** The table, what is only in the file, and what is lost. */
  function Places(s: Files): multiset<AuditEvent>
    requires s.copied <= |s.file|
  {
    multiset(s.table) + multiset(EventsOfLines(s.file[s.copied..])) + multiset(s.lost)
  }

  lemma AppendAdds(v: Verifier, s: Files, t: nat)
    requires Invariant(s) && t in s.drafts
    ensures
      var s' := Next(v, s, SpoolAppend(t));
      s'.copied <= |s'.file| && Places(s') == Places(s) + multiset{s.drafts[t].ev}
  {
    hide AllHaveEvents, Refused, PayloadOf;
    var line, rest := LineOf(v, s.drafts[t]), s.file[s.copied..];
    assert (s.file + [line])[s.copied..] == rest + [line];
    EventsSnoc(rest, line);
    SnocCount(EventsOfLines(rest), s.drafts[t].ev);
  }

  lemma EventsSnoc(lines: seq<Line>, line: Line)
    requires HasEvent(line)
    ensures EventsOfLines(lines + [line]) == EventsOfLines(lines) + [line.event.value]
  {
    assert (lines + [line])[..|lines|] == lines;
  }

  lemma SnocCount(events: seq<AuditEvent>, ev: AuditEvent)
    ensures multiset(events + [ev]) == multiset(events) + multiset{ev}
  {
  }

  lemma TakeMoves(v: Verifier, s: Files, id: nat, n: nat)
    requires Invariant(s) && Enabled(v, s, ImportTake(id, n))
    ensures
      var s' := Next(v, s, ImportTake(id, n));
      s'.copied <= |s'.file| && Places(s') == Places(s)
  {
    TakeKeeps(v, s, id, n);
    hide AllHaveEvents, Refused, Sound, EventsOfLines, Invariant;
    var lines := s.imports[id].lines;
    assert lines[..n] == s.file[..n] && s.file == s.file[..n] + s.file[n..] && s.file[0..] == s.file;
    EventsConcat(s.file[..n], s.file[n..]);
    MoveCount(s.table, EventsOfLines(s.file[..n]), EventsOfLines(s.file[n..]));
  }

  lemma MoveCount(a: seq<AuditEvent>, b: seq<AuditEvent>, c: seq<AuditEvent>)
    ensures multiset(a + b) + multiset(c) == multiset(a) + multiset(b + c)
  {
  }

  lemma ClearMoves(v: Verifier, s: Files, id: nat)
    requires Invariant(s) && Enabled(v, s, ImportClear(id))
    ensures
      var s' := Next(v, s, ImportClear(id));
      && s'.copied <= |s'.file| && Places(s') == Places(s)
      && s'.lost == s.lost + EventsOfLines(s.file[|s.imports[id].lines|..])
  {
    ClearKeeps(v, s, id);
    hide AllHaveEvents, Refused, Invariant;
    var rest := EventsOfLines(s.file[s.copied..]);
    assert EventsOfLines([]) == [] && multiset(s.lost + rest) == multiset(s.lost) + multiset(rest);
    assert Next(v, s, ImportClear(id)).file[0..] == [];
  }

  lemma StepConserves(v: Verifier, s: Files, step: Step)
    requires Invariant(s)
    ensures
      var s' := Next(v, s, step);
      s'.copied <= |s'.file| && Places(s') == Places(s) + multiset(AppendedBy(v, s, step))
  {
    hide AllHaveEvents, Refused, EventsOfLines, Sound, ImportFits, OneInserted, LineOf;
    if Enabled(v, s, step) {
      if step.SpoolAppend? {
        AppendAdds(v, s, step.t);
      } else if step.ImportTake? {
        TakeMoves(v, s, step.id, step.n);
      } else if step.ImportClear? {
        ClearMoves(v, s, step.id);
      }
    }
  }

  /** Over every run, each event appended to the file is in exactly one of three places: the table, the part of
      the file that the table does not have, or what was emptied out unread. */
  lemma {:induction false} EveryLineIsAccountedFor(v: Verifier, steps: seq<Step>)
    ensures
      var s := Run(v, steps);
      s.copied <= |s.file| && Places(s) == multiset(Appended(v, steps))
  {
    hide Invariant, Next, AppendedBy, Places;
    if steps == [] {
      NothingPlaced();
    } else {
      var k := |steps| - 1;
      EveryLineIsAccountedFor(v, steps[..k]);
      RunKeeps(v, steps[..k]);
      StepConserves(v, Run(v, steps[..k]), steps[k]);
      var a, b := Appended(v, steps[..k]), AppendedBy(v, Run(v, steps[..k]), steps[k]);
      assert multiset(a + b) == multiset(a) + multiset(b);
    }
  }

  lemma NothingPlaced()
    ensures Places(INITIAL) == multiset{}
  {
  }

  // --- When nothing is lost ---

  /** Nothing was appended since this reimport read the file. */
  predicate FreshImport(steps: seq<Step>, id: nat) {
    steps != [] &&
    var last := steps[|steps| - 1];
    last == ImportRead(id) || (!last.SpoolAppend? && FreshImport(steps[..|steps| - 1], id))
  }

  /** No reimport empties the file when something was appended since it read it. */
  predicate Patient(steps: seq<Step>) {
    steps == [] ||
    var k := |steps| - 1;
    Patient(steps[..k]) && (steps[k].ImportClear? ==> FreshImport(steps[..k], steps[k].id))
  }

  /** A reimport that can still go on has read the whole file exactly when nothing was appended since. */
  predicate KnowsFile(s: Files, steps: seq<Step>, id: nat) {
    id in s.imports && (s.imports[id].inserted || !Refused(s.table, s.imports[id].lines)) ==>
      s.imports[id].lines <= s.file && (s.imports[id].lines == s.file <==> FreshImport(steps, id))
  }

  lemma FreshImportNext(before: seq<Step>, step: Step, id: nat)
    ensures FreshImport(before + [step], id) <==> step == ImportRead(id) || (!step.SpoolAppend? && FreshImport(before, id))
  {
    assert (before + [step])[..|before|] == before;
  }

  lemma AppendKnows(v: Verifier, s: Files, before: seq<Step>, t: nat, id: nat)
    requires Invariant(s) && KnowsFile(s, before, id) && t in s.drafts
    ensures KnowsFile(Next(v, s, SpoolAppend(t)), before + [SpoolAppend(t)], id)
  {
    hide AllHaveEvents, Refused, LineOf, FreshImport;
    FreshImportNext(before, SpoolAppend(t), id);
  }

  lemma TakeKnows(v: Verifier, s: Files, before: seq<Step>, other: nat, n: nat, id: nat)
    requires Invariant(s) && KnowsFile(s, before, id) && Enabled(v, s, ImportTake(other, n))
    ensures KnowsFile(Next(v, s, ImportTake(other, n)), before + [ImportTake(other, n)], id)
  {
    FreshImportNext(before, ImportTake(other, n), id);
    TakeKeeps(v, s, other, n);
    hide AllHaveEvents, Refused, Sound, EventsOfLines, FreshImport;
    var s' := Next(v, s, ImportTake(other, n));
    if id in s'.imports && id != other && !s'.imports[id].inserted {
      var r := s.imports[id];
      assert ImportFits(s, r);
      TakenIsRefused(s.table, s.imports[other].lines, n);
      if Refused(s.table, r.lines) {
        RefusedStays(s.table, EventsOfLines(s.imports[other].lines[..n]), r.lines);
      } else {
        SameFront(s'.table, s.imports[other].lines, r.lines, s.file);
      }
    }
  }

  lemma SameFront(table: seq<AuditEvent>, a: seq<Line>, b: seq<Line>, file: seq<Line>)
    requires a != [] && b != [] && a <= file && b <= file && Refused(table, a)
    ensures Refused(table, b)
  {
    assert a[0] == file[0] == b[0];
  }

  lemma ClearKnows(v: Verifier, s: Files, before: seq<Step>, other: nat, id: nat)
    requires Invariant(s) && KnowsFile(s, before, id) && Enabled(v, s, ImportClear(other))
    ensures KnowsFile(Next(v, s, ImportClear(other)), before + [ImportClear(other)], id)
  {
    ClearKeeps(v, s, other);
    FreshImportNext(before, ImportClear(other), id);
    hide AllHaveEvents, Refused, Sound, EventsOfLines, FreshImport;
    var s' := Next(v, s, ImportClear(other));
    if id in s'.imports {
      assert ImportFits(s, s.imports[id]) && ImportFits(s', s'.imports[id]);
    }
  }

  lemma OtherKnows(v: Verifier, s: Files, before: seq<Step>, step: Step, id: nat)
    requires Invariant(s) && KnowsFile(s, before, id) && Enabled(v, s, step)
    requires !step.SpoolAppend? && !step.ImportTake? && !step.ImportClear?
    ensures KnowsFile(Next(v, s, step), before + [step], id)
  {
    hide AllHaveEvents, Refused, Sound, FreshImport, ImportFits;
    FreshImportNext(before, step, id);
  }

  lemma {:induction false} RunKnows(v: Verifier, steps: seq<Step>, id: nat)
    requires Legal(v, steps)
    ensures KnowsFile(Run(v, steps), steps, id)
  {
    if steps != [] {
      hide KnowsFile, Invariant, Next, Enabled;
      var k := |steps| - 1;
      var s, before, step := Run(v, steps[..k]), steps[..k], steps[k];
      assert steps == before + [step];
      RunKnows(v, before, id);
      RunKeeps(v, before);
      if step.SpoolAppend? {
        AppendIsDrafted(v, s, step.t);
        AppendKnows(v, s, before, step.t, id);
      } else if step.ImportTake? {
        TakeKnows(v, s, before, step.id, step.n, id);
      } else if step.ImportClear? {
        ClearKnows(v, s, before, step.id, id);
      } else {
        OtherKnows(v, s, before, step, id);
      }
    }
  }

  lemma AppendIsDrafted(v: Verifier, s: Files, t: nat)
    requires Enabled(v, s, SpoolAppend(t))
    ensures t in s.drafts
  {
  }

  lemma StepLoses(v: Verifier, s: Files, before: seq<Step>, step: Step)
    requires Invariant(s) && Enabled(v, s, step) && (step.ImportClear? ==> KnowsFile(s, before, step.id))
    ensures Next(v, s, step).lost == [] <==> s.lost == [] && (step.ImportClear? ==> FreshImport(before, step.id))
  {
    hide Refused, Sound, FreshImport, EventsOfLines, OneInserted;
    if step.ImportClear? {
      ClearMoves(v, s, step.id);
      var n := |s.imports[step.id].lines|;
      EventsCount(s.file[n..]);
    }
  }

  /** No event is lost exactly when no reimport empties the file after something was appended to what it read. */
  lemma {:induction false} NothingLostExactly(v: Verifier, steps: seq<Step>)
    requires Legal(v, steps)
    ensures Run(v, steps).lost == [] <==> Patient(steps)
  {
    hide Invariant, Next, Enabled, KnowsFile, FreshImport;
    if steps != [] {
      var k := |steps| - 1;
      NothingLostExactly(v, steps[..k]);
      RunKeeps(v, steps[..k]);
      if steps[k].ImportClear? {
        RunKnows(v, steps[..k], steps[k].id);
      }
      StepLoses(v, Run(v, steps[..k]), steps[..k], steps[k]);
    }
  }

  // --- When the file stays sound ---

  /** Where the thread last read the file. */
  function LastRead(steps: seq<Step>, t: nat): Option<nat> {
    if steps == [] then None
    else
      var k := |steps| - 1;
      if steps[k].SpoolRead? && steps[k].t == t then Some(k) else LastRead(steps[..k], t)
  }

  /** The last hash of the file is still the one the thread read. */
  predicate ReadsCurrent(v: Verifier, steps: seq<Step>, t: nat) {
    var read := LastRead(steps, t);
    read.Some? && read.value < |steps| && Tail(Run(v, steps[..read.value]).file) == Tail(Run(v, steps).file)
  }

  /** Since the file was last emptied, every line was appended while the hash its thread had read was still the
      last one. */
  predicate AppendsCurrent(v: Verifier, steps: seq<Step>) {
    steps == [] ||
    var k := |steps| - 1;
    match steps[k]
    case ImportClear(_) => true
    case SpoolAppend(t) => AppendsCurrent(v, steps[..k]) && ReadsCurrent(v, steps[..k], t)
    case _ => AppendsCurrent(v, steps[..k])
  }

  lemma {:induction false} DraftIsOnRecord(v: Verifier, steps: seq<Step>, t: nat)
    requires Legal(v, steps) && t in Run(v, steps).drafts
    ensures
      var read := LastRead(steps, t);
      read.Some? && read.value < |steps| && Run(v, steps).drafts[t].prev == Tail(Run(v, steps[..read.value]).file)
  {
    hide Tail, EventsOfLines, Sound, Refused;
    if steps != [] {
      var k := |steps| - 1;
      if !(steps[k].SpoolRead? && steps[k].t == t) {
        DraftIsOnRecord(v, steps[..k], t);
        var read := LastRead(steps[..k], t).value;
        assert steps[..k][..read] == steps[..read];
      }
    }
  }

  lemma AppendIsSound(v: Verifier, lines: seq<Line>, d: Draft)
    requires AllHaveEvents(lines)
    ensures Sound(v, lines + [LineOf(v, d)]) <==> Sound(v, lines) && d.prev == Tail(lines)
  {
    hide PayloadOf;
    var line := LineOf(v, d);
    assert (lines + [line])[..|lines|] == lines;
    if lines != [] {
      assert HasEvent(lines[|lines| - 1]);
    }
  }

  /** The file checks line for line exactly when, since it was last emptied, every append found the hash its
      thread had read still in place. */
  lemma {:induction false} FileIsSoundExactly(v: Verifier, steps: seq<Step>)
    requires Legal(v, steps)
    ensures Sound(v, Run(v, steps).file) <==> AppendsCurrent(v, steps)
  {
    if steps != [] {
      var k := |steps| - 1;
      var s, step := Run(v, steps[..k]), steps[k];
      FileIsSoundExactly(v, steps[..k]);
      RunKeeps(v, steps[..k]);
      FileAfter(v, s, step);
      hide Sound, Next, Tail, LineOf, Invariant;
      if step.SpoolAppend? {
        HaveEvents(s);
        AppendIsDrafted(v, s, step.t);
        DraftIsOnRecord(v, steps[..k], step.t);
        AppendIsSound(v, s.file, s.drafts[step.t]);
      }
    }
  }

  lemma HaveEvents(s: Files)
    requires Invariant(s)
    ensures AllHaveEvents(s.file)
  {
  }

  lemma FileAfter(v: Verifier, s: Files, step: Step)
    requires Enabled(v, s, step)
    ensures Next(v, s, step).file ==
            if step.ImportClear? then [] else if step.SpoolAppend? then s.file + [LineOf(v, s.drafts[step.t])] else s.file
  {
    hide Sound, Refused, EventsOfLines;
  }

  /** The thread has read the file since anyone last appended to it or emptied it. */
  predicate FreshSpool(steps: seq<Step>, t: nat) {
    steps != [] &&
    var last := steps[|steps| - 1];
    (last.SpoolRead? && last.t == t) || (!last.SpoolAppend? && !last.ImportClear? && FreshSpool(steps[..|steps| - 1], t))
  }

  /** No spool is overtaken between its read and its append. */
  predicate Undisturbed(steps: seq<Step>) {
    steps == [] ||
    var k := |steps| - 1;
    Undisturbed(steps[..k]) && (steps[k].SpoolAppend? ==> FreshSpool(steps[..k], steps[k].t))
  }

  lemma {:induction false} FreshIsCurrent(v: Verifier, steps: seq<Step>, t: nat)
    requires Legal(v, steps) && FreshSpool(steps, t)
    ensures ReadsCurrent(v, steps, t)
  {
    hide Tail, EventsOfLines, Sound, Refused, Next;
    var k := |steps| - 1;
    FileAfter(v, Run(v, steps[..k]), steps[k]);
    if !(steps[k].SpoolRead? && steps[k].t == t) {
      FreshIsCurrent(v, steps[..k], t);
      var read := LastRead(steps[..k], t).value;
      assert steps[..k][..read] == steps[..read];
    }
  }

  lemma {:induction false} UndisturbedIsCurrent(v: Verifier, steps: seq<Step>)
    requires Legal(v, steps) && Undisturbed(steps)
    ensures AppendsCurrent(v, steps)
  {
    hide Enabled, Next, ReadsCurrent, FreshSpool;
    if steps != [] {
      var k := |steps| - 1;
      UndisturbedIsCurrent(v, steps[..k]);
      if steps[k].SpoolAppend? {
        FreshIsCurrent(v, steps[..k], steps[k].t);
      }
    }
  }

  /** Spools that do not overtake one another leave a file that checks line for line, whatever reimports do. */
  lemma {:induction false} UndisturbedSpoolsStaySound(v: Verifier, steps: seq<Step>)
    requires Legal(v, steps) && Undisturbed(steps)
    ensures Sound(v, Run(v, steps).file)
  {
    hide *;
    UndisturbedIsCurrent(v, steps);
    FileIsSoundExactly(v, steps);
  }

  // --- The two failing runs ---

  /** Two threads read an empty file and both append: the second line names genesis again. The file does not
      check, and every reimport of it is refused. */
  lemma {:induction false} RacingSpoolsBreakTheFile(v: Verifier, a: AuditEvent, b: AuditEvent, version: int, store: State)
    requires v.EventHmac(version, PayloadOf(a), GENESIS) != GENESIS
    ensures
      var s := Run(v, [SpoolRead(0, a, version), SpoolRead(1, b, version), SpoolAppend(0), SpoolAppend(1)]);
      && |s.file| == 2 && !Sound(v, s.file)
      && Reimported(v, store.(deadLetter := s.file)) == (store.(deadLetter := s.file), None)
  {
    hide PayloadOf, Sound;
    var s0 := INITIAL;
    var d, e := Draft(GENESIS, a, version), Draft(GENESIS, b, version);
    var s1 := s0.(drafts := map[0 := d]);
    var s2 := s0.(drafts := map[0 := d, 1 := e]);
    var s3 := s0.(file := [LineOf(v, d)], drafts := map[1 := e]);
    var s4 := s0.(file := [LineOf(v, d), LineOf(v, e)], drafts := map[]);
    assert Next(v, s0, SpoolRead(0, a, version)) == s1;
    assert Next(v, s1, SpoolRead(1, b, version)) == s2;
    assert Next(v, s2, SpoolAppend(0)) == s3 by {
      assert s2.drafts - {0} == map[1 := e] && [] + [LineOf(v, d)] == [LineOf(v, d)];
    }
    assert Next(v, s3, SpoolAppend(1)) == s4 by {
      assert s3.drafts - {1} == map[] && [LineOf(v, d)] + [LineOf(v, e)] == [LineOf(v, d), LineOf(v, e)];
    }
    RunFour(v, SpoolRead(0, a, version), SpoolRead(1, b, version), SpoolAppend(0), SpoolAppend(1));
    LineOfHasEvent(v, d);
    assert [LineOf(v, d)] + [LineOf(v, e)] == s4.file;
    AppendIsSound(v, [LineOf(v, d)], e);
  }

  lemma RunFour(v: Verifier, a: Step, b: Step, c: Step, d: Step)
    ensures Run(v, [a, b, c, d]) == Next(v, Next(v, Next(v, Next(v, INITIAL, a), b), c), d)
  {
    hide Next, Run;
    RunNone(v);
    Snocs(a, b, c, d);
    RunSnoc(v, [], a);
    RunSnoc(v, [a], b);
    RunSnoc(v, [a, b], c);
    RunSnoc(v, [a, b, c], d);
  }

  lemma RunNone(v: Verifier)
    ensures Run(v, []) == INITIAL
  {
  }

  lemma Snocs<T>(a: T, b: T, c: T, d: T)
    ensures [] + [a] == [a] && [a] + [b] == [a, b] && [a, b] + [c] == [a, b, c] && [a, b, c] + [d] == [a, b, c, d]
  {
  }

  lemma RunSnoc(v: Verifier, steps: seq<Step>, step: Step)
    ensures Run(v, steps + [step]) == Next(v, Run(v, steps), step)
  {
    hide Next;
    assert (steps + [step])[..|steps|] == steps;
  }

  /** One event spooled, a reimport reads it, another is spooled, the reimport inserts and empties the file: the
      second event is in no table and no file. */
  lemma {:induction false} LateSpoolIsLost(v: Verifier, a: AuditEvent, b: AuditEvent, version: int)
    ensures
      var steps := [SpoolRead(0, a, version), SpoolAppend(0), ImportRead(0), SpoolRead(1, b, version)]
                   + [SpoolAppend(1), ImportTake(0, 1), ImportClear(0)];
      Run(v, steps) == INITIAL.(table := [a], lost := [b])
  {
    hide PayloadOf;
    var first := [SpoolRead(0, a, version), SpoolAppend(0), ImportRead(0), SpoolRead(1, b, version)];
    var d := Draft(GENESIS, a, version);
    var l := LineOf(v, d);
    var e := Draft(Tail([l]), b, version);
    var m := LineOf(v, e);
    var i := Import([l], false);
    LateFirst(v, a, b, version);
    var s4 := INITIAL.(file := [l], imports := map[0 := i], drafts := map[1 := e]);
    var s5 := INITIAL.(file := [l, m], imports := map[0 := i]);
    var s6 := s5.(table := [a], copied := 1, imports := map[0 := Import([l], true)]);
    var s7 := INITIAL.(table := [a], lost := [b]);
    RunSnoc(v, first, SpoolAppend(1));
    RunSnoc(v, first + [SpoolAppend(1)], ImportTake(0, 1));
    RunSnoc(v, first + [SpoolAppend(1)] + [ImportTake(0, 1)], ImportClear(0));
    assert first + [SpoolAppend(1)] + [ImportTake(0, 1)] + [ImportClear(0)] == first + [SpoolAppend(1), ImportTake(0, 1), ImportClear(0)];
    assert Next(v, s4, SpoolAppend(1)) == s5 by {
      assert s4.drafts - {1} == map[] && [l] + [m] == [l, m];
    }
    LateTake(v, s5, s6, l, a);
    LateClear(v, s6, s7, l, m, b);
  }

  lemma LateFirst(v: Verifier, a: AuditEvent, b: AuditEvent, version: int)
    ensures
      var l := LineOf(v, Draft(GENESIS, a, version));
      Run(v, [SpoolRead(0, a, version), SpoolAppend(0), ImportRead(0), SpoolRead(1, b, version)])
      == INITIAL.(file := [l], imports := map[0 := Import([l], false)], drafts := map[1 := Draft(Tail([l]), b, version)])
  {
    hide LineOf;
    var d := Draft(GENESIS, a, version);
    var l := LineOf(v, d);
    var s1 := INITIAL.(drafts := map[0 := d]);
    assert Next(v, INITIAL, SpoolRead(0, a, version)) == s1;
    assert Next(v, s1, SpoolAppend(0)) == INITIAL.(file := [l]) by {
      assert s1.drafts - {0} == map[] && [] + [l] == [l];
    }
    RunFour(v, SpoolRead(0, a, version), SpoolAppend(0), ImportRead(0), SpoolRead(1, b, version));
  }

  lemma LateTake(v: Verifier, s: Files, s': Files, l: Line, a: AuditEvent)
    requires l.Line? && l == LineOf(v, Draft(GENESIS, a, l.keyVersion)) && s.imports == map[0 := Import([l], false)] && s.table == []
    requires s' == s.(table := [a], copied := 1, imports := map[0 := Import([l], true)])
    ensures Next(v, s, ImportTake(0, 1)) == s'
  {
    var d := Draft(GENESIS, a, l.keyVersion);
    LineOfHasEvent(v, d);
    AppendIsSound(v, [], d);
    EventsSnoc([], l);
    assert Sound(v, []) && EventsOfLines([]) == [];
    hide Sound, EventsOfLines;
    assert [l][..1] == [l] && [] + [l] == [l] && [] + [a] == [a];
  }

  lemma LateClear(v: Verifier, s: Files, s': Files, l: Line, m: Line, b: AuditEvent)
    requires HasEvent(m) && m.event.value == b && s.file == [l, m] && s.imports == map[0 := Import([l], true)] && s.lost == []
    requires s' == s.(file := [], copied := 0, imports := map[], lost := [b])
    ensures Next(v, s, ImportClear(0)) == s'
  {
    assert [l, m][1..] == [m] && [m][..0] == [];
    assert EventsOfLines([m]) == [b];
    assert s.imports - {0} == map[] && [] + [b] == [b];
  }
}
