/** Pending actions and their one-time confirmation. */
module Actions {
  import opened Bytes
  import opened Verdicts

  const ACTION_TTL_SECS: int := 30

  /** The parts of a verdict that confirming reads or rewrites. */
  datatype Verdict = Verdict(
    actionId: Option<Bytes>,
    action: SafetyAction,
    risk: RiskLevel,
    reason: Bytes,
    requiresApproval: bool)

  /** A row of the pending table. The verdict is stored as text and may not be readable; the risk column is
      stored beside it. */
  datatype Pending = Pending(
    verdict: Option<Verdict>,
    risk: int,
    created: int,
    consumed: bool,
    ttl: int,
    tenant: Bytes)

  /** The audit row of a confirmation. */
  datatype ConfirmRow = ConfirmRow(id: Bytes, tenant: Bytes, approvedBy: Bytes, trigger: Bytes, verdict: Verdict, approved: bool)

  datatype State = State(pending: map<Bytes, Pending>, rows: seq<ConfirmRow>)

  datatype Request = Request(id: Bytes, approved: bool, approvedBy: Bytes, tenant: Bytes)

  /** How the transaction ends once every check has passed. */
  datatype Fate = Commits | AuditInsertFails | StopsBeforeCommit

  datatype Outcome =
    | Confirmed(verdict: Verdict)
    | NotFound
    | Unreadable
    | AbsoluteBlock
    | RiskTampered
    | CrossTenant
    | Consumed
    | Expired
    | AuditFailed
    | Stopped

  // --- What the operations do ---

  predicate IsExpired(p: Pending, now: int) {
    p.created + p.ttl < now
  }

  function Put(s: State, v: Verdict, tenant: Bytes, now: int): State {
    if v.actionId.None? then s
    else s.(pending := s.pending[v.actionId.value := Pending(Some(v), v.risk.Rank(), now, false, ACTION_TTL_SECS, tenant)])
  }

  function Decided(v: Verdict, r: Request, approvedBy: Bytes -> Bytes, rejectedBy: Bytes -> Bytes): Verdict {
    if r.approved then v.(action := Allow, reason := approvedBy(r.approvedBy), requiresApproval := false)
    else v.(action := Block, reason := rejectedBy(r.approvedBy), requiresApproval := false)
  }

  /** The two reason texts, as functions of who decided. */
  datatype Wording = Wording(approvedBy: Bytes -> Bytes, rejectedBy: Bytes -> Bytes)

  function OutcomeOf(w: Wording, s: State, r: Request, now: int, fate: Fate): Outcome {
    if r.id !in s.pending then NotFound
    else
      var p := s.pending[r.id];
      if p.verdict.None? then Unreadable
      else if p.risk == L4.Rank() then AbsoluteBlock
      else if p.risk != p.verdict.value.risk.Rank() then RiskTampered
      else if p.tenant != r.tenant then CrossTenant
      else if p.consumed then Consumed
      else if IsExpired(p, now) then Expired
      else
        match fate
        case AuditInsertFails => AuditFailed
        case StopsBeforeCommit => Stopped
        case Commits => Confirmed(Decided(p.verdict.value, r, w.approvedBy, w.rejectedBy))
  }

  function AfterConfirm(w: Wording, s: State, r: Request, now: int, fate: Fate): State {
    var outcome := OutcomeOf(w, s, r, now, fate);
    if !outcome.Confirmed? then s
    else
      var p := s.pending[r.id];
      State(
        s.pending[r.id := p.(consumed := true)],
        s.rows + [ConfirmRow(r.id, r.tenant, r.approvedBy, p.verdict.value.reason, outcome.verdict, r.approved)])
  }

  function Evicted(s: State, now: int): State {
    s.(pending := map id | id in s.pending && !IsExpired(s.pending[id], now) :: s.pending[id])
  }

  /** Something other than this store rewrites the risk column. */
  function RiskAltered(s: State, id: Bytes, risk: int): State {
    if id in s.pending then s.(pending := s.pending[id := s.pending[id].(risk := risk)]) else s
  }

  class ActionStore {
    const wording: Wording
    var pending: map<Bytes, Pending>
    var rows: seq<ConfirmRow>

    constructor (w: Wording)
      ensures Abstract() == State(map[], []) && wording == w
    {
      wording, pending, rows := w, map[], [];
    }

    ghost function Abstract(): State
      reads this
    {
      State(pending, rows)
    }

    method PutAction(v: Verdict, tenant: Bytes, now: int)
      modifies this`pending
      ensures Abstract() == Put(old(Abstract()), v, tenant, now)
    {
      match v.actionId
      case None =>
      case Some(id) =>
        pending := pending[id := Pending(Some(v), v.risk.Rank(), now, false, ACTION_TTL_SECS, tenant)];
    }

    /** The checks, then the audit row, then the consumed flag, all in one transaction: the fields change
        only when it commits. */
    method ConfirmAtomic(r: Request, now: int, fate: Fate) returns (outcome: Outcome)
      modifies this`pending, this`rows
      ensures outcome == OutcomeOf(wording, old(Abstract()), r, now, fate)
      ensures Abstract() == AfterConfirm(wording, old(Abstract()), r, now, fate)
    {
      var txPending, txRows := pending, rows;
      if r.id !in txPending {
        return NotFound;
      }
      var p := txPending[r.id];
      if p.verdict.None? {
        return Unreadable;
      }
      var verdict := p.verdict.value;
      if p.risk == L4.Rank() {
        return AbsoluteBlock;
      }
      if p.risk != verdict.risk.Rank() {
        return RiskTampered;
      }
      if p.tenant != r.tenant {
        return CrossTenant;
      }
      if p.consumed {
        return Consumed;
      }
      if IsExpired(p, now) {
        return Expired;
      }
      var trigger := verdict.reason;
      if r.approved {
        verdict := verdict.(action := Allow, reason := wording.approvedBy(r.approvedBy), requiresApproval := false);
      } else {
        verdict := verdict.(action := Block, reason := wording.rejectedBy(r.approvedBy), requiresApproval := false);
      }
      if fate.AuditInsertFails? {
        return AuditFailed;
      }
      txRows := txRows + [ConfirmRow(r.id, r.tenant, r.approvedBy, trigger, verdict, r.approved)];
      txPending := txPending[r.id := p.(consumed := true)];
      if fate.StopsBeforeCommit? {
        return Stopped;
      }
      pending, rows := txPending, txRows;
      return Confirmed(verdict);
    }

    method EvictExpired(now: int) returns (evicted: nat)
      modifies this`pending
      ensures Abstract() == Evicted(old(Abstract()), now)
      ensures evicted == |old(pending)| - |pending|
      ensures forall id :: id in pending <==> id in old(pending) && now <= old(pending)[id].created + old(pending)[id].ttl
      ensures forall id :: id in pending ==> pending[id] == old(pending)[id]
    {
      var before := pending;
      pending := map id | id in pending && !IsExpired(pending[id], now) :: pending[id];
      FewerKeys(before, pending);
      evicted := |before| - |pending|;
    }
  }

  lemma FewerKeys(a: map<Bytes, Pending>, b: map<Bytes, Pending>)
    requires b.Keys <= a.Keys
    ensures |b| <= |a|
  {
    assert a.Keys == b.Keys + (a.Keys - b.Keys);
    assert |a.Keys| == |b.Keys| + |a.Keys - b.Keys|;
  }

  // --- Runs ---

  datatype Step =
    | PutStep(verdict: Verdict, tenant: Bytes, now: int)
    | ConfirmStep(request: Request, now: int, fate: Fate)
    | EvictStep(now: int)
    | AlterRiskStep(id: Bytes, risk: int, now: int)

  function Apply(w: Wording, s: State, step: Step): State {
    match step
    case PutStep(v, tenant, now) => Put(s, v, tenant, now)
    case ConfirmStep(r, now, fate) => AfterConfirm(w, s, r, now, fate)
    case EvictStep(now) => Evicted(s, now)
    case AlterRiskStep(id, risk, _) => RiskAltered(s, id, risk)
  }

  function Run(w: Wording, steps: seq<Step>): State {
    if steps == [] then State(map[], []) else Apply(w, Run(w, steps[..|steps| - 1]), steps[|steps| - 1])
  }

  /** The reference: the same operations on a table that never forgets a row. */
  function Ledger(w: Wording, steps: seq<Step>): State {
    if steps == [] then State(map[], [])
    else
      var s, step := Ledger(w, steps[..|steps| - 1]), steps[|steps| - 1];
      if step.EvictStep? then s else Apply(w, s, step)
  }

  /** The clock does not go back. */
  predicate Clocked(steps: seq<Step>) {
    |steps| < 2 || (steps[|steps| - 2].now <= steps[|steps| - 1].now && Clocked(steps[..|steps| - 1]))
  }

  /** The table is the ledger without some rows that have expired. */
  predicate Faithful(s: State, ledger: State, now: int) {
    && s.rows == ledger.rows
    && (forall id :: id in s.pending ==> id in ledger.pending && s.pending[id] == ledger.pending[id])
    && (forall id :: id in ledger.pending && id !in s.pending ==> IsExpired(ledger.pending[id], now))
  }

  lemma StepStaysFaithful(w: Wording, s: State, ledger: State, earlier: int, step: Step)
    requires Faithful(s, ledger, earlier) && earlier <= step.now
    ensures Faithful(Apply(w, s, step), if step.EvictStep? then ledger else Apply(w, ledger, step), step.now)
  {
    if step.ConfirmStep? {
      ConfirmStaysFaithful(w, s, ledger, earlier, step.request, step.now, step.fate);
    }
  }

  lemma ConfirmStaysFaithful(w: Wording, s: State, ledger: State, earlier: int, r: Request, now: int, fate: Fate)
    requires Faithful(s, ledger, earlier) && earlier <= now
    ensures Faithful(AfterConfirm(w, s, r, now, fate), AfterConfirm(w, ledger, r, now, fate), now)
  {
  }

  lemma {:induction false} RunIsFaithful(w: Wording, steps: seq<Step>)
    requires Clocked(steps) && steps != []
    ensures Faithful(Run(w, steps), Ledger(w, steps), steps[|steps| - 1].now)
  {
    hide Faithful, Apply;
    var k := |steps| - 1;
    if k == 0 {
      EmptyIsFaithful(steps[0].now);
      assert steps[..k] == [];
      StepStaysFaithful(w, State(map[], []), State(map[], []), steps[0].now, steps[0]);
    } else {
      RunIsFaithful(w, steps[..k]);
      StepStaysFaithful(w, Run(w, steps[..k]), Ledger(w, steps[..k]), steps[k - 1].now, steps[k]);
    }
  }

  lemma EmptyIsFaithful(now: int)
    ensures Faithful(State(map[], []), State(map[], []), now)
  {
  }

  /** What a confirmation needs, told from the ledger. */
  predicate Open(ledger: State, r: Request, now: int) {
    r.id in ledger.pending &&
    var p := ledger.pending[r.id];
    && p.verdict.Some?
    && p.verdict.value.risk != L4
    && p.risk == p.verdict.value.risk.Rank()
    && p.tenant == r.tenant
    && !p.consumed
    && now <= p.created + p.ttl
  }

  /** A confirmation succeeds exactly when its transaction commits and the ledger has the action open, so
      no eviction anywhere in the run has a say. */
  lemma {:induction false} ConfirmSucceedsExactly(w: Wording, steps: seq<Step>, r: Request, now: int, fate: Fate)
    requires Clocked(steps + [ConfirmStep(r, now, fate)])
    ensures OutcomeOf(w, Run(w, steps), r, now, fate).Confirmed? <==> fate.Commits? && Open(Ledger(w, steps), r, now)
  {
    var all := steps + [ConfirmStep(r, now, fate)];
    assert all[..|all| - 1] == steps;
    if steps != [] {
      assert all[|all| - 2] == steps[|steps| - 1];
      RunIsFaithful(w, steps);
    }
  }

  function WithoutEvictions(steps: seq<Step>): seq<Step> {
    if steps == [] then []
    else
      var last := steps[|steps| - 1];
      WithoutEvictions(steps[..|steps| - 1]) + if last.EvictStep? then [] else [last]
  }

  lemma {:induction false} LedgerIgnoresEvictions(w: Wording, steps: seq<Step>)
    ensures Ledger(w, steps) == Ledger(w, WithoutEvictions(steps))
  {
    hide Apply;
    if steps != [] {
      var k := |steps| - 1;
      LedgerIgnoresEvictions(w, steps[..k]);
      var rest := WithoutEvictions(steps[..k]);
      if steps[k].EvictStep? {
        assert WithoutEvictions(steps) == rest;
      } else {
        assert (rest + [steps[k]])[..|rest|] == rest;
      }
    }
  }

  /** Adding or removing evictions anywhere in a run changes neither the confirmations made nor the next one. */
  lemma {:induction false} EvictionIsInvisible(w: Wording, steps: seq<Step>, steps': seq<Step>, r: Request, now: int, fate: Fate)
    requires Clocked(steps + [ConfirmStep(r, now, fate)]) && Clocked(steps' + [ConfirmStep(r, now, fate)])
    requires WithoutEvictions(steps) == WithoutEvictions(steps')
    ensures Run(w, steps).rows == Run(w, steps').rows
    ensures OutcomeOf(w, Run(w, steps), r, now, fate).Confirmed? <==> OutcomeOf(w, Run(w, steps'), r, now, fate).Confirmed?
  {
    ConfirmSucceedsExactly(w, steps, r, now, fate);
    ConfirmSucceedsExactly(w, steps', r, now, fate);
    LedgerIgnoresEvictions(w, steps);
    LedgerIgnoresEvictions(w, steps');
    RowsAreTheLedgers(w, steps, ConfirmStep(r, now, fate));
    RowsAreTheLedgers(w, steps', ConfirmStep(r, now, fate));
  }

  lemma RowsAreTheLedgers(w: Wording, steps: seq<Step>, next: Step)
    requires Clocked(steps + [next])
    ensures Run(w, steps).rows == Ledger(w, steps).rows
  {
    if steps != [] {
      assert (steps + [next])[..|steps|] == steps;
      RunIsFaithful(w, steps);
    }
  }

  // --- One confirmation per put ---

  function RowsFor(rows: seq<ConfirmRow>, id: Bytes): nat {
    if rows == [] then 0 else RowsFor(rows[..|rows| - 1], id) + if rows[|rows| - 1].id == id then 1 else 0
  }

  function PutsOf(steps: seq<Step>, id: Bytes): nat {
    if steps == [] then 0
    else PutsOf(steps[..|steps| - 1], id) + if IsPut(steps[|steps| - 1], id) then 1 else 0
  }

  predicate IsPut(step: Step, id: Bytes) {
    step.PutStep? && step.verdict.actionId == Some(id)
  }

  lemma ConfirmAddsOneRow(w: Wording, s: State, r: Request, now: int, fate: Fate, id: Bytes)
    ensures RowsFor(AfterConfirm(w, s, r, now, fate).rows, id) ==
            RowsFor(s.rows, id) + if OutcomeOf(w, s, r, now, fate).Confirmed? && r.id == id then 1 else 0
  {
    var s' := AfterConfirm(w, s, r, now, fate);
    if OutcomeOf(w, s, r, now, fate).Confirmed? {
      assert s'.rows[..|s.rows|] == s.rows;
    }
  }

  /** Credit left for an id: puts not yet used up. */
  predicate Accounted(s: State, id: Bytes, puts: nat) {
    && RowsFor(s.rows, id) + (if id in s.pending && !s.pending[id].consumed then 1 else 0) <= puts
    && (id in s.pending && s.pending[id].consumed ==> RowsFor(s.rows, id) > 0)
  }

  lemma StepAccounts(w: Wording, s: State, id: Bytes, puts: nat, step: Step)
    requires Accounted(s, id, puts)
    ensures Accounted(Apply(w, s, step), id, puts + if IsPut(step, id) then 1 else 0)
  {
    if step.ConfirmStep? {
      ConfirmAddsOneRow(w, s, step.request, step.now, step.fate, id);
    }
  }

  lemma {:induction false} RunAccounts(w: Wording, steps: seq<Step>, id: Bytes)
    ensures Accounted(Run(w, steps), id, PutsOf(steps, id))
  {
    hide Accounted, Apply;
    if steps == [] {
      NothingAccounted(id);
    } else {
      var k := |steps| - 1;
      RunAccounts(w, steps[..k], id);
      StepAccounts(w, Run(w, steps[..k]), id, PutsOf(steps[..k], id), steps[k]);
    }
  }

  lemma NothingAccounted(id: Bytes)
    ensures Accounted(State(map[], []), id, 0)
  {
  }

  lemma {:induction false} LedgerAccounts(w: Wording, steps: seq<Step>, id: Bytes)
    ensures Accounted(Ledger(w, steps), id, PutsOf(steps, id))
    ensures PutsOf(steps, id) > 0 ==> id in Ledger(w, steps).pending
  {
    hide Accounted;
    if steps == [] {
      NothingAccounted(id);
    } else {
      var k := |steps| - 1;
      LedgerAccounts(w, steps[..k], id);
      StepAccounts(w, Ledger(w, steps[..k]), id, PutsOf(steps[..k], id), steps[k]);
    }
  }

  /** An id is confirmed at most as often as it was put; put once, it has its row exactly when the stored
      flag says consumed, and, evicted or not, exactly when the ledger's flag says so. Crashes, evictions,
      refused attempts and rewritten risk columns make no difference. */
  lemma {:induction false} ConfirmedAtMostOncePerPut(w: Wording, steps: seq<Step>, id: Bytes)
    ensures RowsFor(Run(w, steps).rows, id) <= PutsOf(steps, id)
    ensures PutsOf(steps, id) <= 1 && id in Run(w, steps).pending ==>
              (Run(w, steps).pending[id].consumed <==> RowsFor(Run(w, steps).rows, id) == 1)
    ensures PutsOf(steps, id) == 1 && Clocked(steps) ==>
              id in Ledger(w, steps).pending
              && (Ledger(w, steps).pending[id].consumed <==> RowsFor(Run(w, steps).rows, id) == 1)
  {
    RunAccounts(w, steps, id);
    LedgerAccounts(w, steps, id);
    if Clocked(steps) && steps != [] {
      RunIsFaithful(w, steps);
    }
  }

  // --- What stands behind a confirmation ---

  /** The put that an entry of the table comes from. */
  function LastPut(steps: seq<Step>, id: Bytes): Option<Step> {
    if steps == [] then None
    else if IsPut(steps[|steps| - 1], id) then Some(steps[|steps| - 1])
    else LastPut(steps[..|steps| - 1], id)
  }

  /** The entry is as it was put, but for its consumed flag and perhaps its risk column. */
  predicate ComesFrom(p: Pending, put: Option<Step>) {
    && put.Some? && put.value.PutStep?
    && p.verdict == Some(put.value.verdict)
    && p.created == put.value.now
    && p.ttl == ACTION_TTL_SECS
    && p.tenant == put.value.tenant
  }

  lemma {:induction false} EntriesComeFromPuts(w: Wording, steps: seq<Step>, id: Bytes)
    requires id in Run(w, steps).pending
    ensures ComesFrom(Run(w, steps).pending[id], LastPut(steps, id))
  {
    if steps != [] {
      var k := |steps| - 1;
      if id in Run(w, steps[..k]).pending {
        EntriesComeFromPuts(w, steps[..k], id);
      }
    }
  }

  /** Whatever happened before, a confirmation that succeeds was put by the same tenant no more than thirty
      seconds ago with a verdict below L4, even if risk columns were rewritten on the way. */
  lemma {:induction false} ConfirmedWasPut(w: Wording, steps: seq<Step>, r: Request, now: int, fate: Fate)
    requires OutcomeOf(w, Run(w, steps), r, now, fate).Confirmed?
    ensures
      var put := LastPut(steps, r.id);
      && put.Some? && IsPut(put.value, r.id)
      && put.value.tenant == r.tenant
      && put.value.verdict.risk != L4
      && now <= put.value.now + 30
  {
    EntriesComeFromPuts(w, steps, r.id);
    LastPutIsPut(steps, r.id);
  }

  lemma {:induction false} LastPutIsPut(steps: seq<Step>, id: Bytes)
    ensures var put := LastPut(steps, id); put.Some? ==> IsPut(put.value, id)
  {
    if steps != [] {
      LastPutIsPut(steps[..|steps| - 1], id);
    }
  }

  /** Neither puts the id anew, nor rewrites its risk column, nor confirms it with success. */
  predicate LeavesOpen(step: Step, id: Bytes) {
    match step
    case PutStep(v, _, _) => v.actionId != Some(id)
    case ConfirmStep(r, _, fate) => r.id != id || !fate.Commits?
    case EvictStep(_) => true
    case AlterRiskStep(other, _, _) => other != id
  }

  lemma {:induction false} EntryStaysOpen(w: Wording, steps: seq<Step>, v: Verdict, tenant: Bytes, now: int, later: seq<Step>)
    requires v.actionId.Some? && forall i :: 0 <= i < |later| ==> LeavesOpen(later[i], v.actionId.value) && later[i].now <= now + 30
    ensures
      var s, id := Run(w, steps + [PutStep(v, tenant, now)] + later), v.actionId.value;
      id in s.pending && s.pending[id] == Pending(Some(v), v.risk.Rank(), now, false, 30, tenant)
  {
    var put := PutStep(v, tenant, now);
    var all := steps + [put] + later;
    if later == [] {
      assert all[..|all| - 1] == steps && all[|all| - 1] == put;
    } else {
      var k := |later| - 1;
      EntryStaysOpen(w, steps, v, tenant, now, later[..k]);
      assert all[..|all| - 1] == steps + [put] + later[..k] && all[|all| - 1] == later[k];
    }
  }

  /** An action below L4 that was put can be confirmed for thirty seconds by its tenant, whatever happened
      before the put and whatever is done to other actions, refused or swept in between. */
  lemma {:induction false} PutCanBeConfirmed(
    w: Wording, steps: seq<Step>, v: Verdict, tenant: Bytes, now: int, later: seq<Step>, r: Request, at: int)
    requires v.actionId == Some(r.id) && v.risk != L4 && r.tenant == tenant && at <= now + 30
    requires forall i :: 0 <= i < |later| ==> LeavesOpen(later[i], r.id) && later[i].now <= now + 30
    ensures
      var outcome := OutcomeOf(w, Run(w, steps + [PutStep(v, tenant, now)] + later), r, at, Commits);
      outcome == Confirmed(
        if r.approved then v.(action := Allow, reason := w.approvedBy(r.approvedBy), requiresApproval := false)
        else v.(action := Block, reason := w.rejectedBy(r.approvedBy), requiresApproval := false))
  {
    hide Run;
    EntryStaysOpen(w, steps, v, tenant, now, later);
  }

  /** A second confirmation is told that the action is used up, by then expired or not. */
  lemma {:induction false} ReplayIsRefused(w: Wording, s: State, r: Request, now: int, again: Request, at: int, fate: Fate)
    requires OutcomeOf(w, s, r, now, Commits).Confirmed? && again.id == r.id && again.tenant == r.tenant
    ensures
      var s' := AfterConfirm(w, s, r, now, Commits);
      OutcomeOf(w, s', again, at, fate) == Consumed && AfterConfirm(w, s', again, at, fate) == s'
  {
  }

  /** A tenant who asks about another's action learns neither whether it is used up nor when it was put: the
      answer is the same for any two states that differ in nothing else, and nothing changes. */
  lemma {:induction false} OtherTenantsLearnNothing(
    w: Wording, s: State, s': State, r: Request, now: int, now': int, fate: Fate, fate': Fate)
    requires r.id in s.pending && r.id in s'.pending && s.pending[r.id].tenant != r.tenant
    requires
      var p, p' := s.pending[r.id], s'.pending[r.id];
      p' == p.(created := p'.created, ttl := p'.ttl, consumed := p'.consumed)
    ensures OutcomeOf(w, s, r, now, fate) == OutcomeOf(w, s', r, now', fate') && !OutcomeOf(w, s, r, now, fate).Confirmed?
    ensures AfterConfirm(w, s, r, now, fate) == s
  {
  }

  /** Every confirm row in the audit log is the trace of such a confirmation. */
  lemma {:induction false} EveryRowWasAllowed(w: Wording, steps: seq<Step>, i: nat) returns (k: nat)
    requires i < |Run(w, steps).rows|
    ensures k < |steps| && steps[k].ConfirmStep?
    ensures OutcomeOf(w, Run(w, steps[..k]), steps[k].request, steps[k].now, steps[k].fate).Confirmed?
    ensures Run(w, steps).rows[..i + 1] == Run(w, steps[..k + 1]).rows
    ensures |Run(w, steps[..k]).rows| == i && Run(w, steps).rows[i].id == steps[k].request.id
  {
    var n := |steps| - 1;
    var before := Run(w, steps[..n]);
    if i < |before.rows| {
      k := EveryRowWasAllowed(w, steps[..n], i);
      assert steps[..n][..k] == steps[..k] && steps[..n][..k + 1] == steps[..k + 1];
    } else {
      k := n;
      assert steps[..k + 1] == steps;
    }
  }

  /** Every confirm row tells of the last put of its id: the same tenant, no more than thirty seconds ago,
      below L4; and of the request that confirmed it: who decided, what was decided and in which words, with
      the very verdict that the caller was given. */
  lemma {:induction false} EveryRowHasItsPut(w: Wording, steps: seq<Step>, i: nat) returns (k: nat)
    requires i < |Run(w, steps).rows|
    ensures k < |steps| && steps[k].ConfirmStep? && steps[k].fate.Commits?
    ensures
      var row, put := Run(w, steps).rows[i], LastPut(steps[..k], Run(w, steps).rows[i].id);
      && put.Some? && IsPut(put.value, row.id)
      && row.tenant == put.value.tenant == steps[k].request.tenant
      && row.trigger == put.value.verdict.reason
      && row.verdict.risk == put.value.verdict.risk != L4
      && row.verdict.action == (if steps[k].request.approved then Allow else Block)
      && row.approvedBy == steps[k].request.approvedBy
      && row.approved == steps[k].request.approved
      && row.verdict.actionId == Some(row.id) == Some(steps[k].request.id)
      && row.verdict.reason == (if row.approved then w.approvedBy(row.approvedBy) else w.rejectedBy(row.approvedBy))
      && !row.verdict.requiresApproval
      && OutcomeOf(w, Run(w, steps[..k]), steps[k].request, steps[k].now, steps[k].fate) == Confirmed(row.verdict)
      && steps[k].now <= put.value.now + 30
  {
    k := EveryRowWasAllowed(w, steps, i);
    hide Run, LastPut;
    var before, r := Run(w, steps[..k]), steps[k].request;
    ConfirmedWasPut(w, steps[..k], r, steps[k].now, steps[k].fate);
    EntriesComeFromPuts(w, steps[..k], r.id);
    RowOfStep(w, steps, k, i);
  }

  lemma RowOfStep(w: Wording, steps: seq<Step>, k: nat, i: nat)
    requires k < |steps| && steps[k].ConfirmStep? && i < |Run(w, steps).rows|
    requires Run(w, steps).rows[..i + 1] == Run(w, steps[..k + 1]).rows
    ensures Run(w, steps).rows[..i + 1] == AfterConfirm(w, Run(w, steps[..k]), steps[k].request, steps[k].now, steps[k].fate).rows
  {
    hide AfterConfirm;
    assert steps[..k + 1][..k] == steps[..k];
  }
}
