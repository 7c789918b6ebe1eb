/** The rule engine: rules and compiled patterns in memory, a copy on disk, and the verdict chosen from hits. */
module Rules {
  import opened Bytes
  import opened Verdicts

  datatype Scope = Command | Content | Network | Filesystem

  datatype Rule = Rule(
    name: string,
    pattern: string,
    stage: CheckStage,
    action: SafetyAction,
    risk: RiskLevel,
    reason: string,
    scope: Scope)

  /** The regular expression library: which patterns compile, and the first match in a text. */
  datatype Matcher = Matcher(compiles: string -> bool, find: (string, string) -> Option<string>)

  datatype Memory = Memory(rules: seq<Rule>, compiled: seq<string>, epoch: nat)

  datatype Result = Done(epoch: nat) | BadPattern | NotFound | Duplicate | StoreFailed

  // --- The engine in memory ---

  /** Index of the first rule of that name, or the number of rules. */
  function Position(rules: seq<Rule>, name: string): (at: nat)
    ensures at <= |rules|
    ensures at < |rules| ==> rules[at].name == name
    ensures forall i :: 0 <= i < at ==> rules[i].name != name
  {
    if rules == [] || rules[0].name == name then 0 else 1 + Position(rules[1..], name)
  }

  predicate Has(rules: seq<Rule>, name: string) {
    Position(rules, name) < |rules|
  }

  function EngineAdd(x: Matcher, m: Memory, rule: Rule): (Memory, Result) {
    if !x.compiles(rule.pattern) then (m, BadPattern)
    else if Has(m.rules, rule.name) then (m, Duplicate)
    else (Memory(m.rules + [rule], m.compiled + [rule.pattern], m.epoch + 1), Done(m.epoch + 1))
  }

  function EngineUpdate(x: Matcher, m: Memory, name: string, rule: Rule): (Memory, Result)
    requires |m.compiled| == |m.rules|
  {
    var at := Position(m.rules, name);
    if !x.compiles(rule.pattern) then (m, BadPattern)
    else if at == |m.rules| then (m, NotFound)
    else (Memory(m.rules[at := rule], m.compiled[at := rule.pattern], m.epoch + 1), Done(m.epoch + 1))
  }

  function EngineRemove(m: Memory, name: string): (Memory, Result)
    requires |m.compiled| == |m.rules|
  {
    var at := Position(m.rules, name);
    if at == |m.rules| then (m, NotFound)
    else (Memory(Without(m.rules, at), Without(m.compiled, at), m.epoch + 1), Done(m.epoch + 1))
  }

  function Without<T>(s: seq<T>, at: nat): seq<T>
    requires at < |s|
  {
    s[..at] + s[at + 1..]
  }

  /** Each compiled pattern is that of the rule beside it. */
  predicate Aligned(x: Matcher, m: Memory) {
    && |m.compiled| == |m.rules|
    && forall i :: 0 <= i < |m.rules| ==> m.compiled[i] == m.rules[i].pattern && x.compiles(m.rules[i].pattern)
  }

  // --- The engine and the disk ---

  datatype State = State(memory: Memory, disk: map<string, Rule>, diskEpoch: nat)

  /** How a write to the store ends. Each changes its row and then records the change in the mutation log,
      as two statements: the second can fail after the first has taken effect. */
  datatype Write = Whole | Half | Nothing
  {
    predicate TakesEffect() {
      this != Nothing
    }
  }

  /** The writes of one call: the first one, the delete of an old name, the delete that takes a failed call
      back, and the epoch. */
  datatype Writes = Writes(first: Write, rename: Write, undo: Write, epoch: Write)

  const ALL_WRITTEN: Writes := Writes(Whole, Whole, Whole, Whole)

  function Saved(disk: map<string, Rule>, rule: Rule, w: Write): map<string, Rule> {
    if w.TakesEffect() then disk[rule.name := rule] else disk
  }

  function Dropped(disk: map<string, Rule>, name: string, w: Write): map<string, Rule> {
    if w.TakesEffect() then disk - {name} else disk
  }

  function EpochOnDisk(before: nat, after: nat, w: Write): nat {
    if w.TakesEffect() then after else before
  }

  /** Save to disk, then to memory, then the epoch. A save that fails ends the call, whatever it left on disk;
      a failure in memory takes the disk row away again, and a failed epoch takes both away. */
  function AddRule(x: Matcher, s: State, rule: Rule, w: Writes): (State, Result)
    requires |s.memory.compiled| == |s.memory.rules|
  {
    var saved := Saved(s.disk, rule, w.first);
    if !w.first.Whole? then (s.(disk := saved), StoreFailed)
    else
      var undone := Dropped(saved, rule.name, w.undo);
      var (memory, r) := EngineAdd(x, s.memory, rule);
      if !r.Done? then (s.(disk := undone), r)
      else
        var epoch := EpochOnDisk(s.diskEpoch, r.epoch, w.epoch);
        if w.epoch.Whole? then (State(memory, saved, epoch), r)
        else (State(EngineRemove(memory, rule.name).0, undone, epoch), StoreFailed)
  }

  /** Save the new row, delete the old name, then memory, then the epoch; a failure in memory deletes a new
      name and restores nothing. */
  function UpdateRule(x: Matcher, s: State, name: string, rule: Rule, w: Writes): (State, Result)
    requires |s.memory.compiled| == |s.memory.rules|
  {
    var saved := Saved(s.disk, rule, w.first);
    if !w.first.Whole? then (s.(disk := saved), StoreFailed)
    else
      var renamed := if name != rule.name then Dropped(saved, name, w.rename) else saved;
      var (memory, r) := EngineUpdate(x, s.memory, name, rule);
      if !r.Done? then (s.(disk := if name != rule.name then Dropped(renamed, rule.name, w.undo) else renamed), r)
      else
        (State(memory, renamed, EpochOnDisk(s.diskEpoch, r.epoch, w.epoch)), if w.epoch.Whole? then r else StoreFailed)
  }

  function RemoveRule(s: State, name: string, w: Writes): (State, Result)
    requires |s.memory.compiled| == |s.memory.rules|
  {
    var dropped := Dropped(s.disk, name, w.first);
    if !w.first.Whole? then (s.(disk := dropped), StoreFailed)
    else
      var (memory, r) := EngineRemove(s.memory, name);
      if !r.Done? then (s.(disk := dropped), r)
      else
        (State(memory, dropped, EpochOnDisk(s.diskEpoch, r.epoch, w.epoch)), if w.epoch.Whole? then r else StoreFailed)
  }

  class AuditEngine {
    const matcher: Matcher
    var rules: seq<Rule>
    var compiled: seq<string>
    var epoch: nat
    var disk: map<string, Rule>
    var diskEpoch: nat

    ghost function Abstract(): State
      reads this
    {
      State(Memory(rules, compiled, epoch), disk, diskEpoch)
    }

    ghost predicate Valid()
      reads this
    {
      Aligned(matcher, Memory(rules, compiled, epoch))
    }

    constructor (x: Matcher, rules: seq<Rule>, compiled: seq<string>, epoch: nat, disk: map<string, Rule>)
      requires Aligned(x, Memory(rules, compiled, epoch))
      ensures matcher == x && Valid() && Abstract() == State(Memory(rules, compiled, epoch), disk, epoch)
    {
      matcher, this.rules, this.compiled, this.epoch, this.disk, diskEpoch := x, rules, compiled, epoch, disk, epoch;
    }

    /** Starts from the stored rules as listed, or seeds the default set; a pattern that does not compile
        stops the start. */
    static method Open(x: Matcher, disk: map<string, Rule>, diskEpoch: nat, listing: seq<Rule>) returns (engine: AuditEngine?)
      ensures
        var (rules, epoch) := Loaded(diskEpoch, listing);
        && (engine == null <==> exists i :: 0 <= i < |rules| && !x.compiles(rules[i].pattern))
        && (engine != null ==> fresh(engine) && engine.matcher == x && engine.Valid())
        && (engine != null ==>
              engine.Abstract() == State(Memory(rules, Patterns(rules), epoch), Seeded(disk, diskEpoch, listing), epoch))
    {
      var rules, epoch, stored := listing, diskEpoch, disk;
      if diskEpoch == 0 || listing == [] {
        rules, epoch := [DEFAULT_RULE], 1;
        stored := stored[DEFAULT_RULE.name := DEFAULT_RULE];
      }
      assert (rules, epoch) == Loaded(diskEpoch, listing);
      var compiled: seq<string> := [];
      for i := 0 to |rules|
        invariant compiled == Patterns(rules[..i])
        invariant forall j :: 0 <= j < i ==> x.compiles(rules[j].pattern)
      {
        if !x.compiles(rules[i].pattern) {
          return null;
        }
        assert rules[..i + 1][..i] == rules[..i];
        compiled := compiled + [rules[i].pattern];
      }
      assert rules[..|rules|] == rules;
      PatternsAlign(x, rules, epoch);
      engine := new AuditEngine(x, rules, compiled, epoch, stored);
    }

    method Add(rule: Rule, w: Writes) returns (r: Result)
      requires Valid()
      modifies this
      ensures Valid() && (Abstract(), r) == AddRule(matcher, old(Abstract()), rule, w)
    {
      AddStaysAligned(matcher, Memory(rules, compiled, epoch), rule);
      disk := Saved(disk, rule, w.first);
      if !w.first.Whole? {
        return StoreFailed;
      }
      if !matcher.compiles(rule.pattern) {
        r := BadPattern;
      } else if Position(rules, rule.name) < |rules| {
        r := Duplicate;
      } else {
        rules := rules + [rule];
        compiled := compiled + [rule.pattern];
        epoch := epoch + 1;
        r := Done(epoch);
      }
      if r.Done? {
        diskEpoch := EpochOnDisk(diskEpoch, epoch, w.epoch);
        if w.epoch.Whole? {
          return;
        }
      }
      disk := Dropped(disk, rule.name, w.undo);
      if r.Done? {
        RemoveStaysAligned(matcher, Memory(rules, compiled, epoch), rule.name);
        var _ := DropRule(rule.name);
        r := StoreFailed;
      }
    }

    /** The engine's own removal, without the store. */
    method DropRule(name: string) returns (found: bool)
      requires |compiled| == |rules|
      modifies this`rules, this`compiled, this`epoch
      ensures Memory(rules, compiled, epoch) == EngineRemove(old(Memory(rules, compiled, epoch)), name).0
      ensures found <==> Has(old(rules), name)
    {
      var at := Position(rules, name);
      found := at < |rules|;
      if found {
        rules := rules[..at] + rules[at + 1..];
        compiled := compiled[..at] + compiled[at + 1..];
        epoch := epoch + 1;
      }
    }

    method Update(name: string, rule: Rule, w: Writes) returns (r: Result)
      requires Valid()
      modifies this
      ensures Valid() && (Abstract(), r) == UpdateRule(matcher, old(Abstract()), name, rule, w)
    {
      UpdateStaysAligned(matcher, Memory(rules, compiled, epoch), name, rule);
      disk := Saved(disk, rule, w.first);
      if !w.first.Whole? {
        return StoreFailed;
      }
      if name != rule.name {
        disk := Dropped(disk, name, w.rename);
      }
      var at := Position(rules, name);
      if !matcher.compiles(rule.pattern) {
        r := BadPattern;
      } else if at == |rules| {
        r := NotFound;
      } else {
        rules := rules[at := rule];
        compiled := compiled[at := rule.pattern];
        epoch := epoch + 1;
        r := Done(epoch);
      }
      if !r.Done? {
        if name != rule.name {
          disk := Dropped(disk, rule.name, w.undo);
        }
        return;
      }
      diskEpoch := EpochOnDisk(diskEpoch, epoch, w.epoch);
      if !w.epoch.Whole? {
        return StoreFailed;
      }
    }

    method Remove(name: string, w: Writes) returns (r: Result)
      requires Valid()
      modifies this
      ensures Valid() && (Abstract(), r) == RemoveRule(old(Abstract()), name, w)
    {
      RemoveStaysAligned(matcher, Memory(rules, compiled, epoch), name);
      disk := Dropped(disk, name, w.first);
      if !w.first.Whole? {
        return StoreFailed;
      }
      var found := DropRule(name);
      if !found {
        return NotFound;
      }
      diskEpoch := EpochOnDisk(diskEpoch, epoch, w.epoch);
      if !w.epoch.Whole? {
        return StoreFailed;
      }
      r := Done(epoch);
    }

    /** One pass over rules and compiled patterns side by side. */
    method Evaluate(content: string) returns (hits: seq<Hit>)
      requires Valid()
      ensures hits == HitsOf(matcher, rules, content)
    {
      hits := [];
      for i := 0 to |rules|
        invariant hits == HitsOf(matcher, rules[..i], content)
      {
        assert rules[..i + 1][..i] == rules[..i];
        if rules[i].stage == Regex {
          var found := matcher.find(compiled[i], content);
          if found.Some? {
            hits := hits + [Hit(rules[i], found.value, Regex)];
          }
        }
      }
      assert rules[..|rules|] == rules;
    }
  }

  function Patterns(rules: seq<Rule>): seq<string> {
    if rules == [] then [] else Patterns(rules[..|rules| - 1]) + [rules[|rules| - 1].pattern]
  }

  lemma {:induction false} PatternsAlign(x: Matcher, rules: seq<Rule>, epoch: nat)
    requires forall i :: 0 <= i < |rules| ==> x.compiles(rules[i].pattern)
    ensures Aligned(x, Memory(rules, Patterns(rules), epoch))
  {
    if rules != [] {
      PatternsAlign(x, rules[..|rules| - 1], epoch);
    }
  }

  lemma AddStaysAligned(x: Matcher, m: Memory, rule: Rule)
    requires Aligned(x, m)
    ensures Aligned(x, EngineAdd(x, m, rule).0)
  {
  }

  lemma UpdateStaysAligned(x: Matcher, m: Memory, name: string, rule: Rule)
    requires Aligned(x, m)
    ensures Aligned(x, EngineUpdate(x, m, name, rule).0)
  {
  }

  lemma RemoveStaysAligned(x: Matcher, m: Memory, name: string)
    requires Aligned(x, m)
    ensures Aligned(x, EngineRemove(m, name).0)
  {
  }

  // --- Disk and memory agree ---

  predicate DistinctNames(rules: seq<Rule>) {
    forall i, j :: 0 <= i < j < |rules| ==> rules[i].name != rules[j].name
  }

  /** The rules are those of the table, each under its own name and none twice. */
  predicate Lists(rules: seq<Rule>, disk: map<string, Rule>) {
    && DistinctNames(rules)
    && (forall i :: 0 <= i < |rules| ==> rules[i].name in disk && disk[rules[i].name] == rules[i])
    && (forall name :: name in disk ==> Has(rules, name))
  }

  predicate InSync(s: State) {
    Lists(s.memory.rules, s.disk)
  }

  /** Adding leaves disk and memory in agreement exactly when nothing was saved; or the name is new and the
      call went through or was taken back; or the very same rule is there already and stayed on disk. */
  predicate AddIsSafe(x: Matcher, rules: seq<Rule>, rule: Rule, w: Writes) {
    match w.first
    case Nothing => true
    case Half => rule in rules
    case Whole =>
      if Has(rules, rule.name) then w.undo.Nothing? && rule in rules
      else w.undo.TakesEffect() || (x.compiles(rule.pattern) && w.epoch.Whole?)
  }

  lemma AddTakenBack(x: Matcher, m: Memory, rule: Rule)
    requires |m.compiled| == |m.rules| && EngineAdd(x, m, rule).1.Done?
    ensures EngineRemove(EngineAdd(x, m, rule).0, rule.name).0 == m.(epoch := m.epoch + 2)
  {
    hide Position;
    var added := EngineAdd(x, m, rule).0;
    var at := Position(added.rules, rule.name);
    assert added.rules[|m.rules|].name == rule.name;
    assert forall i :: 0 <= i < |m.rules| ==> added.rules[i] == m.rules[i];
    assert at == |m.rules|;
    assert Without(added.rules, at) == m.rules && Without(added.compiled, at) == m.compiled;
  }

  lemma {:induction false} AddKeepsSyncExactly(x: Matcher, s: State, rule: Rule, w: Writes)
    requires Aligned(x, s.memory) && InSync(s)
    ensures InSync(AddRule(x, s, rule, w).0) <==> AddIsSafe(x, s.memory.rules, rule, w)
  {
    hide Position, Lists, EngineRemove;
    var rules, after := s.memory.rules, AddRule(x, s, rule, w).0;
    SavedLists(rules, s.disk, rule);
    if w.first.Whole? {
      if EngineAdd(x, s.memory, rule).1.Done? {
        AddTakenBack(x, s.memory, rule);
      }
      if Has(rules, rule.name) {
        if w.undo.TakesEffect() {
          NameGone(rules, after.disk, Position(rules, rule.name));
        }
      } else {
        NotListed(rules, s.disk, rule.name);
        AddedLists(rules, s.disk, rule);
        assert s.disk[rule.name := rule] - {rule.name} == s.disk;
      }
    }
  }

  /** Saving a rule over an agreeing table leaves it agreeing exactly when that rule is there already. */
  lemma SavedLists(rules: seq<Rule>, disk: map<string, Rule>, rule: Rule)
    requires Lists(rules, disk)
    ensures Lists(rules, disk[rule.name := rule]) <==> rule in rules
    ensures rule in rules ==> Has(rules, rule.name)
  {
    hide Position;
    var saved := disk[rule.name := rule];
    if rule in rules {
      var i :| 0 <= i < |rules| && rules[i] == rule;
      assert saved == disk;
    } else if Has(rules, rule.name) {
      var at := Position(rules, rule.name);
      assert saved[rules[at].name] != rules[at];
    } else {
      assert rule.name in saved;
    }
  }

  lemma NameGone(rules: seq<Rule>, disk: map<string, Rule>, at: nat)
    requires at < |rules| && rules[at].name !in disk
    ensures !Lists(rules, disk)
  {
  }

  lemma AddedLists(rules: seq<Rule>, disk: map<string, Rule>, rule: Rule)
    requires Lists(rules, disk) && !Has(rules, rule.name)
    ensures Lists(rules + [rule], disk[rule.name := rule])
  {
    hide Position;
    var rules', disk' := rules + [rule], disk[rule.name := rule];
    forall name | name in disk'
      ensures Has(rules', name)
    {
      if name == rule.name {
        assert rules'[|rules|].name == name;
      } else {
        assert Has(rules, name) && rules'[Position(rules, name)].name == name;
      }
    }
  }

  /** Updating leaves them in agreement exactly when nothing was saved; or a rule that is there gets a pattern
      that compiles and keeps its name, or takes a new one and loses the old; or a failed update was taken back
      without having lost the old name, or saved what was there already. */
  predicate UpdateIsSafe(x: Matcher, rules: seq<Rule>, name: string, rule: Rule, w: Writes) {
    match w.first
    case Nothing => true
    case Half => rule in rules
    case Whole =>
      if Has(rules, name) && x.compiles(rule.pattern)
      then rule.name == name || (!Has(rules, rule.name) && w.rename.TakesEffect())
      else
        && rule.name != name && (Has(rules, name) ==> w.rename.Nothing?)
        && if w.undo.TakesEffect() then !Has(rules, rule.name) else rule in rules
  }

  /** Without failed writes these are guards on the pattern and the names alone. */
  lemma {:induction false} GuardsWithoutFailures(x: Matcher, rules: seq<Rule>, name: string, rule: Rule)
    ensures AddIsSafe(x, rules, rule, ALL_WRITTEN) <==> !Has(rules, rule.name)
    ensures RemoveIsSafe(rules, name, ALL_WRITTEN)
    ensures UpdateIsSafe(x, rules, name, rule, ALL_WRITTEN) <==>
            if Has(rules, name) then x.compiles(rule.pattern) && (rule.name == name || !Has(rules, rule.name))
            else rule.name != name && !Has(rules, rule.name)
  {
  }

  /** The update reached memory. */
  lemma UpdateDoneSync(x: Matcher, s: State, name: string, rule: Rule, w: Writes)
    requires Aligned(x, s.memory) && InSync(s) && w.first.Whole? && Has(s.memory.rules, name) && x.compiles(rule.pattern)
    ensures InSync(UpdateRule(x, s, name, rule, w).0) <==> UpdateIsSafe(x, s.memory.rules, name, rule, w)
  {
    hide Position, Lists;
    var rules, after := s.memory.rules, UpdateRule(x, s, name, rule, w).0;
    var at := Position(rules, name);
    var rules' := rules[at := rule];
    if rule.name != name && Has(rules, rule.name) {
      TwiceNamed(rules', after.disk, at, Position(rules, rule.name));
    } else {
      ReplacedLists(rules, s.disk, at, rule);
      if rule.name == name || w.rename.TakesEffect() {
        assert after.disk == (s.disk - {name})[rule.name := rule];
      } else {
        ListedIn(rules, s.disk, at);
        StillNamed(rules, s.disk, at, rule);
      }
    }
  }

  lemma TwiceNamed(rules: seq<Rule>, disk: map<string, Rule>, i: nat, j: nat)
    requires i < |rules| && j < |rules| && i != j && rules[i].name == rules[j].name
    ensures !Lists(rules, disk)
  {
  }

  lemma ListedIn(rules: seq<Rule>, disk: map<string, Rule>, i: nat)
    requires Lists(rules, disk) && i < |rules|
    ensures rules[i].name in disk && disk[rules[i].name] == rules[i]
  {
  }

  /** The old name stayed on disk. */
  lemma StillNamed(rules: seq<Rule>, disk: map<string, Rule>, at: nat, rule: Rule)
    requires Lists(rules, disk) && at < |rules| && rule.name != rules[at].name
    ensures !Lists(rules[at := rule], disk[rule.name := rule])
  {
    hide Position;
    var name, rules', disk' := rules[at].name, rules[at := rule], disk[rule.name := rule];
    assert name in disk';
    assert forall i :: 0 <= i < |rules'| ==> rules'[i].name != name;
    assert !Has(rules', name);
  }

  /** The update did not reach memory. */
  lemma UpdateFailedSync(x: Matcher, s: State, name: string, rule: Rule, w: Writes)
    requires Aligned(x, s.memory) && InSync(s) && w.first.Whole? && !(Has(s.memory.rules, name) && x.compiles(rule.pattern))
    ensures InSync(UpdateRule(x, s, name, rule, w).0) <==> UpdateIsSafe(x, s.memory.rules, name, rule, w)
  {
    hide Position, Lists;
    var rules, disk, after := s.memory.rules, s.disk, UpdateRule(x, s, name, rule, w).0;
    assert after.memory == s.memory;
    SavedLists(rules, disk, rule);
    if rule in rules {
      RulesCompile(x, s.memory, rule);
    }
    if name != rule.name {
      if Has(rules, name) && w.rename.TakesEffect() {
        NameGone(rules, after.disk, Position(rules, name));
      } else {
        if !Has(rules, name) {
          NotListed(rules, disk, name);
        }
        var saved := disk[rule.name := rule];
        assert after.disk == Dropped(saved, rule.name, w.undo);
        if w.undo.TakesEffect() {
          if Has(rules, rule.name) {
            NameGone(rules, after.disk, Position(rules, rule.name));
          } else {
            NotListed(rules, disk, rule.name);
            assert saved - {rule.name} == disk;
          }
        }
      }
    }
  }

  lemma RulesCompile(x: Matcher, m: Memory, rule: Rule)
    requires Aligned(x, m) && rule in m.rules
    ensures x.compiles(rule.pattern)
  {
  }

  lemma {:induction false} UpdateKeepsSyncExactly(x: Matcher, s: State, name: string, rule: Rule, w: Writes)
    requires Aligned(x, s.memory) && InSync(s)
    ensures InSync(UpdateRule(x, s, name, rule, w).0) <==> UpdateIsSafe(x, s.memory.rules, name, rule, w)
  {
    if !w.first.Whole? {
      hide Lists;
      SavedLists(s.memory.rules, s.disk, rule);
    } else {
      hide *;
      if Has(s.memory.rules, name) && x.compiles(rule.pattern) {
        UpdateDoneSync(x, s, name, rule, w);
      } else {
        UpdateFailedSync(x, s, name, rule, w);
      }
    }
  }

  lemma NotListed(rules: seq<Rule>, disk: map<string, Rule>, name: string)
    requires Lists(rules, disk) && !Has(rules, name)
    ensures name !in disk
  {
  }

  lemma ReplacedLists(rules: seq<Rule>, disk: map<string, Rule>, at: nat, rule: Rule)
    requires Lists(rules, disk) && at < |rules| && (rule.name == rules[at].name || !Has(rules, rule.name))
    ensures Lists(rules[at := rule], (disk - {rules[at].name})[rule.name := rule])
  {
    hide Position;
    var disk' := (disk - {rules[at].name})[rule.name := rule];
    forall i | 0 <= i < |rules| && i != at
      ensures rules[i].name != rule.name && rules[i].name != rules[at].name
    {
      assert rules[i].name == rule.name ==> Has(rules, rule.name);
    }
    forall other | other in disk'
      ensures Has(rules[at := rule], other)
    {
      if other == rule.name {
        assert rules[at := rule][at].name == other;
      } else {
        assert Has(rules, other);
        assert rules[at := rule][Position(rules, other)].name == other;
      }
    }
  }

  /** Removing leaves them in agreement unless the rule is there and only its row was deleted. */
  predicate RemoveIsSafe(rules: seq<Rule>, name: string, w: Writes) {
    w.first.Half? ==> !Has(rules, name)
  }

  lemma {:induction false} RemoveKeepsSyncExactly(x: Matcher, s: State, name: string, w: Writes)
    requires Aligned(x, s.memory) && InSync(s)
    ensures InSync(RemoveRule(s, name, w).0) <==> RemoveIsSafe(s.memory.rules, name, w)
  {
    hide Position, Lists;
    var rules := s.memory.rules;
    var at := Position(rules, name);
    if at < |rules| {
      RemovedLists(rules, s.disk, at);
      if w.first.Half? {
        NameGone(rules, s.disk - {name}, at);
      }
    } else {
      NotListed(rules, s.disk, name);
      assert s.disk - {name} == s.disk;
    }
  }

  /** The failing input: a rule in agreement on both sides, whose delete commits and is not recorded. The call
      reports a failure, memory keeps the rule, and a restart will not have it. */
  lemma {:induction false} HalfRemoveLosesARule(x: Matcher, rule: Rule, epoch: nat)
    requires x.compiles(rule.pattern)
    ensures
      var s := State(Memory([rule], [rule.pattern], epoch), map[rule.name := rule], epoch);
      var (after, r) := RemoveRule(s, rule.name, ALL_WRITTEN.(first := Half));
      && Aligned(x, s.memory) && InSync(s)
      && r == StoreFailed && after.memory == s.memory && after.disk == map[] && !InSync(after)
  {
    var s := State(Memory([rule], [rule.pattern], epoch), map[rule.name := rule], epoch);
    assert s.memory.rules[0] == rule;
    assert Has(s.memory.rules, rule.name);
    assert InSync(s);
    RemoveKeepsSyncExactly(x, s, rule.name, ALL_WRITTEN.(first := Half));
  }

  lemma RemovedLists(rules: seq<Rule>, disk: map<string, Rule>, at: nat)
    requires Lists(rules, disk) && at < |rules|
    ensures Lists(Without(rules, at), disk - {rules[at].name})
  {
    hide Position, Without;
    var rest, disk' := Without(rules, at), disk - {rules[at].name};
    WithoutLength(rules, at);
    forall i, j | 0 <= i < j < |rest|
      ensures rest[i].name != rest[j].name
    {
      WithoutAt(rules, at, i);
      WithoutAt(rules, at, j);
    }
    forall i | 0 <= i < |rest|
      ensures rest[i].name in disk' && disk'[rest[i].name] == rest[i]
    {
      WithoutAt(rules, at, i);
    }
    forall other | other in disk'
      ensures Has(rest, other)
    {
      assert Has(rules, other);
      var i := Position(rules, other);
      var k := if i < at then i else i - 1;
      WithoutAt(rules, at, k);
      assert rest[k].name == other;
    }
  }

  lemma WithoutLength<T>(s: seq<T>, at: nat)
    requires at < |s|
    ensures |Without(s, at)| == |s| - 1
  {
  }

  lemma WithoutAt<T>(s: seq<T>, at: nat, i: nat)
    requires at < |s| && i < |s| - 1
    ensures |Without(s, at)| == |s| - 1 && Without(s, at)[i] == s[if i < at then i else i + 1]
  {
  }

  // --- Runs ---

  datatype Op = Add(rule: Rule, w: Writes) | Update(name: string, rule: Rule, w: Writes) | Remove(name: string, w: Writes)

  function Apply(x: Matcher, s: State, op: Op): (State, Result)
    requires Aligned(x, s.memory)
  {
    match op
    case Add(rule, w) => AddRule(x, s, rule, w)
    case Update(name, rule, w) => UpdateRule(x, s, name, rule, w)
    case Remove(name, w) => RemoveRule(s, name, w)
  }

  predicate IsSafe(x: Matcher, rules: seq<Rule>, op: Op) {
    match op
    case Add(rule, w) => AddIsSafe(x, rules, rule, w)
    case Update(name, rule, w) => UpdateIsSafe(x, rules, name, rule, w)
    case Remove(name, w) => RemoveIsSafe(rules, name, w)
  }

  lemma {:induction false} OpStaysAligned(x: Matcher, s: State, op: Op)
    requires Aligned(x, s.memory)
    ensures Aligned(x, Apply(x, s, op).0.memory)
  {
    match op
    case Add(rule, w) =>
      AddStaysAligned(x, s.memory, rule);
      RemoveStaysAligned(x, EngineAdd(x, s.memory, rule).0, rule.name);
    case Update(name, rule, w) => UpdateStaysAligned(x, s.memory, name, rule);
    case Remove(name, w) => RemoveStaysAligned(x, s.memory, name);
  }

  /** The state after a run, and how many of its calls succeeded. */
  function Run(x: Matcher, s: State, ops: seq<Op>): (r: (State, nat))
    requires Aligned(x, s.memory)
    ensures Aligned(x, r.0.memory)
  {
    if ops == [] then (s, 0)
    else
      var (before, done) := Run(x, s, ops[..|ops| - 1]);
      var (after, result) := Apply(x, before, ops[|ops| - 1]);
      OpStaysAligned(x, before, ops[|ops| - 1]);
      (after, done + if result.Done? then 1 else 0)
  }

  /** Every call of the run is one that keeps disk and memory in agreement. */
  predicate SafeRun(x: Matcher, s: State, ops: seq<Op>)
    requires Aligned(x, s.memory)
  {
    ops == [] ||
    (SafeRun(x, s, ops[..|ops| - 1]) && IsSafe(x, Run(x, s, ops[..|ops| - 1]).0.memory.rules, ops[|ops| - 1]))
  }

  /** The epochs after a call: memory never falls behind the disk, and a successful call gives both a number
      that neither had before. */
  lemma OpCounts(x: Matcher, s: State, op: Op)
    requires Aligned(x, s.memory) && s.diskEpoch <= s.memory.epoch
    ensures
      var (after, r) := Apply(x, s, op);
      && after.diskEpoch <= after.memory.epoch && s.memory.epoch <= after.memory.epoch
      && (r.Done? ==> r.epoch == after.diskEpoch == after.memory.epoch == s.memory.epoch + 1)
      && (!r.Done? ==> after.diskEpoch == s.diskEpoch || (op.w.epoch.Half? && after.diskEpoch == s.memory.epoch + 1))
      && (op.w.epoch.Whole? && !r.Done? ==> after.memory.epoch == s.memory.epoch && after.diskEpoch == s.diskEpoch)
  {
  }

  predicate EpochsWritten(ops: seq<Op>) {
    forall i :: 0 <= i < |ops| ==> ops[i].w.epoch.Whole?
  }

  /** In every run the epoch in memory is at least the one on disk; when no epoch write fails both are the
      starting one plus the number of successful calls. */
  lemma {:induction false} EpochCountsSuccesses(x: Matcher, s: State, ops: seq<Op>)
    requires Aligned(x, s.memory) && s.diskEpoch <= s.memory.epoch
    ensures
      var (after, done) := Run(x, s, ops);
      && after.diskEpoch <= after.memory.epoch && s.memory.epoch + done <= after.memory.epoch
      && (EpochsWritten(ops) && s.diskEpoch == s.memory.epoch ==> after.diskEpoch == after.memory.epoch == s.memory.epoch + done)
  {
    hide Aligned, Apply;
    if ops != [] {
      EpochCountsSuccesses(x, s, ops[..|ops| - 1]);
      OpCounts(x, Run(x, s, ops[..|ops| - 1]).0, ops[|ops| - 1]);
    }
  }

  lemma OpKeepsSyncExactly(x: Matcher, s: State, op: Op)
    requires Aligned(x, s.memory) && InSync(s)
    ensures InSync(Apply(x, s, op).0) <==> IsSafe(x, s.memory.rules, op)
  {
    hide InSync, Aligned, UpdateIsSafe, AddIsSafe, RemoveIsSafe;
    match op
    case Add(rule, w) => AddKeepsSyncExactly(x, s, rule, w);
    case Update(name, rule, w) => UpdateKeepsSyncExactly(x, s, name, rule, w);
    case Remove(name, w) => RemoveKeepsSyncExactly(x, s, name, w);
  }

  predicate AlwaysInSync(x: Matcher, s: State, ops: seq<Op>)
    requires Aligned(x, s.memory)
  {
    InSync(Run(x, s, ops).0) && (ops == [] || AlwaysInSync(x, s, ops[..|ops| - 1]))
  }

  /** Disk and memory hold the same rules throughout a run exactly when each call of it is safe. */
  lemma {:induction false} RunStaysInSyncExactly(x: Matcher, s: State, ops: seq<Op>)
    requires Aligned(x, s.memory) && InSync(s)
    ensures AlwaysInSync(x, s, ops) <==> SafeRun(x, s, ops)
  {
    hide InSync, Aligned, IsSafe, Apply;
    if ops != [] {
      RunStaysInSyncExactly(x, s, ops[..|ops| - 1]);
      var before := Run(x, s, ops[..|ops| - 1]).0;
      if InSync(before) {
        OpKeepsSyncExactly(x, before, ops[|ops| - 1]);
      }
    }
  }

  // --- Verdicts ---

  datatype Hit = Hit(rule: Rule, text: string, stage: CheckStage)

  function HitsOf(x: Matcher, rules: seq<Rule>, content: string): seq<Hit> {
    if rules == [] then []
    else
      var rule := rules[|rules| - 1];
      var found := x.find(rule.pattern, content);
      HitsOf(x, rules[..|rules| - 1], content)
      + if rule.stage == Regex && found.Some? then [Hit(rule, found.value, Regex)] else []
  }

  /** Hits come in rule order. */
  lemma {:induction false} HitsConcat(x: Matcher, a: seq<Rule>, b: seq<Rule>, content: string)
    ensures HitsOf(x, a + b, content) == HitsOf(x, a, content) + HitsOf(x, b, content)
  {
    if b == [] {
      assert a + b == a;
    } else {
      var k := |b| - 1;
      assert (a + b)[..|a + b| - 1] == a + b[..k];
      HitsConcat(x, a, b[..k], content);
    }
  }

  /** Severity first, then risk, then stage, as one number. */
  function Key(h: Hit): nat {
    16 * h.rule.action.Severity() + 4 * h.rule.risk.Rank() + h.stage.Rank()
  }

  lemma {:induction false} KeyDecides(a: Hit, b: Hit)
    ensures Key(a) == Key(b) <==> a.rule.action == b.rule.action && a.rule.risk == b.rule.risk && a.stage == b.stage
    ensures Key(a) < Key(b) <==>
            || a.rule.action.Severity() < b.rule.action.Severity()
            || (a.rule.action == b.rule.action && a.rule.risk.Rank() < b.rule.risk.Rank())
            || (a.rule.action == b.rule.action && a.rule.risk == b.rule.risk && a.stage.Rank() < b.stage.Rank())
  {
  }

  /** Index of the last hit with the greatest key. */
  function Top(hits: seq<Hit>): (at: nat)
    requires hits != []
    ensures at < |hits|
    ensures forall i :: 0 <= i < |hits| ==> Key(hits[i]) <= Key(hits[at])
    ensures forall i :: at < i < |hits| ==> Key(hits[i]) < Key(hits[at])
  {
    if |hits| == 1 then 0
    else
      var best := Top(hits[..|hits| - 1]);
      if Key(hits[best]) <= Key(hits[|hits| - 1]) then |hits| - 1 else best
  }

  datatype Verdict = Verdict(
    action: SafetyAction,
    risk: RiskLevel,
    stage: CheckStage,
    requiresApproval: bool,
    seatbelt: bool,
    reason: string,
    epoch: nat)

  function VerdictFromHits(hits: seq<Hit>, epoch: nat): Verdict {
    if hits == [] then Verdict(Allow, L1, Regex, false, false, "no rule hit", epoch)
    else
      var h := hits[Top(hits)];
      Verdict(h.rule.action, h.rule.risk, h.stage, h.rule.risk == L3,
              h.rule.risk == L3 || h.rule.risk == L4 || h.rule.action == Block, h.rule.reason, epoch)
  }

  /** The verdict is as severe as the worst hit, and no milder in risk or stage than any hit as severe. */
  lemma {:induction false} VerdictIsTheWorst(hits: seq<Hit>, epoch: nat, h: Hit)
    requires h in hits
    ensures
      var v := VerdictFromHits(hits, epoch);
      && h.rule.action.Severity() <= v.action.Severity()
      && (h.rule.action == v.action ==> h.rule.risk.Rank() <= v.risk.Rank())
      && (h.rule.action == v.action && h.rule.risk == v.risk ==> h.stage.Rank() <= v.stage.Rank())
      && (v.requiresApproval <==> v.risk == L3)
      && (v.seatbelt <==> v.risk.Rank() >= L3.Rank() || v.action == Block)
      && exists top :: top in hits && (top.rule.action, top.rule.risk, top.stage, top.rule.reason) == (v.action, v.risk, v.stage, v.reason)
  {
    hide Key;
    TopDominates(hits, h);
    KeyDecides(hits[Top(hits)], h);
    assert hits[Top(hits)] in hits;
  }

  predicate SomeHit(hits: seq<Hit>, a: SafetyAction) {
    exists i :: 0 <= i < |hits| && hits[i].rule.action == a
  }

  predicate SomeHitAt(hits: seq<Hit>, a: SafetyAction, risk: RiskLevel) {
    exists i :: 0 <= i < |hits| && hits[i].rule.action == a && hits[i].rule.risk == risk
  }

  predicate SomeHitIn(hits: seq<Hit>, a: SafetyAction, risk: RiskLevel, stage: CheckStage) {
    exists i :: 0 <= i < |hits| && hits[i].rule.action == a && hits[i].rule.risk == risk && hits[i].stage == stage
  }

  /** The verdict by name: one blocking hit blocks, failing that one redacting hit redacts, failing that one
      previewing hit previews. The risk is the highest among the hits with that action, and the stage the
      surest among those with that risk. Without hits everything is allowed, at the lowest risk. */
  lemma {:induction false} VerdictByName(hits: seq<Hit>, epoch: nat)
    ensures
      var v := VerdictFromHits(hits, epoch);
      v.action == if SomeHit(hits, Block) then Block
                  else if SomeHit(hits, Redact) then Redact
                  else if SomeHit(hits, Preview) then Preview
                  else Allow
    ensures
      var v := VerdictFromHits(hits, epoch);
      v.risk == if SomeHitAt(hits, v.action, L4) then L4
                else if SomeHitAt(hits, v.action, L3) then L3
                else if SomeHitAt(hits, v.action, L2) then L2
                else L1
    ensures
      var v := VerdictFromHits(hits, epoch);
      hits != [] ==>
      v.stage == if SomeHitIn(hits, v.action, v.risk, Regex) then Regex
                 else if SomeHitIn(hits, v.action, v.risk, Ast) then Ast
                 else Semantic
    ensures hits == [] ==> VerdictFromHits(hits, epoch) == Verdict(Allow, L1, Regex, false, false, "no rule hit", epoch)
    ensures VerdictFromHits(hits, epoch).epoch == epoch
  {
    if hits != [] {
      var v, at := VerdictFromHits(hits, epoch), Top(hits);
      forall i | 0 <= i < |hits|
        ensures NoHarder(hits[i], hits[at])
      {
        TopDominates(hits, hits[i]);
        NoHarderByKey(hits[i], hits[at]);
      }
      hide Key, Top;
      assert SomeHit(hits, v.action) && SomeHitAt(hits, v.action, v.risk) && SomeHitIn(hits, v.action, v.risk, v.stage);
    }
  }

  predicate NoHarder(a: Hit, b: Hit) {
    && a.rule.action.Severity() <= b.rule.action.Severity()
    && (a.rule.action == b.rule.action ==> a.rule.risk.Rank() <= b.rule.risk.Rank())
    && (a.rule.action == b.rule.action && a.rule.risk == b.rule.risk ==> a.stage.Rank() <= b.stage.Rank())
  }

  lemma NoHarderByKey(a: Hit, b: Hit)
    requires Key(a) <= Key(b)
    ensures NoHarder(a, b)
  {
    KeyDecides(b, a);
  }

  /** More hits never make the verdict milder. */
  lemma {:induction false} MoreHitsNeverSofter(hits: seq<Hit>, extra: seq<Hit>, epoch: nat)
    ensures VerdictFromHits(hits, epoch).action.Severity() <= VerdictFromHits(hits + extra, epoch).action.Severity()
  {
    if hits != [] {
      var top := hits[Top(hits)];
      assert top in hits && top in hits + extra;
      VerdictIsTheWorst(hits + extra, epoch, top);
    }
  }

  ghost predicate SameHits(a: seq<Hit>, b: seq<Hit>) {
    forall h :: h in a <==> h in b
  }

  /** The decision depends on which hits there are, not on their order or number. */
  lemma {:induction false} DecisionIgnoresOrder(a: seq<Hit>, b: seq<Hit>, epoch: nat)
    requires SameHits(a, b)
    ensures VerdictFromHits(a, epoch).(reason := "") == VerdictFromHits(b, epoch).(reason := "")
  {
    assert (a != [] ==> a[0] in b) && (b != [] ==> b[0] in a);
    if a != [] {
      var x, y := a[Top(a)], b[Top(b)];
      assert x in a && y in b;
      TopDominates(a, y);
      TopDominates(b, x);
      KeyDecides(x, y);
    }
  }

  lemma TopDominates(hits: seq<Hit>, h: Hit)
    requires h in hits
    ensures Key(h) <= Key(hits[Top(hits)])
  {
  }

  /** The reason is that of the last of the top hits, so it is the same for every order exactly when the top
      hits all give the same one. */
  predicate OneTopReason(hits: seq<Hit>) {
    hits == [] ||
    var top := hits[Top(hits)];
    forall i :: 0 <= i < |hits| && Key(hits[i]) == Key(top) ==> hits[i].rule.reason == top.rule.reason
  }

  lemma {:induction false} OneReasonIgnoresOrder(a: seq<Hit>, b: seq<Hit>, epoch: nat)
    requires SameHits(a, b) && OneTopReason(a)
    ensures VerdictFromHits(a, epoch) == VerdictFromHits(b, epoch)
  {
    hide Key;
    DecisionIgnoresOrder(a, b, epoch);
    assert (a != [] ==> a[0] in b) && (b != [] ==> b[0] in a);
    if a != [] {
      var y := b[Top(b)];
      assert y in b && a[Top(a)] in a;
      TopDominates(a, y);
      TopDominates(b, a[Top(a)]);
      var i :| 0 <= i < |a| && a[i] == y;
      assert Key(a[i]) == Key(a[Top(a)]);
    }
    var v, w := VerdictFromHits(a, epoch), VerdictFromHits(b, epoch);
    assert v.reason == w.reason;
    assert v == v.(reason := "").(reason := v.reason) && w == w.(reason := "").(reason := w.reason);
  }

  lemma {:induction false} ReasonFollowsOrder(hits: seq<Hit>, epoch: nat) returns (order: seq<Hit>)
    requires !OneTopReason(hits)
    ensures multiset(order) == multiset(hits) && VerdictFromHits(order, epoch).reason != VerdictFromHits(hits, epoch).reason
  {
    var i :| 0 <= i < |hits| && Key(hits[i]) == Key(hits[Top(hits)]) && hits[i].rule.reason != hits[Top(hits)].rule.reason;
    order := Without(hits, i) + [hits[i]];
    MovedIsPermutation(hits, i);
    forall j | 0 <= j < |order|
      ensures Key(order[j]) <= Key(hits[i])
    {
      assert order[j] == hits[if j < i then j else if j < |hits| - 1 then j + 1 else i];
    }
    LastOfTheBest(order);
  }

  lemma MovedIsPermutation(hits: seq<Hit>, i: nat)
    requires i < |hits|
    ensures multiset(Without(hits, i) + [hits[i]]) == multiset(hits)
  {
    assert hits == hits[..i] + [hits[i]] + hits[i + 1..];
  }

  lemma LastOfTheBest(hits: seq<Hit>)
    requires hits != [] && forall j :: 0 <= j < |hits| ==> Key(hits[j]) <= Key(hits[|hits| - 1])
    ensures Top(hits) == |hits| - 1
  {
  }

  // --- Restarting ---

  lemma {:induction false} HitsExactly(x: Matcher, rules: seq<Rule>, content: string, h: Hit)
    ensures h in HitsOf(x, rules, content) <==>
            h.rule in rules && h.rule.stage == Regex && h.stage == Regex && x.find(h.rule.pattern, content) == Some(h.text)
  {
    if rules != [] {
      HitsExactly(x, rules[..|rules| - 1], content, h);
      assert rules == rules[..|rules| - 1] + [rules[|rules| - 1]];
    }
  }

  lemma ListingsAgree(a: seq<Rule>, b: seq<Rule>, disk: map<string, Rule>, rule: Rule)
    requires Lists(a, disk) && Lists(b, disk)
    ensures rule in a <==> rule in b
  {
    if rule in a {
      InListing(a, b, disk, rule);
    }
    if rule in b {
      InListing(b, a, disk, rule);
    }
  }

  lemma InListing(a: seq<Rule>, b: seq<Rule>, disk: map<string, Rule>, rule: Rule)
    requires Lists(a, disk) && Lists(b, disk) && rule in a
    ensures rule in b
  {
    var i :| 0 <= i < |a| && a[i] == rule;
    assert Has(b, rule.name);
    assert b[Position(b, rule.name)] == rule;
  }

  const DEFAULT_RULE: Rule := Rule("rm-rf", "\\brm\\s+-rf\\b", Regex, Block, L4, "destructive recursive delete", Command)

  /** What a start finds: the stored rules in the order they are listed, or the default set when there is
      no epoch or no rule. */
  function Loaded(diskEpoch: nat, listing: seq<Rule>): (seq<Rule>, nat) {
    if diskEpoch == 0 || listing == [] then ([DEFAULT_RULE], 1) else (listing, diskEpoch)
  }

  function Seeded(disk: map<string, Rule>, diskEpoch: nat, listing: seq<Rule>): map<string, Rule> {
    if diskEpoch == 0 || listing == [] then disk[DEFAULT_RULE.name := DEFAULT_RULE] else disk
  }

  /** After a restart from a store that agrees with memory and has a rule in it, the engine goes on from the
      epoch on disk and decides the same on every content, whatever the other stages add and in whatever order
      the rules are listed. */
  lemma {:induction false} RestartDecidesTheSame(x: Matcher, s: State, listing: seq<Rule>, content: string, extra: seq<Hit>)
    requires Aligned(x, s.memory) && InSync(s) && s.diskEpoch > 0
    requires Lists(listing, s.disk) && s.disk != map[]
    ensures
      var (rules, epoch) := Loaded(s.diskEpoch, listing);
      && (forall i :: 0 <= i < |rules| ==> x.compiles(rules[i].pattern))
      && Lists(rules, s.disk) && epoch == s.diskEpoch
      && VerdictFromHits(HitsOf(x, rules, content) + extra, epoch).(reason := "")
         == VerdictFromHits(HitsOf(x, s.memory.rules, content) + extra, epoch).(reason := "")
  {
    hide HitsOf, VerdictFromHits;
    assert listing != [] by {
      var name :| name in s.disk;
      assert Has(listing, name);
    }
    forall i | 0 <= i < |listing|
      ensures x.compiles(listing[i].pattern)
    {
      InListing(listing, s.memory.rules, s.disk, listing[i]);
    }
    var a, b := HitsOf(x, listing, content), HitsOf(x, s.memory.rules, content);
    forall h
      ensures h in a + extra <==> h in b + extra
    {
      HitsExactly(x, listing, content, h);
      HitsExactly(x, s.memory.rules, content, h);
      ListingsAgree(listing, s.memory.rules, s.disk, h.rule);
    }
    DecisionIgnoresOrder(a + extra, b + extra, s.diskEpoch);
  }

  lemma FirstIsStored(listing: seq<Rule>, disk: map<string, Rule>)
    requires Lists(listing, disk)
    ensures listing != [] ==> listing[0].name in disk
  {
  }

  /** Emptying the rule set does not last: a restart brings back the default rule and epoch one. */
  lemma {:induction false} EmptyStoreReseeds(s: State)
    requires s.disk == map[]
    ensures forall listing: seq<Rule> :: Lists(listing, s.disk) ==> Loaded(s.diskEpoch, listing) == ([DEFAULT_RULE], 1)
  {
    forall listing: seq<Rule> | Lists(listing, s.disk)
      ensures listing == []
    {
      FirstIsStored(listing, s.disk);
    }
  }

  /** What that costs: after a restart of an emptied engine the decision differs exactly on the contents that
      the default pattern matches, whatever the other stages add. */
  lemma {:induction false} ReseededDecidesOtherwiseExactly(x: Matcher, content: string, extra: seq<Hit>, epoch: nat)
    requires forall i :: 0 <= i < |extra| ==> extra[i].stage != Regex
    ensures
      VerdictFromHits(HitsOf(x, [DEFAULT_RULE], content) + extra, epoch).(reason := "")
      == VerdictFromHits(HitsOf(x, [], content) + extra, epoch).(reason := "")
      <==> x.find(DEFAULT_RULE.pattern, content).None?
  {
    var found := x.find(DEFAULT_RULE.pattern, content);
    assert [DEFAULT_RULE][..0] == [] && HitsOf(x, [], content) == [];
    var hits := HitsOf(x, [DEFAULT_RULE], content);
    assert hits == if found.Some? then [Hit(DEFAULT_RULE, found.value, Regex)] else [];
    assert [] + extra == extra;
    if found.Some? {
      DefaultHitWins(Hit(DEFAULT_RULE, found.value, Regex), extra, epoch);
    }
  }

  lemma DefaultHitWins(h: Hit, extra: seq<Hit>, epoch: nat)
    requires h.rule == DEFAULT_RULE && h.stage == Regex && forall i :: 0 <= i < |extra| ==> extra[i].stage != Regex
    ensures
      var v, w := VerdictFromHits([h] + extra, epoch), VerdictFromHits(extra, epoch);
      v.action == Block && v.risk == L4 && v.stage == Regex && (w.action, w.risk, w.stage) != (Block, L4, Regex)
  {
    var all := [h] + extra;
    assert all[0] == h;
    assert h in all;
    TopDominates(all, h);
    KeyDecides(h, all[Top(all)]);
  }
}
