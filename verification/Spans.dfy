/** Choosing what to redact: candidate spans from prioritised patterns, first come first served, and rewriting
    the text from back to front. Offsets count characters. */
module Spans {
  import opened Bytes

  /** One match of a regular expression: the whole match and, if it took part, its first group. */
  datatype Capture = Capture(start: nat, end: nat, group: Option<(nat, nat)>)
  {
    predicate Inside(content: string) {
      && start <= end <= |content|
      && (group.Some? ==> start <= group.value.0 <= group.value.1 <= end)
    }

    predicate HasValueGroup() {
      group.Some? && group.value.0 < group.value.1
    }

    /** The part to hide: the group when it holds anything, the whole match otherwise. */
    function From(): nat {
      if HasValueGroup() then group.value.0 else start
    }

    function To(): nat {
      if HasValueGroup() then group.value.1 else end
    }
  }

  /** The regular expression is known only by the captures it finds. */
  datatype Pattern = Pattern(name: string, captures: string -> seq<Capture>, validator: Option<(string, nat, nat) -> bool>)

  datatype Match = Match(start: nat, end: nat, name: string, value: string)

  /** Matches lie inside the text they were found in. */
  predicate WellFormed(patterns: seq<Pattern>, content: string) {
    forall i, j :: 0 <= i < |patterns| && 0 <= j < |patterns[i].captures(content)| ==>
      patterns[i].captures(content)[j].Inside(content)
  }

  predicate Overlap(a: Match, b: Match) {
    a.start < b.end && a.end > b.start
  }

  predicate Accepts(p: Pattern, content: string, c: Capture) {
    c.From() < c.To() && (p.validator.Some? ==> p.validator.value(content, c.From(), c.To()))
  }

  // --- The candidates and the choice among them ---

  function MatchOf(p: Pattern, content: string, c: Capture): Match
    requires c.Inside(content) && c.From() < c.To()
  {
    Match(c.From(), c.To(), p.name, content[c.From()..c.To()])
  }

  function CandidatesOf(p: Pattern, content: string, captures: seq<Capture>): seq<Match>
    requires forall j :: 0 <= j < |captures| ==> captures[j].Inside(content)
  {
    if captures == [] then []
    else
      var c := captures[|captures| - 1];
      assert c.Inside(content);
      CandidatesOf(p, content, captures[..|captures| - 1])
      + if Accepts(p, content, c) then [MatchOf(p, content, c)] else []
  }

  /** Every validated, non-empty candidate of the selected patterns, in priority order. */
  function Candidates(patterns: seq<Pattern>, content: string, selected: string -> bool): seq<Match>
    requires WellFormed(patterns, content)
  {
    if patterns == [] then []
    else
      var p := patterns[|patterns| - 1];
      Candidates(patterns[..|patterns| - 1], content, selected)
      + if selected(p.name) then CandidatesOf(p, content, p.captures(content)) else []
  }

  predicate OverlapsAny(m: Match, accepted: seq<Match>) {
    exists i :: 0 <= i < |accepted| && Overlap(m, accepted[i])
  }

  function Greedy(candidates: seq<Match>): seq<Match> {
    if candidates == [] then []
    else
      var m, accepted := candidates[|candidates| - 1], Greedy(candidates[..|candidates| - 1]);
      if OverlapsAny(m, accepted) then accepted else accepted + [m]
  }

  method CollectSpans(patterns: seq<Pattern>, content: string, selected: string -> bool) returns (accepted: seq<Match>)
    requires WellFormed(patterns, content)
    ensures accepted == Greedy(Candidates(patterns, content, selected))
  {
    hide Candidates, CandidatesOf, Greedy, Overlap;
    accepted := [];
    NoCandidates(patterns, content, selected);
    for i := 0 to |patterns|
      invariant accepted == Greedy(Candidates(patterns[..i], content, selected))
    {
      var p := patterns[i];
      ghost var before := Candidates(patterns[..i], content, selected);
      CandidatesNext(patterns, content, selected, i);
      if selected(p.name) {
        var captures := p.captures(content);
        for j := 0 to |captures|
          invariant accepted == Greedy(before + CandidatesOf(p, content, captures[..j]))
        {
          ghost var found := before + CandidatesOf(p, content, captures[..j]);
          var c := captures[j];
          assert c.Inside(content);
          CandidatesOfNext(p, content, captures, j);
          var s, e := c.From(), c.To();
          if s < e && (p.validator.Some? ==> p.validator.value(content, s, e)) {
            var m := Match(s, e, p.name, content[s..e]);
            assert before + CandidatesOf(p, content, captures[..j + 1]) == found + [m];
            GreedyTakes(found, m);
            if !exists k | 0 <= k < |accepted| :: Overlap(m, accepted[k]) {
              accepted := accepted + [m];
            }
          } else {
            assert before + CandidatesOf(p, content, captures[..j + 1]) == found;
          }
        }
        assert captures[..|captures|] == captures;
      } else {
        assert before + [] == before;
      }
    }
    assert patterns[..|patterns|] == patterns;
  }

  lemma NoCandidates(patterns: seq<Pattern>, content: string, selected: string -> bool)
    requires WellFormed(patterns, content)
    ensures Candidates(patterns[..0], content, selected) == [] && Greedy([]) == []
  {
  }

  /** One pattern more. */
  lemma CandidatesNext(patterns: seq<Pattern>, content: string, selected: string -> bool, i: nat)
    requires WellFormed(patterns, content) && i < |patterns|
    ensures
      var p, before := patterns[i], Candidates(patterns[..i], content, selected);
      && Candidates(patterns[..i + 1], content, selected) ==
         before + (if selected(p.name) then CandidatesOf(p, content, p.captures(content)) else [])
      && before + CandidatesOf(p, content, p.captures(content)[..0]) == before
  {
    assert patterns[..i + 1][..i] == patterns[..i];
  }

  /** One capture more. */
  lemma CandidatesOfNext(p: Pattern, content: string, captures: seq<Capture>, j: nat)
    requires j < |captures| && forall j :: 0 <= j < |captures| ==> captures[j].Inside(content)
    ensures
      var c := captures[j];
      CandidatesOf(p, content, captures[..j + 1]) == CandidatesOf(p, content, captures[..j])
        + if Accepts(p, content, c) then [MatchOf(p, content, c)] else []
  {
    assert captures[..j + 1][..j] == captures[..j];
  }

  lemma GreedyTakes(found: seq<Match>, m: Match)
    ensures Greedy(found + [m]) == if OverlapsAny(m, Greedy(found)) then Greedy(found) else Greedy(found) + [m]
  {
    assert (found + [m])[..|found|] == found;
  }

  predicate Everything(name: string) {
    true
  }

  method HasSensitive(patterns: seq<Pattern>, content: string) returns (sensitive: bool)
    requires WellFormed(patterns, content)
    ensures sensitive <==> Greedy(Candidates(patterns, content, Everything)) != []
  {
    hide Candidates, CandidatesOf, Greedy;
    GreedyIsNonempty(Candidates(patterns, content, Everything));
    NoCandidates(patterns, content, Everything);
    for i := 0 to |patterns|
      invariant Candidates(patterns[..i], content, Everything) == []
    {
      var p, captures := patterns[i], patterns[i].captures(content);
      CandidatesNext(patterns, content, Everything, i);
      for j := 0 to |captures|
        invariant CandidatesOf(p, content, captures[..j]) == []
      {
        CandidatesOfNext(p, content, captures, j);
        if Accepts(p, content, captures[j]) {
          CandidatesOfGrow(p, content, captures, j + 1);
          CandidatesGrow(patterns, content, i + 1);
          return true;
        }
      }
      assert captures[..|captures|] == captures;
    }
    assert patterns[..|patterns|] == patterns;
    return false;
  }

  lemma {:induction false} GreedyIsNonempty(candidates: seq<Match>)
    ensures Greedy(candidates) != [] <==> candidates != []
  {
    if candidates != [] {
      GreedyIsNonempty(candidates[..|candidates| - 1]);
    }
  }

  lemma {:induction false} CandidatesOfGrow(p: Pattern, content: string, captures: seq<Capture>, j: nat)
    requires j <= |captures| && forall j :: 0 <= j < |captures| ==> captures[j].Inside(content)
    ensures |CandidatesOf(p, content, captures[..j])| <= |CandidatesOf(p, content, captures)|
  {
    if j == |captures| {
      assert captures[..j] == captures;
    } else {
      CandidatesOfGrow(p, content, captures[..|captures| - 1], j);
      assert captures[..|captures| - 1][..j] == captures[..j];
    }
  }

  lemma {:induction false} CandidatesGrow(patterns: seq<Pattern>, content: string, i: nat)
    requires i <= |patterns| && WellFormed(patterns, content)
    ensures |Candidates(patterns[..i], content, Everything)| <= |Candidates(patterns, content, Everything)|
  {
    if i == |patterns| {
      assert patterns[..i] == patterns;
    } else {
      CandidatesGrow(patterns[..|patterns| - 1], content, i);
      assert patterns[..|patterns| - 1][..i] == patterns[..i];
    }
  }

  // --- What the choice guarantees ---

  predicate Faithful(content: string, m: Match) {
    m.start < m.end <= |content| && m.value == content[m.start..m.end]
  }

  /** A candidate is a piece of the text that a selected pattern found and validated. */
  lemma {:induction false} CandidatesAreFaithful(patterns: seq<Pattern>, content: string, selected: string -> bool, k: nat)
    returns (i: nat)
    requires WellFormed(patterns, content) && k < |Candidates(patterns, content, selected)|
    ensures Faithful(content, Candidates(patterns, content, selected)[k])
    ensures i < |patterns| && selected(patterns[i].name)
    ensures var m, p := Candidates(patterns, content, selected)[k], patterns[i];
            m.name == p.name && (p.validator.Some? ==> p.validator.value(content, m.start, m.end))
  {
    i := |patterns| - 1;
    var p := patterns[i];
    var before := Candidates(patterns[..i], content, selected);
    if k < |before| {
      i := CandidatesAreFaithful(patterns[..i], content, selected, k);
    } else {
      CandidatesOfAreFaithful(p, content, p.captures(content), k - |before|);
    }
  }

  /** Where the expression has a group that took part and is not empty, only the group is hidden and the text
      around it stays; otherwise the whole match is. */
  lemma {:induction false} OnlyTheGroupIsHidden(p: Pattern, content: string, c: Capture)
    requires c.Inside(content) && c.From() < c.To()
    ensures
      var m := MatchOf(p, content, c);
      && m.name == p.name && Faithful(content, m)
      && (c.group.Some? && c.group.value.0 < c.group.value.1 ==> (m.start, m.end) == c.group.value)
      && (c.group.None? || c.group.value.0 == c.group.value.1 ==> (m.start, m.end) == (c.start, c.end))
  {
  }

  lemma {:induction false} CaptureOfIsCandidate(p: Pattern, content: string, captures: seq<Capture>, j: nat) returns (k: nat)
    requires (forall j :: 0 <= j < |captures| ==> captures[j].Inside(content)) && j < |captures|
    requires Accepts(p, content, captures[j])
    ensures k < |CandidatesOf(p, content, captures)| && CandidatesOf(p, content, captures)[k] == MatchOf(p, content, captures[j])
  {
    var n := |captures| - 1;
    if j < n {
      k := CaptureOfIsCandidate(p, content, captures[..n], j);
    } else {
      k := |CandidatesOf(p, content, captures[..n])|;
    }
  }

  /** Every validated capture of a selected pattern is a candidate, after those of the patterns before it
      and before those of the patterns after it. */
  lemma {:induction false} CaptureIsCandidate(patterns: seq<Pattern>, content: string, selected: string -> bool, i: nat, j: nat)
    returns (k: nat)
    requires WellFormed(patterns, content) && i < |patterns| && j < |patterns[i].captures(content)|
    requires selected(patterns[i].name) && Accepts(patterns[i], content, patterns[i].captures(content)[j])
    ensures |Candidates(patterns[..i], content, selected)| <= k < |Candidates(patterns[..i + 1], content, selected)|
    ensures k < |Candidates(patterns, content, selected)|
    ensures Candidates(patterns, content, selected)[k] == MatchOf(patterns[i], content, patterns[i].captures(content)[j])
  {
    hide CandidatesOf;
    var n := |patterns| - 1;
    if i < n {
      k := CaptureIsCandidate(patterns[..n], content, selected, i, j);
      assert patterns[..n][..i] == patterns[..i] && patterns[..n][..i + 1] == patterns[..i + 1];
    } else {
      k := CaptureOfIsCandidate(patterns[n], content, patterns[n].captures(content), j);
      k := k + |Candidates(patterns[..n], content, selected)|;
      assert patterns[..i + 1] == patterns;
    }
  }

  lemma {:induction false} CandidatesOfAreFaithful(p: Pattern, content: string, captures: seq<Capture>, k: nat)
    requires forall j :: 0 <= j < |captures| ==> captures[j].Inside(content)
    requires k < |CandidatesOf(p, content, captures)|
    ensures Faithful(content, CandidatesOf(p, content, captures)[k])
    ensures var m := CandidatesOf(p, content, captures)[k];
            m.name == p.name && (p.validator.Some? ==> p.validator.value(content, m.start, m.end))
  {
    var n := |captures| - 1;
    if k < |CandidatesOf(p, content, captures[..n])| {
      CandidatesOfAreFaithful(p, content, captures[..n], k);
    }
  }

  /** Each accepted span is a candidate. */
  lemma {:induction false} AcceptedIsCandidate(candidates: seq<Match>, i: nat) returns (k: nat)
    requires i < |Greedy(candidates)|
    ensures k < |candidates| && candidates[k] == Greedy(candidates)[i]
    ensures Greedy(candidates[..k]) == Greedy(candidates)[..i]
  {
    var n := |candidates| - 1;
    var accepted := Greedy(candidates[..n]);
    if i < |accepted| {
      k := AcceptedIsCandidate(candidates[..n], i);
      assert candidates[..n][..k] == candidates[..k];
    } else {
      k := n;
    }
  }

  /** No two accepted spans overlap. */
  lemma {:induction false} AcceptedAreDisjoint(candidates: seq<Match>, i: nat, j: nat)
    requires i < j < |Greedy(candidates)|
    ensures !Overlap(Greedy(candidates)[i], Greedy(candidates)[j]) && !Overlap(Greedy(candidates)[j], Greedy(candidates)[i])
  {
    var n := |candidates| - 1;
    if j < |Greedy(candidates[..n])| {
      AcceptedAreDisjoint(candidates[..n], i, j);
    }
  }

  lemma {:induction false} GreedyExtends(candidates: seq<Match>, k: nat)
    requires k <= |candidates|
    ensures Greedy(candidates[..k]) <= Greedy(candidates)
  {
    if k == |candidates| {
      assert candidates[..k] == candidates;
    } else {
      GreedyExtends(candidates[..|candidates| - 1], k);
      assert candidates[..|candidates| - 1][..k] == candidates[..k];
    }
  }

  /** A candidate is accepted, or it overlaps a span that was accepted before its turn. */
  lemma {:induction false} LeftOutOverlapsEarlier(candidates: seq<Match>, k: nat)
    requires k < |candidates|
    ensures Greedy(candidates[..k]) <= Greedy(candidates)
    ensures OverlapsAny(candidates[k], Greedy(candidates[..k])) || candidates[k] in Greedy(candidates)
  {
    hide OverlapsAny;
    var n := |candidates| - 1;
    GreedyExtends(candidates, k);
    if k < n {
      LeftOutOverlapsEarlier(candidates[..n], k);
      assert candidates[..n][..k] == candidates[..k];
    }
  }

  // --- Rewriting ---

  datatype Edit = Edit(start: nat, end: nat, text: string)

  /** Spans in text order, apart from each other and inside the text. */
  predicate InOrder(content: string, edits: seq<Edit>, from: nat) {
    if edits == [] then from <= |content|
    else from <= edits[0].start <= edits[0].end && InOrder(content, edits[1..], edits[0].end)
  }

  /** The forward splice: text up to the next span, its replacement, and so on. */
  function Splice(content: string, edits: seq<Edit>, from: nat): string
    requires InOrder(content, edits, from)
    decreases |edits|
  {
    if edits == [] then content[from..]
    else
      OrderBounds(content, edits, from);
      content[from..edits[0].start] + edits[0].text + Splice(content, edits[1..], edits[0].end)
  }

  lemma {:induction false} OrderBounds(content: string, edits: seq<Edit>, from: nat)
    requires InOrder(content, edits, from)
    ensures from <= |content| && forall i :: 0 <= i < |edits| ==> from <= edits[i].start <= edits[i].end <= |content|
    decreases |edits|
  {
    if edits != [] {
      OrderBounds(content, edits[1..], edits[0].end);
      assert forall i :: 0 < i < |edits| ==> edits[i] == edits[1..][i - 1];
    }
  }

  /** Up to any point before the first span, splicing leaves the text as it is. */
  lemma SpliceFrom(content: string, edits: seq<Edit>, from: nat, at: nat)
    requires InOrder(content, edits, from) && from <= at <= |content| && (edits != [] ==> at <= edits[0].start)
    ensures InOrder(content, edits, at) && Splice(content, edits, from) == content[from..at] + Splice(content, edits, at)
  {
    OrderBounds(content, edits, from);
    if edits == [] {
      assert content[from..] == content[from..at] + content[at..];
    } else {
      var e, rest := edits[0], Splice(content, edits[1..], edits[0].end);
      assert content[from..e.start] == content[from..at] + content[at..e.start];
      Regroup(content[from..at], content[at..e.start], e.text, rest);
    }
  }

  lemma Regroup(a: string, b: string, c: string, d: string)
    ensures (a + b) + c + d == a + (b + c + d)
  {
  }

  lemma {:induction false} OrderSuffix(content: string, edits: seq<Edit>, from: nat, i: nat)
    requires InOrder(content, edits, from) && i < |edits|
    ensures InOrder(content, edits[i..], if i == 0 then from else edits[i - 1].end)
    decreases |edits|
  {
    if i == 0 {
      assert edits[0..] == edits;
    } else {
      OrderSuffix(content, edits[1..], edits[0].end, i - 1);
      assert edits[1..][i - 1..] == edits[i..];
    }
  }

  /** Replacing the spans in place from the last to the first gives the forward splice. */
  method ReplaceBackToFront(content: string, edits: seq<Edit>) returns (out: string)
    requires InOrder(content, edits, 0)
    ensures out == Splice(content, edits, 0)
  {
    out := content;
    var i := |edits|;
    while i > 0
      invariant 0 <= i <= |edits|
      invariant InOrder(content, edits[i..], 0) && out == Splice(content, edits[i..], 0)
    {
      i := i - 1;
      var e := edits[i];
      EditStep(content, edits, i);
      out := out[..e.start] + e.text + out[e.end..];
    }
    assert edits[0..] == edits;
  }

  lemma EditStep(content: string, edits: seq<Edit>, i: nat)
    requires InOrder(content, edits, 0) && i < |edits| && InOrder(content, edits[i + 1..], 0)
    ensures
      var e, out := edits[i], Splice(content, edits[i + 1..], 0);
      && InOrder(content, edits[i..], 0)
      && e.start <= e.end <= |out|
      && Splice(content, edits[i..], 0) == out[..e.start] + e.text + out[e.end..]
  {
    hide Splice;
    var e, rest := edits[i], edits[i + 1..];
    OrderBounds(content, edits, 0);
    OrderSuffix(content, edits, 0, i);
    if i > 0 {
      OrderWidens(content, edits[i..], edits[i - 1].end);
    }
    assert edits[i..][0] == e && edits[i..][1..] == rest;
    SpliceFrom(content, rest, 0, e.end);
    var out := Splice(content, rest, 0);
    assert out == content[..e.end] + Splice(content, rest, e.end);
    assert out[..e.start] == content[..e.start] && out[e.end..] == Splice(content, rest, e.end);
    SpliceHead(content, edits[i..], 0);
  }

  lemma OrderWidens(content: string, edits: seq<Edit>, from: nat)
    requires InOrder(content, edits, from)
    ensures InOrder(content, edits, 0)
  {
  }

  lemma SpliceHead(content: string, edits: seq<Edit>, from: nat)
    requires edits != [] && InOrder(content, edits, from)
    ensures InOrder(content, edits[1..], edits[0].end) && from <= edits[0].start <= |content|
    ensures Splice(content, edits, from) ==
            content[from..edits[0].start] + edits[0].text + Splice(content, edits[1..], edits[0].end)
  {
    OrderBounds(content, edits, from);
  }

  /** Splicing every span's own text back in changes nothing: all the rest of the text is kept, in order. */
  lemma {:induction false} SpliceOfOwnText(content: string, edits: seq<Edit>, from: nat)
    requires InOrder(content, edits, from)
    requires forall i :: 0 <= i < |edits| ==>
      edits[i].start <= edits[i].end <= |content| && edits[i].text == content[edits[i].start..edits[i].end]
    ensures Splice(content, edits, from) == content[from..]
    decreases |edits|
  {
    if edits != [] {
      OrderBounds(content, edits, from);
      assert forall i :: 0 < i < |edits| ==> edits[i] == edits[1..][i - 1];
      SpliceOfOwnText(content, edits[1..], edits[0].end);
      hide Splice;
      SpliceHead(content, edits, from);
      ThreeParts(content, from, edits[0].start, edits[0].end);
    }
  }

  lemma ThreeParts(content: string, a: nat, b: nat, c: nat)
    requires a <= b <= c <= |content|
    ensures content[a..] == content[a..b] + content[b..c] + content[c..] == content[a..b] + (content[b..c] + content[c..])
  {
  }

  // --- Accepted spans in text order ---

  function Placed(m: Match, sorted: seq<Match>): seq<Match> {
    if sorted == [] || m.start < sorted[0].start then [m] + sorted else [sorted[0]] + Placed(m, sorted[1..])
  }

  /** Stable sort by position. */
  function ByStart(ms: seq<Match>): seq<Match> {
    if ms == [] then [] else Placed(ms[|ms| - 1], ByStart(ms[..|ms| - 1]))
  }

  /** Non-empty spans of the text, one after the other, each carrying its text. */
  predicate Lined(content: string, ms: seq<Match>, from: nat) {
    if ms == [] then from <= |content|
    else from <= ms[0].start && Faithful(content, ms[0]) && Lined(content, ms[1..], ms[0].end)
  }

  predicate Apart(m: Match, ms: seq<Match>) {
    forall i :: 0 <= i < |ms| ==> !Overlap(m, ms[i])
  }

  lemma {:induction false} PlacedIsLined(content: string, m: Match, sorted: seq<Match>, from: nat)
    requires Lined(content, sorted, from) && Faithful(content, m) && Apart(m, sorted) && from <= m.start
    ensures Lined(content, Placed(m, sorted), from)
    decreases |sorted|
  {
    if sorted != [] {
      assert !Overlap(m, sorted[0]);
      if m.start < sorted[0].start {
        assert ([m] + sorted)[1..] == sorted;
      } else {
        forall i | 0 <= i < |sorted[1..]|
          ensures !Overlap(m, sorted[1..][i])
        {
          assert sorted[1..][i] == sorted[i + 1];
        }
        PlacedIsLined(content, m, sorted[1..], sorted[0].end);
        assert ([sorted[0]] + Placed(m, sorted[1..]))[1..] == Placed(m, sorted[1..]);
      }
    } else {
      assert ([m] + sorted)[1..] == [];
    }
  }

  lemma {:induction false} PlacedHas(m: Match, sorted: seq<Match>)
    ensures multiset(Placed(m, sorted)) == multiset(sorted) + multiset{m}
  {
    PlacedStep(m, sorted);
    hide Placed;
    if sorted == [] || m.start < sorted[0].start {
      OneMore(m, sorted);
    } else {
      var head, rest := sorted[0], sorted[1..];
      PlacedHas(m, rest);
      assert sorted == [head] + rest;
      OneMore(head, Placed(m, rest));
      OneMore(head, rest);
      Reorder(multiset(rest), m, head);
    }
  }

  lemma PlacedStep(m: Match, sorted: seq<Match>)
    ensures Placed(m, sorted) ==
            if sorted == [] || m.start < sorted[0].start then [m] + sorted else [sorted[0]] + Placed(m, sorted[1..])
  {
  }

  lemma Reorder(s: multiset<Match>, a: Match, b: Match)
    ensures s + multiset{a} + multiset{b} == s + multiset{b} + multiset{a}
  {
  }

  lemma OneMore(m: Match, ms: seq<Match>)
    ensures multiset([m] + ms) == multiset(ms) + multiset{m}
  {
  }

  /** Sorting disjoint spans lines them up and loses none. */
  lemma {:induction false} ByStartIsLined(content: string, ms: seq<Match>)
    requires forall i :: 0 <= i < |ms| ==> Faithful(content, ms[i])
    requires forall i, j :: 0 <= i < j < |ms| ==> !Overlap(ms[j], ms[i])
    ensures Lined(content, ByStart(ms), 0)
    ensures multiset(ByStart(ms)) == multiset(ms)
  {
    hide Overlap, Faithful, Placed;
    if ms != [] {
      var k := |ms| - 1;
      var rest := ByStart(ms[..k]);
      ByStartIsLined(content, ms[..k]);
      forall i | 0 <= i < |rest|
        ensures !Overlap(ms[k], rest[i])
      {
        assert rest[i] in multiset(ms[..k]);
      }
      PlacedIsLined(content, ms[k], rest, 0);
      PlacedHas(ms[k], rest);
      assert ms == ms[..k] + [ms[k]];
    }
  }

  /** What redaction works on: the accepted spans, lined up. */
  lemma {:induction false} AcceptedLineUp(patterns: seq<Pattern>, content: string, selected: string -> bool)
    requires WellFormed(patterns, content)
    ensures
      var accepted := Greedy(Candidates(patterns, content, selected));
      Lined(content, ByStart(accepted), 0) && multiset(ByStart(accepted)) == multiset(accepted)
  {
    hide Overlap, Faithful, Greedy, Candidates, ByStart;
    var candidates := Candidates(patterns, content, selected);
    var accepted := Greedy(candidates);
    forall i | 0 <= i < |accepted|
      ensures Faithful(content, accepted[i])
    {
      var k := AcceptedIsCandidate(candidates, i);
      var _ := CandidatesAreFaithful(patterns, content, selected, k);
    }
    forall i, j | 0 <= i < j < |accepted|
      ensures !Overlap(accepted[j], accepted[i])
    {
      AcceptedAreDisjoint(candidates, i, j);
    }
    ByStartIsLined(content, accepted);
  }

  /** The edits that put a label in place of each span. */
  function Edits(ms: seq<Match>, labels: seq<string>): seq<Edit>
    requires |labels| == |ms|
  {
    if ms == [] then [] else [Edit(ms[0].start, ms[0].end, labels[0])] + Edits(ms[1..], labels[1..])
  }

  lemma {:induction false} EditsAreInOrder(content: string, ms: seq<Match>, labels: seq<string>, from: nat)
    requires |labels| == |ms| && Lined(content, ms, from)
    ensures InOrder(content, Edits(ms, labels), from)
    decreases |ms|
  {
    if ms != [] {
      EditsAreInOrder(content, ms[1..], labels[1..], ms[0].end);
      assert Edits(ms, labels)[1..] == Edits(ms[1..], labels[1..]);
    }
  }

  function Labels(ms: seq<Match>): seq<string> {
    if ms == [] then [] else ["[REDACTED:" + ms[0].name + "]"] + Labels(ms[1..])
  }

  /** Redaction with plain labels; the count says how many spans were hidden. */
  method RedactCounted(patterns: seq<Pattern>, content: string, selected: string -> bool) returns (out: string, total: nat)
    requires WellFormed(patterns, content)
    ensures
      var ms := ByStart(Greedy(Candidates(patterns, content, selected)));
      && total == |ms| && |Labels(ms)| == |ms|
      && InOrder(content, Edits(ms, Labels(ms)), 0) && out == Splice(content, Edits(ms, Labels(ms)), 0)
  {
    var spans := CollectSpans(patterns, content, selected);
    total := |spans|;
    var ms := ByStart(spans);
    AcceptedLineUp(patterns, content, selected);
    LabelsCount(ms);
    EditsAreInOrder(content, ms, Labels(ms), 0);
    assert |ms| == |multiset(ms)| == |multiset(spans)| == |spans|;
    if spans == [] {
      return content, 0;
    }
    out := ReplaceBackToFront(content, Edits(ms, Labels(ms)));
  }

  lemma {:induction false} LabelsCount(ms: seq<Match>)
    ensures |Labels(ms)| == |ms|
  {
    if ms != [] {
      LabelsCount(ms[1..]);
    }
  }

  /** The whole value when it is short, its last four characters otherwise. */
  function Last4(s: string): string {
    if |s| <= 4 then s else s[|s| - 4..]
  }

  function Last4Labels(ms: seq<Match>): seq<string> {
    if ms == [] then [] else ["[REDACTED:" + ms[0].name + "#" + Last4(ms[0].value) + "]"] + Last4Labels(ms[1..])
  }

  lemma {:induction false} Last4LabelsCount(ms: seq<Match>)
    ensures |Last4Labels(ms)| == |ms|
  {
    if ms != [] {
      Last4LabelsCount(ms[1..]);
    }
  }

  /** Redaction for good: each label keeps the last four characters of what it hides. */
  method RedactIrreversible(patterns: seq<Pattern>, content: string) returns (out: string)
    requires WellFormed(patterns, content)
    ensures
      var ms := ByStart(Greedy(Candidates(patterns, content, Everything)));
      && |Last4Labels(ms)| == |ms|
      && InOrder(content, Edits(ms, Last4Labels(ms)), 0) && out == Splice(content, Edits(ms, Last4Labels(ms)), 0)
  {
    var spans := CollectSpans(patterns, content, Everything);
    var ms := ByStart(spans);
    AcceptedLineUp(patterns, content, Everything);
    Last4LabelsCount(ms);
    EditsAreInOrder(content, ms, Last4Labels(ms), 0);
    out := ReplaceBackToFront(content, Edits(ms, Last4Labels(ms)));
  }
}
