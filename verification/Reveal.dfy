/** Reversible redaction end to end: hide spans behind placeholders, keep the originals in the token store,
    and put them back on request. */
module Reveal {
  import opened Bytes
  import opened Spans
  import opened Placeholders
  import T = Tokens

  // --- Redacting ---

  /** `supply` yields the token ids made for this text, in text order. */
  function TokenLabels(ms: seq<Match>, supply: nat -> string, k: nat): seq<string> {
    if ms == [] then [] else [Placeholder(ms[0].name, supply(k))] + TokenLabels(ms[1..], supply, k + 1)
  }

  lemma {:induction false} TokenLabelsCount(ms: seq<Match>, supply: nat -> string, k: nat)
    ensures |TokenLabels(ms, supply, k)| == |ms|
  {
    if ms != [] {
      TokenLabelsCount(ms[1..], supply, k + 1);
    }
  }

  /** The text with its spans behind marks. */
  function MaskOf(content: string, ms: seq<Match>, supply: nat -> string, k: nat, from: nat): Masked
    requires Lined(content, ms, from)
    decreases |ms|
  {
    LinedBounds(content, ms, from);
    if ms == [] then PlainText(content[from..])
    else
      PlainText(content[from..ms[0].start])
      + ([Mark(ms[0].name, supply(k), ms[0].value)] + MaskOf(content, ms[1..], supply, k + 1, ms[0].end))
  }

  lemma {:induction false} LinedBounds(content: string, ms: seq<Match>, from: nat)
    requires Lined(content, ms, from)
    ensures from <= |content|
    decreases |ms|
  {
    if ms != [] {
      LinedBounds(content, ms[1..], ms[0].end);
    }
  }

  /** The masked text shows the placeholders in place of the spans, and hides exactly the text it came from. */
  lemma {:induction false} MaskReads(content: string, ms: seq<Match>, supply: nat -> string, k: nat, from: nat)
    requires Lined(content, ms, from)
    ensures from <= |content| && |TokenLabels(ms, supply, k)| == |ms| && InOrder(content, Edits(ms, TokenLabels(ms, supply, k)), from)
    ensures Shown(MaskOf(content, ms, supply, k, from)) == Splice(content, Edits(ms, TokenLabels(ms, supply, k)), from)
    ensures Original(MaskOf(content, ms, supply, k, from)) == content[from..]
  {
    hide *;
    LinedBounds(content, ms, from);
    TokenLabelsCount(ms, supply, k);
    EditsAreInOrder(content, ms, TokenLabels(ms, supply, k), from);
    MaskShows(content, ms, supply, k, from);
    MaskHides(content, ms, supply, k, from);
  }

  lemma {:induction false} MaskShows(content: string, ms: seq<Match>, supply: nat -> string, k: nat, from: nat)
    requires Lined(content, ms, from)
    requires |TokenLabels(ms, supply, k)| == |ms| && InOrder(content, Edits(ms, TokenLabels(ms, supply, k)), from)
    ensures Shown(MaskOf(content, ms, supply, k, from)) == Splice(content, Edits(ms, TokenLabels(ms, supply, k)), from)
    decreases |ms|
  {
    hide Placeholder, Shown, Faithful;
    LinedBounds(content, ms, from);
    if ms == [] {
      PlainTextReads(content[from..]);
    } else {
      var m, labels := ms[0], TokenLabels(ms[1..], supply, k + 1);
      MaskReadsStep(content, ms, supply, k, from);
      TokenLabelsCount(ms[1..], supply, k + 1);
      assert TokenLabels(ms, supply, k)[1..] == labels;
      assert Edits(ms, TokenLabels(ms, supply, k))[1..] == Edits(ms[1..], labels);
      MaskShows(content, ms[1..], supply, k + 1, m.end);
      var gap, shown, rest := content[from..m.start], Placeholder(m.name, supply(k)), Splice(content, Edits(ms[1..], labels), m.end);
      assert gap + shown + rest == gap + (shown + rest);
    }
  }

  lemma {:induction false} MaskHides(content: string, ms: seq<Match>, supply: nat -> string, k: nat, from: nat)
    requires Lined(content, ms, from) && from <= |content|
    ensures Original(MaskOf(content, ms, supply, k, from)) == content[from..]
    decreases |ms|
  {
    hide Original, Placeholder, MaskOf, PlainText;
    if ms == [] {
      NothingMasked(content, supply, k, from);
      PlainTextReads(content[from..]);
    } else {
      var m := ms[0];
      MaskReadsStep(content, ms, supply, k, from);
      MaskHides(content, ms[1..], supply, k + 1, m.end);
      ThreeParts(content, from, m.start, m.end);
    }
  }

  lemma NothingMasked(content: string, supply: nat -> string, k: nat, from: nat)
    requires from <= |content|
    ensures Lined(content, [], from) && MaskOf(content, [], supply, k, from) == PlainText(content[from..])
  {
  }

  lemma MaskReadsStep(content: string, ms: seq<Match>, supply: nat -> string, k: nat, from: nat)
    requires ms != [] && Lined(content, ms, from)
    ensures from <= ms[0].start <= |content| && Lined(content, ms[1..], ms[0].end)
    ensures
      var m, rest := ms[0], MaskOf(content, ms[1..], supply, k + 1, ms[0].end);
      var gap := content[from..m.start];
      && Shown(MaskOf(content, ms, supply, k, from)) == gap + (Placeholder(m.name, supply(k)) + Shown(rest))
      && Original(MaskOf(content, ms, supply, k, from)) == gap + (m.value + Original(rest))
  {
    hide Placeholder;
    LinedBounds(content, ms, from);
    var m, rest := ms[0], MaskOf(content, ms[1..], supply, k + 1, ms[0].end);
    var gap, mark := content[from..m.start], Mark(m.name, supply(k), m.value);
    PlainTextReads(gap);
    ConcatSplits(PlainText(gap), [mark] + rest);
    assert ([mark] + rest)[1..] == rest;
  }

  datatype ReversibleMatch = ReversibleMatch(placeholder: string, token: string, original: string)

  method RedactReversible(patterns: seq<Pattern>, content: string, supply: nat -> string)
    returns (out: string, matches: seq<ReversibleMatch>)
    requires WellFormed(patterns, content)
    ensures
      var ms := ByStart(Greedy(Candidates(patterns, content, Everything)));
      && Lined(content, ms, 0)
      && out == Shown(MaskOf(content, ms, supply, 0, 0))
      && |matches| == |ms|
      && forall i :: 0 <= i < |ms| ==> matches[i] == ReversibleMatch(Placeholder(ms[i].name, supply(i)), supply(i), ms[i].value)
  {
    hide Placeholder, Candidates, Greedy, ByStart, Lined, Splice, MaskOf, Shown;
    var spans := CollectSpans(patterns, content, Everything);
    AcceptedLineUp(patterns, content, Everything);
    var byPos := ByStart(spans);
    MaskReads(content, byPos, supply, 0, 0);
    matches := [];
    var labels: seq<string> := [];
    LabelsSoFar(byPos, supply, 0);
    for i := 0 to |byPos|
      invariant |matches| == i && labels == TokenLabels(byPos[..i], supply, 0)
      invariant forall j :: 0 <= j < i ==> matches[j] == ReversibleMatch(Placeholder(byPos[j].name, supply(j)), supply(j), byPos[j].value)
    {
      var token := supply(i);
      var placeholder := Placeholder(byPos[i].name, token);
      LabelsNext(byPos, supply, i);
      labels := labels + [placeholder];
      matches := matches + [ReversibleMatch(placeholder, token, byPos[i].value)];
    }
    assert byPos[..|byPos|] == byPos;
    out := ReplaceBackToFront(content, Edits(byPos, labels));
  }

  lemma LabelsSoFar(ms: seq<Match>, supply: nat -> string, k: nat)
    ensures TokenLabels(ms[..0], supply, k) == []
  {
  }

  lemma LabelsNext(ms: seq<Match>, supply: nat -> string, i: nat)
    requires i < |ms|
    ensures TokenLabels(ms[..i + 1], supply, 0) == TokenLabels(ms[..i], supply, 0) + [Placeholder(ms[i].name, supply(i))]
  {
    assert ms[..i + 1] == ms[..i] + [ms[i]];
    LabelsSnoc(ms[..i], ms[i], supply, 0);
  }

  lemma {:induction false} LabelsSnoc(ms: seq<Match>, m: Match, supply: nat -> string, k: nat)
    ensures TokenLabels(ms + [m], supply, k) == TokenLabels(ms, supply, k) + [Placeholder(m.name, supply(k + |ms|))]
  {
    hide Placeholder;
    if ms != [] {
      assert (ms + [m])[1..] == ms[1..] + [m];
      LabelsSnoc(ms[1..], m, supply, k + 1);
    }
  }

  /** What the surroundings supply to one redaction: for the i-th span its token id, the nonce and time of
      its put, and whether that put succeeds. */
  datatype Draws = Draws(token: nat -> string, nonce: nat -> Bytes, now: nat -> int, stored: nat -> bool)

  /** The token store after the first `n` originals went in; one that could not be stored is passed over. */
  function Stored(c: T.Cipher, s: T.State, ms: seq<Match>, tenant: string, d: Draws, n: nat): T.State
    requires n <= |ms|
  {
    if n == 0 then s
    else
      var before, k := Stored(c, s, ms, tenant, d, n - 1), n - 1;
      if d.stored(k) then T.Put(c, before, d.token(k), ms[k].value, tenant, d.nonce(k), d.now(k)) else before
  }

  datatype RedactResult = RedactResult(content: string, tokenMapId: Option<string>)

  method RedactTenant(tokens: T.TokenStore, patterns: seq<Pattern>, content: string, reversible: bool, tenant: string,
                      d: Draws, start: int)
    returns (r: RedactResult)
    requires WellFormed(patterns, content)
    modifies tokens`tokens
    ensures
      var ms, before := ByStart(Greedy(Candidates(patterns, content, Everything))), T.Evicted(old(tokens.Abstract()), start);
      && Lined(content, ms, 0)
      && (reversible ==>
            && r == RedactResult(Shown(MaskOf(content, ms, d.token, 0, 0)), if ms == [] then None else Some(d.token(0)))
            && tokens.Abstract() == Stored(tokens.cipher, before, ms, tenant, d, |ms|))
      && (!reversible ==>
            && |Last4Labels(ms)| == |ms| && InOrder(content, Edits(ms, Last4Labels(ms)), 0)
            && r == RedactResult(Splice(content, Edits(ms, Last4Labels(ms)), 0), None)
            && tokens.Abstract() == before)
  {
    hide Placeholder, Candidates, Greedy, ByStart, Lined, MaskOf, Shown, Splice, InOrder, Last4Labels, T.Put, T.Evicted;
    var _ := tokens.EvictExpired(start);
    ghost var s := tokens.Abstract();
    ghost var ms := ByStart(Greedy(Candidates(patterns, content, Everything)));
    AcceptedLineUp(patterns, content, Everything);
    if reversible {
      var redacted, matches := RedactReversible(patterns, content, d.token);
      for i := 0 to |matches|
        invariant tokens.Abstract() == Stored(tokens.cipher, s, ms, tenant, d, i)
      {
        if d.stored(i) {
          tokens.PutTenant(matches[i].token, matches[i].original, tenant, d.nonce(i), d.now(i));
        }
      }
      r := RedactResult(redacted, if matches == [] then None else Some(matches[0].token));
    } else {
      var redacted := RedactIrreversible(patterns, content);
      r := RedactResult(redacted, None);
    }
  }

  // --- Revealing ---

  /** The token store and the text after some of the placeholders were dealt with; there is no text when the
      fallback label could not be cut from a token id that is too short. */
  datatype Progress = Progress(state: T.State, text: Option<string>)

  const SHORT_ID: nat := 8
  const FALLBACK_KIND: string := "unrecoverable"

  function Revealing(c: T.Cipher, s: T.State, content: string, found: seq<(string, string)>, tenant: string,
                     clock: nat -> int, n: nat): Progress
    requires n <= |found|
  {
    if n == 0 then Progress(s, Some(content))
    else
      var p, (kind, id), now := Revealing(c, s, content, found, tenant, clock, n - 1), found[n - 1], clock(n - 1);
      if p.text.None? then p
      else
        var held := T.Flagged(p.state, id, true);
        var after := T.AfterRead(held, id, tenant, now);
        var read := T.ReadOf(c, held, id, tenant, now);
        var text := Replaced(p.text.value, kind, id, if read.Revealed? then Some(read.text) else None);
        Progress(if text.Some? then T.Flagged(after, id, false) else after, text)
  }

  /** One placeholder gives way to the original, or to a label that says it is gone. */
  function Replaced(text: string, kind: string, id: string, original: Option<string>): Option<string> {
    match original
    case Some(o) => Some(ReplaceAll(text, Placeholder(kind, id), o))
    case None =>
      if |id| < SHORT_ID then None
      else Some(ReplaceAll(text, Placeholder(kind, id), Placeholder(FALLBACK_KIND, id[..SHORT_ID])))
  }

  method RevealTenant(tokens: T.TokenStore, content: string, tenant: string, start: int, clock: nat -> int)
    returns (restored: Option<string>)
    modifies tokens`tokens
    ensures
      var found := Extract(content);
      Progress(tokens.Abstract(), restored)
        == Revealing(tokens.cipher, T.Evicted(old(tokens.Abstract()), start), content, found, tenant, clock, |found|)
  {
    hide Extract, ReplaceAll, Placeholder, T.Evicted, T.ReadOf, T.AfterRead, T.Flagged;
    var _ := tokens.EvictExpired(start);
    var found := Extract(content);
    ghost var s := tokens.Abstract();
    var text := content;
    for i := 0 to |found|
      invariant Progress(tokens.Abstract(), Some(text)) == Revealing(tokens.cipher, s, content, found, tenant, clock, i)
    {
      var (kind, id) := found[i];
      tokens.SetInFlight(id, true);
      var read := tokens.GetTenant(id, tenant, clock(i));
      var placeholder := Placeholder(kind, id);
      if read.Revealed? {
        text := ReplaceAll(text, placeholder, read.text);
      } else if |id| < SHORT_ID {
        StopsHere(tokens.cipher, s, content, found, tenant, clock, i, |found|);
        return None;
      } else {
        text := ReplaceAll(text, placeholder, Placeholder(FALLBACK_KIND, id[..SHORT_ID]));
      }
      tokens.SetInFlight(id, false);
    }
    restored := Some(text);
  }

  lemma {:induction false} StopsHere(c: T.Cipher, s: T.State, content: string, found: seq<(string, string)>, tenant: string,
                                     clock: nat -> int, i: nat, n: nat)
    requires i < n <= |found| && Revealing(c, s, content, found, tenant, clock, i + 1).text.None?
    ensures Revealing(c, s, content, found, tenant, clock, n) == Revealing(c, s, content, found, tenant, clock, i + 1)
    decreases n
  {
    if n > i + 1 {
      StopsHere(c, s, content, found, tenant, clock, i, n - 1);
    }
  }

  predicate NoneInFlight(s: T.State) {
    forall id :: id in s.tokens ==> !s.tokens[id].inFlight
  }

  /** A reveal that gets through leaves no token in flight, so that the next sweep can take it. */
  lemma {:induction false} RevealReleases(c: T.Cipher, s: T.State, content: string, found: seq<(string, string)>, tenant: string,
                                          clock: nat -> int, n: nat)
    requires n <= |found| && NoneInFlight(s)
    ensures
      var p := Revealing(c, s, content, found, tenant, clock, n);
      p.text.Some? ==> NoneInFlight(p.state)
  {
    hide Replaced, T.ReadOf;
    if n > 0 {
      RevealReleases(c, s, content, found, tenant, clock, n - 1);
    }
  }

  /** The two labels by their text. */
  lemma {:induction false} LabelsRead(text: string, kind: string, id: string)
    ensures Placeholder(kind, id) == "[REDACTED:" + kind + "#" + id + "]"
    ensures |id| >= 8 ==>
      Replaced(text, kind, id, None) ==
      Some(ReplaceAll(text, Placeholder(kind, id), "[REDACTED:unrecoverable#" + id[..8] + "]"))
  {
    PlaceholderReads(kind, id);
    if |id| >= 8 {
      PlaceholderReads("unrecoverable", id[..8]);
      assert "[REDACTED:" + "unrecoverable" + "#" == "[REDACTED:unrecoverable#";
    }
    hide ReplaceAll, Placeholder;
  }

  lemma PlaceholderReads(kind: string, id: string)
    ensures Placeholder(kind, id) == "[REDACTED:" + kind + "#" + id + "]"
  {
    assert OPENING == "[REDACTED:";
    assert kind + (['#'] + (id + [']'])) == kind + "#" + id + "]";
  }

  // --- Revealing, told from what was put ---

  function Lookup(notes: map<string, T.Note>, id: string, tenant: string, now: int): Option<string> {
    if id in notes && notes[id].tenant == tenant && now <= notes[id].created + T.TOKEN_TTL_SECS
    then Some(notes[id].text) else None
  }

  function Told(notes: map<string, T.Note>, content: string, found: seq<(string, string)>, tenant: string,
                clock: nat -> int, n: nat): Option<string>
    requires n <= |found|
  {
    if n == 0 then Some(content)
    else
      match Told(notes, content, found, tenant, clock, n - 1)
      case None => None
      case Some(text) => Replaced(text, found[n - 1].0, found[n - 1].1, Lookup(notes, found[n - 1].1, tenant, clock(n - 1)))
  }

  /** The steps a reveal makes on the token store. */
  function Trace(steps: seq<T.Step>, found: seq<(string, string)>, tenant: string, clock: nat -> int, n: nat): seq<T.Step>
    requires n <= |found|
  {
    if n == 0 then steps
    else
      var id, now := found[n - 1].1, clock(n - 1);
      Trace(steps, found, tenant, clock, n - 1) + [T.FlagStep(id, true, now)] + [T.GetStep(id, tenant, now)] + [T.FlagStep(id, false, now)]
  }

  /** The clock of the reveal goes on from the run before it. */
  predicate Ticking(steps: seq<T.Step>, clock: nat -> int, n: nat) {
    if n == 0 then T.Clocked(steps)
    else
      Ticking(steps, clock, n - 1)
      && (if n == 1 then steps == [] || steps[|steps| - 1].now <= clock(0) else clock(n - 2) <= clock(n - 1))
  }

  lemma ClockedNext(steps: seq<T.Step>, step: T.Step)
    requires T.Clocked(steps) && (steps == [] || steps[|steps| - 1].now <= step.now)
    ensures T.Clocked(steps + [step])
  {
    var all := steps + [step];
    assert all[..|all| - 1] == steps && all[|all| - 1] == step;
    if steps != [] {
      assert all[|all| - 2] == steps[|steps| - 1];
    }
  }

  lemma RunNext(c: T.Cipher, steps: seq<T.Step>, step: T.Step)
    ensures T.Run(c, steps + [step]) == T.Apply(c, T.Run(c, steps), step)
    ensures !step.PutStep? ==> T.Notes(steps + [step]) == T.Notes(steps)
  {
    assert (steps + [step])[..|steps|] == steps;
  }

  lemma {:induction false} TraceIsClocked(steps: seq<T.Step>, found: seq<(string, string)>, tenant: string, clock: nat -> int, n: nat)
    requires n <= |found| && Ticking(steps, clock, n)
    ensures var trace := Trace(steps, found, tenant, clock, n);
            T.Clocked(trace) && T.Notes(trace) == T.Notes(steps) && (n > 0 ==> trace != [] && trace[|trace| - 1].now == clock(n - 1))
  {
    hide T.Clocked, T.Notes;
    if n > 0 {
      TraceIsClocked(steps, found, tenant, clock, n - 1);
      var a, id, now := Trace(steps, found, tenant, clock, n - 1), found[n - 1].1, clock(n - 1);
      var b := a + [T.FlagStep(id, true, now)];
      var d := b + [T.GetStep(id, tenant, now)];
      ClockedNext(a, T.FlagStep(id, true, now));
      ClockedNext(b, T.GetStep(id, tenant, now));
      ClockedNext(d, T.FlagStep(id, false, now));
      NotesNext(a, T.FlagStep(id, true, now));
      NotesNext(b, T.GetStep(id, tenant, now));
      NotesNext(d, T.FlagStep(id, false, now));
    }
  }

  lemma NotesNext(steps: seq<T.Step>, step: T.Step)
    ensures T.Notes(steps + [step]) ==
            if step.PutStep? then T.Notes(steps)[step.id := T.Note(step.text, step.tenant, step.now)] else T.Notes(steps)
  {
    assert (steps + [step])[..|steps|] == steps;
  }

  /** In a run, the read made for the next placeholder finds what was put last, if it is still good. */
  lemma NextRead(c: T.Cipher, steps: seq<T.Step>, found: seq<(string, string)>, tenant: string, clock: nat -> int, n: nat)
    requires c.Sound() && 0 < n <= |found| && Ticking(steps, clock, n)
    ensures
      var id, now := found[n - 1].1, clock(n - 1);
      var read := T.ReadOf(c, T.Flagged(T.Run(c, Trace(steps, found, tenant, clock, n - 1)), id, true), id, tenant, now);
      Lookup(T.Notes(steps), id, tenant, now) == if read.Revealed? then Some(read.text) else None
  {
    hide T.Clocked, T.Notes, T.Run, T.ReadOf, T.Flagged, T.Cipher.Sound;
    TraceIsClocked(steps, found, tenant, clock, n - 1);
    var a, id, now := Trace(steps, found, tenant, clock, n - 1), found[n - 1].1, clock(n - 1);
    var flag, get := T.FlagStep(id, true, now), T.GetStep(id, tenant, now);
    ClockedNext(a, flag);
    ClockedNext(a + [flag], get);
    NotesNext(a, flag);
    RunNext(c, a, flag);
    var read := T.ReadOf(c, T.Run(c, a + [flag]), id, tenant, now);
    if read.Revealed? {
      T.ReadRevealsLastPut(c, a + [flag], id, tenant, now, read.text);
    }
    var look := Lookup(T.Notes(steps), id, tenant, now);
    if look.Some? {
      T.ReadRevealsLastPut(c, a + [flag], id, tenant, now, look.value);
    }
  }

  /** Whatever ran before, the outcome of a reveal is decided by what was put last under each id. */
  lemma {:induction false} RevealFollowsPuts(c: T.Cipher, steps: seq<T.Step>, content: string, found: seq<(string, string)>,
                                             tenant: string, clock: nat -> int, n: nat)
    requires c.Sound() && n <= |found| && Ticking(steps, clock, n)
    ensures
      var p := Revealing(c, T.Run(c, steps), content, found, tenant, clock, n);
      && p.text == Told(T.Notes(steps), content, found, tenant, clock, n)
      && (p.text.Some? ==> p.state == T.Run(c, Trace(steps, found, tenant, clock, n)))
  {
    hide T.Notes, T.Run, T.ReadOf, T.Flagged, T.AfterRead, T.Cipher.Sound, Lookup, Replaced;
    if n > 0 {
      RevealFollowsPuts(c, steps, content, found, tenant, clock, n - 1);
      NextRead(c, steps, found, tenant, clock, n);
      var a, id, now := Trace(steps, found, tenant, clock, n - 1), found[n - 1].1, clock(n - 1);
      RunNext(c, a, T.FlagStep(id, true, now));
      RunNext(c, a + [T.FlagStep(id, true, now)], T.GetStep(id, tenant, now));
      RunNext(c, a + [T.FlagStep(id, true, now)] + [T.GetStep(id, tenant, now)], T.FlagStep(id, false, now));
    }
  }

  lemma {:induction false} ToldCompletes(notes: map<string, T.Note>, content: string, found: seq<(string, string)>,
                                         tenant: string, clock: nat -> int, n: nat)
    requires n <= |found|
    ensures Told(notes, content, found, tenant, clock, n).Some? <==>
            forall i :: 0 <= i < n ==> |found[i].1| >= SHORT_ID || Lookup(notes, found[i].1, tenant, clock(i)).Some?
  {
    hide Lookup;
    if n > 0 {
      ToldCompletes(notes, content, found, tenant, clock, n - 1);
    }
  }

  /** After any run, revealing a content has a result exactly when every token id the content yields is long
      enough to cut a label from, or was put last by this tenant recently enough. */
  lemma {:induction false} RevealCompletesExactly(c: T.Cipher, steps: seq<T.Step>, content: string, tenant: string, clock: nat -> int)
    requires c.Sound() && Ticking(steps, clock, |Extract(content)|)
    ensures
      var found := Extract(content);
      Revealing(c, T.Run(c, steps), content, found, tenant, clock, |found|).text.Some? <==>
      forall i :: 0 <= i < |found| ==> |found[i].1| >= SHORT_ID || Lookup(T.Notes(steps), found[i].1, tenant, clock(i)).Some?
  {
    hide *;
    var found := Extract(content);
    RevealFollowsPuts(c, steps, content, found, tenant, clock, |found|);
    ToldCompletes(T.Notes(steps), content, found, tenant, clock, |found|);
  }

  const TINY_ID: string := "tok_0"

  /** A content that stops a reveal: a placeholder with a five-character id that nobody put. */
  lemma {:induction false} ShortIdStopsReveal(c: T.Cipher, steps: seq<T.Step>, kind: string, tenant: string, clock: nat -> int)
    requires c.Sound() && ExtractableKind(kind) && TINY_ID !in T.Notes(steps) && Ticking(steps, clock, 1)
    ensures
      var content := Placeholder(kind, TINY_ID);
      && Extract(content) == [(kind, TINY_ID)]
      && Revealing(c, T.Run(c, steps), content, Extract(content), tenant, clock, 1).text == None
  {
    hide T.Run, T.Notes, Ticking, Revealing, Placeholder, ExtractableKind, T.Cipher.Sound;
    var content := Placeholder(kind, TINY_ID);
    assert TINY_ID[..4] == TOKEN_PREFIX;
    ParseExactly(content, kind, TINY_ID);
    assert content[|content|..] == [];
    assert Extract(content) == [(kind, TINY_ID)] + Extract([]);
    RevealCompletesExactly(c, steps, content, tenant, clock);
    assert |TINY_ID| < SHORT_ID && Lookup(T.Notes(steps), TINY_ID, tenant, clock(0)) == None;
    assert Extract(content)[0].1 == TINY_ID;
  }

  // --- The round trip ---

  /** The original behind each mark is what this tenant put last under its token, and it is good until `latest`. */
  predicate Vaulted(m: Masked, notes: map<string, T.Note>, tenant: string, latest: int) {
    forall i :: 0 <= i < |m| && m[i].Mark? ==>
      && m[i].token in notes && notes[m[i].token].text == m[i].original && notes[m[i].token].tenant == tenant
      && latest <= notes[m[i].token].created + T.TOKEN_TTL_SECS
  }

  lemma {:induction false} MarkPosition(m: Masked, i: nat) returns (j: nat)
    requires i < |Marks(m)|
    ensures j < |m| && m[j].Mark? && Marks(m)[i] == (m[j].kind, m[j].token)
  {
    hide ExtractableKind;
    if m[0].Mark? && ExtractableKind(m[0].kind) {
      if i == 0 {
        j := 0;
      } else {
        j := MarkPosition(m[1..], i - 1);
        j := j + 1;
      }
    } else {
      j := MarkPosition(m[1..], i);
      j := j + 1;
    }
  }

  /** The marks already dealt with. */
  function Done(found: seq<(string, string)>, n: nat): set<(string, string)>
    requires n <= |found|
  {
    if n == 0 then {} else Done(found, n - 1) + {found[n - 1]}
  }

  lemma {:induction false} DoneHas(found: seq<(string, string)>, n: nat, p: (string, string))
    requires n <= |found|
    ensures p in Done(found, n) <==> p in found[..n]
  {
    if n > 0 {
      DoneHas(found, n - 1, p);
      assert found[..n] == found[..n - 1] + [found[n - 1]];
    }
  }

  lemma {:induction false} RestoredNone(m: Masked)
    ensures Restored(m, {}) == m
  {
    if m != [] {
      RestoredNone(m[1..]);
    }
  }

  lemma {:induction false} RevealRestores(m: Masked, notes: map<string, T.Note>, tenant: string, clock: nat -> int, latest: int, n: nat)
    requires WellMarked(m) && Extract(Original(m)) == [] && Vaulted(m, notes, tenant, latest)
    requires n <= |Marks(m)| && forall i :: 0 <= i < n ==> clock(i) <= latest
    ensures Told(notes, Shown(m), Marks(m), tenant, clock, n) == Some(Shown(Restored(m, Done(Marks(m), n))))
  {
    hide WellMarked, Extract, Original, Marks, Shown, Restored, ReplaceAll, Placeholder, ExtractableKind, TokenShape;
    var found := Marks(m);
    if n == 0 {
      RestoredNone(m);
    } else {
      RevealRestores(m, notes, tenant, clock, latest, n - 1);
      var (kind, token) := found[n - 1];
      var j := MarkPosition(m, n - 1);
      assert Lookup(notes, token, tenant, clock(n - 1)) == Some(m[j].original);
      MarksAreExtractable(m, n - 1);
      assert Hides(m, kind, token, m[j].original);
      ReplaceRestores(m, Done(found, n - 1), kind, token, m[j].original);
    }
  }

  /** Revealing a masked text whose originals are all on hand gives back the text, with only the marks of
      kinds that the placeholder expression does not recognise still standing. */
  lemma {:induction false} RevealRecovers(m: Masked, notes: map<string, T.Note>, tenant: string, clock: nat -> int, latest: int)
    requires WellMarked(m) && Extract(Original(m)) == [] && Vaulted(m, notes, tenant, latest)
    requires forall i: nat :: clock(i) <= latest
    ensures
      var found := Extract(Shown(m));
      Told(notes, Shown(m), found, tenant, clock, |found|) == Some(Shown(Recovered(m)))
  {
    hide WellMarked, Vaulted, Extract, Original, Marks, Shown, Restored, Told, Recovered, ExtractableKind, TokenShape;
    ExtractFindsMarks(m);
    var found := Marks(m);
    RevealRestores(m, notes, tenant, clock, latest, |found|);
    var done := Done(found, |found|);
    assert found[..|found|] == found;
    forall p | p in done
      ensures ExtractableKind(p.0)
    {
      DoneHas(found, |found|, p);
      var i :| 0 <= i < |found| && found[i] == p;
      MarksAreExtractable(m, i);
    }
    forall i | 0 <= i < |found|
      ensures found[i] in done
    {
      DoneHas(found, |found|, found[i]);
    }
    AllRestored(m, done);
  }

  // --- From the redaction to the reveal, through any run of the token store ---

  function PutSteps(ms: seq<Match>, tenant: string, d: Draws, n: nat): seq<T.Step>
    requires n <= |ms|
  {
    if n == 0 then []
    else
      var k := n - 1;
      PutSteps(ms, tenant, d, k)
      + if d.stored(k) then [T.PutStep(d.token(k), ms[k].value, tenant, d.nonce(k), d.now(k))] else []
  }

  /** What a redaction stores is what its steps store. */
  lemma {:induction false} StoredIsRun(c: T.Cipher, steps: seq<T.Step>, ms: seq<Match>, tenant: string, d: Draws, n: nat)
    requires n <= |ms|
    ensures Stored(c, T.Run(c, steps), ms, tenant, d, n) == T.Run(c, steps + PutSteps(ms, tenant, d, n))
  {
    hide T.Put, T.Run;
    if n == 0 {
      assert steps + [] == steps;
    } else {
      var k := n - 1;
      var puts, put := PutSteps(ms, tenant, d, k), T.PutStep(d.token(k), ms[k].value, tenant, d.nonce(k), d.now(k));
      StoredIsRun(c, steps, ms, tenant, d, k);
      RunNext(c, steps + puts, put);
      assert steps + (puts + [put]) == steps + puts + [put] && puts + [] == puts;
    }
  }

  predicate Distinct(supply: nat -> string, n: nat) {
    forall i, j :: 0 <= i < j < n ==> supply(i) != supply(j)
  }

  lemma {:induction false} PutsAreNoted(steps: seq<T.Step>, ms: seq<Match>, tenant: string, d: Draws, n: nat, j: nat)
    requires j < n <= |ms| && Distinct(d.token, n) && d.stored(j)
    ensures
      var notes := T.Notes(steps + PutSteps(ms, tenant, d, n));
      d.token(j) in notes && notes[d.token(j)] == T.Note(ms[j].value, tenant, d.now(j))
  {
    hide T.Notes;
    var k := n - 1;
    var puts, put := PutSteps(ms, tenant, d, k), T.PutStep(d.token(k), ms[k].value, tenant, d.nonce(k), d.now(k));
    assert steps + (puts + [put]) == steps + puts + [put] && puts + [] == puts;
    NotesNext(steps + puts, put);
    if j < k {
      PutsAreNoted(steps, ms, tenant, d, k, j);
    }
  }

  predicate NeverPut(steps: seq<T.Step>, id: string) {
    forall i :: 0 <= i < |steps| && steps[i].PutStep? ==> steps[i].id != id
  }

  lemma {:induction false} NoteLasts(steps: seq<T.Step>, more: seq<T.Step>, id: string)
    requires NeverPut(more, id) && id in T.Notes(steps)
    ensures id in T.Notes(steps + more) && T.Notes(steps + more)[id] == T.Notes(steps)[id]
  {
    hide T.Notes;
    if more == [] {
      assert steps + more == steps;
    } else {
      var k := |more| - 1;
      NoteLasts(steps, more[..k], id);
      assert steps + more == steps + more[..k] + [more[k]];
      NotesNext(steps + more[..k], more[k]);
    }
  }

  lemma ConcatAt(a: Masked, b: Masked, i: nat)
    requires i < |a| + |b|
    ensures (a + b)[i] == if i < |a| then a[i] else b[i - |a|]
  {
  }

  /** The marks of a masked text carry the supplied tokens and the spans' text. */
  lemma {:induction false} MaskMarks(content: string, ms: seq<Match>, supply: nat -> string, k: nat, from: nat, i: nat) returns (j: nat)
    requires Lined(content, ms, from) && i < |MaskOf(content, ms, supply, k, from)| && MaskOf(content, ms, supply, k, from)[i].Mark?
    ensures j < |ms| && MaskOf(content, ms, supply, k, from)[i] == Mark(ms[j].name, supply(k + j), ms[j].value)
    decreases |ms|
  {
    hide *;
    if ms == [] {
      LinedBounds(content, ms, from);
      NothingMasked(content, supply, k, from);
      PlainTextReads(content[from..]);
      assert false;
    } else {
      MaskStep(content, ms, supply, k, from);
      var text, rest := content[from..ms[0].start], MaskOf(content, ms[1..], supply, k + 1, ms[0].end);
      var gap, mark := PlainText(text), Mark(ms[0].name, supply(k), ms[0].value);
      PlainTextReads(text);
      ConcatAt(gap, [mark] + rest, i);
      if i == |gap| {
        j := 0;
      } else {
        ConcatAt([mark], rest, i - |gap|);
        j := MaskMarks(content, ms[1..], supply, k + 1, ms[0].end, i - |gap| - 1);
        j := j + 1;
      }
    }
  }

  lemma MaskStep(content: string, ms: seq<Match>, supply: nat -> string, k: nat, from: nat)
    requires ms != [] && Lined(content, ms, from)
    ensures from <= ms[0].start <= |content| && Lined(content, ms[1..], ms[0].end)
    ensures MaskOf(content, ms, supply, k, from) ==
            PlainText(content[from..ms[0].start])
            + ([Mark(ms[0].name, supply(k), ms[0].value)] + MaskOf(content, ms[1..], supply, k + 1, ms[0].end))
  {
    LinedBounds(content, ms, from);
  }

  /** Every span has its mark. */
  lemma {:induction false} MarkOfSpan(content: string, ms: seq<Match>, supply: nat -> string, k: nat, from: nat, j: nat) returns (i: nat)
    requires Lined(content, ms, from) && j < |ms|
    ensures i < |MaskOf(content, ms, supply, k, from)|
    ensures MaskOf(content, ms, supply, k, from)[i] == Mark(ms[j].name, supply(k + j), ms[j].value)
    decreases |ms|
  {
    hide *;
    MaskStep(content, ms, supply, k, from);
    var gap, rest := PlainText(content[from..ms[0].start]), MaskOf(content, ms[1..], supply, k + 1, ms[0].end);
    var mark := Mark(ms[0].name, supply(k), ms[0].value);
    if j == 0 {
      i := |gap|;
      ConcatAt(gap, [mark] + rest, i);
    } else {
      var n := MarkOfSpan(content, ms[1..], supply, k + 1, ms[0].end, j - 1);
      i := |gap| + 1 + n;
      ConcatAt(gap, [mark] + rest, i);
      ConcatAt([mark], rest, 1 + n);
    }
  }

  predicate AllKindsRecognised(ms: seq<Match>) {
    forall i :: 0 <= i < |ms| ==> ExtractableKind(ms[i].name)
  }

  /** A span of unrecognised kind is shorter than its placeholder, as an address always is. */
  predicate ShortUnrecognised(ms: seq<Match>, supply: nat -> string) {
    forall i :: 0 <= i < |ms| && !ExtractableKind(ms[i].name) ==> |ms[i].value| < |Placeholder(ms[i].name, supply(i))|
  }

  /** What revealing leaves of a redacted text is the content exactly when all kinds are recognised. */
  lemma {:induction false} RecoveredIsContentExactly(content: string, ms: seq<Match>, supply: nat -> string)
    requires Lined(content, ms, 0) && ShortUnrecognised(ms, supply)
    ensures Shown(Recovered(MaskOf(content, ms, supply, 0, 0))) == content <==> AllKindsRecognised(ms)
  {
    hide MaskOf, Lined, Recovered, Shown, Original, ExtractableKind, Placeholder;
    var m := MaskOf(content, ms, supply, 0, 0);
    MaskReads(content, ms, supply, 0, 0);
    assert content[0..] == content;
    forall i | 0 <= i < |m| && m[i].Mark?
      ensures !ExtractableKind(m[i].kind) ==> |m[i].original| < |Placeholder(m[i].kind, m[i].token)|
      ensures AllKindsRecognised(ms) ==> ExtractableKind(m[i].kind)
    {
      var j := MaskMarks(content, ms, supply, 0, 0, i);
    }
    if AllRecognised(m) {
      forall j | 0 <= j < |ms|
        ensures ExtractableKind(ms[j].name)
      {
        var i := MarkOfSpan(content, ms, supply, 0, 0, j);
      }
    }
    RecoveredIsOriginalExactly(m);
  }

  /** The conditions of the round trip: a content without placeholders of its own, distinct token ids, every
      original stored and not put again in between, and a reveal before the first of them expires. */
  predicate Intact(content: string, ms: seq<Match>, d: Draws, between: seq<T.Step>, latest: int) {
    && Lined(content, ms, 0) && Extract(content) == [] && Distinct(d.token, |ms|)
    && forall i :: 0 <= i < |ms| ==>
         && PatternKind(ms[i].name) && TokenShape(d.token(i)) && d.stored(i)
         && NeverPut(between, d.token(i)) && latest <= d.now(i) + T.TOKEN_TTL_SECS
  }

  /** Redact, let anything happen that does not put the same ids again, and reveal as the same tenant before
      the originals expire: the text comes back, but for spans of kinds the placeholder expression does not
      recognise. Key rotations, evictions, reads and flags in between make no difference. */
  lemma {:induction false} RedactThenReveal(
    c: T.Cipher, before: seq<T.Step>, between: seq<T.Step>, content: string, ms: seq<Match>, tenant: string,
    d: Draws, clock: nat -> int, latest: int)
    requires c.Sound() && Intact(content, ms, d, between, latest) && forall i: nat :: clock(i) <= latest
    requires var found := Extract(Shown(MaskOf(content, ms, d.token, 0, 0)));
             Ticking(before + PutSteps(ms, tenant, d, |ms|) + between, clock, |found|)
    ensures
      var m, run := MaskOf(content, ms, d.token, 0, 0), before + PutSteps(ms, tenant, d, |ms|) + between;
      var text := Revealing(c, T.Run(c, run), Shown(m), Extract(Shown(m)), tenant, clock, |Extract(Shown(m))|).text;
      && text == Some(Shown(Recovered(m)))
      && (AllKindsRecognised(ms) ==> text == Some(content))
      && (ShortUnrecognised(ms, d.token) ==> (text == Some(content) <==> AllKindsRecognised(ms)))
  {
    hide *;
    IntactIsLined(content, ms, d, between, latest);
    var m := MaskOf(content, ms, d.token, 0, 0);
    var run, found := before + PutSteps(ms, tenant, d, |ms|) + between, Extract(Shown(m));
    MaskReads(content, ms, d.token, 0, 0);
    assert content[0..] == content;
    IntactIsVaulted(before, between, content, ms, tenant, d, latest);
    RevealFollowsPuts(c, run, Shown(m), found, tenant, clock, |found|);
    RevealRecovers(m, T.Notes(run), tenant, clock, latest);
    RecognisedMarks(content, ms, d.token);
    if AllKindsRecognised(ms) {
      RecoveredIsOriginal(m);
    }
    if ShortUnrecognised(ms, d.token) {
      RecoveredIsContentExactly(content, ms, d.token);
    }
  }

  lemma IntactIsLined(content: string, ms: seq<Match>, d: Draws, between: seq<T.Step>, latest: int)
    requires Intact(content, ms, d, between, latest)
    ensures Lined(content, ms, 0) && Extract(content) == []
  {
  }

  lemma RecognisedMarks(content: string, ms: seq<Match>, supply: nat -> string)
    requires Lined(content, ms, 0)
    ensures AllKindsRecognised(ms) ==>
      forall i :: 0 <= i < |MaskOf(content, ms, supply, 0, 0)| && MaskOf(content, ms, supply, 0, 0)[i].Mark? ==>
        ExtractableKind(MaskOf(content, ms, supply, 0, 0)[i].kind)
  {
    hide MaskOf, Lined, ExtractableKind;
    var m := MaskOf(content, ms, supply, 0, 0);
    forall i | 0 <= i < |m| && m[i].Mark?
      ensures AllKindsRecognised(ms) ==> ExtractableKind(m[i].kind)
    {
      var j := MaskMarks(content, ms, supply, 0, 0, i);
    }
  }

  lemma IntactIsVaulted(before: seq<T.Step>, between: seq<T.Step>, content: string, ms: seq<Match>, tenant: string, d: Draws, latest: int)
    requires Intact(content, ms, d, between, latest)
    ensures
      var m, run := MaskOf(content, ms, d.token, 0, 0), before + PutSteps(ms, tenant, d, |ms|) + between;
      WellMarked(m) && Vaulted(m, T.Notes(run), tenant, latest)
  {
    hide MaskOf, Lined, Extract, PatternKind, TokenShape, Distinct, PutSteps, T.Notes, NeverPut, WellMarked, Vaulted;
    var stored := before + PutSteps(ms, tenant, d, |ms|);
    var notes := T.Notes(stored + between);
    forall j | 0 <= j < |ms|
      ensures d.token(j) in notes && notes[d.token(j)] == T.Note(ms[j].value, tenant, d.now(j))
    {
      PutsAreNoted(before, ms, tenant, d, |ms|, j);
      NoteLasts(stored, between, d.token(j));
    }
    MaskIsVaulted(content, ms, d.token, notes, tenant, latest);
  }

  /** An address never comes back: one span of kind `ipv4` and the revealed text is not the content. */
  lemma {:induction false} Ipv4StaysHidden(
    c: T.Cipher, before: seq<T.Step>, between: seq<T.Step>, content: string, ms: seq<Match>, tenant: string,
    d: Draws, clock: nat -> int, latest: int, k: nat)
    requires c.Sound() && Intact(content, ms, d, between, latest) && forall i: nat :: clock(i) <= latest
    requires var found := Extract(Shown(MaskOf(content, ms, d.token, 0, 0)));
             Ticking(before + PutSteps(ms, tenant, d, |ms|) + between, clock, |found|)
    requires k < |ms| && ms[k].name == "ipv4"
    requires forall i :: 0 <= i < |ms| && !ExtractableKind(ms[i].name) ==> ms[i].name == "ipv4" && |ms[i].value| <= 15
    ensures
      var m, run := MaskOf(content, ms, d.token, 0, 0), before + PutSteps(ms, tenant, d, |ms|) + between;
      Revealing(c, T.Run(c, run), Shown(m), Extract(Shown(m)), tenant, clock, |Extract(Shown(m))|).text != Some(content)
  {
    hide MaskOf, Lined, Extract, PatternKind, TokenShape, Distinct, PutSteps, NeverPut, ExtractableKind, Placeholder,
      T.Run, T.Cipher.Sound, Ticking, Revealing, Shown;
    forall i | 0 <= i < |ms| && !ExtractableKind(ms[i].name)
      ensures |ms[i].value| < |Placeholder(ms[i].name, d.token(i))|
    {
      Ipv4IsNotRecognised(d.token(i), ms[i].value);
    }
    Ipv4IsNotRecognised(d.token(k), "");
    RedactThenReveal(c, before, between, content, ms, tenant, d, clock, latest);
  }

  lemma MaskIsVaulted(content: string, ms: seq<Match>, supply: nat -> string, notes: map<string, T.Note>, tenant: string, latest: int)
    requires Lined(content, ms, 0)
    requires forall i :: 0 <= i < |ms| ==> PatternKind(ms[i].name) && TokenShape(supply(i))
    requires forall j :: 0 <= j < |ms| ==>
      && supply(j) in notes && notes[supply(j)].text == ms[j].value && notes[supply(j)].tenant == tenant
      && latest <= notes[supply(j)].created + T.TOKEN_TTL_SECS
    ensures WellMarked(MaskOf(content, ms, supply, 0, 0)) && Vaulted(MaskOf(content, ms, supply, 0, 0), notes, tenant, latest)
  {
    hide MaskOf, Lined, PatternKind, TokenShape;
    var m := MaskOf(content, ms, supply, 0, 0);
    forall i | 0 <= i < |m| && m[i].Mark?
      ensures PatternKind(m[i].kind) && TokenShape(m[i].token) && m[i].token in notes
      ensures notes[m[i].token].text == m[i].original && notes[m[i].token].tenant == tenant
      ensures latest <= notes[m[i].token].created + T.TOKEN_TTL_SECS
    {
      var j := MaskMarks(content, ms, supply, 0, 0, i);
    }
  }

  // --- The calls themselves ---

  /** The spans a redaction of this content hides. */
  ghost function Chosen(patterns: seq<Pattern>, content: string): seq<Match>
    requires WellFormed(patterns, content)
  {
    ByStart(Greedy(Candidates(patterns, content, Everything)))
  }

  /** All the steps of the token store, from the first before the redaction to the reveal's own eviction. */
  ghost function Life(before: seq<T.Step>, start: int, ms: seq<Match>, tenant: string, d: Draws,
                      between: seq<T.Step>, revealStart: int): seq<T.Step> {
    before + [T.EvictStep(start)] + PutSteps(ms, tenant, d, |ms|) + (between + [T.EvictStep(revealStart)])
  }

  /** A redaction, any other use of the token store, and a reveal, by the methods themselves. */
  method RedactUseReveal(
    tokens: T.TokenStore, ghost before: seq<T.Step>, between: seq<T.Step>, patterns: seq<Pattern>, content: string,
    tenant: string, d: Draws, start: int, revealStart: int, clock: nat -> int, ghost latest: int)
    returns (redacted: RedactResult, restored: Option<string>)
    requires tokens.cipher.Sound() && tokens.Abstract() == T.Run(tokens.cipher, before)
    requires WellFormed(patterns, content) && Intact(content, Chosen(patterns, content), d, between, latest)
    requires forall i: nat :: clock(i) <= latest
    requires var ms := Chosen(patterns, content);
             Ticking(Life(before, start, ms, tenant, d, between, revealStart), clock, |Extract(Shown(MaskOf(content, ms, d.token, 0, 0)))|)
    modifies tokens
    ensures
      var ms := Chosen(patterns, content);
      && redacted.content == Shown(MaskOf(content, ms, d.token, 0, 0))
      && restored == Some(Shown(Recovered(MaskOf(content, ms, d.token, 0, 0))))
      && (AllKindsRecognised(ms) ==> restored == Some(content))
      && (ShortUnrecognised(ms, d.token) ==> (restored == Some(content) <==> AllKindsRecognised(ms)))
  {
    hide *;
    ghost var ms := ByStart(Greedy(Candidates(patterns, content, Everything)));
    ghost var c, begun := tokens.cipher, before + [T.EvictStep(start)];
    ghost var stored, later := begun + PutSteps(ms, tenant, d, |ms|), between + [T.EvictStep(revealStart)];
    assert ms == Chosen(patterns, content) && Life(before, start, ms, tenant, d, between, revealStart) == stored + later by {
      ChosenIs(patterns, content, before, start, tenant, d, between, revealStart);
    }
    EvictNext(c, before, start);
    StoredIsRun(c, begun, ms, tenant, d, |ms|);
    redacted := RedactTenant(tokens, patterns, content, true, tenant, d, start);
    assert tokens.Abstract() == T.Run(c, stored);
    tokens.Perform(between);
    T.RunContinues(c, stored, between);
    EvictNext(c, stored + between, revealStart);
    assert stored + between + [T.EvictStep(revealStart)] == stored + later;
    restored := RevealTenant(tokens, redacted.content, tenant, revealStart, clock);
    EvictionIsNoPut(content, ms, d, between, revealStart, latest);
    RedactThenReveal(c, begun, later, content, ms, tenant, d, clock, latest);
  }

  lemma ChosenIs(patterns: seq<Pattern>, content: string, before: seq<T.Step>, start: int, tenant: string, d: Draws,
                 between: seq<T.Step>, revealStart: int)
    requires WellFormed(patterns, content)
    ensures
      var ms := ByStart(Greedy(Candidates(patterns, content, Everything)));
      && ms == Chosen(patterns, content)
      && Life(before, start, ms, tenant, d, between, revealStart)
         == before + [T.EvictStep(start)] + PutSteps(ms, tenant, d, |ms|) + (between + [T.EvictStep(revealStart)])
  {
  }

  lemma EvictNext(c: T.Cipher, steps: seq<T.Step>, now: int)
    ensures T.Evicted(T.Run(c, steps), now) == T.Run(c, steps + [T.EvictStep(now)])
  {
    RunNext(c, steps, T.EvictStep(now));
  }

  lemma EvictionIsNoPut(content: string, ms: seq<Match>, d: Draws, between: seq<T.Step>, now: int, latest: int)
    requires Intact(content, ms, d, between, latest)
    ensures Intact(content, ms, d, between + [T.EvictStep(now)], latest)
  {
    hide Lined, Extract, PatternKind, TokenShape, Distinct;
  }
}
