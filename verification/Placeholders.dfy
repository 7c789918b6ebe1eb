/** Reversible placeholders in a text: recognising them, and why replacing one never touches another. */
module Placeholders {
  import opened Bytes

  const OPENING: string := "[REDACTED:"
  const TOKEN_PREFIX: string := "tok_"

  function Placeholder(kind: string, token: string): (w: string)
    ensures w != []
  {
    OPENING + (kind + Closing(token))
  }

  function Closing(token: string): string {
    ['#'] + (token + [']'])
  }

  predicate IsKindChar(c: char) {
    'a' <= c <= 'z' || c == '_'
  }

  predicate IsHex(c: char) {
    '0' <= c <= '9' || 'a' <= c <= 'f'
  }

  /** Kinds the placeholder expression recognises; `ipv4` is not one. */
  predicate ExtractableKind(kind: string) {
    kind != [] && forall i :: 0 <= i < |kind| ==> IsKindChar(kind[i])
  }

  /** Kinds that patterns are named by. */
  predicate PatternKind(kind: string) {
    forall i :: 0 <= i < |kind| ==> IsKindChar(kind[i]) || '0' <= kind[i] <= '9'
  }

  predicate TokenShape(token: string) {
    |token| > 4 && token[..4] == TOKEN_PREFIX && forall i :: 4 <= i < |token| ==> IsHex(token[i])
  }

  // --- Recognising ---

  /** Length of the longest prefix whose characters all satisfy `p`. */
  function Leading(s: string, p: char -> bool): (n: nat)
    ensures n <= |s| && (forall i :: 0 <= i < n ==> p(s[i])) && (n < |s| ==> !p(s[n]))
  {
    if s == [] || !p(s[0]) then 0 else 1 + Leading(s[1..], p)
  }

  /** The part after the kind: `#(tok_[0-9a-f]+)\]`. */
  function ParseToken(text: string): Option<string> {
    if text == [] || text[0] != '#' || !(TOKEN_PREFIX <= text[1..]) then None
    else
      var tail := text[1..][|TOKEN_PREFIX|..];
      var h := Leading(tail, IsHex);
      if h == 0 || h == |tail| || tail[h] != ']' then None else Some(TOKEN_PREFIX + tail[..h])
  }

  /** The expression `\[REDACTED:([a-z_]+)#(tok_[0-9a-f]+)\]` anchored at the start of the text. */
  function ParseAt(text: string): Option<(string, string)> {
    if !(OPENING <= text) then None
    else
      var rest := text[|OPENING|..];
      var n := Leading(rest, IsKindChar);
      if n == 0 then None
      else
        match ParseToken(rest[n..])
        case None => None
        case Some(token) => Some((rest[..n], token))
  }

  lemma PrefixJoins(a: string, b: string, text: string)
    requires a <= text && b <= text[|a|..]
    ensures a + b <= text
  {
    assert text == a + text[|a|..];
  }

  lemma PrefixDrops(a: string, b: string)
    ensures a <= a + b && (a + b)[|a|..] == b && (a + b)[..|a|] == a
  {
  }

  lemma PrefixGrows(a: string, b: string, text: string)
    requires a + b <= text
    ensures a <= text && b <= text[|a|..]
  {
    assert text == a + b + text[|a + b|..];
    assert text[|a|..] == b + text[|a + b|..];
  }

  lemma LeadingIs(s: string, p: char -> bool, n: nat)
    requires n < |s| && (forall i :: 0 <= i < n ==> p(s[i])) && !p(s[n])
    ensures Leading(s, p) == n
  {
  }

  lemma TokenSound(text: string)
    requires ParseToken(text).Some?
    ensures TokenShape(ParseToken(text).value) && Closing(ParseToken(text).value) <= text
  {
    hide IsHex;
    var tail := text[1..][|TOKEN_PREFIX|..];
    var h := Leading(tail, IsHex);
    PrefixDrops(TOKEN_PREFIX, tail[..h]);
    PrefixJoins(tail[..h], [']'], tail);
    PrefixJoins(TOKEN_PREFIX, tail[..h] + [']'], text[1..]);
    var token := TOKEN_PREFIX + tail[..h];
    assert token + [']'] == TOKEN_PREFIX + (tail[..h] + [']']);
    PrefixJoins(['#'], token + [']'], text);
  }

  lemma TokenComplete(token: string, text: string)
    requires TokenShape(token) && Closing(token) <= text
    ensures ParseToken(text) == Some(token)
  {
    PrefixGrows(['#'], token + [']'], text);
    var hex := token[4..];
    PrefixGrows(token, [']'], text[1..]);
    assert token == TOKEN_PREFIX + hex;
    PrefixGrows(TOKEN_PREFIX, hex, text[1..]);
    var tail := text[1..][|TOKEN_PREFIX|..];
    assert tail[|hex|] == text[1..][|token|] == ']';
    LeadingIs(tail, IsHex, |hex|);
    assert tail[..|hex|] == hex;
  }

  lemma ParseSound(text: string)
    requires ParseAt(text).Some?
    ensures var (kind, token) := ParseAt(text).value;
            ExtractableKind(kind) && TokenShape(token) && Placeholder(kind, token) <= text
  {
    hide ParseToken, IsKindChar, Closing, TokenShape;
    var rest := text[|OPENING|..];
    var n := Leading(rest, IsKindChar);
    TokenSound(rest[n..]);
    var token := ParseToken(rest[n..]).value;
    PrefixJoins(rest[..n], Closing(token), rest);
    PrefixJoins(OPENING, rest[..n] + Closing(token), text);
  }

  lemma ParseComplete(kind: string, token: string, text: string)
    requires ExtractableKind(kind) && TokenShape(token) && Placeholder(kind, token) <= text
    ensures ParseAt(text) == Some((kind, token))
  {
    hide ParseToken, TokenShape;
    PrefixGrows(OPENING, kind + Closing(token), text);
    var rest := text[|OPENING|..];
    PrefixGrows(kind, Closing(token), rest);
    TokenComplete(token, rest[|kind|..]);
    assert rest[|kind|..][0] == '#';
    LeadingIs(rest, IsKindChar, |kind|);
    assert rest[..|kind|] == kind;
  }

  /** The expression matches at the start exactly when a well-formed placeholder is there. */
  lemma {:induction false} ParseExactly(text: string, kind: string, token: string)
    ensures ParseAt(text) == Some((kind, token)) <==> ExtractableKind(kind) && TokenShape(token) && Placeholder(kind, token) <= text
  {
    hide *;
    if ParseAt(text) == Some((kind, token)) {
      ParseSound(text);
    }
    if ExtractableKind(kind) && TokenShape(token) && Placeholder(kind, token) <= text {
      ParseComplete(kind, token, text);
    }
  }

  /** All matches, leftmost first, none overlapping another. */
  function Extract(text: string): seq<(string, string)>
    decreases |text|
  {
    if text == [] then []
    else
      match ParseAt(text)
      case None => Extract(text[1..])
      case Some(found) =>
        ParseSound(text);
        [found] + Extract(text[|Placeholder(found.0, found.1)|..])
  }

  /** Replacement of every occurrence, from left to right. */
  function ReplaceAll(text: string, what: string, with: string): string
    requires what != []
    decreases |text|
  {
    if text == [] then []
    else if what <= text then with + ReplaceAll(text[|what|..], what, with)
    else [text[0]] + ReplaceAll(text[1..], what, with)
  }

  // --- Brackets ---

  /** An opening bracket first, a closing one last, and no other. */
  predicate Bracketed(w: string) {
    && |w| >= 2 && w[0] == '[' && w[|w| - 1] == ']'
    && (forall i :: 0 < i < |w| ==> w[i] != '[')
    && (forall i :: 0 <= i < |w| - 1 ==> w[i] != ']')
  }

  lemma PlaceholderIsBracketed(kind: string, token: string)
    requires PatternKind(kind) && TokenShape(token)
    ensures Bracketed(Placeholder(kind, token))
  {
    var w := Placeholder(kind, token);
    forall i | 0 <= i < |w|
      ensures (i > 0 ==> w[i] != '[') && (i < |w| - 1 ==> w[i] != ']')
    {
      if i < |OPENING| {
        assert w[i] == OPENING[i];
      } else if i < |OPENING| + |kind| {
        assert w[i] == kind[i - |OPENING|];
      } else if |OPENING| + |kind| < i < |w| - 1 {
        var j := i - |OPENING| - |kind| - 1;
        assert w[i] == token[j];
        assert j < 4 ==> token[j] == token[..4][j];
      }
    }
  }

  predicate NotClosing(c: char) {
    c != ']'
  }

  predicate NotHash(c: char) {
    c != '#'
  }

  /** Of two bracketed words one cannot start the other. */
  lemma BracketedPrefix(w: string, w': string, after: string)
    requires Bracketed(w) && Bracketed(w') && w <= w' + after
    ensures w == w'
  {
    var text := w' + after;
    LeadingIs(text, NotClosing, |w| - 1);
    LeadingIs(text, NotClosing, |w'| - 1);
    assert w == text[..|w|] == w';
  }

  lemma PlaceholderInjective(kind: string, token: string, kind': string, token': string)
    requires PatternKind(kind) && PatternKind(kind') && Placeholder(kind, token) == Placeholder(kind', token')
    ensures kind == kind' && token == token'
  {
    var w := Placeholder(kind, token);
    PrefixDrops(OPENING, kind + Closing(token));
    PrefixDrops(OPENING, kind' + Closing(token'));
    KindEndsAtHash(w[|OPENING|..], kind, token);
    KindEndsAtHash(w[|OPENING|..], kind', token');
    ClosingInjective(token, token');
  }

  lemma KindEndsAtHash(rest: string, kind: string, token: string)
    requires PatternKind(kind) && rest == kind + Closing(token)
    ensures var n := Leading(rest, NotHash); kind == rest[..n] && Closing(token) == rest[n..]
  {
    LeadingIs(rest, NotHash, |kind|);
  }

  lemma ClosingInjective(token: string, token': string)
    ensures Closing(token) == Closing(token') ==> token == token'
  {
    PrefixDrops(['#'], token + [']']);
    PrefixDrops(['#'], token' + [']']);
    PrefixDrops(token, [']']);
    PrefixDrops(token', [']']);
  }

  lemma ExtractableIsPatternKind(kind: string)
    requires ExtractableKind(kind)
    ensures PatternKind(kind)
  {
  }

  // --- Text with hidden parts ---

  /** A text in which some parts stand behind a placeholder. */
  datatype Symbol = Plain(c: char) | Mark(kind: string, token: string, original: string)

  type Masked = seq<Symbol>

  function ShownOne(s: Symbol): string {
    if s.Plain? then [s.c] else Placeholder(s.kind, s.token)
  }

  /** The text as it is sent out. */
  function Shown(m: Masked): string {
    if m == [] then [] else ShownOne(m[0]) + Shown(m[1..])
  }

  /** The text as it was. */
  function Original(m: Masked): string {
    if m == [] then [] else (if m[0].Plain? then [m[0].c] else m[0].original) + Original(m[1..])
  }

  predicate WellMarked(m: Masked) {
    forall i :: 0 <= i < |m| && m[i].Mark? ==> PatternKind(m[i].kind) && TokenShape(m[i].token)
  }

  /** The marks the placeholder expression will find, in order. */
  function Marks(m: Masked): seq<(string, string)> {
    if m == [] then []
    else (if m[0].Mark? && ExtractableKind(m[0].kind) then [(m[0].kind, m[0].token)] else []) + Marks(m[1..])
  }

  function PlainText(s: string): Masked {
    if s == [] then [] else [Plain(s[0])] + PlainText(s[1..])
  }

  lemma ConcatSplits(a: Masked, b: Masked)
    ensures Shown(a + b) == Shown(a) + Shown(b) && Original(a + b) == Original(a) + Original(b)
  {
    ShownConcat(a, b);
    OriginalConcat(a, b);
  }

  lemma {:induction false} ShownConcat(a: Masked, b: Masked)
    ensures Shown(a + b) == Shown(a) + Shown(b)
  {
    hide ShownOne;
    if a == [] {
      assert a + b == b;
    } else {
      assert (a + b)[1..] == a[1..] + b;
      ShownConcat(a[1..], b);
      assert ShownOne(a[0]) + (Shown(a[1..]) + Shown(b)) == ShownOne(a[0]) + Shown(a[1..]) + Shown(b);
    }
  }

  lemma {:induction false} OriginalConcat(a: Masked, b: Masked)
    ensures Original(a + b) == Original(a) + Original(b)
  {
    if a == [] {
      assert a + b == b;
    } else {
      assert (a + b)[1..] == a[1..] + b;
      OriginalConcat(a[1..], b);
      var head := if a[0].Plain? then [a[0].c] else a[0].original;
      assert head + (Original(a[1..]) + Original(b)) == head + Original(a[1..]) + Original(b);
    }
  }

  lemma {:induction false} PlainTextReads(s: string)
    ensures Shown(PlainText(s)) == s && Original(PlainText(s)) == s && Marks(PlainText(s)) == []
    ensures forall i :: 0 <= i < |PlainText(s)| ==> PlainText(s)[i].Plain?
  {
    if s != [] {
      PlainTextReads(s[1..]);
      assert PlainText(s)[1..] == PlainText(s[1..]);
    }
  }

  // --- No match straddles ---

  /** A word without an opening bracket that starts the shown text starts the original text too. */
  lemma {:induction false} SpelledInPlain(w: string, m: Masked)
    requires w <= Shown(m) && forall i :: 0 <= i < |w| ==> w[i] != '['
    ensures w <= Original(m)
    decreases |m|
  {
    if w != [] {
      assert w[0] == Shown(m)[0] == ShownOne(m[0])[0];
      assert Shown(m)[1..] == Shown(m[1..]);
      SpelledInPlain(w[1..], m[1..]);
      assert Original(m) == [w[0]] + Original(m[1..]);
    }
  }

  lemma BracketedInPlain(w: string, m: Masked)
    requires Bracketed(w) && w <= Shown(m) && m != [] && m[0].Plain?
    ensures w <= Original(m)
  {
    assert Shown(m)[1..] == Shown(m[1..]);
    SpelledInPlain(w[1..], m[1..]);
    assert w[0] == m[0].c;
    assert Original(m) == [w[0]] + Original(m[1..]);
  }

  lemma {:induction false} NoneInSuffix(s: string, i: nat)
    requires Extract(s) == [] && i <= |s|
    ensures Extract(s[i..]) == []
    decreases i
  {
    if i > 0 {
      NoneInSuffix(s[1..], i - 1);
      assert s[1..][i - 1..] == s[i..];
    } else {
      assert s[0..] == s;
    }
  }

  lemma NoneInRest(m: Masked)
    requires m != [] && Extract(Original(m)) == []
    ensures Extract(Original(m[1..])) == []
  {
    var n := |Original(m)| - |Original(m[1..])|;
    NoneInSuffix(Original(m), n);
    assert Original(m)[n..] == Original(m[1..]);
  }

  /** A placeholder never starts at a plain character of a text that had none to begin with. */
  lemma {:induction false} NoPlaceholderAtPlain(m: Masked, kind: string, token: string)
    requires m != [] && m[0].Plain? && Extract(Original(m)) == []
    requires ExtractableKind(kind) && TokenShape(token)
    ensures !(Placeholder(kind, token) <= Shown(m))
  {
    if Placeholder(kind, token) <= Shown(m) {
      PlaceholderIsBracketed(kind, token);
      BracketedInPlain(Placeholder(kind, token), m);
      ParseExactly(Original(m), kind, token);
      assert false;
    }
  }

  /** At a mark, the only placeholder that starts there is the mark's own. */
  lemma {:induction false} OnlyOwnPlaceholderAtMark(s: Symbol, after: string, kind: string, token: string)
    requires s.Mark? && PatternKind(s.kind) && TokenShape(s.token) && ExtractableKind(kind) && TokenShape(token)
    ensures Placeholder(kind, token) <= ShownOne(s) + after <==> (kind, token) == (s.kind, s.token)
  {
    if Placeholder(kind, token) <= ShownOne(s) + after {
      PlaceholderIsBracketed(kind, token);
      PlaceholderIsBracketed(s.kind, s.token);
      BracketedPrefix(Placeholder(kind, token), ShownOne(s), after);
      PlaceholderInjective(kind, token, s.kind, s.token);
    }
  }

  lemma {:induction false} ExtractSkips(u: string, after: string)
    requires forall i :: 0 <= i < |u| ==> u[i] != '['
    ensures Extract(u + after) == Extract(after)
  {
    if u == [] {
      assert u + after == after;
    } else {
      assert (u + after)[0] != '[';
      assert (u + after)[1..] == u[1..] + after;
      ExtractSkips(u[1..], after);
    }
  }

  /** Extraction finds exactly the marks of recognised kinds, in text order. */
  lemma {:induction false} ExtractFindsMarks(m: Masked)
    requires WellMarked(m) && Extract(Original(m)) == []
    ensures Extract(Shown(m)) == Marks(m)
  {
    hide ParseAt, Placeholder;
    if m != [] {
      NoneInRest(m);
      ExtractFindsMarks(m[1..]);
      if m[0].Plain? {
        ExtractAtPlain(m);
      } else {
        ExtractAtMark(m[0], Shown(m[1..]));
      }
    }
  }

  lemma ExtractAtPlain(m: Masked)
    requires m != [] && m[0].Plain? && Extract(Original(m)) == []
    ensures Extract(Shown(m)) == Extract(Shown(m[1..]))
  {
    hide ParseAt, Placeholder;
    var text := Shown(m);
    if ParseAt(text).Some? {
      var (kind, token) := ParseAt(text).value;
      ParseSound(text);
      NoPlaceholderAtPlain(m, kind, token);
    }
    assert text[1..] == Shown(m[1..]);
  }

  lemma ExtractAtMark(s: Symbol, after: string)
    requires s.Mark? && PatternKind(s.kind) && TokenShape(s.token)
    ensures Extract(ShownOne(s) + after) == (if ExtractableKind(s.kind) then [(s.kind, s.token)] else []) + Extract(after)
  {
    hide ParseAt, Placeholder;
    var w := ShownOne(s);
    var text := w + after;
    PlaceholderIsBracketed(s.kind, s.token);
    if ExtractableKind(s.kind) {
      ParseExactly(text, s.kind, s.token);
      assert text[|w|..] == after;
    } else {
      if ParseAt(text).Some? {
        var (kind, token) := ParseAt(text).value;
        ParseSound(text);
        OnlyOwnPlaceholderAtMark(s, after, kind, token);
      }
      assert text[1..] == w[1..] + after;
      ExtractSkips(w[1..], after);
    }
  }

  // --- Replacing one placeholder ---

  function Unmask(m: Masked, kind: string, token: string, with: string): Masked {
    if m == [] then []
    else
      (if m[0].Mark? && (m[0].kind, m[0].token) == (kind, token) then PlainText(with) else [m[0]])
      + Unmask(m[1..], kind, token, with)
  }

  lemma {:induction false} ReplaceSkips(u: string, after: string, what: string, with: string)
    requires what != [] && what[0] == '[' && forall i :: 0 <= i < |u| ==> u[i] != '['
    ensures ReplaceAll(u + after, what, with) == u + ReplaceAll(after, what, with)
  {
    if u == [] {
      assert u + after == after;
    } else {
      assert (u + after)[0] != '[';
      assert (u + after)[1..] == u[1..] + after;
      ReplaceSkips(u[1..], after, what, with);
    }
  }

  lemma ReplaceAtMark(s: Symbol, after: string, kind: string, token: string, with: string)
    requires s.Mark? && PatternKind(s.kind) && TokenShape(s.token) && ExtractableKind(kind) && TokenShape(token)
    ensures ReplaceAll(ShownOne(s) + after, Placeholder(kind, token), with) ==
            (if (kind, token) == (s.kind, s.token) then with else ShownOne(s)) + ReplaceAll(after, Placeholder(kind, token), with)
  {
    hide Placeholder, TokenShape, PatternKind, ExtractableKind, ReplaceAll;
    var w, what := ShownOne(s), Placeholder(kind, token);
    var text := w + after;
    PlaceholderIsBracketed(s.kind, s.token);
    ExtractableIsPatternKind(kind);
    PlaceholderIsBracketed(kind, token);
    OnlyOwnPlaceholderAtMark(s, after, kind, token);
    ReplaceOnce(text, what, with);
    if (kind, token) == (s.kind, s.token) {
      assert text[|w|..] == after;
    } else {
      assert text[1..] == w[1..] + after;
      ReplaceSkips(w[1..], after, what, with);
      assert [w[0]] + (w[1..] + ReplaceAll(after, what, with)) == w + ReplaceAll(after, what, with);
    }
  }

  lemma ReplaceOnce(text: string, what: string, with: string)
    requires what != [] && text != []
    ensures ReplaceAll(text, what, with) ==
            if what <= text then with + ReplaceAll(text[|what|..], what, with) else [text[0]] + ReplaceAll(text[1..], what, with)
  {
  }

  /** Replacing a placeholder everywhere in the shown text replaces the marks that show it and nothing else. */
  lemma {:induction false} ReplaceUnmasks(m: Masked, kind: string, token: string, with: string)
    requires WellMarked(m) && Extract(Original(m)) == [] && ExtractableKind(kind) && TokenShape(token)
    ensures ReplaceAll(Shown(m), Placeholder(kind, token), with) == Shown(Unmask(m, kind, token, with))
  {
    hide Placeholder, PatternKind, TokenShape, ExtractableKind, Extract;
    if m != [] {
      var rest, what := m[1..], Placeholder(kind, token);
      NoneInRest(m);
      ReplaceUnmasks(rest, kind, token, with);
      var head := if m[0].Mark? && (m[0].kind, m[0].token) == (kind, token) then PlainText(with) else [m[0]];
      ConcatSplits(head, Unmask(rest, kind, token, with));
      PlainTextReads(with);
      if m[0].Plain? {
        NoPlaceholderAtPlain(m, kind, token);
        assert Shown(m)[1..] == Shown(rest);
      } else {
        ReplaceAtMark(m[0], Shown(rest), kind, token, with);
      }
    }
  }

  // --- Restoring marks one after the other ---

  /** The marks in `done` are restored, the others still stand. */
  function Restored(m: Masked, done: set<(string, string)>): Masked {
    if m == [] then []
    else
      (if m[0].Mark? && (m[0].kind, m[0].token) in done then PlainText(m[0].original) else [m[0]]) + Restored(m[1..], done)
  }

  lemma {:induction false} RestoredKeepsOriginal(m: Masked, done: set<(string, string)>)
    ensures Original(Restored(m, done)) == Original(m)
  {
    if m != [] {
      RestoredKeepsOriginal(m[1..], done);
      var head := if m[0].Mark? && (m[0].kind, m[0].token) in done then PlainText(m[0].original) else [m[0]];
      ConcatSplits(head, Restored(m[1..], done));
      if m[0].Mark? {
        PlainTextReads(m[0].original);
      }
    }
  }

  lemma {:induction false} RestoredStaysWellMarked(m: Masked, done: set<(string, string)>)
    requires WellMarked(m)
    ensures WellMarked(Restored(m, done))
  {
    hide PatternKind, TokenShape;
    if m != [] {
      RestoredStaysWellMarked(m[1..], done);
      if m[0].Mark? {
        PlainTextReads(m[0].original);
      }
    }
  }

  /** All marks that show this placeholder hide the same text. */
  predicate Hides(m: Masked, kind: string, token: string, text: string) {
    forall i :: 0 <= i < |m| && m[i].Mark? && (m[i].kind, m[i].token) == (kind, token) ==> m[i].original == text
  }

  lemma UnmaskStep(s: Symbol, after: Masked, kind: string, token: string, with: string)
    ensures Unmask([s] + after, kind, token, with) ==
            (if s.Mark? && (s.kind, s.token) == (kind, token) then PlainText(with) else [s]) + Unmask(after, kind, token, with)
  {
    assert ([s] + after)[1..] == after;
  }

  lemma {:induction false} UnmaskPlain(s: string, after: Masked, kind: string, token: string, with: string)
    ensures Unmask(PlainText(s) + after, kind, token, with) == PlainText(s) + Unmask(after, kind, token, with)
  {
    hide Unmask;
    if s == [] {
      assert PlainText(s) + after == after;
    } else {
      var head, tail := [Plain(s[0])], PlainText(s[1..]);
      UnmaskPlain(s[1..], after, kind, token, with);
      UnmaskStep(Plain(s[0]), tail + after, kind, token, with);
      assert head + tail + after == head + (tail + after);
      assert head + tail + Unmask(after, kind, token, with) == head + (tail + Unmask(after, kind, token, with));
    }
  }

  lemma {:induction false} UnmaskRestores(m: Masked, done: set<(string, string)>, kind: string, token: string, text: string)
    requires Hides(m, kind, token, text)
    ensures Unmask(Restored(m, done), kind, token, text) == Restored(m, done + {(kind, token)})
  {
    if m != [] {
      var s, rest := m[0], Restored(m[1..], done);
      UnmaskRestores(m[1..], done, kind, token, text);
      if s.Mark? && (s.kind, s.token) in done {
        UnmaskPlain(s.original, rest, kind, token, text);
      } else {
        assert ([s] + rest)[1..] == rest;
      }
    }
  }

  /** One replacement in the course of a reveal restores one more placeholder. */
  lemma {:induction false} ReplaceRestores(m: Masked, done: set<(string, string)>, kind: string, token: string, text: string)
    requires WellMarked(m) && Extract(Original(m)) == [] && ExtractableKind(kind) && TokenShape(token)
    requires Hides(m, kind, token, text)
    ensures ReplaceAll(Shown(Restored(m, done)), Placeholder(kind, token), text) == Shown(Restored(m, done + {(kind, token)}))
  {
    hide Restored, Shown, ReplaceAll, Unmask, Extract, Placeholder, WellMarked, Hides;
    RestoredKeepsOriginal(m, done);
    RestoredStaysWellMarked(m, done);
    ReplaceUnmasks(Restored(m, done), kind, token, text);
    UnmaskRestores(m, done, kind, token, text);
  }

  /** Only the marks of unrecognised kinds still stand. */
  function Recovered(m: Masked): Masked {
    if m == [] then []
    else (if m[0].Mark? && ExtractableKind(m[0].kind) then PlainText(m[0].original) else [m[0]]) + Recovered(m[1..])
  }

  lemma {:induction false} MarksAreExtractable(m: Masked, i: nat)
    requires i < |Marks(m)| && WellMarked(m)
    ensures ExtractableKind(Marks(m)[i].0) && TokenShape(Marks(m)[i].1)
  {
    hide ExtractableKind, TokenShape, PatternKind;
    if m[0].Mark? && ExtractableKind(m[0].kind) {
      if i > 0 {
        MarksAreExtractable(m[1..], i - 1);
      }
    } else {
      MarksAreExtractable(m[1..], i);
    }
  }

  lemma {:induction false} AllRestored(m: Masked, done: set<(string, string)>)
    requires forall p :: p in done ==> ExtractableKind(p.0)
    requires forall i :: 0 <= i < |Marks(m)| ==> Marks(m)[i] in done
    ensures Restored(m, done) == Recovered(m)
  {
    hide ExtractableKind;
    if m != [] {
      forall i | 0 <= i < |Marks(m[1..])|
        ensures Marks(m[1..])[i] in done
      {
        var k := |Marks(m)| - |Marks(m[1..])|;
        assert Marks(m)[i + k] == Marks(m[1..])[i];
      }
      AllRestored(m[1..], done);
      if m[0].Mark? {
        if ExtractableKind(m[0].kind) {
          assert Marks(m)[0] == (m[0].kind, m[0].token);
        } else {
          var p := (m[0].kind, m[0].token);
          assert p in done ==> ExtractableKind(p.0);
        }
      }
    }
  }

  /** With recognised kinds only, nothing is left hidden. */
  lemma {:induction false} RecoveredIsOriginal(m: Masked)
    requires forall i :: 0 <= i < |m| && m[i].Mark? ==> ExtractableKind(m[i].kind)
    ensures Shown(Recovered(m)) == Original(m)
  {
    hide ExtractableKind;
    if m != [] {
      forall i | 0 <= i < |m[1..]| && m[1..][i].Mark?
        ensures ExtractableKind(m[1..][i].kind)
      {
        assert m[1..][i] == m[i + 1];
      }
      RecoveredIsOriginal(m[1..]);
      if m[0].Mark? {
        PlainTextReads(m[0].original);
        ConcatSplits(PlainText(m[0].original), Recovered(m[1..]));
      } else {
        ConcatSplits([m[0]], Recovered(m[1..]));
      }
    }
  }

  /** Every part behind an unrecognised kind is shorter than the placeholder in front of it. */
  predicate ShortBehindUnrecognised(m: Masked) {
    forall i :: 0 <= i < |m| && m[i].Mark? && !ExtractableKind(m[i].kind) ==>
      |m[i].original| < |Placeholder(m[i].kind, m[i].token)|
  }

  predicate AllRecognised(m: Masked) {
    forall i :: 0 <= i < |m| && m[i].Mark? ==> ExtractableKind(m[i].kind)
  }

  lemma {:induction false} RecoveredIsLonger(m: Masked)
    requires ShortBehindUnrecognised(m)
    ensures |Shown(Recovered(m))| >= |Original(m)|
    ensures !AllRecognised(m) ==> |Shown(Recovered(m))| > |Original(m)|
  {
    hide ExtractableKind, Placeholder;
    if m != [] {
      var s, rest := m[0], m[1..];
      assert forall i :: 0 <= i < |rest| ==> rest[i] == m[i + 1];
      RecoveredIsLonger(rest);
      if s.Mark? && ExtractableKind(s.kind) {
        PlainTextReads(s.original);
        ConcatSplits(PlainText(s.original), Recovered(rest));
      } else {
        ConcatSplits([s], Recovered(rest));
        assert Shown([s]) == ShownOne(s) + Shown([]);
      }
    }
  }

  /** The text comes back exactly when every mark has a recognised kind. */
  lemma {:induction false} RecoveredIsOriginalExactly(m: Masked)
    requires ShortBehindUnrecognised(m)
    ensures Shown(Recovered(m)) == Original(m) <==> AllRecognised(m)
  {
    hide ExtractableKind, Placeholder, Recovered, Shown, Original;
    RecoveredIsLonger(m);
    if AllRecognised(m) {
      RecoveredIsOriginal(m);
    }
  }

  /** Addresses are of a kind the expression does not recognise, and are shorter than any placeholder. */
  lemma {:induction false} Ipv4IsNotRecognised(token: string, address: string)
    requires TokenShape(token) && |address| <= 15
    ensures PatternKind("ipv4") && !ExtractableKind("ipv4") && |address| < |Placeholder("ipv4", token)|
  {
    assert "ipv4"[3] == '4';
  }
}
