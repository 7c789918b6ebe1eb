/** The two quote-aware scanners of shell commands: one cuts a command at its separators, the other refuses
    shell features that the cutting does not model. Commands are ASCII. */
module Scanners {
  import opened Bytes

  datatype Quote = Unquoted | Single | Double

  function Advance(q: Quote, c: char): Quote {
    match q
    case Single => if c == '\'' then Unquoted else Single
    case Double => if c == '"' then Unquoted else Double
    case Unquoted => if c == '\'' then Single else if c == '"' then Double else Unquoted
  }

  /** Where a text leaves the quotes, starting outside them. */
  function After(s: string): Quote {
    if s == [] then Unquoted else Advance(After(s[..|s| - 1]), s[|s| - 1])
  }

  // --- Cutting ---

  /** Length of the separator at the start of unquoted text, if there is one. */
  function BreakWidth(s: string): (n: nat)
    ensures n <= 2 && n <= |s|
  {
    if |s| >= 2 && s[0] == s[1] && (s[0] == '&' || s[0] == '|') then 2
    else if s != [] && (s[0] == ';' || s[0] == '\n' || s[0] == '\r' || s[0] == '|') then 1
    else 0
  }

  predicate Starts(s: string, prefix: string) {
    |prefix| <= |s| && s[..|prefix|] == prefix
  }

  /** Unquoted text is cut at exactly six separators, the longer one where two could be meant. */
  lemma {:induction false} BreaksExactly(s: string)
    ensures BreakWidth(s) == 2 <==> Starts(s, "&&") || Starts(s, "||")
    ensures BreakWidth(s) > 0 <==>
            Starts(s, "&&") || Starts(s, "||") || Starts(s, "|") || Starts(s, ";") || Starts(s, "\n") || Starts(s, "\r")
  {
    assert |s| >= 2 ==> s[..2] == [s[0], s[1]];
    assert |s| >= 1 ==> s[..1] == [s[0]];
  }

  /** A piece of the command and the separator it was cut at; the last piece has none. */
  datatype Cut = Cut(segment: string, separator: string)

  /** The cuts of what is left of the command, `current` being the piece under way. */
  function Cuts(rest: string, current: string): seq<Cut>
    decreases |rest|
  {
    if rest == [] then [Cut(current, "")]
    else
      var n := BreakWidth(rest);
      if After(current) == Unquoted && n > 0 then [Cut(current, rest[..n])] + Cuts(rest[n..], [])
      else Cuts(rest[1..], current + [rest[0]])
  }

  lemma CutsEnd(current: string)
    ensures Cuts([], current) == [Cut(current, "")]
  {
  }

  lemma CutsBreak(rest: string, current: string)
    requires After(current) == Unquoted && BreakWidth(rest) > 0
    ensures Cuts(rest, current) == [Cut(current, rest[..BreakWidth(rest)])] + Cuts(rest[BreakWidth(rest)..], [])
  {
    hide After;
  }

  lemma CutsMove(rest: string, current: string)
    requires rest != [] && !(After(current) == Unquoted && BreakWidth(rest) > 0)
    ensures Cuts(rest, current) == Cuts(rest[1..], current + [rest[0]])
  {
    hide After;
  }

  /** The segments handed on: an empty last piece is dropped. */
  function Segments(cuts: seq<Cut>): seq<string> {
    if cuts == [] then []
    else if |cuts| == 1 && cuts[0].segment == [] then []
    else [cuts[0].segment] + Segments(cuts[1..])
  }

  method SplitChain(command: string) returns (segments: seq<string>)
    ensures segments == Segments(Cuts(command, []))
  {
    segments := [];
    var current: string := [];
    var inSingle, inDouble := false, false;
    var i := 0;
    ghost var made: seq<Cut> := [];
    assert command[0..] == command && made + Cuts(command, []) == Cuts(command, []);
    hide Cuts, BreakWidth, Segments;
    while i < |command|
      invariant 0 <= i <= |command|
      invariant After(current) == (if inSingle then Single else if inDouble then Double else Unquoted)
      invariant made + Cuts(command[i..], current) == Cuts(command, [])
      invariant segments == Pieces(made)
    {
      var ch, rest := command[i], command[i..];
      assert rest[0] == ch && rest[1..] == command[i + 1..];
      AfterNext(current, ch);
      hide After;
      if inSingle || inDouble {
        if ch == (if inSingle then '\'' else '"') {
          inSingle, inDouble := false, false;
        }
        CutsMove(rest, current);
        current := current + [ch];
        i := i + 1;
      } else {
        var n := BreakWidth(rest);
        if n > 0 {
          made := Extended(command, made, rest, current);
          PiecesNext(made[..|made| - 1], made[|made| - 1]);
          segments := segments + [current];
          current := [];
          i := i + n;
          assert command[i..] == rest[n..];
          NothingOpen();
        } else {
          CutsMove(rest, current);
          inSingle, inDouble := ch == '\'', ch == '"';
          current := current + [ch];
          i := i + 1;
        }
      }
    }
    assert command[i..] == [];
    CutsEnd(current);
    SegmentsEnd(made, current);
    if current != [] {
      segments := segments + [current];
    }
  }

  ghost function Extended(command: string, made: seq<Cut>, rest: string, current: string): (longer: seq<Cut>)
    requires BreakWidth(rest) > 0 && After(current) == Unquoted && made + Cuts(rest, current) == Cuts(command, [])
    ensures longer == made + [Cut(current, rest[..BreakWidth(rest)])]
    ensures longer + Cuts(rest[BreakWidth(rest)..], []) == Cuts(command, [])
  {
    CutsBreak(rest, current);
    made + [Cut(current, rest[..BreakWidth(rest)])]
  }

  function Pieces(cuts: seq<Cut>): seq<string> {
    if cuts == [] then [] else [cuts[0].segment] + Pieces(cuts[1..])
  }

  lemma {:induction false} PiecesNext(cuts: seq<Cut>, c: Cut)
    ensures Pieces(cuts + [c]) == Pieces(cuts) + [c.segment]
  {
    if cuts != [] {
      assert (cuts + [c])[1..] == cuts[1..] + [c];
      PiecesNext(cuts[1..], c);
    }
  }

  lemma NothingOpen()
    ensures After([]) == Unquoted
  {
  }

  lemma AfterNext(s: string, c: char)
    ensures After(s + [c]) == Advance(After(s), c)
  {
    assert (s + [c])[..|s|] == s;
  }

  lemma {:induction false} SegmentsEnd(made: seq<Cut>, current: string)
    ensures Segments(made + [Cut(current, "")]) == Pieces(made) + if current != [] then [current] else []
  {
    if made != [] {
      assert (made + [Cut(current, "")])[1..] == made[1..] + [Cut(current, "")];
      SegmentsEnd(made[1..], current);
    }
  }

  // --- Nothing is lost, and breaks are outside quotes ---

  function Joined(cuts: seq<Cut>): string {
    if cuts == [] then [] else cuts[0].segment + cuts[0].separator + Joined(cuts[1..])
  }

  /** Putting the separators back between the pieces gives the command. */
  lemma {:induction false} CutsRejoin(rest: string, current: string)
    ensures Joined(Cuts(rest, current)) == current + rest
    decreases |rest|
  {
    hide *;
    if rest == [] {
      CutsEnd(current);
      JoinedCons(Cut(current, ""), []);
      assert [Cut(current, "")] + [] == [Cut(current, "")];
    } else if After(current) == Unquoted && BreakWidth(rest) > 0 {
      var n := BreakWidth(rest);
      CutsBreak(rest, current);
      CutsRejoin(rest[n..], []);
      JoinedCons(Cut(current, rest[..n]), Cuts(rest[n..], []));
      assert current + rest[..n] + ([] + rest[n..]) == current + rest;
    } else {
      CutsMove(rest, current);
      CutsRejoin(rest[1..], current + [rest[0]]);
      assert current + [rest[0]] + rest[1..] == current + rest;
    }
  }

  lemma JoinedCons(c: Cut, cuts: seq<Cut>)
    ensures Joined([]) == [] && Joined([c] + cuts) == c.segment + c.separator + Joined(cuts)
  {
    assert ([c] + cuts)[1..] == cuts;
  }

  /** The command without the separators it was cut at is the segments one after the other. */
  function Concat(segments: seq<string>): string {
    if segments == [] then [] else segments[0] + Concat(segments[1..])
  }

  function Kept(rest: string, q: Quote): string
    decreases |rest|
  {
    if rest == [] then []
    else
      var n := BreakWidth(rest);
      if q == Unquoted && n > 0 then Kept(rest[n..], Unquoted)
      else [rest[0]] + Kept(rest[1..], Advance(q, rest[0]))
  }

  lemma KeptStep(rest: string, q: Quote)
    requires rest != []
    ensures
      var n := BreakWidth(rest);
      Kept(rest, q) == if q == Unquoted && n > 0 then Kept(rest[n..], Unquoted) else [rest[0]] + Kept(rest[1..], Advance(q, rest[0]))
  {
  }

  lemma {:induction false} SegmentsAreTheRest(rest: string, current: string)
    ensures Concat(Segments(Cuts(rest, current))) == current + Kept(rest, After(current))
    decreases |rest|
  {
    hide *;
    if rest == [] {
      CutsEnd(current);
      LastSegment(current, After(current));
      assert current + [] == current;
    } else {
      KeptStep(rest, After(current));
      if After(current) == Unquoted && BreakWidth(rest) > 0 {
        SegmentsAreTheRest(rest[BreakWidth(rest)..], []);
        SegmentsAtBreak(rest, current);
      } else {
        CutsMove(rest, current);
        AfterNext(current, rest[0]);
        SegmentsAreTheRest(rest[1..], current + [rest[0]]);
        var tail := Kept(rest[1..], After(current + [rest[0]]));
        assert current + [rest[0]] + tail == current + ([rest[0]] + tail);
      }
    }
  }

  lemma SegmentsAtBreak(rest: string, current: string)
    requires After(current) == Unquoted && BreakWidth(rest) > 0
    requires
      var later := rest[BreakWidth(rest)..];
      Concat(Segments(Cuts(later, []))) == [] + Kept(later, After([]))
    ensures Concat(Segments(Cuts(rest, current))) == current + Kept(rest[BreakWidth(rest)..], Unquoted)
  {
    hide *;
    var later := rest[BreakWidth(rest)..];
    NothingOpen();
    CutsBreak(rest, current);
    CutsExist(later, []);
    SegmentsCons(Cut(current, rest[..BreakWidth(rest)]), Cuts(later, []));
    assert [] + Kept(later, Unquoted) == Kept(later, Unquoted);
  }

  lemma LastSegment(current: string, q: Quote)
    ensures Concat(Segments([Cut(current, "")])) == current && Kept([], q) == []
  {
    assert Segments([Cut(current, "")][1..]) == [];
  }

  lemma SegmentsCons(c: Cut, cuts: seq<Cut>)
    requires cuts != []
    ensures Segments([c] + cuts) == [c.segment] + Segments(cuts)
    ensures Concat([c.segment] + Segments(cuts)) == c.segment + Concat(Segments(cuts))
  {
    assert ([c] + cuts)[1..] == cuts;
    assert ([c.segment] + Segments(cuts))[1..] == Segments(cuts);
  }

  lemma {:induction false} CutsExist(rest: string, current: string)
    ensures Cuts(rest, current) != []
    decreases |rest|
  {
    hide *;
    if rest == [] {
      CutsEnd(current);
    } else if After(current) == Unquoted && BreakWidth(rest) > 0 {
      CutsBreak(rest, current);
    } else {
      CutsMove(rest, current);
      CutsExist(rest[1..], current + [rest[0]]);
    }
  }

  /** An `&` that could pair with the next character. */
  predicate OpenAmpersand(s: string) {
    s != [] && s[|s| - 1] == '&' && After(s[..|s| - 1]) == Unquoted
  }

  /** No separator stands outside the quotes. */
  predicate Whole(s: string) {
    s == [] ||
    var k := |s| - 1;
    && Whole(s[..k])
    && (After(s[..k]) == Unquoted ==>
          s[k] != ';' && s[k] != '\n' && s[k] != '\r' && s[k] != '|' && !(s[k] == '&' && OpenAmpersand(s[..k])))
  }

  predicate IsSeparator(s: string) {
    s == "&&" || s == "||" || s == ";" || s == "\n" || s == "\r" || s == "|"
  }

  /** Each piece leaves no quote open where it was cut and has no unquoted separator in it, and each cut was
      made at a separator, which is gone from the segments. */
  lemma {:induction false} EveryPieceIsWhole(rest: string, current: string, i: nat)
    requires Whole(current) && i < |Cuts(rest, current)|
    requires OpenAmpersand(current) ==> rest == [] || rest[0] != '&'
    ensures
      var cuts := Cuts(rest, current);
      && Whole(cuts[i].segment)
      && (i < |cuts| - 1 ==> After(cuts[i].segment) == Unquoted && IsSeparator(cuts[i].separator))
      && (i == |cuts| - 1 ==> cuts[i].separator == "")
    decreases |rest|
  {
    hide *;
    if rest == [] {
      CutsEnd(current);
    } else if After(current) == Unquoted && BreakWidth(rest) > 0 {
      var later := rest[BreakWidth(rest)..];
      CutsBreak(rest, current);
      CutsExist(later, []);
      SeparatorsOnly(rest);
      NothingIsWhole();
      if i > 0 {
        EveryPieceIsWhole(later, [], i - 1);
        assert Cuts(rest, current)[i] == Cuts(later, [])[i - 1];
      }
    } else {
      CutsMove(rest, current);
      WholeNext(current, rest);
      EveryPieceIsWhole(rest[1..], current + [rest[0]], i);
    }
  }

  lemma NothingIsWhole()
    ensures Whole([]) && !OpenAmpersand([])
  {
  }

  lemma SeparatorsOnly(rest: string)
    requires BreakWidth(rest) > 0
    ensures IsSeparator(rest[..BreakWidth(rest)])
  {
    var n := BreakWidth(rest);
    if n == 2 {
      assert rest[..2] == [rest[0], rest[1]];
    } else {
      assert rest[..1] == [rest[0]];
    }
  }

  lemma WholeNext(current: string, rest: string)
    requires Whole(current) && rest != [] && !(After(current) == Unquoted && BreakWidth(rest) > 0)
    requires OpenAmpersand(current) ==> rest[0] != '&'
    ensures Whole(current + [rest[0]])
    ensures OpenAmpersand(current + [rest[0]]) ==> |rest| == 1 || rest[1] != '&'
  {
    hide After;
    assert (current + [rest[0]])[..|current|] == current;
  }

  lemma {:induction false} StaysQuoted(q: char, s: string)
    requires (q == '\'' || q == '"') && forall i :: 0 <= i < |s| ==> s[i] != q
    ensures After([q] + s) == if q == '"' then Double else Single
  {
    if s == [] {
      assert [q] + s == [] + [q];
      NothingOpen();
      AfterNext([], q);
    } else {
      var k := |s| - 1;
      StaysQuoted(q, s[..k]);
      assert [q] + s == ([q] + s[..k]) + [s[k]];
      AfterNext([q] + s[..k], s[k]);
    }
  }

  lemma {:induction false} NotCutInQuotes(q: char, s: string, t: string)
    requires (q == '\'' || q == '"') && (forall i :: 0 <= i < |s| ==> s[i] != q) && (forall i :: 0 <= i < |t| ==> t[i] != q)
    ensures Cuts(t + [q], [q] + s) == [Cut([q] + s + t + [q], "")]
    decreases |t|
  {
    hide Cuts, After, BreakWidth;
    var current, rest := [q] + s, t + [q];
    StaysQuoted(q, s);
    CutsMove(rest, current);
    if t == [] {
      assert rest[1..] == [] && rest[0] == q && [q] + s + t == [q] + s;
      CutsEnd(current + [q]);
    } else {
      NotCutInQuotes(q, s + [t[0]], t[1..]);
      QuoteMoves(q, s, t);
    }
  }

  lemma QuoteMoves(q: char, s: string, t: string)
    requires t != []
    ensures (t + [q])[1..] == t[1..] + [q] && (t + [q])[0] == t[0]
    ensures [q] + s + [t[0]] == [q] + (s + [t[0]])
    ensures [q] + (s + [t[0]]) + t[1..] + [q] == [q] + s + t + [q]
  {
    assert [t[0]] + t[1..] == t;
    assert s + [t[0]] + t[1..] == s + t;
  }

  /** A text in quotes is one piece, whatever separators and other quotes it has in it, and outside quotes
      again at its end. */
  lemma {:induction false} QuotedIsOnePiece(q: char, s: string)
    requires (q == '\'' || q == '"') && forall i :: 0 <= i < |s| ==> s[i] != q
    ensures Cuts([q] + s + [q], []) == [Cut([q] + s + [q], "")] && After([q] + s + [q]) == Unquoted
  {
    hide Cuts, After;
    var all := [q] + s + [q];
    NothingOpen();
    StaysQuoted(q, s);
    AfterNext([q] + s, q);
    NoBreakAtQuote(all);
    CutsMove(all, []);
    assert all[1..] == s + [q] && [] + [all[0]] == [q] + [];
    NotCutInQuotes(q, [], s);
    assert [q] + [] + s + [q] == all;
  }

  lemma NoBreakAtQuote(s: string)
    requires s != [] && (s[0] == '\'' || s[0] == '"')
    ensures BreakWidth(s) == 0
  {
  }

  // --- Refusing what is not modelled ---

  datatype Feature = Braces | HereDoc | PipeBoth | DupOut | DupIn | ReadWrite | Continuation | Glob | Brackets | Tilde

  predicate NextIs(s: string, i: nat, c: char) {
    i + 1 < |s| && s[i + 1] == c
  }

  /** Position of the first `c`, or the length. */
  function IndexOf(s: string, c: char): (at: nat)
    ensures at <= |s| && (at < |s| ==> s[at] == c) && forall i :: 0 <= i < at ==> s[i] != c
  {
    if s == [] || s[0] == c then 0 else 1 + IndexOf(s[1..], c)
  }

  predicate HasRange(s: string) {
    ',' in s || exists i {:trigger s[i]} :: 0 <= i < |s| - 1 && s[i] == '.' && s[i + 1] == '.'
  }

  /** A brace or bracket is judged by the text from the command's second character on, wherever it stands. */
  predicate HasBraceGroup(command: string) {
    command != [] &&
    var rest := command[1..];
    var close := IndexOf(rest, '}');
    close < |rest| && HasRange(rest[..close])
  }

  function FeatureAt(command: string, i: nat): Option<Feature>
    requires i < |command|
  {
    var ch := command[i];
    if ch == '{' then (if HasBraceGroup(command) then Some(Braces) else None)
    else if ch == '<' && NextIs(command, i, '<') then Some(HereDoc)
    else if ch == '|' && NextIs(command, i, '&') then Some(PipeBoth)
    else if ch == '>' && NextIs(command, i, '&') then Some(DupOut)
    else if ch == '<' && NextIs(command, i, '&') then Some(DupIn)
    else if ch == '<' && NextIs(command, i, '>') then Some(ReadWrite)
    else if ch == '\\' && NextIs(command, i, '\n') then Some(Continuation)
    else if ch == '*' || ch == '?' then Some(Glob)
    else if ch == '[' && ']' in command[1..] then Some(Brackets)
    else if ch == '~' then Some(Tilde)
    else None
  }

  /** The feature at `i` is outside quotes, and none before it is. */
  predicate IsFirstFeature(command: string, i: nat, found: Option<Feature>)
    requires i < |command|
  {
    && After(command[..i]) == Unquoted && FeatureAt(command, i) == found
    && forall j :: 0 <= j < i && After(command[..j]) == Unquoted ==> FeatureAt(command, j).None?
  }

  /** The first feature outside quotes, if any. */
  method CheckUnmodeled(command: string) returns (found: Option<Feature>)
    ensures found.None? <==> forall i :: 0 <= i < |command| && After(command[..i]) == Unquoted ==> FeatureAt(command, i).None?
    ensures found.Some? ==> exists i :: 0 <= i < |command| && IsFirstFeature(command, i, found)
  {
    hide FeatureAt;
    var inSingle, inDouble := false, false;
    for i := 0 to |command|
      invariant !(inSingle && inDouble) && After(command[..i]) == (if inSingle then Single else if inDouble then Double else Unquoted)
      invariant forall j :: 0 <= j < i && After(command[..j]) == Unquoted ==> FeatureAt(command, j).None?
    {
      var ch := command[i];
      assert command[..i + 1] == command[..i] + [ch];
      AfterNext(command[..i], ch);
      if inSingle {
        if ch == '\'' {
          inSingle := false;
        }
      } else if inDouble {
        if ch == '"' {
          inDouble := false;
        }
      } else {
        if ch == '\'' {
          QuotesAreNoFeature(command, i);
          inSingle := true;
        } else if ch == '"' {
          QuotesAreNoFeature(command, i);
          inDouble := true;
        } else {
          found := FeatureAt(command, i);
          if found.Some? {
            assert IsFirstFeature(command, i, found);
            return;
          }
        }
      }
    }
    found := None;
  }

  /** Each feature by the text that makes it. */
  lemma {:induction false} FeatureIsNamed(command: string, i: nat)
    requires i < |command|
    ensures
      var found, text := FeatureAt(command, i), command[i..];
      && (found == Some(HereDoc) <==> Starts(text, "<<"))
      && (found == Some(PipeBoth) <==> Starts(text, "|&"))
      && (found == Some(DupOut) <==> Starts(text, ">&"))
      && (found == Some(DupIn) <==> Starts(text, "<&"))
      && (found == Some(ReadWrite) <==> Starts(text, "<>"))
      && (found == Some(Continuation) <==> Starts(text, "\\\n"))
      && (found == Some(Glob) <==> Starts(text, "*") || Starts(text, "?"))
      && (found == Some(Tilde) <==> Starts(text, "~"))
      && (found == Some(Brackets) <==> Starts(text, "[") && exists k :: 0 < k < |command| && command[k] == ']')
      && (found == Some(Braces) <==> Starts(text, "{") && HasBraceGroup(command))
  {
    hide HasBraceGroup;
    var text := command[i..];
    assert |text| >= 2 ==> text[..2] == [command[i], command[i + 1]];
    assert text[..1] == [command[i]];
    assert ']' in command[1..] <==> exists k :: 0 < k < |command| && command[k] == ']';
  }

  /** A comma or two dots in a row between the first character and `close`. */
  predicate RangeBefore(command: string, close: nat) {
    || (exists i :: 0 < i < close <= |command| && command[i] == ',')
    || (exists i {:trigger command[i]} :: 0 < i < close - 1 < |command| && command[i] == '.' && command[i + 1] == '.')
  }

  /** Braces count when the command, after its first character, has a comma or two dots before the first
      closing brace. */
  lemma {:induction false} BraceGroupExactly(command: string)
    ensures HasBraceGroup(command) <==>
      exists close :: 0 < close < |command| && command[close] == '}' && RangeBefore(command, close)
                      && forall i :: 0 < i < close ==> command[i] != '}'
  {
    if command != [] {
      var rest := command[1..];
      var at := IndexOf(rest, '}');
      assert forall i :: 0 < i < |command| ==> command[i] == rest[i - 1];
      if at < |rest| {
        RangeIn(command, at + 1);
        assert command[1..at + 1] == rest[..at];
      }
      forall close | 0 < close < |command| && command[close] == '}' && forall i :: 0 < i < close ==> command[i] != '}'
        ensures close == at + 1
      {
        assert rest[close - 1] == '}';
      }
    }
  }

  lemma RangeIn(command: string, close: nat)
    requires 0 < close <= |command|
    ensures HasRange(command[1..close]) <==> RangeBefore(command, close)
  {
    CommaIn(command, close);
    DotsIn(command, close);
  }

  lemma CommaIn(command: string, close: nat)
    requires 0 < close <= |command|
    ensures ',' in command[1..close] <==> exists i :: 0 < i < close <= |command| && command[i] == ','
  {
    var s := command[1..close];
    if i :| 0 < i < close <= |command| && command[i] == ',' {
      assert s[i - 1] == ',';
    }
  }

  lemma DotsIn(command: string, close: nat)
    requires 0 < close <= |command|
    ensures
      var s := command[1..close];
      (exists i {:trigger s[i]} :: 0 <= i < |s| - 1 && s[i] == '.' && s[i + 1] == '.') <==>
      exists i {:trigger command[i]} :: 0 < i < close - 1 < |command| && command[i] == '.' && command[i + 1] == '.'
  {
    var s := command[1..close];
    if i {:trigger command[i]} :| 0 < i < close - 1 < |command| && command[i] == '.' && command[i + 1] == '.' {
      assert s[i - 1] == '.' && s[i - 1 + 1] == '.';
    }
    if i {:trigger s[i]} :| 0 <= i < |s| - 1 && s[i] == '.' && s[i + 1] == '.' {
      assert command[i + 1] == '.' && command[i + 1 + 1] == '.';
    }
  }

  lemma QuotesAreNoFeature(command: string, i: nat)
    requires i < |command| && (command[i] == '\'' || command[i] == '"')
    ensures FeatureAt(command, i).None?
  {
  }

  // --- The scanners agree ---

  predicate IsExpansion(c: char) {
    c == '*' || c == '?' || c == '~'
  }

  /** Every `*`, `?` and `~` of the text is inside its own quotes. */
  predicate Guarded(s: string) {
    s == [] || (Guarded(s[..|s| - 1]) && (After(s[..|s| - 1]) == Unquoted ==> !IsExpansion(s[|s| - 1])))
  }

  lemma {:induction false} AfterConcat(a: string, b: string)
    requires After(a) == Unquoted
    ensures After(a + b) == After(b)
  {
    if b == [] {
      assert a + b == a;
    } else {
      assert (a + b)[..|a + b| - 1] == a + b[..|b| - 1];
      AfterConcat(a, b[..|b| - 1]);
    }
  }

  lemma {:induction false} GuardedConcat(a: string, b: string)
    requires After(a) == Unquoted
    ensures Guarded(a + b) <==> Guarded(a) && Guarded(b)
  {
    if b == [] {
      assert a + b == a;
    } else {
      var k := |b| - 1;
      assert (a + b)[..|a + b| - 1] == a + b[..k];
      GuardedConcat(a, b[..k]);
      AfterConcat(a, b[..k]);
    }
  }

  lemma SeparatorIsGuarded(s: string)
    requires IsSeparator(s)
    ensures After(s) == Unquoted && Guarded(s)
  {
    if |s| == 2 {
      assert s == [s[0]] + [s[1]];
      AfterNext([s[0]], s[1]);
      GuardedOne(s[0]);
      GuardedOne(s[1]);
      GuardedConcat([s[0]], [s[1]]);
    } else {
      GuardedOne(s[0]);
      assert s == [s[0]];
    }
  }

  lemma GuardedOne(c: char)
    ensures After([c]) == Advance(Unquoted, c) && (Guarded([c]) <==> !IsExpansion(c))
  {
    assert [c][..0] == [];
    assert After([]) == Unquoted;
  }

  predicate AllGuarded(cuts: seq<Cut>) {
    cuts == [] || (Guarded(cuts[0].segment) && AllGuarded(cuts[1..]))
  }

  lemma AllGuardedCons(c: Cut, cuts: seq<Cut>)
    ensures AllGuarded([]) && (AllGuarded([c] + cuts) <==> Guarded(c.segment) && AllGuarded(cuts))
  {
    hide Guarded;
    assert ([c] + cuts)[1..] == cuts;
  }

  /** A command has all its expansion characters quoted exactly when each of its pieces, read on its own,
      has: cutting neither hides one nor lays one bare. */
  lemma {:induction false} GuardedPieceByPiece(rest: string, current: string)
    ensures AllGuarded(Cuts(rest, current)) <==> Guarded(current + rest)
    decreases |rest|
  {
    hide *;
    if rest == [] {
      assert current + rest == current;
      CutsEnd(current);
      AllGuardedCons(Cut(current, ""), []);
      assert [Cut(current, "")] + [] == [Cut(current, "")];
    } else if After(current) == Unquoted && BreakWidth(rest) > 0 {
      CutsBreak(rest, current);
      GuardedPieceByPiece(rest[BreakWidth(rest)..], []);
      GuardedAtBreak(rest, current);
      AllGuardedCons(Cut(current, rest[..BreakWidth(rest)]), Cuts(rest[BreakWidth(rest)..], []));
    } else {
      CutsMove(rest, current);
      GuardedPieceByPiece(rest[1..], current + [rest[0]]);
      assert current + [rest[0]] + rest[1..] == current + rest;
    }
  }

  /** A separator between two texts makes no difference to what is quoted in them. */
  lemma GuardedAtBreak(rest: string, current: string)
    requires After(current) == Unquoted && BreakWidth(rest) > 0
    ensures Guarded(current + rest) <==> Guarded(current) && Guarded([] + rest[BreakWidth(rest)..])
  {
    hide *;
    var n := BreakWidth(rest);
    SeparatorsOnly(rest);
    SeparatorIsGuarded(rest[..n]);
    GuardedConcat(rest[..n], rest[n..]);
    GuardedConcat(current, rest);
    assert rest[..n] + rest[n..] == rest && [] + rest[n..] == rest[n..];
  }

  /** A command that the feature check accepts has every `*`, `?` and `~` quoted. */
  lemma {:induction false} AcceptedIsGuarded(command: string, n: nat)
    requires n <= |command|
    requires forall i :: 0 <= i < |command| && After(command[..i]) == Unquoted ==> FeatureAt(command, i).None?
    ensures Guarded(command[..n])
  {
    if n > 0 {
      AcceptedIsGuarded(command, n - 1);
      assert command[..n][..n - 1] == command[..n - 1];
      assert After(command[..n - 1]) == Unquoted ==> FeatureAt(command, n - 1).None?;
    }
  }

  /** What the feature check accepts reaches the segments only inside each segment's own quotes. */
  lemma {:induction false} AcceptedSegmentsAreGuarded(command: string, k: nat)
    requires forall i :: 0 <= i < |command| && After(command[..i]) == Unquoted ==> FeatureAt(command, i).None?
    requires k < |Segments(Cuts(command, []))|
    ensures Guarded(Segments(Cuts(command, []))[k])
  {
    hide FeatureAt, After, Guarded, Cuts;
    AcceptedIsGuarded(command, |command|);
    assert command[..|command|] == command && [] + command == command;
    GuardedPieceByPiece(command, []);
    SegmentIsGuarded(Cuts(command, []), k);
  }

  lemma {:induction false} SegmentIsGuarded(cuts: seq<Cut>, k: nat)
    requires AllGuarded(cuts) && k < |Segments(cuts)|
    ensures Guarded(Segments(cuts)[k])
  {
    hide Guarded;
    if k > 0 {
      SegmentIsGuarded(cuts[1..], k - 1);
    }
  }
}
