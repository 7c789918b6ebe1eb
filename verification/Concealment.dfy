/** What redacted text still tells: the text around the hidden spans, their kinds and, with irreversible labels,
    the last four characters; nothing else of what was hidden. */
module Concealment {
  import opened Bytes
  import opened Spans

  /** The pieces that stay: before the first span, between spans, after the last. */
  function Outside(content: string, ms: seq<Match>, from: nat): (pieces: seq<string>)
    requires Lined(content, ms, from)
    ensures |pieces| == |ms| + 1
    decreases |ms|
  {
    if ms == [] then [content[from..]]
    else [content[from..ms[0].start]] + Outside(content, ms[1..], ms[0].end)
  }

  /** Pieces and labels in turn. */
  function Woven(pieces: seq<string>, labels: seq<string>): string
    requires |pieces| == |labels| + 1
  {
    if labels == [] then pieces[0] else pieces[0] + labels[0] + Woven(pieces[1..], labels[1..])
  }

  /** The spans that a redaction hides, in text order. */
  function Hidden(patterns: seq<Pattern>, content: string, selected: string -> bool): (ms: seq<Match>)
    requires WellFormed(patterns, content)
    ensures Lined(content, ms, 0)
  {
    AcceptedLineUp(patterns, content, selected);
    ByStart(Greedy(Candidates(patterns, content, selected)))
  }

  /** A label is the literal text with the kind in it. */
  lemma {:induction false} LabelAt(ms: seq<Match>, i: nat)
    requires i < |ms|
    ensures |Labels(ms)| == |ms| && Labels(ms)[i] == "[REDACTED:" + ms[i].name + "]"
  {
    hide Labels;
    var first := LabelsHead(ms);
    if i > 0 {
      LabelAt(ms[1..], i - 1);
    } else {
      LabelsCount(ms);
    }
  }

  lemma LabelsHead(ms: seq<Match>) returns (first: string)
    requires ms != []
    ensures first == "[REDACTED:" + ms[0].name + "]"
    ensures Labels(ms) == [first] + Labels(ms[1..])
  {
    first := "[REDACTED:" + ms[0].name + "]";
  }

  /** The last four characters, or the whole of a shorter value. */
  lemma {:induction false} Last4Keeps(s: string, before: string)
    ensures |s| <= 4 ==> Last4(s) == s
    ensures |s| == 4 ==> Last4(before + s) == s
  {
    if |s| == 4 {
      assert (before + s)[|before|..] == s;
    }
  }

  lemma {:induction false} Last4LabelAt(ms: seq<Match>, i: nat)
    requires i < |ms|
    ensures |Last4Labels(ms)| == |ms| && Last4Labels(ms)[i] == "[REDACTED:" + ms[i].name + "#" + Last4(ms[i].value) + "]"
  {
    hide Last4, Last4Labels;
    var first := Last4LabelsHead(ms);
    if i > 0 {
      Last4LabelAt(ms[1..], i - 1);
    } else {
      Last4LabelsCount(ms);
    }
  }

  lemma Last4LabelsHead(ms: seq<Match>) returns (first: string)
    requires ms != []
    ensures first == "[REDACTED:" + ms[0].name + "#" + Last4(ms[0].value) + "]"
    ensures Last4Labels(ms) == [first] + Last4Labels(ms[1..])
  {
    first := "[REDACTED:" + ms[0].name + "#" + Last4(ms[0].value) + "]";
  }

  /** Putting labels in place of the spans is weaving them into the pieces that stay. */
  lemma {:induction false} SpliceIsWoven(content: string, ms: seq<Match>, labels: seq<string>, from: nat)
    requires |labels| == |ms| && Lined(content, ms, from)
    ensures InOrder(content, Edits(ms, labels), from)
    ensures Splice(content, Edits(ms, labels), from) == Woven(Outside(content, ms, from), labels)
    decreases |ms|
  {
    EditsAreInOrder(content, ms, labels, from);
    if ms != [] {
      SpliceIsWoven(content, ms[1..], labels[1..], ms[0].end);
      assert Edits(ms, labels)[1..] == Edits(ms[1..], labels[1..]);
      assert Outside(content, ms, from)[1..] == Outside(content, ms[1..], ms[0].end);
    }
  }

  /** Two texts that agree outside what is hidden, where the hidden spans are of the same kinds, come out the
      same, whatever was hidden and however long it was. */
  lemma {:induction false} RedactedTellsNothing(
    patterns: seq<Pattern>, patterns': seq<Pattern>, content: string, content': string,
    selected: string -> bool, selected': string -> bool)
    requires WellFormed(patterns, content) && WellFormed(patterns', content')
    requires
      var ms, ms' := Hidden(patterns, content, selected), Hidden(patterns', content', selected');
      && Outside(content, ms, 0) == Outside(content', ms', 0)
      && forall i :: 0 <= i < |ms| ==> ms[i].name == ms'[i].name
    ensures
      var ms, ms' := Hidden(patterns, content, selected), Hidden(patterns', content', selected');
      && |Labels(ms)| == |ms| && InOrder(content, Edits(ms, Labels(ms)), 0)
      && |Labels(ms')| == |ms'| && InOrder(content', Edits(ms', Labels(ms')), 0)
      && Splice(content, Edits(ms, Labels(ms)), 0) == Splice(content', Edits(ms', Labels(ms')), 0)
  {
    hide Hidden, Labels, Splice, Lined, WellFormed;
    var ms, ms' := Hidden(patterns, content, selected), Hidden(patterns', content', selected');
    LabelsCount(ms);
    LabelsCount(ms');
    assert |ms| == |ms'|;
    forall i | 0 <= i < |ms|
      ensures Labels(ms)[i] == Labels(ms')[i]
    {
      LabelAt(ms, i);
      LabelAt(ms', i);
    }
    assert Labels(ms) == Labels(ms');
    SpliceIsWoven(content, ms, Labels(ms), 0);
    SpliceIsWoven(content', ms', Labels(ms'), 0);
  }

  /** With the labels that keep four characters, the hidden values may differ in all the others. */
  lemma {:induction false} OnlyLast4Tells(patterns: seq<Pattern>, patterns': seq<Pattern>, content: string, content': string)
    requires WellFormed(patterns, content) && WellFormed(patterns', content')
    requires
      var ms, ms' := Hidden(patterns, content, Everything), Hidden(patterns', content', Everything);
      && Outside(content, ms, 0) == Outside(content', ms', 0)
      && forall i :: 0 <= i < |ms| ==> ms[i].name == ms'[i].name && Last4(ms[i].value) == Last4(ms'[i].value)
    ensures
      var ms, ms' := Hidden(patterns, content, Everything), Hidden(patterns', content', Everything);
      && |Last4Labels(ms)| == |ms| && InOrder(content, Edits(ms, Last4Labels(ms)), 0)
      && |Last4Labels(ms')| == |ms'| && InOrder(content', Edits(ms', Last4Labels(ms')), 0)
      && Splice(content, Edits(ms, Last4Labels(ms)), 0) == Splice(content', Edits(ms', Last4Labels(ms')), 0)
  {
    hide Hidden, Last4Labels, Splice, Lined, Last4, WellFormed;
    var ms, ms' := Hidden(patterns, content, Everything), Hidden(patterns', content', Everything);
    Last4LabelsCount(ms);
    Last4LabelsCount(ms');
    assert |ms| == |ms'|;
    forall i | 0 <= i < |ms|
      ensures Last4Labels(ms)[i] == Last4Labels(ms')[i]
    {
      Last4LabelAt(ms, i);
      Last4LabelAt(ms', i);
    }
    assert Last4Labels(ms) == Last4Labels(ms');
    SpliceIsWoven(content, ms, Last4Labels(ms), 0);
    SpliceIsWoven(content', ms', Last4Labels(ms'), 0);
  }
}
