/** Checking a segment of another node's audit chain. */
module Federation {
  import opened Bytes

  datatype Record = Record(body: Bytes, sequence: Option<nat>, prevHash: Option<Bytes>, mac: Option<Bytes>)
  {
    /** Without its chain fields a record only marks where the chain starts over. */
    predicate IsBaseline() {
      sequence.None? || prevHash.None? || mac.None?
    }
  }

  /** The canonical encodings without and with the MAC, the keyed MAC with its check, and the record hash. */
  datatype Codec = Codec(
    payload: Record -> Bytes,
    full: Record -> Bytes,
    sign: Bytes -> Bytes,
    checks: (Bytes, Bytes) -> bool,
    sha: Bytes -> Bytes)
  {
    function PayloadOf(r: Record): Bytes {
      payload(r.(mac := None))
    }

    function HashOf(r: Record): Bytes {
      sha(full(r))
    }

    /** An empty MAC never checks. */
    predicate MacOk(r: Record) {
      r.mac.Some? && r.mac.value != [] && checks(PayloadOf(r), r.mac.value)
    }

    ghost predicate Sound() {
      && (forall p :: sign(p) != [] && checks(p, sign(p)))
      && (forall b :: sha(b) != [])
    }
  }

  datatype Judgement = Baseline | Broken | Verified

  function Judge(c: Codec, r: Record, anchor: Option<Bytes>): Judgement {
    if r.IsBaseline() then Baseline
    else if !c.MacOk(r) then Broken
    else if anchor.Some? && r.prevHash.value != [] && r.prevHash.value != anchor.value then Broken
    else Verified
  }

  /** The hash the next record is held against, if any. */
  function AnchorAfter(c: Codec, records: seq<Record>): Option<Bytes> {
    if records == [] then None
    else
      var k := |records| - 1;
      if Judge(c, records[k], AnchorAfter(c, records[..k])).Verified? then Some(c.HashOf(records[k])) else None
  }

  function Judgements(c: Codec, records: seq<Record>): (js: seq<Judgement>)
    ensures |js| == |records|
  {
    if records == [] then []
    else
      var k := |records| - 1;
      Judgements(c, records[..k]) + [Judge(c, records[k], AnchorAfter(c, records[..k]))]
  }

  datatype Report = Report(
    total: nat,
    verified: nat,
    broken: nat,
    baseline: nat,
    tampered: bool,
    firstBrokenAt: Option<nat>)

  function CountOf(js: seq<Judgement>, j: Judgement): nat {
    if js == [] then 0 else CountOf(js[..|js| - 1], j) + if js[|js| - 1] == j then 1 else 0
  }

  /** The counts, and the least broken position. */
  predicate Summarizes(report: Report, js: seq<Judgement>) {
    && report.total == |js|
    && report.verified == CountOf(js, Verified)
    && report.broken == CountOf(js, Broken)
    && report.baseline == CountOf(js, Baseline)
    && report.tampered == report.firstBrokenAt.Some?
    && match report.firstBrokenAt
       case None => forall i :: 0 <= i < |js| ==> js[i] != Broken
       case Some(k) => k < |js| && js[k] == Broken && forall i :: 0 <= i < k ==> js[i] != Broken
  }

  /** `report` with one more record judged. */
  function Counted(report: Report, j: Judgement, i: nat): Report {
    match j
    case Baseline => report.(baseline := report.baseline + 1)
    case Verified => report.(verified := report.verified + 1)
    case Broken => report.(
      broken := report.broken + 1, tampered := true,
      firstBrokenAt := if report.firstBrokenAt.None? then Some(i) else report.firstBrokenAt)
  }

  lemma CountedSummarizes(report: Report, js: seq<Judgement>, j: Judgement)
    requires Summarizes(report.(total := |js|), js)
    ensures Summarizes(Counted(report, j, |js|).(total := |js| + 1), js + [j])
  {
    assert (js + [j])[..|js|] == js;
  }

  method VerifyChainSegment(c: Codec, records: seq<Record>) returns (report: Report)
    ensures Summarizes(report, Judgements(c, records))
  {
    hide Summarizes, Judgements, AnchorAfter;
    report := Report(|records|, 0, 0, 0, false, None);
    var anchor: Option<Bytes> := None;
    NothingJudged(c, report);
    for i := 0 to |records|
      invariant report.total == |records| && anchor == AnchorAfter(c, records[..i])
      invariant Summarizes(report.(total := i), Judgements(c, records[..i]))
    {
      var r := records[i];
      NextJudged(c, records, i);
      CountedSummarizes(report, Judgements(c, records[..i]), Judge(c, r, anchor));
      if r.IsBaseline() {
        report := report.(baseline := report.baseline + 1);
        anchor := None;
      } else if !c.MacOk(r) || (anchor.Some? && r.prevHash.value != [] && r.prevHash.value != anchor.value) {
        report := report.(broken := report.broken + 1, tampered := true);
        if report.firstBrokenAt.None? {
          report := report.(firstBrokenAt := Some(i));
        }
        anchor := None;
      } else {
        report := report.(verified := report.verified + 1);
        anchor := Some(c.HashOf(r));
      }
    }
    assert records[..|records|] == records;
    assert report.(total := |records|) == report;
  }

  lemma NothingJudged(c: Codec, report: Report)
    requires report == Report(report.total, 0, 0, 0, false, None)
    ensures Summarizes(report.(total := 0), Judgements(c, [])) && AnchorAfter(c, []) == None
  {
  }

  lemma NextJudged(c: Codec, records: seq<Record>, i: nat)
    requires i < |records|
    ensures
      var j := Judge(c, records[i], AnchorAfter(c, records[..i]));
      && Judgements(c, records[..i + 1]) == Judgements(c, records[..i]) + [j]
      && AnchorAfter(c, records[..i + 1]) == if j.Verified? then Some(c.HashOf(records[i])) else None
  {
    assert records[..i + 1][..i] == records[..i];
  }

  lemma {:induction false} CountsAddUp(js: seq<Judgement>)
    ensures CountOf(js, Verified) + CountOf(js, Broken) + CountOf(js, Baseline) == |js|
  {
    if js != [] {
      CountsAddUp(js[..|js| - 1]);
    }
  }

  lemma {:induction false} CountIsPositive(js: seq<Judgement>, j: Judgement)
    ensures CountOf(js, j) > 0 <==> j in js
  {
    if js != [] {
      CountIsPositive(js[..|js| - 1], j);
      assert js == js[..|js| - 1] + [js[|js| - 1]];
    }
  }

  /** The counts make up the total, and tampering is reported exactly when a link is broken. */
  lemma {:induction false} ReportIsConsistent(report: Report, js: seq<Judgement>)
    requires Summarizes(report, js)
    ensures report.verified + report.broken + report.baseline == report.total
    ensures report.tampered <==> report.broken > 0
    ensures report.tampered <==> report.firstBrokenAt.Some?
  {
    CountsAddUp(js);
    CountIsPositive(js, Broken);
  }

  lemma {:induction false} JudgedAt(c: Codec, records: seq<Record>, i: nat)
    requires i < |records|
    ensures Judgements(c, records)[i] == Judge(c, records[i], AnchorAfter(c, records[..i]))
  {
    var k := |records| - 1;
    if i < k {
      JudgedAt(c, records[..k], i);
      assert records[..k][..i] == records[..i];
    }
  }

  // --- What a clean segment is ---

  /** A record that fits behind the one before it, judged from these two alone. */
  predicate Fits(c: Codec, records: seq<Record>, i: nat)
    requires i < |records|
  {
    records[i].IsBaseline() ||
    (c.MacOk(records[i])
     && (i == 0 || records[i - 1].IsBaseline() || records[i].prevHash.value in {[], c.HashOf(records[i - 1])}))
  }

  predicate AllFit(c: Codec, records: seq<Record>) {
    records == [] || (AllFit(c, records[..|records| - 1]) && Fits(c, records, |records| - 1))
  }

  lemma FitsBelow(c: Codec, records: seq<Record>, n: nat, i: nat)
    requires i < n <= |records|
    ensures Fits(c, records[..n], i) == Fits(c, records, i)
  {
  }

  /** A segment passes exactly when every record fits behind its neighbour: the running anchor makes no
      difference beyond that. */
  lemma {:induction false} CleanExactly(c: Codec, records: seq<Record>)
    ensures Broken !in Judgements(c, records) <==> AllFit(c, records)
    ensures AllFit(c, records) ==>
      AnchorAfter(c, records) ==
      if records == [] || records[|records| - 1].IsBaseline() then None else Some(c.HashOf(records[|records| - 1]))
  {
    if records != [] {
      CleanExactly(c, records[..|records| - 1]);
      var js := Judgements(c, records);
      assert js == Judgements(c, records[..|records| - 1]) + [js[|records| - 1]];
    }
  }

  // --- Honest chains ---

  /** What a node writes: every record signed, numbered upwards, and naming the hash of the one before it;
      the very first names nothing. */
  predicate Honest(c: Codec, records: seq<Record>) {
    forall i :: 0 <= i < |records| ==>
      && !records[i].IsBaseline()
      && records[i].mac.value == c.sign(c.PayloadOf(records[i]))
      && (if i == 0 then records[i].prevHash.value == []
          else records[i].prevHash.value == c.HashOf(records[i - 1])
               && !records[i - 1].IsBaseline() && records[i - 1].sequence.value < records[i].sequence.value)
  }

  lemma HonestMac(c: Codec, records: seq<Record>, i: nat)
    requires c.Sound() && Honest(c, records) && i < |records|
    ensures !records[i].IsBaseline() && c.MacOk(records[i])
  {
  }

  lemma {:induction false} PrefixFits(c: Codec, records: seq<Record>, n: nat)
    requires n <= |records| && forall i :: 0 <= i < n ==> Fits(c, records, i)
    ensures AllFit(c, records[..n])
  {
    if n > 0 {
      PrefixFits(c, records, n - 1);
      assert records[..n][..n - 1] == records[..n - 1];
      FitsBelow(c, records, n, n - 1);
    }
  }

  /** Every contiguous slice of an honest chain passes. */
  lemma {:induction false} SliceIsClean(c: Codec, records: seq<Record>, lo: nat, hi: nat)
    requires c.Sound() && Honest(c, records) && lo <= hi <= |records|
    ensures Broken !in Judgements(c, records[lo..hi])
  {
    hide Judgements, AllFit;
    var slice := records[lo..hi];
    forall i | 0 <= i < |slice|
      ensures Fits(c, slice, i)
    {
      HonestMac(c, records, lo + i);
      assert slice[i] == records[lo + i] && (i > 0 ==> slice[i - 1] == records[lo + i - 1]);
    }
    PrefixFits(c, slice, |slice|);
    assert slice[..|slice|] == slice;
    CleanExactly(c, slice);
  }

  /** Taking an interior record out of an honest chain is seen, at exactly that place, unless the record and
      the one before it, which differ, have the same hash. */
  lemma {:induction false} RemovalShows(c: Codec, records: seq<Record>, k: nat)
    requires c.Sound() && Honest(c, records) && 0 < k && k + 1 < |records|
    ensures
      var rest := records[..k] + records[k + 1..];
      && records[k - 1] != records[k]
      && (c.HashOf(records[k - 1]) != c.HashOf(records[k]) ==> Judgements(c, rest)[k] == Broken && Broken !in Judgements(c, rest)[..k])
      && (c.HashOf(records[k - 1]) == c.HashOf(records[k]) ==> Judgements(c, rest)[k] == Verified)
  {
    hide Judgements, AllFit;
    var rest := records[..k] + records[k + 1..];
    HonestMac(c, records, k);
    HonestMac(c, records, k - 1);
    HonestMac(c, records, k + 1);
    assert rest[..k] == records[0..k] && rest[k] == records[k + 1];
    SliceIsClean(c, records, 0, k);
    CleanExactly(c, records[0..k]);
    JudgedAt(c, rest, k);
    JudgementsBelow(c, rest, k);
  }

  lemma {:induction false} JudgementsBelow(c: Codec, records: seq<Record>, n: nat)
    requires n <= |records|
    ensures Judgements(c, records)[..n] == Judgements(c, records[..n])
  {
    if n == |records| {
      assert records[..n] == records;
    } else {
      var k := |records| - 1;
      JudgementsBelow(c, records[..k], n);
      assert records[..k][..n] == records[..n];
      assert Judgements(c, records)[..n] == Judgements(c, records[..k])[..n];
    }
  }

  // --- Forgeries ---

  /** The MAC is missing its text, or does not check against the record without it. */
  predicate Forged(c: Codec, r: Record) {
    !r.IsBaseline() && (r.mac.value == [] || !c.checks(c.payload(r.(mac := None)), r.mac.value))
  }

  /** The record names a hash, and it is not that of the record before it. */
  predicate Mislinked(c: Codec, prev: Record, r: Record) {
    !r.IsBaseline() && r.prevHash.value != [] && r.prevHash.value != c.sha(c.full(prev))
  }

  /** A record is broken exactly when it is forged or does not name the record before it, where that one was
      verified; a record behind a baseline, a broken one or none is held against nothing. */
  lemma {:induction false} BrokenExactly(c: Codec, records: seq<Record>, i: nat)
    requires i < |records|
    ensures
      var js := Judgements(c, records);
      && (js[i] == Baseline <==> records[i].sequence == None || records[i].prevHash == None || records[i].mac == None)
      && (js[i] == Broken <==>
          Forged(c, records[i]) || (i > 0 && js[i - 1] == Verified && Mislinked(c, records[i - 1], records[i])))
  {
    hide Judgements;
    JudgedAt(c, records, i);
    if i > 0 {
      JudgedAt(c, records, i - 1);
      assert records[..i][..i - 1] == records[..i - 1] && records[..i][i - 1] == records[i - 1];
    }
  }

  /** In an honest chain with one record replaced by a forged one, that place is the first broken one. */
  lemma {:induction false} ForgeryShows(c: Codec, records: seq<Record>, k: nat, forged: Record)
    requires c.Sound() && Honest(c, records) && k < |records| && Forged(c, forged)
    ensures
      var js := Judgements(c, records[k := forged]);
      js[k] == Broken && Broken !in js[..k]
  {
    hide Judgements, Honest;
    var all := records[k := forged];
    BrokenExactly(c, all, k);
    SliceIsClean(c, records, 0, k);
    assert all[..k] == records[0..k];
    JudgementsBelow(c, all, k);
  }

  /** In an honest chain with one record replaced by another that is signed, the replaced one has its place
      broken exactly when it names a hash other than its predecessor's; if it fits, the next record gives the
      replacement away, unless the two have the same hash. */
  lemma {:induction false} ReplacementShows(c: Codec, records: seq<Record>, k: nat, other: Record)
    requires c.Sound() && Honest(c, records) && k < |records| && !other.IsBaseline() && !Forged(c, other)
    ensures
      var js := Judgements(c, records[k := other]);
      && Broken !in js[..k]
      && (js[k] == Broken <==> k > 0 && Mislinked(c, records[k - 1], other))
      && (js[k] != Broken && k + 1 < |records| ==>
          (js[k + 1] == Broken <==> c.sha(c.full(other)) != c.sha(c.full(records[k]))))
  {
    hide Judgements, AllFit;
    var all := records[k := other];
    var js := Judgements(c, all);
    SliceIsClean(c, records, 0, k);
    assert all[..k] == records[0..k];
    JudgementsBelow(c, all, k);
    BrokenExactly(c, all, k);
    if k > 0 {
      HonestMac(c, records, k - 1);
      BrokenExactly(c, all, k - 1);
      assert js[k - 1] == js[..k][k - 1];
    }
    if k + 1 < |records| {
      HonestMac(c, records, k + 1);
      BrokenExactly(c, all, k + 1);
      assert records[k + 1].prevHash.value == c.sha(c.full(records[k])) != [];
    }
  }
}
