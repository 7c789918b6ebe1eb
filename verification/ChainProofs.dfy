/** What the verification scan establishes: agreement of an incremental scan with a full one, the
    history a tail hash binds, and the line between key loss and tampering. */
module ChainProofs {
  import opened Bytes
  import opened Payload
  import opened Chain

  predicate AllIntact(fs: seq<Finding>) {
    forall i :: 0 <= i < |fs| ==> fs[i] == Intact
  }

  // --- Splitting a scan ---

  lemma {:induction false} ExpectedAfterConcat(p: seq<Row>, s: seq<Row>, start: Bytes)
    ensures ExpectedAfter(p + s, start) == ExpectedAfter(s, ExpectedAfter(p, start))
  {
    if s == [] {
      assert p + s == p;
    } else {
      var k := |s| - 1;
      assert (p + s)[..|p + s| - 1] == p + s[..k];
      ExpectedAfterConcat(p, s[..k], start);
    }
  }

  lemma {:induction false} FindingsConcat(v: Verifier, p: seq<Row>, s: seq<Row>, start: Bytes)
    ensures Findings(v, p + s, start) == Findings(v, p, start) + Findings(v, s, ExpectedAfter(p, start))
  {
    if s == [] {
      assert p + s == p;
    } else {
      var k := |s| - 1;
      assert (p + s)[..|p + s| - 1] == p + s[..k];
      FindingsConcat(v, p, s[..k], start);
      ExpectedAfterConcat(p, s[..k], start);
    }
  }

  lemma {:induction false} TallyConcat(
    p: seq<Row>, fp: seq<Finding>, s: seq<Row>, fs: seq<Finding>, scope: Option<Bytes>, kinds: set<Finding>)
    requires |p| == |fp| && |s| == |fs|
    ensures Tally(p + s, fp + fs, scope, kinds) == Tally(p, fp, scope, kinds) + Tally(s, fs, scope, kinds)
  {
    if s == [] {
      assert p + s == p && fp + fs == fp;
    } else {
      var k := |s| - 1;
      assert (p + s)[..|p + s| - 1] == p + s[..k] && (fp + fs)[..|p + s| - 1] == fp + fs[..k];
      TallyConcat(p, fp, s[..k], fs[..k], scope, kinds);
    }
  }

  lemma {:induction false} TallyIntact(rows: seq<Row>, fs: seq<Finding>, scope: Option<Bytes>, kinds: set<Finding>)
    requires |rows| == |fs| && AllIntact(fs)
    ensures Tally(rows, fs, scope, kinds) == if Intact in kinds then ScopeSize(rows, scope) else 0
  {
    if rows != [] {
      var k := |rows| - 1;
      TallyIntact(rows[..k], fs[..k], scope, kinds);
    }
  }

  /** `k` places further on, when there is a place at all. */
  function Shifted(at: Option<nat>, k: nat): Option<nat> {
    match at
    case None => None
    case Some(i) => Some(i + k)
  }

  lemma FirstBreakAfterIntact(p: seq<Row>, fp: seq<Finding>, s: seq<Row>, fs: seq<Finding>, scope: Option<Bytes>)
    requires |p| == |fp| && |s| == |fs| && AllIntact(fp)
    ensures FirstBreak(p + s, fp + fs, scope) == Shifted(FirstBreak(s, fs, scope), |p|)
  {
    hide InScope, FirstBreak;
    var whole, part := FirstBreak(p + s, fp + fs, scope), FirstBreak(s, fs, scope);
    if whole.Some? {
      assert whole.value >= |p|;
      var i := whole.value - |p|;
      assert (p + s)[whole.value] == s[i] && (fp + fs)[whole.value] == fs[i];
    }
    if part.Some? {
      var i := part.value;
      assert (p + s)[|p| + i] == s[i] && (fp + fs)[|p| + i] == fs[i];
    }
  }

  /** Scanning only the rows after a clean prefix reports what a scan of everything reports,
      whatever those rows are; it merely counts fewer links and counts positions from the anchor. */
  lemma {:induction false} IncrementalMatchesFull(v: Verifier, p: seq<Row>, s: seq<Row>, start: Bytes, total: nat, scope: Option<Bytes>)
    requires AllIntact(Findings(v, p, start))
    ensures
      var full := ReportOf(total, p + s, Findings(v, p + s, start), scope);
      var part := ReportOf(total, s, Findings(v, s, ExpectedAfter(p, start)), scope);
      full == part.(verifiedLinks := part.verifiedLinks + ScopeSize(p, scope),
                    firstBrokenAt := Shifted(part.firstBrokenAt, |p|))
  {
    FindingsConcat(v, p, s, start);
    var fp, fs := Findings(v, p, start), Findings(v, s, ExpectedAfter(p, start));
    TallyConcat(p, fp, s, fs, scope, {Unhashed});
    TallyConcat(p, fp, s, fs, scope, {Intact});
    TallyConcat(p, fp, s, fs, scope, BREAKS);
    TallyConcat(p, fp, s, fs, scope, TAMPERINGS);
    TallyConcat(p, fp, s, fs, scope, {KeyLost});
    TallyIntact(p, fp, scope, {Unhashed});
    TallyIntact(p, fp, scope, {Intact});
    TallyIntact(p, fp, scope, BREAKS);
    TallyIntact(p, fp, scope, TAMPERINGS);
    TallyIntact(p, fp, scope, {KeyLost});
    FirstBreakAfterIntact(p, fp, s, fs, scope);
  }

  /** A scan whose findings are all intact reports a clean chain, and vouches for every row in scope. */
  lemma {:induction false} CleanReport(v: Verifier, rows: seq<Row>, start: Bytes, total: nat, scope: Option<Bytes>)
    requires AllIntact(Findings(v, rows, start))
    ensures ReportOf(total, rows, Findings(v, rows, start), scope) ==
            ChainVerification(total, 0, ScopeSize(rows, scope), 0, false, None, 0)
  {
    var fs := Findings(v, rows, start);
    TallyIntact(rows, fs, scope, {Unhashed});
    TallyIntact(rows, fs, scope, {Intact});
    TallyIntact(rows, fs, scope, BREAKS);
    TallyIntact(rows, fs, scope, TAMPERINGS);
    TallyIntact(rows, fs, scope, {KeyLost});
  }

  // --- The tail hash binds the history ---

  lemma {:induction false} AllVerifiedMeansIntact(rows: seq<Row>, fs: seq<Finding>)
    requires |rows| == |fs|
    ensures Tally(rows, fs, None, {Intact}) == |rows| <==> AllIntact(fs)
  {
    if rows != [] {
      var k := |rows| - 1;
      AllVerifiedMeansIntact(rows[..k], fs[..k]);
      if AllIntact(fs) {
        assert AllIntact(fs[..k]);
      }
      if Tally(rows, fs, None, {Intact}) == |rows| {
        assert Tally(rows[..k], fs[..k], None, {Intact}) == k;
        forall i | 0 <= i < |fs|
          ensures fs[i] == Intact
        {
          if i < k {
            assert fs[..k][i] == Intact;
          }
        }
      }
    }
  }

  /** A way in which the MAC, not the chain, would have to fail. */
  datatype MacFailure =
    | NoFailure
    | Collision(version1: int, message1: Bytes, version2: int, message2: Bytes)
    | GenesisPreimage(version: int, message: Bytes)
  {
    /** The failure is real: the inputs it names do what it says. */
    predicate Demonstrated(v: Verifier) {
      match this
      case NoFailure => false
      case Collision(v1, m1, v2, m2) => (v1, m1) != (v2, m2) && v.Mac(v1, m1) == v.Mac(v2, m2)
      case GenesisPreimage(version, message) => v.Mac(version, message) == GENESIS
    }
  }

  /** Equal in both hashes, in the key version and in every hashed field. */
  predicate SameRow(a: Row, b: Row) {
    && a.keyVersion == b.keyVersion
    && a.prevHash == b.prevHash
    && a.eventHash == b.eventHash
    && SameHashedFields(a.event, b.event)
  }

  predicate SameHistory(a: seq<Row>, b: seq<Row>) {
    |a| == |b| && forall i :: 0 <= i < |a| ==> SameRow(a[i], b[i])
  }

  predicate ShortRows(rows: seq<Row>) {
    forall i :: 0 <= i < |rows| ==> Short(rows[i].event.Fields())
  }

  /** Two non-empty tables that a full global scan verifies completely and that end in the same hash hold
      the same history, or a concrete failure of the MAC is exhibited. */
  lemma {:induction false} TailHashBindsHistory(v: Verifier, a: seq<Row>, b: seq<Row>) returns (failure: MacFailure)
    requires a != [] && b != [] && ShortRows(a) && ShortRows(b)
    requires GlobalReport(v, a).verifiedLinks == |a| && GlobalReport(v, b).verifiedLinks == |b|
    requires a[|a| - 1].eventHash == b[|b| - 1].eventHash
    ensures SameHistory(a, b) || failure.Demonstrated(v)
  {
    AllVerifiedMeansIntact(a, Findings(v, a, GENESIS));
    AllVerifiedMeansIntact(b, Findings(v, b, GENESIS));
    failure := IntactTailBinds(v, a, b);
  }

  /** An intact last row carries the MAC of its payload after the hash of the row before it. */
  lemma IntactLast(v: Verifier, a: seq<Row>)
    requires a != [] && AllIntact(Findings(v, a, GENESIS))
    ensures AllIntact(Findings(v, a[..|a| - 1], GENESIS))
    ensures
      var rest, last := a[..|a| - 1], a[|a| - 1];
      && last.prevHash == (if rest == [] then GENESIS else rest[|rest| - 1].eventHash)
      && |last.prevHash| == HASH_LEN
      && last.eventHash == v.Mac(last.keyVersion, last.prevHash + PayloadOf(last.event))
  {
    var rest := a[..|a| - 1];
    var fs := Findings(v, a, GENESIS);
    assert fs == Findings(v, rest, GENESIS) + [fs[|a| - 1]];
    assert forall i :: 0 <= i < |rest| ==> Findings(v, rest, GENESIS)[i] == fs[i];
    FindingsAt(v, a, GENESIS, |a| - 1);
    if rest != [] {
      FindingsAt(v, a, GENESIS, |a| - 2);
      assert rest[|rest| - 1].eventHash != [];
    }
  }

  lemma {:induction false} IntactTailBinds(v: Verifier, a: seq<Row>, b: seq<Row>) returns (failure: MacFailure)
    requires a != [] && b != [] && ShortRows(a) && ShortRows(b)
    requires AllIntact(Findings(v, a, GENESIS)) && AllIntact(Findings(v, b, GENESIS))
    requires a[|a| - 1].eventHash == b[|b| - 1].eventHash
    ensures SameHistory(a, b) || failure.Demonstrated(v)
    decreases |a|
  {
    hide AllIntact, Findings, PayloadOf, SameHashedFields, Short;
    var ra, rb, x, y := a[..|a| - 1], b[..|b| - 1], a[|a| - 1], b[|b| - 1];
    IntactLast(v, a);
    IntactLast(v, b);
    var mx, my := x.prevHash + PayloadOf(x.event), y.prevHash + PayloadOf(y.event);
    if (x.keyVersion, mx) != (y.keyVersion, my) {
      return Collision(x.keyVersion, mx, y.keyVersion, my);
    }
    assert x.prevHash == mx[..HASH_LEN] && y.prevHash == my[..HASH_LEN];
    assert PayloadOf(x.event) == mx[HASH_LEN..] && PayloadOf(y.event) == my[HASH_LEN..];
    PayloadIdentifiesFields(x.event, y.event);
    assert SameRow(x, y);
    if ra == [] && rb == [] {
      assert SameHistory(ra, rb);
      SameHistoryGrows(a, b);
      return NoFailure;
    } else if ra == [] {
      IntactLast(v, rb);
      var z := rb[|rb| - 1];
      return GenesisPreimage(z.keyVersion, z.prevHash + PayloadOf(z.event));
    } else if rb == [] {
      IntactLast(v, ra);
      var z := ra[|ra| - 1];
      return GenesisPreimage(z.keyVersion, z.prevHash + PayloadOf(z.event));
    }
    failure := IntactTailBinds(v, ra, rb);
    if SameHistory(ra, rb) {
      SameHistoryGrows(a, b);
    }
  }

  lemma SameHistoryGrows(a: seq<Row>, b: seq<Row>)
    requires a != [] && b != [] && SameHistory(a[..|a| - 1], b[..|b| - 1])
    requires SameRow(a[|a| - 1], b[|b| - 1])
    ensures SameHistory(a, b)
  {
    forall i | 0 <= i < |a|
      ensures SameRow(a[i], b[i])
    {
      if i < |a| - 1 {
        assert SameRow(a[..|a| - 1][i], b[..|b| - 1][i]);
      }
    }
  }

  // --- Key loss and tampering ---

  /** Every row names the hash of the row before it and has a hash of its own. */
  predicate LinksIntact(rows: seq<Row>, start: Bytes) {
    forall i :: 0 <= i < |rows| ==>
      rows[i].eventHash != [] && rows[i].prevHash == if i == 0 then start else rows[i - 1].eventHash
  }

  /** The stored anchors of the versions in use were minted by `minter`. */
  predicate AnchoredBy(v: Verifier, minter: Bytes, rows: seq<Row>) {
    forall i :: 0 <= i < |rows| ==>
      v.StoredAnchor(rows[i].keyVersion) == Some(v.(master := minter).KeyAnchor(rows[i].keyVersion))
  }

  lemma LinkedExpected(rows: seq<Row>, start: Bytes, i: nat)
    requires LinksIntact(rows, start) && i <= |rows|
    ensures ExpectedAfter(rows[..i], start) == if i == 0 then start else rows[i - 1].eventHash
  {
  }

  lemma {:induction false} TallyNone(rows: seq<Row>, fs: seq<Finding>, scope: Option<Bytes>, kinds: set<Finding>)
    requires |rows| == |fs| && forall i :: 0 <= i < |fs| ==> fs[i] !in kinds
    ensures Tally(rows, fs, scope, kinds) == 0
  {
    if rows != [] {
      TallyNone(rows[..|rows| - 1], fs[..|rows| - 1], scope, kinds);
    }
  }

  lemma {:induction false} TallyAgree(
    rows: seq<Row>, fs: seq<Finding>, scope: Option<Bytes>, kinds1: set<Finding>, kinds2: set<Finding>)
    requires |rows| == |fs| && forall i :: 0 <= i < |fs| ==> (fs[i] in kinds1 <==> fs[i] in kinds2)
    ensures Tally(rows, fs, scope, kinds1) == Tally(rows, fs, scope, kinds2)
  {
    if rows != [] {
      TallyAgree(rows[..|rows| - 1], fs[..|rows| - 1], scope, kinds1, kinds2);
    }
  }

  /** On rows with intact links whose anchors another master minted, a master with different anchors finds
      every mismatch to be key loss, and reports no tampering. */
  lemma {:induction false} OtherMasterSeesKeyLoss(
    v: Verifier, minter: Bytes, rows: seq<Row>, start: Bytes, total: nat, scope: Option<Bytes>)
    requires LinksIntact(rows, start) && AnchoredBy(v, minter, rows)
    requires forall i :: 0 <= i < |rows| ==>
      v.KeyAnchor(rows[i].keyVersion) != v.(master := minter).KeyAnchor(rows[i].keyVersion)
    ensures
      var report := ReportOf(total, rows, Findings(v, rows, start), scope);
      && !report.tampered && report.unhashedRows == 0
      && report.keyVersionUnknownRows == report.brokenLinks
      && report.verifiedLinks + report.keyVersionUnknownRows == ScopeSize(rows, scope)
  {
    var fs := Findings(v, rows, start);
    forall i | 0 <= i < |fs|
      ensures fs[i] in {Intact, KeyLost}
    {
      FindingsAt(v, rows, start, i);
      LinkedExpected(rows, start, i);
    }
    TallyNone(rows, fs, scope, TAMPERINGS);
    TallyNone(rows, fs, scope, {Unhashed});
    TallyAgree(rows, fs, scope, {KeyLost}, BREAKS);
    TallyPartition(rows, fs, scope);
  }

  /** A stored anchor, where there is one, is the master's own. */
  predicate OwnAnchors(v: Verifier, rows: seq<Row>) {
    forall i :: 0 <= i < |rows| ==>
      v.StoredAnchor(rows[i].keyVersion) in {None, Some(v.KeyAnchor(rows[i].keyVersion))}
  }

  /** The master that minted the anchors finds every mismatch to be tampering, and none to be key loss, even on
      rows whose version has no anchor. */
  lemma {:induction false} MintingMasterSeesTampering(v: Verifier, rows: seq<Row>, start: Bytes, total: nat, scope: Option<Bytes>)
    requires OwnAnchors(v, rows)
    ensures
      var report := ReportOf(total, rows, Findings(v, rows, start), scope);
      report.keyVersionUnknownRows == 0 && (report.tampered <==> report.brokenLinks > 0)
  {
    var fs := Findings(v, rows, start);
    forall i | 0 <= i < |fs|
      ensures fs[i] != KeyLost
    {
      FindingsAt(v, rows, start, i);
    }
    TallyNone(rows, fs, scope, {KeyLost});
    TallyAgree(rows, fs, scope, BREAKS, TAMPERINGS);
  }

  /** Every row in scope is either verified or broken. */
  lemma {:induction false} TallyPartition(rows: seq<Row>, fs: seq<Finding>, scope: Option<Bytes>)
    requires |rows| == |fs|
    ensures Tally(rows, fs, scope, {Intact}) + Tally(rows, fs, scope, BREAKS) == ScopeSize(rows, scope)
  {
    if rows != [] {
      var k := |rows| - 1;
      TallyPartition(rows[..k], fs[..k], scope);
      assert fs[k].Unhashed? || fs[k].Detached? || fs[k].Altered? || fs[k].KeyLost? || fs[k].Intact?;
    }
  }
}
