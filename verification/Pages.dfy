/** Listing the audit table page by page: filter, descending order, and a cursor that the client hands back. */
module Pages {
  import opened Bytes
  import opened Payload

  const SEPARATOR: byte := 0x1f

  /** The last row a client has seen. */
  datatype Cursor = Cursor(ts: Bytes, id: Bytes)

  /** The filter of a listing. `riskOf` extracts the risk level from a stored verdict and `decodes` says
      whether the verdict can be read back at all; both are arbitrary. */
  datatype Query = Query(
    tenant: Option<Bytes>,
    since: Option<Bytes>,
    until: Option<Bytes>,
    eventType: Option<Bytes>,
    levelMin: Option<Bytes>,
    riskOf: Bytes -> Option<Bytes>,
    decodes: Bytes -> bool)
  {
    predicate Matches(ev: AuditEvent) {
      && (tenant.Some? ==> ev.tenantId == tenant.value)
      && (since.Some? ==> !Less(ev.ts, since.value))
      && (until.Some? ==> !Less(until.value, ev.ts))
      && (eventType.Some? ==> ev.eventType == eventType.value)
      && (levelMin.Some? ==>
            var risk := riskOf(ev.verdictJson);
            risk.Some? && !Less(risk.value, levelMin.value))
    }
  }

  /** Strictly after the cursor in descending (timestamp, id) order. */
  predicate Below(ev: AuditEvent, c: Option<Cursor>) {
    c.Some? ==> Less(ev.ts, c.value.ts) || (ev.ts == c.value.ts && Less(ev.auditId, c.value.id))
  }

  function KeyOf(ev: AuditEvent): Option<Cursor> {
    Some(Cursor(ev.ts, ev.auditId))
  }

  // --- The order ---

  lemma BelowTransitive(a: AuditEvent, b: AuditEvent, c: Option<Cursor>)
    requires Below(a, KeyOf(b)) && Below(b, c)
    ensures Below(a, c)
  {
    if c.Some? {
      if Less(a.ts, b.ts) && Less(b.ts, c.value.ts) {
        LessTransitive(a.ts, b.ts, c.value.ts);
      } else if a.ts == b.ts == c.value.ts {
        LessTransitive(a.auditId, b.auditId, c.value.id);
      }
    }
  }

  lemma BelowIrreflexive(a: AuditEvent)
    ensures !Below(a, KeyOf(a))
  {
    LessIrreflexive(a.ts);
    LessIrreflexive(a.auditId);
  }

  lemma BelowTotal(a: AuditEvent, b: AuditEvent)
    requires a.auditId != b.auditId
    ensures Below(a, KeyOf(b)) || Below(b, KeyOf(a))
  {
    LessTotal(a.ts, b.ts);
    LessTotal(a.auditId, b.auditId);
  }

  predicate Descending(rows: seq<AuditEvent>) {
    forall i, j :: 0 <= i < j < |rows| ==> Below(rows[j], KeyOf(rows[i]))
  }

  predicate DistinctIds(rows: seq<AuditEvent>) {
    forall i, j :: 0 <= i < j < |rows| ==> rows[i].auditId != rows[j].auditId
  }

  /** `ORDER BY ts DESC, audit_id DESC`. */
  function Ordered(rows: seq<AuditEvent>): seq<AuditEvent> {
    if rows == [] then [] else Placed(rows[|rows| - 1], Ordered(rows[..|rows| - 1]))
  }

  function Placed(ev: AuditEvent, rows: seq<AuditEvent>): seq<AuditEvent> {
    if rows == [] || !Below(ev, KeyOf(rows[0])) then [ev] + rows else [rows[0]] + Placed(ev, rows[1..])
  }

  lemma {:induction false} PlacedHas(ev: AuditEvent, rows: seq<AuditEvent>)
    ensures multiset(Placed(ev, rows)) == multiset(rows) + multiset{ev}
  {
    if rows != [] && Below(ev, KeyOf(rows[0])) {
      PlacedHas(ev, rows[1..]);
      assert rows == [rows[0]] + rows[1..];
    }
  }

  lemma {:induction false} PlacedDescends(ev: AuditEvent, rows: seq<AuditEvent>)
    requires Descending(rows) && forall i :: 0 <= i < |rows| ==> rows[i].auditId != ev.auditId
    ensures Descending(Placed(ev, rows))
  {
    if rows != [] {
      var first, rest := rows[0], rows[1..];
      if Below(ev, KeyOf(first)) {
        PlacedDescends(ev, rest);
        PlacedHas(ev, rest);
        forall x | x in Placed(ev, rest)
          ensures Below(x, KeyOf(first))
        {
          assert x in multiset(Placed(ev, rest));
          assert x == ev || x in multiset(rest);
        }
        HeadDescends(first, Placed(ev, rest));
      } else {
        BelowTotal(ev, first);
        forall x | x in rows
          ensures Below(x, KeyOf(ev))
        {
          if x != first {
            var i :| 0 <= i < |rows| && rows[i] == x;
            BelowTransitive(x, first, KeyOf(ev));
          }
        }
        HeadDescends(ev, rows);
      }
    }
  }

  lemma HeadDescends(first: AuditEvent, rest: seq<AuditEvent>)
    requires Descending(rest) && forall x :: x in rest ==> Below(x, KeyOf(first))
    ensures Descending([first] + rest)
  {
  }

  /** The ordered listing has the rows of the table, in strictly descending order. */
  lemma {:induction false} OrderedIsSorted(rows: seq<AuditEvent>)
    requires DistinctIds(rows)
    ensures multiset(Ordered(rows)) == multiset(rows)
    ensures Descending(Ordered(rows))
  {
    hide Below, Placed, Descending;
    if rows == [] {
      NothingDescends();
    } else {
      var k := |rows| - 1;
      var ev, rest := rows[k], Ordered(rows[..k]);
      OrderedIsSorted(rows[..k]);
      PlacedHas(ev, rest);
      assert multiset(rows) == multiset(rows[..k]) + multiset{ev} by {
        assert rows == rows[..k] + [ev];
      }
      forall i | 0 <= i < |rest|
        ensures rest[i].auditId != ev.auditId
      {
        LastIdIsNew(rows, rest, i);
      }
      PlacedDescends(ev, rest);
    }
  }

  lemma NothingDescends()
    ensures Descending([])
  {
  }

  lemma LastIdIsNew(rows: seq<AuditEvent>, rest: seq<AuditEvent>, i: nat)
    requires DistinctIds(rows) && rows != [] && multiset(rest) == multiset(rows[..|rows| - 1]) && i < |rest|
    ensures rest[i].auditId != rows[|rows| - 1].auditId
  {
    assert rest[i] in multiset(rest);
    assert rest[i] in rows[..|rows| - 1];
  }

  // --- Pages ---

  /** The rows that match and lie below the cursor. */
  function Kept(q: Query, c: Option<Cursor>, rows: seq<AuditEvent>): seq<AuditEvent> {
    if rows == [] then []
    else (if q.Matches(rows[0]) && Below(rows[0], c) then [rows[0]] else []) + Kept(q, c, rows[1..])
  }

  function EncodeCursor(ev: AuditEvent): Bytes {
    ev.ts + [SEPARATOR] + ev.auditId
  }

  /** Position of the first separator. */
  function FindSeparator(b: Bytes): (at: nat)
    ensures at <= |b|
    ensures at < |b| ==> b[at] == SEPARATOR
    ensures forall i :: 0 <= i < at ==> b[i] != SEPARATOR
  {
    if b == [] || b[0] == SEPARATOR then 0 else 1 + FindSeparator(b[1..])
  }

  /** A cursor without both parts is ignored: the listing starts over. */
  function DecodeCursor(wire: Option<Bytes>): Option<Cursor> {
    match wire
    case None => None
    case Some(b) =>
      var at := FindSeparator(b);
      if at == |b| || at == 0 || at + 1 == |b| then None else Some(Cursor(b[..at], b[at + 1..]))
  }

  /** `rows` is the page before verdicts that cannot be decoded are dropped from it. */
  datatype Page = Page(rows: seq<AuditEvent>, records: seq<AuditEvent>, nextCursor: Option<Bytes>, hasMore: bool)

  function Decodable(q: Query, rows: seq<AuditEvent>): seq<AuditEvent> {
    if rows == [] then []
    else (if q.decodes(rows[0].verdictJson) then [rows[0]] else []) + Decodable(q, rows[1..])
  }

  /** One request: a row more than the limit is fetched to see whether there are more. */
  method ListPage(q: Query, table: seq<AuditEvent>, wire: Option<Bytes>, limit: nat) returns (page: Page)
    ensures page == PageOf(q, table, wire, limit)
  {
    var found := Kept(q, DecodeCursor(wire), Ordered(table));
    var events := if |found| <= limit + 1 then found else found[..limit + 1];
    var hasMore := |events| > limit;
    var rows := events;
    if hasMore {
      rows := rows[..limit];
      assert rows == found[..limit];
    }
    var next: Option<Bytes> := None;
    if hasMore && rows != [] {
      next := Some(EncodeCursor(rows[|rows| - 1]));
    }
    page := Page(rows, Decodable(q, rows), next, hasMore);
  }

  function PageOf(q: Query, table: seq<AuditEvent>, wire: Option<Bytes>, limit: nat): Page {
    var found := Kept(q, DecodeCursor(wire), Ordered(table));
    if |found| <= limit then Page(found, Decodable(q, found), None, false)
    else
      var rows := found[..limit];
      Page(rows, Decodable(q, rows), if limit == 0 then None else Some(EncodeCursor(rows[limit - 1])), true)
  }

  /** Timestamps and ids are non-empty, and timestamps have no separator in them, as RFC 3339 has none. */
  predicate WellKeyed(table: seq<AuditEvent>) {
    forall i :: 0 <= i < |table| ==> table[i].ts != [] && table[i].auditId != [] && SEPARATOR !in table[i].ts
  }

  lemma {:induction false} CursorRoundTrip(ev: AuditEvent)
    requires ev.ts != [] && ev.auditId != [] && SEPARATOR !in ev.ts
    ensures DecodeCursor(Some(EncodeCursor(ev))) == KeyOf(ev)
  {
    var b := EncodeCursor(ev);
    var at := FindSeparator(b);
    assert b[|ev.ts|] == SEPARATOR;
    assert forall i :: 0 <= i < |ev.ts| ==> b[i] == ev.ts[i];
    assert at == |ev.ts|;
    assert b[..at] == ev.ts && b[at + 1..] == ev.auditId;
  }

  // --- Following the cursor ---

  lemma {:induction false} KeptSameBelow(q: Query, c: Option<Cursor>, c': Option<Cursor>, rows: seq<AuditEvent>)
    requires forall i :: 0 <= i < |rows| ==> Below(rows[i], c) && Below(rows[i], c')
    ensures Kept(q, c, rows) == Kept(q, c', rows)
  {
    if rows != [] {
      KeptSameBelow(q, c, c', rows[1..]);
    }
  }

  lemma {:induction false} KeptMember(q: Query, c: Option<Cursor>, rows: seq<AuditEvent>, k: nat) returns (i: nat)
    requires k < |Kept(q, c, rows)|
    ensures i < |rows| && rows[i] == Kept(q, c, rows)[k] && q.Matches(rows[i]) && Below(rows[i], c)
  {
    KeptOfSome(q, c, rows);
    hide Kept, Below;
    if IsKept(q, c, rows[0]) {
      KeptHead(q, c, rows);
      if k == 0 {
        return 0;
      }
      i := KeptMember(q, c, rows[1..], k - 1);
    } else {
      KeptNoHead(q, c, rows);
      i := KeptMember(q, c, rows[1..], k);
    }
    i := i + 1;
  }

  predicate IsKept(q: Query, c: Option<Cursor>, ev: AuditEvent) {
    q.Matches(ev) && Below(ev, c)
  }

  /** Asking again with the key of the k-th row found gives exactly the rows after it. */
  lemma {:induction false} KeptFromCursor(q: Query, c: Option<Cursor>, rows: seq<AuditEvent>, k: nat)
    requires Descending(rows) && k < |Kept(q, c, rows)|
    ensures Kept(q, KeyOf(Kept(q, c, rows)[k]), rows) == Kept(q, c, rows)[k + 1..]
    decreases |rows|, 1
  {
    KeptOfSome(q, c, rows);
    hide *;
    var found, rest := Kept(q, c, rows), rows[1..];
    if IsKept(q, c, rows[0]) {
      KeptHead(q, c, rows);
      if k == 0 {
        KeptFromFirst(q, c, rows);
      } else {
        KeptFromRest(q, c, rows, k - 1);
        DropAfter(rows[0], Kept(q, c, rest), k);
      }
    } else {
      KeptNoHead(q, c, rows);
      KeptFromRest(q, c, rows, k);
    }
  }

  /** The same, for a row found after the first. */
  lemma {:induction false} KeptFromRest(q: Query, c: Option<Cursor>, rows: seq<AuditEvent>, n: nat)
    requires rows != [] && Descending(rows) && n < |Kept(q, c, rows[1..])|
    ensures Kept(q, KeyOf(Kept(q, c, rows[1..])[n]), rows) == Kept(q, c, rows[1..])[n + 1..]
    decreases |rows|, 0
  {
    hide *;
    TailDescends(rows);
    var i := KeptMember(q, c, rows[1..], n);
    KeptFromCursor(q, c, rows[1..], n);
    AboveIsNotKept(q, rows, i + 1);
    KeptNoHead(q, KeyOf(rows[i + 1]), rows);
  }

  lemma KeptFromFirst(q: Query, c: Option<Cursor>, rows: seq<AuditEvent>)
    requires rows != [] && Descending(rows) && IsKept(q, c, rows[0])
    ensures Kept(q, KeyOf(rows[0]), rows) == Kept(q, c, rows[1..])
  {
    hide *;
    FirstIsNotBelow(q, rows[0]);
    RestIsBelow(q, c, rows);
    KeptSameBelow(q, c, KeyOf(rows[0]), rows[1..]);
    KeptNoHead(q, KeyOf(rows[0]), rows);
  }

  lemma KeptHead(q: Query, c: Option<Cursor>, rows: seq<AuditEvent>)
    requires rows != [] && IsKept(q, c, rows[0])
    ensures Kept(q, c, rows) == [rows[0]] + Kept(q, c, rows[1..])
  {
  }

  lemma KeptNoHead(q: Query, c: Option<Cursor>, rows: seq<AuditEvent>)
    requires rows != [] && !IsKept(q, c, rows[0])
    ensures Kept(q, c, rows) == Kept(q, c, rows[1..])
  {
    assert [] + Kept(q, c, rows[1..]) == Kept(q, c, rows[1..]);
  }

  lemma KeptOfSome(q: Query, c: Option<Cursor>, rows: seq<AuditEvent>)
    ensures Kept(q, c, rows) != [] ==> rows != []
  {
  }

  lemma DropAfter(x: AuditEvent, later: seq<AuditEvent>, k: nat)
    requires 0 < k <= |later|
    ensures ([x] + later)[k] == later[k - 1] && ([x] + later)[k + 1..] == later[k..]
  {
  }

  lemma TailDescends(rows: seq<AuditEvent>)
    requires rows != [] && Descending(rows)
    ensures Descending(rows[1..])
  {
    hide Below;
  }

  lemma FirstIsNotBelow(q: Query, x: AuditEvent)
    ensures !IsKept(q, KeyOf(x), x)
  {
    BelowIrreflexive(x);
  }

  lemma RestIsBelow(q: Query, c: Option<Cursor>, rows: seq<AuditEvent>)
    requires rows != [] && Descending(rows) && IsKept(q, c, rows[0])
    ensures forall i :: 0 <= i < |rows[1..]| ==> Below(rows[1..][i], c) && Below(rows[1..][i], KeyOf(rows[0]))
  {
    hide Below;
    var rest := rows[1..];
    forall i | 0 <= i < |rest|
      ensures Below(rest[i], c) && Below(rest[i], KeyOf(rows[0]))
    {
      assert rest[i] == rows[i + 1];
      BelowTransitive(rest[i], rows[0], c);
    }
  }

  lemma AboveIsNotKept(q: Query, rows: seq<AuditEvent>, i: nat)
    requires 0 < i < |rows| && Descending(rows)
    ensures !IsKept(q, KeyOf(rows[i]), rows[0])
  {
    hide Below;
    if Below(rows[0], KeyOf(rows[i])) {
      BelowTransitive(rows[0], rows[i], KeyOf(rows[0]));
      BelowIrreflexive(rows[0]);
      assert false;
    }
  }

  /** A row that is not below the cursor makes no difference to what the cursor finds. */
  lemma {:induction false} KeptIgnoresAbove(q: Query, c: Option<Cursor>, rows: seq<AuditEvent>, ev: AuditEvent)
    requires !Below(ev, c)
    ensures Kept(q, c, Placed(ev, rows)) == Kept(q, c, rows)
  {
    hide Below;
    if rows == [] || !Below(ev, KeyOf(rows[0])) {
      assert ([ev] + rows)[1..] == rows;
    } else {
      KeptIgnoresAbove(q, c, rows[1..], ev);
      assert ([rows[0]] + Placed(ev, rows[1..]))[1..] == Placed(ev, rows[1..]);
    }
  }

  lemma {:induction false} KeptIgnoresArrivals(q: Query, c: Option<Cursor>, table: seq<AuditEvent>, more: seq<AuditEvent>)
    requires forall i :: 0 <= i < |more| ==> !Below(more[i], c)
    ensures Kept(q, c, Ordered(table + more)) == Kept(q, c, Ordered(table))
  {
    if more == [] {
      assert table + more == table;
    } else {
      var k := |more| - 1;
      assert (table + more)[..|table + more| - 1] == table + more[..k];
      KeptIgnoresArrivals(q, c, table, more[..k]);
      KeptIgnoresAbove(q, c, Ordered(table + more[..k]), more[k]);
    }
  }

  /** A client following the cursor: each request is answered from the table as it is then, and between two
      requests only rows above the cursor arrive. The last page has no next cursor. */
  predicate Session(q: Query, limit: nat, tables: seq<seq<AuditEvent>>, wire: Option<Bytes>)
    decreases |tables|
  {
    tables != [] &&
    var page := PageOf(q, tables[0], wire, limit);
    && DistinctIds(tables[0]) && WellKeyed(tables[0])
    && if page.nextCursor.None? then |tables| == 1
       else
         && |tables| > 1 && Arrivals(tables[0], tables[1], DecodeCursor(page.nextCursor))
         && Session(q, limit, tables[1..], page.nextCursor)
  }

  predicate Arrivals(before: seq<AuditEvent>, after: seq<AuditEvent>, c: Option<Cursor>) {
    before <= after && forall i :: |before| <= i < |after| ==> !Below(after[i], c)
  }

  /** Everything the client receives, page after page. */
  function Visited(q: Query, limit: nat, tables: seq<seq<AuditEvent>>, wire: Option<Bytes>): seq<AuditEvent>
    decreases |tables|
  {
    if tables == [] then []
    else
      var page := PageOf(q, tables[0], wire, limit);
      page.rows + Visited(q, limit, tables[1..], page.nextCursor)
  }

  function Received(q: Query, limit: nat, tables: seq<seq<AuditEvent>>, wire: Option<Bytes>): seq<AuditEvent>
    decreases |tables|
  {
    if tables == [] then []
    else
      var page := PageOf(q, tables[0], wire, limit);
      page.records + Received(q, limit, tables[1..], page.nextCursor)
  }

  /** What the next request will find is what this page left over. */
  lemma {:induction false} NextPageContinues(q: Query, limit: nat, table: seq<AuditEvent>, after: seq<AuditEvent>, wire: Option<Bytes>)
    requires limit > 0 && DistinctIds(table) && WellKeyed(table)
    requires PageOf(q, table, wire, limit).nextCursor.Some?
    requires Arrivals(table, after, DecodeCursor(PageOf(q, table, wire, limit).nextCursor))
    ensures
      var found, next := Kept(q, DecodeCursor(wire), Ordered(table)), DecodeCursor(PageOf(q, table, wire, limit).nextCursor);
      |found| > limit && Kept(q, next, Ordered(after)) == found[limit..]
  {
    hide Below, Kept, Ordered, DecodeCursor;
    var sorted := Ordered(table);
    var found := Kept(q, DecodeCursor(wire), sorted);
    var last := found[limit - 1];
    OrderedIsSorted(table);
    var i := KeptMember(q, DecodeCursor(wire), sorted, limit - 1);
    assert sorted[i] in multiset(sorted);
    assert last in multiset(table);
    CursorRoundTrip(last);
    KeptFromCursor(q, DecodeCursor(wire), sorted, limit - 1);
    var more := after[|table|..];
    assert after == table + more;
    KeptIgnoresArrivals(q, KeyOf(last), table, more);
  }

  /** Following the cursor visits every matching row of the table exactly once, in descending order, and
      returns those whose verdict decodes, even while rows arrive above the cursor. */
  lemma {:induction false} FollowingCursorIsComplete(q: Query, limit: nat, tables: seq<seq<AuditEvent>>, wire: Option<Bytes>)
    requires limit > 0 && Session(q, limit, tables, wire)
    ensures
      var found := Kept(q, DecodeCursor(wire), Ordered(tables[0]));
      && Visited(q, limit, tables, wire) == found
      && Received(q, limit, tables, wire) == Decodable(q, found)
      && (|tables| - 1) * limit <= |found|
    decreases |tables|
  {
    hide Kept, Ordered, DecodeCursor, WellKeyed, DistinctIds, Arrivals, PageOf, Decodable;
    var page, found := PageOf(q, tables[0], wire, limit), Kept(q, DecodeCursor(wire), Ordered(tables[0]));
    PageShape(q, tables[0], wire, limit);
    if page.nextCursor.None? {
      assert tables[1..] == [];
      assert page.rows + [] == page.rows && page.records + [] == page.records;
    } else {
      NextPageContinues(q, limit, tables[0], tables[1], wire);
      FollowingCursorIsComplete(q, limit, tables[1..], page.nextCursor);
      assert found == found[..limit] + found[limit..];
      DecodableConcat(q, found[..limit], found[limit..]);
      OnePageMore(|tables| - 1, limit);
    }
  }

  /** A page has the first rows found, up to the limit, and says whether there are more; the cursor names the
      last of them, so that an empty page has none. */
  lemma {:induction false} PageShape(q: Query, table: seq<AuditEvent>, wire: Option<Bytes>, limit: nat)
    ensures
      var page, found := PageOf(q, table, wire, limit), Kept(q, DecodeCursor(wire), Ordered(table));
      && (page.hasMore <==> |found| > limit)
      && (page.nextCursor.None? <==> |found| <= limit || limit == 0)
      && (page.nextCursor.Some? ==> page.nextCursor.value == found[limit - 1].ts + [0x1f] + found[limit - 1].auditId)
      && page.rows == (if |found| <= limit then found else found[..limit])
      && page.records == Decodable(q, page.rows)
  {
    hide Kept, Ordered, DecodeCursor, Decodable;
  }

  lemma OnePageMore(n: nat, limit: nat)
    requires n > 0
    ensures n * limit == (n - 1) * limit + limit
  {
  }

  /** A client still following: every page so far has a next cursor. */
  predicate Unfinished(q: Query, limit: nat, tables: seq<seq<AuditEvent>>, wire: Option<Bytes>)
    decreases |tables|
  {
    tables == [] ||
    var next := PageOf(q, tables[0], wire, limit).nextCursor;
    && DistinctIds(tables[0]) && WellKeyed(tables[0]) && next.Some?
    && (|tables| > 1 ==> Arrivals(tables[0], tables[1], DecodeCursor(next)))
    && Unfinished(q, limit, tables[1..], next)
  }

  /** Following the cursor ends: as long as it has not, the pages so far fit into what the first request
      found, with a row to spare. */
  lemma {:induction false} FollowingCursorEnds(q: Query, limit: nat, tables: seq<seq<AuditEvent>>, wire: Option<Bytes>)
    requires limit > 0 && tables != [] && Unfinished(q, limit, tables, wire)
    ensures |tables| * limit < |Kept(q, DecodeCursor(wire), Ordered(tables[0]))|
    decreases |tables|
  {
    hide Kept, Ordered, DecodeCursor, WellKeyed, DistinctIds, Arrivals, PageOf;
    PageShape(q, tables[0], wire, limit);
    OnePageMore(|tables|, limit);
    if |tables| > 1 {
      NextPageContinues(q, limit, tables[0], tables[1], wire);
      FollowingCursorEnds(q, limit, tables[1..], PageOf(q, tables[0], wire, limit).nextCursor);
    }
  }

  lemma {:induction false} DecodableConcat(q: Query, a: seq<AuditEvent>, b: seq<AuditEvent>)
    ensures Decodable(q, a + b) == Decodable(q, a) + Decodable(q, b)
  {
    if a == [] {
      assert a + b == b;
    } else {
      assert (a + b)[1..] == a[1..] + b;
      DecodableConcat(q, a[1..], b);
    }
  }

  /** What is found at the start is each matching row of the table, once, and nothing else. */
  lemma {:induction false} FoundIsMatching(q: Query, table: seq<AuditEvent>, ev: AuditEvent)
    requires DistinctIds(table)
    ensures multiset(Kept(q, None, Ordered(table)))[ev] == if q.Matches(ev) then multiset(table)[ev] else 0
    ensures Descending(Kept(q, None, Ordered(table)))
  {
    OrderedIsSorted(table);
    KeptCount(q, Ordered(table), ev);
    KeptDescends(q, Ordered(table));
  }

  /** What a client receives is each matching row whose verdict can be read, once, and nothing else. */
  lemma {:induction false} ReceivedIsReadable(q: Query, table: seq<AuditEvent>, ev: AuditEvent)
    requires DistinctIds(table)
    ensures multiset(Decodable(q, Kept(q, None, Ordered(table))))[ev] ==
            if q.Matches(ev) && q.decodes(ev.verdictJson) then multiset(table)[ev] else 0
  {
    FoundIsMatching(q, table, ev);
    DecodableCount(q, Kept(q, None, Ordered(table)), ev);
  }

  lemma {:induction false} DecodableCount(q: Query, rows: seq<AuditEvent>, ev: AuditEvent)
    ensures multiset(Decodable(q, rows))[ev] == if q.decodes(ev.verdictJson) then multiset(rows)[ev] else 0
  {
    if rows != [] {
      DecodableCount(q, rows[1..], ev);
      assert rows == [rows[0]] + rows[1..];
    }
  }

  /** At `bound` or above it. */
  predicate AtLeast(b: Bytes, bound: Bytes) {
    b == bound || Less(bound, b)
  }

  /** Both time bounds are inclusive, so is the level, and what has no level is below every one. */
  lemma {:induction false} MatchesExactly(q: Query, ev: AuditEvent)
    ensures q.Matches(ev) <==>
      && (q.tenant == None || q.tenant == Some(ev.tenantId))
      && (q.eventType == None || q.eventType == Some(ev.eventType))
      && (q.since == None || AtLeast(ev.ts, q.since.value))
      && (q.until == None || AtLeast(q.until.value, ev.ts))
      && (q.levelMin == None ||
          (q.riskOf(ev.verdictJson).Some? && AtLeast(q.riskOf(ev.verdictJson).value, q.levelMin.value)))
  {
    hide Less;
    if q.since.Some? {
      NotLess(ev.ts, q.since.value);
    }
    if q.until.Some? {
      NotLess(q.until.value, ev.ts);
    }
    if q.levelMin.Some? && q.riskOf(ev.verdictJson).Some? {
      NotLess(q.riskOf(ev.verdictJson).value, q.levelMin.value);
    }
  }

  lemma NotLess(b: Bytes, bound: Bytes)
    ensures !Less(b, bound) <==> AtLeast(b, bound)
  {
    LessTotal(b, bound);
    if Less(b, bound) && b == bound {
      LessIrreflexive(b);
    } else if Less(b, bound) && Less(bound, b) {
      LessTransitive(b, bound, b);
      LessIrreflexive(b);
    }
  }

  lemma {:induction false} KeptCount(q: Query, rows: seq<AuditEvent>, ev: AuditEvent)
    ensures multiset(Kept(q, None, rows))[ev] == if q.Matches(ev) then multiset(rows)[ev] else 0
  {
    if rows != [] {
      KeptCount(q, rows[1..], ev);
      assert rows == [rows[0]] + rows[1..];
    }
  }

  lemma {:induction false} KeptDescends(q: Query, rows: seq<AuditEvent>)
    requires Descending(rows)
    ensures Descending(Kept(q, None, rows))
  {
    hide Below;
    if rows != [] {
      var rest := rows[1..];
      assert forall i :: 0 <= i < |rest| ==> rest[i] == rows[i + 1];
      assert Descending(rest);
      KeptDescends(q, rest);
      forall x | x in Kept(q, None, rest)
        ensures Below(x, KeyOf(rows[0]))
      {
        var k :| 0 <= k < |Kept(q, None, rest)| && Kept(q, None, rest)[k] == x;
        var i := KeptMember(q, None, rest, k);
      }
      HeadDescends(rows[0], Kept(q, None, rest));
    }
  }
}
