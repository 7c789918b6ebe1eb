/** The bytes an audit event contributes to its HMAC: eleven fields, each preceded by its length
    as a big-endian u32. */
module Payload {
  import opened Bytes

  /** An audit event before it is linked. `auditId` and `ts` are the rendered forms that are hashed
      and stored (a UUID and an RFC 3339 timestamp). */
  datatype AuditEvent = AuditEvent(
    auditId: Bytes,
    ts: Bytes,
    eventType: Bytes,
    tenantId: Bytes,
    requester: Bytes,
    action: Bytes,
    inferredCategory: Bytes,
    verdictJson: Bytes,
    approvedBy: Option<Bytes>,
    seatbeltRequired: bool,
    outcome: Bytes)
  {
    /** `approved_by` with an absent value read as the empty string. */
    function Approver(): Bytes {
      match approvedBy
      case None => []
      case Some(name) => name
    }

    /** The eleven hashed fields, in order. */
    function Fields(): seq<Bytes> {
      [auditId, ts, eventType, tenantId, requester, action, inferredCategory, verdictJson,
       Approver(), if seatbeltRequired then [49] else [48], outcome]
    }
  }

  const U32_RANGE: nat := 0x1_0000_0000

  /** `(len as u32).to_be_bytes()`: the cast keeps the length modulo 2^32. */
  function U32Be(len: nat): Bytes {
    var n := len % U32_RANGE;
    [(n / 256 / 256 / 256) as byte, (n / 256 / 256 % 256) as byte, (n / 256 % 256) as byte, (n % 256) as byte]
  }

  function ReadU32(b: Bytes): nat
    requires |b| == 4
  {
    b[0] as nat * 0x100_0000 + b[1] as nat * 0x1_0000 + b[2] as nat * 256 + b[3] as nat
  }

  function LengthPrefixed(fields: seq<Bytes>): Bytes {
    if fields == [] then [] else U32Be(|fields[0]|) + fields[0] + LengthPrefixed(fields[1..])
  }

  function PayloadOf(ev: AuditEvent): Bytes {
    LengthPrefixed(ev.Fields())
  }

  /** Every field fits its u32 length. */
  predicate Short(fields: seq<Bytes>) {
    forall i :: 0 <= i < |fields| ==> |fields[i]| < U32_RANGE
  }

  lemma {:induction false} LengthPrefixedSnoc(fields: seq<Bytes>, f: Bytes)
    ensures LengthPrefixed(fields + [f]) == LengthPrefixed(fields) + U32Be(|f|) + f
  {
    if fields == [] {
      assert fields + [f] == [f];
    } else {
      assert (fields + [f])[1..] == fields[1..] + [f];
      LengthPrefixedSnoc(fields[1..], f);
    }
  }

  method PayloadBytes(ev: AuditEvent) returns (out: Bytes)
    ensures out == PayloadOf(ev)
  {
    var fields := ev.Fields();
    out := [];
    for i := 0 to |fields|
      invariant out == LengthPrefixed(fields[..i])
    {
      LengthPrefixedSnoc(fields[..i], fields[i]);
      assert fields[..i + 1] == fields[..i] + [fields[i]];
      out := out + U32Be(|fields[i]|);
      out := out + fields[i];
    }
    assert fields[..|fields|] == fields;
  }

  /** Reads a length-prefixed sequence back. */
  function Decode(b: Bytes): Option<seq<Bytes>>
    decreases |b|
  {
    if b == [] then Some([])
    else if |b| < 4 || |b| < 4 + ReadU32(b[..4]) then None
    else
      var n := ReadU32(b[..4]);
      match Decode(b[4 + n..])
      case None => None
      case Some(rest) => Some([b[4..4 + n]] + rest)
  }

  lemma U32RoundTrip(n: nat)
    requires n < U32_RANGE
    ensures ReadU32(U32Be(n)) == n
    ensures
      var b := U32Be(n);
      n == b[0] as nat * 0x100_0000 + b[1] as nat * 0x1_0000 + b[2] as nat * 256 + b[3] as nat
  {
    var q := n / 256;
    var r := q / 256;
    var t := r / 256;
    assert n == 256 * q + n % 256 && q == 256 * r + q % 256 && r == 256 * t + r % 256;
  }

  /** Decoding is a left inverse of the encoding on fields that fit their lengths. */
  lemma {:induction false} DecodeInvertsEncode(fields: seq<Bytes>)
    requires Short(fields)
    ensures Decode(LengthPrefixed(fields)) == Some(fields)
  {
    if fields != [] {
      var f, rest := fields[0], LengthPrefixed(fields[1..]);
      var b := U32Be(|f|) + f + rest;
      U32RoundTrip(|f|);
      assert b[..4] == U32Be(|f|);
      assert b[4..4 + |f|] == f;
      assert b[4 + |f|..] == rest;
      DecodeInvertsEncode(fields[1..]);
      assert fields == [f] + fields[1..];
    }
  }

  /** What a reader of the payload finds, in this order: an absent approver as the empty string, the seatbelt
      as the digit one or zero. */
  lemma {:induction false} PayloadReads(ev: AuditEvent)
    requires Short(ev.Fields())
    ensures Decode(PayloadOf(ev)) == Some([
      ev.auditId, ev.ts, ev.eventType, ev.tenantId, ev.requester, ev.action, ev.inferredCategory, ev.verdictJson,
      if ev.approvedBy.Some? then ev.approvedBy.value else [], if ev.seatbeltRequired then [0x31] else [0x30], ev.outcome])
  {
    DecodeInvertsEncode(ev.Fields());
  }

  /** Equal in every hashed field; an absent approver and an empty one are the same hashed field. */
  predicate SameHashedFields(a: AuditEvent, b: AuditEvent) {
    a.(approvedBy := None) == b.(approvedBy := None) && a.Approver() == b.Approver()
  }

  /** The payload identifies exactly the eleven hashed fields. */
  lemma {:induction false} PayloadIdentifiesFields(a: AuditEvent, b: AuditEvent)
    requires Short(a.Fields()) && Short(b.Fields())
    ensures PayloadOf(a) == PayloadOf(b) <==> SameHashedFields(a, b)
  {
    DecodeInvertsEncode(a.Fields());
    DecodeInvertsEncode(b.Fields());
    if a.Fields() == b.Fields() {
      var f, g := a.Fields(), b.Fields();
      assert f[0] == g[0] && f[1] == g[1] && f[2] == g[2] && f[3] == g[3] && f[4] == g[4] && f[5] == g[5];
      assert f[6] == g[6] && f[7] == g[7] && f[8] == g[8] && f[9] == g[9] && f[10] == g[10];
      assert [49] != [48 as byte] by {
        assert [49 as byte][0] != [48 as byte][0];
      }
    }
  }

  // --- Lengths that do not fit ---

  lemma {:induction false} LengthPrefixedConcat(a: seq<Bytes>, b: seq<Bytes>)
    ensures LengthPrefixed(a + b) == LengthPrefixed(a) + LengthPrefixed(b)
  {
    if a == [] {
      assert a + b == b;
    } else {
      assert (a + b)[1..] == a[1..] + b;
      LengthPrefixedConcat(a[1..], b);
    }
  }

  function Zeros(n: nat): Bytes {
    Repeat(0, n)
  }

  /** A length that is a multiple of 2^32 is written as zero, so an empty field and a field of that many
      zero bytes read the same in either order. */
  lemma ZeroPair(n: nat)
    requires n % U32_RANGE == 0
    ensures LengthPrefixed([Zeros(n), []]) == LengthPrefixed([[], Zeros(n)])
  {
    var z := Zeros(n);
    assert U32Be(n) == Zeros(4) && U32Be(0) == Zeros(4);
    TwoFields(z, []);
    TwoFields([], z);
    assert Zeros(4) + z + (Zeros(4) + []) == Zeros(4) + [] + (Zeros(4) + z);
  }

  lemma TwoFields(a: Bytes, b: Bytes)
    ensures LengthPrefixed([a, b]) == U32Be(|a|) + a + (U32Be(|b|) + b)
  {
    hide U32Be;
    assert [a, b][1..] == [b] && [b][1..] == [];
    assert LengthPrefixed([b]) == U32Be(|b|) + b + LengthPrefixed([]);
  }

  /** Without the length bound the payload does not identify an event: for every event and every positive
      multiple of 2^32, that many zero bytes as requester with an empty action, and the other way round,
      hash the same. */
  lemma {:induction false} TruncatedLengthsCollide(ev: AuditEvent, n: nat)
    requires 0 < n && n % U32_RANGE == 0
    ensures
      var a, b := ev.(requester := Zeros(n), action := []), ev.(requester := [], action := Zeros(n));
      PayloadOf(a) == PayloadOf(b) && !SameHashedFields(a, b)
  {
    var a, b := ev.(requester := Zeros(n), action := []), ev.(requester := [], action := Zeros(n));
    hide LengthPrefixed;
    SplitAtRequester(a);
    SplitAtRequester(b);
    assert a.Fields()[..4] == b.Fields()[..4] && a.Fields()[6..] == b.Fields()[6..];
    ZeroPair(n);
    assert |a.requester| != |b.requester|;
  }

  lemma SplitAtRequester(ev: AuditEvent)
    ensures
      var f := ev.Fields();
      && f == f[..4] + [ev.requester, ev.action] + f[6..]
      && PayloadOf(ev) == LengthPrefixed(f[..4]) + LengthPrefixed([ev.requester, ev.action]) + LengthPrefixed(f[6..])
  {
    hide LengthPrefixed;
    var f := ev.Fields();
    LengthPrefixedConcat(f[..4] + [ev.requester, ev.action], f[6..]);
    LengthPrefixedConcat(f[..4], [ev.requester, ev.action]);
  }
}
