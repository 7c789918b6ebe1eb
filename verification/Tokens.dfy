/** The store of reversible-redaction tokens: encrypted under a versioned key, bound to a tenant, short-lived. */
module Tokens {
  import opened Bytes

  const TOKEN_TTL_SECS: int := 300

  /** `tokenKey` derives the key of a version from the master key; the rest is the authenticated cipher. */
  datatype Cipher = Cipher(
    tokenKey: int -> Bytes,
    seal: (Bytes, Bytes, string) -> Bytes,
    unseal: (Bytes, Bytes, Bytes) -> Option<string>)
  {
    ghost predicate Sound() {
      forall key, nonce, text :: unseal(key, nonce, seal(key, nonce, text)) == Some(text)
    }
  }

  datatype Sealed = Sealed(
    ciphertext: Bytes,
    nonce: Bytes,
    created: int,
    inFlight: bool,
    ttl: int,
    tenant: string,
    keyVersion: int)

  datatype State = State(tokens: map<string, Sealed>, version: int)

  datatype Read = Revealed(text: string) | NotFound | Expired | Undecryptable

  predicate IsExpired(t: Sealed, now: int) {
    t.created + t.ttl < now
  }

  // --- What the operations do ---

  function Put(c: Cipher, s: State, id: string, text: string, tenant: string, nonce: Bytes, now: int): State {
    s.(tokens := s.tokens[id := Sealed(c.seal(c.tokenKey(s.version), nonce, text), nonce, now, false, TOKEN_TTL_SECS, tenant, s.version)])
  }

  function ReadOf(c: Cipher, s: State, id: string, tenant: string, now: int): Read {
    if id !in s.tokens then NotFound
    else
      var t := s.tokens[id];
      if t.tenant != tenant then NotFound
      else if IsExpired(t, now) then Expired
      else
        match c.unseal(c.tokenKey(t.keyVersion), t.nonce, t.ciphertext)
        case None => Undecryptable
        case Some(text) => Revealed(text)
  }

  /** Reading an expired token drops it, unless it is in flight. */
  function AfterRead(s: State, id: string, tenant: string, now: int): State {
    if id in s.tokens && s.tokens[id].tenant == tenant && IsExpired(s.tokens[id], now) && !s.tokens[id].inFlight
    then s.(tokens := s.tokens - {id}) else s
  }

  function Flagged(s: State, id: string, inFlight: bool): State {
    if id in s.tokens then s.(tokens := s.tokens[id := s.tokens[id].(inFlight := inFlight)]) else s
  }

  function Evicted(s: State, now: int): State {
    s.(tokens := map id | id in s.tokens && !(IsExpired(s.tokens[id], now) && !s.tokens[id].inFlight) :: s.tokens[id])
  }

  class TokenStore {
    const cipher: Cipher
    var tokens: map<string, Sealed>
    var version: int

    /** Opens a table as it was left, at the highest key version on record. */
    constructor (c: Cipher, stored: map<string, Sealed>, version: int)
      ensures Abstract() == State(stored, version) && cipher == c
    {
      cipher, tokens, this.version := c, stored, version;
    }

    ghost function Abstract(): State
      reads this
    {
      State(tokens, version)
    }

    method PutTenant(id: string, text: string, tenant: string, nonce: Bytes, now: int)
      modifies this`tokens
      ensures Abstract() == Put(cipher, old(Abstract()), id, text, tenant, nonce, now)
    {
      var key := cipher.tokenKey(version);
      var ciphertext := cipher.seal(key, nonce, text);
      tokens := tokens[id := Sealed(ciphertext, nonce, now, false, TOKEN_TTL_SECS, tenant, version)];
    }

    method GetTenant(id: string, tenant: string, now: int) returns (r: Read)
      modifies this`tokens
      ensures r == ReadOf(cipher, old(Abstract()), id, tenant, now)
      ensures Abstract() == AfterRead(old(Abstract()), id, tenant, now)
      ensures tokens == if r == Expired && !old(tokens)[id].inFlight then old(tokens) - {id} else old(tokens)
    {
      if id !in tokens {
        return NotFound;
      }
      var t := tokens[id];
      if t.tenant != tenant {
        return NotFound;
      }
      if IsExpired(t, now) {
        if !t.inFlight {
          tokens := tokens - {id};
        }
        return Expired;
      }
      var text := cipher.unseal(cipher.tokenKey(t.keyVersion), t.nonce, t.ciphertext);
      if text.None? {
        return Undecryptable;
      }
      return Revealed(text.value);
    }

    method SetInFlight(id: string, inFlight: bool)
      modifies this`tokens
      ensures Abstract() == Flagged(old(Abstract()), id, inFlight)
    {
      if id in tokens {
        tokens := tokens[id := tokens[id].(inFlight := inFlight)];
      }
    }

    method EvictExpired(now: int) returns (evicted: nat)
      modifies this`tokens
      ensures Abstract() == Evicted(old(Abstract()), now)
      ensures evicted == |old(tokens)| - |tokens|
      ensures forall id :: id in tokens <==>
        id in old(tokens) && (old(tokens)[id].inFlight || now <= old(tokens)[id].created + old(tokens)[id].ttl)
      ensures forall id :: id in tokens ==> tokens[id] == old(tokens)[id]
    {
      var before := tokens;
      tokens := map id | id in tokens && !(IsExpired(tokens[id], now) && !tokens[id].inFlight) :: tokens[id];
      assert before.Keys == tokens.Keys + (before.Keys - tokens.Keys);
      assert |before.Keys| == |tokens.Keys| + |before.Keys - tokens.Keys|;
      evicted := |before| - |tokens|;
    }

    method RotateKey() returns (renewed: int)
      modifies this`version
      ensures Abstract() == old(Abstract()).(version := renewed) && renewed == old(version) + 1
    {
      version := version + 1;
      renewed := version;
    }

    /** Performs the steps of a run one after the other. */
    method Perform(steps: seq<Step>)
      modifies this
      ensures Abstract() == Continued(cipher, old(Abstract()), steps)
    {
      ghost var s := Abstract();
      for i := 0 to |steps|
        invariant Abstract() == Continued(cipher, s, steps[..i])
      {
        assert steps[..i + 1][..i] == steps[..i];
        match steps[i]
        case PutStep(id, text, tenant, nonce, now) => PutTenant(id, text, tenant, nonce, now);
        case GetStep(id, tenant, now) => var _ := GetTenant(id, tenant, now);
        case FlagStep(id, inFlight, _) => SetInFlight(id, inFlight);
        case EvictStep(now) => var _ := EvictExpired(now);
        case RotateStep(_) => var _ := RotateKey();
      }
      assert steps[..|steps|] == steps;
    }
  }

  // --- Runs ---

  datatype Step =
    | PutStep(id: string, text: string, tenant: string, nonce: Bytes, now: int)
    | GetStep(id: string, tenant: string, now: int)
    | FlagStep(id: string, inFlight: bool, now: int)
    | EvictStep(now: int)
    | RotateStep(now: int)

  function Apply(c: Cipher, s: State, step: Step): State {
    match step
    case PutStep(id, text, tenant, nonce, now) => Put(c, s, id, text, tenant, nonce, now)
    case GetStep(id, tenant, now) => AfterRead(s, id, tenant, now)
    case FlagStep(id, inFlight, _) => Flagged(s, id, inFlight)
    case EvictStep(now) => Evicted(s, now)
    case RotateStep(_) => s.(version := s.version + 1)
  }

  function Continued(c: Cipher, s: State, steps: seq<Step>): State {
    if steps == [] then s else Apply(c, Continued(c, s, steps[..|steps| - 1]), steps[|steps| - 1])
  }

  /** Going on from where a run stopped is one longer run. */
  lemma {:induction false} RunContinues(c: Cipher, a: seq<Step>, b: seq<Step>)
    ensures Continued(c, Run(c, a), b) == Run(c, a + b)
  {
    hide Apply;
    if b == [] {
      assert a + b == a;
    } else {
      assert (a + b)[..|a + b| - 1] == a + b[..|b| - 1];
      RunContinues(c, a, b[..|b| - 1]);
    }
  }

  function Run(c: Cipher, steps: seq<Step>): State {
    if steps == [] then State(map[], 1) else Apply(c, Run(c, steps[..|steps| - 1]), steps[|steps| - 1])
  }

  predicate Clocked(steps: seq<Step>) {
    |steps| < 2 || (steps[|steps| - 2].now <= steps[|steps| - 1].now && Clocked(steps[..|steps| - 1]))
  }

  /** The reference: what was put last under an id, in the clear, with no key, flag or eviction. */
  datatype Note = Note(text: string, tenant: string, created: int)

  function Notes(steps: seq<Step>): map<string, Note> {
    if steps == [] then map[]
    else
      var notes, step := Notes(steps[..|steps| - 1]), steps[|steps| - 1];
      if step.PutStep? then notes[step.id := Note(step.text, step.tenant, step.now)] else notes
  }

  predicate Holds(c: Cipher, t: Sealed, n: Note) {
    && c.unseal(c.tokenKey(t.keyVersion), t.nonce, t.ciphertext) == Some(n.text)
    && t.tenant == n.tenant && t.created == n.created && t.ttl == TOKEN_TTL_SECS
  }

  /** Every stored token opens to its note, and only expired notes have lost their token. */
  predicate Faithful(c: Cipher, s: State, notes: map<string, Note>, now: int) {
    && (forall id :: id in s.tokens ==> id in notes && Holds(c, s.tokens[id], notes[id]))
    && (forall id :: id in notes && id !in s.tokens ==> notes[id].created + TOKEN_TTL_SECS < now)
  }

  lemma StepStaysFaithful(c: Cipher, s: State, notes: map<string, Note>, earlier: int, step: Step)
    requires c.Sound() && Faithful(c, s, notes, earlier) && earlier <= step.now
    ensures Faithful(c, Apply(c, s, step),
                     if step.PutStep? then notes[step.id := Note(step.text, step.tenant, step.now)] else notes, step.now)
  {
    if step.PutStep? {
      var key := c.tokenKey(s.version);
      assert c.unseal(key, step.nonce, c.seal(key, step.nonce, step.text)) == Some(step.text);
    }
  }

  lemma {:induction false} RunIsFaithful(c: Cipher, steps: seq<Step>)
    requires c.Sound() && Clocked(steps) && steps != []
    ensures Faithful(c, Run(c, steps), Notes(steps), steps[|steps| - 1].now)
  {
    hide Faithful, Apply;
    var k := |steps| - 1;
    if k == 0 {
      assert steps[..k] == [];
      NothingIsFaithful(c, steps[0].now);
      StepStaysFaithful(c, State(map[], 1), map[], steps[0].now, steps[0]);
    } else {
      RunIsFaithful(c, steps[..k]);
      StepStaysFaithful(c, Run(c, steps[..k]), Notes(steps[..k]), steps[k - 1].now, steps[k]);
    }
  }

  lemma NothingIsFaithful(c: Cipher, now: int)
    ensures Faithful(c, State(map[], 1), map[], now)
  {
  }

  /** In every run a read reveals a text exactly when that text was put last under the id by the same tenant
      no more than three hundred seconds ago: key rotations, evictions, reads and in-flight flags in between
      make no difference. */
  lemma {:induction false} ReadRevealsLastPut(c: Cipher, steps: seq<Step>, id: string, tenant: string, now: int, text: string)
    requires c.Sound() && Clocked(steps + [GetStep(id, tenant, now)])
    ensures ReadOf(c, Run(c, steps), id, tenant, now) == Revealed(text) <==>
            id in Notes(steps) && Notes(steps)[id].tenant == tenant && Notes(steps)[id].text == text
            && now <= Notes(steps)[id].created + 300
  {
    var all := steps + [GetStep(id, tenant, now)];
    assert all[..|all| - 1] == steps;
    if steps != [] {
      assert all[|all| - 2] == steps[|steps| - 1];
      RunIsFaithful(c, steps);
    }
  }

  /** To any other tenant a token looks as if it were not there, expired or not, and asking changes nothing. */
  lemma {:induction false} OthersSeeNothing(c: Cipher, s: State, id: string, tenant: string, now: int)
    requires id in s.tokens ==> s.tokens[id].tenant != tenant
    ensures ReadOf(c, s, id, tenant, now) == ReadOf(c, s.(tokens := s.tokens - {id}), id, tenant, now) == NotFound
    ensures AfterRead(s, id, tenant, now) == s
  {
  }

  function Puts(steps: seq<Step>): seq<Step> {
    if steps == [] then []
    else Puts(steps[..|steps| - 1]) + if steps[|steps| - 1].PutStep? then [steps[|steps| - 1]] else []
  }

  lemma {:induction false} NotesAreThePuts(steps: seq<Step>)
    ensures Notes(steps) == Notes(Puts(steps))
  {
    if steps != [] {
      var k := |steps| - 1;
      NotesAreThePuts(steps[..k]);
      var rest := Puts(steps[..k]);
      if steps[k].PutStep? {
        assert (rest + [steps[k]])[..|rest|] == rest;
      } else {
        assert Puts(steps) == rest;
      }
    }
  }

  /** Two runs with the same puts reveal the same texts, however they evict, read, flag and rotate. */
  lemma {:induction false} EvictionIsInvisible(
    c: Cipher, steps: seq<Step>, steps': seq<Step>, id: string, tenant: string, now: int, text: string)
    requires c.Sound()
    requires Clocked(steps + [GetStep(id, tenant, now)]) && Clocked(steps' + [GetStep(id, tenant, now)])
    requires Puts(steps) == Puts(steps')
    ensures ReadOf(c, Run(c, steps), id, tenant, now) == Revealed(text) <==>
            ReadOf(c, Run(c, steps'), id, tenant, now) == Revealed(text)
  {
    ReadRevealsLastPut(c, steps, id, tenant, now, text);
    ReadRevealsLastPut(c, steps', id, tenant, now, text);
    NotesAreThePuts(steps);
    NotesAreThePuts(steps');
  }
}
