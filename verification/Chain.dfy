/** Proof-event chains (`chain.rs`): event hashes, parent links, the Merkle root and the rolling hash. */
module Chain {
  import opened Common
  import opened Canonical
  import opened Merkle
  import CanonicalEncoder
  import HashRef
  import Utf8

  /**
   * A proof event: the fields every event has, the optional `parent_hash`, its other serialized fields, and
   * the `signature`.
   */
  datatype Event = Event(id: string, kind: string, actorId: string, timestamp: string, level: string,
                         parentHash: Option<string>, fields: seq<Member>, signature: Json)

  datatype ChainError =
    | CanonicalFault(fault: Canonical.Error)
    | BadHashRef(cause: HashRef.RefError) // never produced
    | ParentMismatch(index: nat, declared: string, expected: string)
    | MissingParentHash(index: nat)

  /** The fields that are always written. */
  function Required(e: Event): seq<Member> {
    [Member("event_version", String("1")), Member("id", String(e.id)), Member("type", String(e.kind)),
     Member("actor_id", String(e.actorId)), Member("timestamp", String(e.timestamp)), Member("level", String(e.level))]
  }

  predicate Reserved(key: string) {
    || key == "event_version" || key == "id" || key == "type" || key == "actor_id"
    || key == "timestamp" || key == "level" || key == "parent_hash" || key == "signature"
  }

  /** The struct's fields have distinct names. */
  predicate WellFormed(e: Event) {
    DistinctKeys(e.fields) && forall i :: 0 <= i < |e.fields| ==> !Reserved(e.fields[i].key)
  }

  /** An absent parent hash is not written. */
  function ParentMember(e: Event): seq<Member> {
    if e.parentHash.Some? then [Member("parent_hash", String(e.parentHash.value))] else []
  }

  /** `serde_json::to_value`. */
  function Members(e: Event): seq<Member> {
    Required(e) + e.fields + ParentMember(e) + [Member("signature", e.signature)]
  }

  /** `map.remove(key)`. */
  function Remove(ms: seq<Member>, key: string): seq<Member> {
    if ms == [] then [] else (if ms[0].key == key then [] else [ms[0]]) + Remove(ms[1..], key)
  }

  /** What is signed: the event without its signature. */
  function Stripped(e: Event): Json { Object(Remove(Members(e), "signature")) }

  function PayloadBytes(text: string): seq<byte> { Utf8.Encode(text) }

  function EventDigest(env: Env, sha: Hasher, e: Event): Result<Digest, ChainError> {
    match Canon(env, Stripped(e))
    case Err(f) => Err(CanonicalFault(f))
    case Ok(text) => Ok(sha(PayloadBytes(text)))
  }

  function HashText(r: Result<Digest, ChainError>): Result<string, ChainError> {
    match r
    case Err(f) => Err(f)
    case Ok(d) => Ok(HashRef.Sha256Ref(d))
  }

  /** `event_hash`. */
  method EventHash(env: Env, sha: Hasher, e: Event) returns (r: Result<string, ChainError>)
    ensures r == HashText(EventDigest(env, sha, e))
  {
    hide Canon, Utf8.Encode;
    var payload := CanonicalEncoder.Canonicalize(env, Stripped(e));
    if payload.Err? {
      return Err(CanonicalFault(payload.error));
    }
    var hex := HashRef.HexLower(sha(PayloadBytes(payload.value)));
    r := Ok("sha256:" + hex);
  }

  // ---------- Parent links ----------

  /** Event `i` names the hash of the event before it. */
  predicate Linked(env: Env, sha: Hasher, events: seq<Event>, i: nat)
    requires 0 < i < |events|
  {
    var before := HashText(EventDigest(env, sha, events[i - 1]));
    before.Ok? && events[i].parentHash == Some(before.value)
  }

  predicate Chained(env: Env, sha: Hasher, events: seq<Event>) {
    forall i :: 0 < i < |events| ==> Linked(env, sha, events, i)
  }

  /** Why link `i` does not hold. */
  predicate Breaks(env: Env, sha: Hasher, events: seq<Event>, i: nat, fault: ChainError)
    requires 0 < i < |events|
  {
    match HashText(EventDigest(env, sha, events[i - 1]))
    case Err(f) => fault == f
    case Ok(expected) =>
      match events[i].parentHash
      case None => fault == MissingParentHash(i)
      case Some(declared) => declared != expected && fault == ParentMismatch(i, declared, expected)
  }

  /** `verify_chain`: accepts exactly the linked lists, and otherwise reports the first broken link. */
  method VerifyChain(env: Env, sha: Hasher, events: seq<Event>) returns (r: Result<(), ChainError>)
    ensures r.Ok? <==> Chained(env, sha, events)
    ensures r.Err? ==>
      exists i :: 0 < i < |events| && Breaks(env, sha, events, i, r.error) && Chained(env, sha, events[..i])
  {
    hide EventDigest;
    if events == [] {
      return Ok(());
    }
    var i := 1;
    while i < |events|
      invariant 1 <= i <= |events|
      invariant Chained(env, sha, events[..i])
    {
      var expected := EventHash(env, sha, events[i - 1]);
      ghost var done := Chained(env, sha, events[..i]);
      if expected.Err? {
        assert Breaks(env, sha, events, i, expected.error) && !Linked(env, sha, events, i);
        return Err(expected.error);
      }
      if events[i].parentHash.None? {
        assert Breaks(env, sha, events, i, MissingParentHash(i)) && !Linked(env, sha, events, i);
        return Err(MissingParentHash(i));
      }
      var parent := events[i].parentHash.value;
      if parent != expected.value {
        assert Breaks(env, sha, events, i, ParentMismatch(i, parent, expected.value)) && !Linked(env, sha, events, i);
        return Err(ParentMismatch(i, parent, expected.value));
      }
      ChainedStep(env, sha, events, i);
      i := i + 1;
    }
    assert events[..i] == events;
    r := Ok(());
  }

  lemma ChainedStep(env: Env, sha: Hasher, events: seq<Event>, i: nat)
    requires 0 < i < |events| && Chained(env, sha, events[..i]) && Linked(env, sha, events, i)
    ensures Chained(env, sha, events[..i + 1])
  {
    hide EventDigest;
    var longer := events[..i + 1];
    forall j | 0 < j < |longer| ensures Linked(env, sha, longer, j) {
      if j < i {
        assert Linked(env, sha, events[..i], j);
      }
    }
  }

  // ---------- Roots over event digests ----------

  /** The digests of all events, or the fault of the first that cannot be printed. */
  function Digests(env: Env, sha: Hasher, events: seq<Event>): (r: Result<seq<Digest>, ChainError>)
    ensures r.Ok? ==> |r.value| == |events|
  {
    if events == [] then Ok([])
    else
      var d :- EventDigest(env, sha, events[0]);
      var ds :- Digests(env, sha, events[1..]);
      Ok([d] + ds)
  }

  function MerkleText(sha: Hasher, r: Result<seq<Digest>, ChainError>): Result<string, ChainError> {
    match r
    case Err(f) => Err(f)
    case Ok(ds) => Ok(HashRef.Sha256Ref(if ds == [] then Zeros() else Root(sha, ds)))
  }

  function ChainText(sha: Hasher, r: Result<seq<Digest>, ChainError>): Result<string, ChainError> {
    match r
    case Err(f) => Err(f)
    case Ok(ds) => Ok(HashRef.Sha256Ref(Rolling(sha, ds)))
  }

  /** An event's digest by way of its printed reference, which always reads back. */
  method ReadDigest(env: Env, sha: Hasher, e: Event) returns (r: Result<Digest, ChainError>)
    ensures r == EventDigest(env, sha, e)
  {
    hide EventDigest, HashRef.Sha256Ref, HashRef.Parse;
    var hash := EventHash(env, sha, e);
    if hash.Err? {
      return Err(hash.error);
    }
    HashRef.ParseInvertsPrint(EventDigest(env, sha, e).value);
    var parsed := HashRef.ParseHashRef(hash.value);
    if parsed.Err? {
      assert false; // the `BadHashRef` exit
    }
    r := Ok(parsed.value.1);
  }

  lemma DigestsStep(env: Env, sha: Hasher, events: seq<Event>, i: nat)
    requires i < |events|
    ensures match EventDigest(env, sha, events[i])
            case Err(f) => Digests(env, sha, events[i..]) == Err(f)
            case Ok(d) => Digests(env, sha, events[i..]) == Prepend([d], Digests(env, sha, events[i + 1..]))
  {
    hide EventDigest;
    assert events[i..][0] == events[i] && events[i..][1..] == events[i + 1..];
  }

  /** `merkle_root`. */
  method MerkleRoot(env: Env, sha: Hasher, events: seq<Event>) returns (r: Result<string, ChainError>)
    ensures r == MerkleText(sha, Digests(env, sha, events))
  {
    hide EventDigest, Digests, Prepend, Root;
    if events == [] {
      NoDigests(env, sha, events);
      var zero := HashRef.HexLower(Zeros());
      return Ok("sha256:" + zero);
    }
    var level: seq<Digest> := [];
    var i := 0;
    assert events[0..] == events;
    PrependAppend<Digest, ChainError>([], [], Digests(env, sha, events));
    while i < |events|
      invariant 0 <= i <= |events| && |level| == i
      invariant Prepend(level, Digests(env, sha, events[i..])) == Digests(env, sha, events)
    {
      DigestsStep(env, sha, events, i);
      var d := ReadDigest(env, sha, events[i]);
      if d.Err? {
        PrependFault(level, d.error);
        return Err(d.error);
      }
      PrependAppend<Digest, ChainError>(level, [d.value], Digests(env, sha, events[i + 1..]));
      level := level + [d.value];
      i := i + 1;
    }
    NoDigests(env, sha, events[i..]);
    PrependNone(level);
    var root := RootLoop(sha, level);
    var hex := HashRef.HexLower(root);
    r := Ok("sha256:" + hex);
  }

  lemma NoDigests(env: Env, sha: Hasher, events: seq<Event>)
    requires events == []
    ensures Digests(env, sha, events) == Ok([])
  {
  }

  lemma PrependFault(ds: seq<Digest>, f: ChainError)
    ensures Prepend(ds, Err(f)) == Err(f)
  {
  }

  lemma PrependNone(ds: seq<Digest>)
    ensures Prepend<Digest, ChainError>(ds, Ok([])) == Ok(ds)
  {
    assert ds + [] == ds;
  }

  /** `chain_hash`. */
  method ChainHash(env: Env, sha: Hasher, events: seq<Event>) returns (r: Result<string, ChainError>)
    ensures r == ChainText(sha, Digests(env, sha, events))
  {
    hide EventDigest, Digests, Prepend, Rolling;
    var state: Digest := Zeros();
    ghost var seen: seq<Digest> := [];
    var i := 0;
    assert events[0..] == events;
    PrependAppend<Digest, ChainError>([], [], Digests(env, sha, events));
    RollingStart(sha);
    while i < |events|
      invariant 0 <= i <= |events|
      invariant Prepend(seen, Digests(env, sha, events[i..])) == Digests(env, sha, events)
      invariant state == Rolling(sha, seen)
    {
      DigestsStep(env, sha, events, i);
      var d := ReadDigest(env, sha, events[i]);
      if d.Err? {
        PrependFault(seen, d.error);
        return Err(d.error);
      }
      PrependAppend<Digest, ChainError>(seen, [d.value], Digests(env, sha, events[i + 1..]));
      RollingStep(sha, seen, d.value);
      state := sha(HashInput(state, d.value));
      seen := seen + [d.value];
      i := i + 1;
    }
    NoDigests(env, sha, events[i..]);
    PrependNone(seen);
    var hex := HashRef.HexLower(state);
    r := Ok("sha256:" + hex);
  }

  lemma RollingStart(sha: Hasher)
    ensures Rolling(sha, []) == Zeros()
  {
  }

  lemma RollingStep(sha: Hasher, seen: seq<Digest>, d: Digest)
    ensures Rolling(sha, seen + [d]) == sha(HashInput(Rolling(sha, seen), d))
  {
    assert (seen + [d])[..|seen|] == seen;
  }
}
