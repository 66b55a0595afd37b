/** The file-backed store (`tf-store-file/src/lib.rs`): an in-memory ledger and revocation map beside two text files. */
module FileStore {
  import opened Common
  import opened Canonical
  import opened Text
  import CanonicalEncoder
  import FieldEscape
  import HashRef
  import Merkle
  import Utf8

  /** Foreign functions: text normalization and float text, SHA-256, and the JSON parser. */
  datatype World = World(env: Env, sha: Merkle.Hasher, parse: string -> Option<Json>)

  /** Target kind and target id. */
  type Key = (string, string)

  datatype StoreError =
    | CanonicalFault(fault: Canonical.Error)
    | MalformedLog(line: nat)
    | ChecksumMismatch(line: nat)
    | HashMismatch(line: nat)
    | ParseFailure(line: nat)
    | MalformedRevocation(line: nat)
    | BadField(cause: FieldEscape.FieldError)

  /** `proof_order` and `proof_payloads`. */
  datatype Ledger = Ledger(order: seq<string>, payloads: map<string, Json>)

  // ---------- Records ----------

  function Ref(w: World, text: string): string { HashRef.Sha256Ref(w.sha(Utf8.Encode(text))) }

  /** `record_checksum`. */
  function Checksum(w: World, hash: string, text: string): string { Ref(w, hash + "\t" + text) }

  function LogLine(w: World, hash: string, text: string): string {
    hash + "\t" + (Checksum(w, hash, text) + "\t" + text)
  }

  predicate Blank(line: string) { Trim(line) == [] }

  /** A log line's hash and event, checked. */
  function ReadRecord(w: World, line: string, n: nat): Result<(string, Json), StoreError> {
    var hash, rest := UpTo(line, '\t'), After(line, '\t');
    if rest.None? then Err(MalformedLog(n))
    else
      var checksum, payload := UpTo(rest.value, '\t'), After(rest.value, '\t');
      if payload.None? then Err(MalformedLog(n))
      else if checksum != Checksum(w, hash, payload.value) then Err(ChecksumMismatch(n))
      else if hash != Ref(w, payload.value) then Err(HashMismatch(n))
      else match w.parse(payload.value)
        case None => Err(ParseFailure(n))
        case Some(v) => Ok((hash, v))
  }

  /** A hash keeps its first place; its payload is the latest. */
  function Admit(l: Ledger, hash: string, v: Json): Ledger {
    Ledger(if hash in l.payloads then l.order else l.order + [hash], l.payloads[hash := v])
  }

  function LoadLog(w: World, lines: seq<string>, n: nat, l: Ledger): Result<Ledger, StoreError>
    decreases |lines|
  {
    if lines == [] then Ok(l)
    else if Blank(lines[0]) then LoadLog(w, lines[1..], n + 1, l)
    else
      var rec :- ReadRecord(w, lines[0], n + 1);
      LoadLog(w, lines[1..], n + 1, Admit(l, rec.0, rec.1))
  }

  function RevocationLine(k: Key, at: string): string {
    FieldEscape.Escape(k.0) + "\t" + (FieldEscape.Escape(k.1) + "\t" + FieldEscape.Escape(at))
  }

  function Field(s: string): Result<string, StoreError> {
    match FieldEscape.Unescape(s) case Ok(t) => Ok(t) case Err(e) => Err(BadField(e))
  }

  function ReadRevocation(line: string, n: nat): Result<(Key, string), StoreError> {
    var rest := After(line, '\t');
    if rest.None? || After(rest.value, '\t').None? then Err(MalformedRevocation(n))
    else
      var kind :- Field(UpTo(line, '\t'));
      var id :- Field(UpTo(rest.value, '\t'));
      var at :- Field(After(rest.value, '\t').value);
      Ok(((kind, id), at))
  }

  function LoadRevocations(lines: seq<string>, n: nat, m: map<Key, string>): Result<map<Key, string>, StoreError>
    decreases |lines|
  {
    if lines == [] then Ok(m)
    else if Blank(lines[0]) then LoadRevocations(lines[1..], n + 1, m)
    else
      var rec :- ReadRevocation(lines[0], n + 1);
      LoadRevocations(lines[1..], n + 1, m[rec.0 := rec.1])
  }

  /** A missing file reads like an empty one. */
  function Content(file: Option<string>): string { match file case Some(text) => text case None => [] }

  function ReadLog(w: World, file: Option<string>): Result<Ledger, StoreError> {
    LoadLog(w, Lines(Content(file)), 0, Ledger([], map[]))
  }

  function ReadRevocations(file: Option<string>): Result<map<Key, string>, StoreError> {
    LoadRevocations(Lines(Content(file)), 0, map[])
  }

  // ---------- Files ----------

  /** What `persist_proof_log` writes. */
  function RenderLog(w: World, order: seq<string>, payloads: map<string, Json>): Result<string, StoreError> {
    if order == [] then Ok([])
    else if order[0] !in payloads then RenderLog(w, order[1..], payloads)
    else match Canon(w.env, payloads[order[0]])
      case Err(f) => Err(CanonicalFault(f))
      case Ok(text) =>
        var rest :- RenderLog(w, order[1..], payloads);
        Ok(LogLine(w, order[0], text) + "\n" + rest)
  }

  /** What `persist_revocations` writes when it visits the entries in the order `keys`. */
  function RenderRevocations(keys: seq<Key>, m: map<Key, string>): string
    requires forall i :: 0 <= i < |keys| ==> keys[i] in m
  {
    if keys == [] then [] else RevocationLine(keys[0], m[keys[0]]) + "\n" + RenderRevocations(keys[1..], m)
  }

  /** Every key once. */
  predicate Enumerates(keys: seq<Key>, m: map<Key, string>) {
    Distinct(keys) && (forall i :: 0 <= i < |keys| ==> keys[i] in m) && forall k :: k in m ==> k in keys
  }

  /** The file holds the entries of `m`, in some order. */
  ghost predicate Holds(file: Option<string>, m: map<Key, string>) {
    exists keys :: Enumerates(keys, m) && file == Some(RenderRevocations(keys, m))
  }

  // ---------- What each operation does to memory and files ----------

  datatype Image = Image(ledger: Ledger, revocations: map<Key, string>, log: Option<string>,
                         revocationFile: Option<string>)

  function Fresh(): Image { Image(Ledger([], map[]), map[], None, None) }

  /** `append`. */
  predicate Appended(w: World, s: Image, event: Json, t: Image, r: Result<string, StoreError>) {
    match Canon(w.env, event)
    case Err(f) => t == s && r == Err(CanonicalFault(f))
    case Ok(text) =>
      var hash := Ref(w, text);
      && r == Ok(hash)
      && if hash in s.ledger.payloads then t == s
         else
           var log := Content(s.log) + LogLine(w, hash, text) + "\n";
           t == s.(ledger := Admit(s.ledger, hash, event), log := Some(log))
  }

  /** `insert`. */
  ghost predicate Inserted(s: Image, k: Key, at: string, t: Image) {
    && t == s.(revocations := s.revocations[k := at], revocationFile := t.revocationFile)
    && Holds(t.revocationFile, t.revocations)
  }

  /** `compact`. */
  ghost predicate Compacted(w: World, s: Image, t: Image, r: Result<(), StoreError>) {
    match RenderLog(w, s.ledger.order, s.ledger.payloads)
    case Err(f) => t == s && r == Err(f)
    case Ok(text) =>
      && r == Ok(())
      && t == s.(log := Some(text), revocationFile := t.revocationFile)
      && Holds(t.revocationFile, s.revocations)
  }

  // ---------- The store ----------

  class Store {
    var order: seq<string>
    var payloads: map<string, Json>
    var revocations: map<Key, string>
    var log: Option<string>
    var revocationFile: Option<string>

    function View(): Image
      reads this
    {
      Image(Ledger(order, payloads), revocations, log, revocationFile)
    }

    /** An empty directory. */
    constructor ()
      ensures View() == Fresh()
    {
      order, payloads, revocations, log, revocationFile := [], map[], map[], None, None;
    }

    /** `load`. */
    method Load(w: World) returns (r: Result<(), StoreError>)
      modifies this
      ensures log == old(log) && revocationFile == old(revocationFile)
      ensures match ReadLog(w, log)
              case Err(e) => r == Err(e)
              case Ok(l) =>
                match ReadRevocations(revocationFile)
                case Err(e) => r == Err(e)
                case Ok(m) => r == Ok(()) && View() == Image(l, m, old(log), old(revocationFile))
    {
      order, payloads, revocations := [], map[], map[];
      r := LoadProofLog(w);
      if r.Ok? {
        r := LoadRevocationFile();
      }
    }

    method LoadProofLog(w: World) returns (r: Result<(), StoreError>)
      requires order == [] && payloads == map[]
      modifies this`order, this`payloads
      ensures match ReadLog(w, log)
              case Err(e) => r == Err(e)
              case Ok(l) => r == Ok(()) && Ledger(order, payloads) == l
    {
      hide Lines, Blank, ReadRecord;
      var lines := Lines(Content(log));
      var i := 0;
      assert lines[0..] == lines;
      while i < |lines|
        invariant 0 <= i <= |lines|
        invariant LoadLog(w, lines[i..], i, Ledger(order, payloads)) == LoadLog(w, lines, 0, Ledger([], map[]))
      {
        assert lines[i..][0] == lines[i] && lines[i..][1..] == lines[i + 1..];
        if !Blank(lines[i]) {
          var rec := ReadRecord(w, lines[i], i + 1);
          if rec.Err? {
            return Err(rec.error);
          }
          var (hash, value) := rec.value;
          if hash !in payloads {
            order := order + [hash];
          }
          payloads := payloads[hash := value];
        }
        i := i + 1;
      }
      r := Ok(());
    }

    method LoadRevocationFile() returns (r: Result<(), StoreError>)
      requires revocations == map[]
      modifies this`revocations
      ensures match ReadRevocations(revocationFile)
              case Err(e) => r == Err(e)
              case Ok(m) => r == Ok(()) && revocations == m
    {
      hide Lines, Blank, ReadRevocation;
      var lines := Lines(Content(revocationFile));
      var i := 0;
      assert lines[0..] == lines;
      while i < |lines|
        invariant 0 <= i <= |lines|
        invariant LoadRevocations(lines[i..], i, revocations) == LoadRevocations(lines, 0, map[])
      {
        assert lines[i..][0] == lines[i] && lines[i..][1..] == lines[i + 1..];
        if !Blank(lines[i]) {
          var rec := ParseRevocation(lines[i], i + 1);
          if rec.Err? {
            return Err(rec.error);
          }
          revocations := revocations[rec.value.0 := rec.value.1];
        }
        i := i + 1;
      }
      r := Ok(());
    }

    /** `append`. */
    method Append(w: World, event: Json) returns (r: Result<string, StoreError>)
      modifies this
      ensures Appended(w, old(View()), event, View(), r)
    {
      hide Canon, Utf8.Encode;
      var canonical := CanonicalEncoder.Canonicalize(w.env, event);
      if canonical.Err? {
        return Err(CanonicalFault(canonical.error));
      }
      var text := canonical.value;
      var hash := Ref(w, text);
      if hash in payloads {
        return Ok(hash);
      }
      var checksum := Checksum(w, hash, text);
      var file := Content(log);
      ghost var start := file;
      file := file + hash;
      file := file + "\t";
      file := file + checksum;
      file := file + "\t";
      file := file + text;
      file := file + "\n";
      assert file == start + LogLine(w, hash, text) + "\n";
      log := Some(file);
      order := order + [hash];
      payloads := payloads[hash := event];
      r := Ok(hash);
    }

    /** `insert`. */
    method Insert(kind: string, id: string, at: string)
      modifies this
      ensures Inserted(old(View()), (kind, id), at, View())
    {
      revocations := revocations[(kind, id) := at];
      PersistRevocations();
    }

    /** `persist_revocations`, with the order of the map's entries left open. */
    method PersistRevocations()
      modifies this`revocationFile
      ensures Holds(revocationFile, revocations)
    {
      hide RevocationLine, RenderRevocations;
      var file := "";
      RenderNone(revocations);
      var remaining := revocations.Keys;
      ghost var keys: seq<Key> := [];
      while remaining != {}
        invariant remaining <= revocations.Keys
        invariant Distinct(keys) && forall i :: 0 <= i < |keys| ==> keys[i] in revocations && keys[i] !in remaining
        invariant forall k :: k in revocations ==> k in keys || k in remaining
        invariant file == RenderRevocations(keys, revocations)
        decreases |remaining|
      {
        var k :| k in remaining;
        remaining := remaining - {k};
        RenderAppend(keys, k, revocations);
        var line := WriteRevocation(k, revocations[k]);
        file := file + line;
        keys := keys + [k];
      }
      assert Enumerates(keys, revocations);
      revocationFile := Some(file);
    }

    /** `compact`. */
    method Compact(w: World) returns (r: Result<(), StoreError>)
      modifies this
      ensures Compacted(w, old(View()), View(), r)
    {
      r := PersistProofLog(w);
      if r.Ok? {
        PersistRevocations();
      }
    }

    /** `persist_proof_log`; a failure leaves the old file in place. */
    method PersistProofLog(w: World) returns (r: Result<(), StoreError>)
      modifies this`log
      ensures match RenderLog(w, order, payloads)
              case Err(f) => r == Err(f) && log == old(log)
              case Ok(text) => r == Ok(()) && log == Some(text)
    {
      hide Canon, LogLine;
      var file := "";
      var i := 0;
      assert order[0..] == order;
      PrependAppend([], [], RenderLog(w, order, payloads));
      while i < |order|
        invariant 0 <= i <= |order| && log == old(log)
        invariant Prepend(file, RenderLog(w, order[i..], payloads)) == RenderLog(w, order, payloads)
      {
        assert order[i..][0] == order[i] && order[i..][1..] == order[i + 1..];
        var hash := order[i];
        if hash in payloads {
          var canonical := CanonicalEncoder.Canonicalize(w.env, payloads[hash]);
          if canonical.Err? {
            return Err(CanonicalFault(canonical.error));
          }
          PrependAppend(file, LogLine(w, hash, canonical.value) + "\n", RenderLog(w, order[i + 1..], payloads));
          file := file + (LogLine(w, hash, canonical.value) + "\n");
        }
        i := i + 1;
      }
      assert file + [] == file;
      log := Some(file);
      r := Ok(());
    }

    /** `tail`: the last events in order, at most `limit` hashes back. */
    method Tail(limit: nat) returns (out: seq<Json>)
      ensures out == Present(order[if limit < |order| then |order| - limit else 0..], payloads)
    {
      hide Present;
      var start := if limit < |order| then |order| - limit else 0;
      out := [];
      var i := start;
      while i < |order|
        invariant start <= i <= |order|
        invariant out + Present(order[i..], payloads) == Present(order[start..], payloads)
      {
        PresentStep(out, order, payloads, i);
        if order[i] in payloads {
          out := out + [payloads[order[i]]];
        }
        i := i + 1;
      }
      NonePresent(order[i..], payloads);
      assert out + [] == out;
    }
  }

  /** The payloads of those hashes that have one. */
  function Present(hashes: seq<string>, payloads: map<string, Json>): seq<Json> {
    if hashes == [] then []
    else (if hashes[0] in payloads then [payloads[hashes[0]]] else []) + Present(hashes[1..], payloads)
  }

  lemma PresentStep(out: seq<Json>, order: seq<string>, payloads: map<string, Json>, i: nat)
    requires i < |order|
    ensures out + Present(order[i..], payloads) ==
      (if order[i] in payloads then out + [payloads[order[i]]] else out) + Present(order[i + 1..], payloads)
  {
    assert order[i..][0] == order[i] && order[i..][1..] == order[i + 1..];
    if order[i] in payloads {
      assert out + ([payloads[order[i]]] + Present(order[i + 1..], payloads)) ==
        out + [payloads[order[i]]] + Present(order[i + 1..], payloads);
    }
  }

  lemma NonePresent(hashes: seq<string>, payloads: map<string, Json>)
    requires hashes == []
    ensures Present(hashes, payloads) == []
  {
  }

  method WriteRevocation(k: Key, at: string) returns (line: string)
    ensures line == RevocationLine(k, at) + "\n"
  {
    hide FieldEscape.Escape;
    var kind := FieldEscape.EscapeField(k.0);
    var id := FieldEscape.EscapeField(k.1);
    var when := FieldEscape.EscapeField(at);
    line := kind + "\t" + id + "\t" + when + "\n";
  }

  lemma RenderNone(m: map<Key, string>)
    ensures RenderRevocations([], m) == []
  {
  }

  method ParseRevocation(line: string, n: nat) returns (r: Result<(Key, string), StoreError>)
    ensures r == ReadRevocation(line, n)
  {
    hide FieldEscape.Unescape, UpTo, After;
    var rest := After(line, '\t');
    if rest.None? || After(rest.value, '\t').None? {
      return Err(MalformedRevocation(n));
    }
    var kind := FieldEscape.UnescapeField(UpTo(line, '\t'));
    if kind.Err? {
      return Err(BadField(kind.error));
    }
    var id := FieldEscape.UnescapeField(UpTo(rest.value, '\t'));
    if id.Err? {
      return Err(BadField(id.error));
    }
    var at := FieldEscape.UnescapeField(After(rest.value, '\t').value);
    if at.Err? {
      return Err(BadField(at.error));
    }
    r := Ok(((kind.value, id.value), at.value));
  }

  lemma {:induction false} RenderAppend(keys: seq<Key>, k: Key, m: map<Key, string>)
    requires k in m && forall i :: 0 <= i < |keys| ==> keys[i] in m
    ensures RenderRevocations(keys + [k], m) == RenderRevocations(keys, m) + (RevocationLine(k, m[k]) + "\n")
  {
    hide RevocationLine;
    if keys == [] {
      assert keys + [k] == [k] && [k][1..] == [];
    } else {
      RenderAppend(keys[1..], k, m);
      assert (keys + [k])[1..] == keys[1..] + [k];
      Regroup(RevocationLine(keys[0], m[keys[0]]) + "\n", RenderRevocations(keys[1..], m),
              RevocationLine(k, m[k]) + "\n");
    }
  }
}
