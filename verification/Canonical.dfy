/** Canonical JSON (`canonical.rs`): the text every signature and event hash is computed over. */
module Canonical {
  import opened Common
  import opened Decimals

  datatype Json =
    | Null
    | Bool(b: bool)
    | Number(n: int)         // within i64 or u64
    | Float(bits: u64)
    | String(s: string)
    | Array(xs: seq<Json>)
    | Object(members: seq<Member>)

  datatype Member = Member(key: string, val: Json)

  datatype Error = NonFinite

  /** Foreign text functions: Unicode NFC, and the text of a float, absent when it is not finite. */
  datatype Env = Env(nfc: string -> string, float: u64 -> Option<string>)

  // ---------- Strings and numbers ----------

  function Escape(c: char): string {
    if c == '"' then "\\\""
    else if c == '\\' then "\\\\"
    else if c == '\n' then "\\n"
    else if c == '\r' then "\\r"
    else if c == '\t' then "\\t"
    else if c as int == 8 then "\\b"
    else if c as int == 12 then "\\f"
    else if c as int < 0x20 then ['\\', 'u', '0', '0', HexDigit(c as int / 16), HexDigit(c as int % 16)]
    else [c]
  }

  function EscapeAll(s: string): string {
    if s == [] then [] else Escape(s[0]) + EscapeAll(s[1..])
  }

  function Quote(s: string): string { "\"" + EscapeAll(s) + "\"" }

  function PrintInt(n: int): string { if n < 0 then "-" + Decimal(-n) else Decimal(n) }

  // ---------- Objects: members are printed in key order ----------

  /** An object member whose value has been printed. */
  datatype Pair = Pair(key: string, text: string)

  /** One step of a stable sort by key. */
  function Insert(p: Pair, sorted: seq<Pair>): seq<Pair> {
    if sorted == [] || !Less(sorted[0].key, p.key) then [p] + sorted
    else [sorted[0]] + Insert(p, sorted[1..])
  }

  function Sort(ps: seq<Pair>): seq<Pair> { if ps == [] then [] else Insert(ps[0], Sort(ps[1..])) }

  function Join(ps: seq<Pair>): string {
    if ps == [] then []
    else Quote(ps[0].key) + ":" + ps[0].text + (if |ps| == 1 then [] else "," + Join(ps[1..]))
  }

  function JoinTexts(ts: seq<string>): string {
    if ts == [] then [] else ts[0] + (if |ts| == 1 then [] else "," + JoinTexts(ts[1..]))
  }

  /** `canonicalize`. */
  function Canon(env: Env, v: Json): Result<string, Error>
    decreases v, 1
  {
    match v
    case Null => Ok("null")
    case Bool(b) => Ok(if b then "true" else "false")
    case Number(n) => Ok(PrintInt(n))
    case Float(bits) => (match env.float(bits) case Some(text) => Ok(text) case None => Err(NonFinite))
    case String(s) => Ok(Quote(env.nfc(s)))
    case Array(xs) =>
      var ts :- CanonItems(env, xs);
      Ok("[" + JoinTexts(ts) + "]")
    case Object(ms) =>
      var ps :- CanonMembers(env, ms);
      Ok("{" + Join(Sort(ps)) + "}")
  }

  function CanonItems(env: Env, xs: seq<Json>): (r: Result<seq<string>, Error>)
    ensures r.Ok? ==> |r.value| == |xs|
    decreases xs, 0
  {
    if xs == [] then Ok([])
    else
      var t :- Canon(env, xs[0]);
      var ts :- CanonItems(env, xs[1..]);
      Ok([t] + ts)
  }

  function CanonMember(env: Env, m: Member): Result<Pair, Error>
    decreases m, 0
  {
    var t :- Canon(env, m.val);
    Ok(Pair(env.nfc(m.key), t))
  }

  function CanonMembers(env: Env, ms: seq<Member>): (r: Result<seq<Pair>, Error>)
    ensures r.Ok? ==> |r.value| == |ms|
    decreases ms, 0
  {
    if ms == [] then Ok([])
    else
      var p :- CanonMember(env, ms[0]);
      var ps :- CanonMembers(env, ms[1..]);
      Ok([p] + ps)
  }

  // ---------- Plain values ----------

  /** Float-free, NFC-normal, and without repeated keys, at every level. */
  predicate Plain(env: Env, v: Json) {
    match v
    case Float(_) => false
    case String(s) => env.nfc(s) == s
    case Array(xs) => forall x :: x in xs ==> Plain(env, x)
    case Object(ms) => DistinctKeys(ms) && forall m :: m in ms ==> env.nfc(m.key) == m.key && Plain(env, m.val)
    case _ => true
  }

  predicate DistinctKeys(ms: seq<Member>) { forall i, j :: 0 <= i < j < |ms| ==> ms[i].key != ms[j].key }

  /** Equal up to the order of object members, at every level. */
  predicate Same(a: Json, b: Json)
    decreases a, 0
  {
    match (a, b)
    case (Array(xs), Array(ys)) => |xs| == |ys| && forall i :: 0 <= i < |xs| ==> Same(xs[i], ys[i])
    case (Object(ms), Object(ns)) => |ms| == |ns| && forall i :: 0 <= i < |ms| ==> HasPartner(ms[i], ns)
    case (Array(_), _) => false
    case (Object(_), _) => false
    case _ => a == b
  }

  /** Some member has the same key and the same value. */
  predicate HasPartner(m: Member, ns: seq<Member>)
    decreases m, 0
  {
    exists j :: 0 <= j < |ns| && m.key == ns[j].key && Same(m.val, ns[j].val)
  }

  lemma {:induction false} PlainPrints(env: Env, v: Json)
    requires Plain(env, v)
    ensures Canon(env, v).Ok?
    decreases v, 1
  {
    match v
    case Array(xs) => PlainItemsPrint(env, xs);
    case Object(ms) => PlainMembersPrint(env, ms);
    case _ =>
  }

  lemma {:induction false} PlainItemsPrint(env: Env, xs: seq<Json>)
    requires forall x :: x in xs ==> Plain(env, x)
    ensures CanonItems(env, xs).Ok?
    ensures forall i :: 0 <= i < |xs| ==> Canon(env, xs[i]) == Ok(CanonItems(env, xs).value[i])
    decreases xs, 0
  {
    if xs != [] {
      PlainPrints(env, xs[0]);
      PlainItemsPrint(env, xs[1..]);
    }
  }

  lemma {:induction false} PlainMembersPrint(env: Env, ms: seq<Member>)
    requires forall m :: m in ms ==> env.nfc(m.key) == m.key && Plain(env, m.val)
    ensures CanonMembers(env, ms).Ok?
    ensures forall i :: 0 <= i < |ms| ==>
      Canon(env, ms[i].val).Ok? && CanonMembers(env, ms).value[i] == Pair(ms[i].key, Canon(env, ms[i].val).value)
    decreases ms, 0
  {
    if ms != [] {
      PlainMemberPrints(env, ms[0]);
      PlainMembersPrint(env, ms[1..]);
    }
  }

  lemma {:induction false} PlainMemberPrints(env: Env, m: Member)
    requires env.nfc(m.key) == m.key && Plain(env, m.val)
    ensures Canon(env, m.val).Ok? && CanonMember(env, m) == Ok(Pair(m.key, Canon(env, m.val).value))
    decreases m, 0
  {
    PlainPrints(env, m.val);
  }
}
