/** Canonical JSON of values that are not normalized yet: the text is that of the normalized value. */
module CanonicalNormal {
  import opened Common
  import opened Canonical
  import opened CanonicalReader
  import CanonicalLaws

  /** The same printing without normalization. */
  function Verbatim(env: Env): Env { Env(s => s, env.float) }

  /** The value with every string and every key normalized. */
  function Normal(env: Env, v: Json): Json
    decreases v, 1
  {
    match v
    case String(s) => String(env.nfc(s))
    case Array(xs) => Array(NormalItems(env, xs))
    case Object(ms) => Object(NormalMembers(env, ms))
    case _ => v
  }

  function NormalItems(env: Env, xs: seq<Json>): (r: seq<Json>)
    ensures |r| == |xs|
    decreases xs, 0
  {
    if xs == [] then [] else [Normal(env, xs[0])] + NormalItems(env, xs[1..])
  }

  function NormalMember(env: Env, m: Member): Member
    decreases m, 0
  {
    Member(env.nfc(m.key), Normal(env, m.val))
  }

  function NormalMembers(env: Env, ms: seq<Member>): (r: seq<Member>)
    ensures |r| == |ms|
    decreases ms, 0
  {
    if ms == [] then [] else [NormalMember(env, ms[0])] + NormalMembers(env, ms[1..])
  }

  // ---------- Printing a value prints the normalized value ----------

  /** Normalizing first and then printing as is gives the same text, or the same fault, for every value. */
  lemma {:induction false} CanonNormal(env: Env, v: Json)
    ensures Canon(env, v) == Canon(Verbatim(env), Normal(env, v))
    decreases v, 1
  {
    match v
    case Array(xs) => ItemsNormal(env, xs);
    case Object(ms) => MembersNormal(env, ms);
    case _ =>
  }

  lemma {:induction false} ItemsNormal(env: Env, xs: seq<Json>)
    ensures CanonItems(env, xs) == CanonItems(Verbatim(env), NormalItems(env, xs))
    decreases xs, 0
  {
    hide Canon, Normal;
    if xs != [] {
      CanonNormal(env, xs[0]);
      ItemsNormal(env, xs[1..]);
      assert NormalItems(env, xs)[1..] == NormalItems(env, xs[1..]);
    }
  }

  lemma {:induction false} MemberNormal(env: Env, m: Member)
    ensures CanonMember(env, m) == CanonMember(Verbatim(env), NormalMember(env, m))
    decreases m, 0
  {
    hide Canon, Normal;
    CanonNormal(env, m.val);
  }

  lemma {:induction false} MembersNormal(env: Env, ms: seq<Member>)
    ensures CanonMembers(env, ms) == CanonMembers(Verbatim(env), NormalMembers(env, ms))
    decreases ms, 0
  {
    hide CanonMember, NormalMember;
    if ms != [] {
      MemberNormal(env, ms[0]);
      MembersNormal(env, ms[1..]);
      assert NormalMembers(env, ms)[1..] == NormalMembers(env, ms[1..]);
    }
  }

  // ---------- Values whose text tells them apart ----------

  /** Float-free, and without keys that become equal when normalized, at every level. */
  predicate Tellable(env: Env, v: Json) {
    match v
    case Float(_) => false
    case Array(xs) => forall x :: x in xs ==> Tellable(env, x)
    case Object(ms) => NormalKeysDiffer(env, ms) && forall m :: m in ms ==> Tellable(env, m.val)
    case _ => true
  }

  predicate NormalKeysDiffer(env: Env, ms: seq<Member>) {
    forall i, j :: 0 <= i < j < |ms| ==> env.nfc(ms[i].key) != env.nfc(ms[j].key)
  }

  lemma {:induction false} NormalItemAt(env: Env, xs: seq<Json>, i: nat)
    requires i < |xs|
    ensures NormalItems(env, xs)[i] == Normal(env, xs[i])
  {
    hide Normal;
    if i > 0 {
      NormalItemAt(env, xs[1..], i - 1);
    }
  }

  lemma {:induction false} NormalMemberAt(env: Env, ms: seq<Member>, i: nat)
    requires i < |ms|
    ensures NormalMembers(env, ms)[i] == Member(env.nfc(ms[i].key), Normal(env, ms[i].val))
  {
    hide Normal;
    if i > 0 {
      NormalMemberAt(env, ms[1..], i - 1);
    }
  }

  lemma {:induction false} NormalIsPlain(env: Env, v: Json)
    requires Tellable(env, v)
    ensures Plain(Verbatim(env), Normal(env, v))
    decreases v
  {
    match v
    case Array(xs) =>
      var ys := NormalItems(env, xs);
      forall y | y in ys ensures Plain(Verbatim(env), y) {
        var i :| 0 <= i < |ys| && ys[i] == y;
        NormalItemAt(env, xs, i);
        NormalIsPlain(env, xs[i]);
      }
    case Object(ms) =>
      var ns := NormalMembers(env, ms);
      forall i | 0 <= i < |ns| ensures ns[i].key == env.nfc(ms[i].key) && Plain(Verbatim(env), ns[i].val) {
        NormalMemberAt(env, ms, i);
        NormalIsPlain(env, ms[i].val);
      }
    case _ =>
  }

  /** The canonical text of any such value is JSON for its normalized form, up to member order. */
  lemma NormalDenotes(env: Env, v: Json)
    requires Tellable(env, v)
    ensures Canon(env, v).Ok?
    ensures ReadText(Canon(env, v).value) == Some(Arranged(Normal(env, v)))
    ensures Same(Normal(env, v), Arranged(Normal(env, v)))
  {
    hide Canon, Normal, Plain, Tellable, ReadText, Same, Arranged;
    CanonNormal(env, v);
    NormalIsPlain(env, v);
    CanonicalDenotes(Verbatim(env), Normal(env, v));
  }

  /** Two such values have one canonical text if and only if their normalized forms are equal up to member order. */
  lemma NormalIdentity(env: Env, a: Json, b: Json)
    requires Tellable(env, a) && Tellable(env, b)
    ensures Canon(env, a) == Canon(env, b) <==> Same(Normal(env, a), Normal(env, b))
  {
    hide Canon, Normal, Plain, Tellable, Same;
    CanonNormal(env, a);
    CanonNormal(env, b);
    NormalIsPlain(env, a);
    NormalIsPlain(env, b);
    CanonicalLaws.CanonicalIdentity(Verbatim(env), Normal(env, a), Normal(env, b));
  }

  // ---------- When there is no canonical text ----------

  /** Every float in the value has a text. */
  predicate Finite(env: Env, v: Json) {
    match v
    case Float(bits) => env.float(bits).Some?
    case Array(xs) => forall x :: x in xs ==> Finite(env, x)
    case Object(ms) => forall m :: m in ms ==> Finite(env, m.val)
    case _ => true
  }

  /** A value has a canonical text if and only if no float in it is infinite or not a number. */
  lemma {:induction false} CanonFails(env: Env, v: Json)
    ensures Canon(env, v).Ok? <==> Finite(env, v)
    decreases v, 1
  {
    match v
    case Array(xs) => ItemsFail(env, xs);
    case Object(ms) => MembersFail(env, ms);
    case _ =>
  }

  lemma {:induction false} ItemsFail(env: Env, xs: seq<Json>)
    ensures CanonItems(env, xs).Ok? <==> forall x :: x in xs ==> Finite(env, x)
    decreases xs, 0
  {
    hide Canon, Finite;
    if xs != [] {
      CanonFails(env, xs[0]);
      ItemsFail(env, xs[1..]);
      assert xs == [xs[0]] + xs[1..];
    }
  }

  lemma {:induction false} MembersFail(env: Env, ms: seq<Member>)
    ensures CanonMembers(env, ms).Ok? <==> forall m :: m in ms ==> Finite(env, m.val)
    decreases ms, 0
  {
    hide Canon, Finite;
    if ms != [] {
      MemberFails(env, ms[0]);
      MembersFail(env, ms[1..]);
      assert ms == [ms[0]] + ms[1..];
    }
  }

  lemma {:induction false} MemberFails(env: Env, m: Member)
    ensures CanonMember(env, m).Ok? <==> Finite(env, m.val)
    decreases m, 0
  {
    hide Canon, Finite;
    CanonFails(env, m.val);
  }
}
