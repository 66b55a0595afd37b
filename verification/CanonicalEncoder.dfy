/** The encoder as the program runs it: appending to one string, with members sorted in place by key. */
module CanonicalEncoder {
  import opened Common
  import opened Canonical

  /** `out: &mut String`. */
  class Sink {
    var text: string

    constructor ()
      ensures text == ""
    {
      text := "";
    }

    method Push(s: string)
      modifies this
      ensures text == old(text) + s
    {
      text := text + s;
    }
  }

  /** `write_json_string`. */
  method WriteJsonString(s: string, out: Sink)
    modifies out
    ensures out.text == old(out.text) + Quote(s)
  {
    ghost var start := out.text;
    out.Push("\"");
    var i := 0;
    assert s[0..] == s;
    while i < |s|
      invariant 0 <= i <= |s|
      invariant out.text + EscapeAll(s[i..]) == start + "\"" + EscapeAll(s)
    {
      assert s[i..][0] == s[i] && s[i..][1..] == s[i + 1..];
      EscapeAllStep(out.text, s[i..]);
      out.Push(Escape(s[i]));
      i := i + 1;
    }
    assert s[i..] == [] && out.text + [] == out.text;
    out.Push("\"");
  }

  lemma EscapeAllStep(text: string, s: string)
    requires s != []
    ensures text + EscapeAll(s) == text + Escape(s[0]) + EscapeAll(s[1..])
  {
  }

  // ---------- Sorting members is sorting their printed pairs ----------

  function InsertMember(m: Member, sorted: seq<Member>): seq<Member> {
    if sorted == [] || !Less(sorted[0].key, m.key) then [m] + sorted
    else [sorted[0]] + InsertMember(m, sorted[1..])
  }

  /** `entries.sort_by`, a stable sort by key. */
  function SortMembers(ms: seq<Member>): seq<Member> {
    if ms == [] then [] else InsertMember(ms[0], SortMembers(ms[1..]))
  }

  /** `map.iter().map(|(k, v)| (nfc(k), v))`. */
  function NormalizeKeys(env: Env, ms: seq<Member>): seq<Member> {
    seq(|ms|, i requires 0 <= i < |ms| => Member(env.nfc(ms[i].key), ms[i].val))
  }

  predicate Printable(env: Env, ms: seq<Member>) { forall i :: 0 <= i < |ms| ==> Canon(env, ms[i].val).Ok? }

  function Printed(env: Env, ms: seq<Member>): seq<Pair>
    requires Printable(env, ms)
  {
    seq(|ms|, i requires 0 <= i < |ms| => Pair(ms[i].key, Canon(env, ms[i].val).value))
  }

  lemma {:induction false} InsertCommutes(env: Env, m: Member, ms: seq<Member>)
    requires Printable(env, [m]) && Printable(env, ms)
    ensures Printable(env, InsertMember(m, ms))
    ensures Printed(env, InsertMember(m, ms)) == Insert(Printed(env, [m])[0], Printed(env, ms))
  {
    hide Canon;
    if ms != [] && Less(ms[0].key, m.key) {
      InsertCommutes(env, m, ms[1..]);
      assert Printed(env, ms)[1..] == Printed(env, ms[1..]);
    }
  }

  lemma {:induction false} SortCommutes(env: Env, ms: seq<Member>)
    requires Printable(env, ms)
    ensures Printable(env, SortMembers(ms))
    ensures Printed(env, SortMembers(ms)) == Sort(Printed(env, ms))
  {
    hide Canon;
    if ms != [] {
      SortCommutes(env, ms[1..]);
      assert Printable(env, [ms[0]]);
      InsertCommutes(env, ms[0], SortMembers(ms[1..]));
      assert Printed(env, ms)[1..] == Printed(env, ms[1..]);
    }
  }

  lemma {:induction false} SortKeepsMembers(ms: seq<Member>)
    ensures forall m :: m in SortMembers(ms) <==> m in ms
  {
    if ms != [] {
      SortKeepsMembers(ms[1..]);
      InsertKeepsMembers(ms[0], SortMembers(ms[1..]));
      assert ms == [ms[0]] + ms[1..];
    }
  }

  lemma {:induction false} InsertKeepsMembers(m: Member, ms: seq<Member>)
    ensures forall x :: x in InsertMember(m, ms) <==> x == m || x in ms
  {
    hide Less;
    if ms != [] && Less(ms[0].key, m.key) {
      InsertKeepsMembers(m, ms[1..]);
      assert ms == [ms[0]] + ms[1..];
    }
  }

  lemma {:induction false} CanonMembersIsPrinted(env: Env, ms: seq<Member>)
    ensures CanonMembers(env, ms).Ok? <==> Printable(env, ms)
    ensures Printable(env, ms) ==>
      Printable(env, NormalizeKeys(env, ms)) && CanonMembers(env, ms).value == Printed(env, NormalizeKeys(env, ms))
  {
    if ms != [] {
      CanonMembersIsPrinted(env, ms[1..]);
      hide Canon;
      var norm := NormalizeKeys(env, ms);
      assert norm[1..] == NormalizeKeys(env, ms[1..]);
      assert forall i :: 0 <= i < |ms| ==> ms[i] == if i == 0 then ms[0] else ms[1..][i - 1];
      assert Printable(env, ms) <==> Canon(env, ms[0].val).Ok? && Printable(env, ms[1..]);
      if Printable(env, ms) {
        assert Printed(env, norm) == [Pair(env.nfc(ms[0].key), Canon(env, ms[0].val).value)] + Printed(env, norm[1..]);
      }
    }
  }

  /** The members in the order they are written. */
  function Ordered(env: Env, ms: seq<Member>): seq<Member> { SortMembers(NormalizeKeys(env, ms)) }

  lemma OrderedPrints(env: Env, ms: seq<Member>)
    ensures CanonMembers(env, ms).Ok? <==> Printable(env, Ordered(env, ms))
    ensures CanonMembers(env, ms).Ok? ==> Printed(env, Ordered(env, ms)) == Sort(CanonMembers(env, ms).value)
    ensures forall i :: 0 <= i < |Ordered(env, ms)| ==>
      exists j :: 0 <= j < |ms| && Ordered(env, ms)[i].val == ms[j].val
  {
    hide Canon;
    CanonMembersIsPrinted(env, ms);
    var norm, sorted := NormalizeKeys(env, ms), Ordered(env, ms);
    SortKeepsMembers(norm);
    if Printable(env, norm) {
      SortCommutes(env, norm);
    }
    forall i | 0 <= i < |sorted| ensures exists j :: 0 <= j < |ms| && sorted[i].val == ms[j].val {
      assert sorted[i] in norm;
      var j :| 0 <= j < |norm| && norm[j] == sorted[i];
      assert ms[j].val == sorted[i].val;
    }
    if Printable(env, sorted) {
      forall j | 0 <= j < |ms| ensures Canon(env, ms[j].val).Ok? {
        assert norm[j] in sorted;
        var i :| 0 <= i < |sorted| && sorted[i] == norm[j];
      }
    }
  }

  // ---------- The recursive encoder ----------

  /** What a step that writes `r` must have done to the text. */
  predicate Wrote(before: string, after: string, r: Result<string, Error>, fault: Option<Error>) {
    match r
    case Ok(t) => fault.None? && after == before + t
    case Err(e) => fault == Some(e)
  }

  method EncodeInto(env: Env, v: Json, out: Sink) returns (fault: Option<Error>)
    modifies out
    ensures Wrote(old(out.text), out.text, Canon(env, v), fault)
    decreases v, 3
  {
    fault := None;
    match v
    case Null => out.Push("null");
    case Bool(b) => out.Push(if b then "true" else "false");
    case Number(n) => out.Push(PrintInt(n));
    case Float(bits) =>
      match env.float(bits) {
        case None => fault := Some(NonFinite);
        case Some(text) => out.Push(text);
      }
    case String(s) => WriteJsonString(env.nfc(s), out);
    case Array(xs) => fault := EncodeArrayInto(env, v, out);
    case Object(ms) => fault := EncodeObjectInto(env, v, out);
  }

  lemma {:induction false} CanonItemsAll(env: Env, xs: seq<Json>)
    ensures CanonItems(env, xs).Ok? <==> forall i :: 0 <= i < |xs| ==> Canon(env, xs[i]).Ok?
    ensures CanonItems(env, xs).Ok? ==> forall i :: 0 <= i < |xs| ==>
      CanonItems(env, xs).value[i] == Canon(env, xs[i]).value
  {
    if xs != [] {
      CanonItemsAll(env, xs[1..]);
      hide Canon;
      assert forall i :: 0 <= i < |xs| ==> xs[i] == if i == 0 then xs[0] else xs[1..][i - 1];
      assert forall i :: 0 <= i < |xs[1..]| ==> xs[1..][i] == xs[i + 1];
    }
  }

  /** The text so far of a list whose first `n` items are written, each behind its comma. */
  function Joined(ts: seq<string>, n: nat): string
    requires n <= |ts|
  {
    if n == 0 then [] else Joined(ts, n - 1) + (if n == 1 then [] else ",") + ts[n - 1]
  }

  lemma {:induction false} JoinedShift(ts: seq<string>, n: nat)
    requires 1 <= n <= |ts|
    ensures Joined(ts, n) == ts[0] + if n == 1 then [] else "," + Joined(ts[1..], n - 1)
  {
    if n > 1 {
      JoinedShift(ts, n - 1);
      assert ts[1..][n - 2] == ts[n - 1];
      if n == 2 {
        assert Joined(ts[1..], 1) == ts[1];
      }
    } else {
      assert Joined(ts, 0) == [];
    }
  }

  lemma {:induction false} JoinedIsJoinTexts(ts: seq<string>)
    ensures Joined(ts, |ts|) == JoinTexts(ts)
  {
    if ts != [] {
      JoinedIsJoinTexts(ts[1..]);
      JoinedShift(ts, |ts|);
    }
  }

  lemma JoinedStep(head: string, before: string, after: string, ts: seq<string>, i: nat)
    requires i < |ts| && before == head + Joined(ts, i)
    requires after == before + (if i == 0 then [] else ",") + ts[i]
    ensures after == head + Joined(ts, i + 1)
  {
    assert Joined(ts, i + 1) == Joined(ts, i) + (if i == 0 then [] else ",") + ts[i];
  }

  lemma PairWritten(before: string, key: string, value: string, text: string)
    requires text == key + ":" + value
    ensures before + key + ":" + value == before + text
  {
  }

  lemma ItemAt(env: Env, xs: seq<Json>, i: nat)
    requires i < |xs|
    ensures Canon(env, xs[i]).Err? ==> CanonItems(env, xs).Err?
    ensures CanonItems(env, xs).Ok? ==> Canon(env, xs[i]) == Ok(CanonItems(env, xs).value[i])
  {
    CanonItemsAll(env, xs);
  }

  lemma WroteIs(before: string, after: string, r: Result<string, Error>, fault: Option<Error>)
    requires Wrote(before, after, r, fault)
    ensures fault.None? <==> r.Ok?
    ensures r.Ok? ==> after == before + r.value
  {
  }

  method EncodeArrayInto(env: Env, v: Json, out: Sink) returns (fault: Option<Error>)
    requires v.Array?
    modifies out
    ensures Wrote(old(out.text), out.text, Canon(env, v), fault)
    decreases v, 2
  {
    hide *;
    ghost var start, items := out.text, CanonItems(env, v.xs);
    CanonArray(env, v.xs);
    ghost var texts := if items.Ok? then items.value else [];
    out.Push("[");
    JoinedNone(start + "[", texts);
    var i := 0;
    while i < |v.xs|
      invariant 0 <= i <= |v.xs|
      invariant items.Ok? ==> out.text == start + "[" + Joined(texts, i)
      invariant forall k :: 0 <= k < i ==> Canon(env, v.xs[k]).Ok?
    {
      ghost var before := out.text;
      if i > 0 {
        out.Push(",");
      }
      ghost var middle := out.text;
      fault := EncodeInto(env, v.xs[i], out);
      WroteIs(middle, out.text, Canon(env, v.xs[i]), fault);
      ItemAt(env, v.xs, i);
      if fault.Some? {
        WroteFault(start, out.text, Canon(env, v));
        return Some(NonFinite);
      }
      if items.Ok? {
        JoinedStep(start + "[", before, out.text, texts, i);
      }
      i := i + 1;
    }
    CanonItemsAll(env, v.xs);
    JoinedIsJoinTexts(texts);
    out.Push("]");
    fault := None;
    WroteText(start, out.text, "[", Joined(texts, i), "]", Canon(env, v));
  }

  lemma OneError<T>(r: Result<T, Error>)
    ensures r.Err? ==> r.error == NonFinite
  {
    if r.Err? {
      match r.error {
        case NonFinite =>
      }
    }
  }

  lemma CanonArray(env: Env, xs: seq<Json>)
    ensures match CanonItems(env, xs)
            case Ok(ts) => Canon(env, Array(xs)) == Ok("[" + JoinTexts(ts) + "]")
            case Err(e) => e == NonFinite && Canon(env, Array(xs)) == Err(e)
  {
    OneError(CanonItems(env, xs));
  }

  lemma CanonObject(env: Env, ms: seq<Member>)
    ensures match CanonMembers(env, ms)
            case Ok(ps) => Canon(env, Object(ms)) == Ok("{" + Join(Sort(ps)) + "}")
            case Err(e) => e == NonFinite && Canon(env, Object(ms)) == Err(e)
  {
    OneError(CanonMembers(env, ms));
  }

  /** A member's text: key, colon, value. */
  function PairTexts(ps: seq<Pair>): seq<string> {
    seq(|ps|, i requires 0 <= i < |ps| => Quote(ps[i].key) + ":" + ps[i].text)
  }

  lemma {:induction false} JoinIsJoinTexts(ps: seq<Pair>)
    ensures Join(ps) == JoinTexts(PairTexts(ps))
  {
    hide Quote;
    if ps != [] {
      JoinIsJoinTexts(ps[1..]);
      assert PairTexts(ps)[1..] == PairTexts(ps[1..]);
    }
  }

  /** The texts of the members as written. */
  function Texts(env: Env, entries: seq<Member>): (r: seq<string>)
    requires Printable(env, entries)
    ensures |r| == |entries|
  {
    PairTexts(Printed(env, entries))
  }

  /** An object's text in terms of its members in written order. */
  lemma ObjectText(env: Env, ms: seq<Member>)
    ensures DrawnFrom(Ordered(env, ms), Object(ms))
    ensures var entries := Ordered(env, ms);
      if Printable(env, entries)
      then |Texts(env, entries)| == |entries| &&
        Canon(env, Object(ms)) == Ok("{" + Joined(Texts(env, entries), |entries|) + "}")
      else Canon(env, Object(ms)) == Err(NonFinite)
  {
    OrderedPrints(env, ms);
    CanonObject(env, ms);
    hide Canon, Ordered, CanonMembers;
    var entries := Ordered(env, ms);
    if Printable(env, entries) {
      JoinIsJoinTexts(Printed(env, entries));
      JoinedIsJoinTexts(Texts(env, entries));
    }
  }

  method EncodeMemberInto(env: Env, ghost owner: Json, e: Member, first: bool, out: Sink) returns (fault: Option<Error>)
    requires PartOf(e.val, owner)
    modifies out
    ensures Canon(env, e.val).Ok? <==> fault.None?
    ensures fault.None? ==>
      out.text == old(out.text) + (if first then [] else ",") + (Quote(e.key) + ":" + Canon(env, e.val).value)
    decreases owner, 0
  {
    hide Canon, Quote;
    ghost var start := out.text + (if first then [] else ",");
    if !first {
      out.Push(",");
    }
    WriteJsonString(e.key, out);
    out.Push(":");
    ghost var j :| 0 <= j < |owner.members| && e.val == owner.members[j].val;
    assert owner.members[j] in owner.members;
    fault := EncodeInto(env, e.val, out);
    if fault.None? {
      PairWritten(start, Quote(e.key), Canon(env, e.val).value, Quote(e.key) + ":" + Canon(env, e.val).value);
    }
  }

  /** A member value of the object `owner`. */
  predicate PartOf(val: Json, owner: Json) {
    owner.Object? && exists j :: 0 <= j < |owner.members| && val == owner.members[j].val
  }

  predicate DrawnFrom(entries: seq<Member>, owner: Json) {
    forall i :: 0 <= i < |entries| ==> PartOf(entries[i].val, owner)
  }

  method EncodeMembersInto(env: Env, ghost owner: Json, entries: seq<Member>, out: Sink) returns (fault: Option<Error>)
    requires DrawnFrom(entries, owner)
    modifies out
    ensures Printable(env, entries) <==> fault.None?
    ensures Printable(env, entries) ==> out.text == old(out.text) + Joined(Texts(env, entries), |entries|)
    decreases owner, 1
  {
    hide *;
    ghost var start, ok := out.text, Printable(env, entries);
    ghost var texts := if ok then Texts(env, entries) else [];
    JoinedNone(start, texts);
    var i := 0;
    while i < |entries|
      invariant 0 <= i <= |entries|
      invariant ok ==> out.text == start + Joined(texts, i)
      invariant forall k :: 0 <= k < i ==> Canon(env, entries[k].val).Ok?
    {
      ghost var before := out.text;
      assert PartOf(entries[i].val, owner) by {
        DrawnAt(entries, owner, i);
      }
      fault := EncodeMemberInto(env, owner, entries[i], i == 0, out);
      TextAt(env, entries, i);
      if fault.Some? {
        return;
      }
      if ok {
        JoinedStep(start, before, out.text, texts, i);
      }
      i := i + 1;
    }
    AllPrintable(env, entries);
    fault := None;
  }

  lemma DrawnAt(entries: seq<Member>, owner: Json, i: nat)
    requires DrawnFrom(entries, owner) && i < |entries|
    ensures PartOf(entries[i].val, owner)
  {
  }

  lemma TextAt(env: Env, entries: seq<Member>, i: nat)
    requires i < |entries|
    ensures Canon(env, entries[i].val).Err? ==> !Printable(env, entries)
    ensures Printable(env, entries) ==>
        && |Texts(env, entries)| == |entries| && Canon(env, entries[i].val).Ok?
        && Texts(env, entries)[i] == Quote(entries[i].key) + ":" + Canon(env, entries[i].val).value
  {
    hide Canon, Quote;
  }

  lemma AllPrintable(env: Env, entries: seq<Member>)
    requires forall k :: 0 <= k < |entries| ==> Canon(env, entries[k].val).Ok?
    ensures Printable(env, entries)
  {
    hide Canon;
  }

  method EncodeObjectInto(env: Env, v: Json, out: Sink) returns (fault: Option<Error>)
    requires v.Object?
    modifies out
    ensures Wrote(old(out.text), out.text, Canon(env, v), fault)
    decreases v, 2
  {
    ghost var start := out.text;
    var entries := Ordered(env, v.members);
    ObjectText(env, v.members);
    hide *;
    out.Push("{");
    fault := EncodeMembersInto(env, v, entries, out);
    if fault.Some? {
      WroteFault(start, out.text, Canon(env, v));
      return Some(NonFinite);
    }
    out.Push("}");
    WroteText(start, out.text, "{", Joined(Texts(env, entries), |entries|), "}", Canon(env, v));
  }

  lemma WroteFault(before: string, after: string, r: Result<string, Error>)
    requires r == Err(NonFinite)
    ensures Wrote(before, after, r, Some(NonFinite))
  {
  }

  lemma WroteText(before: string, after: string, open: string, inner: string, close: string, r: Result<string, Error>)
    requires r == Ok(open + inner + close) && after == before + open + inner + close
    ensures Wrote(before, after, r, None)
  {
  }

  lemma JoinedNone(head: string, ts: seq<string>)
    ensures head + Joined(ts, 0) == head
  {
  }

  /** `canonicalize`. */
  method Canonicalize(env: Env, v: Json) returns (r: Result<string, Error>)
    ensures r == Canon(env, v)
  {
    var out := new Sink();
    var fault := EncodeInto(env, v, out);
    if fault.Some? {
      return Err(fault.value);
    }
    assert "" + Canon(env, v).value == Canon(env, v).value;
    r := Ok(out.text);
  }
}
