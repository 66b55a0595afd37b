/**
 * A reader for JSON texts (RFC 8259) without blanks, fractions or surrogate escapes, and what it makes of
 * canonical text.
 */
module CanonicalReader {
  import opened Common
  import opened Decimals
  import opened Canonical
  import opened CanonicalLaws
  import CanonicalEncoder

  datatype Read<T> = Read(value: T, rest: string)

  // ---------- Strings: section 7 of RFC 8259 ----------

  function ReadUnicode(s: string): (r: Option<Read<char>>)
    ensures r.Some? ==> |r.value.rest| < |s|
  {
    if |s| < 4 || HexValue(s[0] as int).None? || HexValue(s[1] as int).None? || HexValue(s[2] as int).None? ||
      HexValue(s[3] as int).None? then None
    else
      var code := 4096 * HexValue(s[0] as int).value + 256 * HexValue(s[1] as int).value +
        16 * HexValue(s[2] as int).value + HexValue(s[3] as int).value;
      if code < 0xD800 then Some(Read(code as char, s[4..])) else None
  }

  /** The character a backslash and what follows it stand for. */
  function ReadEscape(s: string): (r: Option<Read<char>>)
    ensures r.Some? ==> |r.value.rest| < |s|
  {
    if s == [] then None
    else if s[0] == '"' || s[0] == '\\' || s[0] == '/' then Some(Read(s[0], s[1..]))
    else if s[0] == 'b' then Some(Read(8 as char, s[1..]))
    else if s[0] == 'f' then Some(Read(12 as char, s[1..]))
    else if s[0] == 'n' then Some(Read('\n', s[1..]))
    else if s[0] == 'r' then Some(Read('\r', s[1..]))
    else if s[0] == 't' then Some(Read('\t', s[1..]))
    else if s[0] == 'u' then ReadUnicode(s[1..])
    else None
  }

  function ReadChar(s: string): (r: Option<Read<char>>)
    ensures r.Some? ==> |r.value.rest| < |s|
  {
    if s == [] || s[0] == '"' || s[0] as int < 0x20 then None
    else if s[0] == '\\' then ReadEscape(s[1..])
    else Some(Read(s[0], s[1..]))
  }

  /** The characters up to the closing quote. */
  function ReadChars(s: string): (r: Option<Read<string>>)
    ensures r.Some? ==> |r.value.rest| < |s|
    decreases |s|
  {
    if s != [] && s[0] == '"' then Some(Read([], s[1..]))
    else
      match ReadChar(s)
      case None => None
      case Some(c) =>
        match ReadChars(c.rest)
        case None => None
        case Some(more) => Some(Read([c.value] + more.value, more.rest))
  }

  lemma HexReads(d: nat)
    requires d < 16
    ensures HexValue(HexDigit(d) as int) == Some(d) && HexValue('0' as int) == Some(0)
  {
  }

  lemma EscapeReads(c: char, t: string)
    ensures ReadChar(Escape(c) + t) == Some(Read(c, t))
  {
    var e := Escape(c);
    var s := e + t;
    assert s[0] == e[0];
    if |e| == 1 {
      assert s[1..] == t;
    } else if |e| == 2 {
      assert s[1..][0] == e[1] && s[1..][1..] == t;
    } else {
      HexReads(c as int / 16);
      HexReads(c as int % 16);
      var u := s[1..][1..];
      assert s[1..][0] == 'u' && u[0] == '0' && u[1] == '0' && u[2] == e[4] && u[3] == e[5] && u[4..] == t;
    }
  }

  lemma EscapeNotQuote(c: char)
    ensures Escape(c) != [] && Escape(c)[0] != '"'
  {
  }

  lemma {:induction false} CharsRead(s: string, t: string)
    ensures ReadChars(EscapeAll(s) + ("\"" + t)) == Some(Read(s, t))
  {
    hide Escape, ReadChar;
    if s == [] {
      var u := EscapeAll(s) + ("\"" + t);
      assert u == "\"" + t && u[1..] == t;
    } else {
      var rest := EscapeAll(s[1..]) + ("\"" + t);
      CharsRead(s[1..], t);
      EscapeReads(s[0], rest);
      EscapeNotQuote(s[0]);
      assert EscapeAll(s) + ("\"" + t) == Escape(s[0]) + rest;
      assert [s[0]] + s[1..] == s;
    }
  }

  // ---------- Integers: section 6 ----------

  /** An optional minus, then digits without a needless leading zero, and no fraction or exponent. */
  function ReadInt(s: string): (r: Option<Read<int>>)
    ensures r.Some? ==> |r.value.rest| < |s|
  {
    var negative := s != [] && s[0] == '-';
    var t := if negative then s[1..] else s;
    var n := LeadingDigits(t);
    LeadingWithin(t);
    if n == 0 || (n > 1 && t[0] == '0') || (n < |t| && t[n] in {'.', 'e', 'E'}) then None
    else Some(Read(if negative then -Value(t[..n]) else Value(t[..n]), t[n..]))
  }

  lemma {:induction false} LeadingWithin(s: string)
    ensures LeadingDigits(s) <= |s|
  {
    if StartsWithDigit(s) {
      LeadingWithin(s[1..]);
    }
  }

  lemma {:induction false} NoLeadingZero(n: nat)
    ensures Decimal(n) != [] && (|Decimal(n)| > 1 ==> Decimal(n)[0] != '0') && (n > 0 ==> Decimal(n)[0] != '0')
  {
    if n >= 10 {
      NoLeadingZero(n / 10);
    }
  }

  lemma DecimalRun(n: nat, t: string)
    requires Delimited(t)
    ensures var s := Decimal(n) + t; var k := LeadingDigits(s);
      && k == |Decimal(n)| && s[..k] == Decimal(n) && s[k..] == t && Value(s[..k]) == n
      && k > 0 && !(k > 1 && s[0] == '0') && IsDigit(s[0])
  {
    DecimalValue(n);
    NoLeadingZero(n);
    hide Decimal, Value;
    LeadingDigitsOf(Decimal(n), t);
    var s := Decimal(n) + t;
    assert s[..|Decimal(n)|] == Decimal(n) && s[|Decimal(n)|..] == t && s[0] == Decimal(n)[0];
  }

  predicate IsNumeral(s: string, n: int, t: string) {
    var k := LeadingDigits(s);
    0 < k <= |s| && !(k > 1 && s[0] == '0') && s[0] != '-' && s[k..] == t && Value(s[..k]) == n
  }

  lemma UnsignedReads(s: string, n: int, t: string)
    requires IsNumeral(s, n, t) && Delimited(t)
    ensures ReadInt(s) == Some(Read(n, t))
  {
    hide LeadingDigits, Value;
  }

  lemma SignedReads(s: string, n: int, t: string)
    requires s != [] && s[0] == '-' && IsNumeral(s[1..], n, t) && Delimited(t)
    ensures ReadInt(s) == Some(Read(-n, t))
  {
    hide LeadingDigits, Value;
  }

  lemma DecimalIsNumeral(n: nat, t: string)
    requires Delimited(t)
    ensures IsNumeral(Decimal(n) + t, n, t)
  {
    hide Decimal, Value, LeadingDigits;
    DecimalRun(n, t);
  }

  lemma IntReads(n: int, t: string)
    requires Delimited(t)
    ensures ReadInt(PrintInt(n) + t) == Some(Read(n, t))
  {
    hide Decimal, ReadInt, IsNumeral;
    var s := PrintInt(n) + t;
    if n < 0 {
      DecimalIsNumeral(-n, t);
      assert s[0] == '-' && s[1..] == Decimal(-n) + t;
      SignedReads(s, -n, t);
    } else {
      DecimalIsNumeral(n, t);
      UnsignedReads(s, n, t);
    }
  }

  // ---------- Values: sections 3 to 5 ----------

  function ReadValue(s: string): (r: Option<Read<Json>>)
    ensures r.Some? ==> |r.value.rest| < |s|
    decreases |s|, 1
  {
    if s == [] then None
    else if s[0] == 'n' then (if "null" <= s then Some(Read(Null, s[4..])) else None)
    else if s[0] == 't' then (if "true" <= s then Some(Read(Bool(true), s[4..])) else None)
    else if s[0] == 'f' then (if "false" <= s then Some(Read(Bool(false), s[5..])) else None)
    else if s[0] == '"' then
      match ReadChars(s[1..]) case None => None case Some(t) => Some(Read(String(t.value), t.rest))
    else if s[0] == '[' then
      if |s| > 1 && s[1] == ']' then Some(Read(Array([]), s[2..]))
      else match ReadItems(s[1..]) case None => None case Some(xs) => Some(Read(Array(xs.value), xs.rest))
    else if s[0] == '{' then
      if |s| > 1 && s[1] == '}' then Some(Read(Object([]), s[2..]))
      else match ReadMembers(s[1..]) case None => None case Some(ms) => Some(Read(Object(ms.value), ms.rest))
    else match ReadInt(s) case None => None case Some(n) => Some(Read(Number(n.value), n.rest))
  }

  /** Items up to the closing bracket. */
  function ReadItems(s: string): (r: Option<Read<seq<Json>>>)
    ensures r.Some? ==> |r.value.rest| < |s|
    decreases |s|, 2
  {
    match ReadValue(s)
    case None => None
    case Some(v) =>
      if v.rest != [] && v.rest[0] == ']' then Some(Read([v.value], v.rest[1..]))
      else if v.rest != [] && v.rest[0] == ',' then
        match ReadItems(v.rest[1..]) case None => None case Some(more) => Some(Read([v.value] + more.value, more.rest))
      else None
  }

  function ReadMember(s: string): (r: Option<Read<Member>>)
    ensures r.Some? ==> |r.value.rest| < |s|
    decreases |s|, 2
  {
    if s == [] || s[0] != '"' then None
    else
      match ReadChars(s[1..])
      case None => None
      case Some(k) =>
        if k.rest == [] || k.rest[0] != ':' then None
        else match ReadValue(k.rest[1..]) case None => None case Some(v) => Some(Read(Member(k.value, v.value), v.rest))
  }

  /** Members up to the closing brace. */
  function ReadMembers(s: string): (r: Option<Read<seq<Member>>>)
    ensures r.Some? ==> |r.value.rest| < |s|
    decreases |s|, 3
  {
    match ReadMember(s)
    case None => None
    case Some(m) =>
      if m.rest != [] && m.rest[0] == '}' then Some(Read([m.value], m.rest[1..]))
      else if m.rest != [] && m.rest[0] == ',' then
        match ReadMembers(m.rest[1..]) case None => None
          case Some(more) => Some(Read([m.value] + more.value, more.rest))
      else None
  }

  /** A text that is exactly one value. */
  function ReadText(s: string): Option<Json> {
    match ReadValue(s) case Some(v) => (if v.rest == [] then Some(v.value) else None) case None => None
  }

  // ---------- Values whose members are in key order ----------

  predicate KeysIncrease(ms: seq<Member>) { forall i, j :: 0 <= i < j < |ms| ==> Less(ms[i].key, ms[j].key) }

  /** Members in key order at every level, as an ordered map keeps them. */
  predicate InOrder(v: Json) {
    match v
    case Array(xs) => forall x :: x in xs ==> InOrder(x)
    case Object(ms) => KeysIncrease(ms) && forall m :: m in ms ==> InOrder(m.val)
    case _ => true
  }

  lemma {:induction false} SortIncreasing(ps: seq<Pair>)
    requires Increasing(ps)
    ensures Sort(ps) == ps
  {
    hide Less;
    if ps != [] {
      SortIncreasing(ps[1..]);
      if |ps| > 1 {
        assert Less(ps[0].key, ps[1].key);
        LessAsymmetric(ps[0].key, ps[1].key);
        assert ps[1..][0] == ps[1];
      }
      assert [ps[0]] + ps[1..] == ps;
    }
  }

  lemma OrderedBody(env: Env, ms: seq<Member>, s: string)
    requires Plain(env, Object(ms)) && KeysIncrease(ms)
    ensures PlainMembers(env, ms)
    ensures Text(env, Object(ms)) + s == "{" + (Join(Pairs(env, ms)) + ("}" + s))
  {
    hide Text, Join, Sort, Less;
    ObjectBody(env, ms, s);
    SortIncreasing(Pairs(env, ms));
  }

  // ---------- Canonical text reads back ----------

  lemma {:induction false} ValueReads(env: Env, v: Json, t: string)
    requires Plain(env, v) && InOrder(v) && Delimited(t)
    ensures ReadValue(Text(env, v) + t) == Some(Read(v, t))
    decreases v, 2
  {
    match v
    case Array(xs) => ArrayReads(env, v, t);
    case Object(ms) => ObjectReads(env, v, t);
    case String(s) => StringReads(env, s, t);
    case Number(n) => NumberReads(env, n, t);
    case _ => WordReads(env, v, t);
  }

  lemma WordReads(env: Env, v: Json, t: string)
    requires v.Null? || v.Bool?
    ensures ReadValue(Text(env, v) + t) == Some(Read(v, t))
  {
    hide ReadChars, ReadInt, ReadItems, ReadMembers;
    var w := Text(env, v);
    var s := w + t;
    assert w <= s && s[|w|..] == t && s[0] == w[0];
  }

  lemma StringReads(env: Env, x: string, t: string)
    requires env.nfc(x) == x
    ensures ReadValue(Text(env, String(x)) + t) == Some(Read(String(x), t))
  {
    hide ReadChars, ReadInt, ReadItems, ReadMembers, EscapeAll;
    CharsRead(x, t);
    var s := Text(env, String(x)) + t;
    assert s == "\"" + (EscapeAll(x) + ("\"" + t));
    assert s[0] == '"' && s[1..] == EscapeAll(x) + ("\"" + t);
  }

  lemma NumberReads(env: Env, n: int, t: string)
    requires Delimited(t)
    ensures ReadValue(Text(env, Number(n)) + t) == Some(Read(Number(n), t))
  {
    hide ReadChars, ReadInt, ReadItems, ReadMembers, PrintInt;
    IntReads(n, t);
    PrintIntFirst(n);
    var s := Text(env, Number(n)) + t;
    assert s == PrintInt(n) + t && s[0] == PrintInt(n)[0];
  }

  lemma {:induction false} ArrayReads(env: Env, v: Json, t: string)
    requires v.Array? && Plain(env, v) && InOrder(v)
    ensures ReadValue(Text(env, v) + t) == Some(Read(v, t))
    decreases v, 1
  {
    ArrayBody(env, v.xs, t);
    ItemsFirst(env, v.xs, t);
    var u := JoinTexts(Texts(env, v.xs)) + ("]" + t);
    var s := Text(env, v) + t;
    assert s == "[" + u && s[0] == '[' && s[1..] == u && s[1] == u[0];
    if v.xs == [] {
      assert u == "]" + t && s[2..] == t;
    } else {
      ItemsRead(env, v.xs, t);
    }
    hide Text, ReadItems, ReadMembers, ReadChars, ReadInt, JoinTexts, Texts;
  }

  lemma {:induction false} ItemsRead(env: Env, xs: seq<Json>, t: string)
    requires xs != [] && PlainItems(env, xs) && forall x :: x in xs ==> InOrder(x)
    ensures ReadItems(JoinTexts(Texts(env, xs)) + ("]" + t)) == Some(Read(xs, t))
    decreases xs, 0
  {
    hide Text, ReadValue, JoinTexts, Texts, InOrder;
    ItemsCons(env, xs, t);
    var after := AfterItem(env, xs, t);
    ValueReads(env, xs[0], after);
    if |xs| == 1 {
      assert after == "]" + t && after[1..] == t && xs == [xs[0]];
    } else {
      assert after[1..] == JoinTexts(Texts(env, xs[1..])) + ("]" + t);
      ItemsRead(env, xs[1..], t);
      assert [xs[0]] + xs[1..] == xs;
    }
  }

  lemma {:induction false} ObjectReads(env: Env, v: Json, t: string)
    requires v.Object? && Plain(env, v) && InOrder(v)
    ensures ReadValue(Text(env, v) + t) == Some(Read(v, t))
    decreases v, 1
  {
    OrderedBody(env, v.members, t);
    JoinFirst(Pairs(env, v.members), t);
    var u := Join(Pairs(env, v.members)) + ("}" + t);
    var s := Text(env, v) + t;
    assert s == "{" + u && s[0] == '{' && s[1..] == u && s[1] == u[0];
    if v.members == [] {
      assert u == "}" + t && s[2..] == t;
    } else {
      MembersRead(env, v.members, t);
    }
    hide Text, ReadItems, ReadMembers, ReadChars, ReadInt, Join, Pairs;
  }

  lemma {:induction false} MembersRead(env: Env, ms: seq<Member>, t: string)
    requires ms != [] && PlainMembers(env, ms) && forall m :: m in ms ==> InOrder(m.val)
    ensures ReadMembers(Join(Pairs(env, ms)) + ("}" + t)) == Some(Read(ms, t))
    decreases ms, 0
  {
    hide Text, ReadMember, Join, InOrder;
    var ps := Pairs(env, ms);
    JoinCons(ps, t);
    AfterPairShape(ps, t);
    var after := AfterPair(ps, t);
    MemberReads(env, ms[0], after);
    hide AfterPair, Quote;
    if |ms| == 1 {
      assert after[1..] == t && ms == [ms[0]];
    } else {
      assert ps[1..] == Pairs(env, ms[1..]);
      assert after[1..] == Join(ps[1..]) + ("}" + t);
      MembersRead(env, ms[1..], t);
      assert [ms[0]] + ms[1..] == ms;
    }
  }

  lemma {:induction false} MemberReads(env: Env, m: Member, after: string)
    requires PlainMember(env, m) && InOrder(m.val) && Delimited(after)
    ensures var p := PairOf(env, m); ReadMember(Quote(p.key) + (":" + (p.text + after))) == Some(Read(m, after))
    decreases m, 1
  {
    hide Text, ReadValue, ReadChars, EscapeAll, InOrder;
    var p := PairOf(env, m);
    var rest := ":" + (p.text + after);
    CharsRead(p.key, rest);
    var s := Quote(p.key) + rest;
    assert s[0] == '"' && s[1..] == EscapeAll(p.key) + ("\"" + rest);
    assert rest[0] == ':' && rest[1..] == p.text + after;
    ValueReads(env, m.val, after);
  }

  /** The canonical text of a plain value kept in key order is JSON for exactly that value. */
  lemma CanonicalReads(env: Env, v: Json)
    requires Plain(env, v) && InOrder(v)
    ensures Canon(env, v).Ok? && ReadText(Canon(env, v).value) == Some(v)
  {
    hide ReadValue, InOrder;
    PlainPrints(env, v);
    ValueReads(env, v, []);
    assert Text(env, v) + [] == Text(env, v);
  }

  // ---------- Any plain value ----------

  /** The value with its members in key order at every level. */
  function Arranged(v: Json): Json
    decreases v, 1
  {
    match v
    case Array(xs) => Array(ArrangedItems(xs))
    case Object(ms) => Object(CanonicalEncoder.SortMembers(ArrangedMembers(ms)))
    case _ => v
  }

  function ArrangedItems(xs: seq<Json>): (r: seq<Json>)
    ensures |r| == |xs|
    decreases xs, 0
  {
    if xs == [] then [] else [Arranged(xs[0])] + ArrangedItems(xs[1..])
  }

  function ArrangedMember(m: Member): Member
    decreases m, 0
  {
    Member(m.key, Arranged(m.val))
  }

  function ArrangedMembers(ms: seq<Member>): (r: seq<Member>)
    ensures |r| == |ms|
    decreases ms, 0
  {
    if ms == [] then [] else [ArrangedMember(ms[0])] + ArrangedMembers(ms[1..])
  }

  lemma {:induction false} ArrangedItemAt(xs: seq<Json>, i: nat)
    requires i < |xs|
    ensures ArrangedItems(xs)[i] == Arranged(xs[i])
  {
    if i > 0 {
      ArrangedItemAt(xs[1..], i - 1);
    }
  }

  lemma {:induction false} ArrangedMemberAt(ms: seq<Member>, i: nat)
    requires i < |ms|
    ensures ArrangedMembers(ms)[i] == ArrangedMember(ms[i])
  {
    if i > 0 {
      ArrangedMemberAt(ms[1..], i - 1);
    }
  }

  lemma {:induction false} InsertIncreasing(m: Member, ms: seq<Member>)
    requires KeysIncrease(ms) && forall i :: 0 <= i < |ms| ==> ms[i].key != m.key
    ensures var r := CanonicalEncoder.InsertMember(m, ms);
      && KeysIncrease(r) && |r| == |ms| + 1
      && (ms != [] && Less(ms[0].key, m.key) ==> r[0] == ms[0])
  {
    hide Less;
    var r := CanonicalEncoder.InsertMember(m, ms);
    if ms == [] {
    } else if !Less(ms[0].key, m.key) {
      LessTotal(ms[0].key, m.key);
      forall j | 0 < j < |r| ensures Less(r[0].key, r[j].key) {
        if j > 1 {
          LessTransitive(m.key, ms[0].key, ms[j - 1].key);
        }
      }
    } else {
      var rest := CanonicalEncoder.InsertMember(m, ms[1..]);
      InsertIncreasing(m, ms[1..]);
      CanonicalEncoder.InsertKeepsMembers(m, ms[1..]);
      forall j | 0 < j < |r| ensures Less(r[0].key, r[j].key) {
        assert r[j] == rest[j - 1] && rest[j - 1] in rest;
        if r[j] != m {
          assert r[j] in ms[1..];
          var k :| 0 <= k < |ms[1..]| && ms[1..][k] == r[j];
          assert ms[k + 1] == r[j];
        }
      }
    }
  }

  lemma {:induction false} SortedIncreases(ms: seq<Member>)
    requires DistinctKeys(ms)
    ensures KeysIncrease(CanonicalEncoder.SortMembers(ms)) && |CanonicalEncoder.SortMembers(ms)| == |ms|
  {
    hide Less;
    if ms != [] {
      var rest := CanonicalEncoder.SortMembers(ms[1..]);
      SortedIncreases(ms[1..]);
      CanonicalEncoder.SortKeepsMembers(ms[1..]);
      forall i | 0 <= i < |rest| ensures rest[i].key != ms[0].key {
        assert rest[i] in rest;
        var k :| 0 <= k < |ms[1..]| && ms[1..][k] == rest[i];
        assert ms[k + 1] == rest[i];
      }
      InsertIncreasing(ms[0], rest);
    }
  }

  lemma IncreasingDistinct(ms: seq<Member>)
    requires KeysIncrease(ms)
    ensures DistinctKeys(ms)
  {
    forall i, j | 0 <= i < j < |ms| ensures ms[i].key != ms[j].key {
      LessAsymmetric(ms[i].key, ms[j].key);
    }
  }

  /** Arranging a plain value keeps it plain and the same up to member order. */
  lemma {:induction false} ArrangedSame(env: Env, v: Json)
    requires Plain(env, v)
    ensures Plain(env, Arranged(v)) && InOrder(Arranged(v)) && Same(v, Arranged(v))
    decreases v, 1
  {
    match v
    case Array(xs) => ArrangedArray(env, v);
    case Object(ms) => ArrangedObject(env, v);
    case _ =>
  }

  lemma {:induction false} ArrangedArray(env: Env, v: Json)
    requires v.Array? && Plain(env, v)
    ensures Plain(env, Arranged(v)) && InOrder(Arranged(v)) && Same(v, Arranged(v))
    decreases v, 0
  {
    var xs, ys := v.xs, ArrangedItems(v.xs);
    forall i | 0 <= i < |xs| ensures Plain(env, ys[i]) && InOrder(ys[i]) && Same(xs[i], ys[i]) {
      ArrangedItemAt(xs, i);
      assert xs[i] in xs;
      ArrangedSame(env, xs[i]);
    }
  }

  lemma {:induction false} ArrangedObject(env: Env, v: Json)
    requires v.Object? && Plain(env, v)
    ensures Plain(env, Arranged(v)) && InOrder(Arranged(v)) && Same(v, Arranged(v))
    decreases v, 0
  {
    var ms := v.members;
    var moved := ArrangedMembers(ms);
    var ns := CanonicalEncoder.SortMembers(moved);
    forall i | 0 <= i < |ms|
      ensures moved[i] == ArrangedMember(ms[i]) && Plain(env, moved[i].val) && InOrder(moved[i].val)
      ensures Same(ms[i].val, moved[i].val)
    {
      ArrangedMemberAt(ms, i);
      assert ms[i] in ms;
      ArrangedSame(env, ms[i].val);
    }
    SortedIncreases(moved);
    IncreasingDistinct(ns);
    CanonicalEncoder.SortKeepsMembers(moved);
    forall n | n in ns ensures env.nfc(n.key) == n.key && Plain(env, n.val) && InOrder(n.val) {
      var i :| 0 <= i < |moved| && moved[i] == n;
      assert ms[i] in ms;
    }
    forall i | 0 <= i < |ms| ensures HasPartner(ms[i], ns) {
      assert moved[i] in ns;
      var j :| 0 <= j < |ns| && ns[j] == moved[i];
      assert ms[i].key == ns[j].key && Same(ms[i].val, ns[j].val);
    }
  }

  /** The canonical text of any plain value is JSON for that value, up to member order. */
  lemma CanonicalDenotes(env: Env, v: Json)
    requires Plain(env, v)
    ensures Canon(env, v).Ok? && ReadText(Canon(env, v).value) == Some(Arranged(v)) && Same(v, Arranged(v))
  {
    hide ReadText, InOrder, Same, Plain, Arranged, Canon;
    ArrangedSame(env, v);
    CanonicalIdentity(env, v, Arranged(v));
    CanonicalReads(env, Arranged(v));
  }
}
