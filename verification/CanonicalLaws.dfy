/** Canonical JSON identifies plain values exactly up to the order of object members. */
module CanonicalLaws {
  import opened Common
  import opened Decimals
  import opened Canonical

  // ---------- Strings are self-delimiting ----------

  lemma EscapeShape(c: char)
    ensures |Escape(c)| >= 1 && Escape(c)[0] != '"'
    ensures |Escape(c)| == 1 ==> Escape(c) == [c] && c != '\\'
    ensures |Escape(c)| != 1 ==> Escape(c)[0] == '\\' && (|Escape(c)| == 2 || |Escape(c)| == 6)
    ensures |Escape(c)| == 6 <==> |Escape(c)| >= 2 && Escape(c)[1] == 'u'
  {
  }

  lemma SameEscape(c: char, d: char)
    requires Escape(c) == Escape(d)
    ensures c == d
  {
    if |Escape(c)| == 6 {
      assert Escape(c)[4] == Escape(d)[4] && Escape(c)[5] == Escape(d)[5];
    } else if |Escape(c)| == 2 {
      assert Escape(c)[1] == Escape(d)[1];
    } else {
      assert Escape(c)[0] == Escape(d)[0];
    }
  }

  /** No escape is a prefix of another. */
  lemma EscapePrefix(c: char, d: char, s: string, t: string)
    requires Escape(c) + s == Escape(d) + t
    ensures c == d && s == t
  {
    EscapeShape(c);
    EscapeShape(d);
    var x, y := Escape(c) + s, Escape(d) + t;
    hide Escape;
    assert x[0] == Escape(c)[0] && y[0] == Escape(d)[0];
    if |Escape(c)| >= 2 {
      assert x[1] == Escape(c)[1];
    }
    if |Escape(d)| >= 2 {
      assert y[1] == Escape(d)[1];
    }
    assert |Escape(c)| == |Escape(d)|;
    assert Escape(c) == x[..|Escape(c)|] == y[..|Escape(d)|] == Escape(d);
    assert s == x[|Escape(c)|..] && t == y[|Escape(d)|..];
    SameEscape(c, d);
  }

  /** The closing quote is the first bare quote. */
  lemma EscapeAllFirst(x: string, s: string)
    ensures var a := EscapeAll(x) + "\"" + s; a != [] && (a[0] == '"' <==> x == [])
  {
    if x != [] {
      EscapeShape(x[0]);
      assert (EscapeAll(x) + "\"" + s)[0] == Escape(x[0])[0];
    }
  }

  lemma EscapeAllCons(x: string, s: string)
    requires x != []
    ensures EscapeAll(x) + "\"" + s == Escape(x[0]) + (EscapeAll(x[1..]) + "\"" + s)
  {
    hide Escape;
  }

  lemma {:induction false} EscapeAllPrefix(x: string, y: string, s: string, t: string)
    requires EscapeAll(x) + "\"" + s == EscapeAll(y) + "\"" + t
    ensures x == y && s == t
    decreases |x|
  {
    EscapeAllFirst(x, s);
    EscapeAllFirst(y, t);
    if x == [] {
      assert s == (EscapeAll(x) + "\"" + s)[1..] && t == (EscapeAll(y) + "\"" + t)[1..];
    } else {
      hide EscapeAll, Escape;
      EscapeAllCons(x, s);
      EscapeAllCons(y, t);
      EscapePrefix(x[0], y[0], EscapeAll(x[1..]) + "\"" + s, EscapeAll(y[1..]) + "\"" + t);
      EscapeAllPrefix(x[1..], y[1..], s, t);
      assert x == [x[0]] + x[1..] && y == [y[0]] + y[1..];
    }
  }

  lemma QuotePrefix(x: string, y: string, s: string, t: string)
    requires Quote(x) + s == Quote(y) + t
    ensures x == y && s == t
  {
    hide EscapeAll;
    assert (Quote(x) + s)[1..] == EscapeAll(x) + "\"" + s;
    assert (Quote(y) + t)[1..] == EscapeAll(y) + "\"" + t;
    EscapeAllPrefix(x, y, s, t);
  }

  // ---------- Numbers end where the digits end ----------

  predicate IsDigit(c: char) { '0' <= c <= '9' }

  predicate StartsWithDigit(s: string) { s != [] && IsDigit(s[0]) }

  function LeadingDigits(s: string): nat { if StartsWithDigit(s) then 1 + LeadingDigits(s[1..]) else 0 }

  lemma {:induction false} LeadingDigitsOf(x: string, s: string)
    requires !StartsWithDigit(s) && forall i :: 0 <= i < |x| ==> IsDigit(x[i])
    ensures LeadingDigits(x + s) == |x|
  {
    if x == [] {
      assert x + s == s;
    } else {
      assert (x + s)[0] == x[0] && (x + s)[1..] == x[1..] + s;
      LeadingDigitsOf(x[1..], s);
    }
  }

  lemma DecimalPrefix(m: nat, n: nat, s: string, t: string)
    requires Decimal(m) + s == Decimal(n) + t && !StartsWithDigit(s) && !StartsWithDigit(t)
    ensures m == n && s == t
  {
    DecimalValue(m);
    DecimalValue(n);
    hide Decimal, Value;
    var x, y := Decimal(m), Decimal(n);
    LeadingDigitsOf(x, s);
    LeadingDigitsOf(y, t);
    assert x == (x + s)[..|x|] && y == (y + t)[..|y|] && s == (x + s)[|x|..] && t == (y + t)[|y|..];
  }

  lemma PrintIntFirst(n: int)
    ensures PrintInt(n) != [] && (if n < 0 then PrintInt(n)[0] == '-' else IsDigit(PrintInt(n)[0]))
  {
    DecimalValue(if n < 0 then -n else n);
  }

  lemma PrintIntPrefix(m: int, n: int, s: string, t: string)
    requires PrintInt(m) + s == PrintInt(n) + t && !StartsWithDigit(s) && !StartsWithDigit(t)
    ensures m == n && s == t
  {
    hide Decimal, PrintInt;
    PrintIntFirst(m);
    PrintIntFirst(n);
    PrintIntTail(m, s);
    PrintIntTail(n, t);
    var a, b := PrintInt(m) + s, PrintInt(n) + t;
    assert a[0] == PrintInt(m)[0] && b[0] == PrintInt(n)[0];
    if m < 0 {
      DecimalPrefix(-m, -n, s, t);
    } else {
      DecimalPrefix(m, n, s, t);
    }
  }

  lemma PrintIntTail(n: int, s: string)
    ensures if n < 0 then PrintInt(n) + s != [] && (PrintInt(n) + s)[1..] == Decimal(-n) + s
      else PrintInt(n) == Decimal(n)
  {
    hide Decimal;
  }

  // ---------- Sorting ----------

  predicate Increasing(ps: seq<Pair>) { forall i, j :: 0 <= i < j < |ps| ==> Less(ps[i].key, ps[j].key) }

  predicate DistinctPairs(ps: seq<Pair>) { forall i, j :: 0 <= i < j < |ps| ==> ps[i].key != ps[j].key }

  lemma {:induction false} InsertMembers(p: Pair, ps: seq<Pair>)
    ensures |Insert(p, ps)| == |ps| + 1
    ensures forall x :: x in Insert(p, ps) <==> x == p || x in ps
  {
    hide Less;
    if ps != [] && Less(ps[0].key, p.key) {
      InsertMembers(p, ps[1..]);
      assert ps == [ps[0]] + ps[1..];
    }
  }

  lemma {:induction false} InsertSorted(p: Pair, ps: seq<Pair>)
    requires Increasing(ps) && forall x :: x in ps ==> x.key != p.key
    ensures Increasing(Insert(p, ps))
  {
    hide Less;
    var after := Insert(p, ps);
    if ps == [] {
    } else if Less(ps[0].key, p.key) {
      InsertSorted(p, ps[1..]);
      InsertMembers(p, ps[1..]);
      var rest := Insert(p, ps[1..]);
      forall j | 0 <= j < |rest| ensures Less(ps[0].key, rest[j].key) {
        if rest[j] != p {
          assert rest[j] in ps[1..];
        }
      }
      assert after == [ps[0]] + rest;
    } else {
      assert ps[0] in ps;
      LessTotal(ps[0].key, p.key);
      forall j | 0 <= j < |ps| ensures Less(p.key, ps[j].key) {
        if j > 0 {
          LessTransitive(p.key, ps[0].key, ps[j].key);
        }
      }
    }
  }

  lemma {:induction false} SortMembers(ps: seq<Pair>)
    ensures |Sort(ps)| == |ps|
    ensures forall x :: x in Sort(ps) <==> x in ps
  {
    if ps != [] {
      SortMembers(ps[1..]);
      InsertMembers(ps[0], Sort(ps[1..]));
      assert ps == [ps[0]] + ps[1..];
    }
  }

  lemma {:induction false} SortSorted(ps: seq<Pair>)
    requires DistinctPairs(ps)
    ensures Increasing(Sort(ps))
  {
    if ps != [] {
      SortSorted(ps[1..]);
      SortMembers(ps[1..]);
      forall x | x in Sort(ps[1..]) ensures x.key != ps[0].key {
        assert x in ps[1..];
      }
      InsertSorted(ps[0], Sort(ps[1..]));
    }
  }

  /** A set of pairs has one increasing arrangement. */
  lemma SameFirst(ps: seq<Pair>, qs: seq<Pair>)
    requires ps != [] && qs != [] && Increasing(ps) && Increasing(qs) && ps[0] in qs && qs[0] in ps
    ensures ps[0] == qs[0]
  {
    hide Less;
    var j :| 0 <= j < |qs| && qs[j] == ps[0];
    var i :| 0 <= i < |ps| && ps[i] == qs[0];
    if i > 0 && j > 0 {
      LessAsymmetric(ps[0].key, qs[0].key);
    }
  }

  lemma {:induction false} IncreasingUnique(ps: seq<Pair>, qs: seq<Pair>)
    requires Increasing(ps) && Increasing(qs)
    requires forall x :: x in ps <==> x in qs
    ensures ps == qs
  {
    hide Less;
    NonEmptyMember(ps);
    NonEmptyMember(qs);
    if ps != [] {
      SameFirst(ps, qs);
      TailMembers(ps);
      TailMembers(qs);
      IncreasingUnique(ps[1..], qs[1..]);
      assert ps == [ps[0]] + ps[1..] && qs == [qs[0]] + qs[1..];
    }
  }

  lemma NonEmptyMember(ps: seq<Pair>)
    ensures ps == [] <==> forall x :: x !in ps
  {
    assert ps != [] ==> ps[0] in ps;
  }

  lemma TailMembers(ps: seq<Pair>)
    requires Increasing(ps) && ps != []
    ensures forall x :: x in ps[1..] <==> x in ps && x != ps[0]
  {
    forall j | 1 <= j < |ps| ensures ps[j] != ps[0] {
      LessAsymmetric(ps[0].key, ps[j].key);
    }
  }

  // ---------- Texts of plain values ----------

  function Text(env: Env, v: Json): string
    requires Plain(env, v)
  {
    PlainPrints(env, v);
    Canon(env, v).value
  }

  predicate PlainItems(env: Env, xs: seq<Json>) { forall x :: x in xs ==> Plain(env, x) }

  predicate PlainMember(env: Env, m: Member) { env.nfc(m.key) == m.key && Plain(env, m.val) }

  predicate PlainMembers(env: Env, ms: seq<Member>) { forall m :: m in ms ==> PlainMember(env, m) }

  function Texts(env: Env, xs: seq<Json>): (ts: seq<string>)
    requires PlainItems(env, xs)
    ensures |ts| == |xs|
  {
    seq(|xs|, i requires 0 <= i < |xs| => Text(env, xs[i]))
  }

  function PairOf(env: Env, m: Member): Pair
    requires PlainMember(env, m)
  {
    Pair(m.key, Text(env, m.val))
  }

  function Pairs(env: Env, ms: seq<Member>): (ps: seq<Pair>)
    requires PlainMembers(env, ms)
    ensures |ps| == |ms|
  {
    seq(|ms|, i requires 0 <= i < |ms| => PairOf(env, ms[i]))
  }

  lemma TextOfArray(env: Env, xs: seq<Json>)
    requires Plain(env, Array(xs))
    ensures PlainItems(env, xs) && Text(env, Array(xs)) == "[" + JoinTexts(Texts(env, xs)) + "]"
  {
    PlainItemsPrint(env, xs);
    assert CanonItems(env, xs).value == Texts(env, xs);
  }

  lemma TextOfObject(env: Env, ms: seq<Member>)
    requires Plain(env, Object(ms))
    ensures PlainMembers(env, ms) && Text(env, Object(ms)) == "{" + Join(Sort(Pairs(env, ms))) + "}"
  {
    PlainMembersPrint(env, ms);
    assert PlainMembers(env, ms);
    assert CanonMembers(env, ms).value == Pairs(env, ms);
  }

  /** The first character of a text tells the kind of value. */
  predicate Leads(c: char, v: Json) {
    match v
    case Null => c == 'n'
    case Bool(b) => c == if b then 't' else 'f'
    case Number(n) => c == '-' || IsDigit(c)
    case Float(_) => false
    case String(_) => c == '"'
    case Array(_) => c == '['
    case Object(_) => c == '{'
  }

  lemma TextFirst(env: Env, v: Json)
    requires Plain(env, v)
    ensures Text(env, v) != [] && Leads(Text(env, v)[0], v)
  {
    match v
    case Number(n) => PrintIntFirst(n);
    case Array(xs) => TextOfArray(env, xs);
    case Object(ms) => TextOfObject(env, ms);
    case _ =>
  }

  predicate Delimited(s: string) { s == [] || s[0] == ',' || s[0] == ']' || s[0] == '}' }

  /** Two texts that start the same string are texts of values of the same kind. */
  lemma SameKind(env: Env, a: Json, b: Json, s: string, t: string)
    requires Plain(env, a) && Plain(env, b) && Text(env, a) + s == Text(env, b) + t
    ensures
      || (a.Null? && b.Null?) || (a.Bool? && b == a) || (a.Number? && b.Number?) || (a.String? && b.String?)
      || (a.Array? && b.Array?) || (a.Object? && b.Object?)
  {
    hide Text, Plain;
    TextFirst(env, a);
    TextFirst(env, b);
    assert (Text(env, a) + s)[0] == Text(env, a)[0] && (Text(env, b) + t)[0] == Text(env, b)[0];
  }

  lemma CutPrefix(x: string, s: string, t: string)
    requires x + s == x + t
    ensures s == t
  {
    assert s == (x + s)[|x|..] && t == (x + t)[|x|..];
  }

  // ---------- Equal texts come from equal values ----------

  lemma {:induction false} TextPrefix(env: Env, a: Json, b: Json, s: string, t: string)
    requires Plain(env, a) && Plain(env, b) && Delimited(s) && Delimited(t)
    requires Text(env, a) + s == Text(env, b) + t
    ensures Same(a, b) && s == t
    decreases a, 1
  {
    SameKind(env, a, b, s, t);
    match a
    case Null => CutPrefix("null", s, t);
    case Bool(x) => CutPrefix(Text(env, a), s, t);
    case Number(n) => PrintIntPrefix(n, b.n, s, t);
    case String(x) => QuotePrefix(x, b.s, s, t);
    case Array(xs) => ArrayPrefix(env, a, b, s, t);
    case Object(ms) => ObjectPrefix(env, a, b, s, t);
  }

  lemma {:induction false} ArrayPrefix(env: Env, a: Json, b: Json, s: string, t: string)
    requires Plain(env, a) && Plain(env, b) && a.Array? && b.Array?
    requires Text(env, a) + s == Text(env, b) + t
    ensures Same(a, b) && s == t
    decreases a, 0
  {
    hide Text, JoinTexts, Texts;
    ArrayBody(env, a.xs, s);
    ArrayBody(env, b.xs, t);
    CutPrefix("[", JoinTexts(Texts(env, a.xs)) + ("]" + s), JoinTexts(Texts(env, b.xs)) + ("]" + t));
    ItemsPrefix(env, a.xs, b.xs, s, t);
  }

  lemma ArrayBody(env: Env, xs: seq<Json>, s: string)
    requires Plain(env, Array(xs))
    ensures PlainItems(env, xs)
    ensures Text(env, Array(xs)) + s == "[" + (JoinTexts(Texts(env, xs)) + ("]" + s))
  {
    hide Text, JoinTexts, Texts;
    TextOfArray(env, xs);
  }

  /** What follows the first item of an array: a comma and the rest, or the closing bracket. */
  function AfterItem(env: Env, xs: seq<Json>, s: string): string
    requires PlainItems(env, xs) && xs != []
  {
    if |xs| == 1 then "]" + s else "," + (JoinTexts(Texts(env, xs[1..])) + ("]" + s))
  }

  lemma ItemsCons(env: Env, xs: seq<Json>, s: string)
    requires PlainItems(env, xs) && xs != []
    ensures JoinTexts(Texts(env, xs)) + ("]" + s) == Text(env, xs[0]) + AfterItem(env, xs, s)
    ensures Delimited(AfterItem(env, xs, s))
  {
    hide Text;
    assert Texts(env, xs)[1..] == Texts(env, xs[1..]);
  }

  /** An empty list closes at once; otherwise the first character belongs to a value. */
  lemma ItemsFirst(env: Env, xs: seq<Json>, s: string)
    requires PlainItems(env, xs)
    ensures var u := JoinTexts(Texts(env, xs)) + ("]" + s); u != [] && (u[0] == ']' <==> xs == [])
  {
    hide Text;
    if xs != [] {
      TextFirst(env, xs[0]);
      ItemsCons(env, xs, s);
    }
  }

  lemma {:induction false} ItemsPrefix(env: Env, xs: seq<Json>, ys: seq<Json>, s: string, t: string)
    requires PlainItems(env, xs) && PlainItems(env, ys)
    requires JoinTexts(Texts(env, xs)) + ("]" + s) == JoinTexts(Texts(env, ys)) + ("]" + t)
    ensures |xs| == |ys| && (forall i :: 0 <= i < |xs| ==> Same(xs[i], ys[i])) && s == t
    decreases xs, 0
  {
    hide Text, Same;
    ItemsFirst(env, xs, s);
    ItemsFirst(env, ys, t);
    if xs == [] {
      assert JoinTexts(Texts(env, xs)) + ("]" + s) == "]" + s && JoinTexts(Texts(env, ys)) + ("]" + t) == "]" + t;
      CutPrefix("]", s, t);
    } else {
      ItemsCons(env, xs, s);
      ItemsCons(env, ys, t);
      TextPrefix(env, xs[0], ys[0], AfterItem(env, xs, s), AfterItem(env, ys, t));
      assert AfterItem(env, xs, s)[0] == if |xs| == 1 then ']' else ',';
      assert AfterItem(env, ys, t)[0] == if |ys| == 1 then ']' else ',';
      if |xs| == 1 {
        CutPrefix("]", s, t);
      } else {
        CutPrefix(",", JoinTexts(Texts(env, xs[1..])) + ("]" + s), JoinTexts(Texts(env, ys[1..])) + ("]" + t));
        ItemsPrefix(env, xs[1..], ys[1..], s, t);
        assert forall i :: 1 <= i < |xs| ==> xs[i] == xs[1..][i - 1] && ys[i] == ys[1..][i - 1];
      }
    }
  }

  /** Every pair of the list prints a member of the object. */
  predicate FromMembers(env: Env, ps: seq<Pair>, ms: seq<Member>)
    requires PlainMembers(env, ms)
  {
    forall k :: 0 <= k < |ps| ==> IsPrinted(env, ps[k], ms)
  }

  predicate IsPrinted(env: Env, p: Pair, ms: seq<Member>)
    requires PlainMembers(env, ms)
  {
    exists i :: 0 <= i < |ms| && p == PairOf(env, ms[i])
  }

  lemma {:induction false} MemberPrefix(env: Env, m: Member, n: Member, s: string, t: string)
    requires PlainMember(env, m) && PlainMember(env, n) && Delimited(s) && Delimited(t)
    requires Text(env, m.val) + s == Text(env, n.val) + t
    ensures Same(m.val, n.val) && s == t
    decreases m, 0
  {
    TextPrefix(env, m.val, n.val, s, t);
  }

  /** What follows the first member of an object: a comma and the rest, or nothing. */
  function MorePairs(ps: seq<Pair>): string
    requires ps != []
  {
    if |ps| == 1 then [] else "," + Join(ps[1..])
  }

  function AfterPair(ps: seq<Pair>, s: string): string
    requires ps != []
  {
    MorePairs(ps) + ("}" + s)
  }

  lemma JoinCons(ps: seq<Pair>, s: string)
    requires ps != []
    ensures Join(ps) + ("}" + s) == Quote(ps[0].key) + (":" + (ps[0].text + AfterPair(ps, s)))
  {
    hide Quote, Join, MorePairs;
    JoinUnfold(ps);
    RegroupMember(Quote(ps[0].key), ps[0].text, MorePairs(ps), "}" + s);
  }

  lemma AfterPairShape(ps: seq<Pair>, s: string)
    requires ps != []
    ensures Delimited(AfterPair(ps, s)) && AfterPair(ps, s) != []
    ensures AfterPair(ps, s)[0] == if |ps| == 1 then '}' else ','
    ensures |ps| == 1 ==> AfterPair(ps, s) == "}" + s
    ensures |ps| > 1 ==> AfterPair(ps, s) == "," + (Join(ps[1..]) + ("}" + s))
  {
    hide Join;
  }

  lemma JoinUnfold(ps: seq<Pair>)
    requires ps != []
    ensures Join(ps) == Quote(ps[0].key) + ":" + ps[0].text + MorePairs(ps)
  {
    hide Quote;
  }

  lemma RegroupMember(k: string, t: string, rest: string, end: string)
    ensures k + ":" + t + rest + end == k + (":" + (t + (rest + end)))
  {
    assert t + rest + end == t + (rest + end);
  }

  lemma JoinFirst(ps: seq<Pair>, s: string)
    ensures var u := Join(ps) + ("}" + s); u != [] && (u[0] == '}' <==> ps == [])
  {
    if ps != [] {
      JoinCons(ps, s);
      hide Join;
      assert Quote(ps[0].key)[0] == '"';
    }
  }

  lemma {:induction false} FirstPairPrefix(env: Env, ms: seq<Member>, ns: seq<Member>, ps: seq<Pair>, qs: seq<Pair>,
                                           s: string, t: string)
    requires PlainMembers(env, ms) && PlainMembers(env, ns) && FromMembers(env, ps, ms) && FromMembers(env, qs, ns)
    requires ps != [] && qs != [] && Join(ps) + ("}" + s) == Join(qs) + ("}" + t)
    ensures ps[0] == qs[0] && AfterPair(ps, s) == AfterPair(qs, t)
    decreases ms, 0
  {
    hide Text, Join, Quote, Same;
    JoinCons(ps, s);
    JoinCons(qs, t);
    AfterPairShape(ps, s);
    AfterPairShape(qs, t);
    hide AfterPair;
    assert IsPrinted(env, ps[0], ms) && IsPrinted(env, qs[0], ns);
    var i :| 0 <= i < |ms| && ps[0] == PairOf(env, ms[i]);
    var j :| 0 <= j < |ns| && qs[0] == PairOf(env, ns[j]);
    PairPrefix(env, ms[i], ns[j], AfterPair(ps, s), AfterPair(qs, t));
  }

  lemma {:induction false} PairsPrefix(env: Env, ms: seq<Member>, ns: seq<Member>, ps: seq<Pair>, qs: seq<Pair>,
                                       s: string, t: string)
    requires PlainMembers(env, ms) && PlainMembers(env, ns) && FromMembers(env, ps, ms) && FromMembers(env, qs, ns)
    requires Join(ps) + ("}" + s) == Join(qs) + ("}" + t)
    ensures ps == qs && s == t
    decreases ms, |ps|
  {
    hide Text, Join, Quote, Same;
    JoinFirst(ps, s);
    JoinFirst(qs, t);
    if ps == [] {
      JoinNone();
      assert Join(ps) + ("}" + s) == "}" + s && Join(qs) + ("}" + t) == "}" + t;
      CutPrefix("}", s, t);
    } else {
      FirstPairPrefix(env, ms, ns, ps, qs, s, t);
      AfterPairShape(ps, s);
      AfterPairShape(qs, t);
      hide AfterPair, PairOf, IsPrinted;
      if |ps| == 1 {
        CutPrefix("}", s, t);
      } else {
        CutPrefix(",", Join(ps[1..]) + ("}" + s), Join(qs[1..]) + ("}" + t));
        PairsPrefix(env, ms, ns, ps[1..], qs[1..], s, t);
        assert ps == [ps[0]] + ps[1..] && qs == [qs[0]] + qs[1..];
      }
    }
  }

  lemma {:induction false} PairPrefix(env: Env, m: Member, n: Member, x: string, y: string)
    requires PlainMember(env, m) && PlainMember(env, n) && Delimited(x) && Delimited(y)
    requires var p, q := PairOf(env, m), PairOf(env, n);
             Quote(p.key) + (":" + (p.text + x)) == Quote(q.key) + (":" + (q.text + y))
    ensures PairOf(env, m) == PairOf(env, n) && x == y
    decreases m, 1
  {
    hide Text, Quote, Same;
    var p, q := PairOf(env, m), PairOf(env, n);
    QuotePrefix(p.key, q.key, ":" + (p.text + x), ":" + (q.text + y));
    CutPrefix(":", p.text + x, q.text + y);
    MemberPrefix(env, m, n, x, y);
    SameLengthPrefix(p.text, q.text, x);
  }

  lemma JoinNone()
    ensures Join([]) == []
  {
  }

  lemma SameLengthPrefix(x: string, y: string, s: string)
    requires x + s == y + s
    ensures x == y
  {
    assert |x + s| == |y + s|;
    assert x == (x + s)[..|x|] && y == (y + s)[..|y|];
  }

  lemma SortedFromMembers(env: Env, ms: seq<Member>)
    requires PlainMembers(env, ms)
    ensures FromMembers(env, Sort(Pairs(env, ms)), ms) && |Sort(Pairs(env, ms))| == |ms|
    ensures forall i :: 0 <= i < |ms| ==> PairOf(env, ms[i]) in Sort(Pairs(env, ms))
  {
    hide Text, Sort;
    var ps := Pairs(env, ms);
    SortMembers(ps);
    forall k | 0 <= k < |Sort(ps)| ensures IsPrinted(env, Sort(ps)[k], ms) {
      assert Sort(ps)[k] in ps;
      var i :| 0 <= i < |ps| && ps[i] == Sort(ps)[k];
      assert ps[i] == PairOf(env, ms[i]);
    }
    forall i | 0 <= i < |ms| ensures PairOf(env, ms[i]) in Sort(ps) {
      assert ps[i] in ps && ps[i] == PairOf(env, ms[i]);
    }
  }

  lemma {:induction false} ObjectPrefix(env: Env, a: Json, b: Json, s: string, t: string)
    requires Plain(env, a) && Plain(env, b) && a.Object? && b.Object?
    requires Text(env, a) + s == Text(env, b) + t
    ensures Same(a, b) && s == t
    decreases a, 0
  {
    hide Text, Join, Sort, Pairs;
    var ms, ns := a.members, b.members;
    ObjectBody(env, ms, s);
    ObjectBody(env, ns, t);
    var ps, qs := Sort(Pairs(env, ms)), Sort(Pairs(env, ns));
    CutPrefix("{", Join(ps) + ("}" + s), Join(qs) + ("}" + t));
    SortedFromMembers(env, ms);
    SortedFromMembers(env, ns);
    PairsPrefix(env, ms, ns, ps, qs, s, t);
    MembersSame(env, ms, ns, qs);
  }

  lemma ObjectBody(env: Env, ms: seq<Member>, s: string)
    requires Plain(env, Object(ms))
    ensures PlainMembers(env, ms)
    ensures Text(env, Object(ms)) + s == "{" + (Join(Sort(Pairs(env, ms))) + ("}" + s))
  {
    hide Text, Join, Sort, Pairs;
    TextOfObject(env, ms);
  }

  lemma {:induction false} MembersSame(env: Env, ms: seq<Member>, ns: seq<Member>, qs: seq<Pair>)
    requires PlainMembers(env, ms) && PlainMembers(env, ns) && FromMembers(env, qs, ns)
    requires forall i :: 0 <= i < |ms| ==> PairOf(env, ms[i]) in qs
    ensures forall i :: 0 <= i < |ms| ==> HasPartner(ms[i], ns)
    decreases ms, 0
  {
    hide Text, Same;
    forall i | 0 <= i < |ms| ensures HasPartner(ms[i], ns) {
      var k :| 0 <= k < |qs| && qs[k] == PairOf(env, ms[i]);
      assert IsPrinted(env, qs[k], ns);
      var j :| 0 <= j < |ns| && qs[k] == PairOf(env, ns[j]);
      MemberPrefix(env, ms[i], ns[j], [], []);
    }
  }

  // ---------- Equal values have equal texts ----------

  function Keys(ms: seq<Member>): set<string> { set i | 0 <= i < |ms| :: ms[i].key }

  lemma {:induction false} KeyCount(ms: seq<Member>)
    requires DistinctKeys(ms)
    ensures |Keys(ms)| == |ms|
  {
    if ms != [] {
      var init, last := ms[..|ms| - 1], ms[|ms| - 1];
      KeyCount(init);
      KeysAppend(init, last);
      assert ms == init + [last];
      assert last.key !in Keys(init);
    }
  }

  lemma KeysAppend(ms: seq<Member>, m: Member)
    ensures Keys(ms + [m]) == Keys(ms) + {m.key}
  {
    var all := ms + [m];
    assert forall i :: 0 <= i < |ms| ==> all[i].key == ms[i].key;
    assert all[|ms|].key == m.key;
  }

  lemma SubsetSameSize<T>(a: set<T>, b: set<T>)
    requires a <= b && |a| == |b|
    ensures a == b
  {
    assert b == a + (b - a);
  }

  /** With as many distinct keys on both sides, every member on the right is matched too. */
  lemma MatchedBack(ms: seq<Member>, ns: seq<Member>, j: nat) returns (i: nat)
    requires Same(Object(ms), Object(ns)) && DistinctKeys(ms) && DistinctKeys(ns) && j < |ns|
    ensures i < |ms| && ms[i].key == ns[j].key && Same(ms[i].val, ns[j].val)
  {
    KeyCount(ms);
    KeyCount(ns);
    assert Keys(ms) <= Keys(ns) by {
      forall i | 0 <= i < |ms| ensures ms[i].key in Keys(ns) {
        assert HasPartner(ms[i], ns);
        var j' :| 0 <= j' < |ns| && ms[i].key == ns[j'].key && Same(ms[i].val, ns[j'].val);
      }
    }
    SubsetSameSize(Keys(ms), Keys(ns));
    assert ns[j].key in Keys(ms);
    i :| 0 <= i < |ms| && ms[i].key == ns[j].key;
    assert HasPartner(ms[i], ns);
    var j' :| 0 <= j' < |ns| && ms[i].key == ns[j'].key && Same(ms[i].val, ns[j'].val);
  }

  lemma {:induction false} SameText(env: Env, a: Json, b: Json)
    requires Plain(env, a) && Plain(env, b) && Same(a, b)
    ensures Text(env, a) == Text(env, b)
    decreases a, 1
  {
    if a.Array? {
      SameTexts(env, a.xs, b.xs);
      TextOfArray(env, a.xs);
      TextOfArray(env, b.xs);
    } else if a.Object? {
      SamePairs(env, a.members, b.members);
      TextOfObject(env, a.members);
      TextOfObject(env, b.members);
    }
  }

  lemma {:induction false} SameTexts(env: Env, xs: seq<Json>, ys: seq<Json>)
    requires PlainItems(env, xs) && PlainItems(env, ys) && |xs| == |ys| && forall i :: 0 <= i < |xs| ==>
      Same(xs[i], ys[i])
    ensures Texts(env, xs) == Texts(env, ys)
    decreases xs, 0
  {
    hide Text, Same;
    forall i | 0 <= i < |xs| ensures Text(env, xs[i]) == Text(env, ys[i]) {
      SameText(env, xs[i], ys[i]);
    }
  }

  lemma {:induction false} SameMember(env: Env, m: Member, n: Member)
    requires PlainMember(env, m) && PlainMember(env, n) && m.key == n.key && Same(m.val, n.val)
    ensures PairOf(env, m) == PairOf(env, n)
    decreases m
  {
    SameText(env, m.val, n.val);
  }

  lemma {:induction false} SamePairs(env: Env, ms: seq<Member>, ns: seq<Member>)
    requires PlainMembers(env, ms) && PlainMembers(env, ns) && DistinctKeys(ms) && DistinctKeys(ns)
    requires Same(Object(ms), Object(ns))
    ensures Sort(Pairs(env, ms)) == Sort(Pairs(env, ns))
    decreases ms, 0
  {
    var ps, qs := Pairs(env, ms), Pairs(env, ns);
    forall x | x in ps ensures x in qs {
      var i :| 0 <= i < |ps| && ps[i] == x;
      assert HasPartner(ms[i], ns);
      var j :| 0 <= j < |ns| && ms[i].key == ns[j].key && Same(ms[i].val, ns[j].val);
      SameMember(env, ms[i], ns[j]);
      assert qs[j] == x;
    }
    forall x | x in qs ensures x in ps {
      var j :| 0 <= j < |qs| && qs[j] == x;
      var i := MatchedBack(ms, ns, j);
      SameMember(env, ms[i], ns[j]);
      assert ps[i] == x;
    }
    SortMembers(ps);
    SortMembers(qs);
    SortSorted(ps);
    SortSorted(qs);
    IncreasingUnique(Sort(ps), Sort(qs));
  }

  /**
   * The canonical texts of two plain values are the same string if and only if the values are
   * equal up to the order of object members, at any nesting.
   */
  lemma CanonicalIdentity(env: Env, a: Json, b: Json)
    requires Plain(env, a) && Plain(env, b)
    ensures Canon(env, a).Ok? && Canon(env, b).Ok?
    ensures Canon(env, a) == Canon(env, b) <==> Same(a, b)
  {
    PlainPrints(env, a);
    PlainPrints(env, b);
    if Same(a, b) {
      SameText(env, a, b);
    }
    if Canon(env, a) == Canon(env, b) {
      TextPrefix(env, a, b, [], []);
    }
  }
}
