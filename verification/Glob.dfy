/** The glob language of `glob.rs`: one star stops at a slash, two stars do not, everything else is literal. */
module Glob {
  import opened Common

  datatype Tok = Any | AnySegment | Lit(c: char)

  /** How many characters the first token of a pattern takes: two for a pair of stars. */
  function Width(p: string): (n: nat)
    requires p != []
    ensures 1 <= n <= |p|
  {
    if p[0] == '*' && |p| >= 2 && p[1] == '*' then 2 else 1
  }

  function First(p: string): Tok
    requires p != []
  {
    if p[0] != '*' then Lit(p[0]) else if Width(p) == 2 then Any else AnySegment
  }

  /** The token list the program builds: stars are taken two at a time from the left. */
  function Tokens(p: string): seq<Tok> {
    if p == [] then [] else [First(p)] + Tokens(p[Width(p)..])
  }

  // ---------- Declarative meaning ----------

  predicate SlashFree(s: string) { '/' !in s }

  predicate TokMatches(t: Tok, piece: string) {
    match t
    case Any => true
    case AnySegment => SlashFree(piece)
    case Lit(c) => piece == [c]
  }

  /** `pieces` cuts `v` into one piece per token, each matching its token. */
  predicate Splits(toks: seq<Tok>, v: string, pieces: seq<string>) {
    && |pieces| == |toks|
    && Concat(pieces) == v
    && forall i :: 0 <= i < |toks| ==> TokMatches(toks[i], pieces[i])
  }

  ghost predicate Matches(toks: seq<Tok>, v: string) {
    exists pieces :: Splits(toks, v, pieces)
  }

  lemma ConcatOne(s: string)
    ensures Concat([s]) == s
  {
    assert Concat([s]) == s + Concat([]);
  }

  lemma MatchesAppend(t1: seq<Tok>, t2: seq<Tok>, v1: string, v2: string)
    requires Matches(t1, v1) && Matches(t2, v2)
    ensures Matches(t1 + t2, v1 + v2)
  {
    var a :| Splits(t1, v1, a);
    var b :| Splits(t2, v2, b);
    ConcatAppend(a, b);
    assert Splits(t1 + t2, v1 + v2, a + b);
  }

  lemma MatchesOne(t: Tok, v: string)
    ensures Matches([t], v) <==> TokMatches(t, v)
  {
    if TokMatches(t, v) {
      ConcatOne(v);
      assert Splits([t], v, [v]);
    }
    if Matches([t], v) {
      var pieces :| Splits([t], v, pieces);
      assert pieces == [pieces[0]];
      ConcatOne(pieces[0]);
    }
  }

  /** A match of a concatenation of token lists is a cut of the value in two. */
  lemma MatchesSplit(t1: seq<Tok>, t2: seq<Tok>, v: string) returns (k: nat)
    requires Matches(t1 + t2, v)
    ensures k <= |v| && Matches(t1, v[..k]) && Matches(t2, v[k..])
  {
    hide TokMatches, Concat;
    var pieces :| Splits(t1 + t2, v, pieces);
    var a, b := pieces[..|t1|], pieces[|t1|..];
    assert pieces == a + b;
    ConcatAppend(a, b);
    k := |Concat(a)|;
    forall i | 0 <= i < |t1| ensures TokMatches(t1[i], a[i]) {
      assert (t1 + t2)[i] == t1[i] && pieces[i] == a[i];
    }
    forall i | 0 <= i < |t2| ensures TokMatches(t2[i], b[i]) {
      assert (t1 + t2)[|t1| + i] == t2[i] && pieces[|t1| + i] == b[i];
    }
    assert Splits(t1, v[..k], a);
    assert Splits(t2, v[k..], b);
  }

  lemma MatchesEmpty(v: string)
    ensures Matches([], v) <==> v == []
  {
    assert Splits([], [], []);
  }

  /** Matching one more token: it takes some last piece of the value. */
  lemma MatchesSnoc(toks: seq<Tok>, t: Tok, v: string)
    ensures Matches(toks + [t], v) <==> exists k :: 0 <= k <= |v| && Matches(toks, v[..k]) && TokMatches(t, v[k..])
  {
    if Matches(toks + [t], v) {
      var k := MatchesSplit(toks, [t], v);
      MatchesOne(t, v[k..]);
    }
    if k :| 0 <= k <= |v| && Matches(toks, v[..k]) && TokMatches(t, v[k..]) {
      MatchesOne(t, v[k..]);
      MatchesAppend(toks, [t], v[..k], v[k..]);
      assert v == v[..k] + v[k..];
    }
  }

  // ---------- The program ----------

  method Tokenize(pattern: string) returns (toks: seq<Tok>)
    ensures toks == Tokens(pattern)
  {
    hide Tokens;
    toks := [];
    var i := 0;
    assert pattern[0..] == pattern && [] + Tokens(pattern) == Tokens(pattern);
    while i < |pattern|
      invariant 0 <= i <= |pattern|
      invariant toks + Tokens(pattern[i..]) == Tokens(pattern)
    {
      ghost var rest := pattern[i..];
      var c := pattern[i];
      i := i + 1;
      var tok := Lit(c);
      if c == '*' {
        if i < |pattern| && pattern[i] == '*' {
          i := i + 1;
          tok := Any;
        } else {
          tok := AnySegment;
        }
      }
      TokensStep(toks, rest);
      assert rest[Width(rest)..] == pattern[i..];
      toks := toks + [tok];
    }
    assert pattern[|pattern|..] == [];
    TokensNone();
    assert toks + [] == toks;
  }

  lemma TokensNone()
    ensures Tokens([]) == []
  {
  }

  lemma TokensStep(toks: seq<Tok>, rest: string)
    requires rest != []
    ensures toks + Tokens(rest) == toks + [First(rest)] + Tokens(rest[Width(rest)..])
  {
  }

  /** Row `dp` says, for each prefix of `v`, whether the tokens read so far match it. */
  ghost predicate IsRow(dp: seq<bool>, toks: seq<Tok>, v: string) {
    |dp| == |v| + 1 && forall j :: 0 <= j <= |v| ==> dp[j] == Matches(toks, v[..j])
  }

  lemma RowLit(dp: seq<bool>, toks: seq<Tok>, c: char, v: string, j: nat)
    requires IsRow(dp, toks, v) && j <= |v|
    ensures Matches(toks + [Lit(c)], v[..j]) <==> j > 0 && dp[j - 1] && v[j - 1] == c
  {
    var w := v[..j];
    MatchesSnoc(toks, Lit(c), w);
    if Matches(toks + [Lit(c)], w) {
      var k :| 0 <= k <= |w| && Matches(toks, w[..k]) && TokMatches(Lit(c), w[k..]);
      assert k == j - 1 && w[..k] == v[..j - 1] && w[k..][0] == v[j - 1];
    }
    if j > 0 && dp[j - 1] && v[j - 1] == c {
      assert w[..j - 1] == v[..j - 1] && w[j - 1..] == [c];
    }
  }

  lemma RowStar(dp: seq<bool>, toks: seq<Tok>, t: Tok, v: string, j: nat)
    requires IsRow(dp, toks, v) && j <= |v| && !t.Lit?
    ensures Matches(toks + [t], v[..j]) <==> exists k :: 0 <= k <= j && dp[k] && TokMatches(t, v[k..j])
  {
    var w := v[..j];
    MatchesSnoc(toks, t, w);
    assert forall k :: 0 <= k <= j ==> w[..k] == v[..k] && w[k..] == v[k..j];
  }

  method LiteralRow(dp: array<bool>, l: char, v: string, ghost toks: seq<Tok>) returns (next: array<bool>)
    requires IsRow(dp[..], toks, v)
    ensures fresh(next) && IsRow(next[..], toks + [Lit(l)], v)
  {
    next := new bool[|v| + 1](_ => false);
    for j := 0 to |v|
      invariant !next[0]
      invariant forall i :: 0 <= i < j ==> next[i + 1] == (dp[i] && v[i] == l)
    {
      next[j + 1] := dp[j] && v[j] == l;
    }
    forall j | 0 <= j <= |v| ensures next[j] == Matches(toks + [Lit(l)], v[..j]) {
      RowLit(dp[..], toks, l, v, j);
    }
  }

  method AnyRow(dp: array<bool>, v: string, ghost toks: seq<Tok>) returns (next: array<bool>)
    requires IsRow(dp[..], toks, v)
    ensures fresh(next) && IsRow(next[..], toks + [Any], v)
  {
    next := new bool[|v| + 1](_ => false);
    var reachable := false;
    for j := 0 to |v| + 1
      invariant reachable <==> exists k :: 0 <= k < j && dp[k]
      invariant forall i :: 0 <= i < j ==> next[i] == exists k :: 0 <= k <= i && dp[k]
    {
      reachable := reachable || dp[j];
      next[j] := reachable;
    }
    forall j | 0 <= j <= |v| ensures next[j] == Matches(toks + [Any], v[..j]) {
      RowStar(dp[..], toks, Any, v, j);
    }
  }

  /** Some reachable prefix ends at or before `upTo` with no slash between it and position `j`. */
  predicate Reaches(dp: seq<bool>, v: string, upTo: int, j: nat)
    requires upTo <= j <= |v| < |dp|
  {
    exists k :: 0 <= k <= upTo && dp[k] && SlashFree(v[k..j])
  }

  lemma ReachesStep(dp: seq<bool>, v: string, j: nat)
    requires j < |v| < |dp|
    ensures Reaches(dp, v, j, j + 1) <==> Reaches(dp, v, j, j) && v[j] != '/'
  {
    assert forall k :: 0 <= k <= j ==> v[k..j + 1] == v[k..j] + [v[j]];
  }

  method SegmentRow(dp: array<bool>, v: string, ghost toks: seq<Tok>) returns (next: array<bool>)
    requires IsRow(dp[..], toks, v)
    ensures fresh(next) && IsRow(next[..], toks + [AnySegment], v)
  {
    next := new bool[|v| + 1](_ => false);
    ghost var row := dp[..];
    var reachable := false;
    for j := 0 to |v| + 1
      invariant j <= |v| ==> (reachable <==> Reaches(row, v, j - 1, j))
      invariant forall i :: 0 <= i < j ==> next[i] == Reaches(row, v, i, i)
    {
      assert SlashFree(v[j..j]);
      reachable := reachable || dp[j];
      next[j] := reachable;
      assert reachable <==> Reaches(row, v, j, j);
      if j < |v| {
        ReachesStep(row, v, j);
      }
      if j < |v| && v[j] == '/' {
        reachable := false;
      }
    }
    forall j | 0 <= j <= |v| ensures next[j] == Matches(toks + [AnySegment], v[..j]) {
      RowStar(row, toks, AnySegment, v, j);
    }
  }

  /** `glob_match`: true exactly when the value can be cut into pieces that match the tokens one by one. */
  method GlobMatch(pattern: string, value: string) returns (r: bool)
    ensures r <==> Matches(Tokens(pattern), value)
  {
    var toks := Tokenize(pattern);
    var dp := new bool[|value| + 1](_ => false);
    dp[0] := true;
    forall j | 0 <= j <= |value| ensures dp[j] == Matches(toks[..0], value[..j]) {
      MatchesEmpty(value[..j]);
    }
    for i := 0 to |toks|
      invariant fresh(dp)
      invariant IsRow(dp[..], toks[..i], value)
    {
      assert toks[..i + 1] == toks[..i] + [toks[i]];
      match toks[i]
      case Lit(l) => dp := LiteralRow(dp, l, value, toks[..i]);
      case Any => dp := AnyRow(dp, value, toks[..i]);
      case AnySegment => dp := SegmentRow(dp, value, toks[..i]);
    }
    assert toks[..|toks|] == toks && value[..|value|] == value;
    assert dp[|value|] == dp[..][|value|];
    r := dp[|value|];
  }

  // ---------- Laws of the language ----------

  ghost predicate Accepts(p: string, v: string) { Matches(Tokens(p), v) }

  lemma MatchesCons(t: Tok, toks: seq<Tok>, v: string)
    ensures Matches([t] + toks, v) <==> exists k :: 0 <= k <= |v| && TokMatches(t, v[..k]) && Matches(toks, v[k..])
  {
    if Matches([t] + toks, v) {
      var k := MatchesSplit([t], toks, v);
      MatchesOne(t, v[..k]);
    }
    if k :| 0 <= k <= |v| && TokMatches(t, v[..k]) && Matches(toks, v[k..]) {
      MatchesOne(t, v[..k]);
      MatchesAppend([t], toks, v[..k], v[k..]);
      assert v == v[..k] + v[k..];
    }
  }

  lemma MatchesTail(t: Tok, toks: seq<Tok>, v: string) returns (k: nat)
    requires Matches([t] + toks, v)
    ensures k <= |v| && TokMatches(t, v[..k]) && Matches(toks, v[k..])
  {
    MatchesCons(t, toks, v);
    k :| 0 <= k <= |v| && TokMatches(t, v[..k]) && Matches(toks, v[k..]);
  }

  lemma MatchesFrom(t: Tok, toks: seq<Tok>, v: string, k: nat)
    requires k <= |v| && TokMatches(t, v[..k]) && Matches(toks, v[k..])
    ensures Matches([t] + toks, v)
  {
    MatchesCons(t, toks, v);
  }

  lemma AcceptsCons(t: Tok, x: string, rest: string, v: string)
    requires TokMatches(t, x) && Accepts(rest, v)
    ensures Matches([t] + Tokens(rest), x + v)
  {
    MatchesOne(t, x);
    MatchesAppend([t], Tokens(rest), x, v);
  }

  /** Matching is closed under concatenation, even where the star runs of the two patterns merge. */
  lemma {:induction false} MatchesConcatenate(p: string, q: string, v: string, w: string)
    requires Accepts(p, v) && Accepts(q, w)
    ensures Accepts(p + q, v + w)
    decreases |p| + |q|
  {
    hide Matches;
    if p == [] {
      MatchesEmpty(v);
      assert p + q == q && v + w == w;
      return;
    }
    var n, t := Width(p), First(p);
    var rest := p[n..];
    var k := MatchesTail(t, Tokens(rest), v);
    assert v + w == v[..k] + (v[k..] + w);
    if p == "*" && q != [] && q[0] == '*' {
      MatchesEmpty(v[k..]);
      assert v[..k] == v;
      StarThenStars(q, v, w);
    } else {
      assert (p + q)[n..] == rest + q;
      assert Tokens(p + q) == [t] + Tokens(rest + q);
      MatchesConcatenate(rest, q, v[k..], w);
      AcceptsCons(t, v[..k], rest + q, v[k..] + w);
    }
  }

  lemma {:induction false} StarThenStars(q: string, v: string, w: string)
    requires q != [] && q[0] == '*' && SlashFree(v) && Accepts(q, w)
    ensures Accepts("*" + q, v + w)
    decreases 1 + |q|, 0
  {
    hide Matches, Tokens;
    MergedStars(q);
    var rest := q[Width(q)..];
    var k := MatchesTail(First(q), Tokens(rest), w);
    Regroup(v, w[..k], w[k..]);
    assert w == w[..k] + w[k..];
    if Width(q) == 1 {
      AcceptsCons(Any, v + w[..k], rest, w[k..]);
    } else {
      StarMatchesNothing();
      MatchesConcatenate("*", rest, [], w[k..]);
      assert [] + w[k..] == w[k..];
      AcceptsCons(Any, v + w[..k], "*" + rest, w[k..]);
    }
  }

  /** A star before stars pairs up with the first of them. */
  lemma MergedStars(q: string)
    requires q != [] && q[0] == '*'
    ensures
      var n := Width(q);
      && Tokens(q) == [First(q)] + Tokens(q[n..])
      && Tokens("*" + q) == [Any] + Tokens(if n == 1 then q[n..] else "*" + q[n..])
  {
    var pq := "*" + q;
    assert pq[2..] == if Width(q) == 1 then q[1..] else "*" + q[2..];
  }

  lemma StarMatchesNothing()
    ensures Accepts("*", [])
  {
    MatchesOne(AnySegment, []);
    assert Tokens("*") == [AnySegment];
  }

  lemma {:induction false} TokensAppend(p: string, q: string)
    requires p == [] || p[|p| - 1] != '*' || q == [] || q[0] != '*'
    ensures Tokens(p + q) == Tokens(p) + Tokens(q)
  {
    if p == [] {
      assert p + q == q;
    } else {
      var n := Width(p);
      assert Width(p + q) == n && First(p + q) == First(p);
      assert (p + q)[n..] == p[n..] + q;
      TokensAppend(p[n..], q);
    }
  }

  function Stars(n: nat): string { seq(n, _ => '*') }

  lemma {:induction false} StarsMatchNothing(n: nat)
    ensures Accepts(Stars(n), [])
  {
    if n == 0 {
      MatchesEmpty([]);
    } else {
      assert Stars(n) == Stars(n - 1) + "*";
      StarMatchesNothing();
      StarsMatchNothing(n - 1);
      MatchesConcatenate(Stars(n - 1), "*", "", "");
      assert "" + "" == "";
    }
  }

  lemma StarsMeaning(n: nat, v: string)
    requires n >= 1
    ensures Accepts(Stars(n), v) <==> (n == 1 ==> SlashFree(v))
  {
    if n == 1 {
      assert Stars(1) == "*" && Tokens("*") == [AnySegment];
      MatchesOne(AnySegment, v);
    } else {
      assert Stars(n)[2..] == Stars(n - 2);
      StarsMatchNothing(n - 2);
      AcceptsCons(Any, v, Stars(n - 2), []);
      assert v + [] == v;
    }
  }

  /** Inside any pattern a run of one star stands for slash-free text and a longer run for any text. */
  lemma StarRunMeaning(p: string, n: nat, q: string, v: string)
    requires n >= 1
    requires p == [] || p[|p| - 1] != '*'
    requires q == [] || q[0] != '*'
    ensures Accepts(p + Stars(n) + q, v) <==>
            exists a, b :: 0 <= a <= b <= |v| && Accepts(p, v[..a]) && (n == 1 ==> SlashFree(v[a..b])) &&
              Accepts(q, v[b..])
  {
    hide Tokens, Matches;
    TokensAppend(p + Stars(n), q);
    TokensAppend(p, Stars(n));
    var star := Tokens(Stars(n));
    if Accepts(p + Stars(n) + q, v) {
      var b := MatchesSplit(Tokens(p) + star, Tokens(q), v);
      var a := MatchesSplit(Tokens(p), star, v[..b]);
      assert v[..b][..a] == v[..a] && v[..b][a..] == v[a..b];
      StarsMeaning(n, v[a..b]);
    }
    if a, b :| 0 <= a <= b <= |v| && Accepts(p, v[..a]) && (n == 1 ==> SlashFree(v[a..b])) && Accepts(q, v[b..]) {
      StarsMeaning(n, v[a..b]);
      MatchesAppend(Tokens(p), star, v[..a], v[a..b]);
      MatchesAppend(Tokens(p) + star, Tokens(q), v[..a] + v[a..b], v[b..]);
      assert v == v[..a] + v[a..b] + v[b..];
    }
  }

  /** A pattern without stars accepts only itself. */
  lemma {:induction false} LiteralPattern(p: string, v: string)
    requires '*' !in p
    ensures Accepts(p, v) <==> v == p
  {
    if p == [] {
      MatchesEmpty(v);
    } else {
      MatchesCons(Lit(p[0]), Tokens(p[1..]), v);
      if Accepts(p, v) {
        var k :| 0 <= k <= |v| && TokMatches(Lit(p[0]), v[..k]) && Matches(Tokens(p[1..]), v[k..]);
        LiteralPattern(p[1..], v[k..]);
        assert v == v[..k] + v[k..];
      }
      if v == p {
        LiteralPattern(p[1..], v[1..]);
        assert v[..1] == [p[0]];
      }
    }
  }
}
