/** When one glob pattern covers another: a test on the patterns that needs no targets. */
module GlobCover {
  import opened Glob

  /** What a star that stops at a slash can stand for, whatever the other pattern's tokens stand for. */
  predicate InSegment(t: Tok) { t == AnySegment || (t.Lit? && t.c != '/') }

  /** The tokens of `p` can be laid over those of `q`: a literal over itself, a star over any it can stand for. */
  predicate Over(p: seq<Tok>, q: seq<Tok>)
    decreases |p| + |q|
  {
    if p == [] then q == []
    else if p[0].Lit? then q != [] && q[0] == p[0] && Over(p[1..], q[1..])
    else Over(p[1..], q) || (q != [] && (p[0].Any? || InSegment(q[0])) && Over(p, q[1..]))
  }

  predicate Covers(p: string, q: string) { Over(Tokens(p), Tokens(q)) }

  // ---------- A pattern accepts what it covers ----------

  /** A star matches more on its left: any text, or slash-free text. */
  lemma StarGrows(t: Tok, toks: seq<Tok>, v: string, k: nat)
    requires !t.Lit? && k <= |v| && TokMatches(t, v[..k]) && Matches([t] + toks, v[k..])
    ensures Matches([t] + toks, v)
  {
    hide Matches;
    var n := MatchesTail(t, toks, v[k..]);
    assert v[k..][..n] == v[k..k + n] && v[k..][n..] == v[k + n..];
    assert v[..k + n] == v[..k] + v[k..k + n];
    MatchesFrom(t, toks, v, k + n);
  }

  lemma SegmentText(t: Tok, x: string)
    requires InSegment(t) && TokMatches(t, x)
    ensures SlashFree(x)
  {
  }

  lemma {:induction false} OverAccepts(p: seq<Tok>, q: seq<Tok>, v: string)
    requires Over(p, q) && Matches(q, v)
    ensures Matches(p, v)
    decreases |p| + |q|
  {
    hide Matches;
    if p != [] {
      assert p == [p[0]] + p[1..];
      if !p[0].Lit? && Over(p[1..], q) {
        OverAccepts(p[1..], q, v);
        assert v[0..] == v;
        MatchesFrom(p[0], p[1..], v, 0);
      } else {
        OverFirst(p, q, v);
      }
    }
  }

  /** The first token of `q` is under the first of `p`. */
  lemma {:induction false} OverFirst(p: seq<Tok>, q: seq<Tok>, v: string)
    requires p != [] && q != [] && Matches(q, v)
    requires if p[0].Lit? then q[0] == p[0] && Over(p[1..], q[1..])
             else (p[0].Any? || InSegment(q[0])) && Over(p, q[1..])
    ensures Matches(p, v)
    decreases |p| + |q|, 0
  {
    hide Matches;
    assert p == [p[0]] + p[1..] && q == [q[0]] + q[1..];
    var k := MatchesTail(q[0], q[1..], v);
    if p[0].Lit? {
      OverAccepts(p[1..], q[1..], v[k..]);
      MatchesFrom(p[0], p[1..], v, k);
    } else {
      OverAccepts(p, q[1..], v[k..]);
      if p[0].AnySegment? {
        SegmentText(q[0], v[..k]);
      }
      StarGrows(p[0], p[1..], v, k);
    }
  }

  /** A pattern accepts everything that a pattern it covers accepts. */
  lemma CoverAccepts(p: string, q: string, v: string)
    requires Covers(p, q) && Accepts(q, v)
    ensures Accepts(p, v)
  {
    OverAccepts(Tokens(p), Tokens(q), v);
  }

  // ---------- Where covering is exact ----------

  function Literals(s: string): seq<Tok> { seq(|s|, i requires 0 <= i < |s| => Lit(s[i])) }

  lemma {:induction false} LiteralTokens(s: string)
    requires '*' !in s
    ensures Tokens(s) == Literals(s)
  {
    if s != [] {
      LiteralTokens(s[1..]);
      assert Literals(s) == [Lit(s[0])] + Literals(s[1..]);
    }
  }

  lemma {:induction false} MatchIsOver(p: seq<Tok>, s: string)
    requires Matches(p, s)
    ensures Over(p, Literals(s))
    decreases |p|
  {
    hide Matches;
    if p == [] {
      MatchesEmpty(s);
    } else {
      assert p == [p[0]] + p[1..];
      var k := MatchesTail(p[0], p[1..], s);
      MatchIsOver(p[1..], s[k..]);
      PieceIsOver(p, s, k);
    }
  }

  /** Laying the first token over the first `k` characters. */
  lemma {:induction false} PieceIsOver(p: seq<Tok>, s: string, k: nat)
    requires p != [] && k <= |s| && TokMatches(p[0], s[..k]) && Over(p[1..], Literals(s[k..]))
    ensures Over(p, Literals(s))
    decreases k
  {
    if k == 0 {
      assert s[0..] == s;
    } else {
      assert Literals(s)[1..] == Literals(s[1..]) && s[1..][k - 1..] == s[k..];
      assert s[..k][0] == s[0] && s[1..][..k - 1] == s[..k][1..];
      if !p[0].Lit? {
        PieceIsOver(p, s[1..], k - 1);
      }
    }
  }

  /** A pattern covers a star-free one exactly when it accepts it. */
  lemma CoversLiteral(p: string, s: string)
    requires '*' !in s
    ensures Covers(p, s) <==> Accepts(p, s)
  {
    hide Matches, Over, Tokens;
    LiteralTokens(s);
    if Covers(p, s) {
      LiteralPattern(s, s);
      CoverAccepts(p, s, s);
    }
    if Accepts(p, s) {
      MatchIsOver(Tokens(p), s);
    }
  }

  lemma {:induction false} OverSelf(p: seq<Tok>)
    ensures Over(p, p)
  {
    if p != [] {
      OverSelf(p[1..]);
    }
  }

  lemma CoversItself(p: string)
    ensures Covers(p, p)
  {
    OverSelf(Tokens(p));
  }

  // ---------- A pattern with a star accepts long values ----------

  /** Some value of the token list, with `fill` for its first star. */
  function Sample(toks: seq<Tok>, fill: string): string {
    if toks == [] then []
    else if toks[0].Lit? then [toks[0].c] + Sample(toks[1..], fill)
    else fill + Sample(toks[1..], [])
  }

  lemma {:induction false} SampleMatches(toks: seq<Tok>, fill: string)
    requires SlashFree(fill)
    ensures Matches(toks, Sample(toks, fill))
  {
    hide Matches;
    if toks == [] {
      MatchesEmpty([]);
    } else {
      var t, rest, v := toks[0], toks[1..], Sample(toks, fill);
      var x := if t.Lit? then [t.c] else fill;
      SampleMatches(rest, if t.Lit? then fill else []);
      assert toks == [t] + rest && v[..|x|] == x && v[|x|..] == Sample(rest, if t.Lit? then fill else []);
      MatchesFrom(t, rest, v, |x|);
    }
  }

  lemma {:induction false} SampleLong(toks: seq<Tok>, fill: string)
    requires exists i :: 0 <= i < |toks| && !toks[i].Lit?
    ensures |Sample(toks, fill)| >= |fill|
  {
    if toks[0].Lit? {
      var i :| 0 <= i < |toks| && !toks[i].Lit?;
      assert toks[1..][i - 1] == toks[i];
      SampleLong(toks[1..], fill);
    }
  }

  lemma {:induction false} StarToken(p: string)
    requires '*' in p
    ensures exists i :: 0 <= i < |Tokens(p)| && !Tokens(p)[i].Lit?
  {
    if p[0] == '*' {
      assert Tokens(p)[0] == First(p);
    } else {
      var k :| 0 <= k < |p| && p[k] == '*';
      assert p[1..][k - 1] == '*';
      StarToken(p[1..]);
      var i :| 0 <= i < |Tokens(p[1..])| && !Tokens(p[1..])[i].Lit?;
      assert Tokens(p)[i + 1] == Tokens(p[1..])[i];
    }
  }

  /** No bound on the length of what a pattern with a star accepts. */
  lemma StarredIsUnbounded(p: string, n: nat) returns (v: string)
    requires '*' in p
    ensures Accepts(p, v) && |v| >= n
  {
    var fill := seq(n, _ => 'x');
    StarToken(p);
    SampleMatches(Tokens(p), fill);
    SampleLong(Tokens(p), fill);
    v := Sample(Tokens(p), fill);
  }
}
