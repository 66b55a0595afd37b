/** Base64 text as a number: its symbols are the base-64 digits of the bytes read as one base-256 number. */
module Base64Bits {
  import opened Common
  import opened Radix
  import opened Base64

  /** The symbols of these digits. */
  predicate Shows(e: Engine, text: seq<byte>, ds: seq<nat>) {
    && |text| == |ds| && AreDigits(64, ds)
    && forall i :: 0 <= i < |ds| ==> text[i] == Symbol(e, ds[i])
  }

  /** The factor of the zero bits that fill the last symbol. */
  function Spare(n: nat): nat { if n % 3 == 0 then 1 else if n % 3 == 1 then 16 else 4 }

  lemma ValOfThree(a: nat, b: nat, c: nat)
    ensures Val(256, [a]) == a && Val(256, [a, b]) == 0x100 * a + b
    ensures Val(256, [a, b, c]) == 0x1_0000 * a + 0x100 * b + c
  {
    assert [a][..0] == [] && [a, b][..1] == [a] && [a, b, c][..2] == [a, b];
  }

  lemma ValOfFour(a: nat, b: nat, c: nat, d: nat)
    ensures Val(64, [a, b]) == 64 * a + b && Val(64, [a, b, c]) == 0x1000 * a + 64 * b + c
    ensures Val(64, [a, b, c, d]) == 0x4_0000 * a + 0x1000 * b + 64 * c + d
  {
    assert [a][..0] == [] && [a, b][..1] == [a] && [a, b, c][..2] == [a, b] && [a, b, c, d][..3] == [a, b, c];
    assert Val(64, [a]) == a;
    assert Val(64, [a, b]) == 64 * a + b;
  }

  lemma {:induction false} ValAppend(base: nat, s: seq<nat>, t: seq<nat>)
    ensures Val(base, s + t) == Val(base, s) * Pow(base, |t|) + Val(base, t)
  {
    if t == [] {
      assert s + t == s;
    } else {
      var init, d := t[..|t| - 1], t[|t| - 1];
      ValAppend(base, s, init);
      ValSnoc(base, s + init, d);
      ValSnoc(base, init, d);
      PowStep(base, |init|);
      assert s + t == s + init + [d] && t == init + [d];
      hide Val, Pow;
      Rearrange(base, Val(base, s), Pow(base, |init|), Val(base, init));
    }
  }

  lemma Rearrange(base: nat, v: nat, p: nat, w: nat)
    ensures (v * p + w) * base == v * (base * p) + w * base
  {
  }

  function GroupDigits(a: byte, b: byte, c: byte): seq<nat> {
    var n := FromBytes(a, b, c);
    [Sextet0(n), Sextet1(n), Sextet2(n), Sextet3(n)]
  }

  lemma GroupShows(e: Engine, a: byte, b: byte, c: byte)
    ensures Shows(e, EncodeGroup(e, a, b, c), GroupDigits(a, b, c))
  {
    hide FromBytes, Sextet0, Sextet1, Sextet2, Sextet3, Symbol;
  }

  lemma GroupValue(a: byte, b: byte, c: byte)
    ensures Val(64, GroupDigits(a, b, c)) == Val(256, [a, b, c])
  {
    var n := FromBytes(a, b, c);
    GroupOfSextets(n);
    ValOfFour(Sextet0(n), Sextet1(n), Sextet2(n), Sextet3(n));
    ValOfThree(a, b, c);
    hide Sextet0, Sextet1, Sextet2, Sextet3, Val;
  }

  lemma SmallPowers()
    ensures Pow(64, 0) == 1 && Pow(64, 2) == 0x1000 && Pow(64, 3) == 0x4_0000 && Pow(64, 4) == 0x100_0000
    ensures Pow(256, 0) == 1 && Pow(256, 1) == 0x100 && Pow(256, 2) == 0x1_0000 && Pow(256, 3) == 0x100_0000
  {
    assert Pow(64, 1) == 64 && Pow(64, 2) == 0x1000 && Pow(64, 3) == 0x4_0000;
    assert Pow(256, 1) == 0x100 && Pow(256, 2) == 0x1_0000;
  }

  ghost predicate Carries(e: Engine, input: seq<byte>, ds: seq<nat>) {
    && Shows(e, Body(e, input), ds)
    && Val(64, ds) == Val(256, input) * Spare(|input|)
    && Pow(64, |ds|) == Pow(256, |input|) * Spare(|input|)
  }

  lemma TailDigits(e: Engine, input: seq<byte>) returns (ds: seq<nat>)
    requires |input| < 3
    ensures Carries(e, input, ds)
  {
    SmallPowers();
    if input == [] {
      ds := [];
    } else {
      var a, b := input[0], if |input| == 2 then input[1] else 0;
      var all := GroupDigits(a, b, 0);
      GroupShows(e, a, b, 0);
      ds := all[..|input| + 1];
      assert Body(e, input) == EncodeGroup(e, a, b, 0)[..|input| + 1];
      hide EncodeGroup, Symbol, Pow;
      TailValue(a, b);
      assert input == if |input| == 2 then [a, b] else [a];
    }
  }

  lemma TailValue(a: byte, b: byte)
    ensures Val(64, GroupDigits(a, b, 0)[..3]) == Val(256, [a, b]) * 4
    ensures b == 0 ==> Val(64, GroupDigits(a, b, 0)[..2]) == Val(256, [a]) * 16
  {
    hide Val, Sextet0, Sextet1, Sextet2, Sextet3;
    var n := FromBytes(a, b, 0);
    var s: nat, t: nat, u: nat, v: nat := Sextet0(n), Sextet1(n), Sextet2(n), Sextet3(n);
    GroupOfSextets(n);
    ValOfFour(s, t, u, v);
    ValOfThree(a, b, 0);
    assert GroupDigits(a, b, 0)[..3] == [s, t, u] && GroupDigits(a, b, 0)[..2] == [s, t];
    SpareBits(a, b, s, t, u, v);
  }

  lemma SpareBits(a: nat, b: nat, s: nat, t: nat, u: nat, v: nat)
    requires u < 64 && v < 64 && 0x4_0000 * s + 0x1000 * t + 64 * u + v == 0x1_0000 * a + 0x100 * b
    ensures 0x1000 * s + 64 * t + u == 4 * (0x100 * a + b)
    ensures b == 0 ==> 64 * s + t == 16 * a
  {
    assert v == 64 * (0x400 * a + 4 * b - 0x1000 * s - 64 * t - u);
    assert b == 0 ==> u == 64 * (16 * a - 64 * s - t);
  }

  /**
   * Without padding, an encoding shows the base-64 digits of its bytes, most significant first, filled up with zero
   * bits to a whole symbol.
   */
  lemma {:induction false} EncodedBits(e: Engine, input: seq<byte>) returns (ds: seq<nat>)
    ensures Encoded(e, input) == Body(e, input) + Padding(e, |input|)
    ensures Carries(e, input, ds)
  {
    EncodedIsBodyAndPadding(e, input);
    if |input| < 3 {
      ds := TailDigits(e, input);
    } else {
      var a, b, c, rest := input[0], input[1], input[2], input[3..];
      var more := EncodedBits(e, rest);
      var first := GroupDigits(a, b, c);
      ds := first + more;
      GroupShows(e, a, b, c);
      BitsStep(first, more, [a, b, c], rest);
      assert input == [a, b, c] + rest;
      hide Val, Pow, EncodeGroup, Symbol, FromBytes, Sextet0, Sextet1, Sextet2, Sextet3;
    }
  }

  lemma BitsStep(first: seq<nat>, more: seq<nat>, three: seq<byte>, rest: seq<byte>)
    requires |three| == 3 && first == GroupDigits(three[0], three[1], three[2])
    requires Val(64, more) == Val(256, rest) * Spare(|rest|) && Pow(64, |more|) == Pow(256, |rest|) * Spare(|rest|)
    ensures Val(64, first + more) == Val(256, three + rest) * Spare(|three + rest|)
    ensures Pow(64, |first + more|) == Pow(256, |three + rest|) * Spare(|three + rest|)
  {
    hide Val, Pow, GroupDigits, Spare;
    var g, p, v, f := Val(256, three), Pow(256, |rest|), Val(256, rest), Spare(|rest|);
    assert Val(64, first) == g by {
      assert three == [three[0], three[1], three[2]];
      GroupValue(three[0], three[1], three[2]);
    }
    assert |first| == 4 by {
      GroupSize(three[0], three[1], three[2]);
    }
    SpareStep(|rest|);
    ValAppend(64, first, more);
    ValAppend(256, three, rest);
    Factor(g, p, v, f);
    PowersStep(|more|, |rest|, f);
  }

  lemma GroupSize(a: byte, b: byte, c: byte)
    ensures |GroupDigits(a, b, c)| == 4
  {
  }

  lemma SpareStep(n: nat)
    ensures Spare(3 + n) == Spare(n)
  {
  }

  lemma PowersStep(m: nat, n: nat, f: nat)
    requires Pow(64, m) == Pow(256, n) * f
    ensures Pow(64, 4 + m) == Pow(256, 3 + n) * f
  {
    PowAdd(64, 4, m);
    PowAdd(256, 3, n);
    SmallPowers();
    hide Pow;
    MulAssociative(0x100_0000, Pow(256, n), f);
  }

  lemma Factor(g: nat, p: nat, v: nat, f: nat)
    ensures g * (p * f) + v * f == (g * p + v) * f
  {
  }
}
