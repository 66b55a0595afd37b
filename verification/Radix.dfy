/** Positional notation: big-endian digit sequences in any base, and power comparisons. */
module Radix {

  function Pow(b: nat, e: nat): nat { if e == 0 then 1 else b * Pow(b, e - 1) }

  predicate AreDigits(base: nat, ds: seq<nat>) { forall i :: 0 <= i < |ds| ==> ds[i] < base }

  function Val(base: nat, ds: seq<nat>): nat {
    if ds == [] then 0 else Val(base, ds[..|ds| - 1]) * base + ds[|ds| - 1]
  }

  /** The digits of `n` without leading zeros; none for zero. */
  function Digits(base: nat, n: nat): seq<nat>
    requires base >= 2
  {
    if n == 0 then [] else DivShrinks(n, base); Digits(base, n / base) + [n % base]
  }

  lemma DivShrinks(n: nat, base: nat)
    requires n > 0 && base >= 2
    ensures 0 <= n / base < n
  {
    var q := n / base;
    DivModIdentity(n, base);
    MulMonotone(2, base, q);
    assert 2 * q <= base * q == q * base <= n;
  }

  function Strip(ds: seq<nat>): seq<nat> {
    if ds != [] && ds[0] == 0 then Strip(ds[1..]) else ds
  }

  lemma MulMonotone(a: nat, b: nat, c: nat)
    requires a <= b
    ensures a * c <= b * c
  {
  }

  lemma MulAssociative(a: nat, b: nat, c: nat)
    ensures a * (b * c) == a * b * c
  {
  }

  lemma MulStrict(a: nat, b: nat, x: nat, y: nat)
    requires a < b && x <= y && y >= 1
    ensures a * x < b * y
  {
    MulMonotone(x, y, a);
    MulMonotone(a + 1, b, y);
    assert (a + 1) * y == a * y + y;
  }

  lemma MulFarFromZero(d: int, base: nat)
    ensures d >= 1 ==> d * base >= base
    ensures d <= -1 ==> d * base <= 0 - base
  {
  }

  lemma DivModUnique(q: nat, base: nat, r: nat)
    requires r < base
    ensures (q * base + r) / base == q && (q * base + r) % base == r
  {
    var n := q * base + r;
    var d := n / base - q;
    assert d * base == r - n % base;
    MulFarFromZero(d, base);
  }

  lemma DigitFits(base: nat, v: nat, p: nat, d: nat)
    requires v < p && d < base
    ensures v * base + d < base * p
  {
    MulMonotone(v + 1, p, base);
    assert (v + 1) * base == v * base + base;
  }

  lemma {:induction false} ValBound(base: nat, ds: seq<nat>)
    requires base >= 1 && AreDigits(base, ds)
    ensures Val(base, ds) < Pow(base, |ds|)
  {
    if ds != [] {
      var init := ds[..|ds| - 1];
      ValBound(base, init);
      var v, p := Val(base, init), Pow(base, |init|);
      PowStep(base, |init|);
      assert Val(base, ds) == v * base + ds[|ds| - 1];
      hide Val, Pow;
      DigitFits(base, v, p, ds[|ds| - 1]);
    }
  }

  lemma Distribute(x: nat, p: nat, v: nat, base: nat)
    ensures (x * p + v) * base == x * (base * p) + v * base
  {
    assert x * p * base == x * (base * p);
  }

  lemma {:induction false} ValCons(base: nat, x: nat, t: seq<nat>)
    ensures Val(base, [x] + t) == x * Pow(base, |t|) + Val(base, t)
  {
    var s := [x] + t;
    if t == [] {
      assert s[..0] == [];
    } else {
      var init := t[..|t| - 1];
      assert s[..|s| - 1] == [x] + init;
      ValCons(base, x, init);
      Distribute(x, Pow(base, |init|), Val(base, init), base);
    }
  }

  lemma {:induction false} DigitsShape(base: nat, n: nat)
    requires base >= 2
    ensures AreDigits(base, Digits(base, n))
    ensures if n == 0 then Digits(base, n) == [] else Digits(base, n) != [] && Digits(base, n)[0] != 0
  {
    if n > 0 {
      DivShrinks(n, base);
      DigitsShape(base, n / base);
    }
  }

  lemma ValSnoc(base: nat, ds: seq<nat>, d: nat)
    ensures Val(base, ds + [d]) == Val(base, ds) * base + d
  {
    assert (ds + [d])[..|ds|] == ds;
  }

  lemma DivModIdentity(n: nat, base: nat)
    requires base >= 1
    ensures n == n / base * base + n % base
  {
  }

  lemma {:induction false} ValOfDigits(base: nat, n: nat)
    requires base >= 2
    ensures Val(base, Digits(base, n)) == n
  {
    if n > 0 {
      hide Val;
      var q, r := n / base, n % base;
      DivModIdentity(n, base);
      DivShrinks(n, base);
      ValOfDigits(base, q);
      ValSnoc(base, Digits(base, q), r);
    }
  }

  lemma {:induction false} StripSnoc(ds: seq<nat>, d: nat)
    requires Strip(ds) != [] || d != 0
    ensures Strip(ds + [d]) == Strip(ds) + [d]
  {
    if ds != [] && ds[0] == 0 {
      StripSnoc(ds[1..], d);
      assert (ds + [d])[1..] == ds[1..] + [d];
    }
  }

  /** Digits without leading zeros are the only such digits for their value. */
  lemma {:induction false} DigitsOfVal(base: nat, ds: seq<nat>)
    requires base >= 2 && AreDigits(base, ds)
    ensures Digits(base, Val(base, ds)) == Strip(ds)
  {
    if ds != [] {
      var init, d := ds[..|ds| - 1], ds[|ds| - 1];
      assert ds == init + [d];
      DigitsOfVal(base, init);
      DivModUnique(Val(base, init), base, d);
      DigitsShape(base, Val(base, init));
      if Val(base, init) == 0 && d == 0 {
        assert Strip(init) == [];
        StripZero(init);
      } else {
        StripSnoc(init, d);
      }
    }
  }

  lemma {:induction false} StripZero(ds: seq<nat>)
    requires Strip(ds) == []
    ensures Strip(ds + [0]) == []
  {
    if ds != [] {
      StripZero(ds[1..]);
      assert (ds + [0])[1..] == ds[1..] + [0];
    } else {
      assert (ds + [0])[1..] == [];
    }
  }

  // ---------- Powers ----------

  lemma PowStep(b: nat, e: nat)
    ensures Pow(b, e + 1) == b * Pow(b, e)
  {
  }

  lemma {:induction false} PowPositive(b: nat, e: nat)
    requires b >= 1
    ensures Pow(b, e) >= 1
  {
    if e > 0 {
      PowPositive(b, e - 1);
      MulMonotone(1, b, Pow(b, e - 1));
    }
  }

  lemma {:induction false} PowAdd(b: nat, d: nat, e: nat)
    ensures Pow(b, d + e) == Pow(b, d) * Pow(b, e)
  {
    if d == 0 {
      assert 1 * Pow(b, e) == Pow(b, e);
    } else {
      PowAdd(b, d - 1, e);
      PowStep(b, d - 1);
      PowStep(b, d - 1 + e);
      hide Pow;
      MulAssociative(b, Pow(b, d - 1), Pow(b, e));
    }
  }

  lemma {:induction false} PowPow(b: nat, d: nat, e: nat)
    ensures Pow(Pow(b, d), e) == Pow(b, d * e)
  {
    if e > 0 {
      PowPow(b, d, e - 1);
      PowAdd(b, d, d * (e - 1));
      assert d + d * (e - 1) == d * e;
    } else {
      assert d * e == 0;
    }
  }

  lemma {:induction false} PowMonotoneExponent(b: nat, d: nat, e: nat)
    requires b >= 1 && d <= e
    ensures Pow(b, d) <= Pow(b, e)
  {
    if d < e {
      PowMonotoneExponent(b, d, e - 1);
      MulMonotone(1, b, Pow(b, e - 1));
    }
  }

  lemma {:induction false} PowMonotoneBase(a: nat, b: nat, e: nat)
    requires a <= b
    ensures Pow(a, e) <= Pow(b, e)
  {
    if e > 0 {
      PowMonotoneBase(a, b, e - 1);
      MulMonotone(a, b, Pow(a, e - 1));
      MulMonotone(Pow(a, e - 1), Pow(b, e - 1), b);
    }
  }

  lemma {:induction false} PowStrictBase(a: nat, b: nat, e: nat)
    requires a < b && e > 0
    ensures Pow(a, e) < Pow(b, e)
  {
    PowMonotoneBase(a, b, e - 1);
    PowPositive(b, e - 1);
    MulStrict(a, b, Pow(a, e - 1), Pow(b, e - 1));
  }

  lemma PowSwap(b: nat, d: nat, e: nat)
    ensures Pow(Pow(b, d), e) == Pow(Pow(b, e), d)
  {
    PowPow(b, d, e);
    PowPow(b, e, d);
    assert d * e == e * d;
  }

  lemma RootMonotone(a: nat, b: nat, e: nat)
    requires e > 0 && Pow(a, e) <= Pow(b, e)
    ensures a <= b
  {
    if b < a {
      PowStrictBase(b, a, e);
    }
  }

  lemma PowCompare(b: nat, m: nat, n: nat, p: nat, k: nat, x: nat, y: nat)
    requires b >= 1 && x == m * n && y == p * k && x <= y
    ensures Pow(Pow(b, m), n) <= Pow(Pow(b, p), k)
  {
    PowPow(b, m, n);
    PowPow(b, p, k);
    PowMonotoneExponent(b, x, y);
  }

  /**
   * If k digits in base `a` fit in m digits in base `b`, then n digits in base `a` fit in any p
   * digits in base `b` whose ratio to n is at least m / k.
   */
  lemma PowRatio(a: nat, b: nat, k: nat, m: nat, n: nat, p: nat)
    requires b >= 1 && k > 0
    requires Pow(a, k) <= Pow(b, m)
    requires m * n <= p * k
    ensures Pow(a, n) <= Pow(b, p)
  {
    var x: nat, y: nat := m * n, p * k;
    PowSwap(a, n, k);
    PowMonotoneBase(Pow(a, k), Pow(b, m), n);
    PowCompare(b, m, n, p, k, x, y);
    RootMonotone(Pow(a, n), Pow(b, p), k);
  }
}
