/** Where timestamps compare as text the way they compare in time, and the validity windows that rely on it. */
module TimestampOrder {
  import opened Common
  import opened CivilTime
  import opened Decimals
  import opened Radix
  import opened Timestamp

  predicate Within(m: Moment, lo: int, hi: int) { ValidMoment(m) && lo <= m.date.year <= hi }

  /** On these years, comparing texts is comparing times. */
  ghost predicate OrdersAgree(lo: int, hi: int) {
    forall a, b :: Within(a, lo, hi) && Within(b, lo, hi) ==> (Less(Format(a), Format(b)) <==> Unix(a) < Unix(b))
  }

  /** The years gain a digit inside the range: `hi` reaches a power of ten, 10000 or more, that `lo` is below. */
  ghost predicate GainsDigit(lo: int, hi: int) { exists k: nat :: k >= 4 && lo < Pow(10, k) <= hi }

  /** Two neighbouring negative years of which only the first has the extra digit: -1000 and -999, and so on. */
  ghost predicate LosesDigit(lo: int, hi: int) { exists k: nat :: k >= 3 && lo + Pow(10, k) == 0 && hi == lo + 1 }

  ghost predicate OrderedRange(lo: int, hi: int) {
    lo == hi || (lo >= -1 && !GainsDigit(lo, hi)) || LosesDigit(lo, hi)
  }

  // ---------- Texts of years ----------

  lemma {:induction false} WidthOf(n: nat, least: nat) returns (w: nat)
    requires least >= 1
    ensures w >= least && n < Pow(10, w) && (w == least || n >= Pow(10, w - 1))
  {
    w := least;
    var bound := DecimalWidth(n);
    while n >= Pow(10, w)
      invariant w >= least && (w == least || n >= Pow(10, w - 1))
      decreases bound - w
    {
      if w >= bound {
        PowMonotoneExponent(10, bound, w);
        assert false;
      }
      w := w + 1;
    }
  }

  lemma {:induction false} DecimalWidth(n: nat) returns (w: nat)
    ensures n < Pow(10, w)
  {
    if n == 0 {
      w := 0;
    } else {
      var v := DecimalWidth(n / 10);
      w := v + 1;
      PowStep(10, v);
    }
  }

  lemma PaddedWide(n: nat, w: nat, least: nat)
    requires 1 <= least <= w && n < Pow(10, w) && (w == least || n >= Pow(10, w - 1))
    ensures ZeroPad(Decimal(n), least) == Fixed(w, n)
  {
    PaddedIsFixed(n, w);
    if w > least {
      DecimalLength(n, w - 1);
      DecimalLength(n, w);
      hide Decimal, Fixed, Pow;
      assert ZeroPad(Decimal(n), w) == Decimal(n) == ZeroPad(Decimal(n), least);
    }
  }

  /** A year from 0 on is written in its decimal width, but at least four digits wide. */
  lemma YearWide(y: nat, w: nat)
    requires 4 <= w && y < Pow(10, w) && (w == 4 || y >= Pow(10, w - 1))
    ensures YearText(y) == Fixed(w, y)
  {
    PaddedWide(y, w, 4);
  }

  lemma NegativeYearWide(y: int, w: nat)
    requires y < 0 && 3 <= w && -y < Pow(10, w) && (w == 3 || -y >= Pow(10, w - 1))
    ensures YearText(y) == "-" + Fixed(w, -y)
  {
    PaddedWide(-y, w, 3);
  }

  lemma {:induction false} LeadingDigit(k: nat)
    ensures Fixed(k + 1, Pow(10, k))[0] == '1'
    ensures Pow(10, k) >= 1 && (k > 0 ==> Fixed(k, Pow(10, k) - 1)[0] == '9')
  {
    if k > 0 {
      LeadingDigit(k - 1);
      PowStep(10, k - 1);
      PowPositive(10, k - 1);
      TenthOfPower(Pow(10, k - 1));
    }
  }

  lemma TenthOfPower(p: nat)
    requires p >= 1
    ensures 10 * p / 10 == p && (10 * p - 1) / 10 == p - 1 && (10 * p - 1) % 10 == 9
  {
  }

  // ---------- Pairs of years ----------

  /** The next year is not written after this one. */
  predicate Reversed(y: int, a: string, b: string) { !Less(YearText(y) + a, YearText(y + 1) + b) }

  lemma FirstDiffers(a: string, b: string)
    requires a != [] && b != [] && a[0] < b[0]
    ensures Less(a, b) && !Less(b, a)
  {
  }

  lemma SecondDiffers(a: string, b: string)
    requires |a| > 1 && |b| > 1 && a[0] == b[0] && a[1] < b[1]
    ensures Less(a, b) && !Less(b, a)
  {
  }

  /** Years of one width: the digits decide. */
  lemma SameWidth(w: nat, y: nat, z: nat, a: string, b: string)
    requires y < z < Pow(10, w)
    ensures Less(Fixed(w, y) + a, Fixed(w, z) + b) && !Less(Fixed(w, z) + b, Fixed(w, y) + a)
  {
    hide Fixed, Less;
    FixedOrder(w, y, z);
    LessPrefix(Fixed(w, y), Fixed(w, z), a, b);
    LessAsymmetric(Fixed(w, y) + a, Fixed(w, z) + b);
  }

  lemma RisingYears(y: nat, z: nat, a: string, b: string)
    requires y < z && !GainsDigit(y, z)
    ensures Less(YearText(y) + a, YearText(z) + b)
  {
    hide YearText, Fixed, Less;
    var w := WidthOf(z, 4);
    assert w > 4 ==> y >= Pow(10, w - 1);
    YearWide(z, w);
    YearWide(y, w);
    SameWidth(w, y, z, a, b);
  }

  lemma BeforeZero(z: nat, a: string, b: string)
    ensures Less(YearText(-1) + a, YearText(z) + b)
  {
    Powers();
    NegativeYearWide(-1, 3);
    var w := WidthOf(z, 4);
    YearWide(z, w);
    FixedParses(w, z);
    assert YearText(z)[0] >= '0';
    hide YearText, Fixed;
    FirstDiffers(YearText(-1) + a, YearText(z) + b);
  }

  /** 9999 is written after 10000. */
  lemma DigitGained(k: nat, y: int, a: string, b: string)
    requires k >= 4 && y + 1 == Pow(10, k)
    ensures Reversed(y, a, b)
  {
    var p := Pow(10, k);
    PowPositive(10, k - 1);
    PowStep(10, k - 1);
    PowStep(10, k);
    LeadingDigit(k);
    hide Fixed, Pow, YearText;
    YearWide(p - 1, k);
    YearWide(p, k + 1);
    FirstDiffers(YearText(p) + b, YearText(p - 1) + a);
  }

  /** -1000 is written before -999. */
  lemma DigitLost(k: nat, y: int, a: string, b: string)
    requires k >= 3 && y + Pow(10, k) == 0
    ensures Less(YearText(y) + a, YearText(y + 1) + b)
  {
    var p := Pow(10, k);
    PowPositive(10, k - 1);
    PowStep(10, k - 1);
    PowStep(10, k);
    LeadingDigit(k);
    hide Fixed, Pow, YearText;
    NegativeYearWide(y + 1, k);
    NegativeYearWide(y, k + 1);
    var s, t := YearText(y), YearText(y + 1);
    assert s[1] == Fixed(k + 1, p)[0] && t[1] == Fixed(k, p - 1)[0];
    SecondDiffers(s + a, t + b);
  }

  /** Two neighbouring negative years of one width are written the wrong way round. */
  lemma FallingYears(y: int, a: string, b: string)
    requires y <= -2 && !LosesDigit(y, y + 1)
    ensures Reversed(y, a, b)
  {
    hide Fixed, YearText, Less;
    var w := WidthOf(-y, 3);
    assert w > 3 ==> -y != Pow(10, w - 1);
    NegativeYearWide(y, w);
    NegativeYearWide(y + 1, w);
    SameWidth(w, -y - 1, -y, b, a);
    var s, t := Fixed(w, -y - 1) + b, Fixed(w, -y) + a;
    assert YearText(y) + a == "-" + t && YearText(y + 1) + b == "-" + s;
    LessPrefix("-", "-", t, s);
    NotLessThanItself("-");
  }

  lemma {:induction false} NotLessThanItself(s: string)
    ensures !Less(s, s)
  {
    if s != [] {
      NotLessThanItself(s[1..]);
    }
  }

  // ---------- Moments ----------

  lemma FormatParts(m: Moment)
    requires ValidMoment(m)
    ensures Format(m) == YearText(m.date.year) + ("-" + Fields(FieldsOf(m), "-T::Z"))
  {
    hide YearText, Fields;
  }

  lemma LaterYearLaterUnix(a: Moment, b: Moment)
    requires ValidMoment(a) && ValidMoment(b) && I32_MIN <= a.date.year < b.date.year < I32_END
    ensures Unix(a) < Unix(b)
  {
    hide Unix;
    UnixRoundTrip(a);
    UnixRoundTrip(b);
    if Unix(b) < Unix(a) {
      EarlierFields(b, a);
    }
  }

  lemma SameYearOrder(a: Moment, b: Moment)
    requires ValidMoment(a) && ValidMoment(b) && a.date.year == b.date.year && I32_MIN <= a.date.year < I32_END
    requires Unix(a) < Unix(b)
    ensures Less(Format(a), Format(b))
  {
    hide Fields, YearText, NumbersLess, Less, Unix, Format;
    EarlierFields(a, b);
    FormatParts(a);
    FormatParts(b);
    var x, y := Fields(FieldsOf(a), "-T::Z"), Fields(FieldsOf(b), "-T::Z");
    FieldsOrder(FieldsOf(a), FieldsOf(b), "-T::Z");
    LessPrefix("-", "-", x, y);
    LessPrefix(YearText(a.date.year), YearText(b.date.year), "-" + x, "-" + y);
  }

  /** In an ordered range, earlier in time is earlier as text. */
  lemma EarlierText(a: Moment, b: Moment, lo: int, hi: int)
    requires I32_MIN <= lo <= hi < I32_END && OrderedRange(lo, hi)
    requires Within(a, lo, hi) && Within(b, lo, hi) && Unix(a) < Unix(b)
    ensures Less(Format(a), Format(b))
  {
    hide Fields, YearText, Less, Unix, Format;
    EarlierFields(a, b);
    var y, z := a.date.year, b.date.year;
    if y == z {
      SameYearOrder(a, b);
    } else {
      FormatParts(a);
      FormatParts(b);
      YearsOrdered(lo, hi, y, z, "-" + Fields(FieldsOf(a), "-T::Z"), "-" + Fields(FieldsOf(b), "-T::Z"));
    }
  }

  lemma SubRange(lo: int, hi: int, y: int, z: int)
    requires lo <= y && z <= hi
    ensures GainsDigit(y, z) ==> GainsDigit(lo, hi)
  {
    if GainsDigit(y, z) {
      var k: nat :| k >= 4 && y < Pow(10, k) <= z;
      assert lo < Pow(10, k) <= hi;
    }
  }

  lemma YearsOrdered(lo: int, hi: int, y: int, z: int, a: string, b: string)
    requires lo <= y < z <= hi && OrderedRange(lo, hi)
    ensures Less(YearText(y) + a, YearText(z) + b)
  {
    hide YearText, Less;
    if LosesDigit(lo, hi) {
      var k: nat :| k >= 3 && lo + Pow(10, k) == 0 && hi == lo + 1;
      DigitLost(k, y, a, b);
    } else if y == -1 {
      BeforeZero(z, a, b);
    } else {
      SubRange(lo, hi, y, z);
      RisingYears(y, z, a, b);
    }
  }

  function NewYear(y: int): Moment { Moment(Date(y, 1, 1), 0, 0, 0) }

  /** Two neighbouring years whose texts compare the wrong way. */
  lemma WrongPair(lo: int, hi: int) returns (y: int)
    requires lo <= hi && !OrderedRange(lo, hi)
    ensures lo <= y < hi
    ensures forall a, b :: Reversed(y, a, b)
  {
    hide Reversed;
    if lo >= -1 {
      var k: nat :| k >= 4 && lo < Pow(10, k) <= hi;
      y := Pow(10, k) - 1;
      forall a, b ensures Reversed(y, a, b) {
        DigitGained(k, y, a, b);
      }
    } else {
      y := lo;
      if LosesDigit(lo, lo + 1) {
        y := lo + 1;
        AfterLost(lo);
      }
      forall a, b ensures Reversed(y, a, b) {
        FallingYears(y, a, b);
      }
    }
  }

  lemma {:induction false} PowersApart(j: nat, k: nat)
    requires j < k
    ensures Pow(10, j) >= 1 && 10 * Pow(10, j) <= Pow(10, k)
  {
    PowPositive(10, j);
    PowStep(10, j);
    PowMonotoneExponent(10, j + 1, k);
  }

  lemma NeighboursOfPowers(j: nat, k: nat)
    ensures Pow(10, j) + 1 == Pow(10, k) ==> false
  {
    if j < k {
      PowersApart(j, k);
    } else if k < j {
      PowersApart(k, j);
    }
  }

  lemma AfterLost(lo: int)
    requires LosesDigit(lo, lo + 1)
    ensures lo <= -1000 && !LosesDigit(lo + 1, lo + 2)
  {
    var k: nat :| k >= 3 && lo + Pow(10, k) == 0;
    Powers();
    PowMonotoneExponent(10, 3, k);
    forall j: nat | j >= 3 ensures lo + 1 + Pow(10, j) != 0 {
      NeighboursOfPowers(j, k);
    }
  }

  /** Comparing texts is comparing times on a range of years exactly when the range is ordered. */
  lemma OrderExact(lo: int, hi: int)
    requires I32_MIN <= lo <= hi < I32_END
    ensures OrdersAgree(lo, hi) <==> OrderedRange(lo, hi)
  {
    hide Unix, Format, Less, YearText;
    if OrderedRange(lo, hi) {
      forall a, b | Within(a, lo, hi) && Within(b, lo, hi) ensures Less(Format(a), Format(b)) <==> Unix(a) < Unix(b) {
        TextOrder(a, b, lo, hi);
      }
    } else {
      var y := WrongPair(lo, hi);
      var a, b := NewYear(y), NewYear(y + 1);
      FormatParts(a);
      FormatParts(b);
      LaterYearLaterUnix(a, b);
      assert Reversed(y, "-" + Fields(FieldsOf(a), "-T::Z"), "-" + Fields(FieldsOf(b), "-T::Z"));
      assert Within(a, lo, hi) && Within(b, lo, hi);
    }
  }

  /** In an ordered range texts compare exactly as times do, ties included. */
  lemma TextOrder(a: Moment, b: Moment, lo: int, hi: int)
    requires I32_MIN <= lo <= hi < I32_END && OrderedRange(lo, hi)
    requires Within(a, lo, hi) && Within(b, lo, hi)
    ensures Less(Format(a), Format(b)) <==> Unix(a) < Unix(b)
    ensures Format(a) == Format(b) <==> Unix(a) == Unix(b)
  {
    hide Format, Unix, OrderedRange;
    if Unix(a) < Unix(b) {
      EarlierText(a, b, lo, hi);
      LessAsymmetric(Format(a), Format(b));
    } else if Unix(b) < Unix(a) {
      EarlierText(b, a, lo, hi);
      LessAsymmetric(Format(b), Format(a));
    } else {
      UnixRoundTrip(a);
      UnixRoundTrip(b);
      NotLessThanItself(Format(a));
    }
  }

  /** The years 0 to 9999, and -1 with them, are ordered; no later year may be added. */
  lemma FourDigitYears(hi: int)
    requires hi >= 0
    ensures OrderedRange(-1, hi) <==> hi <= 9999
  {
    Powers();
    forall k: nat | k >= 3 ensures Pow(10, k) >= 1000 && (k >= 4 ==> Pow(10, k) >= 10_000) {
      PowMonotoneExponent(10, 3, k);
      if k >= 4 {
        PowMonotoneExponent(10, 4, k);
      }
    }
    assert hi > 9999 ==> -1 < Pow(10, 4) <= hi;
  }

  // ---------- Validity windows (`expiration.rs`) ----------

  datatype Window = Window(validFrom: Option<string>, validUntil: Option<string>, expiresAt: Option<string>,
                           notBefore: Option<string>, notAfter: Option<string>)

  datatype Verdict = Current | NotYetValid(threshold: string) | Expired(threshold: string)

  function Or<T>(a: Option<T>, b: Option<T>): Option<T> { if a.Some? then a else b }

  function Start(w: Window): Option<string> { Or(w.validFrom, w.notBefore) }

  function End(w: Window): Option<string> { Or(w.validUntil, Or(w.expiresAt, w.notAfter)) }

  /** `check_window`. */
  function CheckWindow(w: Window, now: string): Verdict {
    if Start(w).Some? && Less(now, Start(w).value) then NotYetValid(Start(w).value)
    else if End(w).Some? && Less(End(w).value, now) then Expired(End(w).value)
    else Current
  }

  /** An optional bound is the text of an optional moment. */
  predicate Tells(bound: Option<string>, m: Option<Moment>, lo: int, hi: int) {
    match m
    case None => bound.None?
    case Some(at) => Within(at, lo, hi) && bound == Some(Format(at))
  }

  /**
   * A window whose bounds are timestamps of years in an ordered range is open exactly between its bounds in time,
   * and without a bound it is open on that side; before the start it is not yet valid, after the end it has expired.
   */
  lemma WindowIsInterval(w: Window, from: Option<Moment>, until: Option<Moment>, now: Moment, lo: int, hi: int)
    requires I32_MIN <= lo <= hi < I32_END && OrderedRange(lo, hi) && Within(now, lo, hi)
    requires Tells(if w.validFrom.Some? then w.validFrom else w.notBefore, from, lo, hi)
    requires Tells(if w.validUntil.Some? then w.validUntil else if w.expiresAt.Some? then w.expiresAt else w.notAfter,
                   until, lo, hi)
    ensures var verdict := CheckWindow(w, Format(now));
      var early := from.Some? && Unix(now) < Unix(from.value);
      var late := until.Some? && Unix(until.value) < Unix(now);
      && (verdict.NotYetValid? <==> early) && (early ==> verdict.threshold == Format(from.value))
      && (verdict.Expired? <==> !early && late) && (!early && late ==> verdict.threshold == Format(until.value))
      && (verdict.Current? <==> !early && !late)
  {
    hide Format, Unix, OrderedRange;
    if from.Some? {
      TextOrder(now, from.value, lo, hi);
    }
    if until.Some? {
      TextOrder(until.value, now, lo, hi);
    }
  }
}
