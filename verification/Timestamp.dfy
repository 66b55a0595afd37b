/** Time of day and the `YYYY-MM-DDThh:mm:ssZ` text form (`offline_approval.rs`, RFC 3339 section 5.1). */
module Timestamp {
  import opened Common
  import opened CivilTime
  import opened Decimals
  import opened Radix
  import Text

  const I32_MIN: int := -0x8000_0000
  const I32_END: int := 0x8000_0000
  const TWO_63: int := 0x8000_0000_0000_0000

  /** `as i32`. */
  function WrapI32(n: int): int { (n - I32_MIN) % TWO_32 + I32_MIN }

  /** `secs_to_ymdhms`. */
  function SecsToMoment(secs: int): Moment {
    var days, time := secs / 86_400, secs % 86_400;
    var d := CivilFromDays(days);
    Moment(d.(year := WrapI32(d.year)), time / 3600, time % 3600 / 60, time % 60)
  }

  /** `unix_from_civil`. */
  function UnixFromCivil(year: int, month: nat, day: nat, hour: nat, minute: nat, second: nat): int {
    DaysFromCivil(year, month, day) * 86_400 + hour * 3600 + minute * 60 + second
  }

  predicate ValidMoment(m: Moment) {
    ValidDate(m.date) && 0 <= m.hour < 24 && 0 <= m.minute < 60 && 0 <= m.second < 60
  }

  function Unix(m: Moment): int
    requires ValidMoment(m)
  {
    UnixFromCivil(m.date.year, m.date.month, m.date.day, m.hour, m.minute, m.second)
  }

  // ---------- Order of dates ----------

  predicate DateLess(a: Date, b: Date) {
    a.year < b.year || (a.year == b.year && (a.month < b.month || (a.month == b.month && a.day < b.day)))
  }

  lemma {:induction false} LaterDayLaterDate(a: int, b: int)
    requires a < b
    ensures DateLess(CivilFromDays(a), CivilFromDays(b))
    decreases b - a
  {
    hide CivilFromDays;
    CivilRoundTrip(b - 1);
    CivilAdvances(b - 1);
    if a < b - 1 {
      LaterDayLaterDate(a, b - 1);
    }
  }

  /** The first second of year `y`, and so the end of year `y - 1`. */
  function YearBegin(y: int): int { UnixFromCivil(y, 1, 1, 0, 0, 0) }

  lemma YearAtLeast(days: int, y: int)
    ensures CivilFromDays(days).year >= y <==> days >= DaysFromCivil(y, 1, 1)
  {
    hide CivilFromDays, DaysFromCivil;
    var first := DaysFromCivil(y, 1, 1);
    DaysRoundTrip(Date(y, 1, 1));
    CivilRoundTrip(days);
    if days < first {
      LaterDayLaterDate(days, first);
    } else if first < days {
      LaterDayLaterDate(first, days);
    }
  }

  /** The seconds whose year survives the cast to 32 bits. */
  predicate YearFits(secs: int) { YearBegin(I32_MIN) <= secs < YearBegin(I32_END) }

  lemma YearFitsMeaning(secs: int)
    ensures YearFits(secs) <==> I32_MIN <= CivilFromDays(secs / 86_400).year < I32_END
  {
    hide CivilFromDays, DaysFromCivil;
    YearAtLeast(secs / 86_400, I32_MIN);
    YearAtLeast(secs / 86_400, I32_END);
  }

  /** A later year gives later seconds, everything else being equal. */
  lemma LaterYearLaterDays(y: int, z: int, month: nat, day: nat)
    requires y < z
    ensures DaysFromCivil(y, month, day) < DaysFromCivil(z, month, day)
  {
    var a, b := if month <= 2 then y - 1 else y, if month <= 2 then z - 1 else z;
    FloorEraYears(a);
    FloorEraYears(b);
    LaterYearStart(a, b);
  }

  function AbsoluteYearStart(y: int): int { y / 400 * 146_097 + YearStart(y % 400) }

  lemma {:induction false} LaterYearStart(a: int, b: int)
    requires a < b
    ensures AbsoluteYearStart(a) + 365 * (b - a) <= AbsoluteYearStart(b)
    decreases b - a
  {
    NextMarchYear((b - 1) / 400, (b - 1) % 400);
    assert 400 * ((b - 1) / 400) + (b - 1) % 400 + 1 == b;
    if a < b - 1 {
      LaterYearStart(a, b - 1);
    }
  }

  /**
   * Splitting seconds into a date and a time loses nothing exactly when the year fits in 32 bits;
   * then the parts form a real date and a real time of day.
   */
  lemma MomentRoundTrip(secs: int)
    ensures YearFits(secs) ==> ValidMoment(SecsToMoment(secs)) && Unix(SecsToMoment(secs)) == secs
    ensures
      var m := SecsToMoment(secs);
      UnixFromCivil(m.date.year, m.date.month, m.date.day, m.hour, m.minute, m.second) == secs ==> YearFits(secs)
  {
    hide CivilFromDays, DaysFromCivil, YearFits, ValidDate;
    var d := CivilFromDays(secs / 86_400);
    CivilRoundTrip(secs / 86_400);
    YearFitsMeaning(secs);
    var y := WrapI32(d.year);
    if y < d.year {
      LaterYearLaterDays(y, d.year, d.month, d.day);
    } else if d.year < y {
      LaterYearLaterDays(d.year, y, d.month, d.day);
    }
  }

  /** Every real date and time in the 32-bit years is recovered from its seconds. */
  lemma UnixRoundTrip(m: Moment)
    requires ValidMoment(m) && I32_MIN <= m.date.year < I32_END
    ensures SecsToMoment(Unix(m)) == m
  {
    hide CivilFromDays, DaysFromCivil;
    DaysRoundTrip(m.date);
    var time := m.hour * 3600 + m.minute * 60 + m.second;
    assert Unix(m) / 86_400 == DaysFromCivil(m.date.year, m.date.month, m.date.day);
    assert Unix(m) % 86_400 == time;
    assert time / 3600 == m.hour && time % 3600 / 60 == m.minute && time % 60 == m.second;
  }

  // ---------- Text ----------

  function ZeroPad(s: string, width: nat): string { seq(if |s| < width then width - |s| else 0, _ => '0') + s }

  /** `{:04}` of a signed number: the sign counts towards the width. */
  function YearText(y: int): string { if y >= 0 then ZeroPad(Decimal(y), 4) else "-" + ZeroPad(Decimal(-y), 3) }

  /** `{:02}` fields, each followed by its separator. */
  function Fields(ns: seq<nat>, seps: string): string
    requires |ns| <= |seps|
  {
    if ns == [] then [] else ZeroPad(Decimal(ns[0]), 2) + [seps[0]] + Fields(ns[1..], seps[1..])
  }

  /** The format string of `now_iso8601`. */
  function Format(m: Moment): string
    requires ValidMoment(m)
  {
    YearText(m.date.year) + "-" + Fields([m.date.month, m.date.day, m.hour, m.minute, m.second], "-T::Z")
  }

  /** A field parsed as `u32`. */
  function ParseField(s: string): Option<nat> { Text.ParseUnsigned(s, 10, TWO_32) }

  /** A year parsed as `i64`. */
  function ParseSigned(s: string): Option<int> {
    if |s| > 1 && s[0] == '-' then
      match Text.NumberOf(s[1..], 10) case Some(n) => (if n <= TWO_63 then Some(0 - n as int) else None)
        case None => None
    else match Text.ParseUnsigned(s, 10, TWO_63) case Some(n) => Some(n) case None => None
  }

  lemma {:induction false} ValueRange(s: string)
    requires s == [] || AllDigits(s)
    ensures 0 <= Value(s) < Pow(10, |s|)
  {
    if s != [] {
      ValueRange(s[..|s| - 1]);
    }
  }

  lemma DigitsSnoc(init: string, c: char)
    ensures AllDigits(init + [c]) <==> (init == [] || AllDigits(init)) && '0' <= c <= '9'
    ensures Value(init + [c]) == Value(init) * 10 + (c as int - '0' as int)
  {
    var s := init + [c];
    assert s[..|s| - 1] == init && s[|init|] == c;
    assert forall i :: 0 <= i < |init| ==> s[i] == init[i];
  }

  lemma DigitMeaning(c: char)
    ensures Text.DigitOf(c, 10) == if '0' <= c <= '9' then Some(c as int - '0' as int) else None
  {
  }

  lemma {:induction false} NumberIsValue(s: string)
    ensures Text.NumberOf(s, 10) == if s == [] || AllDigits(s) then Some(Value(s)) else None
  {
    if s != [] {
      hide Value, AllDigits, Text.DigitOf;
      var init, c := s[..|s| - 1], s[|s| - 1];
      NumberIsValue(init);
      DigitMeaning(c);
      DigitsSnoc(init, c);
      assert s == init + [c];
    }
  }

  /** The digits of a short text, behind an optional plus sign. */
  function Unsigned(s: string): string { if |s| > 1 && s[0] == '+' then s[1..] else s }

  lemma ShortParses(s: string, bound: nat)
    requires |s| <= 4 && bound >= 10_000
    ensures var t := Unsigned(s); Text.ParseUnsigned(s, 10, bound) == if AllDigits(t) then Some(Value(t)) else None
  {
    var t := Unsigned(s);
    NumberIsValue(t);
    if AllDigits(t) {
      ValueRange(t);
      Powers();
      PowMonotoneExponent(10, |t|, 4);
    }
  }

  lemma SignedParses(s: string)
    requires |s| == 4
    ensures var t := if s[0] == '-' then s[1..] else Unsigned(s);
      ParseSigned(s) == if AllDigits(t) then Some(if s[0] == '-' then -Value(t) else Value(t)) else None
  {
    if s[0] == '-' {
      NumberIsValue(s[1..]);
      if AllDigits(s[1..]) {
        ValueRange(s[1..]);
        Powers();
      }
    } else {
      ShortParses(s, TWO_63);
    }
  }

  /** `parse_iso8601`. */
  function ParseIso(s: string): Option<int> {
    if |s| < 19 || s[|s| - 1] != 'Z' then None
    else
      match (ParseSigned(s[..4]), ParseField(s[5..7]), ParseField(s[8..10]),
             ParseField(s[11..13]), ParseField(s[14..16]), ParseField(s[17..19]))
      case (Some(y), Some(mo), Some(d), Some(h), Some(mi), Some(sec)) => Some(UnixFromCivil(y, mo, d, h, mi, sec))
      case _ => None
  }

  // ---------- Fixed-width fields ----------

  /** The `w` low-order decimal digits of `n`. */
  function Fixed(w: nat, n: nat): (s: string)
    ensures |s| == w
  {
    if w == 0 then [] else Fixed(w - 1, n / 10) + [Digit(n % 10)]
  }

  lemma Powers()
    ensures Pow(10, 1) == 10 && Pow(10, 2) == 100 && Pow(10, 3) == 1000 && Pow(10, 4) == 10_000
  {
    assert Pow(10, 2) == 100;
  }

  lemma {:induction false} FixedZero(w: nat)
    ensures Fixed(w, 0) == seq(w, _ => '0')
  {
    if w > 0 {
      FixedZero(w - 1);
    }
  }

  lemma {:induction false} DecimalLength(n: nat, w: nat)
    requires w >= 1
    ensures |Decimal(n)| <= w <==> n < Pow(10, w)
  {
    if n < 10 {
      PowPositive(10, w - 1);
    } else if w == 1 {
      assert |Decimal(n / 10)| >= 1;
      Powers();
    } else {
      DecimalLength(n / 10, w - 1);
    }
  }

  lemma {:induction false} PaddedIsFixed(n: nat, w: nat)
    requires w >= 1 && n < Pow(10, w)
    ensures ZeroPad(Decimal(n), w) == Fixed(w, n)
  {
    if n < 10 {
      FixedZero(w - 1);
    } else {
      Powers();
      PaddedIsFixed(n / 10, w - 1);
      DecimalLength(n, w);
      DecimalLength(n / 10, w - 1);
    }
  }

  lemma TenthBelow(n: nat, p: nat)
    requires n < 10 * p
    ensures n / 10 < p && 10 * (n / 10) + n % 10 == n
  {
  }

  lemma {:induction false} FixedParses(w: nat, n: nat)
    requires n < Pow(10, w)
    ensures w >= 1 ==> AllDigits(Fixed(w, n))
    ensures Value(Fixed(w, n)) == n
  {
    if w > 0 {
      PowStep(10, w - 1);
      FixedStep(w, n);
      hide Pow, Fixed, Value, AllDigits;
      TenthBelow(n, Pow(10, w - 1));
      FixedParses(w - 1, n / 10);
      OneMoreDigit(Fixed(w - 1, n / 10), n % 10);
    }
  }

  lemma FixedStep(w: nat, n: nat)
    requires w > 0
    ensures Fixed(w, n) == Fixed(w - 1, n / 10) + [Digit(n % 10)]
  {
  }

  lemma OneMoreDigit(s: string, d: nat)
    requires d < 10
    ensures Value(s + [Digit(d)]) == 10 * Value(s) + d
    ensures s == [] || AllDigits(s) ==> AllDigits(s + [Digit(d)])
  {
    assert (s + [Digit(d)])[..|s|] == s;
  }

  lemma YearTextShort(y: int)
    requires -999 <= y <= 9999
    ensures |YearText(y)| == 4 && ParseSigned(YearText(y)) == Some(y)
    ensures y >= 0 ==> YearText(y) == Fixed(4, y)
  {
    Powers();
    if y >= 0 {
      PaddedIsFixed(y, 4);
      FixedParses(4, y);
    } else {
      PaddedIsFixed(-y, 3);
      FixedParses(3, -y);
      assert YearText(y)[1..] == Fixed(3, -y);
    }
    SignedParses(YearText(y));
    hide ParseSigned;
  }

  lemma FieldParses(n: nat)
    requires n < 100
    ensures ZeroPad(Decimal(n), 2) == Fixed(2, n) && ParseField(Fixed(2, n)) == Some(n)
  {
    Powers();
    PaddedIsFixed(n, 2);
    FixedParses(2, n);
    ShortParses(Fixed(2, n), TWO_32);
  }

  lemma FieldsLayout(ns: seq<nat>, seps: string)
    requires |ns| == |seps| && forall i :: 0 <= i < |ns| ==> ns[i] < 100
    ensures |Fields(ns, seps)| == 3 * |ns|
    ensures forall i :: 0 <= i < |ns| ==>
      Fields(ns, seps)[3 * i..3 * i + 2] == Fixed(2, ns[i]) && Fields(ns, seps)[3 * i + 2] == seps[i]
  {
    hide Decimal, ZeroPad, Fixed;
    if ns != [] {
      FieldParses(ns[0]);
      FieldsLayout(ns[1..], seps[1..]);
      var head, more := Fixed(2, ns[0]) + [seps[0]], Fields(ns[1..], seps[1..]);
      assert Fields(ns, seps) == head + more;
      forall i | 0 <= i < |ns|
        ensures Fields(ns, seps)[3 * i..3 * i + 2] == Fixed(2, ns[i]) && Fields(ns, seps)[3 * i + 2] == seps[i]
      {
        if i == 0 {
          assert (head + more)[0..2] == Fixed(2, ns[0]);
        } else {
          var j := i - 1;
          assert (head + more)[3 * i..3 * i + 2] == more[3 * j..3 * j + 2];
          assert (head + more)[3 * i + 2] == more[3 * j + 2];
          assert ns[1..][j] == ns[i] && seps[1..][j] == seps[i];
        }
      }
    }
  }

  function FieldsOf(m: Moment): seq<nat>
    requires ValidMoment(m)
  {
    [m.date.month, m.date.day, m.hour, m.minute, m.second]
  }

  /** Field `i` of the text starts three places after the one before it, behind the year and its dash. */
  lemma FormatLayout(m: Moment, i: nat)
    requires ValidMoment(m) && i < 5
    ensures
      var s, at := Format(m), |YearText(m.date.year)| + 1 + 3 * i;
      && |s| == |YearText(m.date.year)| + 16
      && s[..|YearText(m.date.year)|] == YearText(m.date.year) && s[|YearText(m.date.year)|] == '-'
      && s[at..at + 2] == Fixed(2, FieldsOf(m)[i])
      && s[|s| - 1] == 'Z'
  {
    hide YearText, Fields, Fixed;
    var head, more := YearText(m.date.year) + "-", Fields(FieldsOf(m), "-T::Z");
    FieldsLayout(FieldsOf(m), "-T::Z");
    var s := head + more;
    assert s == Format(m);
    var at := |head| + 3 * i;
    assert s[at..at + 2] == more[3 * i..3 * i + 2];
    assert s[|s| - 1] == more[14] == "-T::Z"[4];
    assert s[..|head| - 1] == YearText(m.date.year);
  }

  /** The text is the year and a dash, and then month, day, hour, minute and second, each before its separator. */
  lemma FormatShape(m: Moment, i: nat)
    requires ValidMoment(m) && i < 5
    ensures
      var s, y := Format(m), YearText(m.date.year);
      var field := [m.date.month, m.date.day, m.hour, m.minute, m.second][i];
      && |s| == |y| + 16 && s[..|y| + 1] == y + "-"
      && s[|y| + 1 + 3 * i..|y| + 4 + 3 * i] == Fixed(2, field) + ["-T::Z"[i]]
  {
    hide YearText, Fields, Fixed;
    var head, more := YearText(m.date.year) + "-", Fields(FieldsOf(m), "-T::Z");
    FieldsLayout(FieldsOf(m), "-T::Z");
    var s := head + more;
    assert s == Format(m);
    var at := |head| + 3 * i;
    assert s[at..at + 3] == more[3 * i..3 * i + 3];
    assert more[3 * i..3 * i + 3] == more[3 * i..3 * i + 2] + [more[3 * i + 2]];
    assert s[..|head|] == head;
  }

  lemma ShortYearParses(m: Moment)
    requires ValidMoment(m) && -999 <= m.date.year <= 9999
    ensures ParseIso(Format(m)) == Some(Unix(m))
  {
    hide DaysFromCivil, Fields, ParseField, ParseSigned, Fixed, YearText;
    YearTextShort(m.date.year);
    FormatLayout(m, 0);
    FormatLayout(m, 1);
    FormatLayout(m, 2);
    FormatLayout(m, 3);
    FormatLayout(m, 4);
    FieldParses(m.date.month);
    FieldParses(m.date.day);
    FieldParses(m.hour);
    FieldParses(m.minute);
    FieldParses(m.second);
  }

  // ---------- Years that do not fit four characters ----------

  lemma YearTextLength(y: int)
    ensures |YearText(y)| == 4 <==> -999 <= y <= 9999
    ensures |YearText(y)| == 5 <==> -9999 <= y <= -1000 || 10_000 <= y <= 99_999
    ensures |YearText(y)| >= 4
  {
    var n := if y >= 0 then y else -y;
    Powers();
    assert Pow(10, 5) == 100_000;
    DecimalLength(n, 3);
    DecimalLength(n, 4);
    DecimalLength(n, 5);
  }

  lemma FiveCharacterYearFails(m: Moment)
    requires ValidMoment(m) && |YearText(m.date.year)| == 5
    ensures ParseIso(Format(m)).None?
  {
    FormatLayout(m, 0);
    var s := Format(m);
    assert s[5..7][0] == '-';
    ShortParses(s[5..7], TWO_32);
  }

  /** Bounds on what four characters of year and two of everything else can denote. */
  const TEXT_LOW: int := (AbsoluteYearStart(-1000) - 719_469) * 86_400
  const TEXT_HIGH: int := (AbsoluteYearStart(9999) - 716_000) * 86_400

  lemma DaysFromCivilParts(y: int, month: nat, day: nat)
    ensures
      var y' := if month <= 2 then y - 1 else y;
      var m := if month > 2 then month - 3 else month + 9;
      DaysFromCivil(y, month, day) == AbsoluteYearStart(y') + MonthStart(m) + day - 1 - 719_468
  {
    FloorEraYears(if month <= 2 then y - 1 else y);
  }

  lemma UnixRange(y: int, mo: nat, d: nat, h: nat, mi: nat, sec: nat)
    requires -999 <= y <= 9999 && mo < 100 && d < 100 && h < 100 && mi < 100 && sec < 100
    ensures TEXT_LOW <= UnixFromCivil(y, mo, d, h, mi, sec) <= TEXT_HIGH
  {
    hide DaysFromCivil, AbsoluteYearStart;
    DaysFromCivilParts(y, mo, d);
    var y' := if mo <= 2 then y - 1 else y;
    if -1000 < y' {
      LaterYearStart(-1000, y');
    }
    if y' < 9999 {
      LaterYearStart(y', 9999);
    }
  }

  lemma ParseSignedRange(s: string)
    requires |s| == 4 && ParseSigned(s).Some?
    ensures -999 <= ParseSigned(s).value <= 9999
  {
    Powers();
    SignedParses(s);
    hide ParseSigned;
    var t := if s[0] == '-' then s[1..] else Unsigned(s);
    ValueRange(t);
  }

  lemma ParseFieldRange(s: string)
    requires |s| == 2 && ParseField(s).Some?
    ensures ParseField(s).value < 100
  {
    Powers();
    ShortParses(s, TWO_32);
    ValueRange(Unsigned(s));
  }

  lemma ParseRange(s: string)
    requires ParseIso(s).Some?
    ensures TEXT_LOW <= ParseIso(s).value <= TEXT_HIGH
  {
    hide ParseField, ParseSigned, DaysFromCivil;
    ParseSignedRange(s[..4]);
    ParseFieldRange(s[5..7]);
    ParseFieldRange(s[8..10]);
    ParseFieldRange(s[11..13]);
    ParseFieldRange(s[14..16]);
    ParseFieldRange(s[17..19]);
    UnixRange(ParseSigned(s[..4]).value, ParseField(s[5..7]).value, ParseField(s[8..10]).value,
              ParseField(s[11..13]).value, ParseField(s[14..16]).value, ParseField(s[17..19]).value);
  }

  lemma LongYearOutOfRange(m: Moment)
    requires ValidMoment(m) && (m.date.year >= 100_000 || m.date.year <= -10_000)
    ensures Unix(m) < TEXT_LOW || Unix(m) > TEXT_HIGH
  {
    hide DaysFromCivil, AbsoluteYearStart;
    var d := m.date;
    DaysFromCivilParts(d.year, d.month, d.day);
    var y' := if d.month <= 2 then d.year - 1 else d.year;
    if d.year >= 100_000 {
      LaterYearStart(9999, y');
    } else {
      LaterYearStart(y', -1000);
    }
  }

  /** A moment's text parses back to its seconds exactly when its year takes four characters. */
  lemma TextRoundTrip(m: Moment)
    requires ValidMoment(m)
    ensures ParseIso(Format(m)) == Some(Unix(m)) <==> -999 <= m.date.year <= 9999
  {
    hide ParseIso, Format, Unix;
    YearTextLength(m.date.year);
    if |YearText(m.date.year)| == 4 {
      ShortYearParses(m);
    } else if |YearText(m.date.year)| == 5 {
      FiveCharacterYearFails(m);
    } else {
      LongYearOutOfRange(m);
      if ParseIso(Format(m)).Some? {
        ParseRange(Format(m));
      }
    }
  }

  // ---------- Order of texts ----------

  lemma {:induction false} LessPrefix(a: string, b: string, x: string, y: string)
    requires |a| == |b|
    ensures Less(a + x, b + y) <==> Less(a, b) || (a == b && Less(x, y))
  {
    if a == [] {
      assert a + x == x && b + y == y;
    } else {
      assert (a + x)[1..] == a[1..] + x && (b + y)[1..] == b[1..] + y;
      LessPrefix(a[1..], b[1..], x, y);
      assert a == [a[0]] + a[1..] && b == [b[0]] + b[1..];
    }
  }

  lemma {:induction false} FixedOrder(w: nat, a: nat, b: nat)
    requires a < b < Pow(10, w)
    ensures Less(Fixed(w, a), Fixed(w, b))
  {
    var x, y := [Digit(a % 10)], [Digit(b % 10)];
    LessPrefix(Fixed(w - 1, a / 10), Fixed(w - 1, b / 10), x, y);
    if a / 10 < b / 10 {
      FixedOrder(w - 1, a / 10, b / 10);
    }
  }

  predicate NumbersLess(a: seq<nat>, b: seq<nat>)
    requires |a| == |b|
  {
    a != [] && (a[0] < b[0] || (a[0] == b[0] && NumbersLess(a[1..], b[1..])))
  }

  lemma {:induction false} FieldsOrder(a: seq<nat>, b: seq<nat>, seps: string)
    requires |a| == |b| <= |seps| && NumbersLess(a, b)
    requires forall i :: 0 <= i < |a| ==> a[i] < 100 && b[i] < 100
    ensures Less(Fields(a, seps), Fields(b, seps))
  {
    hide Fields, Fixed, Pow, Less;
    FieldsCons(a, seps);
    FieldsCons(b, seps);
    Powers();
    var x, y := [seps[0]] + Fields(a[1..], seps[1..]), [seps[0]] + Fields(b[1..], seps[1..]);
    LessPrefix(Fixed(2, a[0]), Fixed(2, b[0]), x, y);
    if a[0] < b[0] {
      FixedOrder(2, a[0], b[0]);
    } else {
      FieldsOrder(a[1..], b[1..], seps[1..]);
      LessPrefix([seps[0]], [seps[0]], Fields(a[1..], seps[1..]), Fields(b[1..], seps[1..]));
    }
  }

  lemma FieldsCons(ns: seq<nat>, seps: string)
    requires ns != [] && |ns| <= |seps| && ns[0] < 100
    ensures Fields(ns, seps) == Fixed(2, ns[0]) + ([seps[0]] + Fields(ns[1..], seps[1..]))
  {
    FieldParses(ns[0]);
  }

  lemma EarlierFields(a: Moment, b: Moment)
    requires ValidMoment(a) && ValidMoment(b) && Unix(a) < Unix(b)
    requires I32_MIN <= a.date.year < I32_END && I32_MIN <= b.date.year < I32_END
    ensures a.date.year < b.date.year || (a.date.year == b.date.year && NumbersLess(FieldsOf(a), FieldsOf(b)))
  {
    hide DaysFromCivil, CivilFromDays;
    UnixRoundTrip(a);
    UnixRoundTrip(b);
    DaysRoundTrip(a.date);
    DaysRoundTrip(b.date);
    var p, q := DaysFromCivil(a.date.year, a.date.month, a.date.day),
      DaysFromCivil(b.date.year, b.date.month, b.date.day);
    if p < q {
      LaterDayLaterDate(p, q);
    } else {
      assert p == q && a.date == b.date;
    }
    NumbersLessCons(a.second, b.second, [], []);
    NumbersLessCons(a.minute, b.minute, [a.second], [b.second]);
    NumbersLessCons(a.hour, b.hour, [a.minute, a.second], [b.minute, b.second]);
    NumbersLessCons(a.date.day, b.date.day, [a.hour, a.minute, a.second], [b.hour, b.minute, b.second]);
    NumbersLessCons(a.date.month, b.date.month, [a.date.day, a.hour, a.minute, a.second],
                    [b.date.day, b.hour, b.minute, b.second]);
  }

  lemma NumbersLessCons(m: nat, n: nat, a: seq<nat>, b: seq<nat>)
    requires |a| == |b|
    ensures |[m] + a| == |[n] + b|
    ensures NumbersLess([m] + a, [n] + b) <==> m < n || (m == n && NumbersLess(a, b))
  {
    assert ([m] + a)[1..] == a && ([n] + b)[1..] == b;
  }
}
