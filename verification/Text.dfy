/** Searching, splitting and trimming, as the Rust standard library does it. */
module Text {
  import opened Common
  import opened Decimals

  // ---------- Searching ----------

  /** Where `pat` first occurs (`windows(n).position`). */
  function Find<T(==)>(b: seq<T>, pat: seq<T>): (r: Option<nat>)
    requires pat != []
    ensures r.Some? ==> r.value + |pat| <= |b|
  {
    if |b| < |pat| then None
    else if b[..|pat|] == pat then Some(0)
    else match Find(b[1..], pat) case Some(i) => Some(i + 1) case None => None
  }

  lemma {:induction false} FindPlace<T>(b: seq<T>, pat: seq<T>)
    requires pat != [] && Find(b, pat).Some?
    ensures b[Find(b, pat).value..][..|pat|] == pat
  {
    var i := Find(b, pat).value;
    if i == 0 {
      assert b[0..] == b;
    } else {
      FindPlace(b[1..], pat);
      assert b[i..] == b[1..][i - 1..];
    }
  }

  lemma {:induction false} FindFirst<T>(b: seq<T>, pat: seq<T>, j: nat)
    requires pat != [] && j + |pat| <= |b| && (Find(b, pat).None? || j < Find(b, pat).value)
    ensures b[j..][..|pat|] != pat
  {
    if j == 0 {
      assert b[0..] == b;
    } else {
      FindFirst(b[1..], pat, j - 1);
      assert b[j..] == b[1..][j - 1..];
    }
  }

  lemma FindMeaning<T>(b: seq<T>, pat: seq<T>)
    requires pat != []
    ensures Find(b, pat).Some? ==> b[Find(b, pat).value..][..|pat|] == pat
    ensures forall j: nat :: j + |pat| <= |b| && (Find(b, pat).None? || j < Find(b, pat).value) ==>
      b[j..][..|pat|] != pat
  {
    hide Find;
    if Find(b, pat).Some? {
      FindPlace(b, pat);
    }
    forall j: nat | j + |pat| <= |b| && (Find(b, pat).None? || j < Find(b, pat).value)
      ensures b[j..][..|pat|] != pat
    {
      FindFirst(b, pat, j);
    }
  }

  /** What was found in a prefix is found at the same place in the whole. */
  lemma {:induction false} FindStable<T>(b: seq<T>, more: seq<T>, pat: seq<T>)
    requires pat != [] && Find(b, pat).Some?
    ensures Find(b + more, pat) == Find(b, pat)
  {
    assert (b + more)[..|pat|] == b[..|pat|];
    if b[..|pat|] != pat {
      FindStable(b[1..], more, pat);
      assert (b + more)[1..] == b[1..] + more;
    }
  }

  /** The text up to the first `c`, or all of it. */
  function UpTo(s: string, c: char): string {
    if s == [] || s[0] == c then [] else [s[0]] + UpTo(s[1..], c)
  }

  /** `split_once(c)`: the text after the first `c`. */
  function After(s: string, c: char): Option<string> {
    if s == [] then None else if s[0] == c then Some(s[1..]) else After(s[1..], c)
  }

  /** `split(c)`: at least one piece. */
  function Split(s: string, c: char): (r: seq<string>)
    ensures r != []
  {
    if s == [] then [[]]
    else
      var rest := Split(s[1..], c);
      if s[0] == c then [[]] + rest else [[s[0]] + rest[0]] + rest[1..]
  }

  // ---------- Whitespace ----------

  /** Unicode `White_Space`. */
  predicate White(c: char) {
    var n := c as int;
    9 <= n <= 13 || n in {0x20, 0x85, 0xA0, 0x1680, 0x2028, 0x2029, 0x202F, 0x205F, 0x3000} || 0x2000 <= n <= 0x200A
  }

  function TrimStart(s: string): (r: string)
    ensures r == [] || !White(r[0])
  {
    if s != [] && White(s[0]) then TrimStart(s[1..]) else s
  }

  function TrimEnd(s: string): (r: string)
    ensures r == [] || !White(r[|r| - 1])
  {
    if s != [] && White(s[|s| - 1]) then TrimEnd(s[..|s| - 1]) else s
  }

  function Trim(s: string): string { TrimEnd(TrimStart(s)) }

  /** `split_whitespace`. */
  function Words(s: string): seq<string>
    decreases |s|
  {
    var t := TrimStart(s);
    TrimStartShrinks(s);
    if t == [] then []
    else
      var w := Word(t);
      [w] + Words(t[|w|..])
  }

  function Word(s: string): (r: string)
    ensures |r| <= |s| && (s != [] && !White(s[0]) ==> r != [])
  {
    if s == [] || White(s[0]) then [] else [s[0]] + Word(s[1..])
  }

  lemma TrimStartShrinks(s: string)
    ensures |TrimStart(s)| <= |s|
  {
  }

  // ---------- Lines ----------

  function StripCr(s: string): string { if s != [] && s[|s| - 1] == '\r' then s[..|s| - 1] else s }

  /**
   * `lines()`: pieces ended by a line feed, without it and without a carriage return before it; an unended
   * last piece counts as it is.
   */
  function Lines(s: string): seq<string> {
    if s == [] then []
    else match Find(s, ['\n'])
      case None => [s]
      case Some(i) => [StripCr(s[..i])] + Lines(s[i + 1..])
  }

  // ---------- Letter case ----------

  function LowerChar(c: char): char { if 'A' <= c <= 'Z' then (c as int + 32) as char else c }

  /** `to_ascii_lowercase`. */
  function LowerAscii(s: string): string { seq(|s|, i requires 0 <= i < |s| => LowerChar(s[i])) }

  // ---------- Numbers ----------

  function DigitOf(c: char, radix: nat): (r: Option<nat>)
    requires radix == 10 || radix == 16
    ensures r.Some? ==> r.value < radix
  {
    match HexValue(c as int) case Some(d) => (if d < radix then Some(d) else None) case None => None
  }

  function NumberOf(s: string, radix: nat): Option<nat>
    requires radix == 10 || radix == 16
  {
    if s == [] then Some(0)
    else
      match (NumberOf(s[..|s| - 1], radix), DigitOf(s[|s| - 1], radix))
      case (Some(n), Some(d)) => Some(radix * n + d)
      case _ => None
  }

  /** `from_str_radix` for an unsigned type below `bound`: an optional plus sign, then digits. */
  function ParseUnsigned(s: string, radix: nat, bound: nat): Option<nat>
    requires radix == 10 || radix == 16
  {
    var digits := if |s| > 1 && s[0] == '+' then s[1..] else s;
    if digits == [] then None
    else match NumberOf(digits, radix) case Some(n) => (if n < bound then Some(n) else None) case None => None
  }

  // ---------- Laws of lines, fields and trimming ----------

  /** Whole lines only. */
  predicate Ended(text: string) { text == [] || text[|text| - 1] == '\n' }

  lemma {:induction false} LinesAppend(a: string, b: string)
    requires Ended(a)
    ensures Lines(a + b) == Lines(a) + Lines(b)
    decreases |a|
  {
    hide Find;
    if a == [] {
      assert a + b == b && [] + Lines(b) == Lines(b);
    } else {
      FindMeaning(a, ['\n']);
      assert a[|a| - 1..][..1] == ['\n'];
      FindStable(a, b, ['\n']);
      var i := Find(a, ['\n']).value;
      assert (a + b)[..i] == a[..i] && (a + b)[i + 1..] == a[i + 1..] + b;
      LinesAppend(a[i + 1..], b);
      assert [StripCr(a[..i])] + (Lines(a[i + 1..]) + Lines(b)) == [StripCr(a[..i])] + Lines(a[i + 1..]) + Lines(b);
    }
  }

  lemma LineOfOne(line: string)
    requires '\n' !in line && '\r' !in line
    ensures Lines(line + "\n") == [line]
  {
    var text := line + "\n";
    FindMeaning(text, ['\n']);
    assert text[|line|..][..1] == ['\n'];
    var i := Find(text, ['\n']).value;
    assert text[i..][..1][0] == text[i] == '\n';
    assert i == |line|;
    assert text[..i] == line && text[i + 1..] == [];
  }

  lemma {:induction false} SplitAt(a: string, c: char, b: string)
    requires c !in a
    ensures UpTo(a + [c] + b, c) == a && After(a + [c] + b, c) == Some(b)
  {
    var s := a + [c] + b;
    if a == [] {
      assert s == [c] + b && s[1..] == b;
    } else {
      SplitAt(a[1..], c, b);
      assert s[1..] == a[1..] + [c] + b;
    }
  }

  lemma {:induction false} TrimmedAway(s: string)
    ensures Trim(s) == [] <==> forall i :: 0 <= i < |s| ==> White(s[i])
  {
    StartTrimmed(s);
    EndTrimmed(TrimStart(s));
    hide White;
    if TrimStart(s) != [] {
      assert !White(TrimStart(s)[0]);
    }
  }

  lemma {:induction false} StartTrimmed(s: string)
    ensures TrimStart(s) == [] <==> forall i :: 0 <= i < |s| ==> White(s[i])
  {
    hide White;
    if s != [] && White(s[0]) {
      StartTrimmed(s[1..]);
      assert forall i :: 0 <= i < |s| ==> s[i] == if i == 0 then s[0] else s[1..][i - 1];
    }
  }

  lemma {:induction false} EndTrimmed(s: string)
    ensures TrimEnd(s) == [] <==> forall i :: 0 <= i < |s| ==> White(s[i])
  {
    hide White;
    if s != [] && White(s[|s| - 1]) {
      EndTrimmed(s[..|s| - 1]);
    }
  }
}
