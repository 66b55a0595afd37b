/** base58btc as written in `bridge_did.rs`: in-place long multiplication in a buffer of estimated size. */
module Base58 {
  import opened Common
  import opened Radix

  const RADIX := 58

  /** The alphabet "1..9A..HJ..NP..Za..km..z": six runs of consecutive ASCII characters. */
  function Symbol(d: nat): char
    requires d < RADIX
  {
    (if d < 9 then '1' as int + d
     else if d < 17 then 'A' as int + (d - 9)
     else if d < 22 then 'J' as int + (d - 17)
     else if d < 33 then 'P' as int + (d - 22)
     else if d < 44 then 'a' as int + (d - 33)
     else 'm' as int + (d - 44)) as char
  }

  /** `ceil(n * num / 1000)`: the program's `f64` ceilings of 0.733 n and 1.366 n, without rounding. */
  function CeilThousandths(n: nat, num: nat): nat { (n * num + 999) / 1000 }

  function EncodeBufferSize(n: nat): nat { CeilThousandths(n, 1366) + 1 }

  function DecodeBufferSize(n: nat): nat { CeilThousandths(n, 733) + 1 }

  // ---------- The estimates suffice ----------

  lemma PowersOf58()
    ensures Pow(58, 1) == 58 && Pow(58, 2) == 3364 && Pow(58, 4) == 11316496 && Pow(58, 8) == 128063081718016
    ensures Pow(58, 16) == 16400152899115243850138976256
    ensures Pow(58, 32) == 268965015114358137726910587140455987105619365599731777536
  {
    assert Pow(58, 1) == 58 && Pow(58, 2) == 3364;
    PowAdd(58, 2, 2);
    PowAdd(58, 4, 4);
    PowAdd(58, 8, 8);
    PowAdd(58, 16, 16);
    hide Pow;
  }

  lemma PowersOf256()
    ensures Pow(256, 1) == 256 && Pow(256, 2) == 65536 && Pow(256, 4) == TWO_32 && Pow(256, 8) == TWO_64
    ensures Pow(256, 16) == 0x1_0000_0000_0000_0000_0000_0000_0000_0000
    ensures Pow(256, 32) == 0x1_0000_0000_0000_0000_0000_0000_0000_0000_0000_0000_0000_0000_0000_0000_0000_0000
  {
    assert Pow(256, 1) == 256 && Pow(256, 2) == 65536;
    PowAdd(256, 2, 2);
    PowAdd(256, 4, 4);
    PowAdd(256, 8, 8);
    PowAdd(256, 16, 16);
    hide Pow;
  }

  lemma Pow58Of71()
    ensures Pow(58, 71) <= Pow(256, 52)
  {
    PowersOf58();
    PowersOf256();
    PowAdd(58, 32, 32);
    PowAdd(58, 4, 2);
    PowAdd(58, 6, 1);
    PowAdd(58, 64, 7);
    PowAdd(256, 32, 16);
    PowAdd(256, 48, 4);
    hide Pow;
  }

  lemma Pow256Of41()
    ensures Pow(256, 41) <= Pow(58, 56)
  {
    PowersOf58();
    PowersOf256();
    PowAdd(58, 32, 24);
    PowAdd(58, 16, 8);
    PowAdd(256, 32, 9);
    PowAdd(256, 8, 1);
    hide Pow;
  }

  /** Even without the extra digit the program adds, n bytes always fit the base-58 buffer. */
  lemma EncodeBufferSuffices(n: nat)
    ensures Pow(256, n) <= Pow(58, EncodeBufferSize(n) - 1)
  {
    Pow256Of41();
    PowRatio(256, 58, 41, 56, n, EncodeBufferSize(n) - 1);
  }

  /** Even without the extra byte the program adds, n base-58 digits always fit the byte buffer. */
  lemma DecodeBufferSuffices(n: nat)
    ensures Pow(58, n) <= Pow(256, DecodeBufferSize(n) - 1)
  {
    Pow58Of71();
    PowRatio(58, 256, 71, 52, n, DecodeBufferSize(n) - 1);
  }

  // ---------- What the two functions compute ----------

  /** `BASE58_ALPHABET.iter().position`, searching from index `from`. */
  function Position(c: char, from: nat := 0): (r: Option<nat>)
    requires from <= RADIX
    ensures r.Some? ==> from <= r.value < RADIX && Symbol(r.value) == c
    ensures r.None? ==> forall i :: from <= i < RADIX ==> Symbol(i) != c
    decreases RADIX - from
  {
    if from == RADIX then None
    else if Symbol(from) == c then Some(from)
    else Position(c, from + 1)
  }

  lemma PositionOfSymbol(d: nat)
    requires d < 58
    ensures Position(Symbol(d)) == Some(d)
  {
    assert Symbol(d) == Symbol(d);
  }

  predicate InAlphabet(s: string) { forall i :: 0 <= i < |s| ==> Position(s[i]).Some? }

  function Symbols(ds: seq<nat>): string
    requires AreDigits(58, ds)
  {
    seq(|ds|, i requires 0 <= i < |ds| => Symbol(ds[i]))
  }

  function Indices(s: string): seq<nat>
    requires InAlphabet(s)
  {
    seq(|s|, i requires 0 <= i < |s| => Position(s[i]).value)
  }

  function Leading<T(==)>(s: seq<T>, x: T): (n: nat)
    ensures n <= |s|
    ensures forall i :: 0 <= i < n ==> s[i] == x
    ensures n < |s| ==> s[n] != x
  {
    if s == [] || s[0] != x then 0 else 1 + Leading(s[1..], x)
  }

  function Repeat<T>(x: T, n: nat): seq<T> { seq(n, _ => x) }

  /** One '1' per leading zero byte, then the number the other bytes spell, in base 58. */
  function Encoded(bytes: seq<byte>): string {
    var z := Leading(bytes, 0);
    DigitsShape(58, Val(256, bytes[z..]));
    Repeat('1', z) + Symbols(Digits(58, Val(256, bytes[z..])))
  }

  /** One zero byte per leading '1', then the number the other symbols spell, in base 256. */
  function Decoded(s: string): Option<seq<byte>> {
    if !InAlphabet(s) then None
    else
      var z := Leading(s, '1');
      var n := Val(58, Indices(s[z..]));
      DigitsShape(256, n);
      Some(Repeat<byte>(0, z) + Digits(256, n))
  }

  // ---------- Each undoes the other ----------

  lemma LeadingOfRepeat<T>(x: T, n: nat, t: seq<T>)
    requires t == [] || t[0] != x
    ensures Leading(Repeat(x, n) + t, x) == n
  {
    var s := Repeat(x, n) + t;
    var m := Leading(s, x);
    assert forall i :: 0 <= i < n ==> s[i] == x;
    if n < |s| {
      assert s[n] == t[0];
    }
  }

  lemma IndicesOfSymbols(ds: seq<nat>)
    requires AreDigits(58, ds)
    ensures InAlphabet(Symbols(ds)) && Indices(Symbols(ds)) == ds
  {
    forall i | 0 <= i < |ds| ensures Position(Symbols(ds)[i]) == Some(ds[i]) {
      PositionOfSymbol(ds[i]);
    }
  }

  lemma SymbolsOfIndices(s: string)
    requires InAlphabet(s)
    ensures AreDigits(58, Indices(s)) && Symbols(Indices(s)) == s
  {
  }

  lemma IndicesSnoc(s: string, c: char)
    requires InAlphabet(s) && Position(c).Some?
    ensures InAlphabet(s + [c]) && Indices(s + [c]) == Indices(s) + [Position(c).value]
  {
  }

  lemma StripNothing(ds: seq<nat>)
    requires ds == [] || ds[0] != 0
    ensures Strip(ds) == ds
  {
  }

  lemma DecodedOfParts(z: nat, ds: seq<nat>)
    requires AreDigits(58, ds) && (ds == [] || ds[0] != 0)
    ensures AreDigits(256, Digits(256, Val(58, ds)))
    ensures Decoded(Repeat('1', z) + Symbols(ds)) == Some(Repeat<byte>(0, z) + Digits(256, Val(58, ds)))
  {
    var t := Symbols(ds);
    var s := Repeat('1', z) + t;
    IndicesOfSymbols(ds);
    PositionOfSymbol(0);
    LeadingOfRepeat('1', z, t);
    assert s[z..] == t;
    assert forall i :: 0 <= i < |s| ==> s[i] == if i < z then '1' else t[i - z];
    DigitsShape(256, Val(58, ds));
  }

  /** Decoding an encoding gives back the bytes, for every byte string. */
  lemma DecodeInvertsEncode(bytes: seq<byte>)
    ensures Decoded(Encoded(bytes)) == Some(bytes)
  {
    hide Val, Digits, Decoded;
    var z := Leading(bytes, 0);
    var rest := bytes[z..];
    DigitsShape(58, Val(256, rest));
    ValOfDigits(58, Val(256, rest));
    DecodedOfParts(z, Digits(58, Val(256, rest)));
    DigitsOfVal(256, rest);
    StripNothing(rest);
    assert bytes == Repeat<byte>(0, z) + rest;
  }

  lemma EncodedOfParts(z: nat, ds: seq<byte>)
    requires ds == [] || ds[0] != 0
    ensures AreDigits(58, Digits(58, Val(256, ds)))
    ensures Encoded(Repeat<byte>(0, z) + ds) == Repeat('1', z) + Symbols(Digits(58, Val(256, ds)))
  {
    LeadingOfRepeat<byte>(0, z, ds);
    assert (Repeat<byte>(0, z) + ds)[z..] == ds;
    DigitsShape(58, Val(256, ds));
  }

  /** Whatever decodes re-encodes to the very string it came from: no two spellings of one byte string. */
  lemma EncodeInvertsDecode(s: string)
    requires Decoded(s).Some?
    ensures Encoded(Decoded(s).value) == s
  {
    hide Val, Digits, Encoded;
    var z := Leading(s, '1');
    var t := s[z..];
    var ix := Indices(t);
    SymbolsOfIndices(t);
    var n := Val(58, ix);
    var ds := Digits(256, n);
    DigitsShape(256, n);
    ValOfDigits(256, n);
    PositionOfSymbol(0);
    EncodedOfParts(z, ds);
    DigitsOfVal(58, ix);
    StripNothing(ix);
    assert s == Repeat('1', z) + t;
  }

  // ---------- The loops ----------

  /** What the digits behind the cursor and the carry amount to. */
  ghost predicate Balanced(base: nat, mul: nat, add: nat, carry: nat, tail: seq<nat>, was: seq<nat>) {
    carry * Pow(base, |tail|) + Val(base, tail) == Val(base, was) * mul + add
  }

  /** `buf := buf * mul + add` in base `base`, from the last digit up; the carry is what did not fit. */
  method ShiftIn(buf: array<nat>, base: nat, mul: nat, add: nat) returns (carry: nat)
    requires base >= 2 && AreDigits(base, buf[..])
    modifies buf
    ensures AreDigits(base, buf[..])
    ensures carry * Pow(base, buf.Length) + Val(base, buf[..]) == Val(base, old(buf[..])) * mul + add
  {
    hide Balanced, Pow, Val;
    ghost var was := buf[..];
    carry := add;
    var j := buf.Length;
    assert buf[j..] == [] && was[j..] == [];
    ShiftInStart(base, mul, add);
    while j > 0
      invariant 0 <= j <= buf.Length
      invariant buf[..j] == was[..j]
      invariant AreDigits(base, buf[..])
      invariant Balanced(base, mul, add, carry, buf[j..], was[j..])
    {
      ghost var tail, c0 := buf[j..], carry;
      j := j - 1;
      assert buf[j] == was[j] by { assert buf[j] == buf[..j + 1][j]; }
      carry := carry + buf[j] * mul;
      ghost var c1 := carry;
      buf[j] := carry % base;
      carry := carry / base;
      assert buf[j..] == [c1 % base] + tail;
      assert was[j..] == [was[j]] + was[j + 1..];
      ShiftInStep(base, mul, add, c0, was[j], tail, was[j + 1..]);
    }
    assert buf[0..] == buf[..] && was[0..] == was;
    ShiftInEnd(base, mul, add, carry, buf[..], was);
  }

  lemma ShiftInEnd(base: nat, mul: nat, add: nat, carry: nat, tail: seq<nat>, was: seq<nat>)
    requires Balanced(base, mul, add, carry, tail, was)
    ensures carry * Pow(base, |tail|) + Val(base, tail) == Val(base, was) * mul + add
  {
  }

  lemma ShiftInStart(base: nat, mul: nat, add: nat)
    ensures Balanced(base, mul, add, add, [], [])
  {
    assert Pow(base, 0) == 1 && Val(base, []) == 0;
  }

  lemma ShiftInStep(base: nat, mul: nat, add: nat, c: nat, d: nat, tail: seq<nat>, was: seq<nat>)
    requires base >= 2 && |tail| == |was| && Balanced(base, mul, add, c, tail, was)
    ensures
      var c' := c + d * mul;
      Balanced(base, mul, add, c' / base, [c' % base] + tail, [d] + was)
  {
    hide Pow, Val;
    var c' := c + d * mul;
    PowStep(base, |tail|);
    ValCons(base, c' % base, tail);
    ValCons(base, d, was);
    DivModIdentity(c', base);
    CarryAlgebra(base, mul, add, c, d, Pow(base, |tail|), c' / base, c' % base, Val(base, tail), Val(base, was));
  }

  lemma CarryAlgebra(base: int, mul: int, add: int, c: int, d: int, p: int, q: int, r: int, v: int, w: int)
    requires c * p + v == w * mul + add
    requires c + d * mul == q * base + r
    ensures q * (base * p) + (r * p + v) == (d * p + w) * mul + add
  {
    calc {
      q * (base * p) + r * p;
      (q * base + r) * p;
      (c + d * mul) * p;
      c * p + d * mul * p;
    }
    assert (d * p + w) * mul == d * mul * p + w * mul;
  }

  /** When the shifted number is below the capacity of the buffer nothing is carried out of it. */
  lemma NoCarry(carry: nat, capacity: nat, v: nat, n: nat)
    requires carry * capacity + v == n && n < capacity
    ensures carry == 0
  {
    if carry >= 1 {
      MulMonotone(1, carry, capacity);
    }
  }

  /** `while start < size && buf[start] == 0 { start += 1 }`. */
  method FirstNonZero(buf: array<nat>) returns (start: nat)
    ensures start <= buf.Length && buf[start..] == Strip(buf[..])
  {
    start := 0;
    assert buf[0..] == buf[..];
    while start < buf.Length && buf[start] == 0
      invariant start <= buf.Length
      invariant Strip(buf[start..]) == Strip(buf[..])
    {
      assert buf[start..][1..] == buf[start + 1..];
      start := start + 1;
    }
  }

  method CountLeading<T(==)>(s: seq<T>, x: T) returns (n: nat)
    ensures n == Leading(s, x)
  {
    n := 0;
    while n < |s| && s[n] == x
      invariant n <= |s|
      invariant Leading(s, x) == n + Leading(s[n..], x)
    {
      assert s[n..][1..] == s[n + 1..];
      n := n + 1;
    }
  }

  /** The long multiplication of `base58btc_encode`, over the bytes after the leading zeros. */
  method ConvertBytes(bytes: seq<byte>, zeros: nat) returns (b58: array<nat>)
    requires zeros <= |bytes|
    ensures fresh(b58) && AreDigits(58, b58[..]) && Val(58, b58[..]) == Val(256, bytes[zeros..])
  {
    hide Val, Pow;
    var size := EncodeBufferSize(|bytes|);
    b58 := new nat[size](_ => 0);
    ZeroValue(58, b58[..]);
    var i := zeros;
    assert bytes[zeros..i] == [];
    ZeroValue(256, []);
    while i < |bytes|
      invariant zeros <= i <= |bytes|
      invariant AreDigits(58, b58[..])
      invariant Val(58, b58[..]) == Val(256, bytes[zeros..i])
    {
      var carry := ShiftIn(b58, 58, 256, bytes[i]);
      ghost var v := Val(256, bytes[zeros..i + 1]);
      assert bytes[zeros..i + 1] == bytes[zeros..i] + [bytes[i]];
      ValSnoc(256, bytes[zeros..i], bytes[i]);
      EncodeFits(bytes, zeros, i + 1);
      NoCarry(carry, Pow(58, size), Val(58, b58[..]), v);
      i := i + 1;
    }
    assert bytes[zeros..|bytes|] == bytes[zeros..];
  }

  method PushSymbols(start: string, ds: seq<nat>) returns (out: string)
    requires AreDigits(58, ds)
    ensures out == start + Symbols(ds)
  {
    out := start;
    var k := 0;
    while k < |ds|
      invariant k <= |ds|
      invariant out == start + Symbols(ds[..k])
    {
      assert ds[..k + 1] == ds[..k] + [ds[k]];
      assert Symbols(ds[..k + 1]) == Symbols(ds[..k]) + [Symbol(ds[k])];
      out := out + [Symbol(ds[k])];
      k := k + 1;
    }
    assert ds[..|ds|] == ds;
  }

  method Encode(bytes: seq<byte>) returns (out: string)
    ensures out == Encoded(bytes)
    ensures Decoded(out) == Some(bytes)
  {
    hide Val, Digits, Decoded;
    var zeros := CountLeading(bytes, 0);
    var b58 := ConvertBytes(bytes, zeros);
    DigitsOfVal(58, b58[..]);
    var start := FirstNonZero(b58);
    out := [];
    for k := 0 to zeros
      invariant out == Repeat('1', k)
    {
      out := out + ['1'];
    }
    out := PushSymbols(out, b58[start..]);
    DecodeInvertsEncode(bytes);
  }

  lemma ZeroValue(base: nat, ds: seq<nat>)
    requires forall i :: 0 <= i < |ds| ==> ds[i] == 0
    ensures Val(base, ds) == 0
  {
  }

  lemma EncodeFits(bytes: seq<byte>, from: nat, to: nat)
    requires from <= to <= |bytes|
    ensures Val(256, bytes[from..to]) < Pow(58, EncodeBufferSize(|bytes|))
  {
    ValBound(256, bytes[from..to]);
    PowMonotoneExponent(256, to - from, |bytes|);
    EncodeBufferSuffices(|bytes|);
    PowMonotoneExponent(58, EncodeBufferSize(|bytes|) - 1, EncodeBufferSize(|bytes|));
  }

  lemma DecodeFits(ix: seq<nat>, n: nat)
    requires AreDigits(58, ix) && |ix| <= n
    ensures Val(58, ix) < Pow(256, DecodeBufferSize(n))
  {
    ValBound(58, ix);
    PowMonotoneExponent(58, |ix|, n);
    DecodeBufferSuffices(n);
    PowMonotoneExponent(256, DecodeBufferSize(n) - 1, DecodeBufferSize(n));
  }

  /** The long multiplication of `base58btc_decode`; None as soon as a character has no digit. */
  method ConvertSymbols(s: string, zeros: nat) returns (r: Option<array<nat>>)
    requires zeros <= |s|
    ensures r.None? <==> !InAlphabet(s[zeros..])
    ensures r.Some? ==> fresh(r.value) && AreDigits(256, r.value[..])
    ensures r.Some? ==> Val(256, r.value[..]) == Val(58, Indices(s[zeros..]))
  {
    hide Val, Pow, Position;
    var size := DecodeBufferSize(|s| - zeros);
    var b256 := new nat[size](_ => 0);
    ZeroValue(256, b256[..]);
    ZeroValue(58, []);
    var i := zeros;
    assert Indices(s[zeros..i]) == [];
    while i < |s|
      invariant zeros <= i <= |s|
      invariant InAlphabet(s[zeros..i])
      invariant AreDigits(256, b256[..])
      invariant Val(256, b256[..]) == Val(58, Indices(s[zeros..i]))
    {
      var idx := Position(s[i]);
      if idx.None? {
        assert s[i] == s[zeros..][i - zeros];
        return None;
      }
      var carry := ShiftIn(b256, 256, 58, idx.value);
      ghost var done := s[zeros..i + 1];
      assert done == s[zeros..i] + [s[i]];
      IndicesSnoc(s[zeros..i], s[i]);
      ValSnoc(58, Indices(s[zeros..i]), idx.value);
      SymbolsOfIndices(done);
      DecodeFits(Indices(done), |s| - zeros);
      NoCarry(carry, Pow(256, size), Val(256, b256[..]), Val(58, Indices(done)));
      if carry != 0 {
        assert false;  // the overflow exit, which returns None
      }
      i := i + 1;
    }
    assert s[zeros..|s|] == s[zeros..];
    r := Some(b256);
  }

  /** None exactly when some character is outside the alphabet; otherwise the inverse of `Encode`. */
  method Decode(s: string) returns (r: Option<seq<byte>>)
    ensures r == Decoded(s)
    ensures r.None? <==> !InAlphabet(s)
    ensures r.Some? ==> Encoded(r.value) == s
  {
    hide Val, Digits, Encoded, Position;
    var zeros := CountLeading(s, '1');
    PositionOfSymbol(0);
    assert InAlphabet(s) <==> InAlphabet(s[zeros..]) by {
      assert forall i :: 0 <= i < |s| ==> s[i] == if i < zeros then '1' else s[zeros..][i - zeros];
      assert forall i :: 0 <= i < |s[zeros..]| ==> s[zeros..][i] == s[i + zeros];
    }
    var converted := ConvertSymbols(s, zeros);
    if converted.None? {
      return None;
    }
    var b256 := converted.value;
    DigitsOfVal(256, b256[..]);
    var start := FirstNonZero(b256);
    var out: seq<byte> := Repeat<byte>(0, zeros);
    r := Some(out + b256[start..]);
    EncodeInvertsDecode(s);
  }
}
