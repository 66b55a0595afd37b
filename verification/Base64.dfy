/** The two base64 engines of `encoding.rs` (RFC 4648 sections 4 and 5), with strict decoding. */
module Base64 {
  import opened Common

  /** An engine is its last two alphabet symbols and its padding policy. */
  datatype Engine = Engine(sym62: byte, sym63: byte, padded: bool)

  const PLUS: byte := '+' as int
  const SLASH: byte := '/' as int
  const MINUS: byte := '-' as int
  const UNDERSCORE: byte := '_' as int
  const PAD: byte := '=' as int

  const STANDARD := Engine(PLUS, SLASH, true)
  const URL_SAFE_NO_PAD := Engine(MINUS, UNDERSCORE, false)

  predicate IsEngine(e: Engine) { e == STANDARD || e == URL_SAFE_NO_PAD }

  datatype DecodeError =
    | InvalidByte(offset: nat, byte: byte)
    | InvalidLength(len: nat)
    | InvalidPadding
    | InvalidTrailingBits

  type sextet = x: int | 0 <= x < 64

  /** `alphabet[d]`. */
  function Symbol(e: Engine, d: sextet): byte {
    if d < 26 then 'A' as int + d
    else if d < 52 then 'a' as int + (d - 26)
    else if d < 62 then '0' as int + (d - 52)
    else if d == 62 then e.sym62
    else e.sym63
  }

  /** `decode_symbol`. */
  function DecodeSymbol(e: Engine, b: byte): Option<sextet> {
    if 'A' as int <= b <= 'Z' as int then Some(b - 'A' as int)
    else if 'a' as int <= b <= 'z' as int then Some(b - 'a' as int + 26)
    else if '0' as int <= b <= '9' as int then Some(b - '0' as int + 52)
    else if b == PLUS && e.sym62 == PLUS then Some(62)
    else if b == SLASH && e.sym63 == SLASH then Some(63)
    else if b == MINUS && e.sym62 == MINUS then Some(62)
    else if b == UNDERSCORE && e.sym63 == UNDERSCORE then Some(63)
    else None
  }

  lemma SymbolDecodes(e: Engine, d: sextet)
    requires IsEngine(e)
    ensures DecodeSymbol(e, Symbol(e, d)) == Some(d) && Symbol(e, d) != PAD
  {
  }

  lemma SymbolReencodes(e: Engine, b: byte)
    requires IsEngine(e) && DecodeSymbol(e, b).Some?
    ensures Symbol(e, DecodeSymbol(e, b).value) == b
  {
  }

  lemma SymbolInverse(e: Engine)
    requires IsEngine(e)
    ensures forall d: sextet :: DecodeSymbol(e, Symbol(e, d)) == Some(d)
    ensures forall d: sextet :: Symbol(e, d) != PAD
    ensures forall b: byte :: DecodeSymbol(e, b).Some? ==> Symbol(e, DecodeSymbol(e, b).value) == b
  {
    hide Symbol, DecodeSymbol;
    forall d: sextet ensures DecodeSymbol(e, Symbol(e, d)) == Some(d) && Symbol(e, d) != PAD {
      SymbolDecodes(e, d);
    }
    forall b: byte | DecodeSymbol(e, b).Some? ensures Symbol(e, DecodeSymbol(e, b).value) == b {
      SymbolReencodes(e, b);
    }
  }

  // ---------- 24-bit groups ----------

  type group = x: int | 0 <= x < 0x100_0000

  function FromBytes(a: byte, b: byte, c: byte): group { a * 0x1_0000 + b * 0x100 + c }

  function FromSextets(a: sextet, b: sextet, c: sextet, d: sextet): group { a * 0x4_0000 + b * 0x1000 + c * 64 + d }

  function Byte0(n: group): byte { n / 0x1_0000 }
  function Byte1(n: group): byte { n / 0x100 % 256 }
  function Byte2(n: group): byte { n % 256 }

  function Sextet0(n: group): sextet { n / 0x4_0000 }
  function Sextet1(n: group): sextet { n / 0x1000 % 64 }
  function Sextet2(n: group): sextet { n / 64 % 64 }
  function Sextet3(n: group): sextet { n % 64 }

  lemma BytesOfGroup(a: byte, b: byte, c: byte)
    ensures var n := FromBytes(a, b, c); Byte0(n) == a && Byte1(n) == b && Byte2(n) == c
  {
    assert FromBytes(a, b, c) / 0x100 == a * 256 + b;
  }

  lemma TwoBytesDown(n: nat)
    ensures n / 0x1_0000 == n / 0x100 / 0x100
  {
    var q := n / 0x100;
    var p := q / 0x100;
    assert 0x100 * q <= n < 0x100 * q + 0x100;
    assert 0x100 * p <= q <= 0x100 * p + 0xff;
    assert 0x1_0000 * p <= n < 0x1_0000 * p + 0x1_0000;
  }

  lemma GroupOfBytes(n: group)
    ensures FromBytes(Byte0(n), Byte1(n), Byte2(n)) == n
  {
    TwoBytesDown(n);
    var q := n / 0x100;
    assert q == 0x100 * (q / 0x100) + q % 0x100;
    assert n == 0x100 * q + n % 0x100;
  }

  lemma SextetsOfGroup(a: sextet, b: sextet, c: sextet, d: sextet)
    ensures var n := FromSextets(a, b, c, d); Sextet0(n) == a && Sextet1(n) == b && Sextet2(n) == c && Sextet3(n) == d
  {
    var n := FromSextets(a, b, c, d);
    assert n / 64 == a * 0x1000 + b * 64 + c;
    assert n / 0x1000 == a * 64 + b;
  }

  lemma GroupOfSextets(n: group)
    ensures FromSextets(Sextet0(n), Sextet1(n), Sextet2(n), Sextet3(n)) == n
  {
    assert n / 64 / 64 == n / 0x1000 && n / 0x1000 / 64 == n / 0x4_0000;
  }

  // ---------- Encoding ----------

  /** The text of a three-byte group. */
  function EncodeGroup(e: Engine, a: byte, b: byte, c: byte): (r: seq<byte>)
    ensures |r| == 4
  {
    var n := FromBytes(a, b, c);
    [Symbol(e, Sextet0(n)), Symbol(e, Sextet1(n)), Symbol(e, Sextet2(n)), Symbol(e, Sextet3(n))]
  }

  /** The symbols of a final group of fewer than three bytes. */
  function TailSymbols(e: Engine, input: seq<byte>): seq<byte>
    requires |input| < 3
  {
    if |input| == 0 then []
    else if |input| == 1 then EncodeGroup(e, input[0], 0, 0)[..2]
    else EncodeGroup(e, input[0], input[1], 0)[..3]
  }

  /** The padding behind an encoding of `n` bytes. */
  function Padding(e: Engine, n: nat): seq<byte> {
    if !e.padded || n % 3 == 0 then [] else if n % 3 == 1 then [PAD, PAD] else [PAD]
  }

  function Encoded(e: Engine, input: seq<byte>): seq<byte> {
    if |input| < 3 then TailSymbols(e, input) + Padding(e, |input|)
    else EncodeGroup(e, input[0], input[1], input[2]) + Encoded(e, input[3..])
  }

  // ---------- Decoding ----------

  function Sym(e: Engine, offset: nat, b: byte): Result<sextet, DecodeError> {
    match DecodeSymbol(e, b)
    case Some(d) => Ok(d)
    case None => Err(InvalidByte(offset, b))
  }

  function DecodeGroup(e: Engine, s: seq<byte>, offset: nat): Result<seq<byte>, DecodeError>
    requires |s| == 4
  {
    var a :- Sym(e, offset, s[0]);
    var b :- Sym(e, offset + 1, s[1]);
    var c :- Sym(e, offset + 2, s[2]);
    var d :- Sym(e, offset + 3, s[3]);
    var n := FromSextets(a, b, c, d);
    Ok([Byte0(n), Byte1(n), Byte2(n)])
  }

  /** Two or three symbols left over; the bits that no byte takes up must be zero. */
  function DecodeTail(e: Engine, s: seq<byte>, offset: nat): Result<seq<byte>, DecodeError>
    requires |s| == 0 || |s| == 2 || |s| == 3
  {
    if |s| == 0 then Ok([])
    else if |s| == 2 then
      var a :- Sym(e, offset, s[0]);
      var b :- Sym(e, offset + 1, s[1]);
      var n := FromSextets(a, b, 0, 0);
      if n % 0x1_0000 != 0 then Err(InvalidTrailingBits) else Ok([Byte0(n)])
    else
      var a :- Sym(e, offset, s[0]);
      var b :- Sym(e, offset + 1, s[1]);
      var c :- Sym(e, offset + 2, s[2]);
      var n := FromSextets(a, b, c, 0);
      if n % 0x100 != 0 then Err(InvalidTrailingBits) else Ok([Byte0(n), Byte1(n)])
  }

  lemma ModFour(n: nat)
    requires n >= 4
    ensures (n - 4) % 4 == n % 4
  {
  }

  lemma ModThree(n: nat)
    requires n >= 3
    ensures (n - 3) % 3 == n % 3
  {
  }

  function DecodeSymbols(e: Engine, s: seq<byte>, offset: nat): Result<seq<byte>, DecodeError>
    requires |s| % 4 != 1
  {
    if |s| < 4 then DecodeTail(e, s, offset)
    else
      var group :- DecodeGroup(e, s[..4], offset);
      ModFour(|s|);
      var more :- DecodeSymbols(e, s[4..], offset + 4);
      Ok(group + more)
  }

  predicate EndsWith(s: seq<byte>, t: seq<byte>) { |s| >= |t| && s[|s| - |t|..] == t }

  /** Canonical padding removed, or the reason it is not canonical. */
  function Unpad(e: Engine, s: seq<byte>): Result<seq<byte>, DecodeError> {
    if !e.padded then Ok(s)
    else if |s| % 4 != 0 then
      Err(if |s| % 4 == 1 && PAD !in s then InvalidLength(|s|) else InvalidPadding)
    else if EndsWith(s, [PAD, PAD]) then Ok(s[..|s| - 2])
    else if EndsWith(s, [PAD]) then Ok(s[..|s| - 1])
    else Ok(s)
  }

  function Decoded(e: Engine, s: seq<byte>): Result<seq<byte>, DecodeError> {
    var body :- Unpad(e, s);
    if |body| % 4 == 1 then Err(InvalidLength(|body|)) else DecodeSymbols(e, body, 0)
  }

  // ---------- Decoding inverts encoding ----------

  /** The symbols of an encoding, without padding. */
  function Body(e: Engine, input: seq<byte>): seq<byte> {
    if |input| < 3 then TailSymbols(e, input)
    else EncodeGroup(e, input[0], input[1], input[2]) + Body(e, input[3..])
  }

  lemma {:induction false} EncodedIsBodyAndPadding(e: Engine, input: seq<byte>)
    ensures Encoded(e, input) == Body(e, input) + Padding(e, |input|)
    ensures |Body(e, input)| % 4 == if |input| % 3 == 0 then 0 else |input| % 3 + 1
  {
    hide EncodeGroup;
    if |input| >= 3 {
      ModThree(|input|);
      ModFour(|Body(e, input)|);
      EncodedIsBodyAndPadding(e, input[3..]);
    }
  }

  lemma GroupRoundTrip(e: Engine, a: byte, b: byte, c: byte, offset: nat)
    requires IsEngine(e)
    ensures DecodeGroup(e, EncodeGroup(e, a, b, c), offset) == Ok([a, b, c])
  {
    hide Symbol, DecodeSymbol, FromBytes, FromSextets, Byte0, Byte1, Byte2, Sextet0, Sextet1, Sextet2, Sextet3;
    SymbolInverse(e);
    GroupOfSextets(FromBytes(a, b, c));
    BytesOfGroup(a, b, c);
  }

  lemma TailRoundTrip(e: Engine, input: seq<byte>, offset: nat)
    requires IsEngine(e) && |input| < 3
    ensures DecodeTail(e, TailSymbols(e, input), offset) == Ok(input)
  {
    hide Symbol, DecodeSymbol, FromBytes, FromSextets, Byte0, Byte1, Byte2, Sextet0, Sextet1, Sextet2, Sextet3;
    SymbolInverse(e);
    if |input| > 0 {
      var a, b := input[0], if |input| == 2 then input[1] else 0;
      var n := FromBytes(a, b, 0);
      GroupOfSextets(n);
      BytesOfGroup(a, b, 0);
      TwoByteGroup(a, b);
      OneByteGroup(a);
      assert input == if |input| == 1 then [a] else [a, b];
    }
  }

  /** The symbols left out of a short final group are zero, and so are the bits no byte takes up. */
  lemma TwoByteGroup(a: byte, b: byte)
    ensures var n := FromBytes(a, b, 0); Sextet3(n) == 0 && n % 0x100 == 0
  {
    assert FromBytes(a, b, 0) == 0x100 * (a * 256 + b);
  }

  lemma OneByteGroup(a: byte)
    ensures var n := FromBytes(a, 0, 0); Sextet2(n) == 0 && n % 0x1_0000 == 0
  {
    assert FromBytes(a, 0, 0) == 64 * (1024 * a) && FromBytes(a, 0, 0) / 64 == 1024 * a == 64 * (16 * a);
  }

  lemma {:induction false} SymbolsRoundTrip(e: Engine, input: seq<byte>, offset: nat)
    requires IsEngine(e)
    ensures |Body(e, input)| % 4 != 1
    ensures DecodeSymbols(e, Body(e, input), offset) == Ok(input)
  {
    EncodedIsBodyAndPadding(e, input);
    var s := Body(e, input);
    if |input| < 3 {
      TailRoundTrip(e, input, offset);
    } else {
      GroupRoundTrip(e, input[0], input[1], input[2], offset);
      SymbolsRoundTrip(e, input[3..], offset + 4);
      assert s[..4] == EncodeGroup(e, input[0], input[1], input[2]) && s[4..] == Body(e, input[3..]);
      assert input == [input[0], input[1], input[2]] + input[3..];
    }
  }

  lemma {:induction false} BodyHasNoPadding(e: Engine, input: seq<byte>)
    requires IsEngine(e)
    ensures PAD !in Body(e, input)
  {
    hide Symbol, Sextet0, Sextet1, Sextet2, Sextet3, FromBytes;
    SymbolInverse(e);
    if |input| >= 3 {
      BodyHasNoPadding(e, input[3..]);
    }
  }

  lemma UnpadNone(e: Engine, body: seq<byte>)
    requires e.padded && PAD !in body && |body| % 4 == 0
    ensures Unpad(e, body) == Ok(body)
  {
    if body != [] {
      assert body[|body| - 1] in body;
      assert body[|body| - 1..][0] == body[|body| - 1] && body[|body| - 2..][1] == body[|body| - 1];
    }
  }

  lemma UnpadOne(e: Engine, body: seq<byte>)
    requires e.padded && PAD !in body && |body| % 4 == 3
    ensures Unpad(e, body + [PAD]) == Ok(body)
  {
    var s := body + [PAD];
    assert s[|s| - 1..] == [PAD] && s[..|s| - 1] == body;
    assert s[|s| - 2] == body[|body| - 1] && body[|body| - 1] in body;
    assert s[|s| - 2..][0] == s[|s| - 2];
  }

  lemma UnpadTwo(e: Engine, body: seq<byte>)
    requires e.padded && |body| % 4 == 2
    ensures Unpad(e, body + [PAD, PAD]) == Ok(body)
  {
    var s := body + [PAD, PAD];
    assert s[|s| - 2..] == [PAD, PAD] && s[..|s| - 2] == body;
  }

  lemma UnpadRoundTrip(e: Engine, input: seq<byte>)
    requires IsEngine(e)
    ensures Unpad(e, Encoded(e, input)) == Ok(Body(e, input))
  {
    EncodedIsBodyAndPadding(e, input);
    BodyHasNoPadding(e, input);
    hide Encoded, Body, EndsWith;
    var body := Body(e, input);
    if !e.padded || |input| % 3 == 0 {
      assert body + [] == body;
      if e.padded {
        UnpadNone(e, body);
      }
    } else if |input| % 3 == 1 {
      UnpadTwo(e, body);
    } else {
      UnpadOne(e, body);
    }
  }

  /** Decoding an encoding gives back the bytes, for every byte string and both engines. */
  lemma DecodeInvertsEncode(e: Engine, input: seq<byte>)
    requires IsEngine(e)
    ensures Decoded(e, Encoded(e, input)) == Ok(input)
  {
    UnpadRoundTrip(e, input);
    SymbolsRoundTrip(e, input, 0);
  }

  // ---------- Encoding inverts decoding ----------

  lemma GroupReencodes(e: Engine, s: seq<byte>, offset: nat)
    requires IsEngine(e) && |s| == 4 && DecodeGroup(e, s, offset).Ok?
    ensures
      var g := DecodeGroup(e, s, offset).value;
      |g| == 3 && EncodeGroup(e, g[0], g[1], g[2]) == s
  {
    hide Symbol, DecodeSymbol, FromBytes, FromSextets, Byte0, Byte1, Byte2, Sextet0, Sextet1, Sextet2, Sextet3;
    SymbolInverse(e);
    var a, b, c, d := DecodeSymbol(e, s[0]).value, DecodeSymbol(e, s[1]).value, DecodeSymbol(e, s[2]).value,
      DecodeSymbol(e, s[3]).value;
    GroupOfBytes(FromSextets(a, b, c, d));
    SextetsOfGroup(a, b, c, d);
  }

  lemma TailReencodes(e: Engine, s: seq<byte>, offset: nat)
    requires IsEngine(e) && (|s| == 0 || |s| == 2 || |s| == 3) && DecodeTail(e, s, offset).Ok?
    ensures
      var t := DecodeTail(e, s, offset).value;
      |t| == (if |s| == 0 then 0 else |s| - 1) && TailSymbols(e, t) == s
  {
    hide Symbol, DecodeSymbol, FromBytes, FromSextets, Byte0, Byte1, Byte2, Sextet0, Sextet1, Sextet2, Sextet3;
    SymbolInverse(e);
    if |s| > 0 {
      var a, b := DecodeSymbol(e, s[0]).value, DecodeSymbol(e, s[1]).value;
      var c := if |s| == 3 then DecodeSymbol(e, s[2]).value else 0;
      var n := FromSextets(a, b, c, 0);
      GroupOfBytes(n);
      SextetsOfGroup(a, b, c, 0);
      TrailingBits(n);
    }
  }

  lemma TrailingBits(n: group)
    ensures n % 0x100 == 0 ==> Byte2(n) == 0
    ensures n % 0x1_0000 == 0 ==> Byte1(n) == 0 && Byte2(n) == 0
  {
    GroupOfBytes(n);
    var low := Byte1(n) * 0x100 + Byte2(n);
    assert n == Byte0(n) * 0x1_0000 + low && low == n % 0x1_0000;
  }

  lemma BodyTail(e: Engine, b: seq<byte>)
    requires |b| < 3
    ensures Body(e, b) == TailSymbols(e, b)
  {
  }

  lemma BodyCons(e: Engine, g: seq<byte>, more: seq<byte>)
    requires |g| == 3
    ensures Body(e, g + more) == EncodeGroup(e, g[0], g[1], g[2]) + Body(e, more)
  {
    assert (g + more)[3..] == more;
  }

  lemma {:induction false} SymbolsReencode(e: Engine, s: seq<byte>, offset: nat)
    requires IsEngine(e) && |s| % 4 != 1 && DecodeSymbols(e, s, offset).Ok?
    ensures
      var b := DecodeSymbols(e, s, offset).value;
      Body(e, b) == s && |b| % 3 == if |s| % 4 == 0 then 0 else |s| % 4 - 1
  {
    hide EncodeGroup, DecodeGroup, DecodeTail, Body, TailSymbols;
    if |s| < 4 {
      TailReencodes(e, s, offset);
      BodyTail(e, DecodeTail(e, s, offset).value);
    } else {
      GroupReencodes(e, s[..4], offset);
      SymbolsReencode(e, s[4..], offset + 4);
      var g, more := DecodeGroup(e, s[..4], offset).value, DecodeSymbols(e, s[4..], offset + 4).value;
      BodyCons(e, g, more);
      assert s == s[..4] + s[4..];
    }
  }

  /** Every accepted text is the encoding of what it decodes to: each byte string has one spelling. */
  lemma EncodeInvertsDecode(e: Engine, s: seq<byte>)
    requires IsEngine(e) && Decoded(e, s).Ok?
    ensures Encoded(e, Decoded(e, s).value) == s
  {
    hide Encoded, Body, DecodeSymbols;
    var body, b := Unpad(e, s).value, Decoded(e, s).value;
    SymbolsReencode(e, body, 0);
    EncodedIsBodyAndPadding(e, b);
    if e.padded && EndsWith(s, [PAD, PAD]) {
      assert s == body + [PAD, PAD];
    } else if e.padded && EndsWith(s, [PAD]) {
      assert s == body + [PAD];
    } else {
      assert s == body + [];
    }
  }

  // ---------- The loops ----------

  lemma EncodedCons(e: Engine, out: seq<byte>, input: seq<byte>)
    requires |input| >= 3
    ensures out + Encoded(e, input) == out + EncodeGroup(e, input[0], input[1], input[2]) + Encoded(e, input[3..])
  {
  }

  method Encode(e: Engine, input: seq<byte>) returns (out: seq<byte>)
    requires IsEngine(e)
    ensures out == Encoded(e, input)
    ensures Decoded(e, out) == Ok(input)
  {
    hide Encoded, EncodeGroup, Decoded, Unpad;
    out := [];
    var i := 0;
    assert input[0..] == input && [] + Encoded(e, input) == Encoded(e, input);
    while i + 3 <= |input|
      invariant 0 <= i <= |input|
      invariant out + Encoded(e, input[i..]) == Encoded(e, input)
    {
      EncodedCons(e, out, input[i..]);
      assert input[i..][3..] == input[i + 3..];
      out := out + EncodeGroup(e, input[i], input[i + 1], input[i + 2]);
      i := i + 3;
    }
    var remainder := input[i..];
    EncodedTail(e, remainder);
    out := out + TailSymbols(e, remainder);
    if e.padded {
      if |remainder| == 1 {
        out := out + [PAD, PAD];
      } else if |remainder| == 2 {
        out := out + [PAD];
      }
    }
    DecodeInvertsEncode(e, input);
  }

  lemma EncodedTail(e: Engine, input: seq<byte>)
    requires |input| < 3
    ensures Encoded(e, input) == TailSymbols(e, input) + Padding(e, |input|)
  {
  }

  /** Bytes already decoded, in front of what the rest of the symbols yield. */
  lemma DecodeStep(e: Engine, done: seq<byte>, s: seq<byte>, offset: nat)
    requires |s| >= 4 && |s| % 4 != 1
    ensures |s[4..]| % 4 != 1
    ensures
      match DecodeGroup(e, s[..4], offset)
      case Ok(g) => Prepend(done, DecodeSymbols(e, s, offset)) ==
        Prepend(done + g, DecodeSymbols(e, s[4..], offset + 4))
      case Err(err) => DecodeSymbols(e, s, offset) == Err(err)
  {
    hide DecodeGroup, DecodeTail;
    ModFour(|s|);
    var rest := DecodeSymbols(e, s[4..], offset + 4);
    if DecodeGroup(e, s[..4], offset).Ok? && rest.Ok? {
      var g := DecodeGroup(e, s[..4], offset).value;
      assert done + (g + rest.value) == done + g + rest.value;
    }
  }

  /** An accepted text re-encodes to itself; everything else is refused with the program's reason. */
  method Decode(e: Engine, s: seq<byte>) returns (r: Result<seq<byte>, DecodeError>)
    requires IsEngine(e)
    ensures r == Decoded(e, s)
    ensures r.Ok? ==> Encoded(e, r.value) == s
  {
    hide DecodeGroup, DecodeTail, DecodeSymbols, Encoded, IsEngine;
    if Decoded(e, s).Ok? {
      EncodeInvertsDecode(e, s);
    }
    var input := s;
    if e.padded {
      if |input| % 4 != 0 {
        return Err(if |input| % 4 == 1 && PAD !in input then InvalidLength(|input|) else InvalidPadding);
      }
      if EndsWith(input, [PAD, PAD]) {
        input := input[..|input| - 2];
      } else if EndsWith(input, [PAD]) {
        input := input[..|input| - 1];
      }
    }
    if |input| % 4 == 1 {
      return Err(InvalidLength(|input|));
    }
    r := DecodeLoop(e, input);
  }

  method DecodeLoop(e: Engine, input: seq<byte>) returns (r: Result<seq<byte>, DecodeError>)
    requires |input| % 4 != 1
    ensures r == DecodeSymbols(e, input, 0)
  {
    hide DecodeGroup, DecodeTail, DecodeSymbols;
    var out, offset := [], 0;
    ghost var all := DecodeSymbols(e, input, 0);
    assert input[0..] == input && all == Prepend([], all) by {
      if all.Ok? {
        assert [] + all.value == all.value;
      }
    }
    while offset + 4 <= |input|
      invariant 0 <= offset <= |input|
      invariant |input[offset..]| % 4 != 1
      invariant all == Prepend(out, DecodeSymbols(e, input[offset..], offset))
    {
      ghost var rest := input[offset..];
      DecodeStep(e, out, rest, offset);
      assert rest[..4] == input[offset..offset + 4] && rest[4..] == input[offset + 4..];
      var group := DecodeGroup(e, input[offset..offset + 4], offset);
      if group.Err? {
        return Err(group.error);
      }
      out := out + group.value;
      offset := offset + 4;
    }
    DecodeRemainder(e, input[offset..], offset);
    var tail := DecodeTail(e, input[offset..], offset);
    match tail
    case Err(err) => r := Err(err);
    case Ok(b) => r := Ok(out + b);
  }

  lemma DecodeRemainder(e: Engine, s: seq<byte>, offset: nat)
    requires |s| < 4 && |s| % 4 != 1
    ensures DecodeSymbols(e, s, offset) == DecodeTail(e, s, offset)
  {
  }
}
