/** Hash references `algo:hex` (`crypto.rs`): printing a digest and reading it back. */
module HashRef {
  import opened Common
  import opened Decimals
  import Utf8

  datatype RefError = UnknownAlgorithm(text: string) | OddLength | NonHex

  /** `{:02x}` for every byte. */
  function Hex(bs: seq<byte>): (r: string)
    ensures |r| == 2 * |bs|
  {
    if bs == [] then [] else [HexDigit(bs[0] / 16), HexDigit(bs[0] % 16)] + Hex(bs[1..])
  }

  function ParseHex(b: seq<byte>): Result<seq<byte>, RefError> {
    if b == [] then Ok([])
    else if |b| == 1 then Err(OddLength)
    else if HexValue(b[0]).None? || HexValue(b[1]).None? then Err(NonHex)
    else
      var rest :- ParseHex(b[2..]);
      Ok([16 * HexValue(b[0]).value + HexValue(b[1]).value] + rest)
  }

  /** Index of the first `:`, or the length. */
  function ColonAt(s: string): (i: nat)
    ensures i <= |s| && ':' !in s[..i] && (i < |s| ==> s[i] == ':')
  {
    if s == [] || s[0] == ':' then 0
    else
      var i := 1 + ColonAt(s[1..]);
      assert s[..i] == [s[0]] + s[1..][..i - 1];
      i
  }

  /** `parse_hashref`. */
  function Parse(s: string): Result<(string, seq<byte>), RefError> {
    var i := ColonAt(s);
    if i == |s| then Err(UnknownAlgorithm(s))
    else
      var bs :- ParseHex(Utf8.Encode(s[i + 1..]));
      Ok((s[..i], bs))
  }

  // ---------- The loops ----------

  method HexLower(bs: seq<byte>) returns (s: string)
    ensures s == Hex(bs)
  {
    hide Hex;
    s := "";
    var i := 0;
    assert bs[0..] == bs;
    while i < |bs|
      invariant 0 <= i <= |bs|
      invariant s + Hex(bs[i..]) == Hex(bs)
    {
      HexStep(s, bs, i);
      s := s + [HexDigit(bs[i] / 16), HexDigit(bs[i] % 16)];
      i := i + 1;
    }
    assert |Hex(bs[i..])| == 0 && s + [] == s;
  }

  lemma HexStep(s: string, bs: seq<byte>, i: nat)
    requires i < |bs|
    ensures s + Hex(bs[i..]) == s + [HexDigit(bs[i] / 16), HexDigit(bs[i] % 16)] + Hex(bs[i + 1..])
  {
    assert bs[i..][0] == bs[i] && bs[i..][1..] == bs[i + 1..];
    Regroup(s, [HexDigit(bs[i] / 16), HexDigit(bs[i] % 16)], Hex(bs[i + 1..]));
  }

  method ParseHashRef(s: string) returns (r: Result<(string, seq<byte>), RefError>)
    ensures r == Parse(s)
  {
    var colon := ColonAt(s);
    if colon == |s| {
      return Err(UnknownAlgorithm(s));
    }
    var bytes: seq<byte> := Utf8.Encode(s[colon + 1..]);
    hide Utf8.Encode;
    var out: seq<byte> := [];
    var i := 0;
    assert bytes[0..] == bytes;
    PrependAppend<byte, RefError>([], [], ParseHex(bytes));
    while i < |bytes|
      invariant 0 <= i <= |bytes|
      invariant Prepend(out, ParseHex(bytes[i..])) == ParseHex(bytes)
    {
      assert |bytes[i..]| == |bytes| - i && bytes[i..][0] == bytes[i];
      if i + 1 >= |bytes| {
        return Err(OddLength);
      }
      assert bytes[i..][1] == bytes[i + 1] && bytes[i..][2..] == bytes[i + 2..];
      var hi, lo := HexValue(bytes[i]), HexValue(bytes[i + 1]);
      if hi.None? || lo.None? {
        return Err(NonHex);
      }
      PrependAppend<byte, RefError>(out, [16 * hi.value + lo.value], ParseHex(bytes[i + 2..]));
      out := out + [16 * hi.value + lo.value];
      i := i + 2;
    }
    assert bytes[i..] == [] && out + [] == out;
    r := Ok((s[..colon], out));
  }

  // ---------- What is read back ----------

  function Lower(c: char): char { if 'A' <= c <= 'F' then (c as int + 32) as char else c }

  function LowerAll(s: string): (r: string)
    ensures |r| == |s|
  {
    if s == [] then [] else [Lower(s[0])] + LowerAll(s[1..])
  }

  lemma HexDigitExact(c: char, d: nat)
    requires d < 16
    ensures HexValue(c as int) == Some(d) <==> Lower(c) == HexDigit(d)
  {
  }

  lemma EncodeAscii(c: char, s: string)
    requires c as int < 0x80
    ensures Utf8.Encode([c] + s) == [c as int] + Utf8.Encode(s)
  {
    Utf8.EncodeOfCons(c, s);
  }

  lemma EncodeFirst(s: string)
    requires s != []
    ensures Utf8.Encode(s) != []
    ensures HexValue(Utf8.Encode(s)[0]) == HexValue(s[0] as int)
  {
    assert s == [s[0]] + s[1..];
    Utf8.EncodeOfCons(s[0], s[1..]);
  }

  /** Hex text denotes `bs` exactly when, letter case aside, it is the printed form of `bs`. */
  lemma {:induction false} HexExact(s: string, bs: seq<byte>)
    ensures ParseHex(Utf8.Encode(s)) == Ok(bs) <==> LowerAll(s) == Hex(bs)
    decreases |s|
  {
    hide Utf8.Encode, HexValue, HexDigit, Lower;
    if s == [] {
      EncodeNone();
    } else if HexValue(s[0] as int).None? {
      EncodeFirst(s);
      NotHexHead(s, bs);
    } else {
      HexIsAscii(s[0]);
      EncodeAscii(s[0], s[1..]);
      assert s == [s[0]] + s[1..];
      HexExactTail(s, bs);
    }
  }

  lemma EncodeNone()
    ensures Utf8.Encode([]) == []
  {
  }

  lemma HexIsAscii(c: char)
    requires HexValue(c as int).Some?
    ensures c as int < 0x80
  {
  }

  lemma NotHexHead(s: string, bs: seq<byte>)
    requires s != [] && HexValue(s[0] as int).None?
    ensures LowerAll(s) != Hex(bs)
  {
    assert bs == [] ==> |Hex(bs)| == 0;
    if bs != [] {
      HexDigitExact(s[0], bs[0] / 16);
      assert LowerAll(s)[0] == Lower(s[0]) && Hex(bs)[0] == HexDigit(bs[0] / 16);
    }
  }

  lemma NotHexSecond(s: string, bs: seq<byte>)
    requires |s| > 1 && HexValue(s[1] as int).None?
    ensures LowerAll(s) != Hex(bs)
  {
    assert bs == [] ==> |Hex(bs)| == 0;
    if bs != [] {
      HexDigitExact(s[1], bs[0] % 16);
      assert s[1..][0] == s[1];
      assert LowerAll(s)[1] == LowerAll(s[1..])[0] == Lower(s[1]);
      assert Hex(bs)[1] == HexDigit(bs[0] % 16);
    }
  }

  lemma {:induction false} HexExactTail(s: string, bs: seq<byte>)
    requires s != [] && HexValue(s[0] as int).Some? && Utf8.Encode(s) == [s[0] as int] + Utf8.Encode(s[1..])
    ensures ParseHex(Utf8.Encode(s)) == Ok(bs) <==> LowerAll(s) == Hex(bs)
    decreases |s|, 0
  {
    hide Utf8.Encode, HexValue, HexDigit, Lower;
    if |s| == 1 {
      EncodeNone();
      assert s[1..] == [];
    } else if HexValue(s[1] as int).None? {
      EncodeFirst(s[1..]);
      NotHexSecond(s, bs);
    } else {
      HexIsAscii(s[1]);
      assert s[1..] == [s[1]] + s[2..];
      EncodeAscii(s[1], s[2..]);
      var tail := Utf8.Encode(s[2..]);
      assert Utf8.Encode(s) == [s[0] as int, s[1] as int] + tail;
      TwoDigitsRead(s, bs, tail);
      TwoDigitsPrint(s, bs);
      hide Prints;
      if bs != [] {
        HexExact(s[2..], bs[1..]);
      }
    }
  }

  /** The first two characters are the printed digits of `b`, letter case aside. */
  predicate Prints(s: string, b: byte)
    requires |s| > 1
  {
    Lower(s[0]) == HexDigit(b / 16) && Lower(s[1]) == HexDigit(b % 16)
  }

  lemma PrintsExact(s: string, b: byte)
    requires |s| > 1 && HexValue(s[0] as int).Some? && HexValue(s[1] as int).Some?
    ensures 16 * HexValue(s[0] as int).value + HexValue(s[1] as int).value == b <==> Prints(s, b)
  {
    HexDigitExact(s[0], b / 16);
    HexDigitExact(s[1], b % 16);
    Nibbles(HexValue(s[0] as int).value, HexValue(s[1] as int).value, b);
    hide HexValue, HexDigit, Lower;
  }

  /** Reading two digits and then `tail`. */
  lemma TwoDigitsRead(s: string, bs: seq<byte>, tail: seq<byte>)
    requires |s| > 1 && HexValue(s[0] as int).Some? && HexValue(s[1] as int).Some?
    requires 0 <= s[0] as int < 256 && 0 <= s[1] as int < 256
    ensures ParseHex([s[0] as int, s[1] as int] + tail) == Ok(bs) <==>
      bs != [] && ParseHex(tail) == Ok(bs[1..]) && Prints(s, bs[0])
  {
    var b := [s[0] as int, s[1] as int] + tail;
    assert b[2..] == tail;
    if bs != [] {
      PrintsExact(s, bs[0]);
      assert bs == [bs[0]] + bs[1..];
    }
    hide HexValue, Prints;
  }

  /** Printing two digits and then the rest. */
  lemma TwoDigitsPrint(s: string, bs: seq<byte>)
    requires |s| > 1
    ensures LowerAll(s) == Hex(bs) <==> bs != [] && LowerAll(s[2..]) == Hex(bs[1..]) && Prints(s, bs[0])
  {
    hide HexDigit, Lower;
    assert s[1..][1..] == s[2..];
    var first := [Lower(s[0]), Lower(s[1])];
    assert LowerAll(s) == first + LowerAll(s[2..]);
    if bs != [] {
      var digits := [HexDigit(bs[0] / 16), HexDigit(bs[0] % 16)];
      assert Hex(bs) == digits + Hex(bs[1..]);
      hide LowerAll, Hex;
      SplitEqual(first, LowerAll(s[2..]), digits, Hex(bs[1..]));
      assert first == digits <==> first[0] == digits[0] && first[1] == digits[1];
    }
  }

  lemma Nibbles(hi: int, lo: int, b: byte)
    requires 0 <= hi < 16 && 0 <= lo < 16
    ensures 16 * hi + lo == b <==> hi == b / 16 && lo == b % 16
  {
  }

  lemma {:induction false} LowerHex(bs: seq<byte>)
    ensures LowerAll(Hex(bs)) == Hex(bs)
  {
    if bs != [] {
      LowerHex(bs[1..]);
      var s := Hex(bs);
      assert s[1..][1..] == Hex(bs[1..]);
      assert LowerAll(s) == [Lower(s[0]), Lower(s[1])] + LowerAll(Hex(bs[1..]));
      HexDigitExact(s[0], bs[0] / 16);
      HexDigitExact(s[1], bs[0] % 16);
    }
  }

  /**
   * What a reference denotes: the text up to its first colon, and the bytes whose printed form, letter case
   * aside, follows.
   */
  lemma ParseExact(s: string, algo: string, bs: seq<byte>)
    ensures Parse(s) == Ok((algo, bs)) <==> ':' !in algo && algo + ":" <= s && LowerAll(s[|algo| + 1..]) == Hex(bs)
  {
    hide Utf8.Encode, ParseHex, Hex, LowerAll;
    var i := ColonAt(s);
    if i < |s| {
      HexExact(s[i + 1..], bs);
      assert s == s[..i] + [':'] + s[i + 1..];
    }
    if ':' !in algo && algo + ":" <= s {
      assert s[|algo|] == (algo + ":")[|algo|];
      assert s[..|algo|] == algo;
      ColonUnique(s, |algo|);
    }
  }

  lemma ColonUnique(s: string, n: nat)
    requires n < |s| && s[n] == ':' && ':' !in s[..n]
    ensures ColonAt(s) == n
  {
  }

  /** `sha256:` and the digest in lower-case hex. */
  function Sha256Ref(digest: seq<byte>): string { "sha256:" + Hex(digest) }

  lemma ParseInvertsPrint(digest: seq<byte>)
    ensures Parse(Sha256Ref(digest)) == Ok(("sha256", digest))
  {
    LowerHex(digest);
    var s := Sha256Ref(digest);
    assert s[7..] == Hex(digest);
    assert "sha256" + ":" <= s;
    ParseExact(s, "sha256", digest);
  }

  lemma PrintInjective(a: seq<byte>, b: seq<byte>)
    requires Sha256Ref(a) == Sha256Ref(b)
    ensures a == b
  {
    ParseInvertsPrint(a);
    ParseInvertsPrint(b);
  }
}
