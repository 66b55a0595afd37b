/** UTF-8 (Unicode Standard, table 3-7): the bridge between `String` and `Vec<u8>`. */
module Utf8 {
  import opened Common

  function EncodeChar(c: char): (r: seq<byte>)
    ensures 1 <= |r| <= 4
  {
    var n := c as int;
    if n < 0x80 then [n]
    else if n < 0x800 then [0xC0 + n / 0x40, 0x80 + n % 0x40]
    else if n < 0x10000 then [0xE0 + n / 0x1000, 0x80 + n / 0x40 % 0x40, 0x80 + n % 0x40]
    else [0xF0 + n / 0x40000, 0x80 + n / 0x1000 % 0x40, 0x80 + n / 0x40 % 0x40, 0x80 + n % 0x40]
  }

  /** `str::as_bytes`. */
  function Encode(s: string): seq<byte> {
    if s == [] then [] else EncodeChar(s[0]) + Encode(s[1..])
  }

  predicate Cont(b: byte) { 0x80 <= b < 0xC0 }

  /** A lead payload extended by one six-bit continuation payload. */
  function Extend(lead: int, b: int): int { lead * 0x40 + (b - 0x80) }

  /** The first scalar value of a byte string, if the string starts with a well-formed one. */
  function DecodeChar(b: seq<byte>): Option<char> {
    if |b| >= 1 && b[0] < 0x80 then Some(b[0] as char)
    else if |b| >= 2 && 0xC2 <= b[0] < 0xE0 && Cont(b[1]) then
      Some(Extend(b[0] - 0xC0, b[1]) as char)
    else if |b| >= 3 && 0xE0 <= b[0] < 0xF0 && Cont(b[1]) && Cont(b[2])
            && (b[0] == 0xE0 ==> b[1] >= 0xA0) && (b[0] == 0xED ==> b[1] < 0xA0) then
      Some(Extend(Extend(b[0] - 0xE0, b[1]), b[2]) as char)
    else if |b| >= 4 && 0xF0 <= b[0] < 0xF5 && Cont(b[1]) && Cont(b[2]) && Cont(b[3])
            && (b[0] == 0xF0 ==> b[1] >= 0x90) && (b[0] == 0xF4 ==> b[1] < 0x90) then
      Some(Extend(Extend(Extend(b[0] - 0xF0, b[1]), b[2]), b[3]) as char)
    else None
  }

  lemma SplitExtend(lead: int, b: byte)
    requires Cont(b)
    ensures Extend(lead, b) / 0x40 == lead && Extend(lead, b) % 0x40 == b - 0x80
  {
  }

  lemma SplitTwice(n: nat)
    ensures n / 0x40 / 0x40 == n / 0x1000 && n / 0x1000 / 0x40 == n / 0x4_0000
  {
  }

  lemma DecodeShortInverts(b: seq<byte>)
    requires DecodeChar(b).Some? && b[0] < 0xE0
    ensures EncodeChar(DecodeChar(b).value) <= b
  {
    if b[0] >= 0x80 {
      SplitExtend(b[0] - 0xC0, b[1]);
    }
  }

  lemma DecodeThreeInverts(b: seq<byte>)
    requires DecodeChar(b).Some? && 0xE0 <= b[0] < 0xF0
    ensures EncodeChar(DecodeChar(b).value) <= b
  {
    var p := Extend(b[0] - 0xE0, b[1]);
    SplitExtend(b[0] - 0xE0, b[1]);
    SplitExtend(p, b[2]);
    SplitTwice(Extend(p, b[2]));
  }

  lemma DecodeFourInverts(b: seq<byte>)
    requires DecodeChar(b).Some? && 0xF0 <= b[0]
    ensures EncodeChar(DecodeChar(b).value) <= b
  {
    var p := Extend(b[0] - 0xF0, b[1]);
    var q := Extend(p, b[2]);
    SplitExtend(b[0] - 0xF0, b[1]);
    SplitExtend(p, b[2]);
    SplitExtend(q, b[3]);
    SplitTwice(q);
    SplitTwice(Extend(q, b[3]));
  }

  lemma DecodeCharInverts(b: seq<byte>)
    requires DecodeChar(b).Some?
    ensures EncodeChar(DecodeChar(b).value) <= b
  {
    assert b != [];
    hide DecodeChar, EncodeChar;
    if b[0] < 0xE0 {
      DecodeShortInverts(b);
    } else if b[0] < 0xF0 {
      DecodeThreeInverts(b);
    } else {
      DecodeFourInverts(b);
    }
  }

  lemma EncodeShortCharInverts(c: char, tail: seq<byte>)
    requires c as int < 0x800
    ensures DecodeChar(EncodeChar(c) + tail) == Some(c)
  {
  }

  lemma EncodeThreeByteCharInverts(c: char, tail: seq<byte>)
    requires 0x800 <= c as int < 0x10000
    ensures DecodeChar(EncodeChar(c) + tail) == Some(c)
  {
    var n, b := c as int, EncodeChar(c) + tail;
    assert b[0] == 0xE0 + n / 0x1000 && b[1] == 0x80 + n / 0x40 % 0x40 && b[2] == 0x80 + n % 0x40;
    assert Extend(n / 0x1000, b[1]) == n / 0x40;
  }

  lemma EncodeFourByteCharInverts(c: char, tail: seq<byte>)
    requires 0x10000 <= c as int
    ensures DecodeChar(EncodeChar(c) + tail) == Some(c)
  {
    var n, b := c as int, EncodeChar(c) + tail;
    assert b[0] == 0xF0 + n / 0x40000 && b[1] == 0x80 + n / 0x1000 % 0x40;
    assert b[2] == 0x80 + n / 0x40 % 0x40 && b[3] == 0x80 + n % 0x40;
    SplitTwice(n);
    assert Extend(n / 0x40000, b[1]) == n / 0x1000;
    assert Extend(n / 0x1000, b[2]) == n / 0x40;
    assert Extend(n / 0x40, b[3]) == n;
    hide EncodeChar, Extend;
  }

  lemma EncodeCharInverts(c: char, tail: seq<byte>)
    ensures DecodeChar(EncodeChar(c) + tail) == Some(c)
  {
    if c as int < 0x800 {
      EncodeShortCharInverts(c, tail);
    } else if c as int < 0x10000 {
      EncodeThreeByteCharInverts(c, tail);
    } else {
      EncodeFourByteCharInverts(c, tail);
    }
  }

  /** `String::from_utf8`. */
  function Decode(b: seq<byte>): Option<string> {
    if b == [] then Some([])
    else
      match DecodeChar(b)
      case None => None
      case Some(c) =>
        DecodeCharInverts(b);
        match Decode(b[|EncodeChar(c)|..])
        case None => None
        case Some(rest) => Some([c] + rest)
  }

  predicate Valid(b: seq<byte>) { Decode(b).Some? }

  lemma {:induction false} EncodeThenDecode(s: string)
    ensures Decode(Encode(s)) == Some(s)
  {
    if s != [] {
      EncodeCharInverts(s[0], Encode(s[1..]));
      EncodeThenDecode(s[1..]);
      assert Encode(s)[|EncodeChar(s[0])|..] == Encode(s[1..]);
      assert s == [s[0]] + s[1..];
    }
  }

  lemma SplitFirstChar(b: seq<byte>) returns (c: char, rest: seq<byte>)
    requires b != [] && Valid(b)
    ensures b == EncodeChar(c) + rest && Decode(rest).Some? && Decode(b).value == [c] + Decode(rest).value
  {
    DecodeCharInverts(b);
    c := DecodeChar(b).value;
    rest := b[|EncodeChar(c)|..];
  }

  lemma EncodeOfCons(c: char, t: string)
    ensures Encode([c] + t) == EncodeChar(c) + Encode(t)
  {
    assert ([c] + t)[1..] == t;
  }

  lemma {:induction false} DecodeThenEncode(b: seq<byte>)
    requires Valid(b)
    ensures Encode(Decode(b).value) == b
    decreases |b|
  {
    if b != [] {
      var c, rest := SplitFirstChar(b);
      DecodeThenEncode(rest);
      EncodeOfCons(c, Decode(rest).value);
    }
  }

  lemma EncodeInjective(s: string, t: string)
    requires Encode(s) == Encode(t)
    ensures s == t
  {
    EncodeThenDecode(s);
    EncodeThenDecode(t);
  }

  lemma {:induction false} EncodeAppend(s: string, t: string)
    ensures Encode(s + t) == Encode(s) + Encode(t)
  {
    if s == [] {
      assert s + t == t;
    } else {
      EncodeAppend(s[1..], t);
      assert s + t == [s[0]] + (s[1..] + t) && s == [s[0]] + s[1..];
      EncodeOfCons(s[0], s[1..] + t);
      EncodeOfCons(s[0], s[1..]);
      hide Encode, EncodeChar;
      Regroup(EncodeChar(s[0]), Encode(s[1..]), Encode(t));
    }
  }

  // ---------- Bytes as characters ----------

  /** Every byte read as the character of that code. */
  function Latin1(bs: seq<byte>): string { seq(|bs|, i requires 0 <= i < |bs| => bs[i] as char) }

  predicate Ascii(s: string) { forall i :: 0 <= i < |s| ==> s[i] as int < 0x80 }

  lemma {:induction false} EncodeLength(s: string)
    ensures |Encode(s)| >= |s|
    ensures |Encode(s)| == |s| <==> Ascii(s)
    ensures Ascii(s) ==> Latin1(Encode(s)) == s
  {
    if s != [] {
      EncodeLength(s[1..]);
      assert s == [s[0]] + s[1..];
      EncodeOfCons(s[0], s[1..]);
      assert Ascii(s) <==> s[0] as int < 0x80 && Ascii(s[1..]);
      if Ascii(s) {
        assert Encode(s) == [s[0] as int] + Encode(s[1..]);
        assert Latin1(Encode(s)) == [s[0]] + Latin1(Encode(s[1..]));
      }
    }
  }

  /** ASCII bytes are their own UTF-8 text. */
  lemma AsciiText(bs: seq<byte>)
    requires Ascii(Latin1(bs))
    ensures Encode(Latin1(bs)) == bs
  {
    EncodeLength(Latin1(bs));
    hide Encode;
    var s := Latin1(bs);
    forall i | 0 <= i < |bs| ensures Encode(s)[i] == bs[i] {
      assert Latin1(Encode(s))[i] == s[i];
    }
  }
}
