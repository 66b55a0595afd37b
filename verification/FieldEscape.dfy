/** Percent-escaping of revocation fields (`escape_field`, `unescape_field`). */
module FieldEscape {
  import opened Common
  import opened Decimals
  import HashRef
  import Utf8

  datatype FieldError = BadEscape | BadHex(b: byte) | NotUtf8

  /** The text written for one byte; other bytes are written as the character of that code. */
  function EscapeByte(b: byte): string {
    if b == '%' as int then "%25"
    else if b == '\t' as int then "%09"
    else if b == '\n' as int then "%0a"
    else if b == '\r' as int then "%0d"
    else [b as char]
  }

  function EscapeBytes(bs: seq<byte>): string { if bs == [] then [] else EscapeByte(bs[0]) + EscapeBytes(bs[1..]) }

  /** `escape_field`. */
  function Escape(s: string): string { EscapeBytes(Utf8.Encode(s)) }

  function UnescapeBytes(b: seq<byte>): Result<seq<byte>, FieldError> {
    if b == [] then Ok([])
    else if b[0] != '%' as int then
      var rest :- UnescapeBytes(b[1..]);
      Ok([b[0]] + rest)
    else if |b| < 3 then Err(BadEscape)
    else if HexValue(b[1]).None? then Err(BadHex(b[1]))
    else if HexValue(b[2]).None? then Err(BadHex(b[2]))
    else
      var rest :- UnescapeBytes(b[3..]);
      Ok([16 * HexValue(b[1]).value + HexValue(b[2]).value] + rest)
  }

  /** `unescape_field`. */
  function Unescape(s: string): Result<string, FieldError> {
    var bs :- UnescapeBytes(Utf8.Encode(s));
    match Utf8.Decode(bs) case Some(t) => Ok(t) case None => Err(NotUtf8)
  }

  // ---------- The loops ----------

  method EscapeField(s: string) returns (out: string)
    ensures out == Escape(s)
  {
    var bytes: seq<byte> := Utf8.Encode(s);
    hide Utf8.Encode;
    out := "";
    var i := 0;
    assert bytes[0..] == bytes;
    while i < |bytes|
      invariant 0 <= i <= |bytes|
      invariant out + EscapeBytes(bytes[i..]) == EscapeBytes(bytes)
    {
      assert bytes[i..][0] == bytes[i] && bytes[i..][1..] == bytes[i + 1..];
      assert out + (EscapeByte(bytes[i]) + EscapeBytes(bytes[i + 1..])) ==
        out + EscapeByte(bytes[i]) + EscapeBytes(bytes[i + 1..]);
      out := out + EscapeByte(bytes[i]);
      i := i + 1;
    }
    assert bytes[i..] == [] && out + [] == out;
  }

  method UnescapeField(s: string) returns (r: Result<string, FieldError>)
    ensures r == Unescape(s)
  {
    var bytes: seq<byte> := Utf8.Encode(s);
    hide Utf8.Encode, Utf8.Decode, HexValue;
    var out: seq<byte> := [];
    var i := 0;
    assert bytes[0..] == bytes;
    PrependAppend<byte, FieldError>([], [], UnescapeBytes(bytes));
    while i < |bytes|
      invariant 0 <= i <= |bytes|
      invariant Prepend(out, UnescapeBytes(bytes[i..])) == UnescapeBytes(bytes)
    {
      ghost var rest := bytes[i..];
      assert |rest| == |bytes| - i && rest[0] == bytes[i] && rest[1..] == bytes[i + 1..];
      if bytes[i] == '%' as int {
        if i + 2 >= |bytes| {
          return Err(BadEscape);
        }
        assert rest[1] == bytes[i + 1] && rest[2] == bytes[i + 2] && rest[3..] == bytes[i + 3..];
        var hi := HexValue(bytes[i + 1]);
        if hi.None? {
          return Err(BadHex(bytes[i + 1]));
        }
        var lo := HexValue(bytes[i + 2]);
        if lo.None? {
          return Err(BadHex(bytes[i + 2]));
        }
        PrependAppend<byte, FieldError>(out, [16 * hi.value + lo.value], UnescapeBytes(bytes[i + 3..]));
        out := out + [16 * hi.value + lo.value];
        i := i + 3;
      } else {
        PrependAppend<byte, FieldError>(out, [bytes[i]], UnescapeBytes(bytes[i + 1..]));
        out := out + [bytes[i]];
        i := i + 1;
      }
    }
    assert bytes[i..] == [] && out + [] == out;
    var text := Utf8.Decode(out);
    if text.None? {
      return Err(NotUtf8);
    }
    r := Ok(text.value);
  }

  // ---------- What a field comes back as ----------

  lemma EncodeThree(a: char, b: char, c: char)
    requires a as int < 0x80 && b as int < 0x80 && c as int < 0x80
    ensures Utf8.Encode([a, b, c]) == [a as int, b as int, c as int]
  {
    HashRef.EncodeAscii(a, [b, c]);
    HashRef.EncodeAscii(b, [c]);
    HashRef.EncodeAscii(c, []);
    assert [a] + [b, c] == [a, b, c] && [b] + [c] == [b, c] && [c] + [] == [c];
    HashRef.EncodeNone();
    hide Utf8.Encode;
    assert Utf8.Encode([c]) == [c as int];
    assert Utf8.Encode([b, c]) == [b as int, c as int];
  }

  /** Reading back a byte that is written as three characters. */
  lemma EscapedComesBack(b: byte, rest: seq<byte>)
    requires |EscapeByte(b)| == 3
    ensures UnescapeBytes(Utf8.Encode(EscapeByte(b)) + rest) == Prepend([b], UnescapeBytes(rest))
  {
    var e := EscapeByte(b);
    EncodeThree(e[0], e[1], e[2]);
    assert e == [e[0], e[1], e[2]];
    var wire := [e[0] as int, e[1] as int, e[2] as int] + rest;
    assert wire[3..] == rest;
  }

  /** Reading back a byte that is written as the character of its code. */
  lemma WrittenComesBack(b: byte, rest: seq<byte>)
    requires b != '%' as int
    ensures UnescapeBytes(Utf8.EncodeChar(b as char) + rest) == Prepend(Utf8.EncodeChar(b as char), UnescapeBytes(rest))
  {
    var c := Utf8.EncodeChar(b as char);
    var wire := c + rest;
    PlainByte(wire);
    if b >= 0x80 {
      assert wire[1..] == [c[1]] + rest && wire[1..][1..] == rest;
      PlainByte(wire[1..]);
      PrependAppend<byte, FieldError>([c[0]], [c[1]], UnescapeBytes(rest));
      assert c == [c[0]] + [c[1]];
    } else {
      assert wire[1..] == rest;
    }
  }

  /** Reading back the text of one byte gives the encoding of the character of that code. */
  lemma ByteComesBack(b: byte, rest: seq<byte>)
    ensures UnescapeBytes(Utf8.Encode(EscapeByte(b)) + rest) == Prepend(Utf8.EncodeChar(b as char), UnescapeBytes(rest))
  {
    if |EscapeByte(b)| == 3 {
      EscapedComesBack(b, rest);
    } else {
      WrittenComesBack(b, rest);
      Utf8.EncodeOfCons(b as char, []);
      HashRef.EncodeNone();
      assert EscapeByte(b) == [b as char] + [];
    }
  }

  lemma PlainByte(b: seq<byte>)
    requires b != [] && b[0] != '%' as int
    ensures UnescapeBytes(b) == Prepend([b[0]], UnescapeBytes(b[1..]))
  {
  }

  lemma NothingComesBack()
    ensures UnescapeBytes(Utf8.Encode([])) == Ok([]) && Utf8.Encode([]) == []
  {
    HashRef.EncodeNone();
  }

  lemma {:induction false} BytesComeBack(bs: seq<byte>)
    ensures UnescapeBytes(Utf8.Encode(EscapeBytes(bs))) == Ok(Utf8.Encode(Utf8.Latin1(bs)))
  {
    hide Utf8.Encode, Utf8.EncodeChar, EscapeByte, UnescapeBytes;
    if bs == [] {
      NothingComesBack();
      assert Utf8.Latin1(bs) == [];
    } else {
      BytesComeBack(bs[1..]);
      Utf8.EncodeAppend(EscapeByte(bs[0]), EscapeBytes(bs[1..]));
      ByteComesBack(bs[0], Utf8.Encode(EscapeBytes(bs[1..])));
      assert Utf8.Latin1(bs) == [bs[0] as char] + Utf8.Latin1(bs[1..]);
      Utf8.EncodeOfCons(bs[0] as char, Utf8.Latin1(bs[1..]));
    }
  }

  /** A field always reads back, as its UTF-8 bytes taken for characters. */
  lemma FieldComesBack(s: string)
    ensures Unescape(Escape(s)) == Ok(Utf8.Latin1(Utf8.Encode(s)))
  {
    BytesComeBack(Utf8.Encode(s));
    Utf8.EncodeThenDecode(Utf8.Latin1(Utf8.Encode(s)));
  }

  /** A field survives being written and read exactly when it is ASCII. */
  lemma FieldRoundTrip(s: string)
    ensures Unescape(Escape(s)) == Ok(s) <==> Utf8.Ascii(s)
  {
    FieldComesBack(s);
    Utf8.EncodeLength(s);
  }
}
