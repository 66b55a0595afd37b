/** Byte chunks inside JSON values (`decode_bulk_chunk` in `rpc.rs`). */
module BulkChunk {
  import opened Common
  import opened Canonical
  import Base64
  import Utf8

  /** The items that are 64-bit naturals, each cut to a byte. */
  function Bytes(xs: seq<Json>): seq<byte> {
    if xs == [] then []
    else (if xs[0].Number? && 0 <= xs[0].n < TWO_64 then [xs[0].n % 256] else []) + Bytes(xs[1..])
  }

  /** `decode_bulk_chunk`: base64 text, or an array of numbers; anything else is no bytes. */
  function Decode(v: Json): seq<byte> {
    match v
    case String(s) => (match Base64.Decoded(Base64.STANDARD, Utf8.Encode(s)) case Ok(bs) => bs case Err(_) => [])
    case Array(xs) => Bytes(xs)
    case _ => []
  }

  /** The value that carries a chunk. */
  function Encode(data: seq<byte>): Json { String(Utf8.Latin1(Base64.Encoded(Base64.STANDARD, data))) }

  predicate Small(bs: seq<byte>) { forall i :: 0 <= i < |bs| ==> bs[i] < 0x80 }

  lemma SymbolSmall(d: Base64.sextet)
    ensures Base64.Symbol(Base64.STANDARD, d) < 0x80
  {
  }

  lemma GroupSmall(a: byte, b: byte, c: byte)
    ensures Small(Base64.EncodeGroup(Base64.STANDARD, a, b, c))
  {
    var n := Base64.FromBytes(a, b, c);
    SymbolSmall(Base64.Sextet0(n));
    SymbolSmall(Base64.Sextet1(n));
    SymbolSmall(Base64.Sextet2(n));
    SymbolSmall(Base64.Sextet3(n));
    hide Base64.Symbol, Base64.FromBytes;
    hide Base64.Sextet0, Base64.Sextet1, Base64.Sextet2, Base64.Sextet3;
  }

  lemma TailSmall(data: seq<byte>)
    requires |data| < 3
    ensures Small(Base64.TailSymbols(Base64.STANDARD, data) + Base64.Padding(Base64.STANDARD, |data|))
  {
    if |data| == 1 {
      GroupSmall(data[0], 0, 0);
    } else if |data| == 2 {
      GroupSmall(data[0], data[1], 0);
    }
    hide Base64.EncodeGroup;
  }

  lemma {:induction false} EncodedSmall(data: seq<byte>)
    ensures Small(Base64.Encoded(Base64.STANDARD, data))
  {
    if |data| < 3 {
      TailSmall(data);
      hide Base64.TailSymbols, Base64.Padding;
    } else {
      GroupSmall(data[0], data[1], data[2]);
      EncodedSmall(data[3..]);
      hide Base64.EncodeGroup;
    }
  }

  lemma EncodedIsAscii(data: seq<byte>)
    ensures Utf8.Ascii(Utf8.Latin1(Base64.Encoded(Base64.STANDARD, data)))
  {
    EncodedSmall(data);
    hide Base64.Encoded;
  }

  /** A chunk that is sent comes back. */
  lemma ChunkComesBack(data: seq<byte>)
    ensures Decode(Encode(data)) == data
  {
    hide Base64.Encoded, Base64.Decoded, Utf8.Encode;
    EncodedIsAscii(data);
    Utf8.AsciiText(Base64.Encoded(Base64.STANDARD, data));
    Base64.DecodeInvertsEncode(Base64.STANDARD, data);
  }
}
