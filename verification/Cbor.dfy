/** The CBOR codec of `cbor.rs` (RFC 8949): values, wire form, and the recursive-descent decoder. */
module Cbor {
  import opened Common
  import opened Radix
  import Utf8

  const MAX_DEPTH := 128

  type i128 = x: int | -0x8000_0000_0000_0000_0000_0000_0000_0000 <= x < 0x8000_0000_0000_0000_0000_0000_0000_0000

  datatype Value =
    | Integer(i: i128)
    | Bytes(bytes: seq<byte>)
    | Text(text: string)
    | Array(items: seq<Value>)
    | Map(entries: seq<Entry>)
    | Tag(tag: u64, inner: Value)
    | Bool(flag: bool)
    | Null
    | Float(bits: u64)  // the IEEE 754 bit pattern

  datatype Entry = Entry(key: Value, val: Value)

  datatype Error = Truncated | Invalid(what: string) | TooDeep | Unrepresentable(why: string)

  // ---------- Encoding ----------

  /** `to_be_bytes`: the `k` low-order bytes of `n`, most significant first. */
  function ToBe(n: nat, k: nat): (r: seq<byte>)
    ensures |r| == k
  {
    if k == 0 then [] else ToBe(n / 256, k - 1) + [n % 256]
  }

  /** An initial byte with the shortest argument that can hold `arg`. */
  function Header(major: nat, arg: u64): seq<byte>
    requires major < 8
  {
    if arg < 24 then [major * 32 + arg]
    else if arg < 0x100 then [major * 32 + 24, arg]
    else if arg < 0x1_0000 then [major * 32 + 25] + ToBe(arg, 2)
    else if arg < TWO_32 then [major * 32 + 26] + ToBe(arg, 4)
    else [major * 32 + 27] + ToBe(arg, 8)
  }

  /** Every length of the value is a `usize`, as it is for any value that exists in memory. */
  predicate InMemory(v: Value) {
    match v
    case Bytes(b) => |b| < TWO_64
    case Text(t) => |Utf8.Encode(t)| < TWO_64
    case Array(items) => |items| < TWO_64 && forall x :: x in items ==> InMemory(x)
    case Map(entries) => |entries| < TWO_64 && forall e :: e in entries ==> InMemory(e.key) && InMemory(e.val)
    case Tag(_, inner) => InMemory(inner)
    case _ => true
  }

  /** The error `encode` stops at, in its left-to-right order, or None. */
  function Fault(v: Value): Option<Error>
    decreases v, 1
  {
    match v
    case Integer(i) =>
      if i >= TWO_64 then Some(Unrepresentable("integer above u64::MAX"))
      else if i < -TWO_64 then Some(Unrepresentable("integer below -2^64"))
      else None
    case Array(items) => FaultOfItems(items)
    case Map(entries) => FaultOfEntries(entries)
    case Tag(_, inner) => Fault(inner)
    case _ => None
  }

  function FaultOfItems(items: seq<Value>): Option<Error>
    decreases items, 0
  {
    if items == [] then None
    else if Fault(items[0]).Some? then Fault(items[0])
    else FaultOfItems(items[1..])
  }

  function FaultOfEntry(e: Entry): Option<Error>
    decreases e, 0
  {
    if Fault(e.key).Some? then Fault(e.key) else Fault(e.val)
  }

  function FaultOfEntries(entries: seq<Entry>): Option<Error>
    decreases entries, 0
  {
    if entries == [] then None
    else if FaultOfEntry(entries[0]).Some? then FaultOfEntry(entries[0])
    else FaultOfEntries(entries[1..])
  }

  predicate Encodable(v: Value) { InMemory(v) && Fault(v).None? }

  predicate EncodableItems(items: seq<Value>) {
    FaultOfItems(items).None? && forall x :: x in items ==> InMemory(x)
  }

  predicate EncodableEntry(e: Entry) {
    FaultOfEntry(e).None? && InMemory(e.key) && InMemory(e.val)
  }

  predicate EncodableEntries(entries: seq<Entry>) {
    FaultOfEntries(entries).None? && forall e :: e in entries ==> InMemory(e.key) && InMemory(e.val)
  }

  /** The bytes `encode` emits. */
  function Wire(v: Value): seq<byte>
    requires Encodable(v)
    decreases v, 1
  {
    match v
    case Integer(i) => if i >= 0 then Header(0, i) else Header(1, -i - 1)
    case Bytes(b) => Header(2, |b|) + b
    case Text(t) => Header(3, |Utf8.Encode(t)|) + Utf8.Encode(t)
    case Array(items) => Header(4, |items|) + WireOfItems(items)
    case Map(entries) => Header(5, |entries|) + WireOfEntries(entries)
    case Tag(tag, inner) => Header(6, tag) + Wire(inner)
    case Bool(b) => if b then [0xf5] else [0xf4]
    case Null => [0xf6]
    case Float(bits) => [0xfb] + ToBe(bits, 8)
  }

  function WireOfItems(items: seq<Value>): seq<byte>
    requires EncodableItems(items)
    decreases items, 0
  {
    if items == [] then [] else Wire(items[0]) + WireOfItems(items[1..])
  }

  function WireOfEntry(e: Entry): seq<byte>
    requires EncodableEntry(e)
    decreases e, 0
  {
    Wire(e.key) + Wire(e.val)
  }

  function WireOfEntries(entries: seq<Entry>): seq<byte>
    requires EncodableEntries(entries)
    decreases entries, 0
  {
    if entries == [] then []
    else WireOfEntry(entries[0]) + WireOfEntries(entries[1..])
  }

  // ---------- Decoding ----------

  /** Widening of 16- and 32-bit floats to the bit pattern of the equal 64-bit float. */
  datatype Widen = Widen(half: nat -> u64, single: nat -> u64)

  /** A decoded thing and the input that is left. */
  datatype Parsed<+T> = Parsed(value: T, rest: seq<byte>)

  type Parse<+T> = Result<Parsed<T>, Error>

  function TakeByte(s: seq<byte>): Parse<byte> {
    if s == [] then Err(Truncated) else Ok(Parsed(s[0], s[1..]))
  }

  function Take(s: seq<byte>, n: nat): Parse<seq<byte>> {
    if n > |s| then Err(Truncated) else Ok(Parsed(s[..n], s[n..]))
  }

  function TakeBe(s: seq<byte>, k: nat): (r: Parse<nat>)
    ensures r.Ok? ==> |r.value.rest| == |s| - k
  {
    var t :- Take(s, k);
    Ok(Parsed(Val(256, t.value), t.rest))
  }

  lemma {:induction false} FromBeBound(s: seq<byte>)
    ensures |s| == 0 ==> Val(256, s) == 0
    ensures |s| == 1 ==> Val(256, s) < 0x100
    ensures |s| == 2 ==> Val(256, s) < 0x1_0000
    ensures |s| == 4 ==> Val(256, s) < TWO_32
    ensures |s| == 8 ==> Val(256, s) < TWO_64
  {
    FromBePower(s);
  }

  lemma {:induction false} FromBePower(s: seq<byte>)
    ensures Val(256, s) < Pow(256, |s|)
    ensures Pow(256, 0) == 1 && Pow(256, 1) == 0x100 && Pow(256, 2) == 0x1_0000
    ensures Pow(256, 4) == TWO_32 && Pow(256, 8) == TWO_64
  {
    assert Pow(256, 3) == 0x100_0000 && Pow(256, 4) == TWO_32;
    assert Pow(256, 5) == 0x100 * TWO_32 && Pow(256, 6) == 0x1_0000 * TWO_32;
    if s != [] {
      FromBePower(s[..|s| - 1]);
    }
  }

  /** The argument announced by the low five bits of an initial byte. */
  function Arg(s: seq<byte>, info: nat): (r: Parse<u64>)
    ensures r.Ok? ==> |r.value.rest| <= |s|
  {
    if info <= 23 then Ok(Parsed(info, s))
    else if info == 24 then
      var b :- TakeByte(s);
      Ok(Parsed(b.value as u64, b.rest))
    else if info == 25 || info == 26 || info == 27 then
      var k := if info == 25 then 2 else if info == 26 then 4 else 8;
      var t :- TakeBe(s, k);
      FromBeBound(s[..k]);
      Ok(Parsed(t.value, t.rest))
    else Err(Invalid("reserved additional-info value"))
  }

  /** A definite-length string: an argument, checked against the remaining input, and that many bytes. */
  function DefiniteString(s: seq<byte>, info: nat): (r: Parse<seq<byte>>)
    ensures r.Ok? ==> |r.value.rest| + |r.value.value| <= |s|
  {
    var arg :- Arg(s, info);
    Take(arg.rest, arg.value)
  }

  /** An indefinite-length string after its initial byte: definite chunks of one major type up to 0xff. */
  function Chunks(s: seq<byte>, major: nat): (r: Parse<seq<byte>>)
    ensures r.Ok? ==> |r.value.rest| + |r.value.value| < |s|
  {
    if s == [] then Err(Truncated)
    else if s[0] == 0xff then Ok(Parsed([], s[1..]))
    else if s[0] / 32 != major || s[0] % 32 == 31 then Err(Invalid("bad chunk in indefinite string"))
    else
      var chunk :- DefiniteString(s[1..], s[0] % 32);
      var more :- Chunks(chunk.rest, major);
      Ok(Parsed(chunk.value + more.value, more.rest))
  }

  /** The payload of a byte or text string, after its initial byte. */
  function StringBody(s: seq<byte>, major: nat, info: nat, depth: int): (r: Parse<seq<byte>>)
    ensures r.Ok? ==> |r.value.rest| + |r.value.value| <= |s|
  {
    if info == 31 then
      if depth + 1 > MAX_DEPTH then Err(TooDeep) else Chunks(s, major)
    else DefiniteString(s, info)
  }

  function Simple(w: Widen, s: seq<byte>, info: nat): (r: Parse<Value>)
    ensures r.Ok? ==> |r.value.rest| <= |s|
  {
    if info == 20 then Ok(Parsed(Bool(false), s))
    else if info == 21 then Ok(Parsed(Bool(true), s))
    else if info == 22 || info == 23 then Ok(Parsed(Null, s))
    else if info == 24 then
      var b :- TakeByte(s);
      if b.value < 32 then Err(Invalid("non-minimal simple value"))
      else Ok(Parsed(Integer(b.value as i128), b.rest))
    else if info == 25 then
      var t :- TakeBe(s, 2);
      Ok(Parsed(Float(w.half(t.value)), t.rest))
    else if info == 26 then
      var t :- TakeBe(s, 4);
      Ok(Parsed(Float(w.single(t.value)), t.rest))
    else if info == 27 then
      var t :- TakeBe(s, 8);
      FromBeBound(s[..8]);
      Ok(Parsed(Float(t.value), t.rest))
    else if info == 31 then Err(Invalid("unexpected break"))
    else Err(Invalid("reserved simple value"))
  }

  /**
   * One value of nesting depth `depth` at the front of `s`. Depths below zero never arise in
   * the program; they let the laws speak about values nested deeper than MAX_DEPTH.
   */
  function DecodeValue(w: Widen, s: seq<byte>, depth: int): (r: Parse<Value>)
    ensures r.Ok? ==> |r.value.rest| < |s|
    decreases |s|, 0
  {
    if depth > MAX_DEPTH then Err(TooDeep)
    else if s == [] then Err(Truncated)
    else
      var major, info, t := s[0] / 32, s[0] % 32, s[1..];
      if major == 0 then
        var a :- Arg(t, info);
        Ok(Parsed(Integer(a.value as i128), a.rest))
      else if major == 1 then
        var a :- Arg(t, info);
        Ok(Parsed(Integer((-1 - a.value) as i128), a.rest))
      else if major == 2 then
        var b :- StringBody(t, 2, info, depth);
        Ok(Parsed(Bytes(b.value), b.rest))
      else if major == 3 then
        var b :- StringBody(t, 3, info, depth);
        (match Utf8.Decode(b.value)
         case None => Err(Invalid("text string is not UTF-8"))
         case Some(text) => Ok(Parsed(Text(text), b.rest)))
      else if major == 4 then
        var b :- DecodeArray(w, t, info, depth);
        Ok(Parsed(Array(b.value), b.rest))
      else if major == 5 then
        var b :- DecodeMap(w, t, info, depth);
        Ok(Parsed(Map(b.value), b.rest))
      else if major == 6 then
        var a :- Arg(t, info);
        var inner :- DecodeValue(w, a.rest, depth + 1);
        Ok(Parsed(Tag(a.value, inner.value), inner.rest))
      else Simple(w, t, info)
  }

  function DecodeArray(w: Widen, t: seq<byte>, info: nat, depth: int): (r: Parse<seq<Value>>)
    ensures r.Ok? ==> |r.value.rest| <= |t|
    decreases |t|, 2
  {
    if info == 31 then DecodeItemsToBreak(w, t, depth + 1)
    else
      var a :- Arg(t, info);
      if a.value > |a.rest| then Err(Truncated)
      else DecodeItems(w, a.rest, a.value, depth + 1)
  }

  function DecodeMap(w: Widen, t: seq<byte>, info: nat, depth: int): (r: Parse<seq<Entry>>)
    ensures r.Ok? ==> |r.value.rest| <= |t|
    decreases |t|, 3
  {
    if info == 31 then DecodeEntriesToBreak(w, t, depth + 1)
    else
      var a :- Arg(t, info);
      if a.value > |a.rest| / 2 then Err(Truncated)
      else DecodeEntries(w, a.rest, a.value, depth + 1)
  }

  function DecodeItems(w: Widen, s: seq<byte>, n: nat, depth: int): (r: Parse<seq<Value>>)
    ensures r.Ok? ==> |r.value.rest| <= |s|
    decreases |s|, 1
  {
    if n == 0 then Ok(Parsed([], s))
    else
      var v :- DecodeValue(w, s, depth);
      var more :- DecodeItems(w, v.rest, n - 1, depth);
      Ok(Parsed([v.value] + more.value, more.rest))
  }

  function DecodeItemsToBreak(w: Widen, s: seq<byte>, depth: int): (r: Parse<seq<Value>>)
    ensures r.Ok? ==> |r.value.rest| < |s|
    decreases |s|, 1
  {
    if s == [] then Err(Truncated)
    else if s[0] == 0xff then Ok(Parsed([], s[1..]))
    else
      var v :- DecodeValue(w, s, depth);
      var more :- DecodeItemsToBreak(w, v.rest, depth);
      Ok(Parsed([v.value] + more.value, more.rest))
  }

  function DecodeEntry(w: Widen, s: seq<byte>, depth: int): (r: Parse<Entry>)
    ensures r.Ok? ==> |r.value.rest| < |s|
    decreases |s|, 1
  {
    var k :- DecodeValue(w, s, depth);
    var v :- DecodeValue(w, k.rest, depth);
    Ok(Parsed(Entry(k.value, v.value), v.rest))
  }

  function DecodeEntries(w: Widen, s: seq<byte>, n: nat, depth: int): (r: Parse<seq<Entry>>)
    ensures r.Ok? ==> |r.value.rest| <= |s|
    decreases |s|, 2
  {
    if n == 0 then Ok(Parsed([], s))
    else
      var e :- DecodeEntry(w, s, depth);
      var more :- DecodeEntries(w, e.rest, n - 1, depth);
      Ok(Parsed([e.value] + more.value, more.rest))
  }

  function DecodeEntriesToBreak(w: Widen, s: seq<byte>, depth: int): (r: Parse<seq<Entry>>)
    ensures r.Ok? ==> |r.value.rest| < |s|
    decreases |s|, 2
  {
    if s == [] then Err(Truncated)
    else if s[0] == 0xff then Ok(Parsed([], s[1..]))
    else
      var e :- DecodeEntry(w, s, depth);
      var more :- DecodeEntriesToBreak(w, e.rest, depth);
      Ok(Parsed([e.value] + more.value, more.rest))
  }

  /** `decode`: the first value of the buffer; bytes after it are ignored. */
  function Decode(w: Widen, bytes: seq<byte>): Result<Value, Error> {
    var r :- DecodeValue(w, bytes, 0);
    Ok(r.value)
  }
}
