/** Laws of the CBOR codec: the decoder inverts the encoder, and the encoder re-encodes whatever is decoded. */
module CborLaws {
  import opened Common
  import opened Radix
  import opened Cbor
  import Utf8

  // ---------- Nesting and size ----------

  function Max(a: nat, b: nat): nat { if a < b then b else a }

  /** How many levels of arrays, maps and tags a value contains below its root. */
  function Height(v: Value): nat
    decreases v, 1
  {
    match v
    case Array(items) => HeightOfItems(items)
    case Map(entries) => HeightOfEntries(entries)
    case Tag(_, inner) => 1 + Height(inner)
    case _ => 0
  }

  function HeightOfItems(items: seq<Value>): nat
    decreases items, 0
  {
    if items == [] then 0 else Max(1 + Height(items[0]), HeightOfItems(items[1..]))
  }

  function HeightOfEntry(e: Entry): nat
    decreases e, 0
  {
    1 + Max(Height(e.key), Height(e.val))
  }

  function HeightOfEntries(entries: seq<Entry>): nat
    decreases entries, 0
  {
    if entries == [] then 0 else Max(HeightOfEntry(entries[0]), HeightOfEntries(entries[1..]))
  }

  /** Nodes plus string bytes: what a decoded value costs in memory. */
  function Weight(v: Value): nat
    decreases v, 1
  {
    match v
    case Bytes(b) => 1 + |b|
    case Text(t) => 1 + |Utf8.Encode(t)|
    case Array(items) => 1 + WeightOfItems(items)
    case Map(entries) => 1 + WeightOfEntries(entries)
    case Tag(_, inner) => 1 + Weight(inner)
    case _ => 1
  }

  function WeightOfItems(items: seq<Value>): nat
    decreases items, 0
  {
    if items == [] then 0 else Weight(items[0]) + WeightOfItems(items[1..])
  }

  function WeightOfEntry(e: Entry): nat
    decreases e, 0
  {
    Weight(e.key) + Weight(e.val)
  }

  function WeightOfEntries(entries: seq<Entry>): nat
    decreases entries, 0
  {
    if entries == [] then 0 else WeightOfEntry(entries[0]) + WeightOfEntries(entries[1..])
  }

  // ---------- Headers ----------

  lemma {:induction false} BeRoundTrip(n: nat, k: nat)
    requires n < Pow(256, k)
    ensures Val(256, ToBe(n, k)) == n
  {
    if k > 0 {
      BeRoundTrip(n / 256, k - 1);
      assert ToBe(n, k)[..k - 1] == ToBe(n / 256, k - 1);
    }
  }

  lemma TakeBeOfToBe(n: nat, k: nat, tail: seq<byte>)
    requires n < Pow(256, k)
    ensures TakeBe(ToBe(n, k) + tail, k) == Ok(Parsed(n, tail))
  {
    BeRoundTrip(n, k);
    var s := ToBe(n, k) + tail;
    assert s[..k] == ToBe(n, k) && s[k..] == tail;
  }

  /** The decoder reads back every header the encoder writes, and never mistakes one for an indefinite length. */
  lemma HeaderRoundTrip(major: nat, arg: u64, tail: seq<byte>)
    requires major < 8
    ensures
      var s := Header(major, arg) + tail;
      && s[0] / 32 == major
      && s[0] % 32 <= 27
      && Arg(s[1..], s[0] % 32) == Ok(Parsed(arg, tail))
  {
    hide ToBe, Val;
    var s := Header(major, arg) + tail;
    FromBePower([]);
    if arg < 24 {
      assert s[1..] == tail;
    } else if arg < 0x100 {
      assert s[1..] == [arg] + tail;
      assert s[2..] == tail;
    } else {
      var k := if arg < 0x1_0000 then 2 else if arg < TWO_32 then 4 else 8;
      assert s[1..] == ToBe(arg, k) + tail;
      TakeBeOfToBe(arg, k, tail);
    }
  }

  // ---------- Lower bounds on encodings: why the length guards are harmless ----------

  lemma {:induction false} WireNonEmpty(v: Value)
    requires Encodable(v)
    ensures |Wire(v)| >= 1
  {
  }

  lemma {:induction false} ItemsWireLength(items: seq<Value>)
    requires EncodableItems(items)
    ensures |WireOfItems(items)| >= |items|
  {
    if items != [] {
      WireNonEmpty(items[0]);
      ItemsWireLength(items[1..]);
    }
  }

  lemma EntryWireLength(e: Entry)
    requires EncodableEntry(e)
    ensures |WireOfEntry(e)| >= 2
  {
    WireNonEmpty(e.key);
    WireNonEmpty(e.val);
  }

  lemma {:induction false} EntriesWireLength(entries: seq<Entry>)
    requires EncodableEntries(entries)
    ensures |WireOfEntries(entries)| >= 2 * |entries|
  {
    if entries != [] {
      EntryWireLength(entries[0]);
      EntriesWireLength(entries[1..]);
    }
  }

  // ---------- Decoding inverts encoding ----------

  /** What decoding a wire form yields: the value and exactly the tail, unless nesting passes the limit. */
  function Outcome<T>(value: T, height: nat, tail: seq<byte>, depth: int): Parse<T> {
    if depth + height <= MAX_DEPTH then Ok(Parsed(value, tail)) else Err(TooDeep)
  }

  function BytesFrom(b: Parse<seq<byte>>): Parse<Value> {
    match b case Err(e) => Err(e) case Ok(p) => Ok(Parsed(Bytes(p.value), p.rest))
  }

  function TextFrom(r: Parse<seq<byte>>): Parse<Value> {
    match r
    case Err(e) => Err(e)
    case Ok(p) =>
      match Utf8.Decode(p.value)
      case None => Err(Invalid("text string is not UTF-8"))
      case Some(text) => Ok(Parsed(Text(text), p.rest))
  }

  /** What the initial byte leads to, for the kinds of value without parts. */
  lemma ByMajor(w: Widen, s: seq<byte>, depth: int)
    requires depth <= MAX_DEPTH && s != []
    ensures s[0] / 32 == 2 ==> DecodeValue(w, s, depth) == BytesFrom(StringBody(s[1..], 2, s[0] % 32, depth))
    ensures s[0] / 32 == 3 ==> DecodeValue(w, s, depth) == TextFrom(StringBody(s[1..], 3, s[0] % 32, depth))
    ensures s[0] / 32 == 7 ==> DecodeValue(w, s, depth) == Simple(w, s[1..], s[0] % 32)
  {
    hide Arg, StringBody, Utf8.Decode, DecodeArray, DecodeMap, Simple;
  }

  lemma DecodedStarts(w: Widen, s: seq<byte>, depth: int)
    requires DecodeValue(w, s, depth).Ok?
    ensures depth <= MAX_DEPTH && s != []
  {
    hide Arg, StringBody, Utf8.Decode, DecodeArray, DecodeMap, Simple;
  }

  lemma DecodeWireInteger(w: Widen, i: i128, tail: seq<byte>, depth: int)
    requires Encodable(Integer(i)) && depth <= MAX_DEPTH
    ensures DecodeValue(w, Wire(Integer(i)) + tail, depth) == Ok(Parsed(Integer(i), tail))
  {
    HeaderRoundTrip(if i >= 0 then 0 else 1, if i >= 0 then i else -i - 1, tail);
  }

  /** The bytes of a string behind its header come back whole. */
  lemma DecodeWireString(major: nat, b: seq<byte>, tail: seq<byte>, depth: int)
    requires major < 8 && |b| < TWO_64
    ensures
      var s := Header(major, |b|) + b + tail;
      && s != []
      && s[0] / 32 == major
      && StringBody(s[1..], major, s[0] % 32, depth) == Ok(Parsed(b, tail))
  {
    var s := Header(major, |b|) + b + tail;
    HeaderRoundTrip(major, |b|, b + tail);
    assert s == Header(major, |b|) + (b + tail);
    assert (b + tail)[..|b|] == b && (b + tail)[|b|..] == tail;
  }

  lemma DecodeWireText(w: Widen, t: string, tail: seq<byte>, depth: int)
    requires Encodable(Text(t)) && depth <= MAX_DEPTH
    ensures DecodeValue(w, Wire(Text(t)) + tail, depth) == Ok(Parsed(Text(t), tail))
  {
    DecodeWireString(3, Utf8.Encode(t), tail, depth);
    Utf8.EncodeThenDecode(t);
    var s := Wire(Text(t)) + tail;
    hide StringBody, Utf8.Encode, Utf8.Decode, DecodeValue, Header;
    ByMajor(w, s, depth);
  }

  lemma DecodeWireFloat(w: Widen, bits: u64, tail: seq<byte>, depth: int)
    requires depth <= MAX_DEPTH
    ensures DecodeValue(w, Wire(Float(bits)) + tail, depth) == Ok(Parsed(Float(bits), tail))
  {
    hide DecodeValue, ToBe, Val;
    var s := Wire(Float(bits)) + tail;
    ByMajor(w, s, depth);
    FromBePower([]);
    assert s[1..] == ToBe(bits, 8) + tail;
    TakeBeOfToBe(bits, 8, tail);
  }

  /** An array item whose header announces `n` items is those items. */
  lemma ArrayAfterHeader(w: Widen, s: seq<byte>, n: u64, body: seq<byte>, depth: int)
    requires depth <= MAX_DEPTH
    requires s != [] && s[0] / 32 == 4 && s[0] % 32 != 31
    requires Arg(s[1..], s[0] % 32) == Ok(Parsed(n, body)) && n <= |body|
    ensures
      match DecodeItems(w, body, n, depth + 1)
      case Ok(p) => DecodeValue(w, s, depth) == Ok(Parsed(Array(p.value), p.rest))
      case Err(e) => DecodeValue(w, s, depth) == Err(e)
  {
  }

  lemma MapAfterHeader(w: Widen, s: seq<byte>, n: u64, body: seq<byte>, depth: int)
    requires depth <= MAX_DEPTH
    requires s != [] && s[0] / 32 == 5 && s[0] % 32 != 31
    requires Arg(s[1..], s[0] % 32) == Ok(Parsed(n, body)) && 2 * n <= |body|
    ensures
      match DecodeEntries(w, body, n, depth + 1)
      case Ok(p) => DecodeValue(w, s, depth) == Ok(Parsed(Map(p.value), p.rest))
      case Err(e) => DecodeValue(w, s, depth) == Err(e)
  {
  }

  lemma TagAfterHeader(w: Widen, s: seq<byte>, tag: u64, body: seq<byte>, depth: int)
    requires depth <= MAX_DEPTH
    requires s != [] && s[0] / 32 == 6
    requires Arg(s[1..], s[0] % 32) == Ok(Parsed(tag, body))
    ensures
      match DecodeValue(w, body, depth + 1)
      case Ok(p) => DecodeValue(w, s, depth) == Ok(Parsed(Tag(tag, p.value), p.rest))
      case Err(e) => DecodeValue(w, s, depth) == Err(e)
  {
  }

  lemma DecodeWireBytes(w: Widen, b: seq<byte>, tail: seq<byte>, depth: int)
    requires |b| < TWO_64 && depth <= MAX_DEPTH
    ensures DecodeValue(w, Header(2, |b|) + b + tail, depth) == Ok(Parsed(Bytes(b), tail))
  {
    hide Header, StringBody, DecodeValue;
    DecodeWireString(2, b, tail, depth);
    ByMajor(w, Header(2, |b|) + b + tail, depth);
  }

  lemma DecodeWireLeaf(w: Widen, v: Value, tail: seq<byte>, depth: int)
    requires Encodable(v) && depth <= MAX_DEPTH
    requires v.Bytes? || v.Bool? || v.Null?
    ensures DecodeValue(w, Wire(v) + tail, depth) == Ok(Parsed(v, tail))
  {
    if v.Bytes? {
      hide DecodeValue, Header;
      DecodeWireBytes(w, v.bytes, tail, depth);
    } else {
      ByMajor(w, Wire(v) + tail, depth);
      hide DecodeValue;
      assert (Wire(v) + tail)[1..] == tail;
    }
  }

  lemma {:induction false} DecodeWire(w: Widen, v: Value, tail: seq<byte>, depth: int)
    requires Encodable(v)
    ensures DecodeValue(w, Wire(v) + tail, depth) == Outcome(v, Height(v), tail, depth)
    decreases v, 1
  {
    if depth > MAX_DEPTH {
      return;
    }
    match v {
      case Integer(i) => DecodeWireInteger(w, i, tail, depth);
      case Text(t) => DecodeWireText(w, t, tail, depth);
      case Array(items) => DecodeWireArray(w, v, tail, depth);
      case Map(entries) => DecodeWireMap(w, v, tail, depth);
      case Tag(tag, inner) => DecodeWireTag(w, v, tail, depth);
      case Float(bits) => DecodeWireFloat(w, bits, tail, depth);
      case _ => DecodeWireLeaf(w, v, tail, depth);
    }
  }

  lemma {:induction false} DecodeWireArray(w: Widen, v: Value, tail: seq<byte>, depth: int)
    requires Encodable(v) && v.Array? && depth <= MAX_DEPTH
    ensures DecodeValue(w, Wire(v) + tail, depth) == Outcome(v, Height(v), tail, depth)
    decreases v, 0
  {
    var n, body := |v.items|, WireOfItems(v.items) + tail;
    HeaderRoundTrip(4, n, body);
    assert Wire(v) + tail == Header(4, n) + body;
    ItemsWireLength(v.items);
    ArrayAfterHeader(w, Wire(v) + tail, n, body, depth);
    DecodeWireItems(w, v.items, tail, depth + 1);
  }

  lemma {:induction false} DecodeWireMap(w: Widen, v: Value, tail: seq<byte>, depth: int)
    requires Encodable(v) && v.Map? && depth <= MAX_DEPTH
    ensures DecodeValue(w, Wire(v) + tail, depth) == Outcome(v, Height(v), tail, depth)
    decreases v, 0
  {
    var n, body := |v.entries|, WireOfEntries(v.entries) + tail;
    HeaderRoundTrip(5, n, body);
    assert Wire(v) + tail == Header(5, n) + body;
    EntriesWireLength(v.entries);
    MapAfterHeader(w, Wire(v) + tail, n, body, depth);
    DecodeWireEntries(w, v.entries, tail, depth + 1);
  }

  lemma {:induction false} DecodeWireTag(w: Widen, v: Value, tail: seq<byte>, depth: int)
    requires Encodable(v) && v.Tag? && depth <= MAX_DEPTH
    ensures DecodeValue(w, Wire(v) + tail, depth) == Outcome(v, Height(v), tail, depth)
    decreases v, 0
  {
    var body := Wire(v.inner) + tail;
    HeaderRoundTrip(6, v.tag, body);
    assert Wire(v) + tail == Header(6, v.tag) + body;
    TagAfterHeader(w, Wire(v) + tail, v.tag, body, depth);
    DecodeWire(w, v.inner, tail, depth + 1);
  }

  lemma WireOfCons(items: seq<Value>, tail: seq<byte>)
    requires EncodableItems(items) && items != []
    ensures Encodable(items[0]) && EncodableItems(items[1..])
    ensures WireOfItems(items) + tail == Wire(items[0]) + (WireOfItems(items[1..]) + tail)
  {
  }

  lemma WireOfConsEntry(entries: seq<Entry>, tail: seq<byte>)
    requires EncodableEntries(entries) && entries != []
    ensures EncodableEntry(entries[0]) && EncodableEntries(entries[1..])
    ensures WireOfEntries(entries) + tail == WireOfEntry(entries[0]) + (WireOfEntries(entries[1..]) + tail)
  {
  }

  lemma DecodeItemsStep(w: Widen, s: seq<byte>, n: nat, depth: int)
    requires n > 0
    ensures DecodeItems(w, s, n, depth) ==
      match DecodeValue(w, s, depth)
      case Err(e) => Err(e)
      case Ok(v) =>
        match DecodeItems(w, v.rest, n - 1, depth)
        case Err(e) => Err(e)
        case Ok(more) => Ok(Parsed([v.value] + more.value, more.rest))
  {
    hide DecodeValue;
  }

  lemma DecodeNoItems(w: Widen, tail: seq<byte>, depth: int)
    ensures WireOfItems([]) + tail == tail && DecodeItems(w, tail, 0, depth) == Ok(Parsed([], tail))
  {
  }

  lemma {:induction false} DecodeWireItems(w: Widen, items: seq<Value>, tail: seq<byte>, depth: int)
    requires EncodableItems(items)
    requires depth <= MAX_DEPTH + 1
    ensures DecodeItems(w, WireOfItems(items) + tail, |items|, depth) ==
      Outcome(items, HeightOfItems(items), tail, depth - 1)
    decreases items, 0
  {
    hide Encodable, EncodableItems, Wire, WireOfItems, Height, DecodeValue, DecodeItems;
    if items == [] {
      DecodeNoItems(w, tail, depth);
    } else {
      WireOfCons(items, tail);
      var rest := WireOfItems(items[1..]) + tail;
      DecodeWire(w, items[0], rest, depth);
      DecodeWireItems(w, items[1..], tail, depth);
      DecodeItemsStep(w, Wire(items[0]) + rest, |items|, depth);
      assert items == [items[0]] + items[1..];
    }
  }

  lemma {:induction false} DecodeWireEntry(w: Widen, e: Entry, tail: seq<byte>, depth: int)
    requires EncodableEntry(e)
    requires depth <= MAX_DEPTH + 1
    ensures DecodeEntry(w, WireOfEntry(e) + tail, depth) == Outcome(e, HeightOfEntry(e), tail, depth - 1)
    decreases e, 0
  {
    hide Wire, Height, DecodeValue;
    assert WireOfEntry(e) + tail == Wire(e.key) + (Wire(e.val) + tail);
    DecodeWire(w, e.key, Wire(e.val) + tail, depth);
    DecodeWire(w, e.val, tail, depth);
  }

  lemma DecodeEntriesStep(w: Widen, s: seq<byte>, n: nat, depth: int)
    requires n > 0
    ensures DecodeEntries(w, s, n, depth) ==
      match DecodeEntry(w, s, depth)
      case Err(e) => Err(e)
      case Ok(entry) =>
        match DecodeEntries(w, entry.rest, n - 1, depth)
        case Err(e) => Err(e)
        case Ok(more) => Ok(Parsed([entry.value] + more.value, more.rest))
  {
    hide DecodeEntry;
  }

  lemma DecodeNoEntries(w: Widen, tail: seq<byte>, depth: int)
    ensures WireOfEntries([]) + tail == tail && DecodeEntries(w, tail, 0, depth) == Ok(Parsed([], tail))
  {
  }

  lemma {:induction false} DecodeWireEntries(w: Widen, entries: seq<Entry>, tail: seq<byte>, depth: int)
    requires EncodableEntries(entries)
    requires depth <= MAX_DEPTH + 1
    ensures DecodeEntries(w, WireOfEntries(entries) + tail, |entries|, depth)
         == Outcome(entries, HeightOfEntries(entries), tail, depth - 1)
    decreases entries, 0
  {
    hide EncodableEntry, EncodableEntries, WireOfEntry, WireOfEntries, HeightOfEntry, DecodeEntry, DecodeEntries;
    if entries == [] {
      DecodeNoEntries(w, tail, depth);
    } else {
      WireOfConsEntry(entries, tail);
      var rest := WireOfEntries(entries[1..]) + tail;
      DecodeWireEntry(w, entries[0], rest, depth);
      DecodeWireEntries(w, entries[1..], tail, depth);
      DecodeEntriesStep(w, WireOfEntry(entries[0]) + rest, |entries|, depth);
      assert entries == [entries[0]] + entries[1..];
    }
  }

  /**
   * Decoding the encoding of any value, with anything behind it, gives back that value and stops
   * exactly at the end of the encoding when the value nests at most MAX_DEPTH levels, and reports
   * TooDeep otherwise. No length guard ever fires.
   */
  lemma RoundTrip(w: Widen, v: Value, tail: seq<byte>)
    requires Encodable(v)
    ensures DecodeValue(w, Wire(v) + tail, 0) ==
            if Height(v) <= MAX_DEPTH then Ok(Parsed(v, tail)) else Err(TooDeep)
    ensures Decode(w, Wire(v) + tail) == if Height(v) <= MAX_DEPTH then Ok(v) else Err(TooDeep)
  {
    DecodeWire(w, v, tail, 0);
  }

  /** No encoding is a prefix of another one, however deep the values: CBOR items are self-delimiting. */
  lemma PrefixFree(a: Value, b: Value, s: seq<byte>, t: seq<byte>)
    requires Encodable(a) && Encodable(b)
    requires Wire(a) + s == Wire(b) + t
    ensures a == b && s == t
  {
    var w := Widen(_ => 0, _ => 0);
    var depth := MAX_DEPTH - Height(a) - Height(b);
    DecodeWire(w, a, s, depth);
    DecodeWire(w, b, t, depth);
  }

  // ---------- Whatever is decoded re-encodes ----------

  predicate IsSuffix(rest: seq<byte>, s: seq<byte>) {
    |rest| <= |s| && s[|s| - |rest|..] == rest
  }

  lemma SuffixTransitive(a: seq<byte>, b: seq<byte>, c: seq<byte>)
    requires IsSuffix(a, b) && IsSuffix(b, c)
    ensures IsSuffix(a, c)
  {
    assert c[|c| - |a|..] == c[|c| - |b|..][|b| - |a|..];
  }

  /** A decoded value is encodable, within the nesting limit, and paid for by the bytes it consumed. */
  predicate Sound(v: Value, s: seq<byte>, rest: seq<byte>, depth: int) {
    && Encodable(v)
    && depth + Height(v) <= MAX_DEPTH
    && Weight(v) + |rest| <= |s|
    && IsSuffix(rest, s)
  }

  predicate SoundItems(items: seq<Value>, s: seq<byte>, rest: seq<byte>, depth: int) {
    && EncodableItems(items)
    && depth - 1 + HeightOfItems(items) <= MAX_DEPTH
    && |items| <= WeightOfItems(items) <= |s| - |rest|
    && IsSuffix(rest, s)
  }

  predicate SoundEntry(e: Entry, s: seq<byte>, rest: seq<byte>, depth: int) {
    && EncodableEntry(e)
    && depth - 1 + HeightOfEntry(e) <= MAX_DEPTH
    && 1 <= WeightOfEntry(e) <= |s| - |rest|
    && IsSuffix(rest, s)
  }

  predicate SoundEntries(entries: seq<Entry>, s: seq<byte>, rest: seq<byte>, depth: int) {
    && EncodableEntries(entries)
    && depth - 1 + HeightOfEntries(entries) <= MAX_DEPTH
    && |entries| <= WeightOfEntries(entries) <= |s| - |rest|
    && IsSuffix(rest, s)
  }

  lemma SoundCons(v: Value, more: seq<Value>, s: seq<byte>, mid: seq<byte>, rest: seq<byte>, depth: int)
    requires Sound(v, s, mid, depth) && SoundItems(more, mid, rest, depth)
    ensures SoundItems([v] + more, s, rest, depth)
  {
    var items := [v] + more;
    assert items[0] == v && items[1..] == more;
    SuffixTransitive(rest, mid, s);
  }

  lemma SoundConsEntry(e: Entry, more: seq<Entry>, s: seq<byte>, mid: seq<byte>, rest: seq<byte>, depth: int)
    requires SoundEntry(e, s, mid, depth) && SoundEntries(more, mid, rest, depth)
    ensures SoundEntries([e] + more, s, rest, depth)
  {
    var entries := [e] + more;
    assert entries[0] == e && entries[1..] == more;
    SuffixTransitive(rest, mid, s);
  }

  lemma ArgSuffix(s: seq<byte>, info: nat)
    requires Arg(s, info).Ok?
    ensures IsSuffix(Arg(s, info).value.rest, s)
  {
  }

  lemma DefiniteStringSuffix(s: seq<byte>, info: nat)
    requires DefiniteString(s, info).Ok?
    ensures IsSuffix(DefiniteString(s, info).value.rest, s)
  {
    ArgSuffix(s, info);
    SuffixTransitive(DefiniteString(s, info).value.rest, Arg(s, info).value.rest, s);
  }

  lemma {:induction false} ChunksSuffix(s: seq<byte>, major: nat)
    requires Chunks(s, major).Ok?
    ensures IsSuffix(Chunks(s, major).value.rest, s)
  {
    if s[0] != 0xff {
      hide DefiniteString, IsSuffix;
      DefiniteStringSuffix(s[1..], s[0] % 32);
      var chunk := DefiniteString(s[1..], s[0] % 32).value;
      ChunksSuffix(chunk.rest, major);
      SuffixTransitive(Chunks(s, major).value.rest, chunk.rest, s[1..]);
      SuffixOfTail(Chunks(s, major).value.rest, s);
    }
  }

  lemma SuffixOfTail(rest: seq<byte>, s: seq<byte>)
    requires s != [] && IsSuffix(rest, s[1..])
    ensures IsSuffix(rest, s)
  {
  }

  lemma StringBodySuffix(s: seq<byte>, major: nat, info: nat, depth: int)
    requires StringBody(s, major, info, depth).Ok?
    ensures IsSuffix(StringBody(s, major, info, depth).value.rest, s)
  {
    if info == 31 {
      ChunksSuffix(s, major);
    } else {
      DefiniteStringSuffix(s, info);
    }
  }

  lemma SoundBytes(b: seq<byte>, s: seq<byte>, rest: seq<byte>, depth: int)
    requires s != [] && |s| < TWO_64 && depth <= MAX_DEPTH && IsSuffix(rest, s[1..]) && |rest| + |b| < |s|
    ensures Sound(Bytes(b), s, rest, depth)
  {
  }

  lemma SoundText(text: string, s: seq<byte>, rest: seq<byte>, depth: int)
    requires s != [] && |s| < TWO_64 && depth <= MAX_DEPTH && IsSuffix(rest, s[1..])
    requires |rest| + |Utf8.Encode(text)| < |s|
    ensures Sound(Text(text), s, rest, depth)
  {
    hide Utf8.Encode;
  }

  lemma SoundString(w: Widen, s: seq<byte>, depth: int)
    requires DecodeValue(w, s, depth).Ok? && |s| < TWO_64
    requires s[0] / 32 == 2 || s[0] / 32 == 3
    ensures Sound(DecodeValue(w, s, depth).value.value, s, DecodeValue(w, s, depth).value.rest, depth)
  {
    hide DecodeValue, StringBody, Utf8.Decode, Utf8.Encode, Sound, IsSuffix;
    DecodedStarts(w, s, depth);
    ByMajor(w, s, depth);
    var major, t := s[0] / 32, s[1..];
    StringBodySuffix(t, major, s[0] % 32, depth);
    var body := StringBody(t, major, s[0] % 32, depth).value;
    if major == 2 {
      SoundBytes(body.value, s, body.rest, depth);
    } else {
      Utf8.DecodeThenEncode(body.value);
      SoundText(Utf8.Decode(body.value).value, s, body.rest, depth);
    }
  }

  lemma SoundInteger(w: Widen, s: seq<byte>, depth: int)
    requires DecodeValue(w, s, depth).Ok? && |s| < TWO_64
    requires s[0] / 32 <= 1
    ensures Sound(DecodeValue(w, s, depth).value.value, s, DecodeValue(w, s, depth).value.rest, depth)
  {
    hide Arg, StringBody, Utf8.Decode, DecodeArray, DecodeMap, Simple;
    ArgSuffix(s[1..], s[0] % 32);
  }

  lemma SimpleSuffix(w: Widen, t: seq<byte>, info: nat)
    requires Simple(w, t, info).Ok?
    ensures
      var p := Simple(w, t, info).value;
      IsSuffix(p.rest, t) && Encodable(p.value) && Height(p.value) == 0 && Weight(p.value) == 1
  {
    hide Val;
    var p := Simple(w, t, info).value;
    if 24 <= info <= 27 {
      var k := if info == 24 then 1 else if info == 25 then 2 else if info == 26 then 4 else 8;
      assert p.rest == t[k..];
      assert p.value.Integer? || p.value.Float?;
    } else {
      assert p.rest == t;
      assert p.value.Bool? || p.value.Null?;
    }
  }

  lemma SoundSimple(w: Widen, s: seq<byte>, depth: int)
    requires DecodeValue(w, s, depth).Ok? && |s| < TWO_64
    requires s[0] / 32 == 7
    ensures Sound(DecodeValue(w, s, depth).value.value, s, DecodeValue(w, s, depth).value.rest, depth)
  {
    DecodedStarts(w, s, depth);
    ByMajor(w, s, depth);
    hide DecodeValue, Simple, Encodable, Height, Weight;
    SimpleSuffix(w, s[1..], s[0] % 32);
  }

  lemma SoundTag(tag: u64, inner: Value, s: seq<byte>, t: seq<byte>, mid: seq<byte>, rest: seq<byte>, depth: int)
    requires s != [] && t == s[1..] && IsSuffix(mid, t)
    requires Sound(inner, mid, rest, depth + 1)
    ensures Sound(Tag(tag, inner), s, rest, depth)
  {
    SuffixTransitive(mid, t, s);
    SuffixTransitive(rest, mid, s);
  }

  lemma ArrayIsSound(items: seq<Value>, s: seq<byte>, t: seq<byte>, rest: seq<byte>, depth: int)
    requires s != [] && t == s[1..] && |s| < TWO_64 && depth <= MAX_DEPTH
    requires SoundItems(items, t, rest, depth + 1)
    ensures Sound(Array(items), s, rest, depth)
  {
    SuffixTransitive(rest, t, s);
  }

  lemma MapIsSound(entries: seq<Entry>, s: seq<byte>, t: seq<byte>, rest: seq<byte>, depth: int)
    requires s != [] && t == s[1..] && |s| < TWO_64 && depth <= MAX_DEPTH
    requires SoundEntries(entries, t, rest, depth + 1)
    ensures Sound(Map(entries), s, rest, depth)
  {
    SuffixTransitive(rest, t, s);
  }

  lemma {:induction false} SoundValue(w: Widen, s: seq<byte>, depth: int)
    requires DecodeValue(w, s, depth).Ok? && |s| < TWO_64
    ensures Sound(DecodeValue(w, s, depth).value.value, s, DecodeValue(w, s, depth).value.rest, depth)
    decreases |s|, 0
  {
    hide Arg, StringBody, DecodeArray, DecodeMap, Simple, Utf8.Decode, Wire;
    var major, info, t := s[0] / 32, s[0] % 32, s[1..];
    if major == 4 {
      SoundArray(w, t, info, depth);
      var p := DecodeArray(w, t, info, depth).value;
      ArrayIsSound(p.value, s, t, p.rest, depth);
    } else if major == 5 {
      SoundMap(w, t, info, depth);
      var p := DecodeMap(w, t, info, depth).value;
      MapIsSound(p.value, s, t, p.rest, depth);
    } else if major == 6 {
      ArgSuffix(t, info);
      var a := Arg(t, info).value;
      SoundValue(w, a.rest, depth + 1);
      var inner := DecodeValue(w, a.rest, depth + 1).value;
      SoundTag(a.value, inner.value, s, t, a.rest, inner.rest, depth);
    } else if major == 2 || major == 3 {
      SoundString(w, s, depth);
    } else if major <= 1 {
      SoundInteger(w, s, depth);
    } else {
      SoundSimple(w, s, depth);
    }
  }

  lemma {:induction false} SoundArray(w: Widen, t: seq<byte>, info: nat, depth: int)
    requires DecodeArray(w, t, info, depth).Ok? && |t| < TWO_64 && depth <= MAX_DEPTH
    ensures SoundItems(DecodeArray(w, t, info, depth).value.value, t, DecodeArray(w, t, info, depth).value.rest,
                       depth + 1)
    decreases |t|, 2
  {
    if info == 31 {
      SoundItemsToBreak(w, t, depth + 1);
    } else {
      ArgSuffix(t, info);
      var a := Arg(t, info).value;
      SoundDecodeItems(w, a.rest, a.value, depth + 1);
      SuffixTransitive(DecodeArray(w, t, info, depth).value.rest, a.rest, t);
    }
  }

  lemma {:induction false} SoundMap(w: Widen, t: seq<byte>, info: nat, depth: int)
    requires DecodeMap(w, t, info, depth).Ok? && |t| < TWO_64 && depth <= MAX_DEPTH
    ensures SoundEntries(DecodeMap(w, t, info, depth).value.value, t, DecodeMap(w, t, info, depth).value.rest,
                         depth + 1)
    decreases |t|, 3
  {
    if info == 31 {
      SoundEntriesToBreak(w, t, depth + 1);
    } else {
      ArgSuffix(t, info);
      var a := Arg(t, info).value;
      SoundDecodeEntries(w, a.rest, a.value, depth + 1);
      SuffixTransitive(DecodeMap(w, t, info, depth).value.rest, a.rest, t);
    }
  }

  lemma SoundNoItems(w: Widen, s: seq<byte>, depth: int)
    requires depth <= MAX_DEPTH + 1
    ensures DecodeItems(w, s, 0, depth) == Ok(Parsed([], s)) && SoundItems([], s, s, depth)
  {
  }

  lemma {:induction false} SoundDecodeItems(w: Widen, s: seq<byte>, n: nat, depth: int)
    requires DecodeItems(w, s, n, depth).Ok? && |s| < TWO_64 && depth <= MAX_DEPTH + 1
    ensures SoundItems(DecodeItems(w, s, n, depth).value.value, s, DecodeItems(w, s, n, depth).value.rest, depth)
    decreases |s|, 1
  {
    hide DecodeValue, DecodeItems, Sound, SoundItems;
    if n == 0 {
      SoundNoItems(w, s, depth);
    } else {
      DecodeItemsStep(w, s, n, depth);
      SoundValue(w, s, depth);
      var v := DecodeValue(w, s, depth).value;
      SoundDecodeItems(w, v.rest, n - 1, depth);
      var more := DecodeItems(w, v.rest, n - 1, depth).value;
      SoundCons(v.value, more.value, s, v.rest, more.rest, depth);
    }
  }

  lemma {:induction false} SoundItemsToBreak(w: Widen, s: seq<byte>, depth: int)
    requires DecodeItemsToBreak(w, s, depth).Ok? && |s| < TWO_64 && depth <= MAX_DEPTH + 1
    ensures SoundItems(DecodeItemsToBreak(w, s, depth).value.value, s, DecodeItemsToBreak(w, s, depth).value.rest,
                       depth)
    decreases |s|, 1
  {
    if s[0] != 0xff {
      SoundValue(w, s, depth);
      var v := DecodeValue(w, s, depth).value;
      SoundItemsToBreak(w, v.rest, depth);
      var more := DecodeItemsToBreak(w, v.rest, depth).value;
      SoundCons(v.value, more.value, s, v.rest, more.rest, depth);
    }
  }

  lemma {:induction false} SoundDecodeEntry(w: Widen, s: seq<byte>, depth: int)
    requires DecodeEntry(w, s, depth).Ok? && |s| < TWO_64
    ensures SoundEntry(DecodeEntry(w, s, depth).value.value, s, DecodeEntry(w, s, depth).value.rest, depth)
    decreases |s|, 1
  {
    SoundValue(w, s, depth);
    var k := DecodeValue(w, s, depth).value;
    SoundValue(w, k.rest, depth);
    SuffixTransitive(DecodeEntry(w, s, depth).value.rest, k.rest, s);
  }

  lemma SoundNoEntries(w: Widen, s: seq<byte>, depth: int)
    requires depth <= MAX_DEPTH + 1
    ensures DecodeEntries(w, s, 0, depth) == Ok(Parsed([], s)) && SoundEntries([], s, s, depth)
  {
  }

  lemma {:induction false} SoundDecodeEntries(w: Widen, s: seq<byte>, n: nat, depth: int)
    requires DecodeEntries(w, s, n, depth).Ok? && |s| < TWO_64 && depth <= MAX_DEPTH + 1
    ensures SoundEntries(DecodeEntries(w, s, n, depth).value.value, s, DecodeEntries(w, s, n, depth).value.rest, depth)
    decreases |s|, 2
  {
    hide DecodeEntry, DecodeEntries, SoundEntry, SoundEntries;
    if n == 0 {
      SoundNoEntries(w, s, depth);
    } else {
      DecodeEntriesStep(w, s, n, depth);
      SoundDecodeEntry(w, s, depth);
      var e := DecodeEntry(w, s, depth).value;
      SoundDecodeEntries(w, e.rest, n - 1, depth);
      var more := DecodeEntries(w, e.rest, n - 1, depth).value;
      SoundConsEntry(e.value, more.value, s, e.rest, more.rest, depth);
    }
  }

  lemma {:induction false} SoundEntriesToBreak(w: Widen, s: seq<byte>, depth: int)
    requires DecodeEntriesToBreak(w, s, depth).Ok? && |s| < TWO_64 && depth <= MAX_DEPTH + 1
    ensures SoundEntries(DecodeEntriesToBreak(w, s, depth).value.value, s,
                         DecodeEntriesToBreak(w, s, depth).value.rest, depth)
    decreases |s|, 2
  {
    if s[0] != 0xff {
      SoundDecodeEntry(w, s, depth);
      var e := DecodeEntry(w, s, depth).value;
      SoundEntriesToBreak(w, e.rest, depth);
      var more := DecodeEntriesToBreak(w, e.rest, depth).value;
      SoundConsEntry(e.value, more.value, s, e.rest, more.rest, depth);
    }
  }

  /**
   * Any buffer the decoder accepts, indefinite lengths and padded headers included, holds a value
   * that encodes without error, decodes back to itself, and weighs no more than the bytes read.
   */
  lemma Reencode(w: Widen, s: seq<byte>)
    requires |s| < TWO_64
    requires DecodeValue(w, s, 0).Ok?
    ensures
      var p := DecodeValue(w, s, 0).value;
      && Encodable(p.value)
      && Decode(w, Wire(p.value)) == Ok(p.value)
      && IsSuffix(p.rest, s)
      && Weight(p.value) <= |s| - |p.rest|
  {
    SoundValue(w, s, 0);
    var v := DecodeValue(w, s, 0).value.value;
    RoundTrip(w, v, []);
    assert Wire(v) + [] == Wire(v);
  }
}
