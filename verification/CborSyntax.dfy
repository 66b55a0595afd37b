/**
 * Every way to spell a value in CBOR (RFC 8949, section 3): heads of any width, strings in chunks, arrays and
 * maps of announced or of indefinite length. The decoder reads exactly these spellings, as what they mean.
 */
module CborSyntax {
  import opened Common
  import opened Radix
  import opened Cbor
  import opened CborLaws
  import Utf8

  // ---------- Heads ----------

  /** The argument of an item: in its first byte, or in the 1, 2, 4 or 8 bytes behind it. */
  datatype Head = Short(info: nat) | Long(digits: seq<byte>)

  predicate IsHead(h: Head) {
    match h
    case Short(info) => info < 24
    case Long(digits) => |digits| == 1 || |digits| == 2 || |digits| == 4 || |digits| == 8
  }

  /** The number a head announces: the digits are big-endian. */
  function Number(h: Head): nat {
    match h
    case Short(info) => info
    case Long(digits) => Val(256, digits)
  }

  function Info(h: Head): nat {
    match h
    case Short(info) => info
    case Long(digits) => if |digits| == 1 then 24 else if |digits| == 2 then 25 else if |digits| == 4 then 26 else 27
  }

  function Digits(h: Head): seq<byte> { if h.Short? then [] else h.digits }

  function SpellHead(major: nat, h: Head): (r: seq<byte>)
    requires major < 8 && IsHead(h)
    ensures r != []
  {
    [major * 32 + Info(h)] + Digits(h)
  }

  // ---------- Items ----------

  /** A piece of a string of indefinite length. */
  datatype Chunk = Chunk(head: Head, data: seq<byte>)

  datatype Item =
    | Natural(head: Head)
    | Negative(head: Head)
    | ByteString(head: Head, data: seq<byte>)
    | ByteChunks(chunks: seq<Chunk>)
    | TextString(head: Head, text: string)
    | TextChunks(chunks: seq<Chunk>, text: string)
    | List(head: Head, items: seq<Item>)
    | OpenList(items: seq<Item>)
    | Table(head: Head, rows: seq<Row>)
    | OpenTable(rows: seq<Row>)
    | Tagged(head: Head, inner: Item)
    | False | True | Nil | Undefined
    | SimpleByte(b: byte)
    | HalfFloat(digits: seq<byte>)
    | SingleFloat(digits: seq<byte>)
    | DoubleFloat(digits: seq<byte>)

  datatype Row = Row(key: Item, val: Item)

  predicate IsChunk(c: Chunk) { IsHead(c.head) && Number(c.head) == |c.data| }

  predicate AreChunks(cs: seq<Chunk>) { forall i :: 0 <= i < |cs| ==> IsChunk(cs[i]) }

  function Data(cs: seq<Chunk>): seq<byte> { if cs == [] then [] else cs[0].data + Data(cs[1..]) }

  /** Heads announce what follows, text is UTF-8, and floats have the width of their kind. */
  predicate IsItem(x: Item) {
    match x
    case Natural(h) => IsHead(h)
    case Negative(h) => IsHead(h)
    case ByteString(h, data) => IsHead(h) && Number(h) == |data|
    case ByteChunks(cs) => AreChunks(cs)
    case TextString(h, text) => IsHead(h) && Number(h) == |Utf8.Encode(text)|
    case TextChunks(cs, text) => AreChunks(cs) && Data(cs) == Utf8.Encode(text)
    case List(h, items) => IsHead(h) && Number(h) == |items| && forall y :: y in items ==> IsItem(y)
    case OpenList(items) => forall y :: y in items ==> IsItem(y)
    case Table(h, rows) => IsHead(h) && Number(h) == |rows| && forall r :: r in rows ==> IsItem(r.key) && IsItem(r.val)
    case OpenTable(rows) => forall r :: r in rows ==> IsItem(r.key) && IsItem(r.val)
    case Tagged(h, inner) => IsHead(h) && IsItem(inner)
    case SimpleByte(b) => b >= 32
    case HalfFloat(digits) => |digits| == 2
    case SingleFloat(digits) => |digits| == 4
    case DoubleFloat(digits) => |digits| == 8
    case _ => true
  }

  predicate AreItems(items: seq<Item>) { forall x :: x in items ==> IsItem(x) }

  predicate IsRow(r: Row) { IsItem(r.key) && IsItem(r.val) }

  predicate AreRows(rows: seq<Row>) { forall r :: r in rows ==> IsRow(r) }

  const BREAK: byte := 0xff

  function SpellChunks(major: nat, cs: seq<Chunk>): seq<byte>
    requires major < 8 && AreChunks(cs)
  {
    if cs == [] then [] else SpellHead(major, cs[0].head) + cs[0].data + SpellChunks(major, cs[1..])
  }

  function Spell(x: Item): seq<byte>
    requires IsItem(x)
    decreases x, 1
  {
    match x
    case Natural(h) => SpellHead(0, h)
    case Negative(h) => SpellHead(1, h)
    case ByteString(h, data) => SpellHead(2, h) + data
    case ByteChunks(cs) => [0x5f] + SpellChunks(2, cs) + [BREAK]
    case TextString(h, text) => SpellHead(3, h) + Utf8.Encode(text)
    case TextChunks(cs, _) => [0x7f] + SpellChunks(3, cs) + [BREAK]
    case List(h, items) => SpellHead(4, h) + SpellItems(items)
    case OpenList(items) => [0x9f] + SpellItems(items) + [BREAK]
    case Table(h, rows) => SpellHead(5, h) + SpellRows(rows)
    case OpenTable(rows) => [0xbf] + SpellRows(rows) + [BREAK]
    case Tagged(h, inner) => SpellHead(6, h) + Spell(inner)
    case False => [0xf4]
    case True => [0xf5]
    case Nil => [0xf6]
    case Undefined => [0xf7]
    case SimpleByte(b) => [0xf8, b]
    case HalfFloat(digits) => [0xf9] + digits
    case SingleFloat(digits) => [0xfa] + digits
    case DoubleFloat(digits) => [0xfb] + digits
  }

  function SpellItems(items: seq<Item>): seq<byte>
    requires AreItems(items)
    decreases items, 0
  {
    if items == [] then [] else Spell(items[0]) + SpellItems(items[1..])
  }

  function SpellRow(r: Row): seq<byte>
    requires IsRow(r)
    decreases r, 0
  {
    Spell(r.key) + Spell(r.val)
  }

  function SpellRows(rows: seq<Row>): seq<byte>
    requires AreRows(rows)
    decreases rows, 0
  {
    if rows == [] then [] else SpellRow(rows[0]) + SpellRows(rows[1..])
  }

  // ---------- What an item means ----------

  /** The value; simple values without a meaning of their own come out as their number, and undefined as null. */
  function Meaning(w: Widen, x: Item): Value
    requires IsItem(x)
    decreases x, 1
  {
    match x
    case Natural(h) => NumberBound(h); Integer(Number(h) as i128)
    case Negative(h) => NumberBound(h); Integer((-1 - Number(h)) as i128)
    case ByteString(_, data) => Bytes(data)
    case ByteChunks(cs) => Bytes(Data(cs))
    case TextString(_, text) => Text(text)
    case TextChunks(_, text) => Text(text)
    case List(_, items) => Array(MeaningOfItems(w, items))
    case OpenList(items) => Array(MeaningOfItems(w, items))
    case Table(_, rows) => Map(MeaningOfRows(w, rows))
    case OpenTable(rows) => Map(MeaningOfRows(w, rows))
    case Tagged(h, inner) => NumberBound(h); Tag(Number(h), Meaning(w, inner))
    case False => Bool(false)
    case True => Bool(true)
    case Nil => Null
    case Undefined => Null
    case SimpleByte(b) => Integer(b as i128)
    case HalfFloat(digits) => Float(w.half(Val(256, digits)))
    case SingleFloat(digits) => Float(w.single(Val(256, digits)))
    case DoubleFloat(digits) => FromBeBound(digits); Float(Val(256, digits))
  }

  function MeaningOfItems(w: Widen, items: seq<Item>): (r: seq<Value>)
    requires AreItems(items)
    ensures |r| == |items|
    decreases items, 0
  {
    if items == [] then [] else [Meaning(w, items[0])] + MeaningOfItems(w, items[1..])
  }

  function MeaningOfRow(w: Widen, r: Row): Entry
    requires IsRow(r)
    decreases r, 0
  {
    Entry(Meaning(w, r.key), Meaning(w, r.val))
  }

  function MeaningOfRows(w: Widen, rows: seq<Row>): (r: seq<Entry>)
    requires AreRows(rows)
    ensures |r| == |rows|
    decreases rows, 0
  {
    if rows == [] then [] else [MeaningOfRow(w, rows[0])] + MeaningOfRows(w, rows[1..])
  }

  lemma NumberBound(h: Head)
    requires IsHead(h)
    ensures Number(h) < TWO_64
  {
    if h.Long? {
      FromBeBound(h.digits);
    }
  }

  /** How many levels below its own an item reaches; chunks count as one. */
  function Depth(x: Item): nat
    decreases x, 1
  {
    match x
    case ByteChunks(_) => 1
    case TextChunks(_, _) => 1
    case List(_, items) => DepthOfItems(items)
    case OpenList(items) => DepthOfItems(items)
    case Table(_, rows) => DepthOfRows(rows)
    case OpenTable(rows) => DepthOfRows(rows)
    case Tagged(_, inner) => 1 + Depth(inner)
    case _ => 0
  }

  function DepthOfItems(items: seq<Item>): nat
    decreases items, 0
  {
    if items == [] then 0 else Max(1 + Depth(items[0]), DepthOfItems(items[1..]))
  }

  function DepthOfRow(r: Row): nat
    decreases r, 0
  {
    1 + Max(Depth(r.key), Depth(r.val))
  }

  function DepthOfRows(rows: seq<Row>): nat
    decreases rows, 0
  {
    if rows == [] then 0 else Max(DepthOfRow(rows[0]), DepthOfRows(rows[1..]))
  }

  // ---------- The decoder reads every spelling ----------

  /** Reading a head of any width. */
  lemma HeadReads(major: nat, h: Head, tail: seq<byte>)
    requires major < 8 && IsHead(h)
    ensures var s := SpellHead(major, h) + tail;
      && s[0] / 32 == major && s[0] % 32 == Info(h) <= 27
      && s[1..] == Digits(h) + tail
      && Number(h) < TWO_64 && Arg(s[1..], s[0] % 32) == Ok(Parsed(Number(h), tail))
  {
    NumberBound(h);
    var s := SpellHead(major, h) + tail;
    assert s[1..] == Digits(h) + tail;
    ArgReads(h, tail);
    hide Arg;
  }

  lemma ArgReads(h: Head, tail: seq<byte>)
    requires IsHead(h)
    ensures Number(h) < TWO_64 && Arg(Digits(h) + tail, Info(h)) == Ok(Parsed(Number(h), tail))
  {
    NumberBound(h);
    var t := Digits(h) + tail;
    if h.Short? {
      assert t == tail;
    } else {
      var k := |h.digits|;
      assert t[..k] == h.digits && t[k..] == tail;
      if k == 1 {
        OneDigit(h.digits);
      }
      hide Val;
    }
  }

  lemma OneDigit(digits: seq<byte>)
    requires |digits| == 1
    ensures Val(256, digits) == digits[0]
  {
    assert digits[..0] == [];
  }

  lemma DefiniteReads(h: Head, data: seq<byte>, tail: seq<byte>)
    requires IsHead(h) && Number(h) == |data|
    ensures DefiniteString(Digits(h) + (data + tail), Info(h)) == Ok(Parsed(data, tail))
  {
    ArgReads(h, data + tail);
    hide Arg;
    assert (data + tail)[..|data|] == data && (data + tail)[|data|..] == tail;
  }

  lemma {:induction false} ChunksStep(s: seq<byte>, major: nat)
    requires s != [] && s[0] != 0xff && s[0] / 32 == major && s[0] % 32 != 31
    ensures Chunks(s, major) ==
      match DefiniteString(s[1..], s[0] % 32)
      case Err(e) => Err(e)
      case Ok(chunk) =>
        match Chunks(chunk.rest, major)
        case Err(e) => Err(e)
        case Ok(more) => Ok(Parsed(chunk.value + more.value, more.rest))
  {
    hide DefiniteString;
  }

  lemma ChunksEnd(tail: seq<byte>, major: nat)
    ensures Chunks([BREAK] + tail, major) == Ok(Parsed([], tail))
  {
    assert ([BREAK] + tail)[1..] == tail;
  }

  lemma {:induction false} ChunksRead(major: nat, cs: seq<Chunk>, tail: seq<byte>)
    requires major < 7 && AreChunks(cs)
    ensures Chunks(SpellChunks(major, cs) + ([BREAK] + tail), major) == Ok(Parsed(Data(cs), tail))
    decreases |cs|
  {
    hide Chunks, DefiniteString, SpellHead, Arg, Info, Number;
    var after := [BREAK] + tail;
    if cs == [] {
      assert SpellChunks(major, cs) + after == after;
      ChunksEnd(tail, major);
    } else {
      var c, more := cs[0], SpellChunks(major, cs[1..]) + after;
      var s := SpellHead(major, c.head) + (c.data + more);
      assert SpellChunks(major, cs) + after == s;
      HeadReads(major, c.head, c.data + more);
      DefiniteReads(c.head, c.data, more);
      ChunksRead(major, cs[1..], tail);
      ChunksStep(s, major);
    }
  }

  // ---------- Lengths: why the guards let every spelling through ----------

  lemma SpellNonEmpty(x: Item)
    requires IsItem(x)
    ensures |Spell(x)| >= 1
  {
    hide SpellChunks, SpellItems, SpellRows, Utf8.Encode, Digits;
  }

  lemma {:induction false} ItemsLength(items: seq<Item>)
    requires AreItems(items)
    ensures |SpellItems(items)| >= |items|
  {
    hide Spell, IsItem;
    if items != [] {
      SpellNonEmpty(items[0]);
      ItemsLength(items[1..]);
    }
  }

  lemma RowLength(r: Row)
    requires IsRow(r)
    ensures |SpellRow(r)| >= 2
  {
    SpellNonEmpty(r.key);
    SpellNonEmpty(r.val);
    hide Spell;
  }

  lemma {:induction false} RowsLength(rows: seq<Row>)
    requires AreRows(rows)
    ensures |SpellRows(rows)| >= 2 * |rows|
  {
    hide SpellRow, IsRow;
    if rows != [] {
      RowLength(rows[0]);
      RowsLength(rows[1..]);
    }
  }

  /** No item starts with the break byte. */
  lemma NotBreak(x: Item, tail: seq<byte>)
    requires IsItem(x)
    ensures (Spell(x) + tail) != [] && (Spell(x) + tail)[0] != BREAK
  {
    hide SpellChunks, SpellItems, SpellRows, Utf8.Encode, Digits;
  }

  // ---------- Each kind of item ----------

  lemma IntegerDecodes(w: Widen, s: seq<byte>, a: u64, tail: seq<byte>, depth: int)
    requires depth <= MAX_DEPTH && s != [] && Arg(s[1..], s[0] % 32) == Ok(Parsed(a, tail))
    ensures s[0] / 32 == 0 ==> DecodeValue(w, s, depth) == Ok(Parsed(Integer(a as i128), tail))
    ensures s[0] / 32 == 1 ==> DecodeValue(w, s, depth) == Ok(Parsed(Integer((-1 - a) as i128), tail))
  {
    hide Arg, StringBody, Utf8.Decode, DecodeArray, DecodeMap, Simple;
  }

  lemma NumberReads(w: Widen, x: Item, tail: seq<byte>, depth: int)
    requires IsItem(x) && (x.Natural? || x.Negative?) && depth <= MAX_DEPTH
    ensures DecodeValue(w, Spell(x) + tail, depth) == Ok(Parsed(Meaning(w, x), tail))
  {
    hide DecodeValue, Arg, SpellHead, Number, IsHead;
    HeadReads(if x.Natural? then 0 else 1, x.head, tail);
    IntegerDecodes(w, Spell(x) + tail, Number(x.head), tail, depth);
  }

  lemma StringReads(w: Widen, x: Item, tail: seq<byte>, depth: int)
    requires IsItem(x) && (x.ByteString? || x.TextString?) && depth <= MAX_DEPTH
    ensures DecodeValue(w, Spell(x) + tail, depth) == Ok(Parsed(Meaning(w, x), tail))
  {
    hide DecodeValue, Arg, SpellHead, Number, IsHead, DefiniteString, Utf8.Encode, Utf8.Decode, Info;
    var major, data := if x.ByteString? then 2 else 3, if x.ByteString? then x.data else Utf8.Encode(x.text);
    var s := Spell(x) + tail;
    assert s == SpellHead(major, x.head) + (data + tail);
    HeadReads(major, x.head, data + tail);
    DefiniteReads(x.head, data, tail);
    ByMajor(w, s, depth);
    if x.TextString? {
      Utf8.EncodeThenDecode(x.text);
    }
  }

  lemma ChunkedReads(w: Widen, x: Item, tail: seq<byte>, depth: int)
    requires IsItem(x) && (x.ByteChunks? || x.TextChunks?) && depth <= MAX_DEPTH
    ensures DecodeValue(w, Spell(x) + tail, depth) == Outcome(Meaning(w, x), 1, tail, depth)
  {
    hide DecodeValue, Chunks, SpellChunks, Data, Utf8.Encode, Utf8.Decode;
    var major := if x.ByteChunks? then 2 else 3;
    var s := Spell(x) + tail;
    assert s[0] == major * 32 + 31 && s[1..] == SpellChunks(major, x.chunks) + ([BREAK] + tail);
    ChunksRead(major, x.chunks, tail);
    ByMajor(w, s, depth);
    if x.TextChunks? {
      Utf8.EncodeThenDecode(x.text);
    }
  }

  predicate IsWord(x: Item) { x.False? || x.True? || x.Nil? || x.Undefined? }

  predicate IsFloat(x: Item) { x.HalfFloat? || x.SingleFloat? || x.DoubleFloat? }

  function WordInfo(x: Item): nat { if x.False? then 20 else if x.True? then 21 else if x.Nil? then 22 else 23 }

  lemma WordIs(w: Widen, x: Item, tail: seq<byte>)
    requires IsWord(x)
    ensures IsItem(x) && Spell(x) == [0xe0 + WordInfo(x)]
    ensures Simple(w, tail, WordInfo(x)) == Ok(Parsed(Meaning(w, x), tail))
  {
  }

  lemma WordReads(w: Widen, x: Item, tail: seq<byte>, depth: int)
    requires IsWord(x) && depth <= MAX_DEPTH
    ensures IsItem(x) && DecodeValue(w, Spell(x) + tail, depth) == Ok(Parsed(Meaning(w, x), tail))
  {
    hide DecodeValue, Simple, Spell, Meaning, IsItem, IsWord;
    WordIs(w, x, tail);
    var s := Spell(x) + tail;
    assert s[0] == 0xe0 + WordInfo(x) && s[1..] == tail;
    ByMajor(w, s, depth);
  }

  lemma SimpleByteReads(w: Widen, x: Item, tail: seq<byte>, depth: int)
    requires IsItem(x) && x.SimpleByte? && depth <= MAX_DEPTH
    ensures DecodeValue(w, Spell(x) + tail, depth) == Ok(Parsed(Meaning(w, x), tail))
  {
    hide DecodeValue;
    var s := Spell(x) + tail;
    assert s[1..] == [x.b] + tail && ([x.b] + tail)[1..] == tail;
    ByMajor(w, s, depth);
  }

  lemma DigitsTaken(digits: seq<byte>, tail: seq<byte>)
    ensures TakeBe(digits + tail, |digits|) == Ok(Parsed(Val(256, digits), tail))
  {
    var t := digits + tail;
    assert t[..|digits|] == digits && t[|digits|..] == tail;
    hide Val;
  }

  lemma HalfSimple(w: Widen, digits: seq<byte>, tail: seq<byte>)
    requires |digits| == 2
    ensures Simple(w, digits + tail, 25) == Ok(Parsed(Float(w.half(Val(256, digits))), tail))
  {
    DigitsTaken(digits, tail);
    hide TakeBe, Val;
  }

  lemma SingleSimple(w: Widen, digits: seq<byte>, tail: seq<byte>)
    requires |digits| == 4
    ensures Simple(w, digits + tail, 26) == Ok(Parsed(Float(w.single(Val(256, digits))), tail))
  {
    DigitsTaken(digits, tail);
    hide TakeBe, Val;
  }

  lemma DoubleSimple(w: Widen, digits: seq<byte>, tail: seq<byte>)
    requires |digits| == 8
    ensures Val(256, digits) < TWO_64 && Simple(w, digits + tail, 27) == Ok(Parsed(Float(Val(256, digits)), tail))
  {
    DigitsTaken(digits, tail);
    FromBeBound(digits);
    hide TakeBe, Val;
  }

  lemma FloatReads(w: Widen, x: Item, tail: seq<byte>, depth: int)
    requires IsItem(x) && IsFloat(x) && depth <= MAX_DEPTH
    ensures DecodeValue(w, Spell(x) + tail, depth) == Ok(Parsed(Meaning(w, x), tail))
  {
    hide DecodeValue, Val, Simple;
    var s := Spell(x) + tail;
    assert s[1..] == x.digits + tail;
    ByMajor(w, s, depth);
    match x
    case HalfFloat(_) => HalfSimple(w, x.digits, tail);
    case SingleFloat(_) => SingleSimple(w, x.digits, tail);
    case DoubleFloat(_) => DoubleSimple(w, x.digits, tail);
  }

  lemma OpenArray(w: Widen, s: seq<byte>, depth: int)
    requires depth <= MAX_DEPTH && s != [] && s[0] == 0x9f
    ensures match DecodeItemsToBreak(w, s[1..], depth + 1)
      case Ok(p) => DecodeValue(w, s, depth) == Ok(Parsed(Array(p.value), p.rest))
      case Err(e) => DecodeValue(w, s, depth) == Err(e)
  {
    hide DecodeItemsToBreak;
  }

  lemma OpenMap(w: Widen, s: seq<byte>, depth: int)
    requires depth <= MAX_DEPTH && s != [] && s[0] == 0xbf
    ensures match DecodeEntriesToBreak(w, s[1..], depth + 1)
      case Ok(p) => DecodeValue(w, s, depth) == Ok(Parsed(Map(p.value), p.rest))
      case Err(e) => DecodeValue(w, s, depth) == Err(e)
  {
    hide DecodeEntriesToBreak;
  }

  /** Every spelling is read as what it means, with the rest left over, unless it nests too deep. */
  lemma {:induction false} SpellingReads(w: Widen, x: Item, tail: seq<byte>, depth: int)
    requires IsItem(x)
    ensures DecodeValue(w, Spell(x) + tail, depth) == Outcome(Meaning(w, x), Depth(x), tail, depth)
    decreases x, 2
  {
    hide DecodeValue, Spell, Meaning, SpellHead;
    if depth > MAX_DEPTH {
      TooDeepAlready(w, Spell(x) + tail, depth);
      return;
    }
    match x {
      case Natural(_) => NumberReads(w, x, tail, depth);
      case Negative(_) => NumberReads(w, x, tail, depth);
      case ByteString(_, _) => StringReads(w, x, tail, depth);
      case TextString(_, _) => StringReads(w, x, tail, depth);
      case ByteChunks(_) => ChunkedReads(w, x, tail, depth);
      case TextChunks(_, _) => ChunkedReads(w, x, tail, depth);
      case List(_, _) => ListReads(w, x, tail, depth);
      case OpenList(_) => OpenListReads(w, x, tail, depth);
      case Table(_, _) => TableReads(w, x, tail, depth);
      case OpenTable(_) => OpenTableReads(w, x, tail, depth);
      case Tagged(_, _) => TaggedReads(w, x, tail, depth);
      case SimpleByte(_) => SimpleByteReads(w, x, tail, depth);
      case HalfFloat(_) => FloatReads(w, x, tail, depth);
      case SingleFloat(_) => FloatReads(w, x, tail, depth);
      case DoubleFloat(_) => FloatReads(w, x, tail, depth);
      case _ => WordReads(w, x, tail, depth);
    }
  }

  lemma TooDeepAlready(w: Widen, s: seq<byte>, depth: int)
    requires depth > MAX_DEPTH
    ensures DecodeValue(w, s, depth) == Err(TooDeep)
  {
  }

  lemma {:induction false} ListReads(w: Widen, x: Item, tail: seq<byte>, depth: int)
    requires IsItem(x) && x.List? && depth <= MAX_DEPTH
    ensures DecodeValue(w, Spell(x) + tail, depth) == Outcome(Meaning(w, x), Depth(x), tail, depth)
    decreases x, 1
  {
    hide DecodeValue, DecodeItems, Arg, SpellHead, Number, IsHead, SpellItems, MeaningOfItems, DepthOfItems, Info;
    assert AreItems(x.items);
    var body, s := SpellItems(x.items) + tail, Spell(x) + tail;
    assert s == SpellHead(4, x.head) + body;
    HeadReads(4, x.head, body);
    ItemsLength(x.items);
    ArrayAfterHeader(w, s, Number(x.head), body, depth);
    ItemsRead(w, x.items, tail, depth + 1);
  }

  lemma {:induction false} OpenListReads(w: Widen, x: Item, tail: seq<byte>, depth: int)
    requires IsItem(x) && x.OpenList? && depth <= MAX_DEPTH
    ensures DecodeValue(w, Spell(x) + tail, depth) == Outcome(Meaning(w, x), Depth(x), tail, depth)
    decreases x, 1
  {
    hide DecodeValue, DecodeItemsToBreak, SpellItems, MeaningOfItems, DepthOfItems;
    assert AreItems(x.items);
    var s := Spell(x) + tail;
    assert s[1..] == SpellItems(x.items) + ([BREAK] + tail);
    OpenArray(w, s, depth);
    OpenItemsRead(w, x.items, tail, depth + 1);
  }

  lemma {:induction false} TableReads(w: Widen, x: Item, tail: seq<byte>, depth: int)
    requires IsItem(x) && x.Table? && depth <= MAX_DEPTH
    ensures DecodeValue(w, Spell(x) + tail, depth) == Outcome(Meaning(w, x), Depth(x), tail, depth)
    decreases x, 1
  {
    hide DecodeValue, DecodeEntries, Arg, SpellHead, Number, IsHead, SpellRows, MeaningOfRows, DepthOfRows, Info;
    assert AreRows(x.rows);
    var body, s := SpellRows(x.rows) + tail, Spell(x) + tail;
    assert s == SpellHead(5, x.head) + body;
    HeadReads(5, x.head, body);
    RowsLength(x.rows);
    MapAfterHeader(w, s, Number(x.head), body, depth);
    RowsRead(w, x.rows, tail, depth + 1);
  }

  lemma {:induction false} OpenTableReads(w: Widen, x: Item, tail: seq<byte>, depth: int)
    requires IsItem(x) && x.OpenTable? && depth <= MAX_DEPTH
    ensures DecodeValue(w, Spell(x) + tail, depth) == Outcome(Meaning(w, x), Depth(x), tail, depth)
    decreases x, 1
  {
    hide DecodeValue, DecodeEntriesToBreak, SpellRows, MeaningOfRows, DepthOfRows;
    assert AreRows(x.rows);
    var s := Spell(x) + tail;
    assert s[1..] == SpellRows(x.rows) + ([BREAK] + tail);
    OpenMap(w, s, depth);
    OpenRowsRead(w, x.rows, tail, depth + 1);
  }

  lemma {:induction false} TaggedReads(w: Widen, x: Item, tail: seq<byte>, depth: int)
    requires IsItem(x) && x.Tagged? && depth <= MAX_DEPTH
    ensures DecodeValue(w, Spell(x) + tail, depth) == Outcome(Meaning(w, x), Depth(x), tail, depth)
    decreases x, 1
  {
    hide DecodeValue, Arg, SpellHead, Number, IsHead, Info;
    var body, s := Spell(x.inner) + tail, Spell(x) + tail;
    assert s == SpellHead(6, x.head) + body;
    HeadReads(6, x.head, body);
    TagAfterHeader(w, s, Number(x.head), body, depth);
    SpellingReads(w, x.inner, tail, depth + 1);
  }

  // ---------- Lists of items and rows ----------

  lemma ItemsCons(items: seq<Item>, tail: seq<byte>)
    requires AreItems(items) && items != []
    ensures IsItem(items[0]) && AreItems(items[1..])
    ensures SpellItems(items) + tail == Spell(items[0]) + (SpellItems(items[1..]) + tail)
  {
    hide Spell, IsItem;
  }

  lemma {:induction false} ItemsRead(w: Widen, items: seq<Item>, tail: seq<byte>, depth: int)
    requires AreItems(items) && depth <= MAX_DEPTH + 1
    ensures DecodeItems(w, SpellItems(items) + tail, |items|, depth) ==
      Outcome(MeaningOfItems(w, items), DepthOfItems(items), tail, depth - 1)
    decreases items, 0
  {
    hide IsItem, Spell, SpellItems, Depth, Meaning, DecodeValue, DecodeItems;
    if items == [] {
      NoItems(w, tail, depth);
    } else {
      ItemsCons(items, tail);
      var rest := SpellItems(items[1..]) + tail;
      SpellingReads(w, items[0], rest, depth);
      ItemsRead(w, items[1..], tail, depth);
      DecodeItemsStep(w, Spell(items[0]) + rest, |items|, depth);
    }
  }

  lemma NoItems(w: Widen, tail: seq<byte>, depth: int)
    ensures SpellItems([]) + tail == tail && DecodeItems(w, tail, 0, depth) == Ok(Parsed([], tail))
  {
  }

  lemma {:induction false} ToBreakStep(w: Widen, s: seq<byte>, depth: int)
    requires s != [] && s[0] != 0xff
    ensures DecodeItemsToBreak(w, s, depth) ==
      match DecodeValue(w, s, depth)
      case Err(e) => Err(e)
      case Ok(v) =>
        match DecodeItemsToBreak(w, v.rest, depth)
        case Err(e) => Err(e)
        case Ok(more) => Ok(Parsed([v.value] + more.value, more.rest))
  {
    hide DecodeValue;
  }

  lemma AtBreakEnds(w: Widen, tail: seq<byte>, depth: int)
    ensures DecodeItemsToBreak(w, [BREAK] + tail, depth) == Ok(Parsed([], tail))
    ensures DecodeEntriesToBreak(w, [BREAK] + tail, depth) == Ok(Parsed([], tail))
  {
    assert ([BREAK] + tail)[1..] == tail;
  }

  lemma {:induction false} OpenItemsRead(w: Widen, items: seq<Item>, tail: seq<byte>, depth: int)
    requires AreItems(items) && depth <= MAX_DEPTH + 1
    ensures DecodeItemsToBreak(w, SpellItems(items) + ([BREAK] + tail), depth) ==
      Outcome(MeaningOfItems(w, items), DepthOfItems(items), tail, depth - 1)
    decreases items, 0
  {
    hide IsItem, Spell, SpellItems, Depth, Meaning, DecodeValue, DecodeItemsToBreak;
    if items == [] {
      NoItems(w, [BREAK] + tail, depth);
      AtBreakEnds(w, tail, depth);
    } else {
      ItemsCons(items, [BREAK] + tail);
      var rest := SpellItems(items[1..]) + ([BREAK] + tail);
      NotBreak(items[0], rest);
      SpellingReads(w, items[0], rest, depth);
      OpenItemsRead(w, items[1..], tail, depth);
      ToBreakStep(w, Spell(items[0]) + rest, depth);
    }
  }

  lemma RowsCons(rows: seq<Row>, tail: seq<byte>)
    requires AreRows(rows) && rows != []
    ensures IsRow(rows[0]) && AreRows(rows[1..])
    ensures SpellRows(rows) + tail == SpellRow(rows[0]) + (SpellRows(rows[1..]) + tail)
  {
    hide SpellRow, IsRow;
  }

  lemma {:induction false} EntryStep(w: Widen, s: seq<byte>, depth: int)
    ensures DecodeEntry(w, s, depth) ==
      match DecodeValue(w, s, depth)
      case Err(e) => Err(e)
      case Ok(k) =>
        match DecodeValue(w, k.rest, depth)
        case Err(e) => Err(e)
        case Ok(v) => Ok(Parsed(Entry(k.value, v.value), v.rest))
  {
    hide DecodeValue;
  }

  lemma {:induction false} RowReads(w: Widen, r: Row, tail: seq<byte>, depth: int)
    requires IsRow(r) && depth <= MAX_DEPTH + 1
    ensures DecodeEntry(w, SpellRow(r) + tail, depth) == Outcome(MeaningOfRow(w, r), DepthOfRow(r), tail, depth - 1)
    decreases r, 0
  {
    hide Spell, Depth, Meaning, DecodeValue, DecodeEntry;
    var s, rest := SpellRow(r) + tail, Spell(r.val) + tail;
    assert s == Spell(r.key) + rest;
    SpellingReads(w, r.key, rest, depth);
    SpellingReads(w, r.val, tail, depth);
    EntryStep(w, s, depth);
  }

  lemma {:induction false} RowsRead(w: Widen, rows: seq<Row>, tail: seq<byte>, depth: int)
    requires AreRows(rows) && depth <= MAX_DEPTH + 1
    ensures DecodeEntries(w, SpellRows(rows) + tail, |rows|, depth) ==
      Outcome(MeaningOfRows(w, rows), DepthOfRows(rows), tail, depth - 1)
    decreases rows, 0
  {
    hide IsRow, SpellRow, SpellRows, DepthOfRow, MeaningOfRow, DecodeEntry, DecodeEntries;
    if rows == [] {
      NoRows(w, tail, depth);
    } else {
      RowsCons(rows, tail);
      var rest := SpellRows(rows[1..]) + tail;
      RowReads(w, rows[0], rest, depth);
      RowsRead(w, rows[1..], tail, depth);
      DecodeEntriesStep(w, SpellRow(rows[0]) + rest, |rows|, depth);
    }
  }

  lemma NoRows(w: Widen, tail: seq<byte>, depth: int)
    ensures SpellRows([]) + tail == tail && DecodeEntries(w, tail, 0, depth) == Ok(Parsed([], tail))
  {
  }

  lemma {:induction false} RowsToBreakStep(w: Widen, s: seq<byte>, depth: int)
    requires s != [] && s[0] != 0xff
    ensures DecodeEntriesToBreak(w, s, depth) ==
      match DecodeEntry(w, s, depth)
      case Err(e) => Err(e)
      case Ok(entry) =>
        match DecodeEntriesToBreak(w, entry.rest, depth)
        case Err(e) => Err(e)
        case Ok(more) => Ok(Parsed([entry.value] + more.value, more.rest))
  {
    hide DecodeEntry;
  }

  lemma {:induction false} OpenRowsRead(w: Widen, rows: seq<Row>, tail: seq<byte>, depth: int)
    requires AreRows(rows) && depth <= MAX_DEPTH + 1
    ensures DecodeEntriesToBreak(w, SpellRows(rows) + ([BREAK] + tail), depth) ==
      Outcome(MeaningOfRows(w, rows), DepthOfRows(rows), tail, depth - 1)
    decreases rows, 0
  {
    hide IsRow, SpellRow, SpellRows, DepthOfRow, MeaningOfRow, DecodeEntry, DecodeEntriesToBreak;
    if rows == [] {
      NoRows(w, [BREAK] + tail, depth);
      AtBreakEnds(w, tail, depth);
    } else {
      RowsCons(rows, [BREAK] + tail);
      var rest := SpellRows(rows[1..]) + ([BREAK] + tail);
      RowNotBreak(rows[0], rest);
      RowReads(w, rows[0], rest, depth);
      OpenRowsRead(w, rows[1..], tail, depth);
      RowsToBreakStep(w, SpellRow(rows[0]) + rest, depth);
    }
  }

  lemma RowNotBreak(r: Row, tail: seq<byte>)
    requires IsRow(r)
    ensures (SpellRow(r) + tail) != [] && (SpellRow(r) + tail)[0] != BREAK
  {
    NotBreak(r.key, Spell(r.val) + tail);
    hide Spell;
    assert SpellRow(r) + tail == Spell(r.key) + (Spell(r.val) + tail);
  }

  // ---------- The decoder reads nothing else ----------

  /** The head behind an argument that was read. */
  lemma HeadRead(s: seq<byte>) returns (h: Head)
    requires s != [] && Arg(s[1..], s[0] % 32).Ok?
    ensures IsHead(h) && Info(h) == s[0] % 32 && Number(h) == Arg(s[1..], s[0] % 32).value.value
    ensures s == SpellHead(s[0] / 32, h) + Arg(s[1..], s[0] % 32).value.rest
  {
    hide Arg, Number, SpellHead;
    var t, info := s[1..], s[0] % 32;
    ArgParts(t, info);
    var k := if info < 24 then 0 else Width(info);
    h := if info < 24 then Short(info) else Long(t[..k]);
    assert t == Digits(h) + t[k..];
    ArgReads(h, t[k..]);
    HeadSplit(s, h, t[k..]);
  }

  lemma HeadSplit(s: seq<byte>, h: Head, rest: seq<byte>)
    requires s != [] && IsHead(h) && Info(h) == s[0] % 32 && s[1..] == Digits(h) + rest
    ensures s == SpellHead(s[0] / 32, h) + rest
  {
    hide Digits;
    assert s == [s[0]] + s[1..];
  }

  /** How many bytes an information value of 24 to 27 announces. */
  function Width(info: nat): nat {
    if info == 24 then 1 else if info == 25 then 2 else if info == 26 then 4 else 8
  }

  lemma ArgParts(t: seq<byte>, info: nat)
    requires Arg(t, info).Ok?
    ensures info <= 27 && (info >= 24 ==> |t| >= Width(info))
  {
    hide Val;
  }

  lemma DefiniteRead(s: seq<byte>) returns (h: Head)
    requires s != [] && DefiniteString(s[1..], s[0] % 32).Ok?
    ensures var p := DefiniteString(s[1..], s[0] % 32).value;
      IsHead(h) && Number(h) == |p.value| && s == SpellHead(s[0] / 32, h) + (p.value + p.rest)
  {
    hide Arg, SpellHead, Number, Info, IsHead;
    h := HeadRead(s);
    var a := Arg(s[1..], s[0] % 32).value;
    assert a.rest == a.rest[..a.value] + a.rest[a.value..];
  }

  lemma {:induction false} ChunksSpelled(s: seq<byte>, major: nat) returns (cs: seq<Chunk>)
    requires major < 8 && Chunks(s, major).Ok?
    ensures var p := Chunks(s, major).value;
      AreChunks(cs) && Data(cs) == p.value && s == SpellChunks(major, cs) + ([BREAK] + p.rest)
    decreases |s|
  {
    var p := Chunks(s, major).value;
    if s[0] == 0xff {
      cs := [];
      assert s == [BREAK] + p.rest;
    } else {
      hide DefiniteString, SpellHead, Number;
      ChunksStep(s, major);
      var h := DefiniteRead(s);
      var chunk := DefiniteString(s[1..], s[0] % 32).value;
      var more := ChunksSpelled(chunk.rest, major);
      cs := [Chunk(h, chunk.value)] + more;
      assert cs[1..] == more;
      ConsChunks(Chunk(h, chunk.value), more);
      var after := [BREAK] + p.rest;
      assert s == SpellHead(major, h) + (chunk.value + (SpellChunks(major, more) + after));
      Regroup(SpellHead(major, h), chunk.value, SpellChunks(major, more) + after);
      Regroup(SpellHead(major, h) + chunk.value, SpellChunks(major, more), after);
    }
  }

  lemma ConsChunks(c: Chunk, more: seq<Chunk>)
    requires IsChunk(c) && AreChunks(more)
    ensures AreChunks([c] + more)
  {
    hide IsChunk;
  }

  /** `x` spells the front of `s`, means what was decoded, and stays within the depth limit. */
  predicate Explains(w: Widen, x: Item, s: seq<byte>, p: Parsed<Value>, depth: int) {
    IsItem(x) && s == Spell(x) + p.rest && Meaning(w, x) == p.value && depth + Depth(x) <= MAX_DEPTH
  }

  predicate ExplainsItems(w: Widen, xs: seq<Item>, s: seq<byte>, p: Parsed<seq<Value>>, depth: int) {
    && AreItems(xs) && s == SpellItems(xs) + p.rest && MeaningOfItems(w, xs) == p.value
    && depth - 1 + DepthOfItems(xs) <= MAX_DEPTH
  }

  predicate ExplainsRows(w: Widen, rows: seq<Row>, s: seq<byte>, p: Parsed<seq<Entry>>, depth: int) {
    && AreRows(rows) && s == SpellRows(rows) + p.rest && MeaningOfRows(w, rows) == p.value
    && depth - 1 + DepthOfRows(rows) <= MAX_DEPTH
  }

  lemma IntegerSpelled(w: Widen, s: seq<byte>, depth: int) returns (x: Item)
    requires DecodeValue(w, s, depth).Ok? && s != [] && s[0] / 32 <= 1
    ensures Explains(w, x, s, DecodeValue(w, s, depth).value, depth)
  {
    DecodedStarts(w, s, depth);
    ArgOfInteger(w, s, depth);
    hide DecodeValue, Arg, Number, SpellHead, IsHead;
    var h := HeadRead(s);
    x := if s[0] / 32 == 0 then Natural(h) else Negative(h);
    IntegerDecodes(w, s, Number(h), DecodeValue(w, s, depth).value.rest, depth);
  }

  lemma ArgOfInteger(w: Widen, s: seq<byte>, depth: int)
    requires DecodeValue(w, s, depth).Ok? && s != [] && s[0] / 32 <= 1
    ensures Arg(s[1..], s[0] % 32).Ok? && Arg(s[1..], s[0] % 32).value.rest == DecodeValue(w, s, depth).value.rest
  {
    hide Arg, StringBody, Utf8.Decode, DecodeArray, DecodeMap, Simple;
  }

  lemma ExplainString(w: Widen, x: Item, s: seq<byte>, rest: seq<byte>, depth: int)
    requires IsItem(x) && depth <= MAX_DEPTH
    requires x.ByteString? ==> s == SpellHead(2, x.head) + (x.data + rest)
    requires x.TextString? ==> s == SpellHead(3, x.head) + (Utf8.Encode(x.text) + rest)
    requires x.ByteString? || x.TextString?
    ensures Explains(w, x, s, Parsed(Meaning(w, x), rest), depth)
  {
    hide SpellHead, Number, IsHead, Utf8.Encode;
  }

  lemma ExplainChunks(w: Widen, x: Item, s: seq<byte>, rest: seq<byte>, depth: int)
    requires IsItem(x) && depth < MAX_DEPTH && s != []
    requires x.ByteChunks? ==> s[0] == 0x5f && s[1..] == SpellChunks(2, x.chunks) + ([BREAK] + rest)
    requires x.TextChunks? ==> s[0] == 0x7f && s[1..] == SpellChunks(3, x.chunks) + ([BREAK] + rest)
    requires x.ByteChunks? || x.TextChunks?
    ensures Explains(w, x, s, Parsed(Meaning(w, x), rest), depth)
  {
    hide SpellChunks, Data, AreChunks, Utf8.Encode;
    assert s == [s[0]] + s[1..];
  }

  lemma DefiniteSpelled(w: Widen, s: seq<byte>, depth: int) returns (x: Item)
    requires DecodeValue(w, s, depth).Ok? && s != [] && 2 <= s[0] / 32 <= 3 && s[0] % 32 != 31
    ensures Explains(w, x, s, DecodeValue(w, s, depth).value, depth)
  {
    hide DecodeValue, DefiniteString, Chunks, Number, SpellHead, IsHead, Utf8.Encode, Utf8.Decode, Explains;
    DecodedStarts(w, s, depth);
    ByMajor(w, s, depth);
    var h := DefiniteRead(s);
    var body := DefiniteString(s[1..], s[0] % 32).value;
    if s[0] / 32 == 2 {
      x := ByteString(h, body.value);
    } else {
      Utf8.DecodeThenEncode(body.value);
      x := TextString(h, Utf8.Decode(body.value).value);
    }
    ExplainString(w, x, s, body.rest, depth);
  }

  lemma ChunkedSpelled(w: Widen, s: seq<byte>, depth: int) returns (x: Item)
    requires DecodeValue(w, s, depth).Ok? && s != [] && 2 <= s[0] / 32 <= 3 && s[0] % 32 == 31
    ensures Explains(w, x, s, DecodeValue(w, s, depth).value, depth)
  {
    hide DecodeValue, Chunks, Utf8.Encode, Utf8.Decode, Explains, SpellChunks, AreChunks, Data;
    DecodedStarts(w, s, depth);
    ByMajor(w, s, depth);
    var major := s[0] / 32;
    var cs := ChunksSpelled(s[1..], major);
    var body := Chunks(s[1..], major).value;
    if major == 2 {
      x := ByteChunks(cs);
    } else {
      Utf8.DecodeThenEncode(body.value);
      x := TextChunks(cs, Utf8.Decode(body.value).value);
    }
    ExplainChunks(w, x, s, body.rest, depth);
  }

  lemma StringSpelled(w: Widen, s: seq<byte>, depth: int) returns (x: Item)
    requires DecodeValue(w, s, depth).Ok? && s != [] && 2 <= s[0] / 32 <= 3
    ensures Explains(w, x, s, DecodeValue(w, s, depth).value, depth)
  {
    hide DecodeValue, Explains;
    if s[0] % 32 == 31 {
      x := ChunkedSpelled(w, s, depth);
    } else {
      x := DefiniteSpelled(w, s, depth);
    }
  }

  lemma SimpleParts(w: Widen, t: seq<byte>, info: nat)
    requires Simple(w, t, info).Ok?
    ensures 20 <= info <= 27 && (info == 24 ==> t != [] && t[0] >= 32)
    ensures info >= 24 ==> |t| >= Width(info)
  {
    hide Val;
  }

  lemma ByteSimple(w: Widen, b: byte, tail: seq<byte>)
    requires b >= 32
    ensures Simple(w, [b] + tail, 24) == Ok(Parsed(Integer(b as i128), tail))
  {
    assert ([b] + tail)[1..] == tail;
  }

  lemma ExplainSimple(w: Widen, x: Item, s: seq<byte>, rest: seq<byte>, depth: int)
    requires IsItem(x) && depth <= MAX_DEPTH && (IsWord(x) || IsFloat(x) || x.SimpleByte?)
    requires s == Spell(x) + rest
    ensures Explains(w, x, s, Parsed(Meaning(w, x), rest), depth)
  {
  }

  lemma SimpleSpelled(w: Widen, s: seq<byte>, depth: int) returns (x: Item)
    requires DecodeValue(w, s, depth).Ok? && s != [] && s[0] / 32 == 7
    ensures Explains(w, x, s, DecodeValue(w, s, depth).value, depth)
  {
    hide DecodeValue, Simple, Explains, Spell, Meaning, IsItem;
    DecodedStarts(w, s, depth);
    ByMajor(w, s, depth);
    var t, info := s[1..], s[0] % 32;
    SimpleParts(w, t, info);
    assert s == [s[0]] + t;
    if info <= 23 {
      x := WordSpelled(w, s);
      ExplainSimple(w, x, s, t, depth);
    } else if info == 24 {
      x := ByteSpelled(w, s);
      ExplainSimple(w, x, s, t[1..], depth);
    } else {
      x := FloatSpelled(w, s);
      ExplainSimple(w, x, s, s[1 + |x.digits|..], depth);
    }
  }

  lemma WordSpelled(w: Widen, s: seq<byte>) returns (x: Item)
    requires s != [] && s[0] / 32 == 7 && 20 <= s[0] % 32 <= 23
    ensures IsItem(x) && IsWord(x) && s == Spell(x) + s[1..]
    ensures Simple(w, s[1..], s[0] % 32) == Ok(Parsed(Meaning(w, x), s[1..]))
  {
    hide Simple, Spell, Meaning, IsItem;
    var info := s[0] % 32;
    x := if info == 20 then False else if info == 21 then True else if info == 22 then Nil else Undefined;
    WordIs(w, x, s[1..]);
    assert s == [s[0]] + s[1..];
  }

  lemma ByteSpelled(w: Widen, s: seq<byte>) returns (x: Item)
    requires |s| >= 2 && s[0] / 32 == 7 && s[0] % 32 == 24 && s[1] >= 32
    ensures IsItem(x) && x.SimpleByte? && s == Spell(x) + s[1..][1..]
    ensures Simple(w, s[1..], 24) == Ok(Parsed(Meaning(w, x), s[1..][1..]))
  {
    x := SimpleByte(s[1]);
    var t := s[1..];
    assert t == [t[0]] + t[1..] && s == [s[0], s[1]] + t[1..];
    ByteSimple(w, t[0], t[1..]);
    hide Simple;
  }

  function FloatItem(info: nat, digits: seq<byte>): Item {
    if info == 25 then HalfFloat(digits) else if info == 26 then SingleFloat(digits) else DoubleFloat(digits)
  }

  lemma FloatIs(info: nat, digits: seq<byte>)
    requires 25 <= info <= 27 && |digits| == Width(info)
    ensures var x := FloatItem(info, digits);
      IsItem(x) && IsFloat(x) && x.digits == digits && Spell(x) == [0xe0 + info] + digits
  {
  }

  lemma FloatSimple(w: Widen, info: nat, digits: seq<byte>, rest: seq<byte>)
    requires 25 <= info <= 27 && |digits| == Width(info)
    ensures IsItem(FloatItem(info, digits))
    ensures Simple(w, digits + rest, info) == Ok(Parsed(Meaning(w, FloatItem(info, digits)), rest))
  {
    hide Val, Simple;
    if info == 25 {
      HalfSimple(w, digits, rest);
    } else if info == 26 {
      SingleSimple(w, digits, rest);
    } else {
      DoubleSimple(w, digits, rest);
    }
  }

  lemma FloatSpelled(w: Widen, s: seq<byte>) returns (x: Item)
    requires s != [] && s[0] / 32 == 7 && 25 <= s[0] % 32 <= 27 && |s| > Width(s[0] % 32)
    ensures IsItem(x) && IsFloat(x) && |x.digits| < |s|
    ensures s == Spell(x) + s[1 + |x.digits|..]
    ensures Simple(w, s[1..], s[0] % 32) == Ok(Parsed(Meaning(w, x), s[1 + |x.digits|..]))
  {
    hide Spell, Meaning, IsItem, IsFloat, Simple, FloatItem;
    var info := s[0] % 32;
    var k := Width(info);
    var digits, rest := s[1..1 + k], s[1 + k..];
    assert s[1..] == digits + rest && s == [s[0]] + digits + rest;
    x := FloatItem(info, digits);
    FloatIs(info, digits);
    FloatSimple(w, info, digits, rest);
  }

  /** What an array, a map or a tag was read from. */
  lemma ArrayParts(w: Widen, s: seq<byte>, depth: int)
    requires DecodeValue(w, s, depth).Ok? && s != [] && s[0] / 32 == 4
    ensures var p := DecodeValue(w, s, depth).value;
      if s[0] % 32 == 31 then
        var items := DecodeItemsToBreak(w, s[1..], depth + 1);
        items.Ok? && p == Parsed(Array(items.value.value), items.value.rest)
      else
        Arg(s[1..], s[0] % 32).Ok? &&
        var a := Arg(s[1..], s[0] % 32).value;
        var items := DecodeItems(w, a.rest, a.value, depth + 1);
        items.Ok? && p == Parsed(Array(items.value.value), items.value.rest)
  {
    hide Arg, StringBody, Utf8.Decode, DecodeMap, Simple, DecodeItems, DecodeItemsToBreak;
  }

  lemma MapParts(w: Widen, s: seq<byte>, depth: int)
    requires DecodeValue(w, s, depth).Ok? && s != [] && s[0] / 32 == 5
    ensures var p := DecodeValue(w, s, depth).value;
      if s[0] % 32 == 31 then
        var rows := DecodeEntriesToBreak(w, s[1..], depth + 1);
        rows.Ok? && p == Parsed(Map(rows.value.value), rows.value.rest)
      else
        Arg(s[1..], s[0] % 32).Ok? &&
        var a := Arg(s[1..], s[0] % 32).value;
        var rows := DecodeEntries(w, a.rest, a.value, depth + 1);
        rows.Ok? && p == Parsed(Map(rows.value.value), rows.value.rest)
  {
    hide Arg, StringBody, Utf8.Decode, DecodeArray, Simple, DecodeEntries, DecodeEntriesToBreak;
  }

  lemma {:induction false} TagParts(w: Widen, s: seq<byte>, depth: int)
    requires DecodeValue(w, s, depth).Ok? && s != [] && s[0] / 32 == 6
    ensures Arg(s[1..], s[0] % 32).Ok?
    ensures var a := Arg(s[1..], s[0] % 32).value;
      var inner := DecodeValue(w, a.rest, depth + 1);
      inner.Ok? && DecodeValue(w, s, depth).value == Parsed(Tag(a.value, inner.value.value), inner.value.rest)
  {
    hide Arg, StringBody, Utf8.Decode, DecodeArray, DecodeMap, Simple;
  }

  /** Whatever the decoder accepts is a spelling of the value it gives, and what is left is what follows it. */
  lemma {:induction false} DecodedIsSpelled(w: Widen, s: seq<byte>, depth: int) returns (x: Item)
    requires DecodeValue(w, s, depth).Ok?
    ensures Explains(w, x, s, DecodeValue(w, s, depth).value, depth)
    decreases |s|, 4
  {
    hide DecodeValue, Explains;
    DecodedStarts(w, s, depth);
    var major := s[0] / 32;
    if major <= 1 {
      x := IntegerSpelled(w, s, depth);
    } else if major <= 3 {
      x := StringSpelled(w, s, depth);
    } else if major == 4 {
      x := ArraySpelled(w, s, depth);
    } else if major == 5 {
      x := MapSpelled(w, s, depth);
    } else if major == 6 {
      x := TagSpelled(w, s, depth);
    } else {
      x := SimpleSpelled(w, s, depth);
    }
  }

  lemma {:induction false} ArraySpelled(w: Widen, s: seq<byte>, depth: int) returns (x: Item)
    requires DecodeValue(w, s, depth).Ok? && s != [] && s[0] / 32 == 4
    ensures Explains(w, x, s, DecodeValue(w, s, depth).value, depth)
    decreases |s|, 3
  {
    hide DecodeValue, DecodeItems, DecodeItemsToBreak, Arg, SpellHead, Number, IsHead, SpellItems, MeaningOfItems,
      DepthOfItems;
    DecodedStarts(w, s, depth);
    ArrayParts(w, s, depth);
    var p := DecodeValue(w, s, depth).value;
    if s[0] % 32 == 31 {
      var items := OpenItemsSpelled(w, s[1..], depth + 1);
      x := OpenList(items);
      assert s == [s[0]] + s[1..];
    } else {
      var h := HeadRead(s);
      var a := Arg(s[1..], s[0] % 32).value;
      var items := ItemsSpelled(w, a.rest, a.value, depth + 1);
      x := List(h, items);
    }
  }

  lemma {:induction false} MapSpelled(w: Widen, s: seq<byte>, depth: int) returns (x: Item)
    requires DecodeValue(w, s, depth).Ok? && s != [] && s[0] / 32 == 5
    ensures Explains(w, x, s, DecodeValue(w, s, depth).value, depth)
    decreases |s|, 3
  {
    hide DecodeValue, DecodeEntries, DecodeEntriesToBreak, Arg, SpellHead, Number, IsHead, SpellRows, MeaningOfRows,
      DepthOfRows;
    DecodedStarts(w, s, depth);
    MapParts(w, s, depth);
    if s[0] % 32 == 31 {
      var rows := OpenRowsSpelled(w, s[1..], depth + 1);
      x := OpenTable(rows);
      assert s == [s[0]] + s[1..];
    } else {
      var h := HeadRead(s);
      var a := Arg(s[1..], s[0] % 32).value;
      var rows := RowsSpelled(w, a.rest, a.value, depth + 1);
      x := Table(h, rows);
    }
  }

  lemma ExplainTag(w: Widen, h: Head, inner: Item, s: seq<byte>, body: seq<byte>, p: Parsed<Value>, depth: int)
    requires IsHead(h) && s == SpellHead(6, h) + body && Explains(w, inner, body, p, depth + 1)
    ensures Number(h) < TWO_64 && Explains(w, Tagged(h, inner), s, Parsed(Tag(Number(h), p.value), p.rest), depth)
  {
    NumberBound(h);
    hide SpellHead, Number, IsHead;
    Regroup(SpellHead(6, h), Spell(inner), p.rest);
  }

  lemma {:induction false} TagSpelled(w: Widen, s: seq<byte>, depth: int) returns (x: Item)
    requires DecodeValue(w, s, depth).Ok? && s != [] && s[0] / 32 == 6
    ensures Explains(w, x, s, DecodeValue(w, s, depth).value, depth)
    decreases |s|, 3
  {
    TagParts(w, s, depth);
    hide DecodeValue, Arg, SpellHead, Number, IsHead, Explains;
    var h := HeadRead(s);
    var a := Arg(s[1..], s[0] % 32).value;
    var inner := DecodedIsSpelled(w, a.rest, depth + 1);
    x := Tagged(h, inner);
    ExplainTag(w, h, inner, s, a.rest, DecodeValue(w, a.rest, depth + 1).value, depth);
  }

  lemma {:induction false} ItemsSpelled(w: Widen, s: seq<byte>, n: nat, depth: int) returns (xs: seq<Item>)
    requires DecodeItems(w, s, n, depth).Ok? && depth <= MAX_DEPTH + 1
    ensures |xs| == n && ExplainsItems(w, xs, s, DecodeItems(w, s, n, depth).value, depth)
    decreases |s|, 5, n
  {
    hide DecodeValue, DecodeItems, Spell, Meaning, Depth, IsItem;
    if n == 0 {
      xs := [];
      NoItems(w, s, depth);
    } else {
      DecodeItemsStep(w, s, n, depth);
      var v := DecodeValue(w, s, depth).value;
      var x := DecodedIsSpelled(w, s, depth);
      var more := ItemsSpelled(w, v.rest, n - 1, depth);
      xs := [x] + more;
      assert xs[1..] == more;
      Regroup(Spell(x), SpellItems(more), DecodeItems(w, s, n, depth).value.rest);
    }
  }

  lemma {:induction false} OpenItemsSpelled(w: Widen, s: seq<byte>, depth: int) returns (xs: seq<Item>)
    requires DecodeItemsToBreak(w, s, depth).Ok? && depth <= MAX_DEPTH + 1
    ensures var p := DecodeItemsToBreak(w, s, depth).value;
      ExplainsItems(w, xs, s, Parsed(p.value, [BREAK] + p.rest), depth)
    decreases |s|, 5
  {
    NotEmptyToBreak(w, s, depth);
    hide DecodeValue, DecodeItemsToBreak, Spell, Meaning, Depth, IsItem;
    if s[0] == 0xff {
      xs := [];
      assert s == [BREAK] + s[1..];
      AtBreakEnds(w, s[1..], depth);
    } else {
      ToBreakStep(w, s, depth);
      var v := DecodeValue(w, s, depth).value;
      var x := DecodedIsSpelled(w, s, depth);
      var more := OpenItemsSpelled(w, v.rest, depth);
      xs := [x] + more;
      assert xs[1..] == more;
      Regroup(Spell(x), SpellItems(more), [BREAK] + DecodeItemsToBreak(w, s, depth).value.rest);
    }
  }

  lemma NotEmptyToBreak(w: Widen, s: seq<byte>, depth: int)
    ensures DecodeItemsToBreak(w, s, depth).Ok? ==> s != []
    ensures DecodeEntriesToBreak(w, s, depth).Ok? ==> s != []
  {
  }

  lemma {:induction false} RowSpelled(w: Widen, s: seq<byte>, depth: int) returns (r: Row)
    requires DecodeEntry(w, s, depth).Ok? && depth <= MAX_DEPTH + 1
    ensures var p := DecodeEntry(w, s, depth).value;
      IsRow(r) && s == SpellRow(r) + p.rest && MeaningOfRow(w, r) == p.value && depth - 1 + DepthOfRow(r) <= MAX_DEPTH
    decreases |s|, 5
  {
    hide DecodeValue, DecodeEntry, Spell, Meaning, Depth, IsItem;
    EntryStep(w, s, depth);
    var k := DecodedIsSpelled(w, s, depth);
    var rest := DecodeValue(w, s, depth).value.rest;
    var v := DecodedIsSpelled(w, rest, depth);
    r := Row(k, v);
    Regroup(Spell(k), Spell(v), DecodeEntry(w, s, depth).value.rest);
  }

  lemma {:induction false} RowsSpelled(w: Widen, s: seq<byte>, n: nat, depth: int) returns (rows: seq<Row>)
    requires DecodeEntries(w, s, n, depth).Ok? && depth <= MAX_DEPTH + 1
    ensures |rows| == n && ExplainsRows(w, rows, s, DecodeEntries(w, s, n, depth).value, depth)
    decreases |s|, 6, n
  {
    hide DecodeEntry, DecodeEntries, SpellRow, MeaningOfRow, DepthOfRow, IsRow;
    if n == 0 {
      rows := [];
      NoRows(w, s, depth);
    } else {
      DecodeEntriesStep(w, s, n, depth);
      var e := DecodeEntry(w, s, depth).value;
      var r := RowSpelled(w, s, depth);
      var more := RowsSpelled(w, e.rest, n - 1, depth);
      rows := [r] + more;
      assert rows[1..] == more;
      Regroup(SpellRow(r), SpellRows(more), DecodeEntries(w, s, n, depth).value.rest);
    }
  }

  lemma {:induction false} OpenRowsSpelled(w: Widen, s: seq<byte>, depth: int) returns (rows: seq<Row>)
    requires DecodeEntriesToBreak(w, s, depth).Ok? && depth <= MAX_DEPTH + 1
    ensures var p := DecodeEntriesToBreak(w, s, depth).value;
      ExplainsRows(w, rows, s, Parsed(p.value, [BREAK] + p.rest), depth)
    decreases |s|, 6
  {
    NotEmptyToBreak(w, s, depth);
    hide DecodeEntry, DecodeEntriesToBreak, SpellRow, MeaningOfRow, DepthOfRow, IsRow;
    if s[0] == 0xff {
      rows := [];
      assert s == [BREAK] + s[1..];
      AtBreakEnds(w, s[1..], depth);
    } else {
      RowsToBreakStep(w, s, depth);
      var e := DecodeEntry(w, s, depth).value;
      var r := RowSpelled(w, s, depth);
      var more := OpenRowsSpelled(w, e.rest, depth);
      rows := [r] + more;
      assert rows[1..] == more;
      Regroup(SpellRow(r), SpellRows(more), [BREAK] + DecodeEntriesToBreak(w, s, depth).value.rest);
    }
  }

  /** The buffer starts with a spelling of the value that nests at most 128 levels. */
  ghost predicate StartsWith(w: Widen, s: seq<byte>, v: Value) {
    exists x :: IsItem(x) && Spell(x) <= s && Meaning(w, x) == v && Depth(x) <= MAX_DEPTH
  }

  /** A buffer decodes to a value exactly if it starts with a spelling of it. */
  lemma DecodeExactly(w: Widen, s: seq<byte>, v: Value)
    ensures Decode(w, s) == Ok(v) <==> StartsWith(w, s, v)
  {
    hide DecodeValue, IsItem, Spell, Meaning, Depth;
    if Decode(w, s) == Ok(v) {
      var x := DecodedIsSpelled(w, s, 0);
    }
    if x :| IsItem(x) && Spell(x) <= s && Meaning(w, x) == v && Depth(x) <= MAX_DEPTH {
      var tail := s[|Spell(x)|..];
      assert s == Spell(x) + tail;
      SpellingReads(w, x, tail, 0);
    }
  }
}
