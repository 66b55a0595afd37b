/**
 * How the CBOR encoder spells a value: every head is the shortest that can hold its number, every length is
 * announced, and floats take eight bytes.
 */
module CborPlain {
  import opened Common
  import Radix
  import opened Cbor
  import opened CborLaws
  import opened CborSyntax
  import Utf8

  /** No head announces the same number in fewer bytes. */
  ghost predicate Shortest(h: Head) {
    && IsHead(h)
    && forall g: Head :: IsHead(g) && Number(g) == Number(h) ==> |CborSyntax.Digits(h)| <= |CborSyntax.Digits(g)|
  }

  /** Only shortest heads, no indefinite lengths, no undefined, no unassigned simple values, no narrow floats. */
  ghost predicate Plain(x: Item) {
    match x
    case Natural(h) => Shortest(h)
    case Negative(h) => Shortest(h)
    case ByteString(h, _) => Shortest(h)
    case TextString(h, _) => Shortest(h)
    case List(h, items) => Shortest(h) && forall y :: y in items ==> Plain(y)
    case Table(h, rows) => Shortest(h) && forall r :: r in rows ==> Plain(r.key) && Plain(r.val)
    case Tagged(h, inner) => Shortest(h) && Plain(inner)
    case False => true
    case True => true
    case Nil => true
    case DoubleFloat(_) => true
    case _ => false
  }

  // ---------- Heads ----------

  lemma HeaderFits(major: nat, arg: u64, g: Head)
    requires major < 8 && IsHead(g) && Number(g) == arg
    ensures |Header(major, arg)| <= 1 + |CborSyntax.Digits(g)|
  {
    if g.Long? {
      FromBePower(g.digits);
    }
    hide Radix.Val, ToBe;
  }

  /** `Header` writes the shortest head of its number. */
  lemma HeaderIsShortest(major: nat, arg: u64) returns (h: Head)
    requires major < 8
    ensures Shortest(h) && Number(h) == arg && Header(major, arg) == SpellHead(major, h)
  {
    hide ToBe, Arg, Number, Radix.Val, IsHead, Info;
    var s := Header(major, arg);
    HeaderRoundTrip(major, arg, []);
    assert s + [] == s;
    h := HeadRead(s);
    forall g: Head | IsHead(g) && Number(g) == Number(h) ensures |CborSyntax.Digits(h)| <= |CborSyntax.Digits(g)| {
      HeaderFits(major, arg, g);
    }
  }

  // ---------- Values ----------

  ghost predicate Spells(w: Widen, x: Item, v: Value) {
    Encodable(v) && IsItem(x) && Plain(x) && Meaning(w, x) == v && Spell(x) == Wire(v)
  }

  ghost predicate SpellsItems(w: Widen, xs: seq<Item>, items: seq<Value>) {
    && EncodableItems(items) && AreItems(xs) && (forall x :: x in xs ==> Plain(x))
    && MeaningOfItems(w, xs) == items && SpellItems(xs) == WireOfItems(items)
  }

  ghost predicate SpellsRows(w: Widen, rows: seq<Row>, entries: seq<Entry>) {
    && EncodableEntries(entries) && AreRows(rows) && (forall r :: r in rows ==> Plain(r.key) && Plain(r.val))
    && MeaningOfRows(w, rows) == entries && SpellRows(rows) == WireOfEntries(entries)
  }

  lemma IntegerIsSpelled(w: Widen, i: i128) returns (x: Item)
    requires -TWO_64 <= i < TWO_64
    ensures Spells(w, x, Integer(i))
  {
    hide Header, Number, SpellHead, Shortest;
    if i >= 0 {
      var h := HeaderIsShortest(0, i);
      ShortestIsHead(h);
      x := Natural(h);
    } else {
      var h := HeaderIsShortest(1, -i - 1);
      ShortestIsHead(h);
      x := Negative(h);
    }
  }

  lemma ShortestIsHead(h: Head)
    requires Shortest(h)
    ensures IsHead(h)
  {
  }

  lemma StringIsSpelled(w: Widen, v: Value) returns (x: Item)
    requires Encodable(v) && (v.Bytes? || v.Text?)
    ensures Spells(w, x, v)
  {
    hide Header, Number, SpellHead, Shortest, Utf8.Encode;
    if v.Bytes? {
      var h := HeaderIsShortest(2, |v.bytes|);
      ShortestIsHead(h);
      x := ByteString(h, v.bytes);
    } else {
      var h := HeaderIsShortest(3, |Utf8.Encode(v.text)|);
      ShortestIsHead(h);
      x := TextString(h, v.text);
    }
  }

  lemma FloatIsSpelled(w: Widen, bits: u64) returns (x: Item)
    ensures Spells(w, x, Float(bits))
  {
    FromBePower([]);
    assert bits < Radix.Pow(256, 8);
    BeRoundTrip(bits, 8);
    hide ToBe, Radix.Val, Radix.Pow;
    x := DoubleFloat(ToBe(bits, 8));
  }

  /** The bytes of a value are a plain spelling of it. */
  lemma {:induction false} WireIsPlain(w: Widen, v: Value) returns (x: Item)
    requires Encodable(v)
    ensures Spells(w, x, v)
    decreases v, 1
  {
    match v
    case Integer(i) => x := IntegerIsSpelled(w, i);
    case Bytes(_) => x := StringIsSpelled(w, v);
    case Text(_) => x := StringIsSpelled(w, v);
    case Float(bits) => x := FloatIsSpelled(w, bits);
    case Bool(b) => x := if b then True else False;
    case Null => x := Nil;
    case Array(items) =>
      var xs := ItemsArePlain(w, items);
      x := ListIsPlain(w, xs, v);
    case Map(entries) =>
      var rows := RowsArePlain(w, entries);
      x := TableIsPlain(w, rows, v);
    case Tag(_, inner) =>
      var y := WireIsPlain(w, inner);
      x := TaggedIsPlain(w, y, v);
  }

  lemma ListIsPlain(w: Widen, xs: seq<Item>, v: Value) returns (x: Item)
    requires v.Array? && Encodable(v) && SpellsItems(w, xs, v.items)
    ensures Spells(w, x, v)
  {
    hide Header, Number, SpellHead, Shortest, SpellItems, MeaningOfItems, WireOfItems;
    var h := HeaderIsShortest(4, |v.items|);
    ShortestIsHead(h);
    x := List(h, xs);
  }

  lemma TableIsPlain(w: Widen, rows: seq<Row>, v: Value) returns (x: Item)
    requires v.Map? && Encodable(v) && SpellsRows(w, rows, v.entries)
    ensures Spells(w, x, v)
  {
    hide Header, Number, SpellHead, Shortest, SpellRows, MeaningOfRows, WireOfEntries;
    var h := HeaderIsShortest(5, |v.entries|);
    ShortestIsHead(h);
    x := Table(h, rows);
  }

  lemma TaggedIsPlain(w: Widen, y: Item, v: Value) returns (x: Item)
    requires v.Tag? && Encodable(v) && Spells(w, y, v.inner)
    ensures Spells(w, x, v)
  {
    hide Header, Number, SpellHead, Shortest;
    var h := HeaderIsShortest(6, v.tag);
    ShortestIsHead(h);
    x := Tagged(h, y);
  }

  lemma {:induction false} ItemsArePlain(w: Widen, items: seq<Value>) returns (xs: seq<Item>)
    requires EncodableItems(items)
    ensures SpellsItems(w, xs, items)
    decreases items, 0
  {
    xs := [];
    if items != [] {
      var x := WireIsPlain(w, items[0]);
      var more := ItemsArePlain(w, items[1..]);
      xs := [x] + more;
      assert xs[1..] == more;
      hide Wire, Spell, Meaning, IsItem, Plain;
    }
  }

  lemma {:induction false} RowIsPlain(w: Widen, e: Entry) returns (r: Row)
    requires EncodableEntry(e)
    ensures IsRow(r) && Plain(r.key) && Plain(r.val) && MeaningOfRow(w, r) == e && SpellRow(r) == WireOfEntry(e)
    decreases e, 0
  {
    var k := WireIsPlain(w, e.key);
    var v := WireIsPlain(w, e.val);
    hide Wire, Spell, Meaning, IsItem, Plain;
    r := Row(k, v);
  }

  lemma {:induction false} RowsArePlain(w: Widen, entries: seq<Entry>) returns (rows: seq<Row>)
    requires EncodableEntries(entries)
    ensures SpellsRows(w, rows, entries)
    decreases entries, 0
  {
    rows := [];
    if entries != [] {
      var r := RowIsPlain(w, entries[0]);
      var more := RowsArePlain(w, entries[1..]);
      hide WireOfEntry, SpellRow, MeaningOfRow, IsRow, Plain;
      rows := [r] + more;
      assert rows[1..] == more;
    }
  }
}
