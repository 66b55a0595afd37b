/** The codec as the program runs it: an encoder that pushes onto a buffer and a decoder that advances a position. */
module CborCodec {
  import opened Common
  import opened Radix
  import opened Cbor
  import opened CborLaws
  import CborSyntax
  import Utf8

  /** `out: &mut Vec<u8>`. */
  class Sink {
    var data: seq<byte>

    constructor ()
      ensures data == []
    {
      data := [];
    }
  }

  method PutHeader(out: Sink, major: nat, arg: u64)
    requires major < 8
    modifies out
    ensures out.data == old(out.data) + Header(major, arg)
  {
    var mt := major * 32;
    if arg < 24 {
      out.data := out.data + [mt + arg];
    } else if arg <= 0xff {
      out.data := out.data + [mt + 24];
      out.data := out.data + [arg];
    } else if arg <= 0xffff {
      out.data := out.data + [mt + 25];
      out.data := out.data + ToBe(arg, 2);
    } else if arg <= 0xffff_ffff {
      out.data := out.data + [mt + 26];
      out.data := out.data + ToBe(arg, 4);
    } else {
      out.data := out.data + [mt + 27];
      out.data := out.data + ToBe(arg, 8);
    }
  }

  /** A header and then the payload, for byte and text strings. */
  method PutString(out: Sink, major: nat, b: seq<byte>)
    requires major < 8 && |b| < TWO_64
    modifies out
    ensures out.data == old(out.data) + (Header(major, |b|) + b)
  {
    PutHeader(out, major, |b|);
    out.data := out.data + b;
  }

  method PutInteger(out: Sink, i: i128) returns (fault: Option<Error>)
    modifies out
    ensures fault == Fault(Integer(i))
    ensures fault.None? ==> out.data == old(out.data) + Wire(Integer(i))
  {
    if i >= 0 {
      if i >= TWO_64 {
        return Some(Unrepresentable("integer above u64::MAX"));
      }
      PutHeader(out, 0, i);
    } else {
      var magnitude: int := -1 - (i as int);
      if magnitude >= TWO_64 {
        return Some(Unrepresentable("integer below -2^64"));
      }
      PutHeader(out, 1, magnitude);
    }
    fault := None;
  }

  method PutFloat(out: Sink, bits: u64)
    modifies out
    ensures out.data == old(out.data) + ([0xfb] + ToBe(bits, 8))
  {
    out.data := out.data + [0xfb];
    out.data := out.data + ToBe(bits, 8);
  }

  /** Appends exactly the wire form, or stops at the first integer that has none. */
  method EncodeInto(value: Value, out: Sink) returns (fault: Option<Error>)
    requires InMemory(value)
    modifies out
    ensures fault == Fault(value)
    ensures fault.None? ==> out.data == old(out.data) + Wire(value)
    decreases value, 1
  {
    fault := None;
    match value
    case Integer(i) => fault := PutInteger(out, i);
    case Bytes(b) => PutString(out, 2, b);
    case Text(t) => PutString(out, 3, Utf8.Encode(t));
    case Array(items) => fault := EncodeArrayInto(items, out);
    case Map(entries) => fault := EncodeMapInto(entries, out);
    case Tag(tag, inner) =>
      ghost var start := out.data;
      PutHeader(out, 6, tag);
      fault := EncodeInto(inner, out);
      assert fault.None? ==> out.data == start + (Header(6, tag) + Wire(inner));
    case Bool(b) => out.data := out.data + [if b then 0xf5 else 0xf4];
    case Null => out.data := out.data + [0xf6];
    case Float(bits) => PutFloat(out, bits);
  }

  method EncodeArrayInto(items: seq<Value>, out: Sink) returns (fault: Option<Error>)
    requires InMemory(Array(items))
    modifies out
    ensures fault == FaultOfItems(items)
    ensures fault.None? ==> out.data == old(out.data) + (Header(4, |items|) + WireOfItems(items))
    decreases items, 1
  {
    PutHeader(out, 4, |items|);
    fault := EncodeItemsInto(items, out);
  }

  method EncodeMapInto(entries: seq<Entry>, out: Sink) returns (fault: Option<Error>)
    requires InMemory(Map(entries))
    modifies out
    ensures fault == FaultOfEntries(entries)
    ensures fault.None? ==> out.data == old(out.data) + (Header(5, |entries|) + WireOfEntries(entries))
    decreases entries, 1
  {
    PutHeader(out, 5, |entries|);
    fault := EncodeEntriesInto(entries, out);
  }

  method EncodeItemsInto(items: seq<Value>, out: Sink) returns (fault: Option<Error>)
    requires forall x :: x in items ==> InMemory(x)
    modifies out
    ensures fault == FaultOfItems(items)
    ensures fault.None? ==> out.data == old(out.data) + WireOfItems(items)
    decreases items, 0
  {
    hide Wire, Fault, InMemory;
    ghost var start := out.data;
    var i := 0;
    while i < |items|
      invariant 0 <= i <= |items|
      invariant FaultOfItems(items) == FaultOfItems(items[i..])
      invariant FaultOfItems(items).None? ==> start + WireOfItems(items) == out.data + WireOfItems(items[i..])
    {
      ghost var left, before := items[i..], out.data;
      assert left[0] == items[i] && left[1..] == items[i + 1..];
      fault := EncodeInto(items[i], out);
      if fault.Some? {
        return;
      }
      assert FaultOfItems(items).None? ==>
          before + WireOfItems(left) == out.data + WireOfItems(items[i + 1..]) by {
        if FaultOfItems(items).None? {
          WireOfCons(left, []);
          assert WireOfItems(left) + [] == WireOfItems(left);
          assert WireOfItems(left[1..]) + [] == WireOfItems(left[1..]);
        }
      }
      i := i + 1;
    }
    fault := None;
  }

  method EncodeEntriesInto(entries: seq<Entry>, out: Sink) returns (fault: Option<Error>)
    requires forall e :: e in entries ==> InMemory(e.key) && InMemory(e.val)
    modifies out
    ensures fault == FaultOfEntries(entries)
    ensures fault.None? ==> out.data == old(out.data) + WireOfEntries(entries)
    decreases entries, 0
  {
    ghost var start := out.data;
    var i := 0;
    while i < |entries|
      invariant 0 <= i <= |entries|
      invariant FaultOfEntries(entries) == FaultOfEntries(entries[i..])
      invariant FaultOfEntries(entries).None? ==>
        start + WireOfEntries(entries) == out.data + WireOfEntries(entries[i..])
    {
      ghost var left, before := entries[i..], out.data;
      assert left[0] == entries[i] && left[1..] == entries[i + 1..];
      fault := EncodeEntryInto(entries[i], out);
      if fault.Some? {
        return;
      }
      assert FaultOfEntries(entries).None? ==>
          before + WireOfEntries(left) == out.data + WireOfEntries(entries[i + 1..]) by {
        if FaultOfEntries(entries).None? {
          WireOfConsEntry(left, []);
          assert WireOfEntries(left) + [] == WireOfEntries(left);
          assert WireOfEntries(left[1..]) + [] == WireOfEntries(left[1..]);
        }
      }
      i := i + 1;
    }
    fault := None;
  }

  method EncodeEntryInto(e: Entry, out: Sink) returns (fault: Option<Error>)
    requires InMemory(e.key) && InMemory(e.val)
    modifies out
    ensures fault == FaultOfEntry(e)
    ensures fault.None? ==> out.data == old(out.data) + WireOfEntry(e)
    decreases e, 0
  {
    fault := EncodeInto(e.key, out);
    if fault.None? {
      fault := EncodeInto(e.val, out);
    }
  }

  /** `encode`. */
  method Encode(value: Value) returns (r: Result<seq<byte>, Error>)
    requires InMemory(value)
    ensures r == if Fault(value).None? then Ok(Wire(value)) else Err(Fault(value).value)
  {
    var out := new Sink();
    var fault := EncodeInto(value, out);
    match fault
    case Some(e) => r := Err(e);
    case None =>
      assert out.data == [] + Wire(value) == Wire(value);
      r := Ok(out.data);
  }

  /** Elements already read, in front of what the rest of the input yields. */
  function Onto<T>(done: seq<T>, r: Parse<seq<T>>): Parse<seq<T>> {
    match r
    case Ok(p) => Ok(Parsed(done + p.value, p.rest))
    case Err(e) => Err(e)
  }

  lemma OntoNothing<T>(r: Parse<seq<T>>)
    ensures Onto([], r) == r
  {
    if r.Ok? {
      assert [] + r.value.value == r.value.value;
    }
  }

  lemma OntoAppend<T>(done: seq<T>, next: seq<T>, r: Parse<seq<T>>)
    ensures Onto(done, Onto(next, r)) == Onto(done + next, r)
  {
    if r.Ok? {
      assert done + (next + r.value.value) == done + next + r.value.value;
    }
  }

  /** `Decoder { buf, pos }`. Each method reads a prefix of `buf[pos..]` as the parsing functions say. */
  class Decoder {
    const w: Widen
    const buf: seq<byte>
    var pos: nat

    constructor (w: Widen, buf: seq<byte>)
      ensures this.w == w && this.buf == buf && pos == 0
    {
      this.w := w;
      this.buf := buf;
      pos := 0;
    }

    ghost predicate Valid()
      reads this
    {
      pos <= |buf|
    }

    /** What a step must have done to turn input `s` into result `r` with `buf[pos..]` left. */
    ghost predicate Follows<T>(spec: Parse<T>, r: Result<T, Error>)
      reads this
      requires Valid()
    {
      match spec
      case Ok(p) => r == Ok(p.value) && buf[pos..] == p.rest
      case Err(e) => r == Err(e)
    }

    method Byte() returns (r: Result<byte, Error>)
      requires Valid()
      modifies this
      ensures Valid() && Follows(TakeByte(buf[old(pos)..]), r)
      ensures r.Err? ==> pos == old(pos)
    {
      if pos >= |buf| {
        return Err(Truncated);
      }
      r := Ok(buf[pos]);
      pos := pos + 1;
    }

    method TakeBytes(n: nat) returns (r: Result<seq<byte>, Error>)
      requires Valid()
      modifies this
      ensures Valid() && Follows(Take(buf[old(pos)..], n), r)
      ensures r.Err? ==> pos == old(pos)
    {
      var end := pos + n;
      if end > |buf| {
        return Err(Truncated);
      }
      r := Ok(buf[pos..end]);
      assert buf[pos..end] == buf[pos..][..n] && buf[end..] == buf[pos..][n..];
      pos := end;
    }

    method ReadArg(info: nat) returns (r: Result<u64, Error>)
      requires Valid()
      modifies this
      ensures Valid() && Follows(Arg(buf[old(pos)..], info), r)
    {
      if info <= 23 {
        return Ok(info);
      }
      if info == 24 {
        var b := Byte();
        return match b case Ok(x) => Ok(x as u64) case Err(e) => Err(e);
      }
      if info > 27 {
        return Err(Invalid("reserved additional-info value"));
      }
      var t := TakeBytes(if info == 25 then 2 else if info == 26 then 4 else 8);
      match t
      case Err(e) => r := Err(e);
      case Ok(bytes) =>
        FromBeBound(bytes);
        r := Ok(Val(256, bytes));
    }

    method ReadDefiniteString(info: nat) returns (r: Result<seq<byte>, Error>)
      requires Valid()
      modifies this
      ensures Valid() && Follows(DefiniteString(buf[old(pos)..], info), r)
    {
      var arg := ReadArg(info);
      match arg
      case Err(e) => r := Err(e);
      case Ok(len) =>
        if len > |buf| - pos {
          return Err(Truncated);
        }
        r := TakeBytes(len);
    }

    method IndefiniteString(depth: int, major: nat) returns (r: Result<seq<byte>, Error>)
      requires Valid()
      modifies this
      ensures Valid() && Follows(StringBody(buf[old(pos)..], major, 31, depth), r)
    {
      if depth + 1 > MAX_DEPTH {
        return Err(TooDeep);
      }
      ghost var all := Chunks(buf[pos..], major);
      OntoNothing(all);
      var out := [];
      while true
        invariant pos <= |buf|
        invariant all == Onto(out, Chunks(buf[pos..], major))
        decreases |buf| - pos
      {
        ghost var s := buf[pos..];
        var initial := Byte();
        match initial
        case Err(e) => return Err(e);
        case Ok(b) =>
          if b == 0xff {
            assert out + [] == out;
            return Ok(out);
          }
          if b / 32 != major || b % 32 == 31 {
            return Err(Invalid("bad chunk in indefinite string"));
          }
          var chunk := ReadDefiniteString(b % 32);
          match chunk
          case Err(e) => return Err(e);
          case Ok(bytes) =>
            assert Chunks(s, major) == Onto(bytes, Chunks(buf[pos..], major));
            OntoAppend(out, bytes, Chunks(buf[pos..], major));
            out := out + bytes;
      }
    }

    method AtBreak() returns (r: Result<bool, Error>)
      requires Valid()
      modifies this
      ensures Valid()
      ensures
        var s := buf[old(pos)..];
        if s == [] then r == Err(Truncated)
        else if s[0] == 0xff then r == Ok(true) && buf[pos..] == s[1..]
        else r == Ok(false) && pos == old(pos)
    {
      if pos >= |buf| {
        return Err(Truncated);
      }
      if buf[pos] == 0xff {
        pos := pos + 1;
        return Ok(true);
      }
      r := Ok(false);
    }

    /** `value`: the decoded value, with the position moved past exactly its bytes. */
    method ReadValue(depth: int) returns (r: Result<Value, Error>)
      requires Valid()
      modifies this
      ensures Valid() && Follows(DecodeValue(w, buf[old(pos)..], depth), r)
      decreases |buf| - pos, 0
    {
      if depth > MAX_DEPTH {
        return Err(TooDeep);
      }
      var initial := Byte();
      if initial.Err? {
        return Err(initial.error);
      }
      var major, info := initial.value / 32, initial.value % 32;
      if major <= 1 {
        var a := ReadArg(info);
        match a
        case Err(e) => r := Err(e);
        case Ok(n) => r := Ok(Integer(if major == 0 then n as i128 else (-1 - n) as i128));
      } else if major <= 3 {
        r := ReadString(major, info, depth);
      } else if major == 4 {
        var b := ReadArray(info, depth);
        match b
        case Err(e) => r := Err(e);
        case Ok(items) => r := Ok(Array(items));
      } else if major == 5 {
        var b := ReadMap(info, depth);
        match b
        case Err(e) => r := Err(e);
        case Ok(entries) => r := Ok(Map(entries));
      } else if major == 6 {
        r := ReadTagged(info, depth);
      } else {
        r := ReadSimple(info);
      }
    }

    method ReadString(major: nat, info: nat, depth: int) returns (r: Result<Value, Error>)
      requires Valid() && (major == 2 || major == 3)
      modifies this
      ensures Valid()
      ensures
        match StringBody(buf[old(pos)..], major, info, depth)
        case Err(e) => r == Err(e)
        case Ok(p) =>
          && buf[pos..] == p.rest
          && (major == 2 ==> r == Ok(Bytes(p.value)))
          && (major == 3 ==> r == match Utf8.Decode(p.value)
                                  case None => Err(Invalid("text string is not UTF-8"))
                                  case Some(t) => Ok(Text(t)))
    {
      var body: Result<seq<byte>, Error>;
      if info == 31 {
        body := IndefiniteString(depth, major);
      } else {
        body := ReadDefiniteString(info);
      }
      if body.Err? {
        return Err(body.error);
      }
      if major == 2 {
        return Ok(Bytes(body.value));
      }
      match Utf8.Decode(body.value)
      case None => r := Err(Invalid("text string is not UTF-8"));
      case Some(t) => r := Ok(Text(t));
    }

    method ReadTagged(info: nat, depth: int) returns (r: Result<Value, Error>)
      requires Valid()
      modifies this
      ensures Valid()
      ensures
        match Arg(buf[old(pos)..], info)
        case Err(e) => r == Err(e)
        case Ok(a) =>
          match DecodeValue(w, a.rest, depth + 1)
          case Err(e) => r == Err(e)
          case Ok(p) => r == Ok(Tag(a.value, p.value)) && buf[pos..] == p.rest
      decreases |buf| - pos, 2
    {
      var tag := ReadArg(info);
      if tag.Err? {
        return Err(tag.error);
      }
      var inner := ReadValue(depth + 1);
      match inner
      case Err(e) => r := Err(e);
      case Ok(v) => r := Ok(Tag(tag.value, v));
    }

    method ReadSimple(info: nat) returns (r: Result<Value, Error>)
      requires Valid()
      modifies this
      ensures Valid() && Follows(Simple(w, buf[old(pos)..], info), r)
    {
      if info == 20 || info == 21 {
        return Ok(Bool(info == 21));
      }
      if info == 22 || info == 23 {
        return Ok(Null);
      }
      if info == 24 {
        var b := Byte();
        if b.Err? {
          return Err(b.error);
        }
        if b.value < 32 {
          return Err(Invalid("non-minimal simple value"));
        }
        return Ok(Integer(b.value as i128));
      }
      if info == 25 || info == 26 || info == 27 {
        var raw := TakeBytes(if info == 25 then 2 else if info == 26 then 4 else 8);
        if raw.Err? {
          return Err(raw.error);
        }
        FromBeBound(raw.value);
        var n := Val(256, raw.value);
        return Ok(Float(if info == 25 then w.half(n) else if info == 26 then w.single(n) else n));
      }
      r := Err(Invalid(if info == 31 then "unexpected break" else "reserved simple value"));
    }

    method ReadArray(info: nat, depth: int) returns (r: Result<seq<Value>, Error>)
      requires Valid()
      modifies this
      ensures Valid() && Follows(DecodeArray(w, buf[old(pos)..], info, depth), r)
      decreases |buf| - pos, 3
    {
      if info == 31 {
        r := ReadItemsToBreak(depth + 1);
      } else {
        var arg := ReadArg(info);
        if arg.Err? {
          return Err(arg.error);
        }
        if arg.value > |buf| - pos {
          return Err(Truncated);
        }
        r := ReadItems(arg.value, depth + 1);
      }
    }

    method ReadItems(n: nat, depth: int) returns (r: Result<seq<Value>, Error>)
      requires Valid()
      modifies this
      ensures Valid() && Follows(DecodeItems(w, buf[old(pos)..], n, depth), r)
      decreases |buf| - pos, 2
    {
      ghost var all, start := DecodeItems(w, buf[pos..], n, depth), pos;
      OntoNothing(all);
      var items: seq<Value> := [];
      for i := 0 to n
        invariant start <= pos <= |buf|
        invariant all == Onto(items, DecodeItems(w, buf[pos..], n - i, depth))
      {
        hide DecodeValue;
        ghost var s := buf[pos..];
        var v := ReadValue(depth);
        if v.Err? {
          return Err(v.error);
        }
        assert DecodeItems(w, s, n - i, depth) == Onto([v.value], DecodeItems(w, buf[pos..], n - i - 1, depth));
        OntoAppend(items, [v.value], DecodeItems(w, buf[pos..], n - i - 1, depth));
        items := items + [v.value];
      }
      assert items + [] == items;
      r := Ok(items);
    }

    method ReadItemsToBreak(depth: int) returns (r: Result<seq<Value>, Error>)
      requires Valid()
      modifies this
      ensures Valid() && Follows(DecodeItemsToBreak(w, buf[old(pos)..], depth), r)
      decreases |buf| - pos, 2
    {
      ghost var all, start := DecodeItemsToBreak(w, buf[pos..], depth), pos;
      OntoNothing(all);
      var items: seq<Value> := [];
      while true
        invariant start <= pos <= |buf|
        invariant all == Onto(items, DecodeItemsToBreak(w, buf[pos..], depth))
        decreases |buf| - pos
      {
        ghost var s := buf[pos..];
        var stop := AtBreak();
        if stop.Err? {
          return Err(stop.error);
        }
        if stop.value {
          assert items + [] == items;
          return Ok(items);
        }
        var v := ReadValue(depth);
        if v.Err? {
          return Err(v.error);
        }
        assert DecodeItemsToBreak(w, s, depth) == Onto([v.value], DecodeItemsToBreak(w, buf[pos..], depth));
        OntoAppend(items, [v.value], DecodeItemsToBreak(w, buf[pos..], depth));
        items := items + [v.value];
      }
    }

    method ReadEntry(depth: int) returns (r: Result<Entry, Error>)
      requires Valid()
      modifies this
      ensures Valid() && Follows(DecodeEntry(w, buf[old(pos)..], depth), r)
      decreases |buf| - pos, 1
    {
      var k := ReadValue(depth);
      if k.Err? {
        return Err(k.error);
      }
      var v := ReadValue(depth);
      if v.Err? {
        return Err(v.error);
      }
      r := Ok(Entry(k.value, v.value));
    }

    method ReadMap(info: nat, depth: int) returns (r: Result<seq<Entry>, Error>)
      requires Valid()
      modifies this
      ensures Valid() && Follows(DecodeMap(w, buf[old(pos)..], info, depth), r)
      decreases |buf| - pos, 3
    {
      if info == 31 {
        r := ReadEntriesToBreak(depth + 1);
      } else {
        var count := ReadArg(info);
        if count.Err? {
          return Err(count.error);
        }
        if count.value > (|buf| - pos) / 2 {
          return Err(Truncated);
        }
        r := ReadEntries(count.value, depth + 1);
      }
    }

    method ReadEntries(n: nat, depth: int) returns (r: Result<seq<Entry>, Error>)
      requires Valid()
      modifies this
      ensures Valid() && Follows(DecodeEntries(w, buf[old(pos)..], n, depth), r)
      decreases |buf| - pos, 2
    {
      ghost var all, start := DecodeEntries(w, buf[pos..], n, depth), pos;
      OntoNothing(all);
      var entries: seq<Entry> := [];
      for i := 0 to n
        invariant start <= pos <= |buf|
        invariant all == Onto(entries, DecodeEntries(w, buf[pos..], n - i, depth))
      {
        ghost var s := buf[pos..];
        var e := ReadEntry(depth);
        if e.Err? {
          return Err(e.error);
        }
        assert DecodeEntries(w, s, n - i, depth) == Onto([e.value], DecodeEntries(w, buf[pos..], n - i - 1, depth));
        OntoAppend(entries, [e.value], DecodeEntries(w, buf[pos..], n - i - 1, depth));
        entries := entries + [e.value];
      }
      assert entries + [] == entries;
      r := Ok(entries);
    }

    method ReadEntriesToBreak(depth: int) returns (r: Result<seq<Entry>, Error>)
      requires Valid()
      modifies this
      ensures Valid() && Follows(DecodeEntriesToBreak(w, buf[old(pos)..], depth), r)
      decreases |buf| - pos, 2
    {
      ghost var all, start := DecodeEntriesToBreak(w, buf[pos..], depth), pos;
      OntoNothing(all);
      var entries: seq<Entry> := [];
      while true
        invariant start <= pos <= |buf|
        invariant all == Onto(entries, DecodeEntriesToBreak(w, buf[pos..], depth))
        decreases |buf| - pos
      {
        ghost var s := buf[pos..];
        var stop := AtBreak();
        if stop.Err? {
          return Err(stop.error);
        }
        if stop.value {
          assert entries + [] == entries;
          return Ok(entries);
        }
        var e := ReadEntry(depth);
        if e.Err? {
          return Err(e.error);
        }
        assert DecodeEntriesToBreak(w, s, depth) == Onto([e.value], DecodeEntriesToBreak(w, buf[pos..], depth));
        OntoAppend(entries, [e.value], DecodeEntriesToBreak(w, buf[pos..], depth));
        entries := entries + [e.value];
      }
    }
  }

  /** `decode`: an accepted buffer yields a value that survives a trip through the encoder. */
  method DecodeFirst(w: Widen, bytes: seq<byte>) returns (r: Result<Value, Error>)
    requires |bytes| < TWO_64
    ensures r == Cbor.Decode(w, bytes)
    ensures r.Ok? ==> Encodable(r.value) && Cbor.Decode(w, Wire(r.value)) == r && Weight(r.value) <= |bytes|
    ensures forall v :: r == Ok(v) <==> CborSyntax.StartsWith(w, bytes, v)
  {
    hide CborSyntax.StartsWith;
    var d := new Decoder(w, bytes);
    assert bytes[0..] == bytes;
    r := d.ReadValue(0);
    if r.Ok? {
      Reencode(w, bytes);
    }
    forall v ensures r == Ok(v) <==> CborSyntax.StartsWith(w, bytes, v) {
      CborSyntax.DecodeExactly(w, bytes, v);
    }
  }
}
