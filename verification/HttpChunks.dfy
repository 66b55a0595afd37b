/**
 * Chunked bodies: which decode and to what, which make the decoder panic, and that nothing that follows
 * changes either.
 */
module HttpChunks {
  import opened Common
  import opened Decimals
  import opened Text
  import opened Http
  import Utf8

  // ---------- One chunk header at a time ----------

  /** `rest` starts with a line announcing `size`, and goes on with `body`. */
  predicate Opens(rest: seq<byte>, size: nat, body: seq<byte>) {
    var i := Find(rest, Crlf());
    i.Some? && ChunkSize(rest[..i.value]) == Ok(size) && rest[i.value + 2..] == body
  }

  predicate HasData(body: seq<byte>, size: nat) { |body| >= size + 2 && body[size..size + 2] == Crlf() }

  /** The chunk and its line break can be counted in 64 bits. */
  predicate Countable(size: nat) { size + 2 < TWO_64 }

  /** The sum of size and two overflows, and the build panics on it or on the slice that comes of it. */
  predicate Overruns(checked: bool, size: nat, body: seq<byte>) {
    !Countable(size) && (checked || size + 2 == TWO_64 || body != [])
  }

  lemma ChunkSizeBound(line: seq<byte>)
    ensures ChunkSize(line).Ok? ==> ChunkSize(line).value < TWO_64
  {
    hide Utf8.Decode, Trim, UpTo, NumberOf;
  }

  /** What becomes of a body after its first chunk header. */
  lemma DechunkOf(checked: bool, rest: seq<byte>, size: nat, body: seq<byte>)
    requires Opens(rest, size, body)
    ensures size == 0 ==> Dechunk(checked, rest) == if Find(body, Crlf()).Some? then Ok([]) else Err(NoTrailerEnd)
    ensures size > 0 && Overruns(checked, size, body) ==> Dechunk(checked, rest) == Err(Panic)
    ensures size > 0 && !Overruns(checked, size, body) && !(Countable(size) && HasData(body, size)) ==>
      Dechunk(checked, rest) == Err(BadChunkBody)
    ensures size > 0 && Countable(size) && HasData(body, size) ==>
        Dechunk(checked, rest) == Prepend(body[..size], Dechunk(checked, body[size + 2..]))
  {
    if size == 0 {
      DechunkEnd(checked, rest, body);
    } else if Countable(size) {
      DechunkData(checked, rest, size, body);
    } else {
      DechunkHuge(checked, rest, size, body);
    }
    hide Dechunk, Find, Opens, HasData;
  }

  lemma DechunkEnd(checked: bool, rest: seq<byte>, body: seq<byte>)
    requires Opens(rest, 0, body)
    ensures Dechunk(checked, rest) == if Find(body, Crlf()).Some? then Ok([]) else Err(NoTrailerEnd)
  {
    hide Find, ChunkSize;
  }

  lemma DechunkData(checked: bool, rest: seq<byte>, size: nat, body: seq<byte>)
    requires Opens(rest, size, body) && size > 0 && Countable(size)
    ensures Dechunk(checked, rest) ==
      if HasData(body, size) then Prepend(body[..size], Dechunk(checked, body[size + 2..])) else Err(BadChunkBody)
  {
    hide Find, ChunkSize;
    assert AddUsize(checked, size, 2) == Some(size + 2);
  }

  lemma DechunkHuge(checked: bool, rest: seq<byte>, size: nat, body: seq<byte>)
    requires Opens(rest, size, body) && !Countable(size)
    ensures Dechunk(checked, rest) == if Overruns(checked, size, body) then Err(Panic) else Err(BadChunkBody)
  {
    ChunkSizeBound(rest[..Find(rest, Crlf()).value]);
    SumOverruns(checked, size, 2);
    hide Find, ChunkSize, AddUsize;
  }

  lemma SumOverruns(checked: bool, a: nat, b: nat)
    requires a < TWO_64 && b < TWO_64 && a + b >= TWO_64
    ensures AddUsize(checked, a, b) == if checked then None else Some(a + b - TWO_64)
  {
    assert (a + b - TWO_64) % TWO_64 == a + b - TWO_64;
  }

  /** A body that decodes, or that makes the decoder panic, opens with a chunk header. */
  lemma Started(checked: bool, rest: seq<byte>) returns (size: nat, body: seq<byte>)
    requires Final(Dechunk(checked, rest))
    ensures Opens(rest, size, body) && |body| < |rest|
  {
    NotStarted(checked, rest);
    hide Find, ChunkSize, Dechunk;
    var i := Find(rest, Crlf()).value;
    SizeFaults(rest[..i]);
    size, body := ChunkSize(rest[..i]).value, rest[i + 2..];
  }

  lemma NotStarted(checked: bool, rest: seq<byte>)
    ensures match Find(rest, Crlf())
      case None => Dechunk(checked, rest) == Err(NoChunkHeader)
      case Some(i) => ChunkSize(rest[..i]).Err? ==> Dechunk(checked, rest) == Err(ChunkSize(rest[..i]).error)
  {
    hide Find, ChunkSize;
  }

  lemma SizeFaults(line: seq<byte>)
    ensures ChunkSize(line) != Err(Panic) && ChunkSize(line) != Err(CapExceeded)
  {
    hide Utf8.Decode, Trim, UpTo, ParseUnsigned;
  }

  /** Nothing that follows can change it. */
  predicate Final(r: Result<seq<byte>, Fault>) { r.Ok? || r == Err(Panic) }

  lemma OpensStable(rest: seq<byte>, more: seq<byte>, size: nat, body: seq<byte>)
    requires Opens(rest, size, body)
    ensures Opens(rest + more, size, body + more)
  {
    hide Find, ChunkSize;
    FindStable(rest, more, Crlf());
    var i := Find(rest, Crlf()).value;
    assert (rest + more)[..i] == rest[..i] && (rest + more)[i + 2..] == body + more;
  }

  lemma HasDataStable(body: seq<byte>, more: seq<byte>, size: nat)
    requires HasData(body, size)
    ensures HasData(body + more, size) && (body + more)[..size] == body[..size] &&
      (body + more)[size + 2..] == body[size + 2..] + more
  {
    assert (body + more)[size..size + 2] == body[size..size + 2];
  }

  /** A chunked body that decodes, or makes the decoder panic, is not changed by what follows it. */
  lemma {:induction false} DechunkStable(checked: bool, rest: seq<byte>, more: seq<byte>)
    requires Final(Dechunk(checked, rest))
    ensures Dechunk(checked, rest + more) == Dechunk(checked, rest)
    decreases |rest|
  {
    hide Find, Dechunk, Opens;
    var size, body := Started(checked, rest);
    OpensStable(rest, more, size, body);
    DechunkOf(checked, rest, size, body);
    DechunkOf(checked, rest + more, size, body + more);
    if size == 0 {
      FindStable(body, more, Crlf());
    } else if !Overruns(checked, size, body) {
      HasDataStable(body, more, size);
      DechunkStable(checked, body[size + 2..], more);
    }
  }

  // ---------- Chunk printing ----------

  /** A chunk on the wire: its header line and its data. */
  datatype Chunk = Chunk(header: seq<byte>, data: seq<byte>)

  /** A line that ends at its first line break. */
  predicate OneLine(line: seq<byte>) { Find(line + Crlf(), Crlf()) == Some(|line|) }

  predicate Announces(line: seq<byte>, size: nat) { OneLine(line) && ChunkSize(line) == Ok(size) }

  predicate WellFormed(c: Chunk) { c.data != [] && Countable(|c.data|) && Announces(c.header, |c.data|) }

  /** The chunks, one more header line, and what follows it. */
  function Wire(chunks: seq<Chunk>, last: seq<byte>, tail: seq<byte>): seq<byte> {
    if chunks == [] then last + Crlf() + tail
    else chunks[0].header + Crlf() + (chunks[0].data + Crlf() + Wire(chunks[1..], last, tail))
  }

  function Body(chunks: seq<Chunk>): seq<byte> { if chunks == [] then [] else chunks[0].data + Body(chunks[1..]) }

  predicate AllWellFormed(chunks: seq<Chunk>) { forall i :: 0 <= i < |chunks| ==> WellFormed(chunks[i]) }

  lemma LineOpens(line: seq<byte>, size: nat, rest: seq<byte>)
    requires Announces(line, size)
    ensures Opens(line + Crlf() + rest, size, rest)
  {
    hide Find, ChunkSize;
    FindStable(line + Crlf(), rest, Crlf());
    var s := line + Crlf() + rest;
    assert s[..|line|] == line && s[|line| + 2..] == rest;
  }

  lemma ChunkAhead(checked: bool, c: Chunk, rest: seq<byte>)
    requires WellFormed(c)
    ensures Dechunk(checked, c.header + Crlf() + (c.data + Crlf() + rest)) == Prepend(c.data, Dechunk(checked, rest))
  {
    hide Dechunk, Opens, Announces;
    var body := c.data + Crlf() + rest;
    LineOpens(c.header, |c.data|, body);
    DechunkOf(checked, c.header + Crlf() + body, |c.data|, body);
    assert body[..|c.data|] == c.data && body[|c.data|..|c.data| + 2] == Crlf() && body[|c.data| + 2..] == rest;
  }

  /** Well-formed chunks are passed, and what follows them decides. */
  lemma {:induction false} WireResult(checked: bool, chunks: seq<Chunk>, last: seq<byte>, tail: seq<byte>)
    requires AllWellFormed(chunks)
    ensures Dechunk(checked, Wire(chunks, last, tail)) == Prepend(Body(chunks), Dechunk(checked, last + Crlf() + tail))
  {
    hide Dechunk, WellFormed, Crlf;
    if chunks == [] {
      PrependAppend<byte, Fault>([], [], Dechunk(checked, last + Crlf() + tail));
    } else {
      assert WellFormed(chunks[0]);
      ChunkAhead(checked, chunks[0], Wire(chunks[1..], last, tail));
      WireResult(checked, chunks[1..], last, tail);
      PrependAppend<byte, Fault>(chunks[0].data, Body(chunks[1..]), Dechunk(checked, last + Crlf() + tail));
    }
  }

  /** Every list of non-empty chunks decodes to its data, as long as the trailer section is ended. */
  lemma WireDecodes(checked: bool, chunks: seq<Chunk>, last: seq<byte>, tail: seq<byte>)
    requires AllWellFormed(chunks) && Announces(last, 0)
    ensures Dechunk(checked, Wire(chunks, last, tail)) ==
      if Find(tail, Crlf()).Some? then Ok(Body(chunks)) else Err(NoTrailerEnd)
  {
    hide Dechunk, Find, Announces, Opens, AllWellFormed;
    WireResult(checked, chunks, last, tail);
    LineOpens(last, 0, tail);
    DechunkOf(checked, last + Crlf() + tail, 0, tail);
    assert Body(chunks) + [] == Body(chunks);
  }

  /** A header whose size overruns makes the decoder panic as soon as it is reached. */
  lemma WirePanics(checked: bool, chunks: seq<Chunk>, line: seq<byte>, size: nat, rest: seq<byte>)
    requires AllWellFormed(chunks) && Announces(line, size) && Overruns(checked, size, rest)
    ensures Dechunk(checked, Wire(chunks, line, rest)) == Err(Panic)
  {
    hide Dechunk, Announces, Opens, AllWellFormed;
    WireResult(checked, chunks, line, rest);
    LineOpens(line, size, rest);
    DechunkOf(checked, line + Crlf() + rest, size, rest);
  }

  /** What makes a body final: its end, or a size that overruns. */
  predicate Ends(checked: bool, size: nat, tail: seq<byte>) {
    if size == 0 then Find(tail, Crlf()).Some? else Overruns(checked, size, tail)
  }

  /** Whatever decodes or panics is a list of chunks up to such an end. */
  lemma {:induction false} FinalIsWire(checked: bool, b: seq<byte>)
    returns (chunks: seq<Chunk>, last: seq<byte>, size: nat, tail: seq<byte>)
    requires Final(Dechunk(checked, b))
    ensures AllWellFormed(chunks) && b == Wire(chunks, last, tail)
    ensures Announces(last, size) && Ends(checked, size, tail)
    decreases |b|
  {
    hide *;
    var n, body := Started(checked, b);
    var line := OpeningLine(b, n, body);
    FinalOpens(checked, b, n, body);
    if Ends(checked, n, body) {
      chunks, last, size, tail := [], line, n, body;
      WireOfNone(last, tail);
    } else {
      var c, rest := DataSplit(line, body, n);
      var more;
      more, last, size, tail := FinalIsWire(checked, rest);
      chunks := [c] + more;
      WireOfMore(c, more, last, tail);
    }
  }

  lemma FinalOpens(checked: bool, b: seq<byte>, size: nat, body: seq<byte>)
    requires Final(Dechunk(checked, b)) && Opens(b, size, body)
    ensures Ends(checked, size, body)
      || (size > 0 && Countable(size) && HasData(body, size) && Final(Dechunk(checked, body[size + 2..])))
  {
    hide Dechunk, Find, Opens;
    DechunkOf(checked, b, size, body);
  }

  /** Whatever decodes is a list of non-empty chunks with an ended trailer section. */
  lemma DecodedIsWire(checked: bool, b: seq<byte>) returns (chunks: seq<Chunk>, last: seq<byte>, tail: seq<byte>)
    requires Dechunk(checked, b).Ok?
    ensures AllWellFormed(chunks) && Announces(last, 0) && Find(tail, Crlf()).Some?
    ensures b == Wire(chunks, last, tail) && Dechunk(checked, b).value == Body(chunks)
  {
    hide Dechunk, Find, Announces, AllWellFormed, Wire, Body;
    var size;
    chunks, last, size, tail := FinalIsWire(checked, b);
    if size > 0 {
      WirePanics(checked, chunks, last, size, tail);
    } else {
      WireDecodes(checked, chunks, last, tail);
    }
  }

  /** The line announces 2^64 - 2 or more: with 2^64 - 1 and no checks, a byte must follow it. */
  ghost predicate ReachesOverrun(checked: bool, b: seq<byte>) {
    exists chunks, line, size, rest ::
      b == Wire(chunks, line, rest) && AllWellFormed(chunks) && Announces(line, size) && Overruns(checked, size, rest)
  }

  /** Decoding panics exactly when a header that is reached announces a size that overruns. */
  lemma PanicExact(checked: bool, b: seq<byte>)
    ensures Dechunk(checked, b) == Err(Panic) <==> ReachesOverrun(checked, b)
  {
    hide Dechunk, Find, Announces, AllWellFormed, Wire, Overruns;
    if Dechunk(checked, b) == Err(Panic) {
      var chunks, last, size, tail := FinalIsWire(checked, b);
      if size == 0 {
        WireDecodes(checked, chunks, last, tail);
      }
    }
    if ReachesOverrun(checked, b) {
      var chunks, line, size, rest :|
        b == Wire(chunks, line, rest) && AllWellFormed(chunks) && Announces(line, size) &&
          Overruns(checked, size, rest);
      WirePanics(checked, chunks, line, size, rest);
    }
  }

  lemma OpeningLine(b: seq<byte>, size: nat, body: seq<byte>) returns (line: seq<byte>)
    requires Opens(b, size, body)
    ensures Announces(line, size) && b == line + Crlf() + body
  {
    hide Find, ChunkSize;
    LineFound(b);
    line := b[..Find(b, Crlf()).value];
  }

  lemma DataSplit(line: seq<byte>, body: seq<byte>, size: nat) returns (c: Chunk, rest: seq<byte>)
    requires 0 < size && Countable(size) && HasData(body, size) && Announces(line, size)
    ensures c == Chunk(line, body[..size]) && WellFormed(c) && rest == body[size + 2..] &&
      body == c.data + Crlf() + rest
  {
    hide Announces;
    c, rest := Chunk(line, body[..size]), body[size + 2..];
  }

  lemma WireOfNone(last: seq<byte>, tail: seq<byte>)
    ensures AllWellFormed([]) && Wire([], last, tail) == last + Crlf() + tail && Body([]) == []
  {
  }

  lemma WireOfMore(c: Chunk, more: seq<Chunk>, last: seq<byte>, tail: seq<byte>)
    requires WellFormed(c) && AllWellFormed(more)
    ensures AllWellFormed([c] + more)
    ensures Wire([c] + more, last, tail) == c.header + Crlf() + (c.data + Crlf() + Wire(more, last, tail))
    ensures Body([c] + more) == c.data + Body(more)
  {
    hide WellFormed;
    assert ([c] + more)[1..] == more;
  }

  lemma LineFound(b: seq<byte>)
    requires Find(b, Crlf()).Some?
    ensures var i := Find(b, Crlf()).value; b == b[..i] + Crlf() + b[i + 2..] && OneLine(b[..i])
  {
    hide Find;
    var i := Find(b, Crlf()).value;
    FindMeaning(b, Crlf());
    assert b[i..][..2] == b[i..i + 2];
    assert b == b[..i] + b[i..i + 2] + b[i + 2..];
    var line := b[..i];
    var short := line + Crlf();
    assert short == b[..i + 2];
    FindMeaning(short, Crlf());
    assert short[i..][..2] == Crlf();
    assert Find(short, Crlf()).Some? && Find(short, Crlf()).value <= i;
    FindStable(short, b[i + 2..], Crlf());
    assert short + b[i + 2..] == b;
  }

  /** A size in lower-case hex. */
  function PrintHex(n: nat): (r: string)
    ensures r != []
  {
    if n < 16 then [HexDigit(n)] else PrintHex(n / 16) + [HexDigit(n % 16)]
  }

  predicate HexChar(c: char) { '0' <= c <= '9' || 'a' <= c <= 'f' }

  predicate HexText(s: string) { forall i :: 0 <= i < |s| ==> HexChar(s[i]) }

  lemma {:induction false} PrintHexReads(n: nat)
    ensures HexText(PrintHex(n)) && NumberOf(PrintHex(n), 16) == Some(n)
  {
    var s := PrintHex(n);
    if n < 16 {
      assert s[..0] == [] && NumberOf([], 16) == Some(0);
    } else {
      PrintHexReads(n / 16);
      assert s[..|s| - 1] == PrintHex(n / 16);
    }
  }

  lemma {:induction false} HexUntouched(s: string)
    requires HexText(s)
    ensures UpTo(s, ';') == s
  {
    if s != [] {
      HexUntouched(s[1..]);
    }
  }

  lemma {:induction false} NoCrIsOneLine(line: seq<byte>)
    requires CR !in line
    ensures OneLine(line)
  {
    var s := line + Crlf();
    if line == [] {
      assert s == Crlf();
    } else {
      NoCrIsOneLine(line[1..]);
      assert s[..2][0] == line[0];
      assert s[1..] == line[1..] + Crlf();
    }
  }

  lemma {:induction false} HexBytes(s: string)
    requires HexText(s)
    ensures CR !in Utf8.Encode(s)
  {
    if s != [] {
      HexBytes(s[1..]);
    }
  }

  lemma HexNotTrimmed(s: string)
    requires s != [] && HexText(s)
    ensures Trim(s) == s && s[0] != '+'
  {
    assert HexChar(s[0]) && HexChar(s[|s| - 1]);
  }

  lemma PrintedSize(n: nat)
    requires n < TWO_64
    ensures Announces(Utf8.Encode(PrintHex(n)), n)
  {
    var s := PrintHex(n);
    PrintHexReads(n);
    HexUntouched(s);
    HexBytes(s);
    NoCrIsOneLine(Utf8.Encode(s));
    Utf8.EncodeThenDecode(s);
    HexNotTrimmed(s);
    hide Utf8.Encode, Utf8.Decode, OneLine, NumberOf, PrintHex, UpTo, Trim, HexText;
  }

  function Printed(data: seq<seq<byte>>): seq<Chunk> {
    seq(|data|, i requires 0 <= i < |data| => Chunk(Utf8.Encode(PrintHex(|data[i]|)), data[i]))
  }

  lemma {:induction false} PrintedBody(data: seq<seq<byte>>)
    ensures Body(Printed(data)) == Concat(data)
  {
    if data != [] {
      PrintedBody(data[1..]);
      assert Printed(data)[1..] == Printed(data[1..]);
    }
  }

  /**
   * Printing non-empty chunks with their sizes in hex and decoding gives their concatenation, unless a size
   * overruns.
   */
  lemma PrintedDecodes(checked: bool, data: seq<seq<byte>>)
    requires forall i :: 0 <= i < |data| ==> 0 < |data[i]| < TWO_64
    ensures var wire := Wire(Printed(data), Utf8.Encode("0"), Crlf());
      if forall i :: 0 <= i < |data| ==> Countable(|data[i]|) then Dechunk(checked, wire) == Ok(Concat(data))
      else Dechunk(checked, wire) == Err(Panic)
  {
    hide Announces, Utf8.Encode, PrintHex, Dechunk, Wire, Body, Concat, Countable;
    if forall i :: 0 <= i < |data| ==> Countable(|data[i]|) {
      forall i | 0 <= i < |data| ensures WellFormed(Printed(data)[i]) {
        PrintedSize(|data[i]|);
      }
      ZeroPrints();
      PrintedSize(0);
      PrintedBody(data);
      WireDecodes(checked, Printed(data), Utf8.Encode("0"), Crlf());
      assert Crlf()[..2] == Crlf();
    } else {
      PrintedPanics(checked, data, Utf8.Encode("0"), Crlf());
    }
  }

  lemma {:induction false} PrintedPanics(checked: bool, data: seq<seq<byte>>, last: seq<byte>, tail: seq<byte>)
    requires forall i :: 0 <= i < |data| ==> 0 < |data[i]| < TWO_64
    requires exists i :: 0 <= i < |data| && !Countable(|data[i]|)
    ensures Dechunk(checked, Wire(Printed(data), last, tail)) == Err(Panic)
  {
    var c, more := Printed(data)[0], Printed(data[1..]);
    assert Printed(data)[1..] == more;
    PrintedSize(|data[0]|);
    hide Announces, Utf8.Encode, PrintHex, Dechunk, Printed, Countable;
    if Countable(|data[0]|) {
      assert exists i :: 0 <= i < |data[1..]| && !Countable(|data[1..][i]|) by {
        var i :| 0 <= i < |data| && !Countable(|data[i]|);
        assert data[1..][i - 1] == data[i];
      }
      PrintedPanics(checked, data[1..], last, tail);
      ChunkAhead(checked, c, Wire(more, last, tail));
    } else {
      HugeAhead(checked, c, Wire(more, last, tail));
    }
  }

  lemma HugeAhead(checked: bool, c: Chunk, rest: seq<byte>)
    requires c.data != [] && !Countable(|c.data|) && Announces(c.header, |c.data|)
    ensures Dechunk(checked, c.header + Crlf() + (c.data + Crlf() + rest)) == Err(Panic)
  {
    hide Dechunk, Opens, Announces;
    var body := c.data + Crlf() + rest;
    LineOpens(c.header, |c.data|, body);
    DechunkOf(checked, c.header + Crlf() + body, |c.data|, body);
  }

  lemma ZeroPrints()
    ensures PrintHex(0) == "0"
  {
  }
}
