/** A response that is printed, cut up by the network in any way, and read by the client comes back as it was. */
module HttpRoundTrip {
  import opened Common
  import opened Decimals
  import opened Text
  import opened Http
  import opened HttpChunks
  import opened HttpLaws
  import Utf8

  type Header = (string, string)

  /** Head text: every line ended, and an empty line at the end. */
  function HeadText(lines: seq<string>): string {
    if lines == [] then "\r\n" else lines[0] + "\r\n" + HeadText(lines[1..])
  }

  function StatusLine(status: nat, reason: string): string { "HTTP/1.1 " + Decimal(status) + " " + reason }

  function HeaderText(h: Header): string { h.0 + ":" + (" " + h.1) }

  function HeaderTexts(hs: seq<Header>): seq<string> {
    if hs == [] then [] else [HeaderText(hs[0])] + HeaderTexts(hs[1..])
  }

  function Head(status: nat, reason: string, hs: seq<Header>): string {
    HeadText([StatusLine(status, reason)] + HeaderTexts(hs))
  }

  predicate OneTextLine(s: string) { '\r' !in s && '\n' !in s }

  predicate PlainLine(s: string) { s != [] && OneTextLine(s) }

  predicate PlainLines(lines: seq<string>) { forall i :: 0 <= i < |lines| ==> PlainLine(lines[i]) }

  // ---------- Lines of the head ----------

  lemma EndedLine(line: string)
    requires OneTextLine(line)
    ensures Lines(line + "\r\n") == [line]
  {
    var text := line + "\r\n";
    FindMeaning(text, ['\n']);
    assert text[|line| + 1..][..1] == ['\n'];
    var i := Find(text, ['\n']).value;
    assert text[i..][..1][0] == text[i] == '\n';
    assert i == |line| + 1;
    assert text[..i] == line + "\r" && text[i + 1..] == [];
    assert (line + "\r")[..|line|] == line;
  }

  lemma {:induction false} HeadLinesRead(lines: seq<string>)
    requires PlainLines(lines)
    ensures Lines(HeadText(lines)) == lines + [""]
  {
    hide Lines;
    if lines == [] {
      EndedLine("");
      assert "" + "\r\n" == "\r\n";
    } else {
      var first := lines[0] + "\r\n";
      assert PlainLine(lines[0]);
      EndedLine(lines[0]);
      HeadLinesRead(lines[1..]);
      LinesAppend(first, HeadText(lines[1..]));
      assert [lines[0]] + (lines[1..] + [""]) == lines + [""];
    }
  }

  // ---------- Where the head ends ----------

  function Blank4(): seq<byte> { [CR, LF, CR, LF] }

  function HeadBytes(lines: seq<seq<byte>>): seq<byte> {
    if lines == [] then Crlf() else lines[0] + (Crlf() + HeadBytes(lines[1..]))
  }

  function Shift(r: Option<nat>, n: nat): Option<nat> { match r case Some(i) => Some(i + n) case None => None }

  lemma {:induction false} SkipPlain(l: seq<byte>, rest: seq<byte>)
    requires CR !in l
    ensures Find(l + rest, Blank4()) == Shift(Find(rest, Blank4()), |l|)
  {
    if l == [] {
      assert l + rest == rest;
    } else {
      SkipPlain(l[1..], rest);
      var s := l + rest;
      assert s[1..] == l[1..] + rest;
      SkipOne(s);
      if |rest| < 4 && |s| < 4 {
        assert Find(rest, Blank4()).None?;
      }
    }
  }

  lemma SkipOne(s: seq<byte>)
    requires s != [] && (s[0] != CR || (|s| > 2 && s[1] == LF && s[2] != CR))
    ensures Find(s, Blank4()) == Shift(Find(s[1..], Blank4()), 1)
  {
    if |s| >= 4 {
      assert s[..4] != Blank4() by {
        assert s[..4][0] == s[0] && s[..4][2] == s[2];
      }
    }
  }

  lemma {:induction false} BytesHeadEnds(lines: seq<seq<byte>>, body: seq<byte>)
    requires lines != [] && forall i :: 0 <= i < |lines| ==> lines[i] != [] && CR !in lines[i]
    ensures Find(HeadBytes(lines) + body, Blank4()) == Some(|HeadBytes(lines)| - 4)
  {
    hide Find, HeadBytes;
    var l, rest := lines[0], HeadBytes(lines[1..]);
    var tail := Crlf() + (rest + body);
    HeadBytesCons(lines, body);
    SkipPlain(l, tail);
    if |lines| == 1 {
      assert tail[..4] == Blank4();
      AtBlank(tail);
    } else {
      BytesHeadEnds(lines[1..], body);
      FirstByte(lines[1..]);
      assert lines[1..][0] == lines[1] && lines[1][0] in lines[1];
      SkipBreak(rest + body);
    }
  }

  lemma HeadBytesCons(lines: seq<seq<byte>>, body: seq<byte>)
    requires lines != []
    ensures HeadBytes(lines) + body == lines[0] + (Crlf() + (HeadBytes(lines[1..]) + body))
    ensures |HeadBytes(lines)| == |lines[0]| + 2 + |HeadBytes(lines[1..])|
    ensures |lines| == 1 ==> HeadBytes(lines[1..]) == Crlf()
  {
  }

  lemma SkipBreak(s: seq<byte>)
    requires s != [] && s[0] != CR
    ensures Find(Crlf() + s, Blank4()) == Shift(Find(s, Blank4()), 2)
  {
    hide Find;
    var t := Crlf() + s;
    assert t[2] == s[0];
    SkipOne(t);
    assert t[1..] == [LF] + s;
    SkipOne(t[1..]);
    assert t[1..][1..] == s;
  }

  lemma AtBlank(s: seq<byte>)
    requires |s| >= 4 && s[..4] == Blank4()
    ensures Find(s, Blank4()) == Some(0)
  {
  }

  lemma FirstByte(lines: seq<seq<byte>>)
    requires lines != [] && lines[0] != []
    ensures HeadBytes(lines) != [] && HeadBytes(lines)[0] == lines[0][0]
  {
  }

  lemma {:induction false} PlainBytes(s: string)
    requires '\r' !in s
    ensures CR !in Utf8.Encode(s)
  {
    if s != [] {
      PlainBytes(s[1..]);
      assert CR !in Utf8.EncodeChar(s[0]);
    }
  }

  function EncodeLines(lines: seq<string>): seq<seq<byte>> {
    if lines == [] then [] else [Utf8.Encode(lines[0])] + EncodeLines(lines[1..])
  }

  lemma EncodeCrlf()
    ensures Utf8.Encode("\r\n") == Crlf()
  {
    var s := "\r\n";
    assert s[1..] == "\n" && s[1..][1..] == "";
  }

  lemma {:induction false} EncodedHead(lines: seq<string>)
    requires PlainLines(lines)
    ensures Utf8.Encode(HeadText(lines)) == HeadBytes(EncodeLines(lines))
    ensures |EncodeLines(lines)| == |lines|
    ensures forall i :: 0 <= i < |lines| ==> EncodeLines(lines)[i] != [] && CR !in EncodeLines(lines)[i]
  {
    hide Utf8.Encode;
    EncodeCrlf();
    if lines != [] {
      var l := lines[0];
      assert PlainLine(l);
      EncodedHead(lines[1..]);
      PlainBytes(l);
      EncodeNonEmpty(l);
      Utf8.EncodeAppend(l + "\r\n", HeadText(lines[1..]));
      Utf8.EncodeAppend(l, "\r\n");
      Regroup(Utf8.Encode(l), Crlf(), HeadBytes(EncodeLines(lines[1..])));
    }
  }

  lemma EncodeNonEmpty(s: string)
    requires s != []
    ensures Utf8.Encode(s) != []
  {
  }

  lemma HeadEnds(lines: seq<string>, body: seq<byte>)
    requires lines != [] && PlainLines(lines)
    ensures var head := Utf8.Encode(HeadText(lines)); HeaderEnd(head + body) == Some(|head|)
  {
    hide Utf8.Encode, Find, HeadBytes;
    EncodedHead(lines);
    BytesHeadEnds(EncodeLines(lines), body);
    EndLength(lines, body);
  }

  lemma EndLength(lines: seq<string>, body: seq<byte>)
    requires Find(Utf8.Encode(HeadText(lines)) + body, Blank4()) == Some(|Utf8.Encode(HeadText(lines))| - 4)
    ensures HeaderEnd(Utf8.Encode(HeadText(lines)) + body) == Some(|Utf8.Encode(HeadText(lines))|)
  {
    hide Utf8.Encode, Find, HeadText;
  }

  // ---------- The status line ----------

  lemma {:induction false} FirstWord(w: string, rest: string)
    requires (forall i :: 0 <= i < |w| ==> !White(w[i])) && (rest == [] || White(rest[0]))
    ensures Word(w + rest) == w
  {
    hide White;
    if w == [] {
      assert w + rest == rest;
    } else {
      FirstWord(w[1..], rest);
      assert (w + rest)[1..] == w[1..] + rest;
    }
  }

  lemma WordsCons(w: string, rest: string)
    requires w != [] && (forall i :: 0 <= i < |w| ==> !White(w[i])) && (rest == [] || White(rest[0]))
    ensures Words(w + rest) == [w] + Words(rest)
  {
    hide White;
    var s := w + rest;
    assert !White(s[0]);
    assert TrimStart(s) == s;
    FirstWord(w, rest);
    assert s[|w|..] == rest;
  }

  lemma WordsSpace(rest: string)
    ensures Words(" " + rest) == Words(rest)
  {
    assert (" " + rest)[1..] == rest;
    assert TrimStart(" " + rest) == TrimStart(rest);
  }

  lemma {:induction false} DecimalReads(n: nat)
    ensures NumberOf(Decimal(n), 10) == Some(n)
  {
    var s := Decimal(n);
    if n < 10 {
      assert s[..0] == [] && NumberOf([], 10) == Some(0);
    } else {
      DecimalReads(n / 10);
      assert s[..|s| - 1] == Decimal(n / 10);
    }
  }

  lemma DecimalParses(n: nat, bound: nat)
    requires n < bound
    ensures ParseUnsigned(Decimal(n), 10, bound) == Some(n)
    ensures Decimal(n) != [] && forall i :: 0 <= i < |Decimal(n)| ==>
      !White(Decimal(n)[i]) && Decimal(n)[i] != '\r' && Decimal(n)[i] != '\n'
  {
    DecimalReads(n);
    DecimalValue(n);
    hide NumberOf, Decimal;
  }

  lemma StatusReads(status: nat, reason: string, more: seq<string>)
    requires status < 65536 && OneTextLine(reason) && PlainLines(more)
    ensures PlainLine(StatusLine(status, reason))
    ensures StatusOf(HeadText([StatusLine(status, reason)] + more)) == Ok(status)
  {
    hide Words, Lines, ParseUnsigned, Decimal, HeadText;
    var version, code := "HTTP/1.1", Decimal(status);
    DecimalParses(status, 65536);
    var line := StatusLine(status, reason);
    assert line == version + (" " + (code + (" " + reason)));
    WordsCons(version, " " + (code + (" " + reason)));
    WordsSpace(code + (" " + reason));
    WordsCons(code, " " + reason);
    var lines := [line] + more;
    assert PlainLines(lines) by {
      forall i | 0 <= i < |lines| ensures PlainLine(lines[i]) {
        assert i > 0 ==> lines[i] == more[i - 1];
      }
    }
    HeadLinesRead(lines);
    assert (lines + [""])[0] == line;
    assert "HTTP/1." <= version;
  }

  lemma {:induction false} WordBegins(s: string)
    ensures Word(s) <= s
  {
    hide White;
    if s != [] && !White(s[0]) {
      WordBegins(s[1..]);
      assert s == [s[0]] + s[1..];
    }
  }

  /** A head without a status line of HTTP/1 is never given a status. */
  lemma StatusIsHttp1(head: string)
    ensures StatusOf(head).Ok? ==> Lines(head) != [] && "HTTP/1." <= TrimStart(Lines(head)[0])
  {
    hide Lines, Word, TrimStart, ParseUnsigned, White;
    if StatusOf(head).Ok? {
      WordBegins(TrimStart(Lines(head)[0]));
    }
  }

  // ---------- Header lines ----------

  /** A name without blanks or colon, and a value without line breaks or blanks at its ends. */
  predicate GoodHeader(h: Header) {
    && h.0 != [] && ':' !in h.0 && !BadName(h.0) && Trim(h.0) == h.0
    && OneTextLine(h.1) && Trim(h.1) == h.1
  }

  predicate GoodHeaders(hs: seq<Header>) { forall i :: 0 <= i < |hs| ==> GoodHeader(hs[i]) }

  lemma TrimBlankBefore(v: string)
    ensures Trim(" " + v) == Trim(v)
  {
    assert (" " + v)[1..] == v;
    assert TrimStart(" " + v) == TrimStart(v);
  }

  lemma HeaderParts(h: Header)
    requires GoodHeader(h)
    ensures PlainLine(HeaderText(h))
    ensures UpTo(HeaderText(h), ':') == h.0 && After(HeaderText(h), ':') == Some(" " + h.1) && Trim(" " + h.1) == h.1
  {
    hide Trim, UpTo, After;
    SplitAt(h.0, ':', " " + h.1);
    TrimBlankBefore(h.1);
    forall i | 0 <= i < |h.0| ensures h.0[i] != '\r' && h.0[i] != '\n' {
      assert h.0[i] as int > 0x20;
    }
  }

  lemma {:induction false} HeadersRead(hs: seq<Header>)
    requires GoodHeaders(hs)
    ensures PlainLines(HeaderTexts(hs)) && HeaderList(HeaderTexts(hs) + [""]) == Ok(hs)
  {
    hide HeaderText, GoodHeader, UpTo, After, Trim;
    if hs == [] {
      assert HeaderTexts(hs) + [""] == [""];
    } else {
      var line, rest := HeaderText(hs[0]), HeaderTexts(hs[1..]);
      HeaderParts(hs[0]);
      assert Trim(hs[0].0) == hs[0].0 by {
        NameTrimmed(hs[0]);
      }
      HeadersRead(hs[1..]);
      var all := HeaderTexts(hs) + [""];
      assert all[0] == line && all[1..] == rest + [""];
      assert [(hs[0].0, hs[0].1)] + hs[1..] == hs;
    }
  }

  lemma NameTrimmed(h: Header)
    requires GoodHeader(h)
    ensures Trim(h.0) == h.0
  {
  }

  // ---------- Framing ----------

  /** A header that says nothing about the body's length. */
  predicate Neutral(h: Header) {
    GoodHeader(h) && LowerAscii(h.0) != "content-length" && LowerAscii(h.0) != "transfer-encoding"
  }

  predicate AllNeutral(hs: seq<Header>) { forall i :: 0 <= i < |hs| ==> Neutral(hs[i]) }

  lemma NeutralLine(h: Header, f: Framing)
    requires Neutral(h)
    ensures FrameLine(HeaderText(h), f) == Ok(f)
  {
    hide HeaderText, UpTo, After, Trim, LowerAscii, FoldTest;
    HeaderParts(h);
    NeverFolded(" " + h.1);
  }

  /** Neutral headers leave the framing to the last one. */
  lemma {:induction false} LastHeaderFrames(hs: seq<Header>, last: Header, f: Framing)
    requires AllNeutral(hs) && GoodHeader(last)
    ensures FrameLines(HeaderTexts(hs + [last]) + [""], f) == FrameLine(HeaderText(last), f)
  {
    hide HeaderText, Neutral, GoodHeader, FrameLine;
    if hs == [] {
      assert hs + [last] == [last] && [last][1..] == [];
      var all := HeaderTexts([last]) + [""];
      assert all[0] == HeaderText(last) && all[1..] == [""];
      NotEmptyText(last);
    } else {
      assert (hs + [last])[0] == hs[0] && (hs + [last])[1..] == hs[1..] + [last];
      var all := HeaderTexts(hs + [last]) + [""];
      assert all[0] == HeaderText(hs[0]) && all[1..] == HeaderTexts(hs[1..] + [last]) + [""];
      NeutralGood(hs[0]);
      NotEmptyText(hs[0]);
      NeutralLine(hs[0], f);
      LastHeaderFrames(hs[1..], last, f);
    }
  }

  lemma NeutralGood(h: Header)
    requires Neutral(h)
    ensures GoodHeader(h)
  {
  }

  lemma NotEmptyText(h: Header)
    requires GoodHeader(h)
    ensures HeaderText(h) != ""
  {
  }

  function LengthHeader(n: nat): Header { ("Content-Length", Decimal(n)) }

  function ChunkedHeader(): Header { ("Transfer-Encoding", "chunked") }

  lemma NoBlanksTrim(s: string)
    requires forall i :: 0 <= i < |s| ==> !White(s[i])
    ensures Trim(s) == s
  {
  }

  lemma LengthNames()
    ensures LowerAscii("Content-Length") == "content-length" && ':' !in "Content-Length"
    ensures !BadName("Content-Length") && Trim("Content-Length") == "Content-Length"
  {
    NoBlanksTrim("Content-Length");
  }

  lemma ChunkedLower()
    ensures LowerAscii("Transfer-Encoding") == "transfer-encoding"
  {
  }

  lemma ChunkedNames()
    ensures LowerAscii("Transfer-Encoding") == "transfer-encoding" && ':' !in "Transfer-Encoding"
    ensures !BadName("Transfer-Encoding") && Trim("Transfer-Encoding") == "Transfer-Encoding"
  {
    ChunkedLower();
    hide LowerAscii;
    NoBlanksTrim("Transfer-Encoding");
  }

  lemma ChunkedWord()
    ensures LowerAscii("chunked") == "chunked" && Trim("chunked") == "chunked"
  {
    NoBlanksTrim("chunked");
  }

  lemma LengthFrames(n: nat)
    requires n < TWO_64
    ensures GoodHeader(LengthHeader(n))
    ensures FrameLine(HeaderText(LengthHeader(n)), Framing(None, false)) == Ok(Framing(Some(n), false))
  {
    var h := LengthHeader(n);
    LengthNames();
    DecimalParses(n, TWO_64);
    NoBlanksTrim(Decimal(n));
    hide HeaderText, UpTo, After, Trim, LowerAscii, FoldTest, ParseUnsigned, Decimal, BadName;
    HeaderParts(h);
    NeverFolded(" " + h.1);
  }

  lemma {:induction false} SplitNone(s: string, c: char)
    requires c !in s
    ensures Split(s, c) == [s]
  {
    if s != [] {
      SplitNone(s[1..], c);
      assert [s[0]] + s[1..] == s;
    }
  }

  lemma SingleCoding(value: string, coding: string)
    requires ',' !in value && LowerAscii(Trim(value)) == coding && coding != []
    ensures Codings(Split(value, ',')) == [coding]
  {
    SplitNone(value, ',');
    hide LowerAscii, Trim, Split;
    assert [value][1..] == [] && Codings([]) == [];
    assert [coding] + [] == [coding];
  }

  lemma ChunkedCoding()
    ensures LastIsChunked(" " + "chunked")
  {
    ChunkedWord();
    TrimBlankBefore("chunked");
    NoComma("chunked");
    hide LowerAscii, Trim, Split, Codings;
    SingleCoding(" " + "chunked", "chunked");
  }

  lemma NoComma(s: string)
    requires ',' !in s
    ensures ',' !in " " + s
  {
  }

  lemma ChunkedIsGood()
    ensures GoodHeader(ChunkedHeader())
  {
    ChunkedNames();
    ChunkedWord();
    hide LowerAscii, Trim, BadName;
  }

  lemma ChunkedFrames()
    ensures GoodHeader(ChunkedHeader())
    ensures FrameLine(HeaderText(ChunkedHeader()), Framing(None, false)) == Ok(Framing(None, true))
  {
    var h := ChunkedHeader();
    ChunkedNames();
    ChunkedIsGood();
    ChunkedCoding();
    assert "content-length"[0] != "transfer-encoding"[0];
    HeaderParts(h);
    NeverFolded(" " + h.1);
    GoodName(h);
    hide *;
    CodingLine(HeaderText(h), "Transfer-Encoding", " " + "chunked");
  }

  lemma GoodName(h: Header)
    requires GoodHeader(h)
    ensures !BadName(h.0)
  {
  }

  lemma CodingLine(line: string, name: string, value: string)
    requires UpTo(line, ':') == name && After(line, ':') == Some(value) && !BadName(name) && !FoldTest(value)
    requires LowerAscii(name) == "transfer-encoding" && LowerAscii(name) != "content-length" && LastIsChunked(value)
    ensures FrameLine(line, Framing(None, false)) == Ok(Framing(None, true))
  {
    hide UpTo, After, BadName, FoldTest, LowerAscii, LastIsChunked;
  }

  // ---------- The whole response ----------

  lemma {:induction false} NeutralFrames(hs: seq<Header>, f: Framing)
    requires AllNeutral(hs)
    ensures FrameLines(HeaderTexts(hs) + [""], f) == Ok(f)
  {
    hide HeaderText, Neutral, GoodHeader, FrameLine;
    var all := HeaderTexts(hs) + [""];
    if hs == [] {
      assert all == [""];
    } else {
      assert all[0] == HeaderText(hs[0]) && all[1..] == HeaderTexts(hs[1..]) + [""];
      NeutralGood(hs[0]);
      NotEmptyText(hs[0]);
      NeutralLine(hs[0], f);
      NeutralFrames(hs[1..], f);
    }
  }

  lemma NeutralsGood(hs: seq<Header>)
    requires AllNeutral(hs)
    ensures GoodHeaders(hs)
  {
    hide GoodHeader;
    forall i | 0 <= i < |hs| ensures GoodHeader(hs[i]) {
      NeutralGood(hs[i]);
    }
  }

  /** What the client makes of a head followed by a body. */
  lemma HeadReads(p: Platform, status: nat, reason: string, hs: seq<Header>, f: Framing, body: seq<byte>)
    requires status < 65536 && OneTextLine(reason) && GoodHeaders(hs)
    requires FrameLines(HeaderTexts(hs) + [""], Framing(None, false)) == Ok(f) && !(f.chunked && f.length.Some?)
    requires p.lossy(Utf8.Encode(Head(status, reason, hs))) == Head(status, reason, hs)
    ensures var head := Utf8.Encode(Head(status, reason, hs));
      && HeaderEnd(head + body) == Some(|head|)
      && StatusOf(p.lossy(head)) == Ok(status)
      && FramingOf(p.lossy(head)) == Ok(f)
      && HeaderList(HeaderLines(p.lossy(head))) == Ok(hs)
  {
    hide Utf8.Encode, HeadText, HeaderText, StatusLine, Lines, HeaderList, HeaderTexts, FrameLines, FrameLine,
      StatusOf, HeaderEnd, Neutral, GoodHeader;
    HeadersRead(hs);
    var texts := HeaderTexts(hs);
    StatusReads(status, reason, texts);
    var lines := [StatusLine(status, reason)] + texts;
    assert PlainLines(lines) by {
      forall i | 0 <= i < |lines| ensures PlainLine(lines[i]) {
        assert i > 0 ==> lines[i] == texts[i - 1];
      }
    }
    HeadEnds(lines, body);
    HeadLinesRead(lines);
    assert (lines + [""])[1..] == texts + [""];
  }

  /** Neutral headers and one framing header make a head that reads back. */
  lemma FramedHead(p: Platform, status: nat, reason: string, hs: seq<Header>, last: Header, f: Framing, body: seq<byte>)
    requires status < 65536 && OneTextLine(reason) && AllNeutral(hs) && GoodHeader(last)
    requires FrameLine(HeaderText(last), Framing(None, false)) == Ok(f) && !(f.chunked && f.length.Some?)
    requires p.lossy(Utf8.Encode(Head(status, reason, hs + [last]))) == Head(status, reason, hs + [last])
    ensures var head := Utf8.Encode(Head(status, reason, hs + [last]));
      && HeaderEnd(head + body) == Some(|head|)
      && StatusOf(p.lossy(head)) == Ok(status)
      && FramingOf(p.lossy(head)) == Ok(f)
      && HeaderList(HeaderLines(p.lossy(head))) == Ok(hs + [last])
  {
    hide Utf8.Encode, Head, HeaderText, HeaderTexts, FrameLines, FrameLine, StatusOf, HeaderEnd, FramingOf, HeaderList,
      HeaderLines, Neutral, GoodHeader;
    NeutralsGood(hs);
    LastHeaderFrames(hs, last, Framing(None, false));
    HeadReads(p, status, reason, hs + [last], f, body);
  }

  /** A response whose length is announced. */
  function PrintSized(status: nat, reason: string, hs: seq<Header>, body: seq<byte>): seq<byte> {
    Utf8.Encode(Head(status, reason, hs + [LengthHeader(|body|)])) + body
  }

  /** A response in chunks. */
  function PrintChunked(status: nat, reason: string, hs: seq<Header>, data: seq<seq<byte>>): seq<byte> {
    Utf8.Encode(Head(status, reason, hs + [ChunkedHeader()])) + Wire(Printed(data), Utf8.Encode("0"), Crlf())
  }

  /** Lossy decoding leaves well-formed text alone. */
  predicate Keeps(p: Platform, text: string) { p.lossy(Utf8.Encode(text)) == text }

  lemma SizedParses(p: Platform, status: nat, reason: string, hs: seq<Header>, body: seq<byte>)
    requires status < 65536 && OneTextLine(reason) && AllNeutral(hs) && |body| < TWO_64
    requires Keeps(p, Head(status, reason, hs + [LengthHeader(|body|)]))
    ensures var raw := PrintSized(status, reason, hs, body);
      && Complete(p, raw) == (if p.checked && |raw| >= TWO_64 then Err(Panic) else Ok(true))
      && Parse(p, raw) == Ok(Response(status, hs + [LengthHeader(|body|)], body))
  {
    hide Utf8.Encode, Head, HeaderText, LengthHeader, FrameLine, StatusOf, HeaderEnd, FramingOf, HeaderList,
      HeaderLines;
    hide Neutral, GoodHeader, AddUsize;
    var last := LengthHeader(|body|);
    LengthFrames(|body|);
    FramedHead(p, status, reason, hs, last, Framing(Some(|body|), false), body);
    var head := Utf8.Encode(Head(status, reason, hs + [last]));
    assert (head + body)[..|head|] == head && (head + body)[|head|..] == body && body[..|body|] == body;
    SumAtMost(p.checked, |head|, |body|);
  }

  lemma SumAtMost(checked: bool, a: nat, b: nat)
    ensures AddUsize(checked, a, b).None? <==> checked && a + b >= TWO_64
    ensures AddUsize(checked, a, b).Some? ==> AddUsize(checked, a, b).value <= a + b
  {
  }

  lemma ChunkedParses(p: Platform, status: nat, reason: string, hs: seq<Header>, data: seq<seq<byte>>)
    requires status < 65536 && OneTextLine(reason) && AllNeutral(hs)
    requires forall i :: 0 <= i < |data| ==> 0 < |data[i]| < TWO_64
    requires Keeps(p, Head(status, reason, hs + [ChunkedHeader()]))
    ensures var raw := PrintChunked(status, reason, hs, data);
      if forall i :: 0 <= i < |data| ==> Countable(|data[i]|)
      then Complete(p, raw) == Ok(true) && Parse(p, raw) == Ok(Response(status, hs + [ChunkedHeader()], Concat(data)))
      else Complete(p, raw) == Err(Panic)
  {
    hide Utf8.Encode, Head, HeaderText, ChunkedHeader, FrameLine, StatusOf, HeaderEnd, FramingOf, HeaderList,
      HeaderLines, Neutral, GoodHeader, Dechunk, Wire, Printed, Concat, Countable;
    var last, body := ChunkedHeader(), Wire(Printed(data), Utf8.Encode("0"), Crlf());
    ChunkedFrames();
    PrintedDecodes(p.checked, data);
    FramedHead(p, status, reason, hs, last, Framing(None, true), body);
    var head := Utf8.Encode(Head(status, reason, hs + [last]));
    assert (head + body)[..|head|] == head && (head + body)[|head|..] == body;
  }

  /**
   * Whatever a server appends and however the reads fall, within the cap the client returns the sized
   * response it was sent.
   */
  lemma SizedDelivered(p: Platform, cap: u64, status: nat, reason: string, hs: seq<Header>, body: seq<byte>,
                       more: seq<byte>, segments: seq<seq<byte>>)
    requires status < 65536 && OneTextLine(reason) && AllNeutral(hs) && |body| < TWO_64
    requires Keeps(p, Head(status, reason, hs + [LengthHeader(|body|)]))
    requires Concat(segments) == PrintSized(status, reason, hs, body) + more && |Concat(segments)| <= cap
    ensures Receive(p, cap, [], segments) == Ok(Response(status, hs + [LengthHeader(|body|)], body))
  {
    hide PrintSized, Complete, Parse, Receive, Concat, Keeps, Head, Neutral;
    SizedParses(p, status, reason, hs, body);
    SettledOutcome(p, PrintSized(status, reason, hs, body), more);
    WithinCap(p, cap, segments);
  }

  lemma {:induction false} WireHolds(chunks: seq<Chunk>, last: seq<byte>, tail: seq<byte>, i: nat)
    requires i < |chunks|
    ensures |Wire(chunks, last, tail)| >= |chunks[i].data| + 2
  {
    if i > 0 {
      WireHolds(chunks[1..], last, tail, i - 1);
    }
  }

  /** The same for a response in chunks. */
  lemma ChunkedDelivered(p: Platform, cap: u64, status: nat, reason: string, hs: seq<Header>, data: seq<seq<byte>>,
                         more: seq<byte>, segments: seq<seq<byte>>)
    requires status < 65536 && OneTextLine(reason) && AllNeutral(hs)
    requires forall i :: 0 <= i < |data| ==> 0 < |data[i]| < TWO_64
    requires Keeps(p, Head(status, reason, hs + [ChunkedHeader()]))
    requires Concat(segments) == PrintChunked(status, reason, hs, data) + more && |Concat(segments)| <= cap
    ensures Receive(p, cap, [], segments) == Ok(Response(status, hs + [ChunkedHeader()], Concat(data)))
  {
    forall i | 0 <= i < |data| ensures Countable(|data[i]|) {
      WireHolds(Printed(data), Utf8.Encode("0"), Crlf(), i);
    }
    hide PrintChunked, Complete, Parse, Receive, Concat, Keeps, Head, Neutral;
    ChunkedParses(p, status, reason, hs, data);
    SettledOutcome(p, PrintChunked(status, reason, hs, data), more);
    WithinCap(p, cap, segments);
  }

  /** A sized response that ends before its announced length is an error, and not a shorter body. */
  lemma SizedTruncated(p: Platform, cap: u64, status: nat, reason: string, hs: seq<Header>, body: seq<byte>, n: nat,
                       segments: seq<seq<byte>>)
    requires status < 65536 && OneTextLine(reason) && AllNeutral(hs) && n < |body|
    requires Keeps(p, Head(status, reason, hs + [LengthHeader(|body|)]))
    requires |PrintSized(status, reason, hs, body)| <= cap
    requires Concat(segments) == Utf8.Encode(Head(status, reason, hs + [LengthHeader(|body|)])) + body[..n]
    ensures Receive(p, cap, [], segments) == Err(ShortBody)
  {
    hide Utf8.Encode, Head, HeaderText, LengthHeader, FrameLine, StatusOf, HeaderEnd, FramingOf, HeaderList,
      HeaderLines, Receive, Concat, Neutral, GoodHeader;
    var last, part := LengthHeader(|body|), body[..n];
    LengthFrames(|body|);
    FramedHead(p, status, reason, hs, last, Framing(Some(|body|), false), part);
    var head := Utf8.Encode(Head(status, reason, hs + [last]));
    var raw := head + part;
    assert raw[..|head|] == head && raw[|head|..] == part;
    assert Complete(p, raw) == Ok(false) && Parse(p, raw) == Err(ShortBody);
    UnsettledOutcome(p, raw);
    WithinCap(p, cap, segments);
  }

  /** Without a framing header the body is everything up to the end of the stream. */
  lemma BareDelivered(p: Platform, cap: u64, status: nat, reason: string, hs: seq<Header>, body: seq<byte>,
                      segments: seq<seq<byte>>)
    requires status < 65536 && OneTextLine(reason) && AllNeutral(hs) && Keeps(p, Head(status, reason, hs))
    requires Concat(segments) == Utf8.Encode(Head(status, reason, hs)) + body && |Concat(segments)| <= cap
    ensures Receive(p, cap, [], segments) == Ok(Response(status, hs, body))
  {
    hide Utf8.Encode, Head, HeaderTexts, FrameLines, StatusOf, HeaderEnd, FramingOf, HeaderList, HeaderLines, Receive,
      Concat, Neutral, GoodHeader;
    NeutralsGood(hs);
    NeutralFrames(hs, Framing(None, false));
    HeadReads(p, status, reason, hs, Framing(None, false), body);
    var head := Utf8.Encode(Head(status, reason, hs));
    var raw := head + body;
    assert raw[..|head|] == head && raw[|head|..] == body;
    assert Complete(p, raw) == Ok(false) && Parse(p, raw) == Ok(Response(status, hs, body));
    UnsettledOutcome(p, raw);
    WithinCap(p, cap, segments);
  }
}
