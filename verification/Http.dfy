/** The HTTP/1.1 client's response side (`tf-transport/src/lib.rs`): reading, framing, chunk decoding, parsing. */
module Http {
  import opened Common
  import opened Text
  import Utf8

  datatype Fault =
    | CapExceeded
    | NoHeaderEnd
    | EmptyHead
    | NoStatusLine
    | NotHttp1
    | BadStatus
    | NoColon(line: string)
    | BadHeaderName(name: string)
    | Folded
    | BadLength
    | LengthConflict
    | ChunkedNotFinal
    | BothFramings
    | NoChunkHeader
    | ChunkHeaderNotUtf8
    | BadChunkSize
    | NoTrailerEnd
    | BadChunkBody
    | ShortBody
    | Panic

  datatype Response = Response(status: nat, headers: seq<(string, string)>, body: seq<byte>)

  datatype Framing = Framing(length: Option<nat>, chunked: bool)

  /** Lossy UTF-8 decoding, and whether the build checks sums for overflow or lets them wrap. */
  datatype Platform = Platform(lossy: seq<byte> -> string, checked: bool)

  /** `a + b` on 64-bit sizes: a checked build panics on overflow, another wraps around. */
  function AddUsize(checked: bool, a: nat, b: nat): Option<nat> {
    if a + b < TWO_64 then Some(a + b) else if checked then None else Some((a + b) % TWO_64)
  }

  const CR: byte := 13
  const LF: byte := 10

  function Crlf(): seq<byte> { [CR, LF] }

  /** `find_header_end`: the index after the first blank line. */
  function HeaderEnd(raw: seq<byte>): (r: Option<nat>)
    ensures r.Some? ==> 4 <= r.value <= |raw|
  {
    match Find(raw, [CR, LF, CR, LF]) case Some(i) => Some(i + 4) case None => None
  }

  // ---------- Header lines ----------

  predicate BadName(name: string) { exists i :: 0 <= i < |name| && name[i] as int <= 0x20 }

  /** The test for an obsolete line fold, which asks a trimmed text to start with a blank. */
  predicate FoldTest(value: string) {
    value != [] && value[0] == ' ' && TrimStart(value) != [] && TrimStart(value)[0] in {' ', '\t'}
  }

  /** The codings named by a `Transfer-Encoding` value. */
  function Codings(pieces: seq<string>): seq<string> {
    if pieces == [] then []
    else
      var v := LowerAscii(Trim(pieces[0]));
      (if v == [] then [] else [v]) + Codings(pieces[1..])
  }

  predicate LastIsChunked(value: string) {
    var cs := Codings(Split(value, ','));
    cs != [] && cs[|cs| - 1] == "chunked"
  }

  predicate NamesChunked(value: string) { "chunked" in Codings(Split(value, ',')) }

  /** One header line's effect on the framing. */
  function FrameLine(line: string, f: Framing): Result<Framing, Fault> {
    var name, rest := UpTo(line, ':'), After(line, ':');
    if rest.None? then Err(NoColon(line))
    else if BadName(name) then Err(BadHeaderName(name))
    else if FoldTest(rest.value) then Err(Folded)
    else if LowerAscii(name) == "content-length" then
      match ParseUnsigned(Trim(rest.value), 10, TWO_64)
      case None => Err(BadLength)
      case Some(n) =>
        if f.length.Some? then (if f.length.value != n then Err(LengthConflict) else Ok(f))
        else Ok(f.(length := Some(n)))
    else if LowerAscii(name) == "transfer-encoding" then
      if LastIsChunked(rest.value) then Ok(f.(chunked := true))
      else if NamesChunked(rest.value) then Err(ChunkedNotFinal)
      else Ok(f)
    else Ok(f)
  }

  /** All header lines up to the first empty one. */
  function FrameLines(lines: seq<string>, f: Framing): Result<Framing, Fault> {
    if lines == [] || lines[0] == "" then Ok(f)
    else
      var g :- FrameLine(lines[0], f);
      FrameLines(lines[1..], g)
  }

  function CheckBoth(r: Result<Framing, Fault>): Result<Framing, Fault> {
    if r.Ok? && r.value.chunked && r.value.length.Some? then Err(BothFramings) else r
  }

  function HeaderLines(head: string): seq<string> { var ls := Lines(head); if ls == [] then [] else ls[1..] }

  /** `response_framing`. */
  function FramingOf(head: string): Result<Framing, Fault> {
    CheckBoth(FrameLines(HeaderLines(head), Framing(None, false)))
  }

  method ResponseFraming(head: string) returns (r: Result<Framing, Fault>)
    ensures r == FramingOf(head)
  {
    hide Lines, FrameLine;
    var framing := Framing(None, false);
    var lines := HeaderLines(head);
    var i := 0;
    assert lines[0..] == lines;
    while i < |lines| && lines[i] != ""
      invariant 0 <= i <= |lines|
      invariant FrameLines(lines[i..], framing) == FrameLines(lines, Framing(None, false))
    {
      assert lines[i..][0] == lines[i] && lines[i..][1..] == lines[i + 1..];
      var step := FrameOneLine(lines[i], framing);
      if step.Err? {
        return Err(step.error);
      }
      framing := step.value;
      i := i + 1;
    }
    if framing.chunked && framing.length.Some? {
      return Err(BothFramings);
    }
    r := Ok(framing);
  }

  /** The loop body of `response_framing`; its fold exit is never taken. */
  method FrameOneLine(line: string, f: Framing) returns (r: Result<Framing, Fault>)
    ensures r == FrameLine(line, f)
  {
    hide Codings, Split, ParseUnsigned;
    var name, rest := UpTo(line, ':'), After(line, ':');
    if rest.None? {
      return Err(NoColon(line));
    }
    if BadName(name) {
      return Err(BadHeaderName(name));
    }
    if FoldTest(rest.value) {
      assert false;
    }
    r := Ok(f);
    if LowerAscii(name) == "content-length" {
      var parsed := ParseUnsigned(Trim(rest.value), 10, TWO_64);
      if parsed.None? {
        return Err(BadLength);
      }
      if f.length.Some? && f.length.value != parsed.value {
        return Err(LengthConflict);
      }
      if f.length.None? {
        r := Ok(f.(length := parsed));
      }
    } else if LowerAscii(name) == "transfer-encoding" {
      if LastIsChunked(rest.value) {
        r := Ok(f.(chunked := true));
      } else if NamesChunked(rest.value) {
        return Err(ChunkedNotFinal);
      }
    }
  }

  /** `parse_headers`. */
  function HeaderList(lines: seq<string>): Result<seq<(string, string)>, Fault> {
    if lines == [] || lines[0] == "" then Ok([])
    else
      match After(lines[0], ':')
      case None => Err(NoColon([]))
      case Some(value) =>
        var rest :- HeaderList(lines[1..]);
        Ok([(Trim(UpTo(lines[0], ':')), Trim(value))] + rest)
  }

  method ParseHeaders(head: string) returns (r: Result<seq<(string, string)>, Fault>)
    ensures r == HeaderList(HeaderLines(head))
  {
    hide Lines, Trim, UpTo, After;
    var headers: seq<(string, string)> := [];
    var lines := HeaderLines(head);
    var i := 0;
    assert lines[0..] == lines;
    PrependAppend([], [], HeaderList(lines));
    while i < |lines| && lines[i] != ""
      invariant 0 <= i <= |lines|
      invariant Prepend(headers, HeaderList(lines[i..])) == HeaderList(lines)
    {
      assert lines[i..][0] == lines[i] && lines[i..][1..] == lines[i + 1..];
      var value := After(lines[i], ':');
      if value.None? {
        return Err(NoColon([]));
      }
      var header := (Trim(UpTo(lines[i], ':')), Trim(value.value));
      PrependAppend(headers, [header], HeaderList(lines[i + 1..]));
      headers := headers + [header];
      i := i + 1;
    }
    assert headers + [] == headers;
    r := Ok(headers);
  }

  // ---------- Chunks ----------

  /** The size a chunk header line announces. */
  function ChunkSize(line: seq<byte>): Result<nat, Fault> {
    match Utf8.Decode(line)
    case None => Err(ChunkHeaderNotUtf8)
    case Some(text) =>
      match ParseUnsigned(UpTo(Trim(text), ';'), 16, TWO_64)
      case None => Err(BadChunkSize)
      case Some(n) => Ok(n)
  }

  /** `decode_chunked`. */
  function Dechunk(checked: bool, rest: seq<byte>): Result<seq<byte>, Fault>
    decreases |rest|
  {
    match Find(rest, Crlf())
    case None => Err(NoChunkHeader)
    case Some(i) =>
      var size :- ChunkSize(rest[..i]);
      var body := rest[i + 2..];
      if size == 0 then (if Find(body, Crlf()).None? then Err(NoTrailerEnd) else Ok([]))
      else
        match AddUsize(checked, size, 2)
        case None => Err(Panic)
        case Some(end) =>
          if |body| < end then Err(BadChunkBody)
          else if end < size then Err(Panic)
          else if body[size..end] != Crlf() then Err(BadChunkBody)
          else
            var more :- Dechunk(checked, body[end..]);
            Ok(body[..size] + more)
  }

  method DecodeChunked(checked: bool, input: seq<byte>) returns (r: Result<seq<byte>, Fault>)
    ensures r == Dechunk(checked, input)
  {
    hide ChunkSize, Find;
    var rest, out: seq<byte> := input, [];
    PrependAppend<byte, Fault>([], [], Dechunk(checked, input));
    while true
      invariant Prepend(out, Dechunk(checked, rest)) == Dechunk(checked, input)
      decreases |rest|
    {
      var lineEnd := Find(rest, Crlf());
      if lineEnd.None? {
        return Err(NoChunkHeader);
      }
      var size := ChunkSize(rest[..lineEnd.value]);
      if size.Err? {
        return Err(size.error);
      }
      rest := rest[lineEnd.value + 2..];
      if size.value == 0 {
        if Find(rest, Crlf()).None? {
          return Err(NoTrailerEnd);
        }
        assert out + [] == out;
        return Ok(out);
      }
      var end := AddUsize(checked, size.value, 2);
      if end.None? {
        return Err(Panic);
      }
      if |rest| < end.value {
        return Err(BadChunkBody);
      }
      if end.value < size.value {
        return Err(Panic);
      }
      if rest[size.value..end.value] != Crlf() {
        return Err(BadChunkBody);
      }
      PrependAppend<byte, Fault>(out, rest[..size.value], Dechunk(checked, rest[end.value..]));
      out := out + rest[..size.value];
      rest := rest[end.value..];
    }
  }

  // ---------- Completeness and parsing ----------

  /** `response_complete`: reading may stop. */
  function Complete(p: Platform, raw: seq<byte>): Result<bool, Fault> {
    match HeaderEnd(raw)
    case None => Ok(false)
    case Some(h) =>
      var f :- FramingOf(p.lossy(raw[..h]));
      if f.length.Some? then
        match AddUsize(p.checked, h, f.length.value)
        case None => Err(Panic)
        case Some(end) => Ok(|raw| >= end)
      else if f.chunked then
        match Dechunk(p.checked, raw[h..])
        case Ok(_) => Ok(true)
        case Err(fault) => if fault.Panic? then Err(Panic) else Ok(false)
      else Ok(false)
  }

  /** The status line's code. */
  function StatusOf(head: string): Result<nat, Fault> {
    var ls := Lines(head);
    if ls == [] then Err(EmptyHead)
    else
      var words := Words(ls[0]);
      if words == [] then Err(NoStatusLine)
      else if !("HTTP/1." <= words[0]) then Err(NotHttp1)
      else if |words| == 1 then Err(BadStatus)
      else match ParseUnsigned(words[1], 10, 65536) case Some(n) => Ok(n) case None => Err(BadStatus)
  }

  function BodyOf(checked: bool, f: Framing, raw: seq<byte>): Result<seq<byte>, Fault> {
    if f.length.Some? then (if |raw| < f.length.value then Err(ShortBody) else Ok(raw[..f.length.value]))
    else if f.chunked then Dechunk(checked, raw)
    else Ok(raw)
  }

  /** `parse_response`. */
  function Parse(p: Platform, raw: seq<byte>): Result<Response, Fault> {
    match HeaderEnd(raw)
    case None => Err(NoHeaderEnd)
    case Some(h) =>
      var head := p.lossy(raw[..h]);
      var status :- StatusOf(head);
      var f :- FramingOf(head);
      var headers :- HeaderList(HeaderLines(head));
      var body :- BodyOf(p.checked, f, raw[h..]);
      Ok(Response(status, headers, body))
  }

  method ParseResponse(p: Platform, raw: seq<byte>) returns (r: Result<Response, Fault>)
    ensures r == Parse(p, raw)
  {
    hide FramingOf, StatusOf, HeaderList, HeaderLines, Dechunk;
    var end := HeaderEnd(raw);
    if end.None? {
      return Err(NoHeaderEnd);
    }
    var head := p.lossy(raw[..end.value]);
    var status := StatusOf(head);
    if status.Err? {
      return Err(status.error);
    }
    var framing := ResponseFraming(head);
    if framing.Err? {
      return Err(framing.error);
    }
    var headers := ParseHeaders(head);
    if headers.Err? {
      return Err(headers.error);
    }
    var bodyRaw := raw[end.value..];
    var body := bodyRaw;
    if framing.value.length.Some? {
      if |bodyRaw| < framing.value.length.value {
        return Err(ShortBody);
      }
      body := bodyRaw[..framing.value.length.value];
    } else if framing.value.chunked {
      var decoded := DecodeChunked(p.checked, bodyRaw);
      if decoded.Err? {
        return Err(decoded.error);
      }
      body := decoded.value;
    }
    r := Ok(Response(status.value, headers.value, body));
  }

  method ResponseComplete(p: Platform, raw: seq<byte>) returns (r: Result<bool, Fault>)
    ensures r == Complete(p, raw)
  {
    hide FramingOf, Dechunk;
    var end := HeaderEnd(raw);
    if end.None? {
      return Ok(false);
    }
    var framing := ResponseFraming(p.lossy(raw[..end.value]));
    if framing.Err? {
      return Err(framing.error);
    }
    if framing.value.length.Some? {
      var needed := AddUsize(p.checked, end.value, framing.value.length.value);
      if needed.None? {
        return Err(Panic);
      }
      return Ok(|raw| >= needed.value);
    }
    if framing.value.chunked {
      var decoded := DecodeChunked(p.checked, raw[end.value..]);
      if decoded.Err? && decoded.error.Panic? {
        return Err(Panic);
      }
      return Ok(decoded.Ok?);
    }
    r := Ok(false);
  }

  // ---------- The read loop ----------

  /** What the client returns when the connection delivers `segments` one after another and then ends. */
  function Receive(p: Platform, cap: u64, raw: seq<byte>, segments: seq<seq<byte>>): Result<Response, Fault>
    decreases |segments|
  {
    if segments == [] then Parse(p, raw)
    else
      var grown := raw + segments[0];
      if |grown| > cap then Err(CapExceeded)
      else match Complete(p, grown)
        case Err(e) => Err(e)
        case Ok(true) => Parse(p, grown)
        case Ok(false) => Receive(p, cap, grown, segments[1..])
  }

  /** The loop of `send_inner`, over the successive non-empty reads. */
  method ReadLoop(p: Platform, cap: u64, segments: seq<seq<byte>>) returns (r: Result<Response, Fault>)
    ensures r == Receive(p, cap, [], segments)
  {
    hide Complete, Parse;
    var raw: seq<byte> := [];
    var i := 0;
    assert segments[0..] == segments;
    while i < |segments|
      invariant 0 <= i <= |segments|
      invariant Receive(p, cap, raw, segments[i..]) == Receive(p, cap, [], segments)
    {
      assert segments[i..][0] == segments[i] && segments[i..][1..] == segments[i + 1..];
      raw := raw + segments[i];
      if |raw| > cap {
        return Err(CapExceeded);
      }
      var complete := ResponseComplete(p, raw);
      if complete.Err? {
        return Err(complete.error);
      }
      if complete.value {
        break;
      }
      i := i + 1;
    }
    r := ParseResponse(p, raw);
  }
}
