/** The client's result depends on the byte stream and not on how reads split it. */
module HttpLaws {
  import opened Common
  import opened Text
  import opened Http
  import opened HttpChunks

  // ---------- Prefixes ----------

  lemma HeaderEndStable(raw: seq<byte>, more: seq<byte>)
    requires HeaderEnd(raw).Some?
    ensures HeaderEnd(raw + more) == HeaderEnd(raw)
    ensures (raw + more)[..HeaderEnd(raw).value] == raw[..HeaderEnd(raw).value]
    ensures (raw + more)[HeaderEnd(raw).value..] == raw[HeaderEnd(raw).value..] + more
  {
    hide Find;
    FindStable(raw, more, [CR, LF, CR, LF]);
  }

  /** Once reading may stop, or must fail, more bytes do not change that. */
  lemma CompleteStays(p: Platform, raw: seq<byte>, more: seq<byte>)
    requires Complete(p, raw) != Ok(false)
    ensures Complete(p, raw + more) == Complete(p, raw)
  {
    hide FramingOf, Dechunk, HeaderEnd;
    HeaderEndStable(raw, more);
    var h := HeaderEnd(raw).value;
    if Final(Dechunk(p.checked, raw[h..])) {
      DechunkStable(p.checked, raw[h..], more);
    }
  }

  /** The announced length cannot be added to the length of the head in 64 bits. */
  predicate LengthOverruns(p: Platform, raw: seq<byte>) {
    && HeaderEnd(raw).Some?
    && var h := HeaderEnd(raw).value;
    var f := FramingOf(p.lossy(raw[..h]));
    f.Ok? && f.value.length.Some? && h + f.value.length.value >= TWO_64
  }

  /** What of the stream bears on the result: the head alone when the announced length overruns. */
  function Counted(p: Platform, raw: seq<byte>): seq<byte> {
    if LengthOverruns(p, raw) then raw[..HeaderEnd(raw).value] else raw
  }

  /** Anything that fits in memory parses as that. */
  lemma CountedParses(p: Platform, raw: seq<byte>)
    requires |raw| < TWO_64
    ensures Parse(p, Counted(p, raw)) == Parse(p, raw)
  {
    hide FramingOf, StatusOf, HeaderList, HeaderLines, Dechunk;
    if LengthOverruns(p, raw) {
      var h := HeaderEnd(raw).value;
      HeadAlone(raw);
      assert raw[..h][..h] == raw[..h] && raw[..h][h..] == [];
    }
  }

  lemma HeadAlone(raw: seq<byte>)
    requires HeaderEnd(raw).Some?
    ensures HeaderEnd(raw[..HeaderEnd(raw).value]) == HeaderEnd(raw)
  {
    hide Find;
    var pat, h := [CR, LF, CR, LF], HeaderEnd(raw).value;
    var head := raw[..h];
    FindMeaning(raw, pat);
    FindMeaning(head, pat);
    assert raw[h - 4..][..4] == head[h - 4..][..4];
    assert raw == head + raw[h..];
    if Find(head, pat).Some? {
      FindStable(head, raw[h..], pat);
    }
  }

  /** Any two complete prefixes of one stream parse alike. */
  lemma ParseStays(p: Platform, raw: seq<byte>, more: seq<byte>)
    requires Complete(p, raw) == Ok(true)
    ensures Parse(p, Counted(p, raw + more)) == Parse(p, Counted(p, raw))
  {
    hide FramingOf, Dechunk, HeaderEnd, StatusOf, HeaderList, HeaderLines;
    HeaderEndStable(raw, more);
    var h := HeaderEnd(raw).value;
    var f := FramingOf(p.lossy(raw[..h])).value;
    if !LengthOverruns(p, raw) {
      if f.length.Some? {
        assert (raw[h..] + more)[..f.length.value] == raw[h..][..f.length.value];
      } else {
        DechunkStable(p.checked, raw[h..], more);
      }
    }
  }

  // ---------- Any split gives one result ----------

  /** What the whole stream amounts to: a framing fault or a panic first, otherwise its parse. */
  function Outcome(p: Platform, stream: seq<byte>): Result<Response, Fault> {
    match Complete(p, stream) case Err(e) => Err(e) case Ok(_) => Parse(p, Counted(p, stream))
  }

  predicate Settled(p: Platform, raw: seq<byte>) { Complete(p, raw) != Ok(false) }

  /** The buffer of one read. */
  const BUFFER: nat := 8192

  /** The reads deliver the stream: never an empty one before its end, never more than a buffer. */
  predicate Delivers(segments: seq<seq<byte>>, stream: seq<byte>) {
    Concat(segments) == stream && forall i :: 0 <= i < |segments| ==> 1 <= |segments[i]| <= BUFFER
  }

  lemma SettledOutcome(p: Platform, raw: seq<byte>, more: seq<byte>)
    requires Settled(p, raw) && |raw| < TWO_64
    ensures Settled(p, raw + more)
    ensures match Complete(p, raw)
            case Err(e) => Outcome(p, raw + more) == Err(e)
            case Ok(done) => done && Outcome(p, raw + more) == Parse(p, raw)
  {
    hide Complete, Parse, Counted;
    CompleteStays(p, raw, more);
    if Complete(p, raw) == Ok(true) {
      ParseStays(p, raw, more);
      CountedParses(p, raw);
    }
  }

  lemma UnsettledOutcome(p: Platform, raw: seq<byte>)
    requires !Settled(p, raw)
    ensures Outcome(p, raw) == Parse(p, raw)
  {
    hide FramingOf, Dechunk, HeaderEnd, Parse, AddUsize;
    if LengthOverruns(p, raw) {
      var h := HeaderEnd(raw).value;
      var len := FramingOf(p.lossy(raw[..h])).value.length.value;
      LengthBound(p.lossy(raw[..h]));
      SumWraps(p.checked, h, len);
    }
  }

  lemma SumWraps(checked: bool, h: nat, len: nat)
    requires len < TWO_64 <= h + len
    ensures AddUsize(checked, h, len).None? || AddUsize(checked, h, len).value < h
  {
    if h < TWO_64 {
      SumOverruns(checked, h, len);
    }
  }

  lemma LengthBound(head: string)
    ensures var f := FramingOf(head); f.Ok? && f.value.length.Some? ==> f.value.length.value < TWO_64
  {
    hide HeaderLines, FrameLines;
    LineLengthBound(HeaderLines(head), Framing(None, false));
  }

  lemma {:induction false} LineLengthBound(lines: seq<string>, f: Framing)
    requires f.length.Some? ==> f.length.value < TWO_64
    ensures var g := FrameLines(lines, f); g.Ok? && g.value.length.Some? ==> g.value.length.value < TWO_64
  {
    hide UpTo, After, Trim, LowerAscii, NumberOf, LastIsChunked, NamesChunked, BadName;
    if lines != [] && lines[0] != "" && FrameLine(lines[0], f).Ok? {
      LineLengthBound(lines[1..], FrameLine(lines[0], f).value);
    }
  }

  /** Within 64 bits, completeness by length is what it should be exactly when the sum does not overflow. */
  lemma LengthExact(p: Platform, raw: seq<byte>)
    requires |raw| < TWO_64 && HeaderEnd(raw).Some?
    requires var f := FramingOf(p.lossy(raw[..HeaderEnd(raw).value])); f.Ok? && f.value.length.Some?
    ensures var h := HeaderEnd(raw).value; var len := FramingOf(p.lossy(raw[..h])).value.length.value;
      Complete(p, raw) == Ok(|raw| >= h + len) <==> h + len < TWO_64
  {
    hide FramingOf, Dechunk, HeaderEnd, AddUsize;
    var h := HeaderEnd(raw).value;
    var len := FramingOf(p.lossy(raw[..h])).value.length.value;
    LengthBound(p.lossy(raw[..h]));
    if h + len < TWO_64 {
      SumFits(p.checked, h, len);
    } else {
      SumWraps(p.checked, h, len);
    }
  }

  lemma SumFits(checked: bool, a: nat, b: nat)
    requires a + b < TWO_64
    ensures AddUsize(checked, a, b) == Some(a + b)
  {
  }

  lemma NothingYet(p: Platform)
    ensures !Settled(p, [])
  {
  }

  /**
   * Whatever the split, the client reports the stream's outcome or that the cap was passed, and the latter
   * only beyond the cap.
   */
  lemma {:induction false} ReceiveOutcome(p: Platform, cap: u64, raw: seq<byte>, segments: seq<seq<byte>>)
    requires !Settled(p, raw)
    ensures var r, stream := Receive(p, cap, raw, segments), raw + Concat(segments);
      r == Outcome(p, stream) || (r == Err(CapExceeded) && |stream| > cap)
    decreases |segments|
  {
    hide Complete, Parse;
    if segments == [] {
      assert raw + Concat(segments) == raw;
      UnsettledOutcome(p, raw);
    } else {
      var grown, later := raw + segments[0], Concat(segments[1..]);
      assert raw + Concat(segments) == grown + later;
      if |grown| <= cap {
        if Settled(p, grown) {
          SettledOutcome(p, grown, later);
        } else {
          ReceiveOutcome(p, cap, grown, segments[1..]);
        }
      }
    }
  }

  lemma NoEarlierCap(p: Platform, stream: seq<byte>)
    ensures Outcome(p, stream) != Err(CapExceeded)
  {
    hide Parse, Counted;
    ParseFaults(p, Counted(p, stream));
    CompleteFaults(p, stream);
  }

  lemma CompleteFaults(p: Platform, raw: seq<byte>)
    ensures Complete(p, raw) != Err(CapExceeded)
  {
    hide Dechunk, HeaderEnd, HeaderLines, FrameLines;
    if HeaderEnd(raw).Some? {
      FramingFaults(HeaderLines(p.lossy(raw[..HeaderEnd(raw).value])), Framing(None, false));
    }
  }

  lemma ParseFaults(p: Platform, raw: seq<byte>)
    ensures Parse(p, raw) != Err(CapExceeded)
  {
    hide Dechunk, HeaderEnd, HeaderLines, FrameLines, HeaderList, StatusOf;
    if HeaderEnd(raw).Some? {
      var h := HeaderEnd(raw).value;
      FramingFaults(HeaderLines(p.lossy(raw[..h])), Framing(None, false));
      HeaderFaults(HeaderLines(p.lossy(raw[..h])));
      DechunkFaults(p.checked, raw[h..]);
      StatusFaults(p.lossy(raw[..h]));
    }
  }

  lemma StatusFaults(head: string)
    ensures StatusOf(head) != Err(CapExceeded)
  {
    hide Lines, Words, ParseUnsigned;
  }

  lemma {:induction false} FramingFaults(lines: seq<string>, f: Framing)
    ensures FrameLines(lines, f) != Err(CapExceeded)
  {
    hide UpTo, After, Trim, LowerAscii, ParseUnsigned, LastIsChunked, NamesChunked, BadName;
    if lines != [] && lines[0] != "" && FrameLine(lines[0], f).Ok? {
      FramingFaults(lines[1..], FrameLine(lines[0], f).value);
    }
  }

  lemma {:induction false} HeaderFaults(lines: seq<string>)
    ensures HeaderList(lines) != Err(CapExceeded)
  {
    hide UpTo, After, Trim;
    if lines != [] && lines[0] != "" && After(lines[0], ':').Some? {
      HeaderFaults(lines[1..]);
    }
  }

  lemma {:induction false} DechunkFaults(checked: bool, rest: seq<byte>)
    ensures Dechunk(checked, rest) != Err(CapExceeded)
    decreases |rest|
  {
    if Find(rest, Crlf()).Some? {
      var i := Find(rest, Crlf()).value;
      SizeFaults(rest[..i]);
      hide Find, ChunkSize;
      if ChunkSize(rest[..i]).Ok? {
        var size, body := ChunkSize(rest[..i]).value, rest[i + 2..];
        DechunkOf(checked, rest, size, body);
        if Countable(size) && HasData(body, size) {
          DechunkFaults(checked, body[size + 2..]);
        }
      }
    }
  }

  /** Up to the cap, the result is a function of the stream alone. */
  lemma WithinCap(p: Platform, cap: u64, segments: seq<seq<byte>>)
    requires |Concat(segments)| <= cap
    ensures Receive(p, cap, [], segments) == Outcome(p, Concat(segments))
  {
    NothingYet(p);
    ReceiveOutcome(p, cap, [], segments);
    assert [] + Concat(segments) == Concat(segments);
  }

  // ---------- Beyond the cap ----------

  lemma SettledGrows(p: Platform, stream: seq<byte>, m: nat, n: nat)
    requires m <= n <= |stream| && Settled(p, stream[..m])
    ensures Settled(p, stream[..n])
  {
    assert stream[..n] == stream[..m] + stream[m..n];
    CompleteStays(p, stream[..m], stream[m..n]);
  }

  /** Nothing within the cap settles: every split runs into the cap. */
  lemma {:induction false} AlwaysCapped(p: Platform, cap: u64, raw: seq<byte>, segments: seq<seq<byte>>)
    requires var stream := raw + Concat(segments); |raw| <= cap < |stream| && !Settled(p, stream[..cap])
    ensures Receive(p, cap, raw, segments) == Err(CapExceeded)
    decreases |segments|
  {
    hide Complete, Parse;
    var stream := raw + Concat(segments);
    if segments != [] {
      var grown := raw + segments[0];
      assert stream == grown + Concat(segments[1..]);
      if |grown| <= cap {
        assert stream[..|grown|] == grown;
        if Settled(p, grown) {
          SettledGrows(p, stream, |grown|, cap);
        }
        AlwaysCapped(p, cap, grown, segments[1..]);
      }
    }
  }

  /** A prefix settles a whole buffer below the cap: no read can pass the cap first. */
  lemma {:induction false} NeverCapped(p: Platform, cap: u64, raw: seq<byte>, segments: seq<seq<byte>>)
    requires forall i :: 0 <= i < |segments| ==> |segments[i]| <= BUFFER
    requires cap + 1 >= BUFFER && cap < |raw + Concat(segments)|
    requires Settled(p, (raw + Concat(segments))[..cap + 1 - BUFFER])
    requires !Settled(p, raw) && |raw| <= cap
    ensures Receive(p, cap, raw, segments) == Outcome(p, raw + Concat(segments))
    decreases |segments|
  {
    hide Complete, Parse;
    var stream, m := raw + Concat(segments), cap + 1 - BUFFER;
    assert stream[..|raw|] == raw;
    if m <= |raw| {
      SettledGrows(p, stream, m, |raw|);
      assert false;
    }
    var grown, later := raw + segments[0], Concat(segments[1..]);
    assert stream == grown + later;
    if Settled(p, grown) {
      SettledOutcome(p, grown, later);
    } else {
      NeverCapped(p, cap, grown, segments[1..]);
    }
  }

  /** Reading on from an unsettled prefix within the cap. */
  lemma {:induction false} ReceiveOn(p: Platform, cap: u64, raw: seq<byte>, a: seq<seq<byte>>, b: seq<seq<byte>>)
    requires |raw + Concat(a)| <= cap && !Settled(p, raw + Concat(a))
    ensures Receive(p, cap, raw, a + b) == Receive(p, cap, raw + Concat(a), b)
    decreases |a|
  {
    hide Complete, Parse;
    if a == [] {
      assert a + b == b && raw + Concat(a) == raw;
    } else {
      var grown := raw + a[0];
      assert raw + Concat(a) == grown + Concat(a[1..]);
      assert (a + b)[0] == a[0] && (a + b)[1..] == a[1..] + b;
      if Settled(p, grown) {
        CompleteStays(p, grown, Concat(a[1..]));
        assert false;
      }
      ReceiveOn(p, cap, grown, a[1..], b);
    }
  }

  /** The stream cut into pieces of at most a buffer. */
  function Pieces(s: seq<byte>): (r: seq<seq<byte>>)
    ensures Delivers(r, s)
    decreases |s|
  {
    if s == [] then []
    else
      var n := if |s| < BUFFER then |s| else BUFFER;
      assert s == s[..n] + s[n..];
      [s[..n]] + Pieces(s[n..])
  }

  lemma DeliversAppend(a: seq<seq<byte>>, x: seq<byte>, b: seq<seq<byte>>, y: seq<byte>)
    requires Delivers(a, x) && Delivers(b, y)
    ensures Delivers(a + b, x + y)
  {
    hide Concat;
    ConcatAppend(a, b);
  }

  lemma DeliversOne(x: seq<byte>)
    requires 1 <= |x| <= BUFFER
    ensures Delivers([x], x)
  {
    assert [x][1..] == [] && x + [] == x;
  }

  /** The place where a prefix first settles. */
  lemma {:induction false} FirstSettled(p: Platform, stream: seq<byte>, lo: nat, hi: nat) returns (n: nat)
    requires lo <= hi <= |stream| && !Settled(p, stream[..lo]) && Settled(p, stream[..hi])
    ensures lo < n <= hi && Settled(p, stream[..n]) && !Settled(p, stream[..n - 1])
    decreases hi - lo
  {
    hide Settled;
    if Settled(p, stream[..lo + 1]) {
      n := lo + 1;
    } else {
      n := FirstSettled(p, stream, lo + 1, hi);
    }
  }

  /** Bytes beyond the cap follow a prefix that settles within a buffer of it. */
  predicate Straddles(p: Platform, cap: u64, stream: seq<byte>) {
    && |stream| > cap
    && Settled(p, stream[..cap])
    && !(cap + 1 >= BUFFER && Settled(p, stream[..cap + 1 - BUFFER]))
  }

  /** Otherwise every split gives one result: the outcome, or the cap when nothing within it settles. */
  lemma SplitDoesNotMatter(p: Platform, cap: u64, stream: seq<byte>, segments: seq<seq<byte>>)
    requires Delivers(segments, stream) && !Straddles(p, cap, stream)
    ensures Receive(p, cap, [], segments) ==
      if |stream| > cap && !Settled(p, stream[..cap]) then Err(CapExceeded) else Outcome(p, stream)
  {
    hide Complete, Parse, Receive, Outcome;
    NothingYet(p);
    assert [] + Concat(segments) == stream;
    if |stream| <= cap {
      WithinCap(p, cap, segments);
    } else if !Settled(p, stream[..cap]) {
      AlwaysCapped(p, cap, [], segments);
    } else {
      NeverCapped(p, cap, [], segments);
    }
  }

  /** When the stream straddles the cap, one split reads the outcome and another passes the cap. */
  lemma SplitMatters(p: Platform, cap: u64, stream: seq<byte>) returns (a: seq<seq<byte>>, b: seq<seq<byte>>)
    requires Straddles(p, cap, stream)
    ensures Delivers(a, stream) && Delivers(b, stream)
    ensures Receive(p, cap, [], a) == Outcome(p, stream) && Receive(p, cap, [], b) == Err(CapExceeded)
  {
    hide Pieces, Parse, Complete, Delivers;
    NothingYet(p);
    assert stream[..0] == [];
    var lo := if cap + 1 >= BUFFER then cap + 1 - BUFFER else 0;
    var n := FirstSettled(p, stream, lo, cap);
    a := StopsAt(p, cap, stream, n);
    b := LeapsOver(p, cap, stream, n);
  }

  lemma Cut(s: seq<byte>, i: nat, j: nat)
    requires i <= j <= |s|
    ensures [] + s[..i] == s[..i] && s[..i] + s[i..j] == s[..j] && s[..j] + s[j..] == s
    ensures s[..i] + (s[i..j] + s[j..]) == s
  {
    assert s[i..j] + s[j..] == s[i..];
  }

  lemma StopsAt(p: Platform, cap: u64, stream: seq<byte>, n: nat) returns (a: seq<seq<byte>>)
    requires 0 < n <= cap < |stream| && Settled(p, stream[..n]) && !Settled(p, stream[..n - 1])
    ensures Delivers(a, stream) && Receive(p, cap, [], a) == Outcome(p, stream)
  {
    hide Pieces, Parse, Complete, Receive;
    var head, step, tail := stream[..n - 1], stream[n - 1..n], stream[n..];
    var before, after := Pieces(head), [step] + Pieces(tail);
    a := before + after;
    DeliversOne(step);
    DeliversAppend([step], step, Pieces(tail), tail);
    DeliversAppend(before, head, after, step + tail);
    Cut(stream, n - 1, n);
    ReceiveOn(p, cap, [], before, after);
    SettledOutcome(p, stream[..n], tail);
    ReceiveStep(p, cap, head, after);
  }

  lemma LeapsOver(p: Platform, cap: u64, stream: seq<byte>, n: nat) returns (b: seq<seq<byte>>)
    requires 0 < n <= cap < |stream| && cap + 2 - n <= BUFFER && !Settled(p, stream[..n - 1])
    ensures Delivers(b, stream) && Receive(p, cap, [], b) == Err(CapExceeded)
  {
    hide Pieces, Parse, Complete, Receive;
    var head, leap, tail := stream[..n - 1], stream[n - 1..cap + 1], stream[cap + 1..];
    var before, after := Pieces(head), [leap] + Pieces(tail);
    b := before + after;
    DeliversOne(leap);
    DeliversAppend([leap], leap, Pieces(tail), tail);
    DeliversAppend(before, head, after, leap + tail);
    Cut(stream, n - 1, cap + 1);
    ReceiveOn(p, cap, [], before, after);
    ReceiveStep(p, cap, head, after);
  }

  lemma ReceiveStep(p: Platform, cap: u64, raw: seq<byte>, segments: seq<seq<byte>>)
    requires segments != []
    ensures |raw + segments[0]| > cap ==> Receive(p, cap, raw, segments) == Err(CapExceeded)
    ensures |raw + segments[0]| <= cap && Settled(p, raw + segments[0]) ==>
        Receive(p, cap, raw, segments) ==
          match Complete(p, raw + segments[0]) case Err(e) => Err(e) case Ok(_) => Parse(p, raw + segments[0])
  {
    hide Complete, Parse;
  }

  /** How reads split the stream has no effect on the result. */
  ghost predicate SplitIndependent(p: Platform, cap: u64, stream: seq<byte>) {
    forall a, b :: Delivers(a, stream) && Delivers(b, stream) ==> Receive(p, cap, [], a) == Receive(p, cap, [], b)
  }

  /** The result is a function of the stream exactly when the stream does not straddle the cap. */
  lemma SplitIndependence(p: Platform, cap: u64, stream: seq<byte>)
    ensures SplitIndependent(p, cap, stream) <==> !Straddles(p, cap, stream)
  {
    hide Receive, Delivers, Straddles, Settled, Outcome;
    if Straddles(p, cap, stream) {
      var a, b := SplitMatters(p, cap, stream);
      NoEarlierCap(p, stream);
      assert Receive(p, cap, [], a) != Receive(p, cap, [], b);
    } else {
      forall a, b | Delivers(a, stream) && Delivers(b, stream)
        ensures Receive(p, cap, [], a) == Receive(p, cap, [], b)
      {
        SplitDoesNotMatter(p, cap, stream, a);
        SplitDoesNotMatter(p, cap, stream, b);
      }
    }
  }

  // ---------- What the framing says ----------

  /** The header lines before the first empty line. */
  function Taken(lines: seq<string>): seq<string> {
    if lines == [] || lines[0] == "" then [] else [lines[0]] + Taken(lines[1..])
  }

  predicate Named(line: string, name: string) { LowerAscii(UpTo(line, ':')) == name }

  function LengthOf(line: string): Option<nat>
    requires After(line, ':').Some?
  {
    ParseUnsigned(Trim(After(line, ':').value), 10, TWO_64)
  }

  predicate Chunks(line: string) {
    Named(line, "transfer-encoding") && After(line, ':').Some? && LastIsChunked(After(line, ':').value)
  }

  /** A line the framing accepts, given the length it settles on. */
  predicate Acceptable(line: string, length: Option<nat>) {
    && After(line, ':').Some?
    && !BadName(UpTo(line, ':'))
    && (Named(line, "content-length") ==> length.Some? && LengthOf(line) == length)
    && (Named(line, "transfer-encoding") ==>
          LastIsChunked(After(line, ':').value) || !NamesChunked(After(line, ':').value))
  }

  predicate AllAcceptable(lines: seq<string>, length: Option<nat>) {
    forall i :: 0 <= i < |lines| ==> Acceptable(lines[i], length)
  }

  predicate SomeLength(lines: seq<string>) { exists i :: 0 <= i < |lines| && Named(lines[i], "content-length") }

  predicate SomeChunked(lines: seq<string>) { exists i :: 0 <= i < |lines| && Chunks(lines[i]) }

  /** Starting from `f`, the lines amount to the framing `g`. */
  predicate AmountTo(lines: seq<string>, f: Framing, g: Framing) {
    && AllAcceptable(lines, g.length)
    && (f.length.Some? ==> g.length == f.length)
    && (g.length.Some? ==> f.length.Some? || SomeLength(lines))
    && (g.chunked <==> f.chunked || SomeChunked(lines))
  }

  lemma NeverFolded(value: string)
    ensures !FoldTest(value)
  {
  }

  lemma FirstLine(line: string, rest: seq<string>, length: Option<nat>)
    ensures AllAcceptable([line] + rest, length) <==> Acceptable(line, length) && AllAcceptable(rest, length)
    ensures SomeLength([line] + rest) <==> Named(line, "content-length") || SomeLength(rest)
    ensures SomeChunked([line] + rest) <==> Chunks(line) || SomeChunked(rest)
  {
    hide Acceptable, Chunks, Named;
    var all := [line] + rest;
    assert all[0] == line && forall i :: 0 <= i < |rest| ==> all[i + 1] == rest[i];
    assert forall i :: 0 < i < |all| ==> all[i] == rest[i - 1];
  }

  lemma LineAmounts(line: string, rest: seq<string>, f: Framing, g: Framing)
    ensures AmountTo([line] + rest, f, g) <==> FrameLine(line, f).Ok? && AmountTo(rest, FrameLine(line, f).value, g)
  {
    FirstLine(line, rest, g.length);
    hide UpTo, After, Trim, LowerAscii, ParseUnsigned, LastIsChunked, NamesChunked, BadName, FoldTest, AllAcceptable,
      SomeLength, SomeChunked;
    if After(line, ':').Some? {
      NeverFolded(After(line, ':').value);
    }
    assert "content-length"[0] != "transfer-encoding"[0];
  }

  lemma {:induction false} LinesAmount(lines: seq<string>, f: Framing, g: Framing)
    ensures FrameLines(lines, f) == Ok(g) <==> AmountTo(Taken(lines), f, g)
  {
    hide FrameLine, AllAcceptable, SomeLength, SomeChunked, AmountTo;
    if lines == [] || lines[0] == "" {
      NoLines(f, g);
    } else {
      LineAmounts(lines[0], Taken(lines[1..]), f, g);
      if FrameLine(lines[0], f).Ok? {
        LinesAmount(lines[1..], FrameLine(lines[0], f).value, g);
      }
    }
  }

  lemma NoLines(f: Framing, g: Framing)
    ensures AmountTo([], f, g) <==> f == g
  {
  }

  /**
   * `response_framing` accepts exactly the header blocks whose lines are well formed, whose lengths agree,
   * whose chunked coding comes last, and that do not use both.
   */
  lemma FramingMeaning(head: string, g: Framing)
    ensures FramingOf(head) == Ok(g) <==>
      AmountTo(Taken(HeaderLines(head)), Framing(None, false), g) && !(g.chunked && g.length.Some?)
  {
    hide FrameLines, AmountTo, Taken, HeaderLines;
    LinesAmount(HeaderLines(head), Framing(None, false), g);
  }

  /** After the framing is accepted, `parse_headers` cannot fail. */
  lemma {:induction false} HeadersParse(lines: seq<string>, f: Framing)
    requires FrameLines(lines, f).Ok?
    ensures HeaderList(lines).Ok?
  {
    hide UpTo, Trim;
    if lines != [] && lines[0] != "" {
      HeadersParse(lines[1..], FrameLine(lines[0], f).value);
    }
  }
}
