/** Reloading the store's files gives back its memory, and exactly when each file does. */
module FileStoreLaws {
  import opened Common
  import opened Canonical
  import opened Decimals
  import opened Text
  import opened FileStore
  import CanonicalReader
  import FieldEscape
  import HashRef
  import Merkle
  import Utf8

  // ---------- Texts without line breaks or tabs ----------

  /** No control characters. */
  predicate Clean(s: string) { forall i :: 0 <= i < |s| ==> s[i] as int >= 0x20 }

  /** Printed floats hold no control characters. */
  ghost predicate CleanFloats(env: Env) { forall bits: u64 :: env.float(bits).Some? ==> Clean(env.float(bits).value) }

  lemma {:induction false} EscapeAllClean(s: string)
    ensures Clean(EscapeAll(s))
  {
    if s != [] {
      EscapeAllClean(s[1..]);
    }
  }

  lemma {:induction false} JoinTextsClean(ts: seq<string>)
    requires forall i :: 0 <= i < |ts| ==> Clean(ts[i])
    ensures Clean(JoinTexts(ts))
  {
    if ts != [] {
      assert Clean(ts[0]);
      JoinTextsClean(ts[1..]);
    }
  }

  predicate CleanPairs(ps: seq<Pair>) { forall i :: 0 <= i < |ps| ==> Clean(ps[i].text) }

  lemma {:induction false} InsertClean(p: Pair, ps: seq<Pair>)
    requires Clean(p.text) && CleanPairs(ps)
    ensures CleanPairs(Insert(p, ps))
  {
    hide Less;
    if ps != [] && Less(ps[0].key, p.key) {
      InsertClean(p, ps[1..]);
    }
  }

  lemma {:induction false} SortClean(ps: seq<Pair>)
    requires CleanPairs(ps)
    ensures CleanPairs(Sort(ps))
  {
    if ps != [] {
      SortClean(ps[1..]);
      InsertClean(ps[0], Sort(ps[1..]));
    }
  }

  lemma CleanAppend(s: string, t: string)
    requires Clean(s) && Clean(t)
    ensures Clean(s + t)
  {
  }

  lemma QuoteClean(s: string)
    ensures Clean(Quote(s))
  {
    EscapeAllClean(s);
    hide EscapeAll;
  }

  lemma {:induction false} JoinClean(ps: seq<Pair>)
    requires CleanPairs(ps)
    ensures Clean(Join(ps))
  {
    if ps != [] {
      JoinClean(ps[1..]);
      QuoteClean(ps[0].key);
      assert Clean(ps[0].text) && Clean(":") && Clean(",") && Clean([]);
      hide Clean, Quote;
      var more := if |ps| == 1 then [] else "," + Join(ps[1..]);
      if |ps| > 1 {
        CleanAppend(",", Join(ps[1..]));
      }
      CleanAppend(Quote(ps[0].key), ":");
      CleanAppend(Quote(ps[0].key) + ":", ps[0].text);
      CleanAppend(Quote(ps[0].key) + ":" + ps[0].text, more);
    }
  }

  lemma IntClean(n: int)
    ensures Clean(PrintInt(n))
  {
    DecimalValue(if n < 0 then -n else n);
  }

  /** Canonical text has no control characters, whatever the strings in it. */
  lemma {:induction false} CanonClean(env: Env, v: Json)
    requires CleanFloats(env)
    ensures Canon(env, v).Ok? ==> Clean(Canon(env, v).value)
    decreases v, 1
  {
    match v
    case Number(n) => IntClean(n);
    case String(s) => EscapeAllClean(env.nfc(s));
    case Array(xs) =>
      ItemsClean(env, xs);
      BracketsClean(env, xs);
    case Object(ms) =>
      MembersClean(env, ms);
      BracesClean(env, ms);
    case _ =>
  }

  lemma BracketsClean(env: Env, xs: seq<Json>)
    requires CanonItems(env, xs).Ok? ==> forall i :: 0 <= i < |xs| ==> Clean(CanonItems(env, xs).value[i])
    ensures Canon(env, Array(xs)).Ok? ==> Clean(Canon(env, Array(xs)).value)
  {
    hide CanonItems, JoinTexts;
    if CanonItems(env, xs).Ok? {
      JoinTextsClean(CanonItems(env, xs).value);
    }
  }

  lemma BracesClean(env: Env, ms: seq<Member>)
    requires CanonMembers(env, ms).Ok? ==> CleanPairs(CanonMembers(env, ms).value)
    ensures Canon(env, Object(ms)).Ok? ==> Clean(Canon(env, Object(ms)).value)
  {
    hide CanonMembers, Sort, Join;
    if CanonMembers(env, ms).Ok? {
      SortClean(CanonMembers(env, ms).value);
      JoinClean(Sort(CanonMembers(env, ms).value));
    }
  }

  lemma {:induction false} ItemsClean(env: Env, xs: seq<Json>)
    requires CleanFloats(env)
    ensures CanonItems(env, xs).Ok? ==> forall i :: 0 <= i < |xs| ==> Clean(CanonItems(env, xs).value[i])
    decreases xs, 0
  {
    if xs != [] {
      CanonClean(env, xs[0]);
      ItemsClean(env, xs[1..]);
    }
  }

  lemma {:induction false} MembersClean(env: Env, ms: seq<Member>)
    requires CleanFloats(env)
    ensures CanonMembers(env, ms).Ok? ==> CleanPairs(CanonMembers(env, ms).value)
    decreases ms, 0
  {
    if ms != [] {
      MemberClean(env, ms[0]);
      MembersClean(env, ms[1..]);
    }
  }

  lemma {:induction false} MemberClean(env: Env, m: Member)
    requires CleanFloats(env)
    ensures CanonMember(env, m).Ok? ==> Clean(CanonMember(env, m).value.text)
    decreases m, 0
  {
    CanonClean(env, m.val);
  }

  // ---------- The proof log ----------

  lemma {:induction false} HexClean(bs: seq<byte>)
    ensures forall i :: 0 <= i < |HashRef.Hex(bs)| ==> HashRef.Hex(bs)[i] > ' '
  {
    if bs != [] {
      HexClean(bs[1..]);
    }
  }

  /** A reference is one visible word. */
  lemma RefIsWord(digest: seq<byte>)
    ensures var t := HashRef.Sha256Ref(digest); |t| > 0 && t[0] == 's' && Clean(t) && '\t' !in t
  {
    HexClean(digest);
    hide HashRef.Hex;
    var t := HashRef.Sha256Ref(digest);
    forall i | 0 <= i < |t| ensures t[i] > ' ' {
      if i >= 7 {
        assert t[i] == HashRef.Hex(digest)[i - 7];
      } else {
        assert t[i] == "sha256:"[i];
      }
    }
  }

  /** A hash as the store computes them. */
  ghost predicate IsRef(hash: string) { exists d: Merkle.Digest :: hash == HashRef.Sha256Ref(d) }

  /** The event reads back from its canonical text, whose hash it is filed under. */
  predicate Kept(w: World, hash: string, v: Json) {
    var text := Canon(w.env, v);
    text.Ok? && hash == Ref(w, text.value) && w.parse(text.value) == Some(v)
  }

  lemma LogLineColumns(w: World, hash: string, text: string)
    requires IsRef(hash)
    ensures var line := LogLine(w, hash, text);
      && UpTo(line, '\t') == hash && After(line, '\t').Some?
      && UpTo(After(line, '\t').value, '\t') == Checksum(w, hash, text)
      && After(After(line, '\t').value, '\t') == Some(text)
  {
    hide HashRef.Sha256Ref, Utf8.Encode, UpTo, After;
    var sum := Checksum(w, hash, text);
    var d: Merkle.Digest :| hash == HashRef.Sha256Ref(d);
    RefIsWord(d);
    RefIsWord(w.sha(Utf8.Encode(hash + "\t" + text)));
    SplitAt(hash, '\t', sum + "\t" + text);
    SplitAt(sum, '\t', text);
    assert LogLine(w, hash, text) == hash + "\t" + (sum + "\t" + text);
  }

  lemma LogLineParts(w: World, hash: string, text: string)
    requires IsRef(hash) && Clean(text)
    ensures var line := LogLine(w, hash, text);
      && '\n' !in line && '\r' !in line && !Blank(line)
      && UpTo(line, '\t') == hash && After(line, '\t').Some?
      && UpTo(After(line, '\t').value, '\t') == Checksum(w, hash, text)
      && After(After(line, '\t').value, '\t') == Some(text)
  {
    LogLineColumns(w, hash, text);
    hide HashRef.Sha256Ref, Utf8.Encode, Trim, White, UpTo, After;
    var line := LogLine(w, hash, text);
    var d: Merkle.Digest :| hash == HashRef.Sha256Ref(d);
    RefIsWord(d);
    RefIsWord(w.sha(Utf8.Encode(hash + "\t" + text)));
    TrimmedAway(line);
    Visible('s');
    assert line[0] == 's';
  }

  lemma Visible(c: char)
    requires c == 's'
    ensures !White(c)
  {
  }

  /** A line written for `hash` is read back as the event its text parses to, if the hash is the text's. */
  lemma LogLineReads(w: World, hash: string, text: string, n: nat)
    requires IsRef(hash) && Clean(text)
    ensures ReadRecord(w, LogLine(w, hash, text), n) ==
      if hash != Ref(w, text) then Err(HashMismatch(n))
      else match w.parse(text) case None => Err(ParseFailure(n)) case Some(v) => Ok((hash, v))
  {
    hide LogLine, Checksum, Ref, UpTo, After, Blank;
    LogLineParts(w, hash, text);
  }

  lemma {:induction false} LoadLogAppend(w: World, lines: seq<string>, line: string, n: nat, l: Ledger)
    requires LoadLog(w, lines, n, l).Ok?
    ensures LoadLog(w, lines + [line], n, l) == LoadLog(w, [line], n + |lines|, LoadLog(w, lines, n, l).value)
    decreases |lines|
  {
    hide ReadRecord, Blank;
    if lines == [] {
      assert lines + [line] == [line];
    } else {
      assert (lines + [line])[1..] == lines[1..] + [line];
      var m := if Blank(lines[0]) then l else var rec := ReadRecord(w, lines[0], n + 1).value; Admit(l, rec.0, rec.1);
      LoadLogAppend(w, lines[1..], line, n + 1, m);
    }
  }

  lemma LoadOne(w: World, line: string, n: nat, l: Ledger)
    requires !Blank(line)
    ensures LoadLog(w, [line], n, l) ==
      match ReadRecord(w, line, n + 1) case Err(e) => Err(e) case Ok(rec) => Ok(Admit(l, rec.0, rec.1))
  {
    hide ReadRecord, Blank;
    assert [line][1..] == [];
  }

  /** Appending a line to whole lines adds that line. */
  lemma AppendedLines(log: string, line: string)
    requires Ended(log) && '\n' !in line && '\r' !in line
    ensures Ended(log + line + "\n") && Lines(log + line + "\n") == Lines(log) + [line]
  {
    hide Lines;
    LineOfOne(line);
    LinesAppend(log, line + "\n");
    Regroup(log, line, "\n");
  }

  /** Loading a readable log with one more line is loading that line into what the log gives. */
  lemma AppendedLoads(w: World, log: string, line: string)
    requires Ended(log) && '\n' !in line && '\r' !in line && !Blank(line) && ReadLog(w, Some(log)).Ok?
    ensures ReadLog(w, Some(log + line + "\n")) ==
      match ReadRecord(w, line, |Lines(log)| + 1)
      case Err(e) => Err(e)
      case Ok(rec) => Ok(Admit(ReadLog(w, Some(log)).value, rec.0, rec.1))
  {
    hide Lines, LoadLog, ReadRecord, Blank, Admit;
    AppendedLines(log, line);
    var empty := Ledger([], map[]);
    LoadLogAppend(w, Lines(log), line, 0, empty);
    LoadOne(w, line, |Lines(log)|, LoadLog(w, Lines(log), 0, empty).value);
  }

  /** Appending an event's line to a readable log admits whatever its text parses to. */
  lemma AppendReads(w: World, log: string, text: string)
    requires Clean(text) && Ended(log) && ReadLog(w, Some(log)).Ok?
    ensures var hash := Ref(w, text); var longer := log + LogLine(w, hash, text) + "\n";
      && Ended(longer)
      && match w.parse(text)
         case None => ReadLog(w, Some(longer)).Err?
         case Some(v) => ReadLog(w, Some(longer)) == Ok(Admit(ReadLog(w, Some(log)).value, hash, v))
  {
    hide *;
    var hash := Ref(w, text);
    var line := LogLine(w, hash, text);
    RefIsRef(w, text);
    LogLineParts(w, hash, text);
    LogLineReads(w, hash, text, |Lines(log)| + 1);
    AppendedLines(log, line);
    AppendedLoads(w, log, line);
  }

  lemma RefIsRef(w: World, text: string)
    ensures IsRef(Ref(w, text))
  {
    hide HashRef.Sha256Ref, Utf8.Encode;
    var d: Merkle.Digest := w.sha(Utf8.Encode(text));
    assert Ref(w, text) == HashRef.Sha256Ref(d);
  }

  // ---------- Compaction ----------

  /** One entry per hash, in order, each hash a reference: what loading and appending build. */
  ghost predicate WellKeyed(l: Ledger) {
    && Distinct(l.order)
    && (forall h :: h in l.payloads <==> h in l.order)
    && forall i :: 0 <= i < |l.order| ==> IsRef(l.order[i])
  }

  lemma AdmitWellKeyed(l: Ledger, hash: string, v: Json)
    requires WellKeyed(l) && IsRef(hash)
    ensures WellKeyed(Admit(l, hash, v))
  {
    hide IsRef;
    var m := Admit(l, hash, v);
    assert forall h :: h in m.order <==> h in l.order || h == hash;
  }

  lemma {:induction false} LoadWellKeyed(w: World, lines: seq<string>, n: nat, l: Ledger)
    requires WellKeyed(l)
    ensures LoadLog(w, lines, n, l).Ok? ==> WellKeyed(LoadLog(w, lines, n, l).value)
    decreases |lines|
  {
    hide WellKeyed, Blank, Admit;
    if lines != [] {
      if Blank(lines[0]) {
        LoadWellKeyed(w, lines[1..], n + 1, l);
      } else if ReadRecord(w, lines[0], n + 1).Ok? {
        var rec := ReadRecord(w, lines[0], n + 1).value;
        RecordIsRef(w, lines[0], n + 1);
        AdmitWellKeyed(l, rec.0, rec.1);
        LoadWellKeyed(w, lines[1..], n + 1, Admit(l, rec.0, rec.1));
      }
    }
  }

  lemma RecordIsRef(w: World, line: string, n: nat)
    requires ReadRecord(w, line, n).Ok?
    ensures IsRef(ReadRecord(w, line, n).value.0)
  {
    hide Ref, Checksum, UpTo, After, IsRef;
    RefIsRef(w, After(After(line, '\t').value, '\t').value);
  }

  /** Whatever a log contains, loading it leaves one entry per hash. */
  lemma LoadedWellKeyed(w: World, file: Option<string>)
    ensures ReadLog(w, file).Ok? ==> WellKeyed(ReadLog(w, file).value)
  {
    hide LoadLog, Lines;
    assert WellKeyed(Ledger([], map[]));
    LoadWellKeyed(w, Lines(Content(file)), 0, Ledger([], map[]));
  }

  function TextOf(w: World, v: Json): string { match Canon(w.env, v) case Ok(t) => t case Err(_) => [] }

  predicate Printable(w: World, l: Ledger) { forall h :: h in l.payloads ==> Canon(w.env, l.payloads[h]).Ok? }

  /** The lines of a compacted log. */
  function CompactLines(w: World, order: seq<string>, payloads: map<string, Json>): seq<string>
    requires forall i :: 0 <= i < |order| ==> order[i] in payloads
  {
    if order == [] then []
    else [LogLine(w, order[0], TextOf(w, payloads[order[0]]))] + CompactLines(w, order[1..], payloads)
  }

  ghost predicate Entries(w: World, order: seq<string>, payloads: map<string, Json>) {
    forall i :: 0 <= i < |order| ==> order[i] in payloads && IsRef(order[i]) && Canon(w.env, payloads[order[i]]).Ok?
  }

  lemma {:induction false} CompactedLines(w: World, order: seq<string>, payloads: map<string, Json>)
    requires CleanFloats(w.env) && Entries(w, order, payloads)
    ensures var text := RenderLog(w, order, payloads);
      text.Ok? && Ended(text.value) && Lines(text.value) == CompactLines(w, order, payloads)
  {
    hide Canon, LogLine, Lines, IsRef;
    if order == [] {
      NoLines();
    } else {
      var hash, text := order[0], TextOf(w, payloads[order[0]]);
      var line := LogLine(w, hash, text);
      CompactedLines(w, order[1..], payloads);
      var rest := RenderLog(w, order[1..], payloads).value;
      CanonClean(w.env, payloads[hash]);
      LogLineParts(w, hash, text);
      LineOfOne(line);
      LinesAppend(line + "\n", rest);
    }
  }

  lemma NoLines()
    ensures Lines([]) == []
  {
  }

  predicate AllKept(w: World, order: seq<string>, payloads: map<string, Json>)
    requires forall i :: 0 <= i < |order| ==> order[i] in payloads
  {
    forall i :: 0 <= i < |order| ==> Kept(w, order[i], payloads[order[i]])
  }

  /** The ledger holding the first `i` entries. */
  function Part(l: Ledger, i: nat): Ledger
    requires i <= |l.order| && forall k :: 0 <= k < |l.order| ==> l.order[k] in l.payloads
  {
    Ledger(l.order[..i], map h | h in l.order[..i] && h in l.payloads :: l.payloads[h])
  }

  lemma PartGrows(l: Ledger, i: nat)
    requires WellKeyed(l) && i < |l.order|
    ensures l.order[i] in l.payloads && l.order[i] !in Part(l, i).payloads
    ensures Part(l, i + 1) == Admit(Part(l, i), l.order[i], l.payloads[l.order[i]])
  {
    hide IsRef;
    var h, p, q := l.order[i], Part(l, i), Part(l, i + 1);
    assert l.order[..i + 1] == l.order[..i] + [h];
    assert h in l.order;
    assert h !in l.order[..i];
    assert q.payloads == p.payloads[h := l.payloads[h]];
  }

  /** A hash that no later line names keeps its payload. */
  lemma {:induction false} Untouched(w: World, order: seq<string>, payloads: map<string, Json>, n: nat, l: Ledger,
                                     hash: string)
    requires CleanFloats(w.env) && Entries(w, order, payloads) && hash !in order && hash in l.payloads
    ensures var r := LoadLog(w, CompactLines(w, order, payloads), n, l); r.Ok? ==>
      hash in r.value.payloads && r.value.payloads[hash] == l.payloads[hash]
    decreases |order|
  {
    hide Canon, LogLine, ReadRecord, Blank, IsRef;
    if order != [] {
      var line := CompactLines(w, order, payloads)[0];
      ReadsBack(w, order[0], payloads[order[0]], n + 1);
      var rec := ReadRecord(w, line, n + 1);
      if rec.Ok? {
        Untouched(w, order[1..], payloads, n + 1, Admit(l, rec.value.0, rec.value.1), hash);
      }
    }
  }

  /** What the line written for an entry reads back as. */
  lemma ReadsBack(w: World, hash: string, v: Json, n: nat)
    requires CleanFloats(w.env) && IsRef(hash) && Canon(w.env, v).Ok?
    ensures var line := LogLine(w, hash, TextOf(w, v)); var rec := ReadRecord(w, line, n);
      && !Blank(line)
      && (rec.Ok? ==> rec.value.0 == hash)
      && (rec == Ok((hash, v)) <==> Kept(w, hash, v))
  {
    hide Canon, LogLine, ReadRecord, Blank, IsRef, Ref;
    CanonClean(w.env, v);
    LogLineParts(w, hash, TextOf(w, v));
    LogLineReads(w, hash, TextOf(w, v), n);
  }

  lemma {:induction false} CompactFrom(w: World, l: Ledger, i: nat, n: nat)
    requires CleanFloats(w.env) && WellKeyed(l) && Entries(w, l.order, l.payloads) && i <= |l.order|
    ensures LoadLog(w, CompactLines(w, l.order[i..], l.payloads), n, Part(l, i)) == Ok(l) <==>
      AllKept(w, l.order[i..], l.payloads)
    decreases |l.order| - i
  {
    hide Canon, LogLine, ReadRecord, Blank, IsRef, Kept, WellKeyed, Part, Admit;
    var rest := l.order[i..];
    if i == |l.order| {
      PartAll(l);
    } else {
      var hash, later := l.order[i], l.order[i + 1..];
      assert rest[0] == hash && rest[1..] == later;
      PartGrows(l, i);
      ReadsBack(w, hash, l.payloads[hash], n + 1);
      var rec := ReadRecord(w, CompactLines(w, rest, l.payloads)[0], n + 1);
      KeptFirst(w, rest, l.payloads);
      if rec == Ok((hash, l.payloads[hash])) {
        CompactFrom(w, l, i + 1, n + 1);
      } else if rec.Ok? {
        NotLater(l, i);
        var grown := Admit(Part(l, i), hash, rec.value.1);
        AdmitHolds(Part(l, i), hash, rec.value.1);
        Untouched(w, later, l.payloads, n + 1, grown, hash);
      }
    }
  }

  lemma PartAll(l: Ledger)
    requires WellKeyed(l)
    ensures Part(l, |l.order|) == l
  {
    hide IsRef;
    assert l.order[..|l.order|] == l.order;
    assert Part(l, |l.order|).payloads == l.payloads;
  }

  lemma KeptFirst(w: World, order: seq<string>, payloads: map<string, Json>)
    requires order != [] && forall i :: 0 <= i < |order| ==> order[i] in payloads
    ensures AllKept(w, order, payloads) <==> Kept(w, order[0], payloads[order[0]]) && AllKept(w, order[1..], payloads)
  {
    hide Kept;
    assert forall i :: 0 <= i < |order| ==> order[i] == if i == 0 then order[0] else order[1..][i - 1];
  }

  lemma NotLater(l: Ledger, i: nat)
    requires WellKeyed(l) && i < |l.order|
    ensures l.order[i] !in l.order[i + 1..]
  {
    hide IsRef;
  }

  lemma AdmitHolds(l: Ledger, hash: string, v: Json)
    ensures hash in Admit(l, hash, v).payloads && Admit(l, hash, v).payloads[hash] == v
  {
  }

  /** A compacted log reads back as the ledger exactly when every payload is kept by its canonical text. */
  lemma CompactExact(w: World, l: Ledger)
    requires CleanFloats(w.env) && WellKeyed(l) && Printable(w, l)
    ensures RenderLog(w, l.order, l.payloads).Ok?
    ensures ReadLog(w, Some(RenderLog(w, l.order, l.payloads).value)) == Ok(l) <==>
      forall h :: h in l.payloads ==> Kept(w, h, l.payloads[h])
  {
    hide Canon, IsRef, Kept, LoadLog, CompactLines, RenderLog, Lines;
    assert Entries(w, l.order, l.payloads) by {
      forall i | 0 <= i < |l.order|
        ensures l.order[i] in l.payloads && IsRef(l.order[i]) && Canon(w.env, l.payloads[l.order[i]]).Ok?
      {
        assert l.order[i] in l.order;
      }
    }
    CompactedLines(w, l.order, l.payloads);
    CompactFrom(w, l, 0, 0);
    assert l.order[0..] == l.order && Part(l, 0) == Ledger([], map[]);
    assert AllKept(w, l.order, l.payloads) <==> forall h :: h in l.payloads ==> Kept(w, h, l.payloads[h]) by {
      forall h | h in l.payloads && AllKept(w, l.order, l.payloads) ensures Kept(w, h, l.payloads[h]) {
        assert h in l.order;
      }
      forall i | 0 <= i < |l.order| && (forall h :: h in l.payloads ==> Kept(w, h, l.payloads[h]))
        ensures Kept(w, l.order[i], l.payloads[l.order[i]])
      {
        assert l.order[i] in l.order;
      }
    }
  }

  // ---------- The revocation file ----------

  /** A field as it comes back. */
  function Mangled(s: string): string { Utf8.Latin1(Utf8.Encode(s)) }

  function MangledKey(k: Key): Key { (Mangled(k.0), Mangled(k.1)) }

  predicate AsciiKey(k: Key) { Utf8.Ascii(k.0) && Utf8.Ascii(k.1) }

  /** The entry is written on a line that is not blank, in characters that come back. */
  predicate Readable(k: Key, at: string) { AsciiKey(k) && Utf8.Ascii(at) && !Blank(RevocationLine(k, at)) }

  lemma {:induction false} EscapedField(bs: seq<byte>)
    ensures var t := FieldEscape.EscapeBytes(bs); '\t' !in t && '\n' !in t && '\r' !in t
  {
    if bs != [] {
      EscapedField(bs[1..]);
    }
  }

  lemma EscapedText(s: string)
    ensures var t := FieldEscape.Escape(s); '\t' !in t && '\n' !in t && '\r' !in t
  {
    EscapedField(Utf8.Encode(s));
  }

  lemma RevocationLineParts(k: Key, at: string)
    ensures var line := RevocationLine(k, at);
      && '\n' !in line && '\r' !in line
      && UpTo(line, '\t') == FieldEscape.Escape(k.0) && After(line, '\t').Some?
      && UpTo(After(line, '\t').value, '\t') == FieldEscape.Escape(k.1)
      && After(After(line, '\t').value, '\t') == Some(FieldEscape.Escape(at))
  {
    hide FieldEscape.Escape;
    EscapedText(k.0);
    EscapedText(k.1);
    EscapedText(at);
    var a, b, c := FieldEscape.Escape(k.0), FieldEscape.Escape(k.1), FieldEscape.Escape(at);
    SplitAt(a, '\t', b + "\t" + c);
    SplitAt(b, '\t', c);
  }

  lemma RevocationReads(k: Key, at: string, n: nat)
    ensures ReadRevocation(RevocationLine(k, at), n) == Ok((MangledKey(k), Mangled(at)))
  {
    RevocationLineParts(k, at);
    hide RevocationLine, UpTo, After, FieldEscape.Escape, FieldEscape.Unescape, Utf8.Latin1, Utf8.Encode;
    FieldEscape.FieldComesBack(k.0);
    FieldEscape.FieldComesBack(k.1);
    FieldEscape.FieldComesBack(at);
  }

  /** The map that reading back the entries gives. */
  function ReadBack(keys: seq<Key>, m: map<Key, string>, acc: map<Key, string>): map<Key, string>
    requires forall i :: 0 <= i < |keys| ==> keys[i] in m
  {
    if keys == [] then acc
    else if Blank(RevocationLine(keys[0], m[keys[0]])) then ReadBack(keys[1..], m, acc)
    else ReadBack(keys[1..], m, acc[MangledKey(keys[0]) := Mangled(m[keys[0]])])
  }

  function RevocationLines(keys: seq<Key>, m: map<Key, string>): seq<string>
    requires forall i :: 0 <= i < |keys| ==> keys[i] in m
  {
    if keys == [] then [] else [RevocationLine(keys[0], m[keys[0]])] + RevocationLines(keys[1..], m)
  }

  lemma {:induction false} RenderedLines(keys: seq<Key>, m: map<Key, string>)
    requires forall i :: 0 <= i < |keys| ==> keys[i] in m
    ensures Lines(RenderRevocations(keys, m)) == RevocationLines(keys, m)
  {
    hide RevocationLine, Lines;
    if keys == [] {
      NoLines();
    } else {
      var line := RevocationLine(keys[0], m[keys[0]]);
      RenderedLines(keys[1..], m);
      RevocationLineParts(keys[0], m[keys[0]]);
      LineOfOne(line);
      LinesAppend(line + "\n", RenderRevocations(keys[1..], m));
    }
  }

  lemma {:induction false} LinesReadBack(keys: seq<Key>, m: map<Key, string>, n: nat, acc: map<Key, string>)
    requires forall i :: 0 <= i < |keys| ==> keys[i] in m
    ensures LoadRevocations(RevocationLines(keys, m), n, acc) == Ok(ReadBack(keys, m, acc))
    decreases |keys|
  {
    hide RevocationLine, Blank, ReadRevocation, Mangled;
    if keys != [] {
      RevocationReads(keys[0], m[keys[0]], n + 1);
      LinesReadBack(keys[1..], m, n + 1,
                    if Blank(RevocationLine(keys[0], m[keys[0]])) then acc
                    else acc[MangledKey(keys[0]) := Mangled(m[keys[0]])]);
    }
  }

  /** Whatever is written reads back without error, as `ReadBack`. */
  lemma FileReadsBack(keys: seq<Key>, m: map<Key, string>)
    requires forall i :: 0 <= i < |keys| ==> keys[i] in m
    ensures ReadRevocations(Some(RenderRevocations(keys, m))) == Ok(ReadBack(keys, m, map[]))
  {
    hide RenderRevocations, Lines, RevocationLines, LoadRevocations, ReadBack;
    RenderedLines(keys, m);
    LinesReadBack(keys, m, 0, map[]);
  }

  lemma AsciiStays(s: string)
    ensures |Mangled(s)| >= |s|
    ensures Utf8.Ascii(s) <==> Mangled(s) == s
    ensures !Utf8.Ascii(s) ==> |Mangled(s)| > |s| && !Utf8.Ascii(Mangled(s))
  {
    hide Utf8.Encode;
    Utf8.EncodeLength(s);
    if !Utf8.Ascii(s) {
      var i := HighByte(s);
      assert Mangled(s)[i] as int >= 0x80;
    }
  }

  /** A character beyond ASCII is written with a lead byte from 0xC2. */
  lemma {:induction false} HighByte(s: string) returns (i: nat)
    requires !Utf8.Ascii(s)
    ensures i < |Utf8.Encode(s)| && 0xC2 <= Utf8.Encode(s)[i] < 0xF5
  {
    assert s == [s[0]] + s[1..];
    Utf8.EncodeOfCons(s[0], s[1..]);
    if s[0] as int >= 0x80 {
      i := 0;
    } else {
      assert exists k :: 0 <= k < |s| && s[k] as int >= 0x80;
      var k :| 0 <= k < |s| && s[k] as int >= 0x80;
      assert s[1..][k - 1] == s[k];
      var j := HighByte(s[1..]);
      i := 1 + j;
    }
  }

  lemma {:induction false} HighCharWritten(bs: seq<byte>, i: nat)
    requires i < |bs| && 0xC2 <= bs[i] < 0xF5
    ensures bs[i] as char in FieldEscape.EscapeBytes(bs)
  {
    if i > 0 {
      HighCharWritten(bs[1..], i - 1);
    }
  }

  lemma InLine(k: Key, at: string, s: string, c: char)
    requires s == k.0 || s == k.1 || s == at
    requires c in FieldEscape.Escape(s)
    ensures c in RevocationLine(k, at)
  {
    hide FieldEscape.Escape;
    var line := RevocationLine(k, at);
    var a, b, e := FieldEscape.Escape(k.0), FieldEscape.Escape(k.1), FieldEscape.Escape(at);
    assert line == a + "\t" + (b + "\t" + e);
  }

  /** A line with a field beyond ASCII is not blank. */
  lemma HighNotBlank(k: Key, at: string)
    requires !AsciiKey(k)
    ensures !Blank(RevocationLine(k, at))
  {
    hide Utf8.Encode, RevocationLine, FieldEscape.EscapeBytes, Trim;
    var s := if !Utf8.Ascii(k.0) then k.0 else k.1;
    var i := HighByte(s);
    var b := Utf8.Encode(s)[i];
    HighCharWritten(Utf8.Encode(s), i);
    InLine(k, at, s, b as char);
    TrimmedAway(RevocationLine(k, at));
    var line := RevocationLine(k, at);
    var j :| 0 <= j < |line| && line[j] == b as char;
    assert !White(line[j]);
  }

  function Size(k: Key): nat { |k.0| + |k.1| }

  /** A key beyond ASCII comes back longer, and still beyond ASCII. */
  lemma MangledGrows(k: Key)
    ensures AsciiKey(k) ==> MangledKey(k) == k
    ensures !AsciiKey(k) ==> Size(MangledKey(k)) > Size(k) && !AsciiKey(MangledKey(k))
  {
    hide Mangled, Utf8.Ascii;
    AsciiStays(k.0);
    AsciiStays(k.1);
    assert k == (k.0, k.1);
  }

  lemma {:induction false} LargestKey(keys: set<Key>) returns (k: Key)
    requires keys != {}
    ensures k in keys && forall j :: j in keys ==> Size(j) <= Size(k)
    decreases |keys|
  {
    var x :| x in keys;
    var rest := keys - {x};
    assert forall j :: j in keys ==> j == x || j in rest;
    if rest == {} {
      k := x;
    } else {
      var y := LargestKey(rest);
      k := if Size(x) > Size(y) then x else y;
    }
  }

  predicate Loads(k: Key, m: map<Key, string>)
    requires k in m
  {
    !Blank(RevocationLine(k, m[k]))
  }

  /** The keys that come back are those of the entries that are not skipped. */
  lemma {:induction false} ReadBackKeys(keys: seq<Key>, m: map<Key, string>, acc: map<Key, string>, x: Key)
    requires forall i :: 0 <= i < |keys| ==> keys[i] in m
    ensures x in ReadBack(keys, m, acc) <==>
      x in acc || exists i :: 0 <= i < |keys| && Loads(keys[i], m) && MangledKey(keys[i]) == x
    decreases |keys|
  {
    hide RevocationLine, Blank, Mangled;
    if keys != [] {
      var rest := keys[1..];
      var grown := if Loads(keys[0], m) then acc[MangledKey(keys[0]) := Mangled(m[keys[0]])] else acc;
      ReadBackKeys(rest, m, grown, x);
      assert forall i :: 0 <= i < |rest| ==> rest[i] == keys[i + 1];
      assert forall i :: 0 < i < |keys| ==> keys[i] == rest[i - 1];
    }
  }

  lemma {:induction false} ReadBackValue(keys: seq<Key>, m: map<Key, string>, acc: map<Key, string>, i: nat)
    requires (forall j :: 0 <= j < |keys| ==> keys[j] in m && AsciiKey(keys[j])) && Distinct(keys)
    requires i < |keys| && Loads(keys[i], m)
    ensures keys[i] in ReadBack(keys, m, acc) && ReadBack(keys, m, acc)[keys[i]] == Mangled(m[keys[i]])
    decreases |keys|
  {
    hide RevocationLine, Blank, Mangled, AsciiKey;
    var rest := keys[1..];
    MangledGrows(keys[0]);
    var grown := if Loads(keys[0], m) then acc[keys[0] := Mangled(m[keys[0]])] else acc;
    if i > 0 {
      ReadBackValue(rest, m, grown, i - 1);
    } else {
      StaysPut(rest, m, grown, keys[0]);
    }
  }

  lemma {:induction false} StaysPut(keys: seq<Key>, m: map<Key, string>, acc: map<Key, string>, x: Key)
    requires (forall j :: 0 <= j < |keys| ==> keys[j] in m && AsciiKey(keys[j])) && x !in keys && x in acc
    ensures x in ReadBack(keys, m, acc) && ReadBack(keys, m, acc)[x] == acc[x]
    decreases |keys|
  {
    hide RevocationLine, Blank, Mangled, AsciiKey;
    if keys != [] {
      MangledGrows(keys[0]);
      StaysPut(keys[1..], m, if Loads(keys[0], m) then acc[keys[0] := Mangled(m[keys[0]])] else acc, x);
    }
  }

  predicate AllReadable(m: map<Key, string>) { forall k :: k in m ==> Readable(k, m[k]) }

  /** Readable entries come back as they are. */
  lemma ReadableComesBack(keys: seq<Key>, m: map<Key, string>)
    requires Enumerates(keys, m) && AllReadable(m)
    ensures ReadBack(keys, m, map[]) == m
  {
    hide RevocationLine, Blank, Mangled, ReadBack, Utf8.Ascii;
    var back := ReadBack(keys, m, map[]);
    forall k | k in m ensures k in back && back[k] == m[k] {
      var i :| 0 <= i < |keys| && keys[i] == k;
      ReadBackValue(keys, m, map[], i);
      AsciiStays(m[k]);
    }
    forall k | k in back ensures k in m {
      ReadBackKeys(keys, m, map[], k);
      var i :| 0 <= i < |keys| && Loads(keys[i], m) && MangledKey(keys[i]) == k;
      MangledGrows(keys[i]);
    }
  }

  /** If the entries come back as they are, every key is ASCII: the longest other key would come back longer. */
  lemma KeysAreAscii(keys: seq<Key>, m: map<Key, string>)
    requires Enumerates(keys, m) && ReadBack(keys, m, map[]) == m
    ensures forall k :: k in m ==> AsciiKey(k)
  {
    hide RevocationLine, Blank, Mangled, ReadBack, AsciiKey, Size;
    var high := set k | k in m && !AsciiKey(k);
    if high != {} {
      var k := LargestKey(high);
      var i :| 0 <= i < |keys| && keys[i] == k;
      HighNotBlank(k, m[k]);
      ReadBackKeys(keys, m, map[], MangledKey(k));
      MangledGrows(k);
      assert false;
    }
    forall k | k in m ensures AsciiKey(k) {
      assert k !in high;
    }
  }

  /** The revocation file reads back as the map exactly when every field is ASCII and no entry's line is blank. */
  lemma RevocationsExact(keys: seq<Key>, m: map<Key, string>)
    requires Enumerates(keys, m)
    ensures ReadRevocations(Some(RenderRevocations(keys, m))) == Ok(m) <==> AllReadable(m)
  {
    hide RevocationLine, Blank, Mangled, ReadBack, AsciiKey, RenderRevocations, ReadRevocations, Utf8.Ascii;
    FileReadsBack(keys, m);
    if AllReadable(m) {
      ReadableComesBack(keys, m);
    }
    if ReadBack(keys, m, map[]) == m {
      KeysAreAscii(keys, m);
      forall k | k in m ensures Readable(k, m[k]) {
        ReadBackKeys(keys, m, map[], k);
        var i :| 0 <= i < |keys| && Loads(keys[i], m) && MangledKey(keys[i]) == k;
        MangledGrows(keys[i]);
        ReadBackValue(keys, m, map[], i);
        AsciiStays(m[k]);
      }
    }
  }

  // ---------- Runs ----------

  datatype Op = DoAppend(event: Json) | DoInsert(key: Key, at: string) | DoCompact

  ghost predicate Step(w: World, s: Image, op: Op, t: Image) {
    match op
    case DoAppend(event) => exists r :: Appended(w, s, event, t, r)
    case DoInsert(k, at) => Inserted(s, k, at, t)
    case DoCompact => exists r :: Compacted(w, s, t, r)
  }

  /** The events the parser gives back from their canonical text, and the revocations a line can carry. */
  predicate Storable(w: World, op: Op) {
    match op
    case DoAppend(event) => var text := Canon(w.env, event); text.Ok? ==> w.parse(text.value) == Some(event)
    case DoInsert(k, at) => Readable(k, at)
    case DoCompact => true
  }

  /** A plain event in key order is storable if the parser reads its canonical text as RFC 8259 has it. */
  lemma PlainEventStorable(w: World, event: Json)
    requires Plain(w.env, event) && CanonicalReader.InOrder(event)
    requires Canon(w.env, event).Ok? ==>
      w.parse(Canon(w.env, event).value) == CanonicalReader.ReadText(Canon(w.env, event).value)
    ensures Storable(w, DoAppend(event))
  {
    hide Canon, CanonicalReader.ReadText, CanonicalReader.InOrder, Plain;
    CanonicalReader.CanonicalReads(w.env, event);
  }

  /** The files read back as the memory. */
  ghost predicate Faithful(w: World, s: Image) {
    ReadLog(w, s.log) == Ok(s.ledger) && ReadRevocations(s.revocationFile) == Ok(s.revocations)
  }

  /** What every step keeps. */
  ghost predicate Sound(w: World, s: Image) {
    && Faithful(w, s)
    && Ended(Content(s.log))
    && WellKeyed(s.ledger)
    && (forall h :: h in s.ledger.payloads ==> Kept(w, h, s.ledger.payloads[h]))
    && AllReadable(s.revocations)
  }

  lemma SoundIsFaithful(w: World, s: Image)
    requires Sound(w, s)
    ensures Faithful(w, s)
  {
    hide Faithful;
  }

  lemma FreshIsSound(w: World)
    ensures Sound(w, Fresh())
  {
  }

  lemma AppendKeeps(w: World, s: Image, event: Json, t: Image, r: Result<string, StoreError>)
    requires CleanFloats(w.env) && Sound(w, s) && Storable(w, DoAppend(event)) && Appended(w, s, event, t, r)
    ensures Sound(w, t)
  {
    hide Canon, WellKeyed, LogLine, Ref, LoadLog, Lines, AllReadable, ReadRevocations;
    if t != s {
      var text := Canon(w.env, event).value;
      var hash := Ref(w, text);
      RefIsRef(w, text);
      CanonClean(w.env, event);
      assert ReadLog(w, s.log) == ReadLog(w, Some(Content(s.log)));
      AppendReads(w, Content(s.log), text);
      AdmitWellKeyed(s.ledger, hash, event);
    }
  }

  lemma InsertKeeps(w: World, s: Image, k: Key, at: string, t: Image)
    requires Sound(w, s) && Readable(k, at) && Inserted(s, k, at, t)
    ensures Sound(w, t)
  {
    hide WellKeyed, ReadLog, ReadRevocations, RenderRevocations, Readable, Kept;
    var keys :| Enumerates(keys, t.revocations) && t.revocationFile == Some(RenderRevocations(keys, t.revocations));
    RevocationsExact(keys, t.revocations);
  }

  lemma CompactKeeps(w: World, s: Image, t: Image, r: Result<(), StoreError>)
    requires CleanFloats(w.env) && Sound(w, s) && Compacted(w, s, t, r)
    ensures Sound(w, t) && r.Ok?
  {
    hide WellKeyed, ReadLog, ReadRevocations, RenderRevocations, RenderLog, Readable, Canon;
    assert Printable(w, s.ledger);
    CompactExact(w, s.ledger);
    CompactEnds(w, s.ledger);
    var keys :| Enumerates(keys, s.revocations) && t.revocationFile == Some(RenderRevocations(keys, s.revocations));
    RevocationsExact(keys, s.revocations);
  }

  lemma CompactEnds(w: World, l: Ledger)
    requires RenderLog(w, l.order, l.payloads).Ok?
    ensures Ended(RenderLog(w, l.order, l.payloads).value)
    decreases |l.order|
  {
    hide Canon, LogLine;
    if l.order != [] {
      CompactEnds(w, Ledger(l.order[1..], l.payloads));
    }
  }

  lemma StepKeeps(w: World, s: Image, op: Op, t: Image)
    requires CleanFloats(w.env) && Sound(w, s) && Storable(w, op) && Step(w, s, op, t)
    ensures Sound(w, t)
  {
    hide Sound, Appended, Inserted, Compacted;
    match op
    case DoAppend(event) =>
      var r :| Appended(w, s, event, t, r);
      AppendKeeps(w, s, event, t, r);
    case DoInsert(k, at) => InsertKeeps(w, s, k, at, t);
    case DoCompact =>
      var r :| Compacted(w, s, t, r);
      CompactKeeps(w, s, t, r);
  }

  ghost predicate Runs(w: World, ops: seq<Op>, states: seq<Image>) {
    && |states| == |ops| + 1
    && states[0] == Fresh()
    && forall i :: 0 <= i < |ops| ==> Step(w, states[i], ops[i], states[i + 1])
  }

  /** After any run of storable operations from an empty directory, reloading the files gives the memory. */
  lemma {:induction false} ReloadGivesMemory(w: World, ops: seq<Op>, states: seq<Image>, n: nat)
    requires CleanFloats(w.env) && Runs(w, ops, states) && n <= |ops|
    requires forall i :: 0 <= i < |ops| ==> Storable(w, ops[i])
    ensures Sound(w, states[n]) && Faithful(w, states[n])
    decreases n
  {
    hide Sound, Step, Storable, CleanFloats;
    if n == 0 {
      FreshIsSound(w);
    } else {
      ReloadGivesMemory(w, ops, states, n - 1);
      StepKeeps(w, states[n - 1], ops[n - 1], states[n]);
    }
    SoundIsFaithful(w, states[n]);
  }

  /**
   * From a sound store, an insertion leaves the files readable as the memory exactly when its fields are
   * ASCII and its line is not blank.
   */
  lemma InsertExact(w: World, s: Image, k: Key, at: string, t: Image)
    requires Sound(w, s) && Inserted(s, k, at, t)
    ensures Faithful(w, t) <==> Readable(k, at)
  {
    hide WellKeyed, ReadLog, ReadRevocations, RenderRevocations, Readable, Kept;
    var keys :| Enumerates(keys, t.revocations) && t.revocationFile == Some(RenderRevocations(keys, t.revocations));
    RevocationsExact(keys, t.revocations);
    assert k in t.revocations && t.revocations[k] == at;
  }

  /**
   * From a sound store, appending a new event leaves the files readable as the memory exactly when its
   * canonical text parses back to it.
   */
  lemma AppendExact(w: World, s: Image, event: Json, t: Image, hash: string)
    requires CleanFloats(w.env) && Sound(w, s) && Appended(w, s, event, t, Ok(hash)) && hash !in s.ledger.payloads
    ensures Faithful(w, t) <==> w.parse(Canon(w.env, event).value) == Some(event)
  {
    hide Canon, WellKeyed, LogLine, Ref, LoadLog, Lines, AllReadable, ReadRevocations;
    var text := Canon(w.env, event).value;
    CanonClean(w.env, event);
    assert ReadLog(w, s.log) == ReadLog(w, Some(Content(s.log)));
    AppendReads(w, Content(s.log), text);
    if w.parse(text).Some? {
      AdmitHolds(s.ledger, hash, w.parse(text).value);
      AdmitHolds(s.ledger, hash, event);
    }
  }

  // ---------- The tail of the ledger ----------

  lemma {:induction false} AllPresent(hashes: seq<string>, payloads: map<string, Json>)
    requires forall i :: 0 <= i < |hashes| ==> hashes[i] in payloads
    ensures |Present(hashes, payloads)| == |hashes|
    ensures forall i :: 0 <= i < |hashes| ==> Present(hashes, payloads)[i] == payloads[hashes[i]]
  {
    if hashes != [] {
      AllPresent(hashes[1..], payloads);
    }
  }

  /**
   * The tail of a ledger with one entry per hash holds its last events in order, as many as asked for or as
   * there are.
   */
  lemma TailHolds(l: Ledger, limit: nat)
    requires WellKeyed(l)
    ensures
      var start := if limit < |l.order| then |l.order| - limit else 0;
      var tail := Present(l.order[start..], l.payloads);
      && |tail| == (if limit < |l.order| then limit else |l.order|)
      && forall i :: 0 <= i < |tail| ==> l.order[start + i] in l.payloads && tail[i] == l.payloads[l.order[start + i]]
  {
    hide IsRef, Present;
    var start := if limit < |l.order| then |l.order| - limit else 0;
    var hashes := l.order[start..];
    forall i | 0 <= i < |hashes| ensures hashes[i] in l.payloads {
      assert hashes[i] in l.order;
    }
    AllPresent(hashes, l.payloads);
  }
}
