/** What a proof log says: which lines are records, and the ledger that a list of lines stands for. */
module FileStoreLog {
  import opened Common
  import opened Text
  import opened Canonical
  import opened FileStore
  import opened FileStoreLaws
  import HashRef
  import Merkle
  import Utf8

  // ---------- One line ----------

  lemma {:induction false} FirstColumn(s: string, c: char)
    ensures c !in UpTo(s, c)
    ensures match After(s, c)
      case None => UpTo(s, c) == s
      case Some(rest) => s == UpTo(s, c) + [c] + rest
  {
    if s != [] && s[0] != c {
      FirstColumn(s[1..], c);
      assert s == [s[0]] + s[1..];
    }
  }

  /** Three columns: which error names which wrong column, in the order they are checked. */
  lemma ColumnsRead(w: World, hash: string, sum: string, text: string, n: nat)
    requires '\t' !in hash && '\t' !in sum
    ensures ReadRecord(w, hash + "\t" + (sum + "\t" + text), n) ==
      if sum != Checksum(w, hash, text) then Err(ChecksumMismatch(n))
      else if hash != Ref(w, text) then Err(HashMismatch(n))
      else match w.parse(text) case None => Err(ParseFailure(n)) case Some(v) => Ok((hash, v))
  {
    hide UpTo, After, Checksum, Ref;
    SplitAt(hash, '\t', sum + "\t" + text);
    SplitAt(sum, '\t', text);
  }

  /** A line with fewer than two tabs is malformed, and only such a line is. */
  lemma MalformedExactly(w: World, line: string, n: nat)
    ensures ReadRecord(w, line, n) == Err(MalformedLog(n)) <==>
      forall i, j :: 0 <= i < j < |line| ==> line[i] != '\t' || line[j] != '\t'
  {
    hide UpTo, After, Checksum, Ref;
    FirstColumn(line, '\t');
    if After(line, '\t').Some? {
      var hash, rest := UpTo(line, '\t'), After(line, '\t').value;
      FirstColumn(rest, '\t');
      assert line[|hash|] == '\t';
      assert forall j :: |hash| < j < |line| ==> line[j] == rest[j - |hash| - 1];
      if After(rest, '\t').Some? {
        var k := |UpTo(rest, '\t')|;
        assert rest[k] == '\t' && line[|hash| + 1 + k] == '\t';
      }
    }
  }

  /** A line loads exactly if it is the line written for its hash and a text that has this hash and parses. */
  lemma RecordExactly(w: World, line: string, hash: string, v: Json, n: nat)
    ensures ReadRecord(w, line, n) == Ok((hash, v)) <==>
      exists text :: line == LogLine(w, hash, text) && hash == Ref(w, text) && w.parse(text) == Some(v)
  {
    hide UpTo, After, Checksum, Ref;
    if ReadRecord(w, line, n) == Ok((hash, v)) {
      FirstColumn(line, '\t');
      var rest := After(line, '\t').value;
      FirstColumn(rest, '\t');
      var text := After(rest, '\t').value;
      assert line == LogLine(w, hash, text);
    }
    if text :| line == LogLine(w, hash, text) && hash == Ref(w, text) && w.parse(text) == Some(v) {
      RefIsRef(w, text);
      LogLineColumns(w, hash, text);
    }
  }

  // ---------- All lines ----------

  /** Line `i` carries a record of `hash`. */
  predicate Recorded(w: World, lines: seq<string>, i: int, hash: string) {
    0 <= i < |lines| && !Blank(lines[i]) && ReadRecord(w, lines[i], i + 1).Ok? &&
    ReadRecord(w, lines[i], i + 1).value.0 == hash
  }

  predicate FirstRecord(w: World, lines: seq<string>, i: int, hash: string) {
    Recorded(w, lines, i, hash) && forall j :: 0 <= j < i ==> !Recorded(w, lines, j, hash)
  }

  predicate LastRecord(w: World, lines: seq<string>, i: int, hash: string) {
    Recorded(w, lines, i, hash) && forall j :: i < j < |lines| ==> !Recorded(w, lines, j, hash)
  }

  /** The places are increasing, and they are where the hashes of `order` first appear. */
  predicate Appearances(w: World, lines: seq<string>, order: seq<string>, places: seq<nat>) {
    && |places| == |order|
    && (forall a, b :: 0 <= a < b < |places| ==> places[a] < places[b])
    && (forall a :: 0 <= a < |order| ==> FirstRecord(w, lines, places[a], order[a]))
  }

  ghost predicate Listed(w: World, lines: seq<string>, l: Ledger) {
    && (forall h :: h in l.payloads <==> exists i :: Recorded(w, lines, i, h))
    && (forall h :: h in l.order <==> h in l.payloads)
    && (forall h, i :: LastRecord(w, lines, i, h) ==>
          h in l.payloads && ReadRecord(w, lines[i], i + 1) == Ok((h, l.payloads[h])))
    && exists places: seq<nat> :: Appearances(w, lines, l.order, places)
  }

  predicate Readable(w: World, lines: seq<string>, i: nat)
    requires i < |lines|
  {
    Blank(lines[i]) || ReadRecord(w, lines[i], i + 1).Ok?
  }

  lemma RecordedBefore(w: World, lines: seq<string>, line: string, i: int, h: string)
    requires i < |lines|
    ensures Recorded(w, lines + [line], i, h) <==> Recorded(w, lines, i, h)
  {
    hide Blank, ReadRecord;
  }

  predicate RecordLine(w: World, line: string, n: nat) { !Blank(line) && ReadRecord(w, line, n).Ok? }

  /** One more line adds at most its own record. */
  lemma MoreRecords(w: World, lines: seq<string>, line: string)
    ensures forall i, h :: Recorded(w, lines, i, h) ==> 0 <= i < |lines|
    ensures forall i, h :: Recorded(w, lines + [line], i, h) <==>
      if i == |lines| then RecordLine(w, line, i + 1) && ReadRecord(w, line, i + 1).value.0 == h
      else Recorded(w, lines, i, h)
  {
    hide Blank, ReadRecord;
    var more := lines + [line];
    forall i, h | i < |lines| ensures Recorded(w, more, i, h) <==> Recorded(w, lines, i, h) {
      RecordedBefore(w, lines, line, i, h);
    }
    assert more[|lines|] == line;
  }

  lemma LoadBlank(w: World, line: string, n: nat, l: Ledger)
    requires Blank(line)
    ensures LoadLog(w, [line], n, l) == Ok(l)
  {
    hide ReadRecord, Blank;
    assert [line][1..] == [];
  }

  lemma BlankListed(w: World, lines: seq<string>, line: string, l: Ledger)
    requires Listed(w, lines, l) && Blank(line)
    ensures Listed(w, lines + [line], l)
  {
    hide Blank, ReadRecord, Recorded, Appearances;
    var more := lines + [line];
    MoreRecords(w, lines, line);
    assert forall i, h :: Recorded(w, more, i, h) <==> Recorded(w, lines, i, h);
    OrderStays(w, lines, line, l.order);
    forall h, i | LastRecord(w, more, i, h)
      ensures h in l.payloads && ReadRecord(w, more[i], i + 1) == Ok((h, l.payloads[h]))
    {
      assert LastRecord(w, lines, i, h);
    }
  }

  lemma OrderStays(w: World, lines: seq<string>, line: string, order: seq<string>)
    requires exists places: seq<nat> :: Appearances(w, lines, order, places)
    ensures exists places: seq<nat> :: Appearances(w, lines + [line], order, places)
  {
    hide Recorded, Blank, ReadRecord;
    MoreRecords(w, lines, line);
    var places: seq<nat> :| Appearances(w, lines, order, places);
    assert Appearances(w, lines + [line], order, places);
  }

  lemma OrderGrows(w: World, lines: seq<string>, line: string, order: seq<string>, h: string)
    requires exists places: seq<nat> :: Appearances(w, lines, order, places)
    requires FirstRecord(w, lines + [line], |lines|, h)
    ensures exists places: seq<nat> :: Appearances(w, lines + [line], order + [h], places)
  {
    hide Recorded, Blank, ReadRecord;
    MoreRecords(w, lines, line);
    var places: seq<nat> :| Appearances(w, lines, order, places);
    assert forall a :: 0 <= a < |order| ==> FirstRecord(w, lines, places[a], order[a]);
    assert Appearances(w, lines + [line], order + [h], places + [|lines|]);
  }

  lemma RecordListed(w: World, lines: seq<string>, line: string, l: Ledger)
    requires Listed(w, lines, l) && RecordLine(w, line, |lines| + 1)
    ensures var rec := ReadRecord(w, line, |lines| + 1).value; Listed(w, lines + [line], Admit(l, rec.0, rec.1))
  {
    hide Blank, ReadRecord, Recorded, Appearances;
    var more, n := lines + [line], |lines|;
    var (hash, v) := ReadRecord(w, line, n + 1).value;
    var next := Admit(l, hash, v);
    MoreRecords(w, lines, line);
    KeysGrow(w, lines, line, l.payloads.Keys, hash);
    if hash in l.payloads {
      OrderStays(w, lines, line, l.order);
    } else {
      OrderGrows(w, lines, line, l.order, hash);
    }
    forall h, i | LastRecord(w, more, i, h)
      ensures h in next.payloads && ReadRecord(w, more[i], i + 1) == Ok((h, next.payloads[h]))
    {
      assert Recorded(w, more, n, hash);
      if h != hash {
        assert LastRecord(w, lines, i, h);
      }
    }
  }

  lemma KeysGrow(w: World, lines: seq<string>, line: string, keys: set<string>, hash: string)
    requires forall h :: h in keys <==> exists i :: Recorded(w, lines, i, h)
    requires RecordLine(w, line, |lines| + 1) && ReadRecord(w, line, |lines| + 1).value.0 == hash
    ensures forall h :: h in keys + {hash} <==> exists i :: Recorded(w, lines + [line], i, h)
  {
    hide Blank, ReadRecord, Recorded;
    var more := lines + [line];
    MoreRecords(w, lines, line);
    assert Recorded(w, more, |lines|, hash);
    forall h ensures h in keys + {hash} <==> exists i :: Recorded(w, more, i, h) {
      if h in keys {
        var i :| Recorded(w, lines, i, h);
        assert Recorded(w, more, i, h);
      }
      if i :| Recorded(w, more, i, h) {
        assert h == hash || Recorded(w, lines, i, h);
      }
    }
  }

  /** Line `i` is the first that cannot be read, and the reason. */
  predicate FailsAt(w: World, lines: seq<string>, i: nat, e: StoreError) {
    && i < |lines| && !Blank(lines[i]) && ReadRecord(w, lines[i], i + 1) == Err(e)
    && forall j :: 0 <= j < i ==> Readable(w, lines, j)
  }

  ghost predicate Outcome(w: World, lines: seq<string>, r: Result<Ledger, StoreError>) {
    match r
    case Ok(l) => (forall i :: 0 <= i < |lines| ==> Readable(w, lines, i)) && Listed(w, lines, l)
    case Err(e) => exists i: nat :: FailsAt(w, lines, i, e)
  }

  lemma FailureStays(w: World, lines: seq<string>, line: string, e: StoreError)
    requires Outcome(w, lines, Err(e))
    ensures Outcome(w, lines + [line], Err(e))
  {
    hide Blank, ReadRecord, Listed;
    var i: nat :| FailsAt(w, lines, i, e);
    assert forall j :: 0 <= j < i ==> Readable(w, lines, j) && (lines + [line])[j] == lines[j];
    assert FailsAt(w, lines + [line], i, e);
  }

  lemma OneMore(w: World, lines: seq<string>, line: string, l: Ledger)
    requires Outcome(w, lines, Ok(l))
    ensures Outcome(w, lines + [line], LoadLog(w, [line], |lines|, l))
  {
    hide Blank, ReadRecord, LoadLog, Listed;
    var more, n := lines + [line], |lines|;
    assert forall i :: 0 <= i < n ==> Readable(w, lines, i) && more[i] == lines[i];
    assert more[n] == line;
    if Blank(line) {
      LoadBlank(w, line, n, l);
      BlankListed(w, lines, line, l);
    } else {
      LoadOne(w, line, n, l);
      if ReadRecord(w, line, n + 1).Ok? {
        RecordListed(w, lines, line, l);
      } else {
        assert FailsAt(w, more, n, ReadRecord(w, line, n + 1).error);
      }
    }
  }

  lemma NothingLoaded(w: World)
    ensures Outcome(w, [], LoadLog(w, [], 0, Ledger([], map[])))
  {
    hide Blank, ReadRecord;
    assert Appearances(w, [], [], []);
  }

  /**
   * Loading fails at the first line that is not blank and not a record, with that line's own error; otherwise the
   * ledger lists the hashes in the order they first appear, each with the event of its last record.
   */
  lemma {:induction false} LoadedExactly(w: World, lines: seq<string>)
    ensures Outcome(w, lines, LoadLog(w, lines, 0, Ledger([], map[])))
    decreases |lines|
  {
    hide Outcome, LoadLog;
    var empty := Ledger([], map[]);
    if lines == [] {
      NothingLoaded(w);
    } else {
      var n := |lines| - 1;
      var before, line := lines[..n], lines[n];
      assert lines == before + [line];
      LoadedExactly(w, before);
      match LoadLog(w, before, 0, empty)
      case Err(e) =>
        LoadStops(w, before, line, 0, empty);
        FailureStays(w, before, line, e);
      case Ok(l) =>
        LoadLogAppend(w, before, line, 0, empty);
        OneMore(w, before, line, l);
    }
  }

  lemma {:induction false} LoadStops(w: World, lines: seq<string>, line: string, n: nat, l: Ledger)
    requires LoadLog(w, lines, n, l).Err?
    ensures LoadLog(w, lines + [line], n, l) == LoadLog(w, lines, n, l)
    decreases |lines|
  {
    hide ReadRecord, Blank, Admit;
    assert (lines + [line])[1..] == lines[1..] + [line];
    if Blank(lines[0]) {
      LoadStops(w, lines[1..], line, n + 1, l);
    } else if ReadRecord(w, lines[0], n + 1).Ok? {
      var rec := ReadRecord(w, lines[0], n + 1).value;
      LoadStops(w, lines[1..], line, n + 1, Admit(l, rec.0, rec.1));
    }
  }
}
