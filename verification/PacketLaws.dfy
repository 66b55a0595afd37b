/** What reassembly accepts and refuses, and what fragments carry, told from the packets alone. */
module PacketLaws {
  import opened Common
  import opened Decimals
  import opened Packets
  import Base64

  // ---------- What is wrong with a fragment ----------

  predicate TakesPlaceOf(fragments: seq<Packet>, j: nat, i: nat)
    requires j < |fragments| && i < |fragments|
  {
    && fragments[j].fragment.Some? && fragments[i].fragment.Some?
    && fragments[j].fragment.value.index == fragments[i].fragment.value.index
  }

  /** Why fragment `i` cannot go with those before it, if it cannot. */
  function Flaw(header: FragmentHeader, fragments: seq<Packet>, i: nat): Option<Placing>
    requires i < |fragments|
  {
    match fragments[i].fragment
    case None => Some(Refused(MissingHeader))
    case Some(h) =>
      if h.fragmentId != header.fragmentId then Some(Refused(MismatchedId))
      else if h.count != header.count then Some(Refused(MismatchedCount))
      else if h.index >= header.count then Some(OutOfRange)
      else if exists j :: 0 <= j < i && TakesPlaceOf(fragments, j, i) then Some(Refused(DuplicateIndex(h.index)))
      else None
  }

  predicate Flawless(header: FragmentHeader, fragments: seq<Packet>, n: nat)
    requires n <= |fragments|
  {
    forall i :: 0 <= i < n ==> Flaw(header, fragments, i).None?
  }

  /** The slots hold the first `k` fragments, each at its index, and nothing else. */
  predicate Holds(slots: seq<Option<Packet>>, fragments: seq<Packet>, k: nat)
    requires k <= |fragments|
  {
    && (forall i :: 0 <= i < k ==>
          && fragments[i].fragment.Some? && fragments[i].fragment.value.index < |slots|
          && slots[fragments[i].fragment.value.index] == Some(fragments[i]))
    && (forall m :: 0 <= m < |slots| && slots[m].Some? ==>
          exists i :: 0 <= i < k && fragments[i].fragment.Some? && fragments[i].fragment.value.index == m)
  }

  /** The next fragment is placed exactly if nothing is wrong with it. */
  lemma NextPlaced(header: FragmentHeader, fragments: seq<Packet>, k: nat, slots: seq<Option<Packet>>)
    requires k < |fragments| && |slots| == header.count && Holds(slots, fragments, k)
    ensures match Flaw(header, fragments, k)
      case Some(flaw) => PlaceOne(header, fragments[k], slots) == flaw
      case None =>
        PlaceOne(header, fragments[k], slots) == Placed(slots[fragments[k].fragment.value.index := Some(fragments[k])])
  {
    if fragments[k].fragment.Some? {
      var m := fragments[k].fragment.value.index;
      if m < |slots| && slots[m].Some? {
        var i :| 0 <= i < k && fragments[i].fragment.Some? && fragments[i].fragment.value.index == m;
        assert TakesPlaceOf(fragments, i, k);
      }
      assert forall j :: 0 <= j < k && TakesPlaceOf(fragments, j, k) ==> slots[m].Some?;
    }
  }

  lemma NextHeld(header: FragmentHeader, fragments: seq<Packet>, k: nat, slots: seq<Option<Packet>>)
    requires k < |fragments| && |slots| == header.count && Holds(slots, fragments, k)
    requires Flaw(header, fragments, k).None?
    ensures Holds(slots[fragments[k].fragment.value.index := Some(fragments[k])], fragments, k + 1)
  {
    var m := fragments[k].fragment.value.index;
    var after := slots[m := Some(fragments[k])];
    forall i | 0 <= i < k ensures after[fragments[i].fragment.value.index] == Some(fragments[i]) {
      assert !TakesPlaceOf(fragments, i, k);
    }
    forall n | 0 <= n < |after| && after[n].Some?
      ensures exists i :: 0 <= i < k + 1 && fragments[i].fragment.Some? && fragments[i].fragment.value.index == n
    {
      if n == m {
        assert fragments[k].fragment.value.index == n;
      } else {
        var i :| 0 <= i < k && fragments[i].fragment.Some? && fragments[i].fragment.value.index == n;
      }
    }
  }

  /** The first flaw decides; without one every fragment is in its slot. */
  predicate Decides(header: FragmentHeader, fragments: seq<Packet>, k: nat, r: Placing)
    requires k <= |fragments|
  {
    if r.Placed? then
      |r.slots| == header.count && Holds(r.slots, fragments, |fragments|)
      && forall i :: k <= i < |fragments| ==> Flaw(header, fragments, i).None?
    else
      exists i :: k <= i < |fragments| && Flaw(header, fragments, i) == Some(r)
        && forall j :: k <= j < i ==> Flaw(header, fragments, j).None?
  }

  lemma DecidesEarlier(header: FragmentHeader, fragments: seq<Packet>, k: nat, r: Placing)
    requires k < |fragments| && Flaw(header, fragments, k).None? && Decides(header, fragments, k + 1, r)
    ensures Decides(header, fragments, k, r)
  {
    hide Flaw, Holds;
    if !r.Placed? {
      var i :| k + 1 <= i < |fragments| && Flaw(header, fragments, i) == Some(r)
        && forall j :: k + 1 <= j < i ==> Flaw(header, fragments, j).None?;
      assert forall j :: k <= j < i ==> Flaw(header, fragments, j).None?;
    }
  }

  lemma {:induction false} PlaceDecides(header: FragmentHeader, fragments: seq<Packet>, k: nat,
                                        slots: seq<Option<Packet>>)
    requires k <= |fragments| && |slots| == header.count && Holds(slots, fragments, k)
    ensures Decides(header, fragments, k, Place(header, fragments[k..], slots))
    decreases |fragments| - k
  {
    hide Flaw, Holds, PlaceOne;
    if k < |fragments| {
      var rest := fragments[k..];
      assert rest[0] == fragments[k] && rest[1..] == fragments[k + 1..];
      NextPlaced(header, fragments, k, slots);
      if Flaw(header, fragments, k).None? {
        FlawlessHasHeader(header, fragments, k);
        NextHeld(header, fragments, k, slots);
        var after := slots[fragments[k].fragment.value.index := Some(fragments[k])];
        PlaceDecides(header, fragments, k + 1, after);
        DecidesEarlier(header, fragments, k, Place(header, fragments[k + 1..], after));
      } else {
        FlawIsNoPlace(header, fragments, k);
      }
    } else {
      assert fragments[k..] == [];
    }
  }

  lemma FlawlessHasHeader(header: FragmentHeader, fragments: seq<Packet>, k: nat)
    requires k < |fragments| && Flaw(header, fragments, k).None?
    ensures fragments[k].fragment.Some? && fragments[k].fragment.value.index < header.count
  {
  }

  lemma FlawIsNoPlace(header: FragmentHeader, fragments: seq<Packet>, k: nat)
    requires k < |fragments| && Flaw(header, fragments, k).Some?
    ensures !Flaw(header, fragments, k).value.Placed?
  {
  }

  // ---------- What the slots add up to ----------

  /** The payload of a packet decodes to these bytes. */
  predicate Carries(f: Packet, bytes: seq<byte>) { Base64.Decoded(Base64.STANDARD, f.payload) == Ok(bytes) }

  predicate AllCarry(slots: seq<Option<Packet>>, parts: seq<seq<byte>>) {
    |parts| == |slots| && forall m :: 0 <= m < |slots| ==> slots[m].Some? && Carries(slots[m].value, parts[m])
  }

  lemma {:induction false} CollectParts(slots: seq<Option<Packet>>, parts: seq<seq<byte>>)
    requires AllCarry(slots, parts)
    ensures Collect(slots) == Ok(Concat(parts))
    decreases |slots|
  {
    hide Base64.Decoded;
    if slots != [] {
      CollectParts(slots[1..], parts[1..]);
    }
  }

  lemma {:induction false} CollectedParts(slots: seq<Option<Packet>>) returns (parts: seq<seq<byte>>)
    requires Collect(slots).Ok?
    ensures AllCarry(slots, parts) && Collect(slots).value == Concat(parts)
    decreases |slots|
  {
    hide Base64.Decoded;
    if slots == [] {
      parts := [];
    } else {
      var rest := CollectedParts(slots[1..]);
      var first := Base64.Decoded(Base64.STANDARD, slots[0].value.payload).value;
      parts := [first] + rest;
      assert parts[1..] == rest;
      forall m | 0 <= m < |slots| ensures slots[m].Some? && Carries(slots[m].value, parts[m]) {
        if m > 0 {
          assert slots[m] == slots[1..][m - 1] && parts[m] == rest[m - 1];
        }
      }
    }
  }

  // ---------- Exactly what is accepted ----------

  /** The fragments are a whole train under one id, each place taken once, and carry `parts` in order of index. */
  predicate Completes(fragments: seq<Packet>, header: FragmentHeader, parts: seq<seq<byte>>) {
    && |fragments| == header.count == |parts|
    && (forall i :: 0 <= i < |fragments| ==>
          Belongs(header, fragments[i]) && fragments[i].fragment.value.index < |parts|)
    && (forall i, j :: 0 <= i < j < |fragments| ==> !TakesPlaceOf(fragments, i, j))
    && (forall i :: 0 <= i < |fragments| ==> Carries(fragments[i], parts[fragments[i].fragment.value.index]))
  }

  lemma CompletesIsFlawless(fragments: seq<Packet>, header: FragmentHeader, parts: seq<seq<byte>>, i: nat)
    requires Completes(fragments, header, parts) && i < |fragments|
    ensures Flaw(header, fragments, i).None?
  {
    hide Carries;
  }

  lemma FlawlessBelongs(fragments: seq<Packet>, header: FragmentHeader, i: nat)
    requires i < |fragments| && Flaw(header, fragments, i).None?
    ensures Belongs(header, fragments[i]) && fragments[i].fragment.value.index < header.count
    ensures forall j :: 0 <= j < i ==> !TakesPlaceOf(fragments, j, i)
  {
  }

  /** Slots that are all filled, by fragments of one train, hold them all. */
  lemma SlotsOfTrain(fragments: seq<Packet>, header: FragmentHeader, slots: seq<Option<Packet>>, parts: seq<seq<byte>>)
    requires |fragments| == header.count == |slots| && Holds(slots, fragments, |fragments|)
    requires AllCarry(slots, parts) && forall i :: 0 <= i < |fragments| ==> Flaw(header, fragments, i).None?
    ensures Completes(fragments, header, parts)
  {
    hide Carries, Flaw;
    forall i | 0 <= i < |fragments|
      ensures Belongs(header, fragments[i]) && fragments[i].fragment.value.index < header.count
      ensures forall j :: 0 <= j < i ==> !TakesPlaceOf(fragments, j, i)
    {
      FlawlessBelongs(fragments, header, i);
    }
  }

  /** A whole train fills every slot, and each slot carries its part. */
  lemma TrainInSlots(fragments: seq<Packet>, header: FragmentHeader, slots: seq<Option<Packet>>, parts: seq<seq<byte>>)
    requires Completes(fragments, header, parts) && |slots| == header.count && Holds(slots, fragments, |fragments|)
    requires forall m :: 0 <= m < |slots| ==> slots[m].Some?
    ensures AllCarry(slots, parts)
  {
    hide Carries;
    forall m | 0 <= m < |slots| ensures Carries(slots[m].value, parts[m]) {
      assert slots[m].Some?;
      assert exists i :: 0 <= i < |fragments| && fragments[i].fragment.Some? && fragments[i].fragment.value.index == m;
      var i :| 0 <= i < |fragments| && fragments[i].fragment.Some? && fragments[i].fragment.value.index == m;
      assert slots[m] == Some(fragments[i]);
    }
  }

  lemma PlacedFromEmpty(header: FragmentHeader, fragments: seq<Packet>)
    ensures Decides(header, fragments, 0, Place(header, fragments, EmptySlots(header.count)))
  {
    assert fragments[0..] == fragments;
    PlaceDecides(header, fragments, 0, EmptySlots(header.count));
  }

  lemma SlotsFull(header: FragmentHeader, fragments: seq<Packet>)
    requires |fragments| == header.count && Place(header, fragments, EmptySlots(header.count)).Placed?
    ensures var slots := Place(header, fragments, EmptySlots(header.count)).slots;
      |slots| == header.count && forall m :: 0 <= m < |slots| ==> slots[m].Some?
  {
    hide Place, Filled;
    PlaceFills(header, fragments, EmptySlots(header.count));
    FilledEmpty(header.count);
    FilledAtMost(Place(header, fragments, EmptySlots(header.count)).slots);
  }

  /** The bytes that a whole train carries. */
  ghost predicate AddsUp(fragments: seq<Packet>, header: FragmentHeader, out: seq<byte>) {
    exists parts: seq<seq<byte>> :: Completes(fragments, header, parts) && Concat(parts) == out
  }

  /** Placing every fragment and collecting the slots gives `out` exactly if the fragments add up to it. */
  lemma CollectedIsAddsUp(header: FragmentHeader, fragments: seq<Packet>, out: seq<byte>)
    requires |fragments| == header.count
    ensures var placing := Place(header, fragments, EmptySlots(header.count));
      placing.Placed? && Collect(placing.slots) == Ok(out) <==> AddsUp(fragments, header, out)
  {
    hide Place, Collect, Holds, Flaw, AllCarry, Completes, Concat;
    var placing := Place(header, fragments, EmptySlots(header.count));
    PlacedFromEmpty(header, fragments);
    if placing.Placed? && Collect(placing.slots) == Ok(out) {
      var parts := CollectedParts(placing.slots);
      SlotsOfTrain(fragments, header, placing.slots, parts);
    }
    if AddsUp(fragments, header, out) {
      var parts: seq<seq<byte>> :| Completes(fragments, header, parts) && Concat(parts) == out;
      forall i | 0 <= i < |fragments| ensures Flaw(header, fragments, i).None? {
        CompletesIsFlawless(fragments, header, parts, i);
      }
      SlotsFull(header, fragments);
      TrainInSlots(fragments, header, placing.slots, parts);
      CollectParts(placing.slots, parts);
    }
  }

  /**
   * Reassembly gives an id and bytes exactly if there are as many fragments as the first one says, all carry its
   * id and count with different indices below the count, their decoded payloads in order of index make up the
   * bytes, and the bytes have the length and the digest that the first one says.
   */
  lemma AcceptedExactly(digest: Digest, fragments: seq<Packet>, id: string, out: seq<byte>)
    ensures Reassemble(digest, fragments) == Done(id, out) <==>
      && fragments != []
      && fragments[0].fragment.Some?
      && var header := fragments[0].fragment.value;
      && id == header.fragmentId
      && |fragments| == header.count
      && AddsUp(fragments, header, out)
      && |out| == header.total
      && digest(out) == header.digest
  {
    hide Place, Collect, AddsUp;
    if fragments != [] && fragments[0].fragment.Some? {
      var header := fragments[0].fragment.value;
      if |fragments| == header.count {
        CollectedIsAddsUp(header, fragments, out);
      }
    }
  }

  // ---------- Exactly why it refuses ----------

  /** With the announced number of fragments, the first flawed one decides how reassembly ends. */
  lemma FlawDecides(digest: Digest, fragments: seq<Packet>, i: nat)
    requires i < |fragments| && fragments[0].fragment.Some? && |fragments| == fragments[0].fragment.value.count
    requires Flaw(fragments[0].fragment.value, fragments, i).Some?
    requires Flawless(fragments[0].fragment.value, fragments, i)
    ensures match Flaw(fragments[0].fragment.value, fragments, i).value
      case Refused(reason) => Reassemble(digest, fragments) == Rejected(reason)
      case _ => Reassemble(digest, fragments) == IndexPanic
  {
    hide Place, Collect, Flaw, Holds;
    var header := fragments[0].fragment.value;
    var placing := Place(header, fragments, EmptySlots(header.count));
    PlacedFromEmpty(header, fragments);
    FlawIsNoPlace(header, fragments, i);
    if placing.Placed? {
      assert false;
    } else {
      var k :| 0 <= k < |fragments| && Flaw(header, fragments, k) == Some(placing)
        && forall j :: 0 <= j < k ==> Flaw(header, fragments, j).None?;
      assert k == i;
    }
  }

  lemma {:induction false} FirstUndecodable(slots: seq<Option<Packet>>, m: nat)
    requires m < |slots| && slots[m].Some? && Base64.Decoded(Base64.STANDARD, slots[m].value.payload).Err?
    requires forall k :: 0 <= k < m ==> slots[k].Some? && Base64.Decoded(Base64.STANDARD, slots[k].value.payload).Ok?
    ensures Collect(slots) == Err(BadBase64(Base64.Decoded(Base64.STANDARD, slots[m].value.payload).error))
  {
    hide Base64.Decoded;
    if m > 0 {
      FirstUndecodable(slots[1..], m - 1);
    }
  }

  predicate Before(f: Packet, g: Packet) {
    f.fragment.Some? && g.fragment.Some? && f.fragment.value.index < g.fragment.value.index
  }

  predicate Decodable(f: Packet) { Base64.Decoded(Base64.STANDARD, f.payload).Ok? }

  /** Flawless fragments: the lowest index whose payload is not base64 decides, with its error. */
  lemma PayloadDecides(digest: Digest, fragments: seq<Packet>, i: nat)
    requires i < |fragments| && fragments[0].fragment.Some? && |fragments| == fragments[0].fragment.value.count
    requires Flawless(fragments[0].fragment.value, fragments, |fragments|)
    requires fragments[i].fragment.Some? && !Decodable(fragments[i])
    requires forall j :: 0 <= j < |fragments| && Before(fragments[j], fragments[i]) ==> Decodable(fragments[j])
    ensures Reassemble(digest, fragments) ==
      Rejected(BadBase64(Base64.Decoded(Base64.STANDARD, fragments[i].payload).error))
  {
    hide Place, Flaw, Base64.Decoded;
    var header, m := fragments[0].fragment.value, fragments[i].fragment.value.index;
    var placing := Place(header, fragments, EmptySlots(header.count));
    PlacedFromEmpty(header, fragments);
    SlotsFull(header, fragments);
    var slots := placing.slots;
    forall k | 0 <= k < m ensures slots[k].Some? && Decodable(slots[k].value) {
      assert slots[k].Some?;
      assert exists j :: 0 <= j < |fragments| && fragments[j].fragment.Some? && fragments[j].fragment.value.index == k;
      var j :| 0 <= j < |fragments| && fragments[j].fragment.Some? && fragments[j].fragment.value.index == k;
      assert slots[k] == Some(fragments[j]);
    }
    hide Collect;
    FirstUndecodable(slots, m);
  }

  /** Fragments that add up: first the length is compared with what was announced, then the digest. */
  lemma TotalsDecide(digest: Digest, fragments: seq<Packet>, out: seq<byte>)
    requires fragments != [] && fragments[0].fragment.Some? && |fragments| == fragments[0].fragment.value.count
    requires AddsUp(fragments, fragments[0].fragment.value, out)
    ensures var header := fragments[0].fragment.value;
      Reassemble(digest, fragments) ==
        if |out| != header.total then Rejected(WrongLength(|out|, header.total))
        else if digest(out) != header.digest then Rejected(DigestMismatch)
        else Done(header.fragmentId, out)
  {
    hide Place, Collect, AddsUp;
    CollectedIsAddsUp(fragments[0].fragment.value, fragments, out);
  }

  // ---------- What fragments are ----------

  /** Slice `i` of the bytes: `mtu` of them, and what is left for the last. */
  lemma SliceSize(bytes: seq<byte>, mtu: nat, i: nat)
    requires mtu >= 1 && i < CountFor(|bytes|, mtu)
    ensures i * mtu < |bytes|
    ensures Slice(bytes, mtu, i) == bytes[i * mtu..Min(i * mtu + mtu, |bytes|)]
    ensures i + 1 < CountFor(|bytes|, mtu) ==> |Slice(bytes, mtu, i)| == mtu
    ensures 1 <= |Slice(bytes, mtu, i)| <= mtu
  {
    SliceStarts(bytes, mtu, i);
    if i + 1 < CountFor(|bytes|, mtu) {
      SliceStarts(bytes, mtu, i + 1);
      MulStep(i, mtu);
    }
    hide CountFor;
  }

  lemma {:induction false} SlicesJoin(bytes: seq<byte>, mtu: nat, n: nat)
    requires mtu >= 1 && n <= CountFor(|bytes|, mtu)
    ensures Concat(seq(n, i requires 0 <= i < n => Slice(bytes, mtu, i))) == bytes[..Min(n * mtu, |bytes|)]
  {
    hide CountFor, Slice, Concat;
    var parts := seq(n, i requires 0 <= i < n => Slice(bytes, mtu, i));
    if n == 0 {
      ConcatNone();
      assert parts == [] && bytes[..0] == [];
    } else {
      var init := seq(n - 1, i requires 0 <= i < n - 1 => Slice(bytes, mtu, i));
      SlicesJoin(bytes, mtu, n - 1);
      SliceSize(bytes, mtu, n - 1);
      MulStep(n - 1, mtu);
      assert parts == init + [Slice(bytes, mtu, n - 1)];
      ConcatAppend<byte>(init, [Slice(bytes, mtu, n - 1)]);
      ConcatOnly(Slice(bytes, mtu, n - 1));
      var start, end: nat := (n - 1) * mtu, Min(n * mtu, |bytes|);
      assert bytes[..start] + bytes[start..end] == bytes[..end];
    }
  }

  lemma ConcatNone()
    ensures Concat<byte>([]) == []
  {
  }

  lemma ConcatOnly(x: seq<byte>)
    ensures Concat([x]) == x
  {
    assert [x][1..] == [];
  }

  lemma {:induction false} DecimalInjective(m: nat, n: nat)
    requires Decimal(m) == Decimal(n)
    ensures m == n
  {
    DecimalValue(m);
    DecimalValue(n);
  }

  lemma IdsDiffer(id: string, i: nat, j: nat)
    requires id + "-" + Decimal(i) == id + "-" + Decimal(j)
    ensures i == j
  {
    hide Decimal;
    var x, y := id + "-" + Decimal(i), id + "-" + Decimal(j);
    assert x[|id| + 1..] == Decimal(i) && y[|id| + 1..] == Decimal(j);
    DecimalInjective(i, j);
  }

  /**
   * A payload that does not fit is cut into fragments that are addressed like the packet, each under an id of its
   * own and with one header but for the index; all but the last carry `mtu` bytes, and together they carry the payload.
   */
  lemma FragmentsAre(digest: Digest, source: Packet, mtu: nat)
    requires mtu >= 1 && |Original(source)| > mtu
    ensures var original, fs := Original(source), Fragments(digest, source, mtu);
      && |fs| == CountFor(|original|, mtu) && (|fs| - 1) * mtu < |original| <= |fs| * mtu
      && (forall i :: 0 <= i < |fs| ==> FragmentIs(digest, source, mtu, fs, i))
      && (forall i, j :: 0 <= i < j < |fs| ==> fs[i].packetId != fs[j].packetId)
      && Concat(seq(|fs|, i requires 0 <= i < |fs| => Original(fs[i]))) == original
  {
    hide Base64.Encoded, Base64.Decoded, Decimal, CountFor, Original, Slice;
    var original, fs := Original(source), Fragments(digest, source, mtu);
    CountBounds(|original|, mtu);
    forall i | 0 <= i < |fs|
      ensures FragmentIs(digest, source, mtu, fs, i) && Original(fs[i]) == Slice(original, mtu, i)
    {
      FragmentFacts(digest, source, mtu, i);
    }
    forall i, j | 0 <= i < j < |fs| ensures fs[i].packetId != fs[j].packetId {
      if fs[i].packetId == fs[j].packetId {
        IdsDiffer(source.packetId, i, j);
      }
    }
    SlicesJoin(original, mtu, |fs|);
    assert seq(|fs|, i requires 0 <= i < |fs| => Original(fs[i])) ==
      seq(|fs|, i requires 0 <= i < |fs| => Slice(original, mtu, i));
    assert original[..|original|] == original;
  }

  predicate FragmentIs(digest: Digest, source: Packet, mtu: nat, fs: seq<Packet>, i: nat)
    requires i < |fs|
  {
    var original, f := Original(source), fs[i];
    && f.carried == source.carried
    && f.packetId == source.packetId + "-" + Decimal(i)
    && 1 <= |Original(f)| <= mtu && (i + 1 < |fs| ==> |Original(f)| == mtu)
    && f.fragment == Some(FragmentHeader("frag-" + source.packetId, i % TWO_32, |fs| % TWO_32, |original| % TWO_32,
                                         digest(original)))
  }

  lemma FragmentFacts(digest: Digest, source: Packet, mtu: nat, i: nat)
    requires mtu >= 1 && |Original(source)| > mtu && i < CountFor(|Original(source)|, mtu)
    ensures var original, fs := Original(source), Fragments(digest, source, mtu);
      i < |fs| && FragmentIs(digest, source, mtu, fs, i) && Original(fs[i]) == Slice(original, mtu, i)
  {
    hide Base64.Encoded, Base64.Decoded, Decimal, CountFor, Slice;
    SliceSize(Original(source), mtu, i);
    Base64.DecodeInvertsEncode(Base64.STANDARD, Slice(Original(source), mtu, i));
  }
}
