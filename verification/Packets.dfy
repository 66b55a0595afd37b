/** Splitting a packet into fragments and putting them back together (`packet.rs`). */
module Packets {
  import opened Common
  import Base64
  import opened Decimals

  datatype FragmentHeader = FragmentHeader(fragmentId: string, index: nat, count: nat, total: nat, digest: string)

  /** A packet; `carried` stands for the addressing fields that fragments copy unchanged. */
  datatype Packet = Packet(packetId: string, carried: string, payload: seq<byte>, fragment: Option<FragmentHeader>)

  /** The `sha256:<hex>` text of a byte string. */
  type Digest = seq<byte> -> string

  // ---------- Fragmenting ----------

  /** The payload bytes, or none when the payload is not base64. */
  function Original(source: Packet): seq<byte> {
    match Base64.Decoded(Base64.STANDARD, source.payload)
    case Ok(b) => b
    case Err(_) => []
  }

  function Min(a: nat, b: nat): nat { if a < b then a else b }

  function CountFor(total: nat, mtu: nat): nat
    requires mtu >= 1
  {
    (total + mtu - 1) / mtu
  }

  function Slice(bytes: seq<byte>, mtu: nat, i: nat): seq<byte> {
    var start: nat := i * mtu;
    bytes[Min(start, |bytes|)..Min(start + mtu, |bytes|)]
  }

  lemma MulStep(i: nat, mtu: nat)
    ensures (i + 1) * mtu == i * mtu + mtu && i * mtu >= 0
  {
  }

  lemma MulMono(i: nat, j: nat, mtu: nat)
    requires i <= j
    ensures i * mtu <= j * mtu
  {
  }

  lemma CountBounds(total: nat, mtu: nat)
    requires mtu >= 1
    ensures
      var n := CountFor(total, mtu);
      && n * mtu >= total
      && (total > 0 ==> 1 <= n <= total && (n - 1) * mtu < total)
  {
    var n, r := CountFor(total, mtu), (total + mtu - 1) % mtu;
    assert total + mtu - 1 == n * mtu + r;
    if total > 0 {
      assert n >= 1;
      MulStep(n - 1, mtu);
      if n > total {
        MulMono(total, n - 1, mtu);
        MulMono(1, mtu, total);
      }
    }
  }

  lemma SliceStarts(bytes: seq<byte>, mtu: nat, i: nat)
    requires mtu >= 1 && i < CountFor(|bytes|, mtu)
    ensures i * mtu < |bytes|
  {
    CountBounds(|bytes|, mtu);
    MulMono(i, CountFor(|bytes|, mtu) - 1, mtu);
  }

  /** Fragment `i`: header numbers are cast to 32 bits. */
  function FragmentAt(digest: Digest, source: Packet, mtu: nat, i: nat): Packet
    requires mtu >= 1 && i < CountFor(|Original(source)|, mtu)
  {
    var original := Original(source);
    Packet(source.packetId + "-" + Decimal(i), source.carried,
           Base64.Encoded(Base64.STANDARD, Slice(original, mtu, i)),
           Some(FragmentHeader("frag-" + source.packetId, i % TWO_32, CountFor(|original|, mtu) % TWO_32,
                               |original| % TWO_32, digest(original))))
  }

  /** `fragment_packet`: the packet itself when it fits, otherwise its slices in order. */
  function Fragments(digest: Digest, source: Packet, mtu: nat): seq<Packet>
    requires mtu >= 1 || Original(source) == []
  {
    var original := Original(source);
    if |original| <= mtu then [source]
    else seq(CountFor(|original|, mtu),
             i requires 0 <= i < CountFor(|original|, mtu) => FragmentAt(digest, source, mtu, i))
  }

  /** The fragments, or none where the count divides by an `mtu` of zero and the program panics. */
  method FragmentPacket(digest: Digest, source: Packet, mtu: nat) returns (r: Option<seq<Packet>>)
    ensures r.None? <==> mtu == 0 && Original(source) != []
    ensures r.Some? ==> r.value == Fragments(digest, source, mtu)
  {
    hide Base64.Encoded, Base64.Decoded, Original, CountFor, Decimal;
    var original := Original(source);
    var totalBytes := |original|;
    if totalBytes <= mtu {
      return Some([source]);
    }
    if mtu == 0 {
      return None;
    }
    var count := CountFor(totalBytes, mtu);
    var payloadDigest := digest(original);
    var fragmentId := "frag-" + source.packetId;
    var out := [];
    for i := 0 to count
      invariant |out| == i
      invariant forall k :: 0 <= k < i ==> out[k] == FragmentAt(digest, source, mtu, k)
    {
      SliceStarts(original, mtu, i);
      var start := i * mtu;
      var end := Min(start + mtu, totalBytes);
      assert original[start..end] == Slice(original, mtu, i);
      var text := Base64.Encode(Base64.STANDARD, original[start..end]);
      var header := FragmentHeader(fragmentId, i % TWO_32, count % TWO_32, totalBytes % TWO_32, payloadDigest);
      out := out + [Packet(source.packetId + "-" + Decimal(i), source.carried, text, Some(header))];
    }
    r := Some(out);
  }

  // ---------- Reassembling ----------

  datatype Reason =
    | NoFragments | FirstMissingHeader | WrongNumber(expected: nat, got: nat)
    | MissingHeader | MismatchedId | MismatchedCount | DuplicateIndex(index: nat)
    | BadBase64(error: Base64.DecodeError) | MissingSlot | WrongLength(assembled: nat, announced: nat) | DigestMismatch

  /** How reassembly ends; an index outside the announced count makes the program panic. */
  datatype Reassembly = Done(fragmentId: string, payload: seq<byte>) | Rejected(reason: Reason) | IndexPanic

  datatype Placing = Placed(slots: seq<Option<Packet>>) | Refused(reason: Reason) | OutOfRange

  function PlaceOne(header: FragmentHeader, f: Packet, slots: seq<Option<Packet>>): Placing {
    if f.fragment.None? then Refused(MissingHeader)
    else
      var h := f.fragment.value;
      if h.fragmentId != header.fragmentId then Refused(MismatchedId)
      else if h.count != header.count then Refused(MismatchedCount)
      else if h.index >= |slots| then OutOfRange
      else if slots[h.index].Some? then Refused(DuplicateIndex(h.index))
      else Placed(slots[h.index := Some(f)])
  }

  function Place(header: FragmentHeader, fragments: seq<Packet>, slots: seq<Option<Packet>>): Placing {
    if fragments == [] then Placed(slots)
    else
      match PlaceOne(header, fragments[0], slots)
      case Placed(more) => Place(header, fragments[1..], more)
      case other => other
  }

  function Collect(slots: seq<Option<Packet>>): Result<seq<byte>, Reason> {
    if slots == [] then Ok([])
    else if slots[0].None? then Err(MissingSlot)
    else
      match Base64.Decoded(Base64.STANDARD, slots[0].value.payload)
      case Err(e) => Err(BadBase64(e))
      case Ok(bytes) =>
        var more :- Collect(slots[1..]);
        Ok(bytes + more)
  }

  function EmptySlots(n: nat): seq<Option<Packet>> { seq(n, _ => None) }

  function Finish(digest: Digest, header: FragmentHeader, slots: seq<Option<Packet>>): Reassembly {
    match Collect(slots)
    case Err(e) => Rejected(e)
    case Ok(out) =>
      if |out| != header.total then Rejected(WrongLength(|out|, header.total))
      else if digest(out) != header.digest then Rejected(DigestMismatch)
      else Done(header.fragmentId, out)
  }

  /** `reassemble_fragments`. */
  function Reassemble(digest: Digest, fragments: seq<Packet>): Reassembly {
    if fragments == [] then Rejected(NoFragments)
    else if fragments[0].fragment.None? then Rejected(FirstMissingHeader)
    else
      var header := fragments[0].fragment.value;
      if |fragments| != header.count then Rejected(WrongNumber(header.count, |fragments|))
      else
        match Place(header, fragments, EmptySlots(header.count))
        case Refused(e) => Rejected(e)
        case OutOfRange => IndexPanic
        case Placed(slots) => Finish(digest, header, slots)
  }

  // ---------- Pigeonhole: the missing-slot exit is unreachable ----------

  function Filled(slots: seq<Option<Packet>>): nat {
    if slots == [] then 0 else (if slots[0].Some? then 1 else 0) + Filled(slots[1..])
  }

  lemma {:induction false} FilledAtMost(slots: seq<Option<Packet>>)
    ensures Filled(slots) <= |slots|
    ensures Filled(slots) == |slots| ==> forall i :: 0 <= i < |slots| ==> slots[i].Some?
  {
    if slots != [] {
      FilledAtMost(slots[1..]);
    }
  }

  lemma {:induction false} FilledUpdate(slots: seq<Option<Packet>>, i: nat, f: Packet)
    requires i < |slots| && slots[i].None?
    ensures Filled(slots[i := Some(f)]) == Filled(slots) + 1
  {
    var after := slots[i := Some(f)];
    if i == 0 {
      assert after[1..] == slots[1..];
    } else {
      FilledUpdate(slots[1..], i - 1, f);
      assert after[1..] == slots[1..][i - 1 := Some(f)];
    }
  }

  lemma {:induction false} FilledEmpty(n: nat)
    ensures Filled(EmptySlots(n)) == 0
  {
    if n > 0 {
      FilledEmpty(n - 1);
      assert EmptySlots(n)[1..] == EmptySlots(n - 1);
    }
  }

  /** Each placed fragment fills one more slot. */
  lemma {:induction false} PlaceFills(header: FragmentHeader, fragments: seq<Packet>, slots: seq<Option<Packet>>)
    requires Place(header, fragments, slots).Placed?
    ensures
      var after := Place(header, fragments, slots).slots;
      |after| == |slots| && Filled(after) == Filled(slots) + |fragments|
  {
    if fragments != [] {
      var f := fragments[0];
      FilledUpdate(slots, f.fragment.value.index, f);
      PlaceFills(header, fragments[1..], PlaceOne(header, f, slots).slots);
    }
  }

  lemma {:induction false} CollectFull(slots: seq<Option<Packet>>)
    requires forall i :: 0 <= i < |slots| ==> slots[i].Some?
    ensures Collect(slots) != Err(MissingSlot)
  {
    if slots != [] {
      CollectFull(slots[1..]);
    }
  }

  /** Once counts and duplicates are checked, every slot is filled: no input reports a missing slot. */
  lemma NoMissingSlot(digest: Digest, fragments: seq<Packet>)
    ensures Reassemble(digest, fragments) != Rejected(MissingSlot)
  {
    if fragments != [] && fragments[0].fragment.Some? {
      var header := fragments[0].fragment.value;
      var placing := Place(header, fragments, EmptySlots(header.count));
      if |fragments| == header.count && placing.Placed? {
        PlaceFills(header, fragments, EmptySlots(header.count));
        FilledEmpty(header.count);
        FilledAtMost(placing.slots);
        CollectFull(placing.slots);
      } else {
        PlaceNotMissing(header, fragments, EmptySlots(header.count));
      }
    }
  }

  lemma {:induction false} PlaceNotMissing(header: FragmentHeader, fragments: seq<Packet>, slots: seq<Option<Packet>>)
    ensures Place(header, fragments, slots) != Refused(MissingSlot)
  {
    if fragments != [] && PlaceOne(header, fragments[0], slots).Placed? {
      PlaceNotMissing(header, fragments[1..], PlaceOne(header, fragments[0], slots).slots);
    }
  }

  // ---------- Any order of arrival ----------

  lemma {:induction false} DistinctCounts<T>(s: seq<T>, x: T)
    requires Distinct(s)
    ensures multiset(s)[x] <= 1
  {
    if s != [] {
      var init, last := s[..|s| - 1], s[|s| - 1];
      assert s == init + [last];
      DistinctCounts(init, x);
      if x == last {
        assert x !in init;
      }
    }
  }

  lemma RepeatCounts<T>(s: seq<T>, p: nat, q: nat)
    requires p < q < |s| && s[p] == s[q]
    ensures multiset(s)[s[p]] >= 2
  {
    var a, b := s[..q], s[q..];
    assert s == a + b;
    assert a[p] == s[p] && b[0] == s[q];
    assert a[p] in multiset(a) && b[0] in multiset(b);
  }

  lemma PermutationDistinct<T>(s: seq<T>, t: seq<T>)
    requires Distinct(s) && multiset(s) == multiset(t)
    ensures Distinct(t) && |t| == |s| && forall x :: x in t ==> x in s
  {
    assert |multiset(s)| == |s| && |multiset(t)| == |t|;
    forall i, j | 0 <= i < j < |t| ensures t[i] != t[j] {
      if t[i] == t[j] {
        RepeatCounts(t, i, j);
        DistinctCounts(s, t[i]);
      }
    }
    forall x | x in t ensures x in s {
      assert x in multiset(t);
    }
  }

  /** A fragment train: packet `i` carries index `i`, and all carry one id and the right count. */
  predicate IsTrain(train: seq<Packet>, header: FragmentHeader) {
    && header.count == |train|
    && forall i :: 0 <= i < |train| ==>
         && train[i].fragment.Some?
         && train[i].fragment.value == header.(index := i)
  }

  /** Every filled slot holds the packet of its own index, and that packet has arrived. */
  predicate SlotsFrom(slots: seq<Option<Packet>>, train: seq<Packet>, arrived: seq<Packet>) {
    |slots| == |train| && forall i :: 0 <= i < |slots| && slots[i].Some? ==>
      slots[i].value == train[i] && train[i] in arrived
  }

  lemma {:induction false} PlaceTrain(header: FragmentHeader, train: seq<Packet>, arrived: seq<Packet>,
                                      rest: seq<Packet>, slots: seq<Option<Packet>>)
    requires IsTrain(train, header) && Distinct(arrived + rest) && SlotsFrom(slots, train, arrived)
    requires forall f :: f in rest ==> f in train
    ensures
      var placing := Place(header, rest, slots);
      placing.Placed? && SlotsFrom(placing.slots, train, arrived + rest)
    decreases |rest|
  {
    if rest == [] {
      assert arrived + rest == arrived;
    } else {
      var f := rest[0];
      assert f in train;
      var i :| 0 <= i < |train| && train[i] == f;
      forall p | 0 <= p < |arrived| ensures arrived[p] != f {
        assert (arrived + rest)[p] == arrived[p] && (arrived + rest)[|arrived|] == f;
      }
      assert arrived + rest == arrived + [f] + rest[1..];
      PlaceTrain(header, train, arrived + [f], rest[1..], slots[i := Some(f)]);
    }
  }

  predicate HoldsSlices(slots: seq<Option<Packet>>, bytes: seq<byte>, mtu: nat) {
    forall i :: 0 <= i < |slots| ==>
      slots[i].Some? && slots[i].value.payload == Base64.Encoded(Base64.STANDARD, Slice(bytes, mtu, i))
  }

  function From(bytes: seq<byte>, start: nat): seq<byte> { bytes[Min(start, |bytes|)..] }

  lemma {:induction false} CollectSlices(slots: seq<Option<Packet>>, bytes: seq<byte>, mtu: nat, k: nat)
    requires HoldsSlices(slots, bytes, mtu) && |slots| * mtu >= |bytes| && k <= |slots|
    ensures Collect(slots[k..]) == Ok(From(bytes, k * mtu))
    decreases |slots| - k
  {
    hide Base64.Encoded, Base64.Decoded;
    if k < |slots| {
      MulStep(k, mtu);
      CollectSlices(slots, bytes, mtu, k + 1);
      Base64.DecodeInvertsEncode(Base64.STANDARD, Slice(bytes, mtu, k));
      assert slots[k..][0] == slots[k] && slots[k..][1..] == slots[k + 1..];
      assert From(bytes, k * mtu) == Slice(bytes, mtu, k) + From(bytes, (k + 1) * mtu);
    } else {
      assert slots[k..] == [] && From(bytes, k * mtu) == [];
    }
  }

  lemma FragmentsAreTrain(digest: Digest, source: Packet, mtu: nat)
    requires mtu >= 1 && |Original(source)| > mtu && CountFor(|Original(source)|, mtu) < TWO_32
    ensures
      var original := Original(source);
      IsTrain(Fragments(digest, source, mtu),
              FragmentHeader("frag-" + source.packetId, 0, CountFor(|original|, mtu), |original| % TWO_32,
                             digest(original)))
  {
    hide Base64.Encoded, Original, Decimal, CountFor, Slice;
  }

  lemma FragmentsDistinct(digest: Digest, source: Packet, mtu: nat)
    requires mtu >= 1 && |Original(source)| > mtu && CountFor(|Original(source)|, mtu) < TWO_32
    ensures Distinct(Fragments(digest, source, mtu))
  {
    hide Original, CountFor, Fragments;
    FragmentsAreTrain(digest, source, mtu);
    var train := Fragments(digest, source, mtu);
    forall i, j | 0 <= i < j < |train| ensures train[i] != train[j] {
      assert train[i].fragment.value.index == i && train[j].fragment.value.index == j;
    }
  }

  /** Whatever arrives first carries the header of the whole train. */
  lemma FirstArrival(digest: Digest, source: Packet, mtu: nat, arrived: seq<Packet>)
    requires mtu >= 1 && |Original(source)| > mtu && CountFor(|Original(source)|, mtu) < TWO_32
    requires multiset(arrived) == multiset(Fragments(digest, source, mtu))
    ensures arrived != [] && arrived[0].fragment.Some?
    ensures
      var original, header := Original(source), arrived[0].fragment.value;
      && header.fragmentId == "frag-" + source.packetId && header.total == |original| % TWO_32
      && header.digest == digest(original) && header.count == |arrived|
    ensures IsTrain(Fragments(digest, source, mtu), arrived[0].fragment.value)
  {
    hide Original, CountFor, Fragments;
    var train := Fragments(digest, source, mtu);
    CountBounds(|Original(source)|, mtu);
    FragmentsAreTrain(digest, source, mtu);
    FragmentsDistinct(digest, source, mtu);
    PermutationDistinct(train, arrived);
    assert arrived[0] in train;
    var i :| 0 <= i < |train| && train[i] == arrived[0];
  }

  lemma TrainSlices(digest: Digest, source: Packet, mtu: nat, slots: seq<Option<Packet>>)
    requires mtu >= 1 && |Original(source)| > mtu
    requires |slots| == |Fragments(digest, source, mtu)|
    requires forall i :: 0 <= i < |slots| ==> slots[i] == Some(Fragments(digest, source, mtu)[i])
    ensures Collect(slots) == Ok(Original(source))
  {
    hide Base64.Encoded, Original, Decimal, CountFor, Slice, Collect;
    var bytes := Original(source);
    CountBounds(|bytes|, mtu);
    CollectSlices(slots, bytes, mtu, 0);
    assert slots[0..] == slots && From(bytes, 0 * mtu) == bytes;
  }

  /** With fewer than 2^32 fragments, every arrival order passes all placement checks and fills every slot. */
  lemma PlacePermutation(digest: Digest, source: Packet, mtu: nat, header: FragmentHeader, arrived: seq<Packet>)
    requires mtu >= 1 && |Original(source)| > mtu && CountFor(|Original(source)|, mtu) < TWO_32
    requires multiset(arrived) == multiset(Fragments(digest, source, mtu))
    requires IsTrain(Fragments(digest, source, mtu), header)
    ensures
      var placing := Place(header, arrived, EmptySlots(header.count));
      placing.Placed? && Collect(placing.slots) == Ok(Original(source))
  {
    hide Original, CountFor, Fragments, Place, Collect;
    var train, n := Fragments(digest, source, mtu), header.count;
    FragmentsDistinct(digest, source, mtu);
    PermutationDistinct(train, arrived);
    assert [] + arrived == arrived;
    PlaceTrain(header, train, [], arrived, EmptySlots(n));
    var slots := Place(header, arrived, EmptySlots(n)).slots;
    PlaceFills(header, arrived, EmptySlots(n));
    FilledEmpty(n);
    FilledAtMost(slots);
    TrainSlices(digest, source, mtu, slots);
  }

  /**
   * Reassembling the fragments of a payload in any order gives the payload back exactly when its
   * length fits the 32-bit header field; a longer payload is always rejected.
   */
  lemma ReassembleInvertsFragment(digest: Digest, source: Packet, mtu: nat, arrived: seq<Packet>)
    requires mtu >= 1 && |Original(source)| > mtu
    requires multiset(arrived) == multiset(Fragments(digest, source, mtu))
    ensures
      var r := Reassemble(digest, arrived);
      if |Original(source)| < TWO_32 then r == Done("frag-" + source.packetId, Original(source)) else r.Rejected?
  {
    hide Original, CountFor, Place, Collect, Base64.Encoded, Decimal;
    var original, train := Original(source), Fragments(digest, source, mtu);
    CountBounds(|original|, mtu);
    if CountFor(|original|, mtu) < TWO_32 {
      FirstArrival(digest, source, mtu, arrived);
      PlacePermutation(digest, source, mtu, arrived[0].fragment.value, arrived);
    } else {
      assert |multiset(train)| == |train| && |multiset(arrived)| == |arrived|;
      assert arrived[0] in multiset(train);
      var i :| 0 <= i < |train| && train[i] == arrived[0];
    }
  }

  // ---------- When the index panics ----------

  /** A fragment that passes the id and count tests. */
  predicate Belongs(header: FragmentHeader, f: Packet) {
    f.fragment.Some? && f.fragment.value.fragmentId == header.fragmentId && f.fragment.value.count == header.count
  }

  /** The first `i` fragments belong and take different free slots. */
  predicate Placeable(header: FragmentHeader, fragments: seq<Packet>, i: nat, slots: seq<Option<Packet>>)
    requires i <= |fragments|
  {
    && (forall j :: 0 <= j < i ==>
          Belongs(header, fragments[j]) && fragments[j].fragment.value.index < |slots| &&
            slots[fragments[j].fragment.value.index].None?)
    && (forall j, k :: 0 <= j < k < i ==> fragments[j].fragment.value.index != fragments[k].fragment.value.index)
  }

  predicate Overshoots(header: FragmentHeader, fragments: seq<Packet>, i: nat, slots: seq<Option<Packet>>)
    requires i < |fragments|
  {
    && Placeable(header, fragments, i, slots)
    && Belongs(header, fragments[i]) && fragments[i].fragment.value.index >= |slots|
  }

  lemma OvershootsLater(header: FragmentHeader, fragments: seq<Packet>, i: nat, slots: seq<Option<Packet>>)
    requires 0 < i < |fragments| && PlaceOne(header, fragments[0], slots).Placed?
    ensures Overshoots(header, fragments, i, slots) <==>
      Overshoots(header, fragments[1..], i - 1, PlaceOne(header, fragments[0], slots).slots)
  {
    var rest, more := fragments[1..], PlaceOne(header, fragments[0], slots).slots;
    assert forall j :: 0 <= j < |rest| ==> rest[j] == fragments[j + 1];
    assert forall j :: 0 < j < |fragments| ==> fragments[j] == rest[j - 1];
    if Overshoots(header, rest, i - 1, more) {
      forall j | 0 <= j < i ensures Belongs(header, fragments[j])
        && fragments[j].fragment.value.index < |slots| && slots[fragments[j].fragment.value.index].None?
      {
        assert j > 0 ==> fragments[j] == rest[j - 1];
      }
      forall j, k | 0 <= j < k < i ensures fragments[j].fragment.value.index != fragments[k].fragment.value.index {
        assert fragments[k] == rest[k - 1] && (j > 0 ==> fragments[j] == rest[j - 1]);
      }
    }
  }

  lemma {:induction false} PlaceOvershoots(header: FragmentHeader, fragments: seq<Packet>, slots: seq<Option<Packet>>)
    ensures Place(header, fragments, slots) == OutOfRange <==>
      exists i :: 0 <= i < |fragments| && Overshoots(header, fragments, i, slots)
  {
    if fragments != [] {
      var first := PlaceOne(header, fragments[0], slots);
      assert Overshoots(header, fragments, 0, slots) <==> first == OutOfRange;
      if first.Placed? {
        var rest := fragments[1..];
        PlaceOvershoots(header, rest, first.slots);
        hide Overshoots, PlaceOne;
        forall i | 0 < i < |fragments|
          ensures Overshoots(header, fragments, i, slots) <==> Overshoots(header, rest, i - 1, first.slots)
        {
          OvershootsLater(header, fragments, i, slots);
        }
        if Place(header, rest, first.slots) == OutOfRange {
          var i :| 0 <= i < |rest| && Overshoots(header, rest, i, first.slots);
          assert Overshoots(header, fragments, i + 1, slots);
        }
      } else if first != OutOfRange {
        forall i | 0 < i < |fragments| ensures !Overshoots(header, fragments, i, slots) {
        }
      }
    }
  }

  /**
   * Reassembly panics exactly when the number of fragments is the announced one and some fragment
   * passes the id and count tests with an index not below the count, after fragments that all found
   * their own slots.
   */
  lemma IndexPanicExact(digest: Digest, fragments: seq<Packet>)
    ensures Reassemble(digest, fragments) == IndexPanic <==>
      && fragments != []
      && fragments[0].fragment.Some?
      && var header := fragments[0].fragment.value;
      |fragments| == header.count
      && exists i :: 0 <= i < |fragments| && Overshoots(header, fragments, i, EmptySlots(header.count))
  {
    hide Place, Overshoots, Collect;
    if fragments != [] && fragments[0].fragment.Some? {
      var header := fragments[0].fragment.value;
      PlaceOvershoots(header, fragments, EmptySlots(header.count));
    }
  }

  // ---------- The loops of `reassemble_fragments` ----------

  method PlaceFragments(header: FragmentHeader, fragments: seq<Packet>, ordered: array<Option<Packet>>)
    returns (r: Placing)
    requires ordered[..] == EmptySlots(header.count)
    modifies ordered
    ensures r == Place(header, fragments, old(ordered[..]))
    ensures r.Placed? ==> r.slots == ordered[..]
  {
    ghost var all := Place(header, fragments, ordered[..]);
    var i := 0;
    while i < |fragments|
      invariant 0 <= i <= |fragments|
      invariant Place(header, fragments[i..], ordered[..]) == all
    {
      ghost var rest := fragments[i..];
      assert rest[0] == fragments[i] && rest[1..] == fragments[i + 1..];
      var f := fragments[i];
      if f.fragment.None? {
        return Refused(MissingHeader);
      }
      var h := f.fragment.value;
      if h.fragmentId != header.fragmentId {
        return Refused(MismatchedId);
      }
      if h.count != header.count {
        return Refused(MismatchedCount);
      }
      if h.index >= ordered.Length {
        return OutOfRange;
      }
      if ordered[h.index].Some? {
        return Refused(DuplicateIndex(h.index));
      }
      ghost var before := ordered[..];
      ordered[h.index] := Some(f);
      assert ordered[..] == before[h.index := Some(f)];
      i := i + 1;
    }
    r := Placed(ordered[..]);
  }

  method CollectSlots(slots: seq<Option<Packet>>) returns (r: Result<seq<byte>, Reason>)
    ensures r == Collect(slots)
  {
    hide Base64.Decoded, Base64.Encoded;
    var out: seq<byte> := [];
    var i := 0;
    assert slots[0..] == slots;
    PrependAppend<byte, Reason>([], [], Collect(slots));
    while i < |slots|
      invariant 0 <= i <= |slots|
      invariant Collect(slots) == Prepend(out, Collect(slots[i..]))
    {
      ghost var rest := slots[i..];
      assert rest[0] == slots[i] && rest[1..] == slots[i + 1..];
      if slots[i].None? {
        return Err(MissingSlot);
      }
      var decoded := Base64.Decode(Base64.STANDARD, slots[i].value.payload);
      if decoded.Err? {
        return Err(BadBase64(decoded.error));
      }
      PrependAppend<byte, Reason>(out, decoded.value, Collect(slots[i + 1..]));
      out := out + decoded.value;
      i := i + 1;
    }
    assert out + [] == out;
    r := Ok(out);
  }

  /** `reassemble_fragments`; no input reaches the missing-slot exit. */
  method ReassembleFragments(digest: Digest, fragments: seq<Packet>) returns (r: Reassembly)
    ensures r == Reassemble(digest, fragments)
    ensures r != Rejected(MissingSlot)
  {
    hide Place, Collect;
    NoMissingSlot(digest, fragments);
    if |fragments| == 0 {
      return Rejected(NoFragments);
    }
    if fragments[0].fragment.None? {
      return Rejected(FirstMissingHeader);
    }
    var header := fragments[0].fragment.value;
    if |fragments| != header.count {
      return Rejected(WrongNumber(header.count, |fragments|));
    }
    var ordered := new Option<Packet>[header.count](_ => None);
    assert ordered[..] == EmptySlots(header.count);
    var placing := PlaceFragments(header, fragments, ordered);
    match placing
    case Refused(e) => r := Rejected(e);
    case OutOfRange => r := IndexPanic;
    case Placed(slots) =>
      var collected := CollectSlots(slots);
      match collected
      case Err(e) => r := Rejected(e);
      case Ok(out) =>
        if |out| != header.total {
          return Rejected(WrongLength(|out|, header.total));
        }
        if digest(out) != header.digest {
          return Rejected(DigestMismatch);
        }
        r := Done(header.fragmentId, out);
  }
}
