# TrustForge, modelled and proved in Dafny

TrustForge is a Rust workspace for signed actions: codecs and canonical text that signatures are
computed over, hash chains of proof events, stream and packet protocols, delegation of authority,
and small stores. This project models the parts of it that carry their own algorithms and proves
what they promise, for all inputs, all runs or all reachable states.

Each Rust loop is a Dafny method with loop invariants, each object with changing fields is a class,
and each is proved against a specification function; the laws are then proved about that function.

| file | what it models |
|---|---|
| `Common`, `Decimals`, `Radix`, `Text`, `Utf8` | strings ordered as Rust orders them, digits and numerals, searching and trimming, UTF-8 |
| `Cbor`, `CborCodec`, `CborLaws`, `CborSyntax`, `CborPlain` | the CBOR codec, and the grammar of all spellings it reads |
| `Base58`, `Base64`, `Base64Bits` | the two text encodings of bytes |
| `CivilTime`, `Timestamp`, `TimestampOrder` | civil dates, timestamp text, how it orders, validity windows |
| `Canonical`, `CanonicalEncoder`, `CanonicalLaws`, `CanonicalReader`, `CanonicalNormal` | canonical JSON, a reference reader for it, and the normal form it prints |
| `HashRef`, `Merkle`, `MerkleFill`, `Chain`, `ChainLaws`, `ChainEvents`, `ChainRoots` | hash references, event hashes, parent links, Merkle root, rolling hash |
| `Glob`, `GlobCover` | the dynamic-programming glob matcher, and when one pattern covers another |
| `Packets`, `PacketLaws`, `Replay`, `ReplayHistory` | packet fragmentation, and the two replay receivers |
| `Delegation`, `DelegationLimits`, `TargetCover` | delegation chains and their constraints |
| `Approvals`, `ApprovalHistory` | the approval queue |
| `BulkChunk`, `RpcStreams` | server streams, remote shells and agent sessions, and the client that receives them |
| `Http`, `HttpChunks`, `HttpLaws`, `HttpRoundTrip` | the HTTP/1.1 client's response side, with its 64-bit sums in both kinds of build |
| `FieldEscape`, `FileStore`, `FileStoreLaws`, `FileStoreLog`, `FileStoreHistory` | the file-backed store |

Foreign code enters as function parameters about which nothing is assumed unless a lemma says so:
SHA-256 (any function to 32 bytes), Unicode NFC, the text of floats, the widening of half and single
floats, lossy UTF-8 decoding and the JSON parser. Whether a build checks sums for overflow is a
parameter too. Where a result needs the hash not to collide, it says so of the finite set of
messages that were hashed: no function to 32 bytes is injective on all messages, so assuming that
would prove nothing. Clocks are parameters of the operations that read them, and concurrency
(timers, frames in flight, reads from a socket) is a sequence of steps in any order.

## Findings

These are places where a natural reading of the code is false. In each the code is modelled as it is;
the statement is exact where it says so.

- A Merkle root does not fix the number of events. Padding a list of leaves repeats its last ones up to
  a power of two; absent a collision, two non-empty lists of events of any lengths have one root exactly
  when they need the same padded size and their padded lists agree (`ChainRoots.MerkleRootExact`). Lists
  in which no two events are the same have one root only if they are the same list
  (`ChainRoots.DifferentEventsBind`). Lists of bare digests of different heights can also share a root
  through a 64-byte message (`MerkleFill.AcrossHeights`); no event serializes to one
  (`ChainRoots.PayloadLong`).
- A chain hash is shared by lists of different lengths exactly when the shorter is the tail of the longer
  and the events before it hash to zeros (`ChainLaws.ChainHashBinds`).
- Null stream values are lost on the wire, so a client sees everything a handler produced exactly when
  none of it is null (`RpcStreams.AllValuesIffNoNull`).
- Timestamp text does not always order like time. It does for all moments with years from `lo` to `hi`
  exactly when `lo == hi`, or `lo >= -1` and no power of ten from 10000 on lies in `lo + 1` to `hi`, or
  `lo` is minus a power of ten from 1000 on and `hi == lo + 1` (`TimestampOrder.OrderExact`); from year 0,
  up to 9999. The text reads back exactly for years -999 to 9999 (`Timestamp.TextRoundTrip`), and seconds
  convert back exactly while the year fits 32 bits (`Timestamp.MomentRoundTrip`).
- A payload of 4 GiB or more fragments but never reassembles (`Packets.ReassembleInvertsFragment`).
  Fragmenting anything but an empty payload with an `mtu` of 0 divides by zero (`Packets.FragmentPacket`).
  Reassembly panics exactly when, before anything else is refused, a fragment of the train carries an
  index that is not below the count (`Packets.IndexPanicExact`).
- The indexed and the linear-scan replay receivers decide alike exactly when no unexpired packet is
  dated in the future (`Replay.IndexRefinesScan`).
- Pushing an id that is pending, while the queue has room, closes the earlier requester's channel without
  an answer. A run leaves no channel closed exactly when no step does that
  (`Approvals.AnsweredExactly`); reusing an id after it was settled is harmless.
- Intersecting constraints is not always their conjunction. It is for sessions and devices exactly when
  both sides are equal (`Delegation.SessionExactness`, `Delegation.DeviceExactness`), for approvals unless
  the first needs none and the second does (`Delegation.ApprovalExactness`), and for targets exactly
  when, with no pattern shared, both sides accept the same targets, and otherwise when a shared pattern
  accepts every target that both sides do (`Delegation.TargetExactness`). On the patterns alone: covering
  one side by the shared patterns suffices (`TargetCover.CoveredTargets`), and if one side has no stars the
  test is exact (`TargetCover.LiteralSideExactness`).
- The HTTP client adds sizes that the server announces in 64 bits. Decoding chunks panics exactly when it
  reaches a header that announces 2^64 - 2 or more; 2^64 - 1 in a build without overflow checks takes
  another byte behind the header (`HttpChunks.PanicExact`). The completeness test is right exactly when the header's end
  plus the content length stays below 2^64 (`HttpLaws.LengthExact`).
- The HTTP client's result depends on how reads are split exactly when bytes beyond the size cap
  follow a prefix that settles within one read buffer of the cap (`HttpLaws.SplitIndependence`). Its
  check for a folded header can never succeed (`HttpLaws.NeverFolded`).
- A revocation is read back after a reload exactly when its fields are ASCII and its line is not
  blank (`FileStoreLaws.RevocationsExact`); a compacted log is read back exactly when each payload's
  canonical text has the hash it is filed under and parses back to it (`FileStoreLaws.CompactExact`).

## Model

| member | source | states |
|---|---|---|
| CborLaws.RoundTrip | crates/tf-types/src/cbor.rs:118-385 | for every encodable value and every tail of bytes, decoding its encoding and the tail gives the value and leaves exactly the tail when the value nests at most 128 deep, and otherwise fails as too deep |
| CborLaws.PrefixFree | crates/tf-types/src/cbor.rs:118-194 | no encoding is a proper prefix of another: equal bytes with tails mean equal values and equal tails |
| CborLaws.Reencode | crates/tf-types/src/cbor.rs:205-385 | every accepted buffer, indefinite lengths and non-minimal heads included, gives a value that encodes and decodes back to itself; nodes plus string bytes are at most the bytes consumed, and what is left is a suffix of the input |
| CborLaws.HeaderRoundTrip | crates/tf-types/src/cbor.rs:118-135 | a written head is read back as its major type and argument, whatever follows |
| CborLaws.DecodeWire | crates/tf-types/src/cbor.rs:246-354 | the round trip at any nesting depth, exact about when the depth limit strikes |
| CborLaws.DecodeWireArray | crates/tf-types/src/cbor.rs:277-295 | the length guard never rejects a written array |
| CborLaws.DecodeWireMap | crates/tf-types/src/cbor.rs:296-320 | the two-bytes-per-entry guard never rejects a written map |
| CborLaws.SoundValue | crates/tf-types/src/cbor.rs:246-354 | any decoded value is encodable, within the depth limit, and weighs no more than the bytes it took |
| CborSyntax.HeadReads | crates/tf-types/src/cbor.rs:224-233 | a head of any width, minimal or not, is read as the big-endian number its bytes spell, and nothing behind it is consumed |
| CborSyntax.ChunksRead | crates/tf-types/src/cbor.rs:358-375 | any list of chunks with heads of any width, up to the break, reads as the concatenation of their bytes in order and leaves exactly the tail |
| CborSyntax.SpellingReads | crates/tf-types/src/cbor.rs:246-385 | every spelling of every item, with heads of any width, strings in chunks and arrays and maps of announced or indefinite length, reads as what the item means and leaves exactly the tail, or fails as too deep exactly if it nests too deep |
| CborSyntax.DecodedIsSpelled | crates/tf-types/src/cbor.rs:246-385 | whatever the decoder accepts is a spelling of some item that means the result, ends where the decoder stopped and nests within the limit |
| CborSyntax.DecodeExactly | crates/tf-types/src/cbor.rs:411-414 | a buffer decodes to a value if and only if it starts with a spelling of that value nesting at most 128 levels |
| CborPlain.HeaderIsShortest | crates/tf-types/src/cbor.rs:118-135 | the written head is the shortest of all heads that announce its number |
| CborPlain.WireIsPlain | crates/tf-types/src/cbor.rs:137-188 | the bytes of an encodable value are a spelling of it with shortest heads only, announced lengths only and eight-byte floats |
| CborCodec.PutHeader | crates/tf-types/src/cbor.rs:118-135 | appends the head that `CborPlain.HeaderIsShortest` shows to be the shortest |
| CborCodec.EncodeInto | crates/tf-types/src/cbor.rs:137-188 | appends the value's wire form, or reports the value's first fault |
| CborCodec.Encode | crates/tf-types/src/cbor.rs:190-194 | the wire form of the value, or its first fault |
| CborCodec.Decoder.Byte | crates/tf-types/src/cbor.rs:206-210 | reads one byte or reports truncation, moving the position only on success |
| CborCodec.Decoder.TakeBytes | crates/tf-types/src/cbor.rs:212-221 | takes exactly the next bytes or reports truncation, moving the position only on success |
| CborCodec.Decoder.ReadArg | crates/tf-types/src/cbor.rs:224-233 | reads a head's argument in any of its widths |
| CborCodec.Decoder.IndefiniteString | crates/tf-types/src/cbor.rs:358-375 | concatenates definite chunks of the same kind up to the break, in order, as `CborSyntax.ChunksRead` says of the specification |
| CborCodec.Decoder.AtBreak | crates/tf-types/src/cbor.rs:377-384 | consumes a break byte if one is next |
| CborCodec.Decoder.ReadValue | crates/tf-types/src/cbor.rs:246-354 | reads one value exactly as specified; the position never passes the end |
| CborCodec.Decoder.ReadItems | crates/tf-types/src/cbor.rs:287-294 | reads the announced number of items |
| CborCodec.Decoder.ReadItemsToBreak | crates/tf-types/src/cbor.rs:278-283 | reads items up to the break |
| CborCodec.Decoder.ReadEntries | crates/tf-types/src/cbor.rs:306-318 | reads the announced number of map entries |
| CborCodec.Decoder.ReadEntriesToBreak | crates/tf-types/src/cbor.rs:297-304 | reads map entries up to the break |
| CborCodec.DecodeFirst | crates/tf-types/src/cbor.rs:411-414 | returns a value exactly if the buffer starts with a spelling of it in the CBOR grammar; what it accepts re-encodes to something that decodes to the same value and is no heavier than the input |
| Utf8.EncodeThenDecode | crates/tf-types/src/cbor.rs:265-276 | the bytes of any text decode to that text |
| Utf8.DecodeThenEncode | crates/tf-types/src/cbor.rs:265-276 | bytes that decode are exactly the encoding of the result, so only well-formed UTF-8 is text |
| Base58.DecodeInvertsEncode | crates/tf-types/src/bridge_did.rs:218-294 | decoding an encoding gives back every byte string, leading zeros included |
| Base58.EncodeInvertsDecode | crates/tf-types/src/bridge_did.rs:218-294 | a text that decodes is the encoding of what it decodes to |
| Base58.EncodeBufferSuffices | crates/tf-types/src/bridge_did.rs:272-273 | the encode buffer, even one digit smaller, holds every number of that many bytes |
| Base58.DecodeBufferSuffices | crates/tf-types/src/bridge_did.rs:226-227 | the decode buffer, even one byte smaller, holds every number of that many symbols |
| Base58.ShiftIn | crates/tf-types/src/bridge_did.rs:231-236 | one pass of the digit loop: carry and buffer together are the old number times the multiplier plus the digit |
| Base58.ConvertBytes | crates/tf-types/src/bridge_did.rs:272-281 | the buffer holds the number the bytes denote, and no carry is ever lost |
| Base58.ConvertSymbols | crates/tf-types/src/bridge_did.rs:226-240 | fails exactly on a symbol outside the alphabet; the overflow exit is unreachable |
| Base58.FirstNonZero | crates/tf-types/src/bridge_did.rs:241-244 | the buffer without its leading zeros |
| Base58.PushSymbols | crates/tf-types/src/bridge_did.rs:286-292 | appends one symbol per digit |
| Base58.Encode | crates/tf-types/src/bridge_did.rs:264-294 | the specified encoding, which decodes to the input |
| Base58.Decode | crates/tf-types/src/bridge_did.rs:218-248 | succeeds exactly on texts over the alphabet, and re-encoding gives the text |
| Base64.DecodeInvertsEncode | crates/tf-types/src/encoding.rs:74-175 | for both engines, decoding an encoding gives back every byte string |
| Base64.EncodeInvertsDecode | crates/tf-types/src/encoding.rs:74-175 | for both engines, an accepted text is the encoding of what it decodes to: one spelling per byte string |
| Base64.SymbolInverse | crates/tf-types/src/encoding.rs:178-189 | reading a symbol inverts writing it, both ways, and no symbol is the padding sign |
| Base64Bits.EncodedBits | crates/tf-types/src/encoding.rs:74-108 | without padding, the symbols are the base-64 digits of the bytes read as one base-256 number, most significant first, filled with zero bits to a whole symbol |
| Base64.Encode | crates/tf-types/src/encoding.rs:74-108 | the specified encoding, which decodes to the input |
| Base64.Decode | crates/tf-types/src/encoding.rs:110-175 | the specified result or error, and what it accepts re-encodes to the input |
| Base64.DecodeLoop | crates/tf-types/src/encoding.rs:141-175 | the group loop and the remainder decode the unpadded symbols |
| CivilTime.CivilRoundTrip | crates/tf-types/src/offline_approval.rs:227-248 | every day number gives a valid Gregorian date, and the date gives back the day number |
| CivilTime.DaysRoundTrip | crates/tf-types/src/offline_approval.rs:215-248 | every valid date gives a day number that gives back the date |
| CivilTime.CivilAdvances | crates/tf-types/src/offline_approval.rs:227-248 | day 0 is 1970-01-01 and the next day number is the next day of the Gregorian calendar |
| CivilTime.YearOfEraCorrect | crates/tf-types/src/offline_approval.rs:236-236 | the closed formula finds the year whose days contain the given day of the era |
| Timestamp.MomentRoundTrip | crates/tf-types/src/offline_approval.rs:215-248 | seconds convert to a valid moment and back exactly when the year fits 32 bits |
| Timestamp.UnixRoundTrip | crates/tf-types/src/offline_approval.rs:215-248 | a valid moment converts to seconds and back |
| Timestamp.FormatShape | crates/tf-types/src/offline_approval.rs:193-201 | the text is the year, a dash, and five two-digit fields, month, day, hour, minute, second, each followed by its separator |
| Timestamp.TextRoundTrip | crates/tf-types/src/offline_approval.rs:193-213 | the text of a moment reads back as its seconds exactly for years -999 to 9999 |
| TimestampOrder.OrderExact | crates/tf-types/src/offline_approval.rs:193-200 | texts of all moments with years in a range compare as strings as the seconds do if and only if the range is one year, or starts at -1 or later and holds no power of ten from 10000 on above its start, or is minus a power of ten from 1000 on with the year after it |
| TimestampOrder.TextOrder | crates/tf-types/src/offline_approval.rs:193-200 | on such a range, two texts compare, and are equal, exactly as the seconds are |
| TimestampOrder.FourDigitYears | crates/tf-types/src/offline_approval.rs:193-200 | from year -1 or 0 on, the orders agree up to year 9999 and no further |
| TimestampOrder.WindowIsInterval | crates/tf-types/src/expiration.rs:28-45 | on such a range of years, a window given by timestamps is not yet valid exactly before its start, expired exactly after its end and current exactly between them, naming the bound that is missed; a missing bound leaves that side open, and the fields for each bound take precedence in their order |
| Glob.Tokenize | crates/tf-types/src/glob.rs:27-40 | the tokens of the pattern, pairs of stars taken first |
| Glob.LiteralRow | crates/tf-types/src/glob.rs:50-54 | the row after a literal marks exactly the prefixes the tokens so far match |
| Glob.AnyRow | crates/tf-types/src/glob.rs:55-61 | the same after a double star |
| Glob.SegmentRow | crates/tf-types/src/glob.rs:62-72 | the same after a single star, which does not cross a slash |
| Glob.GlobMatch | crates/tf-types/src/glob.rs:18-77 | true exactly when the value splits into pieces that the tokens match one by one |
| Glob.MatchesConcatenate | crates/tf-types/src/glob.rs:18-77 | if two patterns match two values then the joined pattern matches the joined value, stars meeting at the seam included |
| Glob.StarsMeaning | crates/tf-types/src/glob.rs:27-40 | a run of one star matches slash-free text, a run of two or more matches any text |
| Glob.StarRunMeaning | crates/tf-types/src/glob.rs:18-77 | the same for a run of stars between two patterns |
| Glob.LiteralPattern | crates/tf-types/src/glob.rs:18-77 | a pattern without stars matches only itself |
| GlobCover.CoverAccepts | crates/tf-types/src/glob.rs:18-77 | if the tokens of one pattern can be laid over another's, it accepts everything the other accepts |
| GlobCover.CoversLiteral | crates/tf-types/src/glob.rs:18-77 | over a star-free pattern, covering is accepting |
| GlobCover.StarredIsUnbounded | crates/tf-types/src/glob.rs:18-77 | what a pattern with a star accepts has no bound on its length |
| CanonicalLaws.CanonicalIdentity | crates/tf-types/src/canonical.rs:31-111 | float-free normal values with distinct keys have the same canonical text if and only if they are equal up to member order at every level |
| CanonicalLaws.TextPrefix | crates/tf-types/src/canonical.rs:37-111 | canonical texts followed by a delimiter can be told apart: equal texts with such tails mean equal values and tails |
| CanonicalLaws.SameText | crates/tf-types/src/canonical.rs:70-83 | values equal up to member order have one canonical text |
| CanonicalLaws.SortSorted | crates/tf-types/src/canonical.rs:72-73 | members are printed in key order |
| CanonicalReader.CharsRead | crates/tf-types/src/canonical.rs:93-111 | escaped text, read by the string rules of RFC 8259, is the original text |
| CanonicalReader.CanonicalReads | crates/tf-types/src/canonical.rs:31-111 | the canonical text of a plain value kept in key order is JSON for exactly that value |
| CanonicalReader.CanonicalDenotes | crates/tf-types/src/canonical.rs:31-111 | the canonical text of any plain value is JSON for that value, up to member order |
| CanonicalNormal.CanonNormal | crates/tf-types/src/canonical.rs:31-111 | for every value and every normalization, the canonical text is the one that a normalization changing nothing gives for the value with all its strings and keys normalized |
| CanonicalNormal.NormalDenotes | crates/tf-types/src/canonical.rs:31-111 | the canonical text of a float-free value whose normalized keys differ, in any spelling, is JSON for its normal form in key order |
| CanonicalNormal.NormalIdentity | crates/tf-types/src/canonical.rs:31-111 | two such values have the same canonical text if and only if their normal forms are equal up to member order |
| CanonicalNormal.CanonFails | crates/tf-types/src/canonical.rs:46-58 | a value has a canonical text if and only if every float in it, at any depth, is finite |
| CanonicalEncoder.WriteJsonString | crates/tf-types/src/canonical.rs:93-111 | appends the quoted, escaped text |
| CanonicalEncoder.EncodeInto | crates/tf-types/src/canonical.rs:37-86 | appends the canonical text of the value, or reports a float that is not finite; by `CanonicalNormal.CanonNormal` that is the text of the normalized value |
| CanonicalEncoder.EncodeArrayInto | crates/tf-types/src/canonical.rs:60-69 | the loop over items writes them between brackets with commas |
| CanonicalEncoder.EncodeObjectInto | crates/tf-types/src/canonical.rs:70-83 | sorting the members and then printing them gives the printed members sorted |
| CanonicalEncoder.OrderedPrints | crates/tf-types/src/canonical.rs:72-81 | printing commutes with the stable sort by normalized key, and fails only if a member's value fails |
| CanonicalEncoder.Canonicalize | crates/tf-types/src/canonical.rs:31-35 | the canonical text or the fault, of which the `CanonicalNormal` laws say what it prints |
| HashRef.HexLower | crates/tf-types/src/chain.rs:67-73 | two lower-case digits per byte |
| HashRef.ParseHashRef | crates/tf-types/src/crypto.rs:96-114 | the specified parse, errors included |
| HashRef.ParseExact | crates/tf-types/src/crypto.rs:96-123 | a reference denotes an algorithm and bytes exactly when it is the algorithm, a first colon, and the bytes' hex in either letter case |
| HashRef.ParseInvertsPrint | crates/tf-types/src/crypto.rs:77-114 | a printed digest reads back |
| Merkle.RootLoop | crates/tf-types/src/chain.rs:107-119 | the level loop computes the level-by-level root, and halves the level each time |
| Merkle.HashPairs | crates/tf-types/src/chain.rs:111-117 | one pass hashes the level in pairs |
| Merkle.RootIsTree | crates/tf-types/src/chain.rs:94-121 | the level loop's root is the root of the tree defined from the top down, with a missing right half repeating the left |
| Merkle.RootOfTwo | crates/tf-types/src/chain.rs:111-117 | the root of two leaves is the hash of their 64 bytes, the left leaf first |
| Merkle.RootBinds | crates/tf-types/src/chain.rs:94-121 | equally many leaves with one root are the same leaves, unless two hashed nodes collide |
| Merkle.RepeatedTail | crates/tf-types/src/chain.rs:107-119 | with an odd multiple, 3 or more, of 2^k leaves, repeating the last 2^k keeps the root |
| Merkle.RepeatedLast | crates/tf-types/src/chain.rs:107-119 | repeating the last of an odd number of leaves, 3 or more, keeps the root |
| MerkleFill.FillStarts | crates/tf-types/src/chain.rs:107-119 | the list of 2^d leaves that padding amounts to begins with the leaves and holds nothing else |
| MerkleFill.RootExact | crates/tf-types/src/chain.rs:94-121 | non-empty lists of one height have one root if and only if their padded lists are equal, unless two hashed nodes collide |
| MerkleFill.DistinctBind | crates/tf-types/src/chain.rs:94-121 | lists of one height without repeated leaves have one root only if they are equal, whatever their counts |
| MerkleFill.AcrossHeights | crates/tf-types/src/chain.rs:94-121 | lists of different heights have one root only if the first leaf of the lower is the hash of a 64-byte node of the higher |
| Merkle.RollingBinds | crates/tf-types/src/chain.rs:125-136 | lists of any lengths have one rolling hash exactly when the shorter is the tail of the longer and what comes before it rolls to zeros, unless two hashed messages collide; equally long ones, when they are equal |
| Merkle.RollingOnBytes | crates/tf-types/src/chain.rs:125-136 | the empty chain is 32 zero bytes, and each further digest is hashed behind the 32 bytes so far |
| Chain.EventHash | crates/tf-types/src/chain.rs:48-65 | the reference to the hash of the event's canonical text without its signature |
| Chain.VerifyChain | crates/tf-types/src/chain.rs:77-88 | accepts exactly the lists in which every event names the hash of the one before, and otherwise reports the first link that breaks and why |
| Chain.MerkleRoot | crates/tf-types/src/chain.rs:94-121 | the root of the events' digests, the zero reference for none, or the first fault; the bad-reference exit is unreachable |
| Chain.ChainHash | crates/tf-types/src/chain.rs:125-136 | the rolling hash of the events' digests, or the first fault |
| ChainLaws.EventHashBinds | crates/tf-types/src/chain.rs:48-60 | absent a collision, two events hash alike exactly when their signed parts are the same up to member order |
| ChainEvents.SameEventExactly | crates/tf-types/src/chain.rs:48-60 | the signed parts of two events are the same if and only if id, type, actor, timestamp, level and parent hash are equal and the other fields are the same up to member order; the signature does not matter |
| ChainLaws.MerkleRootBinds | crates/tf-types/src/chain.rs:94-121 | equally many events have one root exactly when their signed parts agree throughout, absent a collision |
| ChainLaws.ChainHashBinds | crates/tf-types/src/chain.rs:125-136 | lists of any lengths have one chain hash exactly when the signed parts of the shorter are the tail of the longer's and the events before that tail hash to zeros, absent a collision |
| ChainLaws.RepeatedEvent | crates/tf-types/src/chain.rs:94-121 | an odd number of events, 3 or more, has the root of the list with its last event repeated |
| ChainLaws.SameParent | crates/tf-types/src/chain.rs:48-54 | the parent hash is part of what is signed |
| ChainLaws.ChainsShareHistory | crates/tf-types/src/chain.rs:77-88 | two lists that pass verification end in events of one hash exactly when the signed parts of the shorter are the tail of the longer's |
| ChainRoots.PayloadLong | crates/tf-types/src/chain.rs:48-65 | what is hashed for an event is longer than the 64 bytes of a tree node |
| ChainRoots.MerkleRootExact | crates/tf-types/src/chain.rs:94-121 | non-empty lists of events of any lengths have one root if and only if they have one height and their padded lists agree in their signed parts, absent a collision |
| ChainRoots.DifferentEventsBind | crates/tf-types/src/chain.rs:94-121 | non-empty lists, each without two events of the same signed part, have one root exactly when they agree throughout, counts included |
| Packets.FragmentPacket | crates/tf-types/src/packet.rs:238-293 | the fragments in order, or the packet itself when it fits; fails, dividing by zero, exactly on an mtu of 0 with a payload |
| Packets.PlaceFragments | crates/tf-types/src/packet.rs:325-340 | fills the slots as specified, refusing foreign, miscounted and duplicate fragments; an index out of range panics |
| Packets.CollectSlots | crates/tf-types/src/packet.rs:341-353 | the concatenated payloads, or the first bad slot |
| Packets.ReassembleFragments | crates/tf-types/src/packet.rs:303-371 | the specified result, which `PacketLaws` decides from the fragments alone; the missing-slot exit is unreachable |
| Packets.NoMissingSlot | crates/tf-types/src/packet.rs:324-353 | passing the count and duplicate checks fills every slot |
| Packets.IndexPanicExact | crates/tf-types/src/packet.rs:303-340 | reassembly panics if and only if the first fragment's count is the number of fragments and some fragment passes the id and count tests with an index out of range, after fragments that were all placed |
| Packets.ReassembleInvertsFragment | crates/tf-types/src/packet.rs:238-371 | any permutation of the fragments reassembles to the original bytes when they number less than 2^32, and is rejected otherwise |
| PacketLaws.AcceptedExactly | crates/tf-types/src/packet.rs:303-371 | reassembly yields bytes if and only if the fragments are as many as the first header counts, each carries its id and count and an index of its own, every payload decodes, the bytes joined by index are as many as the header announces, and their digest is the header's; the result is those bytes |
| PacketLaws.FlawDecides | crates/tf-types/src/packet.rs:303-340 | the first flawed fragment in order of arrival decides the error or the panic, by which test it fails first |
| PacketLaws.PayloadDecides | crates/tf-types/src/packet.rs:341-353 | without a flaw, the lowest index whose payload is not valid base64 decides the error |
| PacketLaws.TotalsDecide | crates/tf-types/src/packet.rs:354-371 | if all payloads decode, a wrong size is reported before a wrong digest |
| PacketLaws.FragmentsAre | crates/tf-types/src/packet.rs:238-293 | each fragment carries the source packet's addressing, an id of its own, the index, count and size (32 bits each) and the digest in its header and `mtu` bytes of the payload, the last one the rest; together they are the payload in order |
| Replay.PacketReceiver.ObservePacket | crates/tf-types/src/constrained.rs:66-98 | decides and records as specified |
| Replay.PacketReceiver.ExpireOlderThan | crates/tf-types/src/constrained.rs:100-120 | keeps exactly the entries that are not stale, in order, and counts the rest |
| Replay.PacketReceiver.constructor | crates/tf-types/src/constrained.rs:55-64 | an empty receiver with the given window or 4096 |
| Replay.ReceiverInvariant | crates/tf-types/src/constrained.rs:44-125 | over every run the map holds exactly the ids in the deque, without duplicates, at most max(1, window) of them |
| Replay.ReplaySpacing | crates/tf-types/src/constrained.rs:66-120 | with a clock that does not go back and one expiry per id, two acceptances of an id have at least max(1, window) other acceptances between them, expiry calls included |
| ReplayHistory.WindowIsHistory | crates/tf-types/src/constrained.rs:66-98 | after any packets the deque holds, in order, exactly the last max(1, window) ids accepted, as a definition that knows only the packets has it |
| ReplayHistory.DecidedExactly | crates/tf-types/src/constrained.rs:66-98 | after any packets, the next is rejected as expired exactly if it is late, as future-dated exactly if it is only early, as replayed exactly if it is in time and its id is among the last max(1, window) accepted ids, and is accepted otherwise |
| ReplayHistory.SurvivorsExactly | crates/tf-types/src/constrained.rs:100-120 | an expiry call keeps exactly the entries that are not stale, in their order |
| ReplayHistory.ExpiryExactly | crates/tf-types/src/constrained.rs:100-120 | after any run, an expiry call forgets an id exactly if the entry known for it is stale |
| Replay.EmbeddedReceiver.ObservePacket | crates/tf-core-no-std/src/nonce_cache.rs:71-91 | decides by linear scan and records as specified |
| Replay.EmbeddedReceiver.constructor | crates/tf-core-no-std/src/nonce_cache.rs:63-69 | an empty receiver with capacity at least 1 |
| Replay.IndexRefinesScan | crates/tf-types/src/constrained.rs:66-98 | the indexed receiver decides exactly like the linear scan on a sequence of packets if and only if none is unexpired and dated in the future |
| Approvals.ApprovalQueue.Enqueue | crates/tf-types/src/approval.rs:96-139 | refuses exactly when the queue is full, and otherwise waits under its id |
| Approvals.ApprovalQueue.Answer | crates/tf-types/src/approval.rs:143-167 | answers the request pending under the id, if any, and says whether there was one; over whole runs the answer is the responder's own decision (`ApprovalHistory.RespondedExactly`) |
| Approvals.ApprovalQueue.Timeout | crates/tf-types/src/approval.rs:109-125 | denies whatever is pending under the timer's id, and nothing if it was settled |
| Approvals.ApprovalQueue.DenyAll | crates/tf-types/src/approval.rs:170-190 | denies every pending request |
| Approvals.PendingOrSettled | crates/tf-types/src/approval.rs:96-190 | under every interleaving each accepted request is pending or settled and not both, only a responder approves, and the pending count stays within the maximum |
| Approvals.SettledOnce | crates/tf-types/src/approval.rs:96-190 | an outcome never changes |
| Approvals.TimerSettles | crates/tf-types/src/approval.rs:109-125 | a request whose timer has fired is settled |
| Approvals.FreshIdsAnswered | crates/tf-types/src/approval.rs:96-190 | with ids never reused, every settled request got an answer and every pending id leads to its own request |
| Approvals.ClashCloses | crates/tf-types/src/approval.rs:96-125 | a step closes a channel unanswered exactly when it pushes a pending id while there is room, and then only the channel of the request pending under it |
| Approvals.AnsweredExactly | crates/tf-types/src/approval.rs:96-190 | a run from an empty queue leaves no channel closed unanswered if and only if no step of it pushes a pending id while there is room |
| ApprovalHistory.WaitingExactly | crates/tf-types/src/approval.rs:96-190 | after any run from an empty queue, a push waits if and only if it was accepted and no later step settled it or replaced its id |
| ApprovalHistory.RespondedExactly | crates/tf-types/src/approval.rs:143-167 | a push ends with a responder's decision `d` if and only if some step responded `d` to its id while it waited |
| ApprovalHistory.DeniedExactly | crates/tf-types/src/approval.rs:109-190 | a push ends with a timer's or a drain's answer if and only if a timer fired for its id, or a drain came, while it waited; that answer is always a denial |
| ApprovalHistory.DroppedExactly | crates/tf-types/src/approval.rs:96-125 | a push ends with its channel closed if and only if its id was pushed again, with room, while it waited |
| Delegation.IntersectConstraints | crates/tf-types/src/capability.rs:52-64 | the specified intersection, whose every field `DelegationLimits.IntersectGives` states |
| Delegation.IntersectExact | crates/tf-types/src/capability.rs:18-153 | for time windows, quantities, rates and quorums, the intersection is satisfied exactly when both sides are |
| Delegation.IntersectKeepsKinds | crates/tf-types/src/capability.rs:52-81 | intersecting never leaves two constraints of one kind |
| Delegation.WalkChain | crates/tf-types/src/delegation.rs:16-79 | the specified walk, of which `DelegationLimits.EffectiveSums`, `DelegationLimits.ChainAdmits` and `DelegationLimits.BrokenReason` say what it returns; its effective set never holds two constraints of one kind |
| Delegation.ChainValidity | crates/tf-types/src/delegation.rs:16-79 | valid exactly when no link has expired and every link but the last allows redelegation to the depth that follows it |
| Delegation.EffectiveConstraints | crates/tf-types/src/delegation.rs:16-79 | for those constraint kinds, the effective set is satisfied exactly when every link's own constraints are |
| Delegation.BrokenStepIsFirst | crates/tf-types/src/delegation.rs:21-54 | the reported step is the first at which the chain stops being valid |
| DelegationLimits.IntersectGives | crates/tf-types/src/capability.rs:52-153 | the intersection has a quantity, rate, quorum or time window if and only if a side has one: the smallest amount with the first unit, the fewest calls and the shortest window, the largest quorum with the first approvers, the latest start and the earliest end; sessions, devices and approvals stay as first given |
| DelegationLimits.EffectiveSums | crates/tf-types/src/delegation.rs:16-79 | the effective constraints of any chain, broken ones included, hold these figures over all links walked |
| DelegationLimits.ChainAdmits | crates/tf-types/src/delegation.rs:16-79 | the effective quantity admits an amount, the rate a number of calls and a window, and the quorum a number of approvers, if and only if every link's own constraint does |
| DelegationLimits.BrokenReason | crates/tf-types/src/delegation.rs:21-54 | a chain breaks at the first link that is forbidden by the one before it, lies deeper than some earlier link allows, or has expired, and the reason reported is the first of these three that applies to it; otherwise it does not break |
| Delegation.TargetUnion | crates/tf-types/src/capability.rs:98-107 | target constraints that share a pattern intersect to something no wider than either; those that share none intersect to their union |
| Delegation.TargetExactness | crates/tf-types/src/capability.rs:98-107 | the intersection of target constraints is their conjunction if and only if, with no pattern shared, both sides accept the same targets, and otherwise every target both accept is accepted by a shared pattern |
| Delegation.LiteralTargetExactness | crates/tf-types/src/capability.rs:98-107 | for star-free patterns that is exactly when a pattern is shared or neither side has any |
| TargetCover.CoveredTargets | crates/tf-types/src/capability.rs:98-107 | for any patterns the intersection is the conjunction if, with no pattern shared, each side covers the other, and otherwise if the shared patterns cover one side |
| TargetCover.NestedTargets | crates/tf-types/src/capability.rs:98-107 | in particular if the patterns of one side are all among the other's |
| TargetCover.LiteralSideExactness | crates/tf-types/src/capability.rs:98-107 | if one side has no stars, the intersection is the conjunction if and only if a pattern is shared and every pattern of that side which the other side covers is shared, or neither side has any |
| Delegation.SessionExactness | crates/tf-types/src/capability.rs:83-136 | intersecting two session constraints is their conjunction exactly when they name one session |
| Delegation.DeviceExactness | crates/tf-types/src/capability.rs:83-153 | intersecting two device bindings is their conjunction exactly when they name one device |
| Delegation.ApprovalExactness | crates/tf-types/src/capability.rs:83-153 | intersecting two approval requirements is their conjunction exactly unless the first is met by itself and the second is not |
| RpcStreams.RunServerStreamLoop | crates/tf-types/src/rpc.rs:1828-1873 | one numbered frame per value, then the end or the handler's error |
| RpcStreams.DispatchSubscribe | crates/tf-types/src/rpc.rs:1894-1933 | the opening acknowledgement, the stream and the closing acknowledgement |
| RpcStreams.DispatchCommandChannel | crates/tf-types/src/rpc.rs:2035-2103 | the acknowledgement that grants credit, and then the stream |
| RpcStreams.DispatchRemoteShell | crates/tf-types/src/rpc.rs:2244-2311 | one numbered frame per piece of output, in base64 under its stream's tag, and then the end |
| RpcStreams.DispatchAgentSession | crates/tf-types/src/rpc.rs:2313-2379 | one numbered frame per value under its responsibility chain, and then the end |
| BulkChunk.ChunkComesBack | crates/tf-types/src/rpc.rs:304-316 | bytes sent as base64 text are read back as they were |
| RpcStreams.RpcClient.Listen | crates/tf-types/src/rpc.rs:353-540 | handles one frame as specified |
| RpcStreams.RpcClient.TakeValue | crates/tf-types/src/rpc.rs:396-533 | a value frame with the expected number: plain, shell and agent streams each remember their tags and hand over their kind of record |
| RpcStreams.OutputIntended | crates/tf-types/src/rpc.rs:446-533 | whatever tags came before, a payload is handed over as the handler produced it, under its own tag |
| RpcStreams.OnlyOwnFramesMatter | crates/tf-types/src/rpc.rs:384-445 | what a call receives does not depend on other calls' frames |
| RpcStreams.AcksYieldNothing | crates/tf-types/src/rpc.rs:403-412 | frames numbered below zero never yield a value |
| RpcStreams.ChaosSafety | crates/tf-types/src/rpc.rs:384-540 | under any loss, duplication or reordering of a call's frames, of all five kinds of call, the client yields a prefix of what is owed and then at most one error |
| RpcStreams.NothingAfterEnd | crates/tf-types/src/rpc.rs:393-395 | a call that is over yields nothing more |
| RpcStreams.InOrderDelivery | crates/tf-types/src/rpc.rs:1828-2379 | frames in order, among any others, yield everything that is not null and the handler's error if there is one, and end the call |
| RpcStreams.AllValuesIffNoNull | crates/tf-types/src/rpc.rs:435-438 | what the client hands over is all that the handler produced exactly when none of it is null |
| RpcStreams.ShellOutputIntact | crates/tf-types/src/rpc.rs:2244-2311 | the output of a remote shell arrives whole, in order, each piece under its own tag |
| RpcStreams.UnaryAnswered | crates/tf-types/src/rpc.rs:1799-1826 | the caller of a unary call gets exactly what the handler returned, null included, and once: whatever arrives for other calls, whatever stream frames come first and whatever follows |
| Text.FindStable | crates/tf-transport/src/lib.rs:260-262 | what is found in a prefix is found at the same place in the whole |
| Text.FindMeaning | crates/tf-transport/src/lib.rs:260-262 | the search gives the first occurrence, and fails only when there is none |
| Http.ResponseFraming | crates/tf-transport/src/lib.rs:285-335 | the loop over header lines gives the specified framing or first fault |
| Http.FrameOneLine | crates/tf-transport/src/lib.rs:287-327 | one line's effect on the framing; the folded-header exit is unreachable |
| Http.ParseHeaders | crates/tf-transport/src/lib.rs:401-413 | the trimmed names and values up to the empty line |
| Http.DecodeChunked | crates/tf-transport/src/lib.rs:337-366 | the loop decodes the chunks as specified, or gives the first fault, a panic of the 64-bit sum included |
| Http.ResponseComplete | crates/tf-transport/src/lib.rs:264-277 | whether reading may stop, with the 64-bit sum wrapping or panicking as the build has it |
| Http.ParseResponse | crates/tf-transport/src/lib.rs:368-399 | status, headers and body, or the first fault |
| Http.ReadLoop | crates/tf-transport/src/lib.rs:164-179 | reads until complete, failed, capped or ended |
| HttpChunks.DechunkStable | crates/tf-transport/src/lib.rs:337-366 | a chunked body that decodes or panics does so whatever follows it |
| HttpLaws.CompleteStays | crates/tf-transport/src/lib.rs:264-277 | once a prefix is complete or faulty, every longer prefix is so in the same way |
| HttpLaws.ParseStays | crates/tf-transport/src/lib.rs:368-399 | a complete prefix parses like the whole stream, as far as the announced length |
| HttpLaws.CountedParses | crates/tf-transport/src/lib.rs:368-399 | below 2^64 bytes, what follows the announced length makes no difference to the parse |
| HttpLaws.LengthExact | crates/tf-transport/src/lib.rs:264-277 | with a content length, the completeness test says whether the whole body is there if and only if the header's end plus the length is below 2^64 |
| HttpLaws.WithinCap | crates/tf-transport/src/lib.rs:164-179 | up to the size cap the result is a function of the stream, however reads split it |
| HttpLaws.SplitDoesNotMatter | crates/tf-transport/src/lib.rs:164-179 | beyond the cap every split gives the stream's outcome, or every split gives the cap error, unless the stream straddles the cap |
| HttpLaws.SplitMatters | crates/tf-transport/src/lib.rs:164-179 | a stream that straddles the cap has one split that reads the outcome and one that gives the cap error |
| HttpLaws.SplitIndependence | crates/tf-transport/src/lib.rs:164-179 | the result does not depend on the split exactly when the stream does not straddle the cap |
| HttpLaws.FramingMeaning | crates/tf-transport/src/lib.rs:285-335 | a header block has a framing exactly when its lines are well formed, its lengths parse and agree, a chunked coding comes last, and it does not give both |
| HttpLaws.NeverFolded | crates/tf-transport/src/lib.rs:301-303 | the folded-header test never succeeds |
| HttpLaws.HeadersParse | crates/tf-transport/src/lib.rs:401-413 | after the framing is accepted the header list cannot fail |
| HttpChunks.WireDecodes | crates/tf-transport/src/lib.rs:337-366 | any list of non-empty chunks with headers that announce their sizes decodes to its data, if the trailer section is ended |
| HttpChunks.DecodedIsWire | crates/tf-transport/src/lib.rs:337-366 | whatever decodes is such a list |
| HttpChunks.WirePanics | crates/tf-transport/src/lib.rs:356-363 | such a list followed by a header whose size overruns panics, whatever comes then |
| HttpChunks.PanicExact | crates/tf-transport/src/lib.rs:337-366 | decoding panics if and only if the input is such a list followed by a header that announces 2^64 - 2 or more, with at least one byte behind it if that is 2^64 - 1 and the build does not check sums |
| HttpChunks.PrintedDecodes | crates/tf-transport/src/lib.rs:337-366 | printing non-empty chunks with hex sizes and decoding gives their concatenation, or a panic if a size is 2^64 - 2 or more |
| HttpRoundTrip.HeadEnds | crates/tf-transport/src/lib.rs:260-262 | the blank line that is found is the one that ends a printed head, whatever the body holds |
| HttpRoundTrip.HeadReads | crates/tf-transport/src/lib.rs:368-413 | a printed head gives back its status code, its headers in order, and the framing its headers announce |
| HttpRoundTrip.StatusIsHttp1 | crates/tf-transport/src/lib.rs:372-386 | a head is given a status only if its first line begins with an HTTP/1 version |
| HttpRoundTrip.SizedParses | crates/tf-transport/src/lib.rs:368-399 | a printed response with a content length is complete, unless it is 2^64 bytes long and the build checks sums, and parses to its status, headers and body |
| HttpRoundTrip.ChunkedParses | crates/tf-transport/src/lib.rs:368-399 | a printed response in chunks is complete and parses to its status, headers and the joined chunks, or panics if a size is 2^64 - 2 or more |
| HttpRoundTrip.SizedDelivered | crates/tf-transport/src/lib.rs:164-179 | however the reads fall and whatever follows, within the cap the client returns the sized response that was sent |
| HttpRoundTrip.ChunkedDelivered | crates/tf-transport/src/lib.rs:164-179 | the same for a response in chunks |
| HttpRoundTrip.BareDelivered | crates/tf-transport/src/lib.rs:164-179 | without a framing header the body is everything up to the end of the stream, however the reads fall |
| HttpRoundTrip.SizedTruncated | crates/tf-transport/src/lib.rs:368-399 | a sized response whose stream ends early is an error, never a shorter body |
| FieldEscape.EscapeField | crates/tf-store-file/src/lib.rs:540-552 | the specified escape |
| FieldEscape.UnescapeField | crates/tf-store-file/src/lib.rs:554-573 | the specified reading, errors included |
| FieldEscape.FieldComesBack | crates/tf-store-file/src/lib.rs:540-573 | a written field always reads back, as its UTF-8 bytes taken for characters |
| FieldEscape.FieldRoundTrip | crates/tf-store-file/src/lib.rs:540-573 | a field reads back as itself exactly when it is ASCII |
| FileStore.Store.Load | crates/tf-store-file/src/lib.rs:71-139 | memory becomes what the files say, or the first bad line is reported |
| FileStore.Store.LoadProofLog | crates/tf-store-file/src/lib.rs:77-115 | the ledger of the log's lines, blank lines skipped, a repeated hash keeping its first place |
| FileStore.Store.LoadRevocationFile | crates/tf-store-file/src/lib.rs:117-136 | the map of the file's lines |
| FileStore.ParseRevocation | crates/tf-store-file/src/lib.rs:125-134 | one line's key and time, or its fault |
| FileStore.Store.Append | crates/tf-store-file/src/lib.rs:215-241 | a known event changes nothing; a new one is appended to memory and to the log |
| FileStore.Store.Tail | crates/tf-store-file/src/lib.rs:248-258 | the payloads of the last hashes, in order |
| FileStoreLaws.TailHolds | crates/tf-store-file/src/lib.rs:248-258 | with one entry per hash, the tail has as many items as asked for or as there are, each the payload of its hash |
| FileStore.Store.Insert | crates/tf-store-file/src/lib.rs:262-274 | the map gains the entry and the file holds the whole map |
| FileStore.Store.Compact | crates/tf-store-file/src/lib.rs:145-149 | both files are rewritten from memory; a value that cannot be printed leaves them as they were |
| FileStore.Store.PersistProofLog | crates/tf-store-file/src/lib.rs:367-395 | the log becomes one line per hash in order |
| FileStore.Store.PersistRevocations | crates/tf-store-file/src/lib.rs:397-421 | the file holds every entry once |
| FileStore.WriteRevocation | crates/tf-store-file/src/lib.rs:405-414 | one entry's line |
| FileStoreLaws.CanonClean | crates/tf-types/src/canonical.rs:93-111 | canonical text never holds a control character, so a record never spans lines |
| FileStoreLaws.LogLineReads | crates/tf-store-file/src/lib.rs:85-109 | a written record passes the checksum and reads back as what its text parses to, if the hash is the text's |
| FileStoreLog.RecordExactly | crates/tf-store-file/src/lib.rs:85-109 | a line loads as a hash and an event if and only if it is the line written for that hash and a text that has this hash and parses to the event |
| FileStoreLog.ColumnsRead | crates/tf-store-file/src/lib.rs:92-109 | of three columns, a wrong checksum is reported first, then a wrong hash, then a text that does not parse |
| FileStoreLog.MalformedExactly | crates/tf-store-file/src/lib.rs:85-91 | a line is malformed if and only if it has fewer than two tabs |
| FileStoreLog.LoadedExactly | crates/tf-store-file/src/lib.rs:77-115 | loading fails at the first line that is neither blank nor a record, with that line's error; otherwise the hashes are listed in the order of their first records, each with the event of its last |
| FileStoreLaws.LoadedWellKeyed | crates/tf-store-file/src/lib.rs:77-115 | whatever a log contains, loading leaves one entry per hash |
| FileStoreLaws.CompactExact | crates/tf-store-file/src/lib.rs:145-149 | a compacted log reads back as the ledger exactly when every payload's canonical text has its hash and parses back to it |
| FileStoreLaws.RevocationsExact | crates/tf-store-file/src/lib.rs:397-421 | the revocation file, in any order of entries, reads back as the map exactly when every field is ASCII and no entry's line is blank |
| FileStoreLaws.AppendExact | crates/tf-store-file/src/lib.rs:215-241 | from a sound store, a new event leaves the files readable as the memory exactly when its canonical text parses back to it |
| FileStoreLaws.InsertExact | crates/tf-store-file/src/lib.rs:262-274 | from a sound store, an insertion leaves the files readable as the memory exactly when its fields are ASCII and its line is not blank |
| FileStoreLaws.PlainEventStorable | crates/tf-store-file/src/lib.rs:107-109 | a plain event kept in key order is storable with any parser that reads its canonical text as RFC 8259 has it |
| FileStoreLaws.StepKeeps | crates/tf-store-file/src/lib.rs:145-274 | every storable append, insertion and compaction keeps the files readable as the memory |
| FileStoreLaws.ReloadGivesMemory | crates/tf-store-file/src/lib.rs:71-149 | after any run of storable operations from an empty directory, reloading gives the same order, payloads and revocations as memory |
| FileStoreHistory.MemoryIsHistory | crates/tf-store-file/src/lib.rs:215-274 | after any run from an empty directory, memory holds exactly the events that were appended, in the order of their first appends and each as first appended, and exactly the revocations that were inserted, each with its last time |

## Left out

- Signatures, key agreement, encryption and the inside of the hash functions: foreign libraries; packet and event signatures are not checked by anything modelled here.
- The proxies, bridges, adapters to policy engines, WebAssembly plugins, telemetry and the SQL and Redis stores: plumbing over libraries that are not part of this model.
- CanonicalReader.CanonicalReads: the reference reader covers the JSON that canonical text of plain values uses; blanks, fractions, exponents and surrogate escapes are outside it.
- Floats: their text in canonical JSON and the widening of half and single floats in CBOR are parameters, and `CanonicalLaws.CanonicalIdentity` is about float-free values.
- Base58.EncodeBufferSuffices: the source computes the size in 64-bit floating point; the model takes the exact rational ceiling, and the lemma shows one digit to spare, which absorbs the rounding for every practical length.
- Base58.DecodeBufferSuffices: the same, with one byte to spare.
- Timestamp.TextRoundTrip: reading a timestamp whose field boundaries fall inside a multi-byte character panics in the source and is not modelled; nor is the debug-build underflow for day 0.
- Packets.FragmentPacket: the fragments' own signatures are not modelled.
- CborCodec.DecodeFirst: buffers of 2^64 bytes or more, which cannot exist on the target, are excluded; so are values of that size in `CborCodec.Encode`.
- Delegation.IntersectExact: targets, sessions, approvals and device bindings are intersected as in the source but are not conjunctions in general; `Delegation.TargetExactness` and its companions say exactly when they are. With stars on both sides the test on the patterns is sufficient and not necessary: `**/*` accepts whatever `x/**` does without covering it.
- DelegationLimits.IntersectGives: a left side that already holds two constraints of one kind is excluded; by `Delegation.WalkChain` no walk produces one, and `DelegationLimits.EffectiveSums` is about every chain.
- DelegationLimits.BrokenReason: chains of more than 2^63 - 1 links, which cannot exist, would exhaust the depth counter itself and are excluded.
- CborSyntax.DecodeExactly: says which buffers are accepted and as what; of the errors it fixes only that for nesting too deep (`CborSyntax.SpellingReads`).
- ReplayHistory.DecidedExactly: is about runs of packets; with expiry calls in between, `ReplayHistory.ExpiryExactly` says what each call forgets.
- RpcStreams.RpcClient.Listen: the metadata of unary responses, which the client ignores, and the priority and bulk fields, which no stream modelled here sends, are left out; so are streams from client to server, bulk transfer, telemetry and the bridge to HTTP.
- Approvals.ApprovalQueue.Timeout: a timer may fire at any later step; durations are not modelled.
- Http.ReadLoop: input and output errors and the overall timeout are not modelled; the request side, which parses the URL and writes the request line and headers, is not modelled.
- FileStore.Store.PersistRevocations: the source visits the entries in key order; the model leaves the order open, so the results hold for every order.
- FileStore.Store.Load: files are text, because only text is written; invalid UTF-8 in a file edited by hand, input and output errors, temporary files and crashes between the two renames of a compaction are not modelled.
- Evidence bundles (opaque files, each with a checksum beside it), the health check that reads everything again, and the revocation query, a lookup and one string comparison, are not modelled.
