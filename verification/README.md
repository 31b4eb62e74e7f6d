# rns-rs, modelled and proved in Dafny

rns-rs is a Rust implementation of the Reticulum network stack and its tools. This project
models the parts of it that carry the most logic, and proves what they promise for every
input, every run and every reachable state. Nothing is assumed: hash functions, UTF-8
validity and the widening of a 32-bit float are parameters, and the theorems hold whatever
they are.

- **Multi-limb integers** (`rns-crypto/src/bigint.rs`). `BigUint` is a class with a limb
  vector in normal form. Every operation is a loop over limbs proved to compute its integer
  meaning, up to `mod_pow` and to `mod_inv`, which rests on Fermat's little theorem, proved
  here from Euclid's lemma and the binomial theorem.
- **MessagePack** (`rns-core/src/msgpack.rs`). The recursive codec as functions, with its
  round trip, its self-delimiting and its shortest-form theorems, and the buffer-appending
  encoder and offset-advancing decoder proved equal to them.
- **The sentinel's peer tracker** (`rns-cli/src/sentineld.rs`). Pruned sliding windows,
  escalation and decay, against a plain definition over the whole event history: when a peer
  is banned, at which level, for how long and why.
- **WebSocket framing** (`rns-ctl/src/ws.rs`; sections 5.2 and 5.3 of RFC 6455). A buffered
  reader that delivers the same frames however the stream is cut into reads.
- **rnsh** (`rns-cli/src/rnsh.rs`). Its own msgpack codec, its typed messages, and the
  listener session as a protocol state machine: its states as languages of inputs, every
  answer exactly when it is due, safety over whole runs, and the listener's loop over all its
  sessions.
- **The channel** (`rns-core/src/channel`). The receiver under loss, repetition and reordering,
  with sequence numbers that wrap, characterized for every run; the sender's window, its limits
  and retries, and the bytes it puts on the link; and the two ends together, with the
  acknowledgements of `rns-net/src/common/link_manager.rs`.
- **Packets, stamps and text encodings** (`rns-core/src/packet.rs`, `rns-core/src/stamp.rs`,
  `rns-cli/src/format.rs`, `rns-ctl/src/encode.rs`). Wire format and hashable part, proof of
  work, and base 16, 32 and 64 (sections 8, 6 and 4 of RFC 4648) as three instances of one
  theory of regrouping bits.

The modules follow the program's own form. What it updates in place is a class or an array
with `modifies` clauses, its loops are loops with invariants, and each such method is proved
against a function or a mathematical statement; what it computes by matching and recursion
is functions and lemmas.

Some properties one would expect hold only under a condition. For each there is the exact
condition, and an input on which the property fails:

- MessagePack and rnsh values come back from their encodings exactly when their lengths,
  nesting and strings fit (`Msgpack.ExactRoundTripIff`, `RnshRoundTrip.RoundTripIff`,
  `RnshMessages.MessageRoundTripIff`). Arrays nested 33 deep do not (`Msgpack.TooDeep`), nor
  does an rnsh map of 65536 pairs or more, whatever they are (`RnshRoundTrip.NilMapIff`).
- Penalty decay is independent of when it is looked at exactly when the decay interval is a
  whole number of seconds, at least one (`SentinelDecay.ObservationFreeIff`, with
  `FractionLost` and `FractionGained` as the two ways it fails). The daemon only ever sets
  such intervals (`rns-cli/src/sentineld.rs:162-163`), so there the law of
  `SentinelPenalties.LevelAfterPenalty` holds; the other cases are those of the function.
- A session that closes does not always terminate its process: a refused identity leaves it
  to the closing of the link that the refusal asks for (`RnshSession.RefusalLeavesProcess`).
  As long as the listener's loop serves, a process has been told to terminate exactly when
  the inputs of its own session doom it (`RnshServing.ToldExactly`), and always once its link
  has closed (`RnshServing.NoneLeftBehindServing`), whatever happens on other links
  (`RnshServing.LinksApart`). The loop serves exactly as long as every message of a process's
  output and end is taken by its link (`RnshServing.ServingIff`). The first that is not ends
  the loop for all links, and no process is told any more (`RnshServing.RefusalStrands`, with
  a run of two links in `RnshServing.OneLinkStrandsAnother`).
- The channel receiver hands messages on in order and once exactly as long as no arrival is
  mistaken for another with the same number (`Channels.FaithfulIff`). Such arrivals exist at
  the wrap (`Channels.NotOnceAtTheWrap`); `Channels.StaleHarmlessIff` says which late copies
  are harmless, however late, and `Channels.GoesInIsHandedOn` what becomes of the others.
- The sender keeps at most 48 messages outstanding (`ChannelSenders.EveryRunConsistent`), but
  that alone does not keep arrivals within 48 of the first message missing. What does is that
  no message is sent more than 48 after the oldest one outstanding, which the sender can read
  off its ring, and that no acknowledgement is taken for another message's
  (`ChannelSenders.CarefulSender`); acknowledgements that come in order are enough
  (`ChannelSenders.AcknowledgedInOrder`). While that oldest message has not arrived and nothing
  was mistaken, the distance is exact (`ChannelSenders.NextSendIff`). The code does not keep
  to it: arrivals get up to 65535 places ahead (`ChannelSenders.ArrivesAhead`), and near the
  wrap a message can then be acknowledged and never handed on
  (`ChannelSenders.AcknowledgedNeverHandedOn`).
- The comment in `stamp_valid` derives a non-strict bound; the code computes the strict one.
  They differ on exactly one hash for each cost but zero (`Stamps.NonStrictBound`).

Where code and documentation disagree the model follows the code: the header comment of
`msgpack.rs` lists fewer formats than the module reads and writes.

## Model

| member | source | states |
|---|---|---|
| `BigUints.BigUint.FromU64` | rns-crypto/src/bigint.rs:22-24 | A word becomes a number in normal form with that value. |
| `BigUints.BigUint.Normalize` | rns-crypto/src/bigint.rs:26-30 | Any non-empty limb vector is brought to the one normal form of its value. |
| `BigUints.BigUint.IsZero` | rns-crypto/src/bigint.rs:32-34 | True exactly for the value zero, also of vectors not in normal form. |
| `BigUints.BigUint.GetBit` | rns-crypto/src/bigint.rs:36-44 | Bit i of the integer value, and false beyond the last limb. |
| `BigUints.BigUint.BitCount` | rns-crypto/src/bigint.rs:46-53 | In normal form, the bit length of the integer value. |
| `BigUints.BigUint.SetBit` | rns-crypto/src/bigint.rs:95-108 | Adds or removes 2^i exactly when the bit changes, at any position, and keeps normal form. |
| `BigUints.BigUint.ClearBit` | rns-crypto/src/bigint.rs:110-113 | Removes 2^i exactly when the bit was set, and keeps normal form. |
| `BigUints.BigUint.Equals` | rns-crypto/src/bigint.rs:116-131 | Equality of values, also for vectors not in normal form. |
| `BigUints.BigUint.Compare` | rns-crypto/src/bigint.rs:141-160 | In normal form, the order of the integer values, decided by bit length and then by the highest differing limb. |
| `BigUints.BigUint.Add` | rns-crypto/src/bigint.rs:162-183 | The exact sum, in normal form; no carry is lost. |
| `BigUints.BigUint.Sub` | rns-crypto/src/bigint.rs:192-214 | The exact difference, in normal form, when it is not negative, which the code asserts; no borrow is left. |
| `BigUints.SetBitValue` | rns-crypto/src/bigint.rs:95-108 | Rewriting one limb changes the whole number by exactly one bit. |
| `BigUints.BitLengthOfNormal` | rns-crypto/src/bigint.rs:46-53 | The bit length of a number in normal form is found from its top limb alone. |
| `Limbs.NormalFormUnique` | rns-crypto/src/bigint.rs:26-30 | Two normal forms with the same value are the same limbs. |
| `Multiplication.PropagateCarry` | rns-crypto/src/bigint.rs:223-253 | A carry pushed upward is added in full; when the total fits, the end of the result never drops one. |
| `Multiplication.ProductCell` | rns-crypto/src/bigint.rs:223-253 | One cell's 128-bit sum never overflows, and digit and carry account for the product. |
| `Multiplication.AddRow` | rns-crypto/src/bigint.rs:223-253 | One row of the schoolbook product adds limb times factor at its weight. |
| `Multiplication.Mul` | rns-crypto/src/bigint.rs:223-253 | The exact integer product for all limb lengths, in normal form. |
| `Shifts.Shl` | rns-crypto/src/bigint.rs:324-352 | Multiplication by 2^shift, with whole-limb and in-limb shifts agreeing. |
| `Shifts.ShlParts` | rns-crypto/src/bigint.rs:324-352 | A limb joined with the carry below it, and the bits pushed out of its top, lose nothing. |
| `Shifts.Shr` | rns-crypto/src/bigint.rs:361-390 | Division by 2^shift rounded down, zero when all bits are shifted out. |
| `Shifts.ShrBits` | rns-crypto/src/bigint.rs:361-390 | Joining each limb with the low bits of the next divides the whole number. |
| `Division.DivideLimb` | rns-crypto/src/bigint.rs:297-308 | The two-limb dividend over a limb gives a digit that fits a word, and a remainder below the divisor. |
| `Division.DivModSingle` | rns-crypto/src/bigint.rs:297-308 | The single-limb path gives the quotient and remainder of the defining equation. |
| `Division.DividedStep` | rns-crypto/src/bigint.rs:262-295 | Bringing down a bit keeps the long-division invariant, and the quotient bit it sets was clear. |
| `Division.TrialSubtract` | rns-crypto/src/bigint.rs:262-295 | The divisor is subtracted and the quotient bit set exactly when the divisor fits. |
| `Division.DivModBits` | rns-crypto/src/bigint.rs:262-295 | The bit-by-bit path meets the same defining equation as the single-limb one. |
| `Division.DivMod` | rns-crypto/src/bigint.rs:262-295 | a = q*b + r with r below b, for every a and every non-zero b, on either path. |
| `Division.Rem` | rns-crypto/src/bigint.rs:310-315 | The integer remainder. |
| `ByteConversion.FromBytesLe` | rns-crypto/src/bigint.rs:55-68 | The little-endian value of any byte string, also when it does not fill its last limb. |
| `ByteConversion.FromBytesBe` | rns-crypto/src/bigint.rs:70-77 | The big-endian value of any byte string. |
| `ByteConversion.ToBytesLe` | rns-crypto/src/bigint.rs:79-87 | Exactly `size` bytes, whose value is the number modulo 256^size. |
| `ByteConversion.ToBytesBe` | rns-crypto/src/bigint.rs:89-93 | The same in big-endian order. |
| `ByteConversion.BytesRoundTrip` | rns-crypto/src/bigint.rs:55-93 | Reading any bytes and writing as many restores them, in both orders. |
| `ByteConversion.ValueRoundTrip` | rns-crypto/src/bigint.rs:55-93 | Writing a number to `size` bytes and reading it back keeps its residue. |
| `ModularPower.RunningStep` | rns-crypto/src/bigint.rs:443-462 | One exponent bit of square-and-multiply keeps both running powers. |
| `ModularPower.ModPow` | rns-crypto/src/bigint.rs:443-462 | base^exp mod modulus for every base, exponent and non-zero modulus, one included, in normal form. |
| `Fermat.LittleTheorem` | rns-crypto/src/bigint.rs:464-469 | a^(p-1) is 1 modulo every prime p that does not divide a. |
| `ModularPower.InverseByFermat` | rns-crypto/src/bigint.rs:464-469 | a^(p-2) is an inverse of a modulo a prime, unless p divides a. |
| `ModularPower.ModInv` | rns-crypto/src/bigint.rs:464-469 | Modulo a prime the result is an inverse exactly when the prime does not divide a. |
| `Msgpack.RoundTrip` | rns-core/src/msgpack.rs:184-595 | Every value that fits, followed by any bytes, is decoded back, non-negative integers as unsigned, using exactly its encoding. |
| `Msgpack.NoRoundTrip` | rns-core/src/msgpack.rs:184-595 | A value that does not fit never comes back from its encoding. |
| `Msgpack.ExactRoundTripIff` | rns-core/src/msgpack.rs:529-536 | `unpack_exact(pack(v))` gives v, using every byte, exactly when depth, lengths and strings of v fit. |
| `Msgpack.ExactOnly` | rns-core/src/msgpack.rs:529-536 | Whatever `unpack_exact` accepts uses all of its input; the same input with anything behind it is refused as trailing data, and any proper prefix of it as an early end. |
| `Msgpack.EncodingExactOnly` | rns-core/src/msgpack.rs:529-536 | So the encoding of a value that fits is refused as soon as a byte is added or lost. |
| `Msgpack.CutShort` | rns-core/src/msgpack.rs:332-552 | An item that loses bytes at its end, wherever the cut falls and however deep, is an early end of input. |
| `Msgpack.CountTooLarge` | rns-core/src/msgpack.rs:554-595 | A count of more items than bytes are left, or of entries than pairs of bytes, is an early end whatever the bytes are. |
| `Msgpack.NestedFitsIff` | rns-core/src/msgpack.rs:332-340 | Nested arrays fit exactly to the 32 levels the decoder enters. |
| `Msgpack.TooDeep` | rns-core/src/msgpack.rs:332-340 | Arrays nested 33 deep pack, and are refused for their depth. |
| `Msgpack.NestedRefused` | rns-core/src/msgpack.rs:332-340 | So is every deeper nesting, from any level, whatever follows. |
| `Msgpack.BadText` | rns-core/src/msgpack.rs:546-552 | A string that is not UTF-8 packs too, and is refused for that. |
| `Msgpack.EncodingsUnambiguous` | rns-core/src/msgpack.rs:184-311 | No encoding is a prefix of another value's. |
| `Msgpack.Decode` | rns-core/src/msgpack.rs:332-527 | Decoding is total and ends; a success uses at least one byte, no more than there are, and no more than 32 levels of nesting. |
| `Msgpack.DecodeItems` | rns-core/src/msgpack.rs:554-571 | n items use at least n bytes, so the up-front count check refuses nothing the loop would accept. |
| `Msgpack.DecodeEntries` | rns-core/src/msgpack.rs:573-595 | n entries use at least 2n bytes, so a map's up-front check refuses nothing either. |
| `Msgpack.SelfDelimiting` | rns-core/src/msgpack.rs:332-527 | A success depends only on the bytes it used, whatever follows them. |
| `Msgpack.SelfDelimitingItems` | rns-core/src/msgpack.rs:554-571 | The same for a run of items. |
| `Msgpack.SelfDelimitingEntries` | rns-core/src/msgpack.rs:573-595 | The same for a run of map entries. |
| `Msgpack.Shortest` | rns-core/src/msgpack.rs:209-527 | Whatever bytes a value was read from, its encoding is no longer, but for four bytes for each 32-bit float. |
| `MsgpackHeads.UIntHead` | rns-core/src/msgpack.rs:209-225 | Every u64 is read back from the width chosen for it. |
| `MsgpackHeads.IntHead` | rns-core/src/msgpack.rs:227-245 | Every i64 is read back, through two's complement, from the width chosen for it. |
| `MsgpackHeads.UIntWidths` | rns-core/src/msgpack.rs:332-527 | An unsigned integer is read from every width that holds it, also one the encoder would not choose. |
| `MsgpackHeads.IntWidths` | rns-core/src/msgpack.rs:332-527 | The same for a signed one, through two's complement. |
| `MsgpackHeads.Float32Head` | rns-core/src/msgpack.rs:332-527 | A 32-bit float is read as the platform widens its four bytes. |
| `MsgpackHeads.ByteCountWidths` | rns-core/src/msgpack.rs:332-527 | The length of bytes or of a string is read from every width that holds it. |
| `MsgpackHeads.ItemCountWidths` | rns-core/src/msgpack.rs:332-527 | The count of an array or of a map is read from both widths that hold it. |
| `MsgpackHeads.UnsupportedIff` | rns-core/src/msgpack.rs:332-527 | Exactly the nine formats without a meaning here are refused as unsupported, whatever follows. |
| `MsgpackHeads.BinHeaderHead` | rns-core/src/msgpack.rs:247-260 | A byte-string header is read back with its length modulo 2^32. |
| `MsgpackHeads.StrHeaderHead` | rns-core/src/msgpack.rs:262-278 | A string header is read back with its length modulo 2^32. |
| `MsgpackHeads.ArrayHeaderHead` | rns-core/src/msgpack.rs:280-294 | An array header is read back with its count modulo 2^32. |
| `MsgpackHeads.MapHeaderHead` | rns-core/src/msgpack.rs:296-311 | A map header is read back with its count modulo 2^32. |
| `MsgpackHeads.HeadStable` | rns-core/src/msgpack.rs:332-527 | A header's meaning depends on its own bytes only. |
| `MsgpackBuffers.Pack` | rns-core/src/msgpack.rs:184-189 | A fresh buffer holds exactly the encoding. |
| `MsgpackBuffers.PackInto` | rns-core/src/msgpack.rs:191-207 | Packing appends exactly the encoding and changes nothing before it. |
| `MsgpackBuffers.PackArray` | rns-core/src/msgpack.rs:280-294 | The element loop appends the header and the items in order. |
| `MsgpackBuffers.PackMap` | rns-core/src/msgpack.rs:296-311 | The entry loop appends the header and each key before its value. |
| `MsgpackBuffers.UnpackDepth` | rns-core/src/msgpack.rs:332-527 | The running decoder agrees with the functional one on every input and every error. |
| `MsgpackBuffers.UnpackArrayEntries` | rns-core/src/msgpack.rs:554-571 | The loop over an advancing offset reads the items the recursion does. |
| `MsgpackBuffers.UnpackMapEntries` | rns-core/src/msgpack.rs:573-595 | The same for keys and values. |
| `SentinelHistory.WithinTwice` | rns-cli/src/sentineld.rs:466-475 | Pruning at each of two increasing times is pruning at the last. |
| `SentinelHistory.WithinExactly` | rns-cli/src/sentineld.rs:466-475 | Pruning keeps a time as often as it occurs if it is no older than the window, and otherwise not at all. |
| `SentinelHistory.WithinAppend` | rns-cli/src/sentineld.rs:466-475 | A list is pruned part by part, so in order. |
| `SentinelHistory.CountedExactly` | rns-cli/src/sentineld.rs:605-698 | Which events each of the four counters counts; of disconnections, the early ones that brought no data. |
| `SentinelHistory.IngestedTimes` | rns-cli/src/sentineld.rs:605-698 | One event acts exactly when the window's count reaches an enabled threshold, and then clears every list; a list's length never reaches the cast to u32. |
| `SentinelHistory.TrackerAgrees` | rns-cli/src/sentineld.rs:605-727 | Over any interleaved history with a monotone clock, every pruned list is the peer's full history since its last penalty, cut to the window. |
| `SentinelHistory.ActsExactlyWhen` | rns-cli/src/sentineld.rs:605-698 | The tracker penalizes exactly when that plain count reaches the threshold. |
| `SentinelHistory.ActsByKind` | rns-cli/src/sentineld.rs:605-698 | The same in the terms of the configuration: each kind of event is held to its own threshold in its own window, and a zero switches off the thresholds of flaps and connects alone. |
| `SentinelHistory.Isolation` | rns-cli/src/sentineld.rs:605-698 | Taking out all other peers' events changes neither a peer's record nor any action on it. |
| `SentinelDecay.DecayLaw` | rns-cli/src/sentineld.rs:477-509 | After any checks at any times, the level is the penalty's less one for each whole interval since the ban ended. |
| `SentinelDecay.FractionLost` | rns-cli/src/sentineld.rs:477-509 | With a fraction of a second in a longer interval, looking twice at any record a penalty left at level 2 loses a level's decay. |
| `SentinelDecay.FractionGained` | rns-cli/src/sentineld.rs:477-509 | With an interval below a second, looking twice gains one. |
| `SentinelDecay.ObservationFreeIff` | rns-cli/src/sentineld.rs:477-509 | Decay does not depend on when it is looked at exactly when the interval is whole seconds, at least one. |
| `SentinelPenalties.LiveIs` | rns-cli/src/sentineld.rs:605-698 | A record's live connections are the count over the peer's whole history. |
| `SentinelPenalties.LiveIsLargest` | rns-cli/src/sentineld.rs:605-698 | That count, which never goes below nothing, is the largest excess of connects over ends in any stretch of the history up to now, for histories no longer than the counter is wide. |
| `SentinelPenalties.LiveBounded` | rns-cli/src/sentineld.rs:605-698 | It never leaves the word. |
| `SentinelPenalties.EveryRecordAnchored` | rns-cli/src/sentineld.rs:477-727 | In every run a record has a level only behind a ban whose start and end it knows, and no mark of a decay once the level is gone. |
| `SentinelPenalties.LevelAfterPenalty` | rns-cli/src/sentineld.rs:477-727 | After a penalty for any reason and any interleaved history without a further one for the peer, its level is the penalty's less the whole intervals from the end of that ban to the peer's last event that met it with no live connection. |
| `SentinelDecay.Escalation` | rns-cli/src/sentineld.rs:700-711 | Each level doubles the ban, saturating at the word, for twenty doublings, and then stays. |
| `SentinelEscalation.BanIs` | rns-cli/src/sentineld.rs:705-707 | The ban of a level is the base times two to the level less one, the exponent at most 20 and the product at most the word. |
| `SentinelEscalation.LevelCounts` | rns-cli/src/sentineld.rs:700-727 | Where penalties do not decay, a peer's level after any history is the number of times its plain count reached the threshold, at most 255. |
| `SentinelEscalation.BansEscalate` | rns-cli/src/sentineld.rs:700-727 | So is the level of every ban, and its length is that of the level. |
| `SentinelEscalation.FirstBan` | rns-cli/src/sentineld.rs:700-727 | With any decay, the first ban of a peer is of level 1 and lasts the base. |
| `SentinelEscalation.NextBan` | rns-cli/src/sentineld.rs:477-727 | With decay, from one ban to the peer's next over any interleaved history: one level above what the whole intervals since the end of the ban have left of it, at most 255. |
| `SentinelEscalation.BansItsPeer` | rns-cli/src/sentineld.rs:700-727 | In every run a ban is of the peer whose event it was, under the interface name its events last gave. |
| `SentinelEscalation.BanLasts` | rns-cli/src/sentineld.rs:700-727 | It lasts as long as its level says, from the moment it was applied. |
| `SentinelEscalation.ReasonGiven` | rns-cli/src/sentineld.rs:605-698 | The reason it gives is that of the kind of event. |
| `SentinelTracker.Retain` | rns-cli/src/sentineld.rs:466-475 | Exactly the times inside the window are kept, in order. |
| `SentinelTracker.PeerRecord.constructor` | rns-cli/src/sentineld.rs:449-464 | A new record has no events, no level and no times. |
| `SentinelTracker.PeerRecord.Prune` | rns-cli/src/sentineld.rs:466-475 | All four lists are cut to their own windows, and nothing else changes. |
| `SentinelTracker.PeerRecord.DecayPenalty` | rns-cli/src/sentineld.rs:477-509 | The level and the decay anchor change as the decay function says, and nothing else. |
| `SentinelTracker.PeerRecord.Punish` | rns-cli/src/sentineld.rs:700-727 | The penalty applied in place is the one the value model defines, with its action; what it amounts to over histories is said by `LevelCounts`, `NextBan` and `BansItsPeer`. |
| `SentinelTracker.PeerTracker.constructor` | rns-cli/src/sentineld.rs:597-603 | A tracker starts without peers. |
| `SentinelTracker.PeerTracker.RecordOf` | rns-cli/src/sentineld.rs:605-630 | A peer's record is found, or one is made, without touching any other. |
| `SentinelTracker.PeerTracker.UpdatePeer` | rns-cli/src/sentineld.rs:605-698 | Updating one shared record changes one entry of the map and no other. |
| `SentinelTracker.PeerTracker.Ingest` | rns-cli/src/sentineld.rs:605-698 | The whole map and the action are those of one step of the history model; other events change nothing. |
| `WebSocketFrames.MaskedTwice` | rns-ctl/src/ws.rs:91-97 | Masking with the same key, which `MaskedBits` says is flipping its bits, undoes itself. |
| `WebSocketFrames.MaskedBits` | rns-ctl/src/ws.rs:91-97 | Every bit of every byte of a masked payload is flipped exactly where the key, taken round and round, has that bit. |
| `WebSocketFrames.HeaderBits` | rns-ctl/src/ws.rs:58-70 | The header masks are a remainder and a comparison. |
| `WebSocketFrames.ParseStable` | rns-ctl/src/ws.rs:172-230 | A frame once parsed is parsed the same whatever arrives behind it. |
| `WebSocketFrames.ParseWire` | rns-ctl/src/ws.rs:117-230 | Every frame, masked or not, in any length form, is parsed back with exactly its bytes. |
| `WebSocketFrames.LaterBytes` | rns-ctl/src/ws.rs:251-285 | Bytes that arrive later do not disturb frames already there. |
| `WebSocketFrames.FramesOfWire` | rns-ctl/src/ws.rs:117-230 | A stream of written frames holds exactly those frames and nothing else. |
| `WebSocketReader.RunAccounts` | rns-ctl/src/ws.rs:251-285 | After any number of calls, frames delivered and buffer account for every byte received. |
| `WebSocketReader.DeliveredIsPrefix` | rns-ctl/src/ws.rs:251-285 | No run delivers a frame that is not in the stream, or out of turn. |
| `WebSocketReader.DeliversAll` | rns-ctl/src/ws.rs:251-285 | Enough calls deliver every frame, in order and once, whatever reads would block, fail or end in between. |
| `WebSocketReader.StreamRoundTrip` | rns-ctl/src/ws.rs:117-285 | Written frames cut into reads in any way come out as they went in, with nothing left over. |
| `WebSocketReader.SplittingIrrelevant` | rns-ctl/src/ws.rs:251-285 | Two ways of cutting the same bytes deliver the same frames. |
| `WebSocketReader.AnswerExactly` | rns-ctl/src/ws.rs:251-285 | What each call of every run answers: frames that have arrived whole first, without a read; then the end of the stream and an error exactly when the stream gives them, and nothing yet exactly when the read completes no frame. |
| `WebSocketStreams.Unmask` | rns-ctl/src/ws.rs:91-97 | The payload is unmasked in place, byte i with byte i modulo 4 of the key, which `MaskedBits` says bit by bit. |
| `WebSocketStreams.ParseFrameFromBuf` | rns-ctl/src/ws.rs:172-230 | The position-advancing parser is the parsing function, incomplete buffers included. |
| `WebSocketStreams.WsBuf.TryReadFrame` | rns-ctl/src/ws.rs:251-285 | One call drains a buffered frame or takes one read, exactly as the reader model steps. |
| `WebSocketStreams.ReadFrame` | rns-ctl/src/ws.rs:57-100 | The blocking reader gives the frame the buffer parser does and stops at the same byte, and fails exactly when that finds none. |
| `WebSocketStreams.Written` | rns-ctl/src/ws.rs:117-134 | What is written is a well-formed frame that stands for the opcode and the data. |
| `WebSocketStreams.WrittenBits` | rns-ctl/src/ws.rs:117-134 | The first byte has the FIN bit over the bits of the opcode. |
| `WebSocketStreams.WrittenShortest` | rns-ctl/src/ws.rs:117-134 | No frame a peer could write for the same payload is shorter. |
| `WebSocketStreams.WriteFrame` | rns-ctl/src/ws.rs:117-134 | Exactly the bytes of that frame are appended. |
| `RnshCodec.UnpackAt` | rns-cli/src/rnsh.rs:428-494 | The mutually recursive reader is total, and every success moves the position strictly forward within the input. |
| `RnshRoundTrip.IntTag` | rns-cli/src/rnsh.rs:342-362 | Every i64 is read back from the width chosen for it, at any position. |
| `RnshRoundTrip.UnsignedTag` | rns-cli/src/rnsh.rs:428-494 | The unsigned tags of one, two and four bytes, which are never packed, are read as the number in their field. |
| `RnshRoundTrip.UnsignedLongTag` | rns-cli/src/rnsh.rs:428-494 | The one of eight bytes is read as the signed number with those bytes. |
| `RnshRoundTrip.IntShortest` | rns-cli/src/rnsh.rs:342-362 | No signed form of an integer is shorter than the one packed. |
| `RnshRoundTrip.LengthShortest` | rns-cli/src/rnsh.rs:366-418 | No header of a length is shorter than the one packed for it. |
| `RnshRoundTrip.UnsupportedIff` | rns-cli/src/rnsh.rs:428-494 | Exactly the tags without a meaning here, among them the floats, are refused as unsupported. |
| `RnshRoundTrip.RoundTrip` | rns-cli/src/rnsh.rs:342-565 | A value that fits is read back wherever its packing stands in the input, and the position ends behind it. |
| `RnshRoundTrip.NoRoundTrip` | rns-cli/src/rnsh.rs:342-565 | A value that does not fit never comes back. |
| `RnshRoundTrip.RoundTripIff` | rns-cli/src/rnsh.rs:342-565 | Unpacking a packing gives the value exactly when its lengths and strings fit; a map only up to 65535 entries. |
| `RnshRoundTrip.ExactOnly` | rns-cli/src/rnsh.rs:420-426 | Whatever is unpacked is unpacked to the last byte; with anything behind it, it is refused as trailing data, and any proper prefix of it as cut short. |
| `RnshRoundTrip.CutShort` | rns-cli/src/rnsh.rs:428-565 | A value that loses bytes at its end, wherever the cut falls, is refused as cut short: for want of a tag, of a field, of a string or of bytes, by where that is. |
| `RnshRoundTrip.SameBytes` | rns-cli/src/rnsh.rs:428-565 | What is read depends only on the bytes up to its end. |
| `RnshRoundTrip.BadText` | rns-cli/src/rnsh.rs:517-524 | A string that is not UTF-8 is refused for that. |
| `RnshRoundTrip.NilMapIff` | rns-cli/src/rnsh.rs:380-391 | Even of nil, a map comes back exactly when it has fewer than 65536 pairs. |
| `RnshMessages.ValueReadBack` | rns-cli/src/rnsh.rs:605-793 | The fields of every message are read back as they were, the wrapped protocol version included. |
| `RnshMessages.MessageRoundTrip` | rns-cli/src/rnsh.rs:605-793 | Every message but stream data comes back from its packing when it fits. |
| `RnshMessages.MessageNoRoundTrip` | rns-cli/src/rnsh.rs:605-793 | A message whose strings do not fit is never read back as itself. |
| `RnshMessages.MessageRoundTripIff` | rns-cli/src/rnsh.rs:605-793 | The two together: exactly when. |
| `RnshMessages.StreamRoundTripIff` | rns-cli/src/rnsh.rs:605-728 | Stream data comes back exactly when its framing, a parameter here, gives it back. |
| `RnshMessages.AcceptedIff` | rns-cli/src/rnsh.rs:668-793 | A payload is accepted under a type exactly when it is, to the last byte, a value of that type's shape; a keepalive always; exactly the types outside the seven are unknown, and a payload that does not unpack is refused for what is wrong with it. |
| `RnshMessages.FirstFault` | rns-cli/src/rnsh.rs:668-793 | A value that is not accepted is refused for its first fault: not an array of the right length, and then the first field that cannot be read, by what it should have been. |
| `RnshMessages.ReadAsIs` | rns-cli/src/rnsh.rs:668-793 | A message read has the type it came under, and each field is the value at its place; two fields are skipped, and an exit code is cut to 32 bits. |
| `RnshBuffers.PackValue` | rns-cli/src/rnsh.rs:342-418 | Packing appends exactly the packing of the value. |
| `RnshBuffers.PackArray` | rns-cli/src/rnsh.rs:366-379 | The element loop appends the header and the items in order. |
| `RnshBuffers.PackMap` | rns-cli/src/rnsh.rs:380-391 | The entry loop appends each key before its value. |
| `RnshBuffers.UnpackArray` | rns-cli/src/rnsh.rs:496-504 | The loop over an advancing position reads the items the recursion does, and stops at the same error. |
| `RnshBuffers.UnpackMap` | rns-cli/src/rnsh.rs:506-515 | The same for pairs. |
| `RnshBuffers.UnpackValue` | rns-cli/src/rnsh.rs:428-494 | The running reader agrees with the functional one on every input and every error. |
| `RnshSession.OnlyForward` | rns-cli/src/rnsh.rs:1265-1435 | In every run the state only moves forward, and a closed session never opens again. |
| `RnshSession.AtMostOneProcess` | rns-cli/src/rnsh.rs:1265-1435 | Every run starts at most one process, and has one exactly when it started one. |
| `RnshSession.Rights` | rns-cli/src/rnsh.rs:1281-1364 | A session past its first state is authenticated and knows an identity it admits; one past the second has negotiated. |
| `RnshSession.SpawnIsAuthorized` | rns-cli/src/rnsh.rs:1301-1418 | A process is started only for a command after a matching version after an accepted identity (unless all are allowed), with the command line the configuration permits; always the default one when remote commands are off. |
| `RnshSession.HandshakeStarts` | rns-cli/src/rnsh.rs:1281-1418 | Conversely, that sequence, packed as a client packs it, starts exactly that process. |
| `RnshSession.HandshakeUnidentified` | rns-cli/src/rnsh.rs:1265-1418 | Where all are allowed, version and command alone are answered with the version and start the process, with no identity. |
| `RnshAnswers.StateIs` | rns-cli/src/rnsh.rs:1265-1435 | The state after every run, from its inputs alone: waiting for an identity, a version, a command, running or removed exactly when the inputs are a word of that state's language. |
| `RnshAnswers.IdentityIs` | rns-cli/src/rnsh.rs:1281-1299 | In every run the identity known is the one last admitted. |
| `RnshAnswers.Answers` | rns-cli/src/rnsh.rs:1301-1364 | In every run the version is sent exactly when a matching one comes after an introduction, a keepalive exactly while the process runs, and the end of the stream and the exit code, in that order, exactly when the process ends. |
| `RnshAnswers.VersionOnce` | rns-cli/src/rnsh.rs:1308-1326 | A run that ever gets to wait for a command has been sent the version once, and no other run has been. |
| `RnshAnswers.Starts` | rns-cli/src/rnsh.rs:1327-1418 | In every run a process is started exactly by a permitted command after the greeting, with the identity last admitted, and its window is set then and at every resize, to the size asked for. |
| `RnshAnswers.LetIn` | rns-cli/src/rnsh.rs:1281-1299 | Where not all are allowed, the first identity lets a session on exactly when it is on the list, and otherwise closes it. |
| `RnshAnswers.AllLetIn` | rns-cli/src/rnsh.rs:1281-1299 | Where all are allowed, no identity is refused. |
| `RnshAnswers.Refusals` | rns-cli/src/rnsh.rs:1281-1434 | In every run each of the eight reasons is given exactly in the situation it names. |
| `RnshAnswers.ClosedExactly` | rns-cli/src/rnsh.rs:1420-1434 | In every run the link is torn down exactly when the peer is given a reason, after the reasons and before the word to the process; that closes the session, and nothing else does. |
| `RnshSession.TerminatedIff` | rns-cli/src/rnsh.rs:1281-1545 | Over every run from a running session, the process has been told to terminate exactly when the inputs doom it: the link closed, a malformed message, or an unexpected one before any refused identity, unless the process ended first. |
| `RnshSession.TerminatedExactly` | rns-cli/src/rnsh.rs:1281-1545 | The same for every run from the start, for the inputs since the process was started. |
| `RnshSession.NoneLeftBehind` | rns-cli/src/rnsh.rs:1534-1545 | Of one session, while the listener passes its inputs on: every run that started a process and ends with its link closing has terminated it, unless it ended by itself. |
| `RnshSession.RefusalLeavesProcess` | rns-cli/src/rnsh.rs:1281-1299 | A run from the start in which a refused identity closes the session and its process has not been told to terminate. |
| `RnshListener.ListenerSession.constructor` | rns-cli/src/rnsh.rs:1265-1279 | A session starts waiting for an identity, or for a version when all are allowed, which `RnshAnswers.StateIs` and `RnshSession.HandshakeUnidentified` hold it to. |
| `RnshListener.ListenerSession.RemoteIdentified` | rns-cli/src/rnsh.rs:1281-1299 | The fields and effects are those of the state machine's step. |
| `RnshListener.ListenerSession.HandleMessage` | rns-cli/src/rnsh.rs:1301-1364 | The same for a message, malformed ones included; what is answered when is said of every run by `RnshAnswers.Answers`, `Starts` and `Refusals`. |
| `RnshListener.ListenerSession.Start` | rns-cli/src/rnsh.rs:1366-1418 | Succeeds exactly when the command is permitted, not empty and the system can start it, and changes only the process. |
| `RnshListener.ListenerSession.Fail` | rns-cli/src/rnsh.rs:1420-1434 | Refuses, tears down, terminates a process if there is one, and closes. |
| `RnshStreams.SendStreamChunks` | rns-cli/src/rnsh.rs:1665-1687 | The chunk loop sends the stream's messages in order, and a prefix of them when the link fails. |
| `RnshStreams.StdinArrives` | rns-cli/src/rnsh.rs:1342-1356 | However standard input is cut into messages, the process is fed exactly their bytes in order, its input is closed exactly when one ends the stream, and the session is unchanged. |
| `RnshStreams.ChunksJoin` | rns-cli/src/rnsh.rs:1665-1687 | The messages a stretch is sent as are one such cut: they join to its bytes, and one ends the stream exactly when asked. |
| `RnshStreams.StretchArrives` | rns-cli/src/rnsh.rs:1342-1687 | So what is sent is what the process is fed. |
| `RnshListener.Listener.LinkEstablished` | rns-cli/src/rnsh.rs:1501-1509 | A link without a session gets a new one, and no other changes. |
| `RnshListener.Listener.Handle` | rns-cli/src/rnsh.rs:1510-1545 | One input changes the session of its link as the state machine steps, drops it when that ends it, and changes no other link's. |
| `RnshListener.Listener.ForwardOutput` | rns-cli/src/rnsh.rs:1527-1533 | The output of a process is sent in chunks; the first that is not taken drops every session and ends the loop. |
| `RnshListener.Listener.AnnounceExit` | rns-cli/src/rnsh.rs:1534-1538 | The end of a process drops its session when the end of its stream is taken, and otherwise drops every session and ends the loop. |
| `RnshListener.Listener.Take` | rns-cli/src/rnsh.rs:1500-1548 | One pass of the loop is one step of the serving model. |
| `RnshListener.Listener.Listen` | rns-cli/src/rnsh.rs:1489-1549 | The loop takes events until one makes it return, and leaves the table of the run so far. |
| `RnshServing.ServingIff` | rns-cli/src/rnsh.rs:1489-1549 | In every run the loop still serves exactly when every message of every output and process end was taken, and every announcement made. |
| `RnshServing.KeepsServing` | rns-cli/src/rnsh.rs:1489-1549 | What that means event by event: output of at most 423 bytes for each message taken, a process end of which a message is taken, an announcement that is made. |
| `RnshServing.OutputCarried` | rns-cli/src/rnsh.rs:1527-1533 | While it serves, output goes out on its own stream, in order, with nothing lost or added, as far as the link takes messages of 423 bytes. |
| `RnshServing.ExitAnnounced` | rns-cli/src/rnsh.rs:1534-1538 | While it serves, the end of a process is announced, stream end first, whether or not its session is still there, exactly when the link takes it. |
| `RnshServing.LinksApart` | rns-cli/src/rnsh.rs:1489-1549 | While it serves, taking out all other links' events changes neither a link's session nor what is done for it. |
| `RnshServing.SessionsLive` | rns-cli/src/rnsh.rs:1489-1549 | While it serves, every session in the table is the one the inputs of its link since it was established make. |
| `RnshServing.ToldExactly` | rns-cli/src/rnsh.rs:1489-1549 | While it serves, a process has been told to terminate exactly when the inputs of its session since it was started doom it. |
| `RnshServing.NoneLeftBehindServing` | rns-cli/src/rnsh.rs:1489-1549 | In every run of the whole table that still serves, a process whose link closed before it ended by itself was told to terminate in between. |
| `RnshServing.RefusalStrands` | rns-cli/src/rnsh.rs:1527-1538 | In every run, one message not taken on any link ends the loop, and a process not told to terminate by then never is, whatever comes after. |
| `RnshServing.OneLinkStrandsAnother` | rns-cli/src/rnsh.rs:1527-1545 | A run of two links from the start in which the end of one's process is not taken, and the other's process keeps running and is never told. |
| `Channels.EnvelopeRoundTrip` | rns-core/src/channel/envelope.rs:7-34 | An envelope is read back as packed exactly when its payload is shorter than 65536 bytes. |
| `Channels.BehindIff` | rns-core/src/channel/mod.rs:283-298 | The window test depends on the modular distance alone, and this is which distances it lets in. |
| `Channels.WindowLetIn` | rns-core/src/channel/mod.rs:283-298 | Whatever is at most 48 ahead is let in, across the wrap too. |
| `Channels.EmplacedHolds` | rns-core/src/channel/mod.rs:300-315 | The ring stays in the order of the places messages are held for, also across the wrap. |
| `Channels.CollectedHands` | rns-core/src/channel/mod.rs:317-352 | The contiguous messages at the front are handed on in their places, up to the first gap. |
| `Channels.ArrivalStep` | rns-core/src/channel/mod.rs:131-159 | Any arrival at all does to the receiver what it does to one whose numbers do not wrap. |
| `Channels.RunIsIdeal` | rns-core/src/channel/mod.rs:131-159 | So does every run, from any state: the same messages are handed on in the same places. |
| `Channels.EveryRun` | rns-core/src/channel/mod.rs:131-159 | In every run what is handed on in place k arrived and has the number of message k. |
| `Channels.ArrivalIgnoredIff` | rns-core/src/channel/mod.rs:131-159 | Exactly which arrivals leave the receiver as it was. |
| `Channels.StaleHarmlessIff` | rns-core/src/channel/mod.rs:131-159 | Exactly which copies of messages handed on, however late, leave the receiver as it was. |
| `Channels.ExpectedNumberHandedOn` | rns-core/src/channel/mod.rs:131-159 | A copy with the number expected is handed on at once, whatever message it is of. |
| `Channels.FaithfulIff` | rns-core/src/channel/mod.rs:131-159 | In every run, everything handed on or held is in its own place exactly when no arrival was mistaken. |
| `Channels.InOrderOnce` | rns-core/src/channel/mod.rs:131-159 | Then what was handed on is the messages sent, from the first, in order, each once. |
| `Channels.HeldUntilHandedOn` | rns-core/src/channel/mod.rs:131-159 | What is held waits until its place comes up and is handed on in it, whatever else arrives. |
| `Channels.GoesInIsHandedOn` | rns-core/src/channel/mod.rs:131-159 | In every state, an arrival that goes in at place j is handed on in place of message j once those before j arrive. |
| `Channels.NotOnceAtTheWrap` | rns-core/src/channel/mod.rs:131-159 | After a faultless run to the wrap, a late copy of message 1 is handed on again in place of message 65537. |
| `Channels.NothingForgotten` | rns-core/src/channel/mod.rs:131-159 | In a run within the window every message that arrived was handed on or has its place taken. |
| `Channels.ReliableDelivery` | rns-core/src/channel/mod.rs:131-159 | In such a run without mistakes, the messages handed on are those up to the first that did not arrive. |
| `Channels.ChannelReceiver.Receive` | rns-core/src/channel/mod.rs:131-159 | Ring, next number and messages are those of the model's step, malformed envelopes included. |
| `Channels.ChannelReceiver.IsBehindRxWindow` | rns-core/src/channel/mod.rs:283-298 | The nested tests decide the window predicate. |
| `Channels.ChannelReceiver.EmplaceRx` | rns-core/src/channel/mod.rs:300-315 | The insertion loop puts the envelope where the recursion does, and drops a duplicate. |
| `Channels.ChannelReceiver.CollectContiguous` | rns-core/src/channel/mod.rs:317-352 | The loop takes off and hands on what the recursion does. |
| `ChannelSenders.EveryRunConsistent` | rns-core/src/channel/mod.rs:49-258 | In every run of both ends the window is between 1 and 48, at most 48 messages are outstanding, none was sent more than five times, and they are numbered in the order sent. |
| `ChannelSenders.NotBehind` | rns-core/src/channel/mod.rs:181-193 | While the sender is careful, the receiver is not behind the oldest message outstanding. |
| `ChannelSenders.EveryRunTracks` | rns-core/src/channel/mod.rs:98-258 | In every run the ring holds the envelopes of the messages outstanding, in the order sent: the number and the bytes of each are those of its message. |
| `ChannelSenders.SentIsWire` | rns-core/src/channel/mod.rs:98-125 | What a send puts on the link is the envelope of that message under the number of messages sent before it, modulo 65536. |
| `ChannelSenders.AgainIsWire` | rns-core/src/channel/mod.rs:196-224 | What a timeout puts on the link is the envelope of the message that is outstanding under that number. |
| `ChannelSenders.LinkCarries` | rns-core/src/channel/mod.rs:98-224 | In every run the bytes put on the link, first or again, are exactly the envelopes of the messages sent, each under its own number. |
| `ChannelSenders.WireReadsBack` | rns-core/src/channel/mod.rs:109-110 | And a receiver reads each of them as the message it is of. |
| `ChannelSenders.SpanRead` | rns-core/src/channel/mod.rs:98-125 | How far the next message is from the oldest outstanding is the distance of the next number from that of the first envelope in the ring. |
| `ChannelSenders.CarefulSender` | rns-core/src/channel/mod.rs:98-258 | In every run in which no message is sent more than 48 after the oldest outstanding and no acknowledgement is taken for another's, every arrival is within 48 of the first message missing, and without mistakes delivery is reliable end to end. |
| `ChannelSenders.CarefulIff` | rns-core/src/channel/mod.rs:98-258 | While the oldest message outstanding has not arrived and nothing was mistaken, every message sent can arrive within the window exactly when the last was sent at most 48 after the oldest. |
| `ChannelSenders.NextSendIff` | rns-core/src/channel/mod.rs:98-125 | Over runs: the message sent next, arriving, is within the window exactly when sending it kept to that distance. |
| `ChannelSenders.AcknowledgedInOrder` | rns-core/src/channel/mod.rs:98-258 | A sender whose acknowledgements come in order keeps to that distance in every run, so the same holds of it. |
| `ChannelSenders.ArrivesAhead` | rns-net/src/common/link_manager.rs:1223-1253 | Out of order, for any k below 65536 there is a run in which a message arrives k places ahead of the first one missing. |
| `ChannelSenders.AcknowledgedNeverHandedOn` | rns-net/src/common/link_manager.rs:1223-1253 | Near the wrap there is a run in which every message arrived and was acknowledged, nothing is outstanding or held, and the last is never handed on. |
| `ChannelSenders.ChannelSender.constructor` | rns-core/src/channel/mod.rs:51-78 | The window starts by the round-trip time. |
| `ChannelSenders.ChannelSender.Send` | rns-core/src/channel/mod.rs:98-125 | A message is numbered, kept and its envelope returned, or refused with nothing changed; `SentIsWire` says which bytes those are. |
| `ChannelSenders.ChannelSender.PacketDelivered` | rns-core/src/channel/mod.rs:181-193 | The first envelope with the number is forgotten and the window adapted. |
| `ChannelSenders.ChannelSender.AdaptWindowOnDelivery` | rns-core/src/channel/mod.rs:354-384 | The window limits rise after enough rounds at a rate. |
| `ChannelSenders.ChannelSender.PacketTimeout` | rns-core/src/channel/mod.rs:196-224 | The envelope is sent again with a smaller window, or the link is given up after five tries. |
| `ChannelWindows.EveryRunPaced` | rns-core/src/channel/mod.rs:49-384 | In every run the limits of the window are those of the round-trip time and of how many messages were acknowledged: 1 on a stalled link, 2 to 5 on a slow one, and after ten acknowledgements 5 to 12 or 16 to 48, less what timeouts took off the upper one. |
| `ChannelWindows.WindowGrows` | rns-core/src/channel/mod.rs:181-384 | In every run without timeouts the window is a given function of the round-trip time and of how many messages were acknowledged. |
| `ChannelWindows.WindowShrinks` | rns-core/src/channel/mod.rs:196-224 | A run of timeouts takes one off the window for each, down to the lower limit, and as much off the upper limit, down to what the flexibility leaves. |
| `ChannelWindows.SlowerResets` | rns-core/src/channel/mod.rs:354-384 | An acknowledgement slower than a class starts the count of its rounds again. |
| `ChannelWindows.TriesAreTimes` | rns-core/src/channel/mod.rs:98-224 | In every run the tries of an envelope are the times its message was put on the link. |
| `ChannelWindows.TornDownExactly` | rns-core/src/channel/mod.rs:196-224 | In every run the link is torn down exactly by a timeout of a message that was put on it five times; one put on it fewer times is sent again. |
| `ChannelWindows.SendAnswered` | rns-core/src/channel/mod.rs:92-125 | In every run a send is not ready exactly when the window is full, and too big exactly when the payload and six bytes exceed what the link takes. |
| `Packets.FlagsRoundTripIff` | rns-core/src/packet.rs:50-67 | Flags are read back exactly when each field fits its bits. |
| `Packets.ByteReadBack` | rns-core/src/packet.rs:50-67 | A flags byte is packed back but for its unused top bit. |
| `Packets.RefusedIff` | rns-core/src/packet.rs:200-270 | Exactly the too-short byte strings are refused; the header type is never found invalid. |
| `Packets.PackRefusedIff` | rns-core/src/packet.rs:164-197 | Packing refuses exactly a second header without a transport id, and otherwise exactly the packets of more than the link takes, at 19 bytes of header, 16 more with a transport, and the data. |
| `Packets.RoundTripIff` | rns-core/src/packet.rs:164-270 | A packed packet is read back whole, hash included, exactly when its flags fit and it has a transport id just when its header carries one. |
| `Packets.Repacked` | rns-core/src/packet.rs:164-270 | Packing what was read gives the same bytes but for one unused bit. |
| `Packets.HashableIff` | rns-core/src/packet.rs:282-292 | Two packets have the same hashable part exactly when they agree on destination type, packet type, destination, context and data. |
| `Packets.HashSurvivesTransport` | rns-core/src/packet.rs:164-292 | A relay that changes hops, header or transport id leaves the hash the receiver computes. |
| `Packets.PackRawWithHash` | rns-core/src/packet.rs:164-197 | The bytes built push by push, the hash and both errors are those of the model. |
| `Packets.ComputeHashablePart` | rns-core/src/packet.rs:282-292 | The bytes built push by push are the hashable part. |
| `Stamps.LeadingZeros` | rns-core/src/stamp.rs:38-50 | For a hash of any length, the count is at least c exactly when the hash, read big-endian, is below 2^(bits - c). |
| `Stamps.StampValue` | rns-core/src/stamp.rs:52-59 | The worth of a stamp is the bits its hash has to spare. |
| `Stamps.StampValid` | rns-core/src/stamp.rs:61-78 | Valid exactly when worth the cost, which is when the hash is below 2^(256 - cost). |
| `Stamps.NonStrictBound` | rns-core/src/stamp.rs:61-78 | The comment's non-strict bound differs from the code on exactly one hash for each cost but zero. |
| `Stamps.Workblock` | rns-core/src/stamp.rs:19-36 | The loop appends one expansion for each round, in order, up to the first that fails. |
| `Stamps.WorkblockSize` | rns-core/src/stamp.rs:15-36 | Where expansion does not fail, a workblock has 256 bytes a round. |
| `Stamps.SaltsDiffer` | rns-core/src/stamp.rs:19-36 | No two rounds are salted alike, whatever the material. |
| `Stamps.MaterialsDiffer` | rns-core/src/stamp.rs:19-36 | Nor is the same round for two materials. |
| `RadixText.RoundTrip` | rns-cli/src/format.rs:102-149 | Bytes regrouped into digits of any width from one to eight bits and back are the same bytes. |
| `RadixText.CanonicalIff` | rns-cli/src/format.rs:127-149 | Digits are those of their own bytes exactly when no whole digit is left over and the bits left over are zero. |
| `RadixText.HeldIn` | rns-cli/src/format.rs:102-149 | Shifting into the 32-bit accumulator loses no bit that is still held. |
| `RadixText.HeldOut` | rns-cli/src/format.rs:102-149 | What is shifted out earlier never affects a digit or byte put out. |
| `Base32.DecodeEncode` | rns-cli/src/format.rs:102-149 | Decoding undoes encoding for every byte string of every length. |
| `Base32.EncodeDecodeIff` | rns-cli/src/format.rs:102-149 | A text that decodes is the encoding of its bytes exactly when it is upper case, padded as the encoder pads, and canonical. |
| `Base32.DecodesIff` | rns-cli/src/format.rs:127-149 | Exactly the texts of letters of either case and the digits from 2 to 7, up to the padding, decode. |
| `Base32.EitherCase` | rns-cli/src/format.rs:127-149 | Texts that differ in case alone decode alike. |
| `Base32.Encode` | rns-cli/src/format.rs:102-125 | The accumulator loops write the digits of the data as one long number, zero bits at the end, and `=` to a multiple of eight. |
| `Base32.Decode` | rns-cli/src/format.rs:127-149 | The loop reads the whole bytes of the digits, in either case, and refuses exactly the texts with another symbol. |
| `Encodings.Base64RoundTrip` | rns-ctl/src/encode.rs:54-114 | Decoding undoes encoding for every byte string of every length. |
| `Encodings.Base64EncodeDecodeIff` | rns-ctl/src/encode.rs:54-114 | A text that decodes is the encoding of its bytes exactly when it is padded as the encoder pads, and canonical. |
| `Encodings.ToBase64` | rns-ctl/src/encode.rs:54-78 | Blocks of three bytes write the digits of the data as one long number, the last block padded. |
| `Encodings.FromBase64` | rns-ctl/src/encode.rs:80-103 | Blocks of four symbols read the whole bytes of the digits, and exactly the texts with another symbol are refused. |
| `Encodings.HexRoundTrip` | rns-ctl/src/encode.rs:1-39 | Decoding undoes encoding for every byte string. |
| `Encodings.HexDecodesIff` | rns-ctl/src/encode.rs:15-39 | Exactly the texts of an even number of digits, of either case, decode. |
| `Encodings.HexEitherCase` | rns-ctl/src/encode.rs:15-39 | Texts that differ in case alone decode alike. |
| `Encodings.HexEncodeDecodeIff` | rns-ctl/src/encode.rs:1-39 | A text that decodes is the encoding of its bytes exactly when it has no capital. |
| `Encodings.ToHex` | rns-ctl/src/encode.rs:1-9 | Two digits for each byte, high half first. |
| `Encodings.FromHex` | rns-ctl/src/encode.rs:15-30 | Refuses exactly odd lengths and other symbols, and otherwise reads the bytes, in either case. |

## Left out

- Transport engine, links, resources, buffers, holepunching, interfaces and the drivers around them.
- The clock of the channel: timeouts may come at any time, and the `delivered` flag, which the code never sets, is left out. Cancelled and flushed sends and later changes of the round-trip time are not modelled, and the counters of rounds wrap as in a release build.
- `BigUint` bitwise and and or, and the by-value operator forms, which only forward to those modelled.
- Panics: operations the code refuses by panicking (subtraction below zero, division by zero, `mod_inv` for a modulus below two) have a precondition instead.
- The `as_*` accessors, `map_get`, `pack_str_map` and `fmt` of the MessagePack module: one-line matches.
- Machine limits on memory and recursion, and `usize` overflow for WebSocket lengths near 2^64.
- WebSocket handshake, opcodes' handling in the server loop, and write errors.
- Decoding of hook event payloads in the sentinel: `ingest` is given the event or none. `Instant` overflow for very long bans is not modelled.
- The framing of rnsh stream data, which belongs to another module: it is a parameter, and messages that carry it are left out of the round trip.
- Child processes beyond whether one could be started, what they put out and that they end: terminal and environment. Sends whose failure the code ignores are taken to be made. Texts of error messages are reduced to their reasons. That the link layer reports a torn down link as closed is not part of this model.
- SHA-256, HKDF, AES, X25519 and Ed25519: functions of their inputs where they appear.
- `hex_to_array`, and the copy of base 32 in `rns-ctl/src/format.rs`.
- The ESP32 code, HTTP interface, statistics, configuration, command-line parsing and hook runtime.
