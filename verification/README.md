# A Dafny model of the hard core of tquic

tquic is a QUIC transport (RFC 9000, 9001, 9002, 9221). This project models, in Dafny, the parts of it
whose correctness is not visible from any one function: the wire formats, the bookkeeping of ranges,
packet numbers and connection ids, path MTU discovery, pacing, and the round counting of BBR. Each part
is proved against an independent description of what it is for.

Where the source computes, the model is functions and lemmas. Where the source updates objects and
buffers, the model has two layers: a value-level step function whose whole runs are studied by lemmas,
and a class or an in-place method that is proved equal to that step function.

| files | source | subject |
|---|---|---|
| `Arithmetic.dfy`, `Options.dfy` | | saturation and 64-bit ranges; optional values |
| `Codec.dfy` | `src/codec.rs` | big-endian and variable-length integers, length-prefixed strings |
| `AckFrame.dfy`, `Frame.dfy`, `FrameLayout.dfy`, `FrameCodec.dfy` | `src/frame.rs` | frames: encoder, decoder, lengths, ACK ranges |
| `TransportParams.dfy`, `ParamsEncoding.dfy`, `ParamsCodec.dfy` | `src/trans_param.rs` | transport parameters |
| `RangeSet.dfy` | `src/ranges.rs` | sets of numbers as ordered disjoint ranges |
| `PacketNumber.dfy`, `HeaderProtection.dfy`, `PacketHeader.dfy` | `src/packet.rs` | packet number truncation, header protection, headers |
| `SeqNumWindow.dfy` | `src/window.rs` | duplicate detection |
| `CidDeque.dfy`, `SourceIds.dfy`, `DestinationIds.dfy`, `ConnectionIdMgr.dfy` | `src/connection/cid.rs` | connection ids |
| `Pmtu.dfy` | `src/connection/pmtu.rs` | datagram path MTU discovery |
| `MinMax.dfy` | `src/congestion_control/minmax.rs` | windowed maximum and minimum |
| `Pacer.dfy` | `src/congestion_control/pacing.rs` | token bucket |
| `DeliveryRate.dfy`, `Bbr.dfy`, `BbrRuns.dfy`, `BbrEstimates.dfy`, `BbrController.dfy` | `src/congestion_control/delivery_rate.rs`, `src/congestion_control/bbr.rs` | delivery accounting, rounds, state machine |

## How to read it

Integers are unbounded; 64-bit saturation, wrap-around and truncation are written out where the source
relies on them or can meet them: the pacer's products, the shift count of the duplicate window, the
short length field of frames, `delivered`. Times are nanoseconds since some start. The cipher that
yields header-protection masks is an arbitrary function. Error values are kept; the state a failed call
leaves behind is part of the model.

Where the code and its comments differ, the model follows the code. Some properties one would expect
turn out not to hold of the code on every input; the members named here give a concrete input, the exact
condition under which the property does hold, or both:

- The windowed extremum can be missed (`RecentMaximumMissed`); `WindowExactIff` and `FallbackIff` say when
  it is not. A zero sample resets the minimum (`MinOfAllIff`). After a rotation the second sample need not
  stand for the entries it is meant to stand for (`RotationSkips`, `StayCoversIff`).
- CRYPTO and STREAM data of more than 16383 bytes is sent with a corrupted length
  (`CryptoRoundTripIff`, `StreamRoundTripIff`).
- A jump of 2^32 or more can mark numbers never seen as duplicates (`LongJumpForges`, `RunExactIff`).
- Renewals that fail still withdraw connection ids, up to the last (`FullQueueRenewals`,
  `FullQueueReached`, `RunActiveIff`).
- A retired connection id can come back into use while its retirement is pending
  (`RetiredNumberComesBack`, `RunAboveIff`). The comment in the source asks for it to be retired again
  unless that was done before; the guard lets it through to the insertion instead.
- Transport parameters whose zero is omitted although the default is not zero, and a preferred address
  set by a client, do not survive the round trip (`ParamsRoundTripIff`).
- A NEW_CONNECTION_ID frame whose Retire Prior To exceeds its sequence number is not always refused: an
  exact repeat of an id in use is accepted (`RepeatIsAccepted`, `RetirePriorToTooLarge`). Otherwise it is
  answered with a protocol violation, although the comment and section 19.15 of RFC 9000 name a frame
  encoding error.
- BBR rounds can overlap when an acknowledgement of packets not in flight delivers no data
  (`QuietAckOverlaps`, `OverlapIff`, `EarlyExitIff`).
- BBR's own count of the bytes in flight loses the bytes of packets that never counted when they are
  acknowledged (`BalancedIff`).

## Model

| member | source | states |
|---|---|---|
| `WindowedMinMax.RunTracks` | src/congestion_control/minmax.rs:111-193 | for every run with nondecreasing times, the three samples are history entries in order, each unbeaten from its own position on, and the first is inside the window |
| `WindowedMinMax.EstimateIsSound` | src/congestion_control/minmax.rs:140-199 | the estimate is the exact extremum of an in-window suffix: never beyond the true windowed extremum, never worse than the latest sample |
| `WindowedMinMax.RecentMaximumMissed` | src/congestion_control/minmax.rs:111-164 | a history whose true windowed maximum, seen three time units ago, is missing from the estimate |
| `WindowedMinMax.FirstIsBest` | src/congestion_control/minmax.rs:111-193 | the sample an update puts first is the new one or one of the three kept, and at least as good as each of them that is inside the window |
| `WindowedMinMax.OthersAreLater` | src/congestion_control/minmax.rs:111-137 | under a first sample that stays, the second is later than it after a quarter of the window, and after half of it the third is later than the second or both are as late as the newest |
| `WindowedMinMax.StaySecond` | src/congestion_control/minmax.rs:111-193 | while a first sample stays, from the restart that made it first: the second is the latest entry holding the extremum of all entries from the first one on that comes more than a quarter of the window later, and the first sample itself until then |
| `WindowedMinMax.StayThird` | src/congestion_control/minmax.rs:111-193 | with one window also: the third is the latest entry holding the extremum from the first entry on that is later than the second sample and more than half of the window later than the first |
| `WindowedMinMax.StayCoversIff` | src/congestion_control/minmax.rs:111-193 | whichever way a sample came first, while it stays the second stands for all entries more than a quarter of the window later if and only if it did before the update or the new sample ties or beats them all |
| `WindowedMinMax.RotationSkips` | src/congestion_control/minmax.rs:111-137 | a history in which a rotation leaves a second sample that passes over such an entry |
| `WindowedMinMax.NothingLost` | src/congestion_control/minmax.rs:111-193 | an update loses no sample in the window that the new one does not tie or beat, unless another as good has its time |
| `WindowedMinMax.NewestTaken` | src/congestion_control/minmax.rs:111-193 | the newest sample becomes the third one, or nothing changes because it is worse and the first is in the window |
| `WindowedMinMax.WindowExactIff` | src/congestion_control/minmax.rs:111-193 | at any moment of any run with nondecreasing times: the estimate is the windowed extremum if and only if the new sample or one of the samples kept before it is inside the window and holds it |
| `WindowedMinMax.FallbackIff` | src/congestion_control/minmax.rs:111-193 | for every run with nondecreasing times whose left window edge never moves back: the estimate is the windowed extremum after every update if and only if before every update the new sample ties or beats the first, the first stays in the window, or a sample at hand holds the windowed extremum |
| `WindowedMinMax.FixedWindowEdge` | src/congestion_control/minmax.rs:93-103 | with one window for the whole run the left edge of the window never moves back |
| `WindowedMinMax.ExactIff` | src/congestion_control/minmax.rs:111-193 | for every run with nondecreasing times and of any length: the estimate is the extremum of all samples ever taken, for the minimum of those since the last zero, after every update if and only if after every update some entry that holds this extremum is inside the window |
| `WindowedMinMax.MinOfAllIff` | src/congestion_control/minmax.rs:168-193 | for every such run: the estimate is the minimum of all samples after every update if and only if the minimum always stays inside the window and no zero is followed by a positive sample |
| `WindowedMinMax.LatestNext` | src/congestion_control/minmax.rs:111-164 | the first sample is the latest entry that holds the extremum, because ties restart the filter; one more sample keeps this as long as the extremum is in the window |
| `WindowedMinMax.OneWindowAtHand` | src/congestion_control/minmax.rs:111-137 | in a history that fits one window the extremum is always at hand |
| `WindowedMinMax.MaxExactInOneWindow` | src/congestion_control/minmax.rs:140-164 | the case of one window: the maximum filter is exact |
| `WindowedMinMax.MinSinceLastZero` | src/congestion_control/minmax.rs:168-193 | as long as the minimum stayed inside the window, the estimate is the minimum from the entry after the last zero on |
| `WindowedMinMax.MinExactIff` | src/congestion_control/minmax.rs:168-193 | as long as the minimum stayed inside the window, the estimate is the minimum of all samples at this moment if and only if the latest sample is zero or none is |
| `WindowedMinMax.MinMax.constructor` | src/congestion_control/minmax.rs:93-98 | three unset samples |
| `WindowedMinMax.MinMax.SetWindow` | src/congestion_control/minmax.rs:101-103 | changes the window alone |
| `WindowedMinMax.MinMax.Reset` | src/congestion_control/minmax.rs:106-108 | all three samples become the given one |
| `WindowedMinMax.MinMax.SubwinUpdate` | src/congestion_control/minmax.rs:111-137 | the in-place rotation equals the rotation of the value-level filter |
| `WindowedMinMax.MinMax.UpdateMax` | src/congestion_control/minmax.rs:140-164 | the in-place update equals the step that the run theorems speak of |
| `WindowedMinMax.MinMax.UpdateMin` | src/congestion_control/minmax.rs:168-193 | the same for the minimum |
| `WindowedMinMax.MinMax.Get` | src/congestion_control/minmax.rs:196-198 | the first sample's value |
| `PathMtu.ProbeWithinLimit` | src/connection/pmtu.rs:83-91 | no probe exceeds the configured maximum or the peer's limit |
| `PathMtu.ProbeKeeps` | src/connection/pmtu.rs:99-160 | acknowledged or lost, a probe keeps the search invariant; the size grows only to what was delivered and fails only at what was lost |
| `PathMtu.GapHalves` | src/connection/pmtu.rs:104-160 | a settled size halves the distance between validated size and ceiling |
| `PathMtu.ProbeProgress` | src/connection/pmtu.rs:104-160 | every probe uses up one of a bounded number of probes |
| `PathMtu.ExploreStops` | src/connection/pmtu.rs:58-160 | for every sequence of answers, discovery stops within the bound and stays within the limits |
| `PathMtu.ExploreIsBacked` | src/connection/pmtu.rs:104-127 | the validated size never shrinks and is backed by a delivered probe of that size |
| `PathMtu.DiscoveryProbeBound` | src/connection/pmtu.rs:58-160 | at most 54 probes for any maximum up to 65536, whatever the answers |
| `PathMtu.SearchFinds` | src/connection/pmtu.rs:83-160 | against a path of fixed MTU the search ends with the validated size not above it and every failed size above it |
| `PathMtu.DiscoveryConverges` | src/connection/pmtu.rs:58-160 | the final size is deliverable and within one percent of the best deliverable size |
| `PathMtu.InitLimits` | src/connection/pmtu.rs:58-75 | an unset maximum is 1500 bytes less the headers of the address family and UDP; probing starts if enabled |
| `PathMtu.OneProbeSuffices` | src/connection/pmtu.rs:58-160 | on a path that carries 1500-byte packets one delivered probe of 1472 or 1452 bytes ends discovery |
| `PathMtu.NextProbeIs` | src/connection/pmtu.rs:130-153 | the first probe is the ceiling itself if that is below 1500, every other the midpoint |
| `PathMtu.OneUnderWay` | src/connection/pmtu.rs:83-101 | while a probe is under way its size is fixed and no other is due |
| `PathMtu.ThirdLossFails` | src/connection/pmtu.rs:112-127 | a size fails at its third loss, losses of other sizes in between not counting |
| `PathMtu.AckedKeeps` | src/connection/pmtu.rs:104-160 | an acknowledgement of any size, late ones included, keeps the larger size and the invariant; probing goes on if and only if the size is below 99 percent of the ceiling |
| `PathMtu.LostKeeps` | src/connection/pmtu.rs:112-160 | a loss keeps the invariant and the validated size |
| `PathMtu.Dplpmtud.constructor` | src/connection/pmtu.rs:58-75 | the initial state, with the family-dependent maximum |
| `PathMtu.Dplpmtud.GetProbeSize` | src/connection/pmtu.rs:83-91 | returns the pending probe size, choosing it on first use |
| `PathMtu.Dplpmtud.OnProbeSent` | src/connection/pmtu.rs:99-101 | no further probe until this one is settled |
| `PathMtu.Dplpmtud.OnProbeAcked` | src/connection/pmtu.rs:104-109 | equals the acknowledgement step of the run theorems |
| `PathMtu.Dplpmtud.OnProbeLost` | src/connection/pmtu.rs:112-127 | equals the loss step: stale sizes ignored, three losses make a failure |
| `PathMtu.Dplpmtud.CalMtuCeiling` | src/connection/pmtu.rs:143-153 | the ceiling of the search |
| `PathMtu.Dplpmtud.CalProbeSize` | src/connection/pmtu.rs:130-140 | the next size to try |
| `PathMtu.Dplpmtud.CheckFinish` | src/connection/pmtu.rs:156-160 | whether the size is within one percent of the ceiling |
| `Ranges.NormalFormIsCanonical` | src/ranges.rs:26-31 | two maps of non-empty, disjoint, non-adjacent ranges with the same elements are the same map |
| `Ranges.PrevTo` | src/ranges.rs:221-226 | the closest range that starts at or before the element |
| `Ranges.NextTo` | src/ranges.rs:229-234 | the closest range that starts at or after it |
| `Ranges.NextAfter` | src/ranges.rs:237-242 | the closest range that starts after it |
| `Ranges.DroppedIsLowestUnmerged` | src/ranges.rs:44-79 | an overflowing insertion gives up the lowest range it does not merge with, never the new one |
| `Ranges.RangeSet.constructor` | src/ranges.rs:35-40 | the empty set with the given capacity |
| `Ranges.RangeSet.Insert` | src/ranges.rs:44-79 | keeps the normal form; the elements are the union less the dropped range; stays within capacity; both merge loops end |
| `Ranges.RangeSet.AddElem` | src/ranges.rs:82-84 | inserts one element |
| `Ranges.RangeSet.Remove` | src/ranges.rs:87-126 | keeps the normal form; the elements are the set difference; at most one range more |
| `Ranges.RemoveUntilWithin` | src/ranges.rs:134-149 | for a set within its capacity the result of removing up to a number is exactly the elements above it, so nothing is evicted |
| `Ranges.RangeSet.RemoveUntil` | src/ranges.rs:134-149 | keeps the normal form; the elements are the ranges above the number with the rest of a straddling range inserted again, for every set, also one past its capacity; never more ranges than before |
| `Ranges.RangeSet.PopMin` | src/ranges.rs:266-270 | removes exactly the lowest range; everything left lies beyond it |
| `Ranges.RangeSet.Contains` | src/ranges.rs:245-257 | equals membership |
| `Ranges.RangeSet.Filter` | src/ranges.rs:157-181 | none if and only if a non-empty query is wholly present; otherwise the first maximal missing part; an empty query is given back unless a range reaches around it |
| `Ranges.RangeSet.Replay` | src/ranges.rs:44-149 | a whole run of calls with room for it computes exactly the set it denotes |
| `Codec.BigEndianRoundTrip` | src/codec.rs:198-234 | a number that fits is recovered from its bytes |
| `Codec.VarintRoundTrip` | src/codec.rs:143-255 | every value up to 2^62 - 1 is read back and only its own bytes are consumed |
| `Codec.VarintShortest` | src/codec.rs:310-333 | the length chosen is the shortest: a field gives the value back if and only if it is at least that long |
| `Codec.ShortFieldLosesLargeValues` | src/codec.rs:148-170 | a value that does not fit a two-byte field is never read back from it |
| `Codec.ReadVarintMeans` | src/codec.rs:236-255 | the value read is the one whose field of the announced length, followed by what is left, is the input; it fails if and only if that many bytes are not there |
| `Codec.ReadBytes` | src/codec.rs:257-266 | succeeds if and only if there are enough bytes, and splits the buffer there |
| `Codec.ConnectionIdOf` | src/lib.rs:210-220 | a connection id is the longest prefix of at most 20 bytes |
| `Codec.WithVarintLengthRoundTrip` | src/codec.rs:268-271 | a length-prefixed string is recovered, whatever follows |
| `AckFrames.AckListRoundTrip` | src/frame.rs:443-478 | the descending range list is recovered from its encoding, with delay and ECN counts; no subtraction underflows |
| `AckFrames.AckRoundTrip` | src/frame.rs:443-478 | every non-empty normalised set of numbers below 2^62 comes back as exactly the same range map |
| `AckFrames.AcceptedAckIsNormal` | src/frame.rs:1229-1295 | every accepted ACK yields a normalised set whose largest element is the Largest Acknowledged field |
| `AckFrames.GapTooLarge` | src/frame.rs:1252-1259 | a gap that would go below zero is an encoding error, whatever follows |
| `AckFrames.ParseBlocks` | src/frame.rs:1252-1271 | the loop over gaps and ranges builds, by insertion, exactly the map of the decoded list |
| `AckFrames.ParseAckFrame` | src/frame.rs:1229-1295 | the parser equals the decoding function, error cases included |
| `Frames.FrameRoundTrip` | src/frame.rs:189-645 | for every transmittable frame and every suffix, decoding gives the frame and leaves the suffix; a disallowed packet type is an error |
| `Frames.PaddingRun` | src/frame.rs:195-202 | a padding run absorbs exactly the zero bytes that follow it |
| `Frames.EncodeDecode` | src/frame.rs:189-805 | the round trip on plain byte strings, consuming the wire length |
| `Frames.WireLenExact` | src/frame.rs:647-805 | the computed length is the number of bytes written, for every frame |
| `Frames.CryptoRoundTripIff` | src/frame.rs:1172-1180 | a CRYPTO frame survives if and only if its data fits the two-byte length |
| `Frames.StreamRoundTripIff` | src/frame.rs:1190-1209 | the same for STREAM frames |
| `Frames.DecodedIsAcceptable` | src/frame.rs:189-394 | what the decoder accepts is within the format's bounds and allowed in the packet |
| `Frames.DecodeEncodeDecode` | src/frame.rs:189-645 | every decoded frame can be encoded again, and decoding that gives the same frame unless it holds more data than the two-byte length can express |
| `Frames.StreamFormsDecode` | src/frame.rs:243-274 | all eight STREAM types, with and without offset, length and end: decoded as meant, unless the data reaches past the largest stream size |
| `Frames.CryptoDecodes` | src/frame.rs:223-236 | CRYPTO data of any length, with a length field of any width, is decoded |
| `Frames.DatagramToEnd` | src/frame.rs:366-374 | a DATAGRAM without length takes the rest of the packet |
| `Frames.LongConnectionId` | src/frame.rs:316-328 | of a connection id of more than 20 bytes the first 20 are kept |
| `Frames.UnknownTypes` | src/frame.rs:189-394 | every type not assigned is an encoding error |
| `Frames.HandshakeFrames` | src/frame.rs:396-424 | Initial and Handshake packets yield only padding, PING, ACK, CRYPTO and CONNECTION_CLOSE |
| `Frames.ZeroRttFrames` | src/frame.rs:396-424 | exactly which frames a 0-RTT packet may carry; a 1-RTT packet may carry all |
| `FrameLayouts.CreditLayout` | src/frame.rs:277-334 | the types and fields of MAX_DATA, MAX_STREAMS and RETIRE_CONNECTION_ID on the wire |
| `FrameLayouts.BlockedLayout` | src/frame.rs:296-314 | those of the blocked frames, with the stream before its limit |
| `FrameLayouts.StreamControlLayout` | src/frame.rs:205-365 | those of RESET_STREAM, STOP_SENDING, MAX_STREAM_DATA and PATH_STATUS, in their order |
| `FrameLayouts.CloseLayout` | src/frame.rs:338-359 | those of the closing frames and PATH_ABANDON, the reason last |
| `FrameLayouts.StringLayout` | src/frame.rs:238-385 | those of NEW_TOKEN and DATAGRAM, the length in front |
| `FrameLayouts.ChallengeLayout` | src/frame.rs:203-352 | the eight bytes of a challenge and its response, and the frames of a type alone |
| `FrameLayouts.NewConnectionIdLayout` | src/frame.rs:316-328 | number, retire-prior-to, length, id and token, in that order |
| `FrameLayouts.AckLayout` | src/frame.rs:1229-1295 | the numbers two ranges of an ACK stand for, with gaps and lengths off by one and ECN counts, and that it is refused if and only if they would go below zero |
| `FrameCodec.FromBytes` | src/frame.rs:189-394 | the cursor-driven decoder equals the decoding function |
| `FrameCodec.SkipPadding` | src/frame.rs:195-202 | counts the leading zero bytes |
| `FrameCodec.WritePadding` | src/frame.rs:431-437 | writes that many zero bytes, or fails for lack of room |
| `FrameCodec.WriteAck` | src/frame.rs:443-478 | writes the ACK's bytes; succeeds whenever they fit |
| `FrameCodec.ToBytes` | src/frame.rs:427-645 | fills the buffer with exactly the frame's bytes and returns their number; fails if and only if they do not fit |
| `PacketNumbers.DecodeIff` | src/packet.rs:615-638 | a truncated number is completed correctly if and only if it lies in the window or at an edge of the number space that leaves no other choice |
| `PacketNumbers.LengthIsLeast` | src/packet.rs:669-681 | the chosen length is the least whose half window exceeds the number of unacknowledged packets |
| `PacketNumbers.LengthForGap` | src/packet.rs:669-681 | one, two, three or four bytes if and only if the gap to the largest acknowledged number, or to before the first, is below 2^7, 2^15, 2^23 or 2^31 and not below the bound before |
| `PacketNumbers.OldNumberTakesOneByte` | src/packet.rs:669-681 | a number not above the largest acknowledged one takes one byte |
| `PacketNumbers.AppendixExamples` | src/packet.rs:615-681 | the examples of appendices A.2 and A.3 of RFC 9000 |
| `PacketNumbers.PacketNumberRoundTrip` | src/packet.rs:615-681 | choosing the length, truncating, encoding and completing gives the packet number back |
| `HeaderProtection.MaskFirstCancels` | src/packet.rs:476-483 | the bit that selects the masking rule is not masked, and masking twice is the identity |
| `HeaderProtection.XorBit` | src/packet.rs:476-490 | exclusive or, bit by bit |
| `HeaderProtection.MaskHides` | src/packet.rs:476-483 | a first byte can be masked into exactly the bytes that share its high bits, four of a long header and three of a short one |
| `HeaderProtection.ProtectedBytes` | src/packet.rs:459-492 | which bytes are masked with which byte of the mask, and which 16 bytes the cipher is given |
| `HeaderProtection.InitialVector` | src/packet.rs:459-492 | the client Initial of appendix A.2 of RFC 9001 |
| `HeaderProtection.ShortVector` | src/packet.rs:459-492 | the short header of appendix A.5 of RFC 9001 |
| `HeaderProtection.ProtectionRoundTrip` | src/packet.rs:459-606 | for every cipher, removing the protection restores every byte and yields length, number field and key phase |
| `HeaderProtection.PacketNumberDelivered` | src/packet.rs:459-681 | the whole way of a packet number from sender to receiver |
| `HeaderProtection.EncryptHeader` | src/packet.rs:459-492 | the in-place masking equals the protection function |
| `HeaderProtection.DecryptHeader` | src/packet.rs:539-606 | the in-place unmasking equals its inverse; fails exactly when the buffer is too short; plaintext mode leaves it alone |
| `PacketHeaders.HeaderRoundTripIff` | src/packet.rs:186-352 | a header comes back from its encoding, apart from the protected part, if and only if the encoding carries all of its fields |
| `PacketHeaders.FieldsRoundTripIff` | src/packet.rs:273-352 | the same whatever the masked bits of the first byte are |
| `PacketHeaders.FirstByteIs` | src/packet.rs:186-226 | fixed bit, type, key phase and packet number length of the first byte, with the reserved bits zero |
| `PacketHeaders.FixedBitSurvives` | src/packet.rs:476-483 | no mask touches the fixed bit or the type |
| `PacketHeaders.ReadLongMeans` | src/packet.rs:273-352 | what any long header is read as, by version and type bits: which connection ids are refused and which cut, where the token of a Retry ends |
| `PacketHeaders.ReadShortMeans` | src/packet.rs:273-297 | what any short header is read as |
| `PacketHeaders.ProtectedShape` | src/packet.rs:459-492 | protection leaves the bits that announce the form and type, and every header field, as they were |
| `PacketHeaders.HeaderDelivered` | src/packet.rs:186-681 | encoding, truncating and masking on one side, parsing, unmasking and completing on the other: for every cipher the receiver ends up with the sender's header |
| `PacketHeaders.ToBytes` | src/packet.rs:186-262 | fills the buffer with exactly the header's bytes; fails if and only if they do not fit or the type has no such header |
| `SeqNumWindows.RunComplete` | src/window.rs:31-62 | every number ever inserted is reported |
| `SeqNumWindows.InsertExactIff` | src/window.rs:31-46 | an insertion keeps the window exact if and only if it leaves no stale bit |
| `SeqNumWindows.RunExactIff` | src/window.rs:31-62 | a run is exact throughout if and only if no insertion on the way leaves a stale bit |
| `SeqNumWindows.RunExact` | src/window.rs:31-62 | with jumps below 2^32, a number on or above the window is reported if and only if it was inserted |
| `SeqNumWindows.LongJumpForges` | src/window.rs:38-42 | two insertions after which a number never seen is reported |
| `SeqNumWindows.SeqNumWindow.constructor` | src/window.rs:20-27 | the empty window |
| `SeqNumWindows.SeqNumWindow.Insert` | src/window.rs:31-46 | equals the value-level insertion |
| `SeqNumWindows.SeqNumWindow.Contains` | src/window.rs:49-62 | equals the value-level query |
| `SeqNumWindows.SeqNumWindow.Upper` | src/window.rs:65-67 | the upper edge, saturating |
| `Pacing.RateLimit` | src/congestion_control/pacing.rs:102-153 | over every run the bytes sent plus tokens left are at most the initial tokens plus rate times time |
| `Pacing.RateLimitFromStart` | src/congestion_control/pacing.rs:61-153 | the same from the creation of the pacer on, with the initial capacity |
| `Pacing.IntervalLimit` | src/congestion_control/pacing.rs:102-153 | from any state, over any interval: one full bucket more, because refills are lazy |
| `Pacing.AnyIntervalLimit` | src/congestion_control/pacing.rs:61-153 | in the life of a pacer, whatever the rate was before, any interval sends at most 2 * 128 packets plus rate times its length |
| `Pacing.WaitIsExact` | src/congestion_control/pacing.rs:112-153 | a request told to wait until T still waits at any time before T, is released at any time after T, and is released at T if and only if the rate divides the missing tokens evenly into nanoseconds |
| `Pacing.TooLargeNeverReleased` | src/congestion_control/pacing.rs:112-162 | a request above the capacity is never released |
| `Pacing.CapacityIs` | src/congestion_control/pacing.rs:155-162 | the capacity is what the window lets through in one granularity, with a round trip of at least a millisecond, kept between 10 and 128 packets |
| `Pacing.CapacityFollows` | src/congestion_control/pacing.rs:112-162 | after every run the capacity is the one for the last change of the congestion window |
| `Pacing.StepExact` | src/congestion_control/pacing.rs:102-153 | exactly when a packet is released under an unchanged window, what it finds, spends and leaves |
| `Pacing.FreshReleases` | src/congestion_control/pacing.rs:61-80 | a new pacer is full and releases a first packet of up to ten datagrams at once |
| `Pacing.UnpacedReleases` | src/congestion_control/pacing.rs:112-123 | without pacing, round trip, window or rate every packet is released and nothing changes |
| `Pacing.Pacer.constructor` | src/congestion_control/pacing.rs:61-80 | a full bucket of the computed capacity |
| `Pacing.Pacer.UpdateCapacity` | src/congestion_control/pacing.rs:155-162 | follows the congestion window, never keeping tokens above the new capacity |
| `Pacing.Pacer.OnSent` | src/congestion_control/pacing.rs:102-106 | spends tokens, not below zero |
| `Pacing.Pacer.Schedule` | src/congestion_control/pacing.rs:112-153 | answer and new bucket equal those of the run theorems |
| `SourceIds.LowestActiveMeans` | src/connection/cid.rs:282-294 | the lowest sequence number at or above the retire-prior-to value, none if there is none |
| `SourceIds.AddCounts` | src/connection/cid.rs:311-346 | the exact change of the number of active ids in a call to add one |
| `SourceIds.AddOutcome` | src/connection/cid.rs:311-346 | when adding an id succeeds, with which number, and which error it fails with |
| `SourceIds.AddLists` | src/connection/cid.rs:311-346 | a number handed out is put on the list once if it is to be announced; no other number is put on or taken off, and a failed call leaves the list alone |
| `SourceIds.AddKeeps` | src/connection/cid.rs:311-346 | active ids within the peer's limit, numbers increasing and fresh, retire-prior-to not falling, failed calls included; a success leaves some id active |
| `SourceIds.AddActiveIff` | src/connection/cid.rs:311-346 | some id stays active if and only if the call does not lose the last one, and such a call fails |
| `SourceIds.RetireCounts` | src/connection/cid.rs:446-470 | the exact change of the queue and of the number of active ids in a retirement |
| `SourceIds.RetireOutcome` | src/connection/cid.rs:446-470 | when a retirement succeeds, what it returns and which error it fails with |
| `SourceIds.RetireUnknown` | src/connection/cid.rs:446-470 | retiring a number that is not in the queue changes nothing, and is an error if and only if it was never handed out |
| `SourceIds.RetireLists` | src/connection/cid.rs:446-470 | a retirement leaves the list to announce alone |
| `SourceIds.MarkLists` | src/connection/cid.rs:473-479 | marking adds a number once more or takes all of its entries off, and leaves the others |
| `SourceIds.SetLimitMeans` | src/connection/cid.rs:220-228 | the limit is kept between 2 and 16, the capacity holds twice the limit less one and never shrinks, and nothing else changes |
| `SourceIds.RetireKeeps` | src/connection/cid.rs:446-470 | the invariant of AddKeeps, for retirements; the queue never becomes empty |
| `SourceIds.RetireActiveIff` | src/connection/cid.rs:446-470 | the partner of AddActiveIff |
| `SourceIds.SetLimitIff` | src/connection/cid.rs:220-228 | the invariant survives a new limit if and only if the active ids are within it |
| `SourceIds.RunKeeps` | src/connection/cid.rs:220-470 | over every run, failed calls included: limit respected, retire-prior-to monotone, sequence numbers handed out consecutively and never twice |
| `SourceIds.RunLists` | src/connection/cid.rs:311-479 | over every run, a number handed out before it is on the list to announce if and only if the last mark of it during the run says so, or there is none and it was on the list |
| `SourceIds.IssuedIsListed` | src/connection/cid.rs:311-479 | over every run after a successful call, its number is on the list if and only if the last mark of it says so, or there is none and the call asked for it |
| `SourceIds.RunActiveIff` | src/connection/cid.rs:220-470 | some id is active throughout a run if and only if no call on the way loses the last one |
| `SourceIds.RunFromStart` | src/connection/cid.rs:169-470 | the two run theorems from the first id on: the numbers handed out are 1, 2, 3 and so on |
| `SourceIds.FirstAdd` | src/connection/cid.rs:169-346 | what the first call to add an id does to a new manager |
| `SourceIds.FullQueueRenewals` | src/connection/cid.rs:311-346 | on a full queue, as many failing renewals as there are active ids leave none |
| `SourceIds.FullQueueReached` | src/connection/cid.rs:169-346 | a full queue is two renewals away from the start |
| `DestinationIds.AddKeeps` | src/connection/cid.rs:351-443 | numbers and ids pairwise distinct, at most 2 * limit - 1 of them, threshold not falling, the retirement list bounded on success |
| `DestinationIds.AddOutcome` | src/connection/cid.rs:351-443 | when an offer is accepted and which error it is refused with, by its numbers, what is known and the two limits |
| `DestinationIds.AddStores` | src/connection/cid.rs:351-443 | a new id is stored with its number, its reset token and no path, behind the ids that are kept |
| `DestinationIds.AddAgain` | src/connection/cid.rs:351-443 | an accepted offer that is in use can be repeated any number of times without effect |
| `DestinationIds.AddConserves` | src/connection/cid.rs:351-427 | a number offered is taken in once or not at all and no other number is lost or doubled, on success and failure |
| `DestinationIds.AcceptedIsHeld` | src/connection/cid.rs:351-427 | an accepted offer is in use or queued for retirement afterwards |
| `DestinationIds.AddReports` | src/connection/cid.rs:351-427 | the result lists exactly the ids in use on a path that the call takes out of use, with their path |
| `DestinationIds.AddAboveIff` | src/connection/cid.rs:392-424 | all ids in use are at or above the threshold if and only if no retired number with a pending retirement was repeated |
| `DestinationIds.MarkUsedKeeps` | src/connection/cid.rs:259-263 | assigning a path changes nothing else |
| `DestinationIds.MarkUsedSets` | src/connection/cid.rs:259-263 | exactly the item with the number gets the path |
| `DestinationIds.CallConserves` | src/connection/cid.rs:351-489 | the exact effect of each call on how often a number is held |
| `DestinationIds.RunKeeps` | src/connection/cid.rs:201-489 | the invariant over every run |
| `DestinationIds.RunConserves` | src/connection/cid.rs:201-489 | over every run, a number is held exactly as often as it came in since its retirement was last announced, once more if it was in use then, or, if none was announced, since the start on top of what was held there |
| `DestinationIds.RunAccounts` | src/connection/cid.rs:201-489 | on every run, a number held at the start is in use or queued for retirement at the end, or was queued when its retirement was announced |
| `DestinationIds.OnceHeldAccounted` | src/connection/cid.rs:201-489 | the same for a number held at any moment of the run |
| `DestinationIds.RunAboveIff` | src/connection/cid.rs:351-489 | ids in use stay above the threshold throughout a run if and only if no call slips below |
| `DestinationIds.InitKeeps` | src/connection/cid.rs:201-217 | the invariant holds at the start for every limit of at least one, and only the number 0 is held |
| `DestinationIds.RunFromStart` | src/connection/cid.rs:201-489 | the run theorems from the first id on, among them that every number ever held is accounted for |
| `DestinationIds.FirstOffer` | src/connection/cid.rs:201-443 | what the first offer does to a new manager |
| `DestinationIds.RetirePriorToTooLarge` | src/connection/cid.rs:370-384 | an offer whose Retire Prior To exceeds its sequence number changes nothing; it is a protocol violation if and only if the peer uses zero-length ids or the offer is not an exact repeat of an id in use |
| `DestinationIds.RepeatIsAccepted` | src/connection/cid.rs:370-384 | such a repeat of the first id is accepted |
| `DestinationIds.RetiredNumberComesBack` | src/connection/cid.rs:392-424 | a run after which a number is both in use and queued for retirement |
| `ConnectionIds.FindNumber` | src/connection/cid.rs:59-61 | the first item with the number |
| `ConnectionIds.RetainOthers` | src/connection/cid.rs:473-489 | removes every occurrence of a number |
| `ConnectionIds.ConnectionIdMgr.constructor` | src/connection/cid.rs:169-198 | the initial state of both directions |
| `ConnectionIds.ConnectionIdMgr.SetScidLimit` | src/connection/cid.rs:220-228 | equals the step on issued ids and leaves the peer's ids alone |
| `ConnectionIds.ConnectionIdMgr.LowestActiveScidSeq` | src/connection/cid.rs:282-294 | the minimum over the active ids |
| `ConnectionIds.ConnectionIdMgr.MarkScidToAdvertise` | src/connection/cid.rs:473-479 | adds to or clears from the list to announce |
| `ConnectionIds.ConnectionIdMgr.AddScid` | src/connection/cid.rs:311-346 | new state and result equal those of the run theorems, failures included |
| `ConnectionIds.ConnectionIdMgr.RetireScid` | src/connection/cid.rs:446-470 | the same for a retirement |
| `ConnectionIds.ConnectionIdMgr.SetInitialDcid` | src/connection/cid.rs:201-217 | one id in use, the lists untouched |
| `ConnectionIds.ConnectionIdMgr.FindDcid` | src/connection/cid.rs:370-375 | the first item with the id or the number |
| `ConnectionIds.ConnectionIdMgr.RemoveLower` | src/connection/cid.rs:101-110 | splits the queue at a number in one pass: kept, queued for retirement, reported with their paths |
| `ConnectionIds.ConnectionIdMgr.AddDcid` | src/connection/cid.rs:351-443 | new state and result equal those of the run theorems, failures included |
| `ConnectionIds.ConnectionIdMgr.MarkDcidToRetire` | src/connection/cid.rs:483-489 | adds to or clears from the retirement list |
| `ConnectionIds.ConnectionIdMgr.MarkDcidUsed` | src/connection/cid.rs:259-263 | assigns the path if the number is known |
| `TransportParams.AddressRoundTrip` | src/trans_param.rs:518-576 | an encoded preferred address is always accepted, and comes back unchanged if and only if no part is the unspecified address and flow and scope are zero |
| `TransportParams.AddressLayout` | src/trans_param.rs:518-576 | the order of addresses, ports, connection id and token on the wire, and that an all-zero address stands for none |
| `TransportParams.ApplyIsUpdate` | src/trans_param.rs:151-281 | taking in one parameter is adding it to a map; it is refused if and only if its value is invalid for the role |
| `TransportParams.DecodeIff` | src/trans_param.rs:134-287 | a buffer is accepted if and only if it splits into entries with distinct ids and valid values, and then means what the unordered entries mean |
| `TransportParams.DecodeAnyOrder` | src/trans_param.rs:134-287 | any permutation of the entries is accepted alike and gives the same parameters |
| `ParamsEncoding.EntriesRoundTrip` | src/trans_param.rs:290-426 | the entries written are the entries read |
| `ParamsEncoding.IntegerParameter` | src/trans_param.rs:134-287 | for every integer parameter by its id and every value: accepted if and only if within the bounds of section 18.2 of RFC 9000, and then it sets its own field and no other |
| `ParamsEncoding.OtherParameter` | src/trans_param.rs:134-287 | for every other id and every value: which are refused by a server, which are too short, and which field is set |
| `ParamsEncoding.DecodedInBounds` | src/trans_param.rs:134-287 | whatever the buffer, the parameters let through are in bounds and a server is told nothing that only servers may say |
| `ParamsEncoding.IntegersWritten` | src/trans_param.rs:290-426 | exactly which integer parameters are on the wire, by id: those that are not zero, and a connection id limit of at least two |
| `ParamsEncoding.OthersWritten` | src/trans_param.rs:290-426 | exactly which others are, by id and role |
| `ParamsEncoding.ReturnedIff` | src/trans_param.rs:290-507 | the values recovered from the written entries over the defaults are the original ones if and only if no omitted field differs from its default |
| `ParamsEncoding.AcceptedIff` | src/trans_param.rs:134-426 | the opposite role accepts every written value if and only if the bounded fields are within their bounds and a client sets no preferred address |
| `ParamsEncoding.ParamsRoundTripIff` | src/trans_param.rs:134-576 | from either role through the other's decoder, parameters come back unchanged if and only if both conditions hold |
| `ParamsCodec.DecodeParams` | src/trans_param.rs:134-287 | the loop with its set of ids equals the decoding function and consumes the whole buffer |
| `ParamsCodec.EncodeParams` | src/trans_param.rs:290-426 | fills the buffer with exactly the encoding; fails if and only if it does not fit |
| `DeliveryRate.SendKeeps` | src/congestion_control/delivery_rate.rs:97-120 | a packet in flight is stamped with the bytes delivered so far; the accounting invariant is kept |
| `DeliveryRate.QuietSendKeeps` | src/connection/recovery.rs:177-194 | a packet that does not count toward the bytes in flight stays unstamped and changes nothing |
| `DeliveryRate.AckKeeps` | src/congestion_control/delivery_rate.rs:121-169 | a stamped packet adds its bytes when first acknowledged and nothing when acknowledged again; an unstamped one never adds any |
| `DeliveryRate.CountKeepsNewest` | src/congestion_control/delivery_rate.rs:137-145 | the sample belongs to the delivered packet with the largest stamp |
| `DeliveryRate.GenerateKeeps` | src/congestion_control/delivery_rate.rs:173-204 | the sample counts exactly the bytes delivered since its packet was sent |
| `DeliveryRate.SampleSoFar` | src/congestion_control/delivery_rate.rs:121-169 | while packets are being counted the sample already holds the bytes delivered since its packet was sent |
| `DeliveryRate.LimitMarks` | src/congestion_control/delivery_rate.rs:207-213 | the mark of a limited application is the last number sent |
| `BbrRounds.EndAckKeepsMode` | src/congestion_control/bbr.rs:432-754 | Drain and ProbeBW only with a filled pipe, Startup never once it is filled, Drain only out of Startup, filled only when a round starts, ProbeRTT only when the round-trip filter has expired and not on a restart from idle |
| `BbrRounds.DrainEnds` | src/congestion_control/bbr.rs:556-570 | out of Startup and Drain the filled pipe and the bytes in flight decide the state |
| `BbrRounds.FullPipeStep` | src/congestion_control/bbr.rs:432-463 | which acknowledgements count towards a full pipe, which set the baseline and start the count anew, and that the third in a row without growth fills it |
| `BbrRounds.RtpropStep` | src/congestion_control/bbr.rs:796-808 | when the round-trip estimate takes a new sample and when its age starts anew |
| `BbrRounds.RecoveryStep` | src/congestion_control/bbr.rs:944-954 | recovery ends with the first packet acknowledged that was sent after it began; packets are conserved for its first round |
| `BbrRounds.LossStep` | src/congestion_control/bbr.rs:1033-1060 | what a loss does to recovery, round and bytes in flight |
| `BbrRounds.IdleRestartIff` | src/congestion_control/bbr.rs:641-709 | an expired filter leads to ProbeRTT if and only if the packet before did not go out of an idle, application-limited state |
| `BbrRuns.EndAckMeans` | src/congestion_control/bbr.rs:470-754 | when a round starts, what becomes of the round threshold, and exactly when ProbeRTT is marked or left |
| `BbrRuns.EndAckEstimator` | src/congestion_control/bbr.rs:1019-1031 | after an acknowledgement the sample holds the bytes delivered since its packet was sent |
| `BbrRuns.EndAckLimit` | src/congestion_control/bbr.rs:1019-1031 | outside ProbeRTT the mark of a limited application stays if and only if nothing sent after it was delivered |
| `BbrRuns.AckAllCounts` | src/congestion_control/bbr.rs:981-1017 | a batch raises the delivered count if and only if it newly acknowledges data in flight |
| `BbrRuns.SettlesIff` | src/congestion_control/bbr.rs:470-480 | after an acknowledgement nothing outstanding can pass for newer than it if and only if it delivers data or leaves no packet outstanding with the current delivered count |
| `BbrRuns.RoundTakesRoundTrip` | src/congestion_control/bbr.rs:470-480 | an acknowledgement that starts a round names a packet sent after any sound mark |
| `BbrRuns.StayIsSound` | src/congestion_control/bbr.rs:720-745 | through a stay in ProbeRTT and at its end, a completed round means that a packet sent after the mark was acknowledged |
| `BbrRuns.StepKeeps` | src/congestion_control/bbr.rs:961-1060 | the invariant over sends of packets in flight or not, acknowledgements with losses inside, losses and application limits |
| `BbrRuns.DeliveredCountsOnce` | src/congestion_control/delivery_rate.rs:121-169 | on every run the delivered bytes are those of the acknowledged packets, each counted once |
| `BbrRuns.RoundsDoNotOverlap` | src/congestion_control/bbr.rs:470-480 | on every run, of two round-starting acknowledgements, the earlier of which settles, the later names a packet sent after the earlier was processed, also across recovery and ProbeRTT |
| `BbrRuns.OverlapIff` | src/congestion_control/bbr.rs:470-480 | the exact condition: all runs after a round-starting acknowledgement start rounds only with packets sent since if and only if it settles |
| `BbrRuns.RunSoundIff` | src/congestion_control/bbr.rs:470-480 | the round mark is sound throughout a run if and only if every acknowledgement that starts a round settles |
| `BbrRuns.ProbeMarkMeans` | src/congestion_control/bbr.rs:720-744 | an unmarked stay in ProbeRTT is marked by an acknowledgement if and only if it finds the bytes in flight within the window, and a marked one keeps its mark |
| `BbrRuns.ProbeRttEnds` | src/congestion_control/bbr.rs:688-754 | on every run ProbeRTT ends only by an acknowledgement at least the duration after the one that marked this very stay, and if that one settles, after a packet sent since was acknowledged |
| `BbrRuns.EarlyExitIff` | src/congestion_control/bbr.rs:688-754 | the exact condition: all runs after the mark leave ProbeRTT only once a packet sent since was acknowledged if and only if the marking acknowledgement settles |
| `BbrRuns.FilledForGood` | src/congestion_control/bbr.rs:432-463 | on every run a filled pipe stays filled and Startup is never entered again |
| `BbrEstimates.PipeFillsIff` | src/congestion_control/bbr.rs:432-463 | on every run the pipe counts as filled at an acknowledgement if and only if it starts a round that is not application-limited and whose bandwidth is short of five quarters of the baseline, two such rounds came before it, and none that grew in between; the baseline is the bandwidth of the last such round that grew |
| `BbrEstimates.GrowthResets` | src/congestion_control/bbr.rs:432-463 | a counted round with growth leaves the pipe unfilled, the count at zero and its bandwidth for a baseline |
| `BbrEstimates.RtpropIsLeast` | src/congestion_control/bbr.rs:796-808 | on every run the round-trip estimate is a sample since the last expiry, or the one from before, and none of those since is below it |
| `BbrEstimates.LossBegins` | src/congestion_control/bbr.rs:920-1060 | a loss begins recovery if there is none, and marks a round |
| `BbrEstimates.RecoveryEnds` | src/congestion_control/bbr.rs:944-1031 | an acknowledgement ends recovery if and only if the last packet it names was sent after recovery began |
| `BbrEstimates.LimitSets` | src/congestion_control/delivery_rate.rs:207-213 | the application's limit is set and cleared alone |
| `BbrEstimates.BalancedIff` | src/congestion_control/bbr.rs:961-1017 | on every run without losses the bytes in flight are those sent and not acknowledged throughout if and only if no acknowledgement takes out bytes that were never put in |
| `BbrRuns.RunFromStart` | src/congestion_control/bbr.rs:328-480 | the run theorems from the creation of the controller on |
| `BbrRuns.StartMeans` | src/congestion_control/bbr.rs:328-384 | a new controller is idle and in Startup and knows nothing but the first round trip |
| `BbrRuns.QuietAckOverlaps` | src/connection/recovery.rs:177-194 | a run in which rounds overlap: a packet not in flight is acknowledged on its own before anything is delivered, and then one sent before it |
| `BbrController.DeliveryRateEstimator.constructor` | src/congestion_control/delivery_rate.rs:252-266 | nothing delivered yet |
| `BbrController.DeliveryRateEstimator.PacketSent` | src/congestion_control/delivery_rate.rs:97-120 | estimator and packet equal those of the run theorems |
| `BbrController.DeliveryRateEstimator.UpdateSample` | src/congestion_control/delivery_rate.rs:121-169 | the same for an acknowledgement |
| `BbrController.DeliveryRateEstimator.SetLimited` | src/congestion_control/delivery_rate.rs:207-213 | marks the last packet sent, or clears the mark |
| `BbrController.DeliveryRateEstimator.GenerateSample` | src/congestion_control/delivery_rate.rs:173-204 | the finished sample |
| `BbrController.Controller.constructor` | src/congestion_control/bbr.rs:328-384 | Startup with empty estimates |
| `BbrController.Controller.NextRound` | src/congestion_control/bbr.rs:470-480 | equals the round update; a round start ends packet conservation |
| `BbrController.Controller.FullPipeCheck` | src/congestion_control/bbr.rs:432-463 | equals the full pipe step |
| `BbrController.Controller.DrainCheck` | src/congestion_control/bbr.rs:556-570 | equals the Drain step |
| `BbrController.Controller.RtpropUpdate` | src/congestion_control/bbr.rs:796-808 | equals the round-trip filter step |
| `BbrController.Controller.RecoveryCheck` | src/congestion_control/bbr.rs:944-954 | leaves recovery when the acknowledged packet was sent after it began |
| `BbrController.Controller.ProbeRttStep` | src/congestion_control/bbr.rs:720-754 | equals the ProbeRTT step |
| `BbrController.Controller.ProbeRttCheck` | src/congestion_control/bbr.rs:688-709 | enters ProbeRTT on expiry, then handles it |
| `BbrController.Controller.BeginAck` | src/congestion_control/bbr.rs:972-979 | clears the acknowledgement state |
| `BbrController.Controller.OnAck` | src/congestion_control/bbr.rs:981-1017 | controller and packet equal those of the run theorems |
| `BbrController.Controller.EndAck` | src/congestion_control/bbr.rs:1019-1031 | the composition of all parts equals the step of the run theorems |
| `BbrController.Controller.OnSent` | src/congestion_control/bbr.rs:961-970 | the same for a sent packet |
| `BbrController.Controller.OnCongestionEvent` | src/congestion_control/bbr.rs:1033-1060 | the same for a loss |

## Left out

- TLS, AEAD sealing, retry integrity tags, address and reset tokens: foreign cryptography; only an arbitrary mask function is kept.
- The connection, path, stream and endpoint drivers, timers and flow control: they call the parts modelled here and would add state without harder properties.
- CUBIC, COPA and BBRv3, and BBR's gains, bandwidth filter and window formulas: floating-point formulas and randomness; what they decide enters `BbrRounds` as `Readings`.
- The quotient of delivered bytes and sampling interval, and the interval itself: only the byte counts and round-trip times of a rate sample are modelled.
- BBR's per-call statistics, pacing rate, send quantum and gain cycling: no effect on rounds and states.
- The `Flatten` iterator of range sets, `peek_min`, `clear`, `min` and `max`: easy members, and mixed front and back use of `Flatten` shares one cursor.
- Path assignment of issued ids, counts of unused ids and the building of NEW_CONNECTION_ID frames: easy members.
- The Debug, Display and qlog forms of all types: no hard property.
- Ranges.RangeSet.AddElem: does not model the overflow of `elem + 1` at the largest 64-bit number, because values are packet numbers below 2^62.
- BbrController.Controller.FullPipeCheck: the floating-point factor of 1.25 on the baseline is written as an integer quotient, because rounding is not its point.
- PathMtu.Dplpmtud.CheckFinish: the floating-point test against 0.99 is written as 100 * size >= 99 * ceiling, because rounding is not its point.
- SeqNumWindows.SeqNumWindow.Insert: the 128-bit field is a sequence of 128 truth values; the insertion of 2^64 - 1 is not modelled, because there the upper edge saturates below the number and the source's subtraction underflows.
- HeaderProtection.EncryptHeader: the header and payload slices are one buffer with an offset; the failure of the cipher to yield a mask is not modelled.
- ParamsCodec.EncodeParams: the fixed sequence of conditional writes is a loop over the ids in their order; the bytes left in the buffer by a failed call are not described.
- PacketHeaders.ToBytes: the fields after the first byte are written at once; the bytes left in the buffer by a failed call are not described.
- FrameCodec.ToBytes: the bytes left in the buffer by a failed call are not described.
- Frames.FrameRoundTrip: the path MTU metadata of a PING frame is never on the wire, so frames that carry it are not transmittable.
- BbrRuns.StepKeeps: the bytes sent in flight stay below 2^64 in total, the range of the delivered counter.
- DestinationIds.RunConserves: runs start at `set_initial_dcid`; a second call to it during the handshake discards the id in use without retiring it.
