# Verified model of the media transport core

This project models, in Dafny, the media transport core of asiortc, a WebRTC stack: the code that numbers, splits, reorders,
re-requests, reports on and reassembles RTP packets, and the offer/answer bookkeeping around it.

| file | what it models |
|---|---|
| `Words.dfy` | fixed-width integers, big-endian bytes, 16-bit circular distance |
| `NackGenerator.dfy`, `NackHistory.dfy` | the ring of loss state against a map over unbounded numbers, and what is requested when |
| `JitterBuffer.dfy`, `JitterHistory.dfy` | the reorder buffer, what every run of it keeps, and when it waits and gives up |
| `H264.dfy`, `H264Payloads.dfy`, `Vpx.dfy` | packetizers and their inverses |
| `MediaPath.dfy` | a frame from the packetizer to the decoder, across any reordering and duplication |
| `Rtp.dfy`, `RtpExtension.dfy`, `Rtcp.dfy`, `WireLayout.dfy` | wire formats, written and parsed, and their bytes place by place |
| `TransportCc.dfy`, `TransportCcWire.dfy`, `TransportCcReports.dfy` | transport-wide feedback, its byte form, and what it says of arrivals |
| `Retransmission.dfy`, `ReceiverStats.dfy`, `ReceiverHistory.dfy` | the send history with RTX, and reception statistics |
| `Recovery.dfy` | a frame with losses, from the request to the repaired packets and back to the decoder |
| `MpegTs.dfy`, `TableSections.dfy`, `SectionCheck.dfy` | transport stream input, table sections, their checksum |
| `Session.dfy`, `OfferAllocation.dfy`, `Mids.dfy`, `Negotiation.dfy`, `Descriptions.dfy`, `CallHistory.dfy`, `Connection.dfy` | transceivers, offers, answers, roles, and whole runs of calls |
| `Simulcast.dfy` | the simulcast attribute |

Each component has the same shape: functions on values say what one step does over unbounded numbers, lemmas prove what the code
is for about those functions (over whole runs, or as round trips), and a class or method with the source's own fields and loops is
proved to compute exactly those functions. What a component decides is also stated without its functions: from the history of
calls, from the bytes, or from the descriptions exchanged. `dafny verify dfyconfig.toml` checks everything.

A C++ mask `x & (2^k - 1)` is written `x % 2^k` and a shift `x >> k` is written `x / 2^k`; only the checksum uses bit vectors.
C++ exceptions and early error returns are error values.

## Model

| member | source | states |
|---|---|---|
| `Words.UnwrapIsExact` | src/nack_generator.hpp:42-44 | a number within half the 16-bit space of a reference is recovered exactly from its low 16 bits by the signed distance |
| `NackGenerator.PollIsExact` | src/nack_generator.cpp:60-114 | a poll requests exactly the numbers strictly between lowest and highest that are missing and due, once each, stamps them with the back-off RTT+20, gives up on those out of retries and leaves every other number and field alone |
| `NackGenerator.RequestsAre` | src/nack_generator.cpp:60-114 | the numbers a poll returns are those of the numbers strictly between lowest and highest that are missing and due, and no others |
| `NackHistory.RequestedIff` | src/nack_generator.cpp:60-114 | in every run, from arrivals and requests alone: a poll requests a number if and only if it lies above the first arrival and within the h highest, below the highest, has not arrived in time, has been requested fewer than maxRetries times, and never or last at least RTT+20 ms ago; and then once |
| `NackHistory.WindowIsExact` | src/nack_generator.cpp:12-58 | in every run the window reaches from the first arrival, or the h-th highest number, to the highest that arrived |
| `NackHistory.SettledIff` | src/nack_generator.cpp:82-92 | a number counts as received exactly when it arrived in time, or once its last request is used up |
| `NackHistory.ScanDescends` | src/nack_generator.cpp:77-113 | the requests of one poll go from the newest number down |
| `NackHistory.SmoothingIsAnEighth` | src/nack_generator.cpp:116-119 | a sample moves the estimate an eighth of the way, rounded towards zero, and never beyond either |
| `NackGenerator.RunIsSafe` | src/nack_generator.cpp:12-119 | over every run of packets, polls and RTT samples: 0 <= highest-lowest <= h-1, each unwrapped number is requested at most maxRetries times over its life, and successive requests are at least the later call's RTT+20 ms apart |
| `NackGenerator.SettledStaysSettled` | src/nack_generator.cpp:82-92 | a number recorded as received or given up stays so and is never requested again, whatever follows |
| `NackGenerator.ArrivedIsNeverRequested` | src/nack_generator.cpp:12-58 | a packet that arrives while its number is in the window is never requested afterwards |
| `NackGenerator.RingSizeCondition` | src/nack_generator.hpp:47 | indexing by the low 16 bits keeps the numbers of every window in different slots if and only if the ring size divides 65536 |
| `NackGenerator.SlideTestCondition` | src/nack_generator.cpp:55-57 | the 16-bit test that slides the lower edge is right for every window if and only if the ring size is at most 16384 |
| `NackGenerator.Ring.constructor` | src/nack_generator.cpp:7-10 | a ring of sound size starts as the empty reference map |
| `NackGenerator.Ring.ReceivePacket` | src/nack_generator.cpp:12-58 | the ring refines the unbounded map: its window agrees slot by slot with the map after the same packet |
| `NackGenerator.Ring.Advance` | src/nack_generator.cpp:32-57 | a newer packet moves highest and lowest as over unbounded numbers and leaves a window that agrees with the map, large jumps included |
| `NackGenerator.Ring.Recycle` | src/nack_generator.cpp:43-46 | resetting the slots a jump skips brings back the agreement for the numbers it uncovers, and for those kept |
| `NackGenerator.Ring.GetNacks` | src/nack_generator.cpp:60-114 | the requests returned, in order, are those the unbounded map makes, and the ring agrees with the map afterwards |
| `NackGenerator.Ring.Span` | src/nack_generator.cpp:71-75 | the 16-bit distance, corrected and capped, is the true length of the window |
| `NackGenerator.Ring.UpdateRttEstimate` | src/nack_generator.cpp:116-119 | smoothing the estimate with truncating division, nothing else changed |
| `Rtp.ParseOfSerialize` | src/rtp.cpp:36-151 | parsing a written packet gives the packet back, its extension data zero-padded to whole words, for every well-formed packet |
| `Rtp.ParsedIsWellFormed` | src/rtp.cpp:36-94 | every accepted byte string parses to a packet that can be written again, with whole-word extension data |
| `Rtp.NormalForm` | src/rtp.cpp:36-151 | parse, write, parse equals parse on every accepted byte string |
| `Rtp.SerializeOfParse` | src/rtp.cpp:36-151 | without padding, writing the parsed packet reproduces the very input |
| `Rtp.PaddingRoundTrip` | src/rtp.cpp:86-91 | the padding written is stripped exactly, whatever the payload ends with |
| `Rtp.SizeIsExact` | src/rtp.cpp:153-175 | the size computed beforehand is the number of bytes written |
| `Rtp.WriteTo` | src/rtp.cpp:96-151 | fills exactly the serialized size and nothing beyond it, or touches nothing when the buffer is too small |
| `Rtp.ParsePacket` | src/rtp.cpp:36-94 | the offset-driven parser computes the layout's inverse, rejections included |
| `WireLayout.RtpIsRead` | src/rtp.cpp:36-94 | for every byte string: it is accepted if and only if version, sizes and padding are right, and every field is read from its place in network byte order (section 5.1 of RFC 3550) |
| `WireLayout.RtcpIsRead` | src/rtcp.cpp:69-196 | for every byte string: it is accepted if and only if lengths and padding are right, and every field of its kind is read from its place (section 6.4 of RFC 3550) |
| `WireLayout.CompoundIsReadSoFar` | src/rtcp.cpp:278-302 | written packets in front of anything that is no packet are returned, and nothing more |
| `WireLayout.FeedbackIsWritten` | src/rtcp.cpp:321-350 | what a feedback packet begins with (section 6.1 of RFC 4585) |
| `WireLayout.NackIsRead` | src/rtcp.cpp:439-455 | for every byte string: a NACK asks for a number if and only if one of its items has it as packet id or flags it by bit k as the packet k+1 later (section 6.2.1 of RFC 4585) |
| `WireLayout.RtxIsWritten` | src/connection_impl.cpp:1819-1834 | the bytes of a repair packet, place by place |
| `WireLayout.RewritingIs` | src/connection_impl.cpp:1849-1863 | a packet is rewritten if and only if both maps know it and it holds more than two bytes, and then into what |
| `WireLayout.ElementIsRead` | include/asiortc/rtp.hpp:26-60 | one element: id and length less one in a byte, then its data (section 4.2 of RFC 8285) |
| `WireLayout.CutElementEnds` | include/asiortc/rtp.hpp:26-60 | an element whose data would end beyond the block ends the list |
| `WireLayout.SentIsFound` | src/connection_impl.cpp:201-252 | with a stream id of at most 16 bytes a receiver finds in the block exactly the negotiated extensions with the sender's values, and else only padding |
| `WireLayout.HeaderByteIsOred` | src/connection_impl.cpp:219-225 | the header byte of an element holds its length less one in the low half and its id, bit by bit or-ed with the excess of the length, in the high half |
| `WireLayout.DescriptorIsRead` | src/rtp_packetizer/vpx_descriptor.cpp:8-57 | for every byte string: which fields a payload descriptor has, where they are, and that nothing is consumed when it is cut (section 4.2 of RFC 7741) |
| `WireLayout.ChunkIsRead` | src/rtcp.cpp:491-524 | the three chunk forms a reader knows, symbol by symbol |
| `WireLayout.ControlInfoIsRead` | src/rtcp.cpp:457-489 | where a reader of transport-wide feedback finds base, count, reference time and counter |
| `RtpExtension.Iterator.Next` | include/asiortc/rtp.hpp:40-44 | one step drops exactly the first remaining element and moves strictly forward |
| `RtpExtension.Iterator.AtEnd` | include/asiortc/rtp.hpp:52-54 | the sentinel test is true exactly when nothing complete remains; otherwise the next element lies inside the block |
| `RtpExtension.Iterator.Current` | include/asiortc/rtp.hpp:33-38 | dereferencing yields the first remaining element |
| `RtpExtension.ElementsOfEncode` | include/asiortc/rtp.hpp:26-60 | encoded elements come back in order, followed by whatever the bytes after them yield (section 4.2 of RFC 8285) |
| `RtpExtension.ElementsOfZeros` | include/asiortc/rtp.hpp:26-60 | any run of zero bytes yields only id-0 items, one for every two bytes |
| `RtpExtension.IterateEncoded` | src/connection_impl.cpp:201-252 | iterating an encoded, zero-padded list yields that list and then only id-0 items |
| `RtpExtension.BuildExtension` | src/connection_impl.cpp:201-252 | the block built byte by byte is every element behind its header byte, id nibble and length or-ed together whatever their size, zero-padded to a multiple of four |
| `RtpExtension.SentBlockReadsIff` | src/connection_impl.cpp:201-252 | iterating the block yields the elements sent and then only id-0 items if and only if no stream id is sent or it has at most 16 bytes |
| `JitterBuffer.ExtendIsExact` | src/jitter_buffer.cpp:10-15 | the true 32-bit number is recovered if and only if it lies in the 65536 numbers from max(block start, last-0x8000) on: the correction only goes forward |
| `JitterBuffer.ExtendIsNear` | src/jitter_buffer.cpp:10-15 | an extended number is never more than 0x8000 behind nor 0x10000 ahead of the read position |
| `JitterBuffer.PopTakesRun` | src/jitter_buffer.cpp:37-106 | a pop yields nothing or the maximal run of consecutive numbers with one timestamp that starts at the least buffered number, removes exactly that run, and keeps or arms the gap timer as the code does |
| `JitterBuffer.DeliverTakesRun` | src/jitter_buffer.cpp:61-105 | from a reached read position either the whole maximal run is delivered or nothing changes but the wait timer |
| `JitterBuffer.RunIsSafe` | src/jitter_buffer.cpp:17-106 | over every run: delivered numbers strictly increase, every accepted packet is delivered once or still buffered, every number gone past was delivered or skipped, a skip needs a pop at least max_delay earlier that saw the gap at the same position, and nothing behind the read position is ever buffered |
| `JitterBuffer.StepKeepsInv` | src/jitter_buffer.cpp:17-106 | each push and each pop keeps all of these |
| `JitterBuffer.PushKeepsIff` | src/jitter_buffer.cpp:17-35 | a packet is kept if and only if its number is neither behind the read position nor taken; the first one kept must have a payload and sets the position |
| `JitterHistory.PopIsExact` | src/jitter_buffer.cpp:37-106 | in every run each pop of a non-empty buffer does what the history of pops alone says: it waits while the next number has been missing for less than max_delay since a pop first saw that; otherwise it moves to the least number present and delivers the run there, unless this is video, nothing else is there, and max_delay/2 is not over since that was first so |
| `JitterHistory.GapIsGivenUp` | src/jitter_buffer.cpp:45-56 | once a pop has seen a gap that is still there max_delay later, the next pop moves the read position to the least number present, and for audio delivers the run there: one lost packet stalls nothing |
| `JitterHistory.GapIsWaitedFor` | src/jitter_buffer.cpp:45-56 | and not earlier: within max_delay of the first pop that saw it, a pop changes nothing |
| `JitterBuffer.Buffer.PushPacket` | src/jitter_buffer.cpp:17-35 | the sorted list ends up as the reference map with the packet added, or unchanged when it is late, a duplicate or an empty first packet |
| `JitterBuffer.Buffer.PopFrame` | src/jitter_buffer.cpp:37-106 | returns exactly the packets of the reference pop and leaves the reference state; the branches for a head behind the read position and for an incomplete frame are proved unreachable |
| `JitterBuffer.Buffer.Take` | src/jitter_buffer.cpp:61-105 | the two passes over the list deliver the reference run |
| `JitterBuffer.Buffer.Reset` | src/jitter_buffer.cpp:108-114 | back to the empty buffer |
| `H264.FindStartCode` | src/rtp_packetizer/h264_packetizer.cpp:11-26 | finds the first three- or four-byte start code, or none |
| `H264.NalsArePiecesIff` | src/rtp_packetizer/h264_packetizer.cpp:33-57 | the cut equals what lies between the start codes if and only if the data has no start code, begins with one, or has exactly as many bytes before the first code as that code is long (or three before a four-byte one); otherwise it holds more bytes |
| `H264.NalsAreTrueIff` | src/rtp_packetizer/h264_packetizer.cpp:33-57 | the cut equals the byte stream format's NAL units, which end before any trailing zero bytes, if and only if moreover no unit of the cut ends in a zero byte |
| `H264.TrailingZeroStays` | src/rtp_packetizer/h264_packetizer.cpp:47-57 | the second condition matters: in a legal stream with more zero bytes before a code than belong to it, one stays in the unit |
| `H264.NalsOfFrame` | src/rtp_packetizer/h264_packetizer.cpp:33-57 | a byte stream built from clean NAL units is cut back into those units, whichever start codes separate them |
| `H264.Pack` | src/rtp_packetizer/h264_packetizer.cpp:28-92 | the offset-driven loops produce the single units and FU-A fragments of the cut, in order |
| `H264.PayloadsFit` | src/rtp_packetizer/h264_packetizer.cpp:59-88 | every payload is non-empty and at most 1200 bytes |
| `H264.StartAndEndBits` | src/rtp_packetizer/h264_packetizer.cpp:67-87 | exactly the first fragment has the start bit and exactly the last the end bit; a fragmented unit has at least two, so none has both (section 5.8 of RFC 6184) |
| `H264.NalsNotEmpty` | src/rtp_packetizer/h264_packetizer.cpp:55-57 | no empty unit is packed |
| `H264.ToAnnexB` | src/media_track_impl.cpp:66-128 | the reassembly loop computes the fold of its per-packet step, aggregation packets included |
| `H264.FeedPayload` | src/media_track_impl.cpp:72-125 | one payload: single unit, aggregation, fragment, or ignored |
| `H264.FeedFragments` | src/media_track_impl.cpp:94-116 | a fragmented unit comes back whole, with the forbidden bit of its header cleared |
| `H264Payloads.UnitIsSent` | src/rtp_packetizer/h264_packetizer.cpp:59-88 | a unit of up to 1200 bytes is sent as it is, a longer one in fragments whose two header bytes hold its importance bits, type 28 and its type, which all but the last fill the packet, and whose pieces are the rest of the unit (section 5.8 of RFC 6184) |
| `H264Payloads.AggregateIsUnpacked` | src/media_track_impl.cpp:79-91 | an aggregation packet adds every unit in it, in order, each behind 00 00 01, for any list of units of 1 to 65535 bytes; what is cut short at its end adds nothing (section 5.7.1 of RFC 6184) |
| `H264Payloads.SingleOrIgnored` | src/media_track_impl.cpp:72-76 | a single unit is added whole; unhandled types, empty payloads and fragments without a header add nothing |
| `H264Payloads.FragmentIsTaken` | src/media_track_impl.cpp:94-116 | one fragment with any state before it: a first one begins a unit, later ones extend it if its beginning was seen, the last hands it over; without a beginning pieces are dropped and a last one adds a bare start code |
| `H264Payloads.AnyFragmentsRebuild` | src/media_track_impl.cpp:94-116 | however a sender cuts a unit into two or more fragments, it is put together again |
| `H264.RestoredIff` | src/rtp_packetizer/h264_packetizer.cpp:62-88 | a non-empty unit is restored unchanged if and only if it is carriable: of type 1 to 23 when it goes as a single unit, with forbidden bit 0, whatever its type, when it has to be fragmented |
| `H264.PackThenAnnexB` | src/rtp_packetizer/h264_packetizer.cpp:28-92 | packing carriable units and reassembling yields exactly them, in order, each behind 00 00 01 |
| `H264.FrameRoundTrip` | src/media_track_impl.cpp:66-128 | any data whose cut is carriable comes back as the units of the cut, each behind 00 00 01; those are the units of the byte stream format when the data starts right and none of them ends in a zero byte |
| `H264.UnitsRoundTrip` | src/media_track_impl.cpp:66-128 | a byte stream of clean, carriable units comes back as the same stream with three-byte start codes |
| `Vpx.DescriptorRoundTrip` | src/rtp_packetizer/vpx_descriptor.cpp:8-102 | parsing the bytes of any in-range descriptor, whatever follows, gives it back and consumes exactly them (section 4.2 of RFC 7741) |
| `Vpx.ReadDescriptor` | src/rtp_packetizer/vpx_descriptor.cpp:8-57 | the parser with its early returns computes the reference parse |
| `Vpx.ShortFormAgrees` | src/connection_impl.cpp:504-527 | wherever the full parser consumes c > 0 bytes the receiver's short form strips exactly c |
| `Vpx.ShortFormOnTruncated` | src/connection_impl.cpp:513-527 | on a descriptor that is cut short the short form drops every byte or none |
| `Vpx.Packetizer.Pack` | src/rtp_packetizer/vpx_packetizer.cpp:19-42 | produces the frame's chunks behind their descriptors and steps the picture id modulo 0x8000 |
| `Vpx.FrameRoundTrip` | src/rtp_packetizer/vpx_packetizer.cpp:50-73 | stripping the payloads and concatenating gives the frame back for every picture id |
| `Vpx.ChunksAreMarked` | src/rtp_packetizer/vpx_packetizer.cpp:20-41 | every payload is at most 1200 bytes, carries frame bytes, parses to the frame's descriptor, and only the first has the start bit |
| `Vpx.ChunksFill` | src/rtp_packetizer/vpx_packetizer.cpp:20-41 | every payload of a frame but the last is exactly 1200 bytes |
| `MediaPath.PushAllHolds` | src/jitter_buffer.cpp:17-35 | whatever the order and the duplicates, the buffer ends up holding exactly the packets that arrived, each under its own number, wrap-around included |
| `MediaPath.PopDeliversCopies` | src/jitter_buffer.cpp:37-106 | once copies, alike in number, timestamp and payload, of every packet of a frame and of the first packet of the next are there, the pop delivers exactly the frame's, in order, and moves the read position past them |
| `MediaPath.PopDeliversFrame` | src/jitter_buffer.cpp:37-106 | the frame's very packets when only those were received |
| `MediaPath.ReceivedIsSeen` | src/rtp.cpp:36-151 | datagrams that are the written packets in any order and multiplicity parse to those packets and no others |
| `MediaPath.FrameSurvives` | src/media_track_impl.cpp:66-157 | end to end for H.264, for any data whose cut is not empty and carriable: split, packed, numbered from the read position (wrap at 65535 included), written, received in any order with any duplicates, parsed, reordered and reassembled, it comes back as the units of its cut, each behind 00 00 01, which are the true units when it starts right and none of them ends in a zero byte |
| `MediaPath.UnitsSurvive` | src/media_track_impl.cpp:66-157 | in particular a byte stream of clean, carriable units comes back as the same stream with three-byte start codes |
| `MediaPath.VpxFrameSurvives` | src/connection_impl.cpp:504-534 | the same path for VP8 and VP9, datagrams included: every payload's descriptor is stripped by the receiver's short form before the packet is buffered, and the payloads of the popped run concatenate to the frame, for every picture id |
| `Rtcp.ParseOfSerialize` | src/rtcp.cpp:69-276 | parsing a written report, description, goodbye or application packet, whatever follows it, gives it back and its exact size |
| `Rtcp.CompoundRoundTrip` | src/rtcp.cpp:278-302 | parsing the concatenation of any list of written packets returns that list |
| `Rtcp.SizeIsExact` | src/rtcp.cpp:255-276 | the size computed beforehand is the size written and the length field says so |
| `Rtcp.WriteTo` | src/rtcp.cpp:198-253 | fills exactly the serialized size, or touches nothing when the buffer is too small |
| `Rtcp.ReadPacket` | src/rtcp.cpp:69-196 | the switch over packet types computes the reference parse, every rejection included |
| `Rtcp.ReadCompound` | src/rtcp.cpp:278-302 | the walk stops at the first packet that is cut short or malformed and returns those before it |
| `Rtcp.ParseOfFeedback` | src/rtcp.cpp:158-175 | a feedback packet is read with as much control information as its length field announces, or rejected |
| `Rtcp.NackRoundTripIff` | src/rtcp.cpp:321-455 | a NACK list comes back from the wire if and only if it has at most 65533 entries, where the length field wraps (section 6.2.1 of RFC 4585) |
| `Rtcp.ReadNackIs` | src/rtcp.cpp:321-455 | of a longer list the receiver reads as many entries as the wrapped length field leaves, or rejects the packet when that is none |
| `Rtcp.ReadNackItems` | src/rtcp.cpp:439-455 | the item loop yields each packet id followed by those its bit mask flags |
| `TransportCc.InsertAdds` | src/twcc.cpp:23-29 | an insertion keeps every arrival and adds the new one unless its number is there; the list has it afterwards |
| `TransportCc.InsertKeepsOrder` | src/twcc.cpp:24-29 | while arrivals lie within half the space at or after the base, the list stays strictly increasing and duplicate-free, and nothing changes if and only if the number was known |
| `TransportCc.WalkIsBounded` | src/twcc.cpp:56-80 | any report carries between 1 and 101 statuses and removes a prefix of the list |
| `TransportCc.WalkIsExact` | src/twcc.cpp:56-80 | status j is received if and only if base+j is buffered, and exactly the arrivals below the end are taken |
| `TransportCc.ReportIsExact` | src/twcc.cpp:39-95 | a report of an ordered list is exact, removes exactly the arrivals it covers, and leaves base+count mod 65536 as the next base |
| `TransportCc.ReportProgresses` | src/twcc.cpp:39-95 | every report removes an arrival or brings the next number closer to the first one, from every state |
| `TransportCc.RunTiles` | src/twcc.cpp:32-36 | over every run, late and reordered arrivals included, reports carry 1 to 101 statuses and each starts where the last ended, except when the 8-bit counter has returned to 0; the drain loop terminates with at most 200 left |
| `TransportCc.ReportKeepsFit` | src/twcc.cpp:39-95 | a report leaves the remaining arrivals ordered within half the space of the new base |
| `TransportCc.RunIsExact` | src/twcc.cpp:14-95 | in every run of timely arrivals and reports every report is exact |
| `TransportCcReports.DeltasAreExact` | src/twcc.cpp:45-79 | every arrival a report takes is reported by its distance in 250 microsecond units to the arrival before it, the first one's to the last full 64 ms: as a small delta if that lies in -128..127, else as a large one if it fits 16 bits, else without; and the reference time is the first arrival's in units of 64 ms |
| `TransportCcReports.ReportHasAllDeltas` | src/twcc.cpp:70-75 | all received numbers have a delta if and only if no two neighbouring arrivals taken are more than 32768 units apart, and none is misread if and only if none comes 1 to 128 units before the one ahead of it |
| `TransportCcReports.TimesAreReproduced` | src/twcc.cpp:45-79 | while the arrivals taken are that near, summing the deltas from the reference time reproduces the k-th received packet's time within 250 k microseconds |
| `TransportCcReports.TimesSurvive` | src/rtcp.cpp:457-524 | when they moreover come in turn, a reader of the datagram recovers the k-th time within 250 k microseconds |
| `TransportCcReports.ReportTakes` | src/twcc.cpp:39-95 | a report begins at the first arrival when the counter is 0 and else where the one before ended, goes on to the last arrival unless it has 100 statuses by then, and takes at most 101 arrivals |
| `TransportCcReports.DrainLeaves` | src/twcc.cpp:32-36 | up to 200 buffered arrivals are left alone; of more, so many are reported that 100 to 200 stay |
| `TransportCcReports.AnnouncedIff` | src/twcc.cpp:16-22 | a number is announced exactly by an element of id 4 with its two bytes, high byte first |
| `TransportCc.AnnouncedNumbers` | src/twcc.cpp:16-22 | what this receiver takes from the block a sender builds, for every choice of extension ids with a stream id of at most 16 bytes: the transport number if its id is 4, and before it a two-byte stream id if that is sent under id 4 |
| `TransportCc.TransportNumberArrives` | src/twcc.cpp:16-22 | so, with a stream id of at most 16 bytes, the sender's transport number and no other is announced if and only if its id is 4 and no two-byte stream id shares it, or a two-byte stream id under id 4 happens to spell it |
| `TransportCc.Generator.HandleIncoming` | src/twcc.cpp:14-37 | the method inserts each announced number and drains, as the reference does |
| `TransportCc.Generator.MakeReport` | src/twcc.cpp:39-95 | the nested loops over the list compute the reference report and state |
| `TransportCc.Generator.WalkList` | src/twcc.cpp:55-80 | the loops' statuses and stopping place are the reference walk's |
| `TransportCc.Generator.FillGap` | src/twcc.cpp:60-65 | the inner loop reports the gap as missing or stops at the limit |
| `TransportCc.Generator.InsertArrival` | src/twcc.cpp:23-29 | binary search and insertion as in the reference |
| `TransportCc.Generator.DrainReports` | src/twcc.cpp:32-36 | reports until at most 200 arrivals are left |
| `TransportCcWire.BuildThenRead` | src/rtcp.cpp:457-524 | a reader written from section 3.1 of draft-holmer-rmcat-transport-wide-cc-extensions-01, applied after the RTCP parser, recovers base, count, reference time, counter and every status and delta, small deltas as unsigned bytes; padding is stripped exactly |
| `TransportCcWire.ReportSurvives` | src/rtcp.cpp:491-524 | for every report made: each status survives, and each delta is read as it is, or exactly 256 units too high if it is small and negative |
| `TransportCcWire.ReorderedIsMisread` | src/rtcp.cpp:501-503 | such reports are made: two packets 250 microseconds apart that arrive in the other order give a delta of -1, which is read as 255 |
| `TransportCcWire.TimesReadIff` | src/rtcp.cpp:491-524 | a reader computes the arrival times a report stands for if and only if no delta in it is small and negative |
| `TransportCcWire.FeedbackSurvives` | src/rtcp.cpp:491-524 | the same for any encodable feedback whose small deltas fit a signed byte |
| `TransportCcWire.ReadSymbolsOfChunks` | src/rtcp.cpp:496-520 | the two-bit chunks read back as the statuses |
| `TransportCcWire.FillChunk` | src/rtcp.cpp:497-515 | or-ing symbols into place builds the packed chunk |
| `TransportCcWire.BuildStatus` | src/rtcp.cpp:491-524 | all chunks, then all deltas |
| `TransportCcWire.BuildDatagram` | src/rtcp.cpp:457-489 | header, control information, padding count and final length |
| `Retransmission.AnsweredIff` | src/connection_impl.cpp:352-360 | after any number of sends, a request finds a packet if and only if its number is one of the last min(128, sent), and then that very packet |
| `Retransmission.RestoredIff` | src/connection_impl.cpp:1849-1863 | building, parsing and rewriting a retransmission gives back number, timestamp, source, type and payload, marker cleared, if and only if the payload is not empty and the repair type is below 128 (section 4 of RFC 4588) |
| `Retransmission.RtxIsAPacket` | src/connection_impl.cpp:1819-1834 | the bytes assembled by hand are the serialization of a well-formed RTP packet, the top bit of the repair type becoming its marker |
| `Retransmission.Stream.Send` | src/connection_impl.cpp:352-360 | numbers the payload with the next 16-bit number and remembers it; the ring is that of everything sent |
| `Retransmission.Stream.Answer` | src/connection_impl.cpp:1806-1839 | answers exactly the requests for retained packets, with their bytes, and steps the repair number only then |
| `Retransmission.Stream.AnswerAll` | src/connection_impl.cpp:1804-1839 | answers the numbers of a request in turn |
| `Retransmission.AnswersAsked` | src/connection_impl.cpp:1804-1839 | every datagram sent answers a number asked for |
| `Retransmission.AskedIsAnswered` | src/connection_impl.cpp:1804-1839 | every number asked for that is still remembered is answered |
| `Retransmission.SlotHoldsLast` | src/rtp_stream.hpp:32-38 | each of the 128 slots holds the last packet sent whose number falls into it |
| `Recovery.MissingAreRequested` | src/nack_generator.cpp:60-114 | when the bookkeeping has seen what got through of a frame and of the next frame's first packet, a poll requests exactly the missing packets |
| `Recovery.RoundCovers` | src/connection_impl.cpp:1804-1839 | originals that got through and the answers to a request for the rest, in any order with any duplicates, cover all packets and bring nothing else |
| `Recovery.CoveredFrameIsDelivered` | src/connection_impl.cpp:1849-1863 | however many rounds of requests it takes: once each packet is there, original or repair, the datagrams parse, are rewritten, buffered and popped as the frame's payloads in order |
| `Recovery.LostPacketsAreRecovered` | src/connection_impl.cpp:1804-1863 | end to end: whichever packets of a frame were lost, while the send history holds them one poll's requests, sent as a NACK packet, read, answered, parsed and rewritten, bring the frame back whole and in order |
| `Recovery.LostFrameSurvives` | src/connection_impl.cpp:1804-1863 | the same up to the rebuilt H.264 byte stream, for any data whose cut is not empty and carriable |
| `Recovery.LostVpxFrameSurvives` | src/connection_impl.cpp:1804-1863 | the same for VP8 and VP9, up to the frame's bytes |
| `ReceiverStats.HighestIsTrueIff` | src/ssrc_context.hpp:38-45 | tracking a packet brings the extended maximum to the true maximum if and only if a packet ahead of it is less than 0x8000 ahead or in the same 65536 block, and a late one has low 16 bits at most the maximum's and no more than 0x8000 below |
| `ReceiverStats.RunMaxIsTrue` | src/ssrc_context.hpp:33-46 | while every packet is in that reach the extended maximum is the largest true index seen |
| `ReceiverStats.StepKeepsInv` | src/ssrc_context.hpp:33-101 | no step decreases the extended maximum or breaks the accounting |
| `ReceiverStats.RunIsSane` | src/ssrc_context.hpp:33-110 | over every run of packets and report ticks: the extended maximum never decreases, an interval with expected > 0 has received >= 1, and the loss fraction fits in eight bits |
| `ReceiverStats.FractionIsShare` | src/ssrc_context.hpp:103-110 | the fraction is the lost share of the interval in 256ths rounded down, or 0 when nothing was lost (section 6.4.1 of RFC 3550) |
| `ReceiverStats.GapIffJump` | src/ssrc_context.hpp:66-70 | the gap test after a packet holds if and only if the extended maximum moved up by more than one |
| `ReceiverStats.JitterStaysBounded` | src/ssrc_context.hpp:55-61 | when no transit difference exceeds M the estimate stays within [0, 16 M] over every run (section A.8 of RFC 3550) |
| `ReceiverStats.JitterFitsInt` | src/ssrc_context.hpp:55-61 | while no transit difference exceeds 0x7FFFFFF, about 25 minutes, no intermediate value of the estimate leaves a 32-bit int, in any run |
| `ReceiverStats.LargerTransitsOverflow` | src/ssrc_context.hpp:55-61 | the bound is exact: differences one larger lead to an overflow |
| `ReceiverStats.Context.TrackPacket` | src/ssrc_context.hpp:33-64 | the fields end up as the reference step's, invariant kept |
| `ReceiverStats.Context.FractionLost` | src/ssrc_context.hpp:103-110 | the eight-bit cast loses nothing |
| `ReceiverStats.Context.Advance` | src/ssrc_context.hpp:98-101 | the interval starts anew, invariant kept |
| `ReceiverStats.Context.ReportedMax` | src/ssrc_context.hpp:82-84 | the cast to 32 bits keeps the highest number in the low half and its cycles modulo 65536 in the high half |
| `ReceiverHistory.CountsAreExact` | src/ssrc_context.hpp:33-46 | in every run the counts, expected and received, are of the packets that arrived, all of them and those before the last report, and the times are the last packet's |
| `ReceiverHistory.TransitIsTrue` | src/ssrc_context.hpp:55-60 | the difference is the true one of two arrivals and two timestamps, across 32-bit wraps, as long as neither clock moved by half its range (section 6.4.1 of RFC 3550) |
| `ReceiverHistory.JitterMovesASixteenth` | src/ssrc_context.hpp:55-61 | each packet after the first moves the estimate by the difference less a sixteenth of itself, rounded to the nearest (section A.8 of RFC 3550) |
| `MpegTs.ChunkingDoesNotMatter` | src/mpegts_demuxer.hpp:54-136 | for a stream of 188-byte packets that start with 0x47, cut into chunks in any way, the packets handled are exactly the complete packets of all bytes fed, in order and once each, and fewer than 188 bytes stay unread |
| `MpegTs.ProcessAligned` | src/mpegts_demuxer.hpp:126-166 | on aligned bytes the search finds each packet in turn |
| `MpegTs.Demuxer.Parse` | src/mpegts_demuxer.hpp:54-83 | consumes the whole chunk, or leaves the caller's count and everything else alone when a frame waits or the chunk is empty; packets and tail are those of the reference |
| `MpegTs.SearchIsSound` | src/mpegts_demuxer.hpp:137-166 | whatever the bytes, a packet found is complete and followed by a sync byte or by nothing, and what is kept is a suffix of what was to be read |
| `MpegTs.SearchIsFirst` | src/mpegts_demuxer.hpp:137-166 | the search settles on the first sync byte unless a packet later there is neither another nor the end; then it goes on behind that place, whatever stands before it |
| `MpegTs.SearchKeeps` | src/mpegts_demuxer.hpp:137-166 | what is kept when no packet is found begins with the first sync byte, or is everything when there is too little to search |
| `MpegTs.GarbageIsSkipped` | src/mpegts_demuxer.hpp:126-166 | bytes without a sync byte before an aligned stream do not change its packets |
| `MpegTs.Demuxer.ProcessPackets` | src/mpegts_demuxer.hpp:126-135 | hands over the packets found until none is left |
| `MpegTs.Demuxer.SeekSync` | src/mpegts_demuxer.hpp:137-166 | terminates on any bytes and stops at a sync byte followed by another one a packet later, or by nothing yet, dropping what cannot start a packet |
| `TableSections.SplittingDoesNotMatter` | src/mpegts_demuxer.hpp:264-313 | sections spread over continuing payloads in any way come out as those of the joined bytes |
| `TableSections.CutContinues` | src/mpegts_demuxer.hpp:288-313 | bytes that arrive later are cut as if they had been there from the start |
| `TableSections.CutRests` | src/mpegts_demuxer.hpp:288-313 | what is kept holds no whole section |
| `TableSections.SectionsComeOut` | src/mpegts_demuxer.hpp:288-313 | sections standing one behind the other come out whole and in order, and stuffing, a bad length or a section's beginning behind them decides what is kept (section 2.4.4 of ISO/IEC 13818-1) |
| `TableSections.StartIsCutBehindPointer` | src/mpegts_demuxer.hpp:238-286 | a starting payload is cut from behind its pointer field and the bytes that points over |
| `TableSections.ContinuationIsCutBehindKept` | src/mpegts_demuxer.hpp:238-286 | a continuing payload is cut behind what was kept, and needs something kept |
| `TableSections.SectionBuffer.ParsePsi` | src/mpegts_demuxer.hpp:238-286 | a starting payload, from where its pointer field says, replaces what was kept, a continuing one extends it, and overflow, stuffing or a bad length gives the stream up |
| `TableSections.SectionBuffer.ProcessSections` | src/mpegts_demuxer.hpp:288-313 | the loop hands on the reference cut and keeps its rest |
| `SectionCheck.AcceptedIffZero` | src/mpegts_demuxer.hpp:318-332 | the check word matches if and only if the checksum over the whole section, check word included, is zero |
| `SectionCheck.BitIsLinear` | src/mpegts_demuxer.hpp:224-236 | one register step is linear over exclusive or |
| `SectionCheck.CheckValue` | src/mpegts_demuxer.hpp:224-236 | of the nine ASCII digits from 1 on the checksum is 0x0376E6E7, the check value of CRC-32/MPEG-2 |
| `SectionCheck.FeedWord` | src/mpegts_demuxer.hpp:224-236 | feeding four bytes equals 32 steps of the register with their word xored in |
| `SectionCheck.CalculateCrc32` | src/mpegts_demuxer.hpp:224-236 | the double loop computes the checksum |
| `SectionCheck.CheckSection` | src/mpegts_demuxer.hpp:316-332 | accepts exactly the sections of at least four bytes whose whole checksum is zero |
| `Session.SectionIsMirrored` | src/rtp_transceiver.cpp:40-195 | through offer and answer the answerer ends up sending exactly when it wanted to and the offerer wanted to receive, and receiving the other way round, neither when the offerer stopped or the codecs differ; the offerer mirrors it, and an active section keeps the offered payload type (section 6 of RFC 3264) |
| `Session.MatchIff` | src/sdp.cpp:1767-1775 | codecs match exactly when name, apart from case, clock rate, channels and, for H.264, profile agree |
| `Session.Transceiver.ToOffer` | src/rtp_transceiver.cpp:40-98 | the section offered, refused when stopped |
| `Session.Transceiver.ToAnswer` | src/rtp_transceiver.cpp:114-152 | the section answered, with the first matching codec or else the first offered |
| `Session.Transceiver.FromRemoteOffer` | src/rtp_transceiver.cpp:154-176 | direction and payload type taken from the offer, inactive without a matching codec, nothing else changed |
| `Session.Transceiver.FromRemoteAnswer` | src/rtp_transceiver.cpp:178-195 | direction taken from the answer, inactive without a matching codec, payload type kept |
| `Session.Transceiver.Stop` | src/rtp_transceiver.cpp:26-32 | only the stopped flag changes |
| `OfferAllocation.PlanIsSound` | src/connection_impl.cpp:899-967 | in an offer's plan kept sections stay at their index under their mid, requests take port-0 sections, lowest first, before any is appended, and the rest are carried over (section 5.2.2 of RFC 8829) |
| `OfferAllocation.PlanIsExact` | src/connection_impl.cpp:899-967 | every entry, from mids and ports alone: a section whose mid a transceiver has is that transceiver's, the first one's; a live one nobody has is carried over; a port-0 one nobody has is given to a request or carried over; what is appended was requested |
| `OfferAllocation.RequestsAreServedInOrder` | src/connection_impl.cpp:940-958 | the data channel is served first, then the transceivers in order, and every free section is taken before a later or an appended one |
| `OfferAllocation.PlacedOnce` | src/connection_impl.cpp:899-967 | no transceiver, and no data channel, is given two sections |
| `OfferAllocation.EveryRequestIsPlaced` | src/connection_impl.cpp:940-957 | every new transceiver that is not stopped, and a wanted data channel, has a section |
| `OfferAllocation.Allocate` | src/connection_impl.cpp:878-967 | with every mid present and distinct, the sorted entries are the plan, index i at place i, exactly when the local description has no data channel section; with one its index comes twice |
| `OfferAllocation.ReadLines` | src/connection_impl.cpp:884-901 | for every description: each present mid leads to the last section that has it, the reusable sections are exactly the named media sections with port 0, and the data channel's is the last named application section |
| `OfferAllocation.KeepSections` | src/connection_impl.cpp:905-925 | each transceiver with a known mid keeps that section, the first one when several have the mid |
| `OfferAllocation.NextIndex` | src/connection_impl.cpp:932-940 | the least reusable index, or the next appended one |
| `OfferAllocation.PlaceSctp` | src/connection_impl.cpp:942-949 | the data channel keeps its section or requests one |
| `OfferAllocation.PlaceNew` | src/connection_impl.cpp:951-958 | new transceivers are served in order |
| `OfferAllocation.FillGaps` | src/connection_impl.cpp:960-962 | every section left is carried over |
| `OfferAllocation.SortByIndex` | src/connection_impl.cpp:964-966 | a permutation in ascending order of index |
| `Mids.FilledIsDistinct` | src/connection_impl.cpp:989-1010 | present mids stay, chosen ones are new, and no two sections share a mid |
| `Mids.SomeAreFree` | src/connection_impl.cpp:996-1005 | with fewer than 65536 mids in use the search for a free number ends, the counter's wrap included |
| `Mids.ChooseMid` | src/connection_impl.cpp:996-1005 | the loop finds the first free decimal number from the counter on |
| `Mids.NextMidIsFirst` | src/connection_impl.cpp:996-1005 | the number chosen is the first free one from the counter on, wrapping after 65535, and the counter is left behind it |
| `Mids.FillIn` | src/connection_impl.cpp:989-1010 | names the sections in order and leaves the counter after the last number tried |
| `Negotiation.OfferSections` | src/connection_impl.cpp:1036-1079 | an offer has one section per planned entry, all mids present and distinct |
| `Negotiation.RecordedMlines` | src/connection_impl.cpp:1077 | each transceiver's recorded m-line index is the place of its own section; those left out are untouched |
| `Negotiation.LeftOutIff` | src/connection_impl.cpp:907-957 | a transceiver is left out exactly when it is new and stopped, or no section has its mid, or an earlier transceiver holds that section |
| `Negotiation.OfferPassesIff` | src/connection_impl.cpp:705-728 | an offer passes the checks of set_local_description if and only if every transceiver it leaves out has no recorded m-line, or one that is still there under its mid |
| `Negotiation.FirstOfferPassesIff` | src/connection_impl.cpp:705-728 | in terms of the connection: before any description is set, an offer passes if and only if no stopped transceiver was given, by an earlier offer, a place beyond the number of running transceivers plus a wanted data channel |
| `Negotiation.StoppedAfterOfferFails` | src/connection_impl.cpp:705-728 | the checks do fail: add a transceiver, make an offer, stop it, make another offer, and set_local_description refuses that one |
| `Negotiation.SectionHolder` | src/connection_impl.cpp:767-787 | sections of an offer are given to different transceivers of their kind, and the answer finds each one's transceiver under its mid |
| `Negotiation.ExchangeSucceedsIff` | src/connection_impl.cpp:683-860 | an exchange between idle connections succeeds if and only if the offer has a live section, without which it has no BUNDLE group, and every transceiver it leaves out is still where an earlier offer recorded it |
| `Negotiation.FirstExchangeSucceedsIff` | src/connection_impl.cpp:683-860 | in terms of the offerer: a first exchange succeeds if and only if it has a running transceiver or wants a data channel, and no stopped one was given a place that is gone |
| `Negotiation.SectionsAreMirrored` | src/connection_impl.cpp:683-860 | for every section of every exchange: same mids in the same order; the answerer sends exactly when it wanted to and the running offerer with a matching codec wanted to receive, and receives the other way round, the offerer the opposite; one shared payload type when active, inactive and stopped without a transceiver at the answerer; a data channel section answered as offered; a carried-over one dead in offer and answer (section 6 of RFC 3264) |
| `Negotiation.SectionsAreSeparate` | src/connection_impl.cpp:767-787 | different sections belong to different transceivers at both ends |
| `Negotiation.OwnSectionsIff` | src/connection_impl.cpp:705-728 | before any description is set, an offer passes and each section's mid ends up on its own transceiver alone if and only if no stopped transceiver was given a place by an earlier offer |
| `Negotiation.RolesAreSplit` | src/connection_impl.cpp:599-670 | exactly one side is ICE controlling and exactly one opens DTLS; they agree on running SCTP if and only if not just the answerer asked for a data channel |
| `Negotiation.OnlyAnswererWantsData` | src/connection_impl.cpp:599-670 | and they do disagree: with one transceiver at the offerer and only a wanted data channel at the answerer the exchange succeeds and the answerer alone runs SCTP |
| `Descriptions.NotAllowedIsRefused` | src/connection_impl.cpp:683-762 | a description the signalling state does not allow is refused and changes nothing |
| `Descriptions.LocalOfferIs` | src/connection_impl.cpp:703-731 | a local offer is taken if and only if every recorded transceiver finds its section under its mid; those without a mid take it, and nothing else changes |
| `Descriptions.RemoteOfferIs` | src/connection_impl.cpp:763-819 | a remote offer is refused for want of a BUNDLE group, for a data channel outside it or for a section without a mid, in this order, and for nothing else |
| `Descriptions.SectionGoesToFirst` | src/connection_impl.cpp:784-795 | each section goes to the first running transceiver of its kind that has none |
| `Descriptions.RemoteAnswerIs` | src/connection_impl.cpp:820-851 | after an answer each transceiver's direction holds what both sides want, and one left inactive or without a section has stopped |
| `Descriptions.OfferBundlesLive` | src/connection_impl.cpp:1081-1088 | an offer bundles exactly its live sections |
| `Descriptions.AnswerIs` | src/connection_impl.cpp:1100-1175 | an answer is made exactly to an offer in place, has its mids in its order, bundles all of them, and takes the active role unless the offer does |
| `Descriptions.RolesAre` | src/connection_impl.cpp:599-670 | a side opens DTLS exactly when the other states a role other than active, and runs SCTP exactly when it wants a data channel or the other has a section for one |
| `Descriptions.OfferedSectionIs` | src/rtp_transceiver.cpp:40-98 | kind, port, direction and codecs of an offered section, the retransmission format included |
| `Descriptions.AnsweredSectionIs` | src/rtp_transceiver.cpp:114-152 | a section is accepted exactly when its transceiver runs and one side wants to send what the other wants to receive, with the first matching offered codec or else the first offered |
| `Descriptions.AfterOfferIs` | src/rtp_transceiver.cpp:154-176 | the direction after an offer, bit by bit, and the payload type taken from a matching codec |
| `CallHistory.RunIsConsistent` | src/connection_impl.cpp:683-860 | in every run of public calls on one connection, close() included, the signalling state determines which descriptions can be in place, their types, and the ICE role; they are in place if and only if close() was not called after one had been set |
| `CallHistory.DescriptionsStay` | src/connection_impl.cpp:683-860 | a description once set stays until close() and is never replaced by another, not even afterwards |
| `CallHistory.OneSideControls` | src/connection_impl.cpp:731-858 | two connections that hold each other's descriptions never both control and never both yield, whatever each did before |
| `CallHistory.StableIsReady` | src/connection_impl.cpp:767-795 | whatever was called on it, a new connection that is still stable and was only offered named sections has no description and no transceiver with a section |
| `CallHistory.NamelessOfferLeavesTraces` | src/connection_impl.cpp:783-795 | the excluded case: an offer whose second section has no mid fails after the first was given out, and the stable connection keeps that assignment |
| `CallHistory.HistoriesMeet` | src/connection_impl.cpp:683-860 | for any two such histories of calls, the first exchange succeeds if and only if there is something to offer and no stopped transceiver was given a place that is gone, and then every section agrees at both ends, one side controls and the other opens DTLS |
| `Connection.Connection.AddTransceiver` | src/connection_impl.cpp:1202-1266 | appends a transceiver without a section, or refuses a direction that neither sends nor receives |
| `Connection.Connection.CreateOffer` | src/connection_impl.cpp:866-1098 | returns the reference offer and records every placement, nothing else changing; with a data channel section in the local description two sections come out under one mid |
| `Connection.Connection.BuildSections` | src/connection_impl.cpp:1036-1079 | the sections in order, and each placed transceiver's index |
| `Connection.Connection.CreateAnswer` | src/connection_impl.cpp:1100-1175 | the reference answer, none without a remote offer |
| `Connection.Connection.SetLocalDescription` | src/connection_impl.cpp:683-738 | new state and error are the reference's: state check, section checks, mids taken, role set |
| `Connection.Connection.SetRemoteDescription` | src/connection_impl.cpp:740-860 | new state and error are the reference's; a section without a mid fails after the sections before it were given out |
| `Connection.Connection.Close` | src/connection_impl.cpp:1569-1600 | every transceiver is stopped and dropped and both descriptions are reset, while the signalling state stays |
| `Connection.Connection.TakeMids` | src/connection_impl.cpp:721-724 | placed transceivers without a mid take their section's |
| `Connection.Connection.AssignSections` | src/connection_impl.cpp:767-819 | each audio or video section goes to the first transceiver that can take it |
| `Connection.Connection.SettleSections` | src/connection_impl.cpp:821-851 | each transceiver settles with the answer for its mid, or stops |
| `Connection.Connection.ChooseRoles` | src/connection_impl.cpp:599-670 | which side opens DTLS, and whether SCTP runs |
| `Simulcast.ParseOfPrint` | src/sdp.cpp:605-675 | the printed attribute reads back as the same nested lists with the same pause marks, for all plain layers (section 5.1 of RFC 8853) |
| `Simulcast.PrintedForm` | src/sdp.cpp:1226-1255 | alternatives are separated by commas, layers by semicolons, and a tilde marks a paused one |
| `Simulcast.TokenParsesIff` | src/sdp.cpp:611-624 | a name free of separators reads back if and only if it is marked paused, or is there and does not start with the mark |
| `Simulcast.LayersParse` | src/sdp.cpp:605-637 | printed layers read back, for any number of layers and alternatives |
| `Simulcast.WriteAttribute` | src/sdp.cpp:1242-1255 | the attribute's text |
| `Simulcast.WriteLayers` | src/sdp.cpp:1226-1240 | the comma-then-replace loop prints the layers joined by semicolons, empty ones left out |
| `Simulcast.ReadLayers` | src/sdp.cpp:605-637 | the splitting loops compute the reference parse |
| `Simulcast.ReadAttribute` | src/sdp.cpp:639-675 | the keyword loop computes the reference parse |

## Left out

- Sockets, the ICE agent, DTLS, SCTP, libsrtp, timers, coroutines and executors: foreign code. The clock is an argument or, for
  a header extension, a list of readings; timers and callbacks are not part of this model.
- The RTP/RTCP demultiplexing in `do_on_rtp_rtcp_packet`, statistics reports, keyframe requests, REMB and SDES text: routing and
  easy members.
- The SFU send path `rewrite_rtp_packet`: it advances `seq` without filling the history ring, so the retransmission result is
  about the ordinary send loop only.
- MPEG-TS packet headers, continuity counters, PAT/PMT and PES parsing and the frame queue. A transport packet is handed on whole,
  and a frame waiting to be returned is an argument of `Parse`.
- The rest of SDP text: parsing and printing of descriptions, fmtp parameter edits, candidates, msids, SSRC lines, LS groups. A
  codec's profile is a field instead of a substring of its parameters.
- `ssrc` maps, header-extension maps and tracks that `set_remote_description` fills in besides directions, mids and codecs.
- Shared ownership: transceivers are distinct objects held by one connection, and streams and buffers have one owner.
- Overflow of 64-bit counters, and the 32-bit wrap of the jitter buffer's read position (two 65536 blocks below 2^32 are kept
  free), are not reached in practice and are excluded; the 8-, 16- and 32-bit unsigned wraps that are reached are modelled.
- ReceiverStats.Context.TrackPacket: the estimate is an unbounded integer. It is the source's `int` wherever nothing overflows,
  which is ReceiverStats.JitterFitsInt; what C++ does on overflow is undefined.
- JitterBuffer.RunIsSafe: runs without `reset`, which forgets what was buffered.
- MediaPath.FrameSurvives: the buffer is empty and past its first packet when the frame arrives; an empty first payload is a case
  of JitterBuffer.Buffer.PushPacket. What an uncarriable unit becomes is H264.RestoredIff.
- MediaPath.VpxFrameSurvives: the same state of the buffer.
- Recovery.LostPacketsAreRecovered: the same state of the buffer, nothing older is missing, and the first packet of the next frame
  gets through, without which the loss at the end of a frame is not noticed. Several rounds are Recovery.CoveredFrameIsDelivered.
- TransportCc.RunIsExact: arrivals within half the sequence space at or after the next number to report. Without that the order
  the list is kept in is not transitive; TransportCc.RunTiles and TransportCc.WalkIsBounded hold for arbitrary arrivals.
- TransportCc.AnnouncedNumbers: a stream id of at most 16 bytes, when one is sent; with a longer one the block does not read back
  as sent, which is RtpExtension.SentBlockReadsIff.
- TransportCcReports.TimesSurvive: arrivals no more than 8.2 seconds apart; one further apart is reported without a delta and so
  without a time.
- JitterHistory.GapIsGivenUp: the clock does not go back. JitterHistory.PopIsExact holds for any readings.
- Retransmission.Stream.Answer: one stream, whose media source the request names. The code looks through every stream and also
  takes a request for source 0, answering from the first stream of each transceiver that holds the number.
- ReceiverStats.JitterStaysBounded: transit differences stay within M, which is assumed of the clocks.
- NackGenerator.Ring.constructor: a ring size that divides 65536 and is at most 16384; the two size lemmas show when that is
  needed. The code uses 1024.
- Mids.FillIn: at most 65536 sections, since the loop in the code has no other way to end once every 16-bit number is taken.
- CallHistory.StableIsReady: codecs are those made from the supported formats, never one called "rtx".
- Session.SectionIsMirrored: codecs are those made from the supported formats, never one called "rtx".
- OfferAllocation.Allocate: only safety, not the plan, is stated for a local description with missing or repeated mids.

Where the code and its comments differ, the code is followed: the NACK delay is stored but never used; the test for a frame whose
next packet has the same timestamp can never succeed; the video wait is not restarted after a delivery, so it is no minimum per
frame; a report carries up to 101 statuses although its limit is 100; a starting table payload drops the bytes its
pointer field skips instead of completing the section they end; an existing data channel section is offered twice; no signalling state leads
back to stable, so a connection negotiates once, and `close` leaves the state as it was.
