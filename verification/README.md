# A model of turbulence's reliable channel

turbulence turns unreliable, unordered packets into a reliable, ordered byte stream. This project models
that channel from the byte ring up to two endpoints joined by a bad network, and proves what the channel is
for: what one side reads is always a prefix of what the other side wrote.

The model has three tiers.

* **Code tier.** The classes `RingBuffer`, `SendWindow`, `RecvWindow`, `BandwidthLimiter`, `Task`,
  `BincodeChannel` and `CompressedChannel` follow the code branch by branch: wrapping `u32` positions compared
  by the code's own non-transitive order, storage in an array behind two cursors over `[0, 2 * capacity)`, lists
  edited in place, packets as bytes. The methods of the two windows and of the task are proved against functions of
  the unbounded tier; those of the ring against its cells in stream order; those of the limiter against the log of
  what it was charged for; those of the framing channels against the messages accepted and handed on.
* **Unbounded tier.** `SendSpec`, `RecvSpec` and `Endpoint` say what the operations do when positions are
  integers. Their lemmas say what that means: acknowledging removes exactly the named positions, receiving
  is set union, the range lists keep their invariants.
* **Protocol tier.** `Flow` (one direction of the stream), `System` (two endpoints and two bags of packets,
  over all runs) and `WireSystem` (the same with every packet crossing as bytes of wrapping positions) carry
  the whole-run results. `NoStall` shows, over wrapping positions, that no reachable state is a dead end as long
  as opposite windows are small enough together; `Wedge` and `WedgeReached` show that this bound is exact.
  `Messages` puts the framing channels on top.

`RingInterleaving` and `EventWatch` are separate step systems for the two concurrent structures.

## Reading the model

* The writer and reader halves of a ring share one buffer; here both halves are methods of that object, and
  `SendWindowWriter` and `RecvWindowReader` are methods of the windows. Concurrent access to the ring by both
  sides is the subject of `RingInterleaving`, where each load, each cell copy and each cursor store is a
  step of its own.
* Each window object has a ghost field `state`, the unbounded state it stands for. The contract of a method
  gives the new `state` as a function of the old one.
* A packet in flight stays in its bag when it is delivered, so that it can be delivered again, and leaves it
  only when it is lost. A step may use any packet of the bag, which is reordering.
* Time enters in one place: the limiter's clock. For the protocol, whether there is bandwidth is a free
  choice at each send (`credit`), and which entries are due for a resend is a free choice too.
* The library binary search is written as a loop that halves the list and stops with `None` at an undefined
  comparison, where `stream_cmp(..).unwrap()` panics. Versions of the library differ in the comparisons they make
  after the first one, which is always with the middle of the list.
* `f64` credit is `real`. Lengths written as `i16` are modelled bit for bit; negating `i16::MIN` is given its
  wrapping meaning, and `Wire.NegationOverflowsExactly` says which packets ask for it.
* Handling a packet yields an `Outcome`: refused, handled, or panicked. `Task.Panics` and `Task.Locates` say of a
  packet whether the search for it makes an undefined comparison, or finds the place the integers give.
* A task keeps a ghost `trace` of the packets of data it sent and the time that passed; its limiter's log is always
  the bill for that trace, so `Task.Metered` bounds what goes on the wire.
* Preconditions on settings: packet capacity at least 10, so that an acknowledgement fits, and an allowance that is a
  `u32`.
* `RingInterleaving` lets a side store its cursor only over cells it has copied. `Writer::advance` does not check
  that; the windows respect it. `SendWindow.SendWindow.Write` advances over exactly what it has just written, the
  receive window only over positions copied before or just now (`RecvSpec.AdvancesOverStored`), and the send window
  frees only positions that were sent, hence read out of the ring (`SendSpec.AckFrees`).
* Results stated for the stream from endpoint a to endpoint b hold for the other stream too: every step of
  `System` may be taken by either side, and swapping the two gives the same statement.
* Automatic induction is off for every lemma, so each proof is the one written out.
* The two framing channels share one reader, since their read halves differ only in the one-byte tag.

## Where the code is weaker than its documentation

* `src/windows.rs:389-391` does not drain the regions before the insertion point. For arbitrary packets the
  documented invariant of the unready list can be lost; `RecvSpec.StrandedRegion` is an instance and
  `RecvSpec.DocumentedKept` gives the exact condition on the packet. What holds whatever arrives is
  `RecvSpec.SplitValid`: each region is wholly below or wholly above the receive position, and the last one is above.
  Between two endpoints that both run this code it is never lost (`System.NothingStranded`): what is sent or
  resent is always a suffix of a segment whose beginning is stored.
* The windows accept any size up to 2^31 - 1 (`src/windows.rs:91`, `src/windows.rs:263`), but a send window and the
  receive window opposite must span less than 2^31 positions *together*. Otherwise everything sent can be stored
  and read while the acknowledgement of the first range was lost; that range then starts half a turn or more before
  the window end, and `src/windows.rs:317` drops every repetition of it without an answer. The send window stays
  full for good (`Wedge.WedgedForever`), or bytes already accepted are never delivered (`Wedge.StarvedForever`).
  Both are reached from a fresh start. `WedgeReached.DrainsExactly` is the exact condition: the connection can drain
  from every reachable state if and only if both sums are below 2^31. Safety does not depend on it.
* `src/reliable_bincode_channel.rs:157-159` leaves two zero bytes, and whatever was written of the message, in
  the write buffer when serializing fails. The peer always takes the two bytes for an empty message that was never
  sent, whatever follows (`BincodeChannel.FailedSendIsDelivered`). The messages sent later arrive in step exactly
  when the bytes written after the header are themselves encoded frames, which are then delivered too; in
  particular when there are none (`BincodeChannel.FailedSendInStep`). The round trip is proved for serializations
  that succeed.
* Positions are told apart only within half a turn. For a packet in flight, `Lifetime.DataExact` and
  `Lifetime.AckExact` say exactly when the wrapping code does what the integers do. Data that starts too far before
  the window end is neither stored nor answered; data from before the last turn is taken for new data, of which
  `Lifetime.StalePacketAccepted` is an instance. The whole-run results over wrapping positions assume a packet
  lifetime: when a packet is delivered, the stream has moved less than 2^31 positions past its start.
* The searches in the unready list compare region ends with positions ahead in the window. `RecvWindow.InReachExactly`
  says exactly when all these comparisons are defined and decide as the integers do; the documented invariant is
  enough. Dead regions left behind by arbitrary packets can be out of reach once the stream has moved on, and such a
  window is reached from a fresh one of 2^31 - 1 bytes by five packets and one read, each packet being received
  correctly: one byte each at 2, 4, 6 and 2^31 - 3, then ten bytes at 0, which are read. A byte at 2^31 + 7 then makes
  the code panic at the first comparison (`RecvWindow.SearchUndefined`), and one at 2^31 + 8 is put before all four
  regions instead of after them (`RecvWindow.SearchMisorders`). `RecvWindow.RecvWindow.Recv` has no precondition on
  the list: it panics exactly when `RecvWindow.Panics`, and otherwise gives the right answer; the window is then right
  too whenever `RecvWindow.Locates`. Between two endpoints that both run this code this is always so
  (`Lifetime.DataExact`).
* A message whose encoding is empty, such as the unit value, is accepted by the compressing channel and flushed, and
  never received: `src/compressed_bincode_channel.rs:180-188` waits for more as soon as the chunk is used up.
  `CompressedChannel.ParseSerializeExactly` and `CompressedChannel.ChannelRoundTrip` say that messages come back
  exactly when none of them is encoded as no bytes, for every self-delimiting codec.

## Model

| member | source | states |
|---|---|---|
| System.EndToEnd | src/reliable_channel.rs:402-593 | in every state of every run over a network that loses, repeats and reorders packets, what each application has read is a prefix of what the other wrote |
| WireSystem.WireEndToEnd | src/reliable_channel.rs:489-593 | every state reached with packets crossing as bytes of wrapping positions, each delivered before the stream has moved 2^31 positions past its start, is reached by the unbounded protocol; no packet in flight is refused; reads are prefixes of writes |
| WireSystem.StepAgrees | src/reliable_channel.rs:489-593 | one step over wrapping positions is the same step over integers, or, for data that starts half a turn or more before the window end, changes nothing; the invariant and the window sizes are kept |
| System.NothingStranded | src/windows.rs:250-257 | in every reachable state the documented invariants of both unready lists hold |
| System.FlowControl | src/reliable_channel.rs:58-62 | in every reachable state the unacked start is at most the receive position, which is at most the send position; every position the receiver lacks is unacked and its byte still buffered; the sender goes at most the allowance past the receiver's window end |
| System.HorizonNeverFalls | src/reliable_channel.rs:504-515 | over every run, by whichever endpoint the steps are taken, send position plus believed room never decreases |
| System.SegmentsFillInOrder | src/windows.rs:369-394 | in every reachable state, of every segment as first sent, the part stored at the receiver is a prefix |
| System.BoundsAreSegments | src/reliable_channel.rs:402-445 | over every run, the boundaries the sender records are exactly the send positions from which it moved on |
| System.RetransmissionFidelity | src/reliable_channel.rs:465-473 | in every reachable state a resend of any unacked range carries exactly the bytes written at those positions |
| System.StepKeepsInv | src/reliable_channel.rs:305-399 | every write, read, send, resend, delivery, stall allowance and loss by either endpoint keeps the protocol invariant of both streams |
| NoStall.NeverStalls | src/reliable_channel.rs:390-397 | over wrapping positions, with opposite windows spanning less than 2^31 together: from every reachable state there is a continuation without further writes after which all that either side wrote has been read and acknowledged |
| WedgeReached.DrainsExactly | src/windows.rs:88-103 | the connection can drain from every reachable state if and only if each send window and the receive window opposite span less than 2^31 positions together, whatever the settings |
| WedgeReached.WedgeReachable | src/windows.rs:311-319 | whenever they span more, a state is reached in which everything sent is read, the window is full and its first range can never be answered |
| Wedge.WedgedForever | src/windows.rs:311-319 | from such a state no run within the packet lifetime changes the send window again: no byte is ever accepted |
| WedgeReached.StarvationReachable | src/windows.rs:311-319 | with an allowance of one packet, a state is reached in which an accepted byte waits behind a range that can never be answered |
| Wedge.StarvedForever | src/reliable_channel.rs:390-397 | from such a state, in every run within the packet lifetime, nothing more is ever delivered though accepted bytes wait; the stall allowance does not help |
| NoStall.Round | src/reliable_channel.rs:448-485 | over wrapping positions and with the same bound, repeating the oldest unacked range, delivering it and delivering its acknowledgement leaves strictly fewer bytes outstanding |
| NoStall.AckReduces | src/reliable_channel.rs:495-539 | handling an acknowledgement of the beginning of an unacked range reduces the outstanding bytes by exactly that much, even when it triggers a send |
| Flow.SuffixNeverStrands | src/windows.rs:369-394 | a packet carrying a suffix of one segment, whose beginning is stored, never leaves a covered region behind |
| Flow.SegmentPrefix | src/windows.rs:369-394 | of every segment as first sent, the part stored at the receiver is a prefix |
| Flow.AckSoundness | src/windows.rs:169-223 | every sent position the receiver lacks is still unacked and buffered at the sender, and the receiver holds nothing unsent |
| Flow.SendKeepsInv | src/reliable_channel.rs:402-445 | sending a new segment keeps the invariant of the stream |
| Flow.ResendFaithful | src/reliable_channel.rs:461-473 | the bytes of an unacked range are those written at its positions |
| Flow.OnAckKeepsInv | src/reliable_channel.rs:495-539 | handling any acknowledgement in flight, with the send it may trigger, keeps the invariant |
| Flow.OnDataKeepsInv | src/reliable_channel.rs:561-590 | handling any data packet in flight, and answering it, keeps the invariant |
| Flow.ReadKeepsInv | src/windows.rs:233-237 | reading ready bytes keeps the invariant, the bytes read being the next ones written |
| Flow.BumpKeepsInv | src/reliable_channel.rs:390-397 | granting the stall allowance keeps the invariant; whenever nothing is unacked everything sent has been stored; a granted allowance lets the sender go exactly that much past the receive position, and nothing changes when it is not due |
| Flow.HorizonMoves | src/reliable_channel.rs:504-515 | a send leaves send position plus believed room as it is, an acknowledgement makes it the maximum with the advertised window end, the allowance raises it |
| Lifetime.DataExact | src/windows.rs:304-349 | data in flight is handled with wrapping positions as over integers if and only if it starts less than half a turn before the window end, and its search always finds its place |
| Lifetime.DataInTime | src/windows.rs:304-319 | within its lifetime, data in flight is handled as over integers, or, when too far from the window end, neither stored nor answered |
| Lifetime.AckExact | src/reliable_channel.rs:500-517 | an acknowledgement in flight is handled with wrapping positions as over integers if and only if its window end is at most half a turn old or mistaken for no news, and its range is not before the unacked start or mistaken for no unacked range |
| Lifetime.AckInTime | src/reliable_channel.rs:500-517 | both hold for nearly a whole turn of the range and half a turn of the window end |
| Lifetime.OldAckAgrees | src/windows.rs:169-187 | an acknowledgement of a range acknowledged long ago reads as no range at all, as over integers |
| Lifetime.StalePacketAccepted | src/windows.rs:14-17 | a packet one whole turn of the counter old is stored as new data: the lifetime assumption is needed |
| SendSpec.AckCharacterised | src/windows.rs:163-223 | Ack iff the range is unacked, PartialAck iff it is a proper prefix of an unacked one (which it reports), else NotFound and nothing changes |
| SendSpec.AckCovers | src/windows.rs:163-223 | a successful acknowledgement removes exactly the named positions from the unacked ones |
| SendSpec.AckKeepsValid | src/windows.rs:79-86 | ranges stay sorted, disjoint, non-empty, within the sent part, the first at the unacked start; nothing sent is left when there are none |
| SendSpec.UnackedStartIsLeast | src/windows.rs:148-153 | the unacked start is the least unacked position, or the send position when there is none |
| SendSpec.AckFrees | src/windows.rs:194-217 | exactly the bytes before the new unacked start are freed, all of them sent |
| SendSpec.AckKeepsBytes | src/windows.rs:194-217 | whatever is freed, the bytes kept for positions still buffered do not change |
| SendSpec.SendKeepsValid | src/windows.rs:127-146 | a send yields a range exactly when there is something to send and room for it; the range is the next positions, as many as allowed unless nothing waits afterwards; the window's invariant is kept |
| SendSpec.WriteIsMaximal | src/windows.rs:61-65 | a write appends a prefix of the data and returns its length; the window is full afterwards unless the prefix is all of it |
| SendSpec.AckShrinks | src/windows.rs:192-217 | a successful acknowledgement removes as many unacked positions as the range it names has |
| RecvSpec.ReceiveUnion | src/windows.rs:287-303 | for any packet: success exactly when there is data starting before the window end; the range reported is exactly what is added to the stored positions |
| RecvSpec.ReceiveKeepsSplit | src/windows.rs:366-439 | for any packet: regions stay sorted, apart and inside the window, each wholly below or wholly above the receive position, which never moves back, and the last of them above it |
| RecvSpec.RecvPosIsLeastUnstored | src/windows.rs:244-245 | the receive position is the least position not stored |
| RecvSpec.AdvancesOverStored | src/windows.rs:382-394 | the receive position only moves over positions copied by this packet or an earlier one |
| RecvSpec.ReceiveCells | src/windows.rs:351-364 | the cells after receiving are the new data where it is ahead of the ready block, the old cells elsewhere |
| RecvSpec.DocumentedKept | src/windows.rs:374-394 | receiving keeps the documented invariant if and only if the packet does not reach the ready block, cover the first region and end in a gap before a later one |
| RecvSpec.StrandedRegion | src/windows.rs:389-391 | a packet after which a covered region stays in the list below the receive position |
| RecvSpec.TakeMovesWindow | src/windows.rs:233-237 | reading moves the window on and changes neither what is stored nor any cell still in the window |
| RecvSpec.MergeCovers | src/windows.rs:395-438 | combining a region with those it overlaps or touches covers exactly the union |
| RecvSpec.JoinCovers | src/windows.rs:369-394 | joining a region to the ready block makes exactly the union ready or unready |
| StreamPosition.CmpMeaning | src/windows.rs:7-25 | the order is decided by whether the wrapped difference is below half a turn, and undefined exactly at half a turn |
| StreamPosition.CmpAgrees | src/windows.rs:14-25 | positions less than 2^31 apart compare as the integers behind them |
| StreamPosition.CmpNotTransitive | src/windows.rs:12-12 | the order is not transitive |
| StreamPosition.LiftsRecover | src/windows.rs:7-17 | a position is recovered from its wrapped image by any reference position near enough |
| PositionRanges.BinarySearch | src/windows.rs:184-187 | the loop over any list: the result of the halving search, or none if a comparison it makes is undefined |
| PositionRanges.SearchFinds | src/windows.rs:184-187 | where all comparisons are defined and decide as the integers do, the search fails at none and finds the place the integers give: the key itself, or the first greater one |
| SendWindow.SendWindow.Write | src/windows.rs:61-65 | appends and counts exactly what the integer write does, which is maximal by `SendSpec.WriteIsMaximal` |
| SendWindow.SendWindow.SendAvailable | src/windows.rs:116-118 | the bytes written and not yet sent |
| SendWindow.SendWindow.Send | src/windows.rs:127-146 | takes the next bytes as a new unacked range, exactly as over integers, and returns them |
| SendWindow.SendWindow.UnackedStart | src/windows.rs:151-153 | the wrapped image of the unacked start |
| SendWindow.SendWindow.GetUnacked | src/windows.rs:157-161 | the bytes kept for the range named |
| SendWindow.SendWindow.AckRange | src/windows.rs:169-223 | for every pair of `u32` positions, answers and changes the window as the integer version does for the range the pair names |
| SendWindow.TurnedAway | src/windows.rs:174-182 | every pair the early checks refuse names no unacked range or prefix of one |
| SendWindow.SearchAgrees | src/windows.rs:184-187 | every comparison the search makes is defined and decides as the integers do |
| SendWindow.HeadIsFirst | src/windows.rs:196-210 | only the first range starts at the unacked start, so the two index assertions cannot fail |
| RecvWindow.RecvWindow.Read | src/windows.rs:233-237 | hands over the first ready bytes and moves the window on by as many |
| RecvWindow.RecvWindow.WindowEnd | src/windows.rs:283-285 | the wrapped image of the window end |
| RecvWindow.RecvWindow.Recv | src/windows.rs:304-442 | for every window, every `u32` start and any data shorter than half a turn: panics exactly when the search for the packet makes an undefined comparison, otherwise answers as the integer version does; if the search finds the right place the new window is the integer version's too |
| RecvWindow.InReachLocates | src/windows.rs:366-408 | if every region is in reach, no packet makes the search fail or misplace it |
| RecvWindow.RecvWindow.JoinReady | src/windows.rs:369-394 | the joining branch, in place, agrees with the integer version |
| RecvWindow.MergeInto | src/windows.rs:409-438 | the scan loop over the regions yields the integer version's merged list |
| RecvWindow.DocumentedInReach | src/windows.rs:255-256 | under the documented invariant every region is near enough for the search to order it |
| RecvWindow.InReachExactly | src/windows.rs:374-405 | exactly when every comparison of a region's end with a position ahead in the window is defined and decides as the integers do |
| RecvWindow.SearchUndefined | src/windows.rs:374-377 | from a fresh window of 2^31 - 1 bytes, a run of packets each received as over integers, and a read, after which a further packet makes the first comparison of its search undefined: the code panics |
| RecvWindow.SearchMisorders | src/windows.rs:374-377 | after the same run, a packet whose search makes only defined comparisons and puts it before all regions instead of after them |
| RingBuffer.CursorArithmetic | src/ring_buffer.rs:205-236 | the cursor functions are distances and steps modulo twice the capacity, without underflow |
| RingBuffer.CollapseIsMod | src/ring_buffer.rs:205-211 | the storage index is the position modulo the capacity |
| RingBuffer.ScatterRotated | src/ring_buffer.rs:87-116 | writing the two slices is one contiguous overwrite in stream order |
| RingBuffer.GatherRotated | src/ring_buffer.rs:155-184 | reading the two slices is one contiguous slice in stream order |
| RingBuffer.WrittenSurvives | src/ring_buffer.rs:76-130 | bytes written past the head survive any reader advance and are found unchanged once the head passes them |
| RingBuffer.RingBuffer.Write | src/ring_buffer.rs:76-119 | overwrites the free cells at an offset with as much as fits; nothing else changes |
| RingBuffer.RingBuffer.AdvanceHead | src/ring_buffer.rs:121-130 | makes up to that many written cells readable |
| RingBuffer.RingBuffer.Read | src/ring_buffer.rs:144-187 | returns the slice of the readable bytes at an offset, as much as there is |
| RingBuffer.RingBuffer.AdvanceTail | src/ring_buffer.rs:189-198 | frees up to that many bytes; the cells turn to the end of the window |
| RingInterleaving.SpscSafety | src/ring_buffer.rs:76-198 | in every interleaving of loads, cell copies and cursor stores, bytes consumed are a prefix of bytes committed, the occupancy stays within the capacity, and cursor arithmetic cannot underflow |
| RingInterleaving.BytesAsPut | src/ring_buffer.rs:76-198 | in every interleaving, as many bytes are committed and consumed as the cursor stores say, each the one last put at its position |
| RingInterleaving.FreshLoads | src/ring_buffer.rs:122-123 | in every reachable state, a side that loads the other cursor afresh may write to exactly all the free space, or read exactly all the bytes, there are |
| RingInterleaving.HandOver | src/ring_buffer.rs:121-130 | whatever was copied within the space or the bytes seen can be committed or consumed, all of it at once |
| RingInterleaving.NoConflict | src/ring_buffer.rs:87-118 | a cell the writer may write is never one the reader may read, however stale the cursor either side loaded |
| RingInterleaving.NextKeepsInv | src/ring_buffer.rs:76-198 | every atomic step of either side keeps the invariant |
| Wire.DataRoundTrip | src/reliable_channel.rs:561-569 | decoding an encoded data packet gives back its start and bytes |
| Wire.AckRoundTrip | src/reliable_channel.rs:494-502 | decoding an encoded acknowledgement gives back its range and window end |
| Wire.OnlyEncodedData | src/reliable_channel.rs:561-569 | what decodes as data is the encoding of that data |
| Wire.OnlyEncodedAck | src/reliable_channel.rs:494-502 | what decodes as an acknowledgement of an encodable range is the encoding of it |
| Wire.DataLayout | src/reliable_channel.rs:423-424 | the bytes of a data packet: length and position as little-endian digits, then the data |
| Wire.AckLayout | src/reliable_channel.rs:572-579 | the bytes of an acknowledgement: the length negated in two's complement, position and window end as little-endian digits |
| Wire.NegationOverflowsExactly | src/reliable_channel.rs:489-503 | the packets that make a debug build overflow when it negates the length are those of ten bytes beginning 0x00, 0x80; no encoded packet is one, and a release build takes it for an acknowledgement of 2^32 - 2^15 positions |
| Endpoint.SendKeepsValid | src/reliable_channel.rs:407-421 | the window yields the amount decided on, at most what the remote has room for and one packet carries |
| Endpoint.SendIsMaximal | src/reliable_channel.rs:402-421 | a packet goes out exactly when there is bandwidth, room and something waiting; after it nothing waits, or no room is left, or the packet is full |
| Endpoint.AckSends | src/reliable_channel.rs:504-515 | an acknowledgement makes the sender send exactly when it tells of room after none was believed left, and then as much as room, packet and waiting bytes allow |
| Endpoint.AnswerExact | src/reliable_channel.rs:571-590 | data is answered exactly when some of it lies before the window end; the answer names that part, all of it stored, and announces the window end |
| Endpoint.ResendsOnlyUnacked | src/reliable_channel.rs:448-485 | a resend pass emits nothing but unacked ranges, each as kept |
| Endpoint.ResendsExactly | src/reliable_channel.rs:448-485 | a resend pass repeats exactly the due entries for which there is still credit once the due ones before them are paid for, each once and in order |
| Endpoint.SendAgrees | src/reliable_channel.rs:426-434 | recording a sent range keeps the task's map equal to the window's list |
| Endpoint.AckAgrees | src/reliable_channel.rs:517-539 | whatever the window acknowledges is in the task's map with the same end, and the two agree afterwards |
| Task.AckDetails | src/reliable_channel.rs:517-539 | the lookups and end comparisons after an acknowledgement cannot fail, for any pair of `u32` positions |
| Task.Task.constructor | src/reliable_channel.rs:87-149 | a new task is in the initial state of the protocol, with the rates given, a full burst of credit and windows of its own |
| Task.Task.Send | src/reliable_channel.rs:402-445 | sends exactly the packet the protocol's send step names, which is maximal by `Endpoint.SendIsMaximal`, or none; the limiter is charged for exactly that packet |
| Task.Task.Resend | src/reliable_channel.rs:448-485 | one pass emits exactly the packets of the protocol's resend pass, whose entries `Endpoint.ResendsExactly` determines; the limiter is charged for each of them, in that order, and for nothing else |
| Task.Task.Acknowledge | src/reliable_channel.rs:517-539 | the window and the map both forget what was acknowledged, and still agree |
| Task.Task.ReceiveAck | src/reliable_channel.rs:494-539 | learns the remote's window, perhaps sends, then acknowledges, in that order; the limiter is charged for exactly the packet sent |
| Task.Task.ReceiveData | src/reliable_channel.rs:561-590 | panics exactly when the window's search does; if the search finds its place, stores the data and answers with the range stored and the window end after it |
| Task.Task.RecvPacket | src/reliable_channel.rs:489-593 | any packet at all: refused exactly when malformed, and then nothing changes; otherwise handled as data or acknowledgement, the limiter charged for exactly the data sent; panics exactly for data whose search does |
| Task.Task.BumpIfStalled | src/reliable_channel.rs:390-397 | grants the allowance exactly when nothing is unacked and no room is believed left |
| Task.Metered | src/reliable_channel.rs:402-485 | of a task in any state its methods lead to, between any two points of what it did: the packets of data sent and sent again have together at most as many bytes as the burst, plus bandwidth times the time, plus one packet |
| BandwidthLimiter.TokenBucket | src/bandwidth_limiter.rs:35-58 | in any window of any guarded run, bytes taken are at most the burst, plus bandwidth times the time, plus one largest packet |
| BandwidthLimiter.CreditBounds | src/bandwidth_limiter.rs:35-58 | credit stays between minus the largest packet and the burst, and pays for everything taken |
| BandwidthLimiter.PacedWindow | src/reliable_channel.rs:402-475 | the same of a limiter at any time, between any two points of its log |
| BandwidthLimiter.CreditReaches | src/bandwidth_limiter.rs:35-45 | waiting makes credit reach a level exactly if the level is at most the burst and what there was, with what the time is worth, reaches it |
| BandwidthLimiter.DelaySuffices | src/bandwidth_limiter.rs:24-33 | the delay announced is the least after which bytes are available again |
| BandwidthLimiter.BandwidthLimiter.UpdateAvailable | src/bandwidth_limiter.rs:35-45 | afterwards all that the time passed is worth has been added, or the credit is the burst, and it is no more than either; a guarded log stays guarded |
| BandwidthLimiter.BandwidthLimiter.TakeBytes | src/bandwidth_limiter.rs:55-58 | takes the bytes; the log stays guarded if credit was not negative |
| Framing.FramesPrefix | src/compressed_bincode_channel.rs:180-210 | length-prefixed frames are read back in one way only |
| Framing.FrameLayout | src/compressed_bincode_channel.rs:237-256 | the bytes of a frame: tag, length in two bytes with the lower first, payload |
| Framing.FrameReader.PollFrame | src/reliable_bincode_channel.rs:182-193 | resumes from wherever the last poll stopped, is ready exactly when the buffer holds one whole frame, and otherwise stopped because the stream was pending |
| Framing.FrameReader.PollFinishRead | src/reliable_bincode_channel.rs:202-210 | appends what the stream yields, losing and repeating nothing across pending polls, and stops short only when the stream is pending |
| BincodeChannel.ChannelRoundTrip | src/reliable_bincode_channel.rs:130-210 | of any two channels whose bytes match, received messages are the first of those sent, and all of them once the bytes are through |
| BincodeChannel.FailedSendIsDelivered | src/reliable_bincode_channel.rs:155-166 | after a failed serialization every reader takes the frames sent before and then an empty message that was never sent |
| BincodeChannel.FailureReachesReceiver | src/reliable_bincode_channel.rs:155-210 | of any two channels whose bytes match, once a serialization has failed: the receiver takes the messages accepted before it and then, if anything, an empty one; once the writer's buffer is empty the two bytes are out |
| BincodeChannel.FailedSendInStep | src/reliable_bincode_channel.rs:155-166 | the frames sent later are then read in step, with some frames in between, exactly when the bytes written after the header encode those frames; with none exactly when no byte was written |
| BincodeChannel.BincodeChannel.PollSendReady | src/reliable_bincode_channel.rs:130-145 | writes what is left, resumably; ready exactly when nothing is, pending exactly when the stream was |
| BincodeChannel.BincodeChannel.StartSend | src/reliable_bincode_channel.rs:155-166 | queues one frame of the message, or leaves the header bytes when serializing fails |
| BincodeChannel.BincodeChannel.RecvNext | src/reliable_bincode_channel.rs:195-200 | hands on the payload of the frame read, whether or not it deserializes |
| CompressedChannel.ChannelRoundTrip | src/compressed_bincode_channel.rs:148-280 | for every self-delimiting codec and any two channels whose bytes match: decompression has never failed, messages received are a prefix of those accepted, and after a flush whose bytes have arrived they are all of them exactly when none is encoded as no bytes; a codec with an empty encoding delivers nothing |
| CompressedChannel.UnpackPack | src/compressed_bincode_channel.rs:229-254 | every chunk fits in a frame, compressed or not, and is unpacked as it was |
| CompressedChannel.PackIsShortest | src/compressed_bincode_channel.rs:229-254 | a chunk is framed compressed, and marked so, exactly when that is shorter; otherwise as it is |
| CompressedChannel.TagDecides | src/compressed_bincode_channel.rs:188-205 | a frame marked zero is its payload; any other is what decompression gives, if as long as announced and not too long |
| CompressedChannel.NeverFails | src/compressed_bincode_channel.rs:196-205 | frames of an honest sender always unpack |
| CompressedChannel.ParseSerialize | src/compressed_bincode_channel.rs:212-218 | reading a chunk message by message gives back the messages serialized into it, encodings being non-empty |
| CompressedChannel.ParseSerializeExactly | src/compressed_bincode_channel.rs:180-218 | for every self-delimiting codec: a chunk gives back the messages serialized into it if and only if none is encoded as no bytes, and otherwise none |
| CompressedChannel.CompressedChannel.PollSend | src/compressed_bincode_channel.rs:148-163 | accepts the message into the chunk, framing the chunk first exactly when it has no room; adds nothing while pending, which is exactly when the stream is, or when it is too long |
| CompressedChannel.CompressedChannel.PollWriteSendChunk | src/compressed_bincode_channel.rs:220-260 | frames the whole chunk as one batch once the frame before it is out, pending exactly when the stream is, and loses nothing then |
| CompressedChannel.CompressedChannel.PollFlush | src/compressed_bincode_channel.rs:165-170 | when a flush completes, every accepted message is in a frame entirely written; it stops short exactly when the stream is pending |
| CompressedChannel.CompressedChannel.PollRecvReady | src/compressed_bincode_channel.rs:180-210 | reads frames until there is a message to deserialize, resumably, delivering nothing itself, pending exactly when the stream is; a frame that cannot be decompressed stays in the buffer and leaves the chunk with the length it announced |
| CompressedChannel.CompressedChannel.RecvNext | src/compressed_bincode_channel.rs:212-218 | hands on the message decoded at the read position and moves past the bytes it consumed, possibly none; otherwise nothing changes |
| Messages.CompressedEndToEnd | src/compressed_bincode_channel.rs:148-280 | over two endpoints and a network that loses, repeats and reorders packets: the messages handed on are a prefix of those accepted; once the stream has drained after a flush, all of them exactly when none is encoded as no bytes |
| Messages.BincodeEndToEnd | src/reliable_bincode_channel.rs:130-210 | the same of the plain channel when no serialization has failed: the payloads handed on decode to the first messages sent, and to all of them once the stream has drained |
| EventWatch.NoLostSignal | src/event_watch.rs:42-66 | for any number of senders and any interleaving: when there is a signal that no wait has taken, a parked receiver has been woken or some sender's wake is still to come |
| EventWatch.FlagMeansUnheard | src/event_watch.rs:42-60 | in every reachable state the flag is set if and only if some sender has signalled and no wait has resolved since |
| EventWatch.WakerUsedOnce | src/event_watch.rs:44-54 | in every reachable state a waker is in place exactly from a registration to the next wake |
| EventWatch.WaitsNeedSignals | src/event_watch.rs:20-23 | between any two moments, waits resolve at most once for each signal in between, and once more if one was waiting |
| EventWatch.SignalReachesWait | src/event_watch.rs:13-24 | once senders are done, the next wait resolves at once if and only if there is a signal that no wait has taken, and it is then taken |
| EventWatch.SignalIsTaken | src/event_watch.rs:42-60 | in every reachable state in which no sender is mid-signal, any sender can signal, and the next wait then resolves at once |

## Left out

- The async runtime: `select!`, timers, task spawning, wakers and `RemoteHandle` errors. One round of the main loop is one or more protocol steps, and timer expiry is a free choice.
- The choice of which entries to resend from send times and the RTT estimate, and the estimate itself: any set of entries may be due at any time, which allows more runs.
- Raw allocation, `MaybeUninit`, cache padding and weak memory orderings: atomics are sequentially consistent and the buffer is an array of initialized bytes.
- Snappy, bincode, serde and `AtomicWaker` internals: a codec is a pair of functions with stated laws, and the waker is an atomic cell.
- Rounding of `f64` credit and of durations: credit and time are real numbers.
- A whole-program link between the `Task` object and the ring's interleaving steps: the object's methods run one at a time; that the two sides of the ring may overlap safely is `RingInterleaving`.
- Fairness and real-time progress: `NoStall` shows that a continuation exists from every state, not that an unlucky network must take it.
- Packets from a dishonest peer, beyond what `Task.Task.RecvPacket` and the `RecvSpec` lemmas say of any packet at all. The debug-build panic at a length of `i16::MIN` is stated apart (`Wire.NegationOverflows`); `Task.Task.RecvPacket` follows the release build there.
- BincodeChannel.BincodeChannel.StartSend: the outcome of serializing is a parameter, at most 65535 bytes long, which is the limit the codec is configured with.
- RecvWindow.RecvWindow.Recv: when the search makes only defined comparisons but finds a wrong place, says nothing of the list and the receive position afterwards; the answer is given all the same, and the ring stays valid.
- CompressedChannel.CompressedChannel.RecvNext: takes as given that a codec consumes no more than there is, as reading from a slice does.
- CompressedChannel.CompressedChannel.PollWriteSendChunk: the scratch space the compressor is given is not modelled, only the frame that results.
- The unreliable channels, the packet multiplexer, message channel registries, packet pools and the spsc queue: plumbing around the stream, and flat framing within one packet, which holds no state from one packet to the next.
- Wakeup on disconnect, and closing of channels.
