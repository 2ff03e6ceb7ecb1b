/** The transmission task over wrapping positions and packets of bytes, proved against Endpoint. */
module Task {
  import opened Prelude
  import opened StreamPosition
  import opened RangeList
  import SendSpec
  import RecvSpec
  import SW = SendWindow
  import RW = RecvWindow
  import BL = BandwidthLimiter
  import E = Endpoint
  import Wire

  predicate Encodable(p: E.Packet) {
    match p
    case Data(_, bytes) => 0 < |bytes| <= Wire.MAX_PAYLOAD
    case Ack(start, end, _) => 0 < end - start <= Wire.MAX_PAYLOAD
  }

  function Encode(p: E.Packet): seq<u8>
    requires Encodable(p)
  {
    match p
    case Data(start, bytes) => Wire.EncodeData(Wrap(start), bytes)
    case Ack(start, end, windowEnd) =>
      WrapSub(end, start);
      Wire.EncodeAck(Wrap(start), Wrap(end), Wrap(windowEnd))
  }

  /** At most one packet, as the bytes put on the wire. */
  predicate Emits(packet: Option<seq<u8>>, p: Option<E.Packet>) {
    match p
    case None => packet == None
    case Some(q) => Encodable(q) && packet == Some(Encode(q))
  }

  /** What the task relies on when it sends: the window yields exactly the amount asked for, and the
      new range can be recorded. */
  lemma {:induction false} SendDetails(m: map<StreamPos, StreamPos>, s: E.Sender, cfg: E.Settings, n: nat)
    requires cfg.Valid() && SendSpec.Valid(s.win) && s.win.capacity < HALF
    requires 0 < n == E.SendAmount(s, cfg, true)
    requires E.MapAgrees(m, s.win.ranges) && E.Packetized(s.win.ranges, cfg.MaxPayload())
    ensures SendSpec.Send(s.win, n).1 == Some(Range(s.win.sendPos, s.win.sendPos + n))
    ensures SendSpec.Send(s.win, n).0.sendPos == s.win.sendPos + n
    ensures WrappingSub(Wrap(s.win.sendPos + n), Wrap(s.win.sendPos)) == n <= cfg.MaxPayload()
    ensures E.MapAgrees(m[Wrap(s.win.sendPos) := Wrap(s.win.sendPos + n)], SendSpec.Send(s.win, n).0.ranges)
    ensures E.Packetized(SendSpec.Send(s.win, n).0.ranges, cfg.MaxPayload())
    ensures E.Send(s, cfg, true).0 == E.Sender(SendSpec.Send(s.win, n).0, s.remoteAvail - n)
  {
    SendExact(s, cfg, n);
    E.SendAgrees(m, s.win, n);
    assert SendSpec.Send(s.win, n).0.ranges == s.win.ranges + [Range(s.win.sendPos, s.win.sendPos + n)];
  }

  lemma {:induction false} SendExact(s: E.Sender, cfg: E.Settings, n: nat)
    requires cfg.Valid() && SendSpec.Valid(s.win) && 0 < n == E.SendAmount(s, cfg, true)
    ensures SendSpec.Send(s.win, n).1 == Some(Range(s.win.sendPos, s.win.sendPos + n))
    ensures SendSpec.Send(s.win, n).0.sendPos == s.win.sendPos + n
    ensures WrappingSub(Wrap(s.win.sendPos + n), Wrap(s.win.sendPos)) == n <= cfg.MaxPayload()
    ensures E.Send(s, cfg, true).0 == E.Sender(SendSpec.Send(s.win, n).0, s.remoteAvail - n)
  {
    E.SendKeepsValid(s, cfg, true);
    WrapSub(s.win.sendPos + n, s.win.sendPos);
  }

  lemma {:induction false} SendEmits(s: E.Sender, cfg: E.Settings, n: nat, data: seq<u8>)
    requires cfg.Valid() && SendSpec.Valid(s.win) && 0 < n == E.SendAmount(s, cfg, true)
    requires SendSpec.Valid(SendSpec.Send(s.win, n).0)
    requires data == SendSpec.Unacked(SendSpec.Send(s.win, n).0, s.win.sendPos, SendSpec.Send(s.win, n).0.sendPos)
    ensures |data| == n && Emits(Some(Wire.EncodeData(Wrap(s.win.sendPos), data)), E.Send(s, cfg, true).1)
  {
    SendExact(s, cfg, n);
  }

  predicate EmitsAll(packets: seq<seq<u8>>, ps: seq<E.Packet>) {
    && |packets| == |ps|
    && forall i :: 0 <= i < |ps| ==> Encodable(ps[i]) && packets[i] == Encode(ps[i])
  }

  lemma {:induction false} ResendDetails(s: SendSpec.SendState, r: Range)
    requires SendSpec.Valid(s) && s.capacity < HALF && r in s.ranges
    ensures WrappingSub(Wrap(r.end), Wrap(r.start)) == r.end - r.start > 0
    ensures LiftFrom(s.UnackedStart(), Wrap(r.start)) == r.start
    ensures s.UnackedStart() <= r.start && r.end <= s.sendPos
  {
    WrapSub(r.end, r.start);
    LiftsRecover(s.UnackedStart(), r.start);
  }

  /** The map holds this range under its wrapped start, and one packet carries it. */
  predicate Recorded(m: map<StreamPos, StreamPos>, start: StreamPos, r: Range, max: int) {
    start == Wrap(r.start) && start in m && 0 < WrappingSub(m[start], start) == r.end - r.start <= max
  }

  lemma {:induction false} EveryRangeRecorded(m: map<StreamPos, StreamPos>, s: SendSpec.SendState, r: Range, max: int)
    requires SendSpec.Valid(s) && s.capacity < HALF && r in s.ranges
    requires E.MapAgrees(m, s.ranges) && E.Packetized(s.ranges, max)
    ensures Recorded(m, Wrap(r.start), r, max)
  {
    ResendDetails(s, r);
  }

  lemma {:induction false} EmitsMore(packets: seq<seq<u8>>, ps: seq<E.Packet>, packet: seq<u8>, p: E.Packet,
                                     rest: seq<E.Packet>)
    requires EmitsAll(packets, ps) && Emits(Some(packet), Some(p))
    ensures EmitsAll(packets + [packet], ps + [p])
    ensures ps + ([p] + rest) == ps + [p] + rest
  {
  }

  // ----- What a packet of wrapping positions means to this endpoint -----

  function LearnAndSend(s: E.Sender, cfg: E.Settings, credit: bool, windowEnd: StreamPos)
    : (E.Sender, Option<E.Packet>)
    requires cfg.Valid() && SendSpec.Valid(s.win)
  {
    var learnt := E.Learn(s, LiftNearBehind(s.win.sendPos, windowEnd));
    if s.remoteAvail == 0 && learnt.remoteAvail != 0 then E.Send(learnt, cfg, credit) else (learnt, None)
  }

  function AckOnWire(s: E.Sender, cfg: E.Settings, credit: bool, start: StreamPos, end: StreamPos, windowEnd: StreamPos)
    : (E.Sender, Option<E.Packet>)
    requires cfg.Valid() && SendSpec.Valid(s.win)
  {
    var r := SW.LiftAck(s.win, start, end);
    E.OnAck(s, cfg, credit, r.start, r.end, LiftNearBehind(s.win.sendPos, windowEnd))
  }

  function DataOnWire(r: RecvSpec.RecvState, start: StreamPos, bytes: seq<u8>): (RecvSpec.RecvState, Option<E.Packet>)
    requires r.readPos <= r.recvPos
  {
    E.OnData(r, RW.LiftStart(r, start), bytes)
  }

  /** The search that receiving the data makes fails, or finds the right place. */
  predicate Panics(r: RecvSpec.RecvState, start: StreamPos, len: nat) {
    RW.Panics(r, RW.LiftStart(r, start), len)
  }

  predicate Locates(r: RecvSpec.RecvState, start: StreamPos, len: nat) {
    RW.Locates(r, RW.LiftStart(r, start), len)
  }

  /** The answer to data, put on the wire. */
  lemma {:induction false} AnswerOnWire(r: RecvSpec.RecvState, start: StreamPos, bytes: seq<u8>)
    requires RecvSpec.SplitValid(r) && |bytes| <= Wire.MAX_PAYLOAD
    ensures RecvSpec.Receive(r, RW.LiftStart(r, start), bytes).0 == DataOnWire(r, start, bytes).0
    ensures RecvSpec.Receive(r, RW.LiftStart(r, start), bytes).1 == None ==> DataOnWire(r, start, bytes).1 == None
    ensures RecvSpec.Receive(r, RW.LiftStart(r, start), bytes).1.Some? ==>
              AnswersWith(DataOnWire(r, start, bytes).1, start,
                          Wrap(RecvSpec.Receive(r, RW.LiftStart(r, start), bytes).1.value),
                          Wrap(DataOnWire(r, start, bytes).0.WindowEnd()))
  {
    var place := RW.LiftStart(r, start);
    RecvSpec.ReceiveUnion(r, place, bytes, 0);
    if RecvSpec.Receive(r, place, bytes).1.Some? {
      WrapSub(RecvSpec.Receive(r, place, bytes).1.value, place);
    }
  }

  predicate AnswersWith(p: Option<E.Packet>, start: StreamPos, end: StreamPos, windowEnd: StreamPos) {
    0 < WrappingSub(end, start) <= Wire.MAX_PAYLOAD && Emits(Some(Wire.EncodeAck(start, end, windowEnd)), p)
  }

  /** The window update over wrapping positions. */
  lemma {:induction false} LearnAgrees(s: E.Sender, windowEnd: StreamPos)
    ensures E.Learn(s, LiftNearBehind(s.win.sendPos, windowEnd)) ==
            if StreamGt(windowEnd, Wrap(s.win.sendPos))
            then s.(remoteAvail := Max(s.remoteAvail, WrappingSub(windowEnd, Wrap(s.win.sendPos))))
            else s
  {
    CmpMeaning(windowEnd, Wrap(s.win.sendPos));
    WrapSub(LiftNearBehind(s.win.sendPos, windowEnd), s.win.sendPos);
  }

  lemma {:induction false} LearnKeepsValid(s: E.Sender, cfg: E.Settings, credit: bool, windowEnd: StreamPos)
    requires cfg.Valid() && SendSpec.Valid(s.win)
    ensures SendSpec.Valid(LearnAndSend(s, cfg, credit, windowEnd).0.win)
    ensures LearnAndSend(s, cfg, credit, windowEnd).0.win.UnackedStart() == s.win.UnackedStart()
  {
    var learnt := E.Learn(s, LiftNearBehind(s.win.sendPos, windowEnd));
    E.SendKeepsValid(learnt, cfg, credit);
  }

  /** An acknowledgement in the two steps the task takes; sending does not change what the pair of
      positions names. */
  lemma {:induction false} AckInSteps(s: E.Sender, cfg: E.Settings, credit: bool, start: StreamPos, end: StreamPos,
                                      windowEnd: StreamPos,
                   mid: E.Sender)
    requires cfg.Valid() && SendSpec.Valid(s.win) && mid == LearnAndSend(s, cfg, credit, windowEnd).0
    ensures SendSpec.Valid(mid.win)
    ensures AckOnWire(s, cfg, credit, start, end, windowEnd).0 ==
            E.Sender(SW.AckLifted(mid.win, SW.LiftAck(mid.win, start, end)).0, mid.remoteAvail)
    ensures AckOnWire(s, cfg, credit, start, end, windowEnd).1 == LearnAndSend(s, cfg, credit, windowEnd).1
  {
    LearnKeepsValid(s, cfg, credit, windowEnd);
  }

  /** The task's map after the window has answered an acknowledgement. */
  function Forget(m: map<StreamPos, StreamPos>, start: StreamPos, end: StreamPos, res: SW.AckResult)
    : map<StreamPos, StreamPos>
  {
    match res
    case NotFound => m
    case Ack => m - {start}
    case PartialAck(nackedEnd) => (m - {start})[end := nackedEnd]
  }

  /** What the task relies on when it acknowledges: an entry the window answers for is in its map with
      the same end, so looking it up and comparing the ends cannot fail. */
  lemma {:induction false} AckDetails(m: map<StreamPos, StreamPos>, s: SendSpec.SendState, max: int, start: StreamPos,
                                      end: StreamPos)
    requires SendSpec.Valid(s) && s.capacity < HALF && E.MapAgrees(m, s.ranges) && E.Packetized(s.ranges, max)
    ensures AckOf(s, start, end) == SW.Ack ==> start in m && m[start] == end
    ensures AckOf(s, start, end).PartialAck? ==> start in m && m[start] == AckOf(s, start, end).nackedEnd
    ensures E.MapAgrees(Forget(m, start, end, AckOf(s, start, end)),
                        SW.AckLifted(s, SW.LiftAck(s, start, end)).0.ranges)
    ensures E.Packetized(SW.AckLifted(s, SW.LiftAck(s, start, end)).0.ranges, max)
  {
    var r := SW.LiftAck(s, start, end);
    E.AckAgrees(m, s, r.start, r.end);
    E.AckKeepsPacketized(s, r.start, r.end, max);
  }

  function AckOf(s: SendSpec.SendState, start: StreamPos, end: StreamPos): SW.AckResult
    requires SendSpec.Valid(s)
  {
    SW.WrapResult(SW.AckLifted(s, SW.LiftAck(s, start, end)).1)
  }

  lemma {:induction false} EmptyTogether(m: map<StreamPos, StreamPos>, rs: seq<Range>)
    requires E.MapAgrees(m, rs)
    ensures m == map[] <==> rs == []
  {
    if rs != [] {
      assert rs[0] in rs;
    }
  }

  /** Look up and remove the acknowledged entry; the lookup and the comparison of the ends cannot fail. */
  method ForgetEntry(m: map<StreamPos, StreamPos>, start: StreamPos, end: StreamPos, res: SW.AckResult)
    returns (m': map<StreamPos, StreamPos>)
    requires res == SW.Ack ==> start in m && m[start] == end
    requires res.PartialAck? ==> start in m && m[start] == res.nackedEnd
    ensures m' == Forget(m, start, end, res)
  {
    match res {
      case NotFound =>
        m' := m;
      case Ack =>
        var ackedEnd := m[start];
        assert ackedEnd == end;
        m' := m - {start};
      case PartialAck(nackedEnd) =>
        var ackedEnd := m[start];
        assert ackedEnd == nackedEnd;
        m' := (m - {start})[end := nackedEnd];
    }
  }

  // ----- What the limiter is charged for -----

  /** What a task does that its limiter accounts for: time passes, or a packet of data goes out. */
  datatype Event = Waited(elapsed: real) | Sent(packet: seq<u8>)

  function Charge(e: Event): BL.Event {
    match e
    case Waited(elapsed) => BL.Update(elapsed)
    case Sent(packet) => BL.Taken(|packet|)
  }

  /** The limiter's log that goes with what the task did. */
  function Bill(trace: seq<Event>): (log: seq<BL.Event>)
    ensures |log| == |trace|
  {
    seq(|trace|, i requires 0 <= i < |trace| => Charge(trace[i]))
  }

  lemma {:induction false} BillMore(trace: seq<Event>, e: Event)
    ensures Bill(trace + [e]) == Bill(trace) + [Charge(e)]
  {
  }

  function Out(packet: Option<seq<u8>>): seq<Event> {
    if packet.Some? then [Sent(packet.value)] else []
  }

  function OutAll(packets: seq<seq<u8>>): (trace: seq<Event>)
    ensures |trace| == |packets|
  {
    seq(|packets|, i requires 0 <= i < |packets| => Sent(packets[i]))
  }

  lemma {:induction false} OutMore(trace: seq<Event>, packets: seq<seq<u8>>, packet: seq<u8>)
    ensures trace + OutAll(packets + [packet]) == trace + OutAll(packets) + [Sent(packet)]
  {
  }

  function BytesSent(trace: seq<Event>): nat {
    if trace == [] then 0 else (if trace[0].Sent? then |trace[0].packet| else 0) + BytesSent(trace[1..])
  }

  function TimeWaited(trace: seq<Event>): real {
    if trace == [] then 0.0 else (if trace[0].Waited? then trace[0].elapsed else 0.0) + TimeWaited(trace[1..])
  }

  lemma {:induction false} BillTotals(trace: seq<Event>)
    ensures BL.TotalTaken(Bill(trace)) == BytesSent(trace)
    ensures BL.TotalElapsed(Bill(trace)) == TimeWaited(trace)
  {
    if trace != [] {
      assert Bill(trace)[1..] == Bill(trace[1..]);
      BillTotals(trace[1..]);
    }
  }

  /** Of a task in any state its methods lead to: between any two points of what it did, the packets of data that
      went out, sent or sent again, have together at most as many bytes as the burst, plus the bandwidth times the
      time that passed, plus one packet. */
  lemma {:induction false} Metered(t: Task, i: nat, j: nat)
    requires t.SendSideValid() && i <= j <= |t.trace|
    ensures BytesSent(t.trace[i..j]) as real <=
            t.limiter.rates.burst as real + BL.Refill(TimeWaited(t.trace[i..j]), t.limiter.rates.bandwidth)
            + t.settings.packetCapacity as real
    ensures -(t.settings.packetCapacity as real) <= t.limiter.bytesAvailable <= t.limiter.rates.burst as real
  {
    BL.PacedWindow(t.limiter, t.settings.packetCapacity, i, j);
    assert t.limiter.log[i..j] == Bill(t.trace[i..j]);
    BillTotals(t.trace[i..j]);
  }

  /** What handling a packet comes to. */
  datatype Outcome = Refused | Panicked | Handled(answer: Option<seq<u8>>)

  class Task {
    const settings: E.Settings
    const sendWindow: SW.SendWindow
    const recvWindow: RW.RecvWindow
    const limiter: BL.BandwidthLimiter
    var remoteRecvAvailable: nat
    var unackedRanges: map<StreamPos, StreamPos>
    /** Everything the limiter accounts for, so far. */
    ghost var trace: seq<Event>

    ghost predicate Valid()
      reads this, limiter
      reads sendWindow, sendWindow.ring, sendWindow.ring.buffer
      reads recvWindow, recvWindow.ring, recvWindow.ring.buffer
    {
      && settings.Valid()
      && sendWindow.ring != recvWindow.ring && sendWindow.ring.buffer != recvWindow.ring.buffer
      && sendWindow.Valid() && recvWindow.Valid()
      && SendSideValid()
    }

    /** The task's own records agree with the send window; every packet of data so far was paid for, with bandwidth
        available for it; and what is believed of the remote's room fits 32 bits. */
    ghost predicate SendSideValid()
      reads this, limiter, sendWindow
    {
      && settings.Valid()
      && E.MapAgrees(unackedRanges, sendWindow.state.ranges)
      && E.Packetized(sendWindow.state.ranges, settings.MaxPayload())
      && limiter.Paced(settings.packetCapacity) && limiter.log == Bill(trace)
      && remoteRecvAvailable < MODULUS && settings.initSend < MODULUS
    }

    ghost function Sender(): E.Sender
      reads this, sendWindow
    {
      E.Sender(sendWindow.state, remoteRecvAvailable)
    }

    constructor (settings: E.Settings, bandwidth: nat, burstBandwidth: nat, now: real,
                 sendWindowSize: nat, recvWindowSize: nat)
      requires settings.Valid() && settings.initSend < MODULUS
      requires 0 < sendWindowSize < HALF && 0 < recvWindowSize < HALF
      ensures Valid()
      ensures Sender() == E.Sender(SendSpec.SendState(0, 0, [], [], sendWindowSize), settings.initSend)
      ensures recvWindow.state == RecvSpec.RecvState(0, 0, [], recvWindow.state.cells)
      ensures |recvWindow.state.cells| == recvWindowSize
      ensures limiter.rates == BL.Rates(bandwidth, burstBandwidth) && limiter.lastCalculation == now
      ensures limiter.bytesAvailable == burstBandwidth as real
      ensures this.settings == settings && trace == []
      ensures fresh(limiter) && fresh(sendWindow) && fresh(sendWindow.ring) && fresh(sendWindow.ring.buffer)
      ensures fresh(recvWindow) && fresh(recvWindow.ring) && fresh(recvWindow.ring.buffer)
    {
      this.settings := settings;
      sendWindow := new SW.SendWindow(sendWindowSize, 0);
      recvWindow := new RW.RecvWindow(recvWindowSize, 0);
      limiter := new BL.BandwidthLimiter(now, bandwidth, burstBandwidth);
      remoteRecvAvailable := settings.initSend;
      unackedRanges := map[];
      trace := [];
    }

    /** Send available data, if there is bandwidth for it. */
    method Send() returns (packet: Option<seq<u8>>)
      requires SendSideValid() && sendWindow.Valid()
      modifies this, sendWindow, limiter
      ensures SendSideValid() && sendWindow.Valid()
      ensures Sender() == E.Send(old(Sender()), settings, old(limiter.bytesAvailable) >= 0.0).0
      ensures Emits(packet, E.Send(old(Sender()), settings, old(limiter.bytesAvailable) >= 0.0).1)
      ensures trace == old(trace) + Out(packet)
    {
      if limiter.bytesAvailable < 0.0 {
        return None;
      }
      var available := sendWindow.SendAvailable();
      var sendAmt := Min(Min(available, remoteRecvAvailable), Wire.MAX_PAYLOAD);
      if sendAmt == 0 {
        return None;
      }
      sendAmt := Min(sendAmt, settings.packetCapacity - 6);
      var p := Transmit(sendAmt);
      packet := Some(p);
    }

    /** Send exactly the amount decided on; the window always has that much. */
    method Transmit(sendAmt: nat) returns (packet: seq<u8>)
      requires SendSideValid() && sendWindow.Valid() && limiter.bytesAvailable >= 0.0
      requires 0 < sendAmt == E.SendAmount(Sender(), settings, true)
      modifies this, sendWindow, limiter
      ensures SendSideValid() && sendWindow.Valid()
      ensures Sender() == E.Send(old(Sender()), settings, true).0
      ensures Emits(Some(packet), E.Send(old(Sender()), settings, true).1)
      ensures trace == old(trace) + [Sent(packet)]
    {
      packet := SendRange(sendAmt);
      Pay(packet);
      remoteRecvAvailable := remoteRecvAvailable - sendAmt;
    }

    /** Charge the limiter for a packet that goes out. */
    method Pay(packet: seq<u8>)
      requires limiter.Paced(settings.packetCapacity) && limiter.log == Bill(trace)
      requires limiter.bytesAvailable >= 0.0 && |packet| <= settings.packetCapacity
      modifies `trace, limiter
      ensures limiter.Paced(settings.packetCapacity) && limiter.log == Bill(trace)
      ensures trace == old(trace) + [Sent(packet)]
      ensures limiter.bytesAvailable == old(limiter.bytesAvailable) - |packet| as real
    {
      limiter.TakeBytes(|packet|, settings.packetCapacity);
      BillMore(trace, Sent(packet));
      trace := trace + [Sent(packet)];
    }

    /** Take the amount from the window, record the range, and put it in a packet. */
    method SendRange(sendAmt: nat) returns (packet: seq<u8>)
      requires SendSideValid() && sendWindow.Valid()
      requires 0 < sendAmt == E.SendAmount(Sender(), settings, true)
      modifies `unackedRanges, sendWindow
      ensures SendSideValid() && sendWindow.Valid() && 0 < sendAmt <= settings.MaxPayload()
      ensures E.Send(old(Sender()), settings, true).0 == E.Sender(sendWindow.state, old(remoteRecvAvailable) - sendAmt)
      ensures |packet| == 6 + sendAmt
      ensures Emits(Some(packet), E.Send(old(Sender()), settings, true).1)
    {
      hide E.MapAgrees, E.Packetized, SendSpec.Send, SendSpec.Unacked;
      ghost var s := Sender();
      SendDetails(unackedRanges, s, settings, sendAmt);
      var sent, data := sendWindow.Send(sendAmt);
      var range := sent.value;
      assert WrappingSub(range.end, range.start) == sendAmt;
      SendEmits(s, settings, sendAmt, data);
      packet := Wire.EncodeData(range.start, data);
      unackedRanges := unackedRanges[range.start := range.end];
    }

    /** One pass over the task's map, in whatever order `order` it is stored, repeating the entries that
        are due while there is bandwidth. `rs` names the ranges the entries stand for in `s`. */
    method Resend(order: seq<StreamPos>, due: seq<bool>, ghost s: E.Sender, ghost rs: seq<Range>)
      returns (packets: seq<seq<u8>>)
      requires SendSideValid() && sendWindow.Valid()
      requires s == Sender() && SendSpec.Valid(s.win)
      requires |order| == |due| == |rs|
      requires forall r :: r in rs ==> r in s.win.ranges
      requires forall i :: 0 <= i < |rs| ==> order[i] == Wrap(rs[i].start)
      modifies `trace, limiter
      ensures SendSideValid()
      ensures trace == old(trace) + OutAll(packets)
      ensures EmitsAll(packets, E.Resends(s, rs, due, 0, old(limiter.bytesAvailable)))
    {
      hide E.MapAgrees, E.Packetized, BL.Guarded, Bill;
      packets := [];
      ghost var sent: seq<E.Packet> := [];
      var i := 0;
      while i < |order|
        invariant 0 <= i <= |order|
        invariant limiter.Paced(settings.packetCapacity) && limiter.log == Bill(trace)
        invariant trace == old(trace) + OutAll(packets)
        invariant EmitsAll(packets, sent)
        invariant sent + E.Resends(s, rs, due, i, limiter.bytesAvailable)
                  == E.Resends(s, rs, due, 0, old(limiter.bytesAvailable))
      {
        if limiter.bytesAvailable < 0.0 {
          break;
        }
        if due[i] {
          var packet := ResendEntry(order[i], rs[i]);
          EmitsMore(packets, sent, packet, E.Resend(s, rs[i]), E.Resends(s, rs, due, i + 1, limiter.bytesAvailable));
          OutMore(old(trace), packets, packet);
          packets, sent := packets + [packet], sent + [E.Resend(s, rs[i])];
        }
        i := i + 1;
      }
    }

    /** Send one entry of the map again. */
    method ResendEntry(start: StreamPos, ghost r: Range) returns (packet: seq<u8>)
      requires SendSideValid() && sendWindow.Valid() && limiter.bytesAvailable >= 0.0
      requires r in sendWindow.state.ranges && start == Wrap(r.start)
      modifies `trace, limiter
      ensures limiter.Paced(settings.packetCapacity) && limiter.log == Bill(trace)
      ensures trace == old(trace) + [Sent(packet)]
      ensures limiter.bytesAvailable == old(limiter.bytesAvailable) - E.Cost(r)
      ensures Emits(Some(packet), Some(E.Resend(Sender(), r)))
    {
      EveryRangeRecorded(unackedRanges, sendWindow.state, r, settings.MaxPayload());
      var len := WrappingSub(unackedRanges[start], start);
      packet := EntryPacket(start, len, r);
      Pay(packet);
    }

    method EntryPacket(start: StreamPos, len: nat, ghost r: Range) returns (packet: seq<u8>)
      requires sendWindow.Valid() && r in sendWindow.state.ranges && start == Wrap(r.start)
      requires 0 < len == r.end - r.start <= Wire.MAX_PAYLOAD
      ensures Emits(Some(packet), Some(E.Resend(Sender(), r))) && |packet| == 6 + len
    {
      ResendDetails(sendWindow.state, r);
      var data := sendWindow.GetUnacked(start, len);
      packet := Wire.EncodeData(start, data);
    }

    /** Learn how far the remote's window reaches, and send if it has room for the first time again. */
    method LearnWindow(windowEnd: StreamPos) returns (packet: Option<seq<u8>>)
      requires SendSideValid() && sendWindow.Valid()
      modifies this, sendWindow, limiter
      ensures SendSideValid() && sendWindow.Valid()
      ensures Sender() == LearnAndSend(old(Sender()), settings, old(limiter.bytesAvailable) >= 0.0, windowEnd).0
      ensures Emits(packet, LearnAndSend(old(Sender()), settings, old(limiter.bytesAvailable) >= 0.0, windowEnd).1)
      ensures trace == old(trace) + Out(packet)
    {
      packet := None;
      LearnAgrees(Sender(), windowEnd);
      if StreamGt(windowEnd, sendWindow.sendPos) {
        var oldAvailable := remoteRecvAvailable;
        remoteRecvAvailable := Max(remoteRecvAvailable, WrappingSub(windowEnd, sendWindow.sendPos));
        if remoteRecvAvailable != 0 && oldAvailable == 0 {
          packet := Send();
        }
      }
    }

    /** Acknowledge a range in the window and in the task's own map. */
    method Acknowledge(start: StreamPos, end: StreamPos)
      requires SendSideValid() && sendWindow.Valid()
      modifies `unackedRanges, sendWindow, sendWindow.ring`tail
      ensures SendSideValid() && sendWindow.Valid()
      ensures sendWindow.state ==
              SW.AckLifted(old(sendWindow.state), SW.LiftAck(old(sendWindow.state), start, end)).0
    {
      hide E.MapAgrees, E.Packetized, SW.AckLifted;
      AckDetails(unackedRanges, sendWindow.state, settings.MaxPayload(), start, end);
      var res := sendWindow.AckRange(start, end);
      unackedRanges := ForgetEntry(unackedRanges, start, end, res);
    }

    method ReceiveAck(start: StreamPos, end: StreamPos, windowEnd: StreamPos) returns (packet: Option<seq<u8>>)
      requires SendSideValid() && sendWindow.Valid()
      modifies this, sendWindow, sendWindow.ring`tail, limiter
      ensures SendSideValid() && sendWindow.Valid()
      ensures Sender()
              == AckOnWire(old(Sender()), settings, old(limiter.bytesAvailable) >= 0.0, start, end, windowEnd).0
      ensures Emits(packet, AckOnWire(old(Sender()), settings, old(limiter.bytesAvailable) >= 0.0,
                                      start, end, windowEnd).1)
      ensures trace == old(trace) + Out(packet)
    {
      hide E.MapAgrees, E.Packetized, Bill, AckOnWire, LearnAndSend;
      ghost var s, credit := Sender(), limiter.bytesAvailable >= 0.0;
      AckInSteps(s, settings, credit, start, end, windowEnd, LearnAndSend(s, settings, credit, windowEnd).0);
      packet := LearnWindow(windowEnd);
      Acknowledge(start, end);
    }

    /** Store data and answer it; panic exactly when the window does. */
    method ReceiveData(start: StreamPos, bytes: seq<u8>) returns (res: Outcome)
      requires Valid() && |bytes| <= Wire.MAX_PAYLOAD
      modifies recvWindow, recvWindow.ring`head, recvWindow.ring.buffer
      ensures SendSideValid() && sendWindow.Valid() && !res.Refused?
      ensures res.Panicked? <==> Panics(old(recvWindow.state), start, |bytes|)
      ensures Locates(old(recvWindow.state), start, |bytes|) ==>
                && Valid() && recvWindow.state == DataOnWire(old(recvWindow.state), start, bytes).0
                && res.Handled? && Emits(res.answer, DataOnWire(old(recvWindow.state), start, bytes).1)
    {
      res := StoreAndAnswer(start, bytes);
    }

    method StoreAndAnswer(start: StreamPos, bytes: seq<u8>) returns (res: Outcome)
      requires recvWindow.Valid() && |bytes| <= Wire.MAX_PAYLOAD
      modifies recvWindow, recvWindow.ring`head, recvWindow.ring.buffer
      ensures !res.Refused?
      ensures res.Panicked? <==> Panics(old(recvWindow.state), start, |bytes|)
      ensures Locates(old(recvWindow.state), start, |bytes|) ==>
                && recvWindow.Valid() && recvWindow.state == DataOnWire(old(recvWindow.state), start, bytes).0
                && res.Handled? && Emits(res.answer, DataOnWire(old(recvWindow.state), start, bytes).1)
    {
      AnswerOnWire(recvWindow.state, start, bytes);
      var received := recvWindow.Recv(start, bytes);
      match received {
        case Panicked =>
          res := Panicked;
        case Returned(None) =>
          res := Handled(None);
        case Returned(Some(endPos)) =>
          var windowEnd := recvWindow.WindowEnd();
          res := Handled(Some(Wire.EncodeAck(start, endPos, windowEnd)));
      }
    }

    /** Handle any packet at all: one that is not well formed is reported and changes nothing; data panics exactly
        when the search of the receive window does. */
    method RecvPacket(packet: seq<u8>) returns (res: Outcome)
      requires Valid()
      modifies this, sendWindow, sendWindow.ring`tail, limiter
      modifies recvWindow, recvWindow.ring`head, recvWindow.ring.buffer
      ensures SendSideValid() && sendWindow.Valid()
      ensures res.Refused? <==> Wire.Decode(packet).ProtocolError?
      ensures !Wire.Decode(packet).Ack? ==> Sender() == old(Sender()) && trace == old(trace)
      ensures !Wire.Decode(packet).Data? ==> Valid() && !res.Panicked? && recvWindow.state == old(recvWindow.state)
      ensures Wire.Decode(packet).Ack? ==>
                var m := Wire.Decode(packet);
                && res.Handled? && trace == old(trace) + Out(res.answer)
                && Sender() == AckOnWire(old(Sender()), settings, old(limiter.bytesAvailable) >= 0.0,
                                         m.start, m.end, m.windowEnd).0
                && Emits(res.answer, AckOnWire(old(Sender()), settings, old(limiter.bytesAvailable) >= 0.0,
                                               m.start, m.end, m.windowEnd).1)
      ensures Wire.Decode(packet).Data? ==>
                var m := Wire.Decode(packet);
                && (res.Panicked? <==> Panics(old(recvWindow.state), m.start, |m.bytes|))
                && (Locates(old(recvWindow.state), m.start, |m.bytes|) ==>
                      && Valid() && recvWindow.state == DataOnWire(old(recvWindow.state), m.start, m.bytes).0
                      && res.Handled? && Emits(res.answer, DataOnWire(old(recvWindow.state), m.start, m.bytes).1))
    {
      hide E.MapAgrees, E.Packetized, Bill, AckOnWire, DataOnWire, Emits, Panics, Locates;
      match Wire.Decode(packet) {
        case ProtocolError =>
          res := Refused;
        case Ack(start, end, windowEnd) =>
          var answer := ReceiveAck(start, end, windowEnd);
          res := Handled(answer);
        case Data(start, bytes) =>
          Wire.OnlyEncodedData(packet);
          res := ReceiveData(start, bytes);
      }
    }

    /** At the end of every round: do not let the connection stall. */
    method BumpIfStalled()
      requires Valid()
      modifies `remoteRecvAvailable
      ensures Valid() && Sender() == E.Bump(old(Sender()), settings)
    {
      EmptyTogether(unackedRanges, sendWindow.state.ranges);
      if unackedRanges == map[] && remoteRecvAvailable == 0 {
        remoteRecvAvailable := settings.initSend;
      }
    }

    method UpdateClock(now: real)
      requires Valid() && limiter.lastCalculation <= now
      modifies `trace, limiter
      ensures Valid() && Sender() == old(Sender()) && recvWindow.state == old(recvWindow.state)
      ensures limiter.lastCalculation == now && trace == old(trace) + [Waited(now - old(limiter.lastCalculation))]
    {
      hide E.MapAgrees, E.Packetized, Bill;
      BillMore(trace, Waited(now - limiter.lastCalculation));
      trace := trace + [Waited(now - limiter.lastCalculation)];
      limiter.UpdateAvailable(now, settings.packetCapacity);
    }
  }
}
