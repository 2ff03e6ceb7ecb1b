/** One direction of a connection: a send side, the receive side it feeds, and the two bags of packets
    between them. What every step keeps. */
module Flow {
  import opened Prelude
  import opened RangeList
  import SendSpec
  import RecvSpec
  import E = Endpoint

  /** `out` holds the packets travelling towards the receive side and `back` those travelling the other
      way; each may hold packets of the opposite direction too. `written` is everything the application
      wrote so far and `delivered` everything read at the other end. `bounds` remembers where the
      segments that were sent began. */
  datatype Flow = Flow(snd: E.Sender, rcv: RecvSpec.RecvState, out: set<E.Packet>, back: set<E.Packet>,
                       written: seq<u8>, delivered: seq<u8>, bounds: set<int>)

  // ----- The invariant, part by part -----

  /** The send window buffers exactly the bytes from the unacked start on. */
  predicate SendBytes(win: SendSpec.SendState, written: seq<u8>) {
    && SendSpec.Valid(win)
    && 0 <= win.UnackedStart()
    && |written| == win.UnackedStart() + |win.buffered|
    && win.buffered == written[win.UnackedStart()..]
  }

  /** Only sent positions are stored, each with the byte written for it. */
  ghost predicate StoredBytes(sendPos: int, rcv: RecvSpec.RecvState, written: seq<u8>) {
    && RecvSpec.Documented(rcv)
    && 0 <= rcv.readPos
    && forall x :: RecvSpec.Stored(rcv, x) ==> StoredByte(sendPos, rcv, written, x)
  }

  predicate StoredByte(sendPos: int, rcv: RecvSpec.RecvState, written: seq<u8>, x: int) {
    && x < sendPos <= |written|
    && (0 <= x && rcv.readPos <= x < rcv.WindowEnd() ==> rcv.cells[x - rcv.readPos] == written[x])
  }

  /** What was delivered is what was written. */
  predicate DeliveredBytes(rcv: RecvSpec.RecvState, written: seq<u8>, delivered: seq<u8>) {
    && |delivered| == rcv.readPos
    && delivered <= written
  }

  /** A stored byte that does not begin a segment has its predecessor stored. */
  predicate Linked(rcv: RecvSpec.RecvState, bounds: set<int>, x: int) {
    RecvSpec.Stored(rcv, x) && x !in bounds ==> RecvSpec.Stored(rcv, x - 1)
  }

  ghost predicate AllLinked(rcv: RecvSpec.RecvState, bounds: set<int>) {
    forall x :: Linked(rcv, bounds, x)
  }

  predicate BoundsSent(bounds: set<int>, sendPos: int) {
    forall b :: b in bounds ==> b <= sendPos
  }

  /** The range is a suffix of one segment, and what precedes it in the segment is stored. */
  predicate Suffix(rcv: RecvSpec.RecvState, bounds: set<int>, start: int, end: int) {
    && 0 <= start < end
    && (forall b :: b in bounds ==> b <= start || end <= b)
    && (start in bounds || RecvSpec.Stored(rcv, start - 1))
  }

  predicate RangesSuffix(ranges: seq<Range>, rcv: RecvSpec.RecvState, bounds: set<int>, max: int) {
    forall r :: r in ranges ==> Suffix(rcv, bounds, r.start, r.end) && r.end - r.start <= max
  }

  /** Every sent position is stored or still unacked. */
  ghost predicate AckSound(win: SendSpec.SendState, rcv: RecvSpec.RecvState) {
    forall x :: x < win.sendPos ==> RecvSpec.Stored(rcv, x) || Covers(win.ranges, x)
  }

  predicate HonestData(p: E.Packet, sendPos: int, rcv: RecvSpec.RecvState, bounds: set<int>, written: seq<u8>,
                       max: int) {
    p.Data? ==>
      && p.start + |p.bytes| <= sendPos <= |written|
      && Suffix(rcv, bounds, p.start, p.start + |p.bytes|)
      && |p.bytes| <= max
      && p.bytes == written[p.start..p.start + |p.bytes|]
  }

  ghost predicate HonestAck(p: E.Packet, rcv: RecvSpec.RecvState, max: int) {
    p.Ack? ==>
      && 0 <= p.start < p.end <= p.start + max
      && (forall x :: p.start <= x < p.end ==> RecvSpec.Stored(rcv, x))
      && p.end <= p.windowEnd <= rcv.WindowEnd()
  }

  predicate OutHonest(out: set<E.Packet>, sendPos: int, rcv: RecvSpec.RecvState, bounds: set<int>, written: seq<u8>,
                      max: int) {
    forall p :: p in out ==> HonestData(p, sendPos, rcv, bounds, written, max)
  }

  ghost predicate BackHonest(back: set<E.Packet>, rcv: RecvSpec.RecvState, max: int) {
    forall p :: p in back ==> HonestAck(p, rcv, max)
  }

  /** The send side never believes in more room than the receive side has, beyond the allowance. */
  predicate CreditBound(snd: E.Sender, rcv: RecvSpec.RecvState, cfg: E.Settings) {
    snd.win.sendPos + snd.remoteAvail <= rcv.WindowEnd() + cfg.initSend
  }

  ghost predicate Inv(f: Flow, cfg: E.Settings) {
    && cfg.Valid()
    && SendBytes(f.snd.win, f.written)
    && StoredBytes(f.snd.win.sendPos, f.rcv, f.written)
    && DeliveredBytes(f.rcv, f.written, f.delivered)
    && AllLinked(f.rcv, f.bounds)
    && BoundsSent(f.bounds, f.snd.win.sendPos)
    && RangesSuffix(f.snd.win.ranges, f.rcv, f.bounds, cfg.MaxPayload())
    && AckSound(f.snd.win, f.rcv)
    && OutHonest(f.out, f.snd.win.sendPos, f.rcv, f.bounds, f.written, cfg.MaxPayload())
    && BackHonest(f.back, f.rcv, cfg.MaxPayload())
    && CreditBound(f.snd, f.rcv, cfg)
    && 0 < |f.rcv.cells|
  }

  // ----- The steps -----

  function Write(f: Flow, data: seq<u8>): Flow
    requires |f.snd.win.buffered| <= f.snd.win.capacity
  {
    var (win, n) := SendSpec.Write(f.snd.win, data);
    f.(snd := f.snd.(win := win), written := f.written + data[..n])
  }

  /** The flow after the send side became `snd` and perhaps emitted a packet of new data. */
  function Emit(f: Flow, snd: E.Sender, packet: Option<E.Packet>): Flow {
    match packet
    case None => f.(snd := snd)
    case Some(p) => f.(snd := snd, out := f.out + {p}, bounds := f.bounds + {f.snd.win.sendPos})
  }

  function Send(f: Flow, cfg: E.Settings, credit: bool): Flow
    requires cfg.Valid() && SendSpec.Valid(f.snd.win)
  {
    var (snd, packet) := E.Send(f.snd, cfg, credit);
    Emit(f, snd, packet)
  }

  function Resend(f: Flow, r: Range): Flow
    requires SendSpec.Valid(f.snd.win) && r in f.snd.win.ranges
  {
    f.(out := f.out + {E.Resend(f.snd, r)})
  }

  function OnAck(f: Flow, cfg: E.Settings, credit: bool, p: E.Packet): Flow
    requires cfg.Valid() && SendSpec.Valid(f.snd.win) && p.Ack?
  {
    var (snd, packet) := E.OnAck(f.snd, cfg, credit, p.start, p.end, p.windowEnd);
    Emit(f, snd, packet)
  }

  function OnData(f: Flow, p: E.Packet): Flow
    requires f.rcv.readPos <= f.rcv.recvPos && p.Data?
  {
    var (rcv, ack) := E.OnData(f.rcv, p.start, p.bytes);
    f.(rcv := rcv, back := if ack.Some? then f.back + {ack.value} else f.back)
  }

  function Read(f: Flow, n: nat): Flow
    requires n <= f.rcv.recvPos - f.rcv.readPos <= |f.rcv.cells|
  {
    f.(rcv := RecvSpec.Take(f.rcv, n), delivered := f.delivered + f.rcv.cells[..n])
  }

  function Bump(f: Flow, cfg: E.Settings): Flow {
    f.(snd := E.Bump(f.snd, cfg))
  }

  // ----- Every step keeps the invariant -----

  lemma {:induction false} WriteKeepsInv(f: Flow, cfg: E.Settings, data: seq<u8>)
    requires Inv(f, cfg)
    ensures Inv(Write(f, data), cfg)
  {
    var f' := Write(f, data);
    assert SendBytes(f'.snd.win, f'.written);
    assert OutHonest(f'.out, f'.snd.win.sendPos, f'.rcv, f'.bounds, f'.written, cfg.MaxPayload()) by {
      forall p | p in f'.out && p.Data? ensures p.bytes == f'.written[p.start..p.start + |p.bytes|] {
        assert HonestData(p, f.snd.win.sendPos, f.rcv, f.bounds, f.written, cfg.MaxPayload());
      }
    }
  }

  /** A boundary at the send position lies in none of the old ranges. */
  lemma {:induction false} NewBound(rcv: RecvSpec.RecvState, bounds: set<int>, start: int, end: int, at: int)
    requires Suffix(rcv, bounds, start, end) && end <= at
    ensures Suffix(rcv, bounds + {at}, start, end)
  {
  }

  lemma {:induction false} SendKeepsOut(out: set<E.Packet>, p: E.Packet, sendPos: int, end: int,
                                        rcv: RecvSpec.RecvState,
                     bounds: set<int>, written: seq<u8>, max: int)
    requires OutHonest(out, sendPos, rcv, bounds, written, max) && BoundsSent(bounds, sendPos)
    requires 0 <= sendPos < end <= |written| && end - sendPos <= max && p == E.Data(sendPos, written[sendPos..end])
    ensures OutHonest(out + {p}, end, rcv, bounds + {sendPos}, written, max)
  {
    forall q | q in out && q.Data? ensures HonestData(q, end, rcv, bounds + {sendPos}, written, max) {
      assert HonestData(q, sendPos, rcv, bounds, written, max);
      NewBound(rcv, bounds, q.start, q.start + |q.bytes|, sendPos);
    }
    assert HonestData(p, end, rcv, bounds + {sendPos}, written, max);
  }

  lemma {:induction false} SendKeepsRanges(win: SendSpec.SendState, end: int, rcv: RecvSpec.RecvState,
                                           bounds: set<int>, max: int)
    requires SendSpec.Valid(win) && RangesSuffix(win.ranges, rcv, bounds, max) && BoundsSent(bounds, win.sendPos)
    requires 0 <= win.sendPos < end && end - win.sendPos <= max
    ensures RangesSuffix(win.ranges + [Range(win.sendPos, end)], rcv, bounds + {win.sendPos}, max)
  {
    forall r | r in win.ranges ensures Suffix(rcv, bounds + {win.sendPos}, r.start, r.end) {
      NewBound(rcv, bounds, r.start, r.end, win.sendPos);
    }
  }

  lemma {:induction false} SendKeepsSound(win: SendSpec.SendState, win': SendSpec.SendState, rcv: RecvSpec.RecvState)
    requires AckSound(win, rcv) && win'.ranges == win.ranges + [Range(win.sendPos, win'.sendPos)]
    ensures AckSound(win', rcv)
  {
    var r := Range(win.sendPos, win'.sendPos);
    forall x | x < win'.sendPos ensures RecvSpec.Stored(rcv, x) || Covers(win'.ranges, x) {
      CoversAppend(win.ranges, [r], x);
      assert [r][0] == r;
    }
  }

  lemma {:induction false} MoreBoundsLinked(rcv: RecvSpec.RecvState, bounds: set<int>, at: int)
    requires AllLinked(rcv, bounds)
    ensures AllLinked(rcv, bounds + {at})
  {
    forall x ensures Linked(rcv, bounds + {at}, x) {
      assert Linked(rcv, bounds, x);
    }
  }

  /** What the send step does, as far as the flow is concerned. */
  lemma {:induction false} SendShape(snd: E.Sender, cfg: E.Settings, credit: bool, written: seq<u8>, n: nat)
    requires cfg.Valid() && SendBytes(snd.win, written) && 0 < n == E.SendAmount(snd, cfg, credit)
    ensures n <= cfg.MaxPayload() && snd.win.sendPos + n <= |written|
    ensures SendBytes(E.Send(snd, cfg, credit).0.win, written)
    ensures E.Send(snd, cfg, credit).0.win.sendPos == snd.win.sendPos + n
    ensures E.Send(snd, cfg, credit).0.remoteAvail == snd.remoteAvail - n
    ensures E.Send(snd, cfg, credit).0.win.ranges == snd.win.ranges + [Range(snd.win.sendPos, snd.win.sendPos + n)]
    ensures E.Send(snd, cfg, credit).1 ==
            Some(E.Data(snd.win.sendPos, written[snd.win.sendPos..snd.win.sendPos + n]))
  {
    E.SendKeepsValid(snd, cfg, credit);
    var win := SendSpec.Send(snd.win, n).0;
    assert win.buffered[win.sent - n..win.sent] == written[snd.win.sendPos..snd.win.sendPos + n];
  }

  lemma {:induction false} SendKeepsInv(f: Flow, cfg: E.Settings, credit: bool)
    requires Inv(f, cfg)
    ensures Inv(Send(f, cfg, credit), cfg)
  {
    hide StoredBytes, AllLinked, RangesSuffix, AckSound, OutHonest, BackHonest, DeliveredBytes;
    var n := E.SendAmount(f.snd, cfg, credit);
    if n > 0 {
      SendShape(f.snd, cfg, credit, f.written, n);
      SegmentKeepsInv(f, cfg, E.Send(f.snd, cfg, credit).0, f.snd.win.sendPos + n);
    }
  }

  /** A new segment up to `end`. */
  lemma {:induction false} SegmentKeepsInv(f: Flow, cfg: E.Settings, snd: E.Sender, end: int)
    requires Inv(f, cfg)
    requires f.snd.win.sendPos < end == snd.win.sendPos <= f.snd.win.sendPos + cfg.MaxPayload()
    requires SendBytes(snd.win, f.written) && end <= |f.written|
    requires snd.win.ranges == f.snd.win.ranges + [Range(f.snd.win.sendPos, end)]
    requires end + snd.remoteAvail == f.snd.win.sendPos + f.snd.remoteAvail
    ensures Inv(Emit(f, snd, Some(E.Data(f.snd.win.sendPos, f.written[f.snd.win.sendPos..end]))), cfg)
  {
    var start := f.snd.win.sendPos;
    SendKeepsOut(f.out, E.Data(start, f.written[start..end]), start, end, f.rcv, f.bounds, f.written, cfg.MaxPayload());
    SendKeepsRanges(f.snd.win, end, f.rcv, f.bounds, cfg.MaxPayload());
    SendKeepsSound(f.snd.win, snd.win, f.rcv);
    MoreBoundsLinked(f.rcv, f.bounds, start);
  }

  /** A range sent again carries the bytes first sent for it. */
  lemma {:induction false} ResendFaithful(f: Flow, cfg: E.Settings, r: Range)
    requires Inv(f, cfg) && r in f.snd.win.ranges
    ensures 0 <= r.start < r.end <= |f.written|
    ensures E.Resend(f.snd, r) == E.Data(r.start, f.written[r.start..r.end])
  {
    UnackedIsWritten(f.snd.win, f.written, r);
  }

  lemma {:induction false} UnackedIsWritten(win: SendSpec.SendState, written: seq<u8>, r: Range)
    requires SendBytes(win, written) && r in win.ranges
    ensures 0 <= r.start < r.end <= win.sendPos <= |written|
    ensures SendSpec.Unacked(win, r.start, r.end) == written[r.start..r.end]
  {
    SliceOfRest(written, win.UnackedStart(), r.start, r.end);
  }

  lemma {:induction false} SliceOfRest(s: seq<u8>, from: nat, i: nat, j: nat)
    requires from <= i <= j <= |s|
    ensures s[from..][i - from..j - from] == s[i..j]
  {
  }

  lemma {:induction false} ResendKeepsInv(f: Flow, cfg: E.Settings, r: Range)
    requires Inv(f, cfg) && r in f.snd.win.ranges
    ensures Inv(Resend(f, r), cfg)
  {
    ResendFaithful(f, cfg, r);
    assert HonestData(E.Resend(f.snd, r), f.snd.win.sendPos, f.rcv, f.bounds, f.written, cfg.MaxPayload());
  }

  /** The allowance is only granted once everything sent has been stored, and then lets the sender go exactly that
      much past the receive position. */
  lemma {:induction false} BumpKeepsInv(f: Flow, cfg: E.Settings)
    requires Inv(f, cfg)
    ensures Inv(Bump(f, cfg), cfg)
    ensures f.snd.win.ranges == [] ==> f.rcv.recvPos == f.snd.win.sendPos
    ensures f.snd.win.ranges == [] && f.snd.remoteAvail == 0 ==> Horizon(Bump(f, cfg)) == f.rcv.recvPos + cfg.initSend
    ensures f.snd.win.ranges != [] || f.snd.remoteAvail > 0 ==> Bump(f, cfg) == f
  {
    if f.snd.win.ranges == [] {
      AllAckedAllStored(f, cfg);
    }
  }

  lemma {:induction false} AllAckedAllStored(f: Flow, cfg: E.Settings)
    requires Inv(f, cfg) && f.snd.win.ranges == []
    ensures f.rcv.recvPos == f.snd.win.sendPos
  {
    var x := f.rcv.recvPos;
    RecvSpec.RecvPosIsLeastUnstored(f.rcv);
    assert !Covers(f.snd.win.ranges, x);
    assert x >= f.snd.win.sendPos;
    assert RecvSpec.Stored(f.rcv, x - 1);
  }

  // ----- Acknowledgements -----

  lemma {:induction false} LearnKeepsInv(f: Flow, cfg: E.Settings, windowEnd: int)
    requires Inv(f, cfg) && windowEnd <= f.rcv.WindowEnd()
    ensures Inv(f.(snd := E.Learn(f.snd, windowEnd)), cfg)
  {
  }

  /** Acknowledging a stored range. */
  lemma {:induction false} AckRangeKeepsInv(f: Flow, cfg: E.Settings, start: int, end: int)
    requires Inv(f, cfg)
    requires forall x :: start <= x < end ==> RecvSpec.Stored(f.rcv, x)
    ensures Inv(f.(snd := f.snd.(win := SendSpec.AckRange(f.snd.win, start, end).0)), cfg)
  {
    var win, win' := f.snd.win, SendSpec.AckRange(f.snd.win, start, end).0;
    SendSpec.AckKeepsValid(win, start, end);
    assert SendBytes(win', f.written) by {
      AckBytes(win, start, end, f.written);
    }
    forall x | x < win'.sendPos ensures RecvSpec.Stored(f.rcv, x) || Covers(win'.ranges, x) {
      SendSpec.AckCovers(win, start, end, x);
    }
    AckRanges(win, start, end, f.rcv, f.bounds, cfg.MaxPayload());
  }

  lemma {:induction false} AckBytes(win: SendSpec.SendState, start: int, end: int, written: seq<u8>)
    requires SendBytes(win, written)
    ensures SendBytes(SendSpec.AckRange(win, start, end).0, written)
  {
    var from, from' := win.UnackedStart(), SendSpec.AckRange(win, start, end).0.UnackedStart();
    SendSpec.AckKeepsValid(win, start, end);
    SendSpec.AckFrees(win, start, end);
    assert written[from..][from' - from..] == written[from'..];
  }

  /** What an acknowledgement leaves of a range is again a suffix with its beginning stored. */
  lemma {:induction false} AckRanges(win: SendSpec.SendState, start: int, end: int, rcv: RecvSpec.RecvState,
                                     bounds: set<int>, max: int)
    requires SendSpec.Valid(win) && RangesSuffix(win.ranges, rcv, bounds, max)
    requires forall x :: start <= x < end ==> RecvSpec.Stored(rcv, x)
    ensures RangesSuffix(SendSpec.AckRange(win, start, end).0.ranges, rcv, bounds, max)
  {
    var i := FindStart(win.ranges, start);
    if i < |win.ranges| && start < end <= win.ranges[i].end {
      assert win.ranges[i] in win.ranges;
      if end < win.ranges[i].end {
        assert RecvSpec.Stored(rcv, end - 1);
        assert Suffix(rcv, bounds, end, win.ranges[i].end);
      }
    }
  }

  /** Handling an acknowledgement is learning, then perhaps sending, then acknowledging. */
  lemma {:induction false} OnAckKeepsInv(f: Flow, cfg: E.Settings, credit: bool, p: E.Packet)
    requires Inv(f, cfg) && p in f.back && p.Ack?
    ensures Inv(OnAck(f, cfg, credit, p), cfg)
  {
    assert HonestAck(p, f.rcv, cfg.MaxPayload());
    var f1 := f.(snd := E.Learn(f.snd, p.windowEnd));
    LearnKeepsInv(f, cfg, p.windowEnd);
    var f2 := if f.snd.remoteAvail == 0 && f1.snd.remoteAvail != 0 then Send(f1, cfg, credit) else f1;
    SendKeepsInv(f1, cfg, credit);
    AckRangeKeepsInv(f2, cfg, p.start, p.end);
    OnAckSteps(f, f1, f2, cfg, credit, p);
  }

  lemma {:induction false} OnAckSteps(f: Flow, f1: Flow, f2: Flow, cfg: E.Settings, credit: bool, p: E.Packet)
    requires cfg.Valid() && SendSpec.Valid(f.snd.win) && p.Ack?
    requires f1 == f.(snd := E.Learn(f.snd, p.windowEnd))
    requires f2 == if f.snd.remoteAvail == 0 && f1.snd.remoteAvail != 0 then Send(f1, cfg, credit) else f1
    ensures SendSpec.Valid(f2.snd.win)
    ensures OnAck(f, cfg, credit, p) == f2.(snd := f2.snd.(win := SendSpec.AckRange(f2.snd.win, p.start, p.end).0))
  {
    E.SendKeepsValid(f1.snd, cfg, credit);
  }

  // ----- Data -----

  /** A packet that carries a suffix of one segment, what precedes it in the segment being stored, never
      strands a region: a region inside it would have to be linked down to the ready block. */
  lemma {:induction false} SuffixNeverStrands(rcv: RecvSpec.RecvState, bounds: set<int>, start: int, data: seq<u8>)
    requires RecvSpec.Documented(rcv) && AllLinked(rcv, bounds)
    requires Suffix(rcv, bounds, start, start + |data|)
    ensures !RecvSpec.Strands(rcv, start, data)
  {
    if RecvSpec.Strands(rcv, start, data) {
      var z := rcv.unready[0].start;
      assert Linked(rcv, bounds, z);
      assert z < rcv.unready[0].end;
      FirstRegionUnlinked(rcv);
    }
  }

  /** The first unready region begins with a stored position whose predecessor is not stored. */
  lemma {:induction false} FirstRegionUnlinked(rcv: RecvSpec.RecvState)
    requires RecvSpec.Documented(rcv) && rcv.unready != []
    ensures RecvSpec.Stored(rcv, rcv.unready[0].start)
    ensures !RecvSpec.Stored(rcv, rcv.unready[0].start - 1)
    ensures rcv.recvPos < rcv.unready[0].start
  {
    var u := rcv.unready;
    assert u[0].start <= u[0].start < u[0].end;
    forall i | 0 <= i < |u| ensures !(u[i].start <= u[0].start - 1) {
      assert i > 0 ==> u[0].end < u[i].start;
    }
  }

  ghost predicate Grows(rcv: RecvSpec.RecvState, rcv': RecvSpec.RecvState) {
    && rcv.WindowEnd() <= rcv'.WindowEnd()
    && forall x :: RecvSpec.Stored(rcv, x) ==> RecvSpec.Stored(rcv', x)
  }

  /** What is known of packets and ranges survives as more is stored and the window moves on. */
  lemma {:induction false} GrowthKeeps(f: Flow, rcv: RecvSpec.RecvState, max: int)
    requires Grows(f.rcv, rcv)
    ensures RangesSuffix(f.snd.win.ranges, f.rcv, f.bounds, max) ==> RangesSuffix(f.snd.win.ranges, rcv, f.bounds, max)
    ensures AckSound(f.snd.win, f.rcv) ==> AckSound(f.snd.win, rcv)
    ensures OutHonest(f.out, f.snd.win.sendPos, f.rcv, f.bounds, f.written, max) ==>
            OutHonest(f.out, f.snd.win.sendPos, rcv, f.bounds, f.written, max)
    ensures BackHonest(f.back, f.rcv, max) ==> BackHonest(f.back, rcv, max)
  {
    if OutHonest(f.out, f.snd.win.sendPos, f.rcv, f.bounds, f.written, max) {
      forall p | p in f.out ensures HonestData(p, f.snd.win.sendPos, rcv, f.bounds, f.written, max) {
        assert HonestData(p, f.snd.win.sendPos, f.rcv, f.bounds, f.written, max);
      }
    }
    if BackHonest(f.back, f.rcv, max) {
      forall p | p in f.back ensures HonestAck(p, rcv, max) {
        assert HonestAck(p, f.rcv, max);
      }
    }
  }

  lemma {:induction false} ReceiveGrows(rcv: RecvSpec.RecvState, start: int, data: seq<u8>)
    requires RecvSpec.SplitValid(rcv)
    ensures Grows(rcv, RecvSpec.Receive(rcv, start, data).0)
  {
    RecvSpec.ReceiveKeepsSplit(rcv, start, data);
    forall x | RecvSpec.Stored(rcv, x) ensures RecvSpec.Stored(RecvSpec.Receive(rcv, start, data).0, x) {
      RecvSpec.ReceiveUnion(rcv, start, data, x);
    }
  }

  lemma {:induction false} ReceiveKeepsBytes(rcv: RecvSpec.RecvState, start: int, data: seq<u8>, sendPos: int,
                                             written: seq<u8>)
    requires StoredBytes(sendPos, rcv, written) && !RecvSpec.Strands(rcv, start, data)
    requires 0 <= start && start + |data| <= sendPos <= |written| && data == written[start..start + |data|]
    ensures StoredBytes(sendPos, RecvSpec.Receive(rcv, start, data).0, written)
  {
    var rcv' := RecvSpec.Receive(rcv, start, data).0;
    RecvSpec.DocumentedKept(rcv, start, data);
    RecvSpec.ReceiveKeepsSplit(rcv, start, data);
    forall x | RecvSpec.Stored(rcv', x) ensures StoredByte(sendPos, rcv', written, x) {
      ReceiveKeepsByte(rcv, start, data, sendPos, written, x);
    }
  }

  lemma {:induction false} ReceiveKeepsByte(rcv: RecvSpec.RecvState, start: int, data: seq<u8>, sendPos: int,
                                            written: seq<u8>, x: int)
    requires StoredBytes(sendPos, rcv, written) && RecvSpec.Stored(RecvSpec.Receive(rcv, start, data).0, x)
    requires 0 <= start && start + |data| <= sendPos <= |written| && data == written[start..start + |data|]
    ensures StoredByte(sendPos, RecvSpec.Receive(rcv, start, data).0, written, x)
  {
    hide RecvSpec.Receive;
    var inData := start <= x < start + |data|;
    RecvSpec.ReceiveUnion(rcv, start, data, x);
    RecvSpec.ReceiveKeepsSplit(rcv, start, data);
    assert inData || RecvSpec.Stored(rcv, x);
    assert RecvSpec.Stored(rcv, x) ==> StoredByte(sendPos, rcv, written, x);
    if rcv.readPos <= x < rcv.WindowEnd() {
      RecvSpec.ReceiveCells(rcv, start, data, x);
      if inData {
        assert data[x - start] == written[x];
      }
      assert x < rcv.recvPos ==> RecvSpec.Stored(rcv, x);
    }
  }

  lemma {:induction false} ReceiveKeepsLinked(rcv: RecvSpec.RecvState, start: int, data: seq<u8>, bounds: set<int>)
    requires RecvSpec.SplitValid(rcv) && AllLinked(rcv, bounds)
    requires Suffix(rcv, bounds, start, start + |data|)
    ensures AllLinked(RecvSpec.Receive(rcv, start, data).0, bounds)
  {
    forall x ensures Linked(RecvSpec.Receive(rcv, start, data).0, bounds, x) {
      assert Linked(rcv, bounds, x);
      ReceiveKeepsLink(rcv, start, data, bounds, x);
    }
  }

  lemma {:induction false} ReceiveKeepsLink(rcv: RecvSpec.RecvState, start: int, data: seq<u8>, bounds: set<int>,
                                            x: int)
    requires RecvSpec.SplitValid(rcv) && Linked(rcv, bounds, x)
    requires start in bounds || RecvSpec.Stored(rcv, start - 1)
    ensures Linked(RecvSpec.Receive(rcv, start, data).0, bounds, x)
  {
    RecvSpec.ReceiveUnion(rcv, start, data, x);
    RecvSpec.ReceiveUnion(rcv, start, data, x - 1);
  }

  lemma {:induction false} OnDataKeepsInv(f: Flow, cfg: E.Settings, p: E.Packet)
    requires Inv(f, cfg) && p in f.out && p.Data?
    ensures Inv(OnData(f, p), cfg)
  {
    assert HonestData(p, f.snd.win.sendPos, f.rcv, f.bounds, f.written, cfg.MaxPayload());
    StoreKeepsInv(f, cfg, p.start, p.bytes);
    NewAckHonest(f.rcv, p.start, p.bytes, cfg.MaxPayload());
    AddBack(f.(rcv := RecvSpec.Receive(f.rcv, p.start, p.bytes).0), cfg, E.OnData(f.rcv, p.start, p.bytes).1);
  }

  lemma {:induction false} StoreKeepsInv(f: Flow, cfg: E.Settings, start: int, data: seq<u8>)
    requires Inv(f, cfg)
    requires start + |data| <= f.snd.win.sendPos && Suffix(f.rcv, f.bounds, start, start + |data|)
    requires data == f.written[start..start + |data|]
    ensures Inv(f.(rcv := RecvSpec.Receive(f.rcv, start, data).0), cfg)
  {
    SuffixNeverStrands(f.rcv, f.bounds, start, data);
    ReceiveKeepsBytes(f.rcv, start, data, f.snd.win.sendPos, f.written);
    ReceiveKeepsLinked(f.rcv, start, data, f.bounds);
    RecvSpec.ReceiveKeepsSplit(f.rcv, start, data);
    ReceiveGrows(f.rcv, start, data);
    GrowthKeeps(f, RecvSpec.Receive(f.rcv, start, data).0, cfg.MaxPayload());
  }

  lemma {:induction false} AddBack(f: Flow, cfg: E.Settings, ack: Option<E.Packet>)
    requires Inv(f, cfg) && (ack.Some? ==> HonestAck(ack.value, f.rcv, cfg.MaxPayload()))
    ensures Inv(f.(back := if ack.Some? then f.back + {ack.value} else f.back), cfg)
  {
  }

  /** The acknowledgement of what was just received tells the truth. */
  lemma {:induction false} NewAckHonest(rcv: RecvSpec.RecvState, start: int, data: seq<u8>, max: int)
    requires RecvSpec.SplitValid(rcv) && 0 <= start && |data| <= max
    ensures E.OnData(rcv, start, data).1.Some? ==>
            HonestAck(E.OnData(rcv, start, data).1.value, RecvSpec.Receive(rcv, start, data).0, max)
  {
    var res := RecvSpec.Receive(rcv, start, data).1;
    RecvSpec.ReceiveUnion(rcv, start, data, start);
    if res.Some? {
      forall x | start <= x < res.value ensures RecvSpec.Stored(RecvSpec.Receive(rcv, start, data).0, x) {
        RecvSpec.ReceiveUnion(rcv, start, data, x);
      }
    }
  }

  // ----- Reading -----

  lemma {:induction false} ReadKeepsInv(f: Flow, cfg: E.Settings, n: nat)
    requires Inv(f, cfg) && n <= f.rcv.recvPos - f.rcv.readPos
    ensures Inv(Read(f, n), cfg)
  {
    var rcv' := RecvSpec.Take(f.rcv, n);
    TakeKeepsBytes(f.rcv, n, f.snd.win.sendPos, f.written);
    ReadyBytes(f.rcv, n, f.snd.win.sendPos, f.written);
    forall x ensures RecvSpec.Stored(rcv', x) <==> RecvSpec.Stored(f.rcv, x) {
      RecvSpec.TakeMovesWindow(f.rcv, n, x);
    }
    GrowthKeeps(f, rcv', cfg.MaxPayload());
    forall x ensures Linked(rcv', f.bounds, x) {
      assert Linked(f.rcv, f.bounds, x);
    }
    assert f.delivered + f.rcv.cells[..n] == f.written[..f.rcv.readPos + n];
  }

  lemma {:induction false} TakeKeepsBytes(rcv: RecvSpec.RecvState, n: nat, sendPos: int, written: seq<u8>)
    requires StoredBytes(sendPos, rcv, written) && n <= rcv.recvPos - rcv.readPos
    ensures StoredBytes(sendPos, RecvSpec.Take(rcv, n), written)
  {
    var rcv' := RecvSpec.Take(rcv, n);
    RecvSpec.TakeMovesWindow(rcv, n, 0);
    forall x | RecvSpec.Stored(rcv', x) ensures StoredByte(sendPos, rcv', written, x) {
      TakeKeepsByte(rcv, n, sendPos, written, x);
    }
  }

  lemma {:induction false} TakeKeepsByte(rcv: RecvSpec.RecvState, n: nat, sendPos: int, written: seq<u8>, x: int)
    requires StoredBytes(sendPos, rcv, written) && n <= rcv.recvPos - rcv.readPos
    requires RecvSpec.Stored(RecvSpec.Take(rcv, n), x)
    ensures StoredByte(sendPos, RecvSpec.Take(rcv, n), written, x)
  {
    RecvSpec.TakeMovesWindow(rcv, n, x);
    StoredInWindow(rcv, x);
    assert RecvSpec.Stored(rcv, x);
  }

  lemma {:induction false} StoredInWindow(rcv: RecvSpec.RecvState, x: int)
    requires RecvSpec.SplitValid(rcv) && RecvSpec.Stored(rcv, x)
    ensures x < rcv.WindowEnd()
  {
  }

  lemma {:induction false} ReadyBytes(rcv: RecvSpec.RecvState, n: nat, sendPos: int, written: seq<u8>)
    requires StoredBytes(sendPos, rcv, written) && n <= rcv.recvPos - rcv.readPos
    ensures rcv.readPos + n <= |written| && rcv.cells[..n] == written[rcv.readPos..rcv.readPos + n]
  {
    assert RecvSpec.Stored(rcv, rcv.recvPos - 1);
    forall i | 0 <= i < n ensures rcv.cells[i] == written[rcv.readPos + i] {
      assert RecvSpec.Stored(rcv, rcv.readPos + i);
    }
  }

  // ----- The network, and packets of the other direction -----

  /** Losing packets, and any traffic of the opposite direction, keeps the invariant. */
  lemma {:induction false} BagsKeepInv(f: Flow, cfg: E.Settings, out: set<E.Packet>, back: set<E.Packet>)
    requires Inv(f, cfg)
    requires forall p :: p in out && p.Data? ==> p in f.out
    requires forall p :: p in back && p.Ack? ==> p in f.back
    ensures Inv(f.(out := out, back := back), cfg)
  {
    forall p | p in out ensures HonestData(p, f.snd.win.sendPos, f.rcv, f.bounds, f.written, cfg.MaxPayload()) {
      assert p in f.out ==> HonestData(p, f.snd.win.sendPos, f.rcv, f.bounds, f.written, cfg.MaxPayload());
    }
    forall p | p in back ensures HonestAck(p, f.rcv, cfg.MaxPayload()) {
      assert p in f.back ==> HonestAck(p, f.rcv, cfg.MaxPayload());
    }
  }

  // ----- What the invariant gives -----

  /** The sender has kept every byte the receiver lacks, and the receiver holds nothing unsent. */
  lemma {:induction false} AckSoundness(f: Flow, cfg: E.Settings)
    requires Inv(f, cfg)
    ensures f.snd.win.UnackedStart() <= f.rcv.recvPos <= f.snd.win.sendPos
    ensures forall x :: 0 <= x < f.snd.win.sendPos && !RecvSpec.Stored(f.rcv, x) ==>
                          Covers(f.snd.win.ranges, x) && f.snd.win.UnackedStart() <= x
  {
    forall x | 0 <= x < f.snd.win.sendPos && !RecvSpec.Stored(f.rcv, x)
      ensures Covers(f.snd.win.ranges, x) && f.snd.win.UnackedStart() <= x
    {
      SendSpec.UnackedStartIsLeast(f.snd.win, x);
    }
    assert RecvSpec.Stored(f.rcv, f.rcv.recvPos - 1);
    RecvSpec.RecvPosIsLeastUnstored(f.rcv);
  }

  /** Within each segment as it was sent, the stored part is a prefix. */
  lemma {:induction false} SegmentPrefix(f: Flow, cfg: E.Settings, x: int, y: int)
    requires Inv(f, cfg)
    requires x <= y && RecvSpec.Stored(f.rcv, y)
    requires forall b :: b in f.bounds ==> b <= x || y < b
    ensures RecvSpec.Stored(f.rcv, x)
    decreases y - x
  {
    if x < y {
      assert Linked(f.rcv, f.bounds, y);
      SegmentPrefix(f, cfg, x, y - 1);
    }
  }

  /** How far the sender is willing to go. */
  function Horizon(f: Flow): int {
    f.snd.win.sendPos + f.snd.remoteAvail
  }

  /** Sending leaves the horizon where it is, an acknowledgement raises it to the window end it
      advertises if that is further, and the allowance raises it; nothing lowers it. */
  lemma {:induction false} HorizonMoves(f: Flow, cfg: E.Settings, credit: bool, p: E.Packet)
    requires cfg.Valid() && SendSpec.Valid(f.snd.win)
    ensures Horizon(Send(f, cfg, credit)) == Horizon(f)
    ensures p.Ack? ==> Horizon(OnAck(f, cfg, credit, p)) == Max(Horizon(f), p.windowEnd)
    ensures Horizon(f) <= Horizon(Bump(f, cfg))
  {
    SendHorizon(f.snd, cfg, credit);
    if p.Ack? {
      AckHorizon(f, cfg, credit, p);
    }
  }

  /** The send position moves with an acknowledgement exactly when it makes the sender send. */
  lemma {:induction false} AckMoves(snd: E.Sender, cfg: E.Settings, credit: bool, p: E.Packet)
    requires cfg.Valid() && SendSpec.Valid(snd.win) && p.Ack?
    ensures var (snd', packet) := E.OnAck(snd, cfg, credit, p.start, p.end, p.windowEnd);
            if packet.Some? then snd'.win.sendPos > snd.win.sendPos else snd'.win.sendPos == snd.win.sendPos
  {
    hide E.Send, SendSpec.AckRange;
    var learnt := E.Learn(snd, p.windowEnd);
    E.SendKeepsValid(learnt, cfg, credit);
    E.SendIsMaximal(learnt, cfg, credit);
    SendSpec.AckKeepsValid(learnt.win, p.start, p.end);
    SendSpec.AckKeepsValid(E.Send(learnt, cfg, credit).0.win, p.start, p.end);
  }

  lemma {:induction false} AckHorizon(f: Flow, cfg: E.Settings, credit: bool, p: E.Packet)
    requires cfg.Valid() && SendSpec.Valid(f.snd.win) && p.Ack?
    ensures Horizon(OnAck(f, cfg, credit, p)) == Max(Horizon(f), p.windowEnd)
  {
    hide Send, OnAck, SendSpec.AckRange, SendSpec.Valid;
    var f1 := f.(snd := E.Learn(f.snd, p.windowEnd));
    var f2 := if f.snd.remoteAvail == 0 && f1.snd.remoteAvail != 0 then Send(f1, cfg, credit) else f1;
    OnAckSteps(f, f1, f2, cfg, credit, p);
    MidHorizon(f, f1, f2, cfg, credit);
    SendSpec.AckKeepsValid(f2.snd.win, p.start, p.end);
  }

  lemma {:induction false} MidHorizon(f: Flow, f1: Flow, f2: Flow, cfg: E.Settings, credit: bool)
    requires cfg.Valid() && SendSpec.Valid(f1.snd.win)
    requires f2 == if f.snd.remoteAvail == 0 && f1.snd.remoteAvail != 0 then Send(f1, cfg, credit) else f1
    ensures Horizon(f2) == Horizon(f1)
  {
    SendHorizon(f1.snd, cfg, credit);
  }

  lemma {:induction false} SendHorizon(snd: E.Sender, cfg: E.Settings, credit: bool)
    requires cfg.Valid() && SendSpec.Valid(snd.win)
    ensures E.Send(snd, cfg, credit).0.win.sendPos + E.Send(snd, cfg, credit).0.remoteAvail
            == snd.win.sendPos + snd.remoteAvail
  {
    E.SendKeepsValid(snd, cfg, credit);
  }
}
