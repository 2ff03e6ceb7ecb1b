/** When the wrapping code handles a packet exactly as the unbounded protocol does: the exact conditions, the
    packet lifetime that is enough for them, and what happens without it. */
module Lifetime {
  import opened Prelude
  import opened StreamPosition
  import opened RangeList
  import SendSpec
  import RecvSpec
  import SW = SendWindow
  import RW = RecvWindow
  import E = Endpoint
  import F = Flow
  import Wire
  import T = Task

  /** The packet lifetime: the stream has moved less than 2^31 positions past where the packet starts. */
  predicate InTime(f: F.Flow, p: E.Packet) {
    f.snd.win.sendPos - p.start < HALF
  }

  /** Window sizes the constructors accept. */
  predicate Sized(f: F.Flow) {
    |f.rcv.cells| < HALF && f.snd.win.capacity < HALF
  }

  // ----- Data -----

  /** The data starts less than half a turn before the end of the receiver's window. */
  predicate Near(f: F.Flow, p: E.Packet) {
    f.rcv.WindowEnd() - p.start < HALF
  }

  lemma {:induction false} DataDecodes(f: F.Flow, cfg: E.Settings, p: E.Packet)
    requires F.Inv(f, cfg) && p in f.out && p.Data?
    ensures T.Encodable(p) && Wire.Decode(T.Encode(p)) == Wire.Data(Wrap(p.start), p.bytes)
  {
    assert F.HonestData(p, f.snd.win.sendPos, f.rcv, f.bounds, f.written, cfg.MaxPayload());
    Wire.DataRoundTrip(Wrap(p.start), p.bytes);
  }

  /** Data in flight that is near the window end is handled as over integers. */
  lemma {:induction false} NearAgrees(f: F.Flow, cfg: E.Settings, p: E.Packet)
    requires F.Inv(f, cfg) && Sized(f) && p in f.out && p.Data? && Near(f, p)
    ensures RW.LiftStart(f.rcv, Wrap(p.start)) == p.start
    ensures T.DataOnWire(f.rcv, Wrap(p.start), p.bytes) == E.OnData(f.rcv, p.start, p.bytes)
  {
    assert F.HonestData(p, f.snd.win.sendPos, f.rcv, f.bounds, f.written, cfg.MaxPayload());
    F.AckSoundness(f, cfg);
    assert p.start < f.snd.win.sendPos <= f.rcv.recvPos + f.snd.win.capacity;
    LiftsRecover(f.rcv.WindowEnd(), p.start);
  }

  /** Exactly when the wrapping code handles data in flight as the unbounded protocol does. */
  lemma {:induction false} DataExact(f: F.Flow, cfg: E.Settings, p: E.Packet)
    requires F.Inv(f, cfg) && Sized(f) && p in f.out && p.Data?
    ensures RW.InReach(f.rcv) && T.Locates(f.rcv, Wrap(p.start), |p.bytes|)
    ensures T.DataOnWire(f.rcv, Wrap(p.start), p.bytes) == E.OnData(f.rcv, p.start, p.bytes) <==> Near(f, p)
  {
    RW.DocumentedInReach(f.rcv);
    RW.InReachLocates(f.rcv, RW.LiftStart(f.rcv, Wrap(p.start)), |p.bytes|);
    if Near(f, p) {
      NearAgrees(f, cfg, p);
    } else {
      assert F.HonestData(p, f.snd.win.sendPos, f.rcv, f.bounds, f.written, cfg.MaxPayload());
      RecvSpec.ReceiveUnion(f.rcv, p.start, p.bytes, 0);
      assert E.OnData(f.rcv, p.start, p.bytes).1.value.start != RW.LiftStart(f.rcv, Wrap(p.start));
    }
  }

  /** Within its lifetime, data in flight is handled as over integers, or is too far from the window end and
      then neither stored nor answered; it is never taken for other data. */
  lemma {:induction false} DataInTime(f: F.Flow, cfg: E.Settings, p: E.Packet)
    requires F.Inv(f, cfg) && Sized(f) && p in f.out && p.Data? && InTime(f, p)
    ensures T.DataOnWire(f.rcv, Wrap(p.start), p.bytes) ==
            if Near(f, p) then E.OnData(f.rcv, p.start, p.bytes) else (f.rcv, None)
  {
    F.AckSoundness(f, cfg);
    if Near(f, p) {
      NearAgrees(f, cfg, p);
    } else {
      FarIsSilent(f.rcv, p.start, p.bytes);
    }
  }

  lemma {:induction false} FarIsSilent(rcv: RecvSpec.RecvState, start: int, bytes: seq<u8>)
    requires rcv.readPos <= rcv.recvPos && HALF <= rcv.WindowEnd() - start < MODULUS
    ensures T.DataOnWire(rcv, Wrap(start), bytes) == (rcv, None)
  {
    ReadBeyond(rcv.WindowEnd(), start);
    BeyondIsSilent(rcv, start + MODULUS, bytes);
  }

  /** A position between half a turn and a whole turn back is read as the one a turn on. */
  lemma {:induction false} ReadBeyond(anchor: int, start: int)
    requires HALF <= anchor - start < MODULUS
    ensures LiftNearAhead(anchor, Wrap(start)) == start + MODULUS
  {
    WrapTurn(start);
    LiftsRecover(anchor, start + MODULUS);
    assert anchor - HALF < start + MODULUS <= anchor + HALF;
  }

  lemma {:induction false} BeyondIsSilent(rcv: RecvSpec.RecvState, start: int, bytes: seq<u8>)
    requires rcv.readPos <= rcv.recvPos && rcv.WindowEnd() <= start
    ensures E.OnData(rcv, start, bytes) == (rcv, None)
  {
  }

  // ----- Acknowledgements -----

  lemma {:induction false} AckDecodes(f: F.Flow, cfg: E.Settings, p: E.Packet)
    requires F.Inv(f, cfg) && p in f.back && p.Ack?
    ensures T.Encodable(p)
    ensures Wire.Decode(T.Encode(p)) == Wire.Ack(Wrap(p.start), Wrap(p.end), Wrap(p.windowEnd))
  {
    assert F.HonestAck(p, f.rcv, cfg.MaxPayload());
    WrapSub(p.end, p.start);
    Wire.AckRoundTrip(Wrap(p.start), Wrap(p.end), Wrap(p.windowEnd));
  }

  /** The window end advertised is not more than half a turn old, or what it is mistaken for is no news. */
  predicate LearnsAlike(snd: E.Sender, windowEnd: int) {
    || snd.win.sendPos - windowEnd <= HALF
    || LiftNearBehind(snd.win.sendPos, Wrap(windowEnd)) <= snd.win.sendPos + snd.remoteAvail
  }

  /** `len` positions from `start` on begin one of the unacked ranges. */
  ghost predicate Names(win: SendSpec.SendState, start: int, len: int) {
    exists e :: start + len <= e && Range(start, e) in win.ranges
  }

  /** The range acknowledged is not before the unacked start, or what it is mistaken for is no unacked range. */
  ghost predicate NamesAlike(win: SendSpec.SendState, start: int, end: int) {
    win.UnackedStart() <= start || !Names(win, LiftFrom(win.UnackedStart(), Wrap(start)), end - start)
  }

  /** The send side once it has learnt from an acknowledgement, and perhaps sent. */
  function Informed(snd: E.Sender, cfg: E.Settings, credit: bool, windowEnd: int): E.Sender
    requires cfg.Valid() && SendSpec.Valid(snd.win)
  {
    var learnt := E.Learn(snd, windowEnd);
    if snd.remoteAvail == 0 && learnt.remoteAvail != 0 then E.Send(learnt, cfg, credit).0 else learnt
  }

  /** Exactly when the wrapping code handles an acknowledgement in flight as the unbounded protocol does. */
  lemma {:induction false} AckExact(f: F.Flow, cfg: E.Settings, p: E.Packet, credit: bool)
    requires F.Inv(f, cfg) && Sized(f) && p in f.back && p.Ack?
    ensures T.AckOnWire(f.snd, cfg, credit, Wrap(p.start), Wrap(p.end), Wrap(p.windowEnd)) ==
            E.OnAck(f.snd, cfg, credit, p.start, p.end, p.windowEnd)
            <==> LearnsAlike(f.snd, p.windowEnd)
                 && NamesAlike(Informed(f.snd, cfg, credit, p.windowEnd).win, p.start, p.end)
  {
    assert F.HonestAck(p, f.rcv, cfg.MaxPayload());
    F.AckSoundness(f, cfg);
    assert RecvSpec.Stored(f.rcv, p.start);
    var lifted := LiftNearBehind(f.snd.win.sendPos, Wrap(p.windowEnd));
    LearnExact(f.snd, p.windowEnd, lifted);
    var a, b := Informed(f.snd, cfg, credit, lifted), Informed(f.snd, cfg, credit, p.windowEnd);
    InformedShape(f.snd, cfg, credit, lifted);
    InformedShape(f.snd, cfg, credit, p.windowEnd);
    var onWire := SW.LiftAck(f.snd.win, Wrap(p.start), Wrap(p.end));
    SendSpec.AckKeepsValid(a.win, onWire.start, onWire.end);
    SendSpec.AckKeepsValid(b.win, p.start, p.end);
    if LearnsAlike(f.snd, p.windowEnd) {
      NamesExact(b.win, p.start, p.end);
    }
  }

  lemma {:induction false} LearnExact(snd: E.Sender, windowEnd: int, lifted: int)
    requires lifted == LiftNearBehind(snd.win.sendPos, Wrap(windowEnd)) && windowEnd - snd.win.sendPos < HALF
    ensures LearnsAlike(snd, windowEnd) ==> E.Learn(snd, lifted) == E.Learn(snd, windowEnd)
    ensures !LearnsAlike(snd, windowEnd) ==> E.Learn(snd, lifted).remoteAvail > E.Learn(snd, windowEnd).remoteAvail
  {
    LiftsRecover(snd.win.sendPos, windowEnd);
  }

  lemma {:induction false} NamesExact(win: SendSpec.SendState, start: int, end: int)
    requires SendSpec.Valid(win) && win.capacity < HALF && start < end < start + HALF && start < win.sendPos
    ensures SW.AckLifted(win, SW.LiftAck(win, Wrap(start), Wrap(end))).0 == SendSpec.AckRange(win, start, end).0
            <==> NamesAlike(win, start, end)
  {
    var r := SW.LiftAck(win, Wrap(start), Wrap(end));
    LiftsRecover(r.start, r.start + (end - start));
    assert r.end == r.start + (end - start) by {
      SameImage(r.start, start, end - start);
    }
    if win.UnackedStart() <= start {
      LiftsRecover(win.UnackedStart(), start);
    } else {
      NoRangeAt(win, start, end);
      NamedIsAcked(win, r.start, r.end);
    }
  }

  lemma {:induction false} SameImage(x: int, y: int, n: int)
    requires Wrap(x) == Wrap(y)
    ensures Wrap(x + n) == Wrap(y + n)
  {
  }

  /** An acknowledgement changes the window exactly when it names the beginning of an unacked range. */
  lemma {:induction false} NamedIsAcked(win: SendSpec.SendState, start: int, end: int)
    requires SendSpec.Valid(win) && start < end
    ensures SendSpec.AckRange(win, start, end).0 != win <==> Names(win, start, end - start)
  {
    SendSpec.AckCharacterised(win, start, end);
    if SendSpec.AckRange(win, start, end).1 != SendSpec.NotFound {
      SendSpec.AckShrinks(win, start, end);
      assert Names(win, start, end - start);
    }
  }

  lemma {:induction false} InformedShape(snd: E.Sender, cfg: E.Settings, credit: bool, windowEnd: int)
    requires cfg.Valid() && SendSpec.Valid(snd.win)
    ensures SendSpec.Valid(Informed(snd, cfg, credit, windowEnd).win)
    ensures Informed(snd, cfg, credit, windowEnd).win.UnackedStart() == snd.win.UnackedStart()
    ensures Informed(snd, cfg, credit, windowEnd).win.capacity == snd.win.capacity
    ensures 0 <= Informed(snd, cfg, credit, windowEnd).win.sendPos - snd.win.sendPos <= Wire.MAX_PAYLOAD
    ensures Informed(snd, cfg, credit, windowEnd).win.sendPos + Informed(snd, cfg, credit, windowEnd).remoteAvail
            == snd.win.sendPos + E.Learn(snd, windowEnd).remoteAvail
  {
    E.SendKeepsValid(E.Learn(snd, windowEnd), cfg, credit);
  }

  /** For an acknowledgement much longer than its lifetime, nearly a whole turn, the conditions hold. */
  lemma {:induction false} AckInTime(f: F.Flow, cfg: E.Settings, p: E.Packet, credit: bool)
    requires F.Inv(f, cfg) && Sized(f) && p in f.back && p.Ack?
    requires f.snd.win.sendPos - p.start < MODULUS - 0x8000 && f.snd.win.sendPos - p.windowEnd <= HALF
    ensures T.AckOnWire(f.snd, cfg, credit, Wrap(p.start), Wrap(p.end), Wrap(p.windowEnd)) ==
            E.OnAck(f.snd, cfg, credit, p.start, p.end, p.windowEnd)
  {
    AckExact(f, cfg, p, credit);
    assert F.HonestAck(p, f.rcv, cfg.MaxPayload());
    F.AckSoundness(f, cfg);
    assert RecvSpec.Stored(f.rcv, p.start);
    InformedShape(f.snd, cfg, credit, p.windowEnd);
    if p.start < f.snd.win.UnackedStart() {
      ReadOneTurnOn(f.snd.win.UnackedStart(), p.start);
    }
  }

  /** Reading the start of an acknowledgement from the unacked start on either recovers it, or, when the
      range was acknowledged long ago, gives a position no range starts at; the answer is the same. */
  lemma {:induction false} OldAckAgrees(s: SendSpec.SendState, start: int, end: int, from: int)
    requires SendSpec.Valid(s) && s.capacity < HALF && from == s.UnackedStart()
    requires start < end < start + HALF && s.sendPos - start < MODULUS && start < s.sendPos
    ensures SendSpec.AckRange(s, LiftFrom(from, Wrap(start)), LiftFrom(LiftFrom(from, Wrap(start)), Wrap(end)))
            == SendSpec.AckRange(s, start, end)
  {
    if start >= from {
      LiftsRecover(from, start);
      LiftsRecover(start, end);
    } else {
      ReadOneTurnOn(from, start);
      NoRangeAt(s, start, end);
      NoRangeAt(s, start + MODULUS, LiftFrom(start + MODULUS, Wrap(end)));
    }
  }

  lemma {:induction false} ReadOneTurnOn(from: int, start: int)
    requires from <= start + MODULUS < from + MODULUS
    ensures LiftFrom(from, Wrap(start)) == start + MODULUS
  {
    LiftsRecover(from, start + MODULUS);
    WrapTurn(start);
  }

  lemma {:induction false} NoRangeAt(s: SendSpec.SendState, start: int, end: int)
    requires SendSpec.Valid(s) && !(s.UnackedStart() <= start < s.sendPos)
    ensures SendSpec.AckRange(s, start, end) == (s, SendSpec.NotFound)
  {
  }

  // ----- Without the lifetime -----

  /** A packet that is one whole turn of the counter old is taken for new data, and its bytes are stored where
      different ones belong. */
  lemma {:induction false} StalePacketAccepted()
    ensures var r := RecvSpec.RecvState(MODULUS, MODULUS, [], [0, 0, 0, 0]);
            && RecvSpec.Documented(r)
            && E.OnData(r, 0, [7]) == (r, Some(E.Ack(0, 1, MODULUS + 4)))
            && T.DataOnWire(r, Wrap(0), [7]).0.recvPos == MODULUS + 1
            && T.DataOnWire(r, Wrap(0), [7]).0.cells == [7, 0, 0, 0]
  {
    var r := RecvSpec.RecvState(MODULUS, MODULUS, [], [0, 0, 0, 0]);
    NewByteStored(r);
    assert RW.LiftStart(r, Wrap(0)) == MODULUS by {
      LiftsRecover(r.WindowEnd(), MODULUS);
    }
  }

  lemma {:induction false} NewByteStored(r: RecvSpec.RecvState)
    requires r == RecvSpec.RecvState(MODULUS, MODULUS, [], [0, 0, 0, 0])
    ensures RecvSpec.Receive(r, MODULUS, [7]).0.recvPos == MODULUS + 1
    ensures RecvSpec.Receive(r, MODULUS, [7]).0.cells == [7, 0, 0, 0]
  {
    RecvSpec.ReceiveIs(r, MODULUS, [7]);
    assert RecvSpec.CellsAfter(r, MODULUS, [7]) == [7, 0, 0, 0];
  }
}
