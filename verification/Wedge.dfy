/** Without room between the windows the connection can stall for good. When a send window and the receive window
    opposite together span 2^31 positions or more, all of what was sent can be stored and read while the first
    range is still unacked; it then starts half a turn or more before the window end, where no repetition of it
    is ever answered. */
module Wedge {
  import opened Prelude
  import opened StreamPosition
  import opened RangeList
  import RecvSpec
  import E = Endpoint
  import F = Flow
  import opened S = System
  import W = WireSystem

  /** All that was sent has been stored and read, one range is still unacked, and it starts too far from the
      window end to be answered. */
  predicate Unanswerable(s: System, r: Range) {
    && s.a.snd.win.ranges == [r]
    && s.b.rcv.readPos == s.b.rcv.recvPos == s.a.snd.win.sendPos
    && s.b.rcv.WindowEnd() - r.start >= HALF
  }

  /** Moreover the send window is full, and no acknowledgement of the range is in flight. */
  ghost predicate Wedged(s: System, c: Config, r: Range) {
    && Inv(s, c) && W.Sized(s) && Unanswerable(s, r)
    && s.a.snd.win.sent == |s.a.snd.win.buffered| == s.a.snd.win.capacity
    && forall p :: p in s.ba && p.Ack? ==> p.start != r.start
  }

  /** Or bytes wait to be sent, the sender believes the remote has no room, and nothing in flight can tell it
      otherwise. */
  ghost predicate Starved(s: System, c: Config, r: Range) {
    && Inv(s, c) && W.Sized(s) && Unanswerable(s, r)
    && s.a.snd.win.sent < |s.a.snd.win.buffered| && s.a.snd.remoteAvail == 0
    && (forall p :: p in s.ab && p.Data? ==> p.start == r.start)
    && (forall p :: p in s.ba ==> p.Data?)
  }

  // ----- There is no way out -----

  lemma {:induction false} FarIsOutside(s: System, c: Config, r: Range, p: E.Packet)
    requires Inv(s, c) && Unanswerable(s, r) && p in s.ab && p.Data?
    ensures 0 <= p.start && p.start + |p.bytes| <= s.b.rcv.recvPos
    ensures WellFormed(s) && E.OnData(s.b.rcv, p.start, p.bytes).0 == s.b.rcv
    ensures E.OnData(s.b.rcv, p.start, p.bytes).1.Some? ==>
              && E.OnData(s.b.rcv, p.start, p.bytes).1.value.Ack?
              && E.OnData(s.b.rcv, p.start, p.bytes).1.value.start == p.start
  {
    assert F.HonestData(p, s.a.snd.win.sendPos, s.b.rcv, s.a.bounds, s.a.written, c.a.MaxPayload());
    RecvSpec.ReceiveIs(s.b.rcv, p.start, p.bytes);
  }

  lemma {:induction false} ForeignAck(s: System, c: Config, r: Range, credit: bool, p: E.Packet)
    requires Wedged(s, c, r) && p in s.ba && p.Ack?
    ensures E.OnAck(s.a.snd, c.a, credit, p.start, p.end, p.windowEnd).0.win == s.a.snd.win
    ensures E.OnAck(s.a.snd, c.a, credit, p.start, p.end, p.windowEnd).1 == None
  {
    assert FindStart([r], p.start) == 1;
  }

  /** Any step at all leaves a wedged send window as it is. */
  lemma {:induction false} StepStaysWedged(s: System, c: Config, r: Range, byA: bool, act: Action, s': System)
    requires Wedged(s, c, r) && W.TimelyStep(s, c, byA, act, s')
    ensures Wedged(s', c, r) && s'.a.snd.win == s.a.snd.win
  {
    W.StepAgrees(s, c, byA, act, s');
    if W.Near(W.Side(s, byA), act) {
      if byA {
        ByAStaysWedged(s, c, r, act, s');
      } else {
        ByBStaysWedged(s, c, r, act, s');
      }
    }
  }

  lemma {:induction false} ByAStaysWedged(s: System, c: Config, r: Range, act: Action, s': System)
    requires Wedged(s, c, r) && Step(s, c, true, act, s') && Inv(s', c) && W.SameSizes(s, s')
    ensures Wedged(s', c, r) && s'.a.snd.win == s.a.snd.win
  {
    WedgedSender(s, c, r, act, s');
  }

  lemma {:induction false} WedgedSender(s: System, c: Config, r: Range, act: Action, s': System)
    requires Wedged(s, c, r) && Step(s, c, true, act, s')
    ensures s'.a.snd.win == s.a.snd.win && s'.b == s.b && s'.ba == s.ba
  {
    match act {
      case Write(data) =>
        assert s.a.snd.win.buffered + data[..0] == s.a.snd.win.buffered;
      case Receive(p, credit) =>
        if p.Ack? {
          ForeignAck(s, c, r, credit, p);
        }
      case _ =>
    }
  }

  lemma {:induction false} ByBStaysWedged(s: System, c: Config, r: Range, act: Action, s': System)
    requires Wedged(s, c, r) && Step(s, c, false, act, s') && Inv(s', c) && W.SameSizes(s, s')
    requires W.Near(Swap(s), act)
    ensures Wedged(s', c, r) && s'.a.snd.win == s.a.snd.win
  {
    StepByB(s, c, r, act, s');
  }

  /** What the receiver can still do: answer data that is not the unacked range. */
  lemma {:induction false} StepByB(s: System, c: Config, r: Range, act: Action, s': System)
    requires Inv(s, c) && Unanswerable(s, r) && Step(s, c, false, act, s') && W.Near(Swap(s), act)
    ensures s'.a == s.a && s'.ab == s.ab && s'.b.rcv == s.b.rcv && s'.b.delivered == s.b.delivered
    ensures forall p :: p in s'.ba && p.Ack? ==> p in s.ba || (act.Receive? && act.packet.Data? && p.start > r.start)
  {
    match act {
      case Read(n) =>
        assert RecvSpec.Take(s.b.rcv, 0) == s.b.rcv;
        assert s.b.delivered + s.b.rcv.cells[..0] == s.b.delivered;
      case Receive(p, credit) =>
        if p.Data? {
          FarIsOutside(s, c, r, p);
        } else {
          E.SendKeepsValid(E.Learn(s.b.snd, p.windowEnd), c.b, credit);
        }
      case _ =>
    }
  }

  /** From a wedged state the send window never changes again: no byte is ever accepted from the application. */
  lemma {:induction false} WedgedForever(ss: seq<System>, who: seq<bool>, acts: seq<Action>, c: Config, r: Range,
                                         i: nat)
    requires W.Run(ss, who, acts, c) && Wedged(ss[0], c, r) && i < |ss|
    ensures Wedged(ss[i], c, r) && ss[i].a.snd.win == ss[0].a.snd.win
  {
    hide Wedged, W.TimelyStep;
    if i > 0 {
      WedgedForever(ss, who, acts, c, r, i - 1);
      StepStaysWedged(ss[i - 1], c, r, who[i - 1], acts[i - 1], ss[i]);
    }
  }

  /** A starved sender stays so, and nothing more is delivered. */
  lemma {:induction false} StepStaysStarved(s: System, c: Config, r: Range, byA: bool, act: Action, s': System)
    requires Starved(s, c, r) && W.TimelyStep(s, c, byA, act, s')
    ensures Starved(s', c, r) && s'.b.delivered == s.b.delivered
  {
    W.StepAgrees(s, c, byA, act, s');
    if W.Near(W.Side(s, byA), act) {
      if byA {
        ByAStaysStarved(s, c, r, act, s');
      } else {
        ByBStaysStarved(s, c, r, act, s');
      }
    }
  }

  lemma {:induction false} ByBStaysStarved(s: System, c: Config, r: Range, act: Action, s': System)
    requires Starved(s, c, r) && Step(s, c, false, act, s') && Inv(s', c) && W.SameSizes(s, s')
    requires W.Near(Swap(s), act)
    ensures Starved(s', c, r) && s'.b.delivered == s.b.delivered
  {
    StepByB(s, c, r, act, s');
  }

  lemma {:induction false} ByAStaysStarved(s: System, c: Config, r: Range, act: Action, s': System)
    requires Starved(s, c, r) && Step(s, c, true, act, s') && Inv(s', c) && W.SameSizes(s, s')
    ensures Starved(s', c, r) && s'.b == s.b
  {
    StarvedSender(s, c, r, act, s');
    StarvedPackets(s, c, r, act, s');
  }

  lemma {:induction false} StarvedSender(s: System, c: Config, r: Range, act: Action, s': System)
    requires Starved(s, c, r) && Step(s, c, true, act, s')
    ensures s'.a.snd.win.ranges == [r] && s'.a.snd.win.sendPos == s.a.snd.win.sendPos && s'.a.snd.remoteAvail == 0
    ensures s'.a.snd.win.sent == s.a.snd.win.sent && |s.a.snd.win.buffered| <= |s'.a.snd.win.buffered|
  {
  }

  lemma {:induction false} StarvedPackets(s: System, c: Config, r: Range, act: Action, s': System)
    requires Starved(s, c, r) && Step(s, c, true, act, s')
    ensures s'.b == s.b && s'.ba == s.ba
    ensures forall p :: p in s'.ab && p.Data? ==> p.start == r.start
  {
    hide F.StoredBytes, F.DeliveredBytes, F.AllLinked, F.RangesSuffix, F.AckSound, F.OutHonest, F.BackHonest;
  }

  lemma {:induction false} SomeWait(s: System, c: Config, r: Range)
    requires Starved(s, c, r)
    ensures s.b.delivered < s.a.written
  {
  }

  /** From a starved state nothing more is ever delivered, though bytes that were accepted wait. */
  lemma {:induction false} StarvedForever(ss: seq<System>, who: seq<bool>, acts: seq<Action>, c: Config, r: Range,
                                          i: nat)
    requires W.Run(ss, who, acts, c) && Starved(ss[0], c, r) && i < |ss|
    ensures Starved(ss[i], c, r)
    ensures ss[i].b.delivered == ss[0].b.delivered < ss[i].a.written
  {
    hide Starved, W.TimelyStep;
    if i > 0 {
      StarvedForever(ss, who, acts, c, r, i - 1);
      StepStaysStarved(ss[i - 1], c, r, who[i - 1], acts[i - 1], ss[i]);
    }
    SomeWait(ss[i], c, r);
  }
}
