/** The connection cannot stall, over wrapping positions: when each send window and the receive window opposite
    together span less than 2^31 positions, every reachable state has a continuation, in which the applications
    write nothing more, after which everything written has been read and acknowledged. */
module NoStall {
  import opened Prelude
  import opened StreamPosition
  import opened RangeList
  import SendSpec
  import RecvSpec
  import E = Endpoint
  import F = Flow
  import L = Lifetime
  import opened S = System
  import W = WireSystem

  /** A send window and the receive window opposite span less than half a turn together. */
  predicate Roomy(f: F.Flow) {
    f.snd.win.capacity + |f.rcv.cells| < HALF
  }

  predicate BothRoomy(s: System) {
    Roomy(Forward(s)) && Roomy(Backward(s))
  }

  /** Everything a wrote has been read at b and acknowledged, so that all of a's window is free again. */
  predicate Drained(f: F.Flow) {
    f.delivered == f.written && f.snd.win.ranges == [] && f.snd.win.buffered == []
  }

  predicate BothDrained(s: System) {
    Drained(Forward(s)) && Drained(Backward(s))
  }

  /** Bytes of a's stream that are not acknowledged yet, sent or not. */
  function Outstanding(s: System): int {
    Left(s.a.snd.win)
  }

  function Left(win: SendSpec.SendState): int {
    |win.buffered| - win.sent + TotalLength(win.ranges)
  }

  lemma {:induction false} OutstandingBounds(s: System, c: Config)
    requires Inv(s, c)
    ensures Outstanding(s) >= 0
    ensures Outstanding(s) == 0 ==> s.a.snd.win.ranges == [] && |s.a.snd.win.buffered| == s.a.snd.win.sent
  {
    SendSpec.TotalNonNegative(s.a.snd.win.ranges);
  }

  // ----- Single steps of a continuation -----

  /** s is a point of a quiet continuation of s0. */
  ghost predicate At(s0: System, c: Config, s: System) {
    Inv(s, c) && W.Sized(s) && Roomy(Forward(s)) && W.Reaches(s0, c, s, true)
  }

  /** Only a's stream has moved. */
  predicate SameOther(s: System, s': System) {
    && s'.b.snd == s.b.snd && s'.b.written == s.b.written
    && s'.a.rcv == s.a.rcv && s'.a.delivered == s.a.delivered
    && s'.a.written == s.a.written && W.SameSizes(s, s')
  }

  lemma {:induction false} Take(s0: System, s: System, c: Config, byA: bool, act: Action) returns (s': System)
    requires At(s0, c, s) && !act.Write?
    requires Enabled(W.Side(s, byA), act) && W.InTime(W.Side(s, byA), act) && W.Near(W.Side(s, byA), act)
    ensures Step(s, c, byA, act, s') && At(s0, c, s') && W.SameSizes(s, s')
  {
    hide Step, Inv, Enabled, W.InTime, W.Near, W.Reaches;
    s' := W.Take(s0, s, c, byA, act, true);
  }

  // ----- One round: repeat the oldest range and carry its acknowledgement back -----

  /** The receiver reads all that is ready, which leaves room in its window. */
  lemma {:induction false} ReadAll(s0: System, s: System, c: Config) returns (s': System)
    requires At(s0, c, s)
    ensures At(s0, c, s') && SameOther(s, s') && s'.a == s.a
    ensures s'.b.rcv.recvPos == s.b.rcv.recvPos == |s'.b.delivered| < s'.b.rcv.WindowEnd()
  {
    s' := Take(s0, s, c, false, Read(s.b.rcv.recvPos - s.b.rcv.readPos));
  }

  lemma {:induction false} RepeatOldest(s0: System, s: System, c: Config) returns (s': System)
    requires At(s0, c, s) && s.a.snd.win.ranges != []
    ensures At(s0, c, s') && s'.a == s.a && s'.b == s.b
    ensures SendSpec.Valid(s.a.snd.win) && E.Resend(s.a.snd, s.a.snd.win.ranges[0]) in s'.ab
  {
    s' := Take(s0, s, c, true, Resend(s.a.snd.win.ranges[0]));
  }

  /** Every unacked range starts near the end of the receiver's window, if the windows are small enough. */
  lemma {:induction false} UnackedIsNear(f: F.Flow, cfg: E.Settings, r: Range)
    requires F.Inv(f, cfg) && r in f.snd.win.ranges
    ensures L.Sized(f) ==> L.InTime(f, E.Resend(f.snd, r))
    ensures Roomy(f) ==> L.Near(f, E.Resend(f.snd, r))
  {
    F.AckSoundness(f, cfg);
  }

  lemma {:induction false} DeliverOldest(s0: System, s: System, c: Config, p: E.Packet, r: Range, credit: bool)
    returns (s': System, ack: E.Packet)
    requires At(s0, c, s) && s.b.rcv.recvPos < s.b.rcv.WindowEnd()
    requires s.a.snd.win.ranges != [] && r == s.a.snd.win.ranges[0] && p == E.Resend(s.a.snd, r) && p in s.ab
    ensures At(s0, c, s') && SameOther(s, s') && s'.a == s.a
    ensures ack in s'.ba && ack.Ack? && ack.start == r.start < ack.end <= r.end
  {
    UnackedIsNear(Forward(s), c.a, r);
    ack := OldestIsAcknowledged(s, c, p, r);
    s' := Take(s0, s, c, false, Receive(p, credit));
  }

  lemma {:induction false} AckIsNear(s: System, c: Config, ack: E.Packet, r: Range, credit: bool)
    requires Inv(s, c) && W.Sized(s) && r in s.a.snd.win.ranges && ack.Ack? && ack.start == r.start
    ensures W.InTime(W.Side(s, true), Receive(ack, credit))
    ensures Roomy(Forward(s)) ==> W.Near(W.Side(s, true), Receive(ack, credit))
  {
    UnackedIsNear(Forward(s), c.a, r);
  }

  lemma {:induction false} AckLeaves(s: System, c: Config, ack: E.Packet, r: Range, credit: bool, s': System)
    requires Step(s, c, true, Receive(ack, credit), s') && W.SameSizes(s, s') && SendSpec.Valid(s.a.snd.win)
    requires r in s.a.snd.win.ranges && ack.Ack? && ack.start == r.start < ack.end <= r.end
    ensures SameOther(s, s') && s'.b == s.b && Outstanding(s') < Outstanding(s)
  {
    hide E.OnAck, Left;
    AckReduces(s.a.snd, c.a, credit, ack, r);
  }

  lemma {:induction false} SenderValid(s: System, c: Config)
    requires Inv(s, c)
    ensures SendSpec.Valid(s.a.snd.win)
  {
  }

  lemma {:induction false} DeliverAck(s0: System, s: System, c: Config, ack: E.Packet, r: Range, credit: bool)
    returns (s': System)
    requires At(s0, c, s) && r in s.a.snd.win.ranges
    requires ack in s.ba && ack.Ack? && ack.start == r.start < ack.end <= r.end
    ensures At(s0, c, s') && SameOther(s, s') && s'.b == s.b
    ensures Outstanding(s') < Outstanding(s)
  {
    SenderValid(s, c);
    AckIsNear(s, c, ack, r, credit);
    hide Step, Inv, W.Reaches, SameOther, Outstanding;
    s' := Take(s0, s, c, true, Receive(ack, credit));
    AckLeaves(s, c, ack, r, credit, s');
  }

  /** After the receiver has read what is ready, repeating the oldest unacked range, delivering it and
      delivering its acknowledgement leaves strictly fewer bytes outstanding. */
  lemma {:induction false} Round(s0: System, s: System, c: Config, credit: bool) returns (s': System)
    requires At(s0, c, s) && s.a.snd.win.ranges != []
    ensures At(s0, c, s') && SameOther(s, s')
    ensures Outstanding(s') < Outstanding(s)
  {
    var s1 := ReadAll(s0, s, c);
    var s2 := RepeatOldest(s0, s1, c);
    var r := s.a.snd.win.ranges[0];
    var s3, ack := DeliverOldest(s0, s2, c, E.Resend(s.a.snd, r), r, credit);
    s' := DeliverAck(s0, s3, c, ack, r, credit);
  }

  /** The oldest range starts inside the window of a receiver that has room. */
  lemma {:induction false} OldestIsAcknowledged(s: System, c: Config, p: E.Packet, r: Range) returns (ack: E.Packet)
    requires Inv(s, c) && s.a.snd.win.ranges != [] && r == s.a.snd.win.ranges[0] && p == E.Resend(s.a.snd, r)
    requires s.b.rcv.recvPos < s.b.rcv.WindowEnd()
    ensures E.OnData(s.b.rcv, p.start, p.bytes).1 == Some(ack)
    ensures ack.Ack? && ack.start == r.start < ack.end <= r.end
  {
    F.AckSoundness(Forward(s), c.a);
    F.ResendFaithful(Forward(s), c.a, r);
    RecvSpec.ReceiveUnion(s.b.rcv, p.start, p.bytes, p.start);
    ack := E.OnData(s.b.rcv, p.start, p.bytes).1.value;
  }

  /** Acknowledging the beginning of an unacked range reduces what is outstanding, even if handling the
      acknowledgement also sends new data. */
  lemma {:induction false} AckReduces(snd: E.Sender, cfg: E.Settings, credit: bool, ack: E.Packet, r: Range)
    requires cfg.Valid() && SendSpec.Valid(snd.win) && r in snd.win.ranges
    requires ack.Ack? && ack.start == r.start < ack.end <= r.end
    ensures Left(E.OnAck(snd, cfg, credit, ack.start, ack.end, ack.windowEnd).0.win)
            == Left(snd.win) - (ack.end - ack.start)
  {
    var learnt := E.Learn(snd, ack.windowEnd);
    E.SendKeepsValid(learnt, cfg, credit);
    var sent := if snd.remoteAvail == 0 && learnt.remoteAvail != 0 then E.Send(learnt, cfg, credit).0 else learnt;
    SendOutstanding(learnt, cfg, credit);
    assert r in sent.win.ranges;
    AckReducesWindow(sent.win, r, ack.end);
  }

  lemma {:induction false} AckReducesWindow(win: SendSpec.SendState, r: Range, end: int)
    requires SendSpec.Valid(win) && r in win.ranges && r.start < end <= r.end
    ensures Left(SendSpec.AckRange(win, r.start, end).0) == Left(win) - (end - r.start)
  {
    SendSpec.FindRange(win.ranges, r);
    SendSpec.AckKeepsValid(win, r.start, end);
    SendSpec.AckShrinks(win, r.start, end);
  }

  /** Sending only moves bytes from waiting to unacked. */
  lemma {:induction false} SendOutstanding(snd: E.Sender, cfg: E.Settings, credit: bool)
    requires cfg.Valid() && SendSpec.Valid(snd.win)
    ensures Left(E.Send(snd, cfg, credit).0.win) == Left(snd.win)
    ensures snd.win.ranges <= E.Send(snd, cfg, credit).0.win.ranges
  {
    E.SendKeepsValid(snd, cfg, credit);
    var n := E.SendAmount(snd, cfg, credit);
    if n > 0 {
      SendSpec.TotalAppend(snd.win.ranges, [Range(snd.win.sendPos, snd.win.sendPos + n)]);
    }
  }

  // ----- Getting something sent when nothing is unacked -----

  /** With nothing unacked and bytes waiting, the end-of-round allowance and one send make a range unacked. */
  lemma {:induction false} StartSending(s0: System, s: System, c: Config) returns (s': System)
    requires At(s0, c, s) && s.a.snd.win.ranges == [] && s.a.snd.win.sent < |s.a.snd.win.buffered|
    ensures At(s0, c, s') && SameOther(s, s')
    ensures s'.a.snd.win.ranges != [] && Outstanding(s') == Outstanding(s)
  {
    var s1 := Allow(s0, s, c);
    s' := SendSome(s0, s1, c);
  }

  lemma {:induction false} Allow(s0: System, s: System, c: Config) returns (s': System)
    requires At(s0, c, s) && s.a.snd.win.ranges == []
    ensures At(s0, c, s') && SameOther(s, s')
    ensures s'.a.snd.win == s.a.snd.win && s'.a.snd.remoteAvail > 0
  {
    hide F.StoredBytes, F.DeliveredBytes, F.AllLinked, F.RangesSuffix, F.AckSound, F.OutHonest, F.BackHonest, W.Reaches;
    s' := Take(s0, s, c, true, Bump);
  }

  lemma {:induction false} SendSome(s0: System, s: System, c: Config) returns (s': System)
    requires At(s0, c, s) && s.a.snd.win.sent < |s.a.snd.win.buffered| && s.a.snd.remoteAvail > 0
    ensures At(s0, c, s') && SameOther(s, s')
    ensures s'.a.snd.win.ranges != [] && Outstanding(s') == Outstanding(s)
  {
    hide F.StoredBytes, F.DeliveredBytes, F.AllLinked, F.RangesSuffix, F.AckSound, F.OutHonest, F.BackHonest, W.Reaches;
    s' := Take(s0, s, c, true, Send(true));
    SendOutstanding(s.a.snd, c.a, true);
    E.SendKeepsValid(s.a.snd, c.a, true);
  }

  // ----- The whole stream, and the other one -----

  /** All of a's stream can still be read at b and acknowledged, leaving b's stream as it is. */
  lemma {:induction false} Drain(s0: System, s: System, c: Config) returns (s': System)
    requires At(s0, c, s)
    ensures At(s0, c, s') && SameOther(s, s') && Drained(Forward(s'))
    decreases Outstanding(s)
  {
    OutstandingBounds(s, c);
    if s.a.snd.win.ranges != [] {
      var m := Round(s0, s, c, true);
      OutstandingBounds(m, c);
      s' := Drain(s0, m, c);
    } else if s.a.snd.win.sent < |s.a.snd.win.buffered| {
      var m := StartSending(s0, s, c);
      var m' := Round(s0, m, c, true);
      OutstandingBounds(m', c);
      s' := Drain(s0, m', c);
    } else {
      F.AllAckedAllStored(Forward(s), c.a);
      s' := ReadAll(s0, s, c);
    }
  }

  /** One continuation drains both streams. */
  lemma {:induction false} DrainBoth(s0: System, s: System, c: Config) returns (s': System)
    requires At(s0, c, s) && BothRoomy(s)
    ensures W.Reaches(s0, c, s', true) && BothDrained(s')
    ensures s'.a.written == s.a.written && s'.b.written == s.b.written
  {
    var m := Drain(s0, s, c);
    W.ReachesSwapped(s0, c, m, true);
    var t := Drain(Swap(s0), Swap(m), SwapConfig(c));
    W.ReachesSwapped(Swap(s0), SwapConfig(c), t, true);
    s' := Swap(t);
  }

  /** In every state reachable over wrapping positions, whatever was lost, repeated or reordered before, there is
      a continuation without further writes after which all that either side wrote has been read by the other
      and acknowledged. */
  lemma {:induction false} NeverStalls(s0: System, c: Config, s: System)
    requires Init(s0, c) && W.Sized(s0) && BothRoomy(s0) && W.Reaches(s0, c, s, false)
    ensures exists s' :: W.Reaches(s, c, s', true) && BothDrained(s')
                         && s'.a.written == s.a.written && s'.b.written == s.b.written
  {
    InitInv(s0, c);
    W.ReachesKeepsInv(s0, c, s, false);
    W.ReachesSelf(s, c, true);
    var s' := DrainBoth(s, s, c);
  }
}
