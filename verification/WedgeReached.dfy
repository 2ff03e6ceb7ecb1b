/** The states of Wedge are reached from a fresh start, with packets delivered within their lifetime: so the
    bound on the windows under which the connection never stalls is exact. */
module WedgeReached {
  import opened Prelude
  import opened StreamPosition
  import opened RangeList
  import SendSpec
  import RecvSpec
  import E = Endpoint
  import opened S = System
  import W = WireSystem
  import N = NoStall
  import G = Wedge

  ghost predicate At(s0: System, c: Config, s: System) {
    Init(s0, c) && W.Sized(s0) && W.Reaches(s0, c, s, false)
  }

  lemma {:induction false} AtInv(s0: System, s: System, c: Config)
    requires At(s0, c, s)
    ensures Inv(s, c) && W.SameSizes(s0, s)
  {
    InitInv(s0, c);
    W.ReachesKeepsInv(s0, c, s, false);
  }

  /** What the invariant says of the windows. */
  lemma {:induction false} AtValid(s0: System, s: System, c: Config)
    requires At(s0, c, s)
    ensures c.a.Valid() && c.b.Valid() && SendSpec.Valid(s.a.snd.win) && W.Sized(s)
    ensures 0 < |s.b.rcv.cells| && s.b.rcv.readPos <= s.b.rcv.recvPos
  {
    AtInv(s0, s, c);
  }

  lemma {:induction false} Take(s0: System, s: System, c: Config, byA: bool, act: Action) returns (s': System)
    requires At(s0, c, s)
    requires Enabled(W.Side(s, byA), act) && W.InTime(W.Side(s, byA), act) && W.Near(W.Side(s, byA), act)
    ensures Step(s, c, byA, act, s') && At(s0, c, s') && W.SameSizes(s, s')
  {
    AtInv(s0, s, c);
    s' := W.Take(s0, s, c, byA, act, false);
  }

  /** All that a wrote has been sent, stored and read, up to position k. */
  predicate Caught(s: System, k: nat) {
    && s.a.snd.win.sendPos == k && |s.a.snd.win.buffered| == s.a.snd.win.sent
    && s.b.rcv.readPos == s.b.rcv.recvPos == k && s.b.rcv.unready == []
  }

  // ----- What goes across -----

  lemma {:induction false} SendOne(snd: E.Sender, cfg: E.Settings, written: E.Sender)
    requires cfg.Valid() && SendSpec.Valid(snd.win) && |snd.win.buffered| == snd.win.sent < snd.win.capacity
    requires snd.remoteAvail > 0 && written == snd.(win := SendSpec.Write(snd.win, seq(1, _ => 0)).0)
    ensures SendSpec.Valid(written.win)
    ensures E.Send(written, cfg, true).0 ==
            E.Sender(written.win.(sendPos := snd.win.sendPos + 1, sent := snd.win.sent + 1,
                                  ranges := snd.win.ranges + [Range(snd.win.sendPos, snd.win.sendPos + 1)]),
                     snd.remoteAvail - 1)
    ensures E.Send(written, cfg, true).1 == Some(E.Data(snd.win.sendPos, [0]))
    ensures |written.win.buffered| == snd.win.sent + 1
  {
    assert written.win.buffered == snd.win.buffered + [0];
    assert written.win.buffered[snd.win.sent..snd.win.sent + 1] == [0];
    assert E.SendAmount(written, cfg, true) == 1;
  }

  lemma {:induction false} SendByte(s0: System, s: System, c: Config, k: nat) returns (s': System)
    requires At(s0, c, s) && Caught(s, k)
    requires s.a.snd.win.sent < s.a.snd.win.capacity && s.a.snd.remoteAvail > 0
    ensures At(s0, c, s') && W.SameSizes(s, s') && s'.b == s.b && s'.ba == s.ba
    ensures s'.a.snd.win.ranges == s.a.snd.win.ranges + [Range(k, k + 1)] && s'.a.snd.win.sendPos == k + 1
    ensures |s'.a.snd.win.buffered| == s'.a.snd.win.sent == s.a.snd.win.sent + 1
    ensures s'.a.snd.remoteAvail == s.a.snd.remoteAvail - 1
    ensures s'.ab == s.ab + {E.Data(k, [0])}
  {
    var m := WriteZeros(s0, s, c, 1);
    AtValid(s0, s, c);
    SendOne(s.a.snd, c.a, m.a.snd);
    s' := SendStep(s0, m, c, E.Send(m.a.snd, c.a, true).0, E.Data(k, [0]));
  }

  lemma {:induction false} SendStep(s0: System, s: System, c: Config, snd: E.Sender, p: E.Packet) returns (s': System)
    requires At(s0, c, s) && c.a.Valid() && SendSpec.Valid(s.a.snd.win)
    requires E.Send(s.a.snd, c.a, true) == (snd, Some(p))
    ensures At(s0, c, s') && W.SameSizes(s, s') && s'.b == s.b && s'.ba == s.ba
    ensures s'.a.snd == snd && s'.ab == s.ab + {p}
  {
    s' := Take(s0, s, c, true, Send(true));
  }

  lemma {:induction false} WriteZeros(s0: System, s: System, c: Config, n: nat) returns (s': System)
    requires At(s0, c, s)
    ensures |s.a.snd.win.buffered| <= s.a.snd.win.capacity
    ensures At(s0, c, s') && W.SameSizes(s, s') && s'.b == s.b && s'.ab == s.ab && s'.ba == s.ba
    ensures s'.a.snd == s.a.snd.(win := SendSpec.Write(s.a.snd.win, seq(n, _ => 0)).0)
  {
    AtValid(s0, s, c);
    s' := Take(s0, s, c, true, Write(seq(n, _ => 0)));
  }

  /** Data for an empty window is ready at once, and acknowledged up to its end. */
  lemma {:induction false} StoreSpec(rcv: RecvSpec.RecvState, bytes: seq<u8>)
    requires rcv.readPos == rcv.recvPos && rcv.unready == [] && 0 < |bytes| <= |rcv.cells|
    ensures var (rcv', ack) := E.OnData(rcv, rcv.recvPos, bytes);
            && rcv'.readPos == rcv.readPos && rcv'.recvPos == rcv.recvPos + |bytes| && rcv'.unready == []
            && ack == Some(E.Ack(rcv.recvPos, rcv.recvPos + |bytes|, rcv.recvPos + |rcv.cells|))
  {
    hide RecvSpec.Join, RecvSpec.Merge, RecvSpec.CellsAfter, Overwrite;
    NothingToJoin(rcv.recvPos + |bytes|);
    RecvSpec.ReceiveIs(rcv, rcv.recvPos, bytes);
  }

  lemma {:induction false} NothingToJoin(end: int)
    ensures RecvSpec.Join([], end) == (end, [])
  {
  }

  lemma {:induction false} Store(s0: System, s: System, c: Config, k: nat, p: E.Packet) returns (s': System)
    requires At(s0, c, s) && p in s.ab && p.Data? && p.start == k && s.b.rcv.readPos == k
    requires s.a.snd.win.sendPos - k == |p.bytes| && 0 < |p.bytes| <= |s.b.rcv.cells|
    requires s.b.rcv.recvPos == k && s.b.rcv.unready == []
    ensures At(s0, c, s') && W.SameSizes(s, s') && s'.a == s.a && s'.ab == s.ab
    ensures s'.b.rcv.readPos == k && s'.b.rcv.recvPos == k + |p.bytes| && s'.b.rcv.unready == []
    ensures s'.ba == s.ba + {E.Ack(k, k + |p.bytes|, k + |s.b.rcv.cells|)}
  {
    AtValid(s0, s, c);
    StoreSpec(s.b.rcv, p.bytes);
    s' := Take(s0, s, c, false, Receive(p, false));
  }

  /** Data is stored and read. */
  lemma {:induction false} StoreAndRead(s0: System, s: System, c: Config, k: nat, p: E.Packet) returns (s': System)
    requires At(s0, c, s) && p in s.ab && p.Data? && p.start == k && s.b.rcv.readPos == k
    requires s.a.snd.win.sendPos - k == |p.bytes| && 0 < |p.bytes| <= |s.b.rcv.cells|
    requires s.b.rcv.recvPos == k && s.b.rcv.unready == []
    ensures At(s0, c, s') && W.SameSizes(s, s') && s'.a == s.a && s'.ab == s.ab
    ensures s'.b.rcv.readPos == s'.b.rcv.recvPos == k + |p.bytes| && s'.b.rcv.unready == []
    ensures s'.ba == s.ba + {E.Ack(k, k + |p.bytes|, k + |s.b.rcv.cells|)}
  {
    var m := Store(s0, s, c, k, p);
    s' := Take(s0, m, c, false, Read(|p.bytes|));
  }

  /** Write a byte, send it, store it and read it; its acknowledgement is then in flight. */
  lemma {:induction false} OneByte(s0: System, s: System, c: Config, k: nat) returns (s': System)
    requires At(s0, c, s) && Caught(s, k)
    requires s.a.snd.win.sent < s.a.snd.win.capacity && s.a.snd.remoteAvail > 0
    ensures At(s0, c, s') && W.SameSizes(s, s') && Caught(s', k + 1)
    ensures s'.a.snd.win.ranges == s.a.snd.win.ranges + [Range(k, k + 1)]
    ensures s'.a.snd.win.sent == s.a.snd.win.sent + 1 && s'.a.snd.remoteAvail == s.a.snd.remoteAvail - 1
    ensures s'.ab == s.ab + {E.Data(k, [0])} && s'.ba == s.ba + {E.Ack(k, k + 1, k + |s.b.rcv.cells|)}
  {
    var m := SendByte(s0, s, c, k);
    AtValid(s0, m, c);
    s' := StoreAndRead(s0, m, c, k, E.Data(k, [0]));
  }

  /** A byte that arrives again after it was read is acknowledged again, up to the window end as it is by then. */
  lemma {:induction false} Duplicate(s0: System, s: System, c: Config, j: nat, k: nat) returns (s': System)
    requires At(s0, c, s) && Caught(s, k) && j < k && E.Data(j, [0]) in s.ab
    requires k + |s.b.rcv.cells| - j < HALF
    ensures At(s0, c, s') && W.SameSizes(s, s') && s'.a == s.a && s'.ab == s.ab && Caught(s', k)
    ensures s'.ba == s.ba + {E.Ack(j, j + 1, k + |s.b.rcv.cells|)}
  {
    AtValid(s0, s, c);
    RecvSpec.ReceiveIs(s.b.rcv, j, [0]);
    s' := Take(s0, s, c, false, Receive(E.Data(j, [0]), false));
  }

  /** What remains of the window when the last byte sent is acknowledged. */
  lemma {:induction false} LastRemoved(win: SendSpec.SendState, rs: seq<Range>, k: int)
    requires SendSpec.Valid(win) && win.ranges == rs + [Range(k, k + 1)]
    requires win.sendPos == k + 1 && |win.buffered| == win.sent
    ensures var win' := SendSpec.AckRange(win, k, k + 1).0;
            && win'.sendPos == k + 1 && win'.ranges == rs
            && |win'.buffered| == win'.sent == if rs == [] then 0 else win.sent
  {
    var all := win.ranges;
    assert all[|rs|] == Range(k, k + 1);
    assert FindStart(all, k) == |rs|;
    assert all[..|rs|] + all[|rs| + 1..] == rs;
  }

  lemma {:induction false} AckSpec(snd: E.Sender, cfg: E.Settings, rs: seq<Range>, k: int, windowEnd: int)
    requires cfg.Valid() && SendSpec.Valid(snd.win) && snd.win.ranges == rs + [Range(k, k + 1)]
    requires snd.win.sendPos == k + 1 <= windowEnd && |snd.win.buffered| == snd.win.sent
    ensures var (snd', packet) := E.OnAck(snd, cfg, false, k, k + 1, windowEnd);
            && packet == None && snd'.remoteAvail >= windowEnd - (k + 1) && snd'.win.sendPos == k + 1
            && snd'.win.ranges == rs && |snd'.win.buffered| == snd'.win.sent == if rs == [] then 0 else snd.win.sent
  {
    LastRemoved(snd.win, rs, k);
    hide SendSpec.AckRange, SendSpec.Valid;
  }

  /** The acknowledgement of the last byte arrives. */
  lemma {:induction false} AckLast(s0: System, s: System, c: Config, k: nat, rs: seq<Range>, windowEnd: int)
    returns (s': System)
    requires At(s0, c, s) && Caught(s, k + 1) && s.a.snd.win.ranges == rs + [Range(k, k + 1)]
    requires E.Ack(k, k + 1, windowEnd) in s.ba && k + 1 <= windowEnd
    ensures At(s0, c, s') && W.SameSizes(s, s') && Caught(s', k + 1) && s'.ab == s.ab && s'.ba == s.ba
    ensures s'.a.snd.win.ranges == rs && s'.a.snd.remoteAvail >= windowEnd - (k + 1)
    ensures s'.a.snd.win.sent == if rs == [] then 0 else s.a.snd.win.sent
  {
    AtValid(s0, s, c);
    AckSpec(s.a.snd, c.a, rs, k, windowEnd);
    s' := AckStep(s0, s, c, E.Ack(k, k + 1, windowEnd), E.OnAck(s.a.snd, c.a, false, k, k + 1, windowEnd).0);
  }

  /** The last byte is acknowledged so that the sender knows of room: by its first acknowledgement, or, if the window
      is so small that this one announces too little, by the one a repetition gets. */
  lemma {:induction false} Acknowledge(s0: System, s: System, c: Config, k: nat, rs: seq<Range>) returns (s': System)
    requires At(s0, c, s) && Caught(s, k + 1) && s.a.snd.win.ranges == rs + [Range(k, k + 1)]
    requires E.Ack(k, k + 1, k + |s.b.rcv.cells|) in s.ba && E.Data(k, [0]) in s.ab
    ensures At(s0, c, s') && W.SameSizes(s, s') && Caught(s', k + 1) && s'.ab == s.ab
    ensures forall p :: p in s'.ba && p.Ack? ==> p in s.ba || p.start == k
    ensures s'.a.snd.win.ranges == rs && s'.a.snd.remoteAvail >= Min(2, |s.b.rcv.cells|)
    ensures s'.a.snd.win.sent == if rs == [] then 0 else s.a.snd.win.sent
  {
    AtValid(s0, s, c);
    if |s.b.rcv.cells| >= 3 {
      s' := AckLast(s0, s, c, k, rs, k + |s.b.rcv.cells|);
    } else {
      var m := Duplicate(s0, s, c, k, k + 1);
      s' := AckLast(s0, m, c, k, rs, k + 1 + |s.b.rcv.cells|);
    }
  }

  /** An acknowledgement of what was acknowledged long ago still tells the sender of room. */
  lemma {:induction false} Probe(s0: System, s: System, c: Config, k: nat) returns (s': System)
    requires At(s0, c, s) && Caught(s, k + 1) && s.a.snd.win.ranges == [Range(k, k + 1)] && s.a.snd.win.sent == 1
    requires k == 1 && E.Data(0, [0]) in s.ab && |s.b.rcv.cells| < HALF - 2
    ensures At(s0, c, s') && W.SameSizes(s, s') && Caught(s', k + 1) && s'.ab == s.ab
    ensures forall p :: p in s'.ba && p.Ack? ==> p in s.ba || p.start == 0
    ensures s'.a.snd.win == s.a.snd.win && s'.a.snd.remoteAvail >= |s.b.rcv.cells|
  {
    var m := Duplicate(s0, s, c, 0, k + 1);
    AtValid(s0, m, c);
    assert FindStart(m.a.snd.win.ranges, 0) == 1;
    s' := AckStep(s0, m, c, E.Ack(0, 1, k + 1 + |s.b.rcv.cells|),
                  E.OnAck(m.a.snd, c.a, false, 0, 1, k + 1 + |s.b.rcv.cells|).0);
  }

  lemma {:induction false} AckStep(s0: System, s: System, c: Config, p: E.Packet, snd: E.Sender) returns (s': System)
    requires At(s0, c, s) && p in s.ba && p.Ack? && s.a.snd.win.sendPos - p.start < HALF
    requires c.a.Valid() && SendSpec.Valid(s.a.snd.win)
    requires E.OnAck(s.a.snd, c.a, false, p.start, p.end, p.windowEnd) == (snd, None)
    ensures At(s0, c, s') && W.SameSizes(s, s') && s'.b == s.b && s'.ba == s.ba && s'.ab == s.ab && s'.a.snd == snd
  {
    s' := Take(s0, s, c, true, Receive(p, false));
  }

  // ----- Up to a full window -----

  /** n bytes have been sent since the first, the oldest of them is the only one unacked, and no acknowledgement
      of it is in flight. */
  predicate Stage(s: System, n: nat) {
    && Caught(s, n + 1) && s.a.snd.win.ranges == [Range(1, 2)] && s.a.snd.win.sent == n && s.a.snd.remoteAvail > 0
    && forall p :: p in s.ba && p.Ack? ==> p.start != 1
  }

  lemma {:induction false} FirstStage(s0: System, c: Config) returns (s': System)
    requires Init(s0, c) && W.Sized(s0) && s0.a.snd.win.capacity > 0
    ensures At(s0, c, s') && W.SameSizes(s0, s') && Stage(s', 1)
  {
    W.ReachesSelf(s0, c, false);
    var s1 := OneByte(s0, s0, c, 0);
    var s2 := Acknowledge(s0, s1, c, 0, []);
    var s3 := OneByte(s0, s2, c, 1);
    var s4 := LoseAck(s0, s3, c, E.Ack(1, 2, 1 + |s0.b.rcv.cells|));
    if s4.a.snd.remoteAvail > 0 {
      s' := s4;
    } else {
      s' := Probe(s0, s4, c, 1);
    }
  }

  lemma {:induction false} LoseAck(s0: System, s: System, c: Config, p: E.Packet) returns (s': System)
    requires At(s0, c, s)
    ensures At(s0, c, s') && W.SameSizes(s, s') && s'.a == s.a && s'.b == s.b && s'.ab == s.ab && s'.ba == s.ba - {p}
  {
    s' := Take(s0, s, c, false, Lose(p));
  }

  lemma {:induction false} NextStage(s0: System, s: System, c: Config, n: nat) returns (s': System)
    requires At(s0, c, s) && Stage(s, n) && 0 < n < s.a.snd.win.capacity
    ensures At(s0, c, s') && W.SameSizes(s, s') && Stage(s', n + 1)
  {
    var m := OneByte(s0, s, c, n + 1);
    s' := Acknowledge(s0, m, c, n + 1, [Range(1, 2)]);
    AtValid(s0, s, c);
  }

  lemma {:induction false} LastStage(s0: System, s: System, c: Config, n: nat) returns (s': System)
    requires At(s0, c, s) && Stage(s, n) && 0 < n <= s.a.snd.win.capacity
    ensures At(s0, c, s') && W.SameSizes(s, s') && Stage(s', s.a.snd.win.capacity)
    decreases s.a.snd.win.capacity - n
  {
    if n == s.a.snd.win.capacity {
      s' := s;
    } else {
      var m := NextStage(s0, s, c, n);
      s' := LastStage(s0, m, c, n + 1);
    }
  }

  /** Whatever the settings, windows that span 2^31 positions together can be wedged. */
  lemma {:induction false} WedgeReachable(s0: System, c: Config)
    requires Init(s0, c) && W.Sized(s0) && !N.Roomy(Forward(s0))
    ensures exists s :: W.Reaches(s0, c, s, false) && G.Wedged(s, c, Range(1, 2))
  {
    var m := FirstStage(s0, c);
    var s := LastStage(s0, m, c, 1);
    AtInv(s0, s, c);
    assert G.Wedged(s, c, Range(1, 2));
  }

  // ----- The bound is exact -----

  /** Every reachable state has a quiet continuation that drains both streams. */
  ghost predicate AlwaysDrains(s0: System, c: Config) {
    forall s :: W.Reaches(s0, c, s, false) ==> CanDrain(s, c)
  }

  ghost predicate CanDrain(s: System, c: Config) {
    exists s' :: W.Reaches(s, c, s', true) && N.BothDrained(s')
                 && s'.a.written == s.a.written && s'.b.written == s.b.written
  }

  lemma {:induction false} WedgedCannotDrain(s: System, c: Config, r: Range)
    requires G.Wedged(s, c, r)
    ensures !CanDrain(s, c)
  {
    forall s' | W.Reaches(s, c, s', true) ensures !N.BothDrained(s') {
      var ss, who, acts :| W.Path(s, c, s', true, ss, who, acts);
      G.WedgedForever(ss, who, acts, c, r, |acts|);
    }
  }

  lemma {:induction false} NotRoomyNotDrained(s0: System, c: Config)
    requires Init(s0, c) && W.Sized(s0) && !N.Roomy(Forward(s0))
    ensures !AlwaysDrains(s0, c)
  {
    WedgeReachable(s0, c);
    var s :| W.Reaches(s0, c, s, false) && G.Wedged(s, c, Range(1, 2));
    WedgedCannotDrain(s, c, Range(1, 2));
  }

  lemma {:induction false} AlwaysDrainsSwapped(s0: System, c: Config)
    requires AlwaysDrains(s0, c)
    ensures AlwaysDrains(Swap(s0), SwapConfig(c))
  {
    assert Swap(Swap(s0)) == s0 && SwapConfig(SwapConfig(c)) == c;
    forall s | W.Reaches(Swap(s0), SwapConfig(c), s, false) ensures CanDrain(s, SwapConfig(c)) {
      W.ReachesSwapped(Swap(s0), SwapConfig(c), s, false);
      assert CanDrain(Swap(s), c);
      CanDrainSwapped(Swap(s), c);
      assert Swap(Swap(s)) == s;
    }
  }

  lemma {:induction false} CanDrainSwapped(s: System, c: Config)
    requires CanDrain(s, c)
    ensures CanDrain(Swap(s), SwapConfig(c))
  {
    var s' :| W.Reaches(s, c, s', true) && N.BothDrained(s')
              && s'.a.written == s.a.written && s'.b.written == s.b.written;
    W.ReachesSwapped(s, c, s', true);
    assert N.BothDrained(Swap(s'));
  }

  /** The connection can drain from every reachable state exactly when each send window and the receive window
      opposite span less than 2^31 positions together. */
  lemma {:induction false} DrainsExactly(s0: System, c: Config)
    requires Init(s0, c) && W.Sized(s0)
    ensures AlwaysDrains(s0, c) <==> N.BothRoomy(s0)
  {
    if N.BothRoomy(s0) {
      forall s | W.Reaches(s0, c, s, false) ensures CanDrain(s, c) {
        N.NeverStalls(s0, c, s);
      }
    } else if AlwaysDrains(s0, c) {
      AlwaysDrainsSwapped(s0, c);
      if !N.Roomy(Forward(s0)) {
        NotRoomyNotDrained(s0, c);
      } else {
        NotRoomyNotDrained(Swap(s0), SwapConfig(c));
      }
    }
  }

  // ----- Bytes that are never delivered -----

  /** A sender whose allowance equals one packet, facing a receive window that spans 2^31 positions together with
      that packet: the packet is stored and read, its acknowledgement is lost, and the byte behind it is never
      sent. */
  lemma {:induction false} StarvationReachable(s0: System, c: Config)
    requires Init(s0, c) && W.Sized(s0) && c.a.initSend < s0.a.snd.win.capacity
    requires c.a.initSend <= c.a.MaxPayload() && c.a.initSend <= |s0.b.rcv.cells|
    requires c.a.initSend + |s0.b.rcv.cells| >= HALF
    ensures exists s :: W.Reaches(s0, c, s, false) && G.Starved(s, c, Range(0, c.a.initSend))
  {
    hide Inv, G.Starved, W.Reaches;
    var n := c.a.initSend;
    W.ReachesSelf(s0, c, false);
    var s1 := WriteZeros(s0, s0, c, n + 1);
    var s2 := SendAll(s0, s1, c, n);
    var p :| p in s2.ab && p.Data? && p.start == 0 && |p.bytes| == n && s2.ab == {p};
    var s3 := StoreAndRead(s0, s2, c, 0, p);
    var s := LoseAck(s0, s3, c, E.Ack(0, n, |s0.b.rcv.cells|));
    AtInv(s0, s, c);
    IsStarved(s, c, n);
  }

  lemma {:induction false} IsStarved(s: System, c: Config, n: nat)
    requires Inv(s, c) && W.Sized(s) && s.a.snd.win.ranges == [Range(0, n)] && s.a.snd.remoteAvail == 0
    requires s.b.rcv.readPos == s.b.rcv.recvPos == s.a.snd.win.sendPos == n && n + |s.b.rcv.cells| >= HALF
    requires s.a.snd.win.sent < |s.a.snd.win.buffered| && s.ba == {}
    requires forall p :: p in s.ab ==> p.Data? && p.start == 0
    ensures G.Starved(s, c, Range(0, n))
  {
  }

  lemma {:induction false} SendAll(s0: System, s: System, c: Config, n: nat) returns (s': System)
    requires At(s0, c, s) && s.ab == {} && s.ba == {} && 0 < n == s.a.snd.remoteAvail <= c.a.MaxPayload()
    requires s.a.snd.win.sendPos == 0 && s.a.snd.win.ranges == [] && |s.a.snd.win.buffered| == n + 1
    ensures At(s0, c, s') && W.SameSizes(s, s') && s'.b == s.b && s'.ba == {}
    ensures s'.a.snd.win.sendPos == n && s'.a.snd.win.ranges == [Range(0, n)] && s'.a.snd.remoteAvail == 0
    ensures s'.a.snd.win.sent < |s'.a.snd.win.buffered|
    ensures exists p :: p in s'.ab && p.Data? && p.start == 0 && |p.bytes| == n && s'.ab == {p}
  {
    AtValid(s0, s, c);
    assert E.SendAmount(s.a.snd, c.a, true) == n;
    var p := E.Send(s.a.snd, c.a, true).1.value;
    s' := SendStep(s0, s, c, E.Send(s.a.snd, c.a, true).0, p);
    assert p in s'.ab && s'.ab == {p};
  }
}
