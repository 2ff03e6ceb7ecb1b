/** Two endpoints joined by a network that may lose, duplicate and reorder packets. */
module System {
  import opened Prelude
  import opened RangeList
  import SendSpec
  import RecvSpec
  import E = Endpoint
  import F = Flow

  /** An endpoint together with what its application wrote and read, and where the segments it sent
      began. */
  datatype Node = Node(snd: E.Sender, rcv: RecvSpec.RecvState, written: seq<u8>, delivered: seq<u8>, bounds: set<int>)

  /** The packets in flight from a to b and from b to a. A packet stays in flight when it is delivered,
      so that it can be delivered again, until it is lost. */
  datatype System = System(a: Node, b: Node, ab: set<E.Packet>, ba: set<E.Packet>)

  datatype Config = Config(a: E.Settings, b: E.Settings)

  datatype Action =
    | Write(data: seq<u8>)
    | Read(n: nat)
    | Send(credit: bool)
    | Resend(range: Range)
    | Receive(packet: E.Packet, credit: bool)
    | Bump
    | Lose(packet: E.Packet)

  function Swap(s: System): System {
    System(s.b, s.a, s.ba, s.ab)
  }

  function SwapConfig(c: Config): Config {
    Config(c.b, c.a)
  }

  /** The stream that a writes and b reads. */
  function Forward(s: System): F.Flow {
    F.Flow(s.a.snd, s.b.rcv, s.ab, s.ba, s.a.written, s.b.delivered, s.a.bounds)
  }

  /** The stream that b writes and a reads. */
  function Backward(s: System): F.Flow {
    Forward(Swap(s))
  }

  predicate WellFormed(s: System) {
    && SendSpec.Valid(s.a.snd.win) && SendSpec.Valid(s.b.snd.win)
    && RecvSpec.SplitValid(s.a.rcv) && RecvSpec.SplitValid(s.b.rcv)
  }

  predicate Enabled(s: System, act: Action) {
    match act
    case Read(n) => n <= s.a.rcv.recvPos - s.a.rcv.readPos
    case Resend(r) => r in s.a.snd.win.ranges
    case Receive(p, _) => p in s.ba
    case _ => true
  }

  /** What endpoint a does. */
  function Act(s: System, cfg: E.Settings, act: Action): System
    requires cfg.Valid() && WellFormed(s) && Enabled(s, act)
  {
    match act
    case Write(data) =>
      var (win, n) := SendSpec.Write(s.a.snd.win, data);
      s.(a := s.a.(snd := s.a.snd.(win := win), written := s.a.written + data[..n]))
    case Read(n) =>
      s.(a := s.a.(rcv := RecvSpec.Take(s.a.rcv, n), delivered := s.a.delivered + s.a.rcv.cells[..n]))
    case Send(credit) =>
      var (snd, packet) := E.Send(s.a.snd, cfg, credit);
      Emit(s, snd, packet)
    case Resend(r) =>
      s.(ab := s.ab + {E.Resend(s.a.snd, r)})
    case Receive(p, credit) =>
      (match p
       case Data(start, bytes) =>
         var (rcv, ack) := E.OnData(s.a.rcv, start, bytes);
         s.(a := s.a.(rcv := rcv), ab := if ack.Some? then s.ab + {ack.value} else s.ab)
       case Ack(start, end, windowEnd) =>
         var (snd, packet) := E.OnAck(s.a.snd, cfg, credit, start, end, windowEnd);
         Emit(s, snd, packet))
    case Bump =>
      s.(a := s.a.(snd := E.Bump(s.a.snd, cfg)))
    case Lose(p) =>
      s.(ab := s.ab - {p})
  }

  /** New data goes out as the beginning of a segment. */
  function Emit(s: System, snd: E.Sender, packet: Option<E.Packet>): System {
    match packet
    case None => s.(a := s.a.(snd := snd))
    case Some(p) => s.(a := s.a.(snd := snd, bounds := s.a.bounds + {s.a.snd.win.sendPos}), ab := s.ab + {p})
  }

  /** One endpoint or the other does something. */
  predicate Step(s: System, c: Config, byA: bool, act: Action, s': System) {
    && c.a.Valid() && c.b.Valid() && WellFormed(s)
    && if byA then Enabled(s, act) && s' == Act(s, c.a, act)
       else Enabled(Swap(s), act) && s' == Swap(Act(Swap(s), c.b, act))
  }

  predicate Fresh(n: Node, cfg: E.Settings) {
    && n.snd.win.sendPos == 0 && n.snd.win.sent == 0 && n.snd.win.ranges == [] && n.snd.win.buffered == []
    && n.snd.remoteAvail == cfg.initSend
    && n.rcv.readPos == 0 && n.rcv.recvPos == 0 && n.rcv.unready == [] && n.rcv.cells != []
    && n.written == [] && n.delivered == [] && n.bounds == {}
  }

  predicate Init(s: System, c: Config) {
    c.a.Valid() && c.b.Valid() && Fresh(s.a, c.a) && Fresh(s.b, c.b) && s.ab == {} && s.ba == {}
  }

  /** A run: states and the steps between them. */
  predicate Run(ss: seq<System>, who: seq<bool>, acts: seq<Action>, c: Config) {
    && |ss| == |acts| + 1 == |who| + 1
    && forall i :: 0 <= i < |acts| ==> Step(ss[i], c, who[i], acts[i], ss[i + 1])
  }

  ghost predicate Inv(s: System, c: Config) {
    F.Inv(Forward(s), c.a) && F.Inv(Backward(s), c.b)
  }

  // ----- Every step keeps the invariant of both streams -----

  lemma {:induction false} InitInv(s: System, c: Config)
    requires Init(s, c)
    ensures Inv(s, c)
  {
    FreshFlowInv(Forward(s), c.a);
    FreshFlowInv(Backward(s), c.b);
  }

  lemma {:induction false} FreshFlowInv(f: F.Flow, cfg: E.Settings)
    requires cfg.Valid() && f.snd.win.sendPos == 0 && f.snd.win.sent == 0 && f.snd.win.ranges == []
    requires f.snd.win.buffered == [] && f.snd.remoteAvail == cfg.initSend
    requires f.rcv.readPos == 0 && f.rcv.recvPos == 0 && f.rcv.unready == [] && f.rcv.cells != []
    requires f.written == [] && f.delivered == [] && f.bounds == {} && f.out == {} && f.back == {}
    ensures F.Inv(f, cfg)
  {
    assert forall x :: RecvSpec.Stored(f.rcv, x) <==> x < 0;
    assert F.AllLinked(f.rcv, f.bounds) by {
      forall x ensures F.Linked(f.rcv, f.bounds, x) {
        assert RecvSpec.Stored(f.rcv, x) <==> x < 0;
        assert RecvSpec.Stored(f.rcv, x - 1) <==> x - 1 < 0;
      }
    }
  }

  lemma {:induction false} InvWellFormed(s: System, c: Config)
    requires Inv(s, c)
    ensures WellFormed(s)
  {
  }

  lemma {:induction false} ActKeepsInv(s: System, c: Config, act: Action)
    requires Inv(s, c) && Enabled(s, act)
    ensures WellFormed(s) && Inv(Act(s, c.a, act), c)
  {
    var s' := Act(s, c.a, act);
    match act {
      case Write(data) =>
        F.WriteKeepsInv(Forward(s), c.a, data);
      case Read(n) =>
        F.ReadKeepsInv(Backward(s), c.b, n);
      case Send(credit) =>
        SendKeepsInv(s, c, credit);
      case Resend(r) =>
        F.ResendKeepsInv(Forward(s), c.a, r);
        F.BagsKeepInv(Backward(s), c.b, s'.ba, s'.ab);
      case Receive(p, credit) =>
        if p.Data? {
          DataKeepsInv(s, c, p, credit);
        } else {
          AckKeepsInv(s, c, p, credit);
        }
      case Bump =>
        F.BumpKeepsInv(Forward(s), c.a);
      case Lose(p) =>
        F.BagsKeepInv(Forward(s), c.a, s'.ab, s'.ba);
        F.BagsKeepInv(Backward(s), c.b, s'.ba, s'.ab);
    }
  }

  lemma {:induction false} SendKeepsInv(s: System, c: Config, credit: bool)
    requires Inv(s, c)
    ensures WellFormed(s) && Inv(Act(s, c.a, Send(credit)), c)
  {
    var s' := Act(s, c.a, Send(credit));
    F.SendKeepsInv(Forward(s), c.a, credit);
    F.BagsKeepInv(Backward(s), c.b, s'.ba, s'.ab);
  }

  lemma {:induction false} DataKeepsInv(s: System, c: Config, p: E.Packet, credit: bool)
    requires Inv(s, c) && p in s.ba && p.Data?
    ensures WellFormed(s) && Inv(Act(s, c.a, Receive(p, credit)), c)
  {
    var s' := Act(s, c.a, Receive(p, credit));
    F.OnDataKeepsInv(Backward(s), c.b, p);
    F.BagsKeepInv(Forward(s), c.a, s'.ab, s'.ba);
  }

  lemma {:induction false} AckKeepsInv(s: System, c: Config, p: E.Packet, credit: bool)
    requires Inv(s, c) && p in s.ba && p.Ack?
    ensures WellFormed(s) && Inv(Act(s, c.a, Receive(p, credit)), c)
  {
    var s' := Act(s, c.a, Receive(p, credit));
    F.OnAckKeepsInv(Forward(s), c.a, credit, p);
    F.BagsKeepInv(Backward(s), c.b, s'.ba, s'.ab);
  }

  lemma {:induction false} StepKeepsInv(s: System, c: Config, byA: bool, act: Action, s': System)
    requires Inv(s, c) && Step(s, c, byA, act, s')
    ensures Inv(s', c)
  {
    if byA {
      ActKeepsInv(s, c, act);
    } else {
      ActKeepsInv(Swap(s), SwapConfig(c), act);
    }
  }

  lemma {:induction false} RunKeepsInv(ss: seq<System>, who: seq<bool>, acts: seq<Action>, c: Config, i: nat)
    requires Run(ss, who, acts, c) && Inv(ss[0], c) && i < |ss|
    ensures Inv(ss[i], c)
  {
    hide Inv, Step;
    if i > 0 {
      RunKeepsInv(ss, who, acts, c, i - 1);
      StepKeepsInv(ss[i - 1], c, who[i - 1], acts[i - 1], ss[i]);
    }
  }

  // ----- The main results, over all runs -----

  /** End to end: whatever the network does, what either application has read so far is a prefix of what
      the other one wrote. */
  lemma {:induction false} EndToEnd(ss: seq<System>, who: seq<bool>, acts: seq<Action>, c: Config, i: nat)
    requires Run(ss, who, acts, c) && Init(ss[0], c) && i < |ss|
    ensures ss[i].b.delivered <= ss[i].a.written
    ensures ss[i].a.delivered <= ss[i].b.written
  {
    InitInv(ss[0], c);
    RunKeepsInv(ss, who, acts, c, i);
  }

  /** In every reachable state the documented invariant of both unready lists holds. */
  lemma {:induction false} NothingStranded(ss: seq<System>, who: seq<bool>, acts: seq<Action>, c: Config, i: nat)
    requires Run(ss, who, acts, c) && Init(ss[0], c) && i < |ss|
    ensures RecvSpec.Documented(ss[i].a.rcv) && RecvSpec.Documented(ss[i].b.rcv)
  {
    InitInv(ss[0], c);
    RunKeepsInv(ss, who, acts, c, i);
  }

  /** In every reachable state the sender still buffers every byte the receiver lacks, and its horizon is
      at most the receiver's window end plus the allowance. */
  lemma {:induction false} FlowControl(ss: seq<System>, who: seq<bool>, acts: seq<Action>, c: Config, i: nat)
    requires Run(ss, who, acts, c) && Init(ss[0], c) && i < |ss|
    ensures 0 <= ss[i].a.snd.win.UnackedStart() <= ss[i].b.rcv.recvPos <= ss[i].a.snd.win.sendPos
                 <= |ss[i].a.written|
    ensures ss[i].a.snd.win.buffered == ss[i].a.written[ss[i].a.snd.win.UnackedStart()..]
    ensures forall x :: 0 <= x < ss[i].a.snd.win.sendPos && !RecvSpec.Stored(ss[i].b.rcv, x) ==>
                          Covers(ss[i].a.snd.win.ranges, x) && ss[i].a.snd.win.UnackedStart() <= x
    ensures ss[i].a.snd.win.sendPos + ss[i].a.snd.remoteAvail <= ss[i].b.rcv.WindowEnd() + c.a.initSend
  {
    InitInv(ss[0], c);
    RunKeepsInv(ss, who, acts, c, i);
    F.AckSoundness(Forward(ss[i]), c.a);
  }

  /** How far a's sender is willing to go. */
  function Horizon(s: System): int {
    F.Horizon(Forward(s))
  }

  /** No step of either endpoint lowers the horizon. */
  lemma {:induction false} StepKeepsHorizon(s: System, c: Config, byA: bool, act: Action, s': System)
    requires Step(s, c, byA, act, s')
    ensures Horizon(s) <= Horizon(s')
  {
    if byA {
      match act {
        case Send(credit) =>
          F.SendHorizon(s.a.snd, c.a, credit);
        case Receive(p, credit) =>
          if p.Ack? {
            F.AckHorizon(Forward(s), c.a, credit, p);
          }
        case _ =>
      }
    }
  }

  /** Along every run the horizon never falls. */
  lemma {:induction false} HorizonNeverFalls(ss: seq<System>, who: seq<bool>, acts: seq<Action>, c: Config,
                                             i: nat, j: nat)
    requires Run(ss, who, acts, c) && i <= j < |ss|
    ensures Horizon(ss[i]) <= Horizon(ss[j])
    decreases j
  {
    hide Horizon, Step;
    if i < j {
      HorizonNeverFalls(ss, who, acts, c, i, j - 1);
      StepKeepsHorizon(ss[j - 1], c, who[j - 1], acts[j - 1], ss[j]);
    }
  }

  /** Segments start exactly where the send position stood before it moved: the boundaries at a are those positions,
      over every run. */
  lemma {:induction false} BoundsAreSegments(ss: seq<System>, who: seq<bool>, acts: seq<Action>, c: Config, i: nat,
                                             b: int)
    requires Run(ss, who, acts, c) && Init(ss[0], c) && i < |ss|
    ensures b in ss[i].a.bounds <==> exists j :: 0 <= j < i && Begins(ss, j, b)
  {
    hide Step;
    if i > 0 {
      BoundsAreSegments(ss, who, acts, c, i - 1, b);
      StepBounds(ss[i - 1], c, who[i - 1], acts[i - 1], ss[i]);
      assert b in ss[i].a.bounds <==> b in ss[i - 1].a.bounds || Begins(ss, i - 1, b);
    } else {
      assert ss[0].a.bounds == {};
    }
  }

  /** A segment of a's stream begins at `b` in step `j`. */
  predicate Begins(ss: seq<System>, j: nat, b: int)
    requires j + 1 < |ss|
  {
    b == ss[j].a.snd.win.sendPos < ss[j + 1].a.snd.win.sendPos
  }

  lemma {:induction false} StepBounds(s: System, c: Config, byA: bool, act: Action, s': System)
    requires Step(s, c, byA, act, s')
    ensures s'.a.snd.win.sendPos > s.a.snd.win.sendPos ==> s'.a.bounds == s.a.bounds + {s.a.snd.win.sendPos}
    ensures s'.a.snd.win.sendPos <= s.a.snd.win.sendPos ==> s'.a.bounds == s.a.bounds
  {
    if byA {
      match act {
        case Send(credit) =>
          E.SendIsMaximal(s.a.snd, c.a, credit);
        case Receive(p, credit) =>
          if p.Ack? {
            F.AckMoves(s.a.snd, c.a, credit, p);
          }
        case _ =>
      }
    }
  }

  /** In every reachable state, and within each segment as it was first sent, what the receiver has stored is the
      beginning: if no segment starts after x and up to y, and y is stored, so is x. */
  lemma {:induction false} SegmentsFillInOrder(ss: seq<System>, who: seq<bool>, acts: seq<Action>, c: Config, i: nat,
                                               x: int, y: int)
    requires Run(ss, who, acts, c) && Init(ss[0], c) && i < |ss|
    requires x <= y && RecvSpec.Stored(ss[i].b.rcv, y)
    requires forall b :: b in ss[i].a.bounds ==> b <= x || y < b
    ensures RecvSpec.Stored(ss[i].b.rcv, x)
  {
    InitInv(ss[0], c);
    RunKeepsInv(ss, who, acts, c, i);
    F.SegmentPrefix(Forward(ss[i]), c.a, x, y);
  }

  /** In every reachable state, a range still unacked is sent again with the bytes the application wrote at
      those positions. */
  lemma {:induction false} RetransmissionFidelity(ss: seq<System>, who: seq<bool>, acts: seq<Action>, c: Config,
                                                  i: nat, r: Range)
    requires Run(ss, who, acts, c) && Init(ss[0], c) && i < |ss|
    requires r in ss[i].a.snd.win.ranges
    ensures SendSpec.Valid(ss[i].a.snd.win) && 0 <= r.start < r.end <= |ss[i].a.written|
    ensures E.Resend(ss[i].a.snd, r) == E.Data(r.start, ss[i].a.written[r.start..r.end])
  {
    InitInv(ss[0], c);
    RunKeepsInv(ss, who, acts, c, i);
    F.ResendFaithful(Forward(ss[i]), c.a, r);
  }
}
