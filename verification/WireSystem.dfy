/** The two endpoints as the code runs them, every packet crossing the network as bytes that carry wrapping
    positions. As long as no packet outlives the stream moving 2^31 positions past it, a run of these is a
    run of the unbounded protocol in which some packets change nothing. */
module WireSystem {
  import opened Prelude
  import opened StreamPosition
  import opened RangeList
  import SendSpec
  import RecvSpec
  import E = Endpoint
  import F = Flow
  import T = Task
  import Wire
  import L = Lifetime
  import S = System

  /** What endpoint a does with the bytes of a packet, as Task.RecvPacket states it. */
  function Handle(s: S.System, cfg: E.Settings, bytes: seq<u8>, credit: bool): S.System
    requires cfg.Valid() && S.WellFormed(s)
  {
    match Wire.Decode(bytes)
    case ProtocolError => s
    case Data(start, data) =>
      var (rcv, ack) := T.DataOnWire(s.a.rcv, start, data);
      s.(a := s.a.(rcv := rcv), ab := if ack.Some? then s.ab + {ack.value} else s.ab)
    case Ack(start, end, windowEnd) =>
      var (snd, packet) := T.AckOnWire(s.a.snd, cfg, credit, start, end, windowEnd);
      S.Emit(s, snd, packet)
  }

  /** Only receiving differs from the unbounded protocol: a packet is known by its bytes alone. */
  function Act(s: S.System, cfg: E.Settings, act: S.Action): S.System
    requires cfg.Valid() && S.WellFormed(s) && S.Enabled(s, act)
  {
    match act
    case Receive(p, credit) => if T.Encodable(p) then Handle(s, cfg, T.Encode(p), credit) else s
    case _ => S.Act(s, cfg, act)
  }

  predicate Step(s: S.System, c: S.Config, byA: bool, act: S.Action, s': S.System) {
    && c.a.Valid() && c.b.Valid() && S.WellFormed(s)
    && if byA then S.Enabled(s, act) && s' == Act(s, c.a, act)
       else S.Enabled(S.Swap(s), act) && s' == S.Swap(Act(S.Swap(s), c.b, act))
  }

  /** The stream, as endpoint a sees it, that a packet coming in belongs to. */
  function FlowOf(s: S.System, p: E.Packet): F.Flow {
    if p.Data? then S.Backward(s) else S.Forward(s)
  }

  /** A packet is delivered to endpoint a only within its lifetime. */
  predicate InTime(s: S.System, act: S.Action) {
    act.Receive? ==> L.InTime(FlowOf(s, act.packet), act.packet)
  }

  /** Data delivered to endpoint a is near the end of its window. */
  predicate Near(s: S.System, act: S.Action) {
    act.Receive? && act.packet.Data? ==> L.Near(S.Backward(s), act.packet)
  }

  /** The system as the endpoint taking a step sees it. */
  function Side(s: S.System, byA: bool): S.System {
    if byA then s else S.Swap(s)
  }

  /** A step that delivers packets only within their lifetime. */
  predicate TimelyStep(s: S.System, c: S.Config, byA: bool, act: S.Action, s': S.System) {
    Step(s, c, byA, act, s') && InTime(Side(s, byA), act)
  }

  predicate Run(ss: seq<S.System>, who: seq<bool>, acts: seq<S.Action>, c: S.Config) {
    && |ss| == |acts| + 1 == |who| + 1
    && forall i :: 0 <= i < |acts| ==> TimelyStep(ss[i], c, who[i], acts[i], ss[i + 1])
  }

  /** Window sizes the constructors accept. */
  predicate Sized(s: S.System) {
    L.Sized(S.Forward(s)) && L.Sized(S.Backward(s))
  }

  predicate SameSizes(s: S.System, s': S.System) {
    && |s'.a.rcv.cells| == |s.a.rcv.cells| && |s'.b.rcv.cells| == |s.b.rcv.cells|
    && s'.a.snd.win.capacity == s.a.snd.win.capacity && s'.b.snd.win.capacity == s.b.snd.win.capacity
  }

  // ----- One step -----

  lemma {:induction false} ReceiveAgrees(s: S.System, c: S.Config, p: E.Packet, credit: bool)
    requires S.Inv(s, c) && Sized(s) && p in s.ba && InTime(s, S.Receive(p, credit))
    ensures S.WellFormed(s)
    ensures Act(s, c.a, S.Receive(p, credit)) ==
            if Near(s, S.Receive(p, credit)) then S.Act(s, c.a, S.Receive(p, credit)) else s
  {
    S.InvWellFormed(s, c);
    if p.Data? {
      L.DataDecodes(S.Backward(s), c.b, p);
      L.DataInTime(S.Backward(s), c.b, p);
    } else {
      L.AckDecodes(S.Forward(s), c.a, p);
      assert F.HonestAck(p, s.b.rcv, c.a.MaxPayload());
      L.AckInTime(S.Forward(s), c.a, p, credit);
    }
  }

  lemma {:induction false} ActAgrees(s: S.System, c: S.Config, act: S.Action)
    requires S.Inv(s, c) && Sized(s) && S.Enabled(s, act) && InTime(s, act)
    ensures S.WellFormed(s)
    ensures Act(s, c.a, act) == if Near(s, act) then S.Act(s, c.a, act) else s
  {
    S.InvWellFormed(s, c);
    if act.Receive? {
      ReceiveAgrees(s, c, act.packet, act.credit);
    }
  }

  lemma {:induction false} ActKeepsSizes(s: S.System, c: S.Config, act: S.Action)
    requires S.Inv(s, c) && S.Enabled(s, act)
    ensures S.WellFormed(s) && SameSizes(s, S.Act(s, c.a, act))
  {
    S.InvWellFormed(s, c);
    match act {
      case Receive(Data(start, bytes), _) =>
        RecvSpec.ReceiveKeepsSplit(s.a.rcv, start, bytes);
      case Receive(Ack(start, end, windowEnd), credit) =>
        L.InformedShape(s.a.snd, c.a, credit, windowEnd);
        SendSpec.AckKeepsValid(L.Informed(s.a.snd, c.a, credit, windowEnd).win, start, end);
      case _ =>
    }
  }

  /** One step: the same step of the unbounded protocol, or, for data that starts too far from the window end,
      none. */
  lemma {:induction false} StepAgrees(s: S.System, c: S.Config, byA: bool, act: S.Action, s': S.System)
    requires S.Inv(s, c) && Sized(s) && TimelyStep(s, c, byA, act, s')
    ensures if Near(Side(s, byA), act) then S.Step(s, c, byA, act, s') else s' == s
    ensures S.Inv(s', c) && SameSizes(s, s')
  {
    if byA {
      ActAgrees(s, c, act);
      ActKeepsSizes(s, c, act);
    } else {
      ActAgrees(S.Swap(s), S.SwapConfig(c), act);
      ActKeepsSizes(S.Swap(s), S.SwapConfig(c), act);
    }
    if Near(Side(s, byA), act) {
      S.StepKeepsInv(s, c, byA, act, s');
    }
  }

  // ----- All runs -----

  lemma {:induction false} RunKeepsInv(ss: seq<S.System>, who: seq<bool>, acts: seq<S.Action>, c: S.Config, i: nat)
    requires Run(ss, who, acts, c) && S.Inv(ss[0], c) && Sized(ss[0]) && i < |ss|
    ensures S.Inv(ss[i], c) && SameSizes(ss[0], ss[i])
  {
    hide S.Inv, TimelyStep;
    if i > 0 {
      RunKeepsInv(ss, who, acts, c, i - 1);
      StepAgrees(ss[i - 1], c, who[i - 1], acts[i - 1], ss[i]);
    }
  }

  /** A run of the unbounded protocol leads from s0 to s. */
  ghost predicate Simulated(s0: S.System, c: S.Config, s: S.System) {
    exists ss, who, acts :: Simulation(s0, c, s, ss, who, acts)
  }

  predicate Simulation(s0: S.System, c: S.Config, s: S.System,
                       ss: seq<S.System>, who: seq<bool>, acts: seq<S.Action>) {
    S.Run(ss, who, acts, c) && ss[0] == s0 && ss[|ss| - 1] == s
  }

  lemma {:induction false} SimulatedSelf(s: S.System, c: S.Config)
    ensures Simulated(s, c, s)
  {
    assert Simulation(s, c, s, [s], [], []);
  }

  lemma {:induction false} SimulatedStep(s0: S.System, c: S.Config, s: S.System, byA: bool, act: S.Action, s': S.System)
    requires Simulated(s0, c, s) && S.Step(s, c, byA, act, s')
    ensures Simulated(s0, c, s')
  {
    var ss, who, acts :| Simulation(s0, c, s, ss, who, acts);
    assert Simulation(s0, c, s', ss + [s'], who + [byA], acts + [act]);
  }

  lemma {:induction false} RunSimulated(ss: seq<S.System>, who: seq<bool>, acts: seq<S.Action>, c: S.Config, i: nat)
    requires Run(ss, who, acts, c) && S.Inv(ss[0], c) && Sized(ss[0]) && i < |ss|
    ensures Simulated(ss[0], c, ss[i])
  {
    if i == 0 {
      SimulatedSelf(ss[0], c);
    } else {
      RunSimulated(ss, who, acts, c, i - 1);
      NextSimulated(ss, who, acts, c, i - 1);
    }
  }

  lemma {:induction false} NextSimulated(ss: seq<S.System>, who: seq<bool>, acts: seq<S.Action>, c: S.Config, i: nat)
    requires Run(ss, who, acts, c) && S.Inv(ss[0], c) && Sized(ss[0]) && i < |acts|
    requires Simulated(ss[0], c, ss[i])
    ensures Simulated(ss[0], c, ss[i + 1])
  {
    RunKeepsInv(ss, who, acts, c, i);
    StepSimulated(ss[0], c, ss[i], who[i], acts[i], ss[i + 1]);
  }

  lemma {:induction false} StepSimulated(s0: S.System, c: S.Config, s: S.System, byA: bool, act: S.Action, s': S.System)
    requires Simulated(s0, c, s) && S.Inv(s, c) && Sized(s) && TimelyStep(s, c, byA, act, s')
    ensures Simulated(s0, c, s')
  {
    StepAgrees(s, c, byA, act, s');
    if Near(Side(s, byA), act) {
      SimulatedStep(s0, c, s, byA, act, s');
    }
  }

  /** Every state reached over wrapping positions, from a fresh start and with the lifetime respected, is
      reached by the unbounded protocol; no packet in flight is ever refused as malformed, and what was read
      is a prefix of what was written. */
  lemma {:induction false} WireEndToEnd(ss: seq<S.System>, who: seq<bool>, acts: seq<S.Action>, c: S.Config, i: nat)
    requires Run(ss, who, acts, c) && S.Init(ss[0], c) && Sized(ss[0]) && i < |ss|
    ensures Simulated(ss[0], c, ss[i])
    ensures forall p :: p in ss[i].ab + ss[i].ba ==> T.Encodable(p) && !Wire.Decode(T.Encode(p)).ProtocolError?
    ensures ss[i].b.delivered <= ss[i].a.written && ss[i].a.delivered <= ss[i].b.written
  {
    S.InitInv(ss[0], c);
    RunKeepsInv(ss, who, acts, c, i);
    RunSimulated(ss, who, acts, c, i);
    forall p | p in ss[i].ab + ss[i].ba ensures T.Encodable(p) && !Wire.Decode(T.Encode(p)).ProtocolError? {
      PacketDecodes(S.Forward(ss[i]), c.a, p);
      PacketDecodes(S.Backward(ss[i]), c.b, p);
    }
  }

  /** Every packet of either stream in flight is well formed. */
  lemma {:induction false} PacketDecodes(f: F.Flow, cfg: E.Settings, p: E.Packet)
    requires F.Inv(f, cfg)
    ensures (p in f.out && p.Data?) || (p in f.back && p.Ack?) ==>
              T.Encodable(p) && !Wire.Decode(T.Encode(p)).ProtocolError?
  {
    if p in f.out && p.Data? {
      L.DataDecodes(f, cfg, p);
    } else if p in f.back && p.Ack? {
      L.AckDecodes(f, cfg, p);
    }
  }

  // ----- Reachability -----

  /** A run leads from s to s'; in a quiet one the applications write nothing. */
  ghost predicate Reaches(s: S.System, c: S.Config, s': S.System, quiet: bool) {
    exists ss, who, acts :: Path(s, c, s', quiet, ss, who, acts)
  }

  ghost predicate Path(s: S.System, c: S.Config, s': S.System, quiet: bool,
                       ss: seq<S.System>, who: seq<bool>, acts: seq<S.Action>) {
    && Run(ss, who, acts, c) && ss[0] == s && ss[|ss| - 1] == s'
    && (quiet ==> forall i :: 0 <= i < |acts| ==> !acts[i].Write?)
  }

  lemma {:induction false} ReachesSelf(s: S.System, c: S.Config, quiet: bool)
    ensures Reaches(s, c, s, quiet)
  {
    assert Path(s, c, s, quiet, [s], [], []);
  }

  lemma {:induction false} ReachesStep(s: S.System, c: S.Config, m: S.System, byA: bool, act: S.Action, s': S.System,
                                       quiet: bool)
    requires Reaches(s, c, m, quiet) && TimelyStep(m, c, byA, act, s')
    requires quiet ==> !act.Write?
    ensures Reaches(s, c, s', quiet)
  {
    var ss, who, acts :| Path(s, c, m, quiet, ss, who, acts);
    assert Path(s, c, s', quiet, ss + [s'], who + [byA], acts + [act]);
  }

  lemma {:induction false} ReachesKeepsInv(s: S.System, c: S.Config, s': S.System, quiet: bool)
    requires Reaches(s, c, s', quiet) && S.Inv(s, c) && Sized(s)
    ensures S.Inv(s', c) && SameSizes(s, s')
  {
    var ss, who, acts :| Path(s, c, s', quiet, ss, who, acts);
    RunKeepsInv(ss, who, acts, c, |acts|);
  }

  /** A step that is the same over integers, added to a run. */
  lemma {:induction false} Take(s0: S.System, s: S.System, c: S.Config, byA: bool, act: S.Action, quiet: bool)
    returns (s': S.System)
    requires S.Inv(s, c) && Sized(s) && Reaches(s0, c, s, quiet) && (quiet ==> !act.Write?)
    requires S.Enabled(Side(s, byA), act) && InTime(Side(s, byA), act) && Near(Side(s, byA), act)
    ensures S.Step(s, c, byA, act, s') && S.Inv(s', c) && SameSizes(s, s')
    ensures Reaches(s0, c, s', quiet)
  {
    S.InvWellFormed(s, c);
    s' := if byA then Act(s, c.a, act) else S.Swap(Act(S.Swap(s), c.b, act));
    StepAgrees(s, c, byA, act, s');
    ReachesStep(s0, c, s, byA, act, s', quiet);
  }

  // ----- Either endpoint may be called a -----

  function Swapped(ss: seq<S.System>): (r: seq<S.System>)
    ensures |r| == |ss| && forall i :: 0 <= i < |ss| ==> r[i] == S.Swap(ss[i])
  {
    seq(|ss|, i requires 0 <= i < |ss| => S.Swap(ss[i]))
  }

  lemma {:induction false} StepSwapped(s: S.System, c: S.Config, byA: bool, act: S.Action, s': S.System)
    requires TimelyStep(s, c, byA, act, s')
    ensures TimelyStep(S.Swap(s), S.SwapConfig(c), !byA, act, S.Swap(s'))
  {
    assert S.Swap(S.Swap(s)) == s && S.Swap(S.Swap(s')) == s';
  }

  lemma {:induction false} ReachesSwapped(s: S.System, c: S.Config, s': S.System, quiet: bool)
    requires Reaches(s, c, s', quiet)
    ensures Reaches(S.Swap(s), S.SwapConfig(c), S.Swap(s'), quiet)
  {
    var ss, who, acts :| Path(s, c, s', quiet, ss, who, acts);
    var others := seq(|who|, i requires 0 <= i < |who| => !who[i]);
    forall i | 0 <= i < |acts|
      ensures TimelyStep(Swapped(ss)[i], S.SwapConfig(c), others[i], acts[i], Swapped(ss)[i + 1])
    {
      StepSwapped(ss[i], c, who[i], acts[i], ss[i + 1]);
    }
    assert Path(S.Swap(s), S.SwapConfig(c), S.Swap(s'), quiet, Swapped(ss), others, acts);
  }
}
