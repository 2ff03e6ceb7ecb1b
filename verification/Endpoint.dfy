/** One endpoint of the reliable channel, over unbounded positions: what the transmission task does
    to its send side and its receive side. */
module Endpoint {
  import opened Prelude
  import opened StreamPosition
  import opened RangeList
  import Wire
  import SendSpec
  import RecvSpec

  datatype Settings = Settings(initSend: nat, packetCapacity: nat) {
    /** The most data one packet carries. */
    function MaxPayload(): int {
      Min(Wire.MAX_PAYLOAD, packetCapacity - 6)
    }

    /** Packets must at least hold an acknowledgement. */
    predicate Valid() {
      packetCapacity >= 10 && initSend > 0
    }
  }

  datatype Packet =
    | Data(start: int, bytes: seq<u8>)
    | Ack(start: int, end: int, windowEnd: int)

  /** `remoteAvail` is how much more the remote is believed to have room for. */
  datatype Sender = Sender(win: SendSpec.SendState, remoteAvail: nat)

  // ----- Send side -----

  /** How much to send now; nothing without bandwidth. */
  function SendAmount(s: Sender, cfg: Settings, credit: bool): (n: nat)
    requires cfg.Valid() && SendSpec.Valid(s.win)
  {
    if !credit then 0
    else Min(Min(Min(|s.win.buffered| - s.win.sent, s.remoteAvail), Wire.MAX_PAYLOAD), cfg.packetCapacity - 6)
  }

  function Send(s: Sender, cfg: Settings, credit: bool): (res: (Sender, Option<Packet>))
    requires cfg.Valid() && SendSpec.Valid(s.win)
  {
    var n := SendAmount(s, cfg, credit);
    if n == 0 then (s, None)
    else
      var win := SendSpec.Send(s.win, n).0;
      (Sender(win, s.remoteAvail - n), Some(Data(s.win.sendPos, SendSpec.Unacked(win, s.win.sendPos, win.sendPos))))
  }

  /** The packet that carries an unacked range again. */
  function Resend(s: Sender, r: Range): Packet
    requires SendSpec.Valid(s.win) && r in s.win.ranges
  {
    Data(r.start, SendSpec.Unacked(s.win, r.start, r.end))
  }

  /** The credit a packet for the range takes: the header and the data. */
  function Cost(r: Range): real {
    (6 + r.end - r.start) as real
  }

  /** The packets of one pass over unacked ranges, from the one at `i` on: those that are due, until
      the credit is gone. */
  function Resends(s: Sender, rs: seq<Range>, due: seq<bool>, i: nat, credit: real): (ps: seq<Packet>)
    requires SendSpec.Valid(s.win) && i <= |rs| == |due| && forall r :: r in rs ==> r in s.win.ranges
    decreases |rs| - i
  {
    if i == |rs| || credit < 0.0 then []
    else if !due[i] then Resends(s, rs, due, i + 1, credit)
    else [Resend(s, rs[i])] + Resends(s, rs, due, i + 1, credit - Cost(rs[i]))
  }

  /** A pass only repeats ranges that are unacked, each as it was first sent. */
  lemma {:induction false} ResendsOnlyUnacked(s: Sender, rs: seq<Range>, due: seq<bool>, i: nat, credit: real,
                                             p: Packet)
    requires SendSpec.Valid(s.win) && i <= |rs| == |due| && forall r :: r in rs ==> r in s.win.ranges
    requires p in Resends(s, rs, due, i, credit)
    ensures exists r :: r in s.win.ranges && p == Resend(s, r)
    decreases |rs| - i
  {
    if i < |rs| && credit >= 0.0 {
      if due[i] && p == Resend(s, rs[i]) {
        assert rs[i] in s.win.ranges;
      } else {
        ResendsOnlyUnacked(s, rs, due, i + 1,
          if due[i] then credit - Cost(rs[i]) else credit, p);
      }
    }
  }

  /** What the due entries among those from `i` up to `k` cost. */
  function DueCost(rs: seq<Range>, due: seq<bool>, i: nat, k: nat): real
    requires i <= k <= |rs| == |due|
    decreases k - i
  {
    if i == k then 0.0 else (if due[i] then Cost(rs[i]) else 0.0) + DueCost(rs, due, i + 1, k)
  }

  lemma {:induction false} DueCostGrows(rs: seq<Range>, due: seq<bool>, i: nat, k: nat)
    requires i <= k <= |rs| == |due| && forall r :: r in rs ==> r.start < r.end
    ensures DueCost(rs, due, i, k) >= 0.0
    decreases k - i
  {
    if i < k {
      assert rs[i] in rs;
      DueCostGrows(rs, due, i + 1, k);
    }
  }

  /** The packets repeat the entries `ks`, in the order of the list. */
  predicate Repeats(s: Sender, rs: seq<Range>, ks: seq<nat>, from: nat, ps: seq<Packet>)
    requires SendSpec.Valid(s.win) && forall r :: r in rs ==> r in s.win.ranges
  {
    && |ps| == |ks|
    && (forall j :: 0 <= j < |ks| ==> from <= ks[j] < |rs| && ps[j] == Resend(s, rs[ks[j]]))
    && (forall j, k :: 0 <= j < k < |ks| ==> ks[j] < ks[k])
  }

  /** A pass repeats exactly the due entries for which there is still credit once those before them are paid for,
      each once and in the order of the list. */
  lemma {:induction false} ResendsExactly(s: Sender, rs: seq<Range>, due: seq<bool>, i: nat, credit: real)
    returns (ks: seq<nat>)
    requires SendSpec.Valid(s.win) && i <= |rs| == |due| && forall r :: r in rs ==> r in s.win.ranges
    ensures Repeats(s, rs, ks, i, Resends(s, rs, due, i, credit))
    ensures forall k :: i <= k < |rs| ==> (k in ks <==> due[k] && credit >= DueCost(rs, due, i, k))
    decreases |rs| - i
  {
    if i == |rs| {
      ks := [];
    } else if credit < 0.0 {
      ks := [];
      forall k | i <= k < |rs| ensures DueCost(rs, due, i, k) >= 0.0 {
        DueCostGrows(rs, due, i, k);
      }
    } else if !due[i] {
      ks := ResendsExactly(s, rs, due, i + 1, credit);
    } else {
      var rest := ResendsExactly(s, rs, due, i + 1, credit - Cost(rs[i]));
      ks := [i] + rest;
      RepeatsMore(s, rs, rest, i, Resends(s, rs, due, i + 1, credit - Cost(rs[i])));
    }
  }

  lemma {:induction false} RepeatsMore(s: Sender, rs: seq<Range>, ks: seq<nat>, i: nat, ps: seq<Packet>)
    requires SendSpec.Valid(s.win) && (forall r :: r in rs ==> r in s.win.ranges) && i < |rs|
    requires Repeats(s, rs, ks, i + 1, ps)
    ensures Repeats(s, rs, [i] + ks, i, [Resend(s, rs[i])] + ps)
  {
  }

  /** Learn how far the remote's window reaches. */
  function Learn(s: Sender, windowEnd: int): Sender {
    if windowEnd > s.win.sendPos then s.(remoteAvail := Max(s.remoteAvail, windowEnd - s.win.sendPos)) else s
  }

  /** An acknowledgement first updates what is known of the remote's window, then sends if the remote
      has room for the first time again, and only then acknowledges the range. */
  function OnAck(s: Sender, cfg: Settings, credit: bool, start: int, end: int, windowEnd: int)
    : (res: (Sender, Option<Packet>))
    requires cfg.Valid() && SendSpec.Valid(s.win)
  {
    var learnt := Learn(s, windowEnd);
    var (sent, packet) := if s.remoteAvail == 0 && learnt.remoteAvail != 0 then Send(learnt, cfg, credit)
                          else (learnt, None);
    SendKeepsValid(learnt, cfg, credit);
    (sent.(win := SendSpec.AckRange(sent.win, start, end).0), packet)
  }

  /** When nothing is left to be acknowledged and no room is believed left, allow a little more, so
      that the connection does not stall. */
  function Bump(s: Sender, cfg: Settings): Sender {
    if s.win.ranges == [] && s.remoteAvail == 0 then s.(remoteAvail := cfg.initSend) else s
  }

  // ----- Receive side -----

  function OnData(r: RecvSpec.RecvState, start: int, bytes: seq<u8>): (res: (RecvSpec.RecvState, Option<Packet>))
    requires r.readPos <= r.recvPos
  {
    var (r', stored) := RecvSpec.Receive(r, start, bytes);
    (r', if stored.Some? then Some(Ack(start, stored.value, r'.WindowEnd())) else None)
  }

  // ----- What these keep -----

  /** Sending with an amount decided by the task always yields a packet of that amount, and no more
      than the remote is believed to have room for. */
  lemma {:induction false} SendKeepsValid(s: Sender, cfg: Settings, credit: bool)
    requires cfg.Valid() && SendSpec.Valid(s.win)
    ensures SendSpec.Valid(Send(s, cfg, credit).0.win)
    ensures SendAmount(s, cfg, credit) > 0 ==>
              SendSpec.Send(s.win, SendAmount(s, cfg, credit)).1 ==
              Some(Range(s.win.sendPos, s.win.sendPos + SendAmount(s, cfg, credit)))
    ensures SendAmount(s, cfg, credit) > 0 ==> SendAmount(s, cfg, credit) <= s.remoteAvail
    ensures SendAmount(s, cfg, credit) > 0 ==> SendAmount(s, cfg, credit) <= cfg.MaxPayload()
  {
    var n := SendAmount(s, cfg, credit);
    SendSpec.SendKeepsValid(s.win, n);
    if n > 0 {
      SendTakes(s.win, n);
    }
  }

  /** Sending is maximal: a packet goes out exactly when there is bandwidth, room and something to send, and after it
      nothing waits, or no room is left, or the packet is full. */
  lemma {:induction false} SendIsMaximal(s: Sender, cfg: Settings, credit: bool)
    requires cfg.Valid() && SendSpec.Valid(s.win)
    ensures var (s', p) := Send(s, cfg, credit);
            && (p.Some? <==> credit && s.remoteAvail > 0 && s.win.sent < |s.win.buffered|)
            && (p == None ==> s' == s)
            && (p.Some? ==>
                  && p.value.Data? && p.value.start == s.win.sendPos
                  && 0 < |p.value.bytes| == s.remoteAvail - s'.remoteAvail
                  && |p.value.bytes| == s'.win.sent - s.win.sent == s'.win.sendPos - s.win.sendPos
                  && (s'.win.sent == |s'.win.buffered| || s'.remoteAvail == 0
                      || |p.value.bytes| == Wire.MAX_PAYLOAD || 6 + |p.value.bytes| == cfg.packetCapacity))
  {
    SendKeepsValid(s, cfg, credit);
  }

  /** An acknowledgement makes the sender send exactly when it tells of room after none was believed left, and then
      as much as that room, a packet and what waits allow. */
  lemma {:induction false} AckSends(s: Sender, cfg: Settings, credit: bool, start: int, end: int, windowEnd: int)
    requires cfg.Valid() && SendSpec.Valid(s.win)
    ensures var p := OnAck(s, cfg, credit, start, end, windowEnd).1;
            && (p.Some? <==> credit && s.remoteAvail == 0 < windowEnd - s.win.sendPos && s.win.sent < |s.win.buffered|)
            && (p.Some? ==>
                  && p.value.Data? && p.value.start == s.win.sendPos
                  && |p.value.bytes| == Min(Min(|s.win.buffered| - s.win.sent, windowEnd - s.win.sendPos),
                                            cfg.MaxPayload()))
  {
    SendIsMaximal(Learn(s, windowEnd), cfg, credit);
  }

  /** The answer to data: there is one exactly when some of it lies before the window end; it names the part that does,
      all of which is stored, and announces the first position there is no room for. */
  lemma {:induction false} AnswerExact(r: RecvSpec.RecvState, start: int, bytes: seq<u8>, x: int)
    requires RecvSpec.SplitValid(r)
    ensures var (r', ack) := OnData(r, start, bytes);
            && (ack.Some? <==> bytes != [] && start < r.readPos + |r.cells|)
            && (ack.Some? ==>
                  && ack.value.Ack? && ack.value.start == start
                  && ack.value.windowEnd == r.readPos + |r.cells|
                  && (start <= x < ack.value.end <==> start <= x < start + |bytes| && x < ack.value.windowEnd)
                  && (start <= x < ack.value.end ==> RecvSpec.Stored(r', x)))
  {
    RecvSpec.ReceiveUnion(r, start, bytes, x);
    RecvSpec.ReceiveKeepsSplit(r, start, bytes);
  }

  lemma {:induction false} SendTakes(win: SendSpec.SendState, n: nat)
    requires SendSpec.Valid(win) && 0 < n <= |win.buffered| - win.sent
    ensures SendSpec.Send(win, n).1 == Some(Range(win.sendPos, win.sendPos + n))
  {
  }

  /** No range is longer than one packet's data. */
  predicate Packetized(rs: seq<Range>, max: int) {
    forall r :: r in rs ==> r.end - r.start <= max
  }

  lemma {:induction false} AckKeepsPacketized(s: SendSpec.SendState, start: int, end: int, max: int)
    requires SendSpec.Valid(s) && Packetized(s.ranges, max)
    ensures Packetized(SendSpec.AckRange(s, start, end).0.ranges, max)
  {
    var i := FindStart(s.ranges, start);
    if i < |s.ranges| && start < end <= s.ranges[i].end {
      assert s.ranges[i] in s.ranges;
    }
  }

  // ----- The task's own map of unacked ranges -----

  /** The map from wrapped start to wrapped end holds exactly the ranges of the window. */
  predicate MapAgrees(m: map<StreamPos, StreamPos>, rs: seq<Range>) {
    && (forall r :: r in rs ==> Wrap(r.start) in m && m[Wrap(r.start)] == Wrap(r.end))
    && (forall k :: k in m ==> exists r :: r in rs && Wrap(r.start) == k)
  }

  /** Within one window, starts are told apart by their wrapping images. */
  lemma {:induction false} StartsApart(s: SendSpec.SendState, a: Range, b: Range)
    requires SendSpec.Valid(s) && s.capacity < HALF && a in s.ranges && b in s.ranges
    ensures Wrap(a.start) == Wrap(b.start) ==> a == b
  {
    WrapInjective(a.start, b.start);
  }

  lemma {:induction false} SendAgrees(m: map<StreamPos, StreamPos>, s: SendSpec.SendState, max: nat)
    requires SendSpec.Valid(s) && s.capacity < HALF && MapAgrees(m, s.ranges) && SendSpec.Send(s, max).1.Some?
    ensures MapAgrees(m[Wrap(s.sendPos) := Wrap(SendSpec.Send(s, max).0.sendPos)], SendSpec.Send(s, max).0.ranges)
  {
    var s' := SendSpec.Send(s, max).0;
    var m' := m[Wrap(s.sendPos) := Wrap(s'.sendPos)];
    var last := Range(s.sendPos, s'.sendPos);
    assert s'.ranges[|s.ranges|] == last;
    forall r | r in s'.ranges ensures Wrap(r.start) in m' && m'[Wrap(r.start)] == Wrap(r.end) {
      if r != last {
        assert r in s.ranges;
        WrapInjective(r.start, s.sendPos);
      }
    }
    forall k | k in m' ensures exists r :: r in s'.ranges && Wrap(r.start) == k {
      if k != Wrap(s.sendPos) {
        var r :| r in s.ranges && Wrap(r.start) == k;
        assert r in s'.ranges;
      } else {
        assert last in s'.ranges;
      }
    }
  }

  /** The map after an acknowledgement: the entry found is removed, and what was not acknowledged of
      it is put back under its new start. */
  function MapAfterAck(m: map<StreamPos, StreamPos>, start: int, end: int, res: SendSpec.AckResult)
    : map<StreamPos, StreamPos>
  {
    match res
    case NotFound => m
    case Ack => m - {Wrap(start)}
    case PartialAck(e) => (m - {Wrap(start)})[Wrap(end) := Wrap(e)]
  }

  /** Whatever the window reports as acknowledged is in the task's map, with the same end; and the map
      agrees with the window afterwards. */
  lemma {:induction false} AckAgrees(m: map<StreamPos, StreamPos>, s: SendSpec.SendState, start: int, end: int)
    requires SendSpec.Valid(s) && s.capacity < HALF && MapAgrees(m, s.ranges)
    ensures SendSpec.AckRange(s, start, end).1.Ack? ==>
              Wrap(start) in m && m[Wrap(start)] == Wrap(end)
    ensures SendSpec.AckRange(s, start, end).1.PartialAck? ==>
              Wrap(start) in m && m[Wrap(start)] == Wrap(SendSpec.AckRange(s, start, end).1.nackedEnd)
    ensures MapAgrees(MapAfterAck(m, start, end, SendSpec.AckRange(s, start, end).1),
                      SendSpec.AckRange(s, start, end).0.ranges)
  {
    var i := FindStart(s.ranges, start);
    if i < |s.ranges| && start < end <= s.ranges[i].end {
      assert s.ranges[i] in s.ranges;
      if end == s.ranges[i].end {
        RemoveAgrees(m, s, i);
      } else {
        TrimAgrees(m, s, i, end);
      }
    }
  }

  lemma {:induction false} RemoveElements(rs: seq<Range>, i: nat, x: Range)
    requires Sorted(rs) && i < |rs|
    ensures x in rs[..i] + rs[i + 1..] <==> x in rs && x != rs[i]
  {
    assert rs == rs[..i] + [rs[i]] + rs[i + 1..];
    assert forall j :: 0 <= j < |rs| && j != i ==> rs[j].start != rs[i].start;
  }

  lemma {:induction false} TrimElements(rs: seq<Range>, i: nat, t: Range, x: Range)
    requires Sorted(rs) && i < |rs|
    ensures x in rs[i := t] <==> x == t || (x in rs && x != rs[i])
  {
    assert rs[i := t] == rs[..i] + [t] + rs[i + 1..];
    RemoveElements(rs, i, x);
  }

  lemma {:induction false} RemoveAgrees(m: map<StreamPos, StreamPos>, s: SendSpec.SendState, i: nat)
    requires SendSpec.Valid(s) && s.capacity < HALF && MapAgrees(m, s.ranges) && i < |s.ranges|
    ensures MapAgrees(m - {Wrap(s.ranges[i].start)}, s.ranges[..i] + s.ranges[i + 1..])
  {
    forall x ensures x in s.ranges[..i] + s.ranges[i + 1..] <==> x in s.ranges && x != s.ranges[i] {
      RemoveElements(s.ranges, i, x);
    }
    WithoutAgrees(m, s, s.ranges[i], s.ranges[..i] + s.ranges[i + 1..]);
  }

  lemma {:induction false} WithoutAgrees(m: map<StreamPos, StreamPos>, s: SendSpec.SendState, gone: Range,
                                         rest: seq<Range>)
    requires SendSpec.Valid(s) && s.capacity < HALF && MapAgrees(m, s.ranges) && gone in s.ranges
    requires forall x :: x in rest <==> x in s.ranges && x != gone
    ensures MapAgrees(m - {Wrap(gone.start)}, rest)
  {
    var m' := m - {Wrap(gone.start)};
    forall r | r in rest ensures Wrap(r.start) in m' && m'[Wrap(r.start)] == Wrap(r.end) {
      StartsApart(s, r, gone);
    }
    forall k | k in m' ensures exists r :: r in rest && Wrap(r.start) == k {
      var r :| r in s.ranges && Wrap(r.start) == k;
      assert r in rest;
    }
  }

  lemma {:induction false} TrimAgrees(m: map<StreamPos, StreamPos>, s: SendSpec.SendState, i: nat, end: int)
    requires SendSpec.Valid(s) && s.capacity < HALF && MapAgrees(m, s.ranges) && i < |s.ranges|
    requires s.ranges[i].start < end < s.ranges[i].end
    ensures MapAgrees((m - {Wrap(s.ranges[i].start)})[Wrap(end) := Wrap(s.ranges[i].end)],
                      s.ranges[i := Range(end, s.ranges[i].end)])
  {
    var before, t := s.ranges[i], Range(end, s.ranges[i].end);
    var m' := (m - {Wrap(before.start)})[Wrap(end) := Wrap(t.end)];
    var rest := s.ranges[i := t];
    TrimElements(s.ranges, i, t, t);
    forall r | r in rest ensures Wrap(r.start) in m' && m'[Wrap(r.start)] == Wrap(r.end) {
      TrimElements(s.ranges, i, t, r);
      if r != t {
        StartsApart(s, r, before);
        NotInside(s, r, i, end);
      }
    }
    forall k | k in m' ensures exists r :: r in rest && Wrap(r.start) == k {
      if k != Wrap(end) {
        var r :| r in s.ranges && Wrap(r.start) == k;
        TrimElements(s.ranges, i, t, r);
      }
    }
  }

  /** No range starts, even modulo 2^32, strictly inside another. */
  lemma {:induction false} NotInside(s: SendSpec.SendState, r: Range, i: nat, x: int)
    requires SendSpec.Valid(s) && s.capacity < HALF && i < |s.ranges| && r in s.ranges
    requires s.ranges[i].start < x < s.ranges[i].end
    ensures Wrap(r.start) != Wrap(x)
  {
    WrapInjective(r.start, x);
  }
}
