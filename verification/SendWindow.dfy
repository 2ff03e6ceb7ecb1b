/** The send window over wrapping positions and a ring buffer, proved against SendSpec. */
module SendWindow {
  import opened Prelude
  import opened StreamPosition
  import opened RangeList
  import opened PositionRanges
  import opened RingBuffer
  import SendSpec

  datatype AckResult = NotFound | Ack | PartialAck(nackedEnd: StreamPos)

  function WrapResult(r: SendSpec.AckResult): AckResult {
    match r
    case NotFound => NotFound
    case Ack => Ack
    case PartialAck(e) => PartialAck(Wrap(e))
  }

  function WrapOption(r: Option<Range>): Option<PosRange> {
    if r.Some? then Some(WrapRange(r.value)) else None
  }

  /** The unbounded range that a pair of wrapping positions names for a window: the start is read
      from the unacked start on, and the end from the start on. */
  function LiftAck(s: SendSpec.SendState, start: StreamPos, end: StreamPos): (r: Range)
    ensures Wrap(r.start) == start && Wrap(r.end) == end
    ensures s.UnackedStart() <= r.start < s.UnackedStart() + MODULUS
  {
    var a := LiftFrom(s.UnackedStart(), start);
    Range(a, LiftFrom(a, end))
  }

  function AckLifted(s: SendSpec.SendState, r: Range): (SendSpec.SendState, SendSpec.AckResult)
    requires SendSpec.Valid(s)
  {
    SendSpec.AckRange(s, r.start, r.end)
  }

  // ----- Why the wrapping comparisons decide as the integers do -----

  /** A pair that the code turns away before searching names no unacked range or prefix of one. */
  lemma {:induction false} TurnedAway(s: SendSpec.SendState, start: StreamPos, end: StreamPos)
    requires SendSpec.Valid(s) && s.capacity < HALF && s.ranges != []
    requires || !StreamLt(start, end)
             || !StreamGe(start, Wrap(s.ranges[0].start))
             || !StreamLe(end, Wrap(s.ranges[|s.ranges| - 1].end))
    ensures AckLifted(s, LiftAck(s, start, end)) == (s, SendSpec.NotFound)
  {
    var r := LiftAck(s, start, end);
    var i := FindStart(s.ranges, r.start);
    CmpMeaning(start, end);
    CmpMeaning(start, Wrap(s.ranges[0].start));
    if i < |s.ranges| && r.start < r.end <= s.ranges[i].end {
      assert r.end - r.start < HALF;
      assert s.ranges[i].end <= s.ranges[|s.ranges| - 1].end;
      CmpAgrees(r.end, s.ranges[|s.ranges| - 1].end);
    }
  }

  /** Every comparison the search makes is defined and agrees with the integers. */
  lemma {:induction false} SearchAgrees(s: SendSpec.SendState, start: StreamPos, j: nat)
    requires SendSpec.Valid(s) && s.capacity < HALF && j < |s.ranges|
    requires StreamGe(start, Wrap(s.ranges[0].start))
    ensures StreamCmp(Wrap(s.ranges[j].start), start) ==
            Some(Compare(s.ranges[j].start, LiftFrom(s.UnackedStart(), start)))
  {
    CmpMeaning(start, Wrap(s.ranges[0].start));
    CmpAgrees(s.ranges[j].start, LiftFrom(s.UnackedStart(), start));
  }

  /** So are the comparisons with the end of the range found. */
  lemma {:induction false} EndAgrees(s: SendSpec.SendState, start: StreamPos, end: StreamPos, i: nat, r: Range)
    requires SendSpec.Valid(s) && s.capacity < HALF && i < |s.ranges|
    requires r == LiftAck(s, start, end) && StreamLt(start, end) && s.ranges[i].start == r.start
    ensures r.start < r.end < r.start + HALF
    ensures StreamGt(end, Wrap(s.ranges[i].end)) <==> s.ranges[i].end < r.end
    ensures end == Wrap(s.ranges[i].end) <==> s.ranges[i].end == r.end
  {
    CmpMeaning(start, end);
    CmpAgrees(r.end, s.ranges[i].end);
    WrapInjective(r.end, s.ranges[i].end);
  }

  /** The bytes a send takes are those that wait next. */
  lemma {:induction false} SentBytes(s: SendSpec.SendState, max: nat, n: nat)
    requires SendSpec.Valid(s) && 0 < n == Min(|s.buffered| - s.sent, max)
    ensures SendSpec.Send(s, max).1.Some? && SendSpec.Valid(SendSpec.Send(s, max).0)
    ensures SendSpec.Unacked(SendSpec.Send(s, max).0, s.sendPos, SendSpec.Send(s, max).0.sendPos)
            == s.buffered[s.sent..s.sent + n]
  {
    SendSpec.SendKeepsValid(s, max);
  }

  lemma {:induction false} SendOnWire(s: SendSpec.SendState, max: nat, start: StreamPos, end: StreamPos)
    requires SendSpec.Valid(s) && s.capacity < HALF && SendSpec.Send(s, max).1.Some?
    requires start == Wrap(s.sendPos) && end == WrappingAdd(start, Min(|s.buffered| - s.sent, max))
    ensures PosRange(start, end) == WrapRange(SendSpec.Send(s, max).1.value)
    ensures end == Wrap(SendSpec.Send(s, max).0.sendPos)
  {
    WrapAdd(s.sendPos, Min(|s.buffered| - s.sent, max));
  }

  lemma {:induction false} RemoveImage(ps: seq<PosRange>, rs: seq<Range>, i: nat)
    requires Image(ps, rs) && i < |rs|
    ensures Image(ps[..i] + ps[i + 1..], rs[..i] + rs[i + 1..])
  {
  }

  lemma {:induction false} TrimImage(ps: seq<PosRange>, rs: seq<Range>, i: nat, start: int)
    requires Image(ps, rs) && i < |rs|
    ensures Image(ps[i := PosRange(Wrap(start), ps[i].end)], rs[i := Range(start, rs[i].end)])
  {
  }

  /** Take the acknowledged part out of range `i`. */
  method TrimRange(ps: seq<PosRange>, ghost rs: seq<Range>, i: nat, end: StreamPos, ghost r: Range)
    returns (trimmed: seq<PosRange>, res: AckResult)
    requires Image(ps, rs) && i < |rs| && end == Wrap(r.end)
    requires end == ps[i].end <==> r.end == rs[i].end
    ensures r.end == rs[i].end ==> res == Ack && Image(trimmed, rs[..i] + rs[i + 1..])
    ensures r.end != rs[i].end ==>
              res == PartialAck(Wrap(rs[i].end)) && Image(trimmed, rs[i := Range(r.end, rs[i].end)])
  {
    if end == ps[i].end {
      RemoveImage(ps, rs, i);
      trimmed := ps[..i] + ps[i + 1..];
      res := Ack;
    } else {
      TrimImage(ps, rs, i, r.end);
      res := PartialAck(ps[i].end);
      trimmed := ps[i := PosRange(end, ps[i].end)];
    }
  }

  /** What acknowledging the beginning of range `i` answers and leaves. */
  lemma {:induction false} AckResultIs(s: SendSpec.SendState, r: Range, i: nat)
    requires SendSpec.Valid(s) && i == FindStart(s.ranges, r.start) < |s.ranges|
    requires r.start < r.end <= s.ranges[i].end
    ensures AckLifted(s, r).1 ==
            if r.end == s.ranges[i].end then SendSpec.Ack else SendSpec.PartialAck(s.ranges[i].end)
    ensures AckLifted(s, r).0.ranges ==
            if r.end == s.ranges[i].end then s.ranges[..i] + s.ranges[i + 1..]
            else s.ranges[i := Range(r.end, s.ranges[i].end)]
  {
  }

  /** An acknowledgement changes the window only by what it frees and the ranges it leaves. */
  lemma {:induction false} AckFields(s: SendSpec.SendState, r: Range)
    requires SendSpec.Valid(s) && AckLifted(s, r).1 != SendSpec.NotFound
    ensures SendSpec.Valid(AckLifted(s, r).0)
    ensures AckLifted(s, r).0.sendPos == s.sendPos && AckLifted(s, r).0.capacity == s.capacity
    ensures SendSpec.Freed(s, r.start, r.end, AckLifted(s, r).1.Ack?, AckLifted(s, r).0.ranges)
            == s.sent - AckLifted(s, r).0.sent >= 0
    ensures AckLifted(s, r).0.buffered == s.buffered[s.sent - AckLifted(s, r).0.sent..]
  {
    SendSpec.AckKeepsValid(s, r.start, r.end);
  }

  /** The code's test for the head of the window. */
  lemma {:induction false} HeadTest(s: SendSpec.SendState, x: int, sendPos: StreamPos, sent: nat)
    requires sendPos == Wrap(s.sendPos) && sent == s.sent < HALF && s.UnackedStart() <= x <= s.sendPos
    ensures Wrap(x) == WrappingSub(sendPos, sent) <==> x == s.UnackedStart()
  {
    WrapSub(s.sendPos, sent);
    WrapInjective(x, s.UnackedStart());
  }

  /** Only the first range starts at the unacked start. */
  lemma {:induction false} HeadIsFirst(s: SendSpec.SendState, i: nat)
    requires SendSpec.Valid(s) && i < |s.ranges|
    ensures s.ranges[i].start == s.UnackedStart() <==> i == 0
  {
  }

  /** Bytes written right behind the readable ones come next. */
  lemma {:induction false} Appended(cells: seq<u8>, used: nat, d: seq<u8>)
    requires used + |d| <= |cells|
    ensures OverwriteIfAny(cells, used, d)[..used + |d|] == cells[..used] + d
  {
  }

  class SendWindow {
    const ring: RingBuffer
    var sendPos: StreamPos
    var sent: nat
    var unackedRanges: seq<PosRange>
    /** The unbounded state this object stands for. */
    ghost var state: SendSpec.SendState

    ghost predicate Valid()
      reads this, ring, ring.buffer
    {
      && Represents()
      && SendSpec.Valid(state)
    }

    ghost predicate Represents()
      reads this, ring, ring.buffer
    {
      && ring.Valid() && ring.capacity == state.capacity < HALF
      && state.buffered == ring.Contents()
      && sendPos == Wrap(state.sendPos) && sent == state.sent
      && Image(unackedRanges, state.ranges)
    }

    constructor (capacity: nat, streamStart: StreamPos)
      requires 0 < capacity < HALF
      ensures Valid() && state == SendSpec.SendState(streamStart, 0, [], [], capacity)
      ensures fresh(ring) && fresh(ring.buffer)
    {
      ring := new RingBuffer(capacity);
      sendPos, sent, unackedRanges := streamStart, 0, [];
      state := SendSpec.SendState(streamStart, 0, [], [], capacity);
    }

    /** The application's half: append as much of `data` as fits. */
    method Write(data: seq<u8>) returns (len: nat)
      requires Valid()
      modifies `state, ring`head, ring.buffer
      ensures Valid()
      ensures state == SendSpec.Write(old(state), data).0 && len == SendSpec.Write(old(state), data).1
    {
      len := Append(data);
      state := SendSpec.Write(state, data).0;
    }

    /** Put as much of `data` as fits behind the readable bytes. */
    method Append(data: seq<u8>) returns (len: nat)
      requires ring.Valid()
      modifies ring`head, ring.buffer
      ensures ring.Valid() && len == Min(|data|, ring.capacity - old(ring.Used()))
      ensures ring.Contents() == old(ring.Contents()) + data[..len]
    {
      ghost var cells, used := ring.Cells(), ring.Used();
      len := ring.Write(0, data);
      Appended(cells, used, data[..len]);
      len := ring.AdvanceHead(len);
    }

    method SendAvailable() returns (n: nat)
      requires Valid()
      ensures n == |state.buffered| - state.sent
    {
      var available := ring.ReadAvailable();
      n := available - sent;
    }

    method Send(max: nat) returns (range: Option<PosRange>, data: seq<u8>)
      requires Valid()
      modifies this
      ensures Valid() && state == SendSpec.Send(old(state), max).0
      ensures range == WrapOption(SendSpec.Send(old(state), max).1)
      ensures range.Some? ==> data == SendSpec.Unacked(state, old(state.sendPos), state.sendPos)
    {
      var available := SendAvailable();
      var sendAmt := Min(available, max);
      if sendAmt == 0 {
        return None, [];
      }
      SentBytes(state, max, sendAmt);
      data := ring.Read(sent, sendAmt);
      range := Extend(sendAmt, max);
    }

    /** Count the next `sendAmt` waiting bytes as sent and unacked. */
    method Extend(sendAmt: nat, ghost max: nat) returns (range: Option<PosRange>)
      requires Valid() && 0 < sendAmt == Min(|state.buffered| - state.sent, max)
      modifies this
      ensures Valid() && state == SendSpec.Send(old(state), max).0
      ensures range == WrapOption(SendSpec.Send(old(state), max).1)
    {
      var start := sendPos;
      var end := WrappingAdd(start, sendAmt);
      range := Some(PosRange(start, end));
      SendOnWire(state, max, start, end);
      SendSpec.SendKeepsValid(state, max);
      sent := sent + sendAmt;
      sendPos := end;
      unackedRanges := unackedRanges + [PosRange(start, end)];
      state := SendSpec.Send(state, max).0;
    }

    method UnackedStart() returns (p: StreamPos)
      requires Valid()
      ensures p == Wrap(state.UnackedStart())
    {
      hide Image, Sorted;
      WrapSub(state.sendPos, sent);
      p := WrappingSub(sendPos, sent);
    }

    method GetUnacked(start: StreamPos, len: nat) returns (data: seq<u8>)
      requires Valid()
      requires LiftFrom(state.UnackedStart(), start) + len <= state.sendPos
      ensures data == SendSpec.Unacked(state, LiftFrom(state.UnackedStart(), start),
                                       LiftFrom(state.UnackedStart(), start) + len)
    {
      var unackedStart := UnackedStart();
      var bufStart := WrappingSub(start, unackedStart);
      data := ring.Read(bufStart, len);
    }

    /** For every pair of positions: acknowledge what the pair names, exactly as over integers. */
    method AckRange(start: StreamPos, end: StreamPos) returns (res: AckResult)
      requires Valid()
      modifies this, ring`tail
      ensures Valid()
      ensures state == AckLifted(old(state), LiftAck(old(state), start, end)).0
      ensures res == WrapResult(AckLifted(old(state), LiftAck(old(state), start, end)).1)
    {
      if unackedRanges == [] {
        return NotFound;
      }
      if !StreamLt(start, end)
         || !StreamGe(start, unackedRanges[0].start)
         || !StreamLe(end, unackedRanges[|unackedRanges| - 1].end) {
        TurnedAway(state, start, end);
        return NotFound;
      }
      var found, i := SearchStart(start);
      if !found {
        return NotFound;
      }
      res := AckFound(i, start, end);
    }

    method SearchStart(start: StreamPos) returns (found: bool, i: nat)
      requires Valid() && state.ranges != [] && StreamGe(start, Wrap(state.ranges[0].start))
      ensures found <==> FindStart(state.ranges, LiftFrom(state.UnackedStart(), start)) < |state.ranges|
      ensures found ==> i == FindStart(state.ranges, LiftFrom(state.UnackedStart(), start))
    {
      ghost var place := LiftFrom(state.UnackedStart(), start);
      ghost var rs := state.ranges;
      ghost var places := seq(|rs|, j requires 0 <= j < |rs| => rs[j].start);
      forall j | 0 <= j < |rs| ensures StreamCmp(Starts(unackedRanges)[j], start) == Some(Compare(places[j], place)) {
        SearchAgrees(state, start, j);
      }
      SearchFinds(Starts(unackedRanges), start, places, place, 0, |rs|);
      var r := BinarySearch(Starts(unackedRanges), start);
      found, i := r.value.0, r.value.1;
    }

    /** The range at `i` starts where the acknowledgement does. */
    method AckFound(i: nat, start: StreamPos, end: StreamPos) returns (res: AckResult)
      requires Valid() && i < |state.ranges| && StreamLt(start, end)
      requires i == FindStart(state.ranges, LiftFrom(state.UnackedStart(), start))
      modifies this, ring`tail
      ensures Valid()
      ensures state == AckLifted(old(state), LiftAck(old(state), start, end)).0
      ensures res == WrapResult(AckLifted(old(state), LiftAck(old(state), start, end)).1)
    {
      hide Sorted;
      ghost var s, r := state, LiftAck(state, start, end);
      EndAgrees(s, start, end, i, r);
      if StreamGt(end, unackedRanges[i].end) {
        return NotFound;
      }
      unackedRanges, res := TrimRange(unackedRanges, s.ranges, i, end, r);
      HeadIsFirst(s, i);
      HeadTest(s, r.start, sendPos, sent);
      assert start == WrappingSub(sendPos, sent) ==> i == 0;
      AckResultIs(s, r, i);
      AckFields(s, r);
      Commit(start, end, res, AckLifted(s, r).0, r);
    }

    /** Free the acknowledged head of the window, the ranges being those left already. */
    method Commit(start: StreamPos, end: StreamPos, res: AckResult, ghost next: SendSpec.SendState, ghost r: Range)
      requires ring.Valid() && ring.capacity == next.capacity == state.capacity < HALF
      requires state.buffered == ring.Contents() && sendPos == Wrap(next.sendPos) && next.sendPos == state.sendPos
      requires next.sent <= state.sent == sent <= |state.buffered| <= state.capacity
      requires SendSpec.Valid(next) && Image(unackedRanges, next.ranges)
      requires start == Wrap(r.start) && end == Wrap(r.end)
      requires state.UnackedStart() <= r.start < r.end <= state.sendPos
      requires SendSpec.Freed(state, r.start, r.end, res.Ack?, next.ranges) == state.sent - next.sent
      requires next.buffered == state.buffered[state.sent - next.sent..]
      modifies `sent, `state, ring`tail
      ensures Valid() && state == next
    {
      HeadTest(state, r.start, sendPos, sent);
      if start == WrappingSub(sendPos, sent) {
        var acked := AckedAmount(next, start, end, res, r);
        Release(acked);
      } else {
        assert next.buffered == state.buffered;
      }
      state := next;
    }

    /** Give the first `n` sent bytes back to the writer. */
    method Release(n: nat)
      requires ring.Valid() && n <= sent <= ring.Used()
      modifies `sent, ring`tail
      ensures ring.Valid() && sent == old(sent) - n && ring.Contents() == old(ring.Contents())[n..]
    {
      var _ := ring.AdvanceTail(n);
      sent := sent - n;
    }

    /** How much of the head of the window the acknowledgement frees. */
    method AckedAmount(ghost next: SendSpec.SendState, start: StreamPos, end: StreamPos, res: AckResult, ghost r: Range)
      returns (n: nat)
      requires state.capacity < HALF && sent == state.sent <= state.capacity
      requires SendSpec.Valid(next) && next.sent <= state.sent && next.sendPos == state.sendPos
      requires Image(unackedRanges, next.ranges)
      requires start == Wrap(r.start) && end == Wrap(r.end) && r.start == state.UnackedStart()
      requires r.start < r.end <= state.sendPos
      ensures n == SendSpec.Freed(state, r.start, r.end, res.Ack?, next.ranges)
    {
      WrapSub(r.end, r.start);
      if res.Ack? {
        if unackedRanges == [] {
          n := sent;
        } else {
          WrapSub(next.ranges[0].start, r.start);
          n := WrappingSub(unackedRanges[0].start, start);
        }
      } else {
        n := WrappingSub(end, start);
      }
    }
  }
}
