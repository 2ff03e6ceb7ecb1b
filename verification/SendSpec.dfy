/** What the send window does, over unbounded stream positions. */
module SendSpec {
  import opened Prelude
  import opened RangeList

  /** `buffered` holds the bytes from the unacked start on: the first `sent` of them have been sent,
      the others wait. `ranges` are the sent ranges not acknowledged yet. */
  datatype SendState = SendState(sendPos: int, sent: nat, ranges: seq<Range>, buffered: seq<u8>, capacity: nat) {
    function UnackedStart(): int {
      sendPos - sent
    }
  }

  datatype AckResult = NotFound | Ack | PartialAck(nackedEnd: int)

  predicate Valid(s: SendState) {
    && s.sent <= |s.buffered| <= s.capacity
    && Sorted(s.ranges)
    && (forall i :: 0 <= i < |s.ranges| ==> s.UnackedStart() <= s.ranges[i].start && s.ranges[i].end <= s.sendPos)
    && (s.ranges != [] ==> s.ranges[0].start == s.UnackedStart())
    && (s.ranges == [] ==> s.sent == 0)
  }

  // ----- The operations -----

  /** The application appends as much of `data` as fits. */
  function Write(s: SendState, data: seq<u8>): (res: (SendState, nat))
    requires |s.buffered| <= s.capacity
  {
    var n := Min(|data|, s.capacity - |s.buffered|);
    (s.(buffered := s.buffered + data[..n]), n)
  }

  /** A write takes a prefix of the data, all of it unless the window is full afterwards. */
  lemma {:induction false} WriteIsMaximal(s: SendState, data: seq<u8>)
    requires Valid(s)
    ensures var (s', n) := Write(s, data);
            && Valid(s') && n <= |data| && s' == s.(buffered := s.buffered + data[..n])
            && (n == |data| || |s'.buffered| == s.capacity)
  {
  }

  /** Take up to `max` waiting bytes as a new unacked range. */
  function Send(s: SendState, max: nat): (res: (SendState, Option<Range>))
    requires s.sent <= |s.buffered|
  {
    var n := Min(|s.buffered| - s.sent, max);
    if n == 0 then (s, None)
    else
      var range := Range(s.sendPos, s.sendPos + n);
      (s.(sendPos := s.sendPos + n, sent := s.sent + n, ranges := s.ranges + [range]), Some(range))
  }

  /** The bytes of a sent range, as kept for retransmission. */
  function Unacked(s: SendState, start: int, end: int): (data: seq<u8>)
    requires s.UnackedStart() <= start <= end <= s.sendPos && s.sent <= |s.buffered|
  {
    s.buffered[start - s.UnackedStart()..end - s.UnackedStart()]
  }

  function Drop(s: SendState, freed: nat): SendState
    requires freed <= s.sent <= |s.buffered|
  {
    s.(sent := s.sent - freed, buffered := s.buffered[freed..])
  }

  /** How much an acknowledgement that leaves `rest` frees. */
  function Freed(s: SendState, start: int, end: int, whole: bool, rest: seq<Range>): int {
    if start != s.UnackedStart() then 0
    else if !whole then end - start
    else if rest == [] then s.sent
    else rest[0].start - start
  }

  function AckRange(s: SendState, start: int, end: int): (res: (SendState, AckResult))
    requires Valid(s)
  {
    var i := FindStart(s.ranges, start);
    if i == |s.ranges| || end <= start || s.ranges[i].end < end then (s, NotFound)
    else if end == s.ranges[i].end then
      var rest := s.ranges[..i] + s.ranges[i + 1..];
      (Drop(s, Freed(s, start, end, true, rest)).(ranges := rest), Ack)
    else
      var rest := s.ranges[i := Range(end, s.ranges[i].end)];
      (Drop(s, Freed(s, start, end, false, rest)).(ranges := rest), PartialAck(s.ranges[i].end))
  }

  // ----- What acknowledgement does -----

  /** Ranges are found by where they start, so a range is in the list iff the search finds it. */
  lemma {:induction false} FindRange(rs: seq<Range>, r: Range)
    requires Sorted(rs)
    ensures r in rs <==> FindStart(rs, r.start) < |rs| && rs[FindStart(rs, r.start)] == r
  {
    if r in rs {
      var j :| 0 <= j < |rs| && rs[j] == r;
      assert FindStart(rs, r.start) == j;
    }
  }

  /** The three results, each exactly when: the range is one of the list; it is a proper prefix of one
      of the list; neither, and then nothing changes. */
  lemma {:induction false} AckCharacterised(s: SendState, start: int, end: int)
    requires Valid(s)
    ensures var (s', res) := AckRange(s, start, end);
            && (res == Ack <==> Range(start, end) in s.ranges)
            && (res.PartialAck? <==> start < end && exists e :: end < e && Range(start, e) in s.ranges)
            && (res.PartialAck? ==> Range(start, res.nackedEnd) in s.ranges && end < res.nackedEnd)
            && (res == NotFound ==> s' == s)
  {
    FindRange(s.ranges, Range(start, end));
    var i := FindStart(s.ranges, start);
    if start < end && exists e :: end < e && Range(start, e) in s.ranges {
      var e :| end < e && Range(start, e) in s.ranges;
      FindRange(s.ranges, Range(start, e));
    }
  }

  lemma {:induction false} RemoveKeepsSorted(rs: seq<Range>, i: nat)
    requires Sorted(rs) && i < |rs|
    ensures Sorted(rs[..i] + rs[i + 1..])
  {
    var m := rs[..i] + rs[i + 1..];
    assert forall k :: 0 <= k < |m| ==> m[k] == if k < i then rs[k] else rs[k + 1];
  }

  lemma {:induction false} RemoveCovers(rs: seq<Range>, i: nat, x: int)
    requires Sorted(rs) && i < |rs|
    ensures Covers(rs[..i] + rs[i + 1..], x) <==> Covers(rs, x) && !(rs[i].start <= x < rs[i].end)
  {
    CoversParts(rs, i, i + 1, x);
    CoversAppend(rs[..i], rs[i + 1..], x);
    assert rs[i..i + 1] == [rs[i]] && [rs[i]][0] == rs[i];
  }

  lemma {:induction false} TrimCovers(rs: seq<Range>, i: nat, start: int, x: int)
    requires Sorted(rs) && i < |rs| && rs[i].start <= start < rs[i].end
    ensures Sorted(rs[i := Range(start, rs[i].end)])
    ensures Covers(rs[i := Range(start, rs[i].end)], x) <==> Covers(rs, x) && !(rs[i].start <= x < start)
  {
    var m := rs[i := Range(start, rs[i].end)];
    if Covers(rs, x) {
      var k :| 0 <= k < |rs| && rs[k].start <= x < rs[k].end;
      assert k != i ==> m[k] == rs[k];
      assert k == i && start <= x ==> m[i].start <= x < m[i].end;
    }
    if Covers(m, x) {
      var k :| 0 <= k < |m| && m[k].start <= x < m[k].end;
      assert k != i ==> m[k] == rs[k];
    }
  }

  /** A successful acknowledgement removes exactly the acknowledged positions from the unacked ones. */
  lemma {:induction false} AckCovers(s: SendState, start: int, end: int, x: int)
    requires Valid(s)
    ensures var (s', res) := AckRange(s, start, end);
            res != NotFound ==> (Covers(s'.ranges, x) <==> Covers(s.ranges, x) && !(start <= x < end))
  {
    var i := FindStart(s.ranges, start);
    if i < |s.ranges| && start < end <= s.ranges[i].end {
      if end == s.ranges[i].end {
        RemoveCovers(s.ranges, i, x);
      } else {
        TrimCovers(s.ranges, i, end, x);
      }
    }
  }

  /** Acknowledging keeps the window's invariant: in particular the new unacked start is the first
      position still unacked, or the send position when there is none. */
  lemma {:induction false} AckKeepsValid(s: SendState, start: int, end: int)
    requires Valid(s)
    ensures Valid(AckRange(s, start, end).0)
    ensures AckRange(s, start, end).0.sendPos == s.sendPos
    ensures AckRange(s, start, end).0.capacity == s.capacity
    ensures s.UnackedStart() <= AckRange(s, start, end).0.UnackedStart()
    ensures |AckRange(s, start, end).0.buffered| - AckRange(s, start, end).0.sent == |s.buffered| - s.sent
  {
    var i := FindStart(s.ranges, start);
    if i < |s.ranges| && start < end <= s.ranges[i].end {
      if end == s.ranges[i].end {
        RemoveKeepsValid(s, i);
      } else {
        TrimKeepsValid(s, i, end);
      }
    }
  }

  lemma {:induction false} RemoveKeepsValid(s: SendState, i: nat)
    requires Valid(s) && i < |s.ranges|
    ensures var rest := s.ranges[..i] + s.ranges[i + 1..];
            && 0 <= Freed(s, s.ranges[i].start, s.ranges[i].end, true, rest) <= s.sent
            && Valid(Drop(s, Freed(s, s.ranges[i].start, s.ranges[i].end, true, rest)).(ranges := rest))
  {
    hide Sorted, Freed, Drop;
    RemoveKeepsSorted(s.ranges, i);
    if i == 0 {
      assert s.ranges[..0] + s.ranges[1..] == s.ranges[1..];
      RemoveFirst(s);
    } else {
      RemoveLater(s, i);
    }
  }

  lemma {:induction false} RemoveFirst(s: SendState)
    requires Valid(s) && s.ranges != [] && Sorted(s.ranges[1..])
    ensures var rest := s.ranges[1..];
            && 0 <= Freed(s, s.ranges[0].start, s.ranges[0].end, true, rest) <= s.sent
            && Valid(Drop(s, Freed(s, s.ranges[0].start, s.ranges[0].end, true, rest)).(ranges := rest))
  {
    var rest := s.ranges[1..];
    assert forall k :: 0 <= k < |rest| ==> rest[k] == s.ranges[k + 1] && rest[0].start <= rest[k].start;
  }

  lemma {:induction false} RemoveLater(s: SendState, i: nat)
    requires Valid(s) && 0 < i < |s.ranges| && Sorted(s.ranges[..i] + s.ranges[i + 1..])
    ensures var rest := s.ranges[..i] + s.ranges[i + 1..];
            && Freed(s, s.ranges[i].start, s.ranges[i].end, true, rest) == 0
            && Valid(Drop(s, 0).(ranges := rest))
  {
    var rest := s.ranges[..i] + s.ranges[i + 1..];
    assert forall k :: 0 <= k < |rest| ==> rest[k] == if k < i then s.ranges[k] else s.ranges[k + 1];
    assert s.ranges[0].end <= s.ranges[i].start;
  }

  lemma {:induction false} TrimKeepsValid(s: SendState, i: nat, end: int)
    requires Valid(s) && i < |s.ranges| && s.ranges[i].start < end < s.ranges[i].end
    ensures var rest := s.ranges[i := Range(end, s.ranges[i].end)];
            && 0 <= Freed(s, s.ranges[i].start, end, false, rest) <= s.sent
            && Valid(Drop(s, Freed(s, s.ranges[i].start, end, false, rest)).(ranges := rest))
  {
    TrimCovers(s.ranges, i, end, end);
    assert s.ranges[i].start == s.UnackedStart() <==> i == 0;
  }

  /** The unacked start is the least unacked position: everything before it is acknowledged. */
  lemma {:induction false} UnackedStartIsLeast(s: SendState, x: int)
    requires Valid(s)
    ensures Covers(s.ranges, x) ==> s.UnackedStart() <= x < s.sendPos
    ensures s.ranges != [] ==> Covers(s.ranges, s.UnackedStart())
    ensures s.ranges == [] ==> s.UnackedStart() == s.sendPos
  {
    if s.ranges != [] {
      assert s.ranges[0].start <= s.UnackedStart() < s.ranges[0].end;
    }
  }

  /** An acknowledgement drops the bytes before the new unacked start and no others. */
  lemma {:induction false} AckFrees(s: SendState, start: int, end: int)
    requires Valid(s)
    ensures s.UnackedStart() <= AckRange(s, start, end).0.UnackedStart() <= s.sendPos
    ensures AckRange(s, start, end).0.buffered
            == s.buffered[AckRange(s, start, end).0.UnackedStart() - s.UnackedStart()..]
  {
    AckKeepsValid(s, start, end);
  }

  /** Whatever an acknowledgement frees, the bytes kept for the positions still buffered do not change. */
  lemma {:induction false} AckKeepsBytes(s: SendState, start: int, end: int, x: int)
    requires Valid(s)
    ensures var s' := AckRange(s, start, end).0;
            s'.UnackedStart() <= x < s.UnackedStart() + |s.buffered| ==>
              && 0 <= x - s'.UnackedStart() < |s'.buffered|
              && s'.buffered[x - s'.UnackedStart()] == s.buffered[x - s.UnackedStart()]
  {
    AckFrees(s, start, end);
  }

  /** Sending keeps the invariant and marks exactly the bytes taken as unacked. */
  lemma {:induction false} SendKeepsValid(s: SendState, max: nat)
    requires Valid(s)
    ensures Valid(Send(s, max).0)
    ensures Send(s, max).0.UnackedStart() == s.UnackedStart()
    ensures Send(s, max).1.Some? <==> max > 0 && s.sent < |s.buffered|
    ensures Send(s, max).1.Some? ==> Send(s, max).1.value == Range(s.sendPos, Send(s, max).0.sendPos)
    ensures Send(s, max).0.sendPos <= s.sendPos + max
    ensures Send(s, max).0.sendPos == s.sendPos + max || Send(s, max).0.sent == |s.buffered|
    ensures Send(s, max).0.buffered == s.buffered
  {
  }

  /** An acknowledgement of a range removes that many unacked positions. */
  lemma {:induction false} AckShrinks(s: SendState, start: int, end: int)
    requires Valid(s) && AckRange(s, start, end).1 != NotFound
    ensures TotalLength(AckRange(s, start, end).0.ranges) == TotalLength(s.ranges) - (end - start)
  {
    var i := FindStart(s.ranges, start);
    var rs, r := s.ranges, s.ranges[i];
    assert rs == rs[..i] + [r] + rs[i + 1..];
    TotalAppend(rs[..i] + [r], rs[i + 1..]);
    TotalAppend(rs[..i], [r]);
    if end == r.end {
      TotalAppend(rs[..i], rs[i + 1..]);
    } else {
      var t := Range(end, r.end);
      assert rs[i := t] == rs[..i] + [t] + rs[i + 1..];
      TotalAppend(rs[..i] + [t], rs[i + 1..]);
      TotalAppend(rs[..i], [t]);
    }
  }

  lemma {:induction false} TotalAppend(a: seq<Range>, b: seq<Range>)
    ensures TotalLength(a + b) == TotalLength(a) + TotalLength(b)
  {
    if a == [] {
      assert a + b == b;
    } else {
      assert (a + b)[1..] == a[1..] + b;
      TotalAppend(a[1..], b);
    }
  }

  lemma {:induction false} TotalNonNegative(rs: seq<Range>)
    requires Sorted(rs)
    ensures TotalLength(rs) >= |rs|
  {
    if rs != [] {
      assert forall i :: 0 <= i < |rs[1..]| ==> rs[1..][i] == rs[i + 1];
      TotalNonNegative(rs[1..]);
    }
  }
}
