/** What the receive window does, over unbounded stream positions. */
module RecvSpec {
  import opened Prelude
  import opened RangeList

  /** `cells[x - readPos]` is the ring cell of stream position x, for readPos <= x < windowEnd. */
  datatype RecvState = RecvState(readPos: int, recvPos: int, unready: seq<Range>, cells: seq<u8>) {
    function WindowEnd(): int {
      readPos + |cells|
    }
  }

  /** The position has been received. */
  predicate Stored(r: RecvState, x: int) {
    x < r.recvPos || Covers(r.unready, x)
  }

  /** What holds whatever packets arrive: regions in order and apart, all inside the window, a dead
      prefix of them lying wholly below the receive position and the others wholly above it; and the last
      region, if there is one, is not dead. */
  predicate SplitValid(r: RecvState) {
    r.readPos <= r.recvPos <= r.WindowEnd() && SplitAt(r.unready, r.recvPos, r.WindowEnd())
  }

  predicate SplitAt(u: seq<Range>, pos: int, windowEnd: int) {
    && Apart(u)
    && (forall i :: 0 <= i < |u| ==> u[i].end <= windowEnd)
    && (forall i :: 0 <= i < |u| ==> u[i].end < pos || pos < u[i].start)
    && (u != [] ==> pos < u[|u| - 1].start)
  }

  predicate AllAbove(u: seq<Range>, low: int) {
    forall i :: 0 <= i < |u| ==> low < u[i].start
  }

  /** The documented invariant: moreover no region is dead. */
  predicate Documented(r: RecvState) {
    && SplitValid(r)
    && AllAbove(r.unready, r.recvPos)
  }

  // ----- The operation -----

  /** A region that reaches the ready block: the new receive position and the regions left. */
  function Join(unready: seq<Range>, end: int): (r: (int, seq<Range>)) {
    var pos := FirstEnding(unready, end);
    if pos == |unready| then (end, [])
    else if unready[pos].start <= end then (unready[pos].end, unready[pos + 1..])
    else (end, unready)
  }

  /** A region that does not reach the ready block, combined with those it overlaps or touches. */
  function Merge(unready: seq<Range>, start: int, end: int): (r: seq<Range>) {
    var k := FirstEnding(unready, start);
    var j := FirstStartingAfter(unready, k, end);
    var merged := if j == k then Range(start, end)
                  else Range(Min(start, unready[k].start), Max(end, unready[j - 1].end));
    Splice(unready, k, j, merged)
  }

  /** Account for a region that has been filled. */
  function Account(r: RecvState, start: int, end: int): RecvState {
    if start <= r.recvPos then
      var (recvPos, unready) := Join(r.unready, end);
      r.(recvPos := recvPos, unready := unready)
    else r.(unready := Merge(r.unready, start, end))
  }

  /** Receive `data` at `start`; the second result is the end of the range now known to be stored. */
  function Receive(r: RecvState, start: int, data: seq<u8>): (res: (RecvState, Option<int>))
    requires r.readPos <= r.recvPos
  {
    var windowEnd := r.WindowEnd();
    if start >= windowEnd then (r, None)
    else
      var copyStart := Max(r.recvPos, start);
      var end := Min(start + |data|, windowEnd);
      if copyStart >= end then (r, if start < end then Some(end) else None)
      else
        var cells := Overwrite(r.cells, copyStart - r.readPos, data[copyStart - start..end - start]);
        (Account(r.(cells := cells), start, end), Some(end))
  }

  /** The reader takes the first `n` ready bytes; their cells become the last of the window. */
  function Take(r: RecvState, n: nat): (res: RecvState)
    requires n <= r.recvPos - r.readPos <= |r.cells|
  {
    r.(readPos := r.readPos + n, cells := r.cells[n..] + r.cells[..n])
  }

  // ----- Merge and Join as set operations -----

  lemma {:induction false} MergeKeepsApart(u: seq<Range>, start: int, end: int)
    requires Apart(u) && start < end
    ensures Apart(Merge(u, start, end))
  {
    var k := FirstEnding(u, start);
    var j := FirstStartingAfter(u, k, end);
    SpliceApart(u, k, j, Merge(u, start, end)[k]);
  }

  lemma {:induction false} MergeCovers(u: seq<Range>, start: int, end: int, x: int)
    requires Apart(u) && start < end
    ensures Covers(Merge(u, start, end), x) <==> Covers(u, x) || start <= x < end
  {
    var k := FirstEnding(u, start);
    var j := FirstStartingAfter(u, k, end);
    SpliceCovers(u, k, j, Merge(u, start, end)[k], x);
    CoversParts(u, k, j, x);
    if k < j {
      MergedRun(u, k, j, start, end, x);
    }
  }

  /** The merged region is the new one together with the run it replaces. */
  lemma {:induction false} MergedRun(u: seq<Range>, k: nat, j: nat, start: int, end: int, x: int)
    requires Apart(u) && start < end && k < j <= |u|
    requires start <= u[k].end && u[j - 1].start <= end
    ensures Min(start, u[k].start) <= x < Max(end, u[j - 1].end) <==> start <= x < end || Covers(u[k..j], x)
  {
    var run := u[k..j];
    assert run[0] == u[k] && run[j - k - 1] == u[j - 1];
    if Covers(run, x) {
      var i :| 0 <= i < |run| && run[i].start <= x < run[i].end;
      assert run[i] == u[k + i];
    }
  }

  lemma {:induction false} JoinSplits(u: seq<Range>, end: int)
    requires Apart(u)
    ensures end <= Join(u, end).0
    ensures Join(u, end).0 == end || exists i :: 0 <= i < |u| && Join(u, end).0 == u[i].end
    ensures Apart(Join(u, end).1)
    ensures forall r :: r in Join(u, end).1 ==> r in u && (r.end < Join(u, end).0 || Join(u, end).0 < r.start)
  {
  }

  lemma {:induction false} JoinCovers(u: seq<Range>, end: int, x: int)
    requires Apart(u)
    ensures x < Join(u, end).0 || Covers(Join(u, end).1, x) <==> x < end || Covers(u, x)
  {
    var pos := FirstEnding(u, end);
    if pos == |u| {
    } else if u[pos].start <= end {
      CoversParts(u, pos, pos + 1, x);
      assert u[pos..pos + 1] == [u[pos]];
      assert Covers([u[pos]], x) <==> u[pos].start <= x < u[pos].end by { assert [u[pos]][0] == u[pos]; }
      assert Covers(u[..pos], x) ==> x < end;
    }
  }

  // ----- Receive as set union -----

  /** For any packet whatever: receiving succeeds exactly when there is data and it starts before the
      window end; the range it reports runs to the end of the data or of the window, and exactly that
      range is added to what is stored. */
  lemma {:induction false} ReceiveUnion(r: RecvState, start: int, data: seq<u8>, x: int)
    requires SplitValid(r)
    ensures Receive(r, start, data).1 ==
            if data != [] && start < r.WindowEnd() then Some(Min(start + |data|, r.WindowEnd())) else None
    ensures Stored(Receive(r, start, data).0, x) <==>
            Stored(r, x) || (Receive(r, start, data).1.Some? && start <= x < Receive(r, start, data).1.value)
  {
    var end := Min(start + |data|, r.WindowEnd());
    if start < r.WindowEnd() && Max(r.recvPos, start) < end {
      if start <= r.recvPos {
        JoinCovers(r.unready, end, x);
      } else {
        MergeCovers(r.unready, start, end, x);
      }
    }
  }

  /** The window, and every position the reader has taken, stay where they were; the split invariant
      is kept. */
  lemma {:induction false} ReceiveKeepsSplit(r: RecvState, start: int, data: seq<u8>)
    requires SplitValid(r)
    ensures SplitValid(Receive(r, start, data).0)
    ensures Receive(r, start, data).0.readPos == r.readPos
    ensures |Receive(r, start, data).0.cells| == |r.cells|
    ensures r.recvPos <= Receive(r, start, data).0.recvPos
  {
    var cells, end := CellsAfter(r, start, data), Min(start + |data|, r.WindowEnd());
    ReceiveIs(r, start, data);
    if start < r.WindowEnd() && Max(r.recvPos, start) < end {
      AccountKeepsSplit(r, cells, start, end, Receive(r, start, data).0);
    }
  }

  /** The cells once the new data has been copied. */
  function CellsAfter(r: RecvState, start: int, data: seq<u8>): (cells: seq<u8>)
    requires r.readPos <= r.recvPos
    ensures |cells| == |r.cells|
  {
    var copyStart, end := Max(r.recvPos, start), Min(start + |data|, r.WindowEnd());
    if copyStart < end then Overwrite(r.cells, copyStart - r.readPos, data[copyStart - start..end - start]) else r.cells
  }

  /** Receiving is copying what is new and then accounting for it. */
  lemma {:induction false} ReceiveIs(r: RecvState, start: int, data: seq<u8>)
    requires r.readPos <= r.recvPos
    ensures Receive(r, start, data).0 ==
            if Max(r.recvPos, start) < Min(start + |data|, r.WindowEnd())
            then Account(r.(cells := CellsAfter(r, start, data)), start, Min(start + |data|, r.WindowEnd()))
            else r
    ensures Max(r.recvPos, start) < Min(start + |data|, r.WindowEnd()) ==>
              Receive(r, start, data).1 == Some(Min(start + |data|, r.WindowEnd()))
  {
  }

  lemma {:induction false} AccountKeepsSplit(r: RecvState, cells: seq<u8>, start: int, end: int, r': RecvState)
    requires SplitValid(r) && |cells| == |r.cells| && Max(r.recvPos, start) < end <= r.WindowEnd()
    requires r' == Account(r.(cells := cells), start, end)
    ensures SplitValid(r') && r.recvPos <= r'.recvPos && r'.readPos == r.readPos && r'.cells == cells
  {
    hide SplitAt, Join, Merge;
    if start <= r.recvPos {
      JoinKeepsSplit(r.(cells := cells), end);
    } else {
      MergeKeepsSplit(r.(cells := cells), start, end);
    }
  }

  lemma {:induction false} JoinKeepsSplit(r: RecvState, end: int)
    requires SplitValid(r) && r.recvPos < end <= r.WindowEnd()
    ensures SplitValid(r.(recvPos := Join(r.unready, end).0, unready := Join(r.unready, end).1))
    ensures r.recvPos < Join(r.unready, end).0
  {
    JoinSplitsAt(r.unready, end, FirstEnding(r.unready, end), r.recvPos, r.WindowEnd());
  }

  lemma {:induction false} JoinSplitsAt(u: seq<Range>, end: int, k: nat, pos: int, windowEnd: int)
    requires SplitAt(u, pos, windowEnd) && pos < end <= windowEnd && k == FirstEnding(u, end)
    ensures end <= Join(u, end).0 <= windowEnd && SplitAt(Join(u, end).1, Join(u, end).0, windowEnd)
  {
    if k < |u| {
      if u[k].start <= end {
        RestIsLive(u, k, windowEnd);
      } else {
        GapSplits(u, k, end, windowEnd);
      }
    }
  }

  /** After region `k` come only regions above its end. */
  lemma {:induction false} RestIsLive(u: seq<Range>, k: nat, windowEnd: int)
    requires Apart(u) && k < |u| && forall i :: 0 <= i < |u| ==> u[i].end <= windowEnd
    ensures SplitAt(u[k + 1..], u[k].end, windowEnd)
  {
    var rest := u[k + 1..];
    assert forall i :: 0 <= i < |rest| ==> rest[i] == u[k + 1 + i];
  }

  /** A position in a gap splits the list. */
  lemma {:induction false} GapSplits(u: seq<Range>, k: nat, pos: int, windowEnd: int)
    requires Apart(u) && k < |u| && forall i :: 0 <= i < |u| ==> u[i].end <= windowEnd
    requires (forall i :: 0 <= i < k ==> u[i].end < pos) && pos < u[k].start
    ensures SplitAt(u, pos, windowEnd)
  {
    forall i | k <= i < |u| ensures pos < u[i].start {
      assert u[k].start <= u[i].start;
    }
  }

  lemma {:induction false} MergeKeepsSplit(r: RecvState, start: int, end: int)
    requires SplitValid(r) && r.recvPos < start < end <= r.WindowEnd()
    ensures SplitValid(r.(unready := Merge(r.unready, start, end)))
  {
    MergeSplitsAt(r.unready, start, end, r.recvPos, r.WindowEnd());
  }

  lemma {:induction false} MergeSplitsAt(u: seq<Range>, start: int, end: int, pos: int, windowEnd: int)
    requires SplitAt(u, pos, windowEnd) && pos < start < end <= windowEnd
    ensures SplitAt(Merge(u, start, end), pos, windowEnd)
  {
    MergeKeepsApart(u, start, end);
    MergeBounds(u, start, end, pos, windowEnd);
    MergeKeepsLast(u, start, end, pos);
    var m := Merge(u, start, end);
    forall i | 0 <= i < |m| ensures m[i].end < pos || pos < m[i].start {
      assert m[i] in m;
    }
  }

  /** The last region after merging ahead of a position lies ahead of it, if the last one before did. */
  lemma {:induction false} MergeKeepsLast(u: seq<Range>, start: int, end: int, pos: int)
    requires Apart(u) && pos < start < end && (u != [] ==> pos < u[|u| - 1].start)
    requires forall i :: 0 <= i < |u| ==> u[i].end < pos || pos < u[i].start
    ensures Merge(u, start, end) != []
    ensures pos < Merge(u, start, end)[|Merge(u, start, end)| - 1].start
  {
    var k := FirstEnding(u, start);
    var j := FirstStartingAfter(u, k, end);
    var m := Merge(u, start, end);
    if j < |u| {
      assert m[|m| - 1] == u[|u| - 1];
    } else {
      assert m[|m| - 1] == m[k];
      assert k < |u| ==> start <= u[k].end;
    }
  }

  /** A packet with something new is copied and then accounted for. */
  lemma {:induction false} ReceiveCases(r: RecvState, start: int, data: seq<u8>, copied: RecvState, copyStart: int,
                                        end: int)
    requires SplitValid(r)
    requires copyStart == Max(r.recvPos, start) < end && end == Min(start + |data|, r.WindowEnd())
    requires copied == r.(cells := CellsAfter(r, start, data))
    ensures SplitValid(copied) && copied.WindowEnd() == r.WindowEnd()
    ensures Receive(r, start, data) == (Account(copied, start, end), Some(end))
    ensures SplitValid(Account(copied, start, end))
  {
    hide Receive, Account, SplitAt, Overwrite;
    ReceiveIs(r, start, data);
    AccountKeepsSplit(r, copied.cells, start, end, Account(copied, start, end));
  }

  /** Merging above `low` touches only regions above `low`. */
  lemma {:induction false} MergeBounds(u: seq<Range>, start: int, end: int, low: int, high: int)
    requires Apart(u) && low < start < end <= high
    requires forall i :: 0 <= i < |u| ==> u[i].end <= high
    requires forall i :: 0 <= i < |u| ==> u[i].end < low || low < u[i].start
    ensures forall i :: 0 <= i < |Merge(u, start, end)| ==> Merge(u, start, end)[i].end <= high
    ensures forall m :: m in Merge(u, start, end) ==> m.end < low || low < m.start
    ensures AllAbove(u, low) ==> AllAbove(Merge(u, start, end), low)
  {
    var k := FirstEnding(u, start);
    var j := FirstStartingAfter(u, k, end);
    var m := Merge(u, start, end);
    assert low < m[k].start && m[k].end <= high;
    forall i | 0 <= i < |m| && i != k ensures m[i] in u {
      assert m[i] == if i < k then u[i] else u[i + j - k - 1];
    }
  }

  /** The receive position is the least position not stored. */
  lemma {:induction false} RecvPosIsLeastUnstored(r: RecvState)
    requires SplitValid(r)
    ensures !Stored(r, r.recvPos)
    ensures forall x :: x < r.recvPos ==> Stored(r, x)
  {
  }

  /** The receive position only moves over positions whose bytes have been copied, by this packet or an earlier
      one: what is made readable has been written. */
  lemma {:induction false} AdvancesOverStored(r: RecvState, start: int, data: seq<u8>, x: int)
    requires SplitValid(r) && r.recvPos <= x < Receive(r, start, data).0.recvPos
    ensures Covers(r.unready, x) || start <= x < Min(start + |data|, r.WindowEnd())
  {
    ReceiveUnion(r, start, data, x);
  }

  /** The cells of the window after receiving: new data where it was copied, the old cell elsewhere. */
  lemma {:induction false} ReceiveCells(r: RecvState, start: int, data: seq<u8>, x: int)
    requires SplitValid(r) && r.readPos <= x < r.WindowEnd()
    ensures |Receive(r, start, data).0.cells| == |r.cells|
    ensures Receive(r, start, data).0.cells[x - r.readPos] ==
            if r.recvPos <= x && start <= x < start + |data| then data[x - start] else r.cells[x - r.readPos]
  {
    ReceiveIs(r, start, data);
    CellsAfterAt(r, start, data, x);
  }

  lemma {:induction false} CellsAfterAt(r: RecvState, start: int, data: seq<u8>, x: int)
    requires r.readPos <= r.recvPos && r.readPos <= x < r.WindowEnd()
    ensures CellsAfter(r, start, data)[x - r.readPos] ==
            if r.recvPos <= x && start <= x < start + |data| then data[x - start] else r.cells[x - r.readPos]
  {
    var copyStart, end := Max(r.recvPos, start), Min(start + |data|, r.WindowEnd());
    if copyStart < end {
      OverwriteAt(r.cells, copyStart - r.readPos, data[copyStart - start..end - start], x - r.readPos);
    }
  }

  // ----- When the documented invariant survives -----

  /** The packet reaches the ready block, swallows the first unready region strictly inside it, and
      ends in a gap before some later region. */
  predicate Strands(r: RecvState, start: int, data: seq<u8>) {
    && start <= r.recvPos < Min(start + |data|, r.WindowEnd())
    && EndsInLaterGap(r.unready, Min(start + |data|, r.WindowEnd()))
  }

  predicate EndsInLaterGap(u: seq<Range>, end: int) {
    && |u| > 1
    && u[0].end < end < u[|u| - 1].start
    && forall i :: 0 <= i < |u| ==> end < u[i].start || u[i].end < end
  }

  /** Receiving keeps the documented invariant exactly when the packet strands no region. */
  lemma {:induction false} DocumentedKept(r: RecvState, start: int, data: seq<u8>)
    requires Documented(r)
    ensures Documented(Receive(r, start, data).0) <==> !Strands(r, start, data)
  {
    ReceiveKeepsSplit(r, start, data);
    ReceiveAbove(r, start, data);
  }

  lemma {:induction false} ReceiveAbove(r: RecvState, start: int, data: seq<u8>)
    requires Documented(r)
    ensures AllAbove(Receive(r, start, data).0.unready, Receive(r, start, data).0.recvPos)
            <==> !Strands(r, start, data)
  {
    var end := Min(start + |data|, r.WindowEnd());
    if start < r.WindowEnd() && Max(r.recvPos, start) < end {
      if start <= r.recvPos {
        JoinAbove(r.unready, end);
      } else {
        MergeBounds(r.unready, start, end, r.recvPos, r.WindowEnd());
      }
    }
  }

  lemma {:induction false} JoinAbove(u: seq<Range>, end: int)
    requires Apart(u)
    ensures AllAbove(Join(u, end).1, Join(u, end).0) <==> !EndsInLaterGap(u, end)
  {
    var pos := FirstEnding(u, end);
    if 0 < pos < |u| && end < u[pos].start {
      assert !AllAbove(u, end) by { assert u[0].start < u[0].end < end; }
      assert EndsInLaterGap(u, end);
    }
  }

  /** Two regions wait; a packet from the receive position on covers the first and stops in the gap.
      The covered region stays in the list, below the new receive position. */
  lemma {:induction false} StrandedRegion()
    ensures var r := RecvState(0, 0, [Range(2, 3), Range(6, 7)], [0, 0, 0, 0, 0, 0, 0, 0]);
            && Documented(r)
            && Receive(r, 0, [1, 1, 1, 1, 1]).0.recvPos == 5
            && Receive(r, 0, [1, 1, 1, 1, 1]).0.unready == [Range(2, 3), Range(6, 7)]
            && !Documented(Receive(r, 0, [1, 1, 1, 1, 1]).0)
  {
    var u := [Range(2, 3), Range(6, 7)];
    assert FirstEnding(u[1..], 5) == 0;
    assert FirstEnding(u, 5) == 1;
  }

  /** Taking ready bytes moves the window on by as many positions and leaves what is stored, and every
      cell still in the window, as they were. */
  lemma {:induction false} TakeMovesWindow(r: RecvState, n: nat, x: int)
    requires SplitValid(r) && n <= r.recvPos - r.readPos
    ensures SplitValid(Take(r, n)) && (Documented(r) ==> Documented(Take(r, n)))
    ensures Take(r, n).WindowEnd() == r.WindowEnd() + n
    ensures Stored(Take(r, n), x) <==> Stored(r, x)
    ensures r.readPos + n <= x < r.WindowEnd() ==>
              Take(r, n).cells[x - Take(r, n).readPos] == r.cells[x - r.readPos]
  {
  }

  // ----- Runs -----

  /** A packet of data comes in, or the reader takes up to so many ready bytes. */
  datatype Event = Arrives(start: int, data: seq<u8>) | Reads(n: nat)

  function After(r: RecvState, e: Event): (r': RecvState)
    requires SplitValid(r)
    ensures SplitValid(r')
  {
    match e
    case Arrives(start, data) =>
      ReceiveKeepsSplit(r, start, data);
      Receive(r, start, data).0
    case Reads(n) =>
      TakeMovesWindow(r, Min(n, r.recvPos - r.readPos), 0);
      Take(r, Min(n, r.recvPos - r.readPos))
  }

  /** The window after any events; what holds whatever packets arrive holds after every run of them. */
  function Play(r: RecvState, es: seq<Event>): (r': RecvState)
    requires SplitValid(r)
    ensures SplitValid(r')
    decreases |es|
  {
    if es == [] then r else After(Play(r, es[..|es| - 1]), es[|es| - 1])
  }

  /** A byte that arrives ahead of all regions becomes the last of them. */
  lemma {:induction false} ArrivesAhead(r: RecvState, start: int, b: u8)
    requires SplitValid(r) && r.recvPos < start < r.WindowEnd()
    requires forall i :: 0 <= i < |r.unready| ==> r.unready[i].end < start
    ensures After(r, Arrives(start, [b])).readPos == r.readPos && After(r, Arrives(start, [b])).recvPos == r.recvPos
    ensures After(r, Arrives(start, [b])).unready == r.unready + [Range(start, start + 1)]
    ensures |After(r, Arrives(start, [b])).cells| == |r.cells|
  {
    ReceiveIs(r, start, [b]);
    MergeAhead(r.unready, start, start + 1);
  }

  lemma {:induction false} MergeAhead(u: seq<Range>, start: int, end: int)
    requires forall i :: 0 <= i < |u| ==> u[i].end < start
    ensures Merge(u, start, end) == u + [Range(start, end)]
  {
    assert FirstEnding(u, start) == |u|;
    assert FirstStartingAfter(u, |u|, end) == |u|;
  }

  /** Data that reaches the ready block and ends in a gap drains nothing. */
  lemma {:induction false} ArrivesInGap(r: RecvState, data: seq<u8>, k: nat)
    requires SplitValid(r) && data != [] && r.recvPos + |data| <= r.WindowEnd()
    requires k < |r.unready| && (forall i :: 0 <= i < k ==> r.unready[i].end < r.recvPos + |data|)
    requires r.recvPos + |data| < r.unready[k].start
    ensures After(r, Arrives(r.recvPos, data)).readPos == r.readPos
    ensures After(r, Arrives(r.recvPos, data)).recvPos == r.recvPos + |data|
    ensures After(r, Arrives(r.recvPos, data)).unready == r.unready
    ensures |After(r, Arrives(r.recvPos, data)).cells| == |r.cells|
  {
    ReceiveIs(r, r.recvPos, data);
    assert FirstEnding(r.unready, r.recvPos + |data|) == k;
  }
}
