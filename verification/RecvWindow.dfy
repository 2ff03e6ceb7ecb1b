/** The receive window over wrapping positions and a ring buffer, proved against RecvSpec. */
module RecvWindow {
  import opened Prelude
  import opened StreamPosition
  import opened RangeList
  import opened PositionRanges
  import opened RingBuffer
  import RecvSpec

  function WrapOption(p: Option<int>): Option<StreamPos> {
    if p.Some? then Some(Wrap(p.value)) else None
  }

  /** The unbounded position that a wrapping one names for a window. */
  function LiftStart(r: RecvSpec.RecvState, start: StreamPos): int {
    LiftNearAhead(r.WindowEnd(), start)
  }

  /** A comparison of a region's end with a position, as the searches in the list make it, is defined and
      decides as the integers do. */
  predicate Compares(end: int, x: int) {
    StreamCmp(Wrap(end), Wrap(x)) == Some(Compare(end, x))
  }

  /** A region ends above the receive position; or its end has the image of a position at or below the receive
      position and less than half a turn before the window end. */
  predicate EndInReach(r: RecvSpec.RecvState, end: int) {
    r.recvPos < end || r.WindowEnd() - r.recvPos <= (r.WindowEnd() - end) % MODULUS < HALF
  }

  /** The searches in the list compare only positions they can order; a full window makes no search. */
  predicate InReach(r: RecvSpec.RecvState) {
    r.recvPos < r.WindowEnd() ==> forall i :: 0 <= i < |r.unready| ==> EndInReach(r, r.unready[i].end)
  }

  /** The documented invariant is enough for that. */
  lemma {:induction false} DocumentedInReach(r: RecvSpec.RecvState)
    requires RecvSpec.Documented(r) && |r.cells| < HALF
    ensures InReach(r)
  {
  }

  /** Exactly when one region's end is ordered as over integers against every position ahead in the window. */
  lemma {:induction false} EndComparesExactly(r: RecvSpec.RecvState, end: int)
    requires r.readPos <= r.recvPos < r.WindowEnd() && |r.cells| < HALF && end <= r.WindowEnd() && end != r.recvPos
    ensures (forall x :: r.recvPos < x <= r.WindowEnd() ==> Compares(end, x)) <==> EndInReach(r, end)
  {
    var m := (r.WindowEnd() - end) % MODULUS;
    if r.recvPos < end {
      forall x | r.recvPos < x <= r.WindowEnd() ensures Compares(end, x) {
        CmpAgrees(end, x);
      }
    } else if EndInReach(r, end) {
      forall x | r.recvPos < x <= r.WindowEnd() ensures Compares(end, x) {
        InReachCompares(r, end, x);
      }
    } else if m < r.WindowEnd() - r.recvPos {
      TurnsAway(end, r.WindowEnd() - m);
      assert !Compares(end, r.WindowEnd() - m);
    } else {
      CmpMeaning(Wrap(end), Wrap(r.WindowEnd()));
      WrapSub(r.WindowEnd(), end);
      assert !Compares(end, r.WindowEnd());
    }
  }

  lemma {:induction false} InReachCompares(r: RecvSpec.RecvState, end: int, x: int)
    requires EndInReach(r, end) && end < r.recvPos < x <= r.WindowEnd()
    ensures Compares(end, x)
  {
    var near := r.WindowEnd() - (r.WindowEnd() - end) % MODULUS;
    TurnsAway(end, near);
    CmpAgrees(near, x);
  }

  /** Positions a whole number of turns apart have the same image. */
  lemma {:induction false} TurnsAway(x: int, y: int)
    requires (y - x) % MODULUS == 0
    ensures Wrap(x) == Wrap(y)
  {
  }

  /** Exactly when every comparison a search may make, of any region's end with any position ahead in the window,
      is defined and decides as the integers do. */
  lemma {:induction false} InReachExactly(r: RecvSpec.RecvState)
    requires RecvSpec.SplitValid(r) && |r.cells| < HALF
    ensures InReach(r) <==>
            forall i, x :: 0 <= i < |r.unready| && r.recvPos < x <= r.WindowEnd() ==> Compares(r.unready[i].end, x)
  {
    if r.recvPos < r.WindowEnd() {
      forall i | 0 <= i < |r.unready|
        ensures EndInReach(r, r.unready[i].end) <==>
                forall x :: r.recvPos < x <= r.WindowEnd() ==> Compares(r.unready[i].end, x)
      {
        EndComparesExactly(r, r.unready[i].end);
      }
    }
  }

  // ----- What the search for a packet finds -----

  /** Where the search in the list puts a position: the index, or None if a comparison it makes is undefined. */
  function Place(u: seq<Range>, x: int): (i: Option<nat>)
    ensures i.Some? ==> i.value <= |u|
  {
    match Search(Ends(Wrapped(u)), Wrap(x), 0, |u|)
    case None => None
    case Some((_, i)) => Some(i)
  }

  /** The search finds the place the integers give. */
  predicate Finds(u: seq<Range>, x: int) {
    Place(u, x) == Some(FirstEnding(u, x))
  }

  /** The position that the search for a packet looks for; None if the packet brings nothing new. */
  function SoughtBy(r: RecvSpec.RecvState, start: int, len: nat): Option<int> {
    var end := Min(start + len, r.WindowEnd());
    if start >= r.WindowEnd() || Max(r.recvPos, start) >= end then None
    else Some(if start <= r.recvPos then end else start)
  }

  /** Receiving the packet makes an undefined comparison, which the code unwraps. */
  predicate Panics(r: RecvSpec.RecvState, start: int, len: nat) {
    SoughtBy(r, start, len).Some? && Place(r.unready, SoughtBy(r, start, len).value) == None
  }

  /** Receiving the packet makes no search, or one that finds the right place. */
  predicate Locates(r: RecvSpec.RecvState, start: int, len: nat) {
    SoughtBy(r, start, len).Some? ==> Finds(r.unready, SoughtBy(r, start, len).value)
  }

  /** With every region in reach, every packet is located. */
  lemma {:induction false} InReachLocates(r: RecvSpec.RecvState, start: int, len: nat)
    requires RecvSpec.SplitValid(r) && |r.cells| < HALF && InReach(r)
    ensures Locates(r, start, len)
  {
    var x := SoughtBy(r, start, len);
    if x.Some? {
      InReachExactly(r);
      ComparesFinds(r.unready, x.value);
    }
  }

  lemma {:induction false} ComparesFinds(u: seq<Range>, x: int)
    requires Apart(u) && forall i :: 0 <= i < |u| ==> Compares(u[i].end, x)
    ensures Finds(u, x)
  {
    var places := seq(|u|, j requires 0 <= j < |u| => u[j].end);
    assert forall j :: 0 <= j < |u| ==> places[j] == u[j].end;
    forall j | 0 <= j < |u| ensures StreamCmp(Ends(Wrapped(u))[j], Wrap(x)) == Some(Compare(places[j], x)) {
      assert Compares(u[j].end, x);
    }
    SearchFinds(Ends(Wrapped(u)), Wrap(x), places, x, 0, |u|);
    FirstEndingIs(u, x, Place(u, x).value);
  }

  // ----- A window in which a search fails -----

  /** Every packet of a run is located, so that the code goes through it as the integers do. */
  predicate AllLocated(r: RecvSpec.RecvState, es: seq<RecvSpec.Event>)
    requires RecvSpec.SplitValid(r)
    decreases |es|
  {
    es != [] ==>
      && AllLocated(r, es[..|es| - 1])
      && (es[|es| - 1].Arrives? ==>
            Locates(RecvSpec.Play(r, es[..|es| - 1]), es[|es| - 1].start, |es[|es| - 1].data|))
  }

  /** A run from a window of 2^31 - 1 bytes in which nothing had arrived, and what the window looks like after it. */
  predicate Looks(r0: RecvSpec.RecvState, es: seq<RecvSpec.Event>, r: RecvSpec.RecvState,
                  readPos: int, recvPos: int, u: seq<Range>)
  {
    && RecvSpec.SplitValid(r0) && AllLocated(r0, es) && r == RecvSpec.Play(r0, es)
    && r.readPos == readPos && r.recvPos == recvPos && r.unready == u && |r.cells| == HALF - 1
  }

  predicate FreshLargest(r: RecvSpec.RecvState) {
    r.readPos == 0 && r.recvPos == 0 && r.unready == [] && |r.cells| == HALF - 1
  }

  lemma {:induction false} RunOn(r0: RecvSpec.RecvState, es: seq<RecvSpec.Event>, e: RecvSpec.Event)
    requires RecvSpec.SplitValid(r0) && AllLocated(r0, es)
    requires e.Arrives? ==> RecvSpec.Documented(RecvSpec.Play(r0, es)) && |RecvSpec.Play(r0, es).cells| < HALF
    ensures RecvSpec.Play(r0, es + [e]) == RecvSpec.After(RecvSpec.Play(r0, es), e)
    ensures AllLocated(r0, es + [e])
  {
    assert (es + [e])[..|es|] == es;
    if e.Arrives? {
      DocumentedInReach(RecvSpec.Play(r0, es));
      InReachLocates(RecvSpec.Play(r0, es), e.start, |e.data|);
    }
  }

  lemma {:induction false} OneAhead(r0: RecvSpec.RecvState, es: seq<RecvSpec.Event>, r: RecvSpec.RecvState,
                                    u: seq<Range>, start: int)
    returns (es': seq<RecvSpec.Event>, r': RecvSpec.RecvState)
    requires Looks(r0, es, r, 0, 0, u) && RecvSpec.Documented(r) && 0 < start < HALF - 1
    requires forall i :: 0 <= i < |u| ==> u[i].end < start
    ensures Looks(r0, es', r', 0, 0, u + [Range(start, start + 1)]) && RecvSpec.Documented(r')
  {
    hide RecvSpec.Play, RecvSpec.SplitValid, AllLocated, RecvSpec.Receive;
    RecvSpec.ArrivesAhead(r, start, 0);
    RunOn(r0, es, RecvSpec.Arrives(start, [0]));
    es' := es + [RecvSpec.Arrives(start, [0])];
    r' := RecvSpec.After(r, RecvSpec.Arrives(start, [0]));
  }

  lemma {:induction false} TenInGap(r0: RecvSpec.RecvState, es: seq<RecvSpec.Event>, r: RecvSpec.RecvState,
                                    u: seq<Range>)
    returns (es': seq<RecvSpec.Event>, r': RecvSpec.RecvState)
    requires Looks(r0, es, r, 0, 0, u) && RecvSpec.Documented(r)
    requires |u| == 4 && u[0].end < 10 && u[1].end < 10 && u[2].end < 10 < u[3].start
    ensures Looks(r0, es', r', 0, 10, u)
  {
    var ten: seq<u8> := [0, 0, 0, 0, 0, 0, 0, 0, 0, 0];
    RecvSpec.ArrivesInGap(r, ten, 3);
    RunOn(r0, es, RecvSpec.Arrives(0, ten));
    es' := es + [RecvSpec.Arrives(0, ten)];
    r' := RecvSpec.After(r, RecvSpec.Arrives(0, ten));
  }

  lemma {:induction false} TenRead(r0: RecvSpec.RecvState, es: seq<RecvSpec.Event>, r: RecvSpec.RecvState,
                                   u: seq<Range>)
    returns (es': seq<RecvSpec.Event>, r': RecvSpec.RecvState)
    requires Looks(r0, es, r, 0, 10, u)
    ensures Looks(r0, es', r', 10, 10, u)
  {
    RunOn(r0, es, RecvSpec.Reads(10));
    es' := es + [RecvSpec.Reads(10)];
    r' := RecvSpec.After(r, RecvSpec.Reads(10));
  }

  // Three bytes arrive with gaps between them and one far ahead; ten bytes then cover the three and stop in the
  // gap before the last, which leaves them dead in the list; and the ten are read.

  lemma {:induction false} Far1(r0: RecvSpec.RecvState) returns (es: seq<RecvSpec.Event>, r: RecvSpec.RecvState)
    requires FreshLargest(r0)
    ensures Looks(r0, es, r, 0, 0, [Range(2, 3)]) && RecvSpec.Documented(r)
  {
    es, r := OneAhead(r0, [], r0, [], 2);
  }

  lemma {:induction false} Far2(r0: RecvSpec.RecvState) returns (es: seq<RecvSpec.Event>, r: RecvSpec.RecvState)
    requires FreshLargest(r0)
    ensures Looks(r0, es, r, 0, 0, [Range(2, 3), Range(4, 5)]) && RecvSpec.Documented(r)
  {
    es, r := Far1(r0);
    es, r := OneAhead(r0, es, r, [Range(2, 3)], 4);
  }

  lemma {:induction false} Far3(r0: RecvSpec.RecvState) returns (es: seq<RecvSpec.Event>, r: RecvSpec.RecvState)
    requires FreshLargest(r0)
    ensures Looks(r0, es, r, 0, 0, [Range(2, 3), Range(4, 5), Range(6, 7)]) && RecvSpec.Documented(r)
  {
    es, r := Far2(r0);
    es, r := OneAhead(r0, es, r, [Range(2, 3), Range(4, 5)], 6);
  }

  lemma {:induction false} Far4(r0: RecvSpec.RecvState) returns (es: seq<RecvSpec.Event>, r: RecvSpec.RecvState)
    requires FreshLargest(r0)
    ensures Looks(r0, es, r, 0, 0, [Range(2, 3), Range(4, 5), Range(6, 7), Range(HALF - 3, HALF - 2)])
    ensures RecvSpec.Documented(r)
  {
    es, r := Far3(r0);
    es, r := OneAhead(r0, es, r, [Range(2, 3), Range(4, 5), Range(6, 7)], HALF - 3);
  }

  lemma {:induction false} FarState(r0: RecvSpec.RecvState) returns (es: seq<RecvSpec.Event>, r: RecvSpec.RecvState)
    requires FreshLargest(r0)
    ensures Looks(r0, es, r, 10, 10, [Range(2, 3), Range(4, 5), Range(6, 7), Range(HALF - 3, HALF - 2)])
  {
    es, r := Far4(r0);
    var u := r.unready;
    es, r := TenInGap(r0, es, r, u);
    es, r := TenRead(r0, es, r, u);
  }

  /** Half a turn away exactly: after a run in which the code located every packet, the first comparison that the
      search for the next one makes is undefined, and the code panics. */
  lemma {:induction false} SearchUndefined(r0: RecvSpec.RecvState) returns (es: seq<RecvSpec.Event>)
    requires FreshLargest(r0)
    ensures RecvSpec.SplitValid(r0) && AllLocated(r0, es)
    ensures Panics(RecvSpec.Play(r0, es), HALF + 7, 1)
  {
    var r;
    es, r := FarState(r0);
    assert Ends(Wrapped(r.unready))[2] == 7;
    assert StreamCmp(7, Wrap(HALF + 7)) == None;
  }

  /** Further away: after the same run, every comparison that the search makes for another packet is defined, and it
      puts the packet before the three dead regions instead of after all four. */
  lemma {:induction false} SearchMisorders(r0: RecvSpec.RecvState) returns (es: seq<RecvSpec.Event>)
    requires FreshLargest(r0)
    ensures RecvSpec.SplitValid(r0) && AllLocated(r0, es)
    ensures var r := RecvSpec.Play(r0, es);
            && SoughtBy(r, HALF + 8, 1) == Some(HALF + 8)
            && Place(r.unready, HALF + 8) == Some(0) && FirstEnding(r.unready, HALF + 8) == 4
            && !Panics(r, HALF + 8, 1) && !Locates(r, HALF + 8, 1)
  {
    var r;
    es, r := FarState(r0);
    PlacedFirst(r.unready);
    FirstEndingIs(r.unready, HALF + 8, 4);
  }

  lemma {:induction false} PlacedFirst(u: seq<Range>)
    requires u == [Range(2, 3), Range(4, 5), Range(6, 7), Range(HALF - 3, HALF - 2)]
    ensures Place(u, HALF + 8) == Some(0)
  {
    var keys := Ends(Wrapped(u));
    assert keys == [3, 5, 7, HALF - 2];
    assert Search(keys, Wrap(HALF + 8), 0, 0) == Some((false, 0));
    assert Search(keys, Wrap(HALF + 8), 0, 1) == Some((false, 0));
    assert Search(keys, Wrap(HALF + 8), 0, 2) == Some((false, 0));
  }

  // ----- Why the wrapping comparisons decide as the integers do -----

  lemma {:induction false} StartAgrees(r: RecvSpec.RecvState, start: StreamPos)
    requires |r.cells| < HALF
    ensures StreamLt(start, Wrap(r.WindowEnd())) <==> LiftStart(r, start) < r.WindowEnd()
  {
    CmpMeaning(start, Wrap(r.WindowEnd()));
    WrapSub(r.WindowEnd(), LiftStart(r, start));
  }

  /** The comparisons made once the start is known to lie before the window end. */
  lemma {:induction false} BoundsAgree(r: RecvSpec.RecvState, start: int, len: nat, copyStart: int, end: int)
    requires r.readPos <= r.recvPos <= r.WindowEnd() && |r.cells| < HALF && len < HALF
    requires r.WindowEnd() - HALF < start < r.WindowEnd()
    requires copyStart == Max(r.recvPos, start) && end == Min(start + len, r.WindowEnd())
    ensures StreamGt(Wrap(r.recvPos), Wrap(start)) <==> r.recvPos > start
    ensures StreamGe(Wrap(r.recvPos), Wrap(start)) <==> r.recvPos >= start
    ensures StreamLt(Wrap(start + len), Wrap(r.WindowEnd())) <==> start + len < r.WindowEnd()
    ensures StreamGe(Wrap(copyStart), Wrap(end)) <==> copyStart >= end
    ensures StreamLt(Wrap(start), Wrap(end)) <==> start < end
  {
    CmpAgrees(r.recvPos, start);
    CmpAgrees(start + len, r.WindowEnd());
    CmpAgrees(copyStart, end);
    CmpAgrees(start, end);
  }

  /** The region that replaces a run, given where the run stops. */
  lemma {:induction false} MergeIs(u: seq<Range>, start: int, end: int, k: nat, j: nat, r: Range)
    requires Apart(u) && k == FirstEnding(u, start) && k <= j <= |u|
    requires k < j ==> u[j - 1].start <= end
    requires j < |u| ==> end < u[j].start
    requires r == if j == k then Range(start, end) else Range(Min(start, u[k].start), Max(end, u[j - 1].end))
    ensures RecvSpec.Merge(u, start, end) == Splice(u, k, j, r)
  {
    FirstIs(u, k, end, j);
    MergeOf(u, start, end, k, j, r);
  }

  lemma {:induction false} MergeOf(u: seq<Range>, start: int, end: int, k: nat, j: nat, r: Range)
    requires k == FirstEnding(u, start) && k <= j <= |u| && j == FirstStartingAfter(u, k, end)
    requires r == if j == k then Range(start, end) else Range(Min(start, u[k].start), Max(end, u[j - 1].end))
    ensures RecvSpec.Merge(u, start, end) == Splice(u, k, j, r)
  {
  }

  lemma {:induction false} FirstIs(u: seq<Range>, k: nat, end: int, j: nat)
    requires Apart(u) && k <= j <= |u|
    requires k < j ==> u[j - 1].start <= end
    requires j < |u| ==> end < u[j].start
    ensures FirstStartingAfter(u, k, end) == j
  {
    forall i | k <= i < j ensures u[i].start <= end {
      if i < j - 1 {
        assert u[i].start < u[i].end < u[j - 1].start;
      }
    }
  }

  lemma {:induction false} FirstEndingIs(u: seq<Range>, x: int, i: nat)
    requires i <= |u| && (i < |u| ==> x <= u[i].end)
    requires forall j :: 0 <= j < i ==> u[j].end < x
    ensures i == FirstEnding(u, x)
  {
  }

  /** A region from the first one touched on lies between the receive position and the window end. */
  lemma {:induction false} TouchedIsLive(r: RecvSpec.RecvState, start: int, i: nat)
    requires RecvSpec.SplitValid(r) && r.recvPos < start && FirstEnding(r.unready, start) <= i < |r.unready|
    ensures r.recvPos < r.unready[i].start < r.unready[i].end <= r.WindowEnd()
  {
    assert start <= r.unready[FirstEnding(r.unready, start)].end <= r.unready[i].end;
  }

  lemma {:induction false} ReplaceImage(unready: seq<PosRange>, u: seq<Range>, k: nat, j: nat, r: Range)
    requires Image(unready, u) && k <= j <= |u|
    ensures Image(unready[..k] + [WrapRange(r)] + unready[j..], Splice(u, k, j, r))
  {
  }

  /** Put one region, up to `last`, in the place of those from `k` up to `j`, the first of which it takes in. */
  method ReplaceTouched(unready: seq<PosRange>, ghost u: seq<Range>, k: nat, j: nat, startPos: StreamPos,
                        last: StreamPos, ghost start: int, ghost end: int) returns (merged: seq<PosRange>)
    requires Image(unready, u) && Apart(u) && k < j <= |u| && startPos == Wrap(start)
    ensures Touched(u, k, j, start, end) && last == Wrap(Max(end, u[j - 1].end)) ==>
              Image(merged, RecvSpec.Merge(u, start, end))
  {
    var first := if StreamLt(startPos, unready[k].start) then startPos else unready[k].start;
    merged := unready[..k] + [PosRange(first, last)] + unready[j..];
    if Touched(u, k, j, start, end) && last == Wrap(Max(end, u[j - 1].end)) {
      ghost var r := Range(Min(start, u[k].start), Max(end, u[j - 1].end));
      MergeIs(u, start, end, k, j, r);
      CmpAgrees(start, u[k].start);
      ReplaceImage(unready, u, k, j, r);
    }
  }

  /** The regions from `k` up to `j` are those that the new one touches, and it starts near the first. */
  predicate Touched(u: seq<Range>, k: nat, j: nat, start: int, end: int)
    requires k < j <= |u|
  {
    && k == FirstEnding(u, start) && u[j - 1].start <= end && (j < |u| ==> end < u[j].start)
    && -HALF < start - u[k].start < HALF
  }

  /** The scan has come to region `i`, every region before it from the insertion point on being covered, and
      the positions it is about to compare are near each other. */
  predicate Scanned(u: seq<Range>, start: int, end: int, insertPos: nat, i: nat) {
    && insertPos == FirstEnding(u, start) <= i < |u|
    && -HALF < end - u[i].start < HALF && -HALF < end - u[i].end < HALF
    && -HALF < start - u[insertPos].start < HALF
    && (insertPos < i ==> u[i - 1].end <= end)
  }

  lemma {:induction false} ScannedAt(r: RecvSpec.RecvState, start: int, end: int, insertPos: nat, i: nat)
    requires RecvSpec.SplitValid(r) && |r.cells| < HALF && r.recvPos < start < end <= r.WindowEnd()
    requires insertPos == FirstEnding(r.unready, start) <= i < |r.unready|
    requires insertPos < i ==> r.unready[i - 1].end <= end
    ensures Scanned(r.unready, start, end, insertPos, i)
  {
    TouchedIsLive(r, start, insertPos);
    TouchedIsLive(r, start, i);
  }

  lemma {:induction false} ScanCompares(u: seq<Range>, start: int, end: int, insertPos: nat, i: nat)
    requires Scanned(u, start, end, insertPos, i)
    ensures StreamLt(Wrap(end), Wrap(u[i].start)) <==> end < u[i].start
    ensures StreamLt(Wrap(end), Wrap(u[i].end)) <==> end < u[i].end
    ensures StreamGt(Wrap(end), Wrap(u[i].end)) <==> end > u[i].end
  {
    CmpAgrees(end, u[i].start);
    CmpAgrees(end, u[i].end);
  }

  /** The new region ends before region `i`, which is the first that ends at or after its start. */
  predicate Untouched(u: seq<Range>, i: nat, start: int, end: int) {
    i == FirstEnding(u, start) && (i < |u| ==> end < u[i].start)
  }

  /** Insert before region `i` if no region is touched. */
  method InsertAt(unready: seq<PosRange>, ghost u: seq<Range>, i: nat, startPos: StreamPos, endPos: StreamPos,
                  ghost start: int, ghost end: int) returns (merged: seq<PosRange>)
    requires Apart(u) && Image(unready, u) && i <= |u| && startPos == Wrap(start) && endPos == Wrap(end)
    ensures Untouched(u, i, start, end) ==> Image(merged, RecvSpec.Merge(u, start, end))
  {
    merged := unready[..i] + [PosRange(startPos, endPos)] + unready[i..];
    if Untouched(u, i, start, end) {
      MergeIs(u, start, end, i, i, Range(start, end));
      ReplaceImage(unready, u, i, i, Range(start, end));
    }
  }

  /** Merge if the run touched by the new region ends before or at region `i`. */
  method MergeAt(unready: seq<PosRange>, ghost u: seq<Range>, i: nat, insertPos: nat,
                 startPos: StreamPos, endPos: StreamPos, ghost start: int, ghost end: int)
    returns (res: Option<seq<PosRange>>)
    requires Apart(u) && Image(unready, u)
    requires startPos == Wrap(start) && endPos == Wrap(end)
    requires insertPos <= i < |u|
    ensures res == None ==> i + 1 < |unready|
    ensures Scanned(u, start, end, insertPos, i) && res.Some? ==> Image(res.value, RecvSpec.Merge(u, start, end))
    ensures Scanned(u, start, end, insertPos, i) && res == None ==> u[i].end <= end
  {
    hide RecvSpec.Merge;
    if Scanned(u, start, end, insertPos, i) {
      ScanCompares(u, start, end, insertPos, i);
    }
    if StreamLt(endPos, unready[i].start) {
      var merged;
      if i == insertPos {
        merged := InsertAt(unready, u, i, startPos, endPos, start, end);
      } else {
        merged := ReplaceTouched(unready, u, insertPos, i, startPos, endPos, start, end);
      }
      res := Some(merged);
    } else if StreamLt(endPos, unready[i].end) || i == |unready| - 1 {
      var last := if StreamGt(endPos, unready[i].end) then endPos else unready[i].end;
      var merged := ReplaceTouched(unready, u, insertPos, i + 1, startPos, last, start, end);
      res := Some(merged);
    } else {
      res := None;
    }
  }

  /** The list with a region combined into it, at the insertion point given; as over integers if that is the
      right one. */
  method MergeInto(unready: seq<PosRange>, ghost r: RecvSpec.RecvState, insertPos: nat,
                   startPos: StreamPos, endPos: StreamPos, ghost start: int, ghost end: int)
    returns (merged: seq<PosRange>)
    requires RecvSpec.SplitValid(r) && |r.cells| < HALF && Image(unready, r.unready)
    requires startPos == Wrap(start) && endPos == Wrap(end) && r.recvPos < start < end <= r.WindowEnd()
    requires insertPos <= |r.unready|
    ensures insertPos == FirstEnding(r.unready, start) ==> Image(merged, RecvSpec.Merge(r.unready, start, end))
  {
    if insertPos == |unready| {
      merged := InsertAt(unready, r.unready, insertPos, startPos, endPos, start, end);
      return;
    }
    ghost var right := insertPos == FirstEnding(r.unready, start);
    for i := insertPos to |unready|
      invariant i < |unready|
      invariant right && insertPos < i ==> r.unready[i - 1].end <= end
    {
      if right {
        ScannedAt(r, start, end, insertPos, i);
      }
      var m := MergeAt(unready, r.unready, i, insertPos, startPos, endPos, start, end);
      if m.Some? {
        return m.value;
      }
    }
  }

  /** Drop what the ready block swallows, given where the search put its end; as over integers if that is the right
      place. */
  method Drain(unready: seq<PosRange>, ghost u: seq<Range>, pos: nat, endPos: StreamPos, ghost end: int)
    returns (newPos: StreamPos, rest: seq<PosRange>)
    requires Image(unready, u) && Apart(u) && pos <= |u| && endPos == Wrap(end)
    ensures pos == FirstEnding(u, end) && (pos < |u| ==> -HALF < end - u[pos].start < HALF) ==>
              newPos == Wrap(RecvSpec.Join(u, end).0) && Image(rest, RecvSpec.Join(u, end).1)
  {
    if pos == |unready| {
      return endPos, [];
    }
    if pos == FirstEnding(u, end) && -HALF < end - u[pos].start < HALF {
      CmpAgrees(end, u[pos].start);
    }
    if StreamGe(endPos, unready[pos].start) {
      return unready[pos].end, unready[pos + 1..];
    }
    return endPos, unready;
  }

  /** Where copying starts and ends, whether that leaves nothing new, and whether the packet is covered all the same. */
  method Bounds(ghost r: RecvSpec.RecvState, recvPos: StreamPos, startPos: StreamPos, dataEndPos: StreamPos,
                recvEndPos: StreamPos, ghost start: int, ghost len: nat)
    returns (copyStartPos: StreamPos, endPos: StreamPos, nothingNew: bool, covered: bool)
    requires r.readPos <= r.recvPos <= r.WindowEnd() && |r.cells| < HALF && len < HALF
    requires r.WindowEnd() - HALF < start < r.WindowEnd()
    requires recvPos == Wrap(r.recvPos) && startPos == Wrap(start) && dataEndPos == Wrap(start + len)
    requires recvEndPos == Wrap(r.WindowEnd())
    ensures copyStartPos == Wrap(Max(r.recvPos, start)) && endPos == Wrap(Min(start + len, r.WindowEnd()))
    ensures nothingNew <==> Max(r.recvPos, start) >= Min(start + len, r.WindowEnd())
    ensures covered <==> start < Min(start + len, r.WindowEnd())
  {
    BoundsAgree(r, start, len, Max(r.recvPos, start), Min(start + len, r.WindowEnd()));
    copyStartPos := if StreamGt(recvPos, startPos) then recvPos else startPos;
    endPos := if StreamLt(dataEndPos, recvEndPos) then dataEndPos else recvEndPos;
    nothingNew := StreamGe(copyStartPos, endPos);
    covered := StreamLt(startPos, endPos);
  }

  /** A packet with nothing new. */
  lemma {:induction false} NothingNew(r: RecvSpec.RecvState, start: int, data: seq<u8>, copyStart: int, end: int)
    requires r.readPos <= r.recvPos && start < r.WindowEnd()
    requires copyStart == Max(r.recvPos, start) >= end && end == Min(start + |data|, r.WindowEnd())
    ensures RecvSpec.Receive(r, start, data) == (r, if start < end then Some(end) else None)
    ensures !Panics(r, start, |data|)
  {
  }

  /** A packet with something new. */
  lemma {:induction false} SomethingNew(r: RecvSpec.RecvState, start: int, data: seq<u8>, copyStart: int, end: int,
                                        sought: int, copied: RecvSpec.RecvState)
    requires RecvSpec.SplitValid(r) && sought == if start <= r.recvPos then end else start
    requires copyStart == Max(r.recvPos, start) < end && end == Min(start + |data|, r.WindowEnd())
    requires copied == r.(cells := RecvSpec.CellsAfter(r, start, data))
    ensures RecvSpec.SplitValid(copied) && RecvSpec.SplitValid(RecvSpec.Account(copied, start, end))
    ensures RecvSpec.Receive(r, start, data) == (RecvSpec.Account(copied, start, end), Some(end))
    ensures Panics(r, start, |data|) <==> Place(r.unready, sought) == None
    ensures Locates(r, start, |data|) <==> Finds(r.unready, sought)
  {
    hide RecvSpec.Receive, RecvSpec.Account, RecvSpec.SplitAt, RecvSpec.CellsAfter, Place;
    RecvSpec.ReceiveCases(r, start, data, copied, copyStart, end);
    assert SoughtBy(r, start, |data|) == Some(sought);
  }

  /** What receiving comes to: an answer, unless a comparison that is undefined was unwrapped. */
  datatype Received = Panicked | Returned(end: Option<StreamPos>)

  class RecvWindow {
    const ring: RingBuffer
    var recvPos: StreamPos
    var unready: seq<PosRange>
    /** The unbounded state this object stands for. */
    ghost var state: RecvSpec.RecvState

    ghost predicate Valid()
      reads this, ring, ring.buffer
    {
      && Represents()
      && RecvSpec.SplitValid(state)
    }

    ghost predicate Represents()
      reads this, ring, ring.buffer
    {
      && ring.Valid() && ring.capacity < HALF
      && state.cells == ring.Cells()
      && ring.Used() == state.recvPos - state.readPos
      && recvPos == Wrap(state.recvPos)
      && Image(unready, state.unready)
    }

    constructor (capacity: nat, streamStart: StreamPos)
      requires 0 < capacity < HALF
      ensures Valid() && |state.cells| == capacity
      ensures state == RecvSpec.RecvState(streamStart, streamStart, [], state.cells)
      ensures fresh(ring) && fresh(ring.buffer)
    {
      ring := new RingBuffer(capacity);
      recvPos, unready := streamStart, [];
      new;
      state := RecvSpec.RecvState(streamStart, streamStart, [], ring.Cells());
    }

    /** The application's half: take up to `len` ready bytes. */
    method Read(len: nat) returns (data: seq<u8>)
      requires Valid()
      modifies `state, ring`tail
      ensures Valid()
      ensures |data| == Min(len, old(state.recvPos - state.readPos))
      ensures data == old(state.cells)[..|data|]
      ensures state == RecvSpec.Take(old(state), |data|)
    {
      data := ring.Read(0, len);
      TakeOut(|data|);
    }

    /** Give the cells of the first `n` ready bytes back to the window. */
    method TakeOut(n: nat)
      requires Valid() && n <= state.recvPos - state.readPos
      modifies `state, ring`tail
      ensures Valid() && state == RecvSpec.Take(old(state), n)
    {
      RecvSpec.TakeMovesWindow(state, n, 0);
      var _ := ring.AdvanceTail(n);
      state := RecvSpec.Take(state, n);
    }

    method ReadAvailable() returns (n: nat)
      requires Valid()
      ensures n == state.recvPos - state.readPos
    {
      n := ring.ReadAvailable();
    }

    method WindowEnd() returns (p: StreamPos)
      requires ring.Valid() && ring.capacity < HALF
      ensures Valid() ==> p == Wrap(state.WindowEnd())
    {
      var available := ring.WriteAvailable();
      WrapAdd(state.recvPos, available);
      p := WrappingAdd(recvPos, available);
    }

    /** For every window, every start and any data shorter than half a turn: panic exactly when the search for the
        packet makes an undefined comparison; if it finds the right place, receive exactly as over integers. */
    method Recv(startPos: StreamPos, data: seq<u8>) returns (res: Received)
      requires Valid() && |data| < HALF
      modifies this, ring`head, ring.buffer
      ensures ring.Valid()
      ensures res.Panicked? <==> Panics(old(state), LiftStart(old(state), startPos), |data|)
      ensures res.Returned? ==>
                res.end == WrapOption(RecvSpec.Receive(old(state), LiftStart(old(state), startPos), data).1)
      ensures Locates(old(state), LiftStart(old(state), startPos), |data|) ==>
                && Valid()
                && state == RecvSpec.Receive(old(state), LiftStart(old(state), startPos), data).0
    {
      var recvEndPos := WindowEnd();
      var endPos := WrappingAdd(startPos, |data|);
      ghost var start := LiftStart(state, startPos);
      WrapAdd(start, |data|);
      StartAgrees(state, startPos);
      if !StreamLt(startPos, recvEndPos) {
        return Returned(None);
      }
      res := RecvBeforeEnd(startPos, endPos, recvEndPos, data, start);
    }

    /** The data starts before the window end. */
    method RecvBeforeEnd(startPos: StreamPos, dataEndPos: StreamPos, recvEndPos: StreamPos, data: seq<u8>,
                         ghost start: int) returns (res: Received)
      requires Valid() && |data| < HALF
      requires state.WindowEnd() - HALF < start < state.WindowEnd()
      requires startPos == Wrap(start) && dataEndPos == Wrap(start + |data|) && recvEndPos == Wrap(state.WindowEnd())
      modifies this, ring`head, ring.buffer
      ensures ring.Valid()
      ensures res.Panicked? <==> Panics(old(state), start, |data|)
      ensures res.Returned? ==> res.end == WrapOption(RecvSpec.Receive(old(state), start, data).1)
      ensures Locates(old(state), start, |data|) ==>
                Valid() && state == RecvSpec.Receive(old(state), start, data).0
    {
      hide RecvSpec.Receive, RecvSpec.Account, RecvSpec.CellsAfter, RecvSpec.SplitAt, Panics, Locates, Finds, Place;
      ghost var copyStart, end := Max(state.recvPos, start), Min(start + |data|, state.WindowEnd());
      var copyStartPos, endPos, nothingNew, covered :=
        Bounds(state, recvPos, startPos, dataEndPos, recvEndPos, start, |data|);
      if nothingNew {
        NothingNew(state, start, data, copyStart, end);
        return Returned(if covered then Some(endPos) else None);
      }
      ghost var copied := state.(cells := RecvSpec.CellsAfter(state, start, data));
      ghost var sought := if start <= state.recvPos then end else start;
      SomethingNew(state, start, data, copyStart, end, sought, copied);
      var panicked := Combine(copyStartPos, startPos, endPos, data, start, copyStart, end, sought, copied);
      res := if panicked then Panicked else Returned(Some(endPos));
    }

    /** There is something new to copy. */
    method Combine(copyStartPos: StreamPos, startPos: StreamPos, endPos: StreamPos, data: seq<u8>,
                   ghost start: int, ghost copyStart: int, ghost end: int, ghost sought: int,
                   ghost copied: RecvSpec.RecvState)
      returns (panicked: bool)
      requires Valid() && sought == if start <= state.recvPos then end else start
      requires copyStartPos == Wrap(copyStart) && startPos == Wrap(start) && endPos == Wrap(end)
      requires copyStart == Max(state.recvPos, start) < end && end == Min(start + |data|, state.WindowEnd())
      requires |data| < HALF && state.WindowEnd() - HALF < start
      requires copied == state.(cells := RecvSpec.CellsAfter(state, start, data))
      requires RecvSpec.SplitValid(copied)
      modifies this, ring`head, ring.buffer
      ensures ring.Valid()
      ensures panicked <==> Place(old(state).unready, sought) == None
      ensures Finds(old(state).unready, sought) ==> Represents() && state == RecvSpec.Account(copied, start, end)
    {
      hide RecvSpec.Account, RecvSpec.CellsAfter, RecvSpec.SplitAt, Finds, Place, Image;
      CopyData(copyStartPos, startPos, endPos, data, start, copyStart, end, copied);
      panicked := UpdateRegions(startPos, endPos, start, end, sought);
    }

    /** The data being copied, account for the region it fills. */
    method UpdateRegions(startPos: StreamPos, endPos: StreamPos, ghost start: int, ghost end: int, ghost sought: int)
      returns (panicked: bool)
      requires Represents() && RecvSpec.SplitValid(state) && sought == if start <= state.recvPos then end else start
      requires startPos == Wrap(start) && endPos == Wrap(end)
      requires state.recvPos < end <= state.WindowEnd() && start < end && state.WindowEnd() - HALF < start
      modifies this, ring`head
      ensures ring.Valid()
      ensures panicked <==> Place(old(state).unready, sought) == None
      ensures Finds(old(state).unready, sought) ==>
                Represents() && state == RecvSpec.Account(old(state), start, end)
    {
      CmpAgrees(state.recvPos, start);
      if StreamGe(recvPos, startPos) {
        panicked := JoinReady(endPos, end);
      } else {
        panicked := MergeUnready(startPos, endPos, start, end);
      }
    }

    /** Copy the part of the data that is new or ahead of the ready block. */
    method CopyData(copyStartPos: StreamPos, startPos: StreamPos, endPos: StreamPos, data: seq<u8>,
                    ghost start: int, ghost copyStart: int, ghost end: int, ghost copied: RecvSpec.RecvState)
      requires Valid()
      requires copyStartPos == Wrap(copyStart) && startPos == Wrap(start) && endPos == Wrap(end)
      requires copyStart == Max(state.recvPos, start) < end && end == Min(start + |data|, state.WindowEnd())
      requires |data| < HALF && copied == state.(cells := RecvSpec.CellsAfter(state, start, data))
      modifies `state, ring.buffer
      ensures Represents() && state == copied
    {
      WrapSub(copyStart, start);
      WrapSub(copyStart, state.recvPos);
      WrapSub(end, state.recvPos);
      var dataStart := WrappingSub(copyStartPos, startPos);
      var bufStart := WrappingSub(copyStartPos, recvPos);
      var bufEnd := WrappingSub(endPos, recvPos);
      Store(bufStart, data[dataStart..dataStart + bufEnd - bufStart], copied);
    }

    method Store(offset: nat, d: seq<u8>, ghost copied: RecvSpec.RecvState)
      requires Represents() && 0 < |d| && ring.Used() + offset + |d| <= ring.capacity
      requires copied == state.(cells := Overwrite(state.cells, ring.Used() + offset, d))
      modifies `state, ring.buffer
      ensures Represents() && state == copied
    {
      WriteAll(offset, d);
      state := copied;
    }

    /** The bytes fit, so all of them are written. */
    method WriteAll(offset: nat, d: seq<u8>)
      requires ring.Valid() && 0 < |d| && ring.Used() + offset + |d| <= ring.capacity
      modifies ring.buffer
      ensures ring.Cells() == Overwrite(old(ring.Cells()), ring.Used() + offset, d)
    {
      var n := ring.Write(offset, d);
      assert n == |d| && d[..n] == d;
    }

    /** Make everything before the end of a region that reaches the ready block ready. */
    method JoinReady(endPos: StreamPos, ghost end: int) returns (panicked: bool)
      requires Represents() && RecvSpec.SplitValid(state)
      requires endPos == Wrap(end) && state.recvPos < end <= state.WindowEnd()
      modifies this, ring`head
      ensures ring.Valid()
      ensures panicked <==> Place(old(state).unready, end) == None
      ensures Finds(old(state).unready, end) ==>
                && Represents()
                && state == old(state).(recvPos := RecvSpec.Join(old(state).unready, end).0,
                                        unready := RecvSpec.Join(old(state).unready, end).1)
    {
      var found := SearchEnd(endPos, end);
      if found == None {
        return true;
      }
      var newPos;
      newPos, unready := Drain(unready, state.unready, found.value, endPos, end);
      AdvanceTo(newPos, RecvSpec.Join(state.unready, end).0, RecvSpec.Join(state.unready, end).1,
                Finds(state.unready, end));
      panicked := false;
    }

    /** Move the receive position, the regions left being in place already. */
    method AdvanceTo(newPos: StreamPos, ghost place: int, ghost rest: seq<Range>, ghost right: bool)
      requires ring.Valid() && ring.capacity < HALF && state.cells == ring.Cells()
      requires ring.Used() == state.recvPos - state.readPos && recvPos == Wrap(state.recvPos)
      requires right ==>
                 newPos == Wrap(place) && state.recvPos <= place <= state.WindowEnd() && Image(unready, rest)
      modifies `recvPos, `state, ring`head
      ensures ring.Valid()
      ensures right ==> Represents() && state == old(state).(recvPos := place, unready := rest)
    {
      if right {
        WrapSub(place, state.recvPos);
      }
      var _ := ring.AdvanceHead(WrappingSub(newPos, recvPos));
      recvPos := newPos;
      state := state.(recvPos := place, unready := rest);
    }

    /** The first region ending at or after a position, by the search of the code. */
    method SearchEnd(p: StreamPos, ghost place: int) returns (i: Option<nat>)
      requires Image(unready, state.unready) && p == Wrap(place)
      ensures i == Place(state.unready, place)
    {
      ImageIsWrapped(unready, state.unready);
      var r := BinarySearch(Ends(unready), p);
      i := if r.Some? then Some(r.value.1) else None;
    }

    /** Combine a region ahead of the ready block with those it overlaps or touches. */
    method MergeUnready(startPos: StreamPos, endPos: StreamPos, ghost start: int, ghost end: int)
      returns (panicked: bool)
      requires Valid()
      requires startPos == Wrap(start) && endPos == Wrap(end)
      requires state.recvPos < start < end <= state.WindowEnd()
      modifies this
      ensures panicked <==> Place(old(state).unready, start) == None
      ensures Finds(old(state).unready, start) ==>
                Represents() && state == old(state).(unready := RecvSpec.Merge(old(state).unready, start, end))
    {
      hide RecvSpec.Merge, RecvSpec.SplitAt, Place;
      var found := SearchEnd(startPos, start);
      if found == None {
        return true;
      }
      unready := MergeInto(unready, state, found.value, startPos, endPos, start, end);
      state := state.(unready := RecvSpec.Merge(state.unready, start, end));
      panicked := false;
    }
  }
}
