/** The ring under interleaving. The writer and the reader each load the other's cursor, copy cells one at
    a time, and store their own cursor, in separate atomic steps; either may work from a stale load. */
module RingInterleaving {
  import opened Prelude
  import opened RingBuffer

  /** The shared buffer and cursors, and the cursor each side last loaded of the other. The rest is not part
      of the ring: the unbounded positions behind the cursors, the bytes the writer has put past its head
      and those the reader has copied out (by position), and everything committed and consumed so far. */
  datatype State = State(
    cells: seq<u8>, head: nat, tail: nat, writerTail: nat, readerHead: nat,
    headPos: nat, tailPos: nat, writerTailPos: nat, readerHeadPos: nat,
    staged: map<nat, u8>, copied: map<nat, u8>, committed: seq<u8>, consumed: seq<u8>)

  datatype Action =
    | LoadTail
    | PutCell(i: nat, b: u8)
    | StoreHead(n: nat)
    | LoadHead
    | GetCell(i: nat)
    | StoreTail(n: nat)

  /** The cell `i` past a cursor. */
  function CellAt(capacity: nat, cursor: nat, i: nat): int {
    var c := CollapsePosition(capacity, cursor);
    if c + i < capacity then c + i else c + i - capacity
  }

  function Free(s: State): nat
    requires CursorsOk(|s.cells|, s.writerTail, s.head)
  {
    HeadToTail(|s.cells|, s.head, s.writerTail)
  }

  function Ready(s: State): nat
    requires CursorsOk(|s.cells|, s.tail, s.readerHead)
  {
    TailToHead(|s.cells|, s.tail, s.readerHead)
  }

  /** What each side checks, against the cursor it loaded. A side stores its cursor only over cells it has
      copied. */
  predicate Enabled(s: State, a: Action) {
    match a
    case LoadTail => true
    case LoadHead => true
    case PutCell(i, _) => CursorsOk(|s.cells|, s.writerTail, s.head) && i < Free(s)
    case GetCell(i) => CursorsOk(|s.cells|, s.tail, s.readerHead) && i < Ready(s)
    case StoreHead(n) =>
      && CursorsOk(|s.cells|, s.writerTail, s.head) && n <= Free(s)
      && forall p :: s.headPos <= p < s.headPos + n ==> p in s.staged
    case StoreTail(n) =>
      && CursorsOk(|s.cells|, s.tail, s.readerHead) && n <= Ready(s)
      && forall p :: s.tailPos <= p < s.tailPos + n ==> p in s.copied
  }

  function Next(s: State, a: Action): State
    requires Enabled(s, a)
  {
    match a
    case LoadTail => s.(writerTail := s.tail, writerTailPos := s.tailPos)
    case LoadHead => s.(readerHead := s.head, readerHeadPos := s.headPos)
    case PutCell(i, b) =>
      var at := CellAt(|s.cells|, s.head, i);
      s.(cells := s.cells[at := b], staged := s.staged[s.headPos + i := b])
    case GetCell(i) =>
      s.(copied := s.copied[s.tailPos + i := s.cells[CellAt(|s.cells|, s.tail, i)]])
    case StoreHead(n) =>
      s.(head := Increment(|s.cells|, s.head, n), headPos := s.headPos + n,
         committed := s.committed + seq(n, i requires 0 <= i < n => s.staged[s.headPos + i]))
    case StoreTail(n) =>
      s.(tail := Increment(|s.cells|, s.tail, n), tailPos := s.tailPos + n,
         consumed := s.consumed + seq(n, i requires 0 <= i < n => s.copied[s.tailPos + i]))
  }

  predicate Init(s: State) {
    && s.cells != []
    && s.head == s.tail == s.writerTail == s.readerHead == 0
    && s.headPos == s.tailPos == s.writerTailPos == s.readerHeadPos == 0
    && s.staged == map[] && s.copied == map[] && s.committed == [] && s.consumed == []
  }

  predicate Run(ss: seq<State>, acts: seq<Action>) {
    && |ss| == |acts| + 1
    && forall i :: 0 <= i < |acts| ==> Enabled(ss[i], acts[i]) && ss[i + 1] == Next(ss[i], acts[i])
  }

  // ----- The invariant -----

  /** Cursors are positions modulo 2 * capacity; loads are never ahead of what they were loaded from, and
      stale ones only underestimate. */
  predicate Cursors(s: State) {
    var m := 2 * |s.cells|;
    && s.cells != []
    && s.head == s.headPos % m && s.tail == s.tailPos % m
    && s.writerTail == s.writerTailPos % m && s.readerHead == s.readerHeadPos % m
    && s.writerTailPos <= s.tailPos <= s.readerHeadPos <= s.headPos <= s.writerTailPos + |s.cells|
  }

  predicate Inv(s: State) {
    && Cursors(s)
    && |s.committed| == s.headPos
    && (forall p :: s.tailPos <= p < s.headPos ==> CellHolds(s.cells, p, s.committed[p]))
    && (forall p :: p in s.staged && s.headPos <= p ==>
          p < s.writerTailPos + |s.cells| && CellHolds(s.cells, p, s.staged[p]))
    && (forall p :: p in s.copied && s.tailPos <= p ==> p < s.headPos && s.copied[p] == s.committed[p])
    && s.tailPos <= |s.committed| && s.consumed == s.committed[..s.tailPos]
  }

  predicate CellHolds(cells: seq<u8>, p: nat, b: u8) {
    cells != [] && cells[p % |cells|] == b
  }

  // ----- Arithmetic of cells -----

  lemma {:induction false} CellIsMod(capacity: nat, pos: nat, i: nat)
    requires 0 < capacity && i < capacity
    ensures CellAt(capacity, pos % (2 * capacity), i) == (pos + i) % capacity
  {
    CollapseIsMod(capacity, pos);
    ModStep(pos, i, capacity);
  }

  /** Positions less than `capacity` apart have different cells. */
  lemma {:induction false} CellsApart(capacity: nat, p: nat, q: nat)
    requires p < q < p + capacity
    ensures p % capacity != q % capacity
  {
    ModStep(p, q - p, capacity);
  }

  /** The distances the two sides compute from their loads are the true distances to what they loaded. */
  lemma {:induction false} Distances(s: State)
    requires Cursors(s)
    ensures CursorsOk(|s.cells|, s.writerTail, s.head) && Free(s) == |s.cells| - (s.headPos - s.writerTailPos)
    ensures CursorsOk(|s.cells|, s.tail, s.readerHead) && Ready(s) == s.readerHeadPos - s.tailPos
  {
    CursorArithmetic(|s.cells|, s.writerTailPos, s.headPos, 0);
    CursorArithmetic(|s.cells|, s.tailPos, s.readerHeadPos, 0);
  }

  // ----- No conflict -----

  /** A cell being written is never one that the reader may be reading: whatever stale load the writer works
      from, the cell lies outside the readable range. */
  lemma {:induction false} NoConflict(s: State, i: nat, b: u8, p: nat)
    requires Inv(s) && Enabled(s, PutCell(i, b)) && s.tailPos <= p < s.headPos
    ensures CellAt(|s.cells|, s.head, i) == (s.headPos + i) % |s.cells| != p % |s.cells|
  {
    Distances(s);
    CellIsMod(|s.cells|, s.headPos, i);
    CellsApart(|s.cells|, p, s.headPos + i);
  }

  // ----- Every step keeps the invariant -----

  lemma {:induction false} PutKeepsInv(s: State, i: nat, b: u8)
    requires Inv(s) && Enabled(s, PutCell(i, b))
    ensures Inv(Next(s, PutCell(i, b)))
  {
    var s' := Next(s, PutCell(i, b));
    Distances(s);
    CellIsMod(|s.cells|, s.headPos, i);
    forall p | s.tailPos <= p < s.headPos ensures CellHolds(s'.cells, p, s.committed[p]) {
      NoConflict(s, i, b, p);
      assert CellHolds(s.cells, p, s.committed[p]);
    }
    forall p | p in s'.staged && s.headPos <= p
      ensures p < s.writerTailPos + |s.cells| && CellHolds(s'.cells, p, s'.staged[p])
    {
      if p < s.headPos + i {
        CellsApart(|s.cells|, p, s.headPos + i);
      } else if p > s.headPos + i {
        CellsApart(|s.cells|, s.headPos + i, p);
      }
    }
  }

  lemma {:induction false} GetKeepsInv(s: State, i: nat)
    requires Inv(s) && Enabled(s, GetCell(i))
    ensures Inv(Next(s, GetCell(i)))
  {
    Distances(s);
    CellIsMod(|s.cells|, s.tailPos, i);
    assert CellHolds(s.cells, s.tailPos + i, s.committed[s.tailPos + i]);
  }

  lemma {:induction false} StoreHeadKeepsInv(s: State, n: nat)
    requires Inv(s) && Enabled(s, StoreHead(n))
    ensures Inv(Next(s, StoreHead(n)))
  {
    var s' := Next(s, StoreHead(n));
    StoreHeadCursors(s, n);
    forall p | s.tailPos <= p < s'.headPos ensures CellHolds(s.cells, p, s'.committed[p]) {
      CommittedHolds(s, n, s'.committed, p);
    }
  }

  /** What is committed is what the cells hold, for the bytes before and for those just staged. */
  lemma {:induction false} CommittedHolds(s: State, n: nat, committed: seq<u8>, p: nat)
    requires Inv(s) && (forall q :: s.headPos <= q < s.headPos + n ==> q in s.staged)
    requires committed == s.committed + seq(n, i requires 0 <= i < n => s.staged[s.headPos + i])
    requires s.tailPos <= p < s.headPos + n
    ensures CellHolds(s.cells, p, committed[p])
  {
    hide Cursors;
    if p < s.headPos {
      assert CellHolds(s.cells, p, s.committed[p]);
    } else {
      assert committed[p] == s.staged[s.headPos + (p - s.headPos)];
    }
  }

  lemma {:induction false} StoreHeadCursors(s: State, n: nat)
    requires Cursors(s) && Enabled(s, StoreHead(n))
    ensures Cursors(Next(s, StoreHead(n)))
  {
    Distances(s);
    CursorArithmetic(|s.cells|, s.writerTailPos, s.headPos, n);
  }

  lemma {:induction false} StoreTailKeepsInv(s: State, n: nat)
    requires Inv(s) && Enabled(s, StoreTail(n))
    ensures Inv(Next(s, StoreTail(n)))
  {
    hide Cursors, CellHolds, Increment;
    StoreTailCursors(s, n);
    var taken := seq(n, i requires 0 <= i < n => s.copied[s.tailPos + i]);
    assert taken == s.committed[s.tailPos..s.tailPos + n];
    assert s.committed[..s.tailPos] + taken == s.committed[..s.tailPos + n];
  }

  lemma {:induction false} StoreTailCursors(s: State, n: nat)
    requires Cursors(s) && Enabled(s, StoreTail(n))
    ensures Cursors(Next(s, StoreTail(n)))
    ensures s.tailPos + n <= s.readerHeadPos <= s.headPos
  {
    Distances(s);
    CursorArithmetic(|s.cells|, s.tailPos, s.headPos, n);
  }

  lemma {:induction false} NextKeepsInv(s: State, a: Action, s': State)
    requires Inv(s) && Enabled(s, a) && s' == Next(s, a)
    ensures Inv(s')
  {
    match a {
      case LoadTail =>
      case LoadHead =>
      case PutCell(i, b) => PutKeepsInv(s, i, b);
      case GetCell(i) => GetKeepsInv(s, i);
      case StoreHead(n) => StoreHeadKeepsInv(s, n);
      case StoreTail(n) => StoreTailKeepsInv(s, n);
    }
  }

  lemma {:induction false} InitInv(s: State)
    requires Init(s)
    ensures Inv(s)
  {
  }

  lemma {:induction false} RunKeepsInv(ss: seq<State>, acts: seq<Action>, i: nat)
    requires Run(ss, acts) && Init(ss[0]) && i < |ss|
    ensures Inv(ss[i])
  {
    if i == 0 {
      InitInv(ss[0]);
    } else {
      RunKeepsInv(ss, acts, i - 1);
      NextKeepsInv(ss[i - 1], acts[i - 1], ss[i]);
    }
  }

  // ----- The main result, over all runs -----

  /** In every interleaving: the bytes consumed are a prefix of the bytes committed, the occupancy stays
      within the capacity, and neither side's cursor arithmetic can underflow. */
  lemma {:induction false} SpscSafety(ss: seq<State>, acts: seq<Action>, i: nat)
    requires Run(ss, acts) && Init(ss[0]) && i < |ss|
    ensures ss[i].consumed <= ss[i].committed
    ensures 0 <= |ss[i].committed| - |ss[i].consumed| <= |ss[i].cells|
    ensures CursorsOk(|ss[i].cells|, ss[i].writerTail, ss[i].head)
    ensures CursorsOk(|ss[i].cells|, ss[i].tail, ss[i].readerHead)
  {
    RunKeepsInv(ss, acts, i);
    Distances(ss[i]);
  }

  // ----- What the actions say is committed and consumed -----

  /** How many bytes the writer has committed, and the reader consumed. */
  function Pushed(acts: seq<Action>): nat {
    if acts == [] then 0
    else Pushed(acts[..|acts| - 1]) + if acts[|acts| - 1].StoreHead? then acts[|acts| - 1].n else 0
  }

  function Popped(acts: seq<Action>): nat {
    if acts == [] then 0
    else Popped(acts[..|acts| - 1]) + if acts[|acts| - 1].StoreTail? then acts[|acts| - 1].n else 0
  }

  /** The byte last put at a position of the stream. */
  function LastPut(acts: seq<Action>, p: nat): Option<u8> {
    if acts == [] then None
    else
      var before, a := acts[..|acts| - 1], acts[|acts| - 1];
      if a.PutCell? && Pushed(before) + a.i == p then Some(a.b) else LastPut(before, p)
  }

  /** What the state records is what the actions did. */
  predicate Recorded(s: State, acts: seq<Action>) {
    && s.headPos == |s.committed| == Pushed(acts) && s.tailPos == |s.consumed| == Popped(acts)
    && (forall p :: p in s.staged ==> LastPut(acts, p) == Some(s.staged[p]))
    && (forall p :: 0 <= p < |s.committed| ==> LastPut(acts, p) == Some(s.committed[p]))
  }

  lemma {:induction false} NextRecorded(s: State, a: Action, acts: seq<Action>)
    requires Inv(s) && Enabled(s, a) && Recorded(s, acts)
    ensures Recorded(Next(s, a), acts + [a])
  {
    hide Cursors, CellHolds, Increment, CollapsePosition, LastPut, Pushed, Popped;
    forall p: nat
      ensures LastPut(acts + [a], p) == if a.PutCell? && s.headPos + a.i == p then Some(a.b) else LastPut(acts, p)
    {
      OneMore(acts, a, p);
    }
    OneMore(acts, a, 0);
  }

  lemma {:induction false} OneMore(acts: seq<Action>, a: Action, p: nat)
    ensures Pushed(acts + [a]) == Pushed(acts) + if a.StoreHead? then a.n else 0
    ensures Popped(acts + [a]) == Popped(acts) + if a.StoreTail? then a.n else 0
    ensures LastPut(acts + [a], p) ==
            if a.PutCell? && Pushed(acts) + a.i == p then Some(a.b) else LastPut(acts, p)
  {
    assert (acts + [a])[..|acts|] == acts;
  }

  /** In every interleaving, exactly as many bytes are committed and consumed as the cursor stores say, and each byte
      committed, hence each byte consumed, is the one last put at its position. */
  lemma {:induction false} BytesAsPut(ss: seq<State>, acts: seq<Action>, i: nat)
    requires Run(ss, acts) && Init(ss[0]) && i < |ss|
    ensures |ss[i].committed| == Pushed(acts[..i]) && |ss[i].consumed| == Popped(acts[..i])
    ensures forall p :: 0 <= p < |ss[i].committed| ==> LastPut(acts[..i], p) == Some(ss[i].committed[p])
    ensures forall p :: 0 <= p < |ss[i].consumed| ==> LastPut(acts[..i], p) == Some(ss[i].consumed[p])
  {
    RunRecorded(ss, acts, i);
    RunKeepsInv(ss, acts, i);
  }

  lemma {:induction false} RunRecorded(ss: seq<State>, acts: seq<Action>, i: nat)
    requires Run(ss, acts) && Init(ss[0]) && i < |ss|
    ensures Recorded(ss[i], acts[..i])
  {
    hide Inv;
    if i > 0 {
      RunRecorded(ss, acts, i - 1);
      RunKeepsInv(ss, acts, i - 1);
      NextRecorded(ss[i - 1], acts[i - 1], acts[..i - 1]);
      assert acts[..i] == acts[..i - 1] + [acts[i - 1]];
    }
  }

  /** A side that loads the other's cursor afresh may write to all the space, or read all the bytes, there are. */
  lemma {:induction false} FreshLoads(ss: seq<State>, acts: seq<Action>, i: nat)
    requires Run(ss, acts) && Init(ss[0]) && i < |ss|
    ensures var w := Next(ss[i], LoadTail);
            && CursorsOk(|w.cells|, w.writerTail, w.head)
            && Free(w) == |w.cells| - (|ss[i].committed| - |ss[i].consumed|)
            && forall k: nat, b :: Enabled(w, PutCell(k, b)) <==> k < Free(w)
    ensures var r := Next(ss[i], LoadHead);
            && CursorsOk(|r.cells|, r.tail, r.readerHead)
            && Ready(r) == |ss[i].committed| - |ss[i].consumed|
            && forall k: nat :: Enabled(r, GetCell(k)) <==> k < Ready(r)
  {
    RunKeepsInv(ss, acts, i);
    Distances(Next(ss[i], LoadTail));
    Distances(Next(ss[i], LoadHead));
  }

  /** What has been copied can be handed over: bytes put in all of the space can be committed at once, and bytes taken
      out of all that is ready can be consumed at once. */
  lemma {:induction false} HandOver(s: State, n: nat)
    requires Inv(s)
    ensures CursorsOk(|s.cells|, s.writerTail, s.head) && CursorsOk(|s.cells|, s.tail, s.readerHead)
    ensures n <= Free(s) && (forall p :: s.headPos <= p < s.headPos + n ==> p in s.staged) ==>
              Enabled(s, StoreHead(n)) && |Next(s, StoreHead(n)).committed| == |s.committed| + n
    ensures n <= Ready(s) && (forall p :: s.tailPos <= p < s.tailPos + n ==> p in s.copied) ==>
              Enabled(s, StoreTail(n)) && |Next(s, StoreTail(n)).consumed| == |s.consumed| + n
  {
    Distances(s);
  }
}
