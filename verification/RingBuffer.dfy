/** A single-producer single-consumer byte ring. The cursors run over [0, 2 * capacity), so a full
    ring and an empty one differ. The writer half and the reader half of the original share one
    buffer; here both halves are methods of that shared object. */
module RingBuffer {
  import opened Prelude

  // ----- Cursor arithmetic; `nat` results rule out underflow -----

  function CollapsePosition(capacity: nat, pos: nat): nat {
    if pos < capacity then pos else pos - capacity
  }

  function TailToHead(capacity: nat, tail: nat, head: nat): (n: nat)
    requires CursorsOk(capacity, tail, head)
  {
    if tail <= head then head - tail else capacity - (tail - capacity) + head
  }

  function HeadToTail(capacity: nat, head: nat, tail: nat): nat
    requires CursorsOk(capacity, tail, head)
  {
    capacity - TailToHead(capacity, tail, head)
  }

  function Increment(capacity: nat, pos: nat, n: nat): (r: nat)
    requires pos < 2 * capacity && n <= capacity
  {
    if n == 0 then pos
    else
      var threshold: nat := (capacity - n) + capacity;
      if pos < threshold then pos + n else pos - threshold
  }

  /** The head is at most `capacity` ahead of the tail, going around a circle of 2 * capacity. */
  predicate CursorsOk(capacity: nat, tail: nat, head: nat) {
    && tail < 2 * capacity && head < 2 * capacity
    && (if tail <= head then head - tail <= capacity else tail - head >= capacity)
  }

  /** Cursors are positions modulo 2 * capacity: for unbounded positions with at most `capacity`
      bytes between them, the code's arithmetic gives the true distances and the true next cursor. */
  lemma {:induction false} CursorArithmetic(capacity: nat, tail: nat, head: nat, n: nat)
    requires 0 < capacity && tail <= head <= tail + capacity
    requires n <= capacity
    ensures var t, h := tail % (2 * capacity), head % (2 * capacity);
            && CursorsOk(capacity, t, h)
            && TailToHead(capacity, t, h) == head - tail
            && HeadToTail(capacity, h, t) == capacity - (head - tail)
            && Increment(capacity, h, n) == (head + n) % (2 * capacity)
            && Increment(capacity, t, n) == (tail + n) % (2 * capacity)
  {
    ModStep(tail, head - tail, 2 * capacity);
    ModStep(head, n, 2 * capacity);
    ModStep(tail, n, 2 * capacity);
  }

  /** Adding less than the modulus wraps at most once. */
  lemma {:induction false} ModStep(x: nat, n: nat, m: nat)
    requires n < m
    ensures (x + n) % m == if x % m + n < m then x % m + n else x % m + n - m
  {
    var q := x / m;
    assert x == q * m + x % m;
    if x % m + n < m {
      ModUnique(x + n, q, x % m + n, m);
    } else {
      assert (q + 1) * m == q * m + m;
      ModUnique(x + n, q + 1, x % m + n - m, m);
    }
  }

  lemma {:induction false} ModUnique(x: nat, q: nat, r: nat, m: nat)
    requires m > 0 && r < m && x == q * m + r
    ensures x % m == r && x / m == q
  {
    var d := q - x / m;
    assert d * m == x % m - r;
    AtLeastFactor(d, m);
    AtLeastFactor(-d, m);
  }

  lemma {:induction false} AtLeastFactor(d: int, m: nat)
    ensures d >= 1 ==> d * m >= m
    ensures -d * m == -(d * m)
  {
  }

  /** The collapsed cursor is the position modulo `capacity`. */
  lemma {:induction false} CollapseIsMod(capacity: nat, pos: nat)
    requires 0 < capacity
    ensures CollapsePosition(capacity, pos % (2 * capacity)) == pos % capacity
  {
    HalfTurn(capacity, pos, pos / (2 * capacity), pos % (2 * capacity));
  }

  lemma {:induction false} HalfTurn(capacity: nat, pos: nat, q: nat, r: nat)
    requires 0 < capacity && r < 2 * capacity && pos == q * (2 * capacity) + r
    ensures pos % capacity == if r < capacity then r else r - capacity
  {
    Doubled(q, capacity);
    if r < capacity {
      ModUnique(pos, 2 * q, r, capacity);
    } else {
      ModUnique(pos, 2 * q + 1, r - capacity, capacity);
    }
  }

  lemma {:induction false} Doubled(q: nat, m: nat)
    ensures q * (2 * m) == (2 * q) * m
    ensures (2 * q + 1) * m == (2 * q) * m + m
  {
  }

  // ----- Stream order and storage order -----

  /** The cells of `b` listed from index `t` around to index `t`. */
  function Rotate<T>(b: seq<T>, t: nat): (r: seq<T>)
    requires t <= |b|
    ensures |r| == |b|
  {
    b[t..] + b[..t]
  }

  /** Where offset `k` of the rotated storage lies. */
  function Storage(capacity: nat, t: nat, k: nat): (at: nat)
    requires t < capacity && k < capacity
    ensures at < capacity
  {
    if t + k < capacity then t + k else t + k - capacity
  }

  lemma {:induction false} RotateAt<T>(b: seq<T>, t: nat, k: nat)
    requires t < |b| && k < |b|
    ensures Rotate(b, t)[k] == b[Storage(|b|, t, k)]
  {
  }

  lemma {:induction false} RotateTwice<T>(b: seq<T>, t: nat, n: nat)
    requires t < |b| && n <= |b|
    ensures var t' := if t + n < |b| then t + n else t + n - |b|;
            Rotate(b, t') == Rotate(b, t)[n..] + Rotate(b, t)[..n]
  {
    var t' := if t + n < |b| then t + n else t + n - |b|;
    var l, r := Rotate(b, t'), Rotate(b, t)[n..] + Rotate(b, t)[..n];
    forall k | 0 <= k < |b| ensures l[k] == r[k] {
    }
  }

  // ----- The two slices around the end of the storage -----

  /** Two runs of storage cells, the left one taken first. */
  datatype Spans = Spans(leftAt: nat, leftLen: nat, rightAt: nat, rightLen: nat)

  /** Skip `offset` cells of the region [leftAt, leftEnd) followed by [0, rightEnd), then take
      up to `len` cells of what is left. */
  function Split(leftAt: nat, leftEnd: nat, rightEnd: nat, offset: nat, len: nat): (s: Spans)
    requires leftAt <= leftEnd
  {
    var leftEat := Min(leftEnd - leftAt, offset);
    var leftLen := Min(leftEnd - leftAt - leftEat, len);
    var rightEat := Min(rightEnd, offset - leftEat);
    Spans(leftAt + leftEat, leftLen, rightEat, Min(rightEnd - rightEat, len - leftLen))
  }

  /** The cells of `b` in the order the spans visit them. */
  function Gather<T>(b: seq<T>, s: Spans): (r: seq<T>)
    requires s.leftAt + s.leftLen <= |b| && s.rightAt + s.rightLen <= |b|
    ensures |r| == s.leftLen + s.rightLen
  {
    b[s.leftAt..s.leftAt + s.leftLen] + b[s.rightAt..s.rightAt + s.rightLen]
  }

  /** `b` with the spans filled from `d`. */
  function Scatter<T>(b: seq<T>, s: Spans, d: seq<T>): (r: seq<T>)
    requires s.leftAt + s.leftLen <= |b| && s.rightAt + s.rightLen <= |b| && |d| == s.leftLen + s.rightLen
    ensures |r| == |b|
  {
    Overwrite(Overwrite(b, s.leftAt, d[..s.leftLen]), s.rightAt, d[s.leftLen..])
  }

  /** The spans cover the stream offsets [p, p + leftLen + rightLen) of storage rotated by `t`. */
  predicate Cover(capacity: nat, t: nat, p: nat, s: Spans) {
    && s.leftAt + s.leftLen <= capacity && s.rightAt + s.rightLen <= capacity
    && (s.leftLen > 0 ==> s.leftAt == if t + p < capacity then t + p else t + p - capacity)
    && (s.leftLen > 0 && s.rightLen > 0 ==> s.leftAt + s.leftLen == capacity && s.rightAt == 0 && t + p < capacity)
    && (s.leftLen == 0 && s.rightLen > 0 ==> t + p >= capacity && s.rightAt == t + p - capacity)
  }

  function WriteSpans(capacity: nat, h: nat, t: nat, offset: nat, len: nat): Spans
    requires h < capacity && t < capacity
  {
    Split(h, if h < t then t else capacity, if h < t then 0 else t, offset, len)
  }

  function ReadSpans(capacity: nat, h: nat, t: nat, offset: nat, len: nat): Spans
    requires h < capacity && t < capacity
  {
    Split(t, if t < h then h else capacity, if t < h then 0 else h, offset, len)
  }

  /** The writable region of a ring that is not full is the free cells after the used ones. */
  lemma {:induction false} WriteSpansCover(capacity: nat, head: nat, tail: nat, h: nat, t: nat, offset: nat, len: nat,
                                           s: Spans)
    requires CursorsOk(capacity, tail, head) && TailToHead(capacity, tail, head) < capacity
    requires h == CollapsePosition(capacity, head) && t == CollapsePosition(capacity, tail)
    requires s == WriteSpans(capacity, h, t, offset, len)
    ensures s.leftLen + s.rightLen == Max(0, Min(len, capacity - TailToHead(capacity, tail, head) - offset))
    ensures Cover(capacity, t, TailToHead(capacity, tail, head) + offset, s)
  {
  }

  /** The readable region of a ring that is not empty is its used cells. */
  lemma {:induction false} ReadSpansCover(capacity: nat, head: nat, tail: nat, h: nat, t: nat, offset: nat, len: nat,
                                          s: Spans)
    requires CursorsOk(capacity, tail, head) && TailToHead(capacity, tail, head) > 0
    requires h == CollapsePosition(capacity, head) && t == CollapsePosition(capacity, tail)
    requires s == ReadSpans(capacity, h, t, offset, len)
    ensures s.leftLen + s.rightLen == Max(0, Min(len, TailToHead(capacity, tail, head) - offset))
    ensures Cover(capacity, t, offset, s)
  {
  }

  /** An empty write may name an offset beyond the storage; it changes nothing. */
  function OverwriteIfAny<T>(s: seq<T>, at: nat, d: seq<T>): (r: seq<T>)
    requires |d| > 0 ==> at + |d| <= |s|
    ensures |r| == |s|
  {
    if |d| == 0 then s else Overwrite(s, at, d)
  }

  /** Filling spans is one contiguous overwrite in stream order. */
  lemma {:induction false} ScatterRotated<T>(b: seq<T>, t: nat, p: nat, d: seq<T>, s: Spans)
    requires t < |b| && |d| == s.leftLen + s.rightLen && Cover(|b|, t, p, s)
    requires |d| > 0 ==> p + |d| <= |b|
    ensures Rotate(Scatter(b, s, d), t) == OverwriteIfAny(Rotate(b, t), p, d)
  {
    var l, r := Rotate(Scatter(b, s, d), t), OverwriteIfAny(Rotate(b, t), p, d);
    forall k | 0 <= k < |b| ensures l[k] == r[k] {
      ScatterRotatedAt(b, t, p, d, s, k);
    }
  }

  lemma {:induction false} ScatterRotatedAt<T>(b: seq<T>, t: nat, p: nat, d: seq<T>, s: Spans, k: nat)
    requires t < |b| && |d| == s.leftLen + s.rightLen && Cover(|b|, t, p, s) && k < |b|
    requires |d| > 0 ==> p + |d| <= |b|
    ensures Rotate(Scatter(b, s, d), t)[k] == OverwriteIfAny(Rotate(b, t), p, d)[k]
  {
    RotateAt(b, t, k);
    RotateAt(Scatter(b, s, d), t, k);
    ScatterAt(b, s, d, Storage(|b|, t, k));
    CoverAt(|b|, t, p, s, k, Storage(|b|, t, k));
    if |d| > 0 {
      OverwriteAt(Rotate(b, t), p, d, k);
    }
  }

  /** A storage cell lies in the spans exactly when its offset lies in what they cover, at the same place. */
  lemma {:induction false} CoverAt(capacity: nat, t: nat, p: nat, s: Spans, k: nat, at: nat)
    requires t < capacity && k < capacity && Cover(capacity, t, p, s) && at == Storage(capacity, t, k)
    requires s.leftLen + s.rightLen > 0 ==> p + s.leftLen + s.rightLen <= capacity
    ensures s.rightAt <= at < s.rightAt + s.rightLen ==> p + s.leftLen <= k && at - s.rightAt == k - p - s.leftLen
    ensures s.leftAt <= at < s.leftAt + s.leftLen ==> p <= k && at - s.leftAt == k - p
    ensures p <= k < p + s.leftLen ==> s.leftAt <= at < s.leftAt + s.leftLen
    ensures p + s.leftLen <= k < p + s.leftLen + s.rightLen ==> s.rightAt <= at < s.rightAt + s.rightLen
  {
  }

  lemma {:induction false} ScatterAt<T>(b: seq<T>, s: Spans, d: seq<T>, at: nat)
    requires s.leftAt + s.leftLen <= |b| && s.rightAt + s.rightLen <= |b| && |d| == s.leftLen + s.rightLen
    requires at < |b|
    ensures Scatter(b, s, d)[at] ==
            if s.rightAt <= at < s.rightAt + s.rightLen then d[s.leftLen + at - s.rightAt]
            else if s.leftAt <= at < s.leftAt + s.leftLen then d[at - s.leftAt]
            else b[at]
  {
    OverwriteAt(Overwrite(b, s.leftAt, d[..s.leftLen]), s.rightAt, d[s.leftLen..], at);
    OverwriteAt(b, s.leftAt, d[..s.leftLen], at);
  }

  /** Reading spans is one contiguous slice in stream order. */
  lemma {:induction false} GatherRotated<T>(b: seq<T>, t: nat, p: nat, s: Spans)
    requires t < |b| && Cover(|b|, t, p, s)
    requires s.leftLen + s.rightLen > 0 ==> p + s.leftLen + s.rightLen <= |b|
    ensures s.leftLen + s.rightLen > 0 ==> Gather(b, s) == Rotate(b, t)[p..p + s.leftLen + s.rightLen]
  {
    if s.leftLen + s.rightLen > 0 {
      var l, r := Gather(b, s), Rotate(b, t)[p..p + s.leftLen + s.rightLen];
      forall k | 0 <= k < |l| ensures l[k] == r[k] {
        GatherAt(b, s, k);
        RotateAt(b, t, p + k);
        SpanAt(|b|, t, p, s, k);
      }
    }
  }

  /** Where the spans visit their k-th cell. */
  function SpanCell(s: Spans, k: nat): int {
    if k < s.leftLen then s.leftAt + k else s.rightAt + k - s.leftLen
  }

  lemma {:induction false} GatherAt<T>(b: seq<T>, s: Spans, k: nat)
    requires s.leftAt + s.leftLen <= |b| && s.rightAt + s.rightLen <= |b| && k < s.leftLen + s.rightLen
    ensures Gather(b, s)[k] == b[SpanCell(s, k)]
  {
  }

  lemma {:induction false} SpanAt(capacity: nat, t: nat, p: nat, s: Spans, k: nat)
    requires t < capacity && Cover(capacity, t, p, s) && k < s.leftLen + s.rightLen
    requires p + s.leftLen + s.rightLen <= capacity
    ensures SpanCell(s, k) == Storage(capacity, t, p + k)
  {
  }

  lemma {:induction false} SliceOfPrefix<T>(s: seq<T>, n: nat, at: nat, len: nat)
    requires n <= |s|
    ensures at + len <= n ==> s[..n][at..at + len] == s[at..at + len]
  {
  }

  /** Bytes written past the head survive the reader freeing `n` bytes, and are exactly what the
      reader then finds once the head has passed them. */
  lemma {:induction false} WrittenSurvives(cells: seq<u8>, used: nat, offset: nat, data: seq<u8>, n: nat, advance: nat)
    requires used + offset + |data| <= |cells| && n <= used
    requires offset + |data| <= advance <= |cells| - (used - n)
    ensures var written := Overwrite(cells, used + offset, data);
            var turned := written[n..] + written[..n];
            var readable := turned[..used - n + advance];
            readable[used - n + offset..used - n + offset + |data|] == data
  {
    var written := Overwrite(cells, used + offset, data);
    var turned := written[n..] + written[..n];
    var at := used - n + offset;
    forall k | 0 <= k < |data| ensures turned[at + k] == data[k] {
      assert turned[at + k] == written[n + at + k];
    }
    assert turned[..used - n + advance][at..at + |data|] == data;
  }

  // ----- The buffer -----

  class RingBuffer {
    const capacity: nat
    const buffer: array<u8>
    var head: nat
    var tail: nat

    ghost predicate Valid()
      reads this
    {
      && 0 < capacity == buffer.Length
      && CursorsOk(capacity, tail, head)
    }

    /** All cells, in stream order from the first readable one; the readable bytes come first and
        the writable ones after them. */
    ghost function Cells(): (s: seq<u8>)
      reads this, buffer
      requires Valid()
      ensures |s| == capacity
    {
      Rotate(buffer[..], CollapsePosition(capacity, tail))
    }

    ghost function Used(): (n: nat)
      reads this
      requires Valid()
      ensures n <= capacity
    {
      TailToHead(capacity, tail, head)
    }

    /** The bytes that can be read. */
    ghost function Contents(): (s: seq<u8>)
      reads this, buffer
      requires Valid()
    {
      Cells()[..Used()]
    }

    constructor (capacity: nat)
      requires capacity != 0
      ensures Valid() && Used() == 0 && this.capacity == capacity && fresh(buffer)
    {
      this.capacity := capacity;
      buffer := new u8[capacity];
      head, tail := 0, 0;
    }

    method WriteAvailable() returns (n: nat)
      requires Valid()
      ensures n == capacity - Used()
    {
      n := HeadToTail(capacity, head, tail);
    }

    method ReadAvailable() returns (n: nat)
      requires Valid()
      ensures n == Used()
    {
      n := TailToHead(capacity, tail, head);
    }

    /** Copy `src` into consecutive cells. */
    method CopyIn(at: nat, src: seq<u8>)
      requires at + |src| <= buffer.Length
      modifies buffer
      ensures buffer[..] == Overwrite(old(buffer[..]), at, src)
    {
      forall i | 0 <= i < |src| {
        buffer[at + i] := src[i];
      }
    }

    /** Fill the spans of stream offset `p`. */
    method CopySpans(s: Spans, d: seq<u8>, ghost p: nat)
      requires Valid() && Cover(capacity, CollapsePosition(capacity, tail), p, s)
      requires |d| == s.leftLen + s.rightLen
      requires |d| > 0 ==> p + |d| <= capacity
      modifies buffer
      ensures Cells() == OverwriteIfAny(old(Cells()), p, d)
    {
      ScatterRotated(buffer[..], CollapsePosition(capacity, tail), p, d, s);
      CopyIn(s.leftAt, d[..s.leftLen]);
      CopyIn(s.rightAt, d[s.leftLen..]);
    }

    /** Fill free cells at `offset` past the head of a ring that is not full. */
    method Fill(offset: nat, data: seq<u8>) returns (n: nat)
      requires Valid() && Used() < capacity
      modifies buffer
      ensures n == Max(0, Min(|data|, capacity - Used() - offset))
      ensures Cells() == OverwriteIfAny(old(Cells()), Used() + offset, data[..n])
    {
      hide Cover, CollapsePosition, OverwriteIfAny;
      var spans := FreeSpans(offset, |data|);
      n := spans.leftLen + spans.rightLen;
      CopySpans(spans, data[..n], Used() + offset);
    }

    /** The two slices of free cells to write up to `len` bytes to. */
    method FreeSpans(offset: nat, len: nat) returns (spans: Spans)
      requires Valid() && Used() < capacity
      ensures spans.leftLen + spans.rightLen == Max(0, Min(len, capacity - Used() - offset))
      ensures Cover(capacity, CollapsePosition(capacity, tail), Used() + offset, spans)
    {
      var h, t := CollapsePosition(capacity, head), CollapsePosition(capacity, tail);
      spans := WriteSpans(capacity, h, t, offset, len);
      WriteSpansCover(capacity, head, tail, h, t, offset, len, spans);
    }

    /** Write at `offset` past the head without making the bytes readable. */
    method Write(offset: nat, data: seq<u8>) returns (n: nat)
      requires Valid()
      modifies buffer
      ensures n == Max(0, Min(|data|, capacity - Used() - offset))
      ensures Cells() == OverwriteIfAny(old(Cells()), Used() + offset, data[..n])
    {
      if CollapsePosition(capacity, head) == CollapsePosition(capacity, tail) && head != tail {
        n := 0;
      } else {
        n := Fill(offset, data);
      }
    }

    /** Make up to `offset` bytes past the head readable. */
    method AdvanceHead(offset: nat) returns (n: nat)
      requires Valid()
      modifies this`head
      ensures Valid() && Cells() == old(Cells())
      ensures n == Min(offset, capacity - old(Used()))
      ensures Used() == old(Used()) + n
    {
      n := Min(offset, HeadToTail(capacity, head, tail));
      head := Increment(capacity, head, n);
    }

    /** Read up to `len` bytes at `offset` past the tail without freeing them. */
    method Read(offset: nat, len: nat) returns (data: seq<u8>)
      requires Valid()
      ensures |data| == Max(0, Min(len, Used() - offset))
      ensures |data| > 0 ==> data == Contents()[offset..offset + |data|]
    {
      if CollapsePosition(capacity, head) == CollapsePosition(capacity, tail) && head == tail {
        data := [];
      } else {
        data := CopyOut(offset, len);
        SliceOfPrefix(Cells(), Used(), offset, |data|);
      }
    }

    /** Copy used cells of a ring that is not empty. */
    method CopyOut(offset: nat, len: nat) returns (data: seq<u8>)
      requires Valid() && Used() > 0
      ensures |data| == Max(0, Min(len, Used() - offset))
      ensures |data| > 0 ==> data == Cells()[offset..offset + |data|]
    {
      var h, t := CollapsePosition(capacity, head), CollapsePosition(capacity, tail);
      var s := ReadSpans(capacity, h, t, offset, len);
      ReadSpansCover(capacity, head, tail, h, t, offset, len, s);
      GatherRotated(buffer[..], t, offset, s);
      data := Gather(buffer[..], s);
    }

    /** Free up to `offset` readable bytes. The cells do not move; only their stream order turns. */
    method AdvanceTail(offset: nat) returns (n: nat)
      requires Valid()
      modifies this`tail
      ensures Valid()
      ensures n == Min(offset, old(Used()))
      ensures Used() == old(Used()) - n
      ensures Cells() == old(Cells())[n..] + old(Cells())[..n]
    {
      hide Rotate;
      n := Min(offset, TailToHead(capacity, tail, head));
      RotateTwice(buffer[..], CollapsePosition(capacity, tail), n);
      tail := Increment(capacity, tail, n);
    }
  }
}
