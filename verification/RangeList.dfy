/** Sorted lists of half-open ranges of unbounded stream positions. */
module RangeList {
  import opened Prelude

  datatype Range = Range(start: int, end: int)

  /** Non-empty ranges in order, each ending at or before the next begins. */
  predicate Sorted(rs: seq<Range>) {
    && (forall i :: 0 <= i < |rs| ==> rs[i].start < rs[i].end)
    && (forall i, j :: 0 <= i < j < |rs| ==> rs[i].end <= rs[j].start)
  }

  /** Sorted, with a gap between neighbours. */
  predicate Apart(rs: seq<Range>) {
    && (forall i :: 0 <= i < |rs| ==> rs[i].start < rs[i].end)
    && (forall i, j :: 0 <= i < j < |rs| ==> rs[i].end < rs[j].start)
  }

  predicate Covers(rs: seq<Range>, x: int) {
    exists i :: 0 <= i < |rs| && rs[i].start <= x < rs[i].end
  }

  /** The first index whose range starts at `x`, or the length of the list. */
  function FindStart(rs: seq<Range>, x: int): (i: nat)
    ensures i <= |rs|
    ensures forall j :: 0 <= j < i ==> rs[j].start != x
    ensures i < |rs| ==> rs[i].start == x
  {
    if rs == [] then 0
    else if rs[0].start == x then 0
    else
      var i := FindStart(rs[1..], x);
      assert forall j :: 1 <= j < i + 1 ==> rs[j].start == rs[1..][j - 1].start;
      i + 1
  }

  /** The first index whose range ends at or after `x`, or the length of the list. */
  function FirstEnding(rs: seq<Range>, x: int): (i: nat)
    ensures i <= |rs|
    ensures forall j :: 0 <= j < i ==> rs[j].end < x
    ensures i < |rs| ==> x <= rs[i].end
  {
    if rs == [] then 0
    else if x <= rs[0].end then 0
    else
      var i := FirstEnding(rs[1..], x);
      assert forall j :: 1 <= j < i + 1 ==> rs[j].end == rs[1..][j - 1].end;
      i + 1
  }

  /** The first index from `k` on whose range starts after `x`, or the length of the list. */
  function FirstStartingAfter(rs: seq<Range>, k: nat, x: int): (i: nat)
    requires k <= |rs|
    ensures k <= i <= |rs|
    ensures forall j :: k <= j < i ==> rs[j].start <= x
    ensures i < |rs| ==> x < rs[i].start
    decreases |rs| - k
  {
    if k == |rs| || x < rs[k].start then k else FirstStartingAfter(rs, k + 1, x)
  }

  /** Total number of positions covered by a sorted list. */
  function TotalLength(rs: seq<Range>): (n: int)
  {
    if rs == [] then 0 else rs[0].end - rs[0].start + TotalLength(rs[1..])
  }

  // ----- Replacing a run of ranges by one -----

  function Splice(rs: seq<Range>, k: nat, j: nat, r: Range): (res: seq<Range>)
    requires k <= j <= |rs|
  {
    rs[..k] + [r] + rs[j..]
  }

  lemma {:induction false} SpliceApart(rs: seq<Range>, k: nat, j: nat, r: Range)
    requires k <= j <= |rs| && Apart(rs) && r.start < r.end
    requires k > 0 ==> rs[k - 1].end < r.start
    requires j < |rs| ==> r.end < rs[j].start
    ensures Apart(Splice(rs, k, j, r))
  {
    ApartAppend(rs[..k], [r]);
    ApartAppend(rs[..k] + [r], rs[j..]);
  }

  lemma {:induction false} ApartAppend(a: seq<Range>, b: seq<Range>)
    requires Apart(a) && Apart(b)
    requires a != [] && b != [] ==> a[|a| - 1].end < b[0].start
    ensures Apart(a + b)
  {
    var m := a + b;
    forall i, j | 0 <= i < j < |m| ensures m[i].end < m[j].start {
      if i < |a| <= j {
        assert a[i].end <= a[|a| - 1].end;
        assert b[0].start <= b[j - |a|].start;
      }
    }
  }

  lemma {:induction false} SpliceCovers(rs: seq<Range>, k: nat, j: nat, r: Range, x: int)
    requires k <= j <= |rs|
    ensures Covers(Splice(rs, k, j, r), x) <==> Covers(rs[..k], x) || r.start <= x < r.end || Covers(rs[j..], x)
  {
    CoversAppend(rs[..k], [r], x);
    CoversAppend(rs[..k] + [r], rs[j..], x);
    assert [r][0] == r;
  }

  lemma {:induction false} CoversAppend(a: seq<Range>, b: seq<Range>, x: int)
    ensures Covers(a + b, x) <==> Covers(a, x) || Covers(b, x)
  {
    if Covers(a, x) {
      var i :| 0 <= i < |a| && a[i].start <= x < a[i].end;
      assert (a + b)[i] == a[i];
    }
    if Covers(b, x) {
      var i :| 0 <= i < |b| && b[i].start <= x < b[i].end;
      assert (a + b)[|a| + i] == b[i];
    }
  }

  /** A list covers what its three parts cover. */
  lemma {:induction false} CoversParts(rs: seq<Range>, k: nat, j: nat, x: int)
    requires k <= j <= |rs|
    ensures Covers(rs, x) <==> Covers(rs[..k], x) || Covers(rs[k..j], x) || Covers(rs[j..], x)
  {
    assert rs == rs[..k] + rs[k..j] + rs[j..];
    CoversAppend(rs[..k], rs[k..j], x);
    CoversAppend(rs[..k] + rs[k..j], rs[j..], x);
  }
}
