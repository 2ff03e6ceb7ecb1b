/** Lists of ranges of wrapping positions, the unbounded lists they stand for, and the search in them. */
module PositionRanges {
  import opened Prelude
  import opened StreamPosition
  import opened RangeList

  datatype PosRange = PosRange(start: StreamPos, end: StreamPos)

  function WrapRange(r: Range): PosRange {
    PosRange(Wrap(r.start), Wrap(r.end))
  }

  /** `ps` is the wrapping image of `rs`, range by range. */
  predicate Image(ps: seq<PosRange>, rs: seq<Range>) {
    && |ps| == |rs|
    && forall i :: 0 <= i < |ps| ==> ps[i] == WrapRange(rs[i])
  }

  function Starts(ps: seq<PosRange>): (s: seq<StreamPos>)
    ensures |s| == |ps|
    ensures forall i :: 0 <= i < |ps| ==> s[i] == ps[i].start
  {
    seq(|ps|, i requires 0 <= i < |ps| => ps[i].start)
  }

  function Ends(ps: seq<PosRange>): (s: seq<StreamPos>)
    ensures |s| == |ps|
    ensures forall i :: 0 <= i < |ps| ==> s[i] == ps[i].end
  {
    seq(|ps|, i requires 0 <= i < |ps| => ps[i].end)
  }

  /** The list of wrapping ranges that stands for `rs`. */
  function Wrapped(rs: seq<Range>): (ps: seq<PosRange>)
    ensures Image(ps, rs)
  {
    seq(|rs|, i requires 0 <= i < |rs| => WrapRange(rs[i]))
  }

  lemma {:induction false} ImageIsWrapped(ps: seq<PosRange>, rs: seq<Range>)
    requires Image(ps, rs)
    ensures ps == Wrapped(rs)
  {
  }

  /** Halve the part of the list from `lo` to `hi` until the key is found or nothing is left: where it is, or where
      it belongs. None if a comparison on the way is undefined. */
  function Search(keys: seq<StreamPos>, key: StreamPos, lo: nat, hi: nat): (r: Option<(bool, nat)>)
    requires lo <= hi <= |keys|
    ensures r.Some? ==> lo <= r.value.1 <= hi && (r.value.0 ==> r.value.1 < hi)
    decreases hi - lo
  {
    if lo == hi then Some((false, lo))
    else
      var mid := (lo + hi) / 2;
      match StreamCmp(keys[mid], key)
      case None => None
      case Some(Equal) => Some((true, mid))
      case Some(Less) => Search(keys, key, mid + 1, hi)
      case Some(Greater) => Search(keys, key, lo, mid)
  }

  /** Binary search with the cyclic comparison; None if a comparison made is undefined. */
  method BinarySearch(keys: seq<StreamPos>, key: StreamPos) returns (r: Option<(bool, nat)>)
    ensures r == Search(keys, key, 0, |keys|)
  {
    var lo, hi := 0, |keys|;
    while lo < hi
      invariant 0 <= lo <= hi <= |keys|
      invariant Search(keys, key, lo, hi) == Search(keys, key, 0, |keys|)
    {
      var mid := (lo + hi) / 2;
      match StreamCmp(keys[mid], key) {
        case None => return None;
        case Some(Equal) => return Some((true, mid));
        case Some(Less) => lo := mid + 1;
        case Some(Greater) => hi := mid;
      }
    }
    return Some((false, lo));
  }

  /** Where every comparison is defined and decides as the integers do, none that the search makes fails and it
      finds the place the integers give. `places` and `place` are the unbounded positions the keys stand for. */
  lemma {:induction false} SearchFinds(keys: seq<StreamPos>, key: StreamPos, places: seq<int>, place: int,
                                       lo: nat, hi: nat)
    requires |keys| == |places| && lo <= hi <= |keys|
    requires forall j, k :: 0 <= j < k < |places| ==> places[j] < places[k]
    requires forall j :: 0 <= j < |keys| ==> StreamCmp(keys[j], key) == Some(Compare(places[j], place))
    requires forall j :: 0 <= j < lo ==> places[j] < place
    requires forall j :: hi <= j < |places| ==> place < places[j]
    ensures Search(keys, key, lo, hi).Some?
    ensures Placed(places, place, Search(keys, key, lo, hi).value.0, Search(keys, key, lo, hi).value.1)
    decreases hi - lo
  {
    if lo < hi {
      var mid := (lo + hi) / 2;
      assert StreamCmp(keys[mid], key) == Some(Compare(places[mid], place));
      if places[mid] < place {
        assert forall j :: 0 <= j < mid ==> places[j] < places[mid];
        SearchFinds(keys, key, places, place, mid + 1, hi);
      } else if place < places[mid] {
        assert forall j :: mid < j < |places| ==> places[mid] < places[j];
        SearchFinds(keys, key, places, place, lo, mid);
      } else {
        FoundIsPlaced(places, place, mid);
      }
    } else {
      MissingIsPlaced(places, place, lo);
    }
  }

  /** The index is where the position is, if it is found, and where it belongs. */
  predicate Placed(places: seq<int>, place: int, found: bool, i: nat) {
    && (found <==> place in places)
    && (found ==> i < |places| && places[i] == place)
    && i <= |places|
    && (forall j :: 0 <= j < i ==> places[j] < place)
    && (forall j :: i <= j < |places| ==> place <= places[j])
  }

  lemma {:induction false} FoundIsPlaced(places: seq<int>, place: int, i: nat)
    requires i < |places| && places[i] == place
    requires forall j, k :: 0 <= j < k < |places| ==> places[j] < places[k]
    ensures Placed(places, place, true, i)
  {
  }

  lemma {:induction false} MissingIsPlaced(places: seq<int>, place: int, i: nat)
    requires i <= |places|
    requires forall j :: 0 <= j < i ==> places[j] < place
    requires forall j :: i <= j < |places| ==> place < places[j]
    ensures Placed(places, place, false, i)
  {
  }
}
