/** Wrapping 32-bit stream positions and the cyclic comparison between them. */
module StreamPosition {
  import opened Prelude

  const MODULUS := 0x1_0000_0000
  const HALF := 0x8000_0000

  type StreamPos = x: int | 0 <= x < 0x1_0000_0000

  datatype Ordering = Less | Equal | Greater

  /** The wrapping image of an unbounded position. */
  function Wrap(x: int): StreamPos {
    x % 0x1_0000_0000
  }

  function WrappingAdd(a: StreamPos, b: StreamPos): StreamPos {
    if a + b < 0x1_0000_0000 then a + b else a + b - 0x1_0000_0000
  }

  function WrappingSub(a: StreamPos, b: StreamPos): StreamPos {
    if b <= a then a - b else a - b + 0x1_0000_0000
  }

  function Compare(x: int, y: int): Ordering {
    if x < y then Less else if x == y then Equal else Greater
  }

  function StreamCmp(a: StreamPos, b: StreamPos): Option<Ordering> {
    var ord := Compare(WrappingSub(b, a), WrappingSub(a, b));
    if ord == Equal && a != b then None else Some(ord)
  }

  predicate StreamLt(a: StreamPos, b: StreamPos) {
    StreamCmp(a, b) == Some(Less)
  }

  predicate StreamLe(a: StreamPos, b: StreamPos) {
    StreamCmp(a, b) == Some(Less) || StreamCmp(a, b) == Some(Equal)
  }

  predicate StreamGt(a: StreamPos, b: StreamPos) {
    StreamCmp(a, b) == Some(Greater)
  }

  predicate StreamGe(a: StreamPos, b: StreamPos) {
    StreamCmp(a, b) == Some(Greater) || StreamCmp(a, b) == Some(Equal)
  }

  // ----- Wrapping arithmetic and unbounded arithmetic -----

  lemma {:induction false} WrapAdd(x: int, n: int)
    requires 0 <= n < MODULUS
    ensures WrappingAdd(Wrap(x), n) == Wrap(x + n)
  {
  }

  lemma {:induction false} WrapSub(x: int, y: int)
    ensures WrappingSub(Wrap(x), Wrap(y)) == Wrap(x - y)
    ensures 0 <= x - y < MODULUS ==> WrappingSub(Wrap(x), Wrap(y)) == x - y
  {
  }

  /** One turn of the counter leaves the image where it is. */
  lemma {:induction false} WrapTurn(x: int)
    ensures Wrap(x + MODULUS) == Wrap(x)
  {
  }

  /** A position and its wrapping image determine each other within one turn of the counter. */
  lemma {:induction false} WrapInjective(x: int, y: int)
    requires -MODULUS < x - y < MODULUS
    ensures Wrap(x) == Wrap(y) <==> x == y
  {
  }

  // ----- What the comparison decides -----

  /** The comparison is undefined exactly at distance 2^31, and otherwise orders the first position
      before the second exactly when the second is reached by going less than half a turn forward. */
  lemma {:induction false} CmpMeaning(a: StreamPos, b: StreamPos)
    ensures StreamCmp(a, b).None? <==> WrappingSub(b, a) == HALF
    ensures StreamLt(a, b) <==> 0 < WrappingSub(b, a) < HALF
    ensures StreamGt(a, b) <==> 0 < WrappingSub(a, b) < HALF
    ensures StreamLe(a, b) <==> WrappingSub(b, a) < HALF
    ensures StreamGe(a, b) <==> WrappingSub(a, b) < HALF
  {
  }

  /** Two unbounded positions less than 2^31 apart are compared as integers by their images. */
  lemma {:induction false} CmpAgrees(x: int, y: int)
    requires -HALF < x - y < HALF
    ensures StreamCmp(Wrap(x), Wrap(y)) == Some(Compare(x, y))
  {
    WrapSub(x, y);
    WrapSub(y, x);
  }

  /** The comparison is not transitive: three positions in a cycle, each before the next. */
  lemma {:induction false} CmpNotTransitive()
    ensures exists a, b, c :: StreamLt(a, b) && StreamLt(b, c) && StreamLt(c, a)
  {
    assert StreamLt(0, 0x6000_0000) && StreamLt(0x6000_0000, 0xC000_0000) && StreamLt(0xC000_0000, 0);
  }

  // ----- Reading an image back near a known unbounded position -----

  /** The least unbounded position from `anchor` on whose image is `p`. */
  function LiftFrom(anchor: int, p: StreamPos): (x: int)
    ensures anchor <= x < anchor + MODULUS
    ensures Wrap(x) == p
  {
    anchor + WrappingSub(p, Wrap(anchor))
  }

  /** The unbounded position closest to `anchor` whose image is `p`; a tie is taken ahead. */
  function LiftNearAhead(anchor: int, p: StreamPos): (x: int)
    ensures anchor - HALF < x <= anchor + HALF
    ensures Wrap(x) == p
  {
    var d := WrappingSub(p, Wrap(anchor));
    if d <= HALF then anchor + d else anchor + d - MODULUS
  }

  /** The same with a tie taken behind. */
  function LiftNearBehind(anchor: int, p: StreamPos): (x: int)
    ensures anchor - HALF <= x < anchor + HALF
    ensures Wrap(x) == p
  {
    var d := WrappingSub(p, Wrap(anchor));
    if d < HALF then anchor + d else anchor + d - MODULUS
  }

  /** Each reading is the only position in its range with that image, so it recovers a position
      that was wrapped while it lay in the range. */
  lemma {:induction false} LiftsRecover(anchor: int, x: int)
    ensures anchor <= x < anchor + MODULUS ==> LiftFrom(anchor, Wrap(x)) == x
    ensures anchor - HALF < x <= anchor + HALF ==> LiftNearAhead(anchor, Wrap(x)) == x
    ensures anchor - HALF <= x < anchor + HALF ==> LiftNearBehind(anchor, Wrap(x)) == x
  {
    WrapSub(x, anchor);
  }
}
