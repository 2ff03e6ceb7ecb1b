/** Types and sequence helpers shared by every module. */
module Prelude {

  type u8 = x: int | 0 <= x < 0x100
  type u16 = x: int | 0 <= x < 0x1_0000

  datatype Option<+T> = None | Some(value: T)

  function Min(a: int, b: int): (m: int)
    ensures m <= a && m <= b && (m == a || m == b)
  {
    if a <= b then a else b
  }

  function Max(a: int, b: int): (m: int)
    ensures a <= m && b <= m && (m == a || m == b)
  {
    if a <= b then b else a
  }

  /** `s` with the cells from `at` on replaced by `d`. */
  function Overwrite<T>(s: seq<T>, at: nat, d: seq<T>): (r: seq<T>)
    requires at + |d| <= |s|
    ensures |r| == |s|
  {
    s[..at] + d + s[at + |d|..]
  }

  lemma {:induction false} OverwriteAt<T>(s: seq<T>, at: nat, d: seq<T>, k: nat)
    requires at + |d| <= |s| && k < |s|
    ensures Overwrite(s, at, d)[k] == if at <= k < at + |d| then d[k - at] else s[k]
  {
  }
}
