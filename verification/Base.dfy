/** Containers and machine arithmetic shared by every other module. */
module Base {

  datatype Option<+T> = None | Some(value: T)

  datatype Result<+T, +E> = Ok(value: T) | Err(error: E)

  ghost predicate Distinct<T>(s: seq<T>) {
    forall i, j :: 0 <= i < j < |s| ==> s[i] != s[j]
  }

  /** How many positions of `s` hold an element that satisfies `p`. */
  ghost function CountIf<T>(s: seq<T>, p: T -> bool): nat {
    |set i | 0 <= i < |s| && p(s[i])|
  }

  lemma CountIfLast<T>(s: seq<T>, p: T -> bool)
    ensures s == [] ==> CountIf(s, p) == 0
    ensures s != [] ==> CountIf(s, p) == CountIf(s[..|s| - 1], p) + if p(s[|s| - 1]) then 1 else 0
  {
    if s != [] {
      var n := |s| - 1;
      var before, after := set i | 0 <= i < n && p(s[..n][i]), set i | 0 <= i < |s| && p(s[i]);
      assert after == if p(s[n]) then before + {n} else before;
    }
  }

  function Max(a: int, b: int): int {
    if a < b then b else a
  }

  const TWO_63: int := 0x8000_0000_0000_0000
  const TWO_64: int := 0x1_0000_0000_0000_0000
  const INT64_MAX: int := TWO_63 - 1

  predicate FitsInt64(x: int) {
    -TWO_63 <= x < TWO_63
  }

  /** The int64 that Go arithmetic leaves when the exact result is `x`. */
  function Wrap64(x: int): (r: int)
    ensures FitsInt64(r)
    ensures FitsInt64(x) ==> r == x
    ensures (x - r) % TWO_64 == 0
  {
    (x + TWO_63) % TWO_64 - TWO_63
  }

  const TWO_31: int := 0x8000_0000
  const TWO_32: int := 0x1_0000_0000

  /** The int32 that a Go conversion leaves when the operand is `x`. */
  function Wrap32(x: int): (r: int)
    ensures -TWO_31 <= r < TWO_31
    ensures -TWO_31 <= x < TWO_31 ==> r == x
    ensures (x - r) % TWO_32 == 0
  {
    (x + TWO_31) % TWO_32 - TWO_31
  }
}
