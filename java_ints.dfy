/** Java's 32-bit `int` arithmetic over Dafny's unbounded integers. */
module JavaInts {

  const TWO_31: int := 0x8000_0000
  const TWO_32: int := 0x1_0000_0000

  predicate IsInt32(x: int) {
    -TWO_31 <= x < TWO_31
  }

  /** Two's-complement wrap-around of an `int` expression that overflowed. */
  function ToInt32(x: int): (r: int)
    ensures IsInt32(r)
    ensures (x - r) % TWO_32 == 0
    ensures IsInt32(x) ==> r == x
  {
    (x + TWO_31) % TWO_32 - TWO_31
  }

  /** `java.util.Objects.hash(id)` for a single `int` argument: `31 * 1 + id`. */
  function ObjectsHash(id: int): (r: int)
    ensures IsInt32(r)
    ensures IsInt32(31 + id) ==> r == 31 + id
  {
    ToInt32(31 + id)
  }
}
