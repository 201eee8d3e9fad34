/**
 * The label rasters are stored as signed 8-bit integers, and the merge of a
 * new label grid into the persisted one is a plain element-wise int8 addition:
 * a sum outside [-128, 127] wraps around modulo 256, it is not clamped.
 */
module Int8 {

  const MinInt8: int := -128
  const MaxInt8: int := 127

  predicate IsInt8(x: int)
  {
    MinInt8 <= x <= MaxInt8
  }

  /** The int8 value that `x` wraps to. */
  function Wrap(x: int): (r: int)
    ensures IsInt8(r)
    ensures (x - r) % 256 == 0
  {
    (x + 128) % 256 - 128
  }

  /** The wrapped value is the only int8 value congruent to `x` modulo 256. */
  lemma WrapExact(x: int, r: int)
    requires IsInt8(r) && (x - r) % 256 == 0
    ensures Wrap(x) == r
  {
  }

  /** Wrapping leaves an int8 value alone. */
  lemma WrapKeeps(x: int)
    requires IsInt8(x)
    ensures Wrap(x) == x
  {
  }

  /** A persisted count of 127 labelled once more becomes -128. */
  lemma WrapAtMaximum()
    ensures Wrap(MaxInt8 + 1) == MinInt8
  {
  }
}
