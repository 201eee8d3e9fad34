/**
 * The block cleared by the two-click raster eraser.
 *
 * The anchor `a` is the first click and `b` the second.  The block written has
 * its top-left corner at the component-wise minimum of the two clicks, width
 * |dx| and height |dy|, so the far corner is exclusive.
 */
module Eraser {
  import opened Connectivity

  /** The state of the eraser tool: waiting for a first click, or holding it. */
  datatype Anchor = Idle | Anchored(at: Pixel)

  function Min(x: int, y: int): int { if x <= y then x else y }
  function Max(x: int, y: int): int { if x <= y then y else x }
  function Abs(x: int): int { if x < 0 then -x else x }

  /**
   * `p` lies in the half-open span between the two clicks, in both
   * directions: the |dx| by |dy| block whose top-left corner is the
   * minimum of the clicks, so the far corner is exclusive.
   */
  predicate InErasedBlock(a: Pixel, b: Pixel, p: Pixel)
    ensures InErasedBlock(a, b, p) <==>
      (Min(a.col, b.col) <= p.col < Min(a.col, b.col) + Abs(b.col - a.col) &&
       Min(a.row, b.row) <= p.row < Min(a.row, b.row) + Abs(b.row - a.row))
  {
    Min(a.col, b.col) <= p.col < Max(a.col, b.col) &&
    Min(a.row, b.row) <= p.row < Max(a.row, b.row)
  }

  /** The value a cell holding `v` has after the block between `a` and `b` is cleared to no-data (0). */
  function AfterErase(a: Pixel, b: Pixel, p: Pixel, v: int): (r: int)
    ensures r == 0 || r == v
    ensures r != v <==> (InErasedBlock(a, b, p) && v != 0)
  {
    if InErasedBlock(a, b, p) then 0 else v
  }

  /** Which click comes first does not change the block. */
  lemma BlockSymmetric(a: Pixel, b: Pixel, p: Pixel)
    ensures InErasedBlock(a, b, p) == InErasedBlock(b, a, p)
  {
  }

  /** Two clicks in the same row or column, in particular on the same pixel, clear nothing. */
  lemma DegenerateBlockIsEmpty(a: Pixel, b: Pixel, p: Pixel, v: int)
    requires a.col == b.col || a.row == b.row
    ensures !InErasedBlock(a, b, p)
    ensures AfterErase(a, b, p, v) == v
  {
  }

  /** Erasing the same block again changes nothing more. */
  lemma EraseIdempotent(a: Pixel, b: Pixel, p: Pixel, v: int)
    ensures AfterErase(a, b, p, AfterErase(a, b, p, v)) == AfterErase(a, b, p, v)
  {
  }
}
