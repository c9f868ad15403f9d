/**
 * Cell numbering of a 3x3 grid: numbers 1..9 in row-major reading order
 *
 *    1 | 2 | 3
 *   ---+---+---
 *    4 | 5 | 6
 *   ---+---+---
 *    7 | 8 | 9
 *
 * and its zero-based (x, y) = (column, row) coordinates.
 */
module Coords {

  /** Grid number to (x, y). The source divides by 3 with floor division and
      takes the non-negative remainder; for a positive divisor these agree with
      Dafny's Euclidean `/` and `%` on every integer. */
  function GridXY(num: int): (xy: (int, int))
    ensures 0 <= xy.0 < 3
    ensures num - 1 == 3 * xy.1 + xy.0
    ensures 1 <= num <= 9 ==> 0 <= xy.1 < 3
  {
    ((num - 1) % 3, (num - 1) / 3)
  }

  /** (x, y) to grid number. */
  function MNum(x: int, y: int): (num: int)
    ensures 0 <= x < 3 && 0 <= y < 3 ==> 1 <= num <= 9
  {
    y * 3 + 1 + x
  }

  /** Converting a grid number to coordinates and back gives the number. */
  lemma NumberRoundTrip(num: int)
    requires 1 <= num <= 9
    ensures MNum(GridXY(num).0, GridXY(num).1) == num
  {
  }

  /** Converting coordinates to a grid number and back gives the coordinates. */
  lemma CoordRoundTrip(x: int, y: int)
    requires 0 <= x < 3 && 0 <= y < 3
    ensures GridXY(MNum(x, y)) == (x, y)
  {
    var xy := GridXY(MNum(x, y));
    assert 3 * (xy.1 - y) == x - xy.0;
  }

  /** Distinct grid numbers name distinct cells. */
  lemma GridXYInjective(a: int, b: int)
    requires GridXY(a) == GridXY(b)
    ensures a == b
  {
  }
}
