/**
 * Grid coordinates (`Vector2D` in script.ts) and the mapping from the flat
 * index used when the grid is laid out to a coordinate.
 */
module Vectors {

  /** An integer point; x is the column and y the row. */
  datatype Vector2D = Vector2D(x: int, y: int)

  /** `Vector2D.equal`: componentwise equality, which is exactly value equality. */
  function Equal(a: Vector2D, b: Vector2D): (r: bool)
    ensures r <==> a == b
  {
    a.x == b.x && a.y == b.y
  }

  /** A position inside a grid of `width` columns and `height` rows. */
  predicate InBounds(p: Vector2D, width: int, height: int)
  {
    0 <= p.x < width && 0 <= p.y < height
  }

  /**
   * The position of the i-th grid cell, `(i % width, floor(i / width))`.
   * For a non-negative index and a positive width, floor division is Dafny's `/`.
   */
  function IndexToPosition(i: nat, width: nat): (p: Vector2D)
    requires width > 0
    ensures 0 <= p.x < width && 0 <= p.y
    ensures p.y * width + p.x == i
  {
    Vector2D(i % width, i / width)
  }

  /** Row-major flat index of a position: the inverse of IndexToPosition. */
  function PositionToIndex(p: Vector2D, width: nat): (i: int)
  {
    p.y * width + p.x
  }

  /** Multiplying by a non-negative factor keeps an order. */
  lemma {:induction false} MulMonotone(a: int, b: int, w: nat)
    requires a <= b
    ensures a * w <= b * w
  {
    if w > 0 {
      MulMonotone(a, b, w - 1);
      assert a * w == a * (w - 1) + a;
      assert b * w == b * (w - 1) + b;
    }
  }

  /** Every flat index below `width * height` lands inside the grid. */
  lemma IndexInBounds(i: nat, width: nat, height: nat)
    requires width > 0 && i < width * height
    ensures InBounds(IndexToPosition(i, width), width, height)
  {
    var p := IndexToPosition(i, width);
    if p.y >= height {
      MulMonotone(height, p.y, width);
      assert false;
    }
  }

  /** A position in a row of `width` columns is the image of its own flat index. */
  lemma PositionIndexRoundTrip(p: Vector2D, width: nat)
    requires width > 0 && 0 <= p.x < width && 0 <= p.y
    ensures PositionToIndex(p, width) >= 0
    ensures IndexToPosition(PositionToIndex(p, width), width) == p
  {
    var i := PositionToIndex(p, width);
    MulMonotone(0, p.y, width);
    var q := IndexToPosition(i, width);
    // both (q.y, q.x) and (p.y, p.x) are a quotient/remainder pair of i by width
    if q.y < p.y {
      MulMonotone(q.y + 1, p.y, width);
      assert false;
    } else if q.y > p.y {
      MulMonotone(p.y + 1, q.y, width);
      assert false;
    }
  }

  /** Distinct indices give distinct positions. */
  lemma IndexToPositionInjective(i: nat, j: nat, width: nat)
    requires width > 0 && i != j
    ensures IndexToPosition(i, width) != IndexToPosition(j, width)
  {
  }

  /** A position inside the grid has a flat index below `width * height`. */
  lemma PositionIndexInRange(p: Vector2D, width: nat, height: nat)
    requires width > 0 && InBounds(p, width, height)
    ensures 0 <= PositionToIndex(p, width) < width * height
  {
    MulMonotone(0, p.y, width);
    MulMonotone(p.y + 1, height, width);
  }
}
