/**
 * Index arithmetic for row-major grids, as used by the texture's colour
 * array and the framebuffer: cell (x, y) of a grid `width` wide is
 * `y * width + x`.
 */
module RowMajor {

  lemma MulMonotone(a: nat, b: nat, k: nat)
    requires a <= b
    ensures a * k <= b * k
  {
    assert b * k == a * k + (b - a) * k;
  }

  /** n rows of `width` cells are n - 1 rows and one more. */
  lemma RowsSucc(width: nat, n: nat)
    requires n >= 1
    ensures width * n == width * (n - 1) + width
  {
  }

  /** Row y (of height rows) ends inside the grid. */
  lemma RowFits(y: nat, width: nat, height: nat)
    requires y < height
    ensures y * width + width <= width * height
  {
    assert y * width + width == (y + 1) * width;
    MulMonotone(y + 1, height, width);
  }

  /** An in-range cell lies inside the grid. */
  lemma CellInRange(x: nat, y: nat, width: nat, height: nat)
    requires x < width && y < height
    ensures y * width + x < width * height
  {
    RowFits(y, width, height);
  }

  /** Euclidean division is unique: `q * w + x` with `x < w` has quotient q and remainder x. */
  lemma DivModOf(k: nat, q: nat, x: nat, w: nat)
    requires x < w && k == q * w + x
    ensures k / w == q && k % w == x
  {
    var q' := k / w;
    var x' := k % w;
    assert k == q' * w + x';
    if q' < q {
      MulMonotone(q' + 1, q, w);
      assert false;
    } else if q < q' {
      MulMonotone(q + 1, q', w);
      assert false;
    }
  }

  /** An index is its row times the width plus its column. */
  lemma DivModRecompose(k: nat, w: nat)
    requires w > 0
    ensures k == (k / w) * w + k % w
  {
  }

  /** Every cell index below width*height splits into an in-range column and row. */
  lemma DivBelow(k: nat, width: nat, height: nat)
    requires k < width * height
    ensures width > 0 && k / width < height && k % width < width
  {
    if k / width >= height {
      MulMonotone(height, k / width, width);
      assert false;
    }
  }

  /** Distinct in-range cells have distinct indices. */
  lemma CellInjective(x: nat, y: nat, x': nat, y': nat, width: nat)
    requires x < width && x' < width
    requires y * width + x == y' * width + x'
    ensures x == x' && y == y'
  {
    DivModOf(y * width + x, y, x, width);
    DivModOf(y' * width + x', y', x', width);
  }
}
