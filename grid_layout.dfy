/**
  Geometry of the play grid: its construction parameters, the conversions
  between flat (row-major) and two-dimensional cell indices, the mapping of a
  pointer position to a cell, and the centre of every cell.

  Pointer positions are integer pixels. Marble positions are kept in
  HALF-pixel units: the marble size is an integer number of pixels, so a cell
  centre `column * step + gap + size / 2` is always a whole number of
  half-pixels, while it is a whole number of pixels only for even sizes.
*/
module GridLayout {

  /** The construction parameters of a grid, in pixels. */
  datatype Layout = Layout(columns: nat, rows: nat, marbleSize: nat, gap: nat)
  {
    /** What the grid needs of its parameters: at least one column and a
        non-empty cell, so that the cell pitch is positive. */
    predicate Valid() {
      columns > 0 && marbleSize > 0
    }

    /** Distance in pixels between the centres of neighbouring cells. */
    function Step(): nat {
      marbleSize + 2 * gap
    }

    /** Number of cells of the grid. */
    function CellCount(): nat {
      columns * rows
    }
  }

  /** A cell given by its column `x` and its row `y`. */
  datatype Pos = Pos(x: int, y: int)

  /** JavaScript's `%`: the remainder takes the sign of the dividend. */
  function JsRem(a: int, b: int): (r: int)
    requires b > 0
    ensures a >= 0 ==> 0 <= r < b && r == a % b
    ensures a < 0 ==> -b < r <= 0 && r == a - b * (-((-a) / b))
  {
    if a >= 0 then a % b else -((-a) % b)
  }

  /** `Math.ceil(a / b)` for a positive divisor (Dafny's `/` floors here). */
  function CeilDiv(a: int, b: int): int
    requires b > 0
  {
    -((-a) / b)
  }

  /** Row-major flat index of column `x`, row `y`: a cell of the grid has an
      index of the array. */
  function OneDimIndex(L: Layout, x: int, y: int): (i: int)
  {
    y * L.columns + x
  }

  /** Flat index of an in-grid cell, as a natural number. */
  function CellIndex(L: Layout, c: nat, r: nat): nat {
    MulMonotone(0, r, L.columns);
    OneDimIndex(L, c, r)
  }

  /** Column and row of a flat index: the column by JavaScript's remainder,
      the row by flooring division. A non-negative index decodes to a column
      of the grid and a non-negative row that encode back to it; a negative
      index decodes to a negative row. */
  function TwoDimIndex(L: Layout, index: int): (p: Pos)
    requires L.Valid()
    ensures index >= 0 ==> 0 <= p.x < L.columns && 0 <= p.y && OneDimIndex(L, p.x, p.y) == index
    ensures index < 0 ==> p.y < 0
  {
    assert index == (index / L.columns) * L.columns + index % L.columns;
    Pos(JsRem(index, L.columns), index / L.columns)
  }

  /** The cell under a pointer position: `ceil(p / step) - 1` on each axis.
      A pointer inside the grid's area, `columns * step` by `rows * step`
      pixels, lies over a cell of the grid. */
  function IndexFromPoint(L: Layout, px: int, py: int): (i: int)
    requires L.Valid()
    ensures 0 < px <= L.columns * L.Step() && 0 < py <= L.rows * L.Step() ==> 0 <= i < L.CellCount()
  {
    CeilDivRange(px, L.Step(), L.columns);
    CeilDivRange(py, L.Step(), L.rows);
    OneDimInGrid(L, CeilDiv(px, L.Step()) - 1, CeilDiv(py, L.Step()) - 1);
    OneDimIndex(L, CeilDiv(px, L.Step()) - 1, CeilDiv(py, L.Step()) - 1)
  }

  /** Horizontal centre of the column of cell `index`, in half-pixels: it
      lies midway between the column's borders, `2 * step` half-pixels
      apart. */
  function CentreX(L: Layout, index: nat): (x: int)
    requires L.Valid()
    ensures var left := 2 * ((index % L.columns) * L.Step());
            left < x < left + 2 * L.Step() && x - left == left + 2 * L.Step() - x
  {
    2 * ((index % L.columns) * L.Step() + L.gap) + L.marbleSize
  }

  /** Vertical centre of the row of cell `index`, in half-pixels: it lies
      midway between the row's borders, `2 * step` half-pixels apart. */
  function CentreY(L: Layout, index: nat): (y: int)
    requires L.Valid()
    ensures var top := 2 * ((index / L.columns) * L.Step());
            top < y < top + 2 * L.Step() && y - top == top + 2 * L.Step() - y
  {
    2 * ((index / L.columns) * L.Step() + L.gap) + L.marbleSize
  }

  // ---------------------------------------------------------------------
  // Arithmetic facts

  lemma MulMonotone(a: int, b: int, c: int)
    requires a <= b && c >= 0
    ensures a * c <= b * c
  {
    assert b * c - a * c == (b - a) * c;
  }

  /** Flooring division is determined by the bracket the dividend lies in. */
  lemma {:induction false} DivUnique(a: int, b: int, q: int)
    requires b > 0 && q * b <= a < q * b + b
    ensures a / b == q && a % b == a - q * b
  {
    var d := a / b;
    assert a == d * b + a % b;
    if d > q {
      MulMonotone(q + 1, d, b);
      assert false;
    } else if d < q {
      MulMonotone(d + 1, q, b);
      assert false;
    }
  }

  lemma OneDimInGrid(L: Layout, x: int, y: int)
    ensures 0 <= x < L.columns && 0 <= y < L.rows ==> 0 <= OneDimIndex(L, x, y) < L.CellCount()
  {
    if 0 <= y < L.rows {
      MulMonotone(y + 1, L.rows, L.columns);
      MulMonotone(0, y, L.columns);
    }
  }

  /** A coordinate strictly inside `(0, n * s]` selects one of the first `n`
      cells of its axis. */
  lemma {:induction false} CeilDivRange(p: int, s: int, n: int)
    requires s > 0 && n >= 0
    ensures 0 < p <= n * s ==> 0 <= CeilDiv(p, s) - 1 < n
  {
    if 0 < p <= n * s {
      var d := (-p) / s;
      assert d * s <= -p < d * s + s;
      if d >= 0 {
        MulMonotone(0, d, s);
        assert false;
      }
      if d < -n {
        MulMonotone(d + 1, -n, s);
        assert false;
      }
    }
  }

  /** A pointer strictly right of the left edge of cell `c` and at most on
      its right edge selects cell `c`. */
  lemma {:induction false} CeilDivInCell(p: int, s: int, c: int)
    requires s > 0 && c * s < p <= (c + 1) * s
    ensures CeilDiv(p, s) - 1 == c
  {
    assert (c + 1) * s == c * s + s;
    assert -(c + 1) * s == -(c * s) - s;
    DivUnique(-p, s, -(c + 1));
  }

  // ---------------------------------------------------------------------
  // Index mapping

  /** Flat index of an in-grid column and a non-negative row maps back to
      them. (A negative row does not: the column then comes out of
      JavaScript's truncating remainder as a non-positive number.) */
  lemma {:induction false} IndexRoundTrip(L: Layout, x: int, y: int)
    requires L.Valid() && 0 <= x < L.columns && 0 <= y
    ensures OneDimIndex(L, x, y) >= 0
    ensures TwoDimIndex(L, OneDimIndex(L, x, y)) == Pos(x, y)
  {
    var i := OneDimIndex(L, x, y);
    assert y * L.columns >= 0;
    DivUnique(i, L.columns, y);
  }

  /** A pointer inside the square of cell (cx, cy) yields the flat index of
      that cell, and that index decodes back to (cx, cy) whenever the column
      is inside the grid and the row is not negative. */
  lemma {:induction false} PointInCell(L: Layout, px: int, py: int, cx: int, cy: int)
    requires L.Valid()
    requires cx * L.Step() < px <= (cx + 1) * L.Step()
    requires cy * L.Step() < py <= (cy + 1) * L.Step()
    ensures IndexFromPoint(L, px, py) == cy * L.columns + cx
    ensures 0 <= cx < L.columns && 0 <= cy ==>
              TwoDimIndex(L, IndexFromPoint(L, px, py)) == Pos(cx, cy)
  {
    CeilDivInCell(px, L.Step(), cx);
    CeilDivInCell(py, L.Step(), cy);
    if 0 <= cx < L.columns && 0 <= cy {
      IndexRoundTrip(L, cx, cy);
    }
  }

  /** A cell of the grid: its flat index is in range and decodes to it. */
  lemma {:induction false} CellInGrid(L: Layout, x: int, y: int)
    requires L.Valid() && 0 <= x < L.columns && 0 <= y < L.rows
    ensures 0 <= OneDimIndex(L, x, y) < L.CellCount() && CellIndex(L, x, y) == OneDimIndex(L, x, y)
    ensures OneDimIndex(L, x, y) % L.columns == x
    ensures OneDimIndex(L, x, y) / L.columns == y
  {
    IndexRoundTrip(L, x, y);
    MulMonotone(y + 1, L.rows, L.columns);
    assert (y + 1) * L.columns == y * L.columns + L.columns;
  }

  /** Every cell of column `c` has the column's horizontal centre. */
  lemma CentreXOfCell(L: Layout, c: nat, r: nat)
    requires L.Valid() && c < L.columns
    ensures CentreX(L, CellIndex(L, c, r)) == CentreX(L, c)
  {
    var i := CellIndex(L, c, r);
    IndexRoundTrip(L, c, r);
    assert JsRem(i, L.columns) == c;
    assert i % L.columns == c;
    DivUnique(c, L.columns, 0);
  }

  /** A flat index in range has an in-grid column and row. */
  lemma {:induction false} IndexInGrid(L: Layout, i: int)
    requires L.Valid() && 0 <= i < L.CellCount()
    ensures 0 <= i % L.columns < L.columns && 0 <= i / L.columns < L.rows
    ensures OneDimIndex(L, i % L.columns, i / L.columns) == i
  {
    var y := i / L.columns;
    assert i == y * L.columns + i % L.columns;
    if y >= L.rows {
      MulMonotone(L.rows, y, L.columns);
      assert false;
    }
  }
}
