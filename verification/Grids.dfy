/** Flat row-major matrices. */
module Grids {
  import opened Arithmetic
  import opened Sums

  /** The row-major listing of `cell` over `rows` rows of `width` columns. */
  function Grid(cell: (int, int) -> int, rows: nat, width: nat): (s: seq<int>)
    ensures |s| == rows * width
  {
    if rows == 0 then []
    else
      CellBound(rows - 1, rows, 0, Max(width, 1));
      assert (rows - 1) * width + width == rows * width;
      Grid(cell, rows - 1, width) + seq(width, c => cell(rows - 1, c))
  }

  lemma {:induction false} GridAt(cell: (int, int) -> int, rows: nat, width: nat, r: int, c: int)
    requires 0 <= r < rows && 0 <= c < width
    ensures 0 <= r * width + c < rows * width
    ensures At(Grid(cell, rows, width), r * width + c) == cell(r, c)
  {
    CellBound(r, rows, c, width);
    if r < rows - 1 {
      CellBound(r, rows - 1, c, width);
      GridAt(cell, rows - 1, width, r, c);
    }
  }

  ghost predicate Matches(s: seq<int>, cell: (int, int) -> int, rows: nat, width: nat) {
    && |s| == rows * width
    && forall r, c | 0 <= r < rows && 0 <= c < width :: At(s, r * width + c) == cell(r, c)
  }

  /** A flat matrix is determined by its cells. */
  lemma {:induction false} GridUnique(s: seq<int>, cell: (int, int) -> int, rows: nat, width: nat)
    requires Matches(s, cell, rows, width)
    ensures s == Grid(cell, rows, width)
  {
    if rows > 0 {
      var cut := (rows - 1) * width;
      assert cut + width == rows * width && cut >= 0;
      var top := s[..cut];
      forall r, c | 0 <= r < rows - 1 && 0 <= c < width ensures At(top, r * width + c) == cell(r, c) {
        CellBound(r, rows - 1, c, width);
        assert At(s, r * width + c) == cell(r, c);
      }
      GridUnique(top, cell, rows - 1, width);
      var last := rows - 1;
      forall c | 0 <= c < width ensures s[cut + c] == cell(last, c) {
        assert At(s, last * width + c) == cell(last, c);
      }
      assert s[cut..] == seq(width, c => cell(rows - 1, c));
      assert s == top + s[cut..];
    }
  }

  /** A grid of canonical cells is canonical. */
  lemma {:induction false} GridCanonical(cell: (int, int) -> int, rows: nat, width: nat, p: int)
    requires forall r, c | 0 <= r < rows && 0 <= c < width :: 0 <= cell(r, c) < p
    ensures forall i | 0 <= i < |Grid(cell, rows, width)| :: 0 <= Grid(cell, rows, width)[i] < p
  {
    if rows > 0 {
      GridCanonical(cell, rows - 1, width, p);
      var top, last := Grid(cell, rows - 1, width), seq(width, c => cell(rows - 1, c));
      assert Grid(cell, rows, width) == top + last;
    }
  }
}
