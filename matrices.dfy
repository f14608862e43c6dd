/** Matrix preparation: trimming the label row and column off a matrix read
    from file, and turning its missing cells into the no-edge sentinel. */
module Matrices {
  import opened Wrappers
  import opened Globals

  /** A two-dimensional NumPy array as a value: `width` columns and a
      sequence of rows. The width is kept apart from the rows so that an
      array with no rows still has a number of columns, as NumPy's do. */
  datatype Grid<T> = Grid(width: nat, rows: seq<seq<T>>)
  {
    /** Every row has `width` cells. */
    predicate Valid()
    {
      forall i | 0 <= i < |rows| :: |rows[i]| == width
    }

    function Height(): nat
    {
      |rows|
    }
  }

  /** `np.delete(array, k, axis=0)`: a new array without row `k`; an index
      outside the rows raises IndexError (`None`). */
  function DeleteRow<T>(g: Grid<T>, k: nat): (r: Option<Grid<T>>)
    requires g.Valid()
    ensures r.Some? <==> k < g.Height()
    ensures r.Some? ==> r.value.Valid() && r.value.width == g.width && r.value.Height() == g.Height() - 1
    ensures r.Some? ==> forall i | 0 <= i < r.value.Height() ::
              r.value.rows[i] == g.rows[if i < k then i else i + 1]
  {
    if k < |g.rows| then Some(Grid(g.width, g.rows[..k] + g.rows[k + 1..])) else None
  }

  /** `np.delete(array, k, axis=1)`: a new array without column `k`; an
      index outside the columns raises IndexError (`None`). */
  function DeleteColumn<T>(g: Grid<T>, k: nat): (r: Option<Grid<T>>)
    requires g.Valid()
    ensures r.Some? <==> k < g.width
    ensures r.Some? ==> r.value.Valid() && r.value.width == g.width - 1 && r.value.Height() == g.Height()
    ensures r.Some? ==> forall i, j | 0 <= i < g.Height() && 0 <= j < g.width - 1 ::
              r.value.rows[i][j] == g.rows[i][if j < k then j else j + 1]
  {
    if k < g.width then
      Some(Grid(g.width - 1, seq(|g.rows|, i requires 0 <= i < |g.rows| => g.rows[i][..k] + g.rows[i][k + 1..])))
    else
      None
  }

  /** `delete_first_row_and_column`: drop row 0, then column 0, of the array
      read from file (the label row and the label column). An r-by-c array
      with r, c >= 1 becomes the (r-1)-by-(c-1) array shifted by one in both
      directions; with no row or no column NumPy raises IndexError. */
  function DeleteFirstRowAndColumn<T>(g: Grid<T>): (r: Option<Grid<T>>)
    requires g.Valid()
    ensures r.Some? <==> g.Height() >= 1 && g.width >= 1
    ensures r.Some? ==> r.value.Valid()
    ensures r.Some? ==> r.value.Height() == g.Height() - 1 && r.value.width == g.width - 1
    ensures r.Some? ==> forall i, j | 0 <= i < r.value.Height() && 0 <= j < r.value.width ::
              r.value.rows[i][j] == g.rows[i + 1][j + 1]
  {
    match DeleteRow(g, 0)
    case None => None
    case Some(h) => DeleteColumn(h, 0)
  }

  /** A cell of an array parsed by `np.genfromtxt`: `None` is NaN, the value
      a blank or non-numeric cell is read as. */
  type Cell = Option<real>

  /** What `replace_nan_to_infinite` makes of one cell: a NaN becomes the
      sentinel, a number stays as it is. */
  function FillNaN(c: Cell): (r: Cell)
    ensures r.Some?
    ensures c.Some? ==> r == c
    ensures c.None? ==> r == Some(Infinite)
  {
    match c
    case None => Some(Infinite)
    case Some(_) => c
  }

  /** `replace_nan_to_infinite`: visits every cell in row-major order and
      overwrites each NaN with the sentinel, in place. Afterwards no cell is
      NaN, every former NaN holds 999999 and every number is kept. */
  method ReplaceNanToInfinite(a: array2<Cell>)
    modifies a
    ensures forall i, j :: 0 <= i < a.Length0 && 0 <= j < a.Length1 ==> a[i, j] == FillNaN(old(a[i, j]))
    ensures forall i, j :: 0 <= i < a.Length0 && 0 <= j < a.Length1 ==> a[i, j].Some?
  {
    var x := 0;
    while x < a.Length0
      invariant 0 <= x <= a.Length0
      invariant forall i, j :: 0 <= i < a.Length0 && 0 <= j < a.Length1 ==>
                  a[i, j] == if i < x then FillNaN(old(a[i, j])) else old(a[i, j])
    {
      var y := 0;
      while y < a.Length1
        invariant 0 <= y <= a.Length1
        invariant forall i, j :: 0 <= i < a.Length0 && 0 <= j < a.Length1 ==>
                    a[i, j] == if i < x || (i == x && j < y) then FillNaN(old(a[i, j])) else old(a[i, j])
      {
        if a[x, y].None? {
          a[x, y] := Some(Infinite);
        }
        y := y + 1;
      }
      x := x + 1;
    }
  }
}
