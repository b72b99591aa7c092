/**
 * The walled-cell grid (tools.py): a cell holds four wall flags, and a maze is
 * a list of rows of cells that the algorithms index as maze[y][x].
 */
module Grid {
  import opened Wrappers

  /** A grid position (y, x): y picks the row, x the cell within the row. */
  type Pos = (int, int)

  /** The four walls of a cell, the attribute names of a `Cell`. */
  datatype Direction = Top | Bottom | Left | Right

  /** The value of a cell's four flags; true means the wall is present. */
  datatype Walls = Walls(top: bool, bottom: bool, left: bool, right: bool) {
    /** The flag of wall `d`: the fixed-field replacement of reading `cell.__dict__[d]`. */
    function Get(d: Direction): bool {
      match d
      case Top => top
      case Bottom => bottom
      case Left => left
      case Right => right
    }

    /** These walls with wall `d` set to `present`. */
    function With(d: Direction, present: bool): (w: Walls)
      ensures w.Get(d) == present
      ensures forall e :: e != d ==> w.Get(e) == Get(e)
    {
      match d
      case Top => this.(top := present)
      case Bottom => this.(bottom := present)
      case Left => this.(left := present)
      case Right => this.(right := present)
    }
  }

  /** A cell with every wall present, as `Cell()` builds it. */
  const Closed := Walls(true, true, true, true)
  /** A cell with every wall removed. */
  const Opened := Walls(false, false, false, false)

  /** Two wall values with the same four flags are the same value. */
  lemma WallsExt(a: Walls, b: Walls)
    requires forall d :: a.Get(d) == b.Get(d)
    ensures a == b
  {
    assert a.Get(Top) == b.Get(Top) && a.Get(Bottom) == b.Get(Bottom);
    assert a.Get(Left) == b.Get(Left) && a.Get(Right) == b.Get(Right);
  }

  /**
   * `remove_border` on values: the wall named by `name` is cleared; a name
   * that is not one of the four (Python `None`, any other string) clears nothing.
   */
  function Removed(w: Walls, name: Option<Direction>): (r: Walls)
    ensures forall d :: r.Get(d) == (w.Get(d) && name != Some(d))
  {
    if name.Some? then w.With(name.value, false) else w
  }

  /** `add_border` on values: the wall named by `name` is set, the others kept. */
  function Added(w: Walls, name: Option<Direction>): (r: Walls)
    ensures forall d :: r.Get(d) == (w.Get(d) || name == Some(d))
  {
    if name.Some? then w.With(name.value, true) else w
  }

  /** Removing a wall twice is removing it once. */
  lemma RemovedIdempotent(w: Walls, name: Option<Direction>)
    ensures Removed(Removed(w, name), name) == Removed(w, name)
  {
    WallsExt(Removed(Removed(w, name), name), Removed(w, name));
  }

  /** Adding a wall twice is adding it once. */
  lemma AddedIdempotent(w: Walls, name: Option<Direction>)
    ensures Added(Added(w, name), name) == Added(w, name)
  {
    WallsExt(Added(Added(w, name), name), Added(w, name));
  }

  /** Adding back a wall that was present and then removed restores the cell. */
  lemma AddedAfterRemoved(w: Walls, d: Direction)
    requires w.Get(d)
    ensures Added(Removed(w, Some(d)), Some(d)) == w
  {
    WallsExt(Added(Removed(w, Some(d)), Some(d)), w);
  }

  /** A cell of the maze; the source updates its four flags in place. */
  class Cell {
    var top: bool
    var bottom: bool
    var left: bool
    var right: bool

    function View(): Walls
      reads this
    {
      Walls(top, bottom, left, right)
    }

    /** Every flag defaults to a present wall. */
    constructor (top: bool := true, bottom: bool := true, left: bool := true, right: bool := true)
      ensures View() == Walls(top, bottom, left, right)
    {
      this.top := top;
      this.bottom := bottom;
      this.left := left;
      this.right := right;
    }
  }

  method RemoveAllBorders(cell: Cell)
    modifies cell
    ensures cell.View() == Opened
  {
    cell.top := false;
    cell.bottom := false;
    cell.left := false;
    cell.right := false;
  }

  method AddAllBorders(cell: Cell)
    modifies cell
    ensures cell.View() == Closed
  {
    cell.top := true;
    cell.bottom := true;
    cell.left := true;
    cell.right := true;
  }

  method AddBorder(cell: Cell, name: Option<Direction>)
    modifies cell
    ensures cell.View() == Added(old(cell.View()), name)
  {
    if name == Some(Top) {
      cell.top := true;
    }
    if name == Some(Bottom) {
      cell.bottom := true;
    }
    if name == Some(Left) {
      cell.left := true;
    }
    if name == Some(Right) {
      cell.right := true;
    }
    WallsExt(cell.View(), Added(old(cell.View()), name));
  }

  method RemoveBorder(cell: Cell, name: Option<Direction>)
    modifies cell
    ensures cell.View() == Removed(old(cell.View()), name)
  {
    if name == Some(Top) {
      cell.top := false;
    }
    if name == Some(Bottom) {
      cell.bottom := false;
    }
    if name == Some(Left) {
      cell.left := false;
    }
    if name == Some(Right) {
      cell.right := false;
    }
    WallsExt(cell.View(), Removed(old(cell.View()), name));
  }

  /** A maze: `cols` rows, each a list of cells. */
  type Matrix = seq<seq<Cell>>

  /** Does `p` index an element of the nested list `m`? */
  predicate InMatrix<T>(m: seq<seq<T>>, p: Pos) {
    0 <= p.0 < |m| && 0 <= p.1 < |m[p.0]|
  }

  /** `m` has `cols` rows of `rows` elements each. */
  predicate Rectangular<T>(m: seq<seq<T>>, cols: int, rows: int) {
    |m| == cols && forall y :: 0 <= y < |m| ==> |m[y]| == rows
  }

  /** No cell object sits at two positions of the maze. */
  ghost predicate Distinct(m: Matrix) {
    forall y1, x1, y2, x2 ::
      0 <= y1 < |m| && 0 <= x1 < |m[y1]| && 0 <= y2 < |m| && 0 <= x2 < |m[y2]| && (y1 != y2 || x1 != x2) ==>
        m[y1][x1] != m[y2][x2]
  }

  ghost function Cells(m: Matrix): set<Cell> {
    set y, x | 0 <= y < |m| && 0 <= x < |m[y]| :: m[y][x]
  }

  /** The wall flags of every cell of the maze, position by position. */
  ghost function View(m: Matrix): (g: WallGrid)
    reads Cells(m)
    ensures |g| == |m| && forall y :: 0 <= y < |m| ==> |g[y]| == |m[y]|
    ensures forall y, x :: 0 <= y < |m| && 0 <= x < |m[y]| ==> g[y][x] == m[y][x].View()
  {
    seq(|m|, y requires 0 <= y < |m| reads Cells(m) =>
      seq(|m[y]|, x requires 0 <= x < |m[y]| reads Cells(m) => m[y][x].View()))
  }

  /** The flags of a whole maze, row by row. */
  type WallGrid = seq<seq<Walls>>

  function At(g: WallGrid, p: Pos): Walls
    requires InMatrix(g, p)
  {
    g[p.0][p.1]
  }

  /** `g` with the cell at `p` replaced by `w`. */
  function Put(g: WallGrid, p: Pos, w: Walls): (r: WallGrid)
    requires InMatrix(g, p)
    ensures |r| == |g| && forall y :: 0 <= y < |g| ==> |r[y]| == |g[y]|
    ensures forall q :: InMatrix(g, q) ==> At(r, q) == if q == p then w else At(g, q)
  {
    g[p.0 := g[p.0][p.1 := w]]
  }

  /** Two wall grids with the same shape and the same cells are equal. */
  lemma GridExt(a: WallGrid, b: WallGrid)
    requires |a| == |b| && forall y :: 0 <= y < |a| ==> |a[y]| == |b[y]|
    requires forall y, x :: 0 <= y < |a| && 0 <= x < |a[y]| ==> a[y][x] == b[y][x]
    ensures a == b
  {
    forall y | 0 <= y < |a|
      ensures a[y] == b[y]
    {
      assert a[y] == b[y];
    }
  }

  /** The length of `range(n)`: a negative count gives an empty range. */
  function RangeLength(n: int): (k: nat)
    ensures n >= 0 ==> k == n
    ensures n < 0 ==> k == 0
  {
    if n < 0 then 0 else n
  }

  /**
   * `create_empty_maze`: `cols` rows of `rows` fresh, fully walled cells; a
   * negative count gives no rows, or rows without cells.
   */
  method CreateEmptyMaze(cols: int, rows: int) returns (m: Matrix)
    ensures Rectangular(m, RangeLength(cols), RangeLength(rows)) && Distinct(m)
    ensures forall y, x :: 0 <= y < cols && 0 <= x < rows ==> fresh(m[y][x]) && m[y][x].View() == Closed
  {
    m := [];
    var y := 0;
    while y < cols
      invariant 0 <= y <= RangeLength(cols) && Rectangular(m, y, RangeLength(rows)) && Distinct(m)
      invariant forall i, j :: 0 <= i < y && 0 <= j < rows ==> fresh(m[i][j]) && m[i][j].View() == Closed
    {
      var row: seq<Cell> := [];
      var x := 0;
      while x < rows
        invariant 0 <= x <= RangeLength(rows) && |row| == x
        invariant forall j :: 0 <= j < x ==> fresh(row[j]) && row[j].View() == Closed && row[j] !in Cells(m)
        invariant forall j, k :: 0 <= j < k < x ==> row[j] != row[k]
        invariant forall i, j :: 0 <= i < y && 0 <= j < rows ==> fresh(m[i][j]) && m[i][j].View() == Closed
      {
        var cell := new Cell();
        row := row + [cell];
        x := x + 1;
      }
      m := m + [row];
      y := y + 1;
    }
  }

  /**
   * `deep_copy`: a fresh maze with the flags of `m`. The width is taken from
   * the first row, so `m` must have a row and no row may be shorter than it.
   */
  method DeepCopy(m: Matrix) returns (c: Matrix)
    requires |m| > 0 && forall y :: 0 <= y < |m| ==> |m[y]| >= |m[0]|
    ensures Rectangular(c, |m|, |m[0]|) && Distinct(c)
    ensures forall y, x :: 0 <= y < |m| && 0 <= x < |m[0]| ==> fresh(c[y][x]) && c[y][x].View() == m[y][x].View()
  {
    var cols, rows := |m|, |m[0]|;
    c := [];
    var y := 0;
    while y < cols
      invariant 0 <= y <= cols && Rectangular(c, y, rows) && Distinct(c)
      invariant forall i, j :: 0 <= i < y && 0 <= j < rows ==> fresh(c[i][j]) && c[i][j].View() == m[i][j].View()
    {
      var row: seq<Cell> := [];
      var x := 0;
      while x < rows
        invariant 0 <= x <= rows && |row| == x
        invariant forall j :: 0 <= j < x ==> fresh(row[j]) && row[j].View() == m[y][j].View() && row[j] !in Cells(c)
        invariant forall j, k :: 0 <= j < k < x ==> row[j] != row[k]
        invariant forall i, j :: 0 <= i < y && 0 <= j < rows ==> fresh(c[i][j]) && c[i][j].View() == m[i][j].View()
      {
        var cell := m[y][x];
        var newCell := new Cell(cell.top, cell.bottom, cell.left, cell.right);
        row := row + [newCell];
        x := x + 1;
      }
      c := c + [row];
      y := y + 1;
    }
  }
}
