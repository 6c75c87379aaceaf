/** Boolean matrices as the engine sees them: the numpy arrays it receives,
    copies, scans and reshapes, and their value view as sequences of rows. */
module Matrix {

  /** A cell coordinate (row, column); the engine's coordinate tuples. */
  datatype Coord = Coord(row: int, col: int)

  /** A grid value: a sequence of rows, true = alive. */
  type Grid = seq<seq<bool>>

  function Rows(g: Grid): nat { |g| }

  function Cols(g: Grid): nat { if |g| == 0 then 0 else |g[0]| }

  /** Every row has the same length: g is a Rows(g) x Cols(g) matrix. */
  predicate IsMatrix(g: Grid) {
    forall i :: 0 <= i < |g| ==> |g[i]| == Cols(g)
  }

  /** g is a matrix of exactly the given shape. */
  predicate HasShape(g: Grid, rows: nat, cols: nat) {
    |g| == rows && forall i :: 0 <= i < |g| ==> |g[i]| == cols
  }

  predicate InBounds(g: Grid, q: Coord) {
    0 <= q.row < |g| && 0 <= q.col < |g[q.row]|
  }

  predicate Live(g: Grid, q: Coord)
    requires InBounds(g, q)
  {
    g[q.row][q.col]
  }

  /** No cell of g is alive (the negation of `m.any()`). */
  predicate AllDead(g: Grid) {
    forall i, j :: 0 <= i < |g| && 0 <= j < |g[i]| ==> !g[i][j]
  }

  /** `m.any()`: some cell of g is alive. */
  predicate AnyAlive(g: Grid)
    ensures AnyAlive(g) <==> !AllDead(g)
  {
    exists i, j | 0 <= i < |g| && 0 <= j < |g[i]| :: g[i][j]
  }

  predicate Distinct<T(==)>(s: seq<T>) {
    forall a, b :: 0 <= a < b < |s| ==> s[a] != s[b]
  }

  lemma DistinctConcat<T>(s: seq<T>, t: seq<T>)
    requires Distinct(s) && Distinct(t)
    requires forall x :: x in s ==> x !in t
    ensures Distinct(s + t)
  {
    forall a, b | 0 <= a < b < |s + t| ensures (s + t)[a] != (s + t)[b] {
      if b < |s| {
        assert (s + t)[a] == s[a] && (s + t)[b] == s[b];
      } else if a < |s| {
        assert (s + t)[a] == s[a] && s[a] in s;
        assert (s + t)[b] == t[b - |s|] && t[b - |s|] in t;
      } else {
        assert (s + t)[a] == t[a - |s|] && (s + t)[b] == t[b - |s|];
      }
    }
  }

  lemma DistinctCons<T>(x: T, s: seq<T>)
    requires Distinct(s) && x !in s
    ensures Distinct([x] + s)
  {
    forall a, b | 0 <= a < b < |[x] + s| ensures ([x] + s)[a] != ([x] + s)[b] {
      if a == 0 {
        assert ([x] + s)[b] == s[b - 1];
      } else {
        assert ([x] + s)[a] == s[a - 1] && ([x] + s)[b] == s[b - 1];
      }
    }
  }

  lemma DistinctSnoc<T>(s: seq<T>, x: T)
    requires Distinct(s) && x !in s
    ensures Distinct(s + [x])
  {
    forall a, b | 0 <= a < b < |s + [x]| ensures (s + [x])[a] != (s + [x])[b] {
      if b == |s| {
        assert (s + [x])[a] == s[a];
      } else {
        assert (s + [x])[a] == s[a] && (s + [x])[b] == s[b];
      }
    }
  }

  /** The content of a two-dimensional array, row by row. */
  function Cells(a: array2<bool>): (g: Grid)
    reads a
    ensures HasShape(g, a.Length0, a.Length1)
    ensures IsMatrix(g) && Rows(g) == a.Length0 && (a.Length0 > 0 ==> Cols(g) == a.Length1)
    ensures forall i, j :: 0 <= i < a.Length0 && 0 <= j < a.Length1 ==> g[i][j] == a[i, j]
  {
    seq(a.Length0, i requires 0 <= i < a.Length0 reads a =>
      seq(a.Length1, j requires 0 <= j < a.Length1 reads a => a[i, j]))
  }

  /** Two grids of one shape that agree cell by cell are the same grid. */
  lemma {:induction false} SameCells(g: Grid, h: Grid, rows: nat, cols: nat)
    requires HasShape(g, rows, cols) && HasShape(h, rows, cols)
    requires forall i, j :: 0 <= i < rows && 0 <= j < cols ==> g[i][j] == h[i][j]
    ensures g == h
  {
    forall i | 0 <= i < rows
      ensures g[i] == h[i]
    {
      assert forall j :: 0 <= j < cols ==> g[i][j] == h[i][j];
    }
  }

  /** `np.copy(a)`: a fresh array with the same shape and content. */
  method CopyArray(a: array2<bool>) returns (b: array2<bool>)
    ensures fresh(b)
    ensures b.Length0 == a.Length0 && b.Length1 == a.Length1
    ensures Cells(b) == Cells(a)
  {
    b := new bool[a.Length0, a.Length1]((i, j) reads a requires 0 <= i < a.Length0 && 0 <= j < a.Length1 => a[i, j]);
    SameCells(Cells(b), Cells(a), a.Length0, a.Length1);
  }

  /** `np.array(state).reshape(shape)`: a fresh array holding the grid g. */
  method FromGrid(g: Grid, rows: nat, cols: nat) returns (b: array2<bool>)
    requires HasShape(g, rows, cols)
    ensures fresh(b)
    ensures b.Length0 == rows && b.Length1 == cols
    ensures Cells(b) == g
  {
    b := new bool[rows, cols]((i, j) requires 0 <= i < rows && 0 <= j < cols => g[i][j]);
    SameCells(Cells(b), g, rows, cols);
  }

  /** The live cells of row i from column j on, left to right. */
  function LiveInRow(g: Grid, i: nat, j: nat): (r: seq<Coord>)
    requires i < |g|
    ensures forall q :: q in r <==> q.row == i && j <= q.col < |g[i]| && g[i][q.col]
    ensures forall a, b :: 0 <= a < b < |r| ==> r[a].col < r[b].col
    decreases |g[i]| - j
  {
    if j >= |g[i]| then []
    else if g[i][j] then [Coord(i, j)] + LiveInRow(g, i, j + 1)
    else LiveInRow(g, i, j + 1)
  }

  /** The live cells of rows i.. in row-major order. */
  function LiveFromRow(g: Grid, i: nat): (r: seq<Coord>)
    ensures forall q :: q in r <==> i <= q.row && InBounds(g, q) && g[q.row][q.col]
    ensures Distinct(r)
    decreases |g| - i
  {
    if i >= |g| then []
    else
      var here := LiveInRow(g, i, 0);
      var rest := LiveFromRow(g, i + 1);
      assert forall a, b :: 0 <= a < |here| && 0 <= b < |rest| ==> here[a].row < rest[b].row by {
        forall a, b | 0 <= a < |here| && 0 <= b < |rest| ensures here[a].row < rest[b].row {
          assert here[a] in here;
          assert rest[b] in rest;
        }
      }
      here + rest
  }

  /** `np.argwhere(m)`: the coordinates of the live cells, each exactly once. */
  function LiveCoords(g: Grid): (r: seq<Coord>)
    ensures forall q :: q in r <==> InBounds(g, q) && g[q.row][q.col]
    ensures Distinct(r)
  {
    LiveFromRow(g, 0)
  }
}
