/** Moore-neighbourhood enumeration with bounds clipping, and the count of
    live neighbours built on it. */
module Neighbourhood {
  import opened Matrix

  /** Reference definition: q is one of the (up to 8) cells around p that lie
      inside a rows x cols board. */
  predicate IsNeighbour(p: Coord, q: Coord, rows: int, cols: int) {
    && q != p
    && 0 <= q.row < rows && 0 <= q.col < cols
    && -1 <= q.row - p.row <= 1 && -1 <= q.col - p.col <= 1
  }

  /** The inner `for j in range(-1, 2)` of the comprehension for a fixed row
      offset i, resumed at column offset j: the on-board cells (p.row + i,
      p.col + j'), j' = j .. 1, the centre left out, left to right. */
  function RowNeighbours(p: Coord, rows: int, cols: int, i: int, j: int): (r: seq<Coord>)
    requires -1 <= i <= 1 && -1 <= j <= 2
    ensures |r| <= 2 - j - (if i == 0 && j <= 0 then 1 else 0)
    ensures forall q :: q in r ==> IsNeighbour(p, q, rows, cols)
    decreases 2 - j
  {
    if j == 2 then []
    else
      var rest := RowNeighbours(p, rows, cols, i, j + 1);
      if (i != 0 || j != 0) && 0 <= p.row + i < rows && 0 <= p.col + j < cols
      then [Coord(p.row + i, p.col + j)] + rest
      else rest
  }

  /** The outer `for i in range(-1, 2)`, resumed at row offset i: the rows of
      the neighbourhood from offset i down, one after the other. */
  function NeighboursFrom(p: Coord, rows: int, cols: int, i: int): (r: seq<Coord>)
    requires -1 <= i <= 2
    ensures |r| <= 3 * (2 - i) - (if i <= 0 then 1 else 0)
    ensures forall q :: q in r ==> IsNeighbour(p, q, rows, cols)
    decreases 2 - i
  {
    if i == 2 then []
    else RowNeighbours(p, rows, cols, i, -1) + NeighboursFrom(p, rows, cols, i + 1)
  }

  /** `get_neigh_coordinates(point, matrix_shape)`: at most 8 cells, every one
      an on-board neighbour of p. */
  function GetNeighCoordinates(p: Coord, rows: int, cols: int): (r: seq<Coord>)
    ensures |r| <= 8
    ensures forall q :: q in r ==> IsNeighbour(p, q, rows, cols)
  {
    NeighboursFrom(p, rows, cols, -1)
  }

  lemma {:induction false} RowNeighboursIff(p: Coord, q: Coord, rows: int, cols: int, i: int, j: int)
    requires -1 <= i <= 1 && -1 <= j <= 2
    ensures q in RowNeighbours(p, rows, cols, i, j) <==>
              IsNeighbour(p, q, rows, cols) && q.row == p.row + i && q.col - p.col >= j
    decreases 2 - j
  {
    if j < 2 {
      RowNeighboursIff(p, q, rows, cols, i, j + 1);
    }
  }

  lemma {:induction false} NeighboursFromIff(p: Coord, q: Coord, rows: int, cols: int, i: int)
    requires -1 <= i <= 2
    ensures q in NeighboursFrom(p, rows, cols, i) <==> IsNeighbour(p, q, rows, cols) && q.row - p.row >= i
    decreases 2 - i
  {
    if i < 2 {
      RowNeighboursIff(p, q, rows, cols, i, -1);
      NeighboursFromIff(p, q, rows, cols, i + 1);
    }
  }

  /** A cell is enumerated exactly when it is an on-board neighbour of p. */
  lemma NeighbourIff(p: Coord, q: Coord, rows: int, cols: int)
    ensures q in GetNeighCoordinates(p, rows, cols) <==> IsNeighbour(p, q, rows, cols)
  {
    NeighboursFromIff(p, q, rows, cols, -1);
  }

  /** For two on-board cells, q is a neighbour of p exactly when p is one of q. */
  lemma NeighbourSymmetric(p: Coord, q: Coord, rows: int, cols: int)
    requires 0 <= p.row < rows && 0 <= p.col < cols
    requires 0 <= q.row < rows && 0 <= q.col < cols
    ensures q in GetNeighCoordinates(p, rows, cols) <==> p in GetNeighCoordinates(q, rows, cols)
  {
    NeighbourIff(p, q, rows, cols);
    NeighbourIff(q, p, rows, cols);
  }

  /** Within one row of the neighbourhood the columns strictly increase. */
  lemma {:induction false} RowNeighboursSorted(p: Coord, rows: int, cols: int, i: int, j: int)
    requires -1 <= i <= 1 && -1 <= j <= 2
    ensures forall a, b :: 0 <= a < b < |RowNeighbours(p, rows, cols, i, j)| ==>
              RowNeighbours(p, rows, cols, i, j)[a].col < RowNeighbours(p, rows, cols, i, j)[b].col
    decreases 2 - j
  {
    if j < 2 {
      RowNeighboursSorted(p, rows, cols, i, j + 1);
      var rest := RowNeighbours(p, rows, cols, i, j + 1);
      forall q | q in rest ensures q.col - p.col >= j + 1 {
        RowNeighboursIff(p, q, rows, cols, i, j + 1);
      }
    }
  }

  lemma {:induction false} NeighboursFromDistinct(p: Coord, rows: int, cols: int, i: int)
    requires -1 <= i <= 2
    ensures Distinct(NeighboursFrom(p, rows, cols, i))
    decreases 2 - i
  {
    if i < 2 {
      var here := RowNeighbours(p, rows, cols, i, -1);
      var rest := NeighboursFrom(p, rows, cols, i + 1);
      RowNeighboursSorted(p, rows, cols, i, -1);
      NeighboursFromDistinct(p, rows, cols, i + 1);
      forall q | q in here ensures q !in rest {
        RowNeighboursIff(p, q, rows, cols, i, -1);
        NeighboursFromIff(p, q, rows, cols, i + 1);
      }
      DistinctConcat(here, rest);
    }
  }

  /** No cell is enumerated twice. */
  lemma NeighboursDistinct(p: Coord, rows: int, cols: int)
    ensures Distinct(GetNeighCoordinates(p, rows, cols))
  {
    NeighboursFromDistinct(p, rows, cols, -1);
  }

  lemma {:induction false} RowNeighboursInterior(p: Coord, rows: int, cols: int, i: int, j: int)
    requires 1 <= p.row < rows - 1 && 1 <= p.col < cols - 1
    requires -1 <= i <= 1 && -1 <= j <= 2
    ensures |RowNeighbours(p, rows, cols, i, j)| == 2 - j - (if i == 0 && j <= 0 then 1 else 0)
    decreases 2 - j
  {
    if j < 2 {
      RowNeighboursInterior(p, rows, cols, i, j + 1);
    }
  }

  lemma {:induction false} NeighboursFromInterior(p: Coord, rows: int, cols: int, i: int)
    requires 1 <= p.row < rows - 1 && 1 <= p.col < cols - 1
    requires -1 <= i <= 2
    ensures |NeighboursFrom(p, rows, cols, i)| == 3 * (2 - i) - (if i <= 0 then 1 else 0)
    decreases 2 - i
  {
    if i < 2 {
      RowNeighboursInterior(p, rows, cols, i, -1);
      NeighboursFromInterior(p, rows, cols, i + 1);
    }
  }

  /** A cell away from the border has all 8 neighbours. */
  lemma InteriorHasEight(p: Coord, rows: int, cols: int)
    requires 1 <= p.row < rows - 1 && 1 <= p.col < cols - 1
    ensures |GetNeighCoordinates(p, rows, cols)| == 8
  {
    NeighboursFromInterior(p, rows, cols, -1);
  }

  /** How many of the cells cs are alive in g (`sum(matrix[c] for c in cs)`). */
  function CountLive(g: Grid, cs: seq<Coord>): (n: nat)
    requires forall q :: q in cs ==> InBounds(g, q)
    ensures n <= |cs|
  {
    if cs == [] then 0
    else
      var c := cs[0];
      assert c in cs && InBounds(g, c);
      (if g[c.row][c.col] then 1 else 0) + CountLive(g, cs[1..])
  }

  lemma {:induction false} CountLiveZero(g: Grid, cs: seq<Coord>)
    requires forall q :: q in cs ==> InBounds(g, q)
    ensures CountLive(g, cs) == 0 <==> forall q :: q in cs ==> !Live(g, q)
  {
    if cs != [] {
      assert cs[0] in cs;
      CountLiveZero(g, cs[1..]);
      assert forall q :: q in cs <==> q == cs[0] || q in cs[1..];
    }
  }

  lemma {:induction false} CountLiveConcat(g: Grid, s: seq<Coord>, t: seq<Coord>)
    requires forall q :: q in s ==> InBounds(g, q)
    requires forall q :: q in t ==> InBounds(g, q)
    ensures CountLive(g, s + t) == CountLive(g, s) + CountLive(g, t)
  {
    if s != [] {
      assert (s + t)[0] == s[0] && (s + t)[1..] == s[1..] + t;
      assert s[0] in s;
      CountLiveConcat(g, s[1..], t);
    } else {
      assert s + t == t;
    }
  }

  /** The count taken one row of the neighbourhood at a time. */
  lemma CountByRows(p: Coord, g: Grid)
    requires IsMatrix(g)
    ensures CountNeighs(p, g) ==
              CountLive(g, RowNeighbours(p, Rows(g), Cols(g), -1, -1)) +
              CountLive(g, RowNeighbours(p, Rows(g), Cols(g), 0, -1)) +
              CountLive(g, RowNeighbours(p, Rows(g), Cols(g), 1, -1))
  {
    var rows, cols := Rows(g), Cols(g);
    var above, level, below := RowNeighbours(p, rows, cols, -1, -1),
                               RowNeighbours(p, rows, cols, 0, -1),
                               RowNeighbours(p, rows, cols, 1, -1);
    assert NeighboursFrom(p, rows, cols, 2) == [];
    assert NeighboursFrom(p, rows, cols, 1) == below + [];
    assert below + [] == below;
    assert NeighboursFrom(p, rows, cols, 0) == level + below;
    assert GetNeighCoordinates(p, rows, cols) == above + (level + below);
    CountLiveConcat(g, above, level + below);
    CountLiveConcat(g, level, below);
  }

  /** The live cells among cs, as a set. */
  ghost function LiveAmong(g: Grid, cs: seq<Coord>): set<Coord>
  {
    set q | q in cs && InBounds(g, q) && g[q.row][q.col]
  }

  lemma {:induction false} CountLiveIsCardinality(g: Grid, cs: seq<Coord>)
    requires forall q :: q in cs ==> InBounds(g, q)
    requires Distinct(cs)
    ensures CountLive(g, cs) == |LiveAmong(g, cs)|
  {
    if cs != [] {
      var tail := cs[1..];
      assert cs[0] in cs;
      assert Distinct(tail);
      CountLiveIsCardinality(g, tail);
      assert cs[0] !in tail;
      if g[cs[0].row][cs[0].col] {
        assert LiveAmong(g, cs) == {cs[0]} + LiveAmong(g, tail);
      } else {
        assert LiveAmong(g, cs) == LiveAmong(g, tail);
      }
    }
  }

  /** `count_neighs(point, matrix)`: the number of live neighbours, never above 8. */
  function CountNeighs(p: Coord, g: Grid): (n: nat)
    requires IsMatrix(g)
    ensures n <= 8
  {
    CountLive(g, GetNeighCoordinates(p, Rows(g), Cols(g)))
  }

  /** The count is zero exactly when no neighbour is alive. */
  lemma CountNeighsZero(p: Coord, g: Grid)
    requires IsMatrix(g)
    ensures CountNeighs(p, g) == 0 <==> forall q :: IsNeighbour(p, q, Rows(g), Cols(g)) ==> !g[q.row][q.col]
  {
    var cs := GetNeighCoordinates(p, Rows(g), Cols(g));
    CountLiveZero(g, cs);
    forall q ensures q in cs <==> IsNeighbour(p, q, Rows(g), Cols(g)) {
      NeighbourIff(p, q, Rows(g), Cols(g));
    }
  }

  /** The live cells of the Moore neighbourhood of p on g's board. */
  ghost function LiveNeighbours(p: Coord, g: Grid): set<Coord>
    requires IsMatrix(g)
  {
    set r, c | p.row - 1 <= r <= p.row + 1 && p.col - 1 <= c <= p.col + 1
                 && IsNeighbour(p, Coord(r, c), Rows(g), Cols(g)) && g[r][c] :: Coord(r, c)
  }

  /** The count is the number of live cells in the Moore neighbourhood. */
  lemma CountIsLiveNeighbours(p: Coord, g: Grid)
    requires IsMatrix(g)
    ensures CountNeighs(p, g) == |LiveNeighbours(p, g)|
  {
    var cs := GetNeighCoordinates(p, Rows(g), Cols(g));
    NeighboursDistinct(p, Rows(g), Cols(g));
    CountLiveIsCardinality(g, cs);
    forall q ensures q in LiveAmong(g, cs) <==> q in LiveNeighbours(p, g) {
      NeighbourIff(p, q, Rows(g), Cols(g));
    }
    assert LiveAmong(g, cs) == LiveNeighbours(p, g);
  }
}
