/** Conway's B3/S23 rule: the two lookup tables the engine indexes by the
    live-neighbour count, the dense one-generation step applied to every cell,
    and generation n of a board. */
module Rules {
  import opened Matrix
  import opened Neighbourhood

  /** `is_alive[n]`: does a live cell with n live neighbours survive? */
  const IsAliveTable: seq<bool> := [false, false, true, true, false, false, false, false, false]

  /** `revives[n]`: is a dead cell with n live neighbours born? */
  const RevivesTable: seq<bool> := [false, false, false, true, false, false, false, false, false]

  /** Reference rule: a live cell survives with 2 or 3 live neighbours, a dead
      cell is born with exactly 3. */
  predicate NextCell(alive: bool, n: nat) {
    if alive then n == 2 || n == 3 else n == 3
  }

  /** The 9-entry tables hold exactly the rule for every possible count. */
  lemma TablesFollowRule(n: nat)
    requires n <= 8
    ensures |IsAliveTable| == 9 && |RevivesTable| == 9
    ensures IsAliveTable[n] <==> NextCell(true, n)
    ensures RevivesTable[n] <==> NextCell(false, n)
  {
  }

  /** The state of cell c in the next generation of g. */
  predicate NextState(g: Grid, c: Coord)
    requires IsMatrix(g) && InBounds(g, c)
  {
    NextCell(g[c.row][c.col], CountNeighs(c, g))
  }

  /** One generation, the rule evaluated on every cell of the board. */
  function Step(g: Grid): (r: Grid)
    requires IsMatrix(g)
    ensures IsMatrix(r) && Rows(r) == Rows(g) && Cols(r) == Cols(g)
    ensures forall i, j :: 0 <= i < Rows(g) && 0 <= j < Cols(g) ==> r[i][j] == NextState(g, Coord(i, j))
  {
    seq(Rows(g), i requires 0 <= i < Rows(g) =>
      seq(Cols(g), j requires 0 <= j < Cols(g) => NextState(g, Coord(i, j))))
  }

  /** Generation n of the board g (generation 0 is g itself). */
  function Iterate(g: Grid, n: nat): (r: Grid)
    requires IsMatrix(g)
    ensures IsMatrix(r) && Rows(r) == Rows(g) && Cols(r) == Cols(g)
  {
    if n == 0 then g else Step(Iterate(g, n - 1))
  }

  /** A dead cell with no live neighbour stays dead. */
  lemma IsolatedDeadStaysDead(g: Grid, c: Coord)
    requires IsMatrix(g) && InBounds(g, c) && !g[c.row][c.col]
    requires forall q :: IsNeighbour(c, q, Rows(g), Cols(g)) ==> !g[q.row][q.col]
    ensures !Step(g)[c.row][c.col]
  {
    CountNeighsZero(c, g);
  }

  /** The all-dead board is a fixed point of the step. */
  lemma StepAllDead(g: Grid)
    requires IsMatrix(g) && AllDead(g)
    ensures Step(g) == g
  {
    forall i, j | 0 <= i < Rows(g) && 0 <= j < Cols(g)
      ensures Step(g)[i][j] == g[i][j]
    {
      CountNeighsZero(Coord(i, j), g);
    }
    SameCells(Step(g), g, Rows(g), Cols(g));
  }

  /** An all-dead board stays all dead for any number of generations. */
  lemma {:induction false} IterateAllDead(g: Grid, n: nat)
    requires IsMatrix(g) && AllDead(g)
    ensures Iterate(g, n) == g
  {
    if n > 0 {
      IterateAllDead(g, n - 1);
      StepAllDead(g);
    }
  }

  /** Running a generations and then b more is running a + b generations. */
  lemma {:induction false} IterateAdd(g: Grid, a: nat, b: nat)
    requires IsMatrix(g)
    ensures Iterate(Iterate(g, a), b) == Iterate(g, a + b)
  {
    if b > 0 {
      IterateAdd(g, a, b - 1);
    }
  }

  /** Once generation k is all dead, every later generation equals it. */
  lemma DeadFromThenOn(g: Grid, k: nat, n: nat)
    requires IsMatrix(g) && k <= n && AllDead(Iterate(g, k))
    ensures Iterate(g, n) == Iterate(g, k)
  {
    StepAllDead(Iterate(g, k));
    FixedFromThenOn(g, k, n);
  }

  /** Once generation k is a fixed point, every later generation equals it. */
  lemma {:induction false} FixedFromThenOn(g: Grid, k: nat, n: nat)
    requires IsMatrix(g) && k <= n && Step(Iterate(g, k)) == Iterate(g, k)
    ensures Iterate(g, n) == Iterate(g, k)
    decreases n - k
  {
    if n > k {
      FixedFromThenOn(g, k, n - 1);
    }
  }

  /** If generation s + p repeats generation s, so does generation s + t * p. */
  lemma {:induction false} WholePeriods(g: Grid, s: nat, p: nat, t: nat)
    requires IsMatrix(g) && Iterate(g, s + p) == Iterate(g, s)
    ensures Iterate(g, s + t * p) == Iterate(g, s)
  {
    if t > 0 {
      var m := s + (t - 1) * p;
      MulSucc(t, p);
      assert s + t * p == m + p;
      WholePeriods(g, s, p, t - 1);
      IterateAdd(g, m, p);
      IterateAdd(g, s, p);
    }
  }

  lemma MulSucc(t: nat, p: nat)
    requires t > 0
    ensures t * p == (t - 1) * p + p
  {
  }

  /** If generation s + p repeats generation s (p > 0), generation n >= s is
      generation s + (n - s) mod p. */
  lemma IterateInCycle(g: Grid, s: nat, p: nat, n: nat)
    requires IsMatrix(g) && p > 0 && s <= n
    requires Iterate(g, s + p) == Iterate(g, s)
    ensures Iterate(g, n) == Iterate(g, s + (n - s) % p)
  {
    var t, r := (n - s) / p, (n - s) % p;
    var m := s + t * p;
    assert n == m + r;
    WholePeriods(g, s, p, t);
    IterateAdd(g, m, r);
    IterateAdd(g, s, r);
  }

  /** A horizontal line of three live cells in the middle row of a 3 x 3 board. */
  const Blinker: Grid := [[false, false, false], [true, true, true], [false, false, false]]

  /** The same line turned vertical. */
  const BlinkerTurned: Grid := [[false, true, false], [false, true, false], [false, true, false]]

  // The live-neighbour count of every cell of the two blinker phases.

  lemma FlatCount00() ensures CountNeighs(Coord(0, 0), Blinker) == 2 { }
  lemma FlatCount01() ensures CountNeighs(Coord(0, 1), Blinker) == 3 { }
  lemma FlatCount02() ensures CountNeighs(Coord(0, 2), Blinker) == 2 { }
  lemma FlatCount10() ensures CountNeighs(Coord(1, 0), Blinker) == 1 { }
  lemma FlatCount11() ensures CountNeighs(Coord(1, 1), Blinker) == 2 {
    CountByRows(Coord(1, 1), Blinker);
  }
  lemma FlatCount12() ensures CountNeighs(Coord(1, 2), Blinker) == 1 { }
  lemma FlatCount20() ensures CountNeighs(Coord(2, 0), Blinker) == 2 { }
  lemma FlatCount21() ensures CountNeighs(Coord(2, 1), Blinker) == 3 { }
  lemma FlatCount22() ensures CountNeighs(Coord(2, 2), Blinker) == 2 { }

  lemma TurnedCount00() ensures CountNeighs(Coord(0, 0), BlinkerTurned) == 2 { }
  lemma TurnedCount01() ensures CountNeighs(Coord(0, 1), BlinkerTurned) == 1 { }
  lemma TurnedCount02() ensures CountNeighs(Coord(0, 2), BlinkerTurned) == 2 { }
  lemma TurnedCount10() ensures CountNeighs(Coord(1, 0), BlinkerTurned) == 3 { }
  lemma TurnedCount11() ensures CountNeighs(Coord(1, 1), BlinkerTurned) == 2 {
    CountByRows(Coord(1, 1), BlinkerTurned);
  }
  lemma TurnedCount12() ensures CountNeighs(Coord(1, 2), BlinkerTurned) == 3 { }
  lemma TurnedCount20() ensures CountNeighs(Coord(2, 0), BlinkerTurned) == 2 { }
  lemma TurnedCount21() ensures CountNeighs(Coord(2, 1), BlinkerTurned) == 1 { }
  lemma TurnedCount22() ensures CountNeighs(Coord(2, 2), BlinkerTurned) == 2 { }

  /** A board is the step of g when every cell holds the rule's verdict for
      the same cell of g. */
  lemma StepIs(g: Grid, h: Grid)
    requires IsMatrix(g) && HasShape(h, Rows(g), Cols(g))
    requires forall i, j :: 0 <= i < Rows(g) && 0 <= j < Cols(g) ==> h[i][j] == NextState(g, Coord(i, j))
    ensures Step(g) == h
  {
    SameCells(Step(g), h, Rows(g), Cols(g));
  }

  /** The flat blinker turns vertical in one step. */
  lemma BlinkerTurns()
    ensures IsMatrix(Blinker) && Step(Blinker) == BlinkerTurned
  {
    forall i, j | 0 <= i < 3 && 0 <= j < 3
      ensures BlinkerTurned[i][j] == NextState(Blinker, Coord(i, j))
    {
      if i == 0 {
        if j == 0 { FlatCount00(); } else if j == 1 { FlatCount01(); } else { FlatCount02(); }
      } else if i == 1 {
        if j == 0 { FlatCount10(); } else if j == 1 { FlatCount11(); } else { FlatCount12(); }
      } else {
        if j == 0 { FlatCount20(); } else if j == 1 { FlatCount21(); } else { FlatCount22(); }
      }
    }
    StepIs(Blinker, BlinkerTurned);
  }

  /** The vertical blinker turns back flat in one step. */
  lemma BlinkerTurnsBack()
    ensures IsMatrix(BlinkerTurned) && Step(BlinkerTurned) == Blinker
  {
    forall i, j | 0 <= i < 3 && 0 <= j < 3
      ensures Blinker[i][j] == NextState(BlinkerTurned, Coord(i, j))
    {
      if i == 0 {
        if j == 0 { TurnedCount00(); } else if j == 1 { TurnedCount01(); } else { TurnedCount02(); }
      } else if i == 1 {
        if j == 0 { TurnedCount10(); } else if j == 1 { TurnedCount11(); } else { TurnedCount12(); }
      } else {
        if j == 0 { TurnedCount20(); } else if j == 1 { TurnedCount21(); } else { TurnedCount22(); }
      }
    }
    StepIs(BlinkerTurned, Blinker);
  }

  /** The blinker alternates between its two phases: period 2, not a fixed point. */
  lemma BlinkerOscillates()
    ensures IsMatrix(Blinker)
    ensures Step(Step(Blinker)) == Blinker && Step(Blinker) != Blinker
  {
    BlinkerTurns();
    BlinkerTurnsBack();
    assert BlinkerTurned[0][1] != Blinker[0][1];
  }
}
