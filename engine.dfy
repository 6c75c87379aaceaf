/** The generation engine: one sparse pass over a copy of the board, written
    in place, and the multi-generation loop with its record of the boards seen
    so far and its repeated-board shortcut. */
module Gol {
  import opened Matrix
  import opened Neighbourhood
  import opened Rules

  /** The cells of cs that are dead in g and not yet in visited, in order
      (the `dead_neighs` comprehension). */
  function DeadUnvisited(g: Grid, cs: seq<Coord>, visited: seq<Coord>): (r: seq<Coord>)
    requires forall q :: q in cs ==> InBounds(g, q)
    ensures forall q :: q in r <==> q in cs && InBounds(g, q) && !g[q.row][q.col] && q !in visited
    ensures Distinct(cs) ==> Distinct(r)
  {
    if cs == [] then []
    else
      var c := cs[0];
      assert c in cs && InBounds(g, c);
      var rest := DeadUnvisited(g, cs[1..], visited);
      assert forall q :: q in cs <==> q == c || q in cs[1..];
      if !g[c.row][c.col] && c !in visited then
        assert Distinct(cs) ==> c !in cs[1..] && Distinct(cs[1..]);
        assert Distinct(cs) ==> Distinct([c] + rest) by {
          if Distinct(cs) {
            DistinctCons(c, rest);
          }
        }
        [c] + rest
      else rest
  }

  /** The array holds the board g, except that every cell of done already
      holds its next state. */
  ghost predicate Agrees(a: array2<bool>, g: Grid, done: set<Coord>)
    reads a
  {
    && HasShape(g, a.Length0, a.Length1) && IsMatrix(g)
    && forall i, j :: 0 <= i < a.Length0 && 0 <= j < a.Length1 ==>
         a[i, j] == if Coord(i, j) in done then NextState(g, Coord(i, j)) else g[i][j]
  }

  /** The first k cells of cs, and every dead neighbour of one, have been written. */
  ghost predicate Closed(g: Grid, cs: seq<Coord>, k: nat, done: set<Coord>)
    requires IsMatrix(g) && k <= |cs|
  {
    forall t :: 0 <= t < k ==> cs[t] in done && NeighboursWritten(g, cs[t], done)
  }

  /** Every dead on-board neighbour of a has been written. */
  ghost predicate NeighboursWritten(g: Grid, a: Coord, done: set<Coord>)
    requires IsMatrix(g)
  {
    forall q ::
      (q in GetNeighCoordinates(a, Rows(g), Cols(g)) && InBounds(g, q) && !g[q.row][q.col])
      ==> q in done
  }

  /** `new_m[coord] = value` with the value the rule gives for that cell. */
  method WriteNext(a: array2<bool>, ghost g: Grid, ghost done: set<Coord>, c: Coord, v: bool)
    requires Agrees(a, g, done) && InBounds(g, c) && v == NextState(g, c)
    modifies a
    ensures Agrees(a, g, done + {c})
  {
    a[c.row, c.col] := v;
  }

  lemma ClosedExtend(g: Grid, cs: seq<Coord>, k: nat, done0: set<Coord>, done: set<Coord>)
    requires IsMatrix(g) && k < |cs| && Closed(g, cs, k, done0) && done0 <= done
    requires cs[k] in done && NeighboursWritten(g, cs[k], done)
    ensures Closed(g, cs, k + 1, done)
  {
    forall t | 0 <= t < k ensures NeighboursWritten(g, cs[t], done) {
      assert NeighboursWritten(g, cs[t], done0);
    }
  }

  /** A live cell is written by the pass. */
  lemma LiveCellWritten(g: Grid, alive: seq<Coord>, done: set<Coord>, c: Coord)
    requires IsMatrix(g) && InBounds(g, c) && g[c.row][c.col]
    requires forall q :: q in alive <==> InBounds(g, q) && g[q.row][q.col]
    requires Closed(g, alive, |alive|, done)
    ensures c in done
  {
    assert c in alive;
    var t :| 0 <= t < |alive| && alive[t] == c;
  }

  /** A dead cell with a live neighbour is written by the pass, as a dead
      neighbour of that live cell. */
  lemma BorderCellWritten(g: Grid, alive: seq<Coord>, done: set<Coord>, c: Coord)
    requires IsMatrix(g) && InBounds(g, c) && !g[c.row][c.col] && CountNeighs(c, g) != 0
    requires forall q :: q in alive <==> InBounds(g, q) && g[q.row][q.col]
    requires Closed(g, alive, |alive|, done)
    ensures c in done
  {
    CountNeighsZero(c, g);
    var q :| IsNeighbour(c, q, Rows(g), Cols(g)) && g[q.row][q.col];
    NeighbourIff(q, c, Rows(g), Cols(g));
    assert q in alive;
    var t :| 0 <= t < |alive| && alive[t] == q;
    assert NeighboursWritten(g, q, done);
  }

  /** A cell the pass has not written is dead with no live neighbour, so the
      rule leaves it as it is. */
  lemma UnwrittenCell(g: Grid, alive: seq<Coord>, done: set<Coord>, c: Coord)
    requires IsMatrix(g) && InBounds(g, c)
    requires forall q :: q in alive <==> InBounds(g, q) && g[q.row][q.col]
    requires Closed(g, alive, |alive|, done)
    ensures c in done || NextState(g, c) == g[c.row][c.col]
    ensures c !in done ==> !g[c.row][c.col] && CountNeighs(c, g) == 0
  {
    if g[c.row][c.col] {
      LiveCellWritten(g, alive, done, c);
    } else if CountNeighs(c, g) != 0 {
      BorderCellWritten(g, alive, done, c);
    }
  }

  /** Once every live cell and every dead neighbour of one has been written,
      the array holds the next generation. */
  lemma ClosedIsStep(a: array2<bool>, g: Grid, alive: seq<Coord>, done: set<Coord>)
    requires Agrees(a, g, done)
    requires forall q :: q in alive <==> InBounds(g, q) && g[q.row][q.col]
    requires Closed(g, alive, |alive|, done)
    ensures Cells(a) == Step(g)
  {
    forall i, j | 0 <= i < a.Length0 && 0 <= j < a.Length1
      ensures a[i, j] == NextState(g, Coord(i, j))
    {
      UnwrittenCell(g, alive, done, Coord(i, j));
    }
    SameCells(Cells(a), Step(g), a.Length0, a.Length1);
  }

  /** One pass of the generation loop: copy the board, then visit every live
      cell and every dead neighbour of a live cell, counting on the old board
      and writing the copy in place. The result is the dense rule applied to
      every cell; the input is left alone. The ghost result is the set of
      cells written: exactly the live cells and the dead cells next to one. */
  method SparseStep(m: array2<bool>) returns (newM: array2<bool>, ghost written: set<Coord>)
    ensures fresh(newM)
    ensures newM.Length0 == m.Length0 && newM.Length1 == m.Length1
    ensures Cells(newM) == Step(Cells(m))
    ensures forall c :: c in written <==> NearLife(Cells(m), c)
  {
    var g := Cells(m);
    newM := CopyArray(m);
    var aliveCoords := LiveCoords(g);
    var visited: seq<Coord> := [];
    // The cells written so far; every one of them holds its next state.
    ghost var done: set<Coord> := {};
    for k := 0 to |aliveCoords|
      invariant Agrees(newM, g, done)
      invariant Closed(g, aliveCoords, k, done)
      invariant forall q :: q in visited ==> q in done
      invariant OnlyNearLife(g, done)
    {
      var a := aliveCoords[k];
      assert a in aliveCoords;
      ghost var done0 := done;
      ghost var visited0 := visited;
      visited, done := VisitLiveCell(newM, g, a, visited, done);
      ClosedExtend(g, aliveCoords, k, done0, done);
      OnlyNearLifeExtend(g, done0, done, a, visited0);
    }
    ClosedIsStep(newM, g, aliveCoords, done);
    WrittenIsNearLife(g, aliveCoords, done);
    written := done;
  }

  /** The cells the pass may write: in bounds, and alive or with a live neighbour. */
  ghost predicate NearLife(g: Grid, c: Coord)
    requires IsMatrix(g)
  {
    InBounds(g, c) && (g[c.row][c.col] || CountNeighs(c, g) != 0)
  }

  /** Every cell of done is near life. */
  ghost predicate OnlyNearLife(g: Grid, done: set<Coord>)
    requires IsMatrix(g)
  {
    forall c :: c in done ==> NearLife(g, c)
  }

  /** Visiting a live cell writes only that cell and dead neighbours of it,
      each of which has that live cell as a neighbour. */
  lemma OnlyNearLifeExtend(g: Grid, done: set<Coord>, newDone: set<Coord>, a: Coord, visited: seq<Coord>)
    requires IsMatrix(g) && InBounds(g, a) && g[a.row][a.col]
    requires forall q :: q in GetNeighCoordinates(a, Rows(g), Cols(g)) ==> InBounds(g, q)
    requires OnlyNearLife(g, done)
    requires forall q :: q in newDone <==>
               q in done || q == a || q in DeadUnvisited(g, GetNeighCoordinates(a, Rows(g), Cols(g)), visited)
    ensures OnlyNearLife(g, newDone)
  {
    var ns := GetNeighCoordinates(a, Rows(g), Cols(g));
    forall c | c in newDone ensures NearLife(g, c) {
      if c != a && c !in done {
        assert c in ns && InBounds(g, c);
        NeighbourIff(a, c, Rows(g), Cols(g));
        CountNeighsZero(c, g);
        assert IsNeighbour(c, a, Rows(g), Cols(g));
      }
    }
  }

  /** After the pass, the written cells are exactly the cells near life. */
  lemma WrittenIsNearLife(g: Grid, alive: seq<Coord>, done: set<Coord>)
    requires IsMatrix(g)
    requires forall q :: q in alive <==> InBounds(g, q) && g[q.row][q.col]
    requires Closed(g, alive, |alive|, done) && OnlyNearLife(g, done)
    ensures forall c :: c in done <==> NearLife(g, c)
  {
    forall c | NearLife(g, c) ensures c in done {
      if g[c.row][c.col] {
        LiveCellWritten(g, alive, done, c);
      } else {
        BorderCellWritten(g, alive, done, c);
      }
    }
  }

  /** The body of the pass for one live cell a: write its next state, then the
      next state of each of its dead neighbours not visited before, adding
      those to visited. */
  method VisitLiveCell(newM: array2<bool>, g: Grid, a: Coord, visited: seq<Coord>, ghost done: set<Coord>)
    returns (newVisited: seq<Coord>, ghost newDone: set<Coord>)
    requires Agrees(newM, g, done) && InBounds(g, a) && g[a.row][a.col]
    requires forall q :: q in visited ==> q in done
    modifies newM
    ensures Agrees(newM, g, newDone) && done <= newDone && a in newDone
    ensures NeighboursWritten(g, a, newDone)
    ensures forall q :: q in newVisited ==> q in newDone
    ensures newVisited == visited + DeadUnvisited(g, GetNeighCoordinates(a, Rows(g), Cols(g)), visited)
    ensures forall q :: q in newDone <==>
              q in done || q == a || q in DeadUnvisited(g, GetNeighCoordinates(a, Rows(g), Cols(g)), visited)
  {
    var n := CountNeighs(a, g);
    TablesFollowRule(n);
    WriteNext(newM, g, done, a, IsAliveTable[n]);
    newDone := done + {a};

    var neighs := GetNeighCoordinates(a, Rows(g), Cols(g));
    assert forall q :: q in neighs ==> InBounds(g, q);
    var deadNeighs := DeadUnvisited(g, neighs, visited);
    newVisited, newDone := ReviveDead(newM, g, deadNeighs, visited, newDone);
    forall q | q in neighs && InBounds(g, q) && !g[q.row][q.col]
      ensures q in newDone
    {
      if q !in visited {
        assert q in deadNeighs;
      }
    }
  }

  /** The inner loop of the pass: each listed dead cell gets its next state
      and is appended to visited. */
  method ReviveDead(newM: array2<bool>, g: Grid, deadNeighs: seq<Coord>, visited: seq<Coord>,
                    ghost done: set<Coord>)
    returns (newVisited: seq<Coord>, ghost newDone: set<Coord>)
    requires Agrees(newM, g, done)
    requires forall q :: q in deadNeighs ==> InBounds(g, q) && !g[q.row][q.col]
    requires forall q :: q in visited ==> q in done
    modifies newM
    ensures Agrees(newM, g, newDone) && done <= newDone
    ensures forall q :: q in deadNeighs ==> q in newDone
    ensures newVisited == visited + deadNeighs
    ensures forall q :: q in newVisited ==> q in newDone
    ensures forall q :: q in newDone <==> q in done || q in deadNeighs
  {
    newVisited, newDone := visited, done;
    for u := 0 to |deadNeighs|
      invariant Agrees(newM, g, newDone)
      invariant newVisited == visited + deadNeighs[..u]
      invariant forall q :: q in newDone <==> q in done || q in deadNeighs[..u]
    {
      var d := deadNeighs[u];
      assert d in deadNeighs;
      var dn := CountNeighs(d, g);
      TablesFollowRule(dn);
      WriteNext(newM, g, newDone, d, RevivesTable[dn]);
      assert deadNeighs[..u + 1] == deadNeighs[..u] + [d];
      newVisited := newVisited + [d];
      newDone := newDone + {d};
    }
    assert deadNeighs[..|deadNeighs|] == deadNeighs;
  }

  /** `list.index(x)`: the position of the first occurrence of x in s. */
  function IndexOf<T(==)>(s: seq<T>, x: T): (r: nat)
    requires x in s
    ensures r < |s| && s[r] == x
    ensures forall j :: 0 <= j < r ==> s[j] != x
  {
    if s[0] == x then 0 else 1 + IndexOf(s[1..], x)
  }

  /** Generations 0 .. n of g are pairwise different boards. */
  ghost predicate DistinctUpTo(g: Grid, n: nat)
    requires IsMatrix(g)
  {
    forall a, b :: 0 <= a < b <= n ==> Iterate(g, a) != Iterate(g, b)
  }

  /** states records generations 0 .. n of g, in order. */
  ghost predicate RecordOf(states: seq<Grid>, g: Grid, n: nat)
    requires IsMatrix(g)
  {
    |states| == n + 1 && forall j :: 0 <= j <= n ==> states[j] == Iterate(g, j)
  }

  lemma RecordDistinct(states: seq<Grid>, g: Grid, n: nat)
    requires IsMatrix(g) && RecordOf(states, g, n) && Distinct(states)
    ensures DistinctUpTo(g, n)
  {
    forall a, b | 0 <= a < b <= n ensures Iterate(g, a) != Iterate(g, b) {
      assert states[a] != states[b];
    }
  }

  lemma RecordSnoc(states: seq<Grid>, g: Grid, n: nat)
    requires IsMatrix(g) && RecordOf(states, g, n)
    ensures RecordOf(states + [Iterate(g, n + 1)], g, n + 1)
  {
    var next := states + [Iterate(g, n + 1)];
    forall j | 0 <= j <= n + 1 ensures next[j] == Iterate(g, j) {
      if j <= n {
        assert next[j] == states[j];
      }
    }
  }

  /** The lookup index exactly as the repeat shortcut computes it, when the
      board just produced (generation at + 1) was first recorded as entry seen:
      n_iters - seen taken modulo at - seen (a positive divisor, for which
      the floor and Euclidean remainders agree), plus seen. It always names an
      entry of the record. */
  function CycleIndexAsWritten(nIters: int, seen: nat, at: nat): (r: nat)
    requires seen < at
    ensures seen <= r < at
  {
    (nIters - seen) % (at - seen) + seen
  }

  /** The lookup index the repeat shortcut evidently intends: the true period
      is at + 1 - seen. */
  function CycleIndex(nIters: int, seen: nat, at: nat): (r: nat)
    requires seen <= at
    ensures seen <= r <= at
  {
    (nIters - seen) % (at + 1 - seen) + seen
  }

  /** With the true period, the recorded entry the lookup picks is generation n. */
  lemma CycleIndexIsGenerationN(g: Grid, n: nat, seen: nat, at: nat)
    requires IsMatrix(g) && seen <= at && seen <= n
    requires Iterate(g, seen) == Iterate(g, at + 1)
    ensures Iterate(g, CycleIndex(n, seen, at)) == Iterate(g, n)
  {
    IterateInCycle(g, seen, at + 1 - seen, n);
  }

  /** On a board of period 2 (generations a, b, a, ...), the repeat is found when
      generation 2 is produced (at = 1, seen = 0). The lookup as written then
      returns generation 0 for n_iters = 3, where generation 3 is b; the
      corrected lookup returns b. */
  lemma AsWrittenMissesPeriodTwo(a: Grid)
    requires IsMatrix(a) && Step(Step(a)) == a && Step(a) != a
    ensures Iterate(a, 0) == Iterate(a, 2) && Iterate(a, 0) != Iterate(a, 1)
    ensures CycleIndexAsWritten(3, 0, 1) == 0 && Iterate(a, 0) != Iterate(a, 3)
    ensures CycleIndex(3, 0, 1) == 1 && Iterate(a, 1) == Iterate(a, 3)
  {
    assert Iterate(a, 1) == Step(a);
    assert Iterate(a, 2) == a;
    assert Iterate(a, 3) == Step(a);
  }

  /** How the generation loop ended: it ran to the end or stopped early on an
      all-dead board or a fixed point (Finished), or generation at + 1 was
      found in the record as entry seen, with seen < at (Repeat). */
  datatype Outcome = Finished | Repeat(seen: nat, at: nat)

  /** The shared part of `play_game_of_life`: the generation loop with its
      record of the boards seen so far, in generation order, up to the point
      where the result is chosen. */
  method Simulate(matrix: array2<bool>, nIters: int)
    returns (m: array2<bool>, states: seq<Grid>, outcome: Outcome)
    ensures fresh(m) && m.Length0 == matrix.Length0 && m.Length1 == matrix.Length1
    ensures |states| > 0 && RecordOf(states, Cells(matrix), |states| - 1)
    ensures outcome.Finished? ==> Cells(m) == Iterate(Cells(matrix), if nIters < 0 then 0 else nIters)
    ensures outcome.Finished? ==> || AllDead(Cells(m))
                                  || Step(Cells(m)) == Cells(m)
                                  || DistinctUpTo(Cells(matrix), if nIters < 0 then 0 else nIters)
    ensures outcome.Repeat? ==> outcome.seen < outcome.at < nIters && |states| == outcome.at + 1
    ensures outcome.Repeat? ==> Iterate(Cells(matrix), outcome.seen) == Iterate(Cells(matrix), outcome.at + 1)
    ensures outcome.Repeat? ==> DistinctUpTo(Cells(matrix), outcome.at)
  {
    ghost var g0 := Cells(matrix);
    m := CopyArray(matrix);
    states := [Cells(m)];
    outcome := Finished;
    var stateIndex := 0;
    while stateIndex < nIters
      invariant 0 <= stateIndex <= if nIters < 0 then 0 else nIters
      invariant fresh(m) && m.Length0 == matrix.Length0 && m.Length1 == matrix.Length1
      invariant Cells(m) == Iterate(g0, stateIndex)
      invariant RecordOf(states, g0, stateIndex) && Distinct(states)
      decreases nIters - stateIndex
    {
      ghost var written;
      m, written := SparseStep(m);
      var current := Cells(m);
      assert current == Iterate(g0, stateIndex + 1);
      if !AnyAlive(current) {
        DeadFromThenOn(g0, stateIndex + 1, nIters);
        return;
      }
      if current in states {
        var s := IndexOf(states, current);
        assert states[s] == Iterate(g0, s);
        if s == stateIndex {
          assert Step(Iterate(g0, stateIndex)) == Iterate(g0, stateIndex);
          FixedFromThenOn(g0, stateIndex, nIters);
          return;
        }
        RecordDistinct(states, g0, stateIndex);
        outcome := Repeat(s, stateIndex);
        return;
      }
      RecordSnoc(states, g0, stateIndex);
      DistinctSnoc(states, current);
      states := states + [current];
      stateIndex := stateIndex + 1;
    }
    RecordDistinct(states, g0, stateIndex);
  }

  /** `play_game_of_life(matrix, n_iters)` as written. Outside the repeat
      shortcut the result is generation n_iters (the input itself when
      n_iters <= 0). When a repeat is found the result is the recorded
      generation CycleIndexAsWritten(n_iters, seen, at). */
  method PlayGameOfLife(matrix: array2<bool>, nIters: int := 1)
    returns (result: array2<bool>, ghost outcome: Outcome)
    ensures fresh(result)
    ensures result.Length0 == matrix.Length0 && result.Length1 == matrix.Length1
    ensures outcome.Finished? ==> Cells(result) == Iterate(Cells(matrix), if nIters < 0 then 0 else nIters)
    ensures outcome.Finished? ==> || AllDead(Cells(result))
                                  || Step(Cells(result)) == Cells(result)
                                  || DistinctUpTo(Cells(matrix), if nIters < 0 then 0 else nIters)
    ensures outcome.Repeat? ==> outcome.seen < outcome.at < nIters
    ensures outcome.Repeat? ==> Iterate(Cells(matrix), outcome.seen) == Iterate(Cells(matrix), outcome.at + 1)
    ensures outcome.Repeat? ==> DistinctUpTo(Cells(matrix), outcome.at)
    ensures outcome.Repeat? ==>
              Cells(result) == Iterate(Cells(matrix), CycleIndexAsWritten(nIters, outcome.seen, outcome.at))
  {
    var m, states, found := Simulate(matrix, nIters);
    outcome := found;
    if found.Repeat? {
      var index := CycleIndexAsWritten(nIters, found.seen, found.at);
      assert states[index] == Iterate(Cells(matrix), index);
      result := FromGrid(states[index], matrix.Length0, matrix.Length1);
    } else {
      result := m;
    }
  }

  /** The engine with the corrected lookup: whichever way the loop ends, the
      result is generation n_iters of the input. */
  method PlayGameOfLifeCorrected(matrix: array2<bool>, nIters: int := 1) returns (result: array2<bool>)
    ensures fresh(result)
    ensures result.Length0 == matrix.Length0 && result.Length1 == matrix.Length1
    ensures Cells(result) == Iterate(Cells(matrix), if nIters < 0 then 0 else nIters)
  {
    var m, states, found := Simulate(matrix, nIters);
    if found.Repeat? {
      var index := CycleIndex(nIters, found.seen, found.at);
      CycleIndexIsGenerationN(Cells(matrix), nIters, found.seen, found.at);
      assert states[index] == Iterate(Cells(matrix), index);
      result := FromGrid(states[index], matrix.Length0, matrix.Length1);
    } else {
      result := m;
    }
  }

  /** The first four generations of the blinker: flat, turned, flat, turned. */
  lemma BlinkerGenerations()
    ensures IsMatrix(Blinker) && Blinker != BlinkerTurned
    ensures Iterate(Blinker, 0) == Blinker && Iterate(Blinker, 2) == Blinker
    ensures Iterate(Blinker, 1) == BlinkerTurned && Iterate(Blinker, 3) == BlinkerTurned
    ensures !AllDead(BlinkerTurned) && Step(BlinkerTurned) != BlinkerTurned
  {
    BlinkerOscillates();
    BlinkerTurns();
    assert BlinkerTurned[0][1];
  }

  /** What the outcome of a three-generation run on the blinker can be: the
      only repeat the engine can report is generation 2 repeating generation 0,
      and the board it then answers with is the blinker itself. */
  lemma BlinkerRunOutcome(res: Grid, outcome: Outcome)
    requires IsMatrix(Blinker)
    requires outcome.Finished? ==> res == Iterate(Blinker, 3)
    requires outcome.Finished? ==> AllDead(res) || Step(res) == res || DistinctUpTo(Blinker, 3)
    requires outcome.Repeat? ==> outcome.seen < outcome.at < 3
    requires outcome.Repeat? ==> Iterate(Blinker, outcome.seen) == Iterate(Blinker, outcome.at + 1)
    requires outcome.Repeat? ==> DistinctUpTo(Blinker, outcome.at)
    requires outcome.Repeat? ==> res == Iterate(Blinker, CycleIndexAsWritten(3, outcome.seen, outcome.at))
    ensures outcome == Repeat(0, 1) && res == Blinker && res != Iterate(Blinker, 3)
  {
    BlinkerGenerations();
    assert !DistinctUpTo(Blinker, 2) by {
      assert Iterate(Blinker, 0) == Iterate(Blinker, 2);
    }
    if outcome.Repeat? {
      var seen, at := outcome.seen, outcome.at;
      if at == 2 {
        assert false;
      }
      assert seen == 0 && at == 1;
      assert CycleIndexAsWritten(3, 0, 1) == 0;
    } else {
      assert false;
    }
  }

  /** The blinker run for three generations: the engine as written answers with
      the blinker itself, while generation 3 is the turned blinker. */
  method BlinkerAsWritten() returns (r: array2<bool>)
    ensures Cells(r) == Blinker && Cells(r) != Iterate(Blinker, 3)
  {
    BlinkerOscillates();
    var start := FromGrid(Blinker, 3, 3);
    ghost var outcome: Outcome;
    r, outcome := PlayGameOfLife(start, 3);
    BlinkerRunOutcome(Cells(r), outcome);
  }
}
