/**
 * The carving step of main.py:51-64: after each generator move, the wall of the
 * new cell facing the previous one and the wall of the previous cell facing
 * the new one are removed together, so passages stay symmetric.
 */
module Carving {
  import opened Wrappers
  import opened Grid
  import opened Directions
  import Generator

  /** Is the passage between neighbours `a` and `b` open from both sides? */
  predicate Open(g: WallGrid, a: Pos, b: Pos)
    requires InMatrix(g, a) && InMatrix(g, b) && Adjacent(a, b)
  {
    !At(g, a).Get(Toward(a, b)) && !At(g, b).Get(Toward(b, a))
  }

  /**
   * Lines 55-61 on the maze's value: name the direction back to `prev` and its
   * reverse, then clear the named wall of the new cell and the reversed-named
   * wall of the previous cell. None when a name lookup raises KeyError.
   */
  function CarveGrid(g: WallGrid, prev: Pos, coord: Pos): Option<WallGrid>
    requires InMatrix(g, prev) && InMatrix(g, coord)
  {
    var direction := GetDirection(coord, prev);
    var reversed := ReverseDirection(direction);
    match (DirectionName(direction), DirectionName(reversed))
    case (Found(name), Found(reversedName)) =>
      var g1 := Put(g, coord, Removed(At(g, coord), name));
      Some(Put(g1, prev, Removed(At(g1, prev), reversedName)))
    case _ => None
  }

  /** The lookups succeed exactly when the two positions are equal or neighbours. */
  lemma CarveDefined(g: WallGrid, prev: Pos, coord: Pos)
    requires InMatrix(g, prev) && InMatrix(g, coord)
    ensures CarveGrid(g, prev, coord).Some? <==> prev == coord || Adjacent(prev, coord)
  {
    ReverseNamesOpposite(GetDirection(coord, prev));
  }

  /** When `move` returns the same position, the direction has no name and no wall changes. */
  lemma CarveSamePosition(g: WallGrid, p: Pos)
    requires InMatrix(g, p)
    ensures DirectionName(GetDirection(p, p)) == Found(None)
    ensures CarveGrid(g, p, p) == Some(g)
  {
    var g1 := Put(g, p, Removed(At(g, p), None));
    GridExt(g1, g);
    GridExt(Put(g1, p, Removed(At(g1, p), None)), g);
  }

  /**
   * Between neighbours the step opens the passage from both sides, changes no
   * other cell and no other flag of the two cells.
   */
  lemma CarveNeighbours(g: WallGrid, prev: Pos, coord: Pos)
    requires InMatrix(g, prev) && InMatrix(g, coord) && Adjacent(prev, coord)
    ensures CarveGrid(g, prev, coord).Some?
    ensures var r := CarveGrid(g, prev, coord).value;
      && |r| == |g| && (forall y :: 0 <= y < |g| ==> |r[y]| == |g[y]|)
      && Open(r, prev, coord)
      && (forall q :: InMatrix(g, q) && q != prev && q != coord ==> At(r, q) == At(g, q))
      && (forall d :: d != Toward(coord, prev) ==> At(r, coord).Get(d) == At(g, coord).Get(d))
      && (forall d :: d != Toward(prev, coord) ==> At(r, prev).Get(d) == At(g, prev).Get(d))
  {
    DirectionNameOfNeighbour(coord, prev);
    DirectionNameOfNeighbour(prev, coord);
    ReverseOfGetDirection(coord, prev);
  }

  /** Carving only ever clears walls. */
  lemma CarveOnlyClears(g: WallGrid, prev: Pos, coord: Pos)
    requires InMatrix(g, prev) && InMatrix(g, coord) && CarveGrid(g, prev, coord).Some?
    ensures var r := CarveGrid(g, prev, coord).value;
      && |r| == |g| && (forall y :: 0 <= y < |g| ==> |r[y]| == |g[y]|)
      && forall q, d :: InMatrix(g, q) && At(r, q).Get(d) ==> At(g, q).Get(d)
  {
  }

  /** Re-carving a passage that is already open, in either direction, changes nothing. */
  lemma CarveOpenIsNoop(g: WallGrid, a: Pos, b: Pos)
    requires InMatrix(g, a) && InMatrix(g, b) && Adjacent(a, b) && Open(g, a, b)
    ensures CarveGrid(g, a, b) == Some(g)
  {
    CarveNeighbours(g, a, b);
    var r := CarveGrid(g, a, b).value;
    forall q | InMatrix(g, q)
      ensures At(r, q) == At(g, q)
    {
      if q == a || q == b {
        WallsExt(At(r, q), At(g, q));
      }
    }
    GridExt(r, g);
  }

  /** Carving between cells of the grid keeps the border closed. */
  lemma CarvePreservesEnclosed(g: WallGrid, prev: Pos, coord: Pos)
    requires InMatrix(g, prev) && InMatrix(g, coord) && Enclosed(g)
    requires CarveGrid(g, prev, coord).Some?
    ensures Enclosed(CarveGrid(g, prev, coord).value)
  {
    var r := CarveGrid(g, prev, coord).value;
    CarveDefined(g, prev, coord);
    if prev == coord {
      CarveSamePosition(g, prev);
    } else {
      CarveNeighbours(g, prev, coord);
      forall p, d | InMatrix(r, p) && !InMatrix(r, Add(p, Offset(d)))
        ensures At(r, p).Get(d)
      {
        assert InMatrix(g, p) && !InMatrix(g, Add(p, Offset(d)));
        if p == coord {
          assert d != Toward(coord, prev);
        } else if p == prev {
          assert d != Toward(prev, coord);
        }
      }
    }
  }

  /**
   * Every wall between two neighbours is present on both sides or on
   * neither: a cell's wall facing its neighbour is cleared exactly when the
   * neighbour's wall facing it is.
   */
  ghost predicate Symmetric(g: WallGrid) {
    forall p, q :: InMatrix(g, p) && InMatrix(g, q) && Adjacent(p, q) ==>
      At(g, p).Get(Toward(p, q)) == At(g, q).Get(Toward(q, p))
  }

  /** A maze of fully walled cells, as `create_empty_maze` builds it, is symmetric. */
  lemma ClosedSymmetric(g: WallGrid)
    requires forall y, x :: 0 <= y < |g| && 0 <= x < |g[y]| ==> g[y][x] == Closed
    ensures Symmetric(g)
  {
    forall p, q | InMatrix(g, p) && InMatrix(g, q) && Adjacent(p, q)
      ensures At(g, p).Get(Toward(p, q)) == At(g, q).Get(Toward(q, p))
    {
      assert g[p.0][p.1] == Closed && g[q.0][q.1] == Closed;
    }
  }

  /** Each carve clears the two sides of one wall together, so the maze stays symmetric. */
  lemma CarveKeepsSymmetric(g: WallGrid, prev: Pos, coord: Pos)
    requires InMatrix(g, prev) && InMatrix(g, coord) && Symmetric(g)
    requires CarveGrid(g, prev, coord).Some?
    ensures Symmetric(CarveGrid(g, prev, coord).value)
  {
    var r := CarveGrid(g, prev, coord).value;
    CarveDefined(g, prev, coord);
    if prev == coord {
      CarveSamePosition(g, prev);
    } else {
      CarveNeighbours(g, prev, coord);
      forall p, q | InMatrix(r, p) && InMatrix(r, q) && Adjacent(p, q)
        ensures At(r, p).Get(Toward(p, q)) == At(r, q).Get(Toward(q, p))
      {
        assert InMatrix(g, p) && InMatrix(g, q);
        if (p == prev && q == coord) || (p == coord && q == prev) {
          assert Open(r, prev, coord);
        } else {
          SideKept(g, r, prev, coord, p, q);
          SideKept(g, r, prev, coord, q, p);
        }
      }
    }
  }

  /**
   * Across any wall other than the carved one, a carve between neighbours
   * keeps the flag of the cell on either side.
   */
  lemma SideKept(g: WallGrid, r: WallGrid, prev: Pos, coord: Pos, p: Pos, q: Pos)
    requires InMatrix(g, prev) && InMatrix(g, coord) && Adjacent(prev, coord)
    requires CarveGrid(g, prev, coord) == Some(r)
    requires InMatrix(g, p) && Adjacent(p, q)
    requires !((p == prev && q == coord) || (p == coord && q == prev))
    ensures At(r, p).Get(Toward(p, q)) == At(g, p).Get(Toward(p, q))
  {
    CarveNeighbours(g, prev, coord);
    if p == coord {
      assert Toward(p, q) != Toward(coord, prev);
    } else if p == prev {
      assert Toward(p, q) != Toward(prev, coord);
    }
  }

  /** Consecutive stack entries of the generator are joined by open passages. */
  ghost predicate StackCarved(g: WallGrid, s: Generator.Gen) {
    forall i :: 0 < i < |s.stack| ==>
      var a, b := s.stack[i - 1], s.stack[i];
      InMatrix(g, a) && InMatrix(g, b) && Adjacent(a, b) && Open(g, a, b)
  }

  /** A forward step carves a new passage from the old position and keeps the stack carved. */
  lemma ForwardThenCarve(g: WallGrid, s: Generator.Gen, pick: nat)
    requires Generator.Inv(s) && Rectangular(g, s.colLen, s.rowLen) && StackCarved(g, s)
    requires |s.visited| != s.MaxSize() && Generator.Candidates(s) != []
    ensures var t := Generator.Step(s, pick).state;
      && Generator.Inv(t) && InMatrix(g, t.curr) && Adjacent(s.curr, t.curr)
      && CarveGrid(g, s.curr, t.curr).Some?
      && var r := CarveGrid(g, s.curr, t.curr).value;
      && InMatrix(r, s.curr) && InMatrix(r, t.curr) && Open(r, s.curr, t.curr)
      && StackCarved(r, t)
  {
    var t := Generator.Step(s, pick).state;
    Generator.StepPreservesInv(s, pick);
    Generator.StepAdjacent(s, pick);
    Generator.ForwardStep(s, pick);
    CarveNeighbours(g, s.curr, t.curr);
    CarveOnlyClears(g, s.curr, t.curr);
    PushCarved(g, CarveGrid(g, s.curr, t.curr).value, s, t);
  }

  /** Pushing a cell whose passage to the old position is open keeps the stack carved, in any maze that only cleared walls. */
  lemma PushCarved(g: WallGrid, r: WallGrid, s: Generator.Gen, t: Generator.Gen)
    requires Generator.Inv(s) && Generator.Inv(t) && Rectangular(g, s.colLen, s.rowLen) && StackCarved(g, s)
    requires t.colLen == s.colLen && t.rowLen == s.rowLen && Rectangular(r, s.colLen, s.rowLen)
    requires t.stack == s.stack + [t.curr] && Adjacent(s.curr, t.curr) && Open(r, s.curr, t.curr)
    requires forall q, d :: InMatrix(g, q) && At(r, q).Get(d) ==> At(g, q).Get(d)
    ensures StackCarved(r, t)
  {
    forall i | 0 < i < |t.stack|
      ensures var a, b := t.stack[i - 1], t.stack[i];
        InMatrix(r, a) && InMatrix(r, b) && Adjacent(a, b) && Open(r, a, b)
    {
      var a, b := t.stack[i - 1], t.stack[i];
      if i < |s.stack| {
        assert a == s.stack[i - 1] && b == s.stack[i];
        assert InMatrix(g, a) && InMatrix(g, b) && Adjacent(a, b) && Open(g, a, b);
      } else {
        assert a == s.curr && b == t.curr;
      }
    }
  }

  /** A backtrack step re-clears a passage that is already open, so the maze does not change. */
  lemma BacktrackThenCarve(g: WallGrid, s: Generator.Gen, pick: nat)
    requires Generator.Inv(s) && Rectangular(g, s.colLen, s.rowLen) && StackCarved(g, s)
    requires |s.visited| != s.MaxSize() && Generator.Candidates(s) == [] && |s.stack| >= 2
    ensures var t := Generator.Step(s, pick).state;
      && Generator.Inv(t) && InMatrix(g, t.curr)
      && CarveGrid(g, s.curr, t.curr) == Some(g)
      && StackCarved(g, t)
  {
    var t := Generator.Step(s, pick).state;
    Generator.StepPreservesInv(s, pick);
    Generator.BacktrackStep(s, pick);
    var n := |s.stack|;
    assert s.stack[n - 2] == t.curr && s.stack[n - 1] == s.curr;
    assert Open(g, t.curr, s.curr);
    assert Toward(t.curr, s.curr) == Opposite(Toward(s.curr, t.curr));
    CarveOpenIsNoop(g, s.curr, t.curr);
    forall i | 0 < i < |t.stack|
      ensures Open(g, t.stack[i - 1], t.stack[i])
    {
      assert t.stack[i - 1] == s.stack[i - 1] && t.stack[i] == s.stack[i];
    }
  }

  /**
   * Carving after each generator step never raises KeyError and keeps the
   * stack's passages open; a step that visits no new cell changes no wall.
   */
  lemma StepThenCarve(g: WallGrid, s: Generator.Gen, pick: nat)
    requires Generator.Inv(s) && Rectangular(g, s.colLen, s.rowLen) && StackCarved(g, s)
    requires Generator.Step(s, pick).Moved?
    ensures var t := Generator.Step(s, pick).state;
      && Generator.Inv(t)
      && Generator.Step(s, pick).pos == t.curr
      && InMatrix(g, t.curr)
      && CarveGrid(g, s.curr, t.curr).Some?
      && StackCarved(CarveGrid(g, s.curr, t.curr).value, t)
      && (t.visited == s.visited ==> CarveGrid(g, s.curr, t.curr) == Some(g))
  {
    Generator.StepAdjacent(s, pick);
    if |s.visited| == s.MaxSize() {
      CarveSamePosition(g, s.curr);
    } else if Generator.Candidates(s) != [] {
      ForwardThenCarve(g, s, pick);
      Generator.ForwardStep(s, pick);
    } else {
      BacktrackThenCarve(g, s, pick);
    }
  }

  /** The carved maze, once both names are known. */
  lemma CarveGridNamed(g: WallGrid, prev: Pos, coord: Pos, name: Option<Direction>, reversedName: Option<Direction>)
    requires InMatrix(g, prev) && InMatrix(g, coord)
    requires DirectionName(GetDirection(coord, prev)) == Found(name)
    requires DirectionName(ReverseDirection(GetDirection(coord, prev))) == Found(reversedName)
    ensures var g1 := Put(g, coord, Removed(At(g, coord), name));
      CarveGrid(g, prev, coord) == Some(Put(g1, prev, Removed(At(g1, prev), reversedName)))
  {
  }

  /**
   * Lines 52-61: take the new cell, name the direction back to the previous
   * cell and its reverse, and remove the two walls. `ok` is false when a
   * lookup raises KeyError, before any wall changes.
   */
  method Carve(matrix: Matrix, prevCoord: Pos, prevCell: Cell, coord: Pos) returns (currCell: Cell, ok: bool)
    requires Distinct(matrix) && InMatrix(matrix, prevCoord) && InMatrix(matrix, coord)
    requires prevCell == matrix[prevCoord.0][prevCoord.1]
    modifies prevCell, matrix[coord.0][coord.1]
    ensures currCell == matrix[coord.0][coord.1]
    ensures var r := CarveGrid(old(View(matrix)), prevCoord, coord);
      && ok == r.Some?
      && View(matrix) == if ok then r.value else old(View(matrix))
  {
    ghost var g := View(matrix);
    var y, x := coord.0, coord.1;
    currCell := matrix[y][x];
    var direction := GetDirection(coord, prevCoord);
    var reversedDirection := ReverseDirection(direction);
    var directionName := DirectionName(direction);
    var reversedDirectionName := DirectionName(reversedDirection);
    if directionName.Missing? || reversedDirectionName.Missing? {
      return currCell, false;
    }
    RemoveBorder(currCell, directionName.wall);
    ghost var v1 := prevCell.View();
    RemoveBorder(prevCell, reversedDirectionName.wall);
    ok := true;
    ghost var g1 := Put(g, coord, Removed(At(g, coord), directionName.wall));
    ghost var r := Put(g1, prevCoord, Removed(At(g1, prevCoord), reversedDirectionName.wall));
    assert v1 == At(g1, prevCoord);
    CarveGridNamed(g, prevCoord, coord, directionName.wall, reversedDirectionName.wall);
    forall y, x | 0 <= y < |matrix| && 0 <= x < |matrix[y]|
      ensures matrix[y][x].View() == r[y][x]
    {
      if y == prevCoord.0 && x == prevCoord.1 {
      } else if y == coord.0 && x == coord.1 {
        assert currCell != prevCell;
      } else {
        assert matrix[y][x] != prevCell && matrix[y][x] != currCell;
      }
    }
    CarveOnlyClears(g, prevCoord, coord);
    GridExt(View(matrix), r);
  }

  /** What the carving after a generator step needs: the step keeps the invariants and lands inside the grid, and the carve is defined. */
  lemma MoveThenCarvePlan(g: WallGrid, s: Generator.Gen, pick: nat)
    requires Generator.Inv(s) && Rectangular(g, s.colLen, s.rowLen)
    ensures Generator.Inv(Generator.Step(s, pick).state)
    ensures var o := Generator.Step(s, pick);
      o.Moved? ==>
        && o.pos == o.state.curr && InMatrix(g, o.pos) && InMatrix(g, s.curr)
        && CarveGrid(g, s.curr, o.pos).Some?
        && |CarveGrid(g, s.curr, o.pos).value| == |g|
        && forall y :: 0 <= y < |g| ==> |CarveGrid(g, s.curr, o.pos).value[y]| == |g[y]|
  {
    Generator.StepPreservesInv(s, pick);
    var o := Generator.Step(s, pick);
    if o.Moved? {
      Generator.StepAdjacent(s, pick);
      CarveDefined(g, s.curr, o.pos);
      CarveOnlyClears(g, s.curr, o.pos);
    }
  }

  /**
   * Lines 51-64: move the generator, carve between the previous and the
   * returned position, and make the returned position and its cell the
   * previous ones. `raised` reports the generator's IndexError; the carving
   * itself never raises KeyError.
   */
  method MoveAndCarve(matrix: Matrix, generator: Generator.RandomizedDFS, prevCoord: Pos, prevCell: Cell, pick: nat)
    returns (coord: Pos, currCell: Cell, raised: bool)
    requires generator.Valid() && Generator.Inv(generator.State())
    requires Rectangular(matrix, generator.colLen, generator.rowLen) && Distinct(matrix)
    requires prevCoord == generator.curr && prevCell == matrix[prevCoord.0][prevCoord.1]
    modifies generator, Cells(matrix)
    ensures generator.Valid() && Generator.Inv(generator.State())
    ensures generator.State() == Generator.Step(old(generator.State()), pick).state
    ensures raised <==> Generator.Step(old(generator.State()), pick).Raised?
    ensures raised ==> View(matrix) == old(View(matrix))
    ensures !raised ==> coord == generator.curr && currCell == matrix[coord.0][coord.1]
    ensures !raised ==> CarveGrid(old(View(matrix)), prevCoord, coord) == Some(View(matrix))
  {
    ghost var s := generator.State();
    ghost var g := View(matrix);
    var r := generator.Move(pick);
    assert View(matrix) == g;
    MoveThenCarvePlan(g, s, pick);
    if r.None? {
      assert Generator.Step(s, pick).Raised?;
      return prevCoord, prevCell, true;
    }
    assert Generator.Step(s, pick).Moved?;
    coord := r.value;
    assert InMatrix(matrix, coord);
    var ok;
    currCell, ok := Carve(matrix, prevCoord, prevCell, coord);
    raised := false;
  }

  /** Lines 50-64: the carving step runs only while the generator is not finished. */
  method CarveStep(matrix: Matrix, generator: Generator.RandomizedDFS, prevCoord: Pos, prevCell: Cell, pick: nat)
    returns (coord: Pos, currCell: Cell, raised: bool)
    requires generator.Valid() && Generator.Inv(generator.State())
    requires Rectangular(matrix, generator.colLen, generator.rowLen) && Distinct(matrix)
    requires prevCoord == generator.curr && prevCell == matrix[prevCoord.0][prevCoord.1]
    modifies generator, Cells(matrix)
    ensures generator.Valid() && Generator.Inv(generator.State())
    ensures !old(generator.notFinished) ==>
      !raised && coord == prevCoord && currCell == prevCell && View(matrix) == old(View(matrix)) &&
      generator.State() == old(generator.State())
    ensures old(generator.notFinished) ==> generator.State() == Generator.Step(old(generator.State()), pick).state
    ensures raised <==> old(generator.notFinished) && Generator.Step(old(generator.State()), pick).Raised?
    ensures raised ==> View(matrix) == old(View(matrix))
    ensures !raised ==> coord == generator.curr && currCell == matrix[coord.0][coord.1]
    ensures !raised ==> CarveGrid(old(View(matrix)), prevCoord, coord) == Some(View(matrix))
  {
    if !generator.notFinished {
      CarveSamePosition(View(matrix), prevCoord);
      return prevCoord, prevCell, false;
    }
    coord, currCell, raised := MoveAndCarve(matrix, generator, prevCoord, prevCell, pick);
  }
}
