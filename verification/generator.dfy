/**
 * The randomized depth-first backtracker (maze_generators.py, `RandomizedDFS`).
 * `random.choice` is replaced by a caller-supplied index `pick`, reduced
 * modulo the number of candidate moves, so every candidate can be chosen.
 */
module Generator {
  import opened Wrappers
  import opened Grid
  import opened Directions

  /** Is `p` inside a grid of `colLen` rows of `rowLen` cells? */
  predicate InBounds(p: Pos, colLen: int, rowLen: int) {
    0 <= p.0 < colLen && 0 <= p.1 < rowLen
  }

  /** The state of a generator: its grid size, position, visited set, stack and flag. */
  datatype Gen = Gen(colLen: nat, rowLen: nat, curr: Pos, visited: set<Pos>, stack: seq<Pos>, notFinished: bool)
  {
    function MaxSize(): nat {
      colLen * rowLen
    }
  }

  /** The state `__init__` builds: only the start is visited and the stack is empty. */
  function Init(colLen: nat, rowLen: nat, start: Pos): Gen {
    Gen(colLen, rowLen, start, {start}, [], true)
  }

  /** The moves of `moves`, in their order, that lead from `curr` into the grid to an unvisited cell. */
  function Free(curr: Pos, visited: set<Pos>, colLen: int, rowLen: int, moves: seq<Pos>): seq<Pos> {
    if moves == [] then []
    else
      var last := moves[|moves| - 1];
      var target := Add(curr, last);
      Free(curr, visited, colLen, rowLen, moves[..|moves| - 1]) +
      (if target !in visited && InBounds(target, colLen, rowLen) then [last] else [])
  }

  /** A move is kept exactly when it is one of `moves` and its target is free. */
  lemma {:induction false} FreeMembers(curr: Pos, visited: set<Pos>, colLen: int, rowLen: int, moves: seq<Pos>)
    ensures forall m :: m in Free(curr, visited, colLen, rowLen, moves) <==>
      m in moves && Add(curr, m) !in visited && InBounds(Add(curr, m), colLen, rowLen)
  {
    if moves != [] {
      var init := moves[..|moves| - 1];
      FreeMembers(curr, visited, colLen, rowLen, init);
      assert moves == init + [moves[|moves| - 1]];
    }
  }

  /** `possible_moves` on a state. */
  function Candidates(s: Gen): seq<Pos> {
    Free(s.curr, s.visited, s.colLen, s.rowLen, Units)
  }

  /** One unit move kept or dropped, as one pass of the loop in `possible_moves` does. */
  function Keep(s: Gen, m: Pos): seq<Pos> {
    var target := Add(s.curr, m);
    if target !in s.visited && InBounds(target, s.colLen, s.rowLen) then [m] else []
  }

  /** `possible_moves` checks right, down, left and up, in this order. */
  lemma CandidatesInOrder(s: Gen)
    ensures Candidates(s) == Keep(s, (0, 1)) + Keep(s, (1, 0)) + Keep(s, (0, -1)) + Keep(s, (-1, 0))
  {
    var u1, u2, u3 := Units[..1], Units[..2], Units[..3];
    assert u1[..0] == [] && u2[..1] == u1 && u3[..2] == u2 && Units[..3] == u3;
    assert u1 == [(0, 1)] && u2 == [(0, 1), (1, 0)] && u3 == [(0, 1), (1, 0), (0, -1)];
    assert Free(s.curr, s.visited, s.colLen, s.rowLen, u1) == Keep(s, (0, 1));
    assert Free(s.curr, s.visited, s.colLen, s.rowLen, u2) == Keep(s, (0, 1)) + Keep(s, (1, 0));
    assert Free(s.curr, s.visited, s.colLen, s.rowLen, u3) == Keep(s, (0, 1)) + Keep(s, (1, 0)) + Keep(s, (0, -1));
  }

  /** The moves `possible_moves` returns are the unit moves to free in-bound cells. */
  lemma CandidatesMembers(s: Gen)
    ensures forall m :: m in Candidates(s) <==>
      m in Units && Add(s.curr, m) !in s.visited && InBounds(Add(s.curr, m), s.colLen, s.rowLen)
  {
    FreeMembers(s.curr, s.visited, s.colLen, s.rowLen, Units);
  }

  /**
   * What one call of `move` does: it returns a position (`Moved`), or it raises
   * IndexError (`Raised`) when it backtracks with fewer than two stack entries,
   * leaving the state as the failed `pop` or `stack[-1]` left it.
   */
  datatype Outcome = Moved(state: Gen, pos: Pos) | Raised(state: Gen)

  function Step(s: Gen, pick: nat): Outcome {
    if |s.visited| == s.MaxSize() then
      Moved(s.(notFinished := false), s.curr)
    else
      var moves := Candidates(s);
      if moves != [] then
        var next := Add(s.curr, moves[pick % |moves|]);
        Moved(s.(curr := next, visited := s.visited + {next}, stack := s.stack + [next]), next)
      else if |s.stack| == 0 then
        Raised(s)
      else if |s.stack| == 1 then
        Raised(s.(stack := []))
      else
        var stack := s.stack[..|s.stack| - 1];
        Moved(s.(curr := stack[|stack| - 1], stack := stack), stack[|stack| - 1])
  }

  /**
   * The invariants of a run: the position is visited and on top of the stack,
   * the stack holds distinct visited cells each beside the one below it, and
   * every visited cell is inside the grid.
   */
  ghost predicate Inv(s: Gen) {
    && InBounds(s.curr, s.colLen, s.rowLen)
    && s.curr in s.visited
    && (forall p :: p in s.visited ==> InBounds(p, s.colLen, s.rowLen))
    && (s.stack != [] ==> s.stack[|s.stack| - 1] == s.curr)
    && (forall i :: 0 <= i < |s.stack| ==> s.stack[i] in s.visited)
    && (forall i, j :: 0 <= i < j < |s.stack| ==> s.stack[i] != s.stack[j])
    && (forall i :: 0 < i < |s.stack| ==> Adjacent(s.stack[i - 1], s.stack[i]))
  }

  lemma InitInv(colLen: nat, rowLen: nat, start: Pos)
    requires InBounds(start, colLen, rowLen)
    ensures Inv(Init(colLen, rowLen, start))
  {
  }

  /** Every step keeps the invariants, whether it moves or raises, and the visited set never shrinks. */
  lemma StepPreservesInv(s: Gen, pick: nat)
    requires Inv(s)
    ensures Inv(Step(s, pick).state)
    ensures s.visited <= Step(s, pick).state.visited
  {
    if |s.visited| != s.MaxSize() && Candidates(s) != [] {
      ForwardPreservesInv(s, pick);
    }
  }

  lemma ForwardPreservesInv(s: Gen, pick: nat)
    requires Inv(s) && |s.visited| != s.MaxSize() && Candidates(s) != []
    ensures Inv(Step(s, pick).state)
  {
    ForwardStep(s, pick);
    var t := Step(s, pick).state;
    assert Adjacent(s.curr, t.curr);
    forall i | 0 < i < |t.stack|
      ensures Adjacent(t.stack[i - 1], t.stack[i])
    {
      if i == |t.stack| - 1 {
        assert t.stack[i - 1] == s.curr;
      } else {
        assert t.stack[i - 1] == s.stack[i - 1] && t.stack[i] == s.stack[i];
      }
    }
  }

  /** The cells of a grid of `c` rows of `r` cells. */
  ghost function Box(c: nat, r: nat): set<Pos> {
    set y, x | 0 <= y < c && 0 <= x < r :: (y, x)
  }

  /** The cells of row `y` of a grid `r` cells wide. */
  ghost function RowCells(y: int, r: nat): set<Pos> {
    set x | 0 <= x < r :: (y, x)
  }

  lemma {:induction false} RowCellsSize(y: int, r: nat)
    ensures |RowCells(y, r)| == r
  {
    if r > 0 {
      RowCellsSize(y, r - 1);
      assert RowCells(y, r) == RowCells(y, r - 1) + {(y, r - 1)};
    }
  }

  lemma {:induction false} BoxSize(c: nat, r: nat)
    ensures |Box(c, r)| == c * r
  {
    if c > 0 {
      BoxSize(c - 1, r);
      RowCellsSize(c - 1, r);
      BoxSplit(c, r);
      assert c * r == (c - 1) * r + r;
    }
  }

  /** The last row splits off a grid. */
  lemma BoxSplit(c: nat, r: nat)
    requires c > 0
    ensures Box(c, r) == Box(c - 1, r) + RowCells(c - 1, r)
    ensures Box(c - 1, r) !! RowCells(c - 1, r)
  {
    forall p | p in Box(c, r)
      ensures p in Box(c - 1, r) + RowCells(c - 1, r)
    {
      if p.0 < c - 1 {
        assert p in Box(c - 1, r);
      } else {
        assert p in RowCells(c - 1, r);
      }
    }
  }

  /** A visited set inside the grid has at most `max_size` cells. */
  lemma VisitedBound(s: Gen)
    requires Inv(s)
    ensures |s.visited| <= s.MaxSize()
  {
    forall p | p in s.visited
      ensures p in Box(s.colLen, s.rowLen)
    {
      assert InBounds(p, s.colLen, s.rowLen);
      assert p == (p.0, p.1);
    }
    var box := Box(s.colLen, s.rowLen);
    assert box == s.visited + (box - s.visited);
    assert s.visited !! (box - s.visited);
    BoxSize(s.colLen, s.rowLen);
  }

  /** A forward step goes by one listed unit move to an unvisited cell, and visits and pushes it. */
  lemma ForwardStep(s: Gen, pick: nat)
    requires |s.visited| != s.MaxSize() && Candidates(s) != []
    ensures var t := Step(s, pick).state;
      && Step(s, pick) == Moved(t, t.curr)
      && (exists m :: m in Units && t.curr == Add(s.curr, m))
      && t.curr !in s.visited
      && InBounds(t.curr, s.colLen, s.rowLen)
      && t.visited == s.visited + {t.curr} && |t.visited| == |s.visited| + 1
      && t.stack == s.stack + [t.curr]
  {
    CandidatesMembers(s);
    var moves := Candidates(s);
    assert moves[pick % |moves|] in moves;
  }

  /**
   * A backtrack step (no candidate, at least two stack entries) drops exactly
   * the stack top, keeps the visited set and moves to the new top.
   */
  lemma BacktrackStep(s: Gen, pick: nat)
    requires Inv(s) && |s.visited| != s.MaxSize() && Candidates(s) == [] && |s.stack| >= 2
    ensures var t := Step(s, pick).state;
      && Step(s, pick) == Moved(t, t.curr)
      && s.stack == t.stack + [s.curr]
      && t.visited == s.visited
      && t.curr == t.stack[|t.stack| - 1]
      && Adjacent(s.curr, t.curr)
  {
    var t := Step(s, pick).state;
    assert s.stack == t.stack + [s.stack[|s.stack| - 1]];
    assert Adjacent(s.stack[|s.stack| - 2], s.stack[|s.stack| - 1]);
  }

  /** The step raises IndexError exactly when it must backtrack with fewer than two stack entries. */
  lemma RaisesExactly(s: Gen, pick: nat)
    ensures Step(s, pick).Raised? <==> |s.visited| != s.MaxSize() && Candidates(s) == [] && |s.stack| < 2
  {
  }

  /** Once every cell is visited, `move` clears the flag, returns the position and changes nothing else; later calls change nothing at all. */
  lemma FinishedStep(s: Gen, pick: nat, later: nat)
    requires |s.visited| == s.MaxSize()
    ensures Step(s, pick) == Moved(s.(notFinished := false), s.curr)
    ensures Step(Step(s, pick).state, later) == Step(s, pick)
  {
  }

  /** The pair (cells left to visit, stack height) of a state, the termination measure. */
  function Remaining(s: Gen): int {
    s.MaxSize() - |s.visited|
  }

  /** Every step that neither finishes nor raises decreases the measure lexicographically. */
  lemma StepDecreases(s: Gen, pick: nat)
    requires Inv(s) && |s.visited| != s.MaxSize() && Step(s, pick).Moved?
    ensures var t := Step(s, pick).state;
      0 <= Remaining(t) && (Remaining(t) < Remaining(s) || (Remaining(t) == Remaining(s) && |t.stack| < |s.stack|))
  {
    VisitedBound(s);
    StepPreservesInv(s, pick);
    VisitedBound(Step(s, pick).state);
    if Candidates(s) != [] {
      ForwardStep(s, pick);
    }
  }

  /** The returned position is the new `curr`, the old one or a neighbour of it. */
  lemma StepAdjacent(s: Gen, pick: nat)
    requires Inv(s) && Step(s, pick).Moved?
    ensures var o := Step(s, pick);
      o.pos == o.state.curr && (o.pos == s.curr || Adjacent(s.curr, o.pos))
  {
    if |s.visited| != s.MaxSize() {
      if Candidates(s) != [] {
        ForwardStep(s, pick);
        var m :| m in Units && Step(s, pick).pos == Add(s.curr, m);
      } else {
        BacktrackStep(s, pick);
      }
    }
  }

  /** A 1 x 1 grid finishes on its first call. */
  lemma OneByOne(start: Pos, pick: nat)
    ensures Step(Init(1, 1, start), pick) == Moved(Init(1, 1, start).(notFinished := false), start)
  {
  }

  /** The states of the 2 x 2 run from (0, 0) that always takes the first candidate. */
  function TwoByTwoState(k: nat): Gen
    requires k <= 3
  {
    match k
    case 0 => Init(2, 2, (0, 0))
    case 1 => Gen(2, 2, (0, 1), {(0, 0), (0, 1)}, [(0, 1)], true)
    case 2 => Gen(2, 2, (1, 1), {(0, 0), (0, 1), (1, 1)}, [(0, 1), (1, 1)], true)
    case _ => Gen(2, 2, (1, 0), {(0, 0), (0, 1), (1, 1), (1, 0)}, [(0, 1), (1, 1), (1, 0)], true)
  }

  /**
   * Always taking the first candidate, a 2 x 2 grid from (0, 0) visits (0, 1)
   * (TwoByTwo0), then (1, 1) (TwoByTwo1), then (1, 0) (TwoByTwo2); the fourth
   * call finishes in place (TwoByTwo3).
   */
  lemma TwoByTwo0()
    ensures Step(TwoByTwoState(0), 0) == Moved(TwoByTwoState(1), (0, 1))
  {
    var s := TwoByTwoState(0);
    CandidatesInOrder(s);
    assert Candidates(s) == [(0, 1), (1, 0)];
  }

  lemma TwoByTwo1()
    ensures Step(TwoByTwoState(1), 0) == Moved(TwoByTwoState(2), (1, 1))
  {
    var s := TwoByTwoState(1);
    assert |s.visited| == 2;
    CandidatesInOrder(s);
    assert Candidates(s) == [(1, 0)];
  }

  lemma TwoByTwo2()
    ensures Step(TwoByTwoState(2), 0) == Moved(TwoByTwoState(3), (1, 0))
  {
    var s := TwoByTwoState(2);
    assert |s.visited| == 3;
    CandidatesInOrder(s);
    assert Candidates(s) == [(0, -1)];
  }

  lemma TwoByTwo3()
    ensures Step(TwoByTwoState(3), 0) == Moved(TwoByTwoState(3).(notFinished := false), (1, 0))
  {
    assert |TwoByTwoState(3).visited| == 4;
  }

  /**
   * Started in the middle of a 1 x 3 grid, the generator carves to (0, 2) and
   * then raises IndexError: the start is never pushed, so the backtrack pops
   * the only stack entry and reads an empty stack.
   */
  lemma MiddleStartRaises()
    ensures var s0 := Init(1, 3, (0, 1));
      var o1 := Step(s0, 0);
      && o1 == Moved(Gen(1, 3, (0, 2), {(0, 1), (0, 2)}, [(0, 2)], true), (0, 2))
      && Step(o1.state, 0) == Raised(Gen(1, 3, (0, 2), {(0, 1), (0, 2)}, [], true))
  {
    var s0 := Init(1, 3, (0, 1));
    CandidatesInOrder(s0);
    assert Candidates(s0) == [(0, 1), (0, -1)];
    var s1 := Step(s0, 0).state;
    assert s1.visited == {(0, 1), (0, 2)};
    CandidatesInOrder(s1);
    assert Candidates(s1) == [];
  }

  /** The state after k forward steps on a 1 x n grid started at (0, 0). */
  ghost function RowState(n: nat, k: nat): Gen {
    Gen(1, n, (0, k), RowCells(0, k + 1), seq(k, i => (0, i + 1)), true)
  }

  /** The 1 x n run starts in the row state with nothing carved. */
  lemma OneRowStart(n: nat)
    requires 0 < n
    ensures RowState(n, 0) == Init(1, n, (0, 0))
  {
    assert RowCells(0, 1) == {(0, 0)};
  }

  /**
   * On a 1 x n grid from (0, 0), whatever the chooser picks, each call before
   * the last cell moves one cell to the right and pushes it.
   */
  lemma OneRowForward(n: nat, k: nat, pick: nat)
    requires k + 1 < n
    ensures Step(RowState(n, k), pick) == Moved(RowState(n, k + 1), (0, k + 1))
  {
    var s := RowState(n, k);
    RowCellsSize(0, k + 1);
    CandidatesInOrder(s);
    assert (0, k + 1) !in s.visited;
    assert k > 0 ==> (0, k - 1) in s.visited;
    assert Candidates(s) == [(0, 1)];
    RowGrows(k);
  }

  /** One more cell to the right extends the row's visited set and stack. */
  lemma RowGrows(k: nat)
    ensures RowCells(0, k + 1) + {(0, k + 1)} == RowCells(0, k + 2)
    ensures seq(k, i => (0, i + 1)) + [(0, k + 1)] == seq(k + 1, i => (0, i + 1))
  {
  }

  /** Once the last cell of the row is reached, the next call finishes in place: the demo loop over 1 x n grids always completes. */
  lemma OneRowLast(n: nat, pick: nat)
    requires 0 < n
    ensures Step(RowState(n, n - 1), pick) == Moved(RowState(n, n - 1).(notFinished := false), (0, n - 1))
  {
    RowCellsSize(0, n);
  }

  /** The generator object; `move` updates its fields in place. */
  class RandomizedDFS {
    const colLen: nat
    const rowLen: nat
    const maxSize: nat
    var curr: Pos
    var notFinished: bool
    var visited: set<Pos>
    var stack: seq<Pos>

    function State(): Gen
      reads this
    {
      Gen(colLen, rowLen, curr, visited, stack, notFinished)
    }

    ghost predicate Valid()
      reads this
    {
      maxSize == colLen * rowLen
    }

    constructor (gridSize: (nat, nat), start: Pos := (0, 0))
      ensures Valid() && State() == Init(gridSize.0, gridSize.1, start)
    {
      colLen, rowLen := gridSize.0, gridSize.1;
      maxSize := gridSize.0 * gridSize.1;
      curr := start;
      notFinished := true;
      visited := {start};
      stack := [];
    }

    /** `possible_moves`: the unit moves, in order, to unvisited cells inside the grid. */
    method PossibleMoves() returns (moves: seq<Pos>)
      ensures moves == Candidates(State())
      ensures forall m :: m in moves <==> m in Units && Add(curr, m) !in visited && InBounds(Add(curr, m), colLen, rowLen)
    {
      moves := [];
      for i := 0 to |Units|
        invariant moves == Free(curr, visited, colLen, rowLen, Units[..i])
      {
        var move := Units[i];
        var target := Add(curr, move);
        if target !in visited && 0 <= target.0 < colLen && 0 <= target.1 < rowLen {
          moves := moves + [move];
        }
        assert Units[..i + 1][..i] == Units[..i];
      }
      assert Units[..|Units|] == Units;
      CandidatesMembers(State());
    }

    /**
     * `move`: finish, carve forward to the picked candidate, or backtrack. The
     * result is None when the source raises IndexError.
     */
    method Move(pick: nat) returns (r: Option<Pos>)
      requires Valid()
      modifies this
      ensures Valid()
      ensures State() == Step(old(State()), pick).state
      ensures r == if Step(old(State()), pick).Moved? then Some(Step(old(State()), pick).pos) else None
    {
      if |visited| == maxSize {
        notFinished := false;
        return Some(curr);
      }
      var moves := PossibleMoves();
      if moves != [] {
        var move := moves[pick % |moves|];
        curr := Add(curr, move);
        visited := visited + {curr};
        stack := stack + [curr];
      } else {
        if |stack| == 0 {
          return None;
        }
        stack := stack[..|stack| - 1];
        if |stack| == 0 {
          return None;
        }
        curr := stack[|stack| - 1];
      }
      r := Some(curr);
    }
  }

  /**
   * `n` successive calls of `move`, the k-th picking `chooser(k)`; a call that
   * raises ends the run, and its outcome is the run's.
   */
  function Drive(s: Gen, chooser: nat -> nat, n: nat): Outcome {
    if n == 0 then Moved(s, s.curr)
    else
      var o := Drive(s, chooser, n - 1);
      if o.Raised? then o else Step(o.state, chooser(n - 1))
  }

  /**
   * One more call of a run that has not raised and whose flag is set: the run
   * goes on with `Step`, keeps the invariant, clears the flag only with every
   * cell visited, raises only where every later pick raises too, and otherwise
   * decreases the loop's measure.
   */
  lemma DriveNext(s: Gen, chooser: nat -> nat, k: nat, b: Gen)
    requires Drive(s, chooser, k).Moved? && Drive(s, chooser, k).state == b
    requires Inv(b) && b.notFinished
    ensures Drive(s, chooser, k + 1) == Step(b, chooser(k))
    ensures var o := Step(b, chooser(k)); var t := o.state;
      && Inv(t) && 0 <= Remaining(t)
      && (!t.notFinished ==> |t.visited| == t.MaxSize())
      && (o.Raised? ==> t.notFinished && forall p :: Step(t, p).Raised?)
      && (o.Moved? && t.notFinished ==>
            Remaining(t) < Remaining(b) || (Remaining(t) == Remaining(b) && |t.stack| < |b.stack|))
  {
    StepPreservesInv(b, chooser(k));
    var t := Step(b, chooser(k)).state;
    VisitedBound(t);
    if Step(b, chooser(k)).Raised? {
      assert forall p :: Step(t, p).Raised?;
    } else if |b.visited| != b.MaxSize() {
      StepDecreases(b, chooser(k));
    }
  }

  /**
   * The demo loop `while dfs.not_finished: dfs.move()`, the k-th call picking
   * `chooser(k)`. It always stops, after `calls` calls, in the state those
   * calls reach. Either every cell is visited and the flag is clear, or the
   * last call raised and another would raise again whatever it picks.
   */
  method RunToCompletion(dfs: RandomizedDFS, chooser: nat -> nat) returns (ok: bool, ghost calls: nat)
    requires dfs.Valid() && Inv(dfs.State()) && dfs.notFinished
    modifies dfs
    ensures dfs.Valid() && Inv(dfs.State())
    ensures dfs.State() == Drive(old(dfs.State()), chooser, calls).state
    ensures ok <==> Drive(old(dfs.State()), chooser, calls).Moved?
    ensures ok ==> !dfs.notFinished && |dfs.visited| == dfs.maxSize
    ensures !ok ==> dfs.notFinished && forall p :: Step(dfs.State(), p).Raised?
  {
    ghost var s0 := dfs.State();
    var k := 0;
    VisitedBound(dfs.State());
    while dfs.notFinished
      invariant dfs.Valid() && Inv(dfs.State())
      invariant |dfs.visited| <= dfs.maxSize
      invariant !dfs.notFinished ==> |dfs.visited| == dfs.maxSize
      invariant Drive(s0, chooser, k).Moved? && Drive(s0, chooser, k).state == dfs.State()
      decreases Remaining(dfs.State()), |dfs.stack|, if dfs.notFinished then 1 else 0
    {
      DriveNext(s0, chooser, k, dfs.State());
      var r := dfs.Move(chooser(k));
      if r.None? {
        return false, k + 1;
      }
      k := k + 1;
    }
    return true, k;
  }
}
