/**
 * The depth-first maze solver of maze_solvers.py: a LIFO queue seeded with the
 * start's open passages; each move pops the last entry, queues that cell's
 * open, unvisited neighbours (nearest to the target last when the Manhattan
 * ordering is on) and marks the cell visited.
 */
module Solver {
  import opened Wrappers
  import opened Grid
  import opened Directions

  function Abs(n: int): nat {
    if n < 0 then -n else n
  }

  /** `manhattan_distance`: the number of unit moves between `pos` and `end`. */
  function ManhattanDistance(pos: Pos, end: Pos): (r: nat)
    ensures r == 0 <==> pos == end
  {
    Abs(pos.1 - end.1) + Abs(pos.0 - end.0)
  }

  /** One unit move changes the distance to the target by exactly one. */
  lemma NeighbourDistance(a: Pos, b: Pos, end: Pos)
    requires Adjacent(a, b)
    ensures var da, db := ManhattanDistance(a, end), ManhattanDistance(b, end);
      da == db + 1 || db == da + 1
  {
  }

  // ---------------------------------------------------------------------------
  // find_passages on values

  /** `cell_directions[dir_name]` for a unit move: the flag of the wall the move crosses. */
  function Flag(w: Walls, move: Pos): bool
    requires move in Units
  {
    match DirectionName(move)
    case Found(Some(d)) => w.Get(d)
    case _ => assert false; true
  }

  /** What one iteration of the loop appends: the neighbour, unless a wall or the visited set blocks it. */
  function Reach(w: Walls, curr: Pos, visited: set<Pos>, move: Pos): seq<Pos>
    requires move in Units
  {
    if Flag(w, move) || Add(curr, move) in visited then [] else [Add(curr, move)]
  }

  /** The list the loop of `find_passages` has built after the first `n` moves, before sorting. */
  function Unsorted(w: Walls, curr: Pos, visited: set<Pos>, n: nat): seq<Pos>
    requires n <= |Units|
  {
    if n == 0 then []
    else Unsorted(w, curr, visited, n - 1) + Reach(w, curr, visited, Units[n - 1])
  }

  /** Over all four moves the loop yields right, down, left and up, in that order. */
  lemma UnsortedInOrder(w: Walls, curr: Pos, visited: set<Pos>)
    ensures Unsorted(w, curr, visited, |Units|) ==
      Reach(w, curr, visited, (0, 1)) + Reach(w, curr, visited, (1, 0)) +
      Reach(w, curr, visited, (0, -1)) + Reach(w, curr, visited, (-1, 0))
  {
    assert Unsorted(w, curr, visited, 1) == Reach(w, curr, visited, (0, 1));
    assert Unsorted(w, curr, visited, 2) == Reach(w, curr, visited, (0, 1)) + Reach(w, curr, visited, (1, 0));
    assert Unsorted(w, curr, visited, 3) ==
      Reach(w, curr, visited, (0, 1)) + Reach(w, curr, visited, (1, 0)) + Reach(w, curr, visited, (0, -1));
  }

  /** The step across wall `d` yields its neighbour exactly when that wall is cleared and the neighbour unvisited. */
  lemma ReachMember(w: Walls, curr: Pos, visited: set<Pos>, d: Direction, p: Pos)
    ensures Offset(d) in Units
    ensures p in Reach(w, curr, visited, Offset(d)) <==>
      p == Add(curr, Offset(d)) && !w.Get(d) && p !in visited
    ensures |Reach(w, curr, visited, Offset(d))| <= 1
  {
  }

  /** Stepping across wall `d` leads to a neighbour whose facing wall is `d`. */
  lemma TowardOffset(a: Pos, d: Direction)
    ensures Adjacent(a, Add(a, Offset(d))) && Toward(a, Add(a, Offset(d))) == d
  {
  }

  /**
   * The passages are exactly the neighbours behind a cleared wall of the
   * current cell that are not visited yet; there are at most four.
   */
  lemma UnsortedMembers(w: Walls, curr: Pos, visited: set<Pos>)
    ensures var ps := Unsorted(w, curr, visited, |Units|);
      && (forall p :: p in ps <==> Adjacent(curr, p) && !w.Get(Toward(curr, p)) && p !in visited)
      && |ps| <= 4
  {
    var ps := Unsorted(w, curr, visited, |Units|);
    UnsortedInOrder(w, curr, visited);
    ReachMember(w, curr, visited, Right, curr);
    ReachMember(w, curr, visited, Bottom, curr);
    ReachMember(w, curr, visited, Left, curr);
    ReachMember(w, curr, visited, Top, curr);
    var r, b, l, t := Reach(w, curr, visited, Offset(Right)), Reach(w, curr, visited, Offset(Bottom)),
                      Reach(w, curr, visited, Offset(Left)), Reach(w, curr, visited, Offset(Top));
    assert ps == r + b + l + t;
    forall p
      ensures p in ps <==> Adjacent(curr, p) && !w.Get(Toward(curr, p)) && p !in visited
    {
      assert p in ps <==> p in r || p in b || p in l || p in t;
      ReachMember(w, curr, visited, Right, p);
      ReachMember(w, curr, visited, Bottom, p);
      ReachMember(w, curr, visited, Left, p);
      ReachMember(w, curr, visited, Top, p);
      TowardOffset(curr, Right);
      TowardOffset(curr, Bottom);
      TowardOffset(curr, Left);
      TowardOffset(curr, Top);
      if Adjacent(curr, p) {
        var d := Toward(curr, p);
        assert p == Add(curr, Offset(d));
      }
    }
  }

  // ---------------------------------------------------------------------------
  // passages.sort(key=manhattan_distance, reverse=True)

  /**
   * Inserts `p`, which came before every element of `sorted`, in front of the
   * first element that is not farther than it.
   */
  function Insert(p: Pos, sorted: seq<Pos>, end: Pos): seq<Pos>
  {
    if sorted == [] || ManhattanDistance(sorted[0], end) <= ManhattanDistance(p, end) then [p] + sorted
    else [sorted[0]] + Insert(p, sorted[1..], end)
  }

  /** The stable sort by non-increasing distance, as an insertion sort. */
  function SortByDistance(ps: seq<Pos>, end: Pos): seq<Pos>
  {
    if ps == [] then [] else Insert(ps[0], SortByDistance(ps[1..], end), end)
  }

  predicate NonIncreasing(ps: seq<Pos>, end: Pos) {
    forall i, j :: 0 <= i < j < |ps| ==> ManhattanDistance(ps[i], end) >= ManhattanDistance(ps[j], end)
  }

  /** The entries of `ps` at distance `k`, in their order. */
  function AtDistance(ps: seq<Pos>, end: Pos, k: nat): seq<Pos>
  {
    if ps == [] then []
    else (if ManhattanDistance(ps[0], end) == k then [ps[0]] else []) + AtDistance(ps[1..], end, k)
  }

  /** Inserting adds `p` to the entries and nothing else. */
  lemma {:induction false} InsertMembers(p: Pos, sorted: seq<Pos>, end: Pos)
    ensures |Insert(p, sorted, end)| == |sorted| + 1
    ensures multiset(Insert(p, sorted, end)) == multiset{p} + multiset(sorted)
    ensures forall q :: q in Insert(p, sorted, end) <==> q == p || q in sorted
    decreases |sorted|
  {
    if sorted != [] && ManhattanDistance(sorted[0], end) > ManhattanDistance(p, end) {
      InsertMembers(p, sorted[1..], end);
      assert sorted == [sorted[0]] + sorted[1..];
    }
  }

  /** `x` in front of a non-increasing sequence of entries no farther than it. */
  lemma ConsNonIncreasing(x: Pos, r: seq<Pos>, end: Pos)
    requires NonIncreasing(r, end)
    requires forall q :: q in r ==> ManhattanDistance(q, end) <= ManhattanDistance(x, end)
    ensures NonIncreasing([x] + r, end)
  {
    forall i, j | 0 <= i < j < |[x] + r|
      ensures ManhattanDistance(([x] + r)[i], end) >= ManhattanDistance(([x] + r)[j], end)
    {
      if i == 0 {
        assert ([x] + r)[j] == r[j - 1];
      } else {
        assert ([x] + r)[i] == r[i - 1] && ([x] + r)[j] == r[j - 1];
      }
    }
  }

  lemma {:induction false} InsertSorted(p: Pos, sorted: seq<Pos>, end: Pos)
    requires NonIncreasing(sorted, end)
    ensures NonIncreasing(Insert(p, sorted, end), end)
    decreases |sorted|
  {
    if sorted == [] || ManhattanDistance(sorted[0], end) <= ManhattanDistance(p, end) {
      forall q | q in sorted
        ensures ManhattanDistance(q, end) <= ManhattanDistance(p, end)
      {
        var j :| 0 <= j < |sorted| && sorted[j] == q;
        assert ManhattanDistance(sorted[0], end) >= ManhattanDistance(sorted[j], end);
      }
      ConsNonIncreasing(p, sorted, end);
    } else {
      var tail := sorted[1..];
      assert NonIncreasing(tail, end) by {
        forall i, j | 0 <= i < j < |tail|
          ensures ManhattanDistance(tail[i], end) >= ManhattanDistance(tail[j], end)
        {
          assert tail[i] == sorted[i + 1] && tail[j] == sorted[j + 1];
        }
      }
      InsertSorted(p, tail, end);
      InsertMembers(p, tail, end);
      forall q | q in Insert(p, tail, end)
        ensures ManhattanDistance(q, end) <= ManhattanDistance(sorted[0], end)
      {
        if q != p {
          var j :| 0 <= j < |tail| && tail[j] == q;
          assert sorted[j + 1] == q;
        }
      }
      ConsNonIncreasing(sorted[0], Insert(p, tail, end), end);
    }
  }

  /** Inserting keeps every distance class in order, with `p` first in its own class. */
  lemma {:induction false} InsertStable(p: Pos, sorted: seq<Pos>, end: Pos, k: nat)
    ensures AtDistance(Insert(p, sorted, end), end, k) ==
      (if ManhattanDistance(p, end) == k then [p] else []) + AtDistance(sorted, end, k)
    decreases |sorted|
  {
    if sorted == [] || ManhattanDistance(sorted[0], end) <= ManhattanDistance(p, end) {
      assert ([p] + sorted)[1..] == sorted;
    } else {
      InsertStable(p, sorted[1..], end, k);
      var r := [sorted[0]] + Insert(p, sorted[1..], end);
      assert r[1..] == Insert(p, sorted[1..], end);
    }
  }

  /**
   * The sort orders the passages by non-increasing distance, is a permutation
   * of them, and keeps passages at equal distance in their original order.
   */
  lemma {:induction false} SortByDistanceCorrect(ps: seq<Pos>, end: Pos)
    ensures NonIncreasing(SortByDistance(ps, end), end)
    ensures multiset(SortByDistance(ps, end)) == multiset(ps)
    ensures forall k: nat :: AtDistance(SortByDistance(ps, end), end, k) == AtDistance(ps, end, k)
  {
    if ps != [] {
      SortByDistanceCorrect(ps[1..], end);
      InsertSorted(ps[0], SortByDistance(ps[1..], end), end);
      InsertMembers(ps[0], SortByDistance(ps[1..], end), end);
      assert ps == [ps[0]] + ps[1..];
      forall k: nat
        ensures AtDistance(SortByDistance(ps, end), end, k) == AtDistance(ps, end, k)
      {
        InsertStable(ps[0], SortByDistance(ps[1..], end), end, k);
      }
    }
  }

  /** `find_passages` on the flags `w` of the current cell. */
  function Passages(w: Walls, curr: Pos, visited: set<Pos>, end: Pos, useManhattan: bool): seq<Pos>
  {
    var ps := Unsorted(w, curr, visited, |Units|);
    if useManhattan then SortByDistance(ps, end) else ps
  }

  /**
   * Whatever the ordering, the passages are the open, unvisited neighbours,
   * at most four of them; with the Manhattan ordering the last one, popped first, is
   * nearest to the target.
   */
  lemma PassagesMembers(w: Walls, curr: Pos, visited: set<Pos>, end: Pos, useManhattan: bool)
    ensures var ps := Passages(w, curr, visited, end, useManhattan);
      && (forall p :: p in ps <==> Adjacent(curr, p) && !w.Get(Toward(curr, p)) && p !in visited)
      && |ps| <= 4
      && (useManhattan && ps != [] ==>
            forall p :: p in ps ==> ManhattanDistance(ps[|ps| - 1], end) <= ManhattanDistance(p, end))
  {
    var raw := Unsorted(w, curr, visited, |Units|);
    UnsortedMembers(w, curr, visited);
    if useManhattan {
      SortKeepsMembers(raw, end);
      var ps := SortByDistance(raw, end);
      if ps != [] {
        forall p | p in ps
          ensures ManhattanDistance(ps[|ps| - 1], end) <= ManhattanDistance(p, end)
        {
          var j :| 0 <= j < |ps| && ps[j] == p;
          if j < |ps| - 1 {
            assert ManhattanDistance(ps[j], end) >= ManhattanDistance(ps[|ps| - 1], end);
          }
        }
      }
    }
  }

  /** Sorting neither adds nor drops a passage. */
  lemma SortKeepsMembers(ps: seq<Pos>, end: Pos)
    ensures |SortByDistance(ps, end)| == |ps|
    ensures forall p :: p in SortByDistance(ps, end) <==> p in ps
    ensures NonIncreasing(SortByDistance(ps, end), end)
  {
    SortByDistanceCorrect(ps, end);
    var r := SortByDistance(ps, end);
    assert |r| == |multiset(r)| == |multiset(ps)| == |ps|;
    forall p
      ensures p in r <==> p in ps
    {
      assert p in r <==> p in multiset(r);
      assert p in ps <==> p in multiset(ps);
    }
  }

  // ---------------------------------------------------------------------------
  // The search on values

  /** The solver's fields that change, with the settings they are read with. */
  datatype Search = Search(end: Pos, useManhattan: bool, curr: Pos, visited: set<Pos>, queue: seq<Pos>, notFinished: bool)

  /** `__init__`: the target defaults to the bottom-right cell; the queue starts with the start's passages. */
  function SearchInit(g: WallGrid, start: Pos, end: Option<Pos>, useManhattan: bool): Search
    requires |g| > 0 && InMatrix(g, start)
  {
    var e := if end.Some? then end.value else (|g| - 1, |g[0]| - 1);
    Search(e, useManhattan, start, {start}, Passages(At(g, start), start, {start}, e, useManhattan), true)
  }

  /** Every position the solver will read lies inside the maze. */
  ghost predicate Inv<T>(g: seq<seq<T>>, s: Search) {
    InMatrix(g, s.curr) && forall q :: q in s.queue ==> InMatrix(g, q)
  }

  /** `move`: None when the queue is empty (the pop raises IndexError). */
  function SearchStep(g: WallGrid, s: Search): Option<Search>
    requires Inv(g, s)
  {
    if s.queue == [] then None
    else
      var c := s.queue[|s.queue| - 1];
      var rest := s.queue[..|s.queue| - 1];
      Some(s.(curr := c,
              queue := rest + Passages(At(g, c), c, s.visited, s.end, s.useManhattan),
              visited := s.visited + {c},
              notFinished := s.notFinished && c != s.end))
  }

  /** The start state: start visited, a default target in the bottom-right corner, open passages queued. */
  lemma InitFacts(g: WallGrid, start: Pos, end: Option<Pos>, useManhattan: bool)
    requires |g| > 0 && InMatrix(g, start) && Enclosed(g)
    ensures var s := SearchInit(g, start, end, useManhattan);
      && Inv(g, s) && s.curr == start && s.visited == {start} && s.notFinished
      && s.end == (if end.None? then (|g| - 1, |g[0]| - 1) else end.value)
      && forall p :: p in s.queue <==> Adjacent(start, p) && !At(g, start).Get(Toward(start, p)) && p != start
  {
    var s := SearchInit(g, start, end, useManhattan);
    PassagesMembers(At(g, start), start, {start}, s.end, useManhattan);
    forall p | p in s.queue
      ensures InMatrix(g, p)
    {
      assert Add(start, Offset(Toward(start, p))) == p;
    }
  }

  /**
   * A move pops the last entry (LIFO), keeps the rest of the queue below the
   * new entries, queues only open unvisited neighbours of the popped cell,
   * adds exactly the popped cell to `visited`, and clears `notFinished`
   * exactly when the popped cell is the target or it was already clear. In a
   * maze whose border is closed every queued position stays inside the maze.
   */
  lemma SearchStepFacts(g: WallGrid, s: Search)
    requires Inv(g, s) && Enclosed(g)
    ensures SearchStep(g, s).None? <==> s.queue == []
    ensures SearchStep(g, s).Some? ==>
      var t := SearchStep(g, s).value;
      var n := |s.queue|;
      && Inv(g, t)
      && t.curr == s.queue[n - 1]
      && t.queue[..n - 1] == s.queue[..n - 1]
      && (forall p :: p in t.queue[n - 1..] <==> Adjacent(t.curr, p) && !At(g, t.curr).Get(Toward(t.curr, p)) && p !in s.visited)
      && t.visited == s.visited + {t.curr}
      && (!t.notFinished <==> !s.notFinished || t.curr == s.end)
      && t.end == s.end && t.useManhattan == s.useManhattan
  {
    if s.queue != [] {
      var t := SearchStep(g, s).value;
      var n := |s.queue|;
      var ps := Passages(At(g, t.curr), t.curr, s.visited, s.end, s.useManhattan);
      PassagesMembers(At(g, t.curr), t.curr, s.visited, s.end, s.useManhattan);
      assert t.queue[n - 1..] == ps;
      forall q | q in t.queue
        ensures InMatrix(g, q)
      {
        if q in ps {
          assert Add(t.curr, Offset(Toward(t.curr, q))) == q;
        } else {
          assert q in s.queue[..n - 1];
        }
      }
    }
  }

  /** Once the target has been popped the solver stays finished. */
  lemma FinishedStaysFinished(g: WallGrid, s: Search)
    requires Inv(g, s) && !s.notFinished && SearchStep(g, s).Some?
    ensures !SearchStep(g, s).value.notFinished
  {
  }

  // ---------------------------------------------------------------------------
  // The solver object

  /**
   * `DFS`: reads the maze's cells, never writes them. `walls` is the maze's
   * wall flags when the solver was built; `Valid` says the cells still show them.
   */
  class DFS {
    const maze: Matrix
    ghost const walls: WallGrid
    const useManhattan: bool
    const cols: nat
    const rows: nat
    const start: Pos
    const end: Pos
    var notFinished: bool
    var curr: Pos
    var visited: set<Pos>
    var queue: seq<Pos>

    function State(): Search
      reads this
    {
      Search(end, useManhattan, curr, visited, queue, notFinished)
    }

    ghost predicate Valid()
      reads this, Cells(maze)
    {
      && cols == |maze| > 0 && rows == |maze[0]|
      && Shows()
    }

    /** The cells of the maze carry the flags of `walls`. */
    ghost predicate Shows()
      reads Cells(maze)
    {
      && |walls| == |maze|
      && (forall y :: 0 <= y < |maze| ==> |walls[y]| == |maze[y]|)
      && forall y, x :: 0 <= y < |maze| && 0 <= x < |maze[y]| ==> maze[y][x].View() == walls[y][x]
    }

    constructor (maze: Matrix, start: Pos := (0, 0), end: Option<Pos> := None, manhattanDistance: bool := true)
      requires |maze| > 0 && InMatrix(maze, start) && Enclosed(View(maze))
      ensures this.maze == maze && this.start == start && walls == old(View(maze)) && Enclosed(walls)
      ensures State() == SearchInit(walls, start, end, manhattanDistance)
      ensures Valid()
    {
      ghost var g := View(maze);
      useManhattan := manhattanDistance;
      notFinished := true;
      this.maze := maze;
      walls := g;
      cols, rows := |maze|, |maze[0]|;
      this.start := start;
      this.end := if end.Some? then end.value else (|maze| - 1, |maze[0]| - 1);
      curr := start;
      visited := {start};
      queue := [];
      new;
      var passages := FindPassages();
      queue := queue + passages;
      InitFacts(g, start, end, manhattanDistance);
    }

    /** `find_passages`: the loop over the four moves, then the optional sort. */
    method FindPassages() returns (passages: seq<Pos>)
      requires InMatrix(maze, curr)
      requires Shows()
      ensures passages == Passages(At(walls, curr), curr, visited, end, useManhattan)
    {
      passages := [];
      var y, x := curr.0, curr.1;
      var cellDirections := maze[y][x].View();
      assert cellDirections == At(walls, curr);
      for i := 0 to |Units|
        invariant passages == Unsorted(cellDirections, curr, visited, i)
      {
        var direction := Units[i];
        var dirName := DirectionName(direction);
        match dirName
        case Found(Some(d)) =>
          if !cellDirections.Get(d) {
            var move := Add(curr, direction);
            if move !in visited {
              passages := passages + [move];
            }
          }
        case _ =>
          assert false;
      }
      if useManhattan {
        passages := SortByDistance(passages, end);
      }
    }

    /**
     * `move`: `ok` is false, and nothing changes, when the queue is empty.
     * Positions outside the maze are never queued while the border is closed
     * (`SearchStepFacts`), so `Inv` carries over from move to move.
     */
    method Move() returns (ok: bool)
      requires Valid() && Inv(walls, State())
      modifies this
      ensures Valid()
      ensures ok <==> old(queue) != []
      ensures ok ==> SearchStep(walls, old(State())) == Some(State())
      ensures !ok ==> State() == old(State())
    {
      if queue == [] {
        return false;
      }
      ghost var s := State();
      assert InMatrix(walls, queue[|queue| - 1]);
      curr := queue[|queue| - 1];
      queue := queue[..|queue| - 1];
      var passages := FindPassages();
      if passages != [] {
        queue := queue + passages;
      }
      assert queue == s.queue[..|s.queue| - 1] + passages;
      visited := visited + {curr};
      if curr == end {
        notFinished := false;
      }
      ok := true;
    }
  }
}
