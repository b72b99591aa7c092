/**
 * The direction vocabulary of the carving loop (main.py:30-33), the
 * component-wise tuple addition the generator moves with, and the closed
 * border that keeps every neighbour the solver reaches inside the maze.
 */
module Directions {
  import opened Wrappers
  import opened Grid

  /** `add_tuple`: component-wise addition of a move to a position. */
  function Add(p: Pos, move: Pos): Pos {
    (p.0 + move.0, p.1 + move.1)
  }

  /** The unit moves in the order every algorithm enumerates them: right, down, left, up. */
  const Units: seq<Pos> := [(0, 1), (1, 0), (0, -1), (-1, 0)]

  /** Where the neighbour across wall `d` lies, written independently of the name table. */
  function Offset(d: Direction): Pos {
    match d
    case Top => (-1, 0)
    case Bottom => (1, 0)
    case Left => (0, -1)
    case Right => (0, 1)
  }

  function Opposite(d: Direction): Direction {
    match d
    case Top => Bottom
    case Bottom => Top
    case Left => Right
    case Right => Left
  }

  /** Positions that share a side. */
  predicate Adjacent(a: Pos, b: Pos) {
    (a.0 == b.0 && (a.1 - b.1 == 1 || b.1 - a.1 == 1)) ||
    (a.1 == b.1 && (a.0 - b.0 == 1 || b.0 - a.0 == 1))
  }

  /** The wall of `a` that faces its neighbour `b`. */
  function Toward(a: Pos, b: Pos): (d: Direction)
    requires Adjacent(a, b)
    ensures Add(a, Offset(d)) == b
  {
    if b.1 == a.1 + 1 then Right
    else if b.1 == a.1 - 1 then Left
    else if b.0 == a.0 + 1 then Bottom
    else Top
  }

  /** Result of indexing the `directions` dictionary. */
  datatype Lookup =
    | Found(wall: Option<Direction>)  // the key is present; the zero vector maps to None
    | Missing                         // KeyError

  /** The `directions` dictionary of main.py:30. */
  function DirectionName(v: Pos): (r: Lookup)
    ensures r.Found? <==> v == (0, 0) || v in Units
    ensures r == Found(None) <==> v == (0, 0)
    ensures forall d :: r == Found(Some(d)) <==> v == Offset(d)
  {
    if v == (0, 1) then Found(Some(Right))
    else if v == (1, 0) then Found(Some(Bottom))
    else if v == (0, -1) then Found(Some(Left))
    else if v == (-1, 0) then Found(Some(Top))
    else if v == (0, 0) then Found(None)
    else Missing
  }

  /** `get_direction(coord, prev)`: the vector that leads from `coord` back to `prev`. */
  function GetDirection(coord: Pos, prev: Pos): (v: Pos)
    ensures Add(coord, v) == prev
    ensures v == (0, 0) <==> coord == prev
    ensures v in Units <==> Adjacent(coord, prev)
  {
    (prev.0 - coord.0, prev.1 - coord.1)
  }

  /** `reverse_direction`: both components negated. */
  function ReverseDirection(v: Pos): (r: Pos)
    ensures Add(v, r) == (0, 0)
  {
    (v.0 * -1, v.1 * -1)
  }

  /** Reversing twice gives back the vector. */
  lemma ReverseInvolution(v: Pos)
    ensures ReverseDirection(ReverseDirection(v)) == v
  {
  }

  /** The reverse of a vector leads from `prev` back to `coord`. */
  lemma ReverseOfGetDirection(coord: Pos, prev: Pos)
    ensures ReverseDirection(GetDirection(coord, prev)) == GetDirection(prev, coord)
  {
  }

  /** Reversal turns every named direction into the opposite wall, and the zero vector into itself. */
  lemma ReverseNamesOpposite(v: Pos)
    ensures DirectionName(v) == Found(None) ==> DirectionName(ReverseDirection(v)) == Found(None)
    ensures forall d :: DirectionName(v) == Found(Some(d)) ==> DirectionName(ReverseDirection(v)) == Found(Some(Opposite(d)))
    ensures DirectionName(v).Found? <==> DirectionName(ReverseDirection(v)).Found?
  {
  }

  /** The i-th unit move is the offset of the i-th wall in the order right, bottom, left, top. */
  lemma UnitsNamed()
    ensures DirectionName(Units[0]) == Found(Some(Right)) && DirectionName(Units[1]) == Found(Some(Bottom))
    ensures DirectionName(Units[2]) == Found(Some(Left)) && DirectionName(Units[3]) == Found(Some(Top))
  {
  }

  /** The name of the vector between neighbours is the wall facing the other cell. */
  lemma DirectionNameOfNeighbour(coord: Pos, prev: Pos)
    requires Adjacent(coord, prev)
    ensures DirectionName(GetDirection(coord, prev)) == Found(Some(Toward(coord, prev)))
  {
  }

  /** Every wall on the border of the grid is present. */
  ghost predicate Enclosed(g: WallGrid) {
    forall p, d {:trigger At(g, p).Get(d)} :: InMatrix(g, p) && !InMatrix(g, Add(p, Offset(d))) ==> At(g, p).Get(d)
  }

  /** A border-closed maze is what the generator leaves: the empty maze is closed and carving keeps it closed. */
  lemma ClosedMazeEnclosed(g: WallGrid)
    requires forall y, x :: 0 <= y < |g| && 0 <= x < |g[y]| ==> g[y][x] == Closed
    ensures Enclosed(g)
  {
    forall p, d | InMatrix(g, p) && !InMatrix(g, Add(p, Offset(d)))
      ensures At(g, p).Get(d)
    {
      assert g[p.0][p.1] == Closed;
    }
  }
}
