/**
 * The hex grid: the six directions, a cell's coordinates, one move,
 * and the `hops` distance formula.
 *
 * Cells use "doubled" coordinates: a north or south move changes y by 2,
 * and a diagonal move changes x by 1 and y by 1.
 */
module Hex {

  /** The six neighbours of a cell. */
  datatype Direction = N | NW | NE | S | SW | SE

  /** A cell of the grid. Coordinates are unbounded here; the program uses `i32`. */
  datatype Coord = Coord(x: int, y: int)

  /** `Coord::default()`, the cell every walk of the program starts from. */
  const Origin: Coord := Coord(0, 0)

  function Abs(n: int): nat
  {
    if n < 0 then -n else n
  }

  function Min(a: int, b: int): int
  {
    if a <= b then a else b
  }

  /**
   * The cell one move away from `c` in direction `d`: a different cell, at most
   * one column away, whose coordinate sum has the same parity.
   */
  function Step(c: Coord, d: Direction): (r: Coord)
    ensures r != c
    ensures Abs(r.x - c.x) <= 1 && Abs(r.x - c.x) + Abs(r.y - c.y) == 2
    ensures (r.x + r.y) % 2 == (c.x + c.y) % 2
  {
    match d
    case N => Coord(c.x, c.y + 2)
    case NW => Coord(c.x - 1, c.y + 1)
    case NE => Coord(c.x + 1, c.y + 1)
    case S => Coord(c.x, c.y - 2)
    case SW => Coord(c.x - 1, c.y - 1)
    case SE => Coord(c.x + 1, c.y - 1)
  }

  /** The direction that leads back. */
  function Opposite(d: Direction): (o: Direction)
    ensures o != d
  {
    match d
    case N => S
    case NW => SE
    case NE => SW
    case S => N
    case SW => NE
    case SE => NW
  }

  /** The displacement table: moving from the origin gives each direction's fixed delta. */
  lemma MoveRules()
    ensures Step(Origin, N) == Coord(0, 2)
    ensures Step(Origin, NW) == Coord(-1, 1)
    ensures Step(Origin, NE) == Coord(1, 1)
    ensures Step(Origin, S) == Coord(0, -2)
    ensures Step(Origin, SW) == Coord(-1, -1)
    ensures Step(Origin, SE) == Coord(1, -1)
  {
  }

  /** A move adds the same delta wherever it starts. */
  lemma StepTranslates(c: Coord, d: Direction)
    ensures Step(c, d) == Coord(c.x + Step(Origin, d).x, c.y + Step(Origin, d).y)
  {
  }

  /** Moving in the opposite direction undoes a move, and the opposite of the opposite is the original. */
  lemma StepUndo(c: Coord, d: Direction)
    ensures Step(Step(c, d), Opposite(d)) == c
    ensures Opposite(Opposite(d)) == d
  {
  }

  /** A move always leaves the cell, and different directions lead to different cells. */
  lemma StepDistinct(c: Coord, d1: Direction, d2: Direction)
    ensures Step(c, d1) != c
    ensures Step(c, d1) == Step(c, d2) ==> d1 == d2
  {
  }

  /**
   * `Coord::hops`: with m = min(|x|, |y|), the value m + (|y| - m) / 2.
   * The dividend is never negative, so Rust's truncating `/` and Dafny's `/` agree.
   */
  function Hops(c: Coord): (h: int)
    ensures 0 <= h <= Abs(c.y)
    ensures Abs(c.y) <= Abs(c.x) ==> h == Abs(c.y)
  {
    var m := Min(Abs(c.x), Abs(c.y));
    m + (Abs(c.y) - m) / 2
  }

  /** `hops` ignores the signs of both coordinates. */
  lemma HopsSignSymmetric(c: Coord)
    ensures Hops(Coord(-c.x, c.y)) == Hops(c)
    ensures Hops(Coord(c.x, -c.y)) == Hops(c)
    ensures Hops(Coord(-c.x, -c.y)) == Hops(c)
  {
  }

  /** The reference values the program's tests check. */
  lemma HopsExamples()
    ensures Hops(Coord(0, 0)) == 0
    ensures Hops(Coord(3, 3)) == 3
    ensures Hops(Coord(2, 4)) == 3
    ensures Hops(Coord(2, 6)) == 4
  {
    assert Hops(Coord(2, 4)) == 3 by {
      assert Min(Abs(2), Abs(4)) == 2;
    }
    assert Hops(Coord(2, 6)) == 4 by {
      assert Min(Abs(2), Abs(6)) == 2;
    }
  }

  /**
   * A count of moves no walk can beat: each column needs its own diagonal move,
   * and the rows those diagonals do not cover need one north or south move per two rows.
   * It is used only to bound `Hops`; nothing here claims a walk of this length exists.
   */
  function HexDistance(c: Coord): nat
  {
    Abs(c.x) + if Abs(c.x) < Abs(c.y) then (Abs(c.y) - Abs(c.x)) / 2 else 0
  }

  /** One move changes `HexDistance` by at most one. */
  lemma StepDistance(c: Coord, d: Direction)
    ensures HexDistance(Step(c, d)) <= HexDistance(c) + 1
    ensures HexDistance(c) <= HexDistance(Step(c, d)) + 1
  {
  }

  /**
   * `Hops` never exceeds `HexDistance`; it equals it when there are at least
   * as many rows as columns, and it is strictly smaller otherwise (for a cell
   * off the origin's row).
   */
  lemma HopsVersusHexDistance(c: Coord)
    ensures Hops(c) <= HexDistance(c)
    ensures Abs(c.x) <= Abs(c.y) ==> Hops(c) == HexDistance(c)
    ensures Abs(c.y) < Abs(c.x) ==> Hops(c) < HexDistance(c)
  {
  }
}
