/**
 * The key of the solver's candidate store: a pair (x, y) with a hand-written
 * comparison. The solver always builds it as Coordinate(row, col).
 */
module Coordinates {

  datatype Coordinate = Coordinate(x: int, y: int) {

    function GetX(): int { x }

    function GetY(): int { y }

    /** Descending on x, then descending on y: -1 when this comes first. */
    function CompareTo(c: Coordinate): (r: int)
      ensures r == -1 || r == 0 || r == 1
      ensures r == 0 <==> c == this
    {
      if c.GetX() == x then
        if c.GetY() == y then 0
        else if c.GetY() < y then -1
        else 1
      else if c.GetX() < x then -1
      else 1
    }
  }

  /** The strict order that CompareTo induces: a sorts before b. */
  predicate Before(a: Coordinate, b: Coordinate) {
    a.CompareTo(b) == -1
  }

  lemma AccessorsReturnComponents(x: int, y: int)
    ensures Coordinate(x, y).GetX() == x && Coordinate(x, y).GetY() == y
  {
  }

  lemma CompareToAntisymmetric(a: Coordinate, b: Coordinate)
    ensures a.CompareTo(b) == -b.CompareTo(a)
  {
  }

  lemma BeforeIsDescending(a: Coordinate, b: Coordinate)
    ensures Before(a, b) <==> a.x > b.x || (a.x == b.x && a.y > b.y)
  {
  }

  lemma BeforeIsTransitive(a: Coordinate, b: Coordinate, c: Coordinate)
    requires Before(a, b) && Before(b, c)
    ensures Before(a, c)
  {
  }

  /** Irreflexive, transitive and connected: a strict total order. */
  lemma BeforeIsStrictTotalOrder()
    ensures forall a: Coordinate :: !Before(a, a)
    ensures forall a: Coordinate, b: Coordinate, c: Coordinate :: Before(a, b) && Before(b, c) ==> Before(a, c)
    ensures forall a: Coordinate, b: Coordinate :: a != b ==> Before(a, b) || Before(b, a)
    ensures forall a: Coordinate, b: Coordinate :: Before(a, b) ==> !Before(b, a)
  {
  }
}
