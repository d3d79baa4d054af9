/** The two sides of an edge or halfedge (Delaunay/LR.cs). */
module LR {

  /** `LEFT = 0`, `RIGHT = 1`; there is no third side. */
  datatype Side = LEFT | RIGHT

  /** The enum's underlying integer value. */
  function Ordinal(s: Side): (n: nat)
    ensures n < 2
    ensures n == 0 <==> s == LEFT
  {
    match s
    case LEFT => 0
    case RIGHT => 1
  }

  /** `SideHelper.Other`: the opposite side. */
  function Other(s: Side): (r: Side)
    ensures r != s
  {
    if s == LEFT then RIGHT else LEFT
  }

  /** `Other` swaps the two sides, so applying it twice is the identity. */
  lemma OtherInvolution(s: Side)
    ensures Other(Other(s)) == s
    ensures Other(LEFT) == RIGHT && Other(RIGHT) == LEFT
  {
  }

  /** A side is determined by its ordinal, and every ordinal below 2 is used. */
  lemma OrdinalBijective(s: Side, t: Side)
    ensures Ordinal(s) == Ordinal(t) <==> s == t
    ensures Ordinal(Other(s)) == 1 - Ordinal(s)
  {
  }
}
