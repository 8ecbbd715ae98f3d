/** Distance matrices in which legs may be missing. */
module Matrices {
  import opened Options

  type Matrix = seq<seq<Option<real>>>

  /** `distances[i]?.[j]`: a cell outside the matrix is missing. */
  function Leg(m: Matrix, i: int, j: int): Option<real> {
    if 0 <= i < |m| && 0 <= j < |m[i]| then m[i][j] else None
  }

  ghost predicate Symmetric(m: Matrix) {
    forall i, j :: Leg(m, i, j) == Leg(m, j, i)
  }

  /** Symmetric but for the legs from and to one node. */
  ghost predicate SymmetricApartFrom(m: Matrix, node: int) {
    forall i, j | i != node && j != node :: Leg(m, i, j) == Leg(m, j, i)
  }
}
