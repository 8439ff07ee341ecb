/** The fixed objective the genetic algorithm minimises, over exact reals. */
module Objective {

  /** A candidate solution: three real genes (x0, x1, x2). */
  datatype Individual = Individual(x0: real, x1: real, x2: real)

  /** The unique point where the objective is zero. */
  const Optimum: Individual := Individual(4.0, -3.0, -0.5)

  /** Products are kept behind a function so that the solver reasons about
      the sign of a square as a linear fact about this term. */
  function Product(a: real, b: real): real { a * b }

  function Square(a: real): real { Product(a, a) }

  lemma ProductOfSameSign(a: real, b: real)
    requires (a > 0.0 && b > 0.0) || (a < 0.0 && b < 0.0)
    ensures Product(a, b) > 0.0
  {
  }

  /** A square is never negative, and is zero only for zero. */
  lemma SquareSign(a: real)
    ensures Square(a) >= 0.0
    ensures Square(a) == 0.0 <==> a == 0.0
  {
    if a != 0.0 {
      ProductOfSameSign(a, a);
    }
  }

  /** 3*(x0 - 4)^2 + 5*(x1 + 3)^2 + 7*(2*x2 + 1)^2; lower is better. */
  function Target(x: Individual): real {
    3.0 * Square(x.x0 - 4.0) + 5.0 * Square(x.x1 + 3.0) + 7.0 * Square(2.0 * x.x2 + 1.0)
  }

  /** The objective is never negative, and is zero at exactly one point,
      Optimum. */
  lemma TargetSign(x: Individual)
    ensures Target(x) >= 0.0
    ensures Target(x) == 0.0 <==> x == Optimum
  {
    SquareSign(x.x0 - 4.0);
    SquareSign(x.x1 + 3.0);
    SquareSign(2.0 * x.x2 + 1.0);
  }

  /** Optimum is a global minimum of Target. */
  lemma OptimumIsMinimum(x: Individual)
    ensures Target(Optimum) <= Target(x)
  {
    TargetSign(x);
    TargetSign(Optimum);
  }

  /** Optimum is the only individual scoring as low as Optimum. */
  lemma MinimumIsOptimum(x: Individual)
    ensures Target(x) == Target(Optimum) ==> x == Optimum
  {
    TargetSign(x);
    TargetSign(Optimum);
  }
}
