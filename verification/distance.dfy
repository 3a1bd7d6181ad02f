/**
 Route lengths. The Ruby stores kilometres as Ruby integers and uses the
 float `INFTY = 1.0/0.0` both as "no route" and as the starting value of
 searches; here infinity is its own constructor. Distance queries return -1
 for an unknown airport; that sentinel is `Unknown`.
 */
module Distance {

  datatype Dist = Fin(n: nat) | Inf

  datatype Lookup = Unknown | Known(d: Dist)

  /** Ruby's `<` between an Integer or `INFTY` and another: `INFTY < INFTY` is false. */
  predicate Below(a: Dist, b: Dist) {
    match (a, b)
    case (Fin(x), Fin(y)) => x < y
    case (Fin(_), Inf) => true
    case (Inf, _) => false
  }

  /** Ruby's `+`: anything plus `INFTY` is `INFTY`. */
  function Plus(a: Dist, b: Dist): Dist {
    if a.Fin? && b.Fin? then Fin(a.n + b.n) else Inf
  }

  /** `a <= b` in the same order. */
  predicate AtMost(a: Dist, b: Dist) {
    !Below(b, a)
  }
}
