/** The score type shared by the matchers.

    The program keeps scores in doubles, but every finite score it forms is a
    small integer, and adding a small integer to 1e308 or -1e308 gives the same
    double back.  A score is therefore an integer with two absorbing ends.
  */
module Scores {

  datatype Score = MinusInf | Fin(value: int) | PlusInf {

    /** Adding a finite amount, absorbed by either end. */
    function Plus(k: int): Score {
      match this
      case MinusInf => MinusInf
      case Fin(v) => Fin(v + k)
      case PlusInf => PlusInf
    }

    predicate Lt(other: Score) {
      match this
      case MinusInf => !other.MinusInf?
      case Fin(v) => other.PlusInf? || (other.Fin? && v < other.value)
      case PlusInf => false
    }

    predicate AtMost(other: Score) {
      !other.Lt(this)
    }
  }

  function Max(a: Score, b: Score): Score {
    if b.Lt(a) then a else b
  }

  function MaxInt(a: int, b: int): int {
    if a > b then a else b
  }
}
