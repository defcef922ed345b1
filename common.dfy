/** Values shared by the route engine: an optional result (JavaScript's
    `null`) and the natural numbers extended with JavaScript's `Infinity`. */
module Common {

  datatype Option<T> = None | Some(value: T)

  /** A distance that is either finite or `Infinity`. */
  datatype ExtNat = Fin(n: nat) | Inf

  /** `a + b`, where anything plus `Infinity` is `Infinity`. */
  function Add(a: ExtNat, b: ExtNat): ExtNat
  {
    if a.Fin? && b.Fin? then Fin(a.n + b.n) else Inf
  }

  /** `a < b` as JavaScript evaluates it on numbers and `Infinity`
      (`Infinity < Infinity` is false). */
  predicate Less(a: ExtNat, b: ExtNat)
  {
    a.Fin? && (b.Inf? || a.n < b.n)
  }

  /** `a <= b`. */
  predicate AtMost(a: ExtNat, b: ExtNat)
  {
    b.Inf? || (a.Fin? && a.n <= b.n)
  }
}
