/** The `Implies` extension on `bool` (src/util.rs). */
module WnUtil {
  /** `a.implies(b)`: material implication. */
  function Implies(a: bool, b: bool): (r: bool)
    ensures !a ==> r
    ensures a ==> (r == b)
  {
    !a || b
  }

  /**
   * `a.implies_then(f)`: the consequent is a thunk that is only forced when
   * the antecedent holds.
   */
  function ImpliesThen(a: bool, other: () -> bool): (r: bool)
    ensures !a ==> r
    ensures r == Implies(a, other())
  {
    if !a then true else other()
  }
}
