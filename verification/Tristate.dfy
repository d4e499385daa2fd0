/** The three-valued logic of the configuration language: n < m < y, with
    minimum, maximum and 2-x as its connectives. */
module Tristate {

  type Tri = x: int | 0 <= x <= 2

  const NO: Tri := 0
  const MOD: Tri := 1
  const YES: Tri := 2

  datatype Op = Conj | Disj

  function Apply(op: Op, a: Tri, b: Tri): Tri {
    match op
    case Conj => if a < b then a else b
    case Disj => if a > b then a else b
  }

  function Negate(a: Tri): Tri {
    2 - a
  }

  /** The value that leaves its partner alone: y for a conjunction, n for a disjunction. */
  function Unit(op: Op): Tri {
    if op.Conj? then YES else NO
  }

  /** The value that decides the result alone. */
  function Zero(op: Op): Tri {
    if op.Conj? then NO else YES
  }

  lemma UnitZero(op: Op, a: Tri)
    ensures Apply(op, Unit(op), a) == a == Apply(op, a, Unit(op))
    ensures Apply(op, Zero(op), a) == Zero(op) == Apply(op, a, Zero(op))
  {
  }

  lemma Regroup(op: Op, a: Tri, b: Tri, c: Tri, d: Tri)
    ensures Apply(op, Apply(op, a, b), Apply(op, c, d)) == Apply(op, Apply(op, a, c), Apply(op, b, d))
    ensures Apply(op, Apply(op, a, b), c) == Apply(op, a, Apply(op, c, b))
  {
  }

  lemma Swap(op: Op, a: Tri, b: Tri, c: Tri)
    ensures Apply(op, a, Apply(op, b, c)) == Apply(op, Apply(op, a, c), b)
    ensures Apply(op, a, Apply(op, b, c)) == Apply(op, Apply(op, a, b), c)
  {
  }

  lemma Commute(op: Op, a: Tri, b: Tri)
    ensures Apply(op, a, b) == Apply(op, b, a)
  {
  }

  lemma Monotone(op: Op, a: Tri, b: Tri, c: Tri)
    requires a <= b
    ensures Apply(op, a, c) <= Apply(op, b, c)
  {
  }

  /** Information order: m may still become anything, n and y are settled. */
  predicate Refines(a: Tri, b: Tri) {
    a == MOD || a == b
  }

  /** What a boolean symbol makes of a tristate visibility: m counts as y. */
  function Promote(a: Tri): Tri {
    if a == MOD then YES else a
  }

  function Truth(b: bool): Tri {
    if b then YES else NO
  }
}
