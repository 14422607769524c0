/**
 * `NotEqual<A, B>`: the probe comparison of `Equal` with its branches
 * swapped.
 */
module NotEqual {
  import opened Types
  import opened Assignability
  import opened Conditional
  import Equal

  /** `NotEqual<A, B>` */
  ghost function NotEqual(a: Ty, b: Ty): (r: Outcome)
    ensures r == {Resolve(a) != Resolve(b)}
  {
    assert Assignable(Probe(Resolve(a)), Probe(Resolve(b)))
      == PlainAssignable(Probe(Resolve(a)), Probe(Resolve(b)));
    Select(Branches(Probe(Resolve(a)), Probe(Resolve(b))), {false}, {true})
  }

  /** `NotEqual` answers `false` exactly where `Equal` answers `true`, and the other way round. */
  lemma NotEqualNegatesEqual(a: Ty, b: Ty)
    ensures NotEqual(a, b) == {false} <==> Equal.Equal(a, b) == {true}
    ensures NotEqual(a, b) == {true} <==> Equal.Equal(a, b) == {false}
  {
  }

  /** The answer is always `true` or `false`. */
  lemma NotEqualStrict(a: Ty, b: Ty)
    ensures Strict(NotEqual(a, b))
  {
  }

  /** No type is `NotEqual` to itself. */
  lemma NotEqualIrreflexive(a: Ty)
    ensures NotEqual(a, a) == {false}
  {
  }

  /** `A & B` and `B & A` are not `NotEqual` whenever they do not both resolve to unions. */
  lemma NotEqualInterOrder(p: Ty, q: Ty)
    requires !(Resolve(p).Union? && Resolve(q).Union?)
    ensures NotEqual(Inter([p, q]), Inter([q, p])) == {false}
  {
    ResolveInterSwap(p, q);
  }

  /** Pairs that `Equal` separates: a literal and its base type, `never` and a literal. */
  lemma NotEqualCases(n: int)
    ensures NotEqual(NumLit(n), Num) == {true}
    ensures NotEqual(Never, NumLit(n)) == {true}
  {
  }
}
