/**
 * `ExpectFalse<T extends false>`: `Equal<T, false>` for a type argument that
 * satisfies the constraint `false`; `never` satisfies it too.  A rejected
 * argument still gets a value: the comparison with `false`, which is `false`.
 */
module ExpectFalse {
  import opened Types
  import opened Assignability
  import opened Conditional
  import Equal

  /** The constraint `T extends false` holds for the argument `t`. */
  ghost predicate Accepts(t: Ty)
  {
    Assignable(Resolve(t), BoolLit(false))
  }

  /** `ExpectFalse<T>`: true exactly for `false` itself. */
  ghost function ExpectFalse(t: Ty): (r: Outcome)
    ensures r == {Resolve(t) == BoolLit(false)}
  {
    ResolveFixesResolved(BoolLit(false));
    Equal.Equal(t, BoolLit(false))
  }

  /**
   * The arguments the constraint lets through: `false`, `never`, `any`, an
   * intersection holding `false`, and unions of such intersections.
   */
  lemma AcceptsExactly(t: Ty)
    ensures Accepts(t) <==>
      var T := Resolve(t);
      T.Never? || T.Any? || HoldsBoolLit(T, false) || (T.Union? && forall a :: a in T.alts ==> HoldsBoolLit(a, false))
  {
    ToBoolLit(Resolve(t), false);
  }

  /** Only `false` itself gives `true`; every other argument, accepted or not, gives `false`. */
  lemma ExpectFalseTrueOnlyForFalse(t: Ty)
    ensures ExpectFalse(t) == {true} <==> Resolve(t) == BoolLit(false)
    ensures ExpectFalse(t) == {false} <==> Resolve(t) != BoolLit(false)
  {
  }

  // ---------------------------------------------------------------------
  // The expected values of the library's own cases

  /** `ExpectFalse<false>` is `true`; `ExpectFalse<never>` is accepted and `false`. */
  lemma ExpectFalseCases()
    ensures Accepts(BoolLit(false)) && ExpectFalse(BoolLit(false)) == {true}
    ensures Accepts(Never) && ExpectFalse(Never) == {false}
  {
  }

  /** A resolved type that is not a union, an intersection, `never`, `any` or `false` is rejected. */
  lemma RejectsSingle(t: Ty)
    requires Resolved(t) && !t.Union? && !t.Inter? && !t.Never? && !t.Any? && t != BoolLit(false)
    ensures !Accepts(t)
  {
    ResolveFixesResolved(t);
    ToBoolLit(t, false);
  }

  /** The constraint rejects `true`, `unknown`, `string`, `'false'`, `''`, `0`, `undefined` and `null`, and each gives `false`. */
  lemma ExpectFalseRejectsPlain()
    ensures !Accepts(BoolLit(true)) && !Accepts(Unknown) && !Accepts(Str)
    ensures !Accepts(StrLit("false")) && !Accepts(StrLit("")) && !Accepts(NumLit(0))
    ensures !Accepts(Undefined) && !Accepts(Null)
    ensures ExpectFalse(BoolLit(true)) == ExpectFalse(Unknown) == ExpectFalse(Str) == {false}
    ensures ExpectFalse(StrLit("false")) == ExpectFalse(StrLit("")) == ExpectFalse(NumLit(0)) == {false}
    ensures ExpectFalse(Undefined) == ExpectFalse(Null) == {false}
  {
    RejectsSingle(BoolLit(true));
    RejectsSingle(Unknown);
    RejectsSingle(Str);
    RejectsSingle(StrLit("false"));
    RejectsSingle(StrLit(""));
    RejectsSingle(NumLit(0));
    RejectsSingle(Undefined);
    RejectsSingle(Null);
  }

  /** The constraint rejects `boolean`, which gives `false`. */
  lemma ExpectFalseRejectsBoolean()
    ensures !Accepts(Boolean) && ExpectFalse(Boolean) == {false}
  {
    BooleanNotLiteral();
  }

  lemma BooleanNotLiteral()
    ensures Resolve(Boolean) == Boolean && !Assignable(Boolean, BoolLit(false))
  {
    BooleanResolved();
    UnionToBoolLit(Boolean, false);
    assert BoolLit(true) in Boolean.alts;
  }

  /** The constraint rejects `1 | false`, which gives `false`. */
  lemma ExpectFalseRejectsUnion()
    ensures !Accepts(Union({NumLit(1), BoolLit(false)})) && ExpectFalse(Union({NumLit(1), BoolLit(false)})) == {false}
  {
    PairResolved(NumLit(1), BoolLit(false));
    UnionToBoolLit(Union({NumLit(1), BoolLit(false)}), false);
    assert NumLit(1) in Union({NumLit(1), BoolLit(false)}).alts;
  }
}
