/**
 * `Expect<T extends true>`: `Equal<T, true>` for a type argument that
 * satisfies the constraint `true`.  The constraint is checked where the
 * alias is used: an argument that is not assignable to `true` is a compile
 * error, and `never` (assignable to everything) slips through.  A rejected
 * argument still gets a value: the comparison with `true`, which is `false`.
 */
module Expect {
  import opened Types
  import opened Assignability
  import opened Conditional
  import Equal

  /** The constraint `T extends true` holds for the argument `t`. */
  ghost predicate Accepts(t: Ty)
  {
    Assignable(Resolve(t), BoolLit(true))
  }

  /** `Expect<T>`: true exactly for `true` itself. */
  ghost function Expect(t: Ty): (r: Outcome)
    ensures r == {Resolve(t) == BoolLit(true)}
  {
    ResolveFixesResolved(BoolLit(true));
    Equal.Equal(t, BoolLit(true))
  }

  /**
   * The arguments the constraint lets through: `true`, `never`, `any`, an
   * intersection holding `true`, and unions of such intersections.
   */
  lemma AcceptsExactly(t: Ty)
    ensures Accepts(t) <==>
      var T := Resolve(t);
      T.Never? || T.Any? || HoldsBoolLit(T, true) || (T.Union? && forall a :: a in T.alts ==> HoldsBoolLit(a, true))
  {
    ToBoolLit(Resolve(t), true);
  }

  /** Only `true` itself gives `true`; every other argument, accepted or not, gives `false`. */
  lemma ExpectTrueOnlyForTrue(t: Ty)
    ensures Expect(t) == {true} <==> Resolve(t) == BoolLit(true)
    ensures Expect(t) == {false} <==> Resolve(t) != BoolLit(true)
  {
  }

  // ---------------------------------------------------------------------
  // The expected values of the library's own cases

  /** `Expect<true>` is `true`; `Expect<never>` is accepted and `false`. */
  lemma ExpectCases()
    ensures Accepts(BoolLit(true)) && Expect(BoolLit(true)) == {true}
    ensures Accepts(Never) && Expect(Never) == {false}
  {
  }

  /** A resolved type that is not a union, an intersection, `never`, `any` or `true` is rejected. */
  lemma RejectsSingle(t: Ty)
    requires Resolved(t) && !t.Union? && !t.Inter? && !t.Never? && !t.Any? && t != BoolLit(true)
    ensures !Accepts(t)
  {
    ResolveFixesResolved(t);
    ToBoolLit(t, true);
  }

  /** The constraint rejects `false`, `unknown`, `string`, `'true'`, `''`, `0`, `undefined` and `null`, and each gives `false`. */
  lemma ExpectRejectsPlain()
    ensures !Accepts(BoolLit(false)) && !Accepts(Unknown) && !Accepts(Str)
    ensures !Accepts(StrLit("true")) && !Accepts(StrLit("")) && !Accepts(NumLit(0))
    ensures !Accepts(Undefined) && !Accepts(Null)
    ensures Expect(BoolLit(false)) == Expect(Unknown) == Expect(Str) == {false}
    ensures Expect(StrLit("true")) == Expect(StrLit("")) == Expect(NumLit(0)) == {false}
    ensures Expect(Undefined) == Expect(Null) == {false}
  {
    RejectsSingle(BoolLit(false));
    RejectsSingle(Unknown);
    RejectsSingle(Str);
    RejectsSingle(StrLit("true"));
    RejectsSingle(StrLit(""));
    RejectsSingle(NumLit(0));
    RejectsSingle(Undefined);
    RejectsSingle(Null);
  }

  /** The constraint rejects `boolean`, which gives `false`. */
  lemma ExpectRejectsBoolean()
    ensures !Accepts(Boolean) && Expect(Boolean) == {false}
  {
    BooleanNotLiteral();
  }

  lemma BooleanNotLiteral()
    ensures Resolve(Boolean) == Boolean && !Assignable(Boolean, BoolLit(true))
  {
    BooleanResolved();
    UnionToBoolLit(Boolean, true);
    assert BoolLit(false) in Boolean.alts;
  }

  /** The constraint rejects `1 | false`, which gives `false`. */
  lemma ExpectRejectsUnion()
    ensures !Accepts(Union({NumLit(1), BoolLit(false)})) && Expect(Union({NumLit(1), BoolLit(false)})) == {false}
  {
    PairResolved(NumLit(1), BoolLit(false));
    UnionToBoolLit(Union({NumLit(1), BoolLit(false)}), true);
    assert NumLit(1) in Union({NumLit(1), BoolLit(false)}).alts;
  }
}
