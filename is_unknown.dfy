/**
 * `IsUnknown<T>`:
 * `[unknown] extends [T] ? (IsAny<T> extends true ? false : (IsNever<T> extends true ? false : true)) : false`.
 * Wrapping both sides in one-element tuples keeps the outer conditional from
 * distributing; the guard lets through exactly the types `unknown` is
 * assignable to, and the nested conditionals then throw out `any` and `never`.
 */
module IsUnknown {
  import opened Types
  import opened Assignability
  import opened Conditional
  import IsAny
  import IsNever
  import Equal

  /** `IsUnknown<T>` */
  ghost function IsUnknown(t: Ty): (r: Outcome)
    ensures var T := Resolve(t); r == {Assignable(Unknown, T) && !T.Any? && !T.Never?}
  {
    var T := Resolve(t);
    var isAny := OutcomeType(IsAny.IsAny(t));
    var isNever := OutcomeType(IsNever.IsNever(t));
    WrappedAssignable(Unknown, T);
    ExtendsTrue(IsAny.IsAny(t));
    ExtendsTrue(IsNever.IsNever(t));
    Select(Branches(Tuple([Unknown], false), Tuple([T], false)),
      Select(Branches(isAny, BoolLit(true)), {false},
        Select(Branches(isNever, BoolLit(true)), {false}, {true})),
      {false})
  }

  /**
   * `IsUnknown` is true for `unknown` and for a union that holds `{}`,
   * `null` and `undefined` (which `unknown` is assignable to), false for
   * everything else.
   */
  lemma IsUnknownExactly(t: Ty)
    ensures var T := Resolve(t);
      IsUnknown(t) == {T.Unknown? || (T.Union? && EmptyObject in T.alts && Null in T.alts && Undefined in T.alts)}
  {
  }

  /**
   * `{} | null | undefined` holds every value `unknown` holds but is not
   * `unknown`; the guard `[unknown] extends [T]` lets it through all the same.
   */
  lemma IsUnknownNullishObjectUnion()
    ensures var u := Union({EmptyObject, Null, Undefined});
      IsUnknown(u) == {true} && !Resolve(u).Unknown?
  {
    var S := {EmptyObject, Null, Undefined};
    assert |S| == 3;
    MembersResolved(S);
    IsUnknownExactly(Union(S));
  }

  /** `IsUnknown` as documented: `true` exactly for types that resolve to `unknown`. */
  ghost function IsUnknownIntended(t: Ty): (r: Outcome)
    ensures r == {Resolve(t).Unknown?}
  {
    Equal.Equal(t, Unknown)
  }

  /** The documented and the written `IsUnknown` part ways exactly on unions holding `{}`, `null` and `undefined`. */
  lemma IsUnknownIntendedDiffers(t: Ty)
    ensures var T := Resolve(t);
      IsUnknownIntended(t) != IsUnknown(t) <==> T.Union? && EmptyObject in T.alts && Null in T.alts && Undefined in T.alts
  {
    IsUnknownExactly(t);
  }

  /** `IsUnknown` is always `true` or `false`. */
  lemma IsUnknownStrict(t: Ty)
    ensures Strict(IsUnknown(t))
  {
  }

  // ---------------------------------------------------------------------
  // The expected values of the library's own cases

  /** `unknown` is `unknown`, and so is a union with it of anything but `any`. */
  lemma IsUnknownUnionCase(x: Ty)
    requires Resolved(x) && !x.Any?
    ensures IsUnknown(Union({x, Unknown})) == {true}
  {
    UnionWithUnknown(x);
  }

  /** `unknown` itself. */
  lemma IsUnknownCase()
    ensures IsUnknown(Unknown) == {true}
  {
  }

  /** A type other than `unknown` that is not a union is not `unknown`. */
  lemma IsUnknownSingle(t: Ty)
    requires !Resolve(t).Union? && !Resolve(t).Unknown?
    ensures IsUnknown(t) == {false}
  {
    IsUnknownExactly(t);
  }

  /** `never` and `any` are not `unknown`. */
  lemma IsUnknownSentinelCases()
    ensures IsUnknown(Never) == {false} && IsUnknown(Any) == {false}
  {
    IsUnknownNeverCase();
    IsUnknownAnyCase();
  }

  lemma IsUnknownNeverCase()
    ensures IsUnknown(Never) == {false}
  {
    IsUnknownSingle(Never);
  }

  lemma IsUnknownAnyCase()
    ensures IsUnknown(Any) == {false}
  {
    IsUnknownSingle(Any);
  }

  /** Literals are not `unknown`. */
  lemma IsUnknownLiteralCases(n: int, s: string, v: bool)
    ensures IsUnknown(NumLit(n)) == {false} && IsUnknown(StrLit(s)) == {false}
    ensures IsUnknown(BoolLit(v)) == {false}
  {
    LiteralNotUnknown(NumLit(n));
    LiteralNotUnknown(StrLit(s));
    LiteralNotUnknown(BoolLit(v));
  }

  lemma LiteralNotUnknown(lit: Ty)
    requires IsLiteral(lit)
    ensures IsUnknown(lit) == {false}
  {
    ResolveFixesResolved(lit);
    IsUnknownSingle(lit);
  }

  /** `{}` is not `unknown`. */
  lemma IsUnknownEmptyObjectCase()
    ensures IsUnknown(EmptyObject) == {false}
  {
    IsUnknownSingle(EmptyObject);
  }

  /** `boolean` is not `unknown`: it lacks `{}`, `null` and `undefined`. */
  lemma IsUnknownBooleanCase()
    ensures IsUnknown(Boolean) == {false}
  {
    BooleanLacksNull();
    IsUnknownWithoutNull(Boolean);
  }

  lemma BooleanLacksNull()
    ensures Resolve(Boolean).Union? && Null !in Resolve(Boolean).alts
  {
    BooleanResolved();
    NullNotBoolean();
  }

  lemma NullNotBoolean()
    ensures Null !in Boolean.alts
  {
  }

  /** A union without `null` is not `unknown`. */
  lemma IsUnknownWithoutNull(t: Ty)
    requires Resolve(t).Union? && Null !in Resolve(t).alts
    ensures IsUnknown(t) == {false}
  {
    IsUnknownExactly(t);
  }

  /** `any | unknown` resolves to `any`. */
  lemma IsUnknownAnyUnionCase()
    ensures IsUnknown(Union({Unknown, Any})) == {false}
  {
    UnionWithAny(Unknown);
  }

  /** `any & unknown` is `any`, `never & unknown` is `never`, `{} & unknown` is `{}`. */
  lemma IsUnknownIntersectionCases()
    ensures IsUnknown(Inter([Any, Unknown])) == {false}
    ensures IsUnknown(Inter([Never, Unknown])) == {false}
  {
    ResolveInter2(Any, Unknown);
    ResolveInter2(Never, Unknown);
  }

  lemma IsUnknownEmptyObjectInterCase()
    ensures IsUnknown(Inter([EmptyObject, Unknown])) == {false}
  {
    assert Resolved(EmptyObject);
    ResolveInter2(EmptyObject, Unknown);
    assert Meet(EmptyObject, Unknown) == EmptyObject;
    IsUnknownSingle(Inter([EmptyObject, Unknown]));
  }
}
