/**
 * `Equal<A, B>`: the function-type probe `<T>() => T extends A ? 1 : 2`
 * compared against the same probe built from `B`. The checker relates two
 * such deferred conditionals only when their operands are identical, so the
 * probe answers whether `A` and `B` resolve to the same type.
 */
module Equal {
  import opened Types
  import opened Assignability
  import opened Conditional

  /** `Equal<A, B>` */
  ghost function Equal(a: Ty, b: Ty): (r: Outcome)
    ensures r == {Resolve(a) == Resolve(b)}
  {
    assert Assignable(Probe(Resolve(a)), Probe(Resolve(b)))
      == PlainAssignable(Probe(Resolve(a)), Probe(Resolve(b)));
    Branches(Probe(Resolve(a)), Probe(Resolve(b)))
  }

  /** The check type is a function type, not a bare parameter: the answer is always `true` or `false`. */
  lemma EqualStrict(a: Ty, b: Ty)
    ensures Strict(Equal(a, b))
  {
  }

  /** Every type is `Equal` to itself, `never`, `any` and `unknown` included. */
  lemma EqualReflexive(a: Ty)
    ensures Equal(a, a) == {true}
  {
  }

  /** Both sides go through the same probe: swapping them gives the same answer. */
  lemma EqualSymmetric(a: Ty, b: Ty)
    ensures Equal(a, b) == Equal(b, a)
  {
  }

  lemma EqualTransitive(a: Ty, b: Ty, c: Ty)
    requires Equal(a, b) == {true} && Equal(b, c) == {true}
    ensures Equal(a, c) == {true}
  {
  }

  /** A type and its resolved form are `Equal`: only the resolved form is observed. */
  lemma EqualResolved(a: Ty)
    ensures Equal(a, Resolve(a)) == {true}
  {
    ResolveIdempotent(a);
  }

  // ---------------------------------------------------------------------
  // The expected values of the library's own cases

  /** A literal is not its base type. */
  lemma EqualLiteralBaseCases(s: string, n: int)
    ensures Equal(StrLit(s), Str) == {false}
    ensures Equal(NumLit(n), Num) == {false}
  {
  }

  /** `true` (or `false`) is not `boolean`. */
  lemma EqualBooleanLiteralCase(b: bool)
    ensures Equal(BoolLit(b), Boolean) == {false}
  {
    BooleanResolved();
  }

  /** A bigint literal is neither `bigint` nor a number literal. */
  lemma EqualBigIntCases(n: int, m: int)
    ensures Equal(BigLit(n), Big) == {false}
    ensures Equal(BigLit(n), NumLit(m)) == {false}
  {
  }

  /** Unions are compared whole: `1 | 2` is neither `1` nor `number`. */
  lemma EqualNumberUnionCases(m: int, n: int)
    requires m != n
    ensures Equal(Union({NumLit(m), NumLit(n)}), NumLit(m)) == {false}
    ensures Equal(Union({NumLit(m), NumLit(n)}), Num) == {false}
  {
    PairResolved(NumLit(m), NumLit(n));
  }

  /** `'a' | 'b'` is not `string`. */
  lemma EqualStringUnionCase(s: string, t: string)
    requires s != t
    ensures Equal(Union({StrLit(s), StrLit(t)}), Str) == {false}
  {
    PairResolved(StrLit(s), StrLit(t));
  }

  /** `true | false` is `boolean`. */
  lemma EqualBooleanCase()
    ensures Equal(Union({BoolLit(true), BoolLit(false)}), Boolean) == {true}
  {
  }

  /** An object type with a union field is not the `object` keyword type. */
  lemma EqualObjectKeywordCase(m: int, n: int)
    requires m != n
    ensures Equal(Shape(map["a" := Union({NumLit(m), NumLit(n)})]), ObjectKw) == {false}
  {
    PairResolved(NumLit(m), NumLit(n));
    var sh := Shape(map["a" := Union({NumLit(m), NumLit(n)})]);
    assert Resolved(sh);
    ResolveFixesResolved(sh);
  }

  /** An intersection of two object types differs from the merged object type. */
  lemma EqualObjectIntersectionCase(x: Ty, y: Ty)
    requires Resolved(x) && Resolved(y)
    ensures Equal(Shape(map["a" := x, "b" := y]), Inter([Shape(map["a" := x]), Shape(map["b" := y])])) == {false}
  {
    var sa := Shape(map["a" := x]);
    var sb := Shape(map["b" := y]);
    assert "a"[0] != "b"[0];
    assert "a" in sa.fields && "a" !in sb.fields && "b" in sb.fields;
    ObjectPairResolved(sa, sb);
  }

  /**
   * The order of the parts of an intersection is not observed: `A & B` is
   * `Equal` to `B & A` whenever they do not both resolve to unions.
   */
  lemma EqualInterOrder(p: Ty, q: Ty)
    requires !(Resolve(p).Union? && Resolve(q).Union?)
    ensures Equal(Inter([p, q]), Inter([q, p])) == {true}
  {
    ResolveInterSwap(p, q);
  }

  /** `{a: x} & {b: y}` is `Equal` to `{b: y} & {a: x}`. */
  lemma EqualObjectOrderCase(x: Ty, y: Ty)
    ensures Equal(Inter([Shape(map["a" := x]), Shape(map["b" := y])]), Inter([Shape(map["b" := y]), Shape(map["a" := x])])) == {true}
  {
    EqualInterOrder(Shape(map["a" := x]), Shape(map["b" := y]));
  }

  /** Object types whose shared property holds different literals intersect to `never`: `{a: 1} & {a: 2}`. */
  lemma EqualClashCase(m: int, n: int)
    requires m != n
    ensures Equal(Inter([Shape(map["a" := NumLit(m)]), Shape(map["a" := NumLit(n)])]), Never) == {true}
  {
    ClashingShapes(Shape(map["a" := NumLit(m)]), Shape(map["a" := NumLit(n)]), "a");
  }

  /** `{a: string} & {a: number}` is kept as an intersection, not `never`. */
  lemma EqualWideClashCase()
    ensures Equal(Inter([Shape(map["a" := Str]), Shape(map["a" := Num])]), Never) == {false}
  {
    WideClashKept();
  }

  /** `string & {}` is not `string`: the `{}` part is kept next to a primitive. */
  lemma EqualBrandedPrimitiveCase()
    ensures Equal(Inter([Str, EmptyObject]), Str) == {false}
  {
    EmptyObjectWithPrimitive();
  }

  /** `1 & {}` is `1` and `object & {}` is `object`: the `{}` part is dropped next to a literal or `object`. */
  lemma EqualEmptyObjectLiteralCase(x: Ty)
    requires IsLiteral(x) || x.ObjectKw?
    ensures Equal(Inter([x, EmptyObject]), x) == {true}
  {
    EmptyObjectWithLiteral(x);
  }

  /** `{a: x} & {}` is `{a: x}`: the `{}` part is dropped next to an object type. */
  lemma EqualEmptyObjectCase(x: Ty)
    ensures Equal(Inter([Shape(map["a" := x]), EmptyObject]), Shape(map["a" := x])) == {true}
  {
    var sa, rx := Shape(map["a" := x]), Shape(map["a" := Resolve(x)]);
    assert Resolve(sa) == rx;
    ResolveInterOf(sa, EmptyObject);
    ResolveInterOf(rx, EmptyObject);
    EmptyObjectWithShape(Resolve(x));
    HalvesResolved(Resolve(x), Resolve(x));
    ResolveFixesResolved(rx);
  }

  /** Intersections of incompatible primitives collapse to `never`. */
  lemma EqualCollapsedIntersectionCases(m: int, n: int)
    requires m != n
    ensures Equal(Inter([NumLit(m), NumLit(n)]), Never) == {true}
    ensures Equal(Inter([Str, Num]), Never) == {true}
  {
    CollapsedPair(NumLit(m), NumLit(n));
    CollapsedPair(Str, Num);
  }

  /** Tuple order matters. */
  lemma EqualTupleOrderCase(x: Ty, y: Ty)
    requires Resolved(x) && Resolved(y) && x != y
    ensures Equal(Tuple([x, y], false), Tuple([y, x], false)) == {false}
  {
    assert Resolved(Tuple([x, y], false)) && Resolved(Tuple([y, x], false));
    ResolveFixesResolved(Tuple([x, y], false));
    ResolveFixesResolved(Tuple([y, x], false));
    assert [x, y][0] != [y, x][0];
  }

  /** `[]` is not `unknown[]`. */
  lemma EqualEmptyTupleCase()
    ensures Equal(Tuple([], false), Array(Unknown, false)) == {false}
  {
    ResolveFixesResolved(Tuple([], false));
  }

  /** `any` is neither `{}`, a literal nor `never`. */
  lemma EqualAnyCases(n: int)
    ensures Equal(Any, EmptyObject) == {false}
    ensures Equal(Any, NumLit(n)) == {false}
    ensures Equal(Any, Never) == {false}
  {
    ResolveFixesResolved(EmptyObject);
  }

  /** `unknown` is neither `{}`, a literal nor `never`. */
  lemma EqualUnknownCases(n: int)
    ensures Equal(Unknown, EmptyObject) == {false}
    ensures Equal(Unknown, NumLit(n)) == {false}
    ensures Equal(Unknown, Never) == {false}
  {
    ResolveFixesResolved(EmptyObject);
  }

  /** `never` is neither `{}` nor a literal. */
  lemma EqualNeverCases(n: int)
    ensures Equal(Never, EmptyObject) == {false}
    ensures Equal(Never, NumLit(n)) == {false}
  {
    ResolveFixesResolved(EmptyObject);
  }
}
