/**
 * `SimpleEqual<A, B>`: `A extends B ? (B extends A ? true : false) : false`.
 * Both `A` and `B` are bare type parameters, so the outer conditional
 * distributes over the alternatives of `A`, and inside its true branch `A`
 * stands for the alternative at hand while the inner conditional distributes
 * over the alternatives of `B`.  The result can therefore take both branches
 * (`boolean`) or none (`never`), unlike `Equal`.
 */
module SimpleEqual {
  import opened Types
  import opened Assignability
  import opened Conditional

  /** The branches taken for one alternative `u` of `A`. */
  ghost function Inner(u: Ty, B: Ty): Outcome
  {
    Select(Branches(u, B), Dist(B, u), {false})
  }

  /** Some alternative of `A` yields `x`. */
  ghost predicate Yields(A: Ty, B: Ty, x: bool)
  {
    exists u :: u in Alternatives(A) && x in Inner(u, B)
  }

  /** `SimpleEqual<A, B>`; it is `never` exactly when `A` is. */
  ghost function SimpleEqual(a: Ty, b: Ty): (r: Outcome)
    ensures r == {} <==> Resolve(a).Never?
  {
    var A, B := Resolve(a), Resolve(b);
    var r := (if Yields(A, B, true) then {true} else {}) + (if Yields(A, B, false) then {false} else {});
    YieldsSome(A, B);
    r
  }

  /** A resolved `A` yields some branch exactly when it is not `never`. */
  lemma YieldsSome(A: Ty, B: Ty)
    requires Resolved(A) && Resolved(B)
    ensures Yields(A, B, true) || Yields(A, B, false) <==> !A.Never?
  {
    if !A.Never? {
      var alts := Alternatives(A);
      var u :| u in alts;
      assert Resolved(u) && !u.Never?;
      YieldsFrom(A, B, u);
    }
  }

  lemma YieldsFrom(A: Ty, B: Ty, u: Ty)
    requires u in Alternatives(A) && Resolved(u) && !u.Never? && Resolved(B)
    ensures Yields(A, B, true) || Yields(A, B, false)
  {
    InnerNonEmpty(u, B);
    var x :| x in Inner(u, B);
    assert Yields(A, B, x);
  }

  /** One alternative other than `never` always yields some branch. */
  lemma InnerNonEmpty(u: Ty, B: Ty)
    requires Resolved(u) && !u.Never? && Resolved(B)
    ensures Inner(u, B) != {}
  {
    if B.Never? && !u.Any? {
      NeverOnlyToNever(u);
    }
  }

  /** Without `any` on the left, one alternative answers by assignability first, then by the inner distribution. */
  lemma InnerPlain(u: Ty, B: Ty)
    requires !u.Any?
    ensures Inner(u, B) == if Assignable(u, B) then Dist(B, u) else {false}
  {
  }

  /** Without `any`, the inner conditional takes branch `x` when some alternative of `B` answers `x`. */
  lemma TakesPlain(B: Ty, u: Ty, x: bool)
    requires Resolved(B) && !B.Any?
    ensures Takes(B, u, x) <==> Answers(B, u, x)
  {
    if Takes(B, u, x) { TakesAnswers(B, u, x); }
    if Answers(B, u, x) { AnswersTakes(B, u, x); }
  }

  /** Some alternative of `B` answers `x` to "assignable to `u`?". */
  ghost predicate Answers(B: Ty, u: Ty, x: bool)
  {
    exists w :: w in Alternatives(B) && Assignable(w, u) == x
  }

  lemma TakesAnswers(B: Ty, u: Ty, x: bool)
    requires Resolved(B) && !B.Any? && Takes(B, u, x)
    ensures Answers(B, u, x)
  {
    var w :| w in Alternatives(B) && x in Branches(w, u);
    assert !w.Any?;
  }

  lemma AnswersTakes(B: Ty, u: Ty, x: bool)
    requires Resolved(B) && !B.Any? && Answers(B, u, x)
    ensures Takes(B, u, x)
  {
    var w :| w in Alternatives(B) && Assignable(w, u) == x;
    assert !w.Any?;
    assert x in Branches(w, u);
  }

  /**
   * The pairwise reading of `SimpleEqual` when neither side is `any`: an
   * alternative `u` of `A` that is not assignable to `B` yields `false`; one
   * that is yields whatever the alternatives of `B` answer to "assignable to `u`?".
   */
  ghost predicate PairwiseYields(A: Ty, B: Ty, x: bool)
  {
    exists u :: u in Alternatives(A) && if Assignable(u, B) then Answers(B, u, x) else !x
  }

  lemma YieldsPairwise(A: Ty, B: Ty, x: bool)
    requires Resolved(A) && Resolved(B) && !A.Any? && !B.Any?
    ensures Yields(A, B, x) <==> PairwiseYields(A, B, x)
  {
    if Yields(A, B, x) { YieldsToPairwise(A, B, x); }
    if PairwiseYields(A, B, x) { PairwiseToYields(A, B, x); }
  }

  lemma YieldsToPairwise(A: Ty, B: Ty, x: bool)
    requires Resolved(A) && Resolved(B) && !A.Any? && !B.Any? && Yields(A, B, x)
    ensures PairwiseYields(A, B, x)
  {
    var u :| u in Alternatives(A) && x in Inner(u, B);
    AlternativeNotAny(A, u);
    InnerAnswers(u, B, x);
  }

  lemma PairwiseToYields(A: Ty, B: Ty, x: bool)
    requires Resolved(A) && Resolved(B) && !A.Any? && !B.Any? && PairwiseYields(A, B, x)
    ensures Yields(A, B, x)
  {
    var u :| u in Alternatives(A) && if Assignable(u, B) then Answers(B, u, x) else !x;
    AlternativeNotAny(A, u);
    InnerAnswers(u, B, x);
  }

  lemma AlternativeNotAny(A: Ty, u: Ty)
    requires Resolved(A) && !A.Any? && u in Alternatives(A)
    ensures !u.Any?
  {
  }

  lemma InnerAnswers(u: Ty, B: Ty, x: bool)
    requires Resolved(B) && !B.Any? && !u.Any?
    ensures x in Inner(u, B) <==> if Assignable(u, B) then Answers(B, u, x) else !x
  {
    InnerPlain(u, B);
    TakesPlain(B, u, x);
  }

  lemma SimpleEqualYields(a: Ty, b: Ty, x: bool)
    ensures x in SimpleEqual(a, b) <==> Yields(Resolve(a), Resolve(b), x)
  {
  }

  /** Without `any` on either side, `SimpleEqual` is the pairwise comparison of alternatives. */
  lemma SimpleEqualPairwise(a: Ty, b: Ty, x: bool)
    requires !Resolve(a).Any? && !Resolve(b).Any?
    ensures x in SimpleEqual(a, b) <==> PairwiseYields(Resolve(a), Resolve(b), x)
  {
    SimpleEqualYields(a, b, x);
    YieldsPairwise(Resolve(a), Resolve(b), x);
  }

  /** For single types, `SimpleEqual` is mutual assignability: `A extends B` and `B extends A`. */
  lemma SimpleEqualMutual(a: Ty, b: Ty)
    requires var A, B := Resolve(a), Resolve(b);
      !A.Union? && !A.Any? && !A.Never? && !B.Union? && !B.Any? && !B.Never?
    ensures SimpleEqual(a, b) == {Assignable(Resolve(a), Resolve(b)) && Assignable(Resolve(b), Resolve(a))}
  {
    SimpleEqualSingle(a, b);
    InnerSingle(Resolve(a), Resolve(b));
  }

  /** A single type on the left has one alternative, itself. */
  lemma SimpleEqualSingle(a: Ty, b: Ty)
    requires !Resolve(a).Union? && !Resolve(a).Never?
    ensures SimpleEqual(a, b) == Inner(Resolve(a), Resolve(b))
  {
    YieldsOne(Resolve(a), Resolve(b), true);
    YieldsOne(Resolve(a), Resolve(b), false);
  }

  lemma YieldsOne(A: Ty, B: Ty, x: bool)
    requires !A.Union? && !A.Never?
    ensures Yields(A, B, x) <==> x in Inner(A, B)
  {
    if Yields(A, B, x) {
      var u :| u in Alternatives(A) && x in Inner(u, B);
      OnlyAlternative(A, u);
    }
    if x in Inner(A, B) {
      OnlyAlternative(A, A);
    }
  }

  /** One alternative against a single type: both ways assignable. */
  lemma InnerSingle(u: Ty, B: Ty)
    requires !u.Any? && !B.Union? && !B.Any? && !B.Never?
    ensures Inner(u, B) == {Assignable(u, B) && Assignable(B, u)}
  {
    DistSingle(B, u);
  }

  lemma DistSingle(B: Ty, u: Ty)
    requires !B.Union? && !B.Any? && !B.Never?
    ensures Dist(B, u) == {Assignable(B, u)}
  {
    DistOne(B, u);
  }

  /** Every type other than a union or `never` is `SimpleEqual` to itself. */
  lemma SimpleEqualReflexive(a: Ty)
    requires !Resolve(a).Union? && !Resolve(a).Never?
    ensures SimpleEqual(a, a) == {true}
  {
    var A := Resolve(a);
    if A.Any? {
      SimpleEqualAny(a, a);
    } else {
      AssignableReflexive(A);
      SimpleEqualMutual(a, a);
    }
  }

  /** `any` on the left takes both branches except against `any`, `unknown` and `never`. */
  lemma SimpleEqualAny(a: Ty, b: Ty)
    requires Resolve(a).Any?
    ensures var B := Resolve(b);
      SimpleEqual(a, b) == if B.Any? || B.Unknown? then {true} else if B.Never? then {false} else {true, false}
  {
    SimpleEqualSingle(a, b);
    AnyInner(Resolve(b));
  }

  lemma AnyInner(B: Ty)
    requires Resolved(B)
    ensures Inner(Any, B) == if B.Any? || B.Unknown? then {true} else if B.Never? then {false} else {true, false}
  {
    DistToTop(B, Any);
  }

  /**
   * `any` on the right: every alternative of `A` is assignable to `any`, and
   * `any extends u` takes both branches unless `u` is `unknown`.
   */
  lemma SimpleEqualAnyTarget(a: Ty)
    requires !Resolve(a).Any? && !Resolve(a).Never?
    ensures SimpleEqual(a, Any) == if Resolve(a).Unknown? then {true} else {true, false}
  {
    assert Resolve(Any) == Any;
    YieldsAnyTarget(Resolve(a));
  }

  lemma YieldsAnyTarget(A: Ty)
    requires Resolved(A) && !A.Any? && !A.Never?
    ensures Yields(A, Any, true)
    ensures Yields(A, Any, false) <==> !A.Unknown?
  {
    var u :| u in Alternatives(A);
    AlternativeNotAny(A, u);
    InnerAnyTarget(u);
    if A.Unknown? {
      assert Alternatives(A) == {Unknown};
    } else if A.Union? {
      assert Member(u);
    }
  }

  /** One alternative other than `any` against `any`. */
  lemma InnerAnyTarget(u: Ty)
    requires !u.Any? && !u.Never?
    ensures Inner(u, Any) == if u.Unknown? then {true} else {true, false}
  {
    assert Alternatives(Any) == {Any};
    if u.Unknown? {
      assert !Takes(Any, u, false);
    } else {
      assert Takes(Any, u, true) && Takes(Any, u, false);
    }
  }

  /** A union of two members on the left: each member answers on its own. */
  lemma SimpleEqualPair(x: Ty, y: Ty, b: Ty)
    requires x != y && Member(x) && Member(y) && Resolved(x) && Resolved(y)
    requires !Absorbed(x, {x, y}) && !Absorbed(y, {x, y})
    ensures SimpleEqual(Union({x, y}), b) == Inner(x, Resolve(b)) + Inner(y, Resolve(b))
  {
    PairResolved(x, y);
    PairOutcome(x, y, Resolve(b));
  }

  lemma PairOutcome(x: Ty, y: Ty, B: Ty)
    ensures var U := Union({x, y});
      (if Yields(U, B, true) then {true} else {}) + (if Yields(U, B, false) then {false} else {}) == Inner(x, B) + Inner(y, B)
  {
    var U := Union({x, y});
    var L := (if Yields(U, B, true) then {true} else {}) + (if Yields(U, B, false) then {false} else {});
    forall v: bool ensures v in L <==> v in Inner(x, B) + Inner(y, B) {
      YieldsPair(x, y, B, v);
    }
  }

  lemma YieldsPair(x: Ty, y: Ty, B: Ty, v: bool)
    ensures Yields(Union({x, y}), B, v) <==> v in Inner(x, B) || v in Inner(y, B)
  {
    if Yields(Union({x, y}), B, v) { YieldsOfPair(x, y, B, v); }
    if v in Inner(x, B) || v in Inner(y, B) { PairYields(x, y, B, v); }
  }

  lemma YieldsOfPair(x: Ty, y: Ty, B: Ty, v: bool)
    requires Yields(Union({x, y}), B, v)
    ensures v in Inner(x, B) || v in Inner(y, B)
  {
    assert Alternatives(Union({x, y})) == {x, y};
    var u :| u in Alternatives(Union({x, y})) && v in Inner(u, B);
  }

  lemma PairYields(x: Ty, y: Ty, B: Ty, v: bool)
    requires v in Inner(x, B) || v in Inner(y, B)
    ensures Yields(Union({x, y}), B, v)
  {
    assert Alternatives(Union({x, y})) == {x, y};
    if v in Inner(x, B) {
      assert x in Alternatives(Union({x, y}));
    } else {
      assert y in Alternatives(Union({x, y}));
    }
  }

  /** Resolved single types: `SimpleEqual` is mutual assignability. */
  lemma MutualResolved(A: Ty, B: Ty)
    requires Resolved(A) && Resolved(B)
    requires !A.Union? && !A.Any? && !A.Never? && !B.Union? && !B.Any? && !B.Never?
    ensures SimpleEqual(A, B) == {Assignable(A, B) && Assignable(B, A)}
  {
    ResolveFixesResolved(A);
    ResolveFixesResolved(B);
    SimpleEqualMutual(A, B);
  }

  /** A resolved single type on the left answers with its one alternative. */
  lemma SingleResolved(A: Ty, B: Ty)
    requires Resolved(A) && Resolved(B) && !A.Union? && !A.Never?
    ensures SimpleEqual(A, B) == Inner(A, B)
  {
    ResolveFixesResolved(A);
    ResolveFixesResolved(B);
    SimpleEqualSingle(A, B);
  }

  /** A literal and its base type answer false to each other. */
  lemma InnerLiteralBase(lit: Ty, base: Ty)
    requires Widens(lit, base)
    ensures Inner(lit, base) == {false}
  {
    InnerSingle(lit, base);
  }

  // ---------------------------------------------------------------------
  // The expected values of the library's own cases

  /** `unknown` is `SimpleEqual` to itself. */
  lemma SimpleEqualUnknownCase()
    ensures SimpleEqual(Unknown, Unknown) == {true}
  {
    SimpleEqualReflexive(Unknown);
  }

  /** `any` is `SimpleEqual` to itself. */
  lemma SimpleEqualAnyCase()
    ensures SimpleEqual(Any, Any) == {true}
  {
    SimpleEqualAny(Any, Any);
  }

  /** A number literal is `SimpleEqual` to itself. */
  lemma SimpleEqualLiteralSelfCase(n: int)
    ensures SimpleEqual(NumLit(n), NumLit(n)) == {true}
  {
    SimpleEqualReflexive(NumLit(n));
  }

  /** `[1, 'a']` is `SimpleEqual` to itself. */
  lemma SimpleEqualTupleSelfCase(x: Ty, y: Ty)
    requires Resolved(x) && Resolved(y)
    ensures SimpleEqual(Tuple([x, y], false), Tuple([x, y], false)) == {true}
  {
    assert Resolved(Tuple([x, y], false));
    ResolveFixesResolved(Tuple([x, y], false));
    SimpleEqualReflexive(Tuple([x, y], false));
  }

  /** `true` against `boolean`: the inner conditional distributes over `boolean` and takes both branches. */
  lemma SimpleEqualBooleanLiteralCase(v: bool)
    ensures SimpleEqual(BoolLit(v), Boolean) == {true, false}
  {
    BooleanResolved();
    SingleResolved(BoolLit(v), Boolean);
    InnerBoolean(v);
  }

  lemma InnerBoolean(v: bool)
    ensures Inner(BoolLit(v), Boolean) == {true, false}
  {
    BooleanResolved();
    MemberAssignableToUnion(BoolLit(v), Boolean.alts);
    InnerPlain(BoolLit(v), Boolean);
    DistBoolean(v);
  }

  /** `boolean extends v` distributes: `v` answers true, the other literal false. */
  lemma DistBoolean(v: bool)
    ensures Dist(Boolean, BoolLit(v)) == {true, false}
  {
    DistPair(BoolLit(true), BoolLit(false), BoolLit(v));
    BoolBranches(true, v);
    BoolBranches(false, v);
  }

  lemma BoolBranches(w: bool, v: bool)
    ensures Branches(BoolLit(w), BoolLit(v)) == {w == v}
  {
  }

  /** `true | false` against `boolean` takes both branches. */
  lemma SimpleEqualBooleanCase()
    ensures SimpleEqual(Boolean, Boolean) == {true, false}
  {
    SimpleEqualPair(BoolLit(true), BoolLit(false), Boolean);
    BooleanResolved();
    InnerBoolean(true);
    InnerBoolean(false);
  }

  /** `1 | 2` against `1` takes both branches: `1` answers true, `2` false. */
  lemma SimpleEqualNumberUnionCase(m: int, n: int)
    requires m != n
    ensures SimpleEqual(Union({NumLit(m), NumLit(n)}), NumLit(m)) == {true, false}
  {
    SimpleEqualPair(NumLit(m), NumLit(n), NumLit(m));
    ResolveFixesResolved(NumLit(m));
    InnerSingle(NumLit(m), NumLit(m));
    InnerSingle(NumLit(n), NumLit(m));
  }

  /** `1 | 2` against `number` is false: `number` extends neither literal. */
  lemma SimpleEqualNumberBaseCase(m: int, n: int)
    requires m != n
    ensures SimpleEqual(Union({NumLit(m), NumLit(n)}), Num) == {false}
  {
    SimpleEqualPair(NumLit(m), NumLit(n), Num);
    ResolveFixesResolved(Num);
    InnerLiteralBase(NumLit(m), Num);
    InnerLiteralBase(NumLit(n), Num);
  }

  /** `'a' | 'b'` against `string` is false. */
  lemma SimpleEqualStringBaseCase(s: string, t: string)
    requires s != t
    ensures SimpleEqual(Union({StrLit(s), StrLit(t)}), Str) == {false}
  {
    SimpleEqualPair(StrLit(s), StrLit(t), Str);
    ResolveFixesResolved(Str);
    InnerLiteralBase(StrLit(s), Str);
    InnerLiteralBase(StrLit(t), Str);
  }

  /** `{a: 1 | 2}` against `object` is false: `object` is not assignable to the object type. */
  lemma SimpleEqualObjectKeywordCase(x: Ty)
    requires Resolved(x)
    ensures SimpleEqual(Shape(map["a" := x]), ObjectKw) == {false}
  {
    ShapeFacts(x);
    ObjectKwNotToShape(x);
    MutualResolved(Shape(map["a" := x]), ObjectKw);
  }

  /** `{a: 1, b: 2}` against `{a: 1} & {b: 2}` is true, where `Equal` says false. */
  lemma SimpleEqualObjectIntersectionCase(x: Ty, y: Ty)
    requires Resolved(x) && Resolved(y)
    ensures SimpleEqual(Shape(map["a" := x, "b" := y]), Inter([Shape(map["a" := x]), Shape(map["b" := y])])) == {true}
  {
    var sab := Shape(map["a" := x, "b" := y]);
    HalvesResolved(x, y);
    ObjectPairResolved(Shape(map["a" := x]), Shape(map["b" := y]));
    MergedToHalves(x, y);
    HalvesToMerged(x, y);
    ResolveFixesResolved(sab);
    SimpleEqualMutual(sab, Inter([Shape(map["a" := x]), Shape(map["b" := y])]));
  }

  /** `1 & 2` against `never` is `never`: the intersection collapses. */
  lemma SimpleEqualCollapsedCase(m: int, n: int)
    requires m != n
    ensures SimpleEqual(Inter([NumLit(m), NumLit(n)]), Never) == {}
  {
    CollapsedPair(NumLit(m), NumLit(n));
  }

  /** `string & number` against `never` is `never`. */
  lemma SimpleEqualCollapsedPrimitiveCase()
    ensures SimpleEqual(Inter([Str, Num]), Never) == {}
  {
    CollapsedPair(Str, Num);
  }

  /** Distinct number literals, and distinct string literals, are not `SimpleEqual`. */
  lemma SimpleEqualLiteralCases(m: int, n: int, s: string, t: string)
    requires m != n && s != t
    ensures SimpleEqual(NumLit(m), NumLit(n)) == {false}
    ensures SimpleEqual(StrLit(s), StrLit(t)) == {false}
  {
    MutualResolved(NumLit(m), NumLit(n));
    MutualResolved(StrLit(s), StrLit(t));
  }

  /** A bigint literal is not `SimpleEqual` to another bigint literal or to a number literal. */
  lemma SimpleEqualBigIntCases(m: int, n: int)
    requires m != n
    ensures SimpleEqual(BigLit(m), BigLit(n)) == {false}
    ensures SimpleEqual(BigLit(m), NumLit(m)) == {false}
  {
    MutualResolved(BigLit(m), BigLit(n));
    MutualResolved(BigLit(m), NumLit(m));
  }

  /** A literal is not `SimpleEqual` to its base type. */
  lemma SimpleEqualLiteralBaseCase(lit: Ty, base: Ty)
    requires Widens(lit, base)
    ensures SimpleEqual(lit, base) == {false}
  {
    MutualResolved(lit, base);
  }

  /** Tuple order matters. */
  lemma SimpleEqualTupleOrderCase(x: Ty, y: Ty)
    requires Resolved(x) && Resolved(y) && !Assignable(x, y)
    ensures SimpleEqual(Tuple([x, y], false), Tuple([y, x], false)) == {false}
  {
    TupleResolved(x, y);
    TupleResolved(y, x);
    TupleHeads(x, y);
    MutualResolved(Tuple([x, y], false), Tuple([y, x], false));
  }

  /** `[]` against `unknown[]` is false. */
  lemma SimpleEqualEmptyTupleCase()
    ensures SimpleEqual(Tuple([], false), Array(Unknown, false)) == {false}
  {
    EmptyTupleFacts();
    MutualResolved(Tuple([], false), Array(Unknown, false));
  }

  /** `any` against `{}` or a literal takes both branches; against `never` it is false. */
  lemma SimpleEqualAnyCases(n: int)
    ensures SimpleEqual(Any, NumLit(n)) == {true, false}
    ensures SimpleEqual(Any, Never) == {false}
  {
    SimpleEqualAny(Any, NumLit(n));
    SimpleEqualAny(Any, Never);
  }

  lemma SimpleEqualAnyObjectCase()
    ensures SimpleEqual(Any, EmptyObject) == {true, false}
  {
    assert Resolved(EmptyObject);
    ResolveFixesResolved(EmptyObject);
    SimpleEqualAny(Any, EmptyObject);
  }

  /** `unknown` against a literal, `{}` or `never` is false. */
  lemma SimpleEqualUnknownCases(n: int)
    ensures SimpleEqual(Unknown, NumLit(n)) == {false}
    ensures SimpleEqual(Unknown, EmptyObject) == {false}
  {
    MutualResolved(Unknown, NumLit(n));
    assert Resolved(EmptyObject);
    MutualResolved(Unknown, EmptyObject);
  }

  lemma SimpleEqualUnknownNeverCase()
    ensures SimpleEqual(Unknown, Never) == {false}
  {
    SingleResolved(Unknown, Never);
    InnerPlain(Unknown, Never);
  }
}
