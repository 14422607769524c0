/**
 * `Extends<A, B>`: `A extends B ? true : false` with `A` a bare type
 * parameter, so the conditional distributes over the alternatives of `A`:
 * it can take both branches (`boolean`) or none (`never`).
 */
module Extends {
  import opened Types
  import opened Assignability
  import opened Conditional

  /** `Extends<A, B>` */
  ghost function Extends(a: Ty, b: Ty): (r: Outcome)
    ensures r == {} <==> Resolve(a).Never?
  {
    Dist(Resolve(a), Resolve(b))
  }

  /** A source that is not a union, `any` or `never` takes exactly the branch assignability decides. */
  lemma ExtendsSingle(a: Ty, b: Ty)
    requires var A := Resolve(a); !A.Union? && !A.Any? && !A.Never?
    ensures Extends(a, b) == {Assignable(Resolve(a), Resolve(b))}
  {
    var A := Resolve(a);
    assert Alternatives(A) == {A};
  }

  /** A union source distributes: it takes branch `x` exactly when some alternative answers `x`. */
  lemma ExtendsUnion(a: Ty, b: Ty, x: bool)
    requires Resolve(a).Union?
    ensures x in Extends(a, b) <==> Answers(Resolve(a), Resolve(b), x)
  {
    TakesUnion(Resolve(a), Resolve(b), x);
  }

  /** Some alternative of the union `A` answers `x` to "assignable to `B`?". */
  ghost predicate Answers(A: Ty, B: Ty, x: bool)
    requires A.Union?
  {
    exists u :: u in A.alts && Assignable(u, B) == x
  }

  lemma TakesUnion(A: Ty, B: Ty, x: bool)
    requires Resolved(A) && A.Union?
    ensures Takes(A, B, x) <==> Answers(A, B, x)
  {
    if Takes(A, B, x) {
      var u :| u in Alternatives(A) && x in Branches(u, B);
      assert Member(u);
    }
    if Answers(A, B, x) {
      var u :| u in A.alts && Assignable(u, B) == x;
      assert Member(u) && u in Alternatives(A);
    }
  }

  /** An `any` source takes the true branch against `any` and `unknown`, and both branches otherwise. */
  lemma ExtendsAnySource(b: Ty)
    ensures Extends(Any, b) == if Resolve(b).Any? || Resolve(b).Unknown? then {true} else {true, false}
  {
    var B := Resolve(b);
    assert Alternatives(Any) == {Any};
    assert Takes(Any, B, true);
    if !B.Any? && !B.Unknown? {
      assert Takes(Any, B, false);
    }
  }

  /** Every type other than `never` extends itself. */
  lemma ExtendsReflexive(a: Ty)
    requires !Resolve(a).Never?
    ensures Extends(a, a) == {true}
  {
    var A := Resolve(a);
    AlternativesToSelf(A);
    var u :| u in Alternatives(A);
    assert Takes(A, A, true);
  }

  /** Every alternative of a resolved type takes the true branch against the whole type. */
  lemma AlternativesToSelf(A: Ty)
    requires Resolved(A)
    ensures forall u :: u in Alternatives(A) ==> Branches(u, A) == {true}
  {
    forall u | u in Alternatives(A) ensures Branches(u, A) == {true} {
      if A.Union? {
        MemberAssignableToUnion(u, A.alts);
      } else {
        AssignableReflexive(A);
      }
    }
  }

  /** Every type other than `never` extends `unknown` and `any`. */
  lemma ExtendsTop(a: Ty, top: Ty)
    requires !Resolve(a).Never? && (top.Unknown? || top.Any?)
    ensures Extends(a, top) == {true}
  {
    var A := Resolve(a);
    assert forall u :: Branches(u, top) == {true};
    var u :| u in Alternatives(A);
    assert Takes(A, top, true);
  }

  /** No type other than `never` and `any` extends `never`. */
  lemma ExtendsNeverTarget(a: Ty)
    requires !Resolve(a).Never? && !Resolve(a).Any?
    ensures Extends(a, Never) == {false}
  {
    var A := Resolve(a);
    forall v: bool ensures v in Extends(a, Never) <==> v in {false} {
      InDist(A, Never, v);
      NeverTargetTakes(A, v);
    }
  }

  lemma NeverTargetTakes(A: Ty, x: bool)
    requires Resolved(A) && !A.Never? && !A.Any?
    ensures Takes(A, Never, x) <==> !x
  {
    if Takes(A, Never, x) {
      var u :| u in Alternatives(A) && x in Branches(u, Never);
      NeverOnlyToNever(u);
    } else {
      var u :| u in Alternatives(A);
      NeverOnlyToNever(u);
      assert x !in Branches(u, Never);
    }
  }

  /** A literal extends its base type; the base type does not extend the literal. */
  lemma ExtendsLiteralBase(lit: Ty, base: Ty)
    requires Widens(lit, base)
    ensures Extends(lit, base) == {true}
    ensures Extends(base, lit) == {false}
  {
    ExtendsSingle(lit, base);
    ExtendsSingle(base, lit);
  }

  /** A resolved source that is not a union, `any` or `never` takes the branch assignability decides. */
  lemma ExtendsResolved(a: Ty, b: Ty)
    requires Resolved(a) && Resolved(b) && !a.Union? && !a.Any? && !a.Never?
    ensures Extends(a, b) == {Assignable(a, b)}
  {
    ResolveFixesResolved(a);
    ResolveFixesResolved(b);
    ExtendsSingle(a, b);
  }

  /** A union of two members distributes to the two answers. */
  lemma ExtendsPair(x: Ty, y: Ty, b: Ty)
    requires x != y && Member(x) && Member(y) && Resolved(x) && Resolved(y)
    requires !Absorbed(x, {x, y}) && !Absorbed(y, {x, y})
    requires Resolved(b)
    ensures Extends(Union({x, y}), b) == {Assignable(x, b), Assignable(y, b)}
  {
    PairResolved(x, y);
    ResolveFixesResolved(b);
    DistPair(x, y, b);
  }

  // ---------------------------------------------------------------------
  // The expected values of the library's own cases

  /** `1 | 2` distributes: against `1` it takes both branches. */
  lemma ExtendsNumberUnionCase(m: int, n: int)
    requires m != n
    ensures Extends(Union({NumLit(m), NumLit(n)}), NumLit(m)) == {true, false}
  {
    ExtendsPair(NumLit(m), NumLit(n), NumLit(m));
  }

  /** `1 | 2` extends `number`. */
  lemma ExtendsNumberUnionBaseCase(m: int, n: int)
    requires m != n
    ensures Extends(Union({NumLit(m), NumLit(n)}), Num) == {true}
  {
    ExtendsPair(NumLit(m), NumLit(n), Num);
  }

  /** `boolean` against `true` takes both branches. */
  lemma ExtendsBooleanCase()
    ensures Extends(Boolean, BoolLit(true)) == {true, false}
  {
    ExtendsPair(BoolLit(true), BoolLit(false), BoolLit(true));
  }

  /** `true | false` extends `boolean`. */
  lemma ExtendsBooleanUnionCase()
    ensures Extends(Union({BoolLit(true), BoolLit(false)}), Boolean) == {true}
  {
    BooleanResolved();
    ExtendsReflexive(Boolean);
  }

  /** `'a' | 'b'` extends `string`. */
  lemma ExtendsStringUnionCase(s: string, t: string)
    requires s != t
    ensures Extends(Union({StrLit(s), StrLit(t)}), Str) == {true}
  {
    assert Assignable(StrLit(s), Str) && Assignable(StrLit(t), Str);
    ExtendsPair(StrLit(s), StrLit(t), Str);
  }

  /** An object type extends `object`. */
  lemma ExtendsObjectKeywordCase(x: Ty)
    requires Resolved(x)
    ensures Extends(Shape(map["a" := x]), ObjectKw) == {true}
  {
    ShapeFacts(x);
    ExtendsResolved(Shape(map["a" := x]), ObjectKw);
  }

  /** The merged object type extends the intersection of its halves. */
  lemma ExtendsObjectIntersectionCase(x: Ty, y: Ty)
    requires Resolved(x) && Resolved(y)
    ensures Extends(Shape(map["a" := x, "b" := y]), Inter([Shape(map["a" := x]), Shape(map["b" := y])])) == {true}
  {
    var sa := Shape(map["a" := x]);
    var sb := Shape(map["b" := y]);
    var sab := Shape(map["a" := x, "b" := y]);
    HalvesResolved(x, y);
    ObjectPairResolved(sa, sb);
    MergedToHalves(x, y);
    ResolveFixesResolved(sab);
    ExtendsSingle(sab, Inter([sa, sb]));
    assert Resolve(Inter([sa, sb])) == InterOf([sa, sb]);
  }

  /** Intersections of distinct number literals collapse to `never` and take no branch. */
  lemma ExtendsCollapsedCase(m: int, n: int)
    requires m != n
    ensures Extends(Inter([NumLit(m), NumLit(n)]), Never) == {}
  {
    CollapsedPair(NumLit(m), NumLit(n));
  }

  /** `string & number` collapses to `never` and takes no branch. */
  lemma ExtendsCollapsedPrimitiveCase()
    ensures Extends(Inter([Str, Num]), Never) == {}
  {
    CollapsedPair(Str, Num);
  }

  /** Distinct literals do not extend each other. */
  lemma ExtendsLiteralCases(m: int, n: int, s: string, t: string)
    requires m != n && s != t
    ensures Extends(NumLit(m), NumLit(n)) == {false}
    ensures Extends(StrLit(s), StrLit(t)) == {false}
  {
    ExtendsResolved(NumLit(m), NumLit(n));
    ExtendsResolved(StrLit(s), StrLit(t));
  }

  /** A bigint literal extends neither another bigint literal nor a number literal. */
  lemma ExtendsBigIntCases(m: int, n: int)
    requires m != n
    ensures Extends(BigLit(m), BigLit(n)) == {false}
    ensures Extends(BigLit(m), NumLit(m)) == {false}
  {
    ExtendsResolved(BigLit(m), BigLit(n));
    ExtendsResolved(BigLit(m), NumLit(m));
  }

  /** A boolean literal extends `boolean`. */
  lemma ExtendsBooleanLiteralCase(v: bool)
    ensures Extends(BoolLit(v), Boolean) == {true}
  {
    BooleanResolved();
    MemberAssignableToUnion(BoolLit(v), Boolean.alts);
    ExtendsResolved(BoolLit(v), Boolean);
  }

  /** Tuple order matters. */
  lemma ExtendsTupleOrderCase(x: Ty, y: Ty)
    requires Resolved(x) && Resolved(y) && !Assignable(x, y)
    ensures Extends(Tuple([x, y], false), Tuple([y, x], false)) == {false}
  {
    var t1 := Tuple([x, y], false);
    var t2 := Tuple([y, x], false);
    assert Resolved(t1) && Resolved(t2);
    TupleHeads(x, y);
    ExtendsResolved(t1, t2);
  }

  /** `[]` extends `unknown[]`. */
  lemma ExtendsEmptyTupleCase()
    ensures Extends(Tuple([], false), Array(Unknown, false)) == {true}
  {
    EmptyTupleFacts();
    ExtendsResolved(Tuple([], false), Array(Unknown, false));
  }

  /** `unknown[]` does not extend `[]`. */
  lemma ExtendsUnknownArrayCase()
    ensures Extends(Array(Unknown, false), Tuple([], false)) == {false}
  {
    EmptyTupleFacts();
    ExtendsResolved(Array(Unknown, false), Tuple([], false));
  }

  /** `unknown` does not extend a literal or `{}`. */
  lemma ExtendsUnknownCases(n: int)
    ensures Extends(Unknown, NumLit(n)) == {false}
    ensures Extends(Unknown, EmptyObject) == {false}
  {
    ExtendsResolved(Unknown, NumLit(n));
    assert Resolved(EmptyObject);
    ExtendsResolved(Unknown, EmptyObject);
  }
}
