/**
 * `IsUnion<T>` through `IsUnionInternal<T, Copy = T>`:
 * `[T] extends [never] ? false : T extends never ? false : [Copy] extends [T] ? false : true`.
 * The first check is wrapped in tuples and rejects `never`; the second
 * distributes over the alternatives `u` of `T` and, since no alternative is
 * `never`, always reaches the third, where `T` stands for `u` while `Copy`
 * still holds the whole type.  An alternative answers true when the whole
 * type is not assignable to it.
 */
module IsUnion {
  import opened Types
  import opened Assignability
  import opened Conditional
  import Equal

  /** The answer for one alternative `u` of the whole type `T`. */
  ghost function PerAlternative(u: Ty, T: Ty): Outcome
  {
    Select(Branches(u, Never), {false},
      Select(Branches(Tuple([T], false), Tuple([u], false)), {false}, {true}))
  }

  /** Some alternative of `T` answers `x`. */
  ghost predicate Marks(T: Ty, x: bool)
  {
    exists u :: u in Alternatives(T) && x in PerAlternative(u, T)
  }

  /** The distributed part: the answers of all alternatives together. */
  ghost function Distributed(T: Ty): Outcome
  {
    (if Marks(T, true) then {true} else {}) + (if Marks(T, false) then {false} else {})
  }

  /** `IsUnion<T>`, as written; it is never `never`, and `false` for `never`. */
  ghost function IsUnion(t: Ty): (r: Outcome)
    ensures r != {}
    ensures Resolve(t).Never? ==> r == {false}
  {
    var T := Resolve(t);
    WrappedAssignable(T, Never);
    NeverOnlyToNever(T);
    DistributedNonEmpty(T);
    Select(Branches(Tuple([T], false), Tuple([Never], false)), {false}, Distributed(T))
  }

  lemma DistributedNonEmpty(T: Ty)
    requires Resolved(T)
    ensures !T.Never? ==> Distributed(T) != {}
  {
    if !T.Never? {
      SomeMark(T);
    }
  }

  lemma SomeMark(T: Ty)
    requires Resolved(T) && !T.Never?
    ensures Distributed(T) != {}
  {
    var alts := Alternatives(T);
    var u :| u in alts;
    MarkFrom(T, u);
  }

  lemma MarkFrom(T: Ty, u: Ty)
    requires u in Alternatives(T)
    ensures Marks(T, true) || Marks(T, false)
  {
    PerAlternativeNonEmpty(u, T);
    var x :| x in PerAlternative(u, T);
    assert Marks(T, x);
  }

  lemma PerAlternativeNonEmpty(u: Ty, T: Ty)
    ensures PerAlternative(u, T) != {}
  {
    var inner := Select(Branches(Tuple([T], false), Tuple([u], false)), {false}, {true});
    assert inner != {};
  }

  /** Past the `never` check, the answer is the distributed one. */
  lemma IsUnionDistributed(t: Ty)
    requires !Resolve(t).Never?
    ensures IsUnion(t) == Distributed(Resolve(t))
  {
    var T := Resolve(t);
    WrappedAssignable(T, Never);
    NeverOnlyToNever(T);
  }

  /** An alternative other than `never` and `any` answers whether the whole type is not assignable to it. */
  lemma PerAlternativePlain(u: Ty, T: Ty)
    requires Resolved(u) && !u.Never? && !u.Any?
    ensures PerAlternative(u, T) == {!Assignable(T, u)}
  {
    NeverOnlyToNever(u);
    WrappedAssignable(T, u);
  }

  /** `any` answers false: it is assignable to itself. */
  lemma PerAlternativeAny()
    ensures PerAlternative(Any, Any) == {false}
  {
    WrappedAssignable(Any, Any);
  }

  /**
   * For a union, `IsUnion` takes branch `x` exactly when some alternative
   * `u` has `x` as the answer to "is the whole union not assignable to `u`?".
   */
  /** Some alternative `u` of the union `T` has `x` as the answer to "is `T` not assignable to `u`?". */
  ghost predicate Answers(T: Ty, x: bool)
    requires T.Union?
  {
    exists u :: u in T.alts && x == !Assignable(T, u)
  }

  lemma IsUnionMechanism(t: Ty, x: bool)
    requires Resolve(t).Union?
    ensures x in IsUnion(t) <==> Answers(Resolve(t), x)
  {
    var T := Resolve(t);
    IsUnionDistributed(t);
    DistributedAnswers(T, x);
  }

  lemma DistributedAnswers(T: Ty, x: bool)
    requires Resolved(T) && T.Union?
    ensures x in Distributed(T) <==> Answers(T, x)
  {
    InDistributed(T, x);
    MarksUnion(T, x);
  }

  lemma InDistributed(T: Ty, x: bool)
    ensures x in Distributed(T) <==> Marks(T, x)
  {
  }

  lemma MarksUnion(T: Ty, x: bool)
    requires Resolved(T) && T.Union?
    ensures Marks(T, x) <==> Answers(T, x)
  {
    if Marks(T, x) {
      MarksToAnswer(T, x);
    }
    if Answers(T, x) {
      AnswerToMarks(T, x);
    }
  }

  lemma MarksToAnswer(T: Ty, x: bool)
    requires Resolved(T) && T.Union? && Marks(T, x)
    ensures Answers(T, x)
  {
    var u :| u in Alternatives(T) && x in PerAlternative(u, T);
    AnswerOf(u, T, x);
  }

  lemma AnswerOf(u: Ty, T: Ty, x: bool)
    requires Resolved(T) && T.Union? && u in T.alts && x in PerAlternative(u, T)
    ensures Answers(T, x)
  {
    PerAlternativePlain(u, T);
  }

  lemma AnswerToMarks(T: Ty, x: bool)
    requires Resolved(T) && T.Union?
    requires Answers(T, x)
    ensures Marks(T, x)
  {
    var u :| u in T.alts && x == !Assignable(T, u);
    PerAlternativePlain(u, T);
    assert u in Alternatives(T);
  }

  /** Every type that does not resolve to a union gives `false`. */
  lemma IsUnionSingle(t: Ty)
    requires !Resolve(t).Union?
    ensures IsUnion(t) == {false}
  {
    var T := Resolve(t);
    if !T.Never? {
      IsUnionDistributed(t);
      assert Alternatives(T) == {T};
      if T.Any? {
        PerAlternativeAny();
      } else {
        AssignableReflexive(T);
        PerAlternativePlain(T, T);
      }
      SingleMarks(T);
    }
  }

  lemma SingleMarks(T: Ty)
    requires Alternatives(T) == {T}
    ensures Distributed(T) == PerAlternative(T, T)
  {
    SingleMark(T, true);
    SingleMark(T, false);
    InDistributed(T, true);
    InDistributed(T, false);
  }

  lemma SingleMark(T: Ty, x: bool)
    requires Alternatives(T) == {T}
    ensures Marks(T, x) <==> x in PerAlternative(T, T)
  {
    if x in PerAlternative(T, T) {
      assert T in Alternatives(T);
    }
  }

  /** No two distinct types of `alts` are assignable one to the other. */
  ghost predicate Incomparable(alts: set<Ty>)
  {
    forall a, u :: a in alts && u in alts && a != u ==> !Assignable(a, u)
  }

  /** A union whose alternatives are pairwise not assignable to each other gives `true`. */
  lemma IsUnionDistinct(t: Ty)
    requires Resolve(t).Union?
    requires Incomparable(Resolve(t).alts)
    ensures IsUnion(t) == {true}
  {
    IsUnionDistributed(t);
    DistinctDistributed(Resolve(t));
  }

  lemma DistinctDistributed(T: Ty)
    requires Resolved(T) && T.Union?
    requires Incomparable(T.alts)
    ensures Distributed(T) == {true}
  {
    DistinctMarks(T);
    OnlyTrueMarked(T);
  }

  lemma OnlyTrueMarked(T: Ty)
    requires Marks(T, true) && !Marks(T, false)
    ensures Distributed(T) == {true}
  {
  }

  lemma DistinctMarks(T: Ty)
    requires Resolved(T) && T.Union?
    requires Incomparable(T.alts)
    ensures Marks(T, true) && !Marks(T, false)
  {
    DistinctAnswersAll(T);
    AnswersMarks(T);
  }

  lemma DistinctAnswersAll(T: Ty)
    requires Resolved(T) && T.Union?
    requires Incomparable(T.alts)
    ensures Answers(T, true) && !Answers(T, false)
  {
    NoAlternativeTakesAll(T);
    DistinctAnswers(T);
  }

  lemma AnswersMarks(T: Ty)
    requires Resolved(T) && T.Union?
    requires Answers(T, true) && !Answers(T, false)
    ensures Marks(T, true) && !Marks(T, false)
  {
    AnswerToMarks(T, true);
    NoFalseMark(T);
  }

  lemma NoFalseMark(T: Ty)
    requires Resolved(T) && T.Union? && !Answers(T, false)
    ensures !Marks(T, false)
  {
    if Marks(T, false) {
      MarksToAnswer(T, false);
    }
  }

  lemma DistinctAnswers(T: Ty)
    requires Resolved(T) && T.Union?
    requires forall u :: u in T.alts ==> !Assignable(T, u)
    ensures Answers(T, true) && !Answers(T, false)
  {
    var u :| u in T.alts;
    assert !Assignable(T, u);
  }

  lemma NoAlternativeTakesAll(T: Ty)
    requires Resolved(T) && T.Union?
    requires Incomparable(T.alts)
    ensures forall u :: u in T.alts ==> !Assignable(T, u)
  {
    forall u | u in T.alts ensures !Assignable(T, u) {
      var a := OtherAlternative(T, u);
    }
  }

  /** A resolved union has an alternative other than any given one. */
  lemma OtherAlternative(T: Ty, u: Ty) returns (a: Ty)
    requires Resolved(T) && T.Union?
    ensures a in T.alts && a != u
  {
    assert |T.alts| >= 2;
    var others := T.alts - {u};
    assert |others| >= 1;
    a :| a in others;
  }

  /** A union of two members, neither assignable to the other, is a union. */
  lemma IsUnionPair(x: Ty, y: Ty)
    requires x != y && Member(x) && Member(y) && Resolved(x) && Resolved(y)
    requires !Absorbed(x, {x, y}) && !Absorbed(y, {x, y})
    requires !Assignable(x, y) && !Assignable(y, x)
    ensures IsUnion(Union({x, y})) == {true}
  {
    PairResolved(x, y);
    PairIncomparable(x, y);
    IsUnionDistinct(Union({x, y}));
  }

  lemma PairIncomparable(x: Ty, y: Ty)
    requires !Assignable(x, y) && !Assignable(y, x)
    ensures Incomparable({x, y})
  {
  }

  // ---------------------------------------------------------------------
  // The expected values of the library's own cases

  /** `undefined | null | void | ''`: `undefined` goes into `void`, three alternatives stay. */
  lemma IsUnionNullishCase()
    ensures IsUnion(Union({Undefined, Null, Void, StrLit("")})) == {true}
  {
    var T := Union({Null, Void, StrLit("")});
    NullishResolves();
    NullishIncomparable();
    IsUnionDistinct(Union({Undefined, Null, Void, StrLit("")}));
  }

  lemma NullishResolves()
    ensures Resolve(Union({Undefined, Null, Void, StrLit("")})) == Union({Null, Void, StrLit("")})
  {
    var S := {Undefined, Null, Void, StrLit("")};
    assert AllResolved(S);
    NullishUnionOf();
    ResolveUnion(S);
  }

  lemma NullishUnionOf()
    ensures UnionOf({Undefined, Null, Void, StrLit("")}) == Union({Null, Void, StrLit("")})
  {
    var S := {Undefined, Null, Void, StrLit("")};
    var K := {Null, Void, StrLit("")};
    assert |K| == 3;
    NullishAlternatives();
    UnionOfFlat(S, K);
  }

  lemma NullishAlternatives()
    ensures AllResolved({Undefined, Null, Void, StrLit("")})
    ensures Absorbed(Undefined, {Undefined, Null, Void, StrLit("")})
    ensures !Absorbed(Null, {Undefined, Null, Void, StrLit("")})
    ensures !Absorbed(Void, {Undefined, Null, Void, StrLit("")})
    ensures !Absorbed(StrLit(""), {Undefined, Null, Void, StrLit("")})
  {
    assert Str !in {Undefined, Null, Void, StrLit("")};
  }

  lemma NullishIncomparable()
    ensures Incomparable({Null, Void, StrLit("")})
  {
  }

  /** `{ a: string } | { a: number }` */
  lemma IsUnionObjectCase()
    ensures IsUnion(Union({Shape(map["a" := Str]), Shape(map["a" := Num])})) == {true}
  {
    FieldsApart(Str, Num);
    IsUnionPair(Shape(map["a" := Str]), Shape(map["a" := Num]));
  }

  /** Two objects whose field `a` types are not assignable either way are distinct, incomparable members. */
  lemma FieldsApart(x: Ty, y: Ty)
    requires x != y && Resolved(x) && Resolved(y) && !Assignable(x, y) && !Assignable(y, x)
    ensures var sa, sb := Shape(map["a" := x]), Shape(map["a" := y]);
      && sa != sb && Member(sa) && Member(sb) && Resolved(sa) && Resolved(sb)
      && !Absorbed(sa, {sa, sb}) && !Absorbed(sb, {sa, sb})
      && !Assignable(sa, sb) && !Assignable(sb, sa)
  {
    FieldApart(x, y);
    FieldApart(y, x);
    ShapeFacts(x);
    ShapeFacts(y);
  }

  /** Objects whose field `a` types are not assignable are not assignable. */
  lemma FieldApart(x: Ty, y: Ty)
    requires !Assignable(x, y)
    ensures !Assignable(Shape(map["a" := x]), Shape(map["a" := y]))
  {
    assert "a" in map["a" := y];
  }

  /** `string | number` */
  lemma IsUnionPrimitiveCase()
    ensures IsUnion(Union({Str, Num})) == {true}
  {
    IsUnionPair(Str, Num);
  }

  /** `'a' | 'b' | 'c' | 'd'` */
  lemma IsUnionLiteralsCase()
    ensures IsUnion(Union({StrLit("a"), StrLit("b"), StrLit("c"), StrLit("d")})) == {true}
  {
    LettersResolved();
    LettersIncomparable();
    IsUnionDistinct(Union({StrLit("a"), StrLit("b"), StrLit("c"), StrLit("d")}));
  }

  lemma LettersResolved()
    ensures var S := {StrLit("a"), StrLit("b"), StrLit("c"), StrLit("d")};
      Resolved(Union(S)) && Resolve(Union(S)) == Union(S)
  {
    var S := {StrLit("a"), StrLit("b"), StrLit("c"), StrLit("d")};
    assert "a"[0] != "b"[0] && "a"[0] != "c"[0] && "a"[0] != "d"[0];
    assert "b"[0] != "c"[0] && "b"[0] != "d"[0] && "c"[0] != "d"[0];
    assert |S| == 4;
    MembersResolved(S);
  }

  lemma LettersIncomparable()
    ensures Incomparable({StrLit("a"), StrLit("b"), StrLit("c"), StrLit("d")})
  {
  }

  /** `boolean` */
  lemma IsUnionBooleanCase()
    ensures IsUnion(Boolean) == {true}
  {
    IsUnionPair(BoolLit(true), BoolLit(false));
  }

  /** `string`, `{ a: string | number }` and `[string | number]` are not unions. */
  lemma IsUnionSingleCases()
    ensures IsUnion(Str) == {false}
    ensures IsUnion(Shape(map["a" := Union({Str, Num})])) == {false}
    ensures IsUnion(Tuple([Union({Str, Num})], false)) == {false}
  {
    IsUnionSingle(Str);
    IsUnionSingle(Shape(map["a" := Union({Str, Num})]));
    WrappedUnionSingle();
  }

  lemma WrappedUnionSingle()
    ensures IsUnion(Tuple([Union({Str, Num})], false)) == {false}
  {
    IsUnionSingle(Tuple([Union({Str, Num})], false));
  }

  /** `string | never`, `string | unknown`, `string | any` and `string | 'a'` resolve to a single type. */
  lemma IsUnionCollapsedCases()
    ensures IsUnion(Union({Str, Never})) == {false}
    ensures IsUnion(Union({Str, Unknown})) == {false}
    ensures IsUnion(Union({Str, Any})) == {false}
    ensures IsUnion(Union({Str, StrLit("a")})) == {false}
  {
    UnionWithNever(Str);
    IsUnionSingle(Union({Str, Never}));
    UnionWithUnknown(Str);
    IsUnionSingle(Union({Str, Unknown}));
    UnionWithAny(Str);
    IsUnionSingle(Union({Str, Any}));
    UnionWithBase(StrLit("a"), Str);
    IsUnionSingle(Union({Str, StrLit("a")}));
  }

  /** `never`, the empty union, is not a union. */
  lemma IsUnionNeverCase()
    ensures IsUnion(Never) == {false}
  {
  }

  // ---------------------------------------------------------------------
  // The discrepancy

  /**
   * `{ a: x } | { a: x, b: y }` is a union, yet the last check answers
   * false for `{ a: x }` (the whole union is assignable to it) and true for
   * the other alternative, so `IsUnion` gives `boolean`.
   */
  lemma IsUnionSubtypeCase(x: Ty, y: Ty)
    requires Resolved(x) && Resolved(y)
    ensures IsUnion(Union({Shape(map["a" := x]), Shape(map["a" := x, "b" := y])})) == {true, false}
    ensures IsUnionIntended(Union({Shape(map["a" := x]), Shape(map["a" := x, "b" := y])})) == {true}
  {
    SubtypeAsWritten(x, y);
    SubtypeIntended(x, y);
  }

  lemma SubtypeAsWritten(x: Ty, y: Ty)
    requires Resolved(x) && Resolved(y)
    ensures IsUnion(Union({Shape(map["a" := x]), Shape(map["a" := x, "b" := y])})) == {true, false}
  {
    var t := Union({Shape(map["a" := x]), Shape(map["a" := x, "b" := y])});
    SubtypePairResolved(x, y);
    SubtypeAnswers(x, y);
    IsUnionMechanism(t, true);
    IsUnionMechanism(t, false);
    FourOutcomes(IsUnion(t));
  }

  lemma SubtypeIntended(x: Ty, y: Ty)
    requires Resolved(x) && Resolved(y)
    ensures IsUnionIntended(Union({Shape(map["a" := x]), Shape(map["a" := x, "b" := y])})) == {true}
  {
    SubtypePairResolved(x, y);
  }

  lemma SubtypePairResolved(x: Ty, y: Ty)
    requires Resolved(x) && Resolved(y)
    ensures var sa, sab := Shape(map["a" := x]), Shape(map["a" := x, "b" := y]);
      Resolved(Union({sa, sab})) && Resolve(Union({sa, sab})) == Union({sa, sab})
  {
    var sa := Shape(map["a" := x]);
    var sab := Shape(map["a" := x, "b" := y]);
    HalvesResolved(x, y);
    assert "b" in sab.fields && "b" !in sa.fields;
    PairResolved(sa, sab);
  }

  lemma SubtypeAnswers(x: Ty, y: Ty)
    requires Resolved(x) && Resolved(y)
    ensures var sa, sab := Shape(map["a" := x]), Shape(map["a" := x, "b" := y]);
      Answers(Union({sa, sab}), true) && Answers(Union({sa, sab}), false)
  {
    SubtypeAssignable(x, y);
    NarrowAnswersTrue(Shape(map["a" := x]), Shape(map["a" := x, "b" := y]));
    WideAnswersFalse(Shape(map["a" := x]), Shape(map["a" := x, "b" := y]));
  }

  /** The narrower alternative of a two-type union does not take the whole union. */
  lemma NarrowAnswersTrue(wide: Ty, narrow: Ty)
    requires !Assignable(wide, narrow)
    ensures Answers(Union({wide, narrow}), true)
  {
    var T := Union({wide, narrow});
    assert wide in T.alts;
    assert !Assignable(T, narrow);
    assert narrow in T.alts;
  }

  /** The wider alternative of a two-type union takes the whole union. */
  lemma WideAnswersFalse(wide: Ty, narrow: Ty)
    requires Assignable(narrow, wide) && Assignable(wide, wide)
    ensures Answers(Union({wide, narrow}), false)
  {
    var T := Union({wide, narrow});
    assert Assignable(T, wide);
    assert wide in T.alts;
  }

  /** `{ a: x, b: y }` is assignable to `{ a: x }`, not the other way round. */
  lemma SubtypeAssignable(x: Ty, y: Ty)
    requires Resolved(x) && Resolved(y)
    ensures Assignable(Shape(map["a" := x, "b" := y]), Shape(map["a" := x]))
    ensures Assignable(Shape(map["a" := x]), Shape(map["a" := x]))
    ensures !Assignable(Shape(map["a" := x]), Shape(map["a" := x, "b" := y]))
  {
    AssignableReflexive(x);
    assert "a"[0] != "b"[0];
    assert "b" in map["a" := x, "b" := y] && "b" !in map["a" := x];
  }

  // ---------------------------------------------------------------------
  // The evidently intended definition

  /**
   * The same conditionals with the last check asking whether the alternative
   * is the whole type (`Equal<Copy, T>`) instead of whether the whole type is
   * assignable to it.
   */
  ghost function PerAlternativeIntended(u: Ty, T: Ty): Outcome
  {
    Select(Branches(u, Never), {false}, Select(Equal.Equal(T, u), {false}, {true}))
  }

  ghost predicate MarksIntended(T: Ty, x: bool)
  {
    exists u :: u in Alternatives(T) && x in PerAlternativeIntended(u, T)
  }

  /** `IsUnion<T>` as intended: true exactly for the types that resolve to a union. */
  ghost function IsUnionIntended(t: Ty): (r: Outcome)
    ensures r == {Resolve(t).Union?}
  {
    var T := Resolve(t);
    WrappedAssignable(T, Never);
    NeverOnlyToNever(T);
    IntendedMarks(T, true);
    IntendedMarks(T, false);
    Select(Branches(Tuple([T], false), Tuple([Never], false)), {false},
      (if MarksIntended(T, true) then {true} else {}) + (if MarksIntended(T, false) then {false} else {}))
  }

  /** Each alternative of a resolved type other than `never` answers whether the type is a union. */
  lemma IntendedMarks(T: Ty, x: bool)
    requires Resolved(T)
    ensures !T.Never? ==> (MarksIntended(T, x) <==> x == T.Union?)
  {
    if !T.Never? {
      IntendedMarksOf(T, x);
    }
  }

  lemma IntendedMarksOf(T: Ty, x: bool)
    requires Resolved(T) && !T.Never?
    ensures MarksIntended(T, x) <==> x == T.Union?
  {
    if MarksIntended(T, x) {
      var u :| u in Alternatives(T) && x in PerAlternativeIntended(u, T);
      IntendedAnswer(u, T);
    }
    if x == T.Union? {
      var alts := Alternatives(T);
      var u :| u in alts;
      IntendedAnswer(u, T);
      assert x in PerAlternativeIntended(u, T);
    }
  }

  lemma IntendedAnswer(u: Ty, T: Ty)
    requires Resolved(T) && u in Alternatives(T)
    ensures PerAlternativeIntended(u, T) == {T.Union?}
  {
    ResolveFixesResolved(T);
    ResolveFixesResolved(u);
    if !u.Any? {
      NeverOnlyToNever(u);
    }
  }
}
