/**
 * `IsTuple<T>`:
 * `IsNever<T> extends true ? false : T extends readonly unknown[] ? (number extends T["length"] ? false : true) : false`.
 * The never test comes first; the array test distributes over the
 * alternatives of `T`, and inside its true branch `T["length"]` is looked up
 * on the alternative at hand.  A tuple has a literal length, an array has
 * `number`.
 */
module IsTuple {
  import opened Types
  import opened Assignability
  import opened Conditional
  import opened Indexed
  import IsNever

  /** `readonly unknown[]` */
  const ReadonlyArray: Ty := Array(Unknown, true)

  /** The answer for one alternative `u` of the array test. */
  ghost function PerAlternative(u: Ty): Outcome
    requires Resolved(u)
  {
    Select(Branches(u, ReadonlyArray), Select(Branches(Num, LengthOf(u)), {false}, {true}), {false})
  }

  /** Some alternative of `T` answers `x`. */
  ghost predicate Marks(T: Ty, x: bool)
    requires Resolved(T)
  {
    exists u :: u in Alternatives(T) && x in PerAlternative(u)
  }

  /** The distributed array test: the answers of all alternatives together. */
  ghost function Distributed(T: Ty): Outcome
    requires Resolved(T)
  {
    (if Marks(T, true) then {true} else {}) + (if Marks(T, false) then {false} else {})
  }

  /** `IsTuple<T>`; `never` is `false`. */
  ghost function IsTuple(t: Ty): (r: Outcome)
    ensures Resolve(t).Never? ==> r == {false}
  {
    var T := Resolve(t);
    IsNever.IsNeverStrict(t);
    ExtendsTrue(IsNever.IsNever(t));
    Select(Branches(OutcomeType(IsNever.IsNever(t)), BoolLit(true)), {false}, Distributed(T))
  }

  /**
   * What the checks ask of one resolved alternative: it is an array type
   * whose length is narrower than `number`.  `any` takes both branches of
   * the array test and answers false on both.
   */
  ghost predicate TupleLike(u: Ty)
    requires Resolved(u)
  {
    !u.Never? && !u.Any? && Assignable(u, ReadonlyArray) && !Assignable(Num, LengthOf(u))
  }

  // ---------------------------------------------------------------------
  // Properties

  /** Past the never test, the answer is the distributed one. */
  lemma IsTupleDistributed(t: Ty)
    requires !Resolve(t).Never?
    ensures IsTuple(t) == Distributed(Resolve(t))
  {
    IsNever.IsNeverStrict(t);
    ExtendsTrue(IsNever.IsNever(t));
  }

  /** Each alternative answers whether it is tuple-like. */
  lemma PerAlternativeTupleLike(u: Ty)
    requires Resolved(u) && !u.Never?
    ensures PerAlternative(u) == {TupleLike(u)}
  {
    if u.Any? {
      AnyAlternative();
    } else {
      PlainAlternative(u);
    }
  }

  lemma AnyAlternative()
    ensures PerAlternative(Any) == {false}
  {
    assert LengthOf(Any) == Any;
    assert Branches(Num, Any) == {true};
  }

  lemma PlainAlternative(u: Ty)
    requires Resolved(u) && !u.Never? && !u.Any?
    ensures PerAlternative(u) == {TupleLike(u)}
  {
    var isArray := Assignable(u, ReadonlyArray);
    var wide := Assignable(Num, LengthOf(u));
    assert Branches(u, ReadonlyArray) == {isArray};
    assert Branches(Num, LengthOf(u)) == {wide};
    SelectOne(wide, {false}, {true});
    SelectOne(isArray, {!wide}, {false});
  }

  /** A type that does not resolve to a union answers whether it is tuple-like. */
  lemma IsTupleSingle(t: Ty)
    requires !Resolve(t).Union?
    ensures IsTuple(t) == {TupleLike(Resolve(t))}
  {
    var T := Resolve(t);
    if !T.Never? {
      IsTupleDistributed(t);
      PerAlternativeTupleLike(T);
      SingleMarks(T);
    }
  }

  lemma SingleMarks(T: Ty)
    requires Resolved(T) && !T.Union? && !T.Never?
    ensures Distributed(T) == PerAlternative(T)
  {
    SingleMark(T, true);
    SingleMark(T, false);
  }

  lemma SingleMark(T: Ty, x: bool)
    requires Resolved(T) && !T.Union? && !T.Never?
    ensures Marks(T, x) <==> x in PerAlternative(T)
  {
    assert Alternatives(T) == {T};
    if x in PerAlternative(T) {
      assert T in Alternatives(T);
    }
  }

  /** Some alternative of the union `T` answers `x` to "is it tuple-like?". */
  ghost predicate Answers(T: Ty, x: bool)
    requires Resolved(T) && T.Union?
  {
    exists u :: u in T.alts && TupleLike(u) == x
  }

  /** A union takes branch `x` exactly when one of its alternatives answers `x`. */
  lemma IsTupleUnion(t: Ty, x: bool)
    requires Resolve(t).Union?
    ensures x in IsTuple(t) <==> Answers(Resolve(t), x)
  {
    var T := Resolve(t);
    IsTupleDistributed(t);
    MarksAnswers(T, x);
  }

  lemma MarksAnswers(T: Ty, x: bool)
    requires Resolved(T) && T.Union?
    ensures x in Distributed(T) <==> Answers(T, x)
  {
    if Marks(T, x) {
      MarkToAnswer(T, x);
    }
    if Answers(T, x) {
      AnswerToMark(T, x);
    }
  }

  lemma MarkToAnswer(T: Ty, x: bool)
    requires Resolved(T) && T.Union? && Marks(T, x)
    ensures Answers(T, x)
  {
    var u :| u in Alternatives(T) && x in PerAlternative(u);
    AlternativeAnswer(T, u, x);
  }

  lemma AlternativeAnswer(T: Ty, u: Ty, x: bool)
    requires Resolved(T) && T.Union? && u in T.alts && x in PerAlternative(u)
    ensures Answers(T, x)
  {
    PerAlternativeTupleLike(u);
  }

  lemma AnswerToMark(T: Ty, x: bool)
    requires Resolved(T) && T.Union? && Answers(T, x)
    ensures Marks(T, x)
  {
    var u :| u in T.alts && TupleLike(u) == x;
    PerAlternativeTupleLike(u);
    assert u in Alternatives(T);
  }

  /** `IsTuple` always takes some branch. */
  lemma IsTupleNotNever(t: Ty)
    ensures IsTuple(t) != {}
  {
    var T := Resolve(t);
    if T.Union? {
      var u :| u in T.alts;
      var x := TupleLike(u);
      assert Answers(T, x);
      IsTupleUnion(t, x);
    } else {
      IsTupleSingle(t);
    }
  }

  /** `[1] | number[]` distributes: one alternative is a tuple, the other is not. */
  lemma IsTupleUnionCase()
    ensures IsTuple(Union({Tuple([NumLit(1)], false), Array(Num, false)})) == {true, false}
  {
    var tu := Tuple([NumLit(1)], false);
    var ar := Array(Num, false);
    var t := Union({tu, ar});
    PairResolved(tu, ar);
    MixedAnswers(tu, ar);
    IsTupleUnion(t, true);
    IsTupleUnion(t, false);
    FourOutcomes(IsTuple(t));
  }

  lemma MixedAnswers(tu: Ty, ar: Ty)
    requires tu == Tuple([NumLit(1)], false) && ar == Array(Num, false)
    ensures Resolved(Union({tu, ar}))
    ensures Answers(Union({tu, ar}), true) && Answers(Union({tu, ar}), false)
  {
    PairResolved(tu, ar);
    TupleIsTupleLike(tu);
    ArrayNotTupleLike(ar);
    assert tu in Union({tu, ar}).alts && ar in Union({tu, ar}).alts;
  }

  /**
   * Among resolved types that are neither unions nor intersections, the
   * tuple-like ones are exactly the tuples.
   */
  lemma TupleLikeIsTuple(u: Ty)
    requires Resolved(u) && !u.Union? && !u.Inter?
    ensures TupleLike(u) <==> u.Tuple?
  {
    if u.Tuple? {
      TupleIsTupleLike(u);
    } else if u.Array? {
      ArrayNotTupleLike(u);
    } else {
      OtherNotTupleLike(u);
    }
  }

  lemma TupleIsTupleLike(u: Ty)
    requires Resolved(u) && u.Tuple?
    ensures TupleLike(u)
  {
    assert PlainAssignable(u, ReadonlyArray);
  }

  lemma ArrayNotTupleLike(u: Ty)
    requires Resolved(u) && u.Array?
    ensures !TupleLike(u)
  {
    assert LengthOf(u) == Num;
  }

  lemma OtherNotTupleLike(u: Ty)
    requires Resolved(u) && !u.Union? && !u.Inter? && !u.Tuple? && !u.Array?
    ensures !TupleLike(u)
  {
    if !u.Never? && !u.Any? {
      assert !PlainAssignable(u, ReadonlyArray);
    }
  }

  // ---------------------------------------------------------------------
  // The expected values of the library's own cases

  /** `[]`, `[number]` and `readonly [1]` are tuples. */
  lemma IsTupleTrueCases()
    ensures IsTuple(Tuple([], false)) == {true}
    ensures IsTuple(Tuple([Num], false)) == {true}
    ensures IsTuple(Tuple([NumLit(1)], true)) == {true}
  {
    EmptyTupleCase();
    NumberTupleCase();
    ReadonlyTupleCase();
  }

  lemma EmptyTupleCase()
    ensures IsTuple(Tuple([], false)) == {true}
  {
    TupleCase(Tuple([], false));
  }

  lemma NumberTupleCase()
    ensures IsTuple(Tuple([Num], false)) == {true}
  {
    TupleCase(Tuple([Num], false));
  }

  lemma ReadonlyTupleCase()
    ensures IsTuple(Tuple([NumLit(1)], true)) == {true}
  {
    TupleCase(Tuple([NumLit(1)], true));
  }

  lemma TupleCase(t: Ty)
    requires t.Tuple? && Resolved(t)
    ensures IsTuple(t) == {true}
  {
    ResolveFixesResolved(t);
    IsTupleSingle(t);
    TupleLikeIsTuple(t);
  }

  /** `{ length: 1 }` and `number[]` are not tuples. */
  lemma IsTupleFalseCases()
    ensures IsTuple(Shape(map["length" := NumLit(1)])) == {false}
    ensures IsTuple(Array(Num, false)) == {false}
  {
    NonTupleCase(Shape(map["length" := NumLit(1)]));
    NonTupleCase(Array(Num, false));
  }

  lemma NonTupleCase(t: Ty)
    requires Resolved(t) && !t.Tuple? && !t.Union? && !t.Inter?
    ensures IsTuple(t) == {false}
  {
    ResolveFixesResolved(t);
    IsTupleSingle(t);
    TupleLikeIsTuple(t);
  }

  /** `never` is rejected by the never test. */
  lemma IsTupleNeverCase()
    ensures IsTuple(Never) == {false}
  {
  }

  /** `any` takes both branches of the array test and gives `false` on each. */
  lemma IsTupleAnyCase()
    ensures IsTuple(Any) == {false}
  {
    IsTupleSingle(Any);
  }
}
