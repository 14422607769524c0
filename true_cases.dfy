/**
 * `TrueCases<T extends readonly true[]>`:
 * `false extends Equal<T[number], true> ? (false extends IsTuple<T> ? false : true) : true`.
 * The constraint checks the whole list at once; both conditionals have the
 * literal `false` as check type, so neither distributes.  The result is
 * `true` when the element type is exactly `true` OR when `T` is a tuple.
 */
module TrueCases {
  import opened Types
  import opened Assignability
  import opened Conditional
  import opened Indexed
  import Equal
  import IsTuple

  /** `readonly true[]` */
  const TrueList: Ty := Array(BoolLit(true), true)

  /** The constraint `T extends readonly true[]` holds for the argument `t`. */
  ghost predicate Accepts(t: Ty)
  {
    Assignable(Resolve(t), TrueList)
  }

  /** `TrueCases<T>` */
  ghost function TrueCases(t: Ty): (r: Outcome)
    ensures r == {ElementOf(Resolve(t)) == BoolLit(true) || false !in IsTuple.IsTuple(t)}
  {
    var T := Resolve(t);
    var same := Equal.Equal(ElementOf(T), BoolLit(true));
    ResolveFixesResolved(ElementOf(T));
    FalseExtends(same);
    FalseExtends(IsTuple.IsTuple(t));
    Select(Branches(BoolLit(false), OutcomeType(same)),
      Select(Branches(BoolLit(false), OutcomeType(IsTuple.IsTuple(t))), {false}, {true}),
      {true})
  }

  // ---------------------------------------------------------------------
  // Properties

  /** The answer is always `true` or `false`. */
  lemma TrueCasesStrict(t: Ty)
    ensures Strict(TrueCases(t))
  {
  }

  /** When the element type is exactly `true`, the answer is `true`. */
  lemma TrueCasesAllTrue(t: Ty)
    requires ElementOf(Resolve(t)) == BoolLit(true)
    ensures TrueCases(t) == {true}
  {
  }

  /** Otherwise the answer is whatever `IsTuple` answers, when that is `true` or `false`. */
  lemma TrueCasesFollowsIsTuple(t: Ty)
    requires ElementOf(Resolve(t)) != BoolLit(true)
    requires Strict(IsTuple.IsTuple(t))
    ensures TrueCases(t) == IsTuple.IsTuple(t)
  {
  }

  /**
   * A tuple meets the constraint exactly when each of its elements is
   * assignable to `true`: one bad element rejects the whole list.
   */
  lemma AcceptsTuple(es: seq<Ty>, ro: bool)
    requires Resolved(Tuple(es, ro))
    ensures Accepts(Tuple(es, ro)) <==> forall i :: 0 <= i < |es| ==> Assignable(es[i], BoolLit(true))
  {
    ResolveFixesResolved(Tuple(es, ro));
    TupleToList(es, ro);
  }

  lemma TupleToList(es: seq<Ty>, ro: bool)
    ensures Assignable(Tuple(es, ro), TrueList) <==> forall i :: 0 <= i < |es| ==> Assignable(es[i], BoolLit(true))
  {
    assert Assignable(Tuple(es, ro), TrueList) == PlainAssignable(Tuple(es, ro), TrueList);
    if forall i :: 0 <= i < |es| ==> Assignable(es[i], BoolLit(true)) {
      forall x | x in es ensures Assignable(x, BoolLit(true)) {
        var i :| 0 <= i < |es| && es[i] == x;
      }
    }
  }

  // ---------------------------------------------------------------------
  // The expected values

  /** A non-empty list of `true` results is accepted and gives `true`. */
  lemma TrueCasesAllTrueList(n: nat, ro: bool)
    requires n > 0
    ensures var l := Tuple(seq(n, _ => BoolLit(true)), ro);
      Accepts(l) && TrueCases(l) == {true}
  {
    var l := Tuple(seq(n, _ => BoolLit(true)), ro);
    assert Resolved(l);
    AcceptsTuple(l.elems, ro);
    ResolveFixesResolved(l);
    ElementOfUniform(l.elems, ro, BoolLit(true));
  }

  /** `true[]`: the element type is `true`, so `true` although it is no tuple. */
  lemma TrueCasesArrayCase()
    ensures Accepts(Array(BoolLit(true), false)) && TrueCases(Array(BoolLit(true), false)) == {true}
  {
    ResolveFixesResolved(Array(BoolLit(true), false));
  }

  /** A list with one element not assignable to `true` is rejected as a whole. */
  lemma RejectsBadElement(es: seq<Ty>, ro: bool, i: nat)
    requires Resolved(Tuple(es, ro)) && i < |es| && !Assignable(es[i], BoolLit(true))
    ensures !Accepts(Tuple(es, ro))
  {
    AcceptsTuple(es, ro);
  }

  /** A list with a `false` entry, such as `[true, false, true, true]`, is rejected. */
  lemma TrueCasesRejectsFalse()
    ensures !Accepts(Tuple([BoolLit(true), BoolLit(false), BoolLit(true), BoolLit(true)], false))
  {
    var es := [BoolLit(true), BoolLit(false), BoolLit(true), BoolLit(true)];
    assert es[1] == BoolLit(false);
    RejectsBadElement(es, false, 1);
  }

  /** The empty list has element type `never`, but it is a tuple: `true`. */
  lemma TrueCasesEmptyCase()
    ensures Accepts(Tuple([], false)) && TrueCases(Tuple([], false)) == {true}
  {
    AcceptsTuple([], false);
    ResolveFixesResolved(Tuple([], false));
    ElementOfEmpty(false);
    IsTuple.EmptyTupleCase();
  }

  /** `never` and `any` meet the constraint; neither is `true`-typed nor a tuple. */
  lemma TrueCasesSentinelCases()
    ensures Accepts(Never) && TrueCases(Never) == {false}
    ensures Accepts(Any) && TrueCases(Any) == {false}
  {
    TrueCasesNeverCase();
    TrueCasesAnyCase();
  }

  lemma TrueCasesNeverCase()
    ensures Accepts(Never) && TrueCases(Never) == {false}
  {
    IsTuple.IsTupleNeverCase();
  }

  lemma TrueCasesAnyCase()
    ensures Accepts(Any) && TrueCases(Any) == {false}
  {
    IsTuple.IsTupleAnyCase();
  }
}
