/**
 * `FalseCases<T extends readonly false[]>`:
 * `Equal<T[number], false> extends true ? (IsTuple<T> extends true ? true : false) : false`.
 * Neither check type is a bare type parameter, so nothing distributes.  The
 * result is `true` when the element type is exactly `false` AND `T` is a
 * tuple; unlike `TrueCases` this is a conjunction.
 */
module FalseCases {
  import opened Types
  import opened Assignability
  import opened Conditional
  import opened Indexed
  import Equal
  import IsTuple

  /** `readonly false[]` */
  const FalseList: Ty := Array(BoolLit(false), true)

  /** The constraint `T extends readonly false[]` holds for the argument `t`. */
  ghost predicate Accepts(t: Ty)
  {
    Assignable(Resolve(t), FalseList)
  }

  /** `FalseCases<T>` */
  ghost function FalseCases(t: Ty): (r: Outcome)
    ensures r == {ElementOf(Resolve(t)) == BoolLit(false) && false !in IsTuple.IsTuple(t)}
  {
    var T := Resolve(t);
    var same := Equal.Equal(ElementOf(T), BoolLit(false));
    ResolveFixesResolved(ElementOf(T));
    ExtendsTrue(same);
    ExtendsTrue(IsTuple.IsTuple(t));
    Select(Branches(OutcomeType(same), BoolLit(true)),
      Select(Branches(OutcomeType(IsTuple.IsTuple(t)), BoolLit(true)), {true}, {false}),
      {false})
  }

  // ---------------------------------------------------------------------
  // Properties

  /** The answer is always `true` or `false`. */
  lemma FalseCasesStrict(t: Ty)
    ensures Strict(FalseCases(t))
  {
  }

  /** `true` exactly when the element type is `false` and `IsTuple` answers `true`. */
  lemma FalseCasesConjunction(t: Ty)
    ensures FalseCases(t) == {true} <==> ElementOf(Resolve(t)) == BoolLit(false) && IsTuple.IsTuple(t) == {true}
  {
    var o := IsTuple.IsTuple(t);
    FourOutcomes(o);
    if ElementOf(Resolve(t)) == BoolLit(false) && false !in o {
      IsTuple.IsTupleNotNever(t);
    }
  }

  /** A tuple meets the constraint exactly when each of its elements is assignable to `false`. */
  lemma AcceptsTuple(es: seq<Ty>, ro: bool)
    requires Resolved(Tuple(es, ro))
    ensures Accepts(Tuple(es, ro)) <==> forall i :: 0 <= i < |es| ==> Assignable(es[i], BoolLit(false))
  {
    ResolveFixesResolved(Tuple(es, ro));
    TupleToList(es, ro);
  }

  lemma TupleToList(es: seq<Ty>, ro: bool)
    ensures Assignable(Tuple(es, ro), FalseList) <==> forall i :: 0 <= i < |es| ==> Assignable(es[i], BoolLit(false))
  {
    assert Assignable(Tuple(es, ro), FalseList) == PlainAssignable(Tuple(es, ro), FalseList);
    if forall i :: 0 <= i < |es| ==> Assignable(es[i], BoolLit(false)) {
      forall x | x in es ensures Assignable(x, BoolLit(false)) {
        var i :| 0 <= i < |es| && es[i] == x;
      }
    }
  }

  /** A list with one element not assignable to `false` is rejected as a whole. */
  lemma RejectsBadElement(es: seq<Ty>, ro: bool, i: nat)
    requires Resolved(Tuple(es, ro)) && i < |es| && !Assignable(es[i], BoolLit(false))
    ensures !Accepts(Tuple(es, ro))
  {
    AcceptsTuple(es, ro);
  }

  // ---------------------------------------------------------------------
  // The expected values of the library's own cases

  /** A non-empty list of `false` results is accepted and gives `true`. */
  lemma FalseCasesAllFalseList(n: nat, ro: bool)
    requires n > 0
    ensures var l := Tuple(seq(n, _ => BoolLit(false)), ro);
      Accepts(l) && FalseCases(l) == {true}
  {
    AllFalseFacts(n, ro);
  }

  lemma AllFalseFacts(n: nat, ro: bool)
    requires n > 0
    ensures var l := Tuple(seq(n, _ => BoolLit(false)), ro);
      Accepts(l) && ElementOf(Resolve(l)) == BoolLit(false) && IsTuple.IsTuple(l) == {true}
  {
    var l := Tuple(seq(n, _ => BoolLit(false)), ro);
    assert Resolved(l);
    AcceptsTuple(l.elems, ro);
    ResolveFixesResolved(l);
    ElementOfUniform(l.elems, ro, BoolLit(false));
    IsTuple.TupleCase(l);
  }

  /** `[]`: the element type is `never`. */
  lemma FalseCasesEmptyCase()
    ensures Accepts(Tuple([], false)) && FalseCases(Tuple([], false)) == {false}
  {
    AcceptsTuple([], false);
    ResolveFixesResolved(Tuple([], false));
    ElementOfEmpty(false);
  }

  /** `[never]` and `[any]`: the element type is `never` or `any`, not `false`. */
  lemma FalseCasesSentinelListCases()
    ensures Accepts(Tuple([Never], false)) && FalseCases(Tuple([Never], false)) == {false}
    ensures Accepts(Tuple([Any], false)) && FalseCases(Tuple([Any], false)) == {false}
  {
    SentinelList(Never);
    SentinelList(Any);
  }

  lemma SentinelList(x: Ty)
    requires x.Never? || x.Any?
    ensures Accepts(Tuple([x], false)) && FalseCases(Tuple([x], false)) == {false}
  {
    assert Resolved(Tuple([x], false));
    AcceptsTuple([x], false);
    ResolveFixesResolved(Tuple([x], false));
    ElementOfUniform([x], false, x);
  }

  /** `never` and `any` meet the constraint and give `false`. */
  lemma FalseCasesSentinelCases()
    ensures Accepts(Never) && FalseCases(Never) == {false}
    ensures Accepts(Any) && FalseCases(Any) == {false}
  {
    FalseCasesNeverCase();
    FalseCasesAnyCase();
  }

  lemma FalseCasesNeverCase()
    ensures Accepts(Never) && FalseCases(Never) == {false}
  {
  }

  lemma FalseCasesAnyCase()
    ensures Accepts(Any) && FalseCases(Any) == {false}
  {
  }

  /** `[true]` (an `IsNever<never>` entry) is rejected, and so is the non-list `true`, which gives `false`. */
  lemma FalseCasesRejected()
    ensures !Accepts(Tuple([BoolLit(true)], false))
    ensures !Accepts(BoolLit(true)) && FalseCases(BoolLit(true)) == {false}
  {
    RejectsTrueList();
    RejectsTrue();
    IsTuple.NonTupleCase(BoolLit(true));
  }

  lemma RejectsTrueList()
    ensures !Accepts(Tuple([BoolLit(true)], false))
  {
    assert [BoolLit(true)][0] == BoolLit(true);
    RejectsBadElement([BoolLit(true)], false, 0);
  }

  lemma RejectsTrue()
    ensures !Accepts(BoolLit(true))
  {
  }
}
