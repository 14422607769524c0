/**
 * `IsAny<T>`: `0 extends (1 & T) ? true : false`.  The check type `0` is
 * not a type parameter, so nothing distributes.  `1 & T` is `any` when `T`
 * is `any`; for every other `T` it is `never`, `1`, or an intersection or
 * union built around `1`, and `0` is assignable to none of those.
 */
module IsAny {
  import opened Types
  import opened Assignability
  import opened Conditional

  /** `IsAny<T>` */
  ghost function IsAny(t: Ty): (r: Outcome)
    ensures r == {Resolve(t).Any?}
  {
    ZeroAgainstOne(t);
    Branches(NumLit(0), Resolve(Inter([NumLit(1), t])))
  }

  lemma ZeroAgainstOne(t: Ty)
    ensures Branches(NumLit(0), Resolve(Inter([NumLit(1), t]))) == {Resolve(t).Any?}
  {
    ResolveInterOf(NumLit(1), t);
    MeetOne(Resolve(t));
    if !Resolve(t).Any? {
      ZeroNotToOne(Meet(NumLit(1), Resolve(t)));
    }
  }

  /** `1` itself, or an intersection that has `1` among its parts. */
  predicate OneAtom(r: Ty)
  {
    r == NumLit(1) || (r.Inter? && NumLit(1) in r.parts)
  }

  /** The shapes `1 & T` can take when `T` is not `any`. */
  predicate HoldsOne(r: Ty)
  {
    r.Never? || OneAtom(r) || (r.Union? && forall a :: a in r.alts ==> OneAtom(a))
  }

  /** `0` is not assignable to a type that holds `1`. */
  lemma ZeroNotToOne(r: Ty)
    requires HoldsOne(r)
    ensures !Assignable(NumLit(0), r)
  {
    if r.Union? {
      forall a | a in r.alts ensures !Assignable(NumLit(0), a) {
        ZeroNotToAtom(a);
      }
    } else if OneAtom(r) {
      ZeroNotToAtom(r);
    }
  }

  lemma ZeroNotToAtom(a: Ty)
    requires OneAtom(a)
    ensures !Assignable(NumLit(0), a)
  {
    if a.Inter? {
      assert !Assignable(NumLit(0), NumLit(1));
    }
  }

  /** `1 & T` is `any` for `any` and holds `1` otherwise. */
  lemma MeetOne(y: Ty)
    requires Resolved(y)
    ensures y.Any? ==> Meet(NumLit(1), y) == Any
    ensures !y.Any? ==> HoldsOne(Meet(NumLit(1), y))
  {
    if y.Union? {
      MeetOneUnion(y);
    } else if !y.Never? && !y.Any? && !y.Unknown? {
      ReduceOne(PartsOf(NumLit(1)) + PartsOf(y));
    }
  }

  lemma MeetOneUnion(y: Ty)
    requires Resolved(y) && y.Union?
    ensures HoldsOne(Meet(NumLit(1), y))
  {
    var S := set b | b in y.alts :: Meet(NumLit(1), b);
    forall s | s in S ensures s.Never? || OneAtom(s) {
      var b :| b in y.alts && s == Meet(NumLit(1), b);
      MeetOneMember(b);
    }
    UnionOfAtoms(S);
  }

  lemma MeetOneMember(b: Ty)
    requires Resolved(b) && Member(b)
    ensures Meet(NumLit(1), b).Never? || OneAtom(Meet(NumLit(1), b))
  {
    ReduceOne(PartsOf(NumLit(1)) + PartsOf(b));
  }

  /** A union of types that each are `never` or hold `1` holds `1`. */
  lemma UnionOfAtoms(S: set<Ty>)
    requires AllResolved(S)
    requires forall s :: s in S ==> s.Never? || OneAtom(s)
    ensures HoldsOne(UnionOf(S))
  {
    var K := set a | a in S && !a.Never? && !Absorbed(a, S);
    UnionOfFlat(S, K);
    if |K| == 1 {
      assert Only(K) in K;
    }
  }

  /** `1` survives the reduction of an intersection: the result is `never`, `1`, or holds `1`. */
  lemma ReduceOne(l: seq<Ty>)
    requires forall x :: x in l ==> Plain(x) && Resolved(x)
    requires NumLit(1) in l
    ensures Reduce(l).Never? || OneAtom(Reduce(l))
  {
    if !exists x, y :: x in l && y in l && Disjoint(x, y) {
      assert !RedundantIn(NumLit(1), l);
      var k := Dedup(Survivors(l, l));
      assert NumLit(1) in k;
      if |k| == 1 {
        assert k == [k[0]];
      }
    }
  }

  // ---------------------------------------------------------------------
  // The expected values of the library's own cases

  /** A union with `any` resolves to `any`, so `IsAny<any | 1>` is true. */
  lemma IsAnyUnionCase(n: int)
    ensures IsAny(Union({NumLit(n), Any})) == {true}
  {
    UnionWithAny(NumLit(n));
  }

  /** `any` is true; `undefined`, `unknown`, `never` and `string` are false. */
  lemma IsAnyCases()
    ensures IsAny(Any) == {true}
    ensures IsAny(Undefined) == {false} && IsAny(Unknown) == {false}
    ensures IsAny(Never) == {false} && IsAny(Str) == {false}
  {
  }
}
