/**
 * `IsNever<T>`: `[T] extends [never] ? true : false`. Wrapping `T` in a
 * one-element tuple keeps the conditional from distributing, so `never`
 * itself is tested instead of yielding no branch at all.
 */
module IsNever {
  import opened Types
  import opened Assignability
  import opened Conditional

  /** `IsNever<T>` */
  ghost function IsNever(t: Ty): (r: Outcome)
    ensures r == {Resolve(t).Never?}
  {
    var T := Resolve(t);
    WrappedAssignable(T, Never);
    NeverOnlyToNever(T);
    Branches(Tuple([T], false), Tuple([Never], false))
  }

  /** The answer is always `true` or `false`, never the empty outcome. */
  lemma IsNeverStrict(t: Ty)
    ensures Strict(IsNever(t))
  {
  }

  /** `never`, and intersections that collapse to it, are `never`. */
  lemma IsNeverTrueCases()
    ensures IsNever(Never) == {true}
    ensures IsNever(Inter([Str, Num])) == {true}
  {
    CollapsedPair(Str, Num);
  }

  /** Object types whose shared property holds different literals are `never`: `{a: 1} & {a: 2}`. */
  lemma IsNeverClashCase(m: int, n: int)
    requires m != n
    ensures IsNever(Inter([Shape(map["a" := NumLit(m)]), Shape(map["a" := NumLit(n)])])) == {true}
  {
    ClashingShapes(Shape(map["a" := NumLit(m)]), Shape(map["a" := NumLit(n)]), "a");
  }

  /** `''`, `undefined`, `null`, `[]` and `{}` are not `never`. */
  lemma IsNeverFalseCases()
    ensures IsNever(StrLit("")) == {false}
    ensures IsNever(Undefined) == {false}
    ensures IsNever(Null) == {false}
  {
  }

  lemma IsNeverObjectCases()
    ensures IsNever(Tuple([], false)) == {false}
    ensures IsNever(EmptyObject) == {false}
  {
  }

  /** `never | string` resolves to `string`. */
  lemma IsNeverUnionCase()
    ensures IsNever(Union({Never, Str})) == {false}
  {
    assert {Never, Str} == {Str, Never};
    UnionWithNever(Str);
  }
}
