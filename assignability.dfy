/**
 * Assignability between resolved types of the fragment: the relation the
 * checker consults when it decides `S extends T` for one check type `S`.
 */
module Assignability {
  import opened Types

  /** The type of `length` on a tuple (its literal size) or an array (`number`). */
  function TupleLength(s: Ty): Ty
  {
    if s.Tuple? then NumLit(|s.elems|) else Num
  }

  /** Is a value of type `s` assignable to type `t`? */
  ghost predicate Assignable(s: Ty, t: Ty)
    decreases t, s, 1
  {
    if s.Never? then true
    else if t.Any? || t.Unknown? then true
    else if s.Any? then !t.Never?
    else if s.Union? then forall a :: a in s.alts ==> Assignable(a, t)
    else if s.Unknown? then
      // `unknown` behaves as `{} | null | undefined` towards a union
      t.Union? && EmptyObject in t.alts && Null in t.alts && Undefined in t.alts
    else if t.Union? then exists b :: b in t.alts && Assignable(s, b)
    else if t.Inter? then forall p :: p in t.parts ==> Assignable(s, p)
    else if s.Inter? then
      || (exists p :: p in s.parts && Assignable(p, t))
      || (t.Shape? && t.fields != map[] && forall k :: k in t.fields ==> FieldFromParts(s.parts, k, t.fields[k]))
    else PlainAssignable(s, t)
  }

  /** Some part of an intersection has field `k` of a type assignable to `want`. */
  ghost predicate FieldFromParts(ps: seq<Ty>, k: string, want: Ty)
    decreases want, ps, 0
  {
    exists p :: p in ps && p.Shape? && k in p.fields && Assignable(p.fields[k], want)
  }

  /** Assignability from a plain type `s` to a plain type (or `never`) `t`. */
  ghost predicate PlainAssignable(s: Ty, t: Ty)
    decreases t, s, 0
  {
    match t
    case NumLit(_) => s == t
    case StrLit(_) => s == t
    case BigLit(_) => s == t
    case BoolLit(_) => s == t
    case Num => s.Num? || s.NumLit?
    case Str => s.Str? || s.StrLit?
    case Big => s.Big? || s.BigLit?
    case Undefined => s.Undefined?
    case Null => s.Null?
    case Void => s.Void? || s.Undefined?
    case ObjectKw => ObjectLike(s)
    case Shape(fs) =>
      if fs == map[] then !Nullable(s) && !s.Void?
      else if s.Shape? then forall k :: k in fs ==> k in s.fields && Assignable(s.fields[k], fs[k])
      else if s.Tuple? || s.Array? then forall k :: k in fs ==> k == "length" && Assignable(TupleLength(s), fs[k])
      else false
    case Tuple(ts, ro) =>
      s.Tuple? && |s.elems| == |ts| && (s.ro ==> ro)
      && forall i :: 0 <= i < |ts| ==> Assignable(s.elems[i], ts[i])
    case Array(e, ro) =>
      || (s.Tuple? && (s.ro ==> ro) && forall x :: x in s.elems ==> Assignable(x, e))
      || (s.Array? && (s.ro ==> ro) && Assignable(s.elem, e))
    case Probe(_) => s == t
    case _ => false
  }

  // ---------------------------------------------------------------------
  // Properties of assignability

  /** Every resolved type is assignable to itself. */
  lemma {:induction false} AssignableReflexive(t: Ty)
    requires Resolved(t)
    ensures Assignable(t, t)
  {
    match t
    case Shape(fs) =>
      forall k | k in fs ensures Assignable(fs[k], fs[k]) {
        AssignableReflexive(fs[k]);
      }
    case Tuple(es, _) =>
      forall i | 0 <= i < |es| ensures Assignable(es[i], es[i]) {
        AssignableReflexive(es[i]);
      }
    case Array(e, _) =>
      AssignableReflexive(e);
    case Union(alts) =>
      forall a | a in alts ensures Assignable(a, t) {
        MemberAssignableToUnion(a, alts);
      }
    case Inter(ps) =>
      forall p | p in ps ensures Assignable(t, p) {
        AssignableReflexive(p);
      }
    case _ =>
  }

  /** Each alternative of a resolved union is assignable to the union. */
  lemma {:induction false} MemberAssignableToUnion(a: Ty, alts: set<Ty>)
    requires Resolved(Union(alts)) && a in alts
    ensures Assignable(a, Union(alts))
    decreases Union(alts), 0
  {
    AssignableReflexive(a);
  }

  /** No resolved type other than `never` is assignable to `never`. */
  lemma NeverOnlyToNever(t: Ty)
    requires Resolved(t)
    ensures Assignable(t, Never) <==> t == Never
  {
    if t.Union? {
      var a :| a in t.alts;
      MemberNotToNever(a);
    } else if t.Inter? {
      MemberNotToNever(t);
    }
  }

  lemma MemberNotToNever(m: Ty)
    requires Resolved(m) && Member(m)
    ensures !Assignable(m, Never)
  {
    if m.Inter? {
      forall p | p in m.parts ensures !Assignable(p, Never) {
        assert Plain(p);
      }
    }
  }

  /** Wrapping both sides in a one-element tuple (`[S] extends [T]`) keeps the answer. */
  lemma WrappedAssignable(s: Ty, t: Ty)
    ensures Assignable(Tuple([s], false), Tuple([t], false)) <==> Assignable(s, t)
  {
    assert Assignable(Tuple([s], false), Tuple([t], false))
      == PlainAssignable(Tuple([s], false), Tuple([t], false));
    assert [s][0] == s && [t][0] == t;
  }

  /** `{a: x, b: y}` and `{a: x} & {b: y}` are assignable to each other. */
  lemma MergedToHalves(x: Ty, y: Ty)
    requires Resolved(x) && Resolved(y)
    ensures Assignable(Shape(map["a" := x, "b" := y]), InterOf([Shape(map["a" := x]), Shape(map["b" := y])]))
  {
    var sab := Shape(map["a" := x, "b" := y]);
    var sa, sb := Shape(map["a" := x]), Shape(map["b" := y]);
    MergedToEach(x, y);
    var t := InterOf([sa, sb]);
    forall p | p in t.parts ensures Assignable(sab, p) {
      assert p in [sa, sb];
    }
    ToEveryPart(sab, t);
  }

  lemma MergedToEach(x: Ty, y: Ty)
    requires Resolved(x) && Resolved(y)
    ensures Assignable(Shape(map["a" := x, "b" := y]), Shape(map["a" := x]))
    ensures Assignable(Shape(map["a" := x, "b" := y]), Shape(map["b" := y]))
  {
    MergedToField(x, y, "a", x);
    MergedToField(x, y, "b", y);
  }

  lemma MergedToField(x: Ty, y: Ty, k: string, z: Ty)
    requires Resolved(x) && Resolved(y) && (k, z) in {("a", x), ("b", y)}
    ensures Assignable(Shape(map["a" := x, "b" := y]), Shape(map[k := z]))
  {
    AssignableReflexive(z);
    var sab := Shape(map["a" := x, "b" := y]);
    assert k in sab.fields && sab.fields[k] == z;
    assert Assignable(sab, Shape(map[k := z])) == PlainAssignable(sab, Shape(map[k := z]));
  }

  /** A type that is neither a union nor `unknown` is assignable to an intersection when it is assignable to every part. */
  lemma ToEveryPart(s: Ty, t: Ty)
    requires !s.Union? && !s.Unknown? && t.Inter?
    requires forall p :: p in t.parts ==> Assignable(s, p)
    ensures Assignable(s, t)
  {
  }

  lemma HalvesToMerged(x: Ty, y: Ty)
    requires Resolved(x) && Resolved(y)
    ensures Assignable(InterOf([Shape(map["a" := x]), Shape(map["b" := y])]), Shape(map["a" := x, "b" := y]))
  {
    var sa, sb := Shape(map["a" := x]), Shape(map["b" := y]);
    var t := InterOf([sa, sb]);
    assert sa in t.parts && sb in t.parts;
    PartsToMerged(x, y, t);
  }

  lemma PartsToMerged(x: Ty, y: Ty, t: Ty)
    requires Resolved(x) && Resolved(y)
    requires t.Inter? && Shape(map["a" := x]) in t.parts && Shape(map["b" := y]) in t.parts
    ensures Assignable(t, Shape(map["a" := x, "b" := y]))
  {
    var sab := Shape(map["a" := x, "b" := y]);
    HalvesSupplyFields(x, y, t.parts);
    forall k | k in sab.fields ensures FieldFromParts(t.parts, k, sab.fields[k]) {
      assert k == "a" || k == "b";
    }
    FromFieldParts(t, sab);
  }

  lemma HalvesSupplyFields(x: Ty, y: Ty, ps: seq<Ty>)
    requires Resolved(x) && Resolved(y)
    requires Shape(map["a" := x]) in ps && Shape(map["b" := y]) in ps
    ensures FieldFromParts(ps, "a", x) && FieldFromParts(ps, "b", y)
  {
    AssignableReflexive(x);
    AssignableReflexive(y);
    var sa, sb := Shape(map["a" := x]), Shape(map["b" := y]);
    assert sa.fields["a"] == x && sb.fields["b"] == y;
  }

  /** An intersection is assignable to a non-empty object type whose every field some part supplies. */
  lemma FromFieldParts(s: Ty, t: Ty)
    requires s.Inter? && t.Shape? && t.fields != map[]
    requires forall k :: k in t.fields ==> FieldFromParts(s.parts, k, t.fields[k])
    ensures Assignable(s, t)
  {
  }

  /** An object type is assignable to `object`. */
  lemma ShapeFacts(x: Ty)
    requires Resolved(x)
    ensures Resolved(Shape(map["a" := x])) && Assignable(Shape(map["a" := x]), ObjectKw)
  {
  }

  /** `[]` is assignable to `unknown[]`, not the other way round. */
  lemma EmptyTupleFacts()
    ensures Resolved(Tuple([], false)) && Resolved(Array(Unknown, false))
    ensures Assignable(Tuple([], false), Array(Unknown, false))
    ensures !Assignable(Array(Unknown, false), Tuple([], false))
  {
    assert PlainAssignable(Tuple([], false), Array(Unknown, false));
  }

  /** Tuple elements are compared in order. */
  lemma TupleHeads(x: Ty, y: Ty)
    requires !Assignable(x, y)
    ensures !Assignable(Tuple([x, y], false), Tuple([y, x], false))
  {
    assert [x, y][0] == x && [y, x][0] == y;
  }


  /** `object` is not assignable to an object type with fields. */
  lemma ObjectKwNotToShape(x: Ty)
    ensures !Assignable(ObjectKw, Shape(map["a" := x]))
  {
    assert "a" in map["a" := x];
  }

  /** `a` is the literal `true` (or `false`), or an intersection with it as a part. */
  predicate HoldsBoolLit(a: Ty, v: bool)
  {
    a == BoolLit(v) || (a.Inter? && BoolLit(v) in a.parts)
  }

  /**
   * The resolved types assignable to a boolean literal: `never`, `any`, the
   * literal itself, an intersection holding it, and unions of those.
   */
  lemma ToBoolLit(t: Ty, v: bool)
    requires Resolved(t)
    ensures Assignable(t, BoolLit(v)) <==>
      t.Never? || t.Any? || HoldsBoolLit(t, v) || (t.Union? && forall a :: a in t.alts ==> HoldsBoolLit(a, v))
  {
    if t.Union? {
      UnionToBoolLit(t, v);
    } else if !Sentinel(t) {
      MemberToBoolLit(t, v);
    }
  }

  lemma UnionToBoolLit(t: Ty, v: bool)
    requires Resolved(t) && t.Union?
    ensures Assignable(t, BoolLit(v)) <==> forall a :: a in t.alts ==> HoldsBoolLit(a, v)
  {
    forall a | a in t.alts ensures Assignable(a, BoolLit(v)) <==> HoldsBoolLit(a, v) {
      MemberToBoolLit(a, v);
    }
  }

  lemma MemberToBoolLit(a: Ty, v: bool)
    requires Resolved(a) && Member(a)
    ensures Assignable(a, BoolLit(v)) <==> HoldsBoolLit(a, v)
  {
    if a.Inter? {
      InterToBoolLit(a, v);
    }
  }

  /** An intersection of plain parts is assignable to `true` or `false` exactly when that literal is a part. */
  lemma InterToBoolLit(a: Ty, v: bool)
    requires a.Inter? && forall p :: p in a.parts ==> Plain(p)
    ensures Assignable(a, BoolLit(v)) <==> BoolLit(v) in a.parts
  {
    forall p | p in a.parts ensures Assignable(p, BoolLit(v)) <==> p == BoolLit(v) {
      assert Plain(p);
    }
  }
}
