/**
 * Indexed access types on resolved types: `T["length"]` and `T[number]`.
 */
module Indexed {
  import opened Types

  /**
   * `T["length"]` on a resolved type that has it: the size literal of a
   * tuple, `number` for an array, `any` for `any`, the declared field of an
   * object type; an intersection takes the intersection of the lengths of
   * its parts, a part without `length` contributing `unknown`.
   */
  ghost function LengthOf(t: Ty): (r: Ty)
    requires Resolved(t)
    ensures Resolved(r)
  {
    match t
    case Tuple(es, _) => NumLit(|es|)
    case Array(_, _) => Num
    case Any => Any
    case Shape(fs) => if "length" in fs then fs["length"] else Unknown
    case Inter(ps) => MeetAll(seq(|ps|, i requires 0 <= i < |ps| => LengthOf(ps[i])))
    case _ => Unknown
  }

  /**
   * `T[number]` on a resolved type: the union of the elements of a tuple
   * (`never` for `[]`), the element type of an array, `any` for `any`,
   * `never` for `never`; a union maps over its alternatives and an
   * intersection intersects the element types of its parts, a part without
   * a numeric index contributing `unknown`.
   */
  ghost function ElementOf(t: Ty): (r: Ty)
    requires Resolved(t)
    ensures Resolved(r)
    ensures t.Tuple? ==> r == UnionOf(set e | e in t.elems)
  {
    match t
    case Tuple(es, _) =>
      assert AllResolved(set e | e in es) by {
        forall e | e in es ensures Resolved(e) {
          var i :| 0 <= i < |es| && es[i] == e;
        }
      }
      UnionOf(set e | e in es)
    case Array(e, _) => e
    case Any => Any
    case Never => Never
    case Union(alts) => UnionOf(set a | a in alts :: ElementOf(a))
    case Inter(ps) => MeetAll(seq(|ps|, i requires 0 <= i < |ps| => ElementOf(ps[i])))
    case _ => Unknown
  }

  /** The elements of a non-empty tuple all of one non-union type `x` make up `x`. */
  lemma ElementOfUniform(es: seq<Ty>, ro: bool, x: Ty)
    requires Resolved(Tuple(es, ro)) && |es| > 0 && !x.Union?
    requires forall i :: 0 <= i < |es| ==> es[i] == x
    ensures ElementOf(Tuple(es, ro)) == x
  {
    assert es[0] == x;
    assert (set e | e in es) == {x};
    UnionOfOne(x);
  }

  /** The union of a single resolved type other than a union is that type. */
  lemma UnionOfOne(x: Ty)
    requires Resolved(x) && !x.Union?
    ensures UnionOf({x}) == x
  {
    if x.Any? {
      UnionOfAny({x});
    } else if x.Unknown? {
      UnionOfUnknown({x});
    } else if x.Never? {
      UnionOfFlat({x}, {});
    } else {
      UnionOfSingle({x}, x);
    }
  }

  /** `[][number]` is `never`. */
  lemma ElementOfEmpty(ro: bool)
    ensures ElementOf(Tuple([], ro)) == Never
  {
    var none: seq<Ty> := [];
    assert (set e | e in none) == {};
    UnionOfFlat({}, {});
  }
}
