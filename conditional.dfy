/**
 * Conditional types `C extends E ? X : Y`, as the checker evaluates them.
 *
 * The result of a conditional whose branches are `true` and `false` is
 * represented by the set of branches it takes: `{}` is `never` (no path),
 * `{true}` and `{false}` are the literals, `{true, false}` is `boolean`
 * (both paths).
 */
module Conditional {
  import opened Types
  import opened Assignability

  type Outcome = set<bool>

  /** The outcome is one of the literals `true` or `false`. */
  predicate Strict(o: Outcome)
  {
    o == {true} || o == {false}
  }

  /**
   * The branches taken by `c extends e ? X : Y` for one check type `c`:
   * an `any` or `unknown` extends type always takes the true branch; an
   * `any` check type takes both; otherwise assignability decides.
   */
  ghost function Branches(c: Ty, e: Ty): (r: Outcome)
    ensures r != {}
    ensures r == {true, false} <==> c.Any? && !e.Any? && !e.Unknown?
    ensures !c.Any? ==> r == {Assignable(c, e)}
  {
    if e.Any? || e.Unknown? then {true}
    else if c.Any? then {true, false}
    else {Assignable(c, e)}
  }

  /** The outcome of a conditional that took the branches `taken`. */
  function Select(taken: Outcome, whenTrue: Outcome, whenFalse: Outcome): (r: Outcome)
    ensures taken == {true} ==> r == whenTrue
    ensures taken == {false} ==> r == whenFalse
    ensures taken == {true, false} ==> r == whenTrue + whenFalse
  {
    (if true in taken then whenTrue else {}) + (if false in taken then whenFalse else {})
  }

  /**
   * The types a distributive conditional is evaluated on when its check type
   * is a bare type parameter instantiated with `t`: `never`, the empty union,
   * has none.
   */
  ghost function Alternatives(t: Ty): (r: set<Ty>)
    ensures Resolved(t) ==> (r == {} <==> t.Never?)
    ensures Resolved(t) ==> forall u :: u in r ==> Resolved(u) && !u.Union? && !u.Never?
  {
    if t.Never? then {} else if t.Union? then t.alts else {t}
  }

  /** Some type `c` distributes to takes branch `x` of `_ extends e`. */
  ghost predicate Takes(c: Ty, e: Ty, x: bool)
  {
    exists u :: u in Alternatives(c) && x in Branches(u, e)
  }

  /** `C extends E ? true : false` with `C` a bare type parameter instantiated with `c`. */
  ghost function Dist(c: Ty, e: Ty): (r: Outcome)
    ensures r == {} <==> Alternatives(c) == {}
  {
    var r := (if Takes(c, e, true) then {true} else {}) + (if Takes(c, e, false) then {false} else {});
    assert Alternatives(c) != {} ==> r != {} by {
      if Alternatives(c) != {} {
        var u :| u in Alternatives(c);
        var x :| x in Branches(u, e);
        assert Takes(c, e, x);
      }
    }
    r
  }

  /** There are exactly four outcomes. */
  lemma FourOutcomes(o: Outcome)
    ensures o == {} || o == {true} || o == {false} || o == {true, false}
  {
    assert o <= {true, false} by {
      forall b | b in o ensures b in {true, false} { }
    }
    if true in o {
      if false in o { assert o == {true, false}; } else { assert o == {true}; }
    } else if false in o {
      assert o == {false};
    } else {
      assert o == {};
    }
  }

  /** An outcome used as a type again: `never`, `true`, `false` or `boolean`. */
  function OutcomeType(o: Outcome): (r: Ty)
    ensures Resolved(r)
    ensures r.Never? <==> o == {}
  {
    if o == {} then Never
    else if o == {true} then BoolLit(true)
    else if o == {false} then BoolLit(false)
    else
      FourOutcomes(o);
      UnionOfMembers({BoolLit(true), BoolLit(false)});
      Boolean
  }

  /** `X extends true ? ...` on an outcome `X` takes the true branch exactly when `X` never yields `false`. */
  lemma ExtendsTrue(o: Outcome)
    ensures Branches(OutcomeType(o), BoolLit(true)) == {false !in o}
  {
    FourOutcomes(o);
    if o == {true, false} {
      assert OutcomeType(o) == Boolean;
      assert BoolLit(false) in Boolean.alts && !Assignable(BoolLit(false), BoolLit(true));
    } else if o == {true} {
      assert true in o;
    } else if o == {false} {
      assert false in o;
    }
  }

  /** `false extends X ? ...` on an outcome `X` takes the true branch exactly when `X` can be `false`. */
  lemma FalseExtends(o: Outcome)
    ensures Branches(BoolLit(false), OutcomeType(o)) == {false in o}
  {
    FourOutcomes(o);
    if o == {true, false} {
      assert OutcomeType(o) == Boolean;
      assert BoolLit(false) in Boolean.alts && Assignable(BoolLit(false), BoolLit(false));
    } else if o == {true} {
      assert false !in o;
    } else if o == {false} {
      assert false in o;
    }
  }

  /** A conditional that took exactly one branch has that branch's value. */
  lemma SelectOne(b: bool, whenTrue: Outcome, whenFalse: Outcome)
    ensures Select({b}, whenTrue, whenFalse) == if b then whenTrue else whenFalse
  {
  }

  /** A check type that is not a union or `never` is its own single alternative. */
  lemma DistOne(c: Ty, e: Ty)
    requires !c.Union? && !c.Never?
    ensures Dist(c, e) == Branches(c, e)
  {
    TakesOne(c, e, true);
    TakesOne(c, e, false);
  }

  lemma TakesOne(c: Ty, e: Ty, x: bool)
    requires !c.Union? && !c.Never?
    ensures Takes(c, e, x) <==> x in Branches(c, e)
  {
    if Takes(c, e, x) {
      var u :| u in Alternatives(c) && x in Branches(u, e);
      OnlyAlternative(c, u);
    }
    if x in Branches(c, e) {
      OnlyAlternative(c, c);
    }
  }

  lemma OnlyAlternative(c: Ty, u: Ty)
    requires !c.Union? && !c.Never?
    ensures u in Alternatives(c) <==> u == c
  {
  }

  /** Against `any` or `unknown` every alternative takes the true branch. */
  lemma DistToTop(c: Ty, top: Ty)
    requires Resolved(c) && (top.Any? || top.Unknown?)
    ensures Dist(c, top) == if c.Never? then {} else {true}
  {
    if c.Never? {
      assert Alternatives(c) == {};
    } else {
      DistAllTrue(c, top);
    }
  }

  lemma DistAllTrue(c: Ty, top: Ty)
    requires Resolved(c) && !c.Never? && (top.Any? || top.Unknown?)
    ensures Dist(c, top) == {true}
  {
    NoFalseAgainstTop(c, top);
    var u :| u in Alternatives(c);
    TrueAgainstTop(c, top, u);
    InDist(c, top, true);
    InDist(c, top, false);
    FourOutcomes(Dist(c, top));
  }

  /** A distributive conditional takes branch `x` exactly when some alternative does. */
  lemma InDist(c: Ty, e: Ty, x: bool)
    ensures x in Dist(c, e) <==> Takes(c, e, x)
  {
  }

  lemma NoFalseAgainstTop(c: Ty, top: Ty)
    requires top.Any? || top.Unknown?
    ensures !Takes(c, top, false)
  {
  }

  lemma TrueAgainstTop(c: Ty, top: Ty, u: Ty)
    requires (top.Any? || top.Unknown?) && u in Alternatives(c)
    ensures Takes(c, top, true)
  {
    assert true in Branches(u, top);
  }

  /** A union of two types distributes to the branches of each. */
  lemma DistPair(x: Ty, y: Ty, b: Ty)
    ensures Dist(Union({x, y}), b) == Branches(x, b) + Branches(y, b)
  {
    TakesPairIff(x, y, b, true);
    TakesPairIff(x, y, b, false);
  }

  lemma TakesPairIff(x: Ty, y: Ty, b: Ty, v: bool)
    ensures Takes(Union({x, y}), b, v) <==> v in Branches(x, b) || v in Branches(y, b)
  {
    if Takes(Union({x, y}), b, v) { TakesPair(x, y, b, v); }
    if v in Branches(x, b) || v in Branches(y, b) { PairTakes(x, y, b, v); }
  }

  lemma TakesPair(x: Ty, y: Ty, b: Ty, v: bool)
    requires Takes(Union({x, y}), b, v)
    ensures v in Branches(x, b) || v in Branches(y, b)
  {
    assert Alternatives(Union({x, y})) == {x, y};
    var u :| u in Alternatives(Union({x, y})) && v in Branches(u, b);
  }

  lemma PairTakes(x: Ty, y: Ty, b: Ty, v: bool)
    requires v in Branches(x, b) || v in Branches(y, b)
    ensures Takes(Union({x, y}), b, v)
  {
    assert Alternatives(Union({x, y})) == {x, y};
    if v in Branches(x, b) {
      assert x in Alternatives(Union({x, y}));
    } else {
      assert y in Alternatives(Union({x, y}));
    }
  }

}
