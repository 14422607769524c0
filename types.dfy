/**
 * Resolved TypeScript types, and the normaliser that the checker applies to
 * every type before a conditional type or an assignability check observes it.
 *
 * A `Ty` is written the way a user writes a type (a union may still contain
 * `never`, an intersection may still be `string & number`); `Resolve` turns it
 * into the form the checker works on, and `Resolved` says what that form is.
 */
module Types {

  /** A type expression of the modelled fragment. */
  datatype Ty =
    | Never                              // the bottom type, the empty union
    | Any                                // the absorbing type
    | Unknown                            // the top type
    | NumLit(n: int)                     // `1`
    | StrLit(s: string)                  // `'a'`
    | BigLit(b: int)                     // `1n`
    | BoolLit(v: bool)                   // `true`, `false`
    | Num                                // `number`
    | Str                                // `string`
    | Big                                // `bigint`
    | Undefined
    | Null
    | Void
    | ObjectKw                           // the `object` keyword type
    | Shape(fields: map<string, Ty>)     // `{ a: 1 }`; `{}` has no fields
    | Tuple(elems: seq<Ty>, ro: bool)    // `[1, 'a']`, `readonly [1]`
    | Array(elem: Ty, ro: bool)          // `number[]`, `readonly unknown[]`
    | Probe(target: Ty)                  // `<T>() => T extends target ? 1 : 2`
    | Union(alts: set<Ty>)               // `A | B`
    | Inter(parts: seq<Ty>)              // `A & B`

  /** `{}` */
  const EmptyObject: Ty := Shape(map[])

  /** `boolean`, which the checker treats as the union `true | false`. */
  const Boolean: Ty := Union({BoolLit(true), BoolLit(false)})

  /** The disjoint domains of the checker: two types of different domains have no common value. */
  datatype Domain = StringD | NumberD | BigIntD | BooleanD | VoidD | NullD | ObjectD | NoDomain

  function DomainOf(t: Ty): Domain
  {
    match t
    case StrLit(_) => StringD
    case Str => StringD
    case NumLit(_) => NumberD
    case Num => NumberD
    case BigLit(_) => BigIntD
    case Big => BigIntD
    case BoolLit(_) => BooleanD
    case Undefined => VoidD
    case Void => VoidD
    case Null => NullD
    case ObjectKw => ObjectD
    case _ => NoDomain
  }

  predicate Sentinel(t: Ty) { t.Never? || t.Any? || t.Unknown? }

  /** A single type that is neither a sentinel, a union nor an intersection. */
  predicate Plain(t: Ty) { !Sentinel(t) && !t.Union? && !t.Inter? }

  /** What may stand as one alternative of a resolved union. */
  predicate Member(t: Ty) { !Sentinel(t) && !t.Union? }

  predicate IsLiteral(t: Ty) { t.NumLit? || t.StrLit? || t.BigLit? || t.BoolLit? }

  predicate Nullable(t: Ty) { t.Undefined? || t.Null? }

  /** Object types: a value of one of these is never `null` or `undefined`. */
  predicate ObjectLike(t: Ty) { t.Shape? || t.Tuple? || t.Array? || t.Probe? || t.ObjectKw? }

  /** `a` is a literal and `b` its base type (`'a'` and `string`). */
  predicate Widens(a: Ty, b: Ty)
  {
    (a.NumLit? && b.Num?) || (a.StrLit? && b.Str?) || (a.BigLit? && b.Big?)
  }

  /** In a union, `a` adds nothing next to the other alternatives `alts`. */
  predicate Absorbed(a: Ty, alts: set<Ty>)
  {
    (a.NumLit? && Num in alts) || (a.StrLit? && Str in alts) || (a.BigLit? && Big in alts)
    || (a.Undefined? && Void in alts)
  }

  /** Types with exactly one value: the literals, `undefined` and `null`. */
  predicate Unit(t: Ty) { IsLiteral(t) || Nullable(t) }

  /** `x` and `y` have no value in common. */
  predicate ValuesDisjoint(x: Ty, y: Ty)
  {
    || (DomainOf(x) != NoDomain && DomainOf(y) != NoDomain && DomainOf(x) != DomainOf(y))
    || (IsLiteral(x) && IsLiteral(y) && x != y)
    || (Nullable(x) && (ObjectLike(y) || y == EmptyObject))
    || (Nullable(y) && (ObjectLike(x) || x == EmptyObject))
  }

  /**
   * Two types of one property clash when they have no value in common and
   * one of them is a unit type: the property is then a discriminant whose
   * intersection is `never`.
   */
  predicate FieldsClash(u: Ty, v: Ty)
  {
    (Unit(u) || Unit(v)) && ValuesDisjoint(u, v)
  }

  /**
   * An intersection of `x` and `y` has no value at all: their values are
   * disjoint, or they are object types whose types for a shared property
   * clash (`{ a: 1 } & { a: 2 }`).
   */
  predicate Disjoint(x: Ty, y: Ty)
  {
    || ValuesDisjoint(x, y)
    || (x.Shape? && y.Shape? && exists k :: k in x.fields && k in y.fields && FieldsClash(x.fields[k], y.fields[k]))
  }

  /** Object types proper: `{}` next to one of these adds nothing. */
  predicate ObjectType(t: Ty) { t.Shape? || t.Tuple? || t.Array? || t.Probe? }

  /**
   * In an intersection, `x` adds nothing next to `y` (the wider part is
   * dropped).  `{}` goes next to another object type, a literal or
   * `object`; next to `string`, `number` or `bigint` it stays, so that
   * `string & {}` keeps both parts.
   */
  predicate Redundant(x: Ty, y: Ty)
  {
    || Widens(y, x)
    || (x.Void? && y.Undefined?)
    || (x == EmptyObject && y != EmptyObject && ObjectType(y))
    || (x == EmptyObject && (IsLiteral(y) || y.ObjectKw?))
  }

  predicate RedundantIn(x: Ty, l: seq<Ty>)
  {
    exists y :: y in l && Redundant(x, y)
  }

  predicate Distinct(l: seq<Ty>)
  {
    forall i, j :: 0 <= i < j < |l| ==> l[i] != l[j]
  }

  /** The members of a list, as a set. */
  ghost function Elems(l: seq<Ty>): set<Ty>
  {
    set x | x in l
  }

  /**
   * A fixed listing of a set of intersection parts.  The checker identifies
   * an intersection by the set of its parts (`A & B` is `B & A`), so the
   * normal form lists them in an order that depends on that set alone.
   */
  ghost function Canonical(s: set<Ty>): seq<Ty>
  {
    if s == {} then []
    else
      var x :| x in s;
      [x] + Canonical(s - {x})
  }

  /** The canonical listing of `s` lists each member of `s` once. */
  lemma {:induction false} CanonicalFacts(s: set<Ty>)
    ensures |Canonical(s)| == |s| && Distinct(Canonical(s))
    ensures forall x :: x in Canonical(s) <==> x in s
  {
    if s != {} {
      var x := Canonical(s)[0];
      assert x in s && Canonical(s) == [x] + Canonical(s - {x});
      CanonicalFacts(s - {x});
    }
  }

  /** The parts of a resolved intersection: plain, pairwise distinct, compatible, none redundant. */
  ghost predicate ReducedParts(ps: seq<Ty>)
  {
    && (forall x :: x in ps ==> Plain(x))
    && Distinct(ps)
    && (forall x, y :: x in ps && y in ps ==> !Disjoint(x, y) && !Redundant(x, y))
  }

  /** The normal form the checker works on. */
  ghost predicate Resolved(t: Ty)
  {
    match t
    case Shape(fs) => forall k :: k in fs ==> Resolved(fs[k])
    case Tuple(es, _) => forall i :: 0 <= i < |es| ==> Resolved(es[i])
    case Array(e, _) => Resolved(e)
    case Probe(x) => Resolved(x)
    case Union(alts) =>
      && |alts| >= 2
      && (forall a :: a in alts ==> Member(a) && Resolved(a) && !Absorbed(a, alts))
    case Inter(ps) =>
      && |ps| >= 2
      && ReducedParts(ps)
      && (forall x :: x in ps ==> Resolved(x))
      && ps == Canonical(Elems(ps))
    case _ => true
  }

  ghost predicate AllResolved(S: set<Ty>)
  {
    forall x :: x in S ==> Resolved(x)
  }

  ghost predicate AllResolvedSeq(l: seq<Ty>)
  {
    forall x :: x in l ==> Resolved(x)
  }

  /** The alternatives a resolved type contributes to a union it is part of. */
  ghost function Flatten(S: set<Ty>): (flat: set<Ty>)
    requires AllResolved(S)
    ensures forall a :: a in flat ==> !a.Union? && Resolved(a)
    ensures forall a :: a in flat && !Sentinel(a) ==> Member(a)
    ensures forall x :: x in S && !x.Union? ==> x in flat
    ensures forall x, a :: x in S && x.Union? && a in x.alts ==> a in flat
  {
    (set x | x in S && !x.Union?) + (set x, a | x in S && x.Union? && a in x.alts :: a)
  }

  ghost function Only(S: set<Ty>): (x: Ty)
    requires |S| == 1
    ensures S == {x}
  {
    var x :| x in S;
    assert |S - {x}| == 0;
    assert S == {x} by {
      assert S == (S - {x}) + {x};
    }
    x
  }

  /**
   * The union of already resolved types: `any` absorbs everything, then
   * `unknown`; `never` disappears; a literal next to its base type and
   * `undefined` next to `void` are absorbed.
   */
  ghost function UnionOf(S: set<Ty>): (r: Ty)
    requires AllResolved(S)
    ensures Resolved(r)
  {
    var flat := Flatten(S);
    if Any in flat then Any
    else if Unknown in flat then Unknown
    else
      var kept := set a | a in flat && !a.Never? && !Absorbed(a, flat);
      assert forall a :: a in kept ==> !Absorbed(a, kept);
      if kept == {} then Never
      else if |kept| == 1 then Only(kept)
      else Union(kept)
  }

  /** The parts an intersection operand contributes. */
  function PartsOf(t: Ty): seq<Ty>
  {
    if t.Inter? then t.parts else [t]
  }

  /** `l` without its redundant members (judged against the whole list `all`). */
  function Survivors(l: seq<Ty>, all: seq<Ty>): (r: seq<Ty>)
    ensures forall x :: x in r ==> x in l && !RedundantIn(x, all)
    ensures forall x :: x in l && !RedundantIn(x, all) ==> x in r
    ensures (forall i :: 0 <= i < |l| ==> !RedundantIn(l[i], all)) ==> r == l
  {
    if l == [] then []
    else if RedundantIn(l[0], all) then Survivors(l[1..], all)
    else [l[0]] + Survivors(l[1..], all)
  }

  /** `l` with repeated members removed, first occurrences kept in order. */
  function Dedup(l: seq<Ty>): (r: seq<Ty>)
    ensures forall x :: x in r <==> x in l
    ensures Distinct(r)
    ensures Distinct(l) ==> r == l
  {
    if l == [] then []
    else
      var rest := Dedup(l[..|l| - 1]);
      var last := l[|l| - 1];
      assert forall x :: x in l <==> x in l[..|l| - 1] || x == last;
      if last in rest then rest else rest + [last]
  }

  /** The intersection of a list of plain resolved types. */
  ghost function Reduce(l: seq<Ty>): (r: Ty)
    requires forall x :: x in l ==> Plain(x) && Resolved(x)
    ensures Resolved(r)
  {
    if exists x, y :: x in l && y in l && Disjoint(x, y) then Never
    else
      var k := Dedup(Survivors(l, l));
      SurvivorsReduced(l);
      if |k| == 0 then Unknown
      else if |k| == 1 then k[0]
      else
        InterOfResolved(k);
        InterOf(k)
  }

  lemma SurvivorsReduced(l: seq<Ty>)
    requires forall x :: x in l ==> Plain(x) && Resolved(x)
    requires forall x, y :: x in l && y in l ==> !Disjoint(x, y)
    ensures var k := Dedup(Survivors(l, l));
      ReducedParts(k) && forall x :: x in k ==> Resolved(x)
  {
  }

  /** The intersection of the compatible parts `k`, listed in canonical order. */
  ghost function InterOf(k: seq<Ty>): (r: Ty)
    ensures r.Inter? && forall x :: x in r.parts <==> x in k
    ensures ReducedParts(k) && AllResolvedSeq(k) && |k| >= 2 ==> Resolved(r)
  {
    CanonicalFacts(Elems(k));
    CanonicalResolved(k);
    Inter(Canonical(Elems(k)))
  }

  /** A list of at least two compatible resolved parts makes a resolved intersection. */
  lemma InterOfResolved(k: seq<Ty>)
    requires ReducedParts(k) && AllResolvedSeq(k) && |k| >= 2
    ensures Resolved(InterOf(k))
  {
  }

  lemma CanonicalResolved(k: seq<Ty>)
    ensures ReducedParts(k) && AllResolvedSeq(k) && |k| >= 2 ==> Resolved(Inter(Canonical(Elems(k))))
  {
    if ReducedParts(k) && AllResolvedSeq(k) && |k| >= 2 {
      var s := Elems(k);
      var c := Canonical(s);
      CanonicalFacts(s);
      DistinctElems(k);
      assert Elems(c) == s;
    }
  }

  /** A list without repeats has as many members as entries. */
  lemma {:induction false} DistinctElems(l: seq<Ty>)
    requires Distinct(l)
    ensures |Elems(l)| == |l|
  {
    if l != [] {
      var front := l[..|l| - 1];
      var last := l[|l| - 1];
      assert Distinct(front);
      DistinctElems(front);
      assert Elems(l) == Elems(front) + {last};
      assert last !in Elems(front);
    }
  }

  /** The canonical intersection depends on the set of parts alone. */
  lemma InterOfSame(k1: seq<Ty>, k2: seq<Ty>)
    requires forall x :: x in k1 <==> x in k2
    ensures InterOf(k1) == InterOf(k2)
  {
    assert Elems(k1) == Elems(k2);
  }

  /**
   * The intersection `x & y` of two resolved types: `never` absorbs
   * everything (even `any`), then `any`; `unknown` is the identity; unions
   * distribute; everything else goes to `Reduce`.
   */
  ghost function Meet(x: Ty, y: Ty): (r: Ty)
    requires Resolved(x) && Resolved(y)
    ensures Resolved(r)
    decreases x, y
  {
    if x.Never? || y.Never? then Never
    else if x.Any? || y.Any? then Any
    else if x.Unknown? then y
    else if y.Unknown? then x
    else if x.Union? then UnionOf(set a | a in x.alts :: Meet(a, y))
    else if y.Union? then UnionOf(set b | b in y.alts :: Meet(x, b))
    else Reduce(PartsOf(x) + PartsOf(y))
  }

  /** `rs[0] & rs[1] & ...`, folded from the left; the empty intersection is `unknown`. */
  ghost function MeetAll(rs: seq<Ty>): (r: Ty)
    requires AllResolvedSeq(rs)
    ensures Resolved(r)
  {
    if rs == [] then Unknown
    else Meet(MeetAll(rs[..|rs| - 1]), rs[|rs| - 1])
  }

  /** The resolved form of a type expression. */
  ghost function Resolve(t: Ty): (r: Ty)
    ensures Resolved(r)
    decreases t, 1
  {
    match t
    case Shape(fs) => Shape(map k | k in fs :: Resolve(fs[k]))
    case Tuple(es, ro) => Tuple(seq(|es|, i requires 0 <= i < |es| => Resolve(es[i])), ro)
    case Array(e, ro) => Array(Resolve(e), ro)
    case Probe(x) => Probe(Resolve(x))
    case Union(alts) => UnionOf(ResolveAlts(alts))
    case Inter(ps) => MeetAll(ResolveParts(ps))
    case _ => t
  }

  /** The normal forms of the alternatives of a union. */
  ghost function ResolveAlts(alts: set<Ty>): (r: set<Ty>)
    ensures AllResolved(r)
    decreases Union(alts), 0
  {
    set a | a in alts :: Resolve(a)
  }

  /** The normal forms of the parts of an intersection, in order. */
  ghost function ResolveParts(ps: seq<Ty>): (r: seq<Ty>)
    ensures |r| == |ps| && AllResolvedSeq(r)
    ensures forall i :: 0 <= i < |ps| ==> r[i] == Resolve(ps[i])
    decreases Inter(ps), 0
  {
    seq(|ps|, i requires 0 <= i < |ps| => Resolve(ps[i]))
  }

  // ---------------------------------------------------------------------
  // Properties of the normaliser

  /** A union of plain alternatives that absorb nothing in one another is already resolved. */
  lemma {:induction false} UnionOfMembers(S: set<Ty>)
    requires AllResolved(S)
    requires forall a :: a in S ==> Member(a) && !Absorbed(a, S)
    ensures |S| >= 2 ==> UnionOf(S) == Union(S)
    ensures |S| == 1 ==> {UnionOf(S)} == S
    ensures S == {} ==> UnionOf(S) == Never
  {
    var flat := Flatten(S);
    assert flat == S;
    var kept := set a | a in flat && !a.Never? && !Absorbed(a, flat);
    assert kept == S;
  }

  /** `any` absorbs every other alternative of a union. */
  lemma UnionOfAny(S: set<Ty>)
    requires AllResolved(S) && Any in S
    ensures UnionOf(S) == Any
  {
  }

  /** Without `any`, `unknown` absorbs every other alternative of a union. */
  lemma UnionOfUnknown(S: set<Ty>)
    requires AllResolved(S) && Unknown in S && Any !in S
    ensures UnionOf(S) == Unknown
  {
  }

  /**
   * The union of types none of which is a union or a top type: `never`
   * disappears and absorbed alternatives go, the rest `K` is kept.
   */
  lemma UnionOfFlat(S: set<Ty>, K: set<Ty>)
    requires AllResolved(S)
    requires forall a :: a in S ==> !a.Union? && !a.Any? && !a.Unknown?
    requires forall a :: a in K <==> a in S && !a.Never? && !Absorbed(a, S)
    ensures UnionOf(S) == if K == {} then Never else if |K| == 1 then Only(K) else Union(K)
  {
    assert Flatten(S) == S;
    assert K == set a | a in S && !a.Never? && !Absorbed(a, S);
  }

  /** A union written with resolved alternatives is the union of those alternatives. */
  lemma ResolveUnion(alts: set<Ty>)
    requires AllResolved(alts)
    ensures Resolve(Union(alts)) == UnionOf(alts)
  {
    ResolveUnionStep(Union(alts), alts);
    ResolvedAltsFixed(alts);
  }

  /** A union resolves to the union of its resolved alternatives. */
  lemma ResolveUnionStep(t: Ty, alts: set<Ty>)
    requires t == Union(alts)
    ensures Resolve(t) == UnionOf(ResolveAlts(alts))
  {
  }

  /** An intersection resolves to the meet of its resolved parts. */
  lemma ResolveInterStep(t: Ty, ps: seq<Ty>)
    requires t == Inter(ps)
    ensures Resolve(t) == MeetAll(ResolveParts(ps))
  {
  }

  lemma ResolvedAltsFixed(alts: set<Ty>)
    requires AllResolved(alts)
    ensures ResolveAlts(alts) == alts
  {
    forall a | a in alts ensures Resolve(a) == a {
      ResolveFixesResolved(a);
    }
  }

  /** `boolean` is in normal form. */
  lemma BooleanResolved()
    ensures Resolved(Boolean) && Resolve(Boolean) == Boolean
  {
    assert Resolved(Boolean);
    ResolveFixesResolved(Boolean);
  }

  /** A union of two distinct members neither of which absorbs the other is in normal form. */
  lemma PairResolved(x: Ty, y: Ty)
    requires x != y && Member(x) && Member(y) && Resolved(x) && Resolved(y)
    requires !Absorbed(x, {x, y}) && !Absorbed(y, {x, y})
    ensures Resolved(Union({x, y})) && Resolve(Union({x, y})) == Union({x, y})
  {
    PairIsResolved(x, y);
    ResolveFixesResolved(Union({x, y}));
  }

  lemma PairIsResolved(x: Ty, y: Ty)
    requires x != y && Member(x) && Member(y) && Resolved(x) && Resolved(y)
    requires !Absorbed(x, {x, y}) && !Absorbed(y, {x, y})
    ensures Resolved(Union({x, y}))
  {
    assert |{x, y}| == 2;
  }

  /** A union of members none of which absorbs another is in normal form. */
  lemma MembersResolved(S: set<Ty>)
    requires |S| >= 2
    requires forall a :: a in S ==> Member(a) && Resolved(a) && !Absorbed(a, S)
    ensures Resolved(Union(S)) && Resolve(Union(S)) == Union(S)
  {
    assert Resolved(Union(S));
    ResolveFixesResolved(Union(S));
  }

  /** A union whose alternatives all vanish or are absorbed except `x` is `x`. */
  lemma UnionOfSingle(S: set<Ty>, x: Ty)
    requires AllResolved(S)
    requires forall a :: a in S ==> !a.Union? && !a.Any? && !a.Unknown?
    requires x in S && !x.Never? && !Absorbed(x, S)
    requires forall a :: a in S && a != x ==> a.Never? || Absorbed(a, S)
    ensures UnionOf(S) == x
  {
    UnionOfFlat(S, {x});
  }

  /** `never` disappears from a union: `x | never` is `x`. */
  lemma UnionWithNever(x: Ty)
    requires Member(x) && Resolved(x)
    ensures Resolve(Union({x, Never})) == x
  {
    NeverDropped(x);
    ResolveUnion({x, Never});
  }

  lemma NeverDropped(x: Ty)
    requires Member(x) && Resolved(x)
    ensures UnionOf({x, Never}) == x
  {
    UnionOfSingle({x, Never}, x);
  }

  /** `any` absorbs the rest of a union: `x | any` is `any`. */
  lemma UnionWithAny(x: Ty)
    requires Resolved(x)
    ensures Resolve(Union({x, Any})) == Any
  {
    ResolveUnion({x, Any});
    UnionOfAny({x, Any});
  }

  /** Without `any`, `unknown` absorbs the rest of a union: `x | unknown` is `unknown`. */
  lemma UnionWithUnknown(x: Ty)
    requires Resolved(x) && !x.Any?
    ensures Resolve(Union({x, Unknown})) == Unknown
  {
    ResolveUnion({x, Unknown});
    UnionOfUnknown({x, Unknown});
  }

  /** A literal next to its base type is absorbed: `string | 'a'` is `string`; so is `undefined` next to `void`. */
  lemma UnionWithBase(lit: Ty, base: Ty)
    requires Widens(lit, base) || (lit.Undefined? && base.Void?)
    ensures Resolve(Union({base, lit})) == base
  {
    BaseAbsorbs(lit, base);
    ResolveUnion({base, lit});
  }

  lemma BaseAbsorbs(lit: Ty, base: Ty)
    requires Widens(lit, base) || (lit.Undefined? && base.Void?)
    ensures UnionOf({base, lit}) == base
  {
    UnionOfSingle({base, lit}, base);
  }

  /** An intersection of two resolved operands is their `Meet`. */
  lemma ResolveInter2(x: Ty, y: Ty)
    requires Resolved(x) && Resolved(y)
    ensures Resolve(Inter([x, y])) == Meet(x, y)
  {
    ResolveFixesResolved(x);
    ResolveFixesResolved(y);
    var l := [x, y];
    ResolveInterStep(Inter(l), l);
    assert ResolveParts(l) == l;
    assert l[..1] == [x] && [x][..0] == [];
    assert MeetAll([x]) == Meet(Unknown, x) == x;
    assert MeetAll(l) == Meet(MeetAll([x]), y);
  }

  /** An intersection of two incompatible plain types collapses to `never`. */
  lemma CollapsedPair(x: Ty, y: Ty)
    requires Plain(x) && Plain(y) && Resolved(x) && Resolved(y) && Disjoint(x, y)
    ensures Resolve(Inter([x, y])) == Never
  {
    ResolveInter2(x, y);
    MeetDisjoint(x, y);
  }

  lemma MeetDisjoint(x: Ty, y: Ty)
    requires Plain(x) && Plain(y) && Resolved(x) && Resolved(y) && Disjoint(x, y)
    ensures Meet(x, y) == Never
  {
    var l := PartsOf(x) + PartsOf(y);
    assert l == [x, y];
    assert x in l && y in l;
  }

  /**
   * Two distinct non-empty object types without clashing properties
   * intersect to an intersection of both: they are not merged into one shape.
   */
  lemma ObjectPairResolved(x: Ty, y: Ty)
    requires x.Shape? && y.Shape? && x != y && x != EmptyObject && y != EmptyObject
    requires Resolved(x) && Resolved(y) && !Disjoint(x, y)
    ensures Resolve(Inter([x, y])) == InterOf([x, y])
  {
    ResolveInter2(x, y);
    ObjectPairMeet(x, y);
  }

  lemma ObjectPairMeet(x: Ty, y: Ty)
    requires x.Shape? && y.Shape? && x != y && x != EmptyObject && y != EmptyObject
    requires Resolved(x) && Resolved(y) && !Disjoint(x, y)
    ensures Meet(x, y) == InterOf([x, y])
  {
    DisjointSymmetric(y, x);
    KeptPair(x, y);
  }

  /** Incompatibility is symmetric. */
  lemma DisjointSymmetric(x: Ty, y: Ty)
    ensures Disjoint(x, y) ==> Disjoint(y, x)
  {
    if Disjoint(x, y) && !ValuesDisjoint(x, y) {
      var k :| k in x.fields && k in y.fields && FieldsClash(x.fields[k], y.fields[k]);
      assert FieldsClash(y.fields[k], x.fields[k]);
    }
  }

  /** `Reduce` keeps the parts of a compatible list, in canonical order. */
  lemma ReduceReduced(l: seq<Ty>)
    requires ReducedParts(l) && forall x :: x in l ==> Resolved(x)
    requires |l| >= 1
    ensures Reduce(l) == if |l| == 1 then l[0] else InterOf(l)
  {
    assert Survivors(l, l) == l;
  }

  lemma ReducedPrefix(ps: seq<Ty>, n: nat)
    requires ReducedParts(ps) && forall x :: x in ps ==> Resolved(x)
    requires n <= |ps|
    ensures ReducedParts(ps[..n]) && forall x :: x in ps[..n] ==> Resolved(x)
  {
    assert forall x :: x in ps[..n] ==> x in ps;
    assert Distinct(ps[..n]);
  }

  /** Meeting a resolved intersection with one more compatible part adds it. */
  lemma MeetExtend(front: seq<Ty>, last: Ty)
    requires ReducedParts(front + [last]) && forall x :: x in front + [last] ==> Resolved(x)
    requires |front| >= 1 && ReducedParts(front)
    ensures Meet(if |front| == 1 then front[0] else InterOf(front), last) == InterOf(front + [last])
  {
    var l := front + [last];
    assert front[0] in l && last in l;
    assert front == l[..|front|];
    ReducedPrefix(l, |front|);
    var prev := if |front| == 1 then front[0] else InterOf(front);
    if |front| >= 2 {
      InterOfResolved(front);
    }
    assert Resolved(prev) && !Sentinel(prev) && !prev.Union?;
    MeetParts(prev, last);
    var l2 := PartsOf(prev) + [last];
    ExtendedParts(front, last, prev, l2);
    ReduceReduced(l2);
    InterOfSame(l2, l);
  }

  lemma ExtendedParts(front: seq<Ty>, last: Ty, prev: Ty, l2: seq<Ty>)
    requires ReducedParts(front + [last]) && forall x :: x in front + [last] ==> Resolved(x)
    requires |front| >= 1
    requires prev == if |front| == 1 then front[0] else InterOf(front)
    requires l2 == PartsOf(prev) + [last]
    ensures forall x :: x in l2 <==> x in front + [last]
    ensures ReducedParts(l2) && (forall x :: x in l2 ==> Resolved(x)) && |l2| >= 2
  {
    var l := front + [last];
    assert last in l && last !in front by {
      forall i | 0 <= i < |front| ensures front[i] != last {
        assert l[i] == front[i] && l[|front|] == last;
      }
    }
    var pre := PartsOf(prev);
    if |front| == 1 {
      assert front[0] in l && Plain(front[0]);
      assert pre == [front[0]] == front;
    } else {
      assert pre == Canonical(Elems(front));
      CanonicalFacts(Elems(front));
      assert forall x :: x in Elems(front) <==> x in front;
    }
    assert forall x :: x in pre <==> x in front;
    assert front[0] in pre;
    assert forall x :: x in l2 <==> x in l;
    assert Distinct(pre);
    forall i, j | 0 <= i < j < |l2| ensures l2[i] != l2[j] {
      if j == |l2| - 1 {
        assert l2[i] in pre;
      } else {
        assert l2[i] == pre[i] && l2[j] == pre[j];
      }
    }
  }

  /** Two resolved types that are neither sentinels nor unions meet by reducing their parts together. */
  lemma MeetParts(x: Ty, y: Ty)
    requires Resolved(x) && Resolved(y) && !Sentinel(x) && !Sentinel(y) && !x.Union? && !y.Union?
    ensures Meet(x, y) == Reduce(PartsOf(x) + PartsOf(y))
  {
  }

  /** Folding `Meet` over the parts of a resolved intersection rebuilds it. */
  lemma {:induction false} MeetAllParts(ps: seq<Ty>, n: nat)
    requires ReducedParts(ps) && forall x :: x in ps ==> Resolved(x)
    requires 1 <= n <= |ps|
    ensures MeetAll(ps[..n]) == if n == 1 then ps[0] else InterOf(ps[..n])
  {
    if n == 1 {
      assert ps[..1][..0] == [];
      assert ps[0] in ps;
    } else {
      MeetAllParts(ps, n - 1);
      MeetAllStep(ps, n);
    }
  }

  /** One step of `MeetAllParts`: meeting the next part extends the rebuilt prefix. */
  lemma MeetAllStep(ps: seq<Ty>, n: nat)
    requires ReducedParts(ps) && forall x :: x in ps ==> Resolved(x)
    requires 2 <= n <= |ps|
    requires MeetAll(ps[..n - 1]) == if n == 2 then ps[0] else InterOf(ps[..n - 1])
    ensures MeetAll(ps[..n]) == InterOf(ps[..n])
  {
    var pre := ps[..n];
    var front, last := ps[..n - 1], ps[n - 1];
    StepParts(ps, n, pre, front, last);
    MeetAllLast(pre);
    MeetExtend(front, last);
  }

  lemma StepParts(ps: seq<Ty>, n: nat, pre: seq<Ty>, front: seq<Ty>, last: Ty)
    requires ReducedParts(ps) && forall x :: x in ps ==> Resolved(x)
    requires 2 <= n <= |ps| && pre == ps[..n] && front == ps[..n - 1] && last == ps[n - 1]
    ensures pre[..n - 1] == front && pre[n - 1] == last && pre == front + [last] && |front| == n - 1
    ensures ReducedParts(pre) && AllResolvedSeq(pre) && ReducedParts(front) && AllResolvedSeq(front)
  {
    ReducedPrefix(ps, n);
    ReducedPrefix(ps, n - 1);
  }

  lemma MeetAllLast(rs: seq<Ty>)
    requires AllResolvedSeq(rs) && |rs| >= 1
    ensures MeetAll(rs) == Meet(MeetAll(rs[..|rs| - 1]), rs[|rs| - 1])
  {
  }

  /** Resolving a type that is already in normal form changes nothing. */
  lemma {:induction false} ResolveFixesResolved(t: Ty)
    requires Resolved(t)
    ensures Resolve(t) == t
  {
    match t
    case Shape(fs) =>
      forall k | k in fs ensures Resolve(fs[k]) == fs[k] {
        ResolveFixesResolved(fs[k]);
      }
      assert (map k | k in fs :: Resolve(fs[k])) == fs;
    case Tuple(es, ro) =>
      forall i | 0 <= i < |es| ensures Resolve(es[i]) == es[i] {
        ResolveFixesResolved(es[i]);
      }
      assert seq(|es|, i requires 0 <= i < |es| => Resolve(es[i])) == es;
    case Array(e, _) =>
      ResolveFixesResolved(e);
    case Probe(x) =>
      ResolveFixesResolved(x);
    case Union(alts) =>
      forall a | a in alts ensures Resolve(a) == a {
        ResolveFixesResolved(a);
      }
      assert ResolveAlts(alts) == alts;
      UnionOfMembers(alts);
    case Inter(ps) =>
      forall i | 0 <= i < |ps| ensures Resolve(ps[i]) == ps[i] {
        ResolveFixesResolved(ps[i]);
      }
      InterFixed(ps);
    case _ =>
  }

  /** A resolved intersection whose parts resolve to themselves resolves to itself. */
  lemma InterFixed(ps: seq<Ty>)
    requires Resolved(Inter(ps))
    requires forall i :: 0 <= i < |ps| ==> Resolve(ps[i]) == ps[i]
    ensures Resolve(Inter(ps)) == Inter(ps)
  {
    assert ResolveParts(ps) == ps;
    MeetAllParts(ps, |ps|);
    assert ps[..|ps|] == ps;
    assert InterOf(ps) == Inter(Canonical(Elems(ps)));
  }

  /** The normaliser is idempotent. */
  lemma ResolveIdempotent(t: Ty)
    ensures Resolve(Resolve(t)) == Resolve(t)
  {
    ResolveFixesResolved(Resolve(t));
  }

  /** The one-field object types `{a: x}` and `{b: y}` and their merge are in normal form. */
  lemma HalvesResolved(x: Ty, y: Ty)
    requires Resolved(x) && Resolved(y)
    ensures var sa, sb := Shape(map["a" := x]), Shape(map["b" := y]);
      && Resolved(sa) && Resolved(sb) && Resolved(Shape(map["a" := x, "b" := y]))
      && sa != sb && sa != EmptyObject && sb != EmptyObject && !Disjoint(sa, sb)
  {
    var sa := Shape(map["a" := x]);
    var sb := Shape(map["b" := y]);
    assert "a"[0] != "b"[0];
    assert "a" in sa.fields && "a" !in sb.fields && "b" in sb.fields;
  }


  /** A pair of resolved types is a resolved tuple. */
  lemma TupleResolved(x: Ty, y: Ty)
    requires Resolved(x) && Resolved(y)
    ensures Resolved(Tuple([x, y], false))
  {
  }

  /** `x & y` resolves to the meet of the resolved operands. */
  lemma ResolveInterOf(x: Ty, y: Ty)
    ensures Resolve(Inter([x, y])) == Meet(Resolve(x), Resolve(y))
  {
    ResolveInterStep(Inter([x, y]), [x, y]);
    ResolvedOperands(x, y);
    MeetAllPair(Resolve(x), Resolve(y));
  }

  lemma ResolvedOperands(x: Ty, y: Ty)
    ensures ResolveParts([x, y]) == [Resolve(x), Resolve(y)]
  {
  }

  lemma MeetAllPair(x: Ty, y: Ty)
    requires Resolved(x) && Resolved(y)
    ensures MeetAll([x, y]) == Meet(x, y)
  {
    assert [x, y][..1] == [x] && [x][..0] == [];
    assert MeetAll([x]) == Meet(Unknown, x) == x;
  }

  // ---------------------------------------------------------------------
  // Order independence of intersections

  /** The intersection of a list of plain parts depends on the set of parts alone. */
  lemma ReduceSameParts(l1: seq<Ty>, l2: seq<Ty>)
    requires forall x :: x in l1 ==> Plain(x) && Resolved(x)
    requires forall x :: x in l1 <==> x in l2
    ensures Reduce(l1) == Reduce(l2)
  {
    if !exists x, y :: x in l1 && y in l1 && Disjoint(x, y) {
      assert !exists x, y :: x in l2 && y in l2 && Disjoint(x, y);
      ReduceCompatible(l1);
      ReduceCompatible(l2);
      SameSurvivors(l1, l2);
      SameKept(Dedup(Survivors(l1, l1)), Dedup(Survivors(l2, l2)));
    }
  }

  /** `Reduce` on a list without incompatible parts keeps the survivors. */
  lemma ReduceCompatible(l: seq<Ty>)
    requires forall x :: x in l ==> Plain(x) && Resolved(x)
    requires !exists x, y :: x in l && y in l && Disjoint(x, y)
    ensures var k := Dedup(Survivors(l, l));
      Reduce(l) == if |k| == 0 then Unknown else if |k| == 1 then k[0] else InterOf(k)
  {
  }

  lemma SameSurvivors(l1: seq<Ty>, l2: seq<Ty>)
    requires forall x :: x in l1 <==> x in l2
    ensures forall x :: x in Dedup(Survivors(l1, l1)) <==> x in Dedup(Survivors(l2, l2))
  {
    assert forall x :: RedundantIn(x, l1) <==> RedundantIn(x, l2);
  }

  /** Two lists without repeats and with the same members have one length and one canonical intersection. */
  lemma SameKept(k1: seq<Ty>, k2: seq<Ty>)
    requires Distinct(k1) && Distinct(k2)
    requires forall x :: x in k1 <==> x in k2
    ensures |k1| == |k2| && (|k1| == 1 ==> k1[0] == k2[0]) && InterOf(k1) == InterOf(k2)
  {
    assert Elems(k1) == Elems(k2);
    DistinctElems(k1);
    DistinctElems(k2);
    InterOfSame(k1, k2);
    if |k1| == 1 {
      assert k1[0] in k2;
    }
  }

  /** Intersecting two resolved types that are not unions is commutative. */
  lemma MeetPlainCommutes(x: Ty, y: Ty)
    requires Resolved(x) && Resolved(y) && !x.Union? && !y.Union?
    ensures Meet(x, y) == Meet(y, x)
  {
    if !Sentinel(x) && !Sentinel(y) {
      MeetParts(x, y);
      MeetParts(y, x);
      var l1, l2 := PartsOf(x) + PartsOf(y), PartsOf(y) + PartsOf(x);
      assert forall z :: z in l1 <==> z in l2;
      ReduceSameParts(l1, l2);
    }
  }

  /** Intersecting two resolved types is commutative unless both are unions. */
  lemma MeetCommutes(x: Ty, y: Ty)
    requires Resolved(x) && Resolved(y) && !(x.Union? && y.Union?)
    ensures Meet(x, y) == Meet(y, x)
  {
    if Sentinel(x) || Sentinel(y) {
    } else if x.Union? {
      MeetDistributes(x, y);
    } else if y.Union? {
      MeetDistributes(y, x);
    } else {
      MeetPlainCommutes(x, y);
    }
  }

  /** A union distributes the same way from either side of a plain operand. */
  lemma MeetDistributes(u: Ty, y: Ty)
    requires Resolved(u) && Resolved(y) && u.Union? && !y.Union? && !Sentinel(y)
    ensures Meet(u, y) == Meet(y, u)
  {
    var left := set a | a in u.alts :: Meet(a, y);
    var right := set a | a in u.alts :: Meet(y, a);
    forall a | a in u.alts ensures Meet(a, y) == Meet(y, a) {
      MeetPlainCommutes(a, y);
    }
    assert left == right;
  }

  /** `p & q` and `q & p` have one normal form unless both resolve to unions. */
  lemma ResolveInterSwap(p: Ty, q: Ty)
    requires !(Resolve(p).Union? && Resolve(q).Union?)
    ensures Resolve(Inter([p, q])) == Resolve(Inter([q, p]))
  {
    ResolveInterOf(p, q);
    ResolveInterOf(q, p);
    MeetCommutes(Resolve(p), Resolve(q));
  }

  // ---------------------------------------------------------------------
  // Object types and `{}` in intersections

  /** Object types whose types for a shared property clash intersect to `never`: `{ a: 1 } & { a: 2 }`. */
  lemma ClashingShapes(x: Ty, y: Ty, k: string)
    requires x.Shape? && y.Shape? && Resolved(x) && Resolved(y)
    requires k in x.fields && k in y.fields && FieldsClash(x.fields[k], y.fields[k])
    ensures Resolve(Inter([x, y])) == Never
  {
    CollapsedPair(x, y);
  }

  /** A clash between property types that are not unit types is kept: `{ a: string } & { a: number }`. */
  lemma WideClashKept()
    ensures var sa, sb := Shape(map["a" := Str]), Shape(map["a" := Num]);
      Resolve(Inter([sa, sb])) == InterOf([sa, sb])
  {
    var sa, sb := Shape(map["a" := Str]), Shape(map["a" := Num]);
    WideShapes();
    ObjectPairResolved(sa, sb);
  }

  lemma WideShapes()
    ensures var sa, sb := Shape(map["a" := Str]), Shape(map["a" := Num]);
      && sa != sb && sa != EmptyObject && sb != EmptyObject
      && Resolved(sa) && Resolved(sb) && !Disjoint(sa, sb)
  {
    var sa, sb := Shape(map["a" := Str]), Shape(map["a" := Num]);
    assert sa.fields.Keys == {"a"} && sb.fields.Keys == {"a"};
    assert !FieldsClash(Str, Num);
    assert sa.fields["a"] != sb.fields["a"];
  }

  /** No type is incompatible with itself. */
  lemma NotSelfDisjoint(x: Ty)
    ensures !Disjoint(x, x)
  {
    if x.Shape? {
      forall k | k in x.fields ensures !FieldsClash(x.fields[k], x.fields[k]) {
      }
    }
  }

  /** A pair of compatible plain parts has no incompatible members. */
  lemma CompatiblePair(x: Ty, y: Ty)
    requires !Disjoint(x, y) && !Disjoint(y, x)
    ensures !exists a, b :: a in [x, y] && b in [x, y] && Disjoint(a, b)
  {
    NotSelfDisjoint(x);
    NotSelfDisjoint(y);
    assert forall a :: a in [x, y] <==> a == x || a == y;
  }

  /** Two compatible plain parts, neither redundant next to the other, are both kept. */
  lemma KeptPair(x: Ty, y: Ty)
    requires Plain(x) && Plain(y) && Resolved(x) && Resolved(y) && x != y
    requires !Disjoint(x, y) && !Disjoint(y, x) && !Redundant(x, y) && !Redundant(y, x)
    ensures Meet(x, y) == InterOf([x, y])
  {
    MeetParts(x, y);
    assert PartsOf(x) + PartsOf(y) == [x, y];
    KeptPairReduce(x, y);
  }

  lemma KeptPairReduce(x: Ty, y: Ty)
    requires Plain(x) && Plain(y) && Resolved(x) && Resolved(y) && x != y
    requires !Disjoint(x, y) && !Disjoint(y, x) && !Redundant(x, y) && !Redundant(y, x)
    ensures Reduce([x, y]) == InterOf([x, y])
  {
    PairReducedParts(x, y);
    ReduceReduced([x, y]);
  }

  lemma PairReducedParts(x: Ty, y: Ty)
    requires Plain(x) && Plain(y) && x != y
    requires !Disjoint(x, y) && !Disjoint(y, x) && !Redundant(x, y) && !Redundant(y, x)
    ensures ReducedParts([x, y])
  {
    NotSelfDisjoint(x);
    NotSelfDisjoint(y);
    forall a, b | a in [x, y] && b in [x, y] ensures !Disjoint(a, b) && !Redundant(a, b) {
      assert a == x || a == y;
      assert b == x || b == y;
    }
  }

  /** Of two compatible plain parts, the one redundant next to the other is dropped. */
  lemma DroppedPair(x: Ty, y: Ty)
    requires Plain(x) && Plain(y) && Resolved(x) && Resolved(y)
    requires !Disjoint(x, y) && !Disjoint(y, x) && Redundant(y, x) && !Redundant(x, y)
    ensures Meet(x, y) == x
  {
    MeetParts(x, y);
    assert PartsOf(x) + PartsOf(y) == [x, y];
    DroppedPairReduce(x, y);
  }

  lemma DroppedPairReduce(x: Ty, y: Ty)
    requires Plain(x) && Plain(y) && Resolved(x) && Resolved(y)
    requires !Disjoint(x, y) && !Disjoint(y, x) && Redundant(y, x) && !Redundant(x, y)
    ensures Reduce([x, y]) == x
  {
    CompatiblePair(x, y);
    ReduceCompatible([x, y]);
    DroppedPairSurvivors(x, y);
  }

  lemma DroppedPairSurvivors(x: Ty, y: Ty)
    requires Redundant(y, x) && !Redundant(x, y)
    ensures Survivors([x, y], [x, y]) == [x]
  {
    var l := [x, y];
    assert !Redundant(x, x);
    assert !RedundantIn(x, l);
    assert RedundantIn(y, l);
  }

  /** `{}` next to a primitive stays: `string & {}` keeps both parts. */
  lemma EmptyObjectWithPrimitive()
    ensures Resolve(Inter([Str, EmptyObject])) == InterOf([Str, EmptyObject])
  {
    ResolveInter2(Str, EmptyObject);
    StrEmptyObjectCompatible();
    KeptPair(Str, EmptyObject);
  }

  lemma StrEmptyObjectCompatible()
    ensures !Disjoint(Str, EmptyObject) && !Disjoint(EmptyObject, Str)
    ensures !Redundant(Str, EmptyObject) && !Redundant(EmptyObject, Str)
  {
  }

  /** `{}` next to a literal or `object` adds nothing: `1 & {}` is `1`, `object & {}` is `object`. */
  lemma EmptyObjectWithLiteral(x: Ty)
    requires IsLiteral(x) || x.ObjectKw?
    ensures Resolve(Inter([x, EmptyObject])) == x
  {
    LiteralEmptyObjectFacts(x);
    ResolveInter2(x, EmptyObject);
    DroppedPair(x, EmptyObject);
  }

  lemma LiteralEmptyObjectFacts(x: Ty)
    requires IsLiteral(x) || x.ObjectKw?
    ensures Plain(x) && Resolved(x) && Plain(EmptyObject) && Resolved(EmptyObject)
    ensures !Disjoint(x, EmptyObject) && !Disjoint(EmptyObject, x)
    ensures Redundant(EmptyObject, x) && !Redundant(x, EmptyObject)
  {
  }

  /** `{}` next to an object type adds nothing: `{ a: x } & {}` is `{ a: x }`. */
  lemma EmptyObjectWithShape(x: Ty)
    requires Resolved(x)
    ensures Resolve(Inter([Shape(map["a" := x]), EmptyObject])) == Shape(map["a" := x])
  {
    var sa := Shape(map["a" := x]);
    HalvesResolved(x, x);
    ResolveInter2(sa, EmptyObject);
    assert "a" in sa.fields;
    DroppedPair(sa, EmptyObject);
  }
}
