# type-testing in Dafny

A model of the type-level testing library `type-testing`: thirteen
TypeScript type aliases that classify a type (`IsNever`, `IsAny`,
`IsUnknown`, `IsUnion`, `IsTuple`), relate two types (`Extends`,
`SimpleEqual`, `Equal`, `NotEqual`), assert a result (`Expect`,
`ExpectFalse`) and fold many results into one assertion (`TrueCases`,
`FalseCases`).

Each alias is a conditional type evaluated by the TypeScript checker, so
the model has two layers:

- **The host** — the part of the TypeScript checker the aliases rely on.
  - `Types` defines the type expressions (`Ty`) and the checker's
    normalisation `Resolve`:
    - a union with `any` becomes `any`, and one with `unknown` becomes `unknown`;
    - `never` drops out of a union, and a literal is absorbed by its base type;
    - an intersection of disjoint primitives collapses to `never`, and so
      does one of object types whose shared property holds clashing unit
      types (`{ a: 1 } & { a: 2 }`);
    - `{}` is dropped next to another object type, a literal or `object`
      (`1 & {}` is `1`), and kept only next to `string`, `number` or
      `bigint` (`string & {}`);
    - object intersections keep their parts unmerged, listed in an order
      that depends only on the set of parts, so `A & B` and `B & A` meet in
      one normal form.
  - `Assignability` defines assignability between resolved types.
  - `Conditional` evaluates a conditional type `C extends E ? X : Y`:
    - `any` as the check type takes both branches;
    - a naked type parameter distributes over the alternatives of a union;
    - `never` distributes to no branch at all.
  - `Indexed` defines the indexed accesses `T["length"]` and `T[number]`.
- **The library** — one module per alias, each built from the host's
  operations exactly as the alias's body is built from conditional types.

An evaluated alias is an `Outcome`, the set of branches the checker took:

| Outcome | TypeScript result |
|---|---|
| `{true}` | `true` |
| `{false}` | `false` |
| `{true, false}` | `boolean` |
| `{}` | `never` |

The constraint of an alias with a bounded type parameter (`T extends true`,
`T extends readonly false[]`) is a predicate `Accepts`. An argument that
fails it is a compile error at the use site, yet the alias still has a
value there, and the model computes it for every argument.

## Model

| member | source | states |
|---|---|---|
| `Types.Resolve` | src/IsUnion.ts:32-41 | the normal form of every type is `Resolved`: flattened, deduplicated by structure, `any`/`unknown` absorbing, collapsed intersections, `{}` dropped next to object types, literals and `object` |
| `Types.UnionWithNever` | src/IsUnion.ts:37 | `string \| never` (any member `x \| never`) resolves to `x` |
| `Types.UnionWithUnknown` | src/IsUnion.ts:38 | `x \| unknown` resolves to `unknown` for every resolved `x` other than `any` |
| `Types.UnionWithAny` | src/IsAny.ts:19-25 | `x \| any` resolves to `any` for every resolved `x` |
| `Types.UnionWithBase` | src/IsUnion.ts:40 | a literal united with its base type (`string \| 'a'`) resolves to the base type |
| `Types.ResolveInter2` | src/Equal.test.ts:26-28 | an intersection of two types resolves to the meet of their normal forms |
| `Types.ObjectPairResolved` | src/Equal.test.ts:26 | an intersection of two distinct non-empty object shapes without clashing properties stays the intersection of exactly those two parts (it is not merged into one shape) |
| `Types.ReduceSameParts` | src/Equal.ts:2 | the meet of a list of plain parts depends only on the set of parts, not on their order or repetition |
| `Types.MeetCommutes` | src/Equal.ts:2 | intersecting two resolved types is commutative unless both are unions |
| `Types.ResolveInterSwap` | src/Equal.ts:2 | `p & q` and `q & p` have one normal form unless both resolve to unions |
| `Types.ClashingShapes` | src/Equal.test.ts:25-28 | beyond the library's cases, which collapse only primitive intersections: object types whose shared property holds types with no common value, one of them a unit type, intersect to `never` |
| `Types.WideClashKept` | src/Equal.test.ts:25-28 | beyond the library's cases: `{ a: string } & { a: number }` stays an intersection of both parts |
| `Types.EmptyObjectWithPrimitive` | src/Equal.test.ts:25-28 | beyond the library's cases: the written `string & {}` keeps both parts |
| `Types.EmptyObjectWithLiteral` | src/Equal.test.ts:25-28 | beyond the library's cases: `{}` next to a literal or `object` is dropped (`1 & {}` is `1`, `object & {}` is `object`) |
| `Types.EmptyObjectWithShape` | src/Equal.test.ts:26 | `{ a: x } & {}` is `{ a: x }` |
| `Types.ResolveIdempotent` | src/Equal.ts:1-2 | normalising twice is normalising once, so "resolves to the same type" is well defined |
| `Types.ResolveFixesResolved` | src/Equal.ts:1-2 | a type already in normal form is its own normal form |
| `Types.PairResolved` | src/IsUnion.ts:12-21 | a union of two distinct, mutually non-absorbing members is already in normal form |
| `Assignability.AssignableReflexive` | src/Extends.test.ts:8-15 | every resolved type is assignable to itself |
| `Assignability.NeverOnlyToNever` | src/Extends.test.ts:65 | only `never` is assignable to `never` |
| `Assignability.MemberAssignableToUnion` | src/Extends.test.ts:20 | each alternative of a union is assignable to the union |
| `Assignability.ToBoolLit` | src/Expect.ts:14-16 | a resolved type is assignable to `true`/`false` exactly when it is `never`, `any`, that literal, an intersection holding it, or a union of such |
| `Assignability.EmptyTupleFacts` | src/Extends.test.ts:45 | `[]` is assignable to `unknown[]` and not the other way round |
| `Assignability.TupleHeads` | src/Extends.test.ts:44 | swapping two tuple elements that are not assignable to each other breaks assignability |
| `Conditional.Branches` | src/Extends.ts:6 | a non-distributive conditional takes exactly one branch, decided by assignability, unless the check type is `any`, which takes both unless the target is `any` or `unknown` |
| `Conditional.Select` | src/Extends.ts:33 | the value of `C extends E ? X : Y`: the union of the values of the branches taken |
| `Conditional.Dist` | src/Extends.ts:6 | a distributive conditional takes no branch exactly when the checked type is `never` |
| `Conditional.DistOne` | src/Extends.ts:6 | over a type that is not a union, distribution is the plain conditional |
| `Conditional.DistPair` | src/Extends.ts:6 | over a two-member union, distribution is the union of the two members' branches |
| `Conditional.ExtendsTrue` | src/IsTuple.ts:23 | `O extends true` for an evaluated outcome `O` is true exactly when `O` never took its false branch |
| `Conditional.FalseExtends` | src/TrueCases.ts:41-42 | `false extends O` is true exactly when `O` took its false branch |
| `Conditional.FourOutcomes` | src/Extends.ts:6 | a result is `true`, `false`, `boolean` or `never` |
| `Indexed.ElementOf` | src/TrueCases.ts:41 | `T[number]` of a tuple is the union of its elements |
| `Indexed.ElementOfUniform` | src/TrueCases.ts:41 | a non-empty tuple whose elements are all `x` has element type `x` |
| `Indexed.ElementOfEmpty` | src/FalseCases.test.ts:15 | `[][number]` is `never` |
| `IsNever.IsNever` | src/IsNever.ts:10 | `IsNever<T>` is `true` exactly when `T` resolves to `never`, `false` otherwise |
| `IsNever.IsNeverStrict` | src/IsNever.ts:1-10 | the result is always strictly `true` or `false` (the wrapping prevents distribution) |
| `IsNever.IsNeverTrueCases` | src/IsNever.test.ts:6-7 | `never` and `string & number` give `true` |
| `IsNever.IsNeverClashCase` | src/IsNever.ts:10 | beyond the library's cases, which test only `string & number`: `{ a: 1 } & { a: 2 }` gives `true` |
| `IsNever.IsNeverFalseCases` | src/IsNever.test.ts:9-11 | `''`, `undefined` and `null` give `false` |
| `IsNever.IsNeverObjectCases` | src/IsNever.test.ts:12-13 | `[]` and `{}` give `false` |
| `IsNever.IsNeverUnionCase` | src/IsNever.test.ts:14 | `never \| string` gives `false` |
| `IsAny.IsAny` | src/IsAny.ts:27 | `0 extends (1 & T)` is `true` exactly when `T` resolves to `any` |
| `IsAny.ZeroAgainstOne` | src/IsAny.ts:27 | `0` is assignable to the normal form of `1 & T` exactly when `T` resolves to `any` |
| `IsAny.MeetOne` | src/IsAny.ts:27 | `1 & y` is `any` for `y = any` and otherwise a type built only from the literal `1` (or `never`) |
| `IsAny.ZeroNotToOne` | src/IsAny.ts:27 | `0` is not assignable to any type built only from the literal `1` |
| `IsAny.ReduceOne` | src/IsAny.ts:27 | reducing an intersection list holding `1` gives `never` or a type built from `1` |
| `IsAny.UnionOfAtoms` | src/IsAny.ts:27 | a union of types built from `1` is again one |
| `IsAny.IsAnyUnionCase` | src/IsAny.test.ts:7 | `any \| 1` gives `true` |
| `IsAny.IsAnyCases` | src/IsAny.test.ts:6-12 | `any` gives `true`; `undefined`, `unknown`, `never` and `string` give `false` |
| `IsUnknown.IsUnknown` | src/IsUnknown.ts:10-17 | the result is `true` exactly when `unknown` is assignable to `T` and `T` is neither `any` nor `never` |
| `IsUnknown.IsUnknownExactly` | src/IsUnknown.ts:10-17 | `true` exactly for `unknown` and for unions holding `{}`, `null` and `undefined` |
| `IsUnknown.IsUnknownNullishObjectUnion` | src/IsUnknown.ts:10-17 | `{} \| null \| undefined` gives `true` although it does not resolve to `unknown` |
| `IsUnknown.IsUnknownIntended` | src/IsUnknown.ts:4-8 | the documented classifier gives `true` exactly when the type resolves to `unknown` |
| `IsUnknown.IsUnknownIntendedDiffers` | src/IsUnknown.ts:4-17 | the documented and the written classifier differ exactly on unions holding `{}`, `null` and `undefined` |
| `IsUnknown.IsUnknownStrict` | src/IsUnknown.ts:10-17 | the result is always strictly `true` or `false` |
| `IsUnknown.IsUnknownSingle` | src/IsUnknown.ts:8 | every non-union type other than `unknown` gives `false` |
| `IsUnknown.IsUnknownUnionCase` | src/IsUnknown.test.ts:8-10 | `x \| unknown` gives `true` for every resolved `x` other than `any` |
| `IsUnknown.IsUnknownCase` | src/IsUnknown.test.ts:6 | `unknown` gives `true` |
| `IsUnknown.IsUnknownSentinelCases` | src/IsUnknown.test.ts:12-13 | `never` and `any` give `false` |
| `IsUnknown.IsUnknownLiteralCases` | src/IsUnknown.test.ts:14-16 | literals give `false` |
| `IsUnknown.IsUnknownBooleanCase` | src/IsUnknown.test.ts:17 | `boolean` gives `false` |
| `IsUnknown.IsUnknownEmptyObjectCase` | src/IsUnknown.test.ts:18 | `{}` gives `false` |
| `IsUnknown.IsUnknownWithoutNull` | src/IsUnknown.ts:8 | a union without `null` gives `false` |
| `IsUnknown.IsUnknownAnyUnionCase` | src/IsUnknown.test.ts:20 | `any \| unknown` gives `false` |
| `IsUnknown.IsUnknownIntersectionCases` | src/IsUnknown.test.ts:21-22 | `any & unknown` and `never & unknown` give `false` |
| `IsUnknown.IsUnknownEmptyObjectInterCase` | src/IsUnknown.test.ts:23 | `{} & unknown` gives `false` |
| `IsUnion.IsUnion` | src/IsUnion.ts:1-9 | the result always takes some branch, and `never` gives `false` |
| `IsUnion.IsUnionDistributed` | src/IsUnion.ts:4-8 | past the never test, the result is the distributed per-alternative answer |
| `IsUnion.PerAlternativePlain` | src/IsUnion.ts:6-8 | an alternative `u` answers `true` exactly when the whole union is not assignable to `u` |
| `IsUnion.IsUnionMechanism` | src/IsUnion.ts:4-8 | for a union, the result holds `x` exactly when some alternative answers `x` |
| `IsUnion.IsUnionSingle` | src/IsUnion.ts:11-12 | every type that does not resolve to a union gives `false` |
| `IsUnion.IsUnionDistinct` | src/IsUnion.ts:11-12 | a union whose alternatives are pairwise not assignable to each other gives `true` |
| `IsUnion.IsUnionPair` | src/IsUnion.ts:11-12 | a two-member union of mutually non-assignable members gives `true` |
| `IsUnion.IsUnionNullishCase` | src/IsUnion.test.ts:6 | `undefined \| null \| void \| ''` gives `true` (it resolves to `null \| void \| ''`) |
| `IsUnion.IsUnionObjectCase` | src/IsUnion.test.ts:7 | `{ a: string } \| { a: number }` gives `true` |
| `IsUnion.IsUnionPrimitiveCase` | src/IsUnion.test.ts:8 | `string \| number` gives `true` |
| `IsUnion.IsUnionLiteralsCase` | src/IsUnion.test.ts:9 | `'a' \| 'b' \| 'c' \| 'd'` gives `true` |
| `IsUnion.IsUnionBooleanCase` | src/IsUnion.test.ts:10 | `boolean` gives `true` |
| `IsUnion.IsUnionSingleCases` | src/IsUnion.test.ts:12-14 | `string`, `{ a: string \| number }` and `[string \| number]` give `false` |
| `IsUnion.IsUnionCollapsedCases` | src/IsUnion.test.ts:17-20 | `string \| never`, `string \| unknown`, `string \| any` and `string \| 'a'` give `false` |
| `IsUnion.IsUnionNeverCase` | src/IsUnion.test.ts:21 | `never` gives `false` |
| `IsUnion.IsUnionSubtypeCase` | src/IsUnion.ts:1-9 | `{ a: x } \| { a: x, b: y }` gives `boolean` as written, where the documented contract gives `true` |
| `IsUnion.IsUnionIntended` | src/IsUnion.ts:11-12 | the corrected classifier gives `true` exactly when the type resolves to a union |
| `IsTuple.IsTuple` | src/IsTuple.ts:22-30 | `never` gives `false` |
| `IsTuple.IsTupleDistributed` | src/IsTuple.ts:25-29 | past the never test, the result is the distributed array test |
| `IsTuple.PerAlternativeTupleLike` | src/IsTuple.ts:25-29 | each alternative answers whether it is an array type whose `length` is narrower than `number` |
| `IsTuple.IsTupleSingle` | src/IsTuple.ts:22-30 | a type that does not resolve to a union gives whether it is tuple-like |
| `IsTuple.IsTupleUnion` | src/IsTuple.ts:25-29 | a union takes branch `x` exactly when some alternative answers `x` |
| `IsTuple.IsTupleNotNever` | src/IsTuple.ts:22-30 | the result is never `never` |
| `IsTuple.TupleLikeIsTuple` | src/IsTuple.ts:3-4 | among plain types, tuple-like means exactly "is a tuple" (arrays have `length: number`) |
| `IsTuple.IsTupleUnionCase` | src/IsTuple.ts:25 | `[1] \| number[]` distributes and gives `boolean` |
| `IsTuple.IsTupleTrueCases` | src/IsTuple.test.ts:6-8 | `[]`, `[number]` and `readonly [1]` give `true` |
| `IsTuple.IsTupleFalseCases` | src/IsTuple.test.ts:10-11 | `{ length: 1 }` and `number[]` give `false` |
| `IsTuple.IsTupleNeverCase` | src/IsTuple.test.ts:12 | `never` gives `false` |
| `IsTuple.IsTupleAnyCase` | src/IsTuple.ts:25-29 | `any` takes both branches of the array test and gives `false` on both |
| `Extends.Extends` | src/Extends.ts:33 | the result is `never` exactly when `A` resolves to `never` |
| `Extends.ExtendsSingle` | src/Extends.ts:33 | for a non-union, non-`any`, non-`never` `A`, the result is whether `A` is assignable to `B` |
| `Extends.ExtendsUnion` | src/Extends.ts:6 | for a union `A`, the result takes branch `x` exactly when some alternative of `A` answers `x` to "assignable to `B`?" |
| `Extends.ExtendsAnySource` | src/Extends.ts:13-21 | `any` gives `true` against `any`/`unknown` and `boolean` against everything else |
| `Extends.ExtendsReflexive` | src/Extends.test.ts:8-15 | every type other than `never` extends itself |
| `Extends.ExtendsTop` | src/Extends.test.ts:63-64 | every type other than `never` extends `any` and `unknown` |
| `Extends.ExtendsNeverTarget` | src/Extends.ts:25 | a type other than `never` or `any` does not extend `never` |
| `Extends.ExtendsLiteralBase` | src/Extends.test.ts:40-43 | a literal extends its base type and the base type does not extend the literal |
| `Extends.ExtendsPair` | src/Extends.ts:6 | a two-member union gives the answers of its two members |
| `Extends.ExtendsNumberUnionCase` | src/Extends.test.ts:25 | `1 \| 2` against `1` gives `boolean` |
| `Extends.ExtendsNumberUnionBaseCase` | src/Extends.test.ts:27 | `1 \| 2` against `number` gives `true` |
| `Extends.ExtendsBooleanCase` | src/Extends.test.ts:57 | `boolean` against `true` gives `boolean` |
| `Extends.ExtendsBooleanUnionCase` | src/Extends.test.ts:20 | `true \| false` against `boolean` gives `true` |
| `Extends.ExtendsStringUnionCase` | src/Extends.test.ts:26 | `'a' \| 'b'` against `string` gives `true` |
| `Extends.ExtendsObjectKeywordCase` | src/Extends.test.ts:28 | an object shape extends `object` |
| `Extends.ExtendsObjectIntersectionCase` | src/Extends.test.ts:31 | `{ a, b }` extends `{ a } & { b }` |
| `Extends.ExtendsCollapsedCase` | src/Extends.test.ts:32 | `1 & 2` against `never` gives `never` |
| `Extends.ExtendsCollapsedPrimitiveCase` | src/Extends.test.ts:33 | `string & number` against `never` gives `never` |
| `Extends.ExtendsLiteralCases` | src/Extends.test.ts:36-37 | distinct number or string literals give `false` |
| `Extends.ExtendsBigIntCases` | src/Extends.test.ts:38-39 | distinct bigint literals, and a bigint against the same number, give `false` |
| `Extends.ExtendsBooleanLiteralCase` | src/Extends.test.ts:40 | `true` against `boolean` gives `true` |
| `Extends.ExtendsTupleOrderCase` | src/Extends.test.ts:44 | swapping tuple elements gives `false` |
| `Extends.ExtendsEmptyTupleCase` | src/Extends.test.ts:45 | `[]` against `unknown[]` gives `true` |
| `Extends.ExtendsUnknownArrayCase` | src/Extends.test.ts:61 | `unknown[]` against `[]` gives `false` |
| `Extends.ExtendsUnknownCases` | src/Extends.test.ts:48-52 | `unknown` against a literal or `{}` gives `false` |
| `SimpleEqual.SimpleEqual` | src/SimpleEqual.ts:18-23 | the result is `never` exactly when `A` resolves to `never` |
| `SimpleEqual.SimpleEqualPairwise` | src/SimpleEqual.ts:6 | without `any`, the result holds `x` exactly when some pair of alternatives of `A` and `B` yields `x` |
| `SimpleEqual.SimpleEqualMutual` | src/SimpleEqual.ts:4 | for non-union, non-`any`, non-`never` sides, the result is mutual assignability |
| `SimpleEqual.SimpleEqualSingle` | src/SimpleEqual.ts:18-23 | for a non-union `A`, the result is the inner conditional of `A` alone |
| `SimpleEqual.SimpleEqualReflexive` | src/SimpleEqual.test.ts:8-14 | a non-union type other than `never` is simply-equal to itself |
| `SimpleEqual.SimpleEqualAny` | src/SimpleEqual.test.ts:58-67 | `any` gives `true` against `any`/`unknown`, `false` against `never` and `boolean` against everything else |
| `SimpleEqual.SimpleEqualAnyTarget` | src/SimpleEqual.ts:18-23 | with `any` on the right and any left side other than `any` and `never`: `unknown` gives `true`, every other type `boolean` (`any extends u` takes both branches) |
| `SimpleEqual.SimpleEqualPair` | src/SimpleEqual.ts:6 | a two-member union gives the union of its members' answers |
| `SimpleEqual.InnerLiteralBase` | src/SimpleEqual.test.ts:51-53 | a literal against its base type answers `false` |
| `SimpleEqual.SimpleEqualUnknownCase` | src/SimpleEqual.test.ts:19 | `unknown` with `unknown` gives `true` |
| `SimpleEqual.SimpleEqualAnyCase` | src/SimpleEqual.test.ts:15 | `any` with `any` gives `true` |
| `SimpleEqual.SimpleEqualLiteralSelfCase` | src/SimpleEqual.test.ts:8 | a number literal with itself gives `true` |
| `SimpleEqual.SimpleEqualTupleSelfCase` | src/SimpleEqual.test.ts:14 | a pair tuple with itself gives `true` |
| `SimpleEqual.SimpleEqualBooleanLiteralCase` | src/SimpleEqual.test.ts:50 | `true` against `boolean` gives `boolean` |
| `SimpleEqual.SimpleEqualBooleanCase` | src/SimpleEqual.test.ts:22 | `true \| false` against `boolean` gives `boolean` |
| `SimpleEqual.SimpleEqualNumberUnionCase` | src/SimpleEqual.test.ts:27 | `1 \| 2` against `1` gives `boolean` |
| `SimpleEqual.SimpleEqualNumberBaseCase` | src/SimpleEqual.test.ts:29 | `1 \| 2` against `number` gives `false` |
| `SimpleEqual.SimpleEqualStringBaseCase` | src/SimpleEqual.test.ts:28 | `'a' \| 'b'` against `string` gives `false` |
| `SimpleEqual.SimpleEqualObjectKeywordCase` | src/SimpleEqual.test.ts:30 | an object shape against `object` gives `false` |
| `SimpleEqual.SimpleEqualObjectIntersectionCase` | src/SimpleEqual.test.ts:35 | `{ a, b }` against `{ a } & { b }` gives `true` |
| `SimpleEqual.SimpleEqualCollapsedCase` | src/SimpleEqual.test.ts:38 | `1 & 2` against `never` gives `never` |
| `SimpleEqual.SimpleEqualCollapsedPrimitiveCase` | src/SimpleEqual.test.ts:41 | `string & number` against `never` gives `never` |
| `SimpleEqual.SimpleEqualLiteralCases` | src/SimpleEqual.test.ts:44-45 | distinct number or string literals give `false` |
| `SimpleEqual.SimpleEqualBigIntCases` | src/SimpleEqual.test.ts:46-47 | distinct bigint literals, and a bigint against the same number, give `false` |
| `SimpleEqual.SimpleEqualLiteralBaseCase` | src/SimpleEqual.test.ts:51-53 | a literal against its base type gives `false` |
| `SimpleEqual.SimpleEqualTupleOrderCase` | src/SimpleEqual.test.ts:54 | swapping tuple elements gives `false` |
| `SimpleEqual.SimpleEqualEmptyTupleCase` | src/SimpleEqual.test.ts:55 | `[]` against `unknown[]` gives `false` |
| `SimpleEqual.SimpleEqualAnyCases` | src/SimpleEqual.test.ts:61-67 | `any` against a literal gives `boolean`, against `never` gives `false` |
| `SimpleEqual.SimpleEqualAnyObjectCase` | src/SimpleEqual.test.ts:58 | `any` against `{}` gives `boolean` |
| `SimpleEqual.SimpleEqualUnknownCases` | src/SimpleEqual.test.ts:62-68 | `unknown` against a literal or `{}` gives `false` |
| `SimpleEqual.SimpleEqualUnknownNeverCase` | src/SimpleEqual.test.ts:69 | `unknown` against `never` gives `false` |
| `Equal.Equal` | src/Equal.ts:6-10 | the result is `true` exactly when the two arguments resolve to the same type, and `false` otherwise |
| `Equal.EqualStrict` | src/Equal.ts:6-10 | the result is always strictly `true` or `false` |
| `Equal.EqualReflexive` | src/Equal.test.ts:7-16 | every type equals itself, `never`, `any` and `unknown` included |
| `Equal.EqualSymmetric` | src/Equal.ts:6-10 | swapping the arguments does not change the result |
| `Equal.EqualTransitive` | src/Equal.ts:6-10 | equality is transitive |
| `Equal.EqualResolved` | src/Equal.ts:2 | a type equals its own normal form |
| `Equal.EqualLiteralBaseCases` | src/Equal.test.ts:36-37 | a literal is not equal to its base type |
| `Equal.EqualBooleanLiteralCase` | src/Equal.test.ts:35 | `true` (or `false`) is not equal to `boolean` |
| `Equal.EqualBigIntCases` | src/Equal.test.ts:33-38 | a bigint literal equals neither `bigint` nor a number literal |
| `Equal.EqualNumberUnionCases` | src/Equal.test.ts:20-22 | `1 \| 2` equals neither `1` nor `number` |
| `Equal.EqualStringUnionCase` | src/Equal.test.ts:21 | `'a' \| 'b'` is not equal to `string` |
| `Equal.EqualBooleanCase` | src/Equal.test.ts:17 | `true \| false` equals `boolean` |
| `Equal.EqualObjectKeywordCase` | src/Equal.test.ts:23 | `{ a: 1 \| 2 }` is not equal to `object` |
| `Equal.EqualObjectIntersectionCase` | src/Equal.test.ts:26 | `{ a, b }` is not equal to `{ a } & { b }` |
| `Equal.EqualInterOrder` | src/Equal.ts:1-10 | `A & B` equals `B & A` unless both operands resolve to unions |
| `Equal.EqualObjectOrderCase` | src/Equal.test.ts:26 | `{ a } & { b }` equals `{ b } & { a }` |
| `Equal.EqualClashCase` | src/Equal.ts:6-10 | beyond the library's cases, which test `1 & 2` at Equal.test.ts line 27: `{ a: 1 } & { a: 2 }` equals `never` |
| `Equal.EqualWideClashCase` | src/Equal.ts:6-10 | beyond the library's cases: `{ a: string } & { a: number }` does not equal `never` |
| `Equal.EqualBrandedPrimitiveCase` | src/Equal.ts:6-10 | beyond the library's cases: the written `string & {}` does not equal `string` |
| `Equal.EqualEmptyObjectCase` | src/Equal.ts:6-10 | beyond the library's cases: `{ a: x } & {}` equals `{ a: x }` |
| `Equal.EqualEmptyObjectLiteralCase` | src/Equal.ts:6-10 | beyond the library's cases: `1 & {}` equals `1` and `object & {}` equals `object`, for every literal |
| `Equal.EqualCollapsedIntersectionCases` | src/Equal.test.ts:27-28 | `1 & 2` and `string & number` equal `never` |
| `Equal.EqualTupleOrderCase` | src/Equal.test.ts:39 | tuple element order matters |
| `Equal.EqualEmptyTupleCase` | src/Equal.test.ts:40 | `[]` is not equal to `unknown[]` |
| `Equal.EqualAnyCases` | src/Equal.test.ts:41-46 | `any` equals none of `{}`, a literal and `never` |
| `Equal.EqualUnknownCases` | src/Equal.test.ts:43-48 | `unknown` equals none of `{}`, a literal and `never` |
| `Equal.EqualNeverCases` | src/Equal.test.ts:44-49 | `never` equals neither `{}` nor a literal |
| `NotEqual.NotEqual` | src/NotEqual.ts:4-6 | the result is `true` exactly when the arguments resolve to different types |
| `NotEqual.NotEqualNegatesEqual` | src/NotEqual.ts:1-6 | `NotEqual` is `false` exactly when `Equal` is `true`, and `true` exactly when `Equal` is `false` |
| `NotEqual.NotEqualStrict` | src/NotEqual.ts:4-6 | the result is always strictly `true` or `false` |
| `NotEqual.NotEqualIrreflexive` | src/NotEqual.ts:4-6 | no type is unequal to itself |
| `NotEqual.NotEqualInterOrder` | src/NotEqual.ts:4-6 | `A & B` and `B & A` are not unequal unless both operands resolve to unions |
| `NotEqual.NotEqualCases` | src/NotEqual.ts:4-6 | a literal is unequal to its base type; `never` is unequal to a literal |
| `Expect.Expect` | src/Expect.ts:16 | the result is `true` exactly when the argument resolves to `true`, whether or not the constraint accepts it |
| `Expect.AcceptsExactly` | src/Expect.ts:14 | the constraint lets through exactly `true`, `never`, `any`, intersections holding `true` and unions of those |
| `Expect.ExpectTrueOnlyForTrue` | src/Expect.ts:4-12 | `true` gives `true` and every other argument, accepted or rejected, gives `false` |
| `Expect.ExpectCases` | src/Expect.test.ts:5-6 | `true` gives `true`; `never` is accepted and gives `false` |
| `Expect.RejectsSingle` | src/Expect.ts:14 | a plain type other than `true` is rejected by the constraint |
| `Expect.ExpectRejectsPlain` | src/Expect.test.ts:22-67 | `unknown`, `false`, `string`, `'true'`, `''`, `0`, `undefined` and `null` are rejected and give `false` |
| `Expect.ExpectRejectsBoolean` | src/Expect.test.ts:10-14 | `boolean` is rejected and gives `false` |
| `Expect.ExpectRejectsUnion` | src/Expect.test.ts:16-20 | `1 \| false` is rejected and gives `false` |
| `ExpectFalse.ExpectFalse` | src/ExpectFalse.ts:27 | the result is `true` exactly when the argument resolves to `false`, whether or not the constraint accepts it |
| `ExpectFalse.AcceptsExactly` | src/ExpectFalse.ts:4 | the constraint lets through exactly `false`, `never`, `any`, intersections holding `false` and unions of those |
| `ExpectFalse.ExpectFalseTrueOnlyForFalse` | src/ExpectFalse.ts:27 | `false` gives `true` and every other argument, accepted or rejected, gives `false` |
| `ExpectFalse.ExpectFalseCases` | src/ExpectFalse.test.ts:6-7 | `false` gives `true`; `never` is accepted and gives `false` |
| `ExpectFalse.RejectsSingle` | src/ExpectFalse.ts:4 | a plain type other than `false` is rejected by the constraint |
| `ExpectFalse.ExpectFalseRejectsPlain` | src/ExpectFalse.test.ts:23-69 | `true`, `unknown`, `string`, `'false'`, `''`, `0`, `undefined` and `null` are rejected and give `false` |
| `ExpectFalse.ExpectFalseRejectsBoolean` | src/ExpectFalse.test.ts:11-15 | `boolean` is rejected and gives `false` |
| `ExpectFalse.ExpectFalseRejectsUnion` | src/ExpectFalse.test.ts:17-21 | `1 \| false` is rejected and gives `false` |
| `TrueCases.TrueCases` | src/TrueCases.ts:40-45 | for every argument, the result is `true` exactly when its element type is `true` or `IsTuple` never answers `false` |
| `TrueCases.TrueCasesStrict` | src/TrueCases.ts:40-45 | the result is always strictly `true` or `false` |
| `TrueCases.TrueCasesAllTrue` | src/TrueCases.ts:41 | an element type of exactly `true` gives `true` |
| `TrueCases.TrueCasesFollowsIsTuple` | src/TrueCases.ts:42-44 | otherwise the result is whatever `IsTuple` answers |
| `TrueCases.AcceptsTuple` | src/TrueCases.ts:40 | a tuple is accepted exactly when every element is assignable to `true` |
| `TrueCases.RejectsBadElement` | src/TrueCases.ts:29-34 | one element not assignable to `true` rejects the whole list |
| `TrueCases.TrueCasesRejectsFalse` | src/TrueCases.test.ts:14-20 | `[true, false, true, true]` is rejected at the aggregate |
| `TrueCases.TrueCasesAllTrueList` | src/TrueCases.ts:21-26 | a non-empty tuple of `true` results is accepted and gives `true` |
| `TrueCases.TrueCasesArrayCase` | src/TrueCases.ts:40-45 | `true[]` gives `true`, although it is not a tuple |
| `TrueCases.TrueCasesEmptyCase` | src/TrueCases.ts:40-45 | `[]` is accepted and gives `true` |
| `TrueCases.TrueCasesSentinelCases` | src/TrueCases.ts:40-45 | `never` and `any` are accepted and give `false` |
| `FalseCases.FalseCases` | src/FalseCases.ts:44-49 | for every argument, the result is `true` exactly when its element type is `false` and `IsTuple` never answers `false` |
| `FalseCases.FalseCasesStrict` | src/FalseCases.ts:44-49 | the result is always strictly `true` or `false` |
| `FalseCases.FalseCasesConjunction` | src/FalseCases.ts:44-49 | the result is `true` exactly when the element type is `false` and `IsTuple` gives `true` |
| `FalseCases.AcceptsTuple` | src/FalseCases.ts:44 | a tuple is accepted exactly when every element is assignable to `false` |
| `FalseCases.RejectsBadElement` | src/FalseCases.ts:33-38 | one element not assignable to `false` rejects the whole list |
| `FalseCases.FalseCasesAllFalseList` | src/FalseCases.test.ts:28-40 | a non-empty tuple of `false` results is accepted and gives `true` |
| `FalseCases.FalseCasesEmptyCase` | src/FalseCases.test.ts:15 | `[]` gives `false` (its element type is `never`) |
| `FalseCases.FalseCasesSentinelListCases` | src/FalseCases.test.ts:16-17 | `[never]` and `[any]` give `false` |
| `FalseCases.FalseCasesSentinelCases` | src/FalseCases.test.ts:18-19 | `never` and `any` give `false` |
| `FalseCases.FalseCasesRejected` | src/FalseCases.test.ts:22-53 | `[true]` (from `IsNever<never>`) and the literal `true` are rejected; `true` gives `false` |

## Left out

- Arity errors (an alias given too many or too few type arguments) are
  static errors of the TypeScript parser, not behaviour of any alias.
- The documentation generator `scripts/generate.ts` and the test harness
  files are not part of this model; their cases appear above as lemmas.
- Numbers are integers: floating-point literals, `NaN` and numeric
  widening are not modelled.
- Object shapes have required fields only. Optional and readonly
  properties, index signatures, methods, the apparent members of primitives
  (`'a'.length`) and generic functions other than the `Equal` probe are not
  modelled.
- The `Equal` probe `<T>() => T extends A ? 1 : 2` is modelled by its
  effect. Two probes are assignable exactly when their bodies are
  identical after normalisation. The checker's deferred-conditional
  comparison that produces this effect is not modelled.
- The normaliser does not merge `{ a } & { b }` into one shape, following
  the distinction `Equal` draws on Equal.test.ts line 26.
- `Equal.EqualInterOrder`: order independence is proved whenever at most
  one operand resolves to a union. When both do, each side distributes
  into a union of intersections; that these unions coincide is not proved.
- `Types.ClashingShapes`: a property clash is detected only between a unit
  type (a literal, `null`, `undefined`) and a disjoint type. Clashes through
  union-typed properties (`{ a: 1 | 2 } & { a: 3 }`), through nested
  objects, or between tuples and arrays are not reduced to `never`. The
  checker reduces some of these as well.
- `Types.Resolve` and `Types.EmptyObjectWithPrimitive`: `{}` is kept next
  to every `string`, `number` or `bigint`. The checker keeps it only in
  the written two-part `string & {}` (likewise `number`, `bigint`) and
  drops it from an instantiated `T & {}` such as `NonNullable<string>`.
  The model has no generic instantiation of that kind, so no modelled
  type tells the two apart.
- `Types.Resolve`: object types are identified by their structure. The
  checker tells the parts of an intersection or union apart by type
  identity, and each written object literal type is a type of its own. So
  repeated identical object literal types collapse to one part in the
  model (`Union` holds a set, `Dedup` merges equal `Shape` values), while
  the checker keeps them as separate parts. Consequently
  `Equal<{ a: 1 } & { a: 1 }, { a: 1 }>` is `true` in the model and
  `false` in TypeScript, and `{ a: 1 } | { a: 1 }` is one shape in the
  model.
- `IsTuple.TupleLikeIsTuple`: tuples have fixed length only. Optional
  elements (`[1, 2?]`, length `1 | 2`), rest elements (`[1, ...string[]]`,
  length `number`) and variadic or named elements are not modelled, so
  the `number extends T["length"]` test of src/IsTuple.ts:26 never meets
  a tuple whose length is a union or `number`.
- `unknown` is assignable to any union holding `{}`, `null` and
  `undefined`, following the checker since TypeScript 4.8. Earlier
  versions are not modelled.
- `Indexed.LengthOf` and `Indexed.ElementOf` of an intersection: the meet
  of the parts' lengths and elements. The checker's property lookup on
  intersections is more detailed; no case of the library depends on it.
- `IsTuple.IsTuple`: its own ensures states only the `never` case; the
  full characterisation is split over `IsTuple.IsTupleSingle`,
  `IsTuple.IsTupleUnion` and `IsTuple.TupleLikeIsTuple`.
- `IsUnion.IsUnion`: its own ensures states only the never case and that
  some branch is taken; the full behaviour is `IsUnion.IsUnionMechanism`,
  `IsUnion.IsUnionSingle` and `IsUnion.IsUnionDistinct`.
- `Extends.Extends` and `SimpleEqual.SimpleEqual`: their own ensures
  characterise only the `never` result; the per-case lemmas listed above
  state the rest (for `SimpleEqual`: `SimpleEqualPairwise` without `any`,
  `SimpleEqualAny` with `any` on the left, `SimpleEqualAnyTarget` with
  `any` on the right only).
- `TrueCases.TrueCases`: src/TrueCases.ts:4-39 promises only that every
  case is `true`. The code tests `Equal<T[number], true>` OR
  "`IsTuple<T>` never answers `false`". The model follows the code, so
  `TrueCases<true[]>` is `true` although `true[]` is no tuple.
  `FalseCases` uses AND instead.
- The comment on `NotEqual` (src/NotEqual.ts:2) says it returns false for
  unequal inputs; the code returns `true` for them. The model follows the
  code. `ExpectFalse`'s documentation names the alias `IsFalse`; the
  behaviour it lists is that of `ExpectFalse`.
- Diagnostics (error codes, messages, where an error is reported) are not
  modelled; a rejected constraint is `!Accepts(..)`.

## Findings

| source | as written | input that shows it | evidently intended | confidence | as-written member | corrected member |
|---|---|---|---|---|---|---|
| src/IsUnknown.ts:10-17 | the guard `[unknown] extends [T]` passes every `T` that `unknown` is assignable to; since TypeScript 4.8 that includes `{} \| null \| undefined` | `{} \| null \| undefined`: it gives `true`, though the type is not `unknown` | `true` only for types that resolve to `unknown`, `false` for all other values (src/IsUnknown.ts:4-8) | not executed | `IsUnknown.IsUnknownNullishObjectUnion` | `IsUnknown.IsUnknownIntended` |
| src/IsUnion.ts:1-9 | each alternative `u` answers `false` when the whole union is assignable to `u`, so an alternative that is a supertype of every other alternative answers `false` | `{ a: string } \| { a: string, b: number }`: it gives `boolean` instead of `true` | `true` exactly when the type resolves to a union of two or more alternatives (src/IsUnion.ts:11-12) | not executed | `IsUnion.IsUnionSubtypeCase` | `IsUnion.IsUnionIntended` |
