# Deep clone and deep merge of JavaScript values, in Dafny

This project models the type-check utilities of the k-line-charts
repository (`src/common/utils/typeChecks.ts`): the runtime classifiers
`isArray`, `isFunction`, `isObject`, `isNumber`, `isValid`, `isBoolean` and
`isString`, the deep `clone`, and the deep `merge` of a source record into a
target record.

Runtime values are a closed recursive datatype `JsValues.Value`: null,
undefined, booleans, strings, numbers (finite, NaN or an infinity), callables
known only by a reference, arrays without holes, and plain objects (maps from
string keys to values). `TypeOf` gives JavaScript's `typeof`, including
`typeof null == "object"`, so `IsObject` is written exactly as the source
writes it and its contract says which values it accepts.

`Clone` and `Merge` are pure functions. `Merge` returns the updated target
instead of changing it in place; the source is an ordinary value, so it is
never changed. A key the target neither has nor inherits reads as undefined,
as in JavaScript. Inherited members are not modelled, so in the model a key
the target lacks always takes the clone branch of merge. The for-in loop of
merge is also modelled step by step (`MergeLoops`): it visits object keys in
any order and array indices in ascending order. At each step it reads the
target as it stands at that moment, and it is proved to end with the
declarative result.

What merge does at every depth is stated over paths of keys
(`ValuePaths.Get`). Below the top level these facts hold:

- every atomic source member lands unchanged at its path;
- every target member that the source never reaches survives, and a path the
  source never reaches reads in the result exactly as in the target;
- target content below an overwrite disappears;
- nothing appears that neither side had.

Modules: `JsValues` (values, `typeof`), `TypeChecks` (classifiers),
`DeepClone`, `DeepMerge`, `ValuePaths`, `MergeLaws`, `MergePaths`,
`MergeLoops`, `MergeExamples`.

## Model

| member | source | states |
|---|---|---|
| TypeChecks.IsArray | src/common/utils/typeChecks.ts:75-77 | the `Object.prototype.toString` class test is true exactly for arrays, so plain objects and strings fail; every array is also an object in the sense of isObject |
| TypeChecks.IsFunction | src/common/utils/typeChecks.ts:79-81 | true exactly for callables |
| TypeChecks.IsObject | src/common/utils/typeChecks.ts:83-85 | true exactly for arrays and plain objects; false for null (whose typeof is "object"), undefined, callables and primitives |
| TypeChecks.IsNumber | src/common/utils/typeChecks.ts:87-89 | true exactly for finite numbers; NaN and both infinities are rejected |
| TypeChecks.IsBoolean | src/common/utils/typeChecks.ts:95-97 | true exactly for booleans |
| TypeChecks.IsString | src/common/utils/typeChecks.ts:99-101 | true exactly for strings |
| TypeChecks.Classification | src/common/utils/typeChecks.ts:79-101 | every value is in exactly one class: composite, callable, boolean, string, number (finite or not), or null/undefined; isValid rejects exactly null and undefined |
| TypeChecks.EdgeCases | src/common/utils/typeChecks.ts:75-93 | isObject(null) is false though typeof null is "object"; isObject([]) and isObject({}) are true; isArray([]) is true and isArray({}) and isArray("ab") are false; isNumber rejects NaN and the infinities and accepts 3; isValid rejects null and undefined and accepts NaN |
| DeepClone.Clone | src/common/utils/typeChecks.ts:40-73 | the clone is structurally equal to its input at every depth, so non-composite values come back unchanged |
| DeepClone.CloneShape | src/common/utils/typeChecks.ts:46-69 | a cloned array keeps its length and element i is the clone of element i; a cloned object keeps exactly its keys, each mapped to the clone of its value |
| DeepMerge.Property | src/common/utils/typeChecks.ts:24 | reading `target[key]` on a plain object: an own key reads its value, and a missing key reads as a non-composite value |
| DeepMerge.Element | src/common/utils/typeChecks.ts:24 | reading `target[i]` on an array: an index inside the array reads its element, and an index past the end reads as a non-composite value |
| DeepMerge.Merge | src/common/utils/typeChecks.ts:14-37 | no-op when both sides are atomic; the target stays composite; merged arrays have length max of the two; merged objects have the union of both key sets |
| DeepMerge.MergeEntry | src/common/utils/typeChecks.ts:27-34 | the value written for one source key is composite exactly when the source value is, and unless both sides are composite it equals the source value (overwrite, not merge) |
| MergeLaws.MergeObjectAtKey | src/common/utils/typeChecks.ts:22-34 | per key: both composite gives their merge; otherwise the source value overwrites; target-only keys keep their value; key set is the union |
| MergeLaws.MergeArrayAtIndex | src/common/utils/typeChecks.ts:22-34 | per index: length is the max; an index the source has holds the merge of two composites or else the source element; an index past the source keeps the target element |
| MergeLaws.MergeStep | src/common/utils/typeChecks.ts:22-34 | one level of merge in terms of members: a key the source lacks keeps the target member, a key it has holds the loop body's outcome |
| MergeLaws.MergeSelf | src/common/utils/typeChecks.ts:14-37 | any value can be merged with itself and that changes nothing |
| MergeLaws.MergeIdempotent | src/common/utils/typeChecks.ts:14-37 | merging the same source a second time changes nothing more |
| MergeLaws.EntryIdempotent | src/common/utils/typeChecks.ts:27-34 | repeating the loop body for one key with the same source value changes nothing more |
| MergeLaws.MergeIntoEmpty | src/common/utils/typeChecks.ts:22-34 | merging into an empty object or array yields a copy equal to the source |
| MergeLaws.MergeEmptySource | src/common/utils/typeChecks.ts:22-23 | merging an empty source leaves the target unchanged |
| MergePaths.MergePlacesSource | src/common/utils/typeChecks.ts:22-34 | at every depth below the top, an atomic source member appears unchanged in the result and a composite one appears as a composite of the same kind |
| MergePaths.MergeKeepsUntouched | src/common/utils/typeChecks.ts:22-31 | target members the source never reaches survive unchanged at every depth |
| MergePaths.MergeDropsOverwritten | src/common/utils/typeChecks.ts:32-34 | target content below a member the source overwrites is gone |
| MergePaths.MergeUntouchedMirrorsTarget | src/common/utils/typeChecks.ts:22-34 | a path the source never reaches is absent from the source, and the result reads there exactly as the target does |
| MergePaths.MergeAddsNothing | src/common/utils/typeChecks.ts:22-36 | every path of the result exists in the target or the source |
| MergeLoops.MergeFields | src/common/utils/typeChecks.ts:22-36 | visiting an object source's keys one at a time in any order, reading the partly updated target, ends with the declarative merge |
| MergeLoops.MergeElements | src/common/utils/typeChecks.ts:22-36 | visiting an array source's indices in order, appending past the end, ends with the declarative merge |
| MergeExamples.DisjointKeysUnite | src/common/utils/typeChecks.ts:22-34 | merge({a:1}, {b:2}) leaves {a:1, b:2} |
| MergeExamples.NestedObjectsMerge | src/common/utils/typeChecks.ts:27-31 | merge({a:{x:1}}, {a:{y:2}}) leaves {a:{x:1, y:2}} |
| MergeExamples.AtomOverwritesObject | src/common/utils/typeChecks.ts:32-34 | merge({a:{x:1}}, {a:5}) leaves {a:5} |
| MergeExamples.ArraysMergeByPosition | src/common/utils/typeChecks.ts:22-34 | merge([1, {x:1}, 5], [2, {y:2}]) leaves [2, {x:1, y:2}, 5] |
| MergeExamples.CloneInstances | src/common/utils/typeChecks.ts:40-73 | null and callables clone to themselves; a nested array clones to an equal value |

## Left out

- DeepMerge.Merge: requires `Mergeable`, so it covers fewer argument pairs than the source accepts. Either both arguments are atomic, or both are arrays or both are plain objects. Recursively, every pair of composite values met at a shared key must also be of one kind. The excluded calls are these. With a null or undefined target and a non-empty source, the read `target[key]` throws a TypeError. With any other primitive target, the write `target[key] = ...` throws a TypeError, because the module runs in strict mode. With a composite target and an atomic source, a string source's characters are merged in at index keys, and any other atomic source has no keys to visit. An array target with an object source gains named properties on the array. An object target with an array source gains the keys "0", "1", and so on. The exception paths are not modelled, and these mixed pairs are the degenerate calls the `Record<string, unknown>` signature excludes.
- Heap identity is not modelled. This covers fresh references from clone, in-place mutation of nested targets by merge, and aliasing between source and target. Values are immutable, so every contract is stated as structural equality. `Merge` returns the updated target instead of returning nothing.
- Cyclic structures are not modelled. The datatype is inductive, so values are finite trees. The source recurses without bound on cycles.
- Number semantics are not modelled. Finite numbers carry a mathematical real, with no IEEE rounding or -0.
- Inherited members are not modelled. On a plain target, `target["__proto__"]` reads `Object.prototype`, which passes isObject. So a source with an own `__proto__` key holding an object merges into `Object.prototype`, and clone's `copy[key] = ...` sets the copy's prototype. The model instead treats `__proto__` as an ordinary own key.
- The JavaScript object model is not modelled: prototypes and inherited keys, symbol-keyed and non-enumerable properties, sparse-array holes, class instances and Dates (all treated as plain objects), and symbols and bigints as values. `typeof` and `Object.prototype.toString` are modelled as tag tests on the datatype.
- Key insertion order is not modelled. Plain objects are unordered maps. The for-in loop is modelled as visiting keys in any order, which covers insertion order.
- TypeChecks.IsValid has no contract of its own. It is a plain tag test, and `Classification` states that it rejects exactly null and undefined.
