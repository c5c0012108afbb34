# Tree walker and path setter, modelled in Dafny

The repository is a tree rewriter for JavaScript collections in two layers.

- **`set(object, path, value)`** (`src/set.js`) writes `value` into a nested object/array at a
  path of segments. It mutates the root in place and returns it. It reuses
  an existing container at each intermediate segment. It replaces a missing
  or primitive one by `[]` when the next segment is a number, and by `{}`
  otherwise.
- **`walkCollection`** (`src/lib.js`) and its twin **`walkCollectionTree`** (`index.js`)
  walk every own key of a collection depth first. They ask a customizer for
  a directive `{ value, path, key, skip, remove }`. Then they recurse, or
  materialise an empty container, or commit a value into a fresh output root
  through `set`.

The model has these parts:

- `js_value.dfy`, module `JsValue`: the values. A tree is a primitive leaf, or
  a container. An object keeps its keys in insertion order beside its table.
  An array keeps its JavaScript `length`, so holes are possible.
- `path_set.dfy`, module `PathSet`: `set`.
  - `SetPath` is the reference definition, one level per call.
  - `Set` is the source's loop, over a `Collection` object whose `value` it
    reassigns. It is proved to compute `SetPath`.
  - Lemmas give get-after-set, the frame, and the shape of every level.
- `walker.dfy`, module `Walker`: the walker.
  - `VisitsFrom` lists the customizer calls in walk order, each with its
    directive.
  - `CommitOf` says which calls write, and what.
  - `Walk` folds those writes over the new root.
  - `Traverse` is the recursive `forEach` loop. It keeps the `path` and
    `finalPath` arrays and their aliasing. It is proved against `Walk`.
  - `WalkCollection` and `WalkCollectionTree` are the entry points.
- `walk_laws.dfy`, module `WalkLaws`: what each call receives, and how a
  rename reaches the paths below it. It shows that `skip` and leaves hide
  what is under them, and that a walk without `skip` visits every position
  in preorder.
- `rebuild.dfy`, module `LocalRewrite`: for customizers that do not look at
  the path and give no `path` directive, the walk equals a direct recursive
  rebuild of the tree, `Rebuild`.
- `relabel.dfy`, module `Relabeling`: for customizers that never skip or
  remove, the walk maps leaves and renames keys, `Relabel`. A rename only
  has to keep the keys of each container apart, so upper-casing qualifies on
  any tree without two keys differing only in case. This covers a deep copy,
  a leaf map, `{ value: undefined }`, and the upper-casing rename of the
  repository's "change key" test.
- `walk_examples.dfy`, module `WalkExamples`: removal, rename and
  `{ value: undefined }` on small collections, most of them from the
  repository's tests.

The directive is a record. `value` and `path` are `Option`s, because the
source tests them with `hasOwnProperty`, so `{ value: undefined }` counts.
`key` is applied only when truthy. A falsy customizer return becomes
`None`, which resolves to the empty directive.

With a `key` but no `path` override, `finalPath` is the same array as
`path`. Overwriting its last segment therefore also renames the stack
passed to the recursive call (`src/lib.js:42-49`, `src/lib.js:65`). The
model follows the code here: `ChildStack` is that stack, and `Redirect`
mutates the shared array. The repository's "change key" test relies on this
(`test/main-test.js:62-81`): descendants are written, and shown, under the
renamed prefix.

## Model

| member | source | states |
|---|---|---|
| JsValue.WriteSlot | src/set.js:33 | `nested[key] = v` on a container: afterwards `key` reads `v`, every other key reads as before, and the container keeps its kind |
| JsValue.Entries | src/lib.js:24 | `forEach` enumerates the values at their own keys; it enumerates nothing exactly when the value is a primitive or an empty container |
| JsValue.EmptyLike | src/lib.js:60 | the container materialised for an empty one is empty and has the same kind (array or object) |
| JsValue.EmptyFor | src/set.js:30 | a created intermediate container is an array exactly when the next segment is a number |
| PathSet.Base | src/set.js:29-30 | the container `set` descends into is always an object or array |
| PathSet.SetPath | src/set.js:14-38 | writing into a container returns a container of the same kind |
| PathSet.Set | src/set.js:14-38 | returns the root it was given; a non-object root or an empty path changes nothing; otherwise the new root is `SetPath` of the old one (loop invariant over the cursor's location) |
| PathSet.SetPathGet | src/set.js:24-35 | after `set(o, p, v)` with non-empty `p`, following `p` from the result reaches `v` |
| PathSet.SetPathFrame | src/set.js:33-34 | every location that leaves `p` at some level reads exactly as before |
| PathSet.SetPathLevel | src/set.js:28-34 | at each level along `p`, an existing container is reused with only slot `p[i]` rewritten; a missing or primitive one becomes `[]` or `{}` by the type of `p[i]`, holding only that slot |
| PathSet.ShapeInferenceExample | src/set.js:30 | `set({}, ['a', 0, 'b'], 1)` is `{ a: [{ b: 1 }] }` |
| PathSet.WriteSlotTwice | src/set.js:33 | assigning a slot twice keeps only the second value |
| Relabeling.ExplicitUndefinedWritten | src/lib.js:37-41 | `value` counts by presence: a customizer answering `{ value: undefined }` on leaves makes the walk write `undefined` over every leaf of a plain container, keys and shape kept |
| WalkExamples.ExplicitUndefinedExample | src/lib.js:37-41 | walking `{ a: 1 }` with `{ value: undefined }` gives `{ a: undefined }` |
| WalkExamples.AbsentValueExample | src/lib.js:41 | walking `{ a: 1 }` with a directive that has no `value` gives `{ a: 1 }` back |
| Walker.FinalPath | src/lib.js:42-49 | the destination is the directive's `path` if present, else the natural path, of the same length; a truthy `key` replaces only its last segment; a falsy key (`''`, `0`) is ignored |
| Walker.EntryVisits | src/lib.js:25-35 | the first call for an entry receives that entry's key and value |
| Walker.CommitOf | src/lib.js:54-71 | a call writes exactly when it is not removed and is a leaf, a skipped container or an empty container; it writes at `FinalPath` |
| Walker.EntryWrites | src/lib.js:54-71 | the writes for one entry: a new empty container of the same kind for an empty one; the subtree's writes for a non-empty unskipped container, whose `remove` and `value` are ignored; the final value for a leaf or skipped container unless removed |
| Walker.WalkRootKind | src/lib.js:80 | the output root is a container, and an array exactly when the input is |
| Walker.NewPath | src/lib.js:25 | the new `path` array is fresh and holds the stack followed by the key |
| Walker.Redirect | src/lib.js:42-49 | `finalPath` holds `FinalPath`; the `path` array is left as the stack for the recursion, renamed exactly when no `path` override was given |
| Walker.VisitEntry | src/lib.js:24-72 | one iteration of the `forEach` body, for one entry, leaves the output root equal to the old root with that entry's writes applied in order: its own commit, or the whole subtree's through the recursive call |
| Walker.Traverse | src/lib.js:23-75 | the recursive loop leaves the output root equal to the old root with all the walk's writes applied in order |
| Walker.WalkCollection | src/lib.js:12-81 | a non-function customizer fails; a primitive is returned unchanged; otherwise the result is `Walk`, a container of the input's kind |
| Walker.WalkCollectionTree | index.js:16-85 | the contract of `WalkCollection`, for the version the tests import, with lodash `_.set` taken to create containers as `src/set.js` does (see "Left out" for where they differ) |
| Walker.ApplyConcat | src/lib.js:24 | the writes of consecutive entries compose in order over the one shared output root |
| WalkLaws.ReportedPath | src/lib.js:25 | a reported path has the stack's length plus the depth, and ends with the entry's own key |
| WalkLaws.VisitsPlaced | src/lib.js:23-75 | every call below a container receives the value at its position, the last segment of that position as key, the reported path, and the directive the customizer returns for them |
| WalkLaws.CallAt | src/lib.js:24-35 | from the root: each call's value is the input at its position and its key is the position's last segment |
| WalkLaws.SameCall | src/lib.js:24 | two calls about the same position of the input receive the same value, key and path and get the same directive |
| WalkLaws.ChildPath | src/lib.js:42-65 | a child's path extends its parent's path, renamed by the parent's truthy `key` when the parent gave no `path`, and unrenamed when it gave one |
| WalkLaws.VisitsDescended | src/lib.js:54-65 | every call below the top level lies under an ancestor call that was a container and was not skipped |
| WalkLaws.SkipHidesSubtree | src/lib.js:54-71 | no call is made strictly below a skipped container or a leaf |
| WalkLaws.CoversAllPositions | src/lib.js:24-65 | a customizer that never skips is called at every position of the input, in preorder |
| LocalRewrite.StackShift | src/lib.js:25 | for such a customizer, the walk under a stack makes the root walk's writes with the stack prefixed |
| LocalRewrite.ApplyUnderFresh | src/set.js:29-33 | writes under a key holding no container build a new container there, shaped by the first write's segment |
| LocalRewrite.EntryRebuilt | src/lib.js:54-71 | one entry's writes, applied to the partial output, give the rebuild step for that entry |
| LocalRewrite.RebuildFromWalk | src/lib.js:23-75 | applying the writes of entries `i ..` equals rebuilding them |
| LocalRewrite.WalkIsRebuild | src/lib.js:23-80 | for a customizer that ignores the path and gives distinct keys of the container's kind, the walk equals the direct rebuild: removed entries, and unskipped non-empty containers under which nothing is written, are absent; a skipped entry that is not removed is written whole (or its directive's `value`) under its new key |
| Relabeling.RelabelNothing | index.js:84 | relabelling with the identity gives the container back |
| Relabeling.WalkRelabels | index.js:27-84 | a customizer that never skips or removes, maps leaves and renames keys, keeping the keys of each container apart, produces the relabelled tree |
| Relabeling.DeepCopy | test/main-test.js:217-227 | a customizer that returns nothing yields a container equal to the input, `{}` and `[]` included |
| Relabeling.DoubleNumbersMapsLeaves | test/main-test.js:40-60 | `{ value: n * 2 }` on numbers doubles exactly the numbers and copies every other leaf |
| Relabeling.RenameNamesEverywhere | index.js:51-53 | a `{ key }` rename of string keys that keeps the keys of each container apart renames keys at every depth and keeps array indices |
| Relabeling.UpperCaseEverywhere | test/main-test.js:62-81 | the test's `{ key: key.toUpperCase() }` customizer upper-cases object keys at every depth and keeps indices and leaves, on any plain container none of whose containers holds two keys differing only in case |
| WalkExamples.RemovalIsRebuild | index.js:58-75 | a customizer that only removes walks as the rebuild |
| WalkExamples.RemoveFalsyExample | test/main-test.js:95-114 | removing falsy values turns `{ one: undefined, arr: [34, false, null] }` into `{ arr: [34] }` |
| WalkExamples.RemoveLeavesHole | index.js:70-74 | removing the first entry of `[false, 34]` gives an array of length 2 with a hole at index 0 |
| WalkExamples.RemoveEmptyExample | test/main-test.js:83-93 | removing empty containers drops the whole branch `{ a: { b: {} } }` |
| WalkExamples.KeepEmptyExample | test/main-test.js:217-227 | without a customizer directive the same branch is copied unchanged |
| WalkExamples.RenameSeenBelow | index.js:46-69 | after `a` is renamed to `A`, the call for `b` below it receives the path `['A', 'b']` |

## Left out

- Key coercion: JavaScript turns `obj[0]` and `obj['0']` into the same property, and enumerates integer-like object keys first. Here `Str` and `Idx` keys are distinct, and objects keep plain insertion order.
- Object identity and sharing: the model works on values, so what follows from references is not captured. A skipped container with no `value` is committed by reference in the source, so the output shares it with the input. The model cannot tell a fresh copy from a shared one. "Shares no containers with the input" and the visitor's private copy of `path` (`[...path]`) are therefore not stated.
- Writes through shared references: a container committed by reference (a skipped one) stays reachable from the input, and a later `set` below its location writes into it in place (`src/set.js:29-34`), so the source can change the input itself. For example, with `{ k: { a: 1 }, j: { b: 2 } }`, `k` answered `{ skip: true }` and `j` answered `{ key: 'k' }`, the commit at `['k', 'b']` runs `input.k.b = 2`. One object committed at two places likewise receives the writes made below either place. The model gives each location its own value.
- The customizer's own `path` array: with a `path` directive, the rename of its last segment is written into that array itself (`src/lib.js:42`, `src/lib.js:48`), which the customizer may read again later. The model renames a copy.
- Inherited slots: `set` follows a slot inherited from the prototype, such as `__proto__` (`src/set.js:29-30`). The model has own keys only.
- Walker.WalkCollectionTree: lodash `_.set`, which `index.js` commits through, is not part of this model, and it is assumed to behave like `src/set.js`. It does not always; for example, `_.set` creates `[]` when the next segment is an index-like string such as `'0'` or `'2018'`, where `src/set.js` creates `{}` (the point of `src/set.js:12`). For example, walking `{ data: { '2018': [...] } }` (`test/main-test.js:196-214`) makes `data` an array under `index.js`, while `WalkCollectionTree`'s contract gives an object. Recent 4.17 releases of lodash also stop `_.set` at a `__proto__`, `constructor` or `prototype` segment, so under `index.js` `{ constructor: 1 }` walks to `{}`, while the contract gives `{ constructor: 1 }`.
- The customizer's fourth argument, the output root under construction: the customizer is a pure function of value, key and path.
- Cyclic inputs, stack exhaustion on deep trees, and exceptions thrown by the customizer.
- Floating-point leaves and `NaN`: numbers are integers.
- Truthy non-object customizer returns, such as a number: the directive is a record.
- The ESM/CommonJS export mismatch between `src/lib.js` and `src/set.js`.
- lodash `forEach`'s early exit on `false`, inherited keys, and functions as containers.
- JsValue.Entries, Relabeling.DeepCopy, Relabeling.WalkRelabels, Relabeling.RenameNamesEverywhere, Relabeling.UpperCaseEverywhere, Relabeling.ExplicitUndefinedWritten, LocalRewrite.WalkIsRebuild, WalkExamples.RemovalIsRebuild: array-like objects are not modelled. lodash `forEach` walks an object whose own `length` key holds a valid array length (a non-negative integer) by index `0 .. length-1`, with numeric keys, instead of by its own keys. `Entries` enumerates the own keys of every object, so these laws, stated for any plain container, do not describe such objects. Under the source, `{ length: 1 }` walks to `{ '0': undefined }`. In `{ a: { length: 0 } }`, `a` is not empty to `isEmpty` and nothing is visited under it, so `a` is absent from the output.
- The flatten/unflatten test: it converts keys with `Number`, and its joined paths need number-to-string conversion, which is not modelled.
- The benchmark: it only measures time.
- Relabeling.UpperCaseEverywhere: JavaScript's `toUpperCase` is modelled on the ASCII letters only, every other character being kept.
- Relabeling.WalkRelabels, LocalRewrite.WalkIsRebuild: these are stated only for customizers that ignore the path and give no `path` directive. The general walk, including `path` redirects, is covered by `Walker.Traverse` against `Walk` and by the laws in `WalkLaws`.
