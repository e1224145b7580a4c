# func.js core, modelled in Dafny

This project models the in-memory core of func.js, a TypeScript utility library, and proves properties of that model.

The centre of the model is the lazy function chain of `src/chaining.ts`. `_(v)` wraps a value in a `FuncJS` object, and every library function called on it appends a link to the chain. `value()` then runs the chain. While the wrapped value is array-like, `value()` does not run consecutive `map`, `filter`, `reverse`, `slice`, `tail`, `take`, `first`, `last` and `tap` links one after another. It folds them into a "comprehension" record and executes the record in a single traversal (shortcut fusion).

The model proves three things about the chain:
- Fusion is sound on a fragment: key-free `map`/`filter`/`reverse`, then at most one `slice` or `tail`, then `take`s (`Chaining.FusedIsEager`).
- The planner as written departs from the eager chain in nine ways; each is stated as a lemma with a concrete input.
- A corrected planner agrees with the eager chain on every chain of key-free callbacks without interceptors (`ChainingFixed.FixedIsEager`).

Around the chain sit the library functions it calls and the rest of the library's deterministic logic:
- the collection combinators built on the iteration primitive `_eachIterator`;
- the array functions, including those that change their argument in place;
- `arrayToTree` and the preorder tree walker with the searches built on it;
- path access and the key-by-key copying of objects (`get`, `set`, `assign`, `defaults`, `merge`, `pick`, `omit`, ...);
- the string functions, and the type tests and equalities;
- the function wrappers `partial`, `compose`, `once` and `after`;
- number conversion and comparison, and the calendar arithmetic of the date module.

Modules follow the source files:

- `JsValues` (values.dfy): the JavaScript values the library handles;
- `Chaining`, `ChainingExamples`, `ChainingFixed` (chaining.dfy, chaining_examples.dfy, chaining_fixed.dfy): src/chaining.ts;
- `Coll` (collection.dfy): src/collection.ts;
- `Arrays`, `ArrayEdits`, `ArrayGroups` (array.dfy, array_edits.dfy, array_groups.dfy): src/array.ts, with `times` of src/utils.ts in `Arrays`;
- `Trees`, `TreeBuild` (tree.dfy, tree_build.dfy): src/tree.ts;
- `Objects`, `ObjectFilters` (object.dfy, objectfilters.dfy): src/object.ts;
- `Paths`, `Utils` (paths.dfy, utils.dfy): src/utils.ts;
- `Strs` (string.dfy): src/string.ts;
- `Is` (is.dfy): src/is.ts;
- `Funcs` (functions.dfy): src/functions.ts;
- `Num` (number.dfy): src/number.ts;
- `Dates` (datetime.dfy): src/datetime.ts.

Code that changes state in the source is modelled imperatively:
- `FuncJS` and the comprehension record are classes whose methods update their fields.
- The loops of `_eachIterator`, `except`, `intersect`, `zip`, `arrayToTree`, `getDayOfYear` and others are methods with loop invariants.
- The array functions that change their argument (`insert`, `append`, `remove`, `pull`, `pop`) are methods of a `JsArray` class.

Each such method is proved to compute a function of its inputs, and the library's promises are proved about that function.

## Model

| member | source | states |
|---|---|---|
| Chaining.Opener | src/chaining.ts:178 | the links after which `value()` opens a record on an array result: `split`, `toArray`, `range` (Chaining.LinkOpens) |
| Chaining.Eager | src/chaining.ts:77-81 | every link run in turn as the function it names, the reference the fused chain is measured against (Chaining.FusedIsEager) |
| Chaining.Below | src/chaining.ts:286-287 | `x < bound`, false against undefined as in JavaScript (Chaining.CollectSkip) |
| Chaining.Above | src/chaining.ts:287-288 | `x > bound`, false against undefined (Chaining.CollectRangeStop) |
| Chaining.ExecStep | src/chaining.ts:272-295 | the traversal callback of `execComprehension`: goal settings, range test, count test, push or unshift (Chaining.CollectFold) |
| Chaining.ExecSpec | src/chaining.ts:256-300 | what `execComprehension` returns and how many iteratee calls it makes (Chaining.ExecSpecOf; Chaining.Traverse meets it) |
| Chaining.Link | src/chaining.ts:57-81 | one step of `value()`'s reduce: build into the open record, close it, or run the link (Chaining.LinkCloses, Chaining.LinkOpens) |
| Chaining.RunFrom | src/chaining.ts:57-82 | the reduce over the remaining links (Chaining.RunSafe, Chaining.EmptyChain) |
| Chaining.Start | src/chaining.ts:53-55 | the seed of the reduce: the wrapped value, with a record open when it is array-like |
| Chaining.ValueSpec | src/chaining.ts:52-83 | what `value()` returns with its interceptor and iteratee calls (Chaining.FuncJS.Value meets it; Chaining.FusedIsEager) |
| Chaining.Survivors | src/chaining.ts:274-284 | the values that come out of the goal settings, in order (Chaining.SurvivorsSnocMap, Chaining.SurvivorsReversed) |
| Chaining.Denote | src/chaining.ts:196-254 | what a fusible record stands for on an array: goal settings, reverse, range, count (Chaining.StepDenote, Chaining.ExecDenote) |
| Chaining.Window | src/chaining.ts:262-288 | the range, then the count, on the values that passed (Chaining.WindowRange) |
| Chaining.Collect | src/chaining.ts:286-294 | the targets the traversal keeps from the passing values (Chaining.CollectNoRange, Chaining.CollectRange) |
| Chaining.Arrange | src/chaining.ts:290-294 | `push` in collection order or `unshift` when reversed (Chaining.ArrangeSnoc) |
| Chaining.Call | src/chaining.ts:77-81 | a link run eagerly: an interceptor is called once with the accumulated value and passes it on; `map` and `filter` call their iteratee once per entry, every other link none |
| Chaining.BuildStep | src/chaining.ts:196-254 | `buildComprehension` returns 0, 1 or 2; codes 1 and 2 leave the record untouched; 1 exactly for a function other than map, filter, reverse, slice, tail, take, first/head, last and tap; 2 exactly for map/filter once a range or count is set and for slice/tail once a range is set |
| Chaining.RunGoals | src/chaining.ts:275-284 | the goal settings call at most one callback each, and without goal settings the element passes unchanged |
| Chaining.EffCount | src/chaining.ts:262-264 | without a range the count is used as set, and a non-zero count is never replaced by the range length |
| Chaining.EffCountAgain | src/chaining.ts:262-264 | writing the effective count back into the record does not change it |
| Chaining.ExecSpecOf | src/chaining.ts:296-299 | `execComprehension` returns the single target when `returnEl` is set and exactly one was collected, else the array of targets |
| Chaining.Comprehension.constructor | src/chaining.ts:180-194 | `createComprehension` gives the fresh record, with the link built into it when one is given |
| Chaining.Comprehension.Build | src/chaining.ts:196-254 | building a link in place updates the record and returns the code as `buildComprehension` specifies |
| Chaining.Comprehension.Exec | src/chaining.ts:256-300 | running the record returns its targets (or single element) and iteratee calls, and the only field it changes is the stored effective count |
| Chaining.Traverse | src/chaining.ts:265-299 | the single forward or backward traversal returns what `execComprehension` specifies |
| Chaining.FuncJS.constructor | src/chaining.ts:35-38 | a new wrapper holds the value and an empty chain |
| Chaining.FuncJS.Push | src/chaining.ts:167-173 | a chained method appends one link, keeps the wrapped value and returns the same object |
| Chaining.FuncJS.Value | src/chaining.ts:52-83 | `value()`'s reduce over the chain computes the specified value, interceptor calls and iteratee calls |
| Chaining.LinkRecord | src/chaining.ts:59-76 | one reduce step with a record open: build the link in, run the record on code 1 or 2 or at the last link, open a new record on code 2, apply an unknown link to a truthy result |
| Chaining.LinkPlain | src/chaining.ts:77-81 | one reduce step without a record: the link runs eagerly, and after `split`, `toArray` or `range` a fresh record is opened |
| Chaining.FireRecord | src/chaining.ts:61-68 | the record runs exactly when the code is positive or the link is the last one with code 0, and then returns what `execComprehension` returns on the built record |
| Chaining.Wrap | src/chaining.ts:314-317 | `chain(v)` (and `_`) returns a wrapper unchanged and wraps anything else in a new wrapper with an empty chain |
| Chaining.GoalsIgnoreKey | src/chaining.ts:275-284 | goal settings whose callbacks ignore the key give the same result for every key |
| Chaining.SurvivorsReversed | src/chaining.ts:213-216 | running the goal settings over the values walked from the right gives the survivors reversed, which is why `reverse` before a range only flips the direction |
| Chaining.SurvivorsSnocMap | src/chaining.ts:203-211 | appending a `map` goal setting maps the values that pass the earlier ones |
| Chaining.SurvivorsSnocFilter | src/chaining.ts:203-211 | appending a `filter` goal setting filters the values that pass the earlier ones |
| Chaining.MapKeyFree | src/collection.ts:682-693 | `map` of an iteratee that ignores keys, over an array, applies it to each value |
| Chaining.FilterKeyFree | src/collection.ts:389-404 | `filter` of a predicate that ignores keys, over an array, keeps the values it accepts |
| Chaining.FreshFusing | src/chaining.ts:180-189 | the fresh record is in the shape the fusion theorem covers |
| Chaining.TakeOfTake | src/chaining.ts:230-234 | `take(m)` then `take(n)` keeps `min(m, n)` values, which is why `take` only lowers the count |
| Chaining.StepDenote | src/chaining.ts:196-254 | a fusible link is built in with code 0 and the new record stands for the library function applied to what the old record stood for |
| Chaining.RunDenote | src/chaining.ts:196-254 | a fusible run of links builds a record that stands for running the links eagerly |
| Chaining.CollectFold | src/chaining.ts:272-295 | the traversal's targets are the collection of the values that pass the goal settings |
| Chaining.ArrangeSnoc | src/chaining.ts:290-294 | each kept value is unshifted when the `reverse` flag is set and pushed otherwise |
| Chaining.CollectNoRange | src/chaining.ts:286-294 | without a range the traversal keeps the first `count` values that pass (all of them without a count) |
| Chaining.CollectRange | src/chaining.ts:286-294 | with a range `[lo, hi]` the traversal keeps the passing values from position `lo` up to `hi` and up to `lo + count` |
| Chaining.CollectSkip | src/chaining.ts:286 | a passing value before the range start is counted and skipped |
| Chaining.CollectTake | src/chaining.ts:286-294 | a passing value in the range, below its end and the count, is kept |
| Chaining.CollectRangeStop | src/chaining.ts:287-288 | past the range end, or with `count` values kept, the traversal stops with the window it has |
| Chaining.CollectWindow | src/chaining.ts:262-295 | the traversal keeps exactly the range-then-count window of the passing values, reversed under the `reverse` flag |
| Chaining.WindowRange | src/chaining.ts:262-288 | with a range, the window runs from the range start to the end the range and count allow |
| Chaining.TraversalTargets | src/chaining.ts:271-295 | the targets are the traversal order's values through the goal settings, then the window, arranged by the `reverse` flag |
| Chaining.TraversalCollect | src/chaining.ts:271-295 | for any record with key-free goals the targets are what the collection keeps of the values walked in the record's direction |
| Chaining.ExecTargets | src/chaining.ts:256-300 | the record returns its single target under `returnEl`, else the arranged targets |
| Chaining.ExecDenote | src/chaining.ts:256-300 | running a fusible record on an array-like value gives what the record stands for |
| Chaining.ExecIsEager | src/chaining.ts:256-300 | running the record of a fusible run gives what running its links eagerly gives |
| Chaining.RunSafe | src/chaining.ts:57-76 | with a fusible run the reduce only builds links in until the last link, which runs the record once |
| Chaining.FusedIsEager | src/chaining.ts:52-83 | shortcut fusion is sound on key-free map/filter/reverse, then at most one non-negative slice or a tail, then positive takes: `value()` equals the eager chain |
| Chaining.RunSafePrefix | src/chaining.ts:59-76 | links of a fusible run that are not the last of the chain only build the record |
| Chaining.ReopenAfterClose | src/chaining.ts:62-71 | a link that closes a fusible run with code 2 continues as a new chain on the run's eager result |
| Chaining.LinkCloses | src/chaining.ts:62-74 | a closing link (code 2) runs the record, keeps a truthy result and opens a fresh record with the link built in |
| Chaining.LinkOpens | src/chaining.ts:59-75 | on the record opened for an array-like value, map, filter, slice and tail only build themselves in |
| Chaining.NotArrayLikeIsEager | src/chaining.ts:53-81 | a value that is not array-like opens no record, so without `split`, `toArray` or `range` links `value()` is the eager chain, interceptor and iteratee calls included |
| Chaining.NoRecordIsEager | src/chaining.ts:77-81 | with no record open and no opening link, the reduce is the eager chain |
| Chaining.TakeNeverCloses | src/chaining.ts:230-234 | `take` is always built in (code 0) and sets the count to the smaller of the old and new counts |
| Chaining.CloseThenEager | src/chaining.ts:62-81 | after a link the record does not know (code 1) no record is open and the next non-opening link runs eagerly |
| Chaining.EmptyChain | src/chaining.ts:57-82 | `value()` of an empty chain is the wrapped value, with no calls |
| Chaining.OneLink | src/chaining.ts:57-76 | a one-link chain on an array-like value runs the record and keeps its result when truthy, applying an unknown link to it |
| Chaining.TwoLinks | src/chaining.ts:57-76 | a two-link chain whose first link is built in runs the record once, at the second link, and only the record's own interceptor fires |
| ChainingExamples.FusedThenOther | src/chaining.ts:62-74 | a fusible run followed by a link the record does not know runs the record once and applies the link to its array, as the eager chain does |
| ChainingExamples.ExecArray | src/chaining.ts:296-299 | without `returnEl` the record always returns an array |
| ChainingExamples.LastLinkUnknown | src/chaining.ts:62-75 | an unknown last link runs the record and is applied to its result when that is truthy |
| ChainingExamples.OtherCloses | src/chaining.ts:250-251 | a function the record does not know is never built in |
| ChainingExamples.JoinExample | src/chaining.ts:43-44 | `_([1,2,3,4]).map(v=>v+1).filter(v=>v%2===0).take(2).join('-').value()` is '2-4' |
| ChainingExamples.CallCountExample | src/chaining.ts:116-133 | the documented `range(n)` chain gives `[n-2, n-4, n-6]` with 18 callback calls fused, where the eager chain calls them `2n` times |
| ChainingExamples.TraversalExample | src/chaining.ts:272-295 | the documented example's traversal from the right stops after nine elements and 18 calls |
| ChainingExamples.OnlyLastTapFires | src/chaining.ts:247-249 | only the last `tap` recorded in a record fires, once, with the record's result, where the eager chain calls every interceptor |
| ChainingExamples.KeysAreOriginal | src/chaining.ts:272-284 | callbacks in a record receive keys of the wrapped array: `filter(v=>v>5).map((v,k)=>k)` on [5,6,7] gives [1,2], not [0,1] |
| ChainingExamples.StopElementCalled | src/chaining.ts:275-288 | the callbacks also run on the element that stops the traversal: `map(f).take(1)` calls `f` twice |
| ChainingExamples.FirstOfEmpty | src/chaining.ts:296-299 | `first` of an empty array is `[]` in a chain, where `first([])` is undefined |
| ChainingFixed.ExecFixed | src/chaining.ts:296-299 | the corrected `execComprehension`: with `returnEl`, the single target or undefined (ChainingFixed.ExecFixedDenote) |
| ChainingFixed.Close | src/chaining.ts:62-68 | running a record on the accumulated value and dropping it (ChainingFixed.CloseGivesEager) |
| ChainingFixed.Apply | src/chaining.ts:77-81 | a link run eagerly, opening a record after `split`, `toArray` or `range` on an array (ChainingFixed.ApplyAgrees) |
| ChainingFixed.LinkFixed | src/chaining.ts:57-81 | the corrected step of the reduce (ChainingFixed.LinkFixedAgrees) |
| ChainingFixed.RunFixed | src/chaining.ts:57-82 | the corrected reduce (ChainingFixed.RunFixedAgrees) |
| ChainingFixed.ValueFixed | src/chaining.ts:52-83 | the corrected `value()`, equal to the eager chain on plain links (ChainingFixed.FixedIsEager) |
| ChainingFixed.DenoteFixed | src/chaining.ts:296-299 | what a corrected record stands for: the array of survivors, or the first one with `returnEl` (ChainingFixed.BuildFixedDenote) |
| ChainingFixed.BuildFixed | src/chaining.ts:196-254 | the corrected builder returns 0, 1 or 2, leaves the record on codes 1 and 2, closes only a bounded record, and agrees with `buildComprehension` wherever it builds a link other than `last` |
| ChainingFixed.ExecFixedDenote | src/chaining.ts:256-300 | running a corrected record on an array gives what it stands for |
| ChainingFixed.BuildFixedDenote | src/chaining.ts:196-254 | a plain link the corrected builder builds in makes the record stand for the link's result |
| ChainingFixed.BuildFixedFirst | src/chaining.ts:235-241 | the corrected `first` record stands for the first element |
| ChainingFixed.BuildFixedLast | src/chaining.ts:242-246 | the corrected `last` record, which flips the direction, stands for the last element |
| ChainingFixed.HeadOfReversed | src/chaining.ts:242-246 | the first of the values reversed is their last |
| ChainingFixed.FreshStandsForItself | src/chaining.ts:180-189 | the fresh record stands for the array it is opened on |
| ChainingFixed.LinkFixedAgrees | src/chaining.ts:57-82 | each plain link keeps the corrected reduce in agreement with the eager chain, and the last link returns the eager value |
| ChainingFixed.LinkBuiltAgrees | src/chaining.ts:59-75 | a link built into the corrected record keeps the agreement |
| ChainingFixed.LinkClosedAgrees | src/chaining.ts:62-74 | a link that closes the corrected record keeps the agreement |
| ChainingFixed.CloseGivesEager | src/chaining.ts:62-68 | closing the record leaves no record and the eager value so far |
| ChainingFixed.ApplyAgrees | src/chaining.ts:77-81 | a link run eagerly with no record open agrees with the eager chain |
| ChainingFixed.ReopenAgrees | src/chaining.ts:69-71 | the record a closing link opens on an array stands for the link's result |
| ChainingFixed.RunFixedAgrees | src/chaining.ts:57-82 | the corrected reduce over plain links ends in the eager value |
| ChainingFixed.FixedIsEager | src/chaining.ts:52-83 | the corrected `value()` equals the eager chain for every wrapped value and every chain of key-free links without `tap` |
| ChainingFixed.TakeThenReverse | src/chaining.ts:213-219 | `take(n).reverse()` keeps the last `n` elements reversed, not the first `n` reversed |
| ChainingFixed.TakeThenSlice | src/chaining.ts:220-224 | `take(n).slice(b)` keeps `n` elements from `b` on, not the elements of the first `n` from `b` on |
| ChainingFixed.SliceNegative | src/chaining.ts:286-287 | `slice(b)` with a negative `b` keeps every element, where `slice(b)` keeps the last `-b` |
| ChainingFixed.ReverseThenLast | src/chaining.ts:242-246 | `reverse().last()` gives the original last element, not the first |
| ChainingFixed.TakeOneThenFirst | src/chaining.ts:235-241 | `take(1).first()` gives a one-element array, not the element |
| ChainingFixed.TakeThenMap | src/chaining.ts:69-73 | a closing `map` as the last link is dropped: `take(n).map(f)` gives the first `n` elements unmapped |
| ChainingFixed.FirstFalsy | src/chaining.ts:72-75 | `first()` of an array whose first element is falsy gives the whole array |
| ChainingFixed.StringExploded | src/chaining.ts:53-55 | a non-empty wrapped string opens a record, so an unknown link receives its characters as an array |
| ChainingFixed.SliceThenTakeZero | src/chaining.ts:262-264 | `slice(0, e).take(0)` gives the first `e` elements: a count of 0 is replaced by the range length |
| ChainingFixed.FixedOne | src/chaining.ts:52-83 | the corrected chain of one plain link is that link run eagerly |
| ChainingFixed.FixedTwo | src/chaining.ts:52-83 | the corrected chain of two plain links is the links run in turn |
| ChainingFixed.TakeThenReverseExample | src/chaining.ts:213-219 | `_([1,2,3]).take(2).reverse()` is [3,2] as written and [2,1] corrected |
| ChainingFixed.TakeThenSliceExample | src/chaining.ts:220-224 | `_([1,2,3]).take(2).slice(1)` is [2,3] as written |
| ChainingFixed.TakeThenSliceFixedExample | src/chaining.ts:220-224 | `_([1,2,3]).take(2).slice(1)` is [2] corrected |
| ChainingFixed.SliceNegativeExample | src/chaining.ts:286-287 | `_([1,2,3]).slice(-1)` is [1,2,3] as written and [3] corrected |
| ChainingFixed.ReverseThenLastExample | src/chaining.ts:242-246 | `_([1,2,3]).reverse().last()` is 3 as written and 1 corrected |
| ChainingFixed.TakeOneThenFirstExample | src/chaining.ts:235-241 | `_([1,2,3]).take(1).first()` is [1] as written |
| ChainingFixed.TakeOneThenFirstFixedExample | src/chaining.ts:235-241 | `_([1,2,3]).take(1).first()` is 1 corrected |
| ChainingFixed.TakeThenMapExample | src/chaining.ts:69-73 | `_([1,2,3]).take(2).map(v => v*10)` is [1,2] as written and [10,20] corrected |
| ChainingFixed.FirstFalsyExample | src/chaining.ts:72-75 | `_([0,1,2]).first()` is [0,1,2] as written and 0 corrected |
| ChainingFixed.StringExplodedExample | src/chaining.ts:53-55 | `_('ab')` then an unknown link passes ['a','b'] as written and 'ab' corrected |
| ChainingFixed.SliceThenTakeZeroExample | src/chaining.ts:262-264 | `_([1,2,3]).slice(0,2).take(0)` is [1,2] as written and [] corrected |
| Coll.Fold | src/collection.ts:81-94 | the closure state a traversal leaves: every entry in turn, stopping right after a call that returns exactly false (Coll.EachIterator and Coll.StopIndex state it) |
| Coll.Visited | src/collection.ts:81-94 | the entries the callback is called on: all of them up to and including the first that returns false (Coll.TraceFold states it) |
| Coll.HasOwnLength | src/collection.ts:62-63 | `isDefined(collection.length)`: an own `length` that is not undefined, which `size` returns before it counts anything |
| Coll.Count | src/collection.ts:64-66 | the count `size` falls back on is the number of entries a traversal visits |
| Coll.EveryStep | src/collection.ts:277-283 | the closure of `every`: on a falsy predicate result it clears the flag and returns false (Coll.EveryFold states its effect) |
| Coll.Every | src/collection.ts:269-285 | `every(collection, predicate)`: the flag left by a traversal with the every-closure (Coll.EveryAll states what it means) |
| Coll.AllTruthy | src/collection.ts:269-285 | the reference for `every`: the predicate is truthy on every entry |
| Coll.SomeStep | src/collection.ts:336-342 | the closure of `some`: on a truthy predicate result it sets the flag and returns false (Coll.SomeFold states its effect) |
| Coll.SomeArg | src/collection.ts:335 | `predicate or (() => true)`: a falsy predicate value is replaced by the constant true |
| Coll.SomeOf | src/collection.ts:328-344 | `some(collection, predicate)`: the flag left by a traversal with the some-closure (Coll.SomeAny states what it means) |
| Coll.AnyTruthy | src/collection.ts:328-344 | the reference for `some`: the predicate is truthy on some entry |
| Coll.SelectStep | src/collection.ts:397-402 | the closure of `filter` and `reject`: push the value when the predicate's truthiness is the one kept (Coll.SelectFold states its effect) |
| Coll.PartitionStep | src/collection.ts:505-513 | the closure of `partition`: push the value onto the first or second list by the predicate's truthiness (Coll.PartitionFold) |
| Coll.Filter | src/collection.ts:389-404 | `filter(collection, predicate)`: the values whose predicate is truthy (Coll.PartitionIsFilterReject and Coll.SelectSound state it) |
| Coll.Reject | src/collection.ts:436-451 | `reject(collection, predicate)`: the values whose predicate is falsy (Coll.PartitionIsFilterReject) |
| Coll.Partition | src/collection.ts:496-514 | `partition(collection, predicate)`: `[matched, mismatched]` (Coll.PartitionIsFilterReject and Coll.SelectSplits) |
| Coll.Select | src/collection.ts:389-514 | the reference for filter and reject: the values, in traversal order, whose predicate truthiness is the one kept |
| Coll.FindStep | src/collection.ts:567-573 | the closure of `find` and `findLast`: keep the first value the predicate accepts and return false (Coll.FindFold) |
| Coll.Find | src/collection.ts:559-575 | `find(collection, predicate)`: the first accepted value in traversal order, or undefined (Coll.FindFirstAndLast) |
| Coll.FindLast | src/collection.ts:620-636 | `findLast(collection, predicate)`: `find` over the backward traversal (Coll.FindFirstAndLast) |
| Coll.MapStep | src/collection.ts:688-691 | the closure of `map`: push the iteratee's result for the entry (Coll.MapFold) |
| Coll.Map | src/collection.ts:682-693 | `map(collection, iteratee)`: one result per entry (Coll.MapEach states it) |
| Coll.StrIncludes | src/collection.ts:806-807 | `s.includes(t, position)`: `t` occurs at or after the position clamped into the string |
| Coll.IncludesStep | src/collection.ts:812-817 | the closure of `includes`: set the flag and stop at the first entry `eq` to the value (Coll.IncludesFold) |
| Coll.Searched | src/collection.ts:803-819 | what `includes` searches: a string as text, an array from fromIndex on, any other collection whole |
| Coll.Includes | src/collection.ts:803-819 | `includes(collection, value, fromIndex)` (Coll.IncludesMeaning states it) |
| Coll.ReduceStep | src/collection.ts:855-862 | the closure of `reduce`: take the first value as the accumulator when there is none yet, else call the callback (Coll.ReduceFold) |
| Coll.Reduce | src/collection.ts:843-865 | `reduce(collection, callback, initialValue)` (Coll.ReduceMeaning states it) |
| Coll.FoldLeft | src/collection.ts:843-865 | the reference for `reduce`: the left fold of the callback with an accumulator |
| Coll.ItemCompare | src/collection.ts:997-999 | the sort callback: keys that are not `eq` compare by rank, `eq` keys by original position (Coll.CompareIsBefore) |
| Coll.Before | src/collection.ts:997-999 | one item goes before another: a smaller key rank, or the same rank and an earlier position |
| Coll.SizeBelowOne | src/collection.ts:982 | `size(collection) < 1`, with the size converted to a number as the language's `<` does |
| Coll.SortBy | src/collection.ts:978-1002 | `sortBy(collection, iteratee)`: the values sorted stably by key (Coll.SortByStable states it) |
| Coll.KeyFor | src/collection.ts:1139 | the property key an element is filed under: the iteratee called with the element alone, as a string |
| Coll.Bump | src/collection.ts:1140-1142 | `stat[key]` set to 0 when undefined and then incremented (Coll.BumpIs) |
| Coll.CountStep | src/collection.ts:1138-1143 | the closure of `countBy`: bump the element's key (Coll.CountNext) |
| Coll.KeyArg | src/collection.ts:1137 | the falsy-iteratee default of `countBy`, `groupBy` and `keyBy`: identity |
| Coll.CountBy | src/collection.ts:1132-1145 | `countBy(collection, iteratee)` (Coll.CountBySums states it) |
| Coll.CountKey | src/collection.ts:1132-1145 | the reference for `countBy`: how many elements are filed under a key |
| Coll.GroupStep | src/collection.ts:1174-1179 | the closure of `groupBy`: append the element to its key's group, creating it when missing (Coll.GroupNext) |
| Coll.GroupBy | src/collection.ts:1168-1181 | `groupBy(collection, iteratee)` (Coll.GroupByOrder states it) |
| Coll.Group | src/collection.ts:1168-1181 | the reference for `groupBy`: the elements filed under a key, in traversal order |
| Coll.KeyByStep | src/collection.ts:1218-1221 | the closure of `keyBy`: store the element under its key, overwriting (Coll.KeyByLast) |
| Coll.KeyBy | src/collection.ts:1212-1223 | `keyBy(collection, iteratee)` (Coll.KeyByLastWins states it) |
| Coll.LastWithKey | src/collection.ts:1212-1223 | the reference for `keyBy`: the last element filed under a key |
| Coll.Order | src/collection.ts:70-152 | the traversal order has one entry per element of the collection |
| Coll.EachIterator | src/collection.ts:70-152 | the loops over lists, Sets, Maps and objects leave exactly the state of a traversal that stops right after the first callback returning exactly false |
| Coll.StopIndex | src/collection.ts:81-94 | the stop point is the first entry whose callback returns exactly false; every earlier callback returned something else |
| Coll.TraceFold | src/collection.ts:81-94 | a recording callback sees exactly the visited entries, in order |
| Coll.Each | src/collection.ts:185-190 | `each` calls the callback on the entries in ascending order, up to and including the first call returning false |
| Coll.EachRight | src/collection.ts:221-226 | `eachRight` calls the callback on the entries in descending order, up to and including the first call returning false |
| Coll.EachArrayOrder | src/collection.ts:81-94 | on an array `each` visits index i at step i and continues only past non-false results, stopping exactly after a false; `eachRight` visits n-1-i at step i |
| Coll.Size | src/collection.ts:60-67 | 0 for null and undefined; a defined own `length` as it is (so `size({length: 3})` is 3); otherwise the number of entries: characters, elements, Set and Map members, own keys |
| Coll.SizeIsEntries | src/collection.ts:60-67 | without an own `length`, size is the number of entries a traversal visits; `{length: 3}` has size 3 but one entry |
| Coll.EveryAll | src/collection.ts:269-285 | `every` holds exactly when the predicate is truthy on every entry, so `every([])` is true |
| Coll.EveryFold | src/collection.ts:275-283 | the every-callback keeps the flag true exactly while every entry is truthy |
| Coll.EveryStopsEarly | src/collection.ts:277-283 | `every` calls the predicate on the entries up to and including the first falsy one, and no further |
| Coll.FirstFalsy | src/collection.ts:278-281 | the first entry on which the predicate is falsy, with all earlier ones truthy |
| Coll.SomeAny | src/collection.ts:328-344 | `some` holds exactly when the predicate is truthy on some entry; `some([])` is false and with no predicate it means non-empty |
| Coll.SomeFold | src/collection.ts:334-342 | the some-callback sets the flag exactly when some entry is truthy |
| Coll.SelectFold | src/collection.ts:389-404 | the filter/reject callback appends exactly the entries whose predicate truthiness matches, in traversal order |
| Coll.PartitionFold | src/collection.ts:496-514 | the partition callback appends the accepted entries to the first list and the rest to the second, in order |
| Coll.PartitionIsFilterReject | src/collection.ts:389-514 | filter keeps the truthy entries, reject the falsy ones, and partition is exactly [filter, reject] |
| Coll.SelectSplits | src/collection.ts:496-514 | together the two halves of a partition are a permutation of the values |
| Coll.SelectSound | src/collection.ts:389-404 | every value a filter or reject keeps comes from an entry with the matching predicate result |
| Coll.ValuesOf | src/collection.ts:888-904 | the values of the entries in order |
| Coll.FilterOddExample | test/cases.collection.ts:20-40 | partition([1,2,3,4,5], odd) is [[1,3,5],[2,4]] |
| Coll.FirstMatch | src/collection.ts:559-575 | the first entry the predicate accepts, with no earlier one accepted, or none when nothing is accepted |
| Coll.LastMatch | src/collection.ts:620-636 | the last entry the predicate accepts, with no later one accepted, or none when nothing is accepted |
| Coll.FindFold | src/collection.ts:564-572 | the find-callback leaves the first matching value, or the initial undefined |
| Coll.FindLastFold | src/collection.ts:625-633 | the backward find-callback leaves the last matching value |
| Coll.FindFirstAndLast | src/collection.ts:559-636 | `find` returns the first match in forward order and `findLast` the last one; both return undefined when nothing matches |
| Coll.MapFold | src/collection.ts:682-693 | the map callback appends one result per entry, in traversal order |
| Coll.MapEach | src/collection.ts:682-693 | `map` has one result per entry, the iteratee applied to that entry's value and key |
| Coll.ToArray | src/collection.ts:888-904 | arrays and Sets give their elements, strings their characters, Maps and objects their values, anything else a one-element array |
| Coll.ToArrayIsValues | src/collection.ts:888-904 | for a collection `toArray` lists the values a traversal visits |
| Coll.IncludesFold | src/collection.ts:803-819 | the includes-callback finds a value exactly when some entry is `eq` to it |
| Coll.IncludesMeaning | src/collection.ts:803-819 | on an array `includes` searches the slice from fromIndex with `eq`; on Sets, Maps and objects it searches every value |
| Coll.IncludesExample | test/cases.collection.ts:79-84 | includes([1,2,3], 2) holds and includes([1,2,3], '2') does not |
| Coll.IncludesFromExample | test/cases.collection.ts:83 | includes([1,2,3], 1, 1) does not hold: the search starts at fromIndex |
| Coll.ReduceFold | src/collection.ts:843-865 | once the accumulator is seeded the reduce callback is a left fold |
| Coll.ReduceMeaning | src/collection.ts:843-865 | with an initial value reduce folds every entry; without one it uses the first element as the accumulator and never calls the callback on it; an empty collection gives undefined |
| Coll.ReduceSumExample | test/cases.collection.ts:85-88 | summing [1,3,5,7,9] gives 25, and 35 with seed 10 |
| Coll.CompareIsBefore | src/collection.ts:997-999 | the comparator falls back to the original index exactly when the keys are `eq` |
| Coll.Insert | src/collection.ts:978-1002 | one insertion-sort step adds exactly one item |
| Coll.InsertionSort | src/collection.ts:978-1002 | the sort permutes its input |
| Coll.InsertSorted | src/collection.ts:978-1002 | inserting into a sorted list keeps it sorted by key, then index |
| Coll.Items | src/collection.ts:983-994 | each element is paired with its original index and its iteratee key |
| Coll.SortSorted | src/collection.ts:978-1002 | the sort output is ordered by key rank, then original index |
| Coll.SortByStable | src/collection.ts:978-1002 | sortBy returns a permutation of the elements ordered by key, and elements with equal keys keep their original relative order (index tie-break) |
| Coll.SortProject | src/collection.ts:996-1001 | the projected sort output is a permutation of the projected input |
| Coll.CountTableProp | src/collection.ts:1136-1143 | a count table holds a positive number or nothing under each key |
| Coll.BumpIs | src/collection.ts:1140-1142 | `stat[key]` starts at 0 when undefined and is incremented by one |
| Coll.CountNext | src/collection.ts:1138-1143 | counting one element raises the total by one and only its key's count by one |
| Coll.CountFold | src/collection.ts:1138-1143 | the counting traversal adds the number of elements to the total and to each key's count the number of elements filed there |
| Coll.CountBySums | src/collection.ts:1132-1145 | countBy counts are positive, add up to the number of elements, and each count is the number of elements filed under that key |
| Coll.GroupTableProp | src/collection.ts:1168-1181 | a group table holds a non-empty array or nothing under each key |
| Coll.GroupNext | src/collection.ts:1174-1179 | grouping one element appends it to its own key's group only |
| Coll.GroupFold | src/collection.ts:1174-1179 | the grouping traversal appends each element to its key's group in traversal order |
| Coll.GroupByOrder | src/collection.ts:1168-1181 | groupBy puts under each key exactly the elements filed there, in traversal (insertion) order, and no key without elements |
| Coll.KeyByFold | src/collection.ts:1217-1221 | after the keying traversal each key holds the last element filed under it |
| Coll.KeyByLast | src/collection.ts:1217-1221 | one more element overwrites its own key |
| Coll.KeyByLastWins | src/collection.ts:1212-1223 | keyBy keeps, for each key, the last element filed under it, and no key without elements |
| Arrays.Slice | src/array.ts:131-133 | `slice(array, begin, end)`: `toArray(array).slice(begin or 0, end)` (Arrays.SliceMeaning states it) |
| Arrays.Take | src/array.ts:494-497 | `take(array, length)`: the slice from 0 to the length (Arrays.TakeMeaning states it) |
| Arrays.TakeRight | src/array.ts:513-517 | `takeRight(array, length)` as written: the slice from `len - (length or len)` to `len` (Arrays.TakeRightMeaning and Arrays.TakeRightOverlong) |
| Arrays.Tail | src/array.ts:459-462 | `tail(array)`: everything but the first element (Arrays.HeadTailInitialLast) |
| Arrays.Initial | src/array.ts:475-479 | `initial(array)`: a copy with its last element popped (Arrays.HeadTailInitialLast) |
| Arrays.Reverse | src/array.ts:435-438 | `reverse(array)`: a reversed copy of `toArray(array)` (Arrays.ReverseReverse) |
| Arrays.FlatSeq | src/array.ts:154-158 | the reduce of `flat`: arrays are flattened `depth` more levels, other values kept |
| Arrays.Flat | src/array.ts:152-161 | `flat(array, depth)`: a copy when the depth is below 1, else the reduce (Arrays.FlatKeepsLeaves and Arrays.FlatDeepIsLeaves) |
| Arrays.Leaves | src/array.ts:175-177 | the reference for `flatDeep`: the non-array values inside an array, in order |
| Arrays.Height | src/array.ts:175-177 | how deeply arrays nest, the depth past which `flat` is `flatDeep` (Arrays.FlatDeepIsLeaves) |
| Arrays.FindIndexStep | src/array.ts:605-611 | the closure of `findIndex`: at the first match record `k + fromIndex` and stop (Arrays.FindIndexFold) |
| Arrays.FindIndex | src/array.ts:595-613 | `findIndex(array, predicate, fromIndex)` (Arrays.FindIndexMeaning states it) |
| Arrays.FindLastStep | src/array.ts:645-651 | the closure of `findLastIndex`: at the first match from the right record `k` and stop (Arrays.FindLastFoldIndex) |
| Arrays.SizeEnd | src/array.ts:643-645 | the end `size(array) - 1 + 1` of the slice as a position: the size converted to a number and truncated, 0 for NaN |
| Arrays.FindLastIndex | src/array.ts:632-653 | `findLastIndex(array, predicate, fromIndex)` (Arrays.FindLastIndexMeaning states it) |
| Arrays.RangeInt | src/array.ts:552-558 | a numeric bound of `range` after `>> 0` |
| Arrays.RangeBounds | src/array.ts:547-560 | the bounds `range` derives from its arguments; non-numbers leave both at 0 (Arrays.RangeOfNonNumbers) |
| Arrays.Steps | src/array.ts:562-572 | the integers from one bound toward the other in unit steps, the second excluded (Arrays.StepsMeaning) |
| Arrays.Times | src/utils.ts:219-221 | `times(n, f)`: `range(n)` mapped by `f` (Arrays.TimesMeaning) |
| Arrays.MapKey | src/array.ts:38 | the key under which a `Map` or `Set` stores a value: -0 as +0 (Arrays.MapKeySameValueZero) |
| Arrays.FirstPerKey | src/array.ts:36-39 | the reference for `uniq` and `uniqBy`: the elements whose key no earlier element has, in order (Arrays.FirstPerKeyKeeps) |
| Arrays.Uniq | src/array.ts:36-39 | `uniq(array)`: the values of `new Set(toArray(array))` (Arrays.UniqMeaning) |
| Arrays.UniqCallback | src/array.ts:60 | the iteratee of `uniqBy`: `iteratee(itee or identity)` |
| Arrays.SetArgs | src/array.ts:319-326 | the parameter split of `union`, `except` and `intersect`: a trailing function is the identifier, only array-likes are kept (Arrays.ArrayLikes) |
| Arrays.IdOf | src/array.ts:332 | the `Map` key of a value's id: the identifier's result, or the value itself |
| Arrays.KvGet | src/array.ts:333 | `kvMap.get(id)`: the value stored under the id, undefined when there is none |
| Arrays.KvSet | src/array.ts:334 | `kvMap.set(id, v)`: an existing id keeps its place and takes the new value, a new id goes last, and nothing else changes |
| Arrays.KvSetKeys | src/array.ts:334 | setting an id keeps the id order: a present id stays, a new one goes last |
| Arrays.KvGetAt | src/array.ts:333 | with distinct ids, `get` of the id at a position reads that position's value |
| Arrays.UnionTable | src/array.ts:330-336 | the `forEach` of `union` with an identifier: a value is stored under its id unless the id holds a truthy value (Arrays.UnionTableValue) |
| Arrays.KeptFor | src/array.ts:330-336 | the value `union` keeps for an id: the first truthy one with that id or, when all are falsy, the last one |
| Arrays.UnionTableValue | src/array.ts:330-336 | the table holds nothing under an id that does not occur, and under one that occurs the first truthy value with that id, or the last value when all are falsy |
| Arrays.UnionTableKeys | src/array.ts:330-336 | the table holds the distinct ids in the order they first occur |
| Arrays.Union | src/array.ts:318-342 | `union(...arrays[, identifier])`: the values of the id table, or of a `Set` of the flattened arrays (Arrays.UnionMeaning) |
| Arrays.UnionFirst | src/array.ts:297-317 | the union the documentation describes: the first value of every id |
| Arrays.UnionFirstMeaning | src/array.ts:297-317 | the documented union keeps exactly the first value of every id, in first-occurrence order |
| Arrays.UnionTableTruthy | src/array.ts:330-336 | when every value is truthy the table keeps the first value of every id |
| Arrays.UnionAgreesOnTruthy | src/array.ts:318-342 | the written and the documented union agree whenever no value is falsy |
| Arrays.UnionFalsyExample | src/array.ts:333-335 | `union([0], [1], v => 'k')` is `[1]`, where the documented union gives `[0]`: a falsy stored value is overwritten |
| Arrays.Counted | src/array.ts:289-294 | the collecting pass of `except` and `intersect`: the values whose count is below or equal to the number of lists, in table order (Arrays.CountedMeaning) |
| Arrays.ExceptStep | src/array.ts:276-286 | one element of `except`'s inner loop: a new id gets an entry with count 0, an id the current array has not counted yet is counted |
| Arrays.ExceptPass | src/array.ts:273-287 | the inner loop of `except` over one array |
| Arrays.ExceptTable | src/array.ts:272-288 | the table after the outer loop of `except` |
| Arrays.ExceptSpec | src/array.ts:257-296 | what `except` returns, the specification Arrays.Except meets (Arrays.ExceptMeaning) |
| Arrays.InSome | src/array.ts:257-296 | an id occurs in some list |
| Arrays.InAll | src/array.ts:369-423 | an id occurs in every list |
| Arrays.Len | src/array.ts:384 | `a.length` of an array-like argument |
| Arrays.InsertBy | src/array.ts:384 | one step of a stable sort by key: insert before the first element whose key is at least as large |
| Arrays.SeedStep | src/array.ts:389-395 | one step of `intersect`'s first loop over the shortest array: a new id gets an entry counted once |
| Arrays.SeedFrom | src/array.ts:388-396 | the table after that loop has run from the end of the array down to an index |
| Arrays.IntersectStep | src/array.ts:402-412 | one element of a later loop: an id of the table the current array has not counted yet is counted, other ids ignored |
| Arrays.IntersectPass | src/array.ts:401-413 | a full pass of the inner loop over one array, without the early break |
| Arrays.ItemLists | src/array.ts:397-398 | the elements of each array-like argument |
| Arrays.IntersectRest | src/array.ts:397-414 | the table after the passes over the later arrays |
| Arrays.IntersectTable | src/array.ts:384-414 | the table of `intersect`: the shortest array's ids, counted once per array holding them (Arrays.IntersectTableMeaning) |
| Arrays.IntersectSpec | src/array.ts:369-423 | what `intersect` returns, the specification Arrays.Intersect meets (Arrays.IntersectMeaning) |
| Arrays.First | src/array.ts:97-99 | `first` is the first element of the array form of the collection, undefined when it is empty |
| Arrays.Last | src/array.ts:111-114 | `last` is the final element of the array form, undefined when it is empty |
| Arrays.SliceMeaning | src/array.ts:131-133 | `slice(c, b, e)` is the segment between the two relative indices (negative ones count from the end, both clamped), empty when they cross; the one-argument form is the suffix from `b` |
| Arrays.SliceSplit | src/array.ts:131-133 | slicing before and from the same index and concatenating gives the whole array back |
| Arrays.TakeMeaning | src/array.ts:494-497 | `take(c, n)` is the prefix of length `n` clamped to the length, the whole array without `n`, and drops `-n` elements from the end for a negative `n` |
| Arrays.TakeTake | src/array.ts:494-497 | taking `n` of the first `m` is taking `min(m, n)` |
| Arrays.TakeRightMeaning | src/array.ts:513-517 | `takeRight(c, n)` is the whole array for a missing or zero `n`, the last `n` elements for `0 < n <= length`, and empty for a negative `n` |
| Arrays.TakeRightOverlong | src/array.ts:513-517 | as written, `takeRight([1,2,3,4,5], 7)` gives `[4,5]`, not the whole array |
| Arrays.TakeRightClamped | src/array.ts:513-517 | the intended `takeRight`: the last `min(n, length)` elements for positive `n`, the whole array for a missing or zero `n`, empty for negative `n` |
| Arrays.TakeRightAgrees | src/array.ts:513-517 | the written and the intended `takeRight` agree whenever `n` is at most the length or at least twice it |
| Arrays.HeadTailInitialLast | src/array.ts:447-479 | `[head] + tail` and `initial + [last]` both rebuild a non-empty array; `tail` and `initial` of an empty one are empty and always have the same length |
| Arrays.ReverseReverse | src/array.ts:435-438 | reversing twice gives the array form back, and reversal swaps `first` and `last` |
| Arrays.FlatKeepsLeaves | src/array.ts:152-161 | `flat` at any depth keeps the same non-array leaves in the same order |
| Arrays.FlatDeepIsLeaves | src/array.ts:152-161 | `flat` at a depth at least the nesting height gives exactly the leaves |
| Arrays.FlatExample | src/array.ts:142-161 | `flat([1,[2,3],[4,5,[6,7]]])` is `[1,2,3,4,5,[6,7]]` |
| Arrays.FindIndexFold | src/array.ts:595-613 | the `findIndex` fold gives the first matching entry's index offset by the start, or -1 |
| Arrays.FindIndexOn | src/array.ts:595-613 | the result over the searched slice is -1 with no match, or the index of a match with none before it |
| Arrays.FindIndexMeaning | src/array.ts:595-613 | `findIndex(c, p, from)` is -1 when nothing from `from` on matches, else the first index at or after `from` whose element satisfies the iteratee (called with the offset from `from`) |
| Arrays.FindLastFoldIndex | src/array.ts:632-653 | the reversed `findLastIndex` fold gives the last matching index, or -1 |
| Arrays.FindLastIndexOn | src/array.ts:632-653 | over the searched prefix the result is -1 with no match, or a match with none after it |
| Arrays.FindLastIndexMeaning | src/array.ts:632-653 | `findLastIndex(c, p, from)` is the last index up to `from` whose element matches, or -1 when none does |
| Arrays.StepsMeaning | src/array.ts:558-572 | the stepping loops give `abs(b - a)` numbers running from `a` toward `b` in unit steps |
| Arrays.Range | src/array.ts:546-575 | the `range` loop builds exactly the unit-step sequence between the truncated bounds |
| Arrays.RangeForms | src/array.ts:546-575 | `range(n)` is `0, ±1, …` of length `abs(n)`, and `range(a, b)` counts from `a` toward `b` excluding `b` |
| Arrays.RangeOfNonNumbers | src/array.ts:546-557 | a non-number bound leaves both bounds at 0, so the result is empty |
| Arrays.TimesMeaning | src/utils.ts:219-221 | `times(n, f)` has `n` elements, the i-th being `f(i, i)` |
| Arrays.MapKeySameValueZero | src/array.ts:36-39 | two values share a `Set`/`Map` key exactly when they are SameValueZero-equal |
| Arrays.FirstPerKeyKeeps | src/array.ts:56-70 | keeping the first element per key keeps every first occurrence and nothing else |
| Arrays.FirstPerKeyDistinct | src/array.ts:36-39 | the kept keys are pairwise distinct and are exactly the keys that occur |
| Arrays.UniqMeaning | src/array.ts:36-39 | `uniq` has no two SameValueZero-equal elements, and every element of the input has an equal one in the result and vice versa |
| Arrays.UniqBy | src/array.ts:56-70 | the `uniqBy` loop keeps the first element for each iteratee key |
| Arrays.UniqByMeaning | src/array.ts:56-70 | `uniqBy` keeps exactly the elements whose key has not been seen earlier |
| Arrays.ArrayLikes | src/array.ts:267 | the filtered parameter list holds only array-likes |
| Arrays.UnionMeaning | src/array.ts:318-342 | `union` gives, per comparator id in first-seen order, the value the as-written `!kvMap.get(id)` test keeps: the first truthy value with that id, or the last one when none is truthy |
| Arrays.UnionExample | src/array.ts:305-342 | `union([1,2,3], ['1','2'])` is `[1,2,3,'1','2']` |
| Arrays.CountedMeaning | src/array.ts:288-294 | the collecting pass keeps exactly the values whose count is below (except) or equal to (intersect) the number of lists |
| Arrays.ListsWithMeaning | src/array.ts:271-287 | the per-id count of lists is positive exactly when the id occurs in some list and equals the number of lists exactly when it occurs in all |
| Arrays.Collect | src/array.ts:288-294 | the collecting loop computes that selection in table order |
| Arrays.Except | src/array.ts:257-296 | the `except` loops compute the counting-table specification |
| Arrays.ExceptMeaning | src/array.ts:257-296 | every value `except` returns has an id present in some list but not all, and every such id is represented in the result |
| Arrays.SortBy | src/array.ts:382 | the length sort is a permutation and ordered by the key |
| Arrays.SortByLength | src/array.ts:382 | the lists sorted by length are a permutation of the input with non-decreasing lengths |
| Arrays.IntersectSeed | src/array.ts:385-394 | the seeding loop over the shortest list (walked backwards) builds a table of distinct ids each counted once, and `idLength` is its size |
| Arrays.IntersectCount | src/array.ts:395-412 | one counting pass, its early break included, gives the table the full pass gives, with the same ids |
| Arrays.IntersectCounts | src/array.ts:385-412 | the seeding and counting loops compute the intersect table |
| Arrays.Intersect | src/array.ts:369-423 | the `intersect` method computes its specification |
| Arrays.CountsMeaning | src/array.ts:385-412 | in the finished table an id's count equals the number of lists exactly when it occurs in every list, and every id of the shortest list is present |
| Arrays.IntersectTableMeaning | src/array.ts:380-412 | the same after sorting by length: count equals list number iff the id is in all lists, and every such id is in the table |
| Arrays.IntersectMeaning | src/array.ts:369-423 | every value `intersect` returns has an id found in all lists, and every id found in all lists is represented |
| Arrays.IntersectReversesOrder | src/array.ts:385-423 | `intersect([1,2],[1,2])` is `[2,1]`: the backward seeding reverses the order |
| ArrayEdits.Inserted | src/array.ts:679-681 | the items `splice(index, 0, ...values)` leaves, with the index clamped (ArrayEdits.InsertedMeaning states it) |
| ArrayEdits.JsArray.constructor | src/array.ts:679 | an array object holding the given items |
| ArrayEdits.OneOf | src/array.ts:798 | the predicate of `pull`: `includes(values, item)` (ArrayEdits.PullMeaning) |
| ArrayEdits.Popped | src/array.ts:820-836 | what `pop` leaves and returns: the element at a positive index, or the last one for a falsy index (ArrayEdits.PopLast and ArrayEdits.PopIndex) |
| ArrayEdits.PoppedFixed | src/array.ts:808-821 | `pop` with the documented default `index ?? -1` (ArrayEdits.PopAtFixed) |
| ArrayEdits.InsertAt | src/array.ts:678-683 | the splice position is the index clamped to `[0, length]`, 0 for anything not a positive number |
| ArrayEdits.InsertedMeaning | src/array.ts:678-683 | `insert` puts the values at that position, keeps the elements before it and shifts the rest; removing the values gives the original back |
| ArrayEdits.InsertEnds | src/array.ts:678-683 | inserting at the length appends, inserting at a non-positive index prepends |
| ArrayEdits.JsArray.Insert | src/array.ts:678-683 | `insert` changes the array in place to the inserted sequence and returns the same array |
| ArrayEdits.JsArray.Append | src/array.ts:709-713 | `append` pushes the values in place and returns the same array |
| ArrayEdits.JsArray.Remove | src/array.ts:739-762 | `remove` returns the elements matching the predicate and leaves the array holding the rest |
| ArrayEdits.JsArray.Pull | src/array.ts:797-800 | `pull` leaves in place exactly the elements not `eq` to any given value |
| ArrayEdits.JsArray.Pop | src/array.ts:820-836 | `pop` returns the popped value and leaves the remaining items |
| ArrayEdits.InsertCopy | src/array.ts:678-683 | `insert` on a non-array builds a fresh array holding the inserted sequence |
| ArrayEdits.AppendCopy | src/array.ts:709-713 | `append` on a non-array builds a fresh array of its elements plus the values |
| ArrayEdits.RemoveSplits | src/array.ts:739-762 | removed and kept elements together are a permutation of the array; each removed one matched and each kept one did not |
| ArrayEdits.PullMeaning | src/array.ts:797-800 | an element stays after `pull` exactly when it is not `eq` to any given value |
| ArrayEdits.PopAt | src/array.ts:820-836 | a falsy index pops the last element |
| ArrayEdits.PopLast | src/array.ts:820-836 | a falsy index or one up to -1 removes and returns the last element, and gives undefined on an empty array |
| ArrayEdits.PopIndex | src/array.ts:820-836 | `pop(a, i)` for `i >= 1` removes and returns the element at `i`, or returns null and changes nothing past the end |
| ArrayEdits.PopUndoesInsert | src/array.ts:709-836 | `pop` undoes `append` of one value, and `pop(a, i)` undoes `insert(a, i, v)` for `1 <= i <= length` |
| ArrayEdits.PopStringZero | src/array.ts:820-836 | `pop(a, '0')` removes the first element while `pop(a, 0)` removes the last |
| ArrayEdits.PopAtFixed | src/array.ts:808-820 | with `index ?? -1`, only a missing index pops the last, and a non-negative number pops at that index |
| ArrayEdits.PopFixedUndoesInsert | src/array.ts:808-836 | with the corrected default `pop(a, i)` undoes `insert(a, i, v)` for every `i` up to the length, 0 included |
| ArrayGroups.ChunkSize | src/array.ts:853 | `(size or 1) >> 0`: a falsy size is 1, anything else goes through ToInt32 |
| ArrayGroups.Chunks | src/array.ts:855-859 | the chunks the `forEach` pushes, one at every index that is a multiple of the size (ArrayGroups.ChunkMeaning) |
| ArrayGroups.ChunksFrom | src/array.ts:851-861 | the reference for `chunk`: consecutive slices of the size, the last one shorter (ArrayGroups.ChunksFromMeaning) |
| ArrayGroups.Cell | src/array.ts:877-891 | row r, column k of the transposition built so far by `zip` |
| ArrayGroups.ValueAt | src/array.ts:965 | `get(values, i)` |
| ArrayGroups.KeyStrings | src/array.ts:964-965 | the property names `rs[k]` converts the keys to |
| ArrayGroups.ZipProps | src/array.ts:963-966 | the properties `zipObject` writes: each name once, at its first place, with its last value (ArrayGroups.ZipObjectKeys) |
| ArrayGroups.ZipObject | src/array.ts:959-969 | `zipObject(keys, values)` (ArrayGroups.ZipObjectOfArray) |
| ArrayGroups.StrLess | src/array.ts:1014 | code-unit order on strings, as `<` compares two strings |
| ArrayGroups.JsLess | src/array.ts:1014 | `a < b`: two strings by code units, anything else as numbers, NaN below and above nothing |
| ArrayGroups.IsLowerBound | src/array.ts:1002-1022 | where a value goes in a sorted array: everything before compares below it, nothing after (ArrayGroups.LowerBoundAt) |
| ArrayGroups.KeyFn | src/array.ts:1010-1011 | what `sortedIndexBy` compares of each element: the callback called with it alone |
| ArrayGroups.Chunk | src/array.ts:851-861 | the `chunk` method computes the chunk sequence for the converted size |
| ArrayGroups.ChunkArray | src/array.ts:851-861 | the loop over the array computes the chunk sequence |
| ArrayGroups.ChunksFromMeaning | src/array.ts:851-861 | the chunks concatenate back to the array, all but the last have the size, and the last has between 1 and size elements |
| ArrayGroups.ChunkMeaning | src/array.ts:851-861 | for a size of at least one `chunk` partitions the array into size-long pieces with a shorter non-empty tail |
| ArrayGroups.ChunkOfZeroSize | src/array.ts:851-861 | a size below one gives no chunks |
| ArrayGroups.ChunkExample | src/array.ts:844-861 | `chunk([1,2,3,4], 3)` is `[[1,2,3],[4]]` |
| ArrayGroups.MaxLen | src/array.ts:877-891 | the longest length bounds all lists and is attained, 0 for none |
| ArrayGroups.Transposed | src/array.ts:877-891 | the transposition has one row per position up to the longest list, each as wide as the number of lists |
| ArrayGroups.Zip | src/array.ts:877-891 | the `zip` loops build the transposition, padding short lists with undefined |
| ArrayGroups.Unzip | src/array.ts:932-946 | the `unzip` loops build the same transposition of the groups |
| ArrayGroups.ZipPads | src/array.ts:869-891 | `zip([1,2],['a','b','c'])` is `[[1,'a'],[2,'b'],[undefined,'c']]` |
| ArrayGroups.UnzipZip | src/array.ts:877-946 | `unzip(zip(rows))` gives rows of equal length back |
| ArrayGroups.ZipObjectKeys | src/array.ts:959-969 | `zipObject` has one property per distinct key, and a key's last occurrence decides its value (the value at that index, undefined past the end) |
| ArrayGroups.ZipObjectExample | src/array.ts:952-969 | `zipObject(['a','b'], [1,2,3])` is `{a:1, b:2}` |
| ArrayGroups.ZipObjectOfArray | src/array.ts:959-969 | with distinct keys each key maps to the value at its index, undefined past the end |
| ArrayGroups.ToPrimitive | src/array.ts:1002-1022 | the key conversion `<` applies never yields an object |
| ArrayGroups.SortedIndexBy | src/array.ts:1002-1022 | the binary search returns an index up to the length, and on an array partitioned by the key it is the lower bound: every element before it is smaller, none from it on is |
| ArrayGroups.LowerBoundAt | src/array.ts:1002-1022 | an element lies before the lower bound exactly when its key is smaller |
| ArrayGroups.LowerBoundUnique | src/array.ts:1002-1022 | the lower bound is unique |
| ArrayGroups.SortedStringsPartitioned | src/array.ts:1002-1022 | an array sorted by string keys is partitioned at every value, so the search result is the insertion point |
| ArrayGroups.SortedIndexExample | src/array.ts:977-1022 | `sortedIndex(['a','c'], 'b')` is 1 |
| Trees.ChildIn | src/tree.ts:210-216 | a node is among the nodes of another node's non-empty child container |
| Trees.Aborts | src/tree.ts:207 | `rs === false`: the callback aborts the loop |
| Trees.Skips | src/tree.ts:208 | `rs === -1`: the node's descendants are skipped |
| Trees.WalkVal | src/tree.ts:189-225 | `_walkTree` as written, or with the abort passed up: the state after the walk and whether this call stopped on `false` (Trees.WalkLevel and Trees.WalkFixedMeaning) |
| Trees.WalkNodes | src/tree.ts:204-224 | the `for` loop over the nodes of one call |
| Trees.WalkNode | src/tree.ts:205-223 | one iteration of the loop: the callback on the node, then its subtree |
| Trees.Visits | src/tree.ts:189-225 | the reference for the walk: the visits in preorder, children after their node unless it answered -1 (Trees.WalkVisitsAll) |
| Trees.FoldVisits | src/tree.ts:189-225 | the state after handing the visits one by one to a state update |
| Trees.Decided | src/tree.ts:343-353 | a callback whose answer depends on the visit alone: the shape of every callback the tree functions pass to the walker |
| Trees.Preorder | src/tree.ts:178-188 | the full preorder listing of a walk from the top |
| Trees.Hit | src/tree.ts:346-347 | the searches call `iteratee(predicate)` with the node alone and test its truthiness |
| Trees.KeepHit | src/tree.ts:345-351 | the callback of `findTreeNode` on its `node` variable: a hit is stored |
| Trees.StopAtHit | src/tree.ts:349 | the same callback answers `false` on a hit and undefined otherwise |
| Trees.FindVisitor | src/tree.ts:343-353 | the visitor `findTreeNode` hands the walker (Trees.FindTreeNode) |
| Trees.PushHit | src/tree.ts:409-414 | the callback of `findTreeNodes`: push each hit, answer undefined (Trees.FoldHits) |
| Trees.Gather | src/tree.ts:475-485 | the callback of `filterTree`: on a hit, the chain's nodes not yet collected, then the node (Trees.GatherHits and Trees.GatherOnly) |
| Trees.DetachProps | src/tree.ts:489-491 | the properties of the copy `cloneWith` makes: the same keys, null under the children key |
| Trees.Gathered | src/tree.ts:473-487 | the nodes `filterTree` collects from the visits |
| Trees.SortLevel | src/tree.ts:279-290 | one call of `sortTree`: the level sorted, then each node's non-empty children sorted by the nested call under the key it looks at |
| Trees.SortBelow | src/tree.ts:287-289 | `if (!isEmpty(node[key])) sortTree(node[key], comparator)` |
| Trees.SortTreeAsWritten | src/tree.ts:271-291 | `sortTree` as written: the nested call gets no options, so deeper levels are looked for under 'children' (Trees.ExampleSortAsWritten) |
| Trees.SortTree | src/tree.ts:271-291 | `sortTree` with the options passed down (Trees.SortTreeSorted) |
| Trees.SortedAt | src/tree.ts:271-291 | every level in comparator order: the nodes of a call and the non-empty children below each |
| Trees.ChildrenKey | src/tree.ts:203 | the children key is the given one, or 'children' when it is empty |
| Trees.Field | src/tree.ts:207-215 | reading a node's field gives the stored value, a part of the node, or undefined |
| Trees.NodesOf | src/tree.ts:205 | a call works on the array it is given, or on a one-node array |
| Trees.NextChain | src/tree.ts:211-214 | the chain passed down ends with the node; it extends the current chain only below a parent |
| Trees.WalkLevel | src/tree.ts:189-225 | the `_walkTree` loop, with its recursion, computes the walk as written and always returns undefined |
| Trees.WalkTree | src/tree.ts:178-188 | `walkTree` computes the walk as written from the top level, with the default children key |
| Trees.TakeThrough | src/tree.ts:189-225 | the visits up to and including the first abort are a prefix of all visits |
| Trees.FoldAppend | src/tree.ts:189-225 | processing two runs of visits in turn is processing their concatenation |
| Trees.WalkFixedMeaning | src/tree.ts:189-225 | with the abort passed up, the walk processes exactly the preorder visits up to and including the first callback that returns `false`, and reports whether one did |
| Trees.WalkAgreesAtTop | src/tree.ts:189-225 | when only top-level callbacks return `false`, the walk as written and the corrected walk agree |
| Trees.ChainMeaning | src/tree.ts:207-215 | every visit's chain is a path of nodes from the top level down to its parent |
| Trees.NoDecision | src/tree.ts:189-225 | the callback that returns nothing neither aborts nor skips |
| Trees.WalkVisitsAll | src/tree.ts:189-225 | when no callback returns `false` or -1, the walk processes every node in preorder |
| Trees.FirstHit | src/tree.ts:336-355 | the first node in visit order the predicate accepts, or undefined when none does |
| Trees.FoldFirstHit | src/tree.ts:336-355 | the search callback folded over the visits up to the first hit gives that first hit |
| Trees.FindTreeNode | src/tree.ts:336-355 | `findTreeNode` as written returns a node the predicate accepts whenever the preorder listing holds one, and undefined when it holds none |
| Trees.WalkFinds | src/tree.ts:189-225 | below any node, the walk with the find visitor ends on a hit when the listing there has one, and otherwise leaves the stored node alone and does not abort |
| Trees.WalkHoldsHit | src/tree.ts:189-225 | once the stored node is a hit, the rest of the walk keeps a hit in it |
| Trees.AnyHitAppend | src/tree.ts:189-225 | a concatenated listing holds a hit exactly when one of its parts does |
| Trees.FindTreeNodeLaterUndef | src/tree.ts:336-355 | on `[a, undefined]` with `b` the only child of `a` and the predicate `node !== a`, the listing holds the hit `b` yet the walk as written ends holding the undefined entry, which the predicate also accepts |
| Trees.WalkKeeps | src/tree.ts:336-355 | the stored node is only ever undefined or a hit |
| Trees.FindTreeNodeFixed | src/tree.ts:336-355 | with the abort passed up, `findTreeNode` is the first node in preorder the predicate accepts |
| Trees.Hits | src/tree.ts:400-418 | the accepted nodes, in visit order: every one is accepted and every accepted node is among them |
| Trees.FoldHits | src/tree.ts:400-418 | the `findTreeNodes` callback appends exactly the hits |
| Trees.FindTreeNodes | src/tree.ts:400-418 | `findTreeNodes` returns every node the predicate accepts, in preorder |
| Trees.ExampleAsWritten | src/tree.ts:189-225 | on `[a{children:[b]}, c]` with a predicate accepting everything but `a`, `findTreeNode` as written returns `c`, not the first hit `b` |
| Trees.FindTreeNodeExample | src/tree.ts:336-355 | on `[a, c]` with `b` the only child of `a` and the predicate `node !== a`, the walk as written goes on past `b` and returns `c`; the corrected search returns `b` |
| Trees.AddMissing | src/tree.ts:480-486 | adding a chain keeps the nodes already collected first and adds each chain node not already present |
| Trees.Detach | src/tree.ts:488-492 | a collected node has its children key set to null and every other property kept |
| Trees.FilterTree | src/tree.ts:464-494 | `filterTree` returns the gathered nodes, each with its children detached |
| Trees.FilterTreeMeaning | src/tree.ts:464-494 | every accepted node is gathered after all its ancestors, and every gathered node is an accepted node or an ancestor of one |
| Trees.SortNodes | src/tree.ts:280 | a level's sort is a permutation in comparator order |
| Trees.PutField | src/tree.ts:286-290 | writing the sorted children stores them under the key |
| Trees.SortTreeSorted | src/tree.ts:271-291 | with the options passed down and a comparator that ignores children, every level of the tree ends up in comparator order |
| Trees.SortTreeExample | src/tree.ts:271-291 | with the children key 'items', `sortTree` as written leaves `[{items:[{items:[p2,p1]}]}]` unchanged; the corrected one puts `p1` first |
| Trees.ExampleSortAsWritten | src/tree.ts:286-290 | as written, the nested call looks under 'children', so the second level is not sorted |
| Trees.ExampleSortFixed | src/tree.ts:271-291 | with the key passed down the second level is sorted |
| Trees.Ancestry | src/tree.ts:504-521 | the ancestors start at the node, each following its parent through the parent key, all truthy, ending where the parent is falsy |
| Trees.ClosestFrom | src/tree.ts:504-521 | the result is the first ancestor the predicate accepts before one that stops the search, or null when there is none |
| Trees.Closest | src/tree.ts:504-521 | the `closest` loop computes that ancestor |
| TreeBuild.KeyOr | src/tree.ts:78-82 | `k or default`: a missing or empty key option falls back to its default |
| TreeBuild.JsLessEq | src/tree.ts:120-123 | `a <= b`: two strings by code units, anything else as numbers, NaN at most nothing |
| TreeBuild.AttrOf | src/tree.ts:99 | an attribute-map entry `each` hands the callback, as keys |
| TreeBuild.CopyAttr | src/tree.ts:99 | `record[k] = record[v]` for one entry |
| TreeBuild.CopyStep | src/tree.ts:99 | the `each` callback: it copies, and its value is the copied value |
| TreeBuild.AttrMapAsWritten | src/tree.ts:98-100 | the attribute map as written: `each` stops right after a copied value that is `false` (TreeBuild.AttrMapAgrees and TreeBuild.AttrMapExample) |
| TreeBuild.AttrMap | src/tree.ts:98-100 | the attribute map copying every entry, in order (TreeBuild.AttrMapCopies) |
| TreeBuild.NoFalseCopy | src/tree.ts:99 | no copy hands `each` the value `false` |
| TreeBuild.IdOf | src/tree.ts:90 | the key a record is filed under in `nodeMap`: its id as a property name |
| TreeBuild.NodeMap | src/tree.ts:89-91 | `nodeMap` after the first records: each id key to the position of the last record with that id (TreeBuild.NodeMapMeaning) |
| TreeBuild.IsRoot | src/tree.ts:97 | `record[pk] === rootParentValue` |
| TreeBuild.RootsOf | src/tree.ts:97-102 | the roots in input order: the records whose parent field is the root parent value |
| TreeBuild.SortInit | src/tree.ts:92-95 | `sortMap` after the first pass: `[sortNo, sortNo]` of the record filed under each id |
| TreeBuild.FirstUpTo | src/tree.ts:89-103 | the state of the first `forEach` after its first records |
| TreeBuild.ParentOf | src/tree.ts:106-108 | the parent of a record: the position filed in `nodeMap` under its parent key, if any |
| TreeBuild.ChildrenOf | src/tree.ts:105-134 | the children of a record, in input order (TreeBuild.ChildrenMeaning) |
| TreeBuild.SortNum | src/tree.ts:119 | the number under the sort key, 0 when there is none |
| TreeBuild.InOrder | src/tree.ts:116-129 | the listed records carry non-decreasing numbers under the sort key |
| TreeBuild.Bounded | src/tree.ts:116-129 | a children list with its `[min, max]` entry: numbers, `min <= max`, the list in order within them |
| TreeBuild.ListOf | src/tree.ts:109-112 | a children list that is absent reads as empty |
| TreeBuild.KidsUpTo | src/tree.ts:105-134 | the children lists after the first records of the second pass: each holds the records among them whose parent it is |
| TreeBuild.SecondInv | src/tree.ts:105-134 | what the second `forEach` keeps: the records mapped so far, each list holding its children, bounded for a numeric key |
| TreeBuild.SortRoots | src/tree.ts:136 | `sortBy(roots, sortKey)` by position: the roots sorted as items (TreeBuild.SortRootsMeaning) |
| TreeBuild.OptsOf | src/tree.ts:67-84 | the options `arrayToTree` reads: id key, parent key, root parent value, attribute-map entries, children key, sort key |
| TreeBuild.Built | src/tree.ts:65-137 | what the built tree satisfies: roots, children lists in input order or ascending under a numeric sort key |
| TreeBuild.NumCompare | src/tree.ts:117-123 | `<=` and `<` on numbers are the integer orderings |
| TreeBuild.PlainSortKey | src/tree.ts:122 | for a key without dots or brackets the sort iteratee reads the property |
| TreeBuild.Attrs | src/tree.ts:96-98 | the attribute map is read as `(target, source)` pairs in order |
| TreeBuild.AttrMapCopies | src/tree.ts:96-98 | copying attributes sets each target to its source's value and leaves other keys |
| TreeBuild.AttrMapAgrees | src/tree.ts:96-98 | the copy as written agrees with the full copy as long as no copied value is `false` |
| TreeBuild.AttrMapExample | src/tree.ts:96-98 | as written, `{open:'expanded', text:'name'}` on `{expanded:false, name:'a'}` never sets `text`, because the copy returning `false` stops `each` |
| TreeBuild.AttrMapExampleCopies | src/tree.ts:96-98 | with every entry copied, `text` gets 'a' |
| TreeBuild.Ids | src/tree.ts:88-89 | one id key per record |
| TreeBuild.NodeMapMeaning | src/tree.ts:88-89 | `nodeMap` holds exactly the ids seen, each mapped to the last record with that id |
| TreeBuild.NodeMapInjective | src/tree.ts:88-89 | distinct ids map to distinct records |
| TreeBuild.WhereMeaning | src/tree.ts:95-100 | the positions kept are exactly the flagged ones, increasing |
| TreeBuild.RootFlags | src/tree.ts:95 | one root flag per record |
| TreeBuild.Mapped | src/tree.ts:98-100 | mapping attributes, with the copy as written, keeps one record per record |
| TreeBuild.SortNos | src/tree.ts:90-93 | one sort number per record |
| TreeBuild.FirstUpToAll | src/tree.ts:89-103 | the first pass over all records gives the roots mapped by the as-written attribute copy, the node map, the initial sort bounds and the roots in order |
| TreeBuild.FirstVisit | src/tree.ts:89-103 | one iteration of the first pass performs one step, mapping a root with the as-written copy |
| TreeBuild.FirstPass | src/tree.ts:89-103 | the first `forEach` builds the node map, the sort bounds `[n, n]`, the roots whose parent value is the root value, and maps the roots' attributes as written |
| TreeBuild.ChildrenMeaning | src/tree.ts:103-134 | a parent's children are exactly the records whose parent id maps to it, in record order |
| TreeBuild.InsertBounded | src/tree.ts:125-127 | inserting at the `sortedIndexBy` position keeps the children in order within the bounds |
| TreeBuild.Place | src/tree.ts:116-131 | placing a record adds it once to its parent's children, and keeps them ordered and within the bounds when the sort values are numbers |
| TreeBuild.SecondVisit | src/tree.ts:105-134 | one iteration of the second pass keeps its invariant, mapping a child with the as-written copy |
| TreeBuild.SecondPass | src/tree.ts:105-134 | the second `forEach` maps non-root attributes as written and gives each parent exactly its children, in record order without a sort key and in sort order with numeric sort values |
| TreeBuild.RootVals | src/tree.ts:136 | one value per root |
| TreeBuild.SortRootsMeaning | src/tree.ts:136 | the roots sorted by the sort key are a permutation of the roots in `sortBy` order |
| TreeBuild.RecordsOf | src/tree.ts:65-137 | one record per array item |
| TreeBuild.NumericStart | src/tree.ts:90-93 | numeric sort values give numeric initial bounds |
| TreeBuild.BuildTree | src/tree.ts:65-137 | the two passes, with the as-written attribute copy, and the root sort build the tree |
| TreeBuild.ArrayToTree | src/tree.ts:65-137 | `arrayToTree` of a non-array is empty; of an array it gives the roots (sorted by the sort key when given), each parent's children and the records mapped by the as-written attribute copy |
| TreeBuild.FirstLoop | src/tree.ts:89-103 | the loop over the records computes the record-by-record state of the first `forEach`, with the as-written attribute copy |
| TreeBuild.SecondLoop | src/tree.ts:105-134 | the loop over the records reaches the second `forEach`'s invariant at the end: parents, children lists, sort order and the as-written attribute copy |
| ObjectFilters.PredicateOr | src/object.ts:451 | `predicate or identity`: an absent predicate keeps the truthy values |
| ObjectFilters.FilterStep | src/object.ts:450-454 | the closure of `pickBy` and `omitBy`: write `rs[k] = v` when the predicate's truthiness is the one kept (ObjectFilters.FilterFold) |
| ObjectFilters.PickBy | src/object.ts:445-456 | `pickBy(obj, predicate)` (ObjectFilters.PickByOmitBy) |
| ObjectFilters.OmitBy | src/object.ts:494-505 | `omitBy(obj, predicate)` (ObjectFilters.PickByOmitBy) |
| ObjectFilters.Kept | src/object.ts:445-505 | the reference for both: the entries, as properties and in order, whose predicate truthiness is the one kept |
| ObjectFilters.AmongKeys | src/object.ts:429-431 | the predicate `(v, k) => includes(keys, k)` (ObjectFilters.AmongKeysMeaning) |
| ObjectFilters.Pick | src/object.ts:424-432 | `pick(obj, ...props)`: `pickBy` with the keys of `flatDeep(props)` (ObjectFilters.PickOmitNamed) |
| ObjectFilters.Omit | src/object.ts:473-481 | `omit(obj, ...props)`: `omitBy` with the same predicate (ObjectFilters.PickOmitNamed) |
| ObjectFilters.Named | src/object.ts:424-481 | the reference for both: the properties whose name is, or is not, among the names |
| ObjectFilters.FindKeyStep | src/object.ts:874-880 | the closure of `findKey`: at the first match store the key and stop (ObjectFilters.FindKeyFold) |
| ObjectFilters.FindKey | src/object.ts:866-882 | `findKey(object, predicate)` (ObjectFilters.FindKeyMeaning) |
| ObjectFilters.AsProps | src/object.ts:445-456 | the result object's properties are the entries with their keys converted to property names, in order |
| ObjectFilters.FilterFold | src/object.ts:445-456 | over entries with distinct keys, the `pickBy`/`omitBy` loop appends exactly the kept entries |
| ObjectFilters.KeptSplits | src/object.ts:445-505 | the entries `pickBy` keeps and those `omitBy` keeps together are a permutation of all entries |
| ObjectFilters.ObjectKeysDistinct | src/object.ts:445-456 | an object's entries have distinct keys and convert back to its properties |
| ObjectFilters.PickByOmitBy | src/object.ts:445-505 | `pickBy` keeps exactly the entries the predicate accepts, `omitBy` exactly the others, and together they are a permutation of the object |
| ObjectFilters.AmongKeysMeaning | src/object.ts:424-432 | the `pick`/`omit` predicate accepts a property exactly when its name is among the given keys |
| ObjectFilters.KeptNamed | src/object.ts:424-481 | filtering by that predicate keeps exactly the named (or unnamed) properties in object order |
| ObjectFilters.PickOmitNamed | src/object.ts:424-481 | `pick` keeps the properties whose names occur in the flattened key list, `omit` the others, in object order |
| ObjectFilters.PickExample | src/object.ts:417-432 | `pick({a:1,b:2,c:'3'}, ['b','a'])` is `{a:1,b:2}` |
| ObjectFilters.FindKeyFold | src/object.ts:866-882 | the `findKey` loop gives the key of the first matching entry, or its start value |
| ObjectFilters.FindKeyMeaning | src/object.ts:866-882 | `findKey` is the key of the first entry the iteratee accepts, undefined when none does, and that key is paired with what `find` returns |
| Objects.KeyOf | src/object.ts:363 | the property name a value stands for when used as `o[k]` |
| Objects.Walk | src/object.ts:360-365 | the loop of `get`: follow the segments, stopping at the first falsy value (Objects.GetStopsAtFalsy) |
| Objects.GetSpec | src/object.ts:353-368 | `get(obj, path, defaultValue)`: the default for a non-object or an undefined end of the walk (Objects.Get meets it; Objects.SetThenGetSpec) |
| Objects.WriteAny | src/object.ts:399-401 | `target[seg] = v` where the target may be a primitive, which throws in strict mode |
| Objects.SetSegs | src/object.ts:394-405 | the loop of `set`: fill the slot while the next segment is truthy, write the value at the last one (Objects.SetThenGet) |
| Objects.Set | src/object.ts:386-407 | `set(obj, path, value)`: a non-object is returned as it is (Objects.SetThenGetSpec and Objects.SetOtherKeys) |
| Objects.Reaches | src/object.ts:394-405 | the path can be written and read back: non-empty segments through plain objects or canonically indexed arrays |
| Objects.CopyHandler | src/object.ts:51 | the handler of `assign`: the source value (Objects.AssignLastWins) |
| Objects.CheckTarget | src/object.ts:102-112 | `checkTarget` answers early exactly when the target is not an object: a new empty object for null or undefined, the wrapper object for any other primitive |
| Objects.PrimitiveTargetBoxed | src/object.ts:68-112 | `assignWith`, `defaults`, `defaultsDeep` and `mergeWith` return a primitive target's wrapper object without copying any source; `assign(1, {a:2})` is the Number object for 1 |
| Objects.AssignWithSpec | src/object.ts:68-112 | what `assignWith` returns: `checkTarget`'s early answer for a target that is not an object, else the target with every source copied in (Objects.AssignWith meets it) |
| Objects.LastHolder | src/object.ts:47-52 | the value of the last source holding a key, if any does (Objects.AssignLastWins) |
| Objects.DefaultsSpec | src/object.ts:710-723 | what `defaults` returns: `checkTarget`'s early answer for a target that is not an object, else the target filled source by source (Objects.Defaults meets it) |
| Objects.FirstDefined | src/object.ts:717-721 | the value `defaults` leaves under a key: the first defined one among the target's and the sources' (Objects.DefaultsFirstDefined) |
| Objects.DefaultsDeepSpec | src/object.ts:739-754 | what `defaultsDeep` returns: `checkTarget`'s early answer for a target that is not an object, else the target filled recursing into object slots (Objects.DefaultsDeep meets it) |
| Objects.NoopHandler | src/object.ts:783 | the handler of `merge`: `noop` |
| Objects.MergeWithSpec | src/object.ts:801-818 | what `mergeWith` returns: `checkTarget`'s early answer for a target that is not an object, else the target with every source walked in (Objects.MergeWith meets it) |
| Objects.MergedSlot | src/object.ts:828-836 | the slot `merge` fills for one source entry: the merged object for an object slot, else the source value (Objects.MergeKey) |
| Objects.PairsOf | src/object.ts:616-618 | `[k, v]` for every entry, as `toPairs` builds them, one pair per entry |
| Objects.ArrayLength | src/object.ts:386-407 | a value stored under an array's `length` sets a length below 2^32, and only when it is a whole number |
| Objects.Resized | src/object.ts:386-407 | an array given length `n` has `n` elements: the old ones below both lengths, undefined past the old end |
| Objects.SetLength | src/object.ts:386-407 | a length that is not a whole number below 2^32 leaves the elements as they are |
| Objects.WriteItems | src/object.ts:386-407 | on an array, a key that is neither an index nor `length` changes nothing |
| Objects.Write | src/object.ts:386-407 | a write keeps the target an object, on a plain object stores the value under the key, and keeps an array an array |
| Objects.WriteLength | src/object.ts:386-407 | writing a valid `length` to an array reads back as that length, keeps the elements below it and fills the rest with undefined |
| Objects.SetLengthExample | src/object.ts:386-407 | `set([1,2,3], 'length', 1)` is `[1]` |
| Objects.WriteRead | src/object.ts:386-407 | reading back a key just written to a plain object, or an index just written to an array (growing it when past the end), gives the value written |
| Objects.WriteOther | src/object.ts:386-407 | a write leaves every other key of a plain object unchanged |
| Objects.Get | src/object.ts:353-368 | the `get` loop computes the path walk: it stops at the first falsy value and gives the default when the result is undefined |
| Objects.GetOfNonObject | src/object.ts:353-368 | `get` on a primitive gives the default |
| Objects.GetStopsAtFalsy | src/object.ts:353-368 | a falsy intermediate value such as 0 or null is returned as is; a missing path gives the default |
| Objects.GetArrayIndex | src/object.ts:336-368 | `get([1,2,3], 1)` is 2 |
| Objects.GetNested | src/object.ts:338-368 | `get({a:{b:[{x:'Holyhigh'}]}}, ['a','b',0,'x'])` is 'Holyhigh' |
| Objects.Fresh | src/object.ts:396-400 | a missing container on the path is created as an object or an array |
| Objects.SetThenGet | src/object.ts:386-407 | on a path of existing objects `set` succeeds and reading the path back gives the value |
| Objects.SetKeepsObject | src/object.ts:386-407 | `set` on an object leaves an object |
| Objects.SetThenGetSpec | src/object.ts:353-407 | `get` after `set` on the same path gives the value set, or the default for undefined |
| Objects.SetOtherKeys | src/object.ts:386-407 | `set` leaves every top-level key other than the path's first segment unchanged |
| Objects.SetBeforeEmptySegment | src/object.ts:386-407 | an empty path segment ends the walk: the value is stored at the segment before it |
| Objects.SetThroughPrimitive | src/object.ts:386-407 | writing a property through a primitive on the path is a TypeError |
| Objects.SetCreatesContainers | src/object.ts:378-407 | `set({a:1}, 'b.c.1.x', 10)` creates the object and the array on the way |
| Objects.AssignEntries | src/object.ts:68-100 | assigning entries keeps the target an object |
| Objects.AssignSources | src/object.ts:114-137 | walking all sources keeps the target an object |
| Objects.AssignWith | src/object.ts:68-137 | the `assignWith` loops compute the source-by-source specification |
| Objects.AssignEntriesCopy | src/object.ts:47-52 | with the copying handler a key of the source takes the source's value, every other key keeps the target's |
| Objects.AssignLastWins | src/object.ts:47-52 | after `assign` a key holds the value of the last source that has it, else the target's value |
| Objects.AssignWithStoresHandler | src/object.ts:68-100 | a source key receives what the handler returns for its source value, target value and key |
| Objects.AssignEntriesOthers | src/object.ts:68-100 | keys not in the source are unchanged |
| Objects.AssignNilTarget | src/object.ts:102-112 | a null or undefined target becomes a new empty object |
| Objects.AssignWithExample | src/object.ts:61-100 | `assignWith({x:1}, {y:3,z:4}, handler)` is `{x:1, y:'3y', z:null}` |
| Objects.DefaultsEntries | src/object.ts:710-723 | filling defaults keeps the target an object |
| Objects.DefaultsSources | src/object.ts:710-723 | filling from every source keeps the target an object |
| Objects.Defaults | src/object.ts:710-723 | the `defaults` loops compute the source-by-source specification |
| Objects.DefaultsEntriesKey | src/object.ts:710-723 | a key is filled from the source only when the target's value is undefined |
| Objects.DefaultsFirstDefined | src/object.ts:710-723 | after `defaults` a key holds the target's value if defined, else the first defined value among the sources |
| Objects.FirstDefinedKeeps | src/object.ts:710-723 | a defined target value is never replaced |
| Objects.DefaultsExample | src/object.ts:703-723 | `defaults({a:1}, {b:2}, {c:3,b:1,a:2})` is `{a:1,b:2,c:3}` |
| Objects.DefaultsDeepFrom | src/object.ts:739-754 | deep defaults keep the target an object |
| Objects.DefaultsDeepSources | src/object.ts:739-754 | deep defaults over every source keep the target an object |
| Objects.DefaultsDeepOne | src/object.ts:739-754 | the recursive walk of one source computes the deep-defaults specification (what that is key by key: Objects.DefaultsDeepKey) |
| Objects.DefaultsDeep | src/object.ts:739-754 | the `defaultsDeep` loops compute their specification (what that is key by key: Objects.DefaultsDeepSourcesKey) |
| Objects.DeepSlot | src/object.ts:747-752 | the handler's slot: a defined value that is not an object is kept, and an object slot stays an object |
| Objects.DefaultsDeepKeyFrom | src/object.ts:739-754 | walking one source's entries from any position: a key among the remaining entries gets its slot filled as the handler says, every other key keeps the target's value |
| Objects.DefaultsDeepKey | src/object.ts:739-754 | one source, key by key: a key the source lacks is unchanged; under a key it holds, an undefined slot takes the source value, an object slot is filled recursively from the source value, and any other value is kept |
| Objects.DefaultsDeepSourcesKey | src/object.ts:739-754 | over all sources in order, each key ends with the slot filled by every source that holds it in turn |
| Objects.DeepFirstKeeps | src/object.ts:747-752 | a defined value that is not an object is never replaced by any later source |
| Objects.DeepFirstIsFirstDefined | src/object.ts:725-754 | without objects under a key, `defaultsDeep` leaves there what `defaults` leaves, the first defined value |
| Objects.DefaultsDeepExample | test/cases.object.ts:70-77 | `defaultsDeep({a:{x:1}}, {b:2}, {a:{x:3,y:2}}, {a:{z:3,x:4}})` is `{a:{x:1,y:2,z:3}, b:2}` |
| Objects.MergeFrom | src/object.ts:820-839 | merging a source keeps the target an object |
| Objects.MergeSources | src/object.ts:801-818 | merging every source keeps the target an object |
| Objects.WalkSource | src/object.ts:820-839 | the recursive source walk computes the merge specification |
| Objects.MergeWith | src/object.ts:801-818 | the `mergeWith` loop computes its specification |
| Objects.MergeKey | src/object.ts:779-784 | after `merge` a key the source lacks is unchanged; one it has is merged recursively into an object target value and overwritten otherwise |
| Objects.MergeKeyFrom | src/object.ts:820-839 | the same for the rest of a source from any position |
| Objects.MergeStoresHandler | src/object.ts:820-839 | a non-undefined handler result is stored as the key's value |
| Objects.GatherStep | src/object.ts:294-329 | each `toObject` argument keeps the result an object |
| Objects.GatherAll | src/object.ts:294-329 | gathering all arguments keeps the result an object |
| Objects.ApplyPairs | src/object.ts:318-327 | applying key/value pairs keeps the result an object |
| Objects.ToObjectSpec | src/object.ts:294-329 | `toObject` always gives an object |
| Objects.ToObject | src/object.ts:294-329 | the `toObject` loops compute its specification |
| Objects.ToObjectByGather | src/object.ts:318-327 | a pending key left at the end is paired with undefined |
| Objects.ToObjectExample | src/object.ts:283-329 | `toObject('a',1,'b',2,'c')` is `{a:1,b:2,c:undefined}` |
| Objects.ToObjectFalsyKey | src/object.ts:294-329 | a falsy argument in key position is skipped |
| Objects.ToObjectPairsLast | src/object.ts:294-329 | key/value pairs are applied after object arguments, so they win |
| Objects.ToObjectOfObject | src/object.ts:287-329 | `toObject` of one object copies it |
| Objects.CopyInto | src/object.ts:47-52 | copying an object's properties into an empty object rebuilds it |
| Objects.LibKeys | src/object.ts:522-527 | `keys` is empty for a primitive, the property names of an object in order, and the index strings of an array |
| Objects.Values | src/object.ts:570-572 | `values` has one value per key |
| Objects.ValuesInOrder | src/object.ts:570-572 | the i-th value is the i-th property's value, or the i-th array element |
| Objects.ToPairs | src/object.ts:616-618 | `toPairs` gives an array |
| Objects.FromPairsOf | src/object.ts:630-636 | adding pairs keeps the result an object |
| Objects.FromPairs | src/object.ts:630-636 | `fromPairs` gives an object |
| Objects.FromPairsRebuilds | src/object.ts:630-636 | adding the pairs of distinct properties appends them in order |
| Objects.FromPairsToPairs | src/object.ts:616-636 | `fromPairs(toPairs(o))` is `o` for an object with distinct keys |
| Paths.CloseAt | src/utils.ts:111 | the `[^\]]+` part of the bracket pattern: the first ']' of the text, or its end, with no ']' before it |
| Paths.SplitDots | src/utils.ts:113 | `s.split('.')` always yields at least one segment (Paths.SplitJoin and Paths.JoinSplit state the round trips) |
| Paths.PlainSegment | src/utils.ts:103-113 | a segment without '.', '[' or ']' that `toPath` passes through untouched (Paths.ToPathOfPlain) |
| Paths.ToPath | src/utils.ts:101-115 | the path is never empty: a split always yields at least one segment |
| Paths.ExpandBrackets | src/utils.ts:111 | a string without '[' passes the bracket rewrite unchanged |
| Paths.StripLeadingDot | src/utils.ts:112 | exactly one leading dot is removed, anything else is unchanged |
| Paths.SplitJoin | src/utils.ts:113 | joining the dot-split segments with '.' gives the string back |
| Paths.JoinSplit | src/utils.ts:103-113 | splitting the '.'-join of non-empty dot-free segments gives the segments back |
| Paths.ExpandOneGroup | src/utils.ts:111 | one `[inner]` group between bracket-free text becomes `.inner` |
| Paths.ToPathOfSegments | src/utils.ts:103-113 | an array of plain segments is its own path |
| Paths.ToPathOfPlain | src/utils.ts:105-113 | a plain key string is a one-segment path |
| Paths.ToPathOfNumber | src/utils.ts:105-113 | toPath(1) is ['1'] |
| Paths.ToPathOfBracketString | src/utils.ts:89-90 | toPath('a.b[2].c') is ['a','b','2','c'] |
| Paths.ToPathOfBracketArray | src/utils.ts:91-92 | toPath(['a','b','c[1]']) is ['a','b','c','1'] |
| Paths.ToPathStripsOneDot | src/utils.ts:112 | only one leading dot is stripped: toPath('..a') is ['','a'] |
| Utils.PropOf | src/object.ts:655-661 | `prop(path)`: the callback that reads `get(obj, path)` (Utils.IteratePropName) |
| Utils.MatcherOf | src/utils.ts:153-157 | `matcher(props)`: the callback `isMatch(obj, toObject(props))` (Utils.MatcherExample) |
| Utils.Iteratee | src/utils.ts:191-204 | `iteratee(value)`: the callable chosen by the kind of the argument (Utils.IterateeKinds states it) |
| Utils.IdGen.constructor | src/utils.ts:49 | the module-level `seed` counter starts at 0 |
| Utils.Identity | src/utils.ts:83-85 | identity returns its argument |
| Utils.Noop | src/utils.ts:62-64 | noop returns undefined |
| Utils.DefaultTo | src/utils.ts:130-133 | the default is returned exactly for null, undefined and NaN, and the value otherwise |
| Utils.DefaultToKeepsFalsy | src/utils.ts:119-123 | defaultTo(null,d) and defaultTo(NaN,d) are d; 0, -0, false and '' are kept |
| Utils.PathArray | src/utils.ts:198-199 | an array iteratee stands for a path with one segment per element |
| Utils.IterateeKinds | src/utils.ts:191-204 | undefined gives identity, a function itself, a string a property read, an array a path read, an object a matcher, anything else constant false |
| Utils.IteratePropName | src/utils.ts:196-197 | iteratee('name') reads the `name` key and gives undefined when it is missing |
| Utils.IterateePathArray | src/utils.ts:198-199 | iteratee(['tags','utils']) reads the nested key tags.utils |
| Utils.MatcherExample | src/utils.ts:153-157 | matcher({js:true}) accepts an object exactly when its js is true |
| Utils.IdString | src/utils.ts:46-48 | the id is `prefix_n` with a prefix and `n` without |
| Utils.IdStringInjective | src/utils.ts:46-49 | different counter values give different ids under one prefix |
| Utils.IdGen.UniqueId | src/utils.ts:46-49 | returns the id of the current counter and increments the counter by one |
| Utils.UniqueIdExample | src/utils.ts:37-40 | uniqueId('func') then uniqueId() on a fresh counter give 'func_0' then '1' |
| Is.IsObject | src/is.ts:252-254 | `isObject`: not null and not of a primitive type |
| Is.Eq | src/is.ts:29-32 | `eq`: both NaN, or `===` (Is.EqIsSameValueZero) |
| Is.IsEmpty | src/is.ts:96-104 | `isEmpty`: null or undefined, an empty array-like, or no own enumerable keys (Is.IsEmptyExactly) |
| Is.IsBlank | src/is.ts:122-124 | `isBlank`: empty, or a string form that trims to the empty string (Is.IsBlankString, Is.IsBlankExamples) |
| Is.IsEqualWith | src/is.ts:491-514 | `isEqualWith`: the comparator on non-objects, else every own key of `a` deep-equal in `b` (Is.IsEqualReflexive, Is.IsEqualNotSymmetric) |
| Is.IsEqual | src/is.ts:474-476 | `isEqual` is `isEqualWith` with `eq` (Is.IsEqualWithLoop) |
| Is.IsMatchWith | src/is.ts:566-592 | `isMatchWith`: every key of the props matches the target, recursively for objects (Is.IsMatchReflexive) |
| Is.KeyMatches | src/is.ts:575-589 | one key of the props against the target (Is.IsMatchWithLoop) |
| Is.IsMatch | src/is.ts:538-543 | `isMatch` is `isMatchWith` with `eq` (Is.IsMatchExamples) |
| Is.IsNil | src/is.ts:702-704 | true exactly for null and undefined |
| Is.EqIsSameValueZero | src/is.ts:29-32 | eq coincides with SameValueZero (NaN equals NaN, 0 equals -0, otherwise strict equality) |
| Is.EqExamples | test/cases.is.ts:26-28 | eq(NaN,NaN) holds, eq(1,'1') does not, eq(0,-0) holds while NaN === NaN does not |
| Is.IsArrayLike | src/is.ts:161-175 | array-like values are strings or arrays, and the empty string is not array-like |
| Is.IsEmptyExactly | src/is.ts:96-104 | isEmpty holds exactly for null, undefined, '', 0, -0, [], {} and every Set or Map |
| Is.IsBlankExamples | test/cases.is.ts:23-24 | isBlank('  '), isBlank(null), isBlank({}) and isBlank('\u00A0\u3000') hold |
| Is.NotBlankExample | test/cases.is.ts:24 | isBlank('     1') does not hold |
| Is.IsBlankString | src/is.ts:122-124 | a string is blank exactly when every character is white space as `trim` strips it, the Unicode kinds included |
| Is.IsEqualWithLoop | src/is.ts:491-514 | the key loop with early exit returns exactly the recursive deep-equality definition |
| Is.IsEqualReflexive | src/is.ts:491-514 | every well-formed value is deep-equal to itself |
| Is.MemberOfOwnEntry | src/is.ts:504-507 | reading the i-th own key of a value gives the i-th own value |
| Is.IsEqualNotSymmetric | src/is.ts:498-510 | deep equality only looks at the keys of its first argument, so it is not symmetric |
| Is.IsEqualSets | src/is.ts:498-510 | Sets are compared by their (empty) own keys only, so any two Sets are equal |
| Is.IsMatchWithLoop | src/is.ts:566-592 | the key loop with a result flag and break returns exactly the recursive match definition |
| Is.IsMatchReflexive | src/is.ts:566-592 | every well-formed object matches itself |
| Is.IsMatchExamples | test/cases.is.ts:67-69 | {a:{x:1,y:2},b:1} matches {b:1} and {a:{x:1}} but not {b:'1'}; nil props always match, and a primitive target never matches an object |
| Num.ParseUnsigned | src/number.ts:204-207 | an unsigned decimal literal with at least one digit, as the language's ToNumber reads it (Num.ParseDigits) |
| Num.ParseNumeric | src/number.ts:204-207 | the language's StringToNumber: a blank string gives 0, a signed literal its value, anything else NaN (Num.ToNumberUnicodeSpace) |
| Num.ToNumber | src/number.ts:204-207 | the language's `Number(v)` that `toNumber` calls (Num.LibToNumber) |
| Num.ToInteger | src/number.ts:302-304 | `toInteger(v)` is `v >> 0`: ToInt32 of the number (Num.ToIntegerOfDecimalString, Num.ToIntegerOfNull) |
| Num.Less | src/number.ts:223-225 | `<` on numbers: false when either side is NaN (Num.ComparisonsTotalOnNumbers) |
| Num.LessEq | src/number.ts:243-245 | `<=` on numbers: false when either side is NaN |
| Num.Lt | src/number.ts:223-225 | `lt` compares the library's `toNumber` of both sides (Num.CompareExamples) |
| Num.Lte | src/number.ts:243-245 | `lte` (Num.CompareLetterExample) |
| Num.Gt | src/number.ts:261-263 | `gt` (Num.CompareExamples) |
| Num.Gte | src/number.ts:281-283 | `gte` (Num.CompareExamples) |
| Num.InRange | src/number.ts:335-347 | `inRange`: one bound means `[0, end)`, the bounds are swapped when reversed (Num.InRangeHalfOpen, Num.InRangeOneBound) |
| Num.ToNumberUnicodeSpace | src/number.ts:204-207 | Unicode white space around a numeral is stripped: the string NBSP, `12`, ideographic space converts to 12 |
| Num.LibToNumber | src/number.ts:204-207 | null and undefined convert to NaN, everything else as `Number(v)`, with Unicode white space stripped around a numeral (Num.ToNumberUnicodeSpace) |
| Num.Trunc | src/number.ts:302-304 | rounding toward zero: the result lies within one of the real, on the zero side |
| Num.ToInt32 | src/number.ts:302-304 | ToInt32 (section 7.1.6 of ECMA-262): in [-2^31, 2^31), congruent to the truncation modulo 2^32, and 0 for NaN |
| Num.ToInt32InRange | src/number.ts:302-304 | an integer already in the 32-bit range is unchanged by `>> 0` |
| Num.ToInt32Wraps | src/number.ts:302-304 | 2^31 wraps to -2^31 and 2^32+5 wraps to 5 |
| Num.ToInt32Truncates | test/cases.number.ts:27-28 | 9.99 gives 9 and -9.99 gives -9 |
| Num.ParseDigits | src/number.ts:204-207 | a string of digits converts to that natural number |
| Num.ToIntegerOfDecimalString | test/cases.number.ts:29 | toInteger('12.34') is 12 |
| Num.ToIntegerOfNull | test/cases.number.ts:30 | toInteger(null) is 0 |
| Num.ToIntegerOfNonNumeric | src/number.ts:302-304 | a string that is not a number converts to NaN, so toInteger gives 0 |
| Num.ComparisonsTotalOnNumbers | src/number.ts:223-283 | on numbers lt/lte/gt/gte are the usual total order; when either side is NaN, null or undefined all four are false |
| Num.CompareExamples | test/cases.number.ts:17-26 | lt(5,'5') is false, lte(5,'5') and gte(5,'5') are true, lt(1,2) and gt(2,1) hold |
| Num.CompareLetterExample | src/number.ts:223-283 | lte(5,'b') and gte(5,'b') are both false because 'b' converts to NaN |
| Num.InRangeHalfOpen | src/number.ts:335-347 | with finite bounds inRange is the half-open interval [min,max) whichever order the bounds are given in |
| Num.InRangeOneBound | src/number.ts:336-345 | inRange(v,end) and an undefined start both mean start 0 |
| Num.InRangeExamples | test/cases.number.ts:32-36 | inRange(1,1,2), inRange(2,3), inRange(-2,-2,0), inRange(-1,-2) hold and inRange(2,0,2) does not |
| Strs.ToStr | src/string.ts:33-37 | `toString`: the empty string for null and undefined, else the value's string form (Strs.ToStrRoundTrip, Strs.ToStrEmpty) |
| Strs.Capitalize | src/string.ts:54-58 | `capitalize`: the first character upper-cased, the rest lower-cased (Strs.CapitalizeMeaning) |
| Strs.UpperFirst | src/string.ts:625-629 | `upperFirst`: only the first character upper-cased (Strs.FirstLetterMeaning) |
| Strs.LowerFirst | src/string.ts:607-611 | `lowerFirst`: only the first character lower-cased (Strs.FirstLetterMeaning) |
| Strs.NativePad | src/string.ts:133-176 | the language's `padStart` and `padEnd`, the reference the padding loop is checked against (Strs.PadBranches) |
| Strs.RepeatCount | src/string.ts:252-256 | the copies `repeat` makes: none unless the count is finite and at least 1, else its whole part (Strs.RepeatWhole, Strs.Repeat) |
| Strs.Substring | src/string.ts:279-288 | `substring`: indices clamped to the string, swapped when reversed (Strs.SubstringMeaning) |
| Strs.IsKeyword | src/string.ts:445-460 | the characters of `REG_EXP_KEYWORDS` |
| Strs.EscapeChars | src/string.ts:473-477 | each keyword character preceded by a backslash (Strs.EscapeCharsLiteral, Strs.EscapeAppend) |
| Strs.EscapeRegExp | src/string.ts:473-477 | `escapeRegExp`: a pattern that matches the string literally (Strs.EscapeIsLiteral) |
| Strs.Expand | src/string.ts:428-430 | the replacement patterns of the language's `replace` for a literal search: `$$`, `$&`, the text before and after (Strs.ExpandPlain, Strs.ExpandExamples) |
| Strs.Substitute | src/string.ts:428-430 | what replaces one occurrence: the expanded template, or the replacer function's result as a string (Strs.ReplaceDollarExample) |
| Strs.ReplaceFrom | src/string.ts:428-430 | a global literal replace, scanning left to right without overlaps (Strs.ReplaceNone, Strs.ReplaceSelf, Strs.ReplaceSameLength) |
| Strs.ReplaceLit | src/string.ts:428-430 | `str.replace(new RegExp(escapeRegExp(t), 'g'), r)` (Strs.ReplaceLitMeaning, Strs.ReplaceLitExample) |
| Strs.ReplaceKeys | src/string.ts:431-440 | the key loop of `replaceAll` with an object, from the last key to the first (Strs.ReplaceEach meets it; Strs.ReplaceKeysMeaning) |
| Strs.Omission | src/string.ts:726-730 | the omission `truncate` appends: the option when truthy, else `...` (Strs.TruncateExamples) |
| Strs.Separator | src/string.ts:732-733 | the separator `truncate` searches for, when truthy (Strs.TruncateSeparatorExample) |
| Strs.CutAt | src/string.ts:732-746 | the prefix before the last separator match (Strs.CutAtMeaning) |
| Strs.SearchStart | src/string.ts:741 | where the global search for the next match starts: at the end of the previous match (Strs.MatchesOrdered, Strs.MatchesGreedy) |
| Strs.ExpandPlain | src/string.ts:428-430 | a replacement string without `$` is inserted as it is |
| Strs.ExpandExamples | src/string.ts:428-430 | `$$` gives one `$`, `$&` the match, the backquote and quote patterns the text before and after, `$1` stays literal without groups |
| Strs.ReplaceNone | src/string.ts:428-430 | text without an occurrence of the search string comes back unchanged |
| Strs.ReplaceSelf | src/string.ts:428-430 | replacing a search string without `$` by itself changes nothing |
| Strs.ReplaceSameLength | src/string.ts:428-430 | a `$`-free replacement as long as the search string keeps the length |
| Strs.ReplaceDollarExample | src/string.ts:428-430 | on examples: `$$` in a replacement gives `$`, the four patterns around `b` in `abc` give `a[abc]c`, and a replacing function is called with the match and its offset |
| Strs.ToStrRoundTrip | src/string.ts:33-37 | `toString` leaves a string unchanged, and the decimal text of a whole number converts back to that number |
| Strs.ToStrEmpty | src/string.ts:33-37 | for non-strings and non-arrays `toString` is empty exactly for null and undefined, and differs from JavaScript's `String()` exactly for those and -0 |
| Strs.Lower | src/string.ts:54-58 | lower-casing keeps the length and lowers each character |
| Strs.CapitalizeMeaning | src/string.ts:54-58 | `capitalize` keeps the length, is empty only for an empty string, upper-cases the first character and lower-cases the rest, and is idempotent |
| Strs.FirstLetterMeaning | src/string.ts:607-629 | `upperFirst`/`lowerFirst` change only the first character, and each undoes the other |
| Strs.CaseExamples | src/string.ts:44-629 | `capitalize('abc')` is 'Abc', `upperFirst('first')` 'First', `lowerFirst('FIRST')` 'fIRST', `capitalize(null)` '' |
| Strs.Rep | src/string.ts:250-261 | `n` copies of a string are `n` times as long |
| Strs.Cycle | src/string.ts:163-176 | the end padding has exactly the missing length |
| Strs.CycleEnd | src/string.ts:133-146 | the start padding has exactly the missing length |
| Strs.RepPrefix | src/string.ts:163-176 | a prefix of the repeated pad is the cyclic padding |
| Strs.RepSuffix | src/string.ts:133-146 | a suffix of the repeated pad is the cyclic padding taken from the end |
| Strs.PadOr | src/string.ts:133-176 | the pad string used is never empty (a missing or empty one becomes a space) |
| Strs.Fill | src/string.ts:133-176 | the fill loop repeats the pad enough times to cover the missing length |
| Strs.PadStart | src/string.ts:133-146 | `padStart` returns the built-in method's result when the engine has one; otherwise the string when it is long enough, else the tail of the repeated pad followed by the string |
| Strs.PadEnd | src/string.ts:163-176 | `padEnd` returns the built-in method's result when the engine has one; otherwise the string when it is long enough, else the string followed by the head of the repeated pad |
| Strs.FillEnds | src/string.ts:133-176 | the `Math.ceil(diff / padString.length)` copies the fallback loop makes cover the gap, and their last and first `diff` characters are the start and end fills |
| Strs.NativePadExamples | src/string.ts:133-176 | on the built-in branch `padStart('1',3,'0')` is '001', `padEnd('1',6,'-0')` '1-0-0-', `padStart('1',4,'ab')` 'aba1', an empty pad changes nothing and a missing pad is a space |
| Strs.PadZ | src/string.ts:118-120 | `padZ` prepends zeros up to the length, whether or not the engine has a built-in `padStart` |
| Strs.PadZeros | src/string.ts:118-146 | both branches of `padStart` with the pad '0' put exactly the missing number of zeros in front |
| Strs.CycleOfOne | src/string.ts:133-176 | repeating a one-character pad gives that character the requested number of times |
| Strs.PadLengths | src/string.ts:133-176 | padding gives exactly the requested length and keeps the string at its end (start) or start (end) |
| Strs.PadBranches | src/string.ts:133-176 | the padding agrees with the built-in `padEnd` for a non-empty pad, not for an empty one, and with `padStart` when the gap is a whole number of pads |
| Strs.PadExamples | src/string.ts:112-176 | `padStart('1',3,'0')` is '001', `padEnd('1',3,'0')` '100', `padEnd('1',6,'-0')` '1-0-0-' |
| Strs.Repeat | src/string.ts:250-261 | `repeat(str, count)` is the count's whole part copies of the string, none for a count below 1 or not finite |
| Strs.RepAdd | src/string.ts:250-261 | copies add up: `a + b` copies are `a` copies followed by `b` copies |
| Strs.RepCopy | src/string.ts:250-261 | every block of the result is the string |
| Strs.RepeatWhole | src/string.ts:244-261 | a whole count makes that many copies: `repeat('func',3)` is 'funcfuncfunc' |
| Strs.RepeatAsWrittenDoesNotStop | src/string.ts:254-258 | from a count at least 1 that is not whole the countdown never reaches 0 |
| Strs.Clamp | src/string.ts:279-288 | an index is clamped into the string |
| Strs.SubstringMeaning | src/string.ts:279-288 | `substring` is symmetric in its two indices, splitting at any index and concatenating gives the string back, and the result is always a contiguous segment |
| Strs.SubstringExamples | src/string.ts:268-288 | `substring('12345678',2)` is '345678' and `substring('12345678',2,7)` is '34567' |
| Strs.EscapeCharsLiteral | src/string.ts:473-477 | the escaped text is a pattern that matches exactly the original string, one backslash longer per special character |
| Strs.EscapeIsLiteral | src/string.ts:473-477 | `escapeRegExp(s)` read as a pattern is the literal `s` |
| Strs.EscapeExample | src/string.ts:473-477 | `escapeRegExp('a.b$')` is 'a\.b\$' |
| Strs.EscapeAppend | src/string.ts:473-477 | escaping distributes over concatenation |
| Strs.ReplaceLitMeaning | src/string.ts:428-430 | replacing a string that does not occur changes nothing; replacing a `$`-free string by itself changes nothing; a `$`-free replacement of equal length keeps the length |
| Strs.ReplaceLitExample | src/string.ts:395-430 | `replaceAll('a.b.c','.','-')` is 'a-b-c'; an empty search string matches between every character |
| Strs.ReplaceEach | src/string.ts:431-440 | the key loop replaces every key, last key first |
| Strs.ReplaceAll | src/string.ts:416-443 | a string search value replaces all its literal occurrences, expanding the `$` patterns or calling a replacing function; an object replaces each key by its value; anything else returns the input |
| Strs.ReplaceKeysMeaning | src/string.ts:431-440 | one key acts as a string search; keys apply last first, so an earlier key's output is not rewritten by a later key |
| Strs.ReplaceKeysExample | src/string.ts:431-440 | replacing `{ke:'gg', li:'jj'}` in 'kelikeli' gives 'ggjjggjj' |
| Strs.FindFrom | src/string.ts:736-741 | the search from a position gives the first occurrence at or after it, or none |
| Strs.Matches | src/string.ts:736-741 | every listed match is an occurrence at or after the start |
| Strs.LastMatch | src/string.ts:736-741 | the global-search loop ends with the last of the non-overlapping matches |
| Strs.MatchesOrdered | src/string.ts:736-741 | the matches do not overlap and are increasing |
| Strs.MatchesGreedy | src/string.ts:736-741 | no occurrence is skipped between a search start and the next match |
| Strs.MatchesFind | src/string.ts:736-741 | each listed match is the first occurrence found from its search start |
| Strs.MatchesTail | src/string.ts:736-741 | there is no occurrence after the last search start |
| Strs.Truncate | src/string.ts:717-750 | `truncate` returns a string no longer than `len` unchanged; else it cuts to `len`, cuts again before the last separator match, and appends the omission |
| Strs.CutAtMeaning | src/string.ts:736-745 | the cut is a prefix ending at a separator occurrence, with no later non-overlapping occurrence |
| Strs.TruncateExamples | src/string.ts:717-750 | the default omission is '...', a given omission replaces it |
| Strs.TruncateSeparatorExample | src/string.ts:703-750 | `truncate('func.js.com.cn', 13, {separator:'.'})` cuts to 'func.js.com' |
| Strs.TruncateEmptySeparatorAsWritten | src/string.ts:736-741 | a truthy separator with empty text matches at the search position without advancing, so the search loop never ends |
| Strs.TruncateEmptySeparator | src/string.ts:736-745 | with the search advancing past empty matches, an empty separator cuts nothing |
| Funcs.Holes | src/functions.ts:69 | the number of placeholders among the bound arguments, each taking one call argument (Funcs.FilledMeaning) |
| Funcs.ParamAt | src/functions.ts:69 | `params[p++]`, undefined past the end of the call arguments |
| Funcs.Filled | src/functions.ts:67-75 | the argument list the partial function passes on (Funcs.FilledMeaning, Funcs.PartialExamples) |
| Funcs.Partial | src/functions.ts:66-77 | `partial(fn, ...args)` calls `fn` with the filled list (Funcs.CallMeaning) |
| Funcs.Pipe | src/functions.ts:100-104 | the loop of `compose`: later functions applied in turn, non-functions skipped (Funcs.PipeAppend, Funcs.PipeOnlyFns) |
| Funcs.Composed | src/functions.ts:97-107 | the composed function: the first function gets all the arguments, and a missing first function throws (Funcs.Compose) |
| Funcs.Alt | src/functions.ts:121-127 | `alt`: the first interceptor's result, or the second's when the first gives undefined (Funcs.AltMeaning) |
| Funcs.Tap | src/functions.ts:147-150 | `tap`: the interceptor is called with the value, which is returned (Funcs.TapMeaning) |
| Funcs.Call | src/functions.ts:296-299 | `call`: the function's result, undefined for a value that is not a function (Funcs.CallMeaning) |
| Funcs.StartOf | src/functions.ts:190 | `count or 0`: NaN, 0 and a missing count start the counter at 0 |
| Funcs.CounterAfter | src/functions.ts:190-197 | the counter after `k` calls: one off per call while positive (Funcs.CounterSteps, Funcs.CounterOfWhole) |
| Funcs.Fires | src/functions.ts:193-195 | call `k` reaches `fn` exactly when the counter reads 0 before it (Funcs.AfterWhole, Funcs.AfterNeverFires) |
| Funcs.Bound | src/functions.ts:66-77 | the placeholder pass keeps one argument per bound argument |
| Funcs.ApplyArgs | src/functions.ts:66-77 | the `partial` argument loop builds the filled argument list |
| Funcs.FilledMeaning | src/functions.ts:66-77 | bound arguments that are not placeholders stay in place, the placeholders take the call's arguments in order (undefined when too few), and the remaining arguments follow |
| Funcs.PartialExamples | src/functions.ts:66-77 | filling `['[func.js][', _, ']', _]` with 'info', 'hi...' gives the four strings in order |
| Funcs.Compose | src/functions.ts:97-107 | the `compose` loop computes the pipeline of the given functions, non-functions skipped |
| Funcs.PipeAppend | src/functions.ts:97-107 | composing two lists is composing their pipelines in sequence |
| Funcs.PipeOnlyFns | src/functions.ts:97-107 | skipping the non-function entries changes nothing |
| Funcs.AltMeaning | src/functions.ts:121-127 | `alt` calls the second function exactly when the first returns undefined, and returns the first defined result, false included |
| Funcs.TapMeaning | src/functions.ts:147-150 | `tap` returns its value after calling the function once with it |
| Funcs.CallMeaning | src/functions.ts:296-299 | `call` on a partial application fills its placeholders; a missing function gives undefined |
| Funcs.Once.constructor | src/functions.ts:163-173 | a new wrapper holds the function and has not been called |
| Funcs.Once.Invoke | src/functions.ts:163-173 | only the first call forwards to the function and returns its result; every later one returns undefined |
| Funcs.After.constructor | src/functions.ts:188-199 | a new wrapper starts its countdown at the count, or 0 when the count is falsy |
| Funcs.After.Invoke | src/functions.ts:188-199 | a call forwards to the function exactly when the countdown reads 0, and otherwise returns the last result |
| Funcs.CounterOfWhole | src/functions.ts:188-199 | from a whole count `n` the countdown after `k` calls is `n - k`, stopping at 0 |
| Funcs.AfterWhole | src/functions.ts:188-199 | with a whole count `n` the k-th call fires exactly when `k > n`, so `k - n` calls fire |
| Funcs.CounterSteps | src/functions.ts:188-199 | the countdown goes down by one per call while positive and never below -1; a non-positive start stays |
| Funcs.AfterNeverFires | src/functions.ts:188-199 | a negative or non-whole count never reaches 0, so the function is never called |
| Funcs.AfterExample | src/functions.ts:180-199 | `after(() => 'data saved', 2)` called three times gives undefined, undefined, 'data saved' |
| Funcs.OnceExample | src/functions.ts:163-173 | a `once` wrapper called twice gives the function's result, then undefined |
| Dates.IsLeapYearAsWritten | src/datetime.ts:512-516 | `isLeapYear` as written: `year % 400 === 0 or year % 4 === 0`, which takes 1900 for a leap year (Dates.LeapYearAsWrittenMeaning) |
| Dates.IsLeapYear | src/datetime.ts:512-516 | the Gregorian rule the function is named for (Dates.LeapYearAsWrittenMeaning, Dates.YearLengthMeaning) |
| Dates.DaysBefore | src/datetime.ts:461-464 | the loop of `getDayOfYear`: the days of the months before the date's, February taken as 29 or 28 (Dates.DaysBeforeTable) |
| Dates.AsWrittenSurplus | src/datetime.ts:458-464 | the day the as-written leap test adds from March on in a century year that is not a leap year (Dates.DayOfYearAsWritten) |
| Dates.CumulativeDays | src/datetime.ts:383 | the days before each month, the reference the loop is checked against (Dates.DaysBeforeTable) |
| Dates.DaysBeforeYear | src/datetime.ts:476-478 | days before 1 January of a year in the proleptic Gregorian calendar, which fixes the weekday `getDay()` reads (Dates.YearLengthMeaning) |
| Dates.DayNumber | src/datetime.ts:478-480 | the days from 1 January of year 1 to a date (Dates.NextDayInMonth, Dates.NextDayNewMonth, Dates.NextDayNewYear) |
| Dates.CeilDiv7 | src/datetime.ts:485 | `Math.ceil(n / 7)` (Dates.CeilDiv7Meaning) |
| Dates.ExtraWeek | src/datetime.ts:479-483 | one week more when the first day is a Sunday or a Saturday (`d === 0 or d > 5`) |
| Dates.WeekOfMonth | src/datetime.ts:493-505 | `getWeekOfMonth`: between 1 and 6 (Dates.WeekOfYearMeaning) |
| Dates.CompareYears | src/datetime.ts:95-96 | `compareDate(d1, d2, 'y')`: the difference of the years (Dates.CompareMeaning) |
| Dates.CompareMonths | src/datetime.ts:97-101 | `compareDate(d1, d2, 'M')`: twelve per year plus the difference of the months (Dates.CompareMeaning) |
| Dates.TimeMap | src/datetime.ts:16-21 | `TIME_MAP`: milliseconds per unit (Dates.TimeMapMeaning) |
| Dates.Shifted | src/datetime.ts:146-166 | the time `addTime` reaches: `amount * TIME_MAP[type]` later, an invalid date for an unknown unit (Dates.ShiftedMeaning) |
| Dates.DayOfYearAsWrittenRange | src/datetime.ts:456-467 | the as-written day of the year is the Gregorian one plus the surplus of the leap test, and lies in 1..366 |
| Dates.WeekOfYear1900 | src/datetime.ts:474-486 | 4 March 1900: day 64 and week 10 as written, day 63 and week 9 in the Gregorian calendar |
| Dates.LeapYearAsWrittenMeaning | src/datetime.ts:512-516 | as written, `isLeapYear` holds exactly for years divisible by 4; it differs from the Gregorian rule exactly on centuries not divisible by 400, 1900 for one |
| Dates.LeapYearExamples | src/datetime.ts:512-516 | with the Gregorian rule 2000 and 2020 are leap years, 2022 and 2100 are not |
| Dates.MonthLength | src/datetime.ts:383 | every month has 28 to 31 days |
| Dates.CountDays | src/datetime.ts:456-467 | the `getDayOfYear` loop adds the lengths of the months before the date's month to its day |
| Dates.DayOfYearAsWritten | src/datetime.ts:456-467 | the day of the year computed with the leap-year test as written |
| Dates.DayOfYear | src/datetime.ts:456-467 | the day of the year, with the Gregorian leap-year rule, lies between 1 and the year's length |
| Dates.DaysBeforeTable | src/datetime.ts:383 | the month lengths summed by the loop equal the cumulative day table |
| Dates.DayOfYearRange | src/datetime.ts:456-467 | a valid date's day of the year is between 1 and 365 or 366 |
| Dates.DayOfYearOrder | src/datetime.ts:456-467 | a strictly earlier date in the same year has a strictly smaller day of the year |
| Dates.DayOfYear1900 | src/datetime.ts:456-467 | as written, 1 March 1900 is day 61; with the Gregorian rule it is day 60 |
| Dates.Weekday | src/datetime.ts:474-486 | the weekday is in 0..6 |
| Dates.YearLengthMeaning | src/datetime.ts:512-516 | the days between consecutive new years are the year's length |
| Dates.NextDayInMonth | src/datetime.ts:474-505 | the next day in the same month has the next weekday |
| Dates.NextDayNewMonth | src/datetime.ts:474-505 | the first of the next month follows the last of the month, one weekday on |
| Dates.NextDayNewYear | src/datetime.ts:474-505 | 1 January follows 31 December, one weekday on |
| Dates.CeilDiv7Meaning | src/datetime.ts:485 | `Math.ceil(n / 7)` is the least whole number of weeks covering `n` days |
| Dates.WeekOfYear | src/datetime.ts:474-486 | the week of the year is the as-written day of the year in weeks rounded up, plus one when 1 January falls on a Saturday or Sunday, and lies in 1..54 |
| Dates.WeekBounds | src/datetime.ts:474-505 | week numbers lie in 1..54 for the year and 1..6 for the month, and rise by at most one per day |
| Dates.WeekOfYearMeaning | src/datetime.ts:474-505 | for every valid date the as-written week of the year is in 1..54 and at most one above the Gregorian one, and the week of the month is in 1..6 |
| Dates.WeekExample | src/datetime.ts:474-486 | 30 October 2022 is day 303 and week 45 |
| Dates.CompareMeaning | src/datetime.ts:86-104 | comparing by year or by month is antisymmetric and additive, and the month difference is positive or zero exactly when the first date's month is later or the same |
| Dates.TimeMapMeaning | src/datetime.ts:16-21 | a second is 1000 ms, a minute 60 s, an hour 60 min, a day 24 h |
| Dates.DateObj.constructor | src/datetime.ts:146-166 | a new date object holds the given time |
| Dates.DateObj.SetTime | src/datetime.ts:162-163 | `setTime` replaces the stored time |
| Dates.AddTime | src/datetime.ts:146-166 | `addTime` returns a new date shifted by the amount in the unit, `s` by default, and invalid for an unknown unit |
| Dates.ShiftedMeaning | src/datetime.ts:146-166 | shifts by the same unit add up and undo each other, a day is 24 hours, an hour 60 minutes, a minute 60 seconds, and an unknown unit gives an invalid date |
| Dates.AddTimeExample | src/datetime.ts:146-166 | shifting by -20 days subtracts 1728000000 ms; a missing unit means seconds |

## Left out

- Floating point:
  - Numbers stored in data are integers (`Num`), with negative zero and NaN as their own constructors.
  - The conversions of src/number.ts work on reals plus NaN.
  - Infinities, exponent and hexadecimal literals and rounding of binary floating point are not modelled.
- Heap identity and aliasing:
  - Arrays, plain objects, Sets and Maps are values, so `===` between two of them compares their contents.
  - `set`, `assign`, `defaults` and `merge` return the updated target instead of mutating an object the caller still holds. A nested object updated through a reference is rebuilt and written back under its key.
  - The in-place array functions are methods of a `JsArray` object, and `FuncJS` is a class. Other aliasing between arguments is not modelled.
- Property order: own keys are kept in insertion order. JavaScript's rule that integer-like keys come first is not modelled.
- Callbacks:
  - Callbacks are Dafny functions of the element and its key; the third argument, the collection itself, is not passed.
  - Callbacks have no side effects of their own. The interceptors of `tap` are recorded by an identifier, and iteratee calls are counted.
- Chaining.FusedIsEager: covers only callbacks that ignore their key argument. A fused callback receives the key in the wrapped array, and the eager `map` and `filter` pass the index in their own input; `ChainingExamples.KeysAreOriginal` shows the difference.
- Chaining.FusedIsEager: covers only the fragment named in its contract. The other chains are described by `ChainingFixed` and the lemmas there.
- `mixin`:
  - the enumeration of the mixin object's functions and the copy of each function onto `_` are not modelled;
  - `FuncJS.Push` is the method `mixin` installs;
  - a link is an `Op` naming the function it calls, not a function object matched by its `name`. A function the record does not know is `Other(f)`, a pure function of the accumulated value.
- Comparators: `sortBy`, `sortTree` and the sorted insertion of `arrayToTree` compare through an integer rank function. `localeCompare` and `compareNumAsc` are not modelled; ties are broken by index as in the source.
- Regular expressions: `replaceAll` with a RegExp search value and `truncate` with a RegExp separator are not modelled. The bracket rewrite of `toPath` is modelled by its own definition.
- Strings are sequences of UTF-16 code units, and case mapping covers the ASCII letters only.
- The clock and `Date` parsing:
  - a date is given by its calendar fields, as `getFullYear`, `getMonth` and `getDate` read them in local time;
  - a time is a whole number of milliseconds;
  - time zones and `new Date(string)` are not modelled.
- Units of `addTime` and `compareDate`:
  - `addTime` in years and months (`setFullYear`, `setMonth`) is not modelled;
  - `compareDate` is modelled for 'y' and 'M' only, since the other units round a local time of day.
- `Objects.DefaultsEntries`, `Objects.DefaultsSources`, `Objects.GatherStep`, `Objects.GatherAll` and `Objects.ApplyPairs` only state that the result stays an object. What they compute is stated by `Objects.DefaultsFirstDefined`, `Objects.ToObjectByGather` and the examples beside them.
- Objects.Write: stores only the keys a plain object or an array keeps as data. On an array it stores an index and `length`; a named key other than `length` is not kept, and an invalid length, which throws a RangeError in the source, leaves the array as it was. A write to a Set or a Map is not kept either.
- Objects.CheckTarget: every object value is extensible, since freezing and sealing are not modelled. The branch of src/object.ts:105-110 that returns a frozen, sealed or non-extensible target unchanged never applies.
- Trees.Field: a null or undefined node reads as having no children. In the source `node[childrenKey]` (src/tree.ts:210 in `_walkTree`, src/tree.ts:287 in `sortTree`) throws a TypeError on such a node, so `walkTree([null], () => undefined)` throws; the model does not capture that throw.
- Arrays.Flat: the requires `depth < 1 ==> c.Arr?` follows the `any[]` parameter type of src/array.ts:152. A non-array argument with a depth below 1, where `array.concat()` at src/array.ts:153 throws or returns a string, is not modelled.
- `mergeWith` and `defaultsDeep`: handlers are pure functions, and circular structures are not modelled, since values are finite trees.
- TreeBuild.ArrayToTree: the children lists are kept beside the records, each starting empty, and the `childrenKey` option is not read. A record whose `childrenKey` property already holds a truthy array has that array extended in src/tree.ts:107-110; the model does not extend it.
- TreeBuild.SecondPass: the same gap. Each parent's list holds only the children found in the input, not the contents of a pre-existing children array.
- Strs.ReplaceAll: a search value that is a RegExp is not modelled. With a string search value the pattern is the escaped literal, which has no capture groups, so `$1` and `$<name>` stay literal as the language's `replace` leaves them.

## Findings

| source | as written | input that shows it | evidently intended | confidence | as-written member | corrected member |
|---|---|---|---|---|---|---|
| src/chaining.ts:213-219 | `reverse` checks only the range, so after a `take` it flips the traversal direction | `_([1,2,3]).take(2).reverse().value()` is `[3,2]` | `[2,1]`, the first two reversed, as `reverse(take(a, 2))` gives | high, not executed | ChainingFixed.TakeThenReverseExample | ChainingFixed.FixedIsEager |
| src/chaining.ts:220-234 | `take` never closes the record, so a later `slice` is merged and its range applies before the count | `_([1,2,3]).take(2).slice(1).value()` is `[2,3]` | `[2]` | high, not executed | ChainingFixed.TakeThenSliceExample | ChainingFixed.TakeThenSliceFixedExample |
| src/chaining.ts:286-287 | a negative `slice` start is compared with positions as it is | `_([1,2,3]).slice(-1).value()` is `[1,2,3]` | `[3]`, as `slice` counts a negative start from the end | high, not executed | ChainingFixed.SliceNegativeExample | ChainingFixed.FixedIsEager |
| src/chaining.ts:242-246 | `last` sets the backward direction instead of flipping it | `_([1,2,3]).reverse().last().value()` is `3` | `1` | high, not executed | ChainingFixed.ReverseThenLastExample | ChainingFixed.FixedIsEager |
| src/chaining.ts:235-241 | `first` sets `returnEl` only when the count is undefined or above 1 | `_([1,2,3]).take(1).first().value()` is `[1]` | `1` | high, not executed | ChainingFixed.TakeOneThenFirstExample | ChainingFixed.TakeOneThenFirstFixedExample |
| src/chaining.ts:57-82 | a closing `map` or `filter` that is the last link opens a record that is never run | `_([1,2,3]).take(2).map(v => v * 10).value()` is `[1,2]` | `[10,20]` | high, not executed | ChainingFixed.TakeThenMapExample | ChainingFixed.FixedIsEager |
| src/chaining.ts:72-75 | the record's result is kept only when it is truthy | `_([0,1,2]).first().value()` is `[0,1,2]` | `0` | high, not executed | ChainingFixed.FirstFalsyExample | ChainingFixed.FixedIsEager |
| src/chaining.ts:53-55 | a non-empty wrapped string opens a record, so the next unknown link gets the characters as an array | `_('ab')` followed by an unknown link `f` calls `f(['a','b'])` | `f('ab')` | medium, not executed | ChainingFixed.StringExplodedExample | ChainingFixed.FixedIsEager |
| src/chaining.ts:262-264 | a count of 0 is falsy and is replaced by the range's length | `_([1,2,3]).slice(0,2).take(0).value()` is `[1,2]` | `[]` | high, not executed | ChainingFixed.SliceThenTakeZeroExample | ChainingFixed.FixedIsEager |
| src/tree.ts:204-224 | `false` from a callback returns only from the nested call it is in, so the walk goes on at the next node up | `findTreeNode([a, c], n => n !== a)` with `b` the only child of `a` returns `c` | `b`, the first node in preorder the predicate accepts | high, not executed | Trees.FindTreeNodeExample | Trees.FindTreeNodeFixed |
| src/tree.ts:284-290 | the nested `sortTree` call is not given the options | `sortTree([{items:[{items:[p2,p1]}]}], cmp, {childrenKey:'items'})` leaves the inner list unsorted | every level sorted by `cmp` | high, not executed | Trees.SortTreeExample | Trees.SortTreeSorted |
| src/tree.ts:96-98 | the copy callback returns the copied value, so `each` stops after a copied `false` | attrMap `{open:'expanded', text:'name'}` on `{expanded:false, name:'a'}` never sets `text` | `text` is 'a' | high, not executed | TreeBuild.AttrMapExample | TreeBuild.AttrMapCopies |
| src/string.ts:254-258 | `while (i--)` counts down from the count itself | `repeat('a', 2.5)` never returns | 'aa', two copies | medium, not executed | Strs.RepeatAsWrittenDoesNotStop | Strs.Repeat |
| src/string.ts:736-741 | a separator with empty text matches without advancing `lastIndex` | `truncate('abcdef', 3, {separator: []})` never returns | 'abc...' | medium, not executed | Strs.TruncateEmptySeparatorAsWritten | Strs.TruncateEmptySeparator |
| src/array.ts:513-517 | a count past the length makes the slice start negative, and `slice` counts a negative start from the end | `takeRight([1,2,3,4,5], 7)` is `[4,5]` | the whole array | high, not executed | Arrays.TakeRightOverlong | Arrays.TakeRightClamped |
| src/array.ts:820-836 | the default -1 replaces every falsy index, so the index 0 becomes -1 | `pop([{a:1},{a:2},{a:3}], 0)` removes `{a:3}` | `{a:1}`, as the function's own example shows | high, not executed | ArrayEdits.PopLast | ArrayEdits.PopFixedUndoesInsert |
| src/datetime.ts:512-516 | the `% 400` test adds nothing to the `% 4` test, so every century is a leap year | `isLeapYear` of a date in 1900 is true | false, by the Gregorian rule | medium, not executed | Dates.LeapYearAsWrittenMeaning | Dates.LeapYearExamples |
| src/array.ts:333-335 | a value is stored only when `!kvMap.get(id)`, so a falsy value stored first is overwritten by the next value with the same id | `union([0], [1], v => 'k')` is `[1]` | `[0]`, the first value of the id | medium, not executed | Arrays.UnionFalsyExample | Arrays.UnionFirstMeaning |
