/**
 * The array functions of src/array.ts that read their argument through `toArray`
 * (module Coll) and build a new array. Those that change the caller's array in place
 * are in module ArrayEdits, and chunk, zip, unzip, zipObject and sortedIndexBy in
 * module ArrayGroups. `times` of src/utils.ts is here too, next to the `range` it is
 * built on.
 */
module Arrays {
  import opened JsValues
  import opened Is
  import opened Num
  import opened Paths
  import opened Objects
  import opened Utils
  import opened Coll

  // ---------------------------------------------------------------------------
  // first / last / head (src/array.ts:97-114, 447)

  /** `first(array)`, also `head`: the first element of `toArray`, undefined when empty. */
  function First(c: Val): (r: Val)
    ensures ToArray(c) == [] ==> r == Undef
    ensures ToArray(c) != [] ==> r == ToArray(c)[0]
  {
    var a := ToArray(c);
    if a == [] then Undef else a[0]
  }

  /** `last(array)`: the last element of `toArray`, undefined when empty. */
  function Last(c: Val): (r: Val)
    ensures ToArray(c) == [] ==> r == Undef
    ensures ToArray(c) != [] ==> r == ToArray(c)[|ToArray(c)| - 1]
  {
    var a := ToArray(c);
    if a == [] then Undef else a[|a| - 1]
  }

  // ---------------------------------------------------------------------------
  // slice / take / takeRight / tail / initial (src/array.ts:131-133, 459-517)

  /** `slice(array, begin, end)`: `toArray(array).slice(begin || 0, end)`; `None` is an
      undefined bound. */
  function Slice(c: Val, begin: Option<int>, end: Option<int>): seq<Val> {
    JsSlice(ToArray(c), if begin.None? then 0 else begin.value, end)
  }

  /** What `slice` keeps: positions count from the end when negative and are clamped into
      the array; the result is the window between them, empty when it is inverted. */
  lemma SliceMeaning(c: Val, b: int, e: Option<int>)
    ensures var a := ToArray(c);
      var lo := RelIndex(b, |a|);
      var hi := if e.None? then |a| else RelIndex(e.value, |a|);
      var r := Slice(c, Some(b), e);
      (lo <= hi ==> r == a[lo..hi]) && (lo > hi ==> r == [])
    ensures 0 <= b ==> var a := ToArray(c); Slice(c, Some(b), None) == (if b <= |a| then a[b..] else [])
    ensures b < 0 ==> var a := ToArray(c);
      Slice(c, Some(b), None) == (if -b <= |a| then a[|a| + b..] else a)
  {
    var a := ToArray(c);
    assert Slice(c, Some(b), e) == JsSlice(a, b, e);
    assert Slice(c, Some(b), None) == JsSlice(a, b, None);
    SliceFrom(a, b);
  }

  lemma SliceFrom<T>(a: seq<T>, b: int)
    ensures 0 <= b ==> JsSlice(a, b, None) == (if b <= |a| then a[b..] else [])
    ensures b < 0 ==> JsSlice(a, b, None) == (if -b <= |a| then a[|a| + b..] else a)
  {
    if b < 0 && -b > |a| {
      assert a[0..|a|] == a;
    }
  }

  /** A split point cuts the array in two: `slice(a, 0, k)` followed by `slice(a, k)`. */
  lemma SliceSplit(c: Val, k: nat)
    ensures Slice(c, None, Some(k)) + Slice(c, Some(k), None) == ToArray(c)
  {
    var a := ToArray(c);
    assert Slice(c, None, Some(k)) == JsSlice(a, 0, Some(k));
    assert Slice(c, Some(k), None) == JsSlice(a, k, None);
    JsSliceSplit(a, k);
  }

  lemma JsSliceSplit<T>(a: seq<T>, k: nat)
    ensures JsSlice(a, 0, Some(k)) + JsSlice(a, k, None) == a
  {
    if k <= |a| {
      assert a[..k] + a[k..] == a;
    } else {
      assert JsSlice(a, 0, Some(k)) == a[0..|a|] == a;
    }
  }

  /** `take(array, length)`: `toArray(array).slice(0, length)`. */
  function Take(c: Val, n: Option<int>): seq<Val> {
    JsSlice(ToArray(c), 0, n)
  }

  /** `take` gives the first `n` elements, all of them when `n` is undefined or exceeds
      the length; a negative `n` drops that many from the end. */
  lemma TakeMeaning(c: Val, n: Option<int>)
    ensures var a := ToArray(c);
      n.None? ==> Take(c, n) == a
    ensures var a := ToArray(c);
      n.Some? && 0 <= n.value ==> Take(c, n) == a[..if n.value <= |a| then n.value else |a|]
    ensures var a := ToArray(c);
      n.Some? && n.value < 0 ==> Take(c, n) == a[..if |a| + n.value < 0 then 0 else |a| + n.value]
  {
    assert ToArray(c)[0..] == ToArray(c);
  }

  /** `take(take(a, m), n)` is `take(a, min(m, n))` for non-negative counts. */
  lemma TakeTake(c: Val, m: nat, n: nat)
    ensures Take(Arr(Take(c, Some(m))), Some(n)) == Take(c, Some(if m < n then m else n))
  {
    TakeMeaning(c, Some(m));
    TakeMeaning(Arr(Take(c, Some(m))), Some(n));
    TakeMeaning(c, Some(if m < n then m else n));
  }

  /** `takeRight(array, length)` as written: `rs.slice(len - (length || len), len)`. */
  function TakeRight(c: Val, n: Option<int>): seq<Val> {
    var a := ToArray(c);
    var m := if n.None? || n.value == 0 then |a| else n.value;
    JsSlice(a, |a| - m, Some(|a|))
  }

  /** For a count within the length, `takeRight` gives the last `n` elements (all of them
      for 0 or undefined), and nothing for a negative count. */
  lemma TakeRightMeaning(c: Val, n: Option<int>)
    ensures var a := ToArray(c);
      (n.None? || n == Some(0)) ==> TakeRight(c, n) == a
    ensures var a := ToArray(c);
      n.Some? && 0 < n.value <= |a| ==> TakeRight(c, n) == a[|a| - n.value..]
    ensures n.Some? && n.value < 0 ==> TakeRight(c, n) == []
  {
    var a := ToArray(c);
    var m := if n.None? || n.value == 0 then |a| else n.value;
    assert TakeRight(c, n) == JsSlice(a, |a| - m, Some(|a|));
    assert a[0..|a|] == a;
  }

  /** As written, a count longer than the array but shorter than twice its length is
      taken modulo the length: takeRight([1,2,3,4,5], 7) is [4,5], not the whole array. */
  lemma TakeRightOverlong(items: seq<Val>)
    requires items == [Num(1), Num(2), Num(3), Num(4), Num(5)]
    ensures TakeRight(Arr(items), Some(7)) == [Num(4), Num(5)]
  {
    assert items[3..5] == [Num(4), Num(5)];
  }

  /** `takeRight` as its documentation describes it: at most the last `n` elements. */
  function TakeRightClamped(c: Val, n: Option<int>): (r: seq<Val>)
    ensures var a := ToArray(c);
      n.Some? && n.value > 0 ==> |r| == (if n.value < |a| then n.value else |a|) && r == a[|a| - |r|..]
    ensures (n.None? || n == Some(0)) ==> r == ToArray(c)
    ensures n.Some? && n.value < 0 ==> r == []
  {
    var a := ToArray(c);
    var m := if n.None? || n.value == 0 then |a| else n.value;
    SliceLast(a, m);
    if m > |a| then a else JsSlice(a, |a| - m, Some(|a|))
  }

  /** Slicing from `length - m` to the end keeps the last `m` elements, and none for a
      negative `m`. */
  lemma SliceLast<T>(a: seq<T>, m: int)
    ensures 0 <= m <= |a| ==> JsSlice(a, |a| - m, Some(|a|)) == a[|a| - m..]
    ensures m < 0 ==> JsSlice(a, |a| - m, Some(|a|)) == []
  {
  }

  /** The corrected `takeRight` agrees with the code whenever the count is within the
      length or at least twice the length. */
  lemma TakeRightAgrees(c: Val, n: Option<int>)
    requires n.Some? ==> n.value <= |ToArray(c)| || n.value >= 2 * |ToArray(c)|
    ensures TakeRight(c, n) == TakeRightClamped(c, n)
  {
    var a := ToArray(c);
    assert a[0..|a|] == a;
  }

  /** `tail(array)`: everything but the first element. */
  function Tail(c: Val): seq<Val> {
    JsSlice(ToArray(c), 1, None)
  }

  /** `initial(array)`: a copy with its last element popped. */
  function Initial(c: Val): seq<Val> {
    var a := ToArray(c);
    if a == [] then [] else a[..|a| - 1]
  }

  /** The first element and the tail make up the array again, as do the initial part
      and the last element; both are empty for an empty array. */
  lemma HeadTailInitialLast(c: Val)
    ensures ToArray(c) != [] ==> [First(c)] + Tail(c) == ToArray(c)
    ensures ToArray(c) != [] ==> Initial(c) + [Last(c)] == ToArray(c)
    ensures ToArray(c) == [] ==> Tail(c) == [] && Initial(c) == []
    ensures |Tail(c)| == |Initial(c)|
  {
    HeadTailSeq(ToArray(c));
  }

  lemma HeadTailSeq<T>(a: seq<T>)
    ensures a != [] ==> [a[0]] + JsSlice(a, 1, None) == a && a[..|a| - 1] + [a[|a| - 1]] == a
    ensures |JsSlice(a, 1, None)| == if a == [] then 0 else |a| - 1
  {
    if a != [] {
      assert JsSlice(a, 1, None) == a[1..];
    }
  }

  // ---------------------------------------------------------------------------
  // reverse (src/array.ts:435-438)

  /** `reverse(array)`: a reversed copy of `toArray`. */
  function Reverse(c: Val): seq<Val> {
    Reversed(ToArray(c))
  }

  /** Reversing twice gives the array back, and the first of the reversal is the last. */
  lemma ReverseReverse(c: Val)
    ensures Reverse(Arr(Reverse(c))) == ToArray(c)
    ensures First(Arr(Reverse(c))) == Last(c) && Last(Arr(Reverse(c))) == First(c)
  {
    var a := ToArray(c);
    var r := Reversed(a);
    assert Reverse(c) == r && ToArray(Arr(r)) == r;
    ReversedTwice(a);
    assert a != [] ==> r[0] == a[|a| - 1] && r[|r| - 1] == a[0];
  }

  // ---------------------------------------------------------------------------
  // flat (src/array.ts:152-161)

  /** The reduce of `flat`: arrays are flattened `depth` more levels, other values kept. */
  function FlatSeq(s: seq<Val>, depth: int): seq<Val>
    decreases s
  {
    if s == [] then []
    else (if s[0].Arr? && depth > 0 then FlatSeq(s[0].items, depth - 1) else [s[0]]) + FlatSeq(s[1..], depth)
  }

  /** `flat(array, depth)`: a copy when depth < 1 (which needs an array), else the
      reduce over `toArray`. */
  function Flat(c: Val, depth: int): seq<Val>
    requires depth < 1 ==> c.Arr?
  {
    if depth < 1 then c.items else FlatSeq(ToArray(c), depth)
  }

  /** The non-array values inside an array, in order: `flat` with unlimited depth. */
  function Leaves(s: seq<Val>): seq<Val>
    decreases s
  {
    if s == [] then [] else (if s[0].Arr? then Leaves(s[0].items) else [s[0]]) + Leaves(s[1..])
  }

  /** How deeply arrays nest inside `s`: 0 when no element is an array. */
  function Height(s: seq<Val>): nat
    decreases s
  {
    if s == [] then 0
    else
      var h := if s[0].Arr? then 1 + Height(s[0].items) else 0;
      var t := Height(s[1..]);
      if h < t then t else h
  }

  lemma {:induction false} LeavesAppend(s: seq<Val>, t: seq<Val>)
    ensures Leaves(s + t) == Leaves(s) + Leaves(t)
    decreases s
  {
    if s == [] {
      assert s + t == t;
    } else {
      assert (s + t)[0] == s[0] && (s + t)[1..] == s[1..] + t;
      LeavesAppend(s[1..], t);
    }
  }

  /** Flattening never loses, adds or reorders a non-array value. */
  lemma {:induction false} FlatKeepsLeaves(s: seq<Val>, depth: int)
    ensures Leaves(FlatSeq(s, depth)) == Leaves(s)
    decreases s
  {
    if s != [] {
      var head := if s[0].Arr? && depth > 0 then FlatSeq(s[0].items, depth - 1) else [s[0]];
      if s[0].Arr? && depth > 0 {
        FlatKeepsLeaves(s[0].items, depth - 1);
      } else if s[0].Arr? {
        assert Leaves([s[0]]) == Leaves(s[0].items) + Leaves([]);
      } else {
        assert Leaves([s[0]]) == [s[0]] + Leaves([]);
      }
      FlatKeepsLeaves(s[1..], depth);
      LeavesAppend(head, FlatSeq(s[1..], depth));
    }
  }

  /** With a depth at least the nesting height, `flat` leaves no array: it is `Leaves`. */
  lemma {:induction false} FlatDeepIsLeaves(s: seq<Val>, depth: int)
    requires depth >= Height(s)
    ensures FlatSeq(s, depth) == Leaves(s)
    decreases s
  {
    if s != [] {
      if s[0].Arr? {
        FlatDeepIsLeaves(s[0].items, depth - 1);
      }
      FlatDeepIsLeaves(s[1..], depth);
    }
  }

  /** flat([1,[2,3],[4,5,[6,7]]]) is [1,2,3,4,5,[6,7]]. */
  lemma FlatExample(s: seq<Val>)
    requires s == [Num(1), Arr([Num(2), Num(3)]), Arr([Num(4), Num(5), Arr([Num(6), Num(7)])])]
    ensures Flat(Arr(s), 1) == [Num(1), Num(2), Num(3), Num(4), Num(5), Arr([Num(6), Num(7)])]
  {
    var inner := [Num(4), Num(5), Arr([Num(6), Num(7)])];
    assert FlatSeq(inner, 0) == inner by {
      assert inner[1..][1..][1..] == [];
      assert inner[1..][1..] == [Arr([Num(6), Num(7)])];
      assert inner[1..] == [Num(5), Arr([Num(6), Num(7)])];
    }
    assert FlatSeq([Num(2), Num(3)], 0) == [Num(2), Num(3)] by {
      assert [Num(2), Num(3)][1..] == [Num(3)];
      assert [Num(3)][1..] == [];
    }
    assert s[1..][1..][1..] == [];
    assert s[1..][1..] == [Arr(inner)];
    assert s[1..] == [Arr([Num(2), Num(3)]), Arr(inner)];
    assert FlatSeq(s[1..][1..], 1) == inner + [];
    assert FlatSeq(s[1..], 1) == [Num(2), Num(3)] + inner;
    assert FlatSeq(s, 1) == [Num(1)] + ([Num(2), Num(3)] + inner);
  }

  // ---------------------------------------------------------------------------
  // findIndex / findLastIndex (src/array.ts:595-653)

  function FindIndexStep(cb: Callback, from: int): Step<int> {
    (rs: int, v: Val, k: Val) =>
      if Truthy(cb(v, k)) then ((if k.Num? then k.n else 0) + from, Bool(false)) else (rs, Undef)
  }

  /** `findIndex(array, predicate, fromIndex)`: the predicate runs over
      `slice(array, fromIndex || 0)` with the slice's own indices. */
  function FindIndex(c: Val, p: Arg, fromIndex: Option<int>): int {
    var from := if fromIndex.None? then 0 else fromIndex.value;
    Fold(Entries(Arr(Slice(c, fromIndex, None))), -1, FindIndexStep(Iteratee(p), from))
  }

  lemma {:induction false} FindIndexFold(es: seq<(Val, Val)>, base: nat, cb: Callback, from: int)
    requires forall i :: 0 <= i < |es| ==> es[i].0 == Num(base + i)
    ensures Fold(es, -1, FindIndexStep(cb, from)) ==
      match FirstMatch(es, cb) case Some(i) => base + i + from case None => -1
    decreases |es|
  {
    if es != [] {
      if !Truthy(cb(es[0].1, es[0].0)) {
        FindIndexFold(es[1..], base + 1, cb, from);
      }
    }
  }

  /** Over the slice, the result is -1 when the predicate accepts nothing, else the first
      accepted slice position plus the offset. */
  lemma FindIndexOn(sl: seq<Val>, cb: Callback, from: int)
    ensures var r := Fold(Entries(Arr(sl)), -1, FindIndexStep(cb, from));
      (r == -1 && forall j :: 0 <= j < |sl| ==> !Truthy(cb(sl[j], Num(j)))) ||
      (from <= r < from + |sl| && Truthy(cb(sl[r - from], Num(r - from))) &&
       forall j :: 0 <= j < r - from ==> !Truthy(cb(sl[j], Num(j))))
  {
    var es := Entries(Arr(sl));
    FindIndexFold(es, 0, cb, from);
  }

  /** From a start within the array, `findIndex` gives the first index at or after it
      whose element the predicate accepts (called with the position in the slice), or -1
      when there is none. */
  lemma FindIndexMeaning(c: Val, p: Arg, from: nat)
    requires from <= |ToArray(c)|
    ensures var a := ToArray(c); var cb := Iteratee(p); var r := FindIndex(c, p, Some(from));
      (r == -1 && forall j :: from <= j < |a| ==> !Truthy(cb(a[j], Num(j - from)))) ||
      (from <= r < |a| && Truthy(cb(a[r], Num(r - from))) &&
       forall j :: from <= j < r ==> !Truthy(cb(a[j], Num(j - from))))
  {
    var a := ToArray(c);
    assert Slice(c, Some(from), None) == a[from..];
    FindIndexFrom(a, Iteratee(p), from);
  }

  lemma FindIndexFrom(a: seq<Val>, cb: Callback, from: nat)
    requires from <= |a|
    ensures var r := Fold(Entries(Arr(a[from..])), -1, FindIndexStep(cb, from));
      (r == -1 && forall j :: from <= j < |a| ==> !Truthy(cb(a[j], Num(j - from)))) ||
      (from <= r < |a| && Truthy(cb(a[r], Num(r - from))) &&
       forall j :: from <= j < r ==> !Truthy(cb(a[j], Num(j - from))))
  {
    var sl := a[from..];
    FindIndexOn(sl, cb, from);
    var r := Fold(Entries(Arr(sl)), -1, FindIndexStep(cb, from));
    if r == -1 {
      forall j | from <= j < |a| ensures !Truthy(cb(a[j], Num(j - from))) {
        assert a[j] == sl[j - from];
      }
    } else {
      assert a[r] == sl[r - from];
      forall j | from <= j < r ensures !Truthy(cb(a[j], Num(j - from))) {
        assert a[j] == sl[j - from];
      }
    }
  }

  function FindLastStep(cb: Callback): Step<int> {
    (rs: int, v: Val, k: Val) => if Truthy(cb(v, k)) then ((if k.Num? then k.n else 0), Bool(false)) else (rs, Undef)
  }

  /** `slice`'s end `size(array) - 1 + 1` as a position: the size converted to a number
      and truncated, 0 when that is NaN. */
  function SizeEnd(c: Val): int {
    match ToNumber(Size(c))
    case Fin(r) => Trunc(r)
    case NotANumber => 0
  }

  /** `findLastIndex(array, predicate, fromIndex)`: the predicate runs backward over
      `slice(array, 0, from + 1)`, where `from` is `fromIndex || 0`, or `size - 1` when
      `fromIndex` is undefined. */
  function FindLastIndex(c: Val, p: Arg, fromIndex: Option<int>): int {
    var from := if fromIndex.None? then SizeEnd(c) - 1 else fromIndex.value;
    Fold(Reversed(Entries(Arr(Slice(c, None, Some(from + 1))))), -1, FindLastStep(Iteratee(p)))
  }

  lemma {:induction false} FindLastFoldIndex(es: seq<(Val, Val)>, cb: Callback)
    requires forall i :: 0 <= i < |es| ==> es[i].0 == Num(i)
    ensures Fold(Reversed(es), -1, FindLastStep(cb)) ==
      match LastMatch(es, cb) case Some(i) => i case None => -1
    decreases |es|
  {
    if es != [] {
      ReversedLast(es);
      var r := Reversed(es);
      assert r[0] == es[|es| - 1] && r[1..] == Reversed(es[..|es| - 1]);
      if !Truthy(cb(es[|es| - 1].1, es[|es| - 1].0)) {
        FindLastFoldIndex(es[..|es| - 1], cb);
      }
    }
  }

  lemma FindLastIndexOn(sl: seq<Val>, cb: Callback)
    ensures var r := Fold(Reversed(Entries(Arr(sl))), -1, FindLastStep(cb));
      (r == -1 && forall j :: 0 <= j < |sl| ==> !Truthy(cb(sl[j], Num(j)))) ||
      (0 <= r < |sl| && Truthy(cb(sl[r], Num(r))) && forall j :: r < j < |sl| ==> !Truthy(cb(sl[j], Num(j))))
  {
    FindLastFoldIndex(Entries(Arr(sl)), cb);
  }

  /** Up to a position inside the array, `findLastIndex` gives the last index at or
      before it whose element the predicate accepts, or -1 when there is none. */
  lemma FindLastIndexMeaning(c: Val, p: Arg, from: nat)
    requires from < |ToArray(c)|
    ensures var a := ToArray(c); var cb := Iteratee(p); var r := FindLastIndex(c, p, Some(from));
      (r == -1 && forall j :: 0 <= j <= from ==> !Truthy(cb(a[j], Num(j)))) ||
      (0 <= r <= from && Truthy(cb(a[r], Num(r))) &&
       forall j :: r < j <= from ==> !Truthy(cb(a[j], Num(j))))
  {
    FindLastIndexSlice(c, p, from);
    FindLastIndexUpTo(ToArray(c), Iteratee(p), from);
  }

  /** With a position inside the array, `findLastIndex` folds over the prefix up to it. */
  lemma FindLastIndexSlice(c: Val, p: Arg, from: nat)
    requires from < |ToArray(c)|
    ensures FindLastIndex(c, p, Some(from)) ==
      Fold(Reversed(Entries(Arr(ToArray(c)[..from + 1]))), -1, FindLastStep(Iteratee(p)))
  {
    assert Slice(c, None, Some(from + 1)) == ToArray(c)[..from + 1];
  }

  lemma FindLastIndexUpTo(a: seq<Val>, cb: Callback, from: nat)
    requires from < |a|
    ensures var r := Fold(Reversed(Entries(Arr(a[..from + 1]))), -1, FindLastStep(cb));
      (r == -1 && forall j :: 0 <= j <= from ==> !Truthy(cb(a[j], Num(j)))) ||
      (0 <= r <= from && Truthy(cb(a[r], Num(r))) &&
       forall j :: r < j <= from ==> !Truthy(cb(a[j], Num(j))))
  {
    var sl := a[..from + 1];
    FindLastIndexOn(sl, cb);
    assert forall j :: 0 <= j <= from ==> a[j] == sl[j];
  }

  // ---------------------------------------------------------------------------
  // range (src/array.ts:546-575), the forms without a step, and times (src/utils.ts:219-221)

  /** A numeric argument of `range` after `>> 0`. */
  function RangeInt(v: Val): int {
    ToInt32(ToNumber(v))
  }

  /** The bounds `range(start, end)` settles on. `range(end)` leaves `end` undefined and
      counts from 0, an undefined `start` is the default 0, and arguments that are not
      numbers leave both bounds 0. */
  function RangeBounds(start: Val, end: Val): (int, int) {
    var s := if start == Undef then Num(0) else start;
    if IsNumber(s) && end == Undef then (0, RangeInt(s))
    else if IsNumber(s) && IsNumber(end) then (RangeInt(s), RangeInt(end))
    else (0, 0)
  }

  /** The integers from `a` toward `b` in steps of one, `b` excluded. */
  function Steps(a: int, b: int): seq<Val>
    decreases if a < b then b - a else a - b
  {
    if a == b then [] else [Num(a)] + Steps(if a < b then a + 1 else a - 1, b)
  }

  /** There are |b - a| steps, the i-th of them `a + i` upward and `a - i` downward. */
  lemma {:induction false} StepsMeaning(a: int, b: int)
    ensures |Steps(a, b)| == if a < b then b - a else a - b
    ensures forall i :: 0 <= i < |Steps(a, b)| ==> Steps(a, b)[i] == Num(if a < b then a + i else a - i)
    decreases if a < b then b - a else a - b
  {
    if a != b {
      var a' := if a < b then a + 1 else a - 1;
      StepsMeaning(a', b);
      forall i | 1 <= i < |Steps(a, b)|
        ensures Steps(a, b)[i] == Num(if a < b then a + i else a - i)
      {
        assert Steps(a, b)[i] == Steps(a', b)[i - 1];
      }
    }
  }

  /** `range(start, end)`: the loop that fills the array one step at a time. */
  method Range(start: Val, end: Val) returns (rs: seq<Val>)
    ensures rs == Steps(RangeBounds(start, end).0, RangeBounds(start, end).1)
  {
    var bounds := RangeBounds(start, end);
    var a, b := bounds.0, bounds.1;
    rs := [];
    var i := a;
    if b > a {
      while i < b
        invariant a <= i <= b
        invariant rs + Steps(i, b) == Steps(a, b)
        decreases b - i
      {
        StepsPush(rs, i, b);
        rs := rs + [Num(i)];
        i := i + 1;
      }
    } else if b < a {
      while i > b
        invariant b <= i <= a
        invariant rs + Steps(i, b) == Steps(a, b)
        decreases i - b
      {
        StepsPush(rs, i, b);
        rs := rs + [Num(i)];
        i := i - 1;
      }
    }
    assert rs + [] == rs;
  }

  lemma StepsPush(rs: seq<Val>, i: int, b: int)
    requires i != b
    ensures rs + Steps(i, b) == (rs + [Num(i)]) + Steps(if i < b then i + 1 else i - 1, b)
  {
  }

  /** `range(n)` for a 32-bit integer `n` is 0, 1, ..., n-1 when n > 0 and 0, -1, ..., n+1
      when n < 0; `range(a, b)` has |b - a| elements stepping by one toward `b`. */
  lemma RangeForms(n: int, a: int, b: int)
    requires -TwoTo31 <= n < TwoTo31 && -TwoTo31 <= a < TwoTo31 && -TwoTo31 <= b < TwoTo31
    ensures var r := Steps(RangeBounds(Num(n), Undef).0, RangeBounds(Num(n), Undef).1);
      |r| == (if n >= 0 then n else -n) &&
      forall i :: 0 <= i < |r| ==> r[i] == Num(if n > 0 then i else -i)
    ensures var r := Steps(RangeBounds(Num(a), Num(b)).0, RangeBounds(Num(a), Num(b)).1);
      |r| == (if a <= b then b - a else a - b) &&
      forall i :: 0 <= i < |r| ==> r[i] == Num(if a < b then a + i else a - i)
  {
    ToInt32InRange(n);
    ToInt32InRange(a);
    ToInt32InRange(b);
    StepsMeaning(0, n);
    StepsMeaning(a, b);
  }

  /** A bound given as a string or a boolean is not a number, so the range is empty. */
  lemma RangeOfNonNumbers()
    ensures RangeBounds(Str("5"), Undef) == (0, 0) && Steps(0, 0) == []
    ensures RangeBounds(Num(1), Str("5")) == (0, 0)
  {
  }

  /** `times(n, f)`: `range(n)` mapped by `f`, which receives each value and its index. */
  function Times(n: Val, f: Callback): seq<Val> {
    var (a, b) := RangeBounds(n, Undef);
    var r := Steps(a, b);
    seq(|r|, i requires 0 <= i < |r| => f(r[i], Num(i)))
  }

  /** `times(n, f)` for a positive 32-bit `n` calls `f` on 0..n-1 and keeps the results. */
  lemma TimesMeaning(n: int, f: Callback)
    requires 0 <= n < TwoTo31
    ensures |Times(Num(n), f)| == n
    ensures forall i :: 0 <= i < n ==> Times(Num(n), f)[i] == f(Num(i), Num(i))
  {
    RangeForms(n, 0, 0);
  }

  // ---------------------------------------------------------------------------
  // uniq / uniqBy / union (src/array.ts:36-70, 318-349)

  /** The key under which a JavaScript `Map` or `Set` stores `v`: -0 is stored as +0,
      and stored keys are compared by SameValueZero, which is then plain equality. */
  function MapKey(v: Val): Val {
    if v == NegZero then Num(0) else v
  }

  lemma MapKeySameValueZero(a: Val, b: Val)
    ensures SameValueZero(a, b) <==> MapKey(a) == MapKey(b)
  {
  }

  function MapKeys(xs: seq<Val>): (ks: seq<Val>)
    ensures |ks| == |xs| && forall i :: 0 <= i < |xs| ==> ks[i] == MapKey(xs[i])
  {
    seq(|xs|, i requires 0 <= i < |xs| => MapKey(xs[i]))
  }

  /** The elements of `xs` whose key no earlier element has, in order. */
  function FirstPerKey(xs: seq<Val>, keys: seq<Val>): seq<Val>
    requires |xs| == |keys|
    decreases |xs|
  {
    if xs == [] then []
    else
      var n := |xs| - 1;
      FirstPerKey(xs[..n], keys[..n]) + (if keys[n] in keys[..n] then [] else [xs[n]])
  }

  /** `FirstPerKey` keeps exactly the elements that are the first with their key. */
  lemma {:induction false} FirstPerKeyKeeps(xs: seq<Val>, keys: seq<Val>)
    requires |xs| == |keys|
    ensures forall i :: 0 <= i < |xs| && keys[i] !in keys[..i] ==> xs[i] in FirstPerKey(xs, keys)
    ensures forall y :: y in FirstPerKey(xs, keys) ==>
      exists i :: 0 <= i < |xs| && keys[i] !in keys[..i] && xs[i] == y
    decreases |xs|
  {
    if xs != [] {
      var n := |xs| - 1;
      var r0 := FirstPerKey(xs[..n], keys[..n]);
      FirstPerKeyKeeps(xs[..n], keys[..n]);
      var r := FirstPerKey(xs, keys);
      assert r == r0 + (if keys[n] in keys[..n] then [] else [xs[n]]);
      forall i | 0 <= i < |xs| && keys[i] !in keys[..i]
        ensures xs[i] in r
      {
        if i < n {
          assert keys[..n][..i] == keys[..i] && xs[..n][i] == xs[i] && keys[..n][i] == keys[i];
          assert xs[i] in r0;
        }
      }
      forall y | y in r
        ensures exists i :: 0 <= i < |xs| && keys[i] !in keys[..i] && xs[i] == y
      {
        if y in r0 {
          var i :| 0 <= i < n && keys[..n][i] !in keys[..n][..i] && xs[..n][i] == y;
          assert keys[..n][..i] == keys[..i];
        } else {
          assert y == xs[n] && keys[n] !in keys[..n];
        }
      }
    }
  }

  /** Without the -0 normalisation the kept elements of a key list that is its own key
      list have pairwise distinct keys, and every key of the input is kept. */
  lemma {:induction false} FirstPerKeyDistinct(ks: seq<Val>)
    ensures var r := FirstPerKey(ks, ks);
      (forall i, j :: 0 <= i < j < |r| ==> r[i] != r[j]) && forall k :: k in ks <==> k in r
    decreases |ks|
  {
    if ks != [] {
      var n := |ks| - 1;
      FirstPerKeyDistinct(ks[..n]);
      assert ks == ks[..n] + [ks[n]];
    }
  }

  /** `uniq(array)`: the values of `new Set(toArray(array))`. */
  function Uniq(c: Val): seq<Val> {
    var ks := MapKeys(ToArray(c));
    FirstPerKey(ks, ks)
  }

  /** `uniq` keeps one value per SameValueZero class, each in stored form. */
  lemma UniqMeaning(c: Val)
    ensures forall i, j :: 0 <= i < j < |Uniq(c)| ==> !SameValueZero(Uniq(c)[i], Uniq(c)[j])
    ensures forall x :: x in ToArray(c) ==> exists y :: y in Uniq(c) && SameValueZero(x, y)
    ensures forall y :: y in Uniq(c) ==> exists x :: x in ToArray(c) && SameValueZero(x, y)
  {
    var ks := MapKeys(ToArray(c));
    FirstPerKeyDistinct(ks);
    forall i, j | 0 <= i < j < |Uniq(c)| ensures !SameValueZero(Uniq(c)[i], Uniq(c)[j]) {
      MapKeySameValueZero(Uniq(c)[i], Uniq(c)[j]);
      assert Uniq(c)[i] in ks;
      assert Uniq(c)[j] in ks;
    }
    forall x | x in ToArray(c) ensures exists y :: y in Uniq(c) && SameValueZero(x, y) {
      var i :| 0 <= i < |ToArray(c)| && ToArray(c)[i] == x;
      assert ks[i] in Uniq(c);
      MapKeySameValueZero(x, ks[i]);
    }
    forall y | y in Uniq(c) ensures exists x :: x in ToArray(c) && SameValueZero(x, y) {
      assert y in ks;
      var i :| 0 <= i < |ks| && ks[i] == y;
      MapKeySameValueZero(ToArray(c)[i], y);
    }
  }

  /** The iteratee of `uniqBy`: `iteratee(itee || identity)`. */
  function UniqCallback(p: Arg): Callback {
    if p.Value? && !Truthy(p.v) then Iteratee(Value(Undef)) else Iteratee(p)
  }

  /** The `Map` keys `uniqBy` computes for entries, `cb(v, k)`. */
  function KeysBy(es: seq<(Val, Val)>, cb: Callback): (ks: seq<Val>)
    ensures |ks| == |es| && forall i :: 0 <= i < |es| ==> ks[i] == MapKey(cb(es[i].1, es[i].0))
  {
    seq(|es|, i requires 0 <= i < |es| => MapKey(cb(es[i].1, es[i].0)))
  }

  /** `uniqBy(array, itee)`: the loop over `each` with a `Map` of the keys seen so far,
      keeping each value whose key is new. */
  method UniqBy(c: Val, p: Arg) returns (rs: seq<Val>)
    ensures var es := Entries(c); rs == FirstPerKey(ValuesOf(es), KeysBy(es, UniqCallback(p)))
  {
    var cb := UniqCallback(p);
    var es := Entries(c);
    var keyMap: seq<Val> := [];
    rs := [];
    for i := 0 to |es|
      invariant rs == FirstPerKey(ValuesOf(es[..i]), KeysBy(es[..i], cb))
      invariant forall k :: k in keyMap <==> k in KeysBy(es[..i], cb)
    {
      var key := MapKey(cb(es[i].1, es[i].0));
      UniqByStep(es, cb, i);
      if key !in keyMap {
        keyMap := keyMap + [key];
        rs := rs + [es[i].1];
      }
    }
    assert es[..|es|] == es;
  }

  /** The entry `i` is kept by `uniqBy` when its key is new. */
  lemma UniqByStep(es: seq<(Val, Val)>, cb: Callback, i: nat)
    requires i < |es|
    ensures var key := MapKey(cb(es[i].1, es[i].0));
      var ks := KeysBy(es[..i], cb);
      KeysBy(es[..i + 1], cb) == ks + [key] &&
      FirstPerKey(ValuesOf(es[..i + 1]), KeysBy(es[..i + 1], cb)) ==
        FirstPerKey(ValuesOf(es[..i]), ks) + (if key in ks then [] else [es[i].1])
  {
    var key := MapKey(cb(es[i].1, es[i].0));
    assert ValuesOf(es[..i + 1])[..i] == ValuesOf(es[..i]);
    assert KeysBy(es[..i + 1], cb)[..i] == KeysBy(es[..i], cb);
    assert KeysBy(es[..i + 1], cb) == KeysBy(es[..i], cb) + [key];
  }

  /** `uniqBy` keeps a value exactly when no earlier value has the same key. */
  lemma UniqByMeaning(c: Val, p: Arg)
    ensures var es := Entries(c); var ks := KeysBy(es, UniqCallback(p));
      var r := FirstPerKey(ValuesOf(es), ks);
      (forall i :: 0 <= i < |es| && ks[i] !in ks[..i] ==> es[i].1 in r) &&
      (forall y :: y in r ==> exists i :: 0 <= i < |es| && ks[i] !in ks[..i] && es[i].1 == y)
  {
    var es := Entries(c);
    FirstPerKeyKeeps(ValuesOf(es), KeysBy(es, UniqCallback(p)));
  }

  /** An argument of `except`, `union` and `intersect`: a value, or an identifier function. */
  datatype Param = PVal(v: Val) | PFun(f: Val -> Val)

  /** The arrays and the identifier the three set functions work with: a function last
      among more than two arguments is the identifier, and of the rest only array-likes
      are kept (a function is not array-like). */
  function SetArgs(params: seq<Param>): (seq<Val>, Option<Val -> Val>) {
    var hasCmp := |params| > 2 && params[|params| - 1].PFun?;
    var rest := if hasCmp then params[..|params| - 1] else params;
    (ArrayLikes(rest), if hasCmp then Some(params[|params| - 1].f) else None)
  }

  function ArrayLikes(ps: seq<Param>): (ls: seq<Val>)
    ensures forall i :: 0 <= i < |ls| ==> IsArrayLike(ls[i])
  {
    if ps == [] then []
    else (if ps[0].PVal? && IsArrayLike(ps[0].v) then [ps[0].v] else []) + ArrayLikes(ps[1..])
  }

  lemma IdsForSnoc(cmp: Option<Val -> Val>, xs: seq<Val>)
    requires xs != []
    ensures IdsFor(cmp, xs) == IdsFor(cmp, xs[..|xs| - 1]) + [IdOf(cmp, xs[|xs| - 1])]
  {
    var n := |xs| - 1;
    var a, b := IdsFor(cmp, xs), IdsFor(cmp, xs[..n]) + [IdOf(cmp, xs[n])];
    forall i | 0 <= i < |a| ensures a[i] == b[i] {
      if i < n {
        assert xs[..n][i] == xs[i];
      }
    }
  }

  /** The `Map` key of a value's id. */
  function IdOf(cmp: Option<Val -> Val>, v: Val): Val {
    MapKey(if cmp.Some? then cmp.value(v) else v)
  }

  function IdsFor(cmp: Option<Val -> Val>, xs: seq<Val>): (ks: seq<Val>)
    ensures |ks| == |xs| && forall i :: 0 <= i < |xs| ==> ks[i] == IdOf(cmp, xs[i])
  {
    seq(|xs|, i requires 0 <= i < |xs| => IdOf(cmp, xs[i]))
  }

  /** `kvMap.get(id)`: the value stored under the id, undefined when there is none. */
  function KvGet(t: seq<(Val, Val)>, k: Val): (v: Val)
    ensures (forall j :: 0 <= j < |t| ==> t[j].0 != k) ==> v == Undef
  {
    if t == [] then Undef else if t[0].0 == k then t[0].1 else KvGet(t[1..], k)
  }

  /** `kvMap.set(id, v)`: an existing id keeps its place and takes the new value, a new
      one goes last. */
  function KvSet(t: seq<(Val, Val)>, k: Val, v: Val): (r: seq<(Val, Val)>)
    ensures KvGet(r, k) == v
    ensures forall k2 :: k2 != k ==> KvGet(r, k2) == KvGet(t, k2)
    ensures |r| >= |t|
  {
    if t == [] then [(k, v)]
    else if t[0].0 == k then [(k, v)] + t[1..]
    else [t[0]] + KvSet(t[1..], k, v)
  }

  /** The ids of a table, in order. */
  function TableKeys(t: seq<(Val, Val)>): (ks: seq<Val>)
    ensures |ks| == |t| && forall j :: 0 <= j < |t| ==> ks[j] == t[j].0
  {
    if t == [] then [] else [t[0].0] + TableKeys(t[1..])
  }

  /** The ids of a table with one more entry in front. */
  lemma TableKeysCons(e: (Val, Val), t: seq<(Val, Val)>)
    ensures TableKeys([e] + t) == [e.0] + TableKeys(t)
  {
    assert ([e] + t)[1..] == t;
  }

  /** Setting an id keeps the order of the ids: a present one stays, a new one goes last. */
  lemma {:induction false} KvSetKeys(t: seq<(Val, Val)>, k: Val, v: Val)
    ensures k in TableKeys(t) ==> TableKeys(KvSet(t, k, v)) == TableKeys(t)
    ensures k !in TableKeys(t) ==> TableKeys(KvSet(t, k, v)) == TableKeys(t) + [k]
    decreases |t|
  {
    if t == [] {
      assert TableKeys(KvSet(t, k, v)) == [k];
    } else if t[0].0 == k {
      KvSetKeysHere(t, k, v);
    } else {
      KvSetKeys(t[1..], k, v);
      KvSetKeysPast(t, k, v);
      KvSetKeysFront(t[0].0, TableKeys(t[1..]), TableKeys(KvSet(t[1..], k, v)), k);
    }
  }

  /** The id set is the first one: its entry is replaced where it is. */
  lemma KvSetKeysHere(t: seq<(Val, Val)>, k: Val, v: Val)
    requires t != [] && t[0].0 == k
    ensures k in TableKeys(t) && TableKeys(KvSet(t, k, v)) == TableKeys(t)
  {
    assert t == [t[0]] + t[1..];
    TableKeysCons(t[0], t[1..]);
    assert KvSet(t, k, v) == [(k, v)] + t[1..];
    TableKeysCons((k, v), t[1..]);
  }

  /** The id set is not the first one: the first entry stays in front of the rest. */
  lemma KvSetKeysPast(t: seq<(Val, Val)>, k: Val, v: Val)
    requires t != [] && t[0].0 != k
    ensures TableKeys(KvSet(t, k, v)) == [t[0].0] + TableKeys(KvSet(t[1..], k, v))
    ensures TableKeys(t) == [t[0].0] + TableKeys(t[1..])
  {
    var r := KvSet(t[1..], k, v);
    assert KvSet(t, k, v) == [t[0]] + r;
    assert t == [t[0]] + t[1..];
    TableKeysCons(t[0], t[1..]);
    TableKeysCons(t[0], r);
  }

  /** An id other than `k` in front of the ids before and after setting `k`. */
  lemma KvSetKeysFront(h: Val, ks: seq<Val>, ks': seq<Val>, k: Val)
    requires h != k
    requires k in ks ==> ks' == ks
    requires k !in ks ==> ks' == ks + [k]
    ensures k in [h] + ks ==> [h] + ks' == [h] + ks
    ensures k !in [h] + ks ==> [h] + ks' == [h] + ks + [k]
  {
    assert k in [h] + ks <==> k in ks;
  }

  /** With distinct ids, the entry at position `j` is what `get` reads for its id. */
  lemma {:induction false} KvGetAt(t: seq<(Val, Val)>, j: nat)
    requires j < |t|
    requires forall a, b :: 0 <= a < b < |t| ==> t[a].0 != t[b].0
    ensures KvGet(t, t[j].0) == t[j].1
  {
    if j > 0 {
      KvGetAt(t[1..], j - 1);
    }
  }

  /** The `forEach` of `union` with an identifier: a value is stored under its id unless
      the id already holds a truthy value (`if (!kvMap.get(id))`). */
  function UnionTable(xs: seq<Val>, ids: seq<Val>): seq<(Val, Val)>
    requires |xs| == |ids|
    decreases |xs|
  {
    if xs == [] then []
    else
      var n := |xs| - 1;
      var t := UnionTable(xs[..n], ids[..n]);
      if Truthy(KvGet(t, ids[n])) then t else KvSet(t, ids[n], xs[n])
  }

  /** Position `i` holds the first truthy value with id `k`. */
  predicate FirstTruthyAt(xs: seq<Val>, ids: seq<Val>, k: Val, i: int)
    requires |xs| == |ids|
  {
    0 <= i < |xs| && ids[i] == k && Truthy(xs[i]) &&
    forall j :: 0 <= j < i && ids[j] == k ==> !Truthy(xs[j])
  }

  /** Among the first `n` ids, position `i` holds the last `k`. */
  predicate LastAt(ids: seq<Val>, n: nat, k: Val, i: int)
    requires n <= |ids|
  {
    0 <= i < n && ids[i] == k && forall j :: i < j < n ==> ids[j] != k
  }

  /** `v` is the value `union` keeps for id `k` after the first `n` values: the first
      truthy value with that id, or, when all of them are falsy, the last one. */
  predicate KeptUpTo(xs: seq<Val>, ids: seq<Val>, n: nat, k: Val, v: Val)
    requires n <= |xs| == |ids|
  {
    (forall i :: 0 <= i < n && FirstTruthyAt(xs, ids, k, i) ==> v == xs[i]) &&
    ((forall j :: 0 <= j < n && ids[j] == k ==> !Truthy(xs[j])) ==>
      forall i :: 0 <= i < n && LastAt(ids, n, k, i) ==> v == xs[i])
  }

  /** `v` is the value `union` keeps for id `k`. */
  predicate KeptFor(xs: seq<Val>, ids: seq<Val>, k: Val, v: Val)
    requires |xs| == |ids|
  {
    KeptUpTo(xs, ids, |xs|, k, v)
  }

  /** What the table holds under an id: nothing for an id that does not occur, else the
      first truthy value with the id, or the last value when they are all falsy. */
  lemma UnionTableValue(xs: seq<Val>, ids: seq<Val>, k: Val)
    requires |xs| == |ids|
    ensures k !in ids ==> KvGet(UnionTable(xs, ids), k) == Undef
    ensures KeptFor(xs, ids, k, KvGet(UnionTable(xs, ids), k))
    ensures Truthy(KvGet(UnionTable(xs, ids), k)) ==>
      exists j :: 0 <= j < |xs| && ids[j] == k && Truthy(xs[j])
  {
    UnionTableUpTo(xs, ids, k, |xs|);
    assert xs[..|xs|] == xs && ids[..|xs|] == ids;
  }

  /** `UnionTableValue` for the table of the first `n` values. */
  lemma {:induction false} UnionTableUpTo(xs: seq<Val>, ids: seq<Val>, k: Val, n: nat)
    requires n <= |xs| == |ids|
    ensures KeptStepFacts(xs, ids, n, k, KvGet(UnionTable(xs[..n], ids[..n]), k))
    decreases n
  {
    if n > 0 {
      var m := n - 1;
      UnionTableUpTo(xs, ids, k, m);
      var t := UnionTable(xs[..m], ids[..m]);
      assert xs[..n][..m] == xs[..m] && ids[..n][..m] == ids[..m];
      assert UnionTable(xs[..n], ids[..n]) == if Truthy(KvGet(t, ids[m])) then t else KvSet(t, ids[m], xs[m]);
      KeptStep(xs, ids, n, k, KvGet(t, k), KvGet(UnionTable(xs[..n], ids[..n]), k));
    }
  }

  /** What `UnionTableUpTo` states about the value `v` kept for `k` after `n` values. */
  predicate KeptStepFacts(xs: seq<Val>, ids: seq<Val>, n: nat, k: Val, v: Val)
    requires n <= |xs| == |ids|
  {
    ((forall j :: 0 <= j < n ==> ids[j] != k) ==> v == Undef) &&
    KeptUpTo(xs, ids, n, k, v) &&
    (Truthy(v) ==> exists j :: 0 <= j < n && ids[j] == k && Truthy(xs[j]))
  }

  /** One `forEach` step: the value kept for `k` moves from `vp` to `v`. */
  lemma KeptStep(xs: seq<Val>, ids: seq<Val>, n: nat, k: Val, vp: Val, v: Val)
    requires 0 < n <= |xs| == |ids|
    requires KeptStepFacts(xs, ids, n - 1, k, vp)
    requires v == if k != ids[n - 1] || Truthy(vp) then vp else xs[n - 1]
    ensures KeptStepFacts(xs, ids, n, k, v)
  {
    if k != ids[n - 1] {
      KeptOther(xs, ids, n, k, vp);
    } else if Truthy(vp) {
      var w :| 0 <= w < n - 1 && ids[w] == k && Truthy(xs[w]);
      KeptKeep(xs, ids, n, k, vp, w);
    } else {
      KeptSet(xs, ids, n, k, vp);
    }
  }

  /** A value with another id changes nothing about id `k`. */
  lemma KeptOther(xs: seq<Val>, ids: seq<Val>, n: nat, k: Val, v: Val)
    requires 0 < n <= |xs| == |ids| && ids[n - 1] != k
    requires KeptUpTo(xs, ids, n - 1, k, v)
    ensures KeptUpTo(xs, ids, n, k, v)
  {
    forall i | 0 <= i < n && FirstTruthyAt(xs, ids, k, i) ensures v == xs[i] {
      assert i < n - 1;
    }
    var allFalsy := forall j :: 0 <= j < n && ids[j] == k ==> !Truthy(xs[j]);
    forall i | allFalsy && 0 <= i < n && LastAt(ids, n, k, i) ensures v == xs[i] {
      assert LastAt(ids, n - 1, k, i);
    }
  }

  /** A truthy value already stored under `k` stays the first truthy one. */
  lemma KeptKeep(xs: seq<Val>, ids: seq<Val>, n: nat, k: Val, v: Val, w: nat)
    requires 0 < n <= |xs| == |ids| && ids[n - 1] == k
    requires KeptUpTo(xs, ids, n - 1, k, v)
    requires w < n - 1 && ids[w] == k && Truthy(xs[w])
    ensures KeptUpTo(xs, ids, n, k, v)
  {
    forall i | 0 <= i < n && FirstTruthyAt(xs, ids, k, i) ensures i < n - 1 {
      assert i <= w;
    }
  }

  /** Storing a value under `k` over a falsy one makes it the kept value. */
  lemma KeptSet(xs: seq<Val>, ids: seq<Val>, n: nat, k: Val, vp: Val)
    requires 0 < n <= |xs| == |ids| && ids[n - 1] == k
    requires KeptUpTo(xs, ids, n - 1, k, vp) && !Truthy(vp)
    ensures KeptUpTo(xs, ids, n, k, xs[n - 1])
  {
    forall i | 0 <= i < n - 1 ensures !FirstTruthyAt(xs, ids, k, i) {
    }
    forall i | 0 <= i < n && LastAt(ids, n, k, i) ensures i == n - 1 {
    }
  }

  /** The table holds the distinct ids in the order they first occur. */
  lemma {:induction false} UnionTableKeys(xs: seq<Val>, ids: seq<Val>)
    requires |xs| == |ids|
    ensures TableKeys(UnionTable(xs, ids)) == FirstPerKey(ids, ids)
    decreases |xs|
  {
    if xs != [] {
      var n := |xs| - 1;
      var t, k := UnionTable(xs[..n], ids[..n]), ids[n];
      UnionTableKeys(xs[..n], ids[..n]);
      UnionTableLast(xs, ids);
      FirstPerKeyLast(ids, ids);
      FirstPerKeyDistinct(ids[..n]);
      if Truthy(KvGet(t, k)) {
        TruthyMeansSeen(xs[..n], ids[..n], k);
      } else {
        KvSetKeys(t, k, xs[n]);
      }
    }
  }

  /** The table after one more value. */
  lemma UnionTableLast(xs: seq<Val>, ids: seq<Val>)
    requires |xs| == |ids| && xs != []
    ensures var n := |xs| - 1; var t := UnionTable(xs[..n], ids[..n]);
      UnionTable(xs, ids) == if Truthy(KvGet(t, ids[n])) then t else KvSet(t, ids[n], xs[n])
  {
  }

  /** `FirstPerKey` after one more value. */
  lemma FirstPerKeyLast(xs: seq<Val>, keys: seq<Val>)
    requires |xs| == |keys| && xs != []
    ensures var n := |xs| - 1;
      FirstPerKey(xs, keys) == FirstPerKey(xs[..n], keys[..n]) + (if keys[n] in keys[..n] then [] else [xs[n]])
  {
  }

  /** An id under which the table holds a truthy value occurs among the ids. */
  lemma TruthyMeansSeen(xs: seq<Val>, ids: seq<Val>, k: Val)
    requires |xs| == |ids| && Truthy(KvGet(UnionTable(xs, ids), k))
    ensures k in ids
  {
    UnionTableValue(xs, ids, k);
    var j :| 0 <= j < |xs| && ids[j] == k && Truthy(xs[j]);
  }

  /** `union(...arrays[, identifier])`: with an identifier, the values of the id table
      `kvMap`; without one, the values of a `Set` of the flattened arrays. */
  function Union(params: seq<Param>): seq<Val> {
    var (lists, cmp) := SetArgs(params);
    if lists == [] then []
    else
      var fl := FlatSeq(lists, 1);
      if cmp.Some? then ValuesOf(UnionTable(fl, IdsFor(cmp, fl))) else Uniq(Arr(fl))
  }

  /** With an identifier, `union` has one value per id, in the order the ids first occur,
      and the value of an id is the first truthy value with it, or the last value with it
      when all of them are falsy: a falsy value is overwritten by a later one. */
  lemma UnionMeaning(params: seq<Param>)
    requires SetArgs(params).1.Some? && SetArgs(params).0 != []
    ensures var (lists, cmp) := SetArgs(params); var fl := FlatSeq(lists, 1); var ids := IdsFor(cmp, fl);
      var t := UnionTable(fl, ids);
      Union(params) == ValuesOf(t) && TableKeys(t) == FirstPerKey(ids, ids) &&
      forall j :: 0 <= j < |t| ==> KeptFor(fl, ids, t[j].0, Union(params)[j])
  {
    var (lists, cmp) := SetArgs(params);
    var fl := FlatSeq(lists, 1);
    var ids := IdsFor(cmp, fl);
    var t := UnionTable(fl, ids);
    UnionTableKeys(fl, ids);
    FirstPerKeyDistinct(ids);
    forall j | 0 <= j < |t| ensures KeptFor(fl, ids, t[j].0, Union(params)[j]) {
      assert forall a, b :: 0 <= a < b < |t| ==> t[a].0 != t[b].0 by {
        forall a, b | 0 <= a < b < |t| ensures t[a].0 != t[b].0 {
          assert TableKeys(t)[a] == t[a].0 && TableKeys(t)[b] == t[b].0;
        }
      }
      KvGetAt(t, j);
      UnionTableValue(fl, ids, t[j].0);
    }
  }

  /** The union the documentation describes: the first value of every id. */
  function UnionFirst(params: seq<Param>): seq<Val> {
    var (lists, cmp) := SetArgs(params);
    if lists == [] then []
    else
      var fl := FlatSeq(lists, 1);
      if cmp.Some? then FirstPerKey(fl, IdsFor(cmp, fl)) else Uniq(Arr(fl))
  }

  /** With an identifier, the corrected `union` keeps exactly the first value of every id
      occurring in the flattened arrays. */
  lemma UnionFirstMeaning(params: seq<Param>)
    requires SetArgs(params).1.Some? && SetArgs(params).0 != []
    ensures var (lists, cmp) := SetArgs(params); var fl := FlatSeq(lists, 1); var ids := IdsFor(cmp, fl);
      (forall i :: 0 <= i < |fl| && ids[i] !in ids[..i] ==> fl[i] in UnionFirst(params)) &&
      (forall y :: y in UnionFirst(params) ==> exists i :: 0 <= i < |fl| && ids[i] !in ids[..i] && fl[i] == y)
  {
    var (lists, cmp) := SetArgs(params);
    var fl := FlatSeq(lists, 1);
    var ids := IdsFor(cmp, fl);
    assert UnionFirst(params) == FirstPerKey(fl, ids);
    FirstPerKeyKeeps(fl, ids);
  }

  /** When every value is truthy the table keeps the first value of every id, so the
      written and the corrected `union` agree. */
  lemma {:induction false} UnionTableTruthy(xs: seq<Val>, ids: seq<Val>)
    requires |xs| == |ids|
    requires forall i :: 0 <= i < |xs| ==> Truthy(xs[i])
    ensures ValuesOf(UnionTable(xs, ids)) == FirstPerKey(xs, ids)
    decreases |xs|
  {
    if xs != [] {
      var n := |xs| - 1;
      var t := UnionTable(xs[..n], ids[..n]);
      UnionTableTruthy(xs[..n], ids[..n]);
      UnionTableLast(xs, ids);
      FirstPerKeyLast(xs, ids);
      if ids[n] in ids[..n] {
        TruthySeen(xs, ids, n);
      } else {
        UnionTableKeys(xs[..n], ids[..n]);
        FirstPerKeyDistinct(ids[..n]);
        TruthyNew(t, xs[..n], ids[..n], ids[n], xs[n]);
        ValuesOfSnoc(t, (ids[n], xs[n]));
      }
    }
  }

  /** The values of a table with one more entry at the end. */
  lemma ValuesOfSnoc(t: seq<(Val, Val)>, e: (Val, Val))
    ensures ValuesOf(t + [e]) == ValuesOf(t) + [e.1]
  {
  }

  /** With truthy values only, an id seen before holds a truthy value. */
  lemma TruthySeen(xs: seq<Val>, ids: seq<Val>, n: nat)
    requires n < |xs| == |ids| && ids[n] in ids[..n]
    requires forall i :: 0 <= i < |xs| ==> Truthy(xs[i])
    ensures Truthy(KvGet(UnionTable(xs[..n], ids[..n]), ids[n]))
  {
    var k := ids[n];
    UnionTableUpTo(xs, ids, k, n);
    var i := FirstIndex(ids[..n], k);
    forall j | 0 <= j < i ensures ids[j] != k {
      assert ids[j] == ids[..n][j];
    }
    assert FirstTruthyAt(xs, ids, k, i);
    assert KeptUpTo(xs, ids, n, k, KvGet(UnionTable(xs[..n], ids[..n]), k));
  }

  /** A new id is appended to the table with its value. */
  lemma TruthyNew(t: seq<(Val, Val)>, xs: seq<Val>, ids: seq<Val>, k: Val, v: Val)
    requires |xs| == |ids| && t == UnionTable(xs, ids) && k !in ids
    requires TableKeys(t) == FirstPerKey(ids, ids)
    requires forall k2 :: k2 in ids <==> k2 in FirstPerKey(ids, ids)
    ensures KvGet(t, k) == Undef && KvSet(t, k, v) == t + [(k, v)]
  {
    assert k !in TableKeys(t);
    KvSetAppends(t, k, v);
  }

  /** The first position of an element that occurs. */
  function FirstIndex(s: seq<Val>, k: Val): (i: nat)
    requires k in s
    ensures i < |s| && s[i] == k && forall j :: 0 <= j < i ==> s[j] != k
  {
    if s[0] == k then 0 else 1 + FirstIndex(s[1..], k)
  }

  /** Setting a new id appends one entry. */
  lemma {:induction false} KvSetAppends(t: seq<(Val, Val)>, k: Val, v: Val)
    requires k !in TableKeys(t)
    ensures KvSet(t, k, v) == t + [(k, v)]
  {
    if t != [] {
      assert k !in TableKeys(t[1..]) by {
        assert forall j :: 0 <= j < |t[1..]| ==> TableKeys(t[1..])[j] == TableKeys(t)[j + 1];
      }
      KvSetAppends(t[1..], k, v);
    }
  }

  lemma UnionAgreesOnTruthy(params: seq<Param>)
    requires forall i :: 0 <= i < |FlatSeq(SetArgs(params).0, 1)| ==> Truthy(FlatSeq(SetArgs(params).0, 1)[i])
    ensures Union(params) == UnionFirst(params)
  {
    var (lists, cmp) := SetArgs(params);
    if lists != [] && cmp.Some? {
      var fl := FlatSeq(lists, 1);
      UnionTableTruthy(fl, IdsFor(cmp, fl));
    }
  }

  /** `union([0], [1], v => 'k')`: the falsy 0 stored first under 'k' is overwritten by 1,
      where the first value per id would be 0. */
  lemma UnionFalsyExample(ps: seq<Param>)
    requires |ps| == 3 && ps[0] == PVal(Arr([Num(0)])) && ps[1] == PVal(Arr([Num(1)]))
    requires ps[2].PFun? && forall v :: ps[2].f(v) == Str("k")
    ensures Union(ps) == [Num(1)]
    ensures UnionFirst(ps) == [Num(0)]
  {
    UnionFalsyArgs(ps);
    var fl := [Num(0), Num(1)];
    var ids := IdsFor(Some(ps[2].f), fl);
    assert ids == [Str("k"), Str("k")];
    UnionFalsyTable(fl, ids);
  }

  lemma UnionFalsyArgs(ps: seq<Param>)
    requires |ps| == 3 && ps[0] == PVal(Arr([Num(0)])) && ps[1] == PVal(Arr([Num(1)]))
    requires ps[2].PFun?
    ensures SetArgs(ps) == ([Arr([Num(0)]), Arr([Num(1)])], Some(ps[2].f))
    ensures FlatSeq([Arr([Num(0)]), Arr([Num(1)])], 1) == [Num(0), Num(1)]
  {
    assert ps[1..] == [ps[1], ps[2]] && ps[..2] == [ps[0], ps[1]];
    assert ps[..2][1..] == [ps[1]] && ps[..2][1..][1..] == [];
    assert IsArrayLike(Arr([Num(0)])) && IsArrayLike(Arr([Num(1)]));
    assert ArrayLikes(ps[..2][1..]) == [Arr([Num(1)])];
    assert ArrayLikes(ps[..2]) == [Arr([Num(0)]), Arr([Num(1)])];
    assert [Arr([Num(0)]), Arr([Num(1)])][1..] == [Arr([Num(1)])];
    assert FlatSeq([Num(0)], 0) == [Num(0)] && FlatSeq([Num(1)], 0) == [Num(1)];
  }

  lemma UnionFalsyTable(fl: seq<Val>, ids: seq<Val>)
    requires fl == [Num(0), Num(1)] && ids == [Str("k"), Str("k")]
    ensures ValuesOf(UnionTable(fl, ids)) == [Num(1)]
    ensures FirstPerKey(fl, ids) == [Num(0)]
  {
    assert fl[..1] == [Num(0)] && ids[..1] == [Str("k")];
    assert fl[..1][..0] == [] && ids[..1][..0] == [];
    assert UnionTable(fl[..1], ids[..1]) == [(Str("k"), Num(0))];
    assert KvSet([(Str("k"), Num(0))], Str("k"), Num(1)) == [(Str("k"), Num(1))];
    assert FirstPerKey(fl[..1], ids[..1]) == [Num(0)];
    assert ids[1] in ids[..1];
  }

  /** When no key repeats, `FirstPerKey` keeps everything. */
  lemma {:induction false} FirstPerKeyAllNew(xs: seq<Val>, keys: seq<Val>)
    requires |xs| == |keys|
    requires forall i, j :: 0 <= i < j < |keys| ==> keys[i] != keys[j]
    ensures FirstPerKey(xs, keys) == xs
    decreases |xs|
  {
    if xs != [] {
      var n := |xs| - 1;
      FirstPerKeyAllNew(xs[..n], keys[..n]);
      assert xs == xs[..n] + [xs[n]];
    }
  }

  /** `union([1,2,3],['1','2'])` is [1,2,3,'1','2']: ids are compared without conversion. */
  lemma UnionExample(ps: seq<Param>)
    requires ps == [PVal(Arr([Num(1), Num(2), Num(3)])), PVal(Arr([Str("1"), Str("2")]))]
    ensures Union(ps) == [Num(1), Num(2), Num(3), Str("1"), Str("2")]
  {
    var fl := [Num(1), Num(2), Num(3), Str("1"), Str("2")];
    UnionExampleArgs(ps);
    UnionExampleFlat();
    assert Union(ps) == Uniq(Arr(fl));
    UnionExampleUniq(fl);
  }

  lemma UnionExampleUniq(fl: seq<Val>)
    requires fl == [Num(1), Num(2), Num(3), Str("1"), Str("2")]
    ensures Uniq(Arr(fl)) == fl
  {
    assert forall i :: 0 <= i < |fl| ==> fl[i] != NegZero;
    assert forall i, j :: 0 <= i < j < |fl| ==> fl[i] != fl[j];
    UniqOfDistinct(fl);
  }

  /** Distinct values, none of them -0, are kept whole by `uniq`. */
  lemma UniqOfDistinct(xs: seq<Val>)
    requires forall i, j :: 0 <= i < j < |xs| ==> xs[i] != xs[j]
    requires forall i :: 0 <= i < |xs| ==> xs[i] != NegZero
    ensures Uniq(Arr(xs)) == xs
  {
    assert MapKeys(xs) == xs;
    FirstPerKeyAllNew(xs, xs);
  }

  lemma UnionExampleArgs(ps: seq<Param>)
    requires ps == [PVal(Arr([Num(1), Num(2), Num(3)])), PVal(Arr([Str("1"), Str("2")]))]
    ensures SetArgs(ps).0 == [Arr([Num(1), Num(2), Num(3)]), Arr([Str("1"), Str("2")])] && SetArgs(ps).1.None?
  {
    assert ps[1..] == [ps[1]] && ps[1..][1..] == [];
    assert ArrayLikes(ps[1..]) == [Arr([Str("1"), Str("2")])];
    assert ArrayLikes(ps) == [ps[0].v] + ArrayLikes(ps[1..]);
  }

  lemma UnionExampleFlat()
    ensures FlatSeq([Arr([Num(1), Num(2), Num(3)]), Arr([Str("1"), Str("2")])], 1) ==
      [Num(1), Num(2), Num(3), Str("1"), Str("2")]
  {
    assert FlatSeq([Num(1), Num(2), Num(3)], 0) == [Num(1), Num(2), Num(3)] by {
      assert [Num(1), Num(2), Num(3)][1..] == [Num(2), Num(3)];
      assert [Num(2), Num(3)][1..] == [Num(3)];
    }
    assert FlatSeq([Str("1"), Str("2")], 0) == [Str("1"), Str("2")] by {
      assert [Str("1"), Str("2")][1..] == [Str("2")];
    }
    var ls := [Arr([Num(1), Num(2), Num(3)]), Arr([Str("1"), Str("2")])];
    assert ls[1..] == [Arr([Str("1"), Str("2")])] && ls[1..][1..] == [];
  }

  // ---------------------------------------------------------------------------
  // except / intersect (src/array.ts:257-296, 369-423)

  /** An entry of the id table `kvMap`: how many arrays have counted the id (`i` in the
      source) and the value the entry was made with. */
  datatype Tally = Tally(id: Val, count: nat, v: Val)

  function IdsOf(t: seq<Tally>): (ids: seq<Val>)
    ensures |ids| == |t| && forall i :: 0 <= i < |t| ==> ids[i] == t[i].id
  {
    seq(|t|, i requires 0 <= i < |t| => t[i].id)
  }

  /** `kvMap.get(id).i++`. */
  function Bump(t: seq<Tally>, id: Val): (r: seq<Tally>)
    ensures |r| == |t|
    ensures forall i :: 0 <= i < |t| ==> r[i] == if t[i].id == id then t[i].(count := t[i].count + 1) else t[i]
  {
    seq(|t|, i requires 0 <= i < |t| => if t[i].id == id then t[i].(count := t[i].count + 1) else t[i])
  }

  /** No id has two entries. */
  predicate DistinctIds(t: seq<Tally>) {
    forall i, j :: 0 <= i < j < |t| ==> t[i].id != t[j].id
  }

  /** Every entry's id is the id of its value. */
  predicate TrueIds(t: seq<Tally>, cmp: Option<Val -> Val>) {
    forall i :: 0 <= i < |t| ==> IdOf(cmp, t[i].v) == t[i].id
  }

  predicate DistinctVals(s: seq<Val>) {
    forall i, j :: 0 <= i < j < |s| ==> s[i] != s[j]
  }

  /** The values of the entries counted `len` times (`keepBelow` false) or fewer
      (`keepBelow` true), in table order. */
  function Counted(t: seq<Tally>, len: nat, keepBelow: bool): seq<Val>
    decreases |t|
  {
    if t == [] then []
    else
      var n := |t| - 1;
      Counted(t[..n], len, keepBelow) +
        (if (keepBelow && t[n].count < len) || (!keepBelow && t[n].count == len) then [t[n].v] else [])
  }

  lemma {:induction false} CountedMeaning(t: seq<Tally>, len: nat, keepBelow: bool)
    ensures forall x :: x in Counted(t, len, keepBelow) <==>
      exists i :: 0 <= i < |t| && t[i].v == x && (if keepBelow then t[i].count < len else t[i].count == len)
    decreases |t|
  {
    if t != [] {
      var n := |t| - 1;
      CountedMeaning(t[..n], len, keepBelow);
      forall x | x in Counted(t, len, keepBelow)
        ensures exists i :: 0 <= i < |t| && t[i].v == x && (if keepBelow then t[i].count < len else t[i].count == len)
      {
        if x in Counted(t[..n], len, keepBelow) {
          var i :| 0 <= i < n && t[..n][i].v == x && (if keepBelow then t[..n][i].count < len else t[..n][i].count == len);
          assert t[i] == t[..n][i];
        }
      }
      forall x | exists i :: 0 <= i < |t| && t[i].v == x && (if keepBelow then t[i].count < len else t[i].count == len)
        ensures x in Counted(t, len, keepBelow)
      {
        var i :| 0 <= i < |t| && t[i].v == x && (if keepBelow then t[i].count < len else t[i].count == len);
        if i < n {
          assert t[..n][i] == t[i];
        }
      }
    }
  }

  /** The ids of each array's elements. */
  function IdLists(cmp: Option<Val -> Val>, lists: seq<Val>): (idl: seq<seq<Val>>)
    ensures |idl| == |lists| && forall j :: 0 <= j < |lists| ==> idl[j] == IdsFor(cmp, ToArray(lists[j]))
  {
    seq(|lists|, j requires 0 <= j < |lists| => IdsFor(cmp, ToArray(lists[j])))
  }

  /** The number of id lists containing `k`. */
  function ListsWith(k: Val, idl: seq<seq<Val>>): (n: nat)
    ensures n <= |idl|
    decreases |idl|
  {
    if idl == [] then 0
    else
      var m := |idl| - 1;
      ListsWith(k, idl[..m]) + (if k in idl[m] then 1 else 0)
  }

  predicate InSome(k: Val, idl: seq<seq<Val>>) {
    exists j :: 0 <= j < |idl| && k in idl[j]
  }

  predicate InAll(k: Val, idl: seq<seq<Val>>) {
    forall j :: 0 <= j < |idl| ==> k in idl[j]
  }

  /** An id occurs in some list exactly when it is counted, and in all exactly when it
      is counted once per list. */
  lemma {:induction false} ListsWithMeaning(k: Val, idl: seq<seq<Val>>)
    ensures ListsWith(k, idl) > 0 <==> InSome(k, idl)
    ensures ListsWith(k, idl) == |idl| <==> InAll(k, idl)
    decreases |idl|
  {
    if idl != [] {
      var m := |idl| - 1;
      ListsWithMeaning(k, idl[..m]);
      if InSome(k, idl) && k !in idl[m] {
        var j :| 0 <= j < |idl| && k in idl[j];
        assert idl[..m][j] == idl[j];
      }
      if InSome(k, idl[..m]) {
        var j :| 0 <= j < m && k in idl[..m][j];
        assert idl[j] == idl[..m][j];
      }
      if InAll(k, idl) {
        forall j | 0 <= j < m ensures k in idl[..m][j] {
          assert idl[..m][j] == idl[j];
        }
      }
      if InAll(k, idl[..m]) && k in idl[m] {
        forall j | 0 <= j < |idl| ensures k in idl[j] {
          if j < m {
            assert idl[..m][j] == idl[j];
          }
        }
      }
    }
  }

  // except

  /** A pass state: the table `kvMap` and the ids the current array has counted
      (`localMap`). */
  type TallyPass = (seq<Tally>, seq<Val>)

  /** One element of `except`'s inner loop: a new id gets an entry with count 0; an id
      the current array has not counted yet is counted. */
  function ExceptStep(st: TallyPass, cmp: Option<Val -> Val>, x: Val): TallyPass {
    var id := IdOf(cmp, x);
    var t := if id in IdsOf(st.0) then st.0 else st.0 + [Tally(id, 0, x)];
    if id in st.1 then (t, st.1) else (Bump(t, id), st.1 + [id])
  }

  function ExceptPass(st: TallyPass, cmp: Option<Val -> Val>, xs: seq<Val>): TallyPass
    decreases |xs|
  {
    if xs == [] then st else ExceptStep(ExceptPass(st, cmp, xs[..|xs| - 1]), cmp, xs[|xs| - 1])
  }

  lemma ExceptPassSnoc(st: TallyPass, cmp: Option<Val -> Val>, xs: seq<Val>, i: nat)
    requires i < |xs|
    ensures ExceptPass(st, cmp, xs[..i + 1]) == ExceptStep(ExceptPass(st, cmp, xs[..i]), cmp, xs[i])
  {
    assert xs[..i + 1][..i] == xs[..i];
  }

  /** The table after the outer loop of `except` over `lists`. */
  function ExceptTable(lists: seq<Val>, cmp: Option<Val -> Val>): seq<Tally>
    decreases |lists|
  {
    if lists == [] then []
    else
      var m := |lists| - 1;
      ExceptPass((ExceptTable(lists[..m], cmp), []), cmp, ToArray(lists[m])).0
  }

  lemma ExceptTableSnoc(lists: seq<Val>, cmp: Option<Val -> Val>, j: nat)
    requires j < |lists|
    ensures ExceptTable(lists[..j + 1], cmp) == ExceptPass((ExceptTable(lists[..j], cmp), []), cmp, ToArray(lists[j])).0
  {
    assert lists[..j + 1][..j] == lists[..j];
  }

  /** Entries of the table in order, values only, kept by their count. */
  lemma CountedSnoc(t: seq<Tally>, len: nat, keepBelow: bool, i: nat)
    requires i < |t|
    ensures Counted(t[..i + 1], len, keepBelow) == Counted(t[..i], len, keepBelow) +
      (if (keepBelow && t[i].count < len) || (!keepBelow && t[i].count == len) then [t[i].v] else [])
  {
    assert t[..i + 1][..i] == t[..i];
  }

  /** The last loop of `except` and `intersect`: the values of the table entries whose
      count is below `len` (`except`) or equal to it (`intersect`), in table order. */
  method Collect(kvMap: seq<Tally>, len: nat, keepBelow: bool) returns (rs: seq<Val>)
    ensures rs == Counted(kvMap, len, keepBelow)
  {
    rs := [];
    for i := 0 to |kvMap|
      invariant rs == Counted(kvMap[..i], len, keepBelow)
    {
      CountedSnoc(kvMap, len, keepBelow, i);
      if (keepBelow && kvMap[i].count < len) || (!keepBelow && kvMap[i].count == len) {
        rs := rs + [kvMap[i].v];
      }
    }
    assert kvMap[..|kvMap|] == kvMap;
  }

  /** What `except` returns. */
  function ExceptSpec(params: seq<Param>): seq<Val> {
    var (lists, cmp) := SetArgs(params);
    if lists == [] then [] else Counted(ExceptTable(lists, cmp), |lists|, true)
  }

  /** `except(...arrays[, identifier])`: the two nested loops that count, per id, the
      arrays containing it, then the values of the ids some array lacks. */
  method Except(params: seq<Param>) returns (rs: seq<Val>)
    ensures rs == ExceptSpec(params)
  {
    var (lists, cmp) := SetArgs(params);
    if |lists| < 1 {
      return [];
    }
    var len := |lists|;
    var kvMap: seq<Tally> := [];
    for j := 0 to len
      invariant kvMap == ExceptTable(lists[..j], cmp)
    {
      var ary := ToArray(lists[j]);
      var localMap: seq<Val> := [];
      ghost var t0 := kvMap;
      for i := 0 to |ary|
        invariant kvMap == ExceptPass((t0, []), cmp, ary[..i]).0
        invariant localMap == ExceptPass((t0, []), cmp, ary[..i]).1
      {
        ExceptPassSnoc((t0, []), cmp, ary, i);
        var v := ary[i];
        var id := IdOf(cmp, v);
        if id !in IdsOf(kvMap) {
          kvMap := kvMap + [Tally(id, 0, v)];
        }
        if id !in localMap {
          kvMap := Bump(kvMap, id);
          localMap := localMap + [id];
        }
      }
      assert ary[..|ary|] == ary;
      ExceptTableSnoc(lists, cmp, j);
    }
    assert lists[..len] == lists;
    rs := Collect(kvMap, len, true);
  }

  /** What one array's pass of `except` has done once it has seen elements with ids
      `ids`, starting from table `t0`: entries already in `t0` keep their place and are
      counted once if `ids` has their id; the new entries are the ids of `ids` not in
      `t0`, each counted once; `l` holds the ids counted. */
  ghost predicate ExceptInv(t0: seq<Tally>, t: seq<Tally>, l: seq<Val>, ids: seq<Val>, cmp: Option<Val -> Val>) {
    DistinctIds(t) && TrueIds(t, cmp) && |t| >= |t0| &&
    (forall i :: 0 <= i < |t0| ==>
       (t[i].id == t0[i].id && t[i].v == t0[i].v &&
        t[i].count == t0[i].count + (if t0[i].id in ids then 1 else 0))) &&
    (forall i :: |t0| <= i < |t| ==> t[i].count == 1 && t[i].id in ids) &&
    (forall k :: k in IdsOf(t) <==> k in IdsOf(t0) || k in ids) &&
    (forall k :: k in l <==> k in ids)
  }

  /** The first half of a step: a new id gets an entry with count 0. */
  lemma ExceptInsert(t1: seq<Tally>, cmp: Option<Val -> Val>, x: Val)
    requires DistinctIds(t1) && TrueIds(t1, cmp)
    ensures var id := IdOf(cmp, x);
      var t2 := if id in IdsOf(t1) then t1 else t1 + [Tally(id, 0, x)];
      DistinctIds(t2) && TrueIds(t2, cmp) && |t2| >= |t1| && id in IdsOf(t2) &&
      (forall i :: 0 <= i < |t1| ==> t2[i] == t1[i]) &&
      (|t2| > |t1| ==> |t2| == |t1| + 1 && t2[|t1|] == Tally(id, 0, x) && id !in IdsOf(t1)) &&
      (forall k :: k in IdsOf(t2) <==> k in IdsOf(t1) || k == id)
  {
    var id := IdOf(cmp, x);
    if id !in IdsOf(t1) {
      var t2 := t1 + [Tally(id, 0, x)];
      assert IdsOf(t2) == IdsOf(t1) + [id];
    }
  }

  /** One step keeps `ExceptInv`. */
  lemma ExceptStepInv(t0: seq<Tally>, t1: seq<Tally>, l1: seq<Val>, ids: seq<Val>, cmp: Option<Val -> Val>, x: Val)
    requires ExceptInv(t0, t1, l1, ids, cmp)
    ensures var st := ExceptStep((t1, l1), cmp, x); ExceptInv(t0, st.0, st.1, ids + [IdOf(cmp, x)], cmp)
  {
    var id := IdOf(cmp, x);
    ExceptInsert(t1, cmp, x);
    var t2 := if id in IdsOf(t1) then t1 else t1 + [Tally(id, 0, x)];
    if id in l1 {
      ExceptSeenInv(t0, t1, l1, ids, id, cmp);
    } else {
      ExceptNewInv(t0, t1, t2, l1, ids, id, cmp);
    }
  }

  /** An id the array already showed changes nothing. */
  lemma ExceptSeenInv(t0: seq<Tally>, t1: seq<Tally>, l1: seq<Val>, ids: seq<Val>, id: Val, cmp: Option<Val -> Val>)
    requires ExceptInv(t0, t1, l1, ids, cmp) && id in l1
    ensures ExceptInv(t0, t1, l1, ids + [id], cmp)
  {
    assert id in ids;
    assert forall k :: k in ids + [id] <==> k in ids;
  }

  /** An id new to the array is counted once. */
  lemma ExceptNewInv(t0: seq<Tally>, t1: seq<Tally>, t2: seq<Tally>, l1: seq<Val>, ids: seq<Val>, id: Val,
                     cmp: Option<Val -> Val>)
    requires ExceptInv(t0, t1, l1, ids, cmp) && id !in l1
    requires DistinctIds(t2) && TrueIds(t2, cmp) && |t2| >= |t1| && id in IdsOf(t2)
    requires forall i :: 0 <= i < |t1| ==> t2[i] == t1[i]
    requires |t2| > |t1| ==> |t2| == |t1| + 1 && t2[|t1|].id == id && t2[|t1|].count == 0
    requires forall k :: k in IdsOf(t2) <==> k in IdsOf(t1) || k == id
    ensures ExceptInv(t0, Bump(t2, id), l1 + [id], ids + [id], cmp)
  {
    var ids' := ids + [id];
    var t3 := Bump(t2, id);
    assert IdsOf(t3) == IdsOf(t2);
    forall i | 0 <= i < |t0|
      ensures t3[i].id == t0[i].id && t3[i].v == t0[i].v &&
        t3[i].count == t0[i].count + (if t0[i].id in ids' then 1 else 0)
    {
      assert t2[i] == t1[i];
    }
    forall i | |t0| <= i < |t3|
      ensures t3[i].count == 1 && t3[i].id in ids'
    {
      if i < |t1| {
        assert t2[i] == t1[i];
        assert t1[i].id in ids;
      }
    }
    assert DistinctIds(t3);
    assert TrueIds(t3, cmp);
  }

  lemma ExceptInvStart(t0: seq<Tally>, cmp: Option<Val -> Val>)
    requires DistinctIds(t0) && TrueIds(t0, cmp)
    ensures ExceptInv(t0, t0, [], [], cmp)
  {
  }

  /** One array's pass of `except` meets `ExceptInv` for the ids of all its elements. */
  lemma {:induction false} ExceptPassEffect(t0: seq<Tally>, cmp: Option<Val -> Val>, xs: seq<Val>)
    requires DistinctIds(t0) && TrueIds(t0, cmp)
    ensures var st := ExceptPass((t0, []), cmp, xs); ExceptInv(t0, st.0, st.1, IdsFor(cmp, xs), cmp)
    decreases |xs|
  {
    if xs == [] {
      ExceptInvStart(t0, cmp);
      assert IdsFor(cmp, xs) == [];
    } else {
      var n := |xs| - 1;
      ExceptPassEffect(t0, cmp, xs[..n]);
      var st := ExceptPass((t0, []), cmp, xs[..n]);
      ExceptStepInv(t0, st.0, st.1, IdsFor(cmp, xs[..n]), cmp, xs[n]);
      assert ExceptPass((t0, []), cmp, xs) == ExceptStep(st, cmp, xs[n]);
      IdsForSnoc(cmp, xs);
    }
  }

  /** What the table of `except` is after some of the arrays, with id lists `idl`. */
  ghost predicate TableInv(t: seq<Tally>, idl: seq<seq<Val>>, cmp: Option<Val -> Val>) {
    DistinctIds(t) && TrueIds(t, cmp) &&
    (forall i :: 0 <= i < |t| ==> t[i].count == ListsWith(t[i].id, idl)) &&
    (forall k :: k in IdsOf(t) <==> InSome(k, idl))
  }

  /** The table of `except`: one entry per id occurring in any array, counted once per
      array containing it. */
  lemma {:induction false} ExceptTableEffect(lists: seq<Val>, cmp: Option<Val -> Val>)
    ensures TableInv(ExceptTable(lists, cmp), IdLists(cmp, lists), cmp)
    decreases |lists|
  {
    if lists != [] {
      ExceptTableEffect(lists[..|lists| - 1], cmp);
      ExceptTableLast(lists, cmp);
    }
  }

  /** The pass over the last array extends the table of the ones before it. */
  lemma ExceptTableLast(lists: seq<Val>, cmp: Option<Val -> Val>)
    requires lists != []
    requires TableInv(ExceptTable(lists[..|lists| - 1], cmp), IdLists(cmp, lists[..|lists| - 1]), cmp)
    ensures TableInv(ExceptTable(lists, cmp), IdLists(cmp, lists), cmp)
  {
    var m := |lists| - 1;
    var t0 := ExceptTable(lists[..m], cmp);
    var xs := ToArray(lists[m]);
    ExceptPassEffect(t0, cmp, xs);
    var idl := IdLists(cmp, lists);
    IdListsPrefix(cmp, lists, m);
    var st := ExceptPass((t0, []), cmp, xs);
    assert ExceptTable(lists, cmp) == st.0;
    assert idl[m] == IdsFor(cmp, xs);
    ExceptTableStep(t0, st.0, st.1, idl, cmp);
  }

  lemma IdListsPrefix(cmp: Option<Val -> Val>, lists: seq<Val>, m: nat)
    requires m <= |lists|
    ensures IdLists(cmp, lists[..m]) == IdLists(cmp, lists)[..m]
  {
  }

  lemma ExceptTableStep(t0: seq<Tally>, t: seq<Tally>, l: seq<Val>, idl: seq<seq<Val>>, cmp: Option<Val -> Val>)
    requires idl != []
    requires TableInv(t0, idl[..|idl| - 1], cmp)
    requires ExceptInv(t0, t, l, idl[|idl| - 1], cmp)
    ensures TableInv(t, idl, cmp)
  {
    var m := |idl| - 1;
    forall i | 0 <= i < |t| ensures t[i].count == ListsWith(t[i].id, idl) {
      if i >= |t0| {
        assert t[i].id !in IdsOf(t0);
        ListsWithMeaning(t[i].id, idl[..m]);
      }
    }
    forall k ensures k in IdsOf(t) <==> InSome(k, idl) {
      if InSome(k, idl) && k !in idl[m] {
        var j :| 0 <= j < |idl| && k in idl[j];
        assert idl[..m][j] == idl[j];
      }
      if InSome(k, idl[..m]) {
        var j :| 0 <= j < m && k in idl[..m][j];
        assert idl[j] == idl[..m][j];
      }
    }
  }

  /** `except` keeps a value exactly for the ids occurring in some but not all of the
      arrays, one value per id. */
  lemma ExceptMeaning(params: seq<Param>)
    ensures var (lists, cmp) := SetArgs(params); var idl := IdLists(cmp, lists);
      (forall x :: x in ExceptSpec(params) ==> InSome(IdOf(cmp, x), idl) && !InAll(IdOf(cmp, x), idl)) &&
      (forall j, y :: 0 <= j < |lists| && y in ToArray(lists[j]) && !InAll(IdOf(cmp, y), idl) ==>
         exists x :: x in ExceptSpec(params) && IdOf(cmp, x) == IdOf(cmp, y))
  {
    var (lists, cmp) := SetArgs(params);
    var idl := IdLists(cmp, lists);
    if lists != [] {
      var t := ExceptTable(lists, cmp);
      ExceptTableEffect(lists, cmp);
      assert ExceptSpec(params) == Counted(t, |idl|, true);
      forall x | x in ExceptSpec(params)
        ensures InSome(IdOf(cmp, x), idl) && !InAll(IdOf(cmp, x), idl)
      {
        CountedSound(t, idl, cmp, x);
      }
      forall j, y | 0 <= j < |lists| && y in ToArray(lists[j]) && !InAll(IdOf(cmp, y), idl)
        ensures exists x :: x in ExceptSpec(params) && IdOf(cmp, x) == IdOf(cmp, y)
      {
        var k := IdOf(cmp, y);
        var p :| 0 <= p < |ToArray(lists[j])| && ToArray(lists[j])[p] == y;
        assert idl[j][p] == k;
        assert InSome(k, idl);
        CountedComplete(t, idl, cmp, k);
      }
    }
  }

  /** A value the table keeps has an id some list has and some list lacks. */
  lemma CountedSound(t: seq<Tally>, idl: seq<seq<Val>>, cmp: Option<Val -> Val>, x: Val)
    requires TableInv(t, idl, cmp) && x in Counted(t, |idl|, true)
    ensures InSome(IdOf(cmp, x), idl) && !InAll(IdOf(cmp, x), idl)
  {
    CountedMeaning(t, |idl|, true);
    var i :| 0 <= i < |t| && t[i].v == x && t[i].count < |idl|;
    assert t[i].id in IdsOf(t);
    ListsWithMeaning(t[i].id, idl);
  }

  /** An id some list has and some list lacks keeps a value. */
  lemma CountedComplete(t: seq<Tally>, idl: seq<seq<Val>>, cmp: Option<Val -> Val>, k: Val)
    requires TableInv(t, idl, cmp) && InSome(k, idl) && !InAll(k, idl)
    ensures exists x :: x in Counted(t, |idl|, true) && IdOf(cmp, x) == k
  {
    CountedMeaning(t, |idl|, true);
    var i :| 0 <= i < |t| && IdsOf(t)[i] == k;
    ListsWithMeaning(k, idl);
    assert t[i].v in Counted(t, |idl|, true);
  }

  // intersect

  /** `a.length` of an array-like argument. */
  function Len(v: Val): nat {
    |ToArray(v)|
  }

  predicate SortedBy(s: seq<Val>, key: Val -> nat) {
    forall i, j :: 0 <= i < j < |s| ==> key(s[i]) <= key(s[j])
  }

  /** Inserts `x` before the first element whose key is at least as large: the step of
      a stable sort. */
  function InsertBy(x: Val, s: seq<Val>, key: Val -> nat): (r: seq<Val>)
    ensures multiset(r) == multiset(s) + multiset{x}
    decreases |s|
  {
    if s == [] || key(x) <= key(s[0]) then [x] + s
    else
      assert s == [s[0]] + s[1..];
      [s[0]] + InsertBy(x, s[1..], key)
  }

  lemma {:induction false} InsertBySorted(x: Val, s: seq<Val>, key: Val -> nat)
    requires SortedBy(s, key)
    ensures SortedBy(InsertBy(x, s, key), key)
    decreases |s|
  {
    if s == [] || key(x) <= key(s[0]) {
    } else {
      SortedByTail(s, key);
      InsertBySorted(x, s[1..], key);
      var r := InsertBy(x, s[1..], key);
      InsertByAbove(x, s, key);
      assert InsertBy(x, s, key) == [s[0]] + r;
    }
  }

  lemma SortedByTail(s: seq<Val>, key: Val -> nat)
    requires SortedBy(s, key) && s != []
    ensures SortedBy(s[1..], key)
  {
    forall i, j | 0 <= i < j < |s[1..]| ensures key(s[1..][i]) <= key(s[1..][j]) {
      assert s[1..][i] == s[i + 1] && s[1..][j] == s[j + 1];
    }
  }

  /** Inserting a larger element into the tail keeps the head's key a lower bound. */
  lemma InsertByAbove(x: Val, s: seq<Val>, key: Val -> nat)
    requires SortedBy(s, key) && s != [] && key(s[0]) < key(x)
    ensures forall i :: 0 <= i < |InsertBy(x, s[1..], key)| ==> key(s[0]) <= key(InsertBy(x, s[1..], key)[i])
  {
    var r := InsertBy(x, s[1..], key);
    forall i | 0 <= i < |r| ensures key(s[0]) <= key(r[i]) {
      assert r[i] in multiset(r);
      if r[i] != x {
        assert r[i] in multiset(s[1..]);
        var j :| 0 <= j < |s[1..]| && s[1..][j] == r[i];
        assert s[j + 1] == r[i];
      }
    }
  }

  /** A stable sort by `key`: an insertion sort. */
  function SortBy(s: seq<Val>, key: Val -> nat): (r: seq<Val>)
    ensures multiset(r) == multiset(s) && |r| == |s|
    ensures SortedBy(r, key)
    decreases |s|
  {
    if s == [] then []
    else
      assert s == [s[0]] + s[1..];
      var r := InsertBy(s[0], SortBy(s[1..], key), key);
      InsertBySorted(s[0], SortBy(s[1..], key), key);
      assert |r| == |multiset(r)|;
      r
  }

  /** `list.sort((a, b) => a.length - b.length)`. */
  function SortByLength(s: seq<Val>): (r: seq<Val>)
    ensures multiset(r) == multiset(s) && |r| == |s|
    ensures forall i, j :: 0 <= i < j < |r| ==> Len(r[i]) <= Len(r[j])
  {
    SortBy(s, v => Len(v))
  }

  /** One step of the first loop of `intersect`, over the shortest array from its last
      element down: a new id gets an entry counted once. */
  function SeedStep(t: seq<Tally>, cmp: Option<Val -> Val>, x: Val): seq<Tally> {
    var id := IdOf(cmp, x);
    if id in IdsOf(t) then t else t + [Tally(id, 1, x)]
  }

  /** The table after that loop has visited `xs[i..]`, from the right. */
  function SeedFrom(cmp: Option<Val -> Val>, xs: seq<Val>, i: nat): seq<Tally>
    requires i <= |xs|
    decreases |xs| - i
  {
    if i == |xs| then [] else SeedStep(SeedFrom(cmp, xs, i + 1), cmp, xs[i])
  }

  /** One element of the later loops: an id of the table the current array has not
      counted yet is counted; other ids are ignored. */
  function IntersectStep(st: TallyPass, cmp: Option<Val -> Val>, x: Val): TallyPass {
    var id := IdOf(cmp, x);
    if id in IdsOf(st.0) && id !in st.1 then (Bump(st.0, id), st.1 + [id]) else st
  }

  function IntersectPass(st: TallyPass, cmp: Option<Val -> Val>, xs: seq<Val>): TallyPass
    decreases |xs|
  {
    if xs == [] then st else IntersectStep(IntersectPass(st, cmp, xs[..|xs| - 1]), cmp, xs[|xs| - 1])
  }

  lemma IntersectPassSnoc(st: TallyPass, cmp: Option<Val -> Val>, xs: seq<Val>, i: nat)
    requires i < |xs|
    ensures IntersectPass(st, cmp, xs[..i + 1]) == IntersectStep(IntersectPass(st, cmp, xs[..i]), cmp, xs[i])
  {
    assert xs[..i + 1][..i] == xs[..i];
  }

  /** The elements of each array-like. */
  function ItemLists(ls: seq<Val>): (r: seq<seq<Val>>)
    ensures |r| == |ls| && forall i :: 0 <= i < |ls| ==> r[i] == ToArray(ls[i])
  {
    seq(|ls|, i requires 0 <= i < |ls| => ToArray(ls[i]))
  }

  /** The table after the passes over the arrays `ls`, starting from `t0`. */
  function IntersectRest(t0: seq<Tally>, cmp: Option<Val -> Val>, ls: seq<seq<Val>>): seq<Tally>
    decreases |ls|
  {
    if ls == [] then t0
    else
      var m := |ls| - 1;
      IntersectPass((IntersectRest(t0, cmp, ls[..m]), []), cmp, ls[m]).0
  }

  /** The table of `intersect`: the shortest array's ids, counted once per array. */
  function IntersectTable(lists: seq<Val>, cmp: Option<Val -> Val>): seq<Tally>
    requires lists != []
  {
    var sorted := ItemLists(SortByLength(lists));
    IntersectRest(SeedFrom(cmp, sorted[0], 0), cmp, sorted[1..])
  }

  /** What `intersect` returns: the values of the table's ids counted once per array. */
  function IntersectSpec(params: seq<Param>): seq<Val> {
    var (lists, cmp) := SetArgs(params);
    if lists == [] then [] else Counted(IntersectTable(lists, cmp), |lists|, false)
  }

  /** Sets of values, for counting. */
  lemma SubsetCard(a: set<Val>, b: set<Val>)
    requires a <= b
    ensures |a| <= |b|
    decreases |b|
  {
    if a != {} {
      var x :| x in a;
      SubsetCard(a - {x}, b - {x});
    }
  }

  lemma {:induction false} DistinctCard(a: seq<Val>)
    requires DistinctVals(a)
    ensures |set x | x in a| == |a|
    decreases |a|
  {
    if a != [] {
      DistinctCard(a[1..]);
      assert (set x | x in a) == {a[0]} + (set x | x in a[1..]);
      assert a[0] !in (set x | x in a[1..]);
    }
  }

  /** Distinct values drawn from a list of as many distinct values are all of them: why
      `intersect`'s inner loop may stop once it has matched `idLength` ids. */
  lemma Pigeonhole(a: seq<Val>, b: seq<Val>)
    requires DistinctVals(a) && DistinctVals(b) && |a| == |b|
    requires forall x :: x in a ==> x in b
    ensures forall x :: x in b ==> x in a
  {
    DistinctCard(a);
    DistinctCard(b);
    var sa, sb := set x | x in a, set x | x in b;
    if y :| y in b && y !in a {
      assert y in sb && y !in sa;
      SubsetCard(sa, sb - {y});
    }
  }

  lemma {:induction false} IntersectPassAppend(st: TallyPass, cmp: Option<Val -> Val>, xs: seq<Val>, ys: seq<Val>)
    ensures IntersectPass(st, cmp, xs + ys) == IntersectPass(IntersectPass(st, cmp, xs), cmp, ys)
    decreases |ys|
  {
    if ys == [] {
      assert xs + ys == xs;
    } else {
      var n := |ys| - 1;
      IntersectPassAppend(st, cmp, xs, ys[..n]);
      AppendInit(xs, ys);
    }
  }

  lemma AppendInit<T>(xs: seq<T>, ys: seq<T>)
    requires ys != []
    ensures (xs + ys)[..|xs + ys| - 1] == xs + ys[..|ys| - 1]
    ensures (xs + ys)[|xs + ys| - 1] == ys[|ys| - 1]
  {
  }

  /** Once the current array has counted every id of the table, the rest of it changes
      nothing. */
  lemma {:induction false} IntersectPassSaturated(st: TallyPass, cmp: Option<Val -> Val>, ys: seq<Val>)
    requires forall k :: k in IdsOf(st.0) ==> k in st.1
    ensures IntersectPass(st, cmp, ys) == st
    decreases |ys|
  {
    if ys != [] {
      IntersectPassSaturated(st, cmp, ys[..|ys| - 1]);
    }
  }

  lemma SeedStepDistinct(t: seq<Tally>, cmp: Option<Val -> Val>, x: Val)
    requires DistinctIds(t)
    ensures DistinctIds(SeedStep(t, cmp, x))
  {
    var id := IdOf(cmp, x);
    if id !in IdsOf(t) {
      var t2 := t + [Tally(id, 1, x)];
      forall i, j | 0 <= i < j < |t2| ensures t2[i].id != t2[j].id {
        if j == |t| {
          assert t2[i].id == IdsOf(t)[i];
        }
      }
    }
  }

  /** What holds of a counting pass over one array that started from table `t0`. */
  ghost predicate PassInv(st: TallyPass, t0: seq<Tally>) {
    IdsOf(st.0) == IdsOf(t0) && DistinctIds(st.0) && DistinctVals(st.1) &&
    (forall x :: x in st.1 ==> x in IdsOf(st.0))
  }

  lemma IntersectStepInv(st: TallyPass, t0: seq<Tally>, cmp: Option<Val -> Val>, x: Val)
    requires PassInv(st, t0)
    ensures PassInv(IntersectStep(st, cmp, x), t0)
  {
    var id := IdOf(cmp, x);
    if id in IdsOf(st.0) && id !in st.1 {
      var t2 := Bump(st.0, id);
      assert IdsOf(t2) == IdsOf(st.0);
      var l2 := st.1 + [id];
      forall i, j | 0 <= i < j < |l2| ensures l2[i] != l2[j] {
        if j == |st.1| {
          assert l2[i] in st.1;
        }
      }
    }
  }

  /** When a pass has matched as many ids as the table holds, it may stop: the rest of
      the array changes nothing. */
  lemma IntersectBreak(t0: seq<Tally>, cmp: Option<Val -> Val>, ary: seq<Val>, k: nat)
    requires k < |ary|
    requires PassInv(IntersectPass((t0, []), cmp, ary[..k + 1]), t0)
    requires |IntersectPass((t0, []), cmp, ary[..k + 1]).1| == |t0|
    ensures IntersectPass((t0, []), cmp, ary) == IntersectPass((t0, []), cmp, ary[..k + 1])
  {
    var st := IntersectPass((t0, []), cmp, ary[..k + 1]);
    DistinctIdsVals(st.0);
    Pigeonhole(st.1, IdsOf(st.0));
    IntersectPassSaturated(st, cmp, ary[k + 1..]);
    IntersectPassAppend((t0, []), cmp, ary[..k + 1], ary[k + 1..]);
    assert ary[..k + 1] + ary[k + 1..] == ary;
  }

  lemma DistinctIdsVals(t: seq<Tally>)
    requires DistinctIds(t)
    ensures DistinctVals(IdsOf(t))
  {
  }

  lemma IntersectRestSnoc(t0: seq<Tally>, cmp: Option<Val -> Val>, ls: seq<seq<Val>>, j: nat)
    requires 1 <= j < |ls|
    ensures IntersectRest(t0, cmp, ls[1..j + 1]) ==
      IntersectPass((IntersectRest(t0, cmp, ls[1..j]), []), cmp, ls[j]).0
  {
    assert ls[1..j + 1][..j - 1] == ls[1..j];
    assert ls[1..j + 1][j - 1] == ls[j];
  }

  /** The first loop of `intersect`: the ids of the shortest array, from its last
      element down, each counted once. */
  method IntersectSeed(cmp: Option<Val -> Val>, first: seq<Val>) returns (kvMap: seq<Tally>, idLength: nat)
    ensures kvMap == SeedFrom(cmp, first, 0)
    ensures idLength == |kvMap| && DistinctIds(kvMap)
  {
    kvMap, idLength := [], 0;
    var i := |first|;
    while i > 0
      invariant 0 <= i <= |first|
      invariant kvMap == SeedFrom(cmp, first, i)
      invariant idLength == |kvMap| && DistinctIds(kvMap)
    {
      i := i - 1;
      SeedStepDistinct(kvMap, cmp, first[i]);
      var v := first[i];
      var id := IdOf(cmp, v);
      if id !in IdsOf(kvMap) {
        kvMap := kvMap + [Tally(id, 1, v)];
        idLength := idLength + 1;
      }
    }
  }

  /** One of the later loops of `intersect`: each id of the table met in `ary` is
      counted once, and the loop stops as soon as all `idLength` of them are. */
  method IntersectCount(kvMap0: seq<Tally>, idLength: nat, cmp: Option<Val -> Val>, ary: seq<Val>)
    returns (kvMap: seq<Tally>)
    requires idLength == |kvMap0| && DistinctIds(kvMap0)
    ensures kvMap == IntersectPass((kvMap0, []), cmp, ary).0
    ensures |kvMap| == |kvMap0| && DistinctIds(kvMap)
  {
    kvMap := kvMap0;
    var localMap: seq<Val> := [];
    var localMatchedCount := 0;
    var k := 0;
    while k < |ary|
      invariant 0 <= k <= |ary|
      invariant (kvMap, localMap) == IntersectPass((kvMap0, []), cmp, ary[..k])
      invariant PassInv((kvMap, localMap), kvMap0)
      invariant idLength == |kvMap| && localMatchedCount == |localMap|
    {
      IntersectPassSnoc((kvMap0, []), cmp, ary, k);
      IntersectStepInv((kvMap, localMap), kvMap0, cmp, ary[k]);
      var v := ary[k];
      var id := IdOf(cmp, v);
      if id in IdsOf(kvMap) && id !in localMap {
        kvMap := Bump(kvMap, id);
        localMap := localMap + [id];
        localMatchedCount := localMatchedCount + 1;
        if localMatchedCount == idLength {
          IntersectBreak(kvMap0, cmp, ary, k);
          return;
        }
      }
      k := k + 1;
    }
    assert ary[..k] == ary;
  }

  /** The table `intersect` builds: the arrays sorted by length, the shortest one's ids
      entered, then one counting loop per other array. */
  method IntersectCounts(lists: seq<Val>, cmp: Option<Val -> Val>) returns (kvMap: seq<Tally>)
    requires lists != []
    ensures kvMap == IntersectTable(lists, cmp)
  {
    var list := SortByLength(lists);
    ghost var items := ItemLists(list);
    var idLength;
    kvMap, idLength := IntersectSeed(cmp, ToArray(list[0]));
    ghost var seed := kvMap;
    IntersectTableFrom(lists, cmp, seed);
    for j := 1 to |list|
      invariant kvMap == IntersectRest(seed, cmp, items[1..j])
      invariant idLength == |kvMap| && DistinctIds(kvMap)
    {
      IntersectRestSnoc(seed, cmp, items, j);
      kvMap := IntersectCount(kvMap, idLength, cmp, ToArray(list[j]));
    }
  }

  /** The table starts from the shortest array's seed and has run no pass yet; it is
      complete once the passes have run over every later array. */
  lemma IntersectTableFrom(lists: seq<Val>, cmp: Option<Val -> Val>, seed: seq<Tally>)
    requires lists != []
    requires seed == SeedFrom(cmp, ToArray(SortByLength(lists)[0]), 0)
    ensures var items := ItemLists(SortByLength(lists));
      IntersectRest(seed, cmp, items[1..1]) == seed &&
      IntersectTable(lists, cmp) == IntersectRest(seed, cmp, items[1..|items|])
  {
    var items := ItemLists(SortByLength(lists));
    TailSlices(items);
  }

  /** The slices of a non-empty sequence from its second element. */
  lemma TailSlices<T>(s: seq<T>)
    requires s != []
    ensures s[1..1] == [] && s[1..|s|] == s[1..]
  {
  }

  /** `intersect(...arrays[, identifier])`: the values of the shortest array's ids that
      every array has. */
  method Intersect(params: seq<Param>) returns (rs: seq<Val>)
    ensures rs == IntersectSpec(params)
  {
    var (lists, cmp) := SetArgs(params);
    if |lists| < 1 {
      return [];
    }
    var kvMap := IntersectCounts(lists, cmp);
    rs := Collect(kvMap, |lists|, false);
  }

  // what intersect computes

  /** The table after the first loop: one entry per id of `xs[i..]`, each counted once. */
  lemma {:induction false} SeedEffect(cmp: Option<Val -> Val>, xs: seq<Val>, i: nat)
    requires i <= |xs|
    ensures var t := SeedFrom(cmp, xs, i);
      DistinctIds(t) && TrueIds(t, cmp) && (forall j :: 0 <= j < |t| ==> t[j].count == 1) &&
      (forall k :: k in IdsOf(t) <==> k in IdsFor(cmp, xs[i..]))
    decreases |xs| - i
  {
    if i == |xs| {
      assert IdsFor(cmp, xs[i..]) == [];
    } else {
      SeedEffect(cmp, xs, i + 1);
      var t1 := SeedFrom(cmp, xs, i + 1);
      SeedStepDistinct(t1, cmp, xs[i]);
      var id := IdOf(cmp, xs[i]);
      assert IdsFor(cmp, xs[i..]) == [id] + IdsFor(cmp, xs[i + 1..]);
      if id !in IdsOf(t1) {
        var t2 := t1 + [Tally(id, 1, xs[i])];
        assert IdsOf(t2) == IdsOf(t1) + [id];
      }
    }
  }

  /** What a counting pass of `intersect` has done after elements with ids `ids`: each
      entry whose id is among them is counted once more, and the pass has recorded
      exactly the table's ids it met. */
  ghost predicate CountInv(t0: seq<Tally>, st: TallyPass, ids: seq<Val>) {
    |st.0| == |t0| &&
    (forall i :: 0 <= i < |t0| ==>
       st.0[i].id == t0[i].id && st.0[i].v == t0[i].v &&
       st.0[i].count == t0[i].count + (if t0[i].id in ids then 1 else 0)) &&
    (forall k :: k in st.1 <==> k in IdsOf(t0) && k in ids)
  }

  lemma CountStepInv(t0: seq<Tally>, st: TallyPass, ids: seq<Val>, cmp: Option<Val -> Val>, x: Val)
    requires DistinctIds(t0) && CountInv(t0, st, ids)
    ensures CountInv(t0, IntersectStep(st, cmp, x), ids + [IdOf(cmp, x)])
  {
    var id := IdOf(cmp, x);
    assert IdsOf(st.0) == IdsOf(t0);
    if id in IdsOf(t0) && id !in st.1 {
      assert id !in ids;
    } else if id !in IdsOf(t0) {
      forall i | 0 <= i < |t0| ensures t0[i].id != id {
        assert t0[i].id == IdsOf(t0)[i];
      }
    }
  }

  lemma {:induction false} CountPassEffect(t0: seq<Tally>, cmp: Option<Val -> Val>, xs: seq<Val>)
    requires DistinctIds(t0)
    ensures CountInv(t0, IntersectPass((t0, []), cmp, xs), IdsFor(cmp, xs))
    decreases |xs|
  {
    if xs == [] {
      assert IdsFor(cmp, xs) == [];
    } else {
      var n := |xs| - 1;
      CountPassEffect(t0, cmp, xs[..n]);
      CountStepInv(t0, IntersectPass((t0, []), cmp, xs[..n]), IdsFor(cmp, xs[..n]), cmp, xs[n]);
      IdsForSnoc(cmp, xs);
    }
  }

  /** The id lists of some arrays. */
  function IdsForAll(cmp: Option<Val -> Val>, arrs: seq<seq<Val>>): (idl: seq<seq<Val>>)
    ensures |idl| == |arrs| && forall j :: 0 <= j < |arrs| ==> idl[j] == IdsFor(cmp, arrs[j])
  {
    seq(|arrs|, j requires 0 <= j < |arrs| => IdsFor(cmp, arrs[j]))
  }

  /** After the passes over `arrs` the table keeps its ids and values, and each entry
      is counted once more per array containing its id. */
  lemma {:induction false} IntersectRestEffect(t0: seq<Tally>, cmp: Option<Val -> Val>, arrs: seq<seq<Val>>)
    requires DistinctIds(t0)
    ensures var t := IntersectRest(t0, cmp, arrs);
      |t| == |t0| && DistinctIds(t) &&
      forall i :: 0 <= i < |t0| ==> (t[i].id == t0[i].id && t[i].v == t0[i].v &&
        t[i].count == t0[i].count + ListsWith(t0[i].id, IdsForAll(cmp, arrs)))
    decreases |arrs|
  {
    if arrs != [] {
      var m := |arrs| - 1;
      IntersectRestEffect(t0, cmp, arrs[..m]);
      var t1 := IntersectRest(t0, cmp, arrs[..m]);
      CountPassEffect(t1, cmp, arrs[m]);
      var idl := IdsForAll(cmp, arrs);
      assert IdsForAll(cmp, arrs[..m]) == idl[..m];
      var t := IntersectRest(t0, cmp, arrs);
      forall i, j | 0 <= i < j < |t| ensures t[i].id != t[j].id {
        assert t1[i].id != t1[j].id;
      }
    }
  }

  /** Reordering the lists changes neither which ids occur in all of them nor which occur
      in some. */
  lemma InAllPermuted(k: Val, cmp: Option<Val -> Val>, a: seq<Val>, b: seq<Val>)
    requires multiset(a) == multiset(b)
    ensures InAll(k, IdLists(cmp, a)) <==> InAll(k, IdLists(cmp, b))
  {
    forall x, y: seq<Val> | multiset(x) == multiset(y) && InAll(k, IdLists(cmp, x))
      ensures InAll(k, IdLists(cmp, y))
    {
      forall j | 0 <= j < |y| ensures k in IdLists(cmp, y)[j] {
        assert y[j] in multiset(x);
        var i :| 0 <= i < |x| && x[i] == y[j];
      }
    }
  }

  /** The counting from the first of `lists` on, in the order given: each entry holds a
      value with its id and is counted once per list exactly when every list has that
      id, and every id the first list has has an entry. */
  lemma CountsMeaning(lists: seq<Val>, cmp: Option<Val -> Val>)
    requires lists != []
    ensures var items := ItemLists(lists);
      var t := IntersectRest(SeedFrom(cmp, items[0], 0), cmp, items[1..]);
      var idl := IdLists(cmp, lists);
      DistinctIds(t) && TrueIds(t, cmp) &&
      (forall i :: 0 <= i < |t| ==> (t[i].count == |lists| <==> InAll(t[i].id, idl))) &&
      (forall k :: k in idl[0] ==> k in IdsOf(t))
  {
    var items := ItemLists(lists);
    var seed := SeedFrom(cmp, items[0], 0);
    SeedEffect(cmp, items[0], 0);
    assert items[0][0..] == items[0];
    IntersectRestEffect(seed, cmp, items[1..]);
    var t := IntersectRest(seed, cmp, items[1..]);
    var idl := IdLists(cmp, lists);
    assert IdsForAll(cmp, items[1..]) == idl[1..];
    assert forall k :: k in IdsOf(seed) <==> k in idl[0];
    CountsAll(seed, t, idl);
    CountsCover(seed, t, idl[0]);
  }

  /** An entry seeded from the first list and counted once per later list that has its
      id reaches the number of lists exactly when every list has the id. */
  lemma CountsAll(seed: seq<Tally>, t: seq<Tally>, idl: seq<seq<Val>>)
    requires idl != [] && |t| == |seed|
    requires forall i :: 0 <= i < |seed| ==> seed[i].count == 1 && seed[i].id in idl[0]
    requires forall i :: 0 <= i < |seed| ==>
      t[i].id == seed[i].id && t[i].count == seed[i].count + ListsWith(seed[i].id, idl[1..])
    ensures forall i :: 0 <= i < |t| ==> (t[i].count == |idl| <==> InAll(t[i].id, idl))
  {
    forall i | 0 <= i < |t| ensures t[i].count == |idl| <==> InAll(t[i].id, idl) {
      var k := t[i].id;
      ListsWithMeaning(k, idl[1..]);
      InAllTail(k, idl);
    }
  }

  /** The ids survive the passes, so every id of the first list keeps its entry. */
  lemma CountsCover(seed: seq<Tally>, t: seq<Tally>, first: seq<Val>)
    requires |t| == |seed| && forall i :: 0 <= i < |seed| ==> t[i].id == seed[i].id
    requires forall k :: k in first ==> k in IdsOf(seed)
    ensures forall k :: k in first ==> k in IdsOf(t)
  {
    forall k | k in first ensures k in IdsOf(t) {
      var i :| 0 <= i < |seed| && IdsOf(seed)[i] == k;
      assert IdsOf(t)[i] == k;
    }
  }

  /** The same of the table of `intersect`, whose lists are sorted first: every id all
      the arrays have has an entry. */
  lemma IntersectTableMeaning(lists: seq<Val>, cmp: Option<Val -> Val>)
    requires lists != []
    ensures var t := IntersectTable(lists, cmp); var idl := IdLists(cmp, lists);
      DistinctIds(t) && TrueIds(t, cmp) &&
      (forall i :: 0 <= i < |t| ==> (t[i].count == |lists| <==> InAll(t[i].id, idl))) &&
      (forall k :: InAll(k, idl) ==> k in IdsOf(t))
  {
    var sorted := SortByLength(lists);
    CountsMeaning(sorted, cmp);
    var t := IntersectTable(lists, cmp);
    forall k ensures InAll(k, IdLists(cmp, sorted)) <==> InAll(k, IdLists(cmp, lists)) {
      InAllPermuted(k, cmp, sorted, lists);
    }
  }

  lemma InAllTail(k: Val, idl: seq<seq<Val>>)
    requires idl != []
    ensures InAll(k, idl) <==> k in idl[0] && InAll(k, idl[1..])
  {
    if k in idl[0] && InAll(k, idl[1..]) {
      forall j | 0 < j < |idl| ensures k in idl[j] {
        assert idl[1..][j - 1] == idl[j];
      }
    }
  }

  /** `intersect` keeps exactly the ids found in every array: each value it returns has
      an id every array contains, and each such id of any array's element is the id of a
      value returned. */
  lemma IntersectMeaning(params: seq<Param>)
    ensures var (lists, cmp) := SetArgs(params); var idl := IdLists(cmp, lists);
      (forall x :: x in IntersectSpec(params) ==> InAll(IdOf(cmp, x), idl)) &&
      (forall j, y :: 0 <= j < |lists| && y in ToArray(lists[j]) && InAll(IdOf(cmp, y), idl) ==>
         exists x :: x in IntersectSpec(params) && IdOf(cmp, x) == IdOf(cmp, y))
  {
    var (lists, cmp) := SetArgs(params);
    if lists != [] {
      var t := IntersectTable(lists, cmp);
      IntersectTableMeaning(lists, cmp);
      CountedMeaning(t, |lists|, false);
      forall k | InAll(k, IdLists(cmp, lists))
        ensures exists x :: x in IntersectSpec(params) && IdOf(cmp, x) == k
      {
        var i :| 0 <= i < |t| && IdsOf(t)[i] == k;
        assert t[i].v in IntersectSpec(params);
      }
    }
  }

  /** The first loop runs from the end of the shortest array, so the common values come
      out in reverse: `intersect([1, 2], [1, 2])` is `[2, 1]`. */
  lemma IntersectReversesOrder()
    ensures IntersectSpec([PVal(Arr([Num(1), Num(2)])), PVal(Arr([Num(1), Num(2)]))]) == [Num(2), Num(1)]
  {
    var l := Arr([Num(1), Num(2)]);
    TwoListsExample(l);
    var seed := [Tally(Num(2), 1, Num(2)), Tally(Num(1), 1, Num(1))];
    SeedExample();
    var t := [Tally(Num(2), 2, Num(2)), Tally(Num(1), 2, Num(1))];
    PassExample(seed, t);
    IntersectRestOne(seed, [Num(1), Num(2)]);
    CountedExample(t);
  }

  lemma TwoListsExample(l: Val)
    requires l == Arr([Num(1), Num(2)])
    ensures SetArgs([PVal(l), PVal(l)]) == ([l, l], None)
    ensures ItemLists(SortByLength([l, l])) == [[Num(1), Num(2)], [Num(1), Num(2)]]
  {
    var params := [PVal(l), PVal(l)];
    assert ArrayLikes(params[1..]) == [l];
    assert multiset(SortByLength([l, l])) == multiset{l, l};
    SameTwo(SortByLength([l, l]), l);
  }

  lemma CountedExample(t: seq<Tally>)
    requires t == [Tally(Num(2), 2, Num(2)), Tally(Num(1), 2, Num(1))]
    ensures Counted(t, 2, false) == [Num(2), Num(1)]
  {
    assert t[..1][..0] == [];
    assert Counted(t[..1], 2, false) == [Num(2)];
    assert t[..|t| - 1] == t[..1];
  }

  lemma IntersectRestOne(t0: seq<Tally>, xs: seq<Val>)
    ensures IntersectRest(t0, None, [xs]) == IntersectPass((t0, []), None, xs).0
  {
    assert [xs][..0] == [];
  }

  lemma SameTwo(s: seq<Val>, l: Val)
    requires multiset(s) == multiset{l, l}
    ensures s == [l, l]
  {
    assert |s| == 2;
    assert s[0] in multiset(s) && s[1] in multiset(s);
  }

  lemma SeedExample()
    ensures SeedFrom(None, [Num(1), Num(2)], 0) == [Tally(Num(2), 1, Num(2)), Tally(Num(1), 1, Num(1))]
  {
    assert SeedFrom(None, [Num(1), Num(2)], 1) == [Tally(Num(2), 1, Num(2))];
  }

  lemma PassExample(seed: seq<Tally>, t: seq<Tally>)
    requires seed == [Tally(Num(2), 1, Num(2)), Tally(Num(1), 1, Num(1))]
    requires t == [Tally(Num(2), 2, Num(2)), Tally(Num(1), 2, Num(1))]
    ensures IntersectPass((seed, []), None, [Num(1), Num(2)]).0 == t
  {
    assert [Num(1), Num(2)][..1] == [Num(1)];
    assert [Num(1)][..0] == [];
    var s1 := [Tally(Num(2), 1, Num(2)), Tally(Num(1), 2, Num(1))];
    assert Bump(seed, Num(1)) == s1;
    assert IdOf(None, Num(1)) == Num(1) && IdOf(None, Num(2)) == Num(2);
    assert IdsOf(seed) == [Num(2), Num(1)];
    assert IntersectPass((seed, []), None, []) == (seed, []);
    assert IntersectStep((seed, []), None, Num(1)) == (Bump(seed, Num(1)), [] + [Num(1)]);
    assert [] + [Num(1)] == [Num(1)];
    assert IntersectPass((seed, []), None, [Num(1)]) == IntersectStep((seed, []), None, Num(1));
    assert IntersectPass((seed, []), None, [Num(1)]) == (s1, [Num(1)]);
    assert IdsOf(s1) == [Num(2), Num(1)];
    assert Bump(s1, Num(2)) == t;
  }
}
