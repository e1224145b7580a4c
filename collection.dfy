/**
 * The collection combinators of src/collection.ts.
 *
 * Everything is built on the iteration primitive `_eachIterator`, which walks the
 * entries of a string, array, Set, Map or plain object forward or backward and
 * stops right after a callback that returns exactly `false`. The combinators call
 * it with a closure that updates local variables (`rs`, `matched`, `stat`, ...);
 * here that closure is a `Step` from the local state and the entry to the new
 * state and the callback's return value, and one traversal is `Fold`. The method
 * `EachIterator` is the loop itself, proved to compute `Fold`.
 */
module Coll {
  import opened JsValues
  import opened Is
  import opened Utils
  import opened Objects
  import opened Num

  function Reversed<T>(s: seq<T>): (r: seq<T>)
    ensures |r| == |s| && forall i :: 0 <= i < |s| ==> r[i] == s[|s| - 1 - i]
  {
    if s == [] then [] else Reversed(s[1..]) + [s[0]]
  }

  /** Reversing twice gives the sequence back. */
  lemma ReversedTwice<T>(s: seq<T>)
    ensures Reversed(Reversed(s)) == s
  {
    var r := Reversed(Reversed(s));
    forall i | 0 <= i < |s|
      ensures r[i] == s[i]
    {
      assert r[i] == Reversed(s)[|s| - 1 - i];
    }
  }

  lemma {:induction false} ReversedLast<T>(s: seq<T>)
    requires s != []
    ensures Reversed(s) == [s[|s| - 1]] + Reversed(s[..|s| - 1])
    decreases |s|
  {
    if |s| > 1 {
      var init := s[..|s| - 1];
      ReversedLast(s[1..]);
      assert s[1..][..|s| - 2] == init[1..];
      assert s[1..][|s| - 2] == s[|s| - 1];
      assert Reversed(init) == Reversed(init[1..]) + [init[0]];
    } else {
      assert s[..0] == [];
    }
  }

  /** The entries one traversal visits, as (key, value) pairs, in traversal order. */
  function Order(c: Val, forRight: bool): (es: seq<(Val, Val)>)
    ensures |es| == |Entries(c)|
  {
    if forRight then Reversed(Entries(c)) else Entries(c)
  }

  /** One callback call with closure state `S`: from the state, the value and the key to
      the new state and the callback's return value. */
  type Step<!S> = (S, Val, Val) -> (S, Val)

  /** What a traversal leaves in the closure state: every entry in turn, stopping right
      after a call that returns exactly `false`. */
  function Fold<S>(es: seq<(Val, Val)>, s: S, step: Step<S>): S
    decreases |es|
  {
    if es == [] then s
    else
      var r := step(s, es[0].1, es[0].0);
      if r.1 == Bool(false) then r.0 else Fold(es[1..], r.0, step)
  }

  /** A traversal that goes on past its first entry folds the rest from the new state. */
  lemma FoldCons<S>(es: seq<(Val, Val)>, s: S, step: Step<S>, next: S)
    requires es != [] && step(s, es[0].1, es[0].0) == (next, Undef)
    ensures Fold(es, s, step) == Fold(es[1..], next, step)
  {
  }

  /** `_eachIterator(collection, callback, forRight)` (src/collection.ts:70-152). */
  method EachIterator<S>(c: Val, step: Step<S>, s0: S, forRight: bool) returns (s: S)
    ensures s == Fold(Order(c, forRight), s0, step)
  {
    var es := Entries(c);
    ghost var order := Order(c, forRight);
    s := s0;
    if forRight {
      var size := |es|;
      while size > 0
        invariant 0 <= size <= |es|
        invariant Fold(order, s0, step) == Fold(order[|es| - size..], s, step)
      {
        size := size - 1;
        assert order[|es| - size - 1] == es[size];
        var r := step(s, es[size].1, es[size].0);
        if r.1 == Bool(false) {
          return r.0;
        }
        assert order[|es| - size - 1..][1..] == order[|es| - size..];
        s := r.0;
      }
    } else {
      var i := 0;
      while i < |es|
        invariant 0 <= i <= |es|
        invariant Fold(order, s0, step) == Fold(order[i..], s, step)
      {
        var r := step(s, es[i].1, es[i].0);
        if r.1 == Bool(false) {
          return r.0;
        }
        assert order[i..][1..] == order[i + 1..];
        s := r.0;
        i := i + 1;
      }
    }
  }

  // ---------------------------------------------------------------------------
  // each / eachRight (src/collection.ts:173-226)

  /** The position of the first entry whose callback returns exactly `false`, or |es|. */
  function StopIndex(es: seq<(Val, Val)>, cb: Callback): (n: nat)
    ensures n <= |es|
    ensures forall j :: 0 <= j < n ==> cb(es[j].1, es[j].0) != Bool(false)
    ensures n < |es| ==> cb(es[n].1, es[n].0) == Bool(false)
  {
    if es == [] then 0
    else if cb(es[0].1, es[0].0) == Bool(false) then 0
    else 1 + StopIndex(es[1..], cb)
  }

  /** The entries the callback is called on: all of them up to and including the first
      that returns `false`. */
  function Visited(es: seq<(Val, Val)>, cb: Callback): seq<(Val, Val)> {
    var n := StopIndex(es, cb);
    if n < |es| then es[..n + 1] else es
  }

  /** The closure state of `each`: the calls made so far, as (key, value). */
  function TraceStep(cb: Callback): Step<seq<(Val, Val)>> {
    (t: seq<(Val, Val)>, v: Val, k: Val) => (t + [(k, v)], cb(v, k))
  }

  lemma {:induction false} TraceFold(es: seq<(Val, Val)>, t: seq<(Val, Val)>, cb: Callback)
    ensures Fold(es, t, TraceStep(cb)) == t + Visited(es, cb)
    decreases |es|
  {
    if es != [] {
      var e := es[0];
      var r := TraceStep(cb)(t, e.1, e.0);
      assert r == (t + [e], cb(e.1, e.0));
      if r.1 == Bool(false) {
        FoldStop(es, t, TraceStep(cb));
        VisitedStop(es, cb);
      } else {
        FoldGo(es, t, TraceStep(cb));
        TraceFold(es[1..], r.0, cb);
        VisitedCons(es, cb);
        assert r.0 + Visited(es[1..], cb) == t + ([e] + Visited(es[1..], cb));
      }
    }
  }

  /** A step that answers `false` ends the traversal with its state. */
  lemma FoldStop<S>(es: seq<(Val, Val)>, s: S, step: Step<S>)
    requires es != [] && step(s, es[0].1, es[0].0).1 == Bool(false)
    ensures Fold(es, s, step) == step(s, es[0].1, es[0].0).0
  {
  }

  /** Any other answer goes on to the rest from the new state. */
  lemma FoldGo<S>(es: seq<(Val, Val)>, s: S, step: Step<S>)
    requires es != [] && step(s, es[0].1, es[0].0).1 != Bool(false)
    ensures Fold(es, s, step) == Fold(es[1..], step(s, es[0].1, es[0].0).0, step)
  {
  }

  /** A first entry that stops the traversal is the only one visited. */
  lemma VisitedStop(es: seq<(Val, Val)>, cb: Callback)
    requires es != [] && cb(es[0].1, es[0].0) == Bool(false)
    ensures Visited(es, cb) == [es[0]]
  {
  }

  /** Past a first entry that does not stop it, the traversal visits that entry and then
      what it visits of the rest. */
  lemma VisitedCons(es: seq<(Val, Val)>, cb: Callback)
    requires es != [] && cb(es[0].1, es[0].0) != Bool(false)
    ensures Visited(es, cb) == [es[0]] + Visited(es[1..], cb)
  {
    var n := StopIndex(es[1..], cb);
    if n < |es[1..]| {
      assert es[1..][..n + 1] == es[1..n + 2];
      assert es[..n + 2] == [es[0]] + es[1..n + 2];
    } else {
      assert es == [es[0]] + es[1..];
    }
  }

  /** `each(collection, callback)`: the calls it makes, in order. */
  method Each(c: Val, cb: Callback) returns (calls: seq<(Val, Val)>)
    ensures calls == Visited(Entries(c), cb)
  {
    calls := EachIterator(c, TraceStep(cb), [], false);
    TraceFold(Entries(c), [], cb);
  }

  /** `eachRight(collection, callback)`: the calls it makes, in order. */
  method EachRight(c: Val, cb: Callback) returns (calls: seq<(Val, Val)>)
    ensures calls == Visited(Reversed(Entries(c)), cb)
  {
    calls := EachIterator(c, TraceStep(cb), [], true);
    TraceFold(Reversed(Entries(c)), [], cb);
  }

  /** On an array `each` calls back on indices 0, 1, ... in ascending order and `eachRight`
      on n-1, n-2, ... in descending order, both stopping right after the first callback
      that returns `false`. */
  lemma EachArrayOrder(items: seq<Val>, cb: Callback, i: nat)
    ensures var vs := Visited(Entries(Arr(items)), cb);
      i < |vs| ==> vs[i] == (Num(i), items[i]) && (i < |vs| - 1 ==> cb(items[i], Num(i)) != Bool(false))
    ensures var vs := Visited(Entries(Arr(items)), cb);
      |vs| < |items| ==> cb(items[|vs| - 1], Num(|vs| - 1)) == Bool(false)
    ensures var vs := Visited(Reversed(Entries(Arr(items))), cb);
      i < |vs| ==> vs[i] == (Num(|items| - 1 - i), items[|items| - 1 - i])
  {
    var es := Entries(Arr(items));
    VisitedPrefix(es, cb);
    VisitedPrefix(Reversed(es), cb);
  }

  /** The visited entries are a prefix of the entries; the callback returned `false` on
      none but the last, and on the last when the walk stopped early. */
  lemma VisitedPrefix(es: seq<(Val, Val)>, cb: Callback)
    ensures var vs := Visited(es, cb);
      |vs| <= |es| && (forall i :: 0 <= i < |vs| ==> vs[i] == es[i]) &&
      (forall i :: 0 <= i < |vs| - 1 ==> cb(es[i].1, es[i].0) != Bool(false)) &&
      (|vs| < |es| ==> |vs| > 0 && cb(es[|vs| - 1].1, es[|vs| - 1].0) == Bool(false))
  {
  }

  // ---------------------------------------------------------------------------
  // size (src/collection.ts:60-67)

  /** An own `length` that is defined: `size` returns it before it counts anything. */
  predicate HasOwnLength(c: Val) {
    c.Obj? && Prop(c.props, "length") != Undef
  }

  /** The count `size` falls back on: the length of a string or an array, the size of a
      Set or a Map, the number of own keys of a plain object, and 0 for the rest. */
  function Count(c: Val): (n: nat)
    ensures c.Str? ==> n == |c.s|
    ensures c.Arr? ==> n == |c.items|
    ensures c.SetOf? ==> n == |c.elems|
    ensures c.MapOf? ==> n == |c.pairs|
    ensures c.Obj? ==> n == |Keys(c.props)|
    ensures !(c.Str? || IsObjectVal(c)) ==> n == 0
  {
    match c
    case Str(s) => |s|
    case Arr(items) => |items|
    case SetOf(elems) => |elems|
    case MapOf(pairs) => |pairs|
    case Obj(props) => |OwnKeys(c)|
    case _ => 0
  }

  /** `size(collection)`: 0 for null and undefined, a plain object's own `length` when it
      is defined, whatever its type, and otherwise the count. */
  function Size(c: Val): (n: Val)
    ensures c.Undef? || c.Null? ==> n == Num(0)
    ensures HasOwnLength(c) ==> n == GetMember(c, "length")
    ensures !HasOwnLength(c) ==> n == Num(Count(c))
  {
    if c.Undef? || c.Null? then Num(0)
    else if HasOwnLength(c) then Prop(c.props, "length")
    else Num(Count(c))
  }

  /** Without an own `length`, `size` counts exactly the entries a traversal visits; with
      one, it need not: `size({length: 3})` is 3, and a traversal visits one entry. */
  lemma SizeIsEntries(c: Val)
    ensures !HasOwnLength(c) ==> Size(c) == Num(|Entries(c)|)
    ensures Size(Obj([("length", Num(3))])) == Num(3) && |Entries(Obj([("length", Num(3))]))| == 1
  {
  }

  // ---------------------------------------------------------------------------
  // every / some (src/collection.ts:269-344)

  function EveryStep(cb: Callback): Step<bool> {
    (rs: bool, v: Val, k: Val) => if Truthy(cb(v, k)) then (rs, Undef) else (false, Bool(false))
  }

  /** `every(collection, predicate)`. */
  function Every(c: Val, p: Arg): bool {
    Fold(Entries(c), true, EveryStep(Iteratee(p)))
  }

  predicate AllTruthy(es: seq<(Val, Val)>, cb: Callback) {
    forall i :: 0 <= i < |es| ==> Truthy(cb(es[i].1, es[i].0))
  }

  lemma {:induction false} EveryFold(es: seq<(Val, Val)>, rs: bool, cb: Callback)
    ensures Fold(es, rs, EveryStep(cb)) == (rs && AllTruthy(es, cb))
    decreases |es|
  {
    if es != [] && Truthy(cb(es[0].1, es[0].0)) {
      EveryFold(es[1..], rs, cb);
      assert AllTruthy(es, cb) == AllTruthy(es[1..], cb) by {
        assert forall i :: 0 < i < |es| ==> es[i] == es[1..][i - 1];
      }
    }
  }

  /** `every` holds exactly when the predicate is truthy on every entry; on an empty
      collection it holds. */
  lemma EveryAll(c: Val, p: Arg)
    ensures Every(c, p) <==> AllTruthy(Entries(c), Iteratee(p))
    ensures Entries(c) == [] ==> Every(c, p)
  {
    EveryFold(Entries(c), true, Iteratee(p));
  }

  function SomeStep(cb: Callback): Step<bool> {
    (rs: bool, v: Val, k: Val) => if Truthy(cb(v, k)) then (true, Bool(false)) else (rs, Undef)
  }

  /** `predicate || (() => true)`: a falsy predicate value is replaced by the constant true. */
  function SomeArg(p: Arg): Arg {
    if p.Value? && !Truthy(p.v) then Fun((v: Val, k: Val) => Bool(true)) else p
  }

  /** `some(collection, predicate)`. */
  function SomeOf(c: Val, p: Arg): bool {
    Fold(Entries(c), false, SomeStep(Iteratee(SomeArg(p))))
  }

  predicate AnyTruthy(es: seq<(Val, Val)>, cb: Callback) {
    exists i :: 0 <= i < |es| && Truthy(cb(es[i].1, es[i].0))
  }

  lemma {:induction false} SomeFold(es: seq<(Val, Val)>, rs: bool, cb: Callback)
    ensures Fold(es, rs, SomeStep(cb)) == (rs || AnyTruthy(es, cb))
    decreases |es|
  {
    if es != [] && !Truthy(cb(es[0].1, es[0].0)) {
      SomeFold(es[1..], rs, cb);
      if AnyTruthy(es, cb) {
        var i :| 0 <= i < |es| && Truthy(cb(es[i].1, es[i].0));
        assert es[1..][i - 1] == es[i];
      }
      if AnyTruthy(es[1..], cb) {
        var i :| 0 <= i < |es[1..]| && Truthy(cb(es[1..][i].1, es[1..][i].0));
        assert es[i + 1] == es[1..][i];
      }
    }
  }

  /** `some` holds exactly when the predicate is truthy on some entry; on an empty
      collection it fails; without a predicate it holds on any non-empty collection. */
  lemma SomeAny(c: Val, p: Arg)
    ensures SomeOf(c, p) <==> AnyTruthy(Entries(c), Iteratee(SomeArg(p)))
    ensures Entries(c) == [] ==> !SomeOf(c, p)
    ensures p == Value(Undef) ==> (SomeOf(c, p) <==> Entries(c) != [])
  {
    SomeFold(Entries(c), false, Iteratee(SomeArg(p)));
    if p == Value(Undef) && Entries(c) != [] {
      assert Truthy(Iteratee(SomeArg(p))(Entries(c)[0].1, Entries(c)[0].0));
    }
  }

  /** The number of callback calls a traversal makes. */
  function Calls<S>(es: seq<(Val, Val)>, s: S, step: Step<S>): (n: nat)
    ensures n <= |es|
    decreases |es|
  {
    if es == [] then 0
    else
      var r := step(s, es[0].1, es[0].0);
      if r.1 == Bool(false) then 1 else 1 + Calls(es[1..], r.0, step)
  }

  /** The first entry on which the predicate is falsy, or |es|. */
  function FirstFalsy(es: seq<(Val, Val)>, cb: Callback): (n: nat)
    ensures n <= |es|
    ensures forall j :: 0 <= j < n ==> Truthy(cb(es[j].1, es[j].0))
    ensures n < |es| ==> !Truthy(cb(es[n].1, es[n].0))
  {
    if es == [] then 0 else if !Truthy(cb(es[0].1, es[0].0)) then 0 else 1 + FirstFalsy(es[1..], cb)
  }

  /** `every` stops at the first element on which the predicate is falsy: it calls the
      predicate on exactly the entries up to and including that one. */
  lemma {:induction false} EveryStopsEarly(es: seq<(Val, Val)>, rs: bool, cb: Callback)
    ensures Calls(es, rs, EveryStep(cb)) == if FirstFalsy(es, cb) < |es| then FirstFalsy(es, cb) + 1 else |es|
    decreases |es|
  {
    if es != [] && Truthy(cb(es[0].1, es[0].0)) {
      EveryStopsEarly(es[1..], rs, cb);
    }
  }

  // ---------------------------------------------------------------------------
  // filter / reject / partition (src/collection.ts:389-514)

  /** The closure of `filter` (keep = true) and `reject` (keep = false): push `v` when
      the predicate's truthiness is `keep`. */
  function SelectStep(cb: Callback, keep: bool): Step<seq<Val>> {
    (rs: seq<Val>, v: Val, k: Val) => (if Truthy(cb(v, k)) == keep then rs + [v] else rs, Undef)
  }

  function PartitionStep(cb: Callback): Step<(seq<Val>, seq<Val>)> {
    (st: (seq<Val>, seq<Val>), v: Val, k: Val) =>
      (if Truthy(cb(v, k)) then (st.0 + [v], st.1) else (st.0, st.1 + [v]), Undef)
  }

  /** `filter(collection, predicate)`. */
  function Filter(c: Val, p: Arg): seq<Val> {
    Fold(Entries(c), [], SelectStep(Iteratee(p), true))
  }

  /** `reject(collection, predicate)`. */
  function Reject(c: Val, p: Arg): seq<Val> {
    Fold(Entries(c), [], SelectStep(Iteratee(p), false))
  }

  /** `partition(collection, predicate)`: `[matched, mismatched]`. */
  function Partition(c: Val, p: Arg): (seq<Val>, seq<Val>) {
    Fold(Entries(c), ([], []), PartitionStep(Iteratee(p)))
  }

  /** The values, in order, whose predicate truthiness is `keep`. */
  function Select(es: seq<(Val, Val)>, cb: Callback, keep: bool): seq<Val>
    decreases |es|
  {
    if es == [] then []
    else (if Truthy(cb(es[0].1, es[0].0)) == keep then [es[0].1] else []) + Select(es[1..], cb, keep)
  }

  lemma {:induction false} SelectFold(es: seq<(Val, Val)>, rs: seq<Val>, cb: Callback, keep: bool)
    ensures Fold(es, rs, SelectStep(cb, keep)) == rs + Select(es, cb, keep)
    decreases |es|
  {
    if es != [] {
      var v := es[0].1;
      var head := if Truthy(cb(v, es[0].0)) == keep then [v] else [];
      var r := SelectStep(cb, keep)(rs, v, es[0].0);
      if Truthy(cb(v, es[0].0)) == keep {
        assert r.0 == rs + [v];
      } else {
        assert r.0 == rs == rs + [];
      }
      assert r == (rs + head, Undef);
      SelectFold(es[1..], rs + head, cb, keep);
      assert Select(es, cb, keep) == head + Select(es[1..], cb, keep);
      assert (rs + head) + Select(es[1..], cb, keep) == rs + (head + Select(es[1..], cb, keep));
    }
  }

  lemma {:induction false} PartitionFold(es: seq<(Val, Val)>, a: seq<Val>, b: seq<Val>, cb: Callback)
    ensures Fold(es, (a, b), PartitionStep(cb)) == (a + Select(es, cb, true), b + Select(es, cb, false))
    decreases |es|
  {
    if es != [] {
      var v := es[0].1;
      var yes := if Truthy(cb(v, es[0].0)) then [v] else [];
      var no := if Truthy(cb(v, es[0].0)) then [] else [v];
      var r := PartitionStep(cb)((a, b), v, es[0].0);
      if Truthy(cb(v, es[0].0)) {
        assert b + no == b;
        assert r.0.0 == a + yes && r.0.1 == b + no;
      } else {
        assert a + yes == a;
        assert r.0.0 == a + yes && r.0.1 == b + no;
      }
      assert r == ((a + yes, b + no), Undef);
      assert Fold(es, (a, b), PartitionStep(cb)) == Fold(es[1..], (a + yes, b + no), PartitionStep(cb));
      PartitionFold(es[1..], a + yes, b + no, cb);
      assert Select(es, cb, true) == yes + Select(es[1..], cb, true);
      assert Select(es, cb, false) == no + Select(es[1..], cb, false);
      assert (a + yes) + Select(es[1..], cb, true) == a + (yes + Select(es[1..], cb, true));
      assert (b + no) + Select(es[1..], cb, false) == b + (no + Select(es[1..], cb, false));
    } else {
      assert a + [] == a && b + [] == b;
    }
  }

  /** `filter` keeps, in traversal order, the values on which the predicate is truthy, and
      `reject` the others; `partition` is the pair of the two. */
  lemma PartitionIsFilterReject(c: Val, p: Arg)
    ensures Filter(c, p) == Select(Entries(c), Iteratee(p), true)
    ensures Reject(c, p) == Select(Entries(c), Iteratee(p), false)
    ensures Partition(c, p) == (Filter(c, p), Reject(c, p))
  {
    SelectFold(Entries(c), [], Iteratee(p), true);
    SelectFold(Entries(c), [], Iteratee(p), false);
    PartitionFold(Entries(c), [], [], Iteratee(p));
    assert [] + Select(Entries(c), Iteratee(p), true) == Select(Entries(c), Iteratee(p), true);
    assert [] + Select(Entries(c), Iteratee(p), false) == Select(Entries(c), Iteratee(p), false);
  }

  /** The values of the entries, in order. */
  function ValuesOf(es: seq<(Val, Val)>): (vs: seq<Val>)
    ensures |vs| == |es| && forall i :: 0 <= i < |es| ==> vs[i] == es[i].1
  {
    seq(|es|, i requires 0 <= i < |es| => es[i].1)
  }

  /** The two sides split the values: together they are a rearrangement of all of them. */
  lemma {:induction false} SelectSplits(es: seq<(Val, Val)>, cb: Callback)
    ensures multiset(Select(es, cb, true)) + multiset(Select(es, cb, false)) == multiset(ValuesOf(es))
    decreases |es|
  {
    if es != [] {
      SelectSplits(es[1..], cb);
      assert ValuesOf(es) == [es[0].1] + ValuesOf(es[1..]);
      var yes := if Truthy(cb(es[0].1, es[0].0)) then [es[0].1] else [];
      var no := if Truthy(cb(es[0].1, es[0].0)) then [] else [es[0].1];
      assert Select(es, cb, true) == yes + Select(es[1..], cb, true);
      assert Select(es, cb, false) == no + Select(es[1..], cb, false);
      assert multiset(yes) + multiset(no) == multiset{es[0].1};
    }
  }

  /** Every value a side keeps came from an entry on which the predicate's truthiness is
      that side's. */
  lemma {:induction false} SelectSound(es: seq<(Val, Val)>, cb: Callback, keep: bool, x: Val)
    requires x in Select(es, cb, keep)
    ensures exists i :: 0 <= i < |es| && es[i].1 == x && Truthy(cb(es[i].1, es[i].0)) == keep
    decreases |es|
  {
    var head := if Truthy(cb(es[0].1, es[0].0)) == keep then [es[0].1] else [];
    assert Select(es, cb, keep) == head + Select(es[1..], cb, keep);
    if x !in head {
      SelectSound(es[1..], cb, keep, x);
      var i :| 0 <= i < |es[1..]| && es[1..][i].1 == x && Truthy(cb(es[1..][i].1, es[1..][i].0)) == keep;
      assert es[i + 1] == es[1..][i];
    }
  }

  /** `n => n % 2`. */
  function Odd(v: Val, k: Val): Val {
    if v.Num? then Num(v.n % 2) else NaN
  }

  /** filter([1,2,3,4,5], n => n % 2) is [1,3,5]; partition puts [2,4] on the other side. */
  lemma FilterOddExample(items: seq<Val>)
    requires items == [Num(1), Num(2), Num(3), Num(4), Num(5)]
    ensures Partition(Arr(items), Fun(Odd)) == ([Num(1), Num(3), Num(5)], [Num(2), Num(4)])
  {
    var es := Entries(Arr(items));
    PartitionIsFilterReject(Arr(items), Fun(Odd));
    assert Iteratee(Fun(Odd)) == Odd;
    assert |es| == 5;
    assert es[0] == (Num(0), Num(1)) && es[1] == (Num(1), Num(2)) && es[2] == (Num(2), Num(3));
    assert es[3] == (Num(3), Num(4)) && es[4] == (Num(4), Num(5));
    assert Truthy(Odd(Num(1), Num(0))) && !Truthy(Odd(Num(2), Num(1))) && Truthy(Odd(Num(3), Num(2)));
    assert !Truthy(Odd(Num(4), Num(3))) && Truthy(Odd(Num(5), Num(4)));
    assert es[4..][1..] == [];
    assert es[3..][1..] == es[4..];
    assert es[2..][1..] == es[3..];
    assert es[1..][1..] == es[2..];
    assert es[0..] == es;
    assert Select(es[4..], Odd, true) == [Num(5)] && Select(es[4..], Odd, false) == [];
    assert Select(es[3..], Odd, true) == [Num(5)] && Select(es[3..], Odd, false) == [Num(4)];
    assert Select(es[2..], Odd, true) == [Num(3), Num(5)] && Select(es[2..], Odd, false) == [Num(4)];
    assert Select(es[1..], Odd, true) == [Num(3), Num(5)] && Select(es[1..], Odd, false) == [Num(2), Num(4)];
    assert Select(es, Odd, true) == [Num(1), Num(3), Num(5)] && Select(es, Odd, false) == [Num(2), Num(4)];
  }

  // ---------------------------------------------------------------------------
  // find / findLast (src/collection.ts:559-636)

  function FindStep(cb: Callback): Step<Val> {
    (rs: Val, v: Val, k: Val) => if Truthy(cb(v, k)) then (v, Bool(false)) else (rs, Undef)
  }

  /** `find(collection, predicate)`. */
  function Find(c: Val, p: Arg): Val {
    Fold(Entries(c), Undef, FindStep(Iteratee(p)))
  }

  /** `findLast(collection, predicate)`: `find` over the backward traversal. */
  function FindLast(c: Val, p: Arg): Val {
    Fold(Reversed(Entries(c)), Undef, FindStep(Iteratee(p)))
  }

  /** The first position whose value the predicate accepts. */
  function FirstMatch(es: seq<(Val, Val)>, cb: Callback): (r: Option<nat>)
    ensures r.Some? ==> (r.value < |es| && Truthy(cb(es[r.value].1, es[r.value].0)) &&
      forall j :: 0 <= j < r.value ==> !Truthy(cb(es[j].1, es[j].0)))
    ensures r.None? ==> forall j :: 0 <= j < |es| ==> !Truthy(cb(es[j].1, es[j].0))
  {
    if es == [] then None
    else if Truthy(cb(es[0].1, es[0].0)) then Some(0)
    else match FirstMatch(es[1..], cb)
      case Some(i) => Some(i + 1)
      case None => None
  }

  /** The last position whose value the predicate accepts. */
  function LastMatch(es: seq<(Val, Val)>, cb: Callback): (r: Option<nat>)
    ensures r.Some? ==> (r.value < |es| && Truthy(cb(es[r.value].1, es[r.value].0)) &&
      forall j :: r.value < j < |es| ==> !Truthy(cb(es[j].1, es[j].0)))
    ensures r.None? ==> forall j :: 0 <= j < |es| ==> !Truthy(cb(es[j].1, es[j].0))
    decreases |es|
  {
    if es == [] then None
    else if Truthy(cb(es[|es| - 1].1, es[|es| - 1].0)) then Some(|es| - 1)
    else LastMatch(es[..|es| - 1], cb)
  }

  lemma {:induction false} FindFold(es: seq<(Val, Val)>, rs: Val, cb: Callback)
    ensures Fold(es, rs, FindStep(cb)) == match FirstMatch(es, cb) case Some(i) => es[i].1 case None => rs
    decreases |es|
  {
    if es != [] && !Truthy(cb(es[0].1, es[0].0)) {
      FindFold(es[1..], rs, cb);
    }
  }

  lemma {:induction false} FindLastFold(es: seq<(Val, Val)>, rs: Val, cb: Callback)
    ensures Fold(Reversed(es), rs, FindStep(cb)) == match LastMatch(es, cb) case Some(i) => es[i].1 case None => rs
    decreases |es|
  {
    if es != [] {
      ReversedLast(es);
      var r := Reversed(es);
      assert r[0] == es[|es| - 1] && r[1..] == Reversed(es[..|es| - 1]);
      if !Truthy(cb(es[|es| - 1].1, es[|es| - 1].0)) {
        FindLastFold(es[..|es| - 1], rs, cb);
      }
    }
  }

  /** `find` gives the first value the predicate accepts and `findLast` the last one; both
      give undefined when it accepts none. */
  lemma FindFirstAndLast(c: Val, p: Arg)
    ensures Find(c, p) == match FirstMatch(Entries(c), Iteratee(p)) case Some(i) => Entries(c)[i].1 case None => Undef
    ensures FindLast(c, p) == match LastMatch(Entries(c), Iteratee(p)) case Some(i) => Entries(c)[i].1 case None => Undef
  {
    FindFold(Entries(c), Undef, Iteratee(p));
    FindLastFold(Entries(c), Undef, Iteratee(p));
  }

  // ---------------------------------------------------------------------------
  // map (src/collection.ts:682-693)

  function MapStep(cb: Callback): Step<seq<Val>> {
    (rs: seq<Val>, v: Val, k: Val) => (rs + [cb(v, k)], Undef)
  }

  /** `map(collection, iteratee)`. */
  function Map(c: Val, p: Arg): seq<Val> {
    Fold(Entries(c), [], MapStep(Iteratee(p)))
  }

  lemma {:induction false} MapFold(es: seq<(Val, Val)>, rs: seq<Val>, cb: Callback)
    ensures var r := Fold(es, rs, MapStep(cb));
      |r| == |rs| + |es| && r[..|rs|] == rs &&
      forall i :: 0 <= i < |es| ==> r[|rs| + i] == cb(es[i].1, es[i].0)
    decreases |es|
  {
    if es != [] {
      var rs1 := rs + [cb(es[0].1, es[0].0)];
      MapFold(es[1..], rs1, cb);
      var r := Fold(es, rs, MapStep(cb));
      assert r == Fold(es[1..], rs1, MapStep(cb));
      assert r[..|rs|] == r[..|rs1|][..|rs|];
      forall i | 1 <= i < |es|
        ensures r[|rs| + i] == cb(es[i].1, es[i].0)
      {
        assert r[|rs1| + (i - 1)] == cb(es[1..][i - 1].1, es[1..][i - 1].0);
      }
    }
  }

  /** `map` gives one result per entry, in traversal order, each the iteratee applied to
      that entry's value and key. */
  lemma MapEach(c: Val, p: Arg)
    ensures |Map(c, p)| == |Entries(c)|
    ensures forall i :: 0 <= i < |Entries(c)| ==> Map(c, p)[i] == Iteratee(p)(Entries(c)[i].1, Entries(c)[i].0)
  {
    MapAll(Entries(c), Iteratee(p));
  }

  lemma MapAll(es: seq<(Val, Val)>, cb: Callback)
    ensures var r := Fold(es, [], MapStep(cb));
      |r| == |es| && forall i :: 0 <= i < |es| ==> r[i] == cb(es[i].1, es[i].0)
  {
    MapFold(es, [], cb);
  }

  // ---------------------------------------------------------------------------
  // toArray (src/collection.ts:888-904)

  /** `toArray(collection)`. */
  function ToArray(c: Val): (r: seq<Val>)
    ensures c.Arr? ==> r == c.items
    ensures c.SetOf? ==> r == c.elems
    ensures c.Str? ==> |r| == |c.s| && forall i :: 0 <= i < |r| ==> r[i] == Str([c.s[i]])
    ensures c.MapOf? ==> |r| == |c.pairs| && forall i :: 0 <= i < |r| ==> r[i] == c.pairs[i].1
    ensures c.Obj? ==> r == Values(c)
    ensures !(c.Str? || IsObjectVal(c)) ==> r == [c]
  {
    match c
    case Arr(items) => items
    case SetOf(elems) => elems
    case Str(s) => seq(|s|, i requires 0 <= i < |s| => Str([s[i]]))
    case MapOf(pairs) => seq(|pairs|, i requires 0 <= i < |pairs| => pairs[i].1)
    case Obj(_) => Values(c)
    case _ => [c]
  }

  /** For every collection kind but a plain object with repeated keys, `toArray` lists
      the values a traversal visits. */
  lemma ToArrayIsValues(c: Val)
    requires c.Obj? ==> UniqueKeys(c.props)
    requires c.Str? || IsObjectVal(c)
    ensures ToArray(c) == ValuesOf(Entries(c))
  {
    if c.Obj? {
      forall i | 0 <= i < |c.props|
        ensures Values(c)[i] == c.props[i].1
      {
        ValuesInOrder(c, i);
      }
    }
  }

  // ---------------------------------------------------------------------------
  // includes (src/collection.ts:803-819)

  /** `s.includes(t, position)`: `t` occurs at or after the position, clamped into [0, |s|]. */
  predicate StrIncludes(s: string, t: string, position: int) {
    var p := if position < 0 then 0 else if position > |s| then |s| else position;
    exists i :: p <= i <= |s| && OccursAt(s, t, i)
  }

  predicate OccursAt(s: string, t: string, i: int) {
    0 <= i && i + |t| <= |s| && s[i..i + |t|] == t
  }

  function IncludesStep(value: Val): Step<bool> {
    (rs: bool, v: Val, k: Val) => if Eq(v, value) then (true, Bool(false)) else (rs, Undef)
  }

  /** What `includes` searches: a string as text, an array from `fromIndex` on, and any
      other collection whole. */
  function Searched(c: Val, fromIndex: int): Val {
    if IsArrayLike(c) then Arr(JsSlice(ToArray(c), fromIndex, None)) else c
  }

  /** `includes(collection, value, fromIndex)`, with 0 for an undefined `fromIndex`. */
  function Includes(c: Val, value: Val, fromIndex: int): bool {
    if c.Str? then StrIncludes(c.s, ToJsString(value), fromIndex)
    else Fold(Entries(Searched(c, fromIndex)), false, IncludesStep(value))
  }

  lemma {:induction false} IncludesFold(es: seq<(Val, Val)>, value: Val)
    ensures Fold(es, false, IncludesStep(value)) <==> exists i :: 0 <= i < |es| && Eq(es[i].1, value)
    decreases |es|
  {
    if es != [] && !Eq(es[0].1, value) {
      IncludesFold(es[1..], value);
      if exists i :: 0 <= i < |es| && Eq(es[i].1, value) {
        var i :| 0 <= i < |es| && Eq(es[i].1, value);
        assert es[1..][i - 1] == es[i];
      }
      if exists i :: 0 <= i < |es[1..]| && Eq(es[1..][i].1, value) {
        var i :| 0 <= i < |es[1..]| && Eq(es[1..][i].1, value);
        assert es[i + 1] == es[1..][i];
      }
    }
  }

  /** On an array `includes` looks for an `eq` element in `slice(array, fromIndex)`; on a
      Set, Map or object it looks at every value and ignores `fromIndex`. */
  lemma IncludesMeaning(c: Val, value: Val, fromIndex: int)
    ensures c.Arr? ==> (Includes(c, value, fromIndex) <==>
      exists x :: x in JsSlice(c.items, fromIndex, None) && Eq(x, value))
    ensures (c.SetOf? || c.MapOf? || c.Obj?) ==> (Includes(c, value, fromIndex) <==>
      exists i :: 0 <= i < |Entries(c)| && Eq(Entries(c)[i].1, value))
  {
    if c.Arr? {
      IncludesArray(c.items, value, fromIndex);
    } else if c.SetOf? || c.MapOf? || c.Obj? {
      assert Searched(c, fromIndex) == c;
      IncludesFold(Entries(c), value);
    }
  }

  /** The array case of IncludesMeaning. */
  lemma IncludesArray(items: seq<Val>, value: Val, fromIndex: int)
    ensures Includes(Arr(items), value, fromIndex) <==>
      exists x :: x in JsSlice(items, fromIndex, None) && Eq(x, value)
  {
    var sl := JsSlice(items, fromIndex, None);
    assert Searched(Arr(items), fromIndex) == Arr(sl);
    var es := Entries(Arr(sl));
    IncludesFold(es, value);
    if exists x :: x in sl && Eq(x, value) {
      var x :| x in sl && Eq(x, value);
      var i :| 0 <= i < |sl| && sl[i] == x;
      assert es[i].1 == x;
    }
    if exists i :: 0 <= i < |es| && Eq(es[i].1, value) {
      var i :| 0 <= i < |es| && Eq(es[i].1, value);
      assert sl[i] in sl;
    }
  }

  /** includes([1,2,3], 2) holds and includes([1,2,3], '2') does not: there is no
      coercion. */
  lemma IncludesExample(items: seq<Val>)
    requires items == [Num(1), Num(2), Num(3)]
    ensures Includes(Arr(items), Num(2), 0)
    ensures !Includes(Arr(items), Str("2"), 0)
  {
    IncludesFound(items, Num(2), 0, 1);
    assert forall i :: 0 <= i < |items| ==> !Eq(items[i], Str("2"));
    IncludesNone(items, Str("2"));
  }

  /** A value equal to no element is not found in the whole array. */
  lemma IncludesNone(items: seq<Val>, value: Val)
    requires forall i :: 0 <= i < |items| ==> !Eq(items[i], value)
    ensures !Includes(Arr(items), value, 0)
  {
    SliceWhole(items);
    IncludesArray(items, value, 0);
  }

  /** An element at or after the start position that is `eq` to the value is found. */
  lemma IncludesFound(items: seq<Val>, value: Val, fromIndex: nat, i: nat)
    requires fromIndex <= i < |items| && Eq(items[i], value)
    ensures Includes(Arr(items), value, fromIndex)
  {
    IncludesArray(items, value, fromIndex);
    assert JsSlice(items, fromIndex, None)[i - fromIndex] == items[i];
  }

  /** includes([1,2,3], 1, 1) fails: the search starts at index 1. */
  lemma IncludesFromExample(items: seq<Val>)
    requires items == [Num(1), Num(2), Num(3)]
    ensures !Includes(Arr(items), Num(1), 1)
  {
    IncludesArray(items, Num(1), 1);
    assert JsSlice(items, 1, None) == items[1..3];
    assert items[1..3] == [Num(2), Num(3)];
  }

  // ---------------------------------------------------------------------------
  // reduce (src/collection.ts:843-865)

  /** A reducer: from the accumulator, the value and the key to the new accumulator. */
  type Reducer = (Val, Val, Val) -> Val

  function ReduceStep(f: Reducer): Step<(Val, bool)> {
    (st: (Val, bool), v: Val, k: Val) => (if st.1 then (f(st.0, v, k), true) else (v, true), Undef)
  }

  /** `reduce(collection, callback, initialValue)`. */
  function Reduce(c: Val, f: Reducer, init: Val): Val {
    Fold(Entries(c), (init, init != Undef), ReduceStep(f)).0
  }

  /** The left fold with an accumulator: the reference for `reduce`. */
  function FoldLeft(es: seq<(Val, Val)>, acc: Val, f: Reducer): Val
    decreases |es|
  {
    if es == [] then acc else FoldLeft(es[1..], f(acc, es[0].1, es[0].0), f)
  }

  lemma {:induction false} ReduceFold(es: seq<(Val, Val)>, acc: Val, f: Reducer)
    ensures Fold(es, (acc, true), ReduceStep(f)) == (FoldLeft(es, acc, f), true)
    decreases |es|
  {
    if es != [] {
      ReduceFold(es[1..], f(acc, es[0].1, es[0].0), f);
    }
  }

  /** With a defined initial value `reduce` is the left fold from it; without one the first
      value is the accumulator and the callback is never called on it; an empty collection
      without one gives undefined. */
  lemma ReduceMeaning(c: Val, f: Reducer, init: Val)
    ensures init != Undef ==> Reduce(c, f, init) == FoldLeft(Entries(c), init, f)
    ensures init == Undef && Entries(c) == [] ==> Reduce(c, f, init) == Undef
    ensures init == Undef && Entries(c) != [] ==>
      Reduce(c, f, init) == FoldLeft(Entries(c)[1..], Entries(c)[0].1, f)
  {
    var es := Entries(c);
    if init != Undef {
      ReduceFold(es, init, f);
    } else if es != [] {
      ReduceFold(es[1..], es[0].1, f);
    }
  }

  function Add(acc: Val, v: Val, k: Val): Val {
    if acc.Num? && v.Num? then Num(acc.n + v.n) else NaN
  }

  /** reduce([1,3,5,7,9], (a, v) => a + v) is 25, and 35 from 10. */
  lemma ReduceSumExample(items: seq<Val>)
    requires items == [Num(1), Num(3), Num(5), Num(7), Num(9)]
    ensures Reduce(Arr(items), Add, Undef) == Num(25)
    ensures Reduce(Arr(items), Add, Num(10)) == Num(35)
  {
    var es := Entries(Arr(items));
    ReduceMeaning(Arr(items), Add, Undef);
    ReduceMeaning(Arr(items), Add, Num(10));
    assert es[4..][1..] == [];
    assert es[3..][1..] == es[4..];
    assert es[2..][1..] == es[3..];
    assert es[1..][1..] == es[2..];
    assert es[4..] == [(Num(4), Num(9))];
    assert FoldLeft(es[4..], Num(16), Add) == Num(25);
    assert FoldLeft(es[3..], Num(9), Add) == Num(25);
    assert FoldLeft(es[2..], Num(4), Add) == Num(25);
    assert FoldLeft(es[1..], Num(1), Add) == Num(25);
    assert FoldLeft(es[4..], Num(26), Add) == Num(35);
    assert FoldLeft(es[3..], Num(19), Add) == Num(35);
    assert FoldLeft(es[2..], Num(14), Add) == Num(35);
    assert FoldLeft(es[1..], Num(11), Add) == Num(35);
    assert FoldLeft(es, Num(10), Add) == Num(35);
  }

  // ---------------------------------------------------------------------------
  // sortBy (src/collection.ts:978-1001)

  /** One element being sorted: the source value, its position and its key. */
  datatype Item = Item(src: Val, index: nat, key: Val)

  /** The sort callback: keys that are not `eq` compare by rank, `eq` ones by position.
      The rank stands for the library's key comparators. */
  function ItemCompare(a: Item, b: Item, rank: Val -> int): int {
    if !Eq(a.key, b.key) then rank(a.key) - rank(b.key) else a.index - b.index
  }

  /** `a` goes before `b`: smaller rank, or the same rank and an earlier position. */
  predicate Before(a: Item, b: Item, rank: Val -> int) {
    rank(a.key) < rank(b.key) || (rank(a.key) == rank(b.key) && a.index < b.index)
  }

  /** A rank that gives `eq` keys the same value makes the sort callback the order
      `Before`: negative exactly when `a` goes first. */
  lemma CompareIsBefore(a: Item, b: Item, rank: Val -> int)
    requires Eq(a.key, b.key) ==> rank(a.key) == rank(b.key)
    requires a.index != b.index
    requires ItemCompare(a, b, rank) != 0 || !Eq(a.key, b.key)
    ensures ItemCompare(a, b, rank) < 0 ==> Before(a, b, rank)
    ensures Eq(a.key, b.key) ==> (ItemCompare(a, b, rank) < 0 <==> Before(a, b, rank))
  {
  }

  function Insert(x: Item, s: seq<Item>, rank: Val -> int): (r: seq<Item>)
    ensures multiset(r) == multiset(s) + multiset{x}
    ensures |r| == |s| + 1
  {
    if s == [] then [x]
    else if Before(x, s[0], rank) then [x] + s
    else
      assert s == [s[0]] + s[1..];
      [s[0]] + Insert(x, s[1..], rank)
  }

  function InsertionSort(s: seq<Item>, rank: Val -> int): (r: seq<Item>)
    ensures multiset(r) == multiset(s)
    ensures |r| == |s|
  {
    if s == [] then []
    else
      assert s == [s[0]] + s[1..];
      Insert(s[0], InsertionSort(s[1..], rank), rank)
  }

  predicate SortedBy(s: seq<Item>, rank: Val -> int) {
    forall i, j :: 0 <= i < j < |s| ==> Before(s[i], s[j], rank)
  }

  lemma {:induction false} InsertSorted(x: Item, s: seq<Item>, rank: Val -> int)
    requires SortedBy(s, rank)
    requires forall i :: 0 <= i < |s| ==> s[i].index != x.index
    ensures SortedBy(Insert(x, s, rank), rank)
    decreases |s|
  {
    if s != [] && !Before(x, s[0], rank) {
      InsertSorted(x, s[1..], rank);
      var r := Insert(x, s, rank);
      var t := Insert(x, s[1..], rank);
      assert r == [s[0]] + t;
      forall j | 0 < j < |r|
        ensures Before(s[0], r[j], rank)
      {
        assert r[j] == t[j - 1];
        assert r[j] in multiset(t);
        assert r[j] in multiset(s[1..]) + multiset{x};
        if r[j] in multiset(s[1..]) {
          var m :| 0 <= m < |s[1..]| && s[1..][m] == r[j];
          assert r[j] == s[m + 1];
        }
      }
    }
  }

  /** The items of a traversal, numbered in order. */
  function Items(es: seq<(Val, Val)>, cb: Callback): (r: seq<Item>)
    ensures |r| == |es|
    ensures forall i :: 0 <= i < |es| ==> r[i] == Item(es[i].1, i, cb(es[i].1, es[i].0))
  {
    seq(|es|, i requires 0 <= i < |es| => Item(es[i].1, i, cb(es[i].1, es[i].0)))
  }

  lemma {:induction false} SortSorted(s: seq<Item>, rank: Val -> int)
    requires forall i, j :: 0 <= i < j < |s| ==> s[i].index != s[j].index
    ensures SortedBy(InsertionSort(s, rank), rank)
    decreases |s|
  {
    if s != [] {
      SortSorted(s[1..], rank);
      var t := InsertionSort(s[1..], rank);
      forall i | 0 <= i < |t|
        ensures t[i].index != s[0].index
      {
        assert t[i] in multiset(s[1..]);
        var m :| 0 <= m < |s[1..]| && s[1..][m] == t[i];
        assert t[i] == s[m + 1];
      }
      InsertSorted(s[0], t, rank);
    }
  }

  /** `size(collection) < 1`: the language's `<` converts the size to a number. */
  predicate SizeBelowOne(c: Val) {
    Less(ToNumber(Size(c)), Fin(1.0))
  }

  /** `sortBy(collection, iteratee)`: each value with its position and key, sorted stably
      by key. A falsy iteratee means identity. */
  function SortBy(c: Val, p: Arg, rank: Val -> int): seq<Val> {
    if SizeBelowOne(c) then []
    else
      var cb := Iteratee(if p.Value? && !Truthy(p.v) then Fun((v: Val, k: Val) => Identity(v)) else p);
      var sorted := InsertionSort(Items(Entries(c), cb), rank);
      seq(|sorted|, i requires 0 <= i < |sorted| => sorted[i].src)
  }

  /** `sortBy` returns a rearrangement of the values, ordered by key rank, and values whose
      keys rank the same keep their original relative order. It returns nothing when the
      size is below 1, which without an own `length` means exactly an empty traversal. */
  lemma SortByStable(c: Val, p: Arg, rank: Val -> int)
    ensures SizeBelowOne(c) ==> SortBy(c, p, rank) == []
    ensures !HasOwnLength(c) ==> (SizeBelowOne(c) <==> Entries(c) == [])
    ensures !SizeBelowOne(c) ==>
      var cb := Iteratee(if p.Value? && !Truthy(p.v) then Fun((v: Val, k: Val) => Identity(v)) else p);
      var sorted := InsertionSort(Items(Entries(c), cb), rank);
      |SortBy(c, p, rank)| == |Entries(c)| &&
      multiset(sorted) == multiset(Items(Entries(c), cb)) &&
      (forall i :: 0 <= i < |sorted| ==> SortBy(c, p, rank)[i] == sorted[i].src) &&
      (forall i, j :: 0 <= i < j < |sorted| ==>
        rank(sorted[i].key) < rank(sorted[j].key) ||
        (rank(sorted[i].key) == rank(sorted[j].key) && sorted[i].index < sorted[j].index))
  {
    SizeBelowOneEmpty(c);
    var cb := Iteratee(if p.Value? && !Truthy(p.v) then Fun((v: Val, k: Val) => Identity(v)) else p);
    SortItems(Entries(c), cb, rank);
  }

  /** Without an own `length`, the size is below 1 exactly when there is nothing to
      traverse. */
  lemma SizeBelowOneEmpty(c: Val)
    ensures !HasOwnLength(c) ==> (SizeBelowOne(c) <==> Entries(c) == [])
  {
    SizeIsEntries(c);
  }

  lemma SortItems(es: seq<(Val, Val)>, cb: Callback, rank: Val -> int)
    ensures var sorted := InsertionSort(Items(es, cb), rank);
      forall i, j :: 0 <= i < j < |sorted| ==>
        rank(sorted[i].key) < rank(sorted[j].key) ||
        (rank(sorted[i].key) == rank(sorted[j].key) && sorted[i].index < sorted[j].index)
  {
    var sorted := InsertionSort(Items(es, cb), rank);
    SortSorted(Items(es, cb), rank);
    forall i, j | 0 <= i < j < |sorted|
      ensures Before(sorted[i], sorted[j], rank)
    {
    }
  }

  /** What each sorted item stands for, in order. */
  function Project<T>(s: seq<Item>, f: Item -> T): (r: seq<T>)
    ensures |r| == |s| && forall i :: 0 <= i < |s| ==> r[i] == f(s[i])
  {
    seq(|s|, i requires 0 <= i < |s| => f(s[i]))
  }

  lemma ProjectCons<T>(x: Item, s: seq<Item>, f: Item -> T)
    ensures Project([x] + s, f) == [f(x)] + Project(s, f)
  {
  }

  lemma {:induction false} InsertProject<T>(x: Item, s: seq<Item>, rank: Val -> int, f: Item -> T)
    ensures multiset(Project(Insert(x, s, rank), f)) == multiset(Project(s, f)) + multiset{f(x)}
    decreases |s|
  {
    if s == [] {
    } else if Before(x, s[0], rank) {
      ProjectCons(x, s, f);
    } else {
      InsertProject(x, s[1..], rank, f);
      ProjectCons(s[0], Insert(x, s[1..], rank), f);
      ProjectCons(s[0], s[1..], f);
      assert s == [s[0]] + s[1..];
    }
  }

  /** Sorting rearranges whatever the items stand for. */
  lemma {:induction false} SortProject<T>(s: seq<Item>, rank: Val -> int, f: Item -> T)
    ensures multiset(Project(InsertionSort(s, rank), f)) == multiset(Project(s, f))
    decreases |s|
  {
    if s != [] {
      SortProject(s[1..], rank, f);
      InsertProject(s[0], InsertionSort(s[1..], rank), rank, f);
      ProjectCons(s[0], s[1..], f);
      assert s == [s[0]] + s[1..];
    }
  }

  // ---------------------------------------------------------------------------
  // countBy / groupBy / keyBy (src/collection.ts:1132-1223)

  /** The property key an element is filed under: the iteratee called with the element
      alone, as a string. */
  function KeyFor(cb: Callback, el: Val): string {
    ToJsString(cb(el, Undef))
  }

  /** The filing key as a function of the element; the tables below are built and
      reasoned about for any such function. */
  function FilingKey(cb: Callback): Val -> string {
    (el: Val) => KeyFor(cb, el)
  }

  /** `if (isUndefined(stat[key])) stat[key] = 0; stat[key]++`. */
  function Bump(stat: seq<(string, Val)>, key: string): seq<(string, Val)> {
    Put(stat, key, Bumped(Prop(stat, key)))
  }

  /** The count stored by a bump: one more than the old one, counting a missing key as 0. */
  function Bumped(cur: Val): Val {
    var n := if cur == Undef then Num(0) else cur;
    if n.Num? then Num(n.n + 1) else NaN
  }

  function CountStep(kf: Val -> string): Step<seq<(string, Val)>> {
    (stat: seq<(string, Val)>, el: Val, k: Val) => (Bump(stat, kf(el)), Undef)
  }

  /** The falsy-iteratee default of countBy, groupBy and keyBy. */
  function KeyArg(p: Arg): Arg {
    if p.Value? && !Truthy(p.v) then Fun((v: Val, k: Val) => Identity(v)) else p
  }

  /** `countBy(collection, iteratee)`. */
  function CountBy(c: Val, p: Arg): Val {
    Obj(Fold(Entries(c), [], CountStep(FilingKey(Iteratee(KeyArg(p))))))
  }

  /** How many elements are filed under `key`. */
  function CountKey(es: seq<(Val, Val)>, kf: Val -> string, key: string): nat
    decreases |es|
  {
    if es == [] then 0 else (if kf(es[0].1) == key then 1 else 0) + CountKey(es[1..], kf, key)
  }

  /** The count stored under `key`, 0 when there is none. */
  function CountOf(stat: seq<(string, Val)>, key: string): int {
    var v := Prop(stat, key);
    if v.Num? then v.n else 0
  }

  /** A count table: distinct keys, each with a positive count. */
  predicate CountTable(stat: seq<(string, Val)>)
    decreases |stat|
  {
    stat == [] ||
    (stat[0].1.Num? && stat[0].1.n >= 1 && stat[0].0 !in Keys(stat[1..]) && CountTable(stat[1..]))
  }

  function SumCounts(stat: seq<(string, Val)>): int
    decreases |stat|
  {
    if stat == [] then 0 else (if stat[0].1.Num? then stat[0].1.n else 0) + SumCounts(stat[1..])
  }

  /** In a count table a key holds a positive number or nothing. */
  lemma {:induction false} CountTableProp(stat: seq<(string, Val)>, key: string)
    requires CountTable(stat)
    ensures Prop(stat, key) == Undef || (Prop(stat, key).Num? && Prop(stat, key).n >= 1)
    decreases |stat|
  {
    if stat != [] && stat[0].0 != key {
      CountTableProp(stat[1..], key);
    }
  }

  /** Storing a positive count under `key` keeps a count table, and the total changes by
      the difference between the new and the old count. */
  lemma {:induction false} CountTablePut(stat: seq<(string, Val)>, key: string, n: int)
    requires CountTable(stat) && n >= 1
    ensures CountTable(Put(stat, key, Num(n)))
    ensures SumCounts(Put(stat, key, Num(n))) == SumCounts(stat) - CountOf(stat, key) + n
    decreases |stat|
  {
    var r := Put(stat, key, Num(n));
    if stat == [] {
      assert r == [(key, Num(n))];
      assert r[1..] == [];
    } else if stat[0].0 == key {
      assert r[0] == (key, Num(n)) && r[1..] == stat[1..];
    } else {
      CountTablePut(stat[1..], key, n);
      assert Lookup(stat, key) == Lookup(stat[1..], key);
      assert r[0] == stat[0] && r[1..] == Put(stat[1..], key, Num(n));
      PutKeys(stat[1..], key, Num(n));
    }
  }

  /** In a count table a bump stores the old count plus one. */
  lemma BumpIs(stat: seq<(string, Val)>, key: string)
    requires CountTable(stat)
    ensures Bump(stat, key) == Put(stat, key, Num(CountOf(stat, key) + 1))
  {
    CountTableProp(stat, key);
    assert Bumped(Prop(stat, key)) == Num(CountOf(stat, key) + 1);
  }

  /** In a count table the step stores the old count plus one. */
  lemma CountStepIs(stat: seq<(string, Val)>, kf: Val -> string, el: Val, k: Val)
    requires CountTable(stat)
    ensures CountStep(kf)(stat, el, k) == (Put(stat, kf(el), Num(CountOf(stat, kf(el)) + 1)), Undef)
  {
    BumpIs(stat, kf(el));
  }

  /** Adding one under `key` changes that count and no other. */
  lemma CountPutOf(stat: seq<(string, Val)>, key: string, k2: string)
    requires CountTable(stat)
    ensures CountOf(Put(stat, key, Num(CountOf(stat, key) + 1)), k2) ==
      CountOf(stat, k2) + (if key == k2 then 1 else 0)
  {
    CountTableProp(stat, k2);
  }

  /** Counting one more under `key`: still a count table, one more in total, and one more
      under `key` only. */
  lemma CountNext(stat: seq<(string, Val)>, key: string)
    requires CountTable(stat)
    ensures var next := Put(stat, key, Num(CountOf(stat, key) + 1));
      CountTable(next) && SumCounts(next) == SumCounts(stat) + 1 &&
      forall k2 :: CountOf(next, k2) == CountOf(stat, k2) + (if key == k2 then 1 else 0)
  {
    CountTableProp(stat, key);
    CountTablePut(stat, key, CountOf(stat, key) + 1);
    forall k2
      ensures CountOf(Put(stat, key, Num(CountOf(stat, key) + 1)), k2) ==
        CountOf(stat, k2) + (if key == k2 then 1 else 0)
    {
      CountPutOf(stat, key, k2);
    }
  }

  lemma {:induction false} CountFold(es: seq<(Val, Val)>, stat: seq<(string, Val)>, kf: Val -> string)
    requires CountTable(stat)
    ensures CountTable(Fold(es, stat, CountStep(kf)))
    ensures SumCounts(Fold(es, stat, CountStep(kf))) == SumCounts(stat) + |es|
    ensures forall key :: CountOf(Fold(es, stat, CountStep(kf)), key) == CountOf(stat, key) + CountKey(es, kf, key)
    decreases |es|
  {
    if es != [] {
      var key := kf(es[0].1);
      var next := Put(stat, key, Num(CountOf(stat, key) + 1));
      CountStepIs(stat, kf, es[0].1, es[0].0);
      FoldCons(es, stat, CountStep(kf), next);
      CountNext(stat, key);
      CountFold(es[1..], next, kf);
      forall k2
        ensures CountOf(Fold(es, stat, CountStep(kf)), k2) == CountOf(stat, k2) + CountKey(es, kf, k2)
      {
        assert CountKey(es, kf, k2) == (if kf(es[0].1) == k2 then 1 else 0) + CountKey(es[1..], kf, k2);
      }
    }
  }

  /** `countBy` files every element once: the counts are positive, add up to the number of
      elements, and the count under each key is the number of elements filed there. */
  lemma CountBySums(c: Val, p: Arg, key: string)
    ensures CountTable(CountBy(c, p).props)
    ensures SumCounts(CountBy(c, p).props) == |Entries(c)|
    ensures CountOf(CountBy(c, p).props, key) == CountKey(Entries(c), FilingKey(Iteratee(KeyArg(p))), key)
  {
    CountFold(Entries(c), [], FilingKey(Iteratee(KeyArg(p))));
  }

  function GroupStep(kf: Val -> string): Step<seq<(string, Val)>> {
    (stat: seq<(string, Val)>, el: Val, k: Val) =>
      var key := kf(el);
      var cur := if Prop(stat, key) == Undef then Arr([]) else Prop(stat, key);
      (Put(stat, key, if cur.Arr? then Arr(cur.items + [el]) else cur), Undef)
  }

  /** `groupBy(collection, iteratee)`. */
  function GroupBy(c: Val, p: Arg): Val {
    Obj(Fold(Entries(c), [], GroupStep(FilingKey(Iteratee(KeyArg(p))))))
  }

  /** The elements filed under `key`, in traversal order. */
  function Group(es: seq<(Val, Val)>, kf: Val -> string, key: string): seq<Val>
    decreases |es|
  {
    if es == [] then [] else (if kf(es[0].1) == key then [es[0].1] else []) + Group(es[1..], kf, key)
  }

  /** The group stored under `key`, empty when there is none. */
  function GroupOf(stat: seq<(string, Val)>, key: string): seq<Val> {
    var v := Prop(stat, key);
    if v.Arr? then v.items else []
  }

  /** A group table: every stored value is a non-empty array. */
  predicate GroupTable(stat: seq<(string, Val)>)
    decreases |stat|
  {
    stat == [] || (stat[0].1.Arr? && stat[0].1.items != [] && GroupTable(stat[1..]))
  }

  lemma {:induction false} GroupTableProp(stat: seq<(string, Val)>, key: string)
    requires GroupTable(stat)
    ensures Prop(stat, key) == Undef || (Prop(stat, key).Arr? && Prop(stat, key).items != [])
    decreases |stat|
  {
    if stat != [] && stat[0].0 != key {
      GroupTableProp(stat[1..], key);
    }
  }

  lemma {:induction false} GroupTablePut(stat: seq<(string, Val)>, key: string, items: seq<Val>)
    requires GroupTable(stat) && items != []
    ensures GroupTable(Put(stat, key, Arr(items)))
    decreases |stat|
  {
    if stat != [] && stat[0].0 != key {
      GroupTablePut(stat[1..], key, items);
      assert Put(stat, key, Arr(items))[1..] == Put(stat[1..], key, Arr(items));
    } else if stat != [] {
      assert Put(stat, key, Arr(items))[1..] == stat[1..];
    }
  }

  /** In a group table the step appends the element to the group under its key. */
  lemma GroupStepIs(stat: seq<(string, Val)>, kf: Val -> string, el: Val, k: Val)
    requires GroupTable(stat)
    ensures GroupStep(kf)(stat, el, k) == (Put(stat, kf(el), Arr(GroupOf(stat, kf(el)) + [el])), Undef)
  {
    GroupTableProp(stat, kf(el));
  }

  /** Filing one element under `key`: the table stays a group table, the group under
      `key` grows by it and the others stay. */
  lemma GroupNext(stat: seq<(string, Val)>, key: string, el: Val, k2: string)
    requires GroupTable(stat)
    ensures var next := Put(stat, key, Arr(GroupOf(stat, key) + [el]));
      GroupTable(next) && GroupOf(next, k2) == GroupOf(stat, k2) + (if key == k2 then [el] else [])
  {
    var next := Put(stat, key, Arr(GroupOf(stat, key) + [el]));
    GroupTablePut(stat, key, GroupOf(stat, key) + [el]);
    if k2 != key {
      assert Lookup(next, k2) == Lookup(stat, k2);
      assert GroupOf(stat, k2) + [] == GroupOf(stat, k2);
    }
  }

  lemma {:induction false} GroupFold(es: seq<(Val, Val)>, stat: seq<(string, Val)>, kf: Val -> string, k2: string)
    requires GroupTable(stat)
    ensures GroupTable(Fold(es, stat, GroupStep(kf)))
    ensures GroupOf(Fold(es, stat, GroupStep(kf)), k2) == GroupOf(stat, k2) + Group(es, kf, k2)
    decreases |es|
  {
    if es != [] {
      var key := kf(es[0].1);
      var next := Put(stat, key, Arr(GroupOf(stat, key) + [es[0].1]));
      GroupStepIs(stat, kf, es[0].1, es[0].0);
      FoldCons(es, stat, GroupStep(kf), next);
      GroupNext(stat, key, es[0].1, k2);
      GroupFold(es[1..], next, kf, k2);
      var head := if key == k2 then [es[0].1] else [];
      var g, rest := GroupOf(stat, k2), Group(es[1..], kf, k2);
      assert Group(es, kf, k2) == head + rest;
      AppendAssoc(g, head, rest);
    } else {
      assert GroupOf(stat, k2) + [] == GroupOf(stat, k2);
    }
  }

  /** `groupBy` stores under each key exactly the elements filed there, in traversal order,
      and stores nothing under a key no element is filed under. */
  lemma GroupByOrder(c: Val, p: Arg, key: string)
    ensures GroupOf(GroupBy(c, p).props, key) == Group(Entries(c), FilingKey(Iteratee(KeyArg(p))), key)
    ensures Group(Entries(c), FilingKey(Iteratee(KeyArg(p))), key) == [] ==> Prop(GroupBy(c, p).props, key) == Undef
  {
    GroupFold(Entries(c), [], FilingKey(Iteratee(KeyArg(p))), key);
    GroupTableProp(GroupBy(c, p).props, key);
  }

  function KeyByStep(kf: Val -> string): Step<seq<(string, Val)>> {
    (stat: seq<(string, Val)>, el: Val, k: Val) => (Put(stat, kf(el), el), Undef)
  }

  /** `keyBy(collection, iteratee)`. */
  function KeyBy(c: Val, p: Arg): Val {
    Obj(Fold(Entries(c), [], KeyByStep(FilingKey(Iteratee(KeyArg(p))))))
  }

  /** The last element filed under `key`. */
  function LastWithKey(es: seq<(Val, Val)>, kf: Val -> string, key: string): Option<Val>
    decreases |es|
  {
    if es == [] then None
    else if kf(es[|es| - 1].1) == key then Some(es[|es| - 1].1)
    else LastWithKey(es[..|es| - 1], kf, key)
  }

  lemma {:induction false} KeyByFold(es: seq<(Val, Val)>, stat: seq<(string, Val)>, kf: Val -> string, key: string)
    ensures Lookup(Fold(es, stat, KeyByStep(kf)), key) ==
      match LastWithKey(es, kf, key) case Some(el) => Some(el) case None => Lookup(stat, key)
    decreases |es|
  {
    if es != [] {
      var init := es[..|es| - 1];
      var last := es[|es| - 1];
      KeyByFold(init, stat, kf, key);
      KeyByLast(init, last, stat, kf);
      InitLast(es);
      var f := Fold(init, stat, KeyByStep(kf));
      assert Fold(es, stat, KeyByStep(kf)) == Put(f, kf(last.1), last.1);
      if kf(last.1) != key {
        assert Lookup(Put(f, kf(last.1), last.1), key) == Lookup(f, key);
      }
    }
  }

  lemma InitLast<T>(s: seq<T>)
    requires s != []
    ensures s == s[..|s| - 1] + [s[|s| - 1]]
  {
  }

  /** Folding one more element at the end writes its key last. */
  lemma {:induction false} KeyByLast(es: seq<(Val, Val)>, e: (Val, Val), stat: seq<(string, Val)>, kf: Val -> string)
    ensures Fold(es + [e], stat, KeyByStep(kf)) == Put(Fold(es, stat, KeyByStep(kf)), kf(e.1), e.1)
    decreases |es|
  {
    if es == [] {
      assert (es + [e])[1..] == [];
    } else {
      assert (es + [e])[0] == es[0] && (es + [e])[1..] == es[1..] + [e];
      KeyByLast(es[1..], e, Put(stat, kf(es[0].1), es[0].1), kf);
    }
  }

  /** `keyBy` keeps the last element filed under each key. */
  lemma KeyByLastWins(c: Val, p: Arg, key: string)
    ensures Lookup(KeyBy(c, p).props, key) ==
      match LastWithKey(Entries(c), FilingKey(Iteratee(KeyArg(p))), key) case Some(el) => Some(el) case None => None
  {
    KeyByFold(Entries(c), [], FilingKey(Iteratee(KeyArg(p))), key);
  }
}
