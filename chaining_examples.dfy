/**
 * The chains the documentation of src/chaining.ts and src/functions.ts walks through,
 * and the behaviours of the planner as written that those examples rely on: how many
 * callbacks a fused traversal calls, that a link the record does not know runs on the
 * record's result, that only the last interceptor of a record fires, that callbacks see
 * the original keys, and what `first` gives on an empty array.
 */
module ChainingExamples {
  import opened JsValues
  import opened Is
  import opened Utils
  import opened Coll
  import opened Arrays
  import opened Chaining

  /** `v => v + 1`. */
  function Inc(x: Val, k: Val): Val {
    if x.Num? then Num(x.n + 1) else x
  }

  /** `v => v % 2 === 0`, on integers. */
  function IsEven(x: Val, k: Val): Val {
    Bool(x.Num? && x.n % 2 == 0)
  }

  /** `join(array, '-')`. */
  function DashJoin(x: Val): Val {
    Str(ArrayJoin(ToArray(x), "-"))
  }

  lemma FoldGo<S>(es: seq<(Val, Val)>, s: S, step: Step<S>)
    requires es != [] && step(s, es[0].1, es[0].0).1 != Bool(false)
    ensures Fold(es, s, step) == Fold(es[1..], step(s, es[0].1, es[0].0).0, step)
  {
  }

  lemma FoldHalt<S>(es: seq<(Val, Val)>, s: S, step: Step<S>)
    requires es != [] && step(s, es[0].1, es[0].0).1 == Bool(false)
    ensures Fold(es, s, step) == step(s, es[0].1, es[0].0).0
  {
  }

  /** One step of a traversal without a range that keeps the element. */
  lemma PushStep(goals: seq<Goal>, count: Option<int>, s: XS, v: Val, k: Val, t: Val, n: nat)
    requires RunGoals(goals, v, k) == Passed(Some(t), n) && count != Some(|s.targets|)
    ensures ExecStep(goals, None, false, count)(s, v, k) == (XS(s.targets + [t], s.index, s.calls + n), Undef)
  {
  }

  /** Extending a fusible run at the front. */
  lemma SafeCons(c: CompState, op: Op, rest: seq<Op>)
    requires SafeOp(c, op) && SafeRun(BuildStep(c, op).comp, rest)
    ensures SafeRun(c, [op] + rest) && BuildAll(c, [op] + rest) == BuildAll(BuildStep(c, op).comp, rest)
  {
    assert ([op] + rest)[0] == op && ([op] + rest)[1..] == rest;
  }

  // ---------------------------------------------------------------------------
  // Fused links followed by a link the record does not know

  /** A fusible run followed by a link the record does not know: the run is executed
      once and the link is applied to its array, as the eager chain does. */
  lemma FusedThenOther(v: Val, run: seq<Op>, op: Op)
    requires IsArrayLike(v) && SafeRun(Fresh, run) && run != []
    requires BuildStep(BuildAll(Fresh, run), op).code == 1
    ensures ValueSpec(v, run + [op]).value == Call(op, Eager(v, run).value).value
  {
    RunThenLink(v, run, op);
    OpenThenLink(v, run, op);
  }

  /** A fusible run from the start leaves the record open, built from the whole run,
      when the next link comes. */
  lemma RunThenLink(v: Val, run: seq<Op>, op: Op)
    requires IsArrayLike(v) && SafeRun(Fresh, run)
    ensures ValueSpec(v, run + [op]).value == RunFrom(Run(v, Some(BuildAll(Fresh, run)), [], 0), [op]).acc
  {
    FreshFusing();
    assert Start(v) == Run(v, Some(Fresh), [], 0);
    RunSafePrefix(Start(v), Fresh, run, [op]);
  }

  /** The open record built from a fusible run meets a link it does not know: it runs,
      and the link is applied to the array it returns. */
  lemma OpenThenLink(v: Val, run: seq<Op>, op: Op)
    requires IsArrayLike(v) && SafeRun(Fresh, run) && run != []
    requires BuildStep(BuildAll(Fresh, run), op).code == 1
    ensures RunFrom(Run(v, Some(BuildAll(Fresh, run)), [], 0), [op]).acc == Call(op, Eager(v, run).value).value
  {
    var c := BuildAll(Fresh, run);
    RunStaysFusing(run);
    ExecIsEager(v, run);
    ExecArray(c, v);
    assert Truthy(ExecSpec(c, v).0);
    LastLinkUnknown(Run(v, Some(c), [], 0), op);
  }

  /** A fusible run from the start builds a record that still fuses. */
  lemma RunStaysFusing(run: seq<Op>)
    requires SafeRun(Fresh, run)
    ensures !BuildAll(Fresh, run).returnEl
  {
    FreshFusing();
    RunDenote(Fresh, run, []);
  }

  /** The record runs to an array when it does not return a single element. */
  lemma ExecArray(c: CompState, v: Val)
    requires !c.returnEl
    ensures ExecSpec(c, v).0.Arr?
  {
  }

  /** A last link the open record does not know runs the record and applies the link to
      what it returned when that is truthy. */
  lemma LastLinkUnknown(r: Run, op: Op)
    requires r.comp.Some? && BuildStep(r.comp.value, op).code == 1
    ensures var rs := ExecSpec(r.comp.value, r.acc).0;
      RunFrom(r, [op]).acc == if Truthy(rs) then Call(op, rs).value else r.acc
  {
    assert [op][1..] == [];
    assert RunFrom(r, [op]) == Link(r, op, true);
  }

  /** `_([1,2,3,4]).map(v=>v+1).filter(v=>v%2===0).take(2).join('-').value()` is '2-4'. */
  lemma JoinExample(xs: seq<Val>)
    requires xs == [Num(1), Num(2), Num(3), Num(4)]
    ensures ValueSpec(Arr(xs), [MapOp(Fun(Inc)), FilterOp(Fun(IsEven)), TakeOp(Some(2)), Other(DashJoin)]).value == Str("2-4")
  {
    var run := [MapOp(Fun(Inc)), FilterOp(Fun(IsEven)), TakeOp(Some(2))];
    JoinSafe(run);
    JoinRun(run);
    OtherCloses(BuildAll(Fresh, run), DashJoin);
    FusedThenOther(Arr(xs), run, Other(DashJoin));
    JoinEager(xs, run);
    JoinLast(Eager(Arr(xs), run).value);
  }

  lemma JoinRun(run: seq<Op>)
    requires run == [MapOp(Fun(Inc)), FilterOp(Fun(IsEven)), TakeOp(Some(2))]
    ensures run + [Other(DashJoin)] == [MapOp(Fun(Inc)), FilterOp(Fun(IsEven)), TakeOp(Some(2)), Other(DashJoin)]
  {
  }

  /** A link the record does not know is never built in. */
  lemma OtherCloses(c: CompState, f: Val -> Val)
    ensures BuildStep(c, Other(f)).code == 1
  {
  }

  lemma JoinLast(v: Val)
    requires v == Arr([Num(2), Num(4)])
    ensures Call(Other(DashJoin), v).value == Str("2-4")
  {
    JoinTwoFour();
  }

  lemma JoinTwoFour()
    ensures ArrayJoin([Num(2), Num(4)], "-") == "2-4"
  {
    assert IntToStr(2) == "2" && IntToStr(4) == "4";
    assert ElemString(Num(2)) == "2" && ElemString(Num(4)) == "4";
    var parts := seq(2, i requires 0 <= i < 2 => ElemString([Num(2), Num(4)][i]));
    assert parts == ["2", "4"];
    assert parts[..1] == ["2"];
  }

  /** The eager chain unfolded by one link. */
  lemma EagerCons(v: Val, ops: seq<Op>)
    requires ops != []
    ensures Eager(v, ops).value == Eager(Call(ops[0], v).value, ops[1..]).value
  {
  }

  /** The three links before `join` are fusible. */
  lemma JoinSafe(run: seq<Op>)
    requires run == [MapOp(Fun(Inc)), FilterOp(Fun(IsEven)), TakeOp(Some(2))]
    ensures SafeRun(Fresh, run) && run != []
  {
    assert KeyFree(Inc) && KeyFree(IsEven);
    var c1 := BuildStep(Fresh, run[0]).comp;
    var c2 := BuildStep(c1, run[1]).comp;
    SafeCons(c2, run[2], []);
    SafeCons(c1, run[1], [run[2]]);
    SafeCons(Fresh, run[0], [run[1], run[2]]);
    assert [run[0]] + [run[1], run[2]] == run;
  }

  /** The eager chain of the three links before `join` gives [2,4]. */
  lemma JoinEager(xs: seq<Val>, run: seq<Op>)
    requires xs == [Num(1), Num(2), Num(3), Num(4)]
    requires run == [MapOp(Fun(Inc)), FilterOp(Fun(IsEven)), TakeOp(Some(2))]
    ensures Eager(Arr(xs), run).value == Arr([Num(2), Num(4)])
  {
    var m := Arr([Num(2), Num(3), Num(4), Num(5)]);
    var f := Arr([Num(2), Num(4)]);
    JoinMap(xs);
    JoinFilter([Num(2), Num(3), Num(4), Num(5)]);
    assert Call(run[2], f).value == f;
    EagerCons(Arr(xs), run);
    EagerCons(m, run[1..]);
    EagerCons(f, run[1..][1..]);
    assert run[1..][1..][1..] == [];
  }

  lemma JoinMap(xs: seq<Val>)
    requires xs == [Num(1), Num(2), Num(3), Num(4)]
    ensures Call(MapOp(Fun(Inc)), Arr(xs)).value == Arr([Num(2), Num(3), Num(4), Num(5)])
  {
    assert KeyFree(Inc);
    MapKeyFree(xs, Fun(Inc));
    var r := MapVals(xs, Inc);
    assert r[0] == Num(2) && r[1] == Num(3) && r[2] == Num(4) && r[3] == Num(5);
  }

  lemma JoinFilter(ys: seq<Val>)
    requires ys == [Num(2), Num(3), Num(4), Num(5)]
    ensures Call(FilterOp(Fun(IsEven)), Arr(ys)).value == Arr([Num(2), Num(4)])
  {
    assert KeyFree(IsEven);
    FilterKeyFree(ys, Fun(IsEven));
    EvensOf(ys);
  }

  lemma EvensOf(ys: seq<Val>)
    requires ys == [Num(2), Num(3), Num(4), Num(5)]
    ensures FilterVals(ys, IsEven) == [Num(2), Num(4)]
  {
    assert ys[1..] == [Num(3), Num(4), Num(5)];
    assert ys[2..] == [Num(4), Num(5)];
    assert ys[3..] == [Num(5)];
    assert FilterVals(ys[3..], IsEven) == [];
    assert FilterVals(ys[2..], IsEven) == [Num(4)];
    assert ys[1..][1..] == ys[2..];
    assert ys[2..][1..] == ys[3..];
  }

  // ---------------------------------------------------------------------------
  // The callback count of the documented fusion example

  /** The values the source's `_.range(n)` gives. */
  function Upto(n: nat): seq<Val> {
    seq(n, i requires 0 <= i < n => Num(i))
  }

  /** The goal settings on one value: the increment is always called, then the parity
      test, which keeps exactly the even results. */
  lemma GoalsOn(m: int, k: Val)
    ensures RunGoals([MapGoal(Inc), FilterGoal(IsEven)], Num(m), k) ==
      if (m + 1) % 2 == 0 then Passed(Some(Num(m + 1)), 2) else Passed(None, 2)
  {
    var g := [MapGoal(Inc), FilterGoal(IsEven)];
    assert g[1..] == [FilterGoal(IsEven)] && g[1..][1..] == [];
  }

  /** The documented example maps `v+1`, filters even values, reverses and takes
      `slice(1, 4)` of `range(n)`. For an even `n` of at least 10 (the documentation
      uses 20000000) the fused traversal visits nine elements from the right and
      calls the callbacks 18 times, where the eager chain calls them `2n` times, and both
      give `[n-2, n-4, n-6]`. */
  lemma CallCountExample(n: nat)
    requires n >= 10 && n % 2 == 0
    ensures var ops := [MapOp(Fun(Inc)), FilterOp(Fun(IsEven)), ReverseOp, SliceOp(Some(1), Some(4))];
      ValueSpec(Arr(Upto(n)), ops) == Effect(Arr([Num(n - 2), Num(n - 4), Num(n - 6)]), [], 18) &&
      Eager(Arr(Upto(n)), ops).value == Arr([Num(n - 2), Num(n - 4), Num(n - 6)]) &&
      Eager(Arr(Upto(n)), ops).calls == 2 * n
  {
    var xs := Upto(n);
    var ops := [MapOp(Fun(Inc)), FilterOp(Fun(IsEven)), ReverseOp, SliceOp(Some(1), Some(4))];
    assert KeyFree(Inc) && KeyFree(IsEven);
    var goals := [MapGoal(Inc), FilterGoal(IsEven)];
    var c := CompState(true, goals, Some((Some(1), Some(4))), false, None, None, false);
    SafeExample(ops, c);
    FreshFusing();
    RunSafe(Start(Arr(xs)), Fresh, ops);
    var x := ExecSpec(c, Arr(xs));
    assert ValueSpec(Arr(xs), ops) == Effect(x.0, [], x.1);
    TraversalExample(n, c);
    FusedIsEager(Arr(xs), ops);
    EagerCalls(xs, ops);
  }

  /** The example's links are fusible and build the record `c`. */
  lemma SafeExample(ops: seq<Op>, c: CompState)
    requires KeyFree(Inc) && KeyFree(IsEven)
    requires ops == [MapOp(Fun(Inc)), FilterOp(Fun(IsEven)), ReverseOp, SliceOp(Some(1), Some(4))]
    requires c == CompState(true, [MapGoal(Inc), FilterGoal(IsEven)], Some((Some(1), Some(4))), false, None, None, false)
    ensures SafeRun(Fresh, ops) && BuildAll(Fresh, ops) == c
  {
    var c1 := BuildStep(Fresh, ops[0]).comp;
    var c2 := BuildStep(c1, ops[1]).comp;
    var c3 := BuildStep(c2, ops[2]).comp;
    assert c3 == c.(range := None);
    assert BuildStep(c3, ops[3]).comp == c;
    SafeCons(c3, ops[3], []);
    SafeCons(c2, ops[2], [ops[3]]);
    SafeCons(c1, ops[1], [ops[2], ops[3]]);
    SafeCons(Fresh, ops[0], [ops[1], ops[2], ops[3]]);
    assert [ops[0]] + [ops[1], ops[2], ops[3]] == ops;
  }

  /** The eager chain calls the increment on every element and the parity test on every
      incremented element. */
  lemma EagerCalls(xs: seq<Val>, ops: seq<Op>)
    requires KeyFree(Inc) && KeyFree(IsEven)
    requires ops == [MapOp(Fun(Inc)), FilterOp(Fun(IsEven)), ReverseOp, SliceOp(Some(1), Some(4))]
    ensures Eager(Arr(xs), ops).calls == 2 * |xs|
  {
    var m := Call(ops[0], Arr(xs));
    MapKeyFree(xs, Fun(Inc));
    assert m.calls == |xs| && m.value.Arr? && |m.value.items| == |xs|;
    var f := Call(ops[1], m.value);
    assert f.calls == |xs|;
    assert ops[1..] == [ops[1], ops[2], ops[3]];
    assert ops[1..][1..] == [ops[2], ops[3]];
    assert ops[1..][1..][1..] == [ops[3]] && [ops[3]][1..] == [];
    var r := Call(ops[2], f.value);
    var s := Call(ops[3], r.value);
    assert r.calls == 0 && s.calls == 0;
    assert Eager(s.value, []).calls == 0;
    assert Eager(r.value, [ops[3]]).calls == 0;
    assert Eager(f.value, [ops[2], ops[3]]).calls == 0;
    assert Eager(m.value, ops[1..]).calls == |xs|;
  }

  /** The step of the example's traversal on the value `m` at key `m`: odd results are
      dropped, the first even one is skipped by `slice(1, ...)`, the next three are taken,
      and the one after them stops the traversal. */
  lemma ExampleStep(s: XS, m: int)
    requires 0 <= s.index <= 4 && |s.targets| <= 3
    ensures ExecStep([MapGoal(Inc), FilterGoal(IsEven)], Some((Some(1), Some(4))), false, Some(3))(s, Num(m), Num(m)) ==
      if m % 2 == 0 then (s.(calls := s.calls + 2), Undef)
      else if s.index < 1 then (XS(s.targets, s.index + 1, s.calls + 2), Undef)
      else if s.index + 1 > 4 || |s.targets| == 3 then (XS(s.targets, s.index + 1, s.calls + 2), Bool(false))
      else (XS(s.targets + [Num(m + 1)], s.index + 1, s.calls + 2), Undef)
  {
    GoalsOn(m, Num(m));
  }

  /** `range(n)` walked from the right. */
  lemma UptoRight(n: nat)
    ensures |Order(Arr(Upto(n)), true)| == n
    ensures forall j :: 0 <= j < n ==> Order(Arr(Upto(n)), true)[j] == (Num(n - 1 - j), Num(n - 1 - j))
  {
  }

  /** The states the example's traversal goes through. */
  function ExampleStates(n: int): seq<XS> {
    var t1, t2, t3 := Num(n - 2), Num(n - 4), Num(n - 6);
    [XS([], 0, 0), XS([], 1, 2), XS([], 1, 4), XS([t1], 2, 6), XS([t1], 2, 8),
     XS([t1, t2], 3, 10), XS([t1, t2], 3, 12), XS([t1, t2, t3], 4, 14), XS([t1, t2, t3], 4, 16)]
  }

  /** The step from one listed state to the next, on the value `n - 1 - j`. */
  lemma ExampleSteps(n: int, j: nat)
    requires n % 2 == 0 && j < 8
    ensures ExecStep([MapGoal(Inc), FilterGoal(IsEven)], Some((Some(1), Some(4))), false, Some(3))
              (ExampleStates(n)[j], Num(n - 1 - j), Num(n - 1 - j)) == (ExampleStates(n)[j + 1], Undef)
  {
    var st := ExampleStates(n);
    ExampleStep(st[j], n - 1 - j);
    if j == 2 {
      assert [] + [Num(n - 2)] == [Num(n - 2)];
    } else if j == 4 {
      assert [Num(n - 2)] + [Num(n - 4)] == [Num(n - 2), Num(n - 4)];
    } else if j == 6 {
      assert [Num(n - 2), Num(n - 4)] + [Num(n - 6)] == [Num(n - 2), Num(n - 4), Num(n - 6)];
    }
  }

  /** The traversal of the example, element by element from the right. */
  lemma TraversalExample(n: nat, c: CompState)
    requires n >= 10 && n % 2 == 0
    requires c == CompState(true, [MapGoal(Inc), FilterGoal(IsEven)], Some((Some(1), Some(4))), false, None, None, false)
    ensures ExecSpec(c, Arr(Upto(n))) == (Arr([Num(n - 2), Num(n - 4), Num(n - 6)]), 18)
  {
    var es := Order(Arr(Upto(n)), true);
    assert EffCount(c) == Some(3);
    var step := ExecStep(c.goals, c.range, false, Some(3));
    var states := ExampleStates(n);
    ExampleEightSteps(n, es, states, step);
    ExampleLastStep(n, es, states, step);
    FoldFrom(es, states, step, 8);
  }

  lemma ExampleEightSteps(n: nat, es: seq<(Val, Val)>, states: seq<XS>, step: Step<XS>)
    requires n >= 10 && n % 2 == 0
    requires es == Order(Arr(Upto(n)), true) && states == ExampleStates(n)
    requires step == ExecStep([MapGoal(Inc), FilterGoal(IsEven)], Some((Some(1), Some(4))), false, Some(3))
    ensures forall j :: 0 <= j < 8 ==> step(states[j], es[j].1, es[j].0) == (states[j + 1], Undef)
  {
    UptoRight(n);
    forall j | 0 <= j < 8
      ensures step(states[j], es[j].1, es[j].0) == (states[j + 1], Undef)
    {
      ExampleSteps(n, j);
    }
  }

  lemma ExampleLastStep(n: nat, es: seq<(Val, Val)>, states: seq<XS>, step: Step<XS>)
    requires n >= 10 && n % 2 == 0
    requires es == Order(Arr(Upto(n)), true) && states == ExampleStates(n)
    requires step == ExecStep([MapGoal(Inc), FilterGoal(IsEven)], Some((Some(1), Some(4))), false, Some(3))
    ensures |es| > 8
    ensures step(states[8], es[8].1, es[8].0) == (XS(states[8].targets, 5, 18), Bool(false))
  {
    UptoRight(n);
    assert es[8] == (Num(n - 9), Num(n - 9));
    var s8 := states[8];
    assert s8.index == 4 && s8.calls == 16 && |s8.targets| == 3;
    OddBefore(n);
    ExampleStopStep(s8, n - 9, step);
  }

  /** The step on an odd value after the range's end stops the traversal. */
  lemma ExampleStopStep(s: XS, m: int, step: Step<XS>)
    requires s.index == 4 && |s.targets| == 3 && m % 2 == 1
    requires step == ExecStep([MapGoal(Inc), FilterGoal(IsEven)], Some((Some(1), Some(4))), false, Some(3))
    ensures step(s, Num(m), Num(m)) == (XS(s.targets, 5, s.calls + 2), Bool(false))
  {
    ExampleStep(s, m);
  }

  lemma OddBefore(n: int)
    requires n % 2 == 0
    ensures (n - 9) % 2 == 1
  {
    assert n - 9 == 2 * (n / 2 - 5) + 1;
  }

  /** A traversal whose first `m` steps go from one listed state to the next and whose
      next step stops ends in what that step gives. */
  lemma {:induction false} FoldFrom(es: seq<(Val, Val)>, states: seq<XS>, step: Step<XS>, m: nat)
    requires m < |es| && m < |states|
    requires forall j :: 0 <= j < m ==> step(states[j], es[j].1, es[j].0) == (states[j + 1], Undef)
    requires step(states[m], es[m].1, es[m].0).1 == Bool(false)
    ensures Fold(es, states[0], step) == step(states[m], es[m].1, es[m].0).0
    decreases m
  {
    if m == 0 {
      FoldHalt(es, states[0], step);
    } else {
      assert step(states[0], es[0].1, es[0].0) == (states[1], Undef);
      FoldGo(es, states[0], step);
      forall j | 0 <= j < m - 1
        ensures step(states[1..][j], es[1..][j].1, es[1..][j].0) == (states[1..][j + 1], Undef)
      {
        assert step(states[j + 1], es[j + 1].1, es[j + 1].0) == (states[j + 2], Undef);
      }
      FoldFrom(es[1..], states[1..], step, m - 1);
    }
  }

  // ---------------------------------------------------------------------------
  // Interceptors, keys, the element that stops the traversal, and the empty array

  /** Only the last `tap` recorded in a record fires, once, with the record's result:
      `_(xs).tap(f).tap(g)` calls `g` with the array and never `f`, where the eager chain
      calls both. */
  lemma OnlyLastTapFires(xs: seq<Val>, f: nat, g: nat)
    ensures ValueSpec(Arr(xs), [TapOp(f), TapOp(g)]).taps == [(g, Arr(xs))]
    ensures Eager(Arr(xs), [TapOp(f), TapOp(g)]).taps == [(f, Arr(xs)), (g, Arr(xs))]
  {
    var c := Fresh.(tap := Some(g));
    TwoLinks(Arr(xs), TapOp(f), TapOp(g));
    ExecTargets(c, Arr(xs));
    SurvivorsNoGoals(xs);
    assert Denote(c, xs) == xs;
    assert [TapOp(f), TapOp(g)][1..] == [TapOp(g)] && [TapOp(g)][1..] == [];
  }

  /** The key a callback receives. */
  function KeyOf(x: Val, k: Val): Val {
    k
  }

  /** `v => v > 5`. */
  function AboveFive(x: Val, k: Val): Val {
    Bool(x.Num? && x.n > 5)
  }

  /** Callbacks in a record receive each element's key in the wrapped array:
      `_([5,6,7]).filter(v => v > 5).map((v, k) => k)` gives [1,2], where the eager
      chain, whose `map` numbers the filtered array afresh, gives [0,1]. */
  lemma KeysAreOriginal(xs: seq<Val>)
    requires xs == [Num(5), Num(6), Num(7)]
    ensures ValueSpec(Arr(xs), [FilterOp(Fun(AboveFive)), MapOp(Fun(KeyOf))]).value == Arr([Num(1), Num(2)])
  {
    var goals := [FilterGoal(AboveFive), MapGoal(KeyOf)];
    var c := Fresh.(goals := goals);
    assert BuildStep(BuildStep(Fresh, FilterOp(Fun(AboveFive))).comp, MapOp(Fun(KeyOf))).comp == c;
    TwoLinks(Arr(xs), FilterOp(Fun(AboveFive)), MapOp(Fun(KeyOf)));
    var es := Order(Arr(xs), false);
    assert es == [(Num(0), Num(5)), (Num(1), Num(6)), (Num(2), Num(7))];
    var step := ExecStep(goals, None, false, None);
    assert goals[1..] == [MapGoal(KeyOf)] && goals[1..][1..] == [];
    assert RunGoals(goals, Num(5), Num(0)) == Passed(None, 1);
    assert RunGoals(goals, Num(6), Num(1)) == Passed(Some(Num(1)), 2);
    assert RunGoals(goals, Num(7), Num(2)) == Passed(Some(Num(2)), 2);
    var s1 := XS([], 0, 1);
    var s2 := XS([Num(1)], 0, 3);
    var s3 := XS([Num(1), Num(2)], 0, 5);
    assert step(XS([], 0, 0), Num(5), Num(0)) == (s1, Undef);
    PushStep(goals, None, s1, Num(6), Num(1), Num(1), 2);
    assert s1.targets + [Num(1)] == [Num(1)];
    PushStep(goals, None, s2, Num(7), Num(2), Num(2), 2);
    assert s2.targets + [Num(2)] == [Num(1), Num(2)];
    assert es[1..] == [(Num(1), Num(6)), (Num(2), Num(7))] && es[1..][1..] == [(Num(2), Num(7))];
    FoldGo(es, XS([], 0, 0), step);
    FoldGo(es[1..], s1, step);
    FoldGo(es[1..][1..], s2, step);
    assert es[1..][1..][1..] == [];
  }

  /** The callbacks also run on the element that makes the traversal stop:
      `_(xs).map(f).take(1)` calls `f` twice on an array of two or more, where one call
      would do. */
  lemma StopElementCalled(xs: seq<Val>, f: Callback)
    requires |xs| >= 2
    ensures ValueSpec(Arr(xs), [MapOp(Fun(f)), TakeOp(Some(1))]).calls == 2
  {
    var goals := [MapGoal(f)];
    var c := Fresh.(goals := goals, count := Some(1));
    assert BuildStep(BuildStep(Fresh, MapOp(Fun(f))).comp, TakeOp(Some(1))).comp == c;
    TwoLinks(Arr(xs), MapOp(Fun(f)), TakeOp(Some(1)));
    var es := Order(Arr(xs), false);
    var step := ExecStep(goals, None, false, Some(1));
    assert EffCount(c) == Some(1);
    var t := f(xs[0], Num(0));
    assert goals[1..] == [];
    assert RunGoals(goals, xs[0], Num(0)) == Passed(Some(t), 1);
    assert RunGoals(goals, xs[1], Num(1)) == Passed(Some(f(xs[1], Num(1))), 1);
    var s1 := XS([t], 0, 1);
    assert es[0] == (Num(0), xs[0]) && es[1..][0] == (Num(1), xs[1]);
    PushStep(goals, Some(1), XS([], 0, 0), xs[0], Num(0), t, 1);
    assert [] + [t] == [t];
    FoldGo(es, XS([], 0, 0), step);
    assert step(s1, es[1..][0].1, es[1..][0].0) == (XS([t], 0, 2), Bool(false));
    FoldHalt(es[1..], s1, step);
  }

  /** `first` of an empty array is `[]` in a chain, where `first([])` is undefined: no
      target is collected, so nothing is unwrapped. */
  lemma FirstOfEmpty()
    ensures ValueSpec(Arr([]), [FirstOp]).value == Arr([])
    ensures Eager(Arr([]), [FirstOp]).value == Undef
  {
    var c := Fresh.(count := Some(1), returnEl := true);
    OneLink(Arr([]), FirstOp);
    ExecTargets(c, Arr([]));
    assert [FirstOp][1..] == [];
  }
}
