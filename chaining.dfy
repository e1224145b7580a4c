/**
 * The lazy function chain of src/chaining.ts.
 *
 * `_(v)` wraps a value in a `FuncJS` object; every library function called on it only
 * appends a link to its chain, and `value()` runs the chain. While the value is
 * array-like, consecutive `map`, `filter`, `reverse`, `slice`, `tail`, `take`, `first`,
 * `last` and `tap` links are not run one after another: they are folded into a
 * "comprehension" record, which one traversal of the collection then executes
 * (shortcut fusion). A link the record cannot take closes it: the record is executed
 * on the accumulated value, and the link either runs eagerly on the result (code 1) or
 * opens a new record (code 2).
 *
 * A link is an `Op`. The record is the class `Comprehension`, whose `Build` and `Exec`
 * methods are proved to compute the functions `BuildStep` and `ExecSpec`; the reduce
 * loop of `value()` is `FuncJS.Value`, proved to compute `ValueSpec`. The eager
 * reference `Eager` runs every link as the library function it names.
 */
module Chaining {
  import opened JsValues
  import opened Is
  import opened Utils
  import opened Coll
  import opened Arrays

  // ---------------------------------------------------------------------------
  // Links

  /** A chain link: the library function it names and its parameters. `SplitOp`,
      `RangeOp` and `Other` carry the function applied to the accumulated value;
      `TapOp` carries an identifier of its interceptor, whose calls are logged. */
  datatype Op =
    | MapOp(p: Arg)
    | FilterOp(p: Arg)
    | ReverseOp
    | SliceOp(begin: Option<int>, end: Option<int>)
    | TailOp
    | TakeOp(n: Option<int>)
    | FirstOp
    | LastOp
    | TapOp(id: nat)
    | ToArrayOp
    | SplitOp(f: Val -> Val)
    | RangeOp(f: Val -> Val)
    | Other(f: Val -> Val)

  /** The functions named in `CAN_COMPREHENSIONS` (src/chaining.ts:178): after one of
      them runs eagerly, a new comprehension is opened. */
  predicate Opener(op: Op) {
    op.ToArrayOp? || op.SplitOp? || op.RangeOp?
  }

  /** What running a link eagerly gives: the new value, the interceptor calls it makes
      (as id and argument) and the number of iteratee calls. */
  datatype Effect = Effect(value: Val, taps: seq<(nat, Val)>, calls: nat)

  /** The library function a link names, applied to the accumulated value
      (`v.fn(...[acc, ...v.params])`). `map` and `filter` call their iteratee once per
      entry. */
  function Call(op: Op, acc: Val): (e: Effect)
    ensures e.taps == (if op.TapOp? then [(op.id, acc)] else [])
    ensures e.calls == (if op.MapOp? || op.FilterOp? then |Entries(acc)| else 0)
    ensures op.TapOp? ==> e.value == acc
  {
    match op
    case MapOp(p) => Effect(Arr(Map(acc, p)), [], |Entries(acc)|)
    case FilterOp(p) => Effect(Arr(Filter(acc, p)), [], |Entries(acc)|)
    case ReverseOp => Effect(Arr(Reverse(acc)), [], 0)
    case SliceOp(b, e) => Effect(Arr(Slice(acc, b, e)), [], 0)
    case TailOp => Effect(Arr(Tail(acc)), [], 0)
    case TakeOp(n) => Effect(Arr(Take(acc, n)), [], 0)
    case FirstOp => Effect(First(acc), [], 0)
    case LastOp => Effect(Last(acc), [], 0)
    case TapOp(id) => Effect(acc, [(id, acc)], 0)
    case ToArrayOp => Effect(Arr(ToArray(acc)), [], 0)
    case SplitOp(f) => Effect(f(acc), [], 0)
    case RangeOp(f) => Effect(f(acc), [], 0)
    case Other(f) => Effect(f(acc), [], 0)
  }

  /** The eager reference: every link run in turn as the function it names. */
  function Eager(v: Val, ops: seq<Op>): (e: Effect)
    ensures ops == [] ==> e == Effect(v, [], 0)
    decreases |ops|
  {
    if ops == [] then Effect(v, [], 0)
    else
      var e1 := Call(ops[0], v);
      var rest := Eager(e1.value, ops[1..]);
      Effect(rest.value, e1.taps + rest.taps, e1.calls + rest.calls)
  }

  // ---------------------------------------------------------------------------
  // The comprehension record (src/chaining.ts:180-254)

  /** One entry of `goalSettings`: a `map` or `filter` callback. */
  datatype Goal = MapGoal(f: Callback) | FilterGoal(f: Callback)

  /** The fields of a comprehension record. `range` is `None` while the array is empty,
      else the pair `[range[0], range[1]]`; `count` is `None` while undefined. */
  datatype CompState = CompState(
    forEachRight: bool,
    goals: seq<Goal>,
    range: Option<(Option<int>, Option<int>)>,
    reverse: bool,
    count: Option<int>,
    tap: Option<nat>,
    returnEl: bool)

  /** A record as `createComprehension()` makes it. */
  const Fresh := CompState(false, [], None, false, None, None, false)

  /** The record after a `buildComprehension` call, and the code it returns: 0 when the
      link was folded in, 1 for a function the record does not know, 2 when the record
      cannot take the link any more. */
  datatype Built = Built(comp: CompState, code: int)

  /** `buildComprehension(comprehension, fn, params)` (src/chaining.ts:196-254). */
  function BuildStep(c: CompState, op: Op): (b: Built)
    ensures b.code == 0 || b.code == 1 || b.code == 2
    ensures b.code != 0 ==> b.comp == c
    ensures b.code == 1 <==> !(op.MapOp? || op.FilterOp? || op.ReverseOp? || op.SliceOp? || op.TailOp? ||
                              op.TakeOp? || op.FirstOp? || op.LastOp? || op.TapOp?)
    ensures b.code == 2 <==> ((op.MapOp? || op.FilterOp?) && (c.range.Some? || c.count.Some?)) ||
                             ((op.SliceOp? || op.TailOp?) && c.range.Some?)
  {
    match op
    case MapOp(p) =>
      if c.range.Some? || c.count.Some? then Built(c, 2)
      else Built(c.(goals := c.goals + [MapGoal(Iteratee(p))]), 0)
    case FilterOp(p) =>
      if c.range.Some? || c.count.Some? then Built(c, 2)
      else Built(c.(goals := c.goals + [FilterGoal(Iteratee(p))]), 0)
    case ReverseOp =>
      if c.range.None? then Built(c.(forEachRight := !c.forEachRight), 0)
      else Built(c.(reverse := !c.reverse), 0)
    case SliceOp(b, e) =>
      if c.range.Some? then Built(c, 2) else Built(c.(range := Some((b, e))), 0)
    case TailOp =>
      if c.range.Some? then Built(c, 2) else Built(c.(range := Some((Some(1), None))), 0)
    case TakeOp(n) =>
      if c.count.None? || (n.Some? && n.value < c.count.value) then Built(c.(count := n), 0)
      else Built(c, 0)
    case FirstOp =>
      if c.count.None? || 1 < c.count.value then Built(c.(count := Some(1), returnEl := true), 0)
      else Built(c, 0)
    case LastOp => Built(c.(count := Some(1), returnEl := true, forEachRight := true), 0)
    case TapOp(id) => Built(c.(tap := Some(id)), 0)
    case _ => Built(c, 1)
  }

  // ---------------------------------------------------------------------------
  // Executing a record (src/chaining.ts:256-300)

  /** Running the goal settings on one element: the value that comes out, or `None`
      when a filter rejects it, and the number of callbacks called. */
  datatype Passed = Passed(value: Option<Val>, calls: nat)

  function RunGoals(goals: seq<Goal>, t: Val, k: Val): (r: Passed)
    ensures r.calls <= |goals|
    ensures goals == [] ==> r == Passed(Some(t), 0)
    decreases |goals|
  {
    if goals == [] then Passed(Some(t), 0)
    else match goals[0]
      case MapGoal(f) =>
        var r := RunGoals(goals[1..], f(t, k), k);
        Passed(r.value, r.calls + 1)
      case FilterGoal(f) =>
        if !Truthy(f(t, k)) then Passed(None, 1)
        else
          var r := RunGoals(goals[1..], t, k);
          Passed(r.value, r.calls + 1)
  }

  /** `count` as `execComprehension` uses it: a falsy count (undefined or 0) is replaced
      by `range[1] - range[0]` when there is a range, which is NaN (`None`) when either
      bound is undefined. */
  function EffCount(c: CompState): (n: Option<int>)
    ensures c.range.None? ==> n == c.count
    ensures c.count.Some? && c.count.value != 0 ==> n == c.count
  {
    if (c.count.None? || c.count == Some(0)) && c.range.Some? then
      var (lo, hi) := c.range.value;
      if lo.Some? && hi.Some? then Some(hi.value - lo.value) else None
    else c.count
  }

  /** Storing the effective count does not change it. */
  lemma EffCountAgain(c: CompState)
    ensures EffCount(c.(count := EffCount(c))) == EffCount(c)
  {
  }

  /** `x < bound` and `x > bound`, false against undefined as in JavaScript. */
  predicate Below(x: int, bound: Option<int>) {
    bound.Some? && x < bound.value
  }

  predicate Above(x: int, bound: Option<int>) {
    bound.Some? && x > bound.value
  }

  /** The closure state of the traversal: `targets`, `targetIndex` and the callbacks
      called so far. */
  datatype XS = XS(targets: seq<Val>, index: int, calls: nat)

  /** The traversal callback of `execComprehension` (src/chaining.ts:272-295). */
  function ExecStep(goals: seq<Goal>, range: Option<(Option<int>, Option<int>)>, isReverse: bool,
                    count: Option<int>): Step<XS> {
    (s: XS, v: Val, k: Val) =>
      var g := RunGoals(goals, v, k);
      var calls := s.calls + g.calls;
      if g.value.None? then (s.(calls := calls), Undef)
      else if range.Some? && Below(s.index, range.value.0) then (XS(s.targets, s.index + 1, calls), Undef)
      else
        var i := if range.Some? then s.index + 1 else s.index;
        if range.Some? && Above(i, range.value.1) then (XS(s.targets, i, calls), Bool(false))
        else if count == Some(|s.targets|) then (XS(s.targets, i, calls), Bool(false))
        else
          var t := g.value.value;
          (XS(if isReverse then [t] + s.targets else s.targets + [t], i, calls), Undef)
  }

  /** What `execComprehension(comprehension, collection)` returns (the single target when
      `returnEl` is set and there is exactly one, else the targets) and the number of
      callbacks it calls. */
  function ExecSpec(c: CompState, coll: Val): (Val, nat) {
    var s := Fold(Order(coll, c.forEachRight), XS([], 0, 0), ExecStep(c.goals, c.range, c.reverse, EffCount(c)));
    (if |s.targets| == 1 && c.returnEl then s.targets[0] else Arr(s.targets), s.calls)
  }

  /** `ExecSpec` read off the traversal's final closure state. */
  lemma ExecSpecOf(c: CompState, coll: Val, s: XS)
    requires s == Fold(Order(coll, c.forEachRight), XS([], 0, 0), ExecStep(c.goals, c.range, c.reverse, EffCount(c)))
    ensures ExecSpec(c, coll) == (if |s.targets| == 1 && c.returnEl then s.targets[0] else Arr(s.targets), s.calls)
  {
  }

  /** The comprehension record, updated in place by `buildComprehension` and
      `execComprehension`. */
  class Comprehension {
    var forEachRight: bool
    var goals: seq<Goal>
    var range: Option<(Option<int>, Option<int>)>
    var reverse: bool
    var count: Option<int>
    var tap: Option<nat>
    var returnEl: bool

    function State(): CompState
      reads this
    {
      CompState(forEachRight, goals, range, reverse, count, tap, returnEl)
    }

    /** `createComprehension(fn?, params?)` (src/chaining.ts:180-194): a fresh record,
        with the link built into it when one is given. */
    constructor (op: Option<Op>)
      ensures State() == if op.Some? then BuildStep(Fresh, op.value).comp else Fresh
    {
      forEachRight := false;
      goals := [];
      range := None;
      reverse := false;
      count := None;
      tap := None;
      returnEl := false;
      new;
      if op.Some? {
        var _ := Build(op.value);
      }
    }

    /** `buildComprehension(this, fn, params)`. */
    method Build(op: Op) returns (code: int)
      modifies this
      ensures Built(State(), code) == BuildStep(old(State()), op)
    {
      code := 0;
      match op
      case MapOp(p) =>
        if range.Some? || count.Some? {
          code := 2;
          return;
        }
        goals := goals + [MapGoal(Iteratee(p))];
      case FilterOp(p) =>
        if range.Some? || count.Some? {
          code := 2;
          return;
        }
        goals := goals + [FilterGoal(Iteratee(p))];
      case ReverseOp =>
        if range.None? {
          forEachRight := !forEachRight;
        } else {
          reverse := !reverse;
        }
      case SliceOp(b, e) =>
        if range.Some? {
          code := 2;
          return;
        }
        range := Some((b, e));
      case TailOp =>
        if range.Some? {
          code := 2;
          return;
        }
        range := Some((Some(1), None));
      case TakeOp(n) =>
        if count.None? || (n.Some? && n.value < count.value) {
          count := n;
        }
      case FirstOp =>
        if count.None? || 1 < count.value {
          count := Some(1);
          returnEl := true;
        }
      case LastOp =>
        count := Some(1);
        returnEl := true;
        forEachRight := true;
      case TapOp(id) =>
        tap := Some(id);
      case _ =>
        code := 1;
    }

    /** `execComprehension(this, collection)`: one traversal, forward or backward, that
        runs the goal settings on each element and collects the targets. */
    method Exec(coll: Val) returns (rs: Val, calls: nat)
      modifies this
      ensures (rs, calls) == ExecSpec(old(State()), coll)
      ensures State() == old(State()).(count := EffCount(old(State())))
    {
      ghost var st := State();
      if (count.None? || count == Some(0)) && range.Some? {
        var bounds := range.value;
        count := if bounds.0.Some? && bounds.1.Some? then Some(bounds.1.value - bounds.0.value) else None;
      }
      assert count == EffCount(st);
      assert State() == st.(count := EffCount(st));
      EffCountAgain(st);
      rs, calls := Traverse(State(), coll);
    }
  }

  /** The traversal `execComprehension` runs (src/chaining.ts:272-304): `_eachIterator`
      over the collection with the record's callback, then the single target or the
      array of targets. */
  method Traverse(c: CompState, coll: Val) returns (rs: Val, calls: nat)
    ensures (rs, calls) == ExecSpec(c, coll)
  {
    var step := ExecStep(c.goals, c.range, c.reverse, EffCount(c));
    var s := EachIterator(coll, step, XS([], 0, 0), c.forEachRight);
    ExecSpecOf(c, coll, s);
    if |s.targets| == 1 && c.returnEl {
      rs := s.targets[0];
    } else {
      rs := Arr(s.targets);
    }
    calls := s.calls;
  }

  // ---------------------------------------------------------------------------
  // value() (src/chaining.ts:52-83)

  /** The state of the reduce in `value()`: the accumulator, the open record if any,
      and the interceptor and iteratee calls made so far. */
  datatype Run = Run(acc: Val, comp: Option<CompState>, taps: seq<(nat, Val)>, calls: nat)

  /** One step of the reduce: link `op`, which is the last link when `isLast`. */
  function Link(r: Run, op: Op, isLast: bool): Run {
    if r.comp.Some? then
      var b := BuildStep(r.comp.value, op);
      var executed := b.code > 0 || (b.code == 0 && isLast);
      var x := ExecSpec(b.comp, r.acc);
      var rs := if executed then x.0 else Undef;
      var taps := if executed && b.comp.tap.Some? then r.taps + [(b.comp.tap.value, rs)] else r.taps;
      var calls := if executed then r.calls + x.1 else r.calls;
      var comp := if b.code > 1 then Some(BuildStep(Fresh, op).comp) else if executed then None else Some(b.comp);
      if Truthy(rs) then
        if b.code != 1 then Run(rs, comp, taps, calls)
        else
          var e := Call(op, rs);
          Run(e.value, comp, taps + e.taps, calls + e.calls)
      else Run(r.acc, comp, taps, calls)
    else
      var e := Call(op, r.acc);
      Run(e.value, if Opener(op) then Some(Fresh) else None, r.taps + e.taps, r.calls + e.calls)
  }

  /** The reduce over the remaining links. */
  function RunFrom(r: Run, ops: seq<Op>): Run
    decreases |ops|
  {
    if ops == [] then r else RunFrom(Link(r, ops[0], |ops| == 1), ops[1..])
  }

  /** The reduce's seed: the wrapped value, with a record open when it is array-like. */
  function Start(v: Val): Run {
    Run(v, if IsArrayLike(v) then Some(Fresh) else None, [], 0)
  }

  /** What `value()` returns for wrapped value `v` and chain `ops`, with the interceptor
      calls and the iteratee calls it makes. */
  function ValueSpec(v: Val, ops: seq<Op>): Effect {
    var r := RunFrom(Start(v), ops);
    Effect(r.acc, r.taps, r.calls)
  }

  /** The `FuncJS` wrapper: the wrapped value and the chain of links. */
  class FuncJS {
    var wrapped: Val
    var chain: seq<Op>

    /** `new FuncJS(v)` (src/chaining.ts:35-38). */
    constructor (v: Val)
      ensures wrapped == v && chain == []
    {
      wrapped := v;
      chain := [];
    }

    /** The method `mixin` installs for a function (src/chaining.ts:167-173): it appends
        a link and returns the same object. */
    method Push(op: Op) returns (self: FuncJS)
      modifies this
      ensures self == this
      ensures chain == old(chain) + [op] && wrapped == old(wrapped)
    {
      chain := chain + [op];
      self := this;
    }

    /** `value()`: the reduce over the chain. */
    method Value() returns (r: Effect)
      ensures r == ValueSpec(wrapped, chain)
    {
      var comp: Comprehension? := null;
      if IsArrayLike(wrapped) {
        comp := new Comprehension(None);
      }
      var acc := wrapped;
      var taps: seq<(nat, Val)> := [];
      var calls: nat := 0;
      var i := 0;
      while i < |chain|
        invariant 0 <= i <= |chain|
        invariant comp != null ==> fresh(comp)
        invariant RunFrom(Start(wrapped), chain) ==
          RunFrom(Run(acc, if comp == null then None else Some(comp.State()), taps, calls), chain[i..])
      {
        var op := chain[i];
        var isLast := i == |chain| - 1;
        ghost var before := Run(acc, if comp == null then None else Some(comp.State()), taps, calls);
        RunFromAt(before, chain, i);
        if comp != null {
          comp, acc, taps, calls := LinkRecord(comp, acc, taps, calls, op, isLast);
        } else {
          comp, acc, taps, calls := LinkPlain(acc, taps, calls, op, isLast);
        }
        assert Link(before, op, isLast) ==
          Run(acc, if comp == null then None else Some(comp.State()), taps, calls);
        i := i + 1;
      }
      assert chain[i..] == [];
      r := Effect(acc, taps, calls);
    }
  }

  /** The reduce from link `i` on is link `i` followed by the reduce from the next. */
  lemma RunFromAt(r: Run, ops: seq<Op>, i: nat)
    requires i < |ops|
    ensures RunFrom(r, ops[i..]) == RunFrom(Link(r, ops[i], i == |ops| - 1), ops[i + 1..])
  {
    assert ops[i..][0] == ops[i] && ops[i..][1..] == ops[i + 1..];
  }

  /** One link of the reduce while a record is open: the link is built into the record,
      the record runs when the link asks for it, and a new record opens when the link
      starts one. */
  method LinkRecord(comp: Comprehension, acc: Val, taps: seq<(nat, Val)>, calls: nat, op: Op, isLast: bool)
    returns (comp': Comprehension?, acc': Val, taps': seq<(nat, Val)>, calls': nat)
    modifies comp
    ensures comp' != null ==> comp' == comp || fresh(comp')
    ensures Link(Run(acc, Some(old(comp.State())), taps, calls), op, isLast) ==
      Run(acc', if comp' == null then None else Some(comp'.State()), taps', calls')
  {
    ghost var want := Link(Run(acc, Some(comp.State()), taps, calls), op, isLast);
    ghost var b := BuildStep(comp.State(), op);
    comp' := comp;
    acc', taps', calls' := acc, taps, calls;
    var sig, fired, rs, n := FireRecord(comp, acc, op, isLast);
    ghost var compWant := if b.code > 1 then Some(BuildStep(Fresh, op).comp) else if fired then None else Some(b.comp);
    if fired {
      calls' := calls' + n;
      if comp.tap.Some? {
        taps' := taps' + [(comp.tap.value, rs)];
      }
      comp' := null;
    }
    if sig > 1 {
      comp' := new Comprehension(Some(op));
    }
    assert (if comp' == null then None else Some(comp'.State())) == compWant;
    if Truthy(rs) {
      if sig != 1 {
        acc' := rs;
      } else {
        var e := Call(op, rs);
        acc', taps', calls' := e.value, taps' + e.taps, calls' + e.calls;
      }
    }
    assert acc' == want.acc && taps' == want.taps && calls' == want.calls;
  }

  /** One link of the reduce while no record is open: the link runs as the function it
      names, and a record opens after it when the link is one that starts them. */
  method LinkPlain(acc: Val, taps: seq<(nat, Val)>, calls: nat, op: Op, isLast: bool)
    returns (comp': Comprehension?, acc': Val, taps': seq<(nat, Val)>, calls': nat)
    ensures comp' != null ==> fresh(comp')
    ensures Link(Run(acc, None, taps, calls), op, isLast) ==
      Run(acc', if comp' == null then None else Some(comp'.State()), taps', calls')
  {
    var e := Call(op, acc);
    comp' := null;
    if Opener(op) {
      comp' := new Comprehension(None);
    }
    acc', taps', calls' := e.value, taps + e.taps, calls + e.calls;
  }

  /** Builds link `op` into the open record and runs the record when the link's code asks
      for it (or the link is the last one): the code, whether the record ran, and what the
      run returned and how many iteratee calls it made. */
  method FireRecord(comp: Comprehension, acc: Val, op: Op, isLast: bool)
    returns (sig: int, fired: bool, rs: Val, n: nat)
    modifies comp
    ensures var b := BuildStep(old(comp.State()), op);
      sig == b.code && fired == (b.code > 0 || (b.code == 0 && isLast)) &&
      comp.tap == b.comp.tap && (!fired ==> comp.State() == b.comp) &&
      (rs, n) == (if fired then ExecSpec(b.comp, acc) else (Undef, 0))
  {
    ghost var st := comp.State();
    rs, n := Undef, 0;
    sig := comp.Build(op);
    assert sig == BuildStep(st, op).code && comp.State() == BuildStep(st, op).comp;
    fired := sig > 0 || (sig == 0 && isLast);
    if fired {
      rs, n := comp.Exec(acc);
    }
  }

  /** What `_(v)` and `chain(v)` receive: a plain value or a `FuncJS` object. */
  datatype Wrappable = Plain(v: Val) | Wrapped(w: FuncJS)

  /** `_(v)` and `chain(v)` (src/chaining.ts:138-140, 314-317): a `FuncJS` object is
      returned as it is, anything else is wrapped in a new one with an empty chain. */
  method Wrap(x: Wrappable) returns (r: FuncJS)
    ensures x.Wrapped? ==> r == x.w
    ensures x.Plain? ==> fresh(r) && r.wrapped == x.v && r.chain == []
  {
    if x.Wrapped? {
      r := x.w;
    } else {
      r := new FuncJS(x.v);
    }
  }

  // ---------------------------------------------------------------------------
  // Fusion agrees with the eager chain

  function Min(a: int, b: int): int {
    if a <= b then a else b
  }

  function Max(a: int, b: int): int {
    if a <= b then b else a
  }

  /** A callback that ignores its key argument. Inside a comprehension a callback is
      called with the key of the ORIGINAL collection, while the eager `map` and `filter`
      pass the index in their own input; only key-free callbacks see no difference. */
  ghost predicate KeyFree(f: Callback) {
    forall x: Val, k1: Val, k2: Val :: f(x, k1) == f(x, k2)
  }

  ghost predicate GoalsKeyFree(goals: seq<Goal>) {
    forall i :: 0 <= i < |goals| ==> KeyFree(goals[i].f)
  }

  lemma {:induction false} GoalsIgnoreKey(goals: seq<Goal>, t: Val, k: Val)
    requires GoalsKeyFree(goals)
    ensures RunGoals(goals, t, k) == RunGoals(goals, t, Undef)
    decreases |goals|
  {
    if goals != [] {
      assert KeyFree(goals[0].f);
      assert GoalsKeyFree(goals[1..]) by {
        forall i | 0 <= i < |goals[1..]| ensures KeyFree(goals[1..][i].f) {
          assert goals[1..][i] == goals[i + 1];
        }
      }
      var f := goals[0].f;
      assert f(t, k) == f(t, Undef);
      GoalsIgnoreKey(goals[1..], f(t, k), k);
      GoalsIgnoreKey(goals[1..], t, k);
    }
  }

  /** The values that come out of the goal settings, in order. */
  function Survivors(goals: seq<Goal>, vs: seq<Val>): seq<Val>
    decreases |vs|
  {
    if vs == [] then []
    else
      var r := RunGoals(goals, vs[0], Undef).value;
      (if r.Some? then [r.value] else []) + Survivors(goals, vs[1..])
  }

  lemma {:induction false} SurvivorsAppend(goals: seq<Goal>, a: seq<Val>, b: seq<Val>)
    ensures Survivors(goals, a + b) == Survivors(goals, a) + Survivors(goals, b)
    decreases |a|
  {
    if a != [] {
      assert (a + b)[0] == a[0] && (a + b)[1..] == a[1..] + b;
      SurvivorsAppend(goals, a[1..], b);
    } else {
      assert a + b == b;
    }
  }

  lemma {:induction false} ReversedAppend<T>(a: seq<T>, b: seq<T>)
    ensures Reversed(a + b) == Reversed(b) + Reversed(a)
  {
  }

  lemma {:induction false} SurvivorsReversed(goals: seq<Goal>, vs: seq<Val>)
    ensures Survivors(goals, Reversed(vs)) == Reversed(Survivors(goals, vs))
    decreases |vs|
  {
    if vs != [] {
      var r := RunGoals(goals, vs[0], Undef).value;
      var head := if r.Some? then [r.value] else [];
      assert Reversed(vs) == Reversed(vs[1..]) + [vs[0]];
      SurvivorsAppend(goals, Reversed(vs[1..]), [vs[0]]);
      SurvivorsReversed(goals, vs[1..]);
      assert Survivors(goals, [vs[0]]) == head + [];
      ReversedAppend(head, Survivors(goals, vs[1..]));
      assert Reversed(head) == head;
    }
  }

  lemma SurvivorsNoGoals(vs: seq<Val>)
    ensures Survivors([], vs) == vs
  {
  }

  /** Each result of `f` on the values, with an undefined key. */
  function MapVals(ws: seq<Val>, f: Callback): (r: seq<Val>)
    ensures |r| == |ws| && forall i :: 0 <= i < |ws| ==> r[i] == f(ws[i], Undef)
    decreases |ws|
  {
    if ws == [] then [] else [f(ws[0], Undef)] + MapVals(ws[1..], f)
  }

  /** The values on which `f` is truthy, with an undefined key. */
  function FilterVals(ws: seq<Val>, f: Callback): seq<Val>
    decreases |ws|
  {
    if ws == [] then [] else (if Truthy(f(ws[0], Undef)) then [ws[0]] else []) + FilterVals(ws[1..], f)
  }

  /** A goal appended after the others sees what they let through. */
  lemma {:induction false} RunGoalsSnoc(goals: seq<Goal>, g: Goal, t: Val, k: Val)
    ensures var r := RunGoals(goals, t, k).value; var r2 := RunGoals(goals + [g], t, k).value;
      (r.None? ==> r2.None?) &&
      (r.Some? && g.MapGoal? ==> r2 == Some(g.f(r.value, k))) &&
      (r.Some? && g.FilterGoal? ==> r2 == if Truthy(g.f(r.value, k)) then r else None)
    decreases |goals|
  {
    if goals == [] {
      assert [] + [g] == [g];
      assert [g][1..] == [];
    } else {
      assert (goals + [g])[0] == goals[0] && (goals + [g])[1..] == goals[1..] + [g];
      match goals[0]
      case MapGoal(f) => RunGoalsSnoc(goals[1..], g, f(t, k), k);
      case FilterGoal(f) => RunGoalsSnoc(goals[1..], g, t, k);
    }
  }

  lemma {:induction false} SurvivorsSnocMap(goals: seq<Goal>, f: Callback, vs: seq<Val>)
    ensures Survivors(goals + [MapGoal(f)], vs) == MapVals(Survivors(goals, vs), f)
    decreases |vs|
  {
    if vs != [] {
      RunGoalsSnoc(goals, MapGoal(f), vs[0], Undef);
      SurvivorsSnocMap(goals, f, vs[1..]);
      var r := RunGoals(goals, vs[0], Undef).value;
      var head := if r.Some? then [r.value] else [];
      var rest := Survivors(goals, vs[1..]);
      assert Survivors(goals, vs) == head + rest;
      assert MapVals(head + rest, f) == MapVals(head, f) + MapVals(rest, f);
    }
  }

  lemma {:induction false} FilterValsAppend(a: seq<Val>, b: seq<Val>, f: Callback)
    ensures FilterVals(a + b, f) == FilterVals(a, f) + FilterVals(b, f)
    decreases |a|
  {
    if a != [] {
      assert (a + b)[0] == a[0] && (a + b)[1..] == a[1..] + b;
      FilterValsAppend(a[1..], b, f);
    } else {
      assert a + b == b;
    }
  }

  lemma {:induction false} SurvivorsSnocFilter(goals: seq<Goal>, f: Callback, vs: seq<Val>)
    ensures Survivors(goals + [FilterGoal(f)], vs) == FilterVals(Survivors(goals, vs), f)
    decreases |vs|
  {
    if vs != [] {
      RunGoalsSnoc(goals, FilterGoal(f), vs[0], Undef);
      SurvivorsSnocFilter(goals, f, vs[1..]);
      var r := RunGoals(goals, vs[0], Undef).value;
      var head := if r.Some? then [r.value] else [];
      var rest := Survivors(goals, vs[1..]);
      assert Survivors(goals, vs) == head + rest;
      FilterValsAppend(head, rest, f);
      if r.Some? {
        assert FilterVals(head, f) == (if Truthy(f(r.value, Undef)) then head else []) + [];
      }
    }
  }

  /** `map` of a key-free iteratee over an array maps the values. */
  lemma MapKeyFree(ws: seq<Val>, p: Arg)
    requires KeyFree(Iteratee(p))
    ensures Map(Arr(ws), p) == MapVals(ws, Iteratee(p))
  {
    MapEach(Arr(ws), p);
    var cb := Iteratee(p);
    forall i | 0 <= i < |ws| ensures Map(Arr(ws), p)[i] == cb(ws[i], Undef) {
      assert cb(ws[i], Num(i)) == cb(ws[i], Undef);
    }
  }

  lemma {:induction false} SelectKeyFree(es: seq<(Val, Val)>, cb: Callback)
    requires KeyFree(cb)
    ensures Select(es, cb, true) == FilterVals(ValuesOf(es), cb)
    decreases |es|
  {
    if es != [] {
      assert ValuesOf(es) == [es[0].1] + ValuesOf(es[1..]);
      assert cb(es[0].1, es[0].0) == cb(es[0].1, Undef);
      SelectKeyFree(es[1..], cb);
    }
  }

  /** `filter` of a key-free predicate over an array filters the values. */
  lemma FilterKeyFree(ws: seq<Val>, p: Arg)
    requires KeyFree(Iteratee(p))
    ensures Filter(Arr(ws), p) == FilterVals(ws, Iteratee(p))
  {
    PartitionIsFilterReject(Arr(ws), p);
    SelectKeyFree(Entries(Arr(ws)), Iteratee(p));
    assert ValuesOf(Entries(Arr(ws))) == ws;
  }

  /** What a record in the fusible shape stands for, on the values of an array: the goal
      settings in traversal order, then the range as `slice` reads it, then the count as
      `take` reads it. */
  function Denote(c: CompState, xs: seq<Val>): seq<Val> {
    Window(c, Survivors(c.goals, if c.forEachRight then Reversed(xs) else xs))
  }

  /** The range, then the count, applied to the values that passed the goal settings. */
  function Window(c: CompState, zs: seq<Val>): seq<Val> {
    var ws := if c.range.Some? then
        JsSlice(zs, if c.range.value.0.Some? then c.range.value.0.value else 0, c.range.value.1)
      else zs;
    if c.count.Some? then JsSlice(ws, 0, c.count) else ws
  }

  /** The shape of a record built from the fusible links below: no `reverse` flag, no
      `returnEl`, no interceptor, key-free goals, non-negative bounds and a positive
      count. */
  ghost predicate Fusing(c: CompState) {
    ExecShape(c) && !c.reverse && !c.returnEl && c.tap.None?
  }

  /** The records whose traversal the lemmas below describe: key-free goals, a range
      whose start is set and whose bounds are non-negative, and a positive count. */
  ghost predicate ExecShape(c: CompState) {
    GoalsKeyFree(c.goals) &&
    (c.range.Some? ==> c.range.value.0.Some? && c.range.value.0.value >= 0 &&
                       (c.range.value.1.Some? ==> c.range.value.1.value >= 0)) &&
    (c.count.Some? ==> c.count.value >= 1)
  }

  /** The fresh record is one the lemmas below describe. */
  lemma FreshFusing()
    ensures Fusing(Fresh)
  {
  }

  /** The links the fusion theorem covers, from a given record: key-free `map` and
      `filter` and `reverse` before any range or count; one `slice` with non-negative
      bounds or one `tail`, before any count; and `take` with a positive count. */
  ghost predicate SafeOp(c: CompState, op: Op) {
    match op
    case MapOp(p) => c.range.None? && c.count.None? && KeyFree(Iteratee(p))
    case FilterOp(p) => c.range.None? && c.count.None? && KeyFree(Iteratee(p))
    case ReverseOp => c.range.None? && c.count.None?
    case SliceOp(b, e) => c.range.None? && c.count.None? && b.Some? && b.value >= 0 && (e.Some? ==> e.value >= 0)
    case TailOp => c.range.None? && c.count.None?
    case TakeOp(n) => n.Some? && n.value >= 1
    case _ => false
  }

  ghost predicate SafeRun(c: CompState, ops: seq<Op>)
    decreases |ops|
  {
    ops == [] || (SafeOp(c, ops[0]) && SafeRun(BuildStep(c, ops[0]).comp, ops[1..]))
  }

  /** The record after building every link into it. */
  function BuildAll(c: CompState, ops: seq<Op>): CompState
    decreases |ops|
  {
    if ops == [] then c else BuildAll(BuildStep(c, ops[0]).comp, ops[1..])
  }

  lemma TakeOfTake(ws: seq<Val>, m: int, n: int)
    requires m >= 0 && n >= 0
    ensures JsSlice(JsSlice(ws, 0, Some(m)), 0, Some(n)) == JsSlice(ws, 0, Some(Min(m, n)))
  {
  }

  /** One fusible link changes the record so that it stands for the library function
      applied to what the record stood for before. */
  lemma StepDenote(c: CompState, op: Op, xs: seq<Val>)
    requires Fusing(c) && SafeOp(c, op)
    ensures BuildStep(c, op).code == 0 && Fusing(BuildStep(c, op).comp)
    ensures Call(op, Arr(Denote(c, xs))).value == Arr(Denote(BuildStep(c, op).comp, xs))
  {
    match op
    case MapOp(_) => StepDenoteGoal(c, op, xs);
    case FilterOp(_) => StepDenoteGoal(c, op, xs);
    case ReverseOp => StepDenoteReverse(c, op, xs);
    case _ => StepDenoteWindow(c, op, xs);
  }

  /** `StepDenote` for a `map` or `filter` link: a goal joins the record. */
  lemma StepDenoteGoal(c: CompState, op: Op, xs: seq<Val>)
    requires Fusing(c) && SafeOp(c, op) && (op.MapOp? || op.FilterOp?)
    ensures BuildStep(c, op).code == 0 && Fusing(BuildStep(c, op).comp)
    ensures Call(op, Arr(Denote(c, xs))).value == Arr(Denote(BuildStep(c, op).comp, xs))
  {
    var c2 := BuildStep(c, op).comp;
    var vs := if c.forEachRight then Reversed(xs) else xs;
    var zs := Survivors(c.goals, vs);
    match op
    case MapOp(p) =>
      assert Denote(c, xs) == zs;
      SurvivorsSnocMap(c.goals, Iteratee(p), vs);
      MapKeyFree(zs, p);
      assert GoalsKeyFree(c2.goals) by {
        forall i | 0 <= i < |c2.goals| ensures KeyFree(c2.goals[i].f) {
          if i < |c.goals| { assert c2.goals[i] == c.goals[i]; }
        }
      }
    case FilterOp(p) =>
      assert Denote(c, xs) == zs;
      SurvivorsSnocFilter(c.goals, Iteratee(p), vs);
      FilterKeyFree(zs, p);
      assert GoalsKeyFree(c2.goals) by {
        forall i | 0 <= i < |c2.goals| ensures KeyFree(c2.goals[i].f) {
          if i < |c.goals| { assert c2.goals[i] == c.goals[i]; }
        }
      }
  }

  /** `StepDenote` for `reverse`: the record traverses the other way. */
  lemma StepDenoteReverse(c: CompState, op: Op, xs: seq<Val>)
    requires Fusing(c) && SafeOp(c, op) && op.ReverseOp?
    ensures BuildStep(c, op).code == 0 && Fusing(BuildStep(c, op).comp)
    ensures Call(op, Arr(Denote(c, xs))).value == Arr(Denote(BuildStep(c, op).comp, xs))
  {
    var c2 := BuildStep(c, op).comp;
    var vs := if c.forEachRight then Reversed(xs) else xs;
    var zs := Survivors(c.goals, vs);
    match op
    case ReverseOp =>
      assert Denote(c, xs) == zs;
      if c.forEachRight {
        SurvivorsReversed(c.goals, xs);
        ReversedTwice(Survivors(c.goals, xs));
      } else {
        SurvivorsReversed(c.goals, xs);
      }
  }

  /** `StepDenote` for `slice`, `tail` and `take`: the record narrows its window. */
  lemma StepDenoteWindow(c: CompState, op: Op, xs: seq<Val>)
    requires Fusing(c) && SafeOp(c, op) && (op.SliceOp? || op.TailOp? || op.TakeOp?)
    ensures BuildStep(c, op).code == 0 && Fusing(BuildStep(c, op).comp)
    ensures Call(op, Arr(Denote(c, xs))).value == Arr(Denote(BuildStep(c, op).comp, xs))
  {
    var c2 := BuildStep(c, op).comp;
    var vs := if c.forEachRight then Reversed(xs) else xs;
    var zs := Survivors(c.goals, vs);
    match op
    case SliceOp(b, e) =>
      assert Denote(c, xs) == zs;
    case TailOp =>
      assert Denote(c, xs) == zs;
    case TakeOp(n) =>
      var ws := if c.range.Some? then
          JsSlice(zs, if c.range.value.0.Some? then c.range.value.0.value else 0, c.range.value.1)
        else zs;
      if c.count.Some? {
        TakeOfTake(ws, c.count.value, n.value);
      } else {
        assert Denote(c, xs) == ws;
      }
  }

  /** A fusible run builds a record that stands for the eager chain. */
  lemma {:induction false} RunDenote(c: CompState, ops: seq<Op>, xs: seq<Val>)
    requires Fusing(c) && SafeRun(c, ops)
    ensures Fusing(BuildAll(c, ops))
    ensures Eager(Arr(Denote(c, xs)), ops).value == Arr(Denote(BuildAll(c, ops), xs))
    decreases |ops|
  {
    if ops != [] {
      StepDenote(c, ops[0], xs);
      RunDenote(BuildStep(c, ops[0]).comp, ops[1..], xs);
    }
  }

  /** The targets the traversal collects, from the values that pass the goal settings;
      with `rev` each is put in front (`unshift`) rather than at the end. */
  function Collect(zs: seq<Val>, ts: seq<Val>, i: int, range: Option<(Option<int>, Option<int>)>,
                   count: Option<int>, rev: bool): seq<Val>
    decreases |zs|
  {
    if zs == [] then ts
    else if range.Some? && Below(i, range.value.0) then Collect(zs[1..], ts, i + 1, range, count, rev)
    else
      var j := if range.Some? then i + 1 else i;
      if range.Some? && Above(j, range.value.1) then ts
      else if count == Some(|ts|) then ts
      else Collect(zs[1..], if rev then [zs[0]] + ts else ts + [zs[0]], j, range, count, rev)
  }

  /** A window in collection order, or reversed when the targets are unshifted. */
  function Arrange(w: seq<Val>, rev: bool): seq<Val> {
    if rev then Reversed(w) else w
  }

  lemma {:induction false} CollectFold(es: seq<(Val, Val)>, s: XS, goals: seq<Goal>,
                                       range: Option<(Option<int>, Option<int>)>, count: Option<int>, rev: bool)
    requires GoalsKeyFree(goals)
    ensures Fold(es, s, ExecStep(goals, range, rev, count)).targets ==
      Collect(Survivors(goals, ValuesOf(es)), s.targets, s.index, range, count, rev)
    decreases |es|
  {
    var vs := ValuesOf(es);
    if es != [] {
      var step := ExecStep(goals, range, rev, count);
      assert vs[0] == es[0].1 && vs[1..] == ValuesOf(es[1..]);
      GoalsIgnoreKey(goals, es[0].1, es[0].0);
      var g := RunGoals(goals, es[0].1, es[0].0);
      var r := step(s, es[0].1, es[0].0);
      var rest := Survivors(goals, vs[1..]);
      if g.value.None? {
        assert Survivors(goals, vs) == [] + rest == rest;
        assert r == (s.(calls := s.calls + g.calls), Undef);
        assert r.0.targets == s.targets && r.0.index == s.index;
        FoldGo(es, s, step);
        CollectFold(es[1..], r.0, goals, range, count, rev);
      } else {
        var t := g.value.value;
        var zs := Survivors(goals, vs);
        assert zs == [t] + rest;
        assert zs[0] == t && zs[1..] == rest;
        if range.Some? && Below(s.index, range.value.0) {
          assert r.0 == XS(s.targets, s.index + 1, s.calls + g.calls) && r.1 == Undef;
          FoldGo(es, s, step);
          CollectFold(es[1..], r.0, goals, range, count, rev);
        } else {
          var i := if range.Some? then s.index + 1 else s.index;
          if range.Some? && Above(i, range.value.1) {
            assert r.1 == Bool(false) && r.0.targets == s.targets;
            FoldStop(es, s, step);
          } else if count == Some(|s.targets|) {
            assert r.1 == Bool(false) && r.0.targets == s.targets;
            FoldStop(es, s, step);
          } else {
            var ts := if rev then [t] + s.targets else s.targets + [t];
            assert r.0 == XS(ts, i, s.calls + g.calls) && r.1 == Undef;
            FoldGo(es, s, step);
            CollectFold(es[1..], r.0, goals, range, count, rev);
          }
        }
      }
    }
  }

  /** Adding one more kept value to an arranged window. */
  lemma ArrangeSnoc(w: seq<Val>, x: Val, rev: bool)
    ensures Arrange(w + [x], rev) == if rev then [x] + Arrange(w, rev) else Arrange(w, rev) + [x]
  {
    if rev {
      ReversedLast(w + [x]);
      assert (w + [x])[..|w|] == w;
    }
  }

  /** Without a range, the traversal keeps the first `count` values that pass. */
  lemma {:induction false} CollectNoRange(zs: seq<Val>, j: nat, ts: seq<Val>, i: int, count: Option<int>, rev: bool)
    requires j <= |zs| && ts == Arrange(zs[..j], rev)
    requires count.Some? ==> count.value >= j
    ensures Collect(zs[j..], ts, i, None, count, rev) ==
      Arrange(if count.Some? then zs[..Min(count.value, |zs|)] else zs, rev)
    decreases |zs| - j
  {
    if j == |zs| {
      assert zs[..j] == zs;
    } else if count == Some(|ts|) {
      assert Collect(zs[j..], ts, i, None, count, rev) == ts;
      assert Min(count.value, |zs|) == j;
    } else {
      var ts' := if rev then [zs[j]] + ts else ts + [zs[j]];
      CollectNoRangeStep(zs, j, ts, ts', i, count, rev);
      CollectNoRange(zs, j + 1, ts', i, count, rev);
    }
  }

  /** One step of `CollectNoRange`: the next value is kept. */
  lemma CollectNoRangeStep(zs: seq<Val>, j: nat, ts: seq<Val>, ts': seq<Val>, i: int, count: Option<int>, rev: bool)
    requires j < |zs| && ts == Arrange(zs[..j], rev) && count != Some(|ts|)
    requires ts' == if rev then [zs[j]] + ts else ts + [zs[j]]
    ensures ts' == Arrange(zs[..j + 1], rev)
    ensures Collect(zs[j..], ts, i, None, count, rev) == Collect(zs[j + 1..], ts', i, None, count, rev)
  {
    assert zs[j..][0] == zs[j] && zs[j..][1..] == zs[j + 1..];
    ArrangeNext(zs, j, ts, ts', rev);
  }

  /** Keeping the next value arranges one more of them. */
  lemma ArrangeNext(zs: seq<Val>, j: nat, ts: seq<Val>, ts': seq<Val>, rev: bool)
    requires j < |zs| && ts == Arrange(zs[..j], rev)
    requires ts' == if rev then [zs[j]] + ts else ts + [zs[j]]
    ensures ts' == Arrange(zs[..j + 1], rev)
  {
    ArrangeSnoc(zs[..j], zs[j], rev);
    assert zs[..j] + [zs[j]] == zs[..j + 1];
  }

  /** Where a range window `[lo, hi]` of `n` values ends when at most `count` are kept. */
  function RangeEnd(n: nat, lo: nat, hi: Option<int>, count: Option<int>): (b: int)
    ensures Min(lo, n) <= b <= n
  {
    var hb := if hi.Some? then hi.value else n;
    var cb := if count.Some? && count.value >= 0 then lo + count.value else n;
    Max(Min(lo, n), Min(n, Min(hb, cb)))
  }

  /** With a range `[lo, hi]` (`lo` set and non-negative), the traversal keeps the values
      at positions `lo` up to `hi` and up to `lo + count`. Positions before `j` are done;
      `ts` holds what they kept. */
  lemma {:induction false} CollectRange(zs: seq<Val>, j: nat, ts: seq<Val>, lo: nat, hi: Option<int>,
                                        count: Option<int>, rev: bool)
    requires j <= |zs|
    requires ts == if j <= lo then [] else Arrange(zs[lo..j], rev)
    requires j > lo ==> (hi.None? || j <= hi.value) && (count.None? || count.value < 0 || j - lo <= count.value)
    ensures Collect(zs[j..], ts, j, Some((Some(lo), hi)), count, rev) ==
      Arrange(zs[Min(lo, |zs|)..RangeEnd(|zs|, lo, hi, count)], rev)
    decreases |zs| - j
  {
    var range := Some((Some(lo), hi));
    if j == |zs| {
      CollectRangeDone(zs, j, ts, lo, hi, count, rev);
    } else if j < lo {
      CollectSkip(zs, j, ts, range, count, rev);
      CollectRange(zs, j + 1, ts, lo, hi, count, rev);
    } else if Above(j + 1, hi) || count == Some(|ts|) {
      CollectRangeStop(zs, j, ts, lo, hi, count, rev);
    } else {
      var ts2 := if rev then [zs[j]] + ts else ts + [zs[j]];
      CollectTake(zs, j, ts, range, count, rev);
      CollectRangeGrow(zs, j, ts, lo, hi, count, rev);
      CollectRange(zs, j + 1, ts2, lo, hi, count, rev);
    }
  }

  /** A value before the range start is passed over. */
  lemma CollectSkip(zs: seq<Val>, j: nat, ts: seq<Val>, range: Option<(Option<int>, Option<int>)>,
                    count: Option<int>, rev: bool)
    requires j < |zs| && range.Some? && Below(j, range.value.0)
    ensures Collect(zs[j..], ts, j, range, count, rev) == Collect(zs[j + 1..], ts, j + 1, range, count, rev)
  {
    assert zs[j..][1..] == zs[j + 1..];
  }

  /** A value inside the range, below its end and the count, is kept. */
  lemma CollectTake(zs: seq<Val>, j: nat, ts: seq<Val>, range: Option<(Option<int>, Option<int>)>,
                    count: Option<int>, rev: bool)
    requires j < |zs| && range.Some? && !Below(j, range.value.0)
    requires !Above(j + 1, range.value.1) && count != Some(|ts|)
    ensures Collect(zs[j..], ts, j, range, count, rev) ==
      Collect(zs[j + 1..], if rev then [zs[j]] + ts else ts + [zs[j]], j + 1, range, count, rev)
  {
    assert zs[j..][0] == zs[j] && zs[j..][1..] == zs[j + 1..];
  }

  /** Once every value is visited, what is kept is the window. */
  lemma CollectRangeDone(zs: seq<Val>, j: nat, ts: seq<Val>, lo: nat, hi: Option<int>,
                         count: Option<int>, rev: bool)
    requires j == |zs|
    requires ts == if j <= lo then [] else Arrange(zs[lo..j], rev)
    requires j > lo ==> (hi.None? || j <= hi.value) && (count.None? || count.value < 0 || j - lo <= count.value)
    ensures Collect(zs[j..], ts, j, Some((Some(lo), hi)), count, rev) ==
      Arrange(zs[Min(lo, |zs|)..RangeEnd(|zs|, lo, hi, count)], rev)
  {
    assert zs[j..] == [];
    if j <= lo {
      assert zs[Min(lo, |zs|)..RangeEnd(|zs|, lo, hi, count)] == [];
    } else {
      assert RangeEnd(|zs|, lo, hi, count) == j;
    }
  }

  /** Past the range end, or with `count` values kept, the traversal stops at the window. */
  lemma CollectRangeStop(zs: seq<Val>, j: nat, ts: seq<Val>, lo: nat, hi: Option<int>,
                         count: Option<int>, rev: bool)
    requires lo <= j < |zs|
    requires ts == if j <= lo then [] else Arrange(zs[lo..j], rev)
    requires j > lo ==> (hi.None? || j <= hi.value) && (count.None? || count.value < 0 || j - lo <= count.value)
    requires Above(j + 1, hi) || count == Some(|ts|)
    ensures Collect(zs[j..], ts, j, Some((Some(lo), hi)), count, rev) ==
      Arrange(zs[Min(lo, |zs|)..RangeEnd(|zs|, lo, hi, count)], rev)
  {
    assert zs[j..][0] == zs[j];
    assert Collect(zs[j..], ts, j, Some((Some(lo), hi)), count, rev) == ts;
    if j > lo {
      assert |ts| == j - lo;
    }
    assert RangeEnd(|zs|, lo, hi, count) == j;
    if j == lo {
      assert zs[lo..j] == [];
    }
  }

  /** Keeping the value at `j` extends the window kept so far. */
  lemma CollectRangeGrow(zs: seq<Val>, j: nat, ts: seq<Val>, lo: nat, hi: Option<int>,
                         count: Option<int>, rev: bool)
    requires lo <= j < |zs|
    requires ts == if j <= lo then [] else Arrange(zs[lo..j], rev)
    requires j > lo ==> (hi.None? || j <= hi.value) && (count.None? || count.value < 0 || j - lo <= count.value)
    requires !Above(j + 1, hi) && count != Some(|ts|)
    ensures (if rev then [zs[j]] + ts else ts + [zs[j]]) == Arrange(zs[lo..j + 1], rev)
    ensures (hi.None? || j + 1 <= hi.value) && (count.None? || count.value < 0 || j + 1 - lo <= count.value)
  {
    if j == lo {
      assert zs[lo..j + 1] == [zs[j]];
    } else {
      ArrangeSnoc(zs[lo..j], zs[j], rev);
      assert zs[lo..j] + [zs[j]] == zs[lo..j + 1];
      assert |ts| == j - lo;
    }
  }

  lemma ValuesOfReversed(es: seq<(Val, Val)>)
    ensures ValuesOf(Reversed(es)) == Reversed(ValuesOf(es))
  {
  }

  /** The traversal keeps exactly the window of the values that pass. */
  lemma CollectWindow(c: CompState, zs: seq<Val>)
    requires ExecShape(c)
    ensures Collect(zs, [], 0, c.range, EffCount(c), c.reverse) == Arrange(Window(c, zs), c.reverse)
  {
    var count := EffCount(c);
    assert zs[0..] == zs;
    if c.range.None? {
      assert zs[..0] == [];
      CollectNoRange(zs, 0, [], 0, count, c.reverse);
    } else {
      CollectRange(zs, 0, [], c.range.value.0.value, c.range.value.1, count, c.reverse);
      WindowRange(c, zs);
    }
  }

  /** With a range, the window runs from the range start to `RangeEnd`. */
  lemma WindowRange(c: CompState, zs: seq<Val>)
    requires ExecShape(c) && c.range.Some?
    ensures var lo := c.range.value.0.value;
      Window(c, zs) == zs[Min(lo, |zs|)..RangeEnd(|zs|, lo, c.range.value.1, EffCount(c))]
  {
    var lo := c.range.value.0.value;
    var hi := c.range.value.1;
    var e := RangeStop(|zs|, lo, hi);
    var ws := JsSlice(zs, lo, hi);
    RangeSlice(zs, lo, hi);
    if c.count.Some? {
      var k := c.count.value;
      assert EffCount(c) == Some(k);
      assert Window(c, zs) == JsSlice(ws, 0, c.count);
      assert JsSlice(ws, 0, c.count) == ws[..Min(k, |ws|)];
      assert RangeEnd(|zs|, lo, hi, Some(k)) == Min(lo, |zs|) + Min(k, e - Min(lo, |zs|));
    } else {
      assert Window(c, zs) == ws;
      assert RangeEnd(|zs|, lo, hi, EffCount(c)) == e;
    }
  }

  /** Where the range `[lo, hi]` of `n` values ends. */
  function RangeStop(n: nat, lo: nat, hi: Option<int>): (e: int)
    ensures Min(lo, n) <= e <= n
  {
    Max(Min(lo, n), if hi.None? then n else Min(hi.value, n))
  }

  /** `slice(lo, hi)` with a non-negative start and end keeps the positions from `lo` to
      `hi`, within the sequence. */
  lemma RangeSlice(zs: seq<Val>, lo: nat, hi: Option<int>)
    requires hi.Some? ==> hi.value >= 0
    ensures JsSlice(zs, lo, hi) == zs[Min(lo, |zs|)..RangeStop(|zs|, lo, hi)]
  {
  }

  /** The targets of a traversal: the traversal order's values through the goal
      settings, then the window, unshifted when the `reverse` flag is set. */
  lemma TraversalTargets(c: CompState, v: Val)
    requires ExecShape(c) && IsArrayLike(v)
    ensures Fold(Order(v, c.forEachRight), XS([], 0, 0), ExecStep(c.goals, c.range, c.reverse, EffCount(c))).targets ==
      Arrange(Denote(c, ToArray(v)), c.reverse)
  {
    var xs := ToArray(v);
    TraversalCollect(c, v);
    CollectWindow(c, Survivors(c.goals, if c.forEachRight then Reversed(xs) else xs));
  }

  /** For any record with key-free goals, the targets are what `Collect` keeps of the
      traversal order's values that pass the goal settings. */
  lemma TraversalCollect(c: CompState, v: Val)
    requires GoalsKeyFree(c.goals) && IsArrayLike(v)
    ensures var xs := ToArray(v);
      Fold(Order(v, c.forEachRight), XS([], 0, 0), ExecStep(c.goals, c.range, c.reverse, EffCount(c))).targets ==
      Collect(Survivors(c.goals, if c.forEachRight then Reversed(xs) else xs), [], 0, c.range, EffCount(c), c.reverse)
  {
    var xs := ToArray(v);
    var es := Order(v, c.forEachRight);
    ToArrayIsValues(v);
    if c.forEachRight {
      ValuesOfReversed(Entries(v));
    }
    assert ValuesOf(es) == if c.forEachRight then Reversed(xs) else xs;
    CollectFold(es, XS([], 0, 0), c.goals, c.range, EffCount(c), c.reverse);
  }

  /** What a traversal returns: its single target under `returnEl`, else its targets. */
  lemma ExecTargets(c: CompState, v: Val)
    requires ExecShape(c) && IsArrayLike(v)
    ensures var ts := Arrange(Denote(c, ToArray(v)), c.reverse);
      ExecSpec(c, v).0 == if |ts| == 1 && c.returnEl then ts[0] else Arr(ts)
  {
    TraversalTargets(c, v);
  }

  /** Executing a record in the fusible shape on an array-like value gives what the
      record stands for. */
  lemma ExecDenote(c: CompState, v: Val)
    requires Fusing(c) && IsArrayLike(v)
    ensures ExecSpec(c, v).0 == Arr(Denote(c, ToArray(v)))
  {
    ExecTargets(c, v);
  }

  /** Every record in the fusible shape reaches the last link without executing, and
      the last link returns what the record executes to. */
  lemma {:induction false} RunSafe(r: Run, c: CompState, ops: seq<Op>)
    requires r.comp == Some(c) && Fusing(c) && SafeRun(c, ops) && ops != []
    ensures var x := ExecSpec(BuildAll(c, ops), r.acc);
      RunFrom(r, ops) == Run(x.0, None, r.taps, r.calls + x.1)
    decreases |ops|
  {
    var c2 := BuildStep(c, ops[0]).comp;
    if |ops| == 1 {
      LinkEnds(r, c, ops[0]);
      assert ops[1..] == [] && BuildAll(c, ops) == c2;
    } else {
      LinkBuilds(r, c, ops[0]);
      RunSafe(Run(r.acc, Some(c2), r.taps, r.calls), c2, ops[1..]);
    }
  }

  /** A fusible link that is not the last one only builds the record. */
  lemma LinkBuilds(r: Run, c: CompState, op: Op)
    requires r.comp == Some(c) && Fusing(c) && SafeOp(c, op)
    ensures BuildStep(c, op).code == 0 && Fusing(BuildStep(c, op).comp)
    ensures Link(r, op, false) == Run(r.acc, Some(BuildStep(c, op).comp), r.taps, r.calls)
  {
    StepDenote(c, op, []);
  }

  /** The last link of a fusible run executes the record and closes it. */
  lemma LinkEnds(r: Run, c: CompState, op: Op)
    requires r.comp == Some(c) && Fusing(c) && SafeOp(c, op)
    ensures var x := ExecSpec(BuildStep(c, op).comp, r.acc);
      Link(r, op, true) == Run(x.0, None, r.taps, r.calls + x.1)
  {
    StepDenote(c, op, []);
    var x := ExecSpec(BuildStep(c, op).comp, r.acc);
    assert x.0.Arr?;
  }

  /** `Call` reads an array-like value only through its entries and `toArray`, so it
      cannot tell the value from its `toArray` copy. */
  lemma CallArrayLike(op: Op, v: Val)
    requires IsArrayLike(v)
    requires !(op.TapOp? || op.SplitOp? || op.RangeOp? || op.Other?)
    ensures Call(op, v) == Call(op, Arr(ToArray(v)))
  {
    assert Entries(v) == Entries(Arr(ToArray(v)));
  }

  /** A fusible run, executed, gives what running its links eagerly gives. */
  lemma ExecIsEager(v: Val, ops: seq<Op>)
    requires IsArrayLike(v) && SafeRun(Fresh, ops) && ops != []
    ensures ExecSpec(BuildAll(Fresh, ops), v).0 == Eager(v, ops).value
  {
    var xs := ToArray(v);
    FreshFusing();
    RunDenote(Fresh, ops, xs);
    ExecDenote(BuildAll(Fresh, ops), v);
    SurvivorsNoGoals(xs);
    assert Denote(Fresh, xs) == xs;
    assert SafeOp(Fresh, ops[0]);
    CallArrayLike(ops[0], v);
    assert Eager(v, ops).value == Eager(Arr(xs), ops).value;
  }

  /** SHORTCUT FUSION IS SOUND on the fusible fragment: for an array-like wrapped value,
      `value()` of a chain of key-free `map`/`filter`/`reverse` links, then at most one
      `slice` with non-negative bounds or `tail`, then `take`s with positive counts,
      returns what running every link eagerly returns. */
  lemma FusedIsEager(v: Val, ops: seq<Op>)
    requires IsArrayLike(v) && SafeRun(Fresh, ops)
    ensures ValueSpec(v, ops).value == Eager(v, ops).value
  {
    if ops != [] {
      FreshFusing();
      assert Start(v).comp == Some(Fresh);
      RunSafe(Start(v), Fresh, ops);
      ExecIsEager(v, ops);
    }
  }

  /** The accumulator and the open record after a reduce do not depend on the
      interceptor and iteratee calls logged before it. */
  lemma {:induction false} RunFromAccOnly(r1: Run, r2: Run, ops: seq<Op>)
    requires r1.acc == r2.acc && r1.comp == r2.comp
    ensures RunFrom(r1, ops).acc == RunFrom(r2, ops).acc
    decreases |ops|
  {
    if ops != [] {
      RunFromAccOnly(Link(r1, ops[0], |ops| == 1), Link(r2, ops[0], |ops| == 1), ops[1..]);
    }
  }

  /** Links of a fusible run that are not the last of the chain only build the record. */
  lemma {:induction false} RunSafePrefix(r: Run, c: CompState, ops: seq<Op>, more: seq<Op>)
    requires r.comp == Some(c) && Fusing(c) && SafeRun(c, ops) && more != []
    ensures RunFrom(r, ops + more) == RunFrom(Run(r.acc, Some(BuildAll(c, ops)), r.taps, r.calls), more)
    decreases |ops|
  {
    if ops == [] {
      assert ops + more == more;
    } else {
      var c2 := BuildStep(c, ops[0]).comp;
      assert (ops + more)[0] == ops[0] && (ops + more)[1..] == ops[1..] + more;
      LinkBuilds(r, c, ops[0]);
      RunSafePrefix(Run(r.acc, Some(c2), r.taps, r.calls), c2, ops[1..], more);
    }
  }

  /** A link that closes a fusible run with code 2 starts the rest of the chain afresh on
      the run's result: the chain behaves as `_(eager result of the run)` followed by
      that link and the rest. */
  lemma ReopenAfterClose(v: Val, run: seq<Op>, op: Op, rest: seq<Op>)
    requires IsArrayLike(v) && SafeRun(Fresh, run) && rest != []
    requires BuildStep(BuildAll(Fresh, run), op).code == 2
    ensures ValueSpec(v, run + [op] + rest).value == ValueSpec(Eager(v, run).value, [op] + rest).value
  {
    var c1 := BuildAll(Fresh, run);
    FreshFusing();
    RunDenote(Fresh, run, []);
    ExecIsEager(v, run);
    var rs := Eager(v, run).value;
    var r1 := Run(v, Some(c1), [], 0);
    ReopenPrefix(v, run, op, rest);
    assert ExecSpec(c1, v).0 == rs && rs.Arr?;
    LinkCloses(r1, op);
    LinkOpens(rs, op);
    RunFromCons(Start(rs), op, rest);
    RunFromAccOnly(Link(r1, op, false), Link(Start(rs), op, false), rest);
  }

  /** The run's links only build the record, and the closing link comes next. */
  lemma ReopenPrefix(v: Val, run: seq<Op>, op: Op, rest: seq<Op>)
    requires IsArrayLike(v) && SafeRun(Fresh, run) && rest != []
    ensures ValueSpec(v, run + [op] + rest).value ==
      RunFrom(Link(Run(v, Some(BuildAll(Fresh, run)), [], 0), op, false), rest).acc
  {
    FreshFusing();
    assert run + [op] + rest == run + ([op] + rest);
    RunSafePrefix(Start(v), Fresh, run, [op] + rest);
    RunFromCons(Run(v, Some(BuildAll(Fresh, run)), [], 0), op, rest);
  }

  /** A link followed by more links is not the last one. */
  lemma RunFromCons(r: Run, op: Op, rest: seq<Op>)
    requires rest != []
    ensures RunFrom(r, [op] + rest) == RunFrom(Link(r, op, false), rest)
  {
    assert ([op] + rest)[0] == op && ([op] + rest)[1..] == rest;
  }

  /** A link that closes a record (build code 2) runs it and opens a fresh one with the
      link built in. */
  lemma LinkCloses(r: Run, op: Op)
    requires r.comp.Some? && BuildStep(r.comp.value, op).code == 2
    requires Truthy(ExecSpec(r.comp.value, r.acc).0)
    ensures Link(r, op, false).acc == ExecSpec(r.comp.value, r.acc).0
    ensures Link(r, op, false).comp == Some(BuildStep(Fresh, op).comp)
  {
  }

  /** On a fresh record a link that can close one only builds itself in. */
  lemma LinkOpens(v: Val, op: Op)
    requires IsArrayLike(v) && (op.MapOp? || op.FilterOp? || op.SliceOp? || op.TailOp?)
    ensures Link(Start(v), op, false).acc == v
    ensures Link(Start(v), op, false).comp == Some(BuildStep(Fresh, op).comp)
  {
    assert BuildStep(Fresh, op).code == 0;
  }

  /** A value that is not array-like opens no record, so until a `split`, `toArray` or
      `range` link every link runs eagerly: with none of them, `value()` is the eager
      chain, interceptor calls and iteratee calls included. */
  lemma {:induction false} NotArrayLikeIsEager(v: Val, ops: seq<Op>)
    requires !IsArrayLike(v)
    requires forall i :: 0 <= i < |ops| ==> !Opener(ops[i])
    ensures ValueSpec(v, ops) == Eager(v, ops)
  {
    NoRecordIsEager(Start(v), ops);
  }

  lemma {:induction false} NoRecordIsEager(r: Run, ops: seq<Op>)
    requires r.comp.None?
    requires forall i :: 0 <= i < |ops| ==> !Opener(ops[i])
    ensures var e := Eager(r.acc, ops); var q := RunFrom(r, ops);
      q.acc == e.value && q.taps == r.taps + e.taps && q.calls == r.calls + e.calls
    decreases |ops|
  {
    if ops == [] {
      assert r.taps + [] == r.taps;
    } else {
      var e1 := Call(ops[0], r.acc);
      var r2 := Link(r, ops[0], |ops| == 1);
      assert !Opener(ops[0]);
      assert r2 == Run(e1.value, None, r.taps + e1.taps, r.calls + e1.calls);
      NoRecordIsEager(r2, ops[1..]);
      var e := Eager(e1.value, ops[1..]);
      assert r.taps + e1.taps + e.taps == r.taps + (e1.taps + e.taps);
    }
  }

  /** A record that has taken a link keeps taking `take` links: `take` never closes it,
      and the count only shrinks. */
  lemma TakeNeverCloses(c: CompState, n: Option<int>)
    ensures BuildStep(c, TakeOp(n)).code == 0
    ensures var c2 := BuildStep(c, TakeOp(n)).comp;
      (c.count.Some? && n.Some? ==> c2.count == Some(Min(c.count.value, n.value))) &&
      (c.count.Some? && n.None? ==> c2.count == c.count) &&
      (c.count.None? ==> c2.count == n)
  {
  }

  /** After a link the record does not know (code 1) there is no record: later links run
      eagerly until a `split`, `toArray` or `range` link opens a new one. */
  lemma CloseThenEager(r: Run, op: Op, isLast: bool, next: Op, isLast2: bool)
    requires r.comp.Some? && BuildStep(r.comp.value, op).code == 1
    requires !Opener(next)
    ensures Link(r, op, isLast).comp.None?
    ensures var r2 := Link(r, op, isLast);
      Link(r2, next, isLast2) == Run(Call(next, r2.acc).value, None, r2.taps + Call(next, r2.acc).taps,
                                     r2.calls + Call(next, r2.acc).calls)
  {
  }

  /** `value()` of an empty chain is the wrapped value itself. */
  lemma EmptyChain(v: Val)
    ensures ValueSpec(v, []) == Effect(v, [], 0)
  {
  }

  /** `value()` of a one-link chain on an array-like value: the record is run and its
      result kept when truthy, after the link itself when the record does not know it. */
  lemma OneLink(v: Val, a: Op)
    requires IsArrayLike(v)
    ensures var b := BuildStep(Fresh, a);
      var x := ExecSpec(b.comp, v).0;
      ValueSpec(v, [a]).value == if !Truthy(x) then v else if b.code == 1 then Call(a, x).value else x
  {
    var r := Link(Start(v), a, true);
    assert [a][1..] == [];
    assert RunFrom(Start(v), [a]) == RunFrom(r, []) == r;
  }

  /** `value()` of a two-link chain whose first link is built in and whose second the
      record knows: the record is run once, at the second link, and only its own
      interceptor fires. */
  lemma TwoLinks(v: Val, a: Op, b: Op)
    requires IsArrayLike(v) && BuildStep(Fresh, a).code == 0
    requires BuildStep(BuildStep(Fresh, a).comp, b).code != 1
    ensures var c := BuildStep(BuildStep(Fresh, a).comp, b).comp;
      var x := ExecSpec(c, v);
      ValueSpec(v, [a, b]) ==
        Effect(if Truthy(x.0) then x.0 else v, if c.tap.Some? then [(c.tap.value, x.0)] else [], x.1)
  {
    var c1 := BuildStep(Fresh, a).comp;
    var r1 := Link(Start(v), a, false);
    assert r1 == Run(v, Some(c1), [], 0);
    assert [a, b][1..] == [b] && [b][1..] == [];
    assert RunFrom(Start(v), [a, b]) == RunFrom(r1, [b]) == Link(r1, b, true);
  }
}
