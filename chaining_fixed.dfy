/**
 * The lazy chain of src/chaining.ts as its documentation says it behaves: `value()`
 * returns what running every link eagerly returns. The planner in module Chaining
 * departs from that on the inputs the lemmas at the end of this module exhibit; the
 * planner here is the same record, builder and traversal with those departures
 * corrected, and `FixedIsEager` proves it agrees with the eager chain on every chain of
 * key-free callbacks without interceptors.
 */
module ChainingFixed {
  import opened JsValues
  import opened Is
  import opened Utils
  import opened Coll
  import opened Arrays
  import opened Chaining

  /** A record that already has a range or a count. */
  predicate Bounded(c: CompState) {
    c.range.Some? || c.count.Some?
  }

  /** `buildComprehension` corrected: a link that has to apply after the record's range
      or count closes the record (code 2) or runs eagerly on its result (code 1); a
      `slice` or `take` whose arguments the traversal does not express, and a `take`
      after `first`/`last`, run eagerly; `last` flips the traversal direction instead of
      setting it. */
  function BuildFixed(c: CompState, op: Op): (b: Built)
    ensures b.code == 0 || b.code == 1 || b.code == 2
    ensures b.code != 0 ==> b.comp == c
    ensures b.code == 2 ==> Bounded(c) && (op.MapOp? || op.FilterOp? || op.ReverseOp? || op.SliceOp? || op.TailOp?)
    ensures b.code == 0 && !op.LastOp? ==> b == BuildStep(c, op)
  {
    match op
    case MapOp(_) => if Bounded(c) then Built(c, 2) else BuildStep(c, op)
    case FilterOp(_) => if Bounded(c) then Built(c, 2) else BuildStep(c, op)
    case ReverseOp => if Bounded(c) then Built(c, 2) else BuildStep(c, op)
    case SliceOp(b, e) =>
      if b.None? || b.value < 0 || (e.Some? && e.value < 0) then Built(c, 1)
      else if Bounded(c) then Built(c, 2)
      else BuildStep(c, op)
    case TailOp => if Bounded(c) then Built(c, 2) else BuildStep(c, op)
    case TakeOp(n) => if n.None? || n.value < 1 || c.returnEl then Built(c, 1) else BuildStep(c, op)
    case FirstOp => if Bounded(c) then Built(c, 1) else BuildStep(c, op)
    case LastOp =>
      if Bounded(c) then Built(c, 1)
      else Built(c.(count := Some(1), returnEl := true, forEachRight := !c.forEachRight), 0)
    case TapOp(_) => BuildStep(c, op)
    case _ => Built(c, 1)
  }

  /** `execComprehension` corrected: with `returnEl` the single target, undefined when
      nothing passed. */
  function ExecFixed(c: CompState, coll: Val): (Val, nat) {
    var s := Fold(Order(coll, c.forEachRight), XS([], 0, 0), ExecStep(c.goals, c.range, c.reverse, EffCount(c)));
    (if c.returnEl then (if s.targets == [] then Undef else s.targets[0]) else Arr(s.targets), s.calls)
  }

  /** Running a record on the accumulated value and dropping it. */
  function Close(c: CompState, r: Run): Run {
    var x := ExecFixed(c, r.acc);
    Run(x.0, None, if c.tap.Some? then r.taps + [(c.tap.value, x.0)] else r.taps, r.calls + x.1)
  }

  /** A link run eagerly; `split`, `toArray` and `range` open a record on an array. */
  function Apply(r: Run, op: Op): Run {
    var e := Call(op, r.acc);
    Run(e.value, if Opener(op) && e.value.Arr? then Some(Fresh) else None, r.taps + e.taps, r.calls + e.calls)
  }

  /** One step of `value()`'s reduce, corrected: a record is run when it is closed and at
      the last link whatever the code, the record a closing link opens is run when that
      link is the last, the result is kept whether or not it is truthy, and records are
      opened on arrays only. */
  function LinkFixed(r: Run, op: Op, isLast: bool): Run {
    if r.comp.None? then Apply(r, op)
    else
      var b := BuildFixed(r.comp.value, op);
      if b.code == 0 then
        if isLast then Close(b.comp, r) else r.(comp := Some(b.comp))
      else
        var done := Close(b.comp, r);
        if b.code == 1 || !done.acc.Arr? then Apply(done, op)
        else
          var c2 := BuildFixed(Fresh, op).comp;
          if isLast then Close(c2, done) else done.(comp := Some(c2))
  }

  function RunFixed(r: Run, ops: seq<Op>): Run
    decreases |ops|
  {
    if ops == [] then r else RunFixed(LinkFixed(r, ops[0], |ops| == 1), ops[1..])
  }

  function StartFixed(v: Val): Run {
    Run(v, if v.Arr? then Some(Fresh) else None, [], 0)
  }

  /** What the corrected `value()` returns, with its interceptor and iteratee calls. */
  function ValueFixed(v: Val, ops: seq<Op>): Effect {
    var r := RunFixed(StartFixed(v), ops);
    Effect(r.acc, r.taps, r.calls)
  }

  // ---------------------------------------------------------------------------
  // The corrected planner agrees with the eager chain

  /** The links the agreement covers: every link but `tap`, with key-free callbacks. */
  ghost predicate Plain(op: Op) {
    match op
    case MapOp(p) => KeyFree(Iteratee(p))
    case FilterOp(p) => KeyFree(Iteratee(p))
    case TapOp(_) => false
    case _ => true
  }

  /** The records the corrected builder makes from plain links. */
  ghost predicate FixedShape(c: CompState) {
    ExecShape(c) && !c.reverse && c.tap.None? &&
    (c.returnEl ==> c.count == Some(1) && c.range.None?)
  }

  function Head(ws: seq<Val>): Val {
    if ws == [] then Undef else ws[0]
  }

  /** What a record in that shape stands for on the values `xs`. */
  function DenoteFixed(c: CompState, xs: seq<Val>): Val {
    if c.returnEl then Head(Denote(c, xs)) else Arr(Denote(c, xs))
  }

  /** The run so far agrees with the eager value `e`: with no record its value is `e`,
      with one the record stands for `e` on the array it holds. */
  ghost predicate Agrees(r: Run, e: Val) {
    if r.comp.None? then r.acc == e
    else r.acc.Arr? && FixedShape(r.comp.value) && DenoteFixed(r.comp.value, r.acc.items) == e
  }

  lemma ExecFixedDenote(c: CompState, ws: seq<Val>)
    requires FixedShape(c)
    ensures ExecFixed(c, Arr(ws)).0 == DenoteFixed(c, ws)
  {
    TraversalTargets(c, Arr(ws));
  }

  /** A plain link the corrected builder builds in changes the record so that it stands
      for the link's result. */
  lemma BuildFixedDenote(c: CompState, op: Op, xs: seq<Val>)
    requires FixedShape(c) && Plain(op) && BuildFixed(c, op).code == 0
    ensures FixedShape(BuildFixed(c, op).comp)
    ensures Call(op, DenoteFixed(c, xs)).value == DenoteFixed(BuildFixed(c, op).comp, xs)
  {
    if op.FirstOp? {
      BuildFixedFirst(c, xs);
    } else if op.LastOp? {
      BuildFixedLast(c, xs);
    } else {
      BuildFixedOther(c, op, xs);
    }
  }

  lemma BuildFixedFirst(c: CompState, xs: seq<Val>)
    requires FixedShape(c) && BuildFixed(c, FirstOp).code == 0
    ensures FixedShape(BuildFixed(c, FirstOp).comp)
    ensures Call(FirstOp, DenoteFixed(c, xs)).value == DenoteFixed(BuildFixed(c, FirstOp).comp, xs)
  {
    assert !c.returnEl;
    var vs := if c.forEachRight then Reversed(xs) else xs;
    var w := Survivors(c.goals, vs);
    assert Denote(c, xs) == w;
    assert Denote(BuildFixed(c, FirstOp).comp, xs) == JsSlice(w, 0, Some(1));
  }

  lemma BuildFixedLast(c: CompState, xs: seq<Val>)
    requires FixedShape(c) && BuildFixed(c, LastOp).code == 0
    ensures FixedShape(BuildFixed(c, LastOp).comp)
    ensures Call(LastOp, DenoteFixed(c, xs)).value == DenoteFixed(BuildFixed(c, LastOp).comp, xs)
  {
    var vs := if c.forEachRight then Reversed(xs) else xs;
    var w := Survivors(c.goals, vs);
    var c2 := BuildFixed(c, LastOp).comp;
    assert c2 == c.(count := Some(1), returnEl := true, forEachRight := !c.forEachRight);
    assert DenoteFixed(c, xs) == Arr(w);
    var vs2 := if c2.forEachRight then Reversed(xs) else xs;
    if c.forEachRight {
      ReversedTwice(xs);
    }
    assert vs2 == Reversed(vs);
    SurvivorsReversed(c.goals, vs);
    assert Denote(c2, xs) == JsSlice(Reversed(w), 0, Some(1));
    HeadOfReversed(w);
  }

  /** The first of the values reversed is the last of them. */
  lemma HeadOfReversed(w: seq<Val>)
    ensures Head(JsSlice(Reversed(w), 0, Some(1))) == Last(Arr(w))
  {
    if w != [] {
      assert Reversed(w)[0] == w[|w| - 1];
    }
  }

  lemma BuildFixedOther(c: CompState, op: Op, xs: seq<Val>)
    requires FixedShape(c) && Plain(op) && BuildFixed(c, op).code == 0
    requires !op.FirstOp? && !op.LastOp?
    ensures FixedShape(BuildFixed(c, op).comp)
    ensures Call(op, DenoteFixed(c, xs)).value == DenoteFixed(BuildFixed(c, op).comp, xs)
  {
    assert !c.returnEl;
    assert BuildFixed(c, op) == BuildStep(c, op);
    assert SafeOp(c, op);
    StepDenote(c, op, xs);
  }

  /** A fresh record stands for the array it is opened on. */
  lemma FreshStandsForItself(ws: seq<Val>)
    ensures FixedShape(Fresh) && DenoteFixed(Fresh, ws) == Arr(ws)
  {
    SurvivorsNoGoals(ws);
  }

  /** A plain link keeps the run in agreement with the eager chain, and the last link
      returns the eager value. */
  lemma LinkFixedAgrees(r: Run, e: Val, op: Op, isLast: bool)
    requires Agrees(r, e) && Plain(op)
    ensures isLast ==> LinkFixed(r, op, isLast).acc == Call(op, e).value
    ensures !isLast ==> Agrees(LinkFixed(r, op, isLast), Call(op, e).value)
  {
    if Call(op, e).value.Arr? {
      FreshStandsForItself(Call(op, e).value.items);
    }
    if r.comp.Some? {
      if BuildFixed(r.comp.value, op).code == 0 {
        LinkBuiltAgrees(r, e, op, isLast);
      } else {
        LinkClosedAgrees(r, e, op, isLast);
      }
    }
  }

  /** A link built into the record. */
  lemma LinkBuiltAgrees(r: Run, e: Val, op: Op, isLast: bool)
    requires Agrees(r, e) && Plain(op) && r.comp.Some? && BuildFixed(r.comp.value, op).code == 0
    ensures isLast ==> LinkFixed(r, op, isLast).acc == Call(op, e).value
    ensures !isLast ==> Agrees(LinkFixed(r, op, isLast), Call(op, e).value)
  {
    var b := BuildFixed(r.comp.value, op);
    BuildFixedDenote(r.comp.value, op, r.acc.items);
    if isLast {
      ExecFixedDenote(b.comp, r.acc.items);
    }
  }

  /** A link that closes the record: the record's result is the eager value so far. */
  lemma LinkClosedAgrees(r: Run, e: Val, op: Op, isLast: bool)
    requires Agrees(r, e) && Plain(op) && r.comp.Some? && BuildFixed(r.comp.value, op).code != 0
    ensures isLast ==> LinkFixed(r, op, isLast).acc == Call(op, e).value
    ensures !isLast ==> Agrees(LinkFixed(r, op, isLast), Call(op, e).value)
  {
    var b := BuildFixed(r.comp.value, op);
    var done := Close(b.comp, r);
    CloseGivesEager(r, e, op);
    if b.code == 1 || !done.acc.Arr? {
      assert LinkFixed(r, op, isLast) == Apply(done, op);
      ApplyAgrees(done, op);
    } else {
      ReopenAgrees(done, op, isLast);
    }
  }

  /** Closing the record leaves no record and the eager value so far. */
  lemma CloseGivesEager(r: Run, e: Val, op: Op)
    requires Agrees(r, e) && r.comp.Some? && BuildFixed(r.comp.value, op).code != 0
    ensures var done := Close(BuildFixed(r.comp.value, op).comp, r);
      done.acc == e && done.comp.None?
  {
    ExecFixedDenote(r.comp.value, r.acc.items);
  }

  /** A link run eagerly with no record open agrees with the eager chain. */
  lemma ApplyAgrees(done: Run, op: Op)
    requires done.comp.None?
    ensures Apply(done, op).acc == Call(op, done.acc).value
    ensures Agrees(Apply(done, op), Call(op, done.acc).value)
  {
    var v := Call(op, done.acc).value;
    if v.Arr? {
      FreshStandsForItself(v.items);
    }
  }

  /** The record a closing link opens on an array stands for the link's result. */
  lemma ReopenAgrees(done: Run, op: Op, isLast: bool)
    requires done.acc.Arr? && Plain(op)
    requires op.MapOp? || op.FilterOp? || op.ReverseOp? || op.TailOp? ||
             (op.SliceOp? && op.begin.Some? && op.begin.value >= 0 && (op.end.Some? ==> op.end.value >= 0))
    ensures var c2 := BuildFixed(Fresh, op).comp;
      FixedShape(c2) && DenoteFixed(c2, done.acc.items) == Call(op, done.acc).value &&
      ExecFixed(c2, done.acc).0 == Call(op, done.acc).value
  {
    var e := done.acc;
    var c2 := BuildFixed(Fresh, op).comp;
    assert BuildFixed(Fresh, op) == BuildStep(Fresh, op);
    FreshFusing();
    assert SafeOp(Fresh, op);
    StepDenote(Fresh, op, e.items);
    SurvivorsNoGoals(e.items);
    assert Denote(Fresh, e.items) == e.items;
    assert Arr(e.items) == e;
    ExecFixedDenote(c2, e.items);
  }

  lemma {:induction false} RunFixedAgrees(r: Run, e: Val, ops: seq<Op>)
    requires Agrees(r, e) && ops != []
    requires forall i :: 0 <= i < |ops| ==> Plain(ops[i])
    ensures RunFixed(r, ops).acc == Eager(e, ops).value
    decreases |ops|
  {
    var e1 := Call(ops[0], e).value;
    LinkFixedAgrees(r, e, ops[0], |ops| == 1);
    if |ops| > 1 {
      RunFixedAgrees(LinkFixed(r, ops[0], false), e1, ops[1..]);
    }
  }

  /** THE CORRECTED CHAIN IS THE EAGER CHAIN: for every wrapped value and every chain of
      links with key-free callbacks and no `tap`, the corrected `value()` returns what
      running every link in turn returns. */
  lemma FixedIsEager(v: Val, ops: seq<Op>)
    requires forall i :: 0 <= i < |ops| ==> Plain(ops[i])
    ensures ValueFixed(v, ops).value == Eager(v, ops).value
  {
    if ops != [] {
      if v.Arr? {
        SurvivorsNoGoals(v.items);
        assert Denote(Fresh, v.items) == v.items;
      }
      RunFixedAgrees(StartFixed(v), v, ops);
    }
  }

  // ---------------------------------------------------------------------------
  // Where the planner as written departs from the eager chain

  /** `reverse` after `take(n)` flips the traversal, so the chain keeps the LAST `n`
      elements in reverse order, not the first `n` reversed. */
  lemma TakeThenReverse(xs: seq<Val>, n: int)
    requires n >= 1
    ensures ValueSpec(Arr(xs), [TakeOp(Some(n)), ReverseOp]).value == Arr(JsSlice(Reversed(xs), 0, Some(n)))
  {
    var c := Fresh.(count := Some(n), forEachRight := true);
    assert BuildStep(BuildStep(Fresh, TakeOp(Some(n))).comp, ReverseOp).comp == c;
    TwoLinks(Arr(xs), TakeOp(Some(n)), ReverseOp);
    ExecTargets(c, Arr(xs));
    SurvivorsNoGoals(Reversed(xs));
    var d := Denote(c, xs);
    assert d == JsSlice(Reversed(xs), 0, Some(n));
    assert ToArray(Arr(xs)) == xs && Arrange(d, false) == d;
    assert ExecSpec(c, Arr(xs)).0 == Arr(d);
  }

  /** `slice(b)` after `take(n)` applies the range first: the chain keeps `n` elements
      starting at `b`, not the elements of the first `n` from `b` on. */
  lemma TakeThenSlice(xs: seq<Val>, n: int, b: int)
    requires n >= 1 && 0 <= b < |xs|
    ensures ValueSpec(Arr(xs), [TakeOp(Some(n)), SliceOp(Some(b), None)]).value == Arr(JsSlice(xs[b..], 0, Some(n)))
  {
    var c := Fresh.(count := Some(n), range := Some((Some(b), None)));
    assert BuildStep(BuildStep(Fresh, TakeOp(Some(n))).comp, SliceOp(Some(b), None)).comp == c;
    TwoLinks(Arr(xs), TakeOp(Some(n)), SliceOp(Some(b), None));
    ExecTargets(c, Arr(xs));
    SurvivorsNoGoals(xs);
    assert JsSlice(xs, b, None) == xs[b..];
    assert Denote(c, xs) == JsSlice(xs[b..], 0, Some(n));
  }

  /** A traversal whose range has a start at or below the first position and no end
      keeps every value. */
  lemma {:induction false} CollectUnbounded(zs: seq<Val>, ts: seq<Val>, i: int, lo: int)
    requires lo <= i
    ensures Chaining.Collect(zs, ts, i, Some((Some(lo), None)), None, false) == ts + zs
    decreases |zs|
  {
    if zs == [] {
      assert ts + zs == ts;
    } else {
      CollectUnbounded(zs[1..], ts + [zs[0]], i + 1, lo);
      assert ts + [zs[0]] + zs[1..] == ts + zs;
    }
  }

  /** `slice(b)` with a negative `b` compares positions with `b` itself: the chain keeps
      every element, where `slice(b)` keeps the last `-b`. */
  lemma SliceNegative(xs: seq<Val>, b: int)
    requires b < 0 && xs != []
    ensures ValueSpec(Arr(xs), [SliceOp(Some(b), None)]).value == Arr(xs)
  {
    var a := SliceOp(Some(b), None);
    var c := Fresh.(range := Some((Some(b), None)));
    assert BuildStep(Fresh, a) == Built(c, 0);
    OneLink(Arr(xs), a);
    TraversalCollect(c, Arr(xs));
    SurvivorsNoGoals(xs);
    CollectUnbounded(xs, [], 0, b);
    assert [] + xs == xs;
    ExecSpecOf(c, Arr(xs), Fold(Order(Arr(xs), false), XS([], 0, 0), ExecStep(c.goals, c.range, c.reverse, EffCount(c))));
    assert ExecSpec(c, Arr(xs)).0 == Arr(xs);
  }

  /** `last` after `reverse` sets the traversal to run from the right instead of flipping
      it: the chain gives the original array's last element, not its first. */
  lemma ReverseThenLast(xs: seq<Val>)
    requires xs != [] && Truthy(xs[|xs| - 1])
    ensures ValueSpec(Arr(xs), [ReverseOp, LastOp]).value == xs[|xs| - 1]
  {
    var c := Fresh.(forEachRight := true, count := Some(1), returnEl := true);
    ReverseLastRecord(c);
    TwoLinks(Arr(xs), ReverseOp, LastOp);
    ExecTargets(c, Arr(xs));
    ReverseLastTargets(c, xs);
  }

  /** `reverse` then `last` builds a single right-to-left record with count 1 that
      returns the element. */
  lemma ReverseLastRecord(c: CompState)
    requires c == Fresh.(forEachRight := true, count := Some(1), returnEl := true)
    ensures BuildStep(Fresh, ReverseOp).code == 0
    ensures BuildStep(BuildStep(Fresh, ReverseOp).comp, LastOp).code != 1
    ensures BuildStep(BuildStep(Fresh, ReverseOp).comp, LastOp).comp == c
    ensures ExecShape(c)
  {
  }

  lemma ReverseLastTargets(c: CompState, xs: seq<Val>)
    requires c == Fresh.(forEachRight := true, count := Some(1), returnEl := true)
    requires xs != []
    ensures Arrange(Denote(c, ToArray(Arr(xs))), c.reverse) == [xs[|xs| - 1]]
  {
    assert JsSlice(Reversed(xs), 0, Some(1)) == [xs[|xs| - 1]];
  }

  /** `first` after `take(1)` leaves the count as it is and so never sets `returnEl`: the
      chain gives a one-element array, not the element. */
  lemma TakeOneThenFirst(xs: seq<Val>)
    requires xs != []
    ensures ValueSpec(Arr(xs), [TakeOp(Some(1)), FirstOp]).value == Arr([xs[0]])
  {
    var c := Fresh.(count := Some(1));
    TwoLinks(Arr(xs), TakeOp(Some(1)), FirstOp);
    ExecTargets(c, Arr(xs));
    assert JsSlice(xs, 0, Some(1)) == [xs[0]];
  }

  /** A `map` or `filter` that is the last link and closes the record (code 2) opens a
      new record that is never run: the callback is dropped, whatever it is. */
  lemma TakeThenMap(xs: seq<Val>, n: int, p: Arg)
    requires n >= 1 && xs != []
    ensures ValueSpec(Arr(xs), [TakeOp(Some(n)), MapOp(p)]).value == Arr(Take(Arr(xs), Some(n)))
  {
    var c := Fresh.(count := Some(n));
    TwoLinks(Arr(xs), TakeOp(Some(n)), MapOp(p));
    ExecTargets(c, Arr(xs));
    SurvivorsNoGoals(xs);
    assert Denote(c, xs) == JsSlice(xs, 0, Some(n));
  }

  /** `value()` keeps a record's result only when it is truthy: `first` of an array whose
      first element is falsy gives the whole array. */
  lemma FirstFalsy(xs: seq<Val>)
    requires xs != [] && !Truthy(xs[0])
    ensures ValueSpec(Arr(xs), [FirstOp]).value == Arr(xs)
  {
    var c := Fresh.(count := Some(1), returnEl := true);
    OneLink(Arr(xs), FirstOp);
    ExecTargets(c, Arr(xs));
    assert JsSlice(xs, 0, Some(1)) == [xs[0]];
  }

  /** A non-empty wrapped string opens a record, so the first link the record does not
      know receives the string's characters as an array instead of the string. */
  lemma StringExploded(s: string, f: Val -> Val)
    requires s != ""
    ensures ValueSpec(Str(s), [Other(f)]).value == f(Arr(ToArray(Str(s))))
  {
    OneLink(Str(s), Other(f));
    ExecTargets(Fresh, Str(s));
    SurvivorsNoGoals(ToArray(Str(s)));
  }

  /** `take(0)` after a `slice` leaves a count of 0, which the traversal takes for no
      count and replaces by the range's length. */
  lemma SliceThenTakeZero(xs: seq<Val>, e: nat)
    requires e <= |xs|
    ensures ValueSpec(Arr(xs), [SliceOp(Some(0), Some(e)), TakeOp(Some(0))]).value == Arr(xs[..e])
  {
    var range := Some((Some(0), Some(e)));
    var c := Fresh.(range := range, count := Some(0));
    assert BuildStep(BuildStep(Fresh, SliceOp(Some(0), Some(e))).comp, TakeOp(Some(0))).comp == c;
    assert EffCount(c) == Some(e);
    TwoLinks(Arr(xs), SliceOp(Some(0), Some(e)), TakeOp(Some(0)));
    TraversalCollect(c, Arr(xs));
    SurvivorsNoGoals(xs);
    assert xs[0..] == xs;
    CollectRange(xs, 0, [], 0, Some(e), Some(e), false);
    assert Min(0, |xs|) == 0 && RangeEnd(|xs|, 0, Some(e), Some(e)) == e;
    assert Chaining.Collect(xs, [], 0, range, Some(e), false) == xs[..e];
  }

  // ---------------------------------------------------------------------------
  // The departures on concrete chains, as written and corrected

  const OneTwoThree: seq<Val> := [Num(1), Num(2), Num(3)]

  lemma EagerOne(v: Val, a: Op)
    ensures Eager(v, [a]).value == Call(a, v).value
  {
    assert [a][1..] == [];
  }

  lemma EagerTwo(v: Val, a: Op, b: Op)
    ensures Eager(v, [a, b]).value == Call(b, Call(a, v).value).value
  {
    assert [a, b][1..] == [b];
    EagerOne(Call(a, v).value, b);
  }

  /** The corrected chain of one or two plain links is those links run in turn. */
  lemma FixedOne(v: Val, a: Op)
    requires Plain(a)
    ensures ValueFixed(v, [a]).value == Call(a, v).value
  {
    FixedIsEager(v, [a]);
    EagerOne(v, a);
  }

  lemma FixedTwo(v: Val, a: Op, b: Op)
    requires Plain(a) && Plain(b)
    ensures ValueFixed(v, [a, b]).value == Call(b, Call(a, v).value).value
  {
    FixedIsEager(v, [a, b]);
    EagerTwo(v, a, b);
  }

  lemma ReversedThree(a: Val, b: Val, c: Val)
    ensures Reversed([a, b, c]) == [c, b, a] && Reversed([a, b]) == [b, a]
  {
    assert [a, b, c][1..] == [b, c] && [b, c][1..] == [c] && [c][1..] == [];
    assert [a, b][1..] == [b];
  }

  /** `_([1,2,3]).take(2).reverse()` is [3,2] as written and [2,1] corrected. */
  lemma TakeThenReverseExample(xs: seq<Val>)
    requires xs == OneTwoThree
    ensures ValueSpec(Arr(xs), [TakeOp(Some(2)), ReverseOp]).value == Arr([Num(3), Num(2)])
    ensures ValueFixed(Arr(xs), [TakeOp(Some(2)), ReverseOp]).value == Arr([Num(2), Num(1)])
  {
    TakeThenReverse(xs, 2);
    ReversedThree(Num(1), Num(2), Num(3));
    assert JsSlice([Num(3), Num(2), Num(1)], 0, Some(2)) == [Num(3), Num(2)];
    FixedTwo(Arr(xs), TakeOp(Some(2)), ReverseOp);
    var t := Call(TakeOp(Some(2)), Arr(xs)).value;
    assert t == Arr([Num(1), Num(2)]);
    assert Call(ReverseOp, t).value == Arr(Reversed([Num(1), Num(2)]));
  }

  /** `_([1,2,3]).take(2).slice(1)` is [2,3] as written. */
  lemma TakeThenSliceExample()
    ensures ValueSpec(Arr(OneTwoThree), [TakeOp(Some(2)), SliceOp(Some(1), None)]).value == Arr([Num(2), Num(3)])
  {
    TakeThenSlice(OneTwoThree, 2, 1);
    assert OneTwoThree[1..] == [Num(2), Num(3)];
    assert JsSlice([Num(2), Num(3)], 0, Some(2)) == [Num(2), Num(3)];
  }

  /** `_([1,2,3]).take(2).slice(1)` is [2] corrected. */
  lemma TakeThenSliceFixedExample(xs: seq<Val>)
    requires xs == OneTwoThree
    ensures ValueFixed(Arr(xs), [TakeOp(Some(2)), SliceOp(Some(1), None)]).value == Arr([Num(2)])
  {
    FixedTwo(Arr(xs), TakeOp(Some(2)), SliceOp(Some(1), None));
    var t := Call(TakeOp(Some(2)), Arr(xs)).value;
    assert t == Arr([Num(1), Num(2)]) by {
      assert Take(Arr(xs), Some(2)) == [Num(1), Num(2)];
    }
    SliceMeaning(t, 1, None);
    assert [Num(1), Num(2)][1..] == [Num(2)];
    assert Call(SliceOp(Some(1), None), t).value == Arr(Slice(t, Some(1), None));
  }

  /** `_([1,2,3]).slice(-1)` is [1,2,3] as written and [3] corrected. */
  lemma SliceNegativeExample(xs: seq<Val>)
    requires xs == OneTwoThree
    ensures ValueSpec(Arr(xs), [SliceOp(Some(-1), None)]).value == Arr(xs)
    ensures ValueFixed(Arr(xs), [SliceOp(Some(-1), None)]).value == Arr([Num(3)])
  {
    SliceNegative(xs, -1);
    FixedOne(Arr(xs), SliceOp(Some(-1), None));
    SliceLastOne(xs);
  }

  lemma SliceLastOne(xs: seq<Val>)
    requires xs == OneTwoThree
    ensures Call(SliceOp(Some(-1), None), Arr(xs)).value == Arr([Num(3)])
  {
    assert Slice(Arr(xs), Some(-1), None) == xs[2..3];
  }

  /** `_([1,2,3]).reverse().last()` is 3 as written and 1 corrected. */
  lemma ReverseThenLastExample(xs: seq<Val>)
    requires xs == OneTwoThree
    ensures ValueSpec(Arr(xs), [ReverseOp, LastOp]).value == Num(3)
    ensures ValueFixed(Arr(xs), [ReverseOp, LastOp]).value == Num(1)
  {
    ReverseThenLast(xs);
    FixedTwo(Arr(xs), ReverseOp, LastOp);
    ReversedThree(Num(1), Num(2), Num(3));
    var r := Call(ReverseOp, Arr(xs)).value;
    assert r == Arr([Num(3), Num(2), Num(1)]);
    assert Call(LastOp, r).value == Last(r) == Num(1);
  }

  /** `_([1,2,3]).take(1).first()` is [1] as written. */
  lemma TakeOneThenFirstExample()
    ensures ValueSpec(Arr(OneTwoThree), [TakeOp(Some(1)), FirstOp]).value == Arr([Num(1)])
  {
    TakeOneThenFirst(OneTwoThree);
  }

  /** `_([1,2,3]).take(1).first()` is 1 corrected. */
  lemma TakeOneThenFirstFixedExample(xs: seq<Val>)
    requires xs == OneTwoThree
    ensures ValueFixed(Arr(xs), [TakeOp(Some(1)), FirstOp]).value == Num(1)
  {
    FixedTwo(Arr(xs), TakeOp(Some(1)), FirstOp);
    var t := Call(TakeOp(Some(1)), Arr(xs)).value;
    assert t == Arr([Num(1)]) by {
      assert Take(Arr(xs), Some(1)) == [Num(1)];
    }
    assert Call(FirstOp, t).value == First(t);
  }

  /** Ten times a number; the callback of the next example. */
  function Times10(x: Val, k: Val): Val {
    if x.Num? then Num(x.n * 10) else x
  }

  /** `_([1,2,3]).take(2).map(v => v * 10)` is [1,2] as written and [10,20] corrected. */
  lemma TakeThenMapExample()
    ensures ValueSpec(Arr(OneTwoThree), [TakeOp(Some(2)), MapOp(Fun(Times10))]).value == Arr([Num(1), Num(2)])
    ensures ValueFixed(Arr(OneTwoThree), [TakeOp(Some(2)), MapOp(Fun(Times10))]).value == Arr([Num(10), Num(20)])
  {
    var p := Fun(Times10);
    TakeThenMap(OneTwoThree, 2, p);
    TakeThenMapFixed(Arr(OneTwoThree), TakeOp(Some(2)), MapOp(p), p);
  }

  lemma TakeThenMapFixed(v: Val, a: Op, b: Op, p: Arg)
    requires v == Arr(OneTwoThree) && a == TakeOp(Some(2)) && p == Fun(Times10) && b == MapOp(p)
    ensures ValueFixed(v, [a, b]).value == Arr([Num(10), Num(20)])
  {
    assert KeyFree(Iteratee(p));
    FixedTwo(v, a, b);
    var w := [Num(1), Num(2)];
    assert Call(a, v).value == Arr(w) by {
      assert Take(v, Some(2)) == w;
    }
    MapTimes10(w, p);
  }

  lemma MapTimes10(w: seq<Val>, p: Arg)
    requires w == [Num(1), Num(2)] && p == Fun(Times10)
    ensures Call(MapOp(p), Arr(w)).value == Arr([Num(10), Num(20)])
  {
    assert KeyFree(Iteratee(p));
    MapKeyFree(w, p);
    assert MapVals(w, Iteratee(p)) == [Num(10), Num(20)];
  }

  /** `_([0,1,2]).first()` is [0,1,2] as written and 0 corrected. */
  lemma FirstFalsyExample(xs: seq<Val>)
    requires xs == [Num(0), Num(1), Num(2)]
    ensures ValueSpec(Arr(xs), [FirstOp]).value == Arr(xs)
    ensures ValueFixed(Arr(xs), [FirstOp]).value == Num(0)
  {
    assert !Truthy(xs[0]);
    FirstFalsy(xs);
    FixedOne(Arr(xs), FirstOp);
    assert Call(FirstOp, Arr(xs)).value == First(Arr(xs)) == Num(0);
  }

  /** `_('ab')` followed by a link `f` that the record does not know passes ['a','b'] to
      `f` as written and 'ab' corrected. */
  lemma StringExplodedExample(f: Val -> Val)
    ensures ValueSpec(Str("ab"), [Other(f)]).value == f(Arr([Str("a"), Str("b")]))
    ensures ValueFixed(Str("ab"), [Other(f)]).value == f(Str("ab"))
  {
    StringExploded("ab", f);
    assert ToArray(Str("ab")) == [Str("a"), Str("b")];
    FixedIsEager(Str("ab"), [Other(f)]);
    EagerOne(Str("ab"), Other(f));
  }

  /** `_([1,2,3]).slice(0, 2).take(0)` is [1,2] as written and [] corrected. */
  lemma SliceThenTakeZeroExample()
    ensures ValueSpec(Arr(OneTwoThree), [SliceOp(Some(0), Some(2)), TakeOp(Some(0))]).value == Arr([Num(1), Num(2)])
    ensures ValueFixed(Arr(OneTwoThree), [SliceOp(Some(0), Some(2)), TakeOp(Some(0))]).value == Arr([])
  {
    SliceThenTakeZero(OneTwoThree, 2);
    assert OneTwoThree[..2] == [Num(1), Num(2)];
    SliceThenTakeZeroFixed(Arr(OneTwoThree), SliceOp(Some(0), Some(2)), TakeOp(Some(0)));
  }

  lemma SliceThenTakeZeroFixed(v: Val, a: Op, b: Op)
    requires v == Arr(OneTwoThree) && a == SliceOp(Some(0), Some(2)) && b == TakeOp(Some(0))
    ensures ValueFixed(v, [a, b]).value == Arr([])
  {
    FixedTwo(v, a, b);
    var w := Call(a, v).value;
    assert w.Arr?;
    assert Take(w, Some(0)) == [];
  }
}
