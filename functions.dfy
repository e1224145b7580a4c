/**
 * The function wrappers of src/functions.ts: partial application with placeholders,
 * composition, `alt`, `tap`, `call`, and the stateful `once` and `after` wrappers.
 *
 * A JavaScript function is a Dafny function from its argument list to its result;
 * a value that is not a function is `None` where the source tests for one. The side
 * effects the wrappers exist to control are recorded as the argument lists passed on.
 */
module Funcs {
  import opened JsValues
  import opened Num

  /** A function called with a list of arguments. */
  type Fn = seq<Val> -> Val

  // ---------------------------------------------------------------------------
  // partial (src/functions.ts:35, 66-77)

  /** The number of placeholders (`undefined`) among the bound arguments. */
  function Holes(args: seq<Val>): nat
    decreases |args|
  {
    if args == [] then 0
    else Holes(args[..|args| - 1]) + (if args[|args| - 1] == Undef then 1 else 0)
  }

  /** `params[p]`, which is undefined past the end. */
  function ParamAt(params: seq<Val>, p: nat): Val {
    if p < |params| then params[p] else Undef
  }

  /** The bound arguments with the `j`-th placeholder replaced by the `j`-th call
      argument. */
  function Bound(args: seq<Val>, params: seq<Val>): (r: seq<Val>)
    ensures |r| == |args|
  {
    seq(|args|, i requires 0 <= i < |args| =>
      if args[i] == Undef then ParamAt(params, Holes(args[..i])) else args[i])
  }

  /** The argument list the partial function passes on: the bound arguments with the
      placeholders filled, then the call arguments no placeholder took. */
  function Filled(args: seq<Val>, params: seq<Val>): seq<Val> {
    var p := Holes(args);
    Bound(args, params) + (if |params| > p then params[p..] else [])
  }

  /** `partial(fn, ...args)`. */
  function Partial(fn: Fn, args: seq<Val>): Fn {
    params => fn(Filled(args, params))
  }

  /** The body of the function `partial` returns: the `map` that fills placeholders
      from a running index, then the loop that appends the rest. */
  method ApplyArgs(args: seq<Val>, params: seq<Val>) returns (applyArgs: seq<Val>)
    ensures applyArgs == Filled(args, params)
  {
    var p := 0;
    applyArgs := [];
    var k := 0;
    while k < |args|
      invariant 0 <= k <= |args|
      invariant p == Holes(args[..k])
      invariant applyArgs == Bound(args[..k], params)
    {
      assert args[..k + 1][..k] == args[..k];
      BoundSnoc(args, params, k);
      if args[k] == Undef {
        applyArgs := applyArgs + [ParamAt(params, p)];
        p := p + 1;
      } else {
        applyArgs := applyArgs + [args[k]];
      }
      k := k + 1;
    }
    assert args[..k] == args;
    if |params| > p {
      var i := p;
      while i < |params|
        invariant p <= i <= |params|
        invariant applyArgs == Bound(args, params) + params[p..i]
      {
        assert params[p..i + 1] == params[p..i] + [params[i]];
        applyArgs := applyArgs + [params[i]];
        i := i + 1;
      }
      assert params[p..i] == params[p..];
    }
  }

  lemma BoundSnoc(args: seq<Val>, params: seq<Val>, k: nat)
    requires k < |args|
    ensures Bound(args[..k + 1], params) ==
      Bound(args[..k], params) + [if args[k] == Undef then ParamAt(params, Holes(args[..k])) else args[k]]
  {
    var a, b := args[..k + 1], args[..k];
    assert a[..k] == b;
    forall i | 0 <= i < k
      ensures a[..i] == b[..i]
    {
    }
  }

  /** The values the placeholders received, in order. */
  function AtHoles(args: seq<Val>, filled: seq<Val>): seq<Val>
    requires |filled| >= |args|
    decreases |args|
  {
    if args == [] then []
    else
      var here := if args[|args| - 1] == Undef then [filled[|args| - 1]] else [];
      AtHoles(args[..|args| - 1], filled) + here
  }

  /** The placeholders take the first call arguments one each and in order, with
      undefined for those past the end; the arguments no placeholder took follow, so when
      there are enough call arguments the partial function passes every one, in order. */
  lemma {:induction false} FilledMeaning(args: seq<Val>, params: seq<Val>)
    ensures var f := Filled(args, params);
      |f| >= |args| &&
      (forall i :: 0 <= i < |args| && args[i] != Undef ==> f[i] == args[i]) &&
      AtHoles(args, f) == (if |params| >= Holes(args) then params[..Holes(args)]
                          else params + seq(Holes(args) - |params|, _ => Undef))
    ensures |params| >= Holes(args) ==>
      AtHoles(args, Filled(args, params)) + Filled(args, params)[|args|..] == params
  {
    var f := Filled(args, params);
    AtHolesPrefix(args, params, f, |args|);
    assert args[..|args|] == args;
    if |params| >= Holes(args) {
      assert f[|args|..] == params[Holes(args)..];
      assert params[..Holes(args)] + params[Holes(args)..] == params;
    }
  }

  lemma {:induction false} AtHolesPrefix(args: seq<Val>, params: seq<Val>, f: seq<Val>, k: nat)
    requires k <= |args| && f == Filled(args, params)
    ensures AtHoles(args[..k], f) == seq(Holes(args[..k]), j requires 0 <= j < Holes(args[..k]) => ParamAt(params, j))
    decreases k
  {
    var a := args[..k];
    if k > 0 {
      AtHolesPrefix(args, params, f, k - 1);
      assert a[..k - 1] == args[..k - 1];
      var prev := seq(Holes(args[..k - 1]), j requires 0 <= j < Holes(args[..k - 1]) => ParamAt(params, j));
      if args[k - 1] == Undef {
        assert f[k - 1] == Bound(args, params)[k - 1] == ParamAt(params, Holes(args[..k - 1]));
        assert prev + [ParamAt(params, Holes(args[..k - 1]))] ==
          seq(Holes(a), j requires 0 <= j < Holes(a) => ParamAt(params, j));
      }
    }
  }

  /** The documented case: `partial(join, '[func.js][', undefined, ']', undefined)`
      called with 'info' and 'hi...' passes '[func.js][', 'info', ']', 'hi...'; and
      `partial(Math.pow, undefined, 2)` called with 3 passes 3, 2. */
  lemma PartialExamples()
    ensures Filled([Str("[func.js]["), Undef, Str("]"), Undef], [Str("info"), Str("hi...")]) ==
      [Str("[func.js]["), Str("info"), Str("]"), Str("hi...")]
    ensures Filled([Undef, Num(2)], [Num(3)]) == [Num(3), Num(2)]
  {
    var a := [Str("[func.js]["), Undef, Str("]"), Undef];
    assert a[..1] == [Str("[func.js][")] && a[..2] == a[..1] + [Undef];
    assert a[..3] == a[..2] + [Str("]")];
    assert Holes(a[..1]) == 0 && Holes(a[..3]) == 1 && Holes(a) == 2;
    var b := [Undef, Num(2)];
    assert b[..0] == [] && b[..1] == [Undef];
    assert Holes(b) == 1;
  }

  // ---------------------------------------------------------------------------
  // compose (src/functions.ts:97-107)

  /** The later functions applied in turn to the result so far, skipping the values that
      are not functions. */
  function Pipe(fns: seq<Option<Fn>>, v: Val): Val
    decreases |fns|
  {
    if fns == [] then v
    else
      var prev := Pipe(fns[..|fns| - 1], v);
      match fns[|fns| - 1]
      case None => prev
      case Some(f) => f([prev])
  }

  /** What the composed function returns: the first function gets all the arguments, or
      None when there is no first function and the call throws. */
  function Composed(fns: seq<Option<Fn>>, args: seq<Val>): Option<Val> {
    if fns == [] || fns[0].None? then None else Some(Pipe(fns[1..], fns[0].value(args)))
  }

  /** The body of the function `compose` returns. */
  method Compose(fns: seq<Option<Fn>>, args: seq<Val>) returns (r: Option<Val>)
    ensures r == Composed(fns, args)
  {
    if fns == [] || fns[0].None? {
      return None;
    }
    var rs := fns[0].value(args);
    var i := 1;
    while i < |fns|
      invariant 1 <= i <= |fns|
      invariant rs == Pipe(fns[1..i], fns[0].value(args))
    {
      assert fns[1..i + 1][..i - 1] == fns[1..i];
      if fns[i].Some? {
        rs := fns[i].value([rs]);
      }
      i := i + 1;
    }
    assert fns[1..i] == fns[1..];
    return Some(rs);
  }

  /** The values kept by `isFunction`. */
  function OnlyFns(fns: seq<Option<Fn>>): seq<Option<Fn>>
    decreases |fns|
  {
    if fns == [] then []
    else OnlyFns(fns[..|fns| - 1]) + (if fns[|fns| - 1].Some? then [fns[|fns| - 1]] else [])
  }

  /** Composing in two steps is composing once. */
  lemma {:induction false} PipeAppend(a: seq<Option<Fn>>, b: seq<Option<Fn>>, v: Val)
    ensures Pipe(a + b, v) == Pipe(b, Pipe(a, v))
    decreases |b|
  {
    if b != [] {
      PipeAppend(a, b[..|b| - 1], v);
      assert (a + b)[..|a + b| - 1] == a + b[..|b| - 1];
    } else {
      assert a + b == a;
    }
  }

  /** The values that are not functions can be dropped without changing the result. */
  lemma {:induction false} PipeOnlyFns(a: seq<Option<Fn>>, v: Val)
    ensures Pipe(OnlyFns(a), v) == Pipe(a, v)
    decreases |a|
  {
    if a != [] {
      var init, last := a[..|a| - 1], a[|a| - 1];
      PipeOnlyFns(init, v);
      if last.Some? {
        PipeAppend(OnlyFns(init), [last], v);
        assert [last][..0] == [];
      } else {
        assert OnlyFns(init) + [] == OnlyFns(init);
        assert OnlyFns(a) == OnlyFns(init);
        assert Pipe(a, v) == Pipe(init, v);
      }
    }
  }

  // ---------------------------------------------------------------------------
  // alt (src/functions.ts:121-127)

  /** `alt(v, interceptor1, interceptor2)`: the result, and which interceptors ran. */
  function Alt(v: Val, interceptor1: Fn, interceptor2: Fn): (Val, seq<nat>) {
    var rs := interceptor1([v]);
    if rs == Undef then (interceptor2([v]), [1, 2]) else (rs, [1])
  }

  /** The second interceptor runs exactly when the first returns undefined, and the
      result is undefined only when both are; alt(9, v => false, v => 20) is false. */
  lemma AltMeaning(v: Val, i1: Fn, i2: Fn)
    ensures 2 in Alt(v, i1, i2).1 <==> i1([v]) == Undef
    ensures Alt(v, i1, i2).0 == Undef <==> i1([v]) == Undef && i2([v]) == Undef
    ensures i1([v]) != Undef ==> Alt(v, i1, i2).0 == i1([v])
    ensures Alt(Num(9), _ => Bool(false), _ => Num(20)).0 == Bool(false)
  {
  }

  // ---------------------------------------------------------------------------
  // tap (src/functions.ts:147-150)

  /** `tap(v, interceptor)`: the value, and the argument lists the interceptor got. */
  function Tap(v: Val, interceptor: Fn): (Val, seq<seq<Val>>) {
    (v, [[v]])
  }

  /** The value comes back as it went in, whatever the interceptor returns, and the
      interceptor ran once, on that value; tapping twice is tapping the same value. */
  lemma TapMeaning(v: Val, f: Fn, g: Fn)
    ensures Tap(v, f).0 == v && Tap(v, f).1 == [[v]]
    ensures Tap(Tap(v, f).0, g).0 == v
  {
  }

  // ---------------------------------------------------------------------------
  // call (src/functions.ts:296-299)

  /** `call(fn, ...args)`: undefined for a value that is not a function. */
  function Call(fn: Option<Fn>, args: seq<Val>): Val {
    if fn.None? then Undef else fn.value(args)
  }

  /** Calling a partial function passes the filled argument list on; calling what is
      not a function gives undefined. */
  lemma CallMeaning(fn: Fn, args: seq<Val>, params: seq<Val>)
    ensures Call(Some(Partial(fn, args)), params) == fn(Filled(args, params))
    ensures Call(None, params) == Undef
    ensures Call(Some(fn), params) == fn(params)
  {
  }

  // ---------------------------------------------------------------------------
  // once (src/functions.ts:163-173)

  /** The function `once(fn)` returns, with its captured `proxy`. */
  class Once {
    const fn: Option<Fn>
    var proxy: Option<Fn>
    /** How many times the wrapper has been called. */
    ghost var invocations: nat
    /** The argument lists passed on to `fn`. */
    ghost var forwarded: seq<seq<Val>>

    ghost predicate Valid()
      reads this
    {
      proxy == (if invocations == 0 then fn else None) &&
      |forwarded| == (if fn.Some? && invocations > 0 then 1 else 0)
    }

    constructor (fn: Option<Fn>)
      ensures Valid() && this.fn == fn && invocations == 0 && forwarded == []
    {
      this.fn := fn;
      proxy := fn;
      invocations := 0;
      forwarded := [];
    }

    /** One call of the wrapper: the first one calls `fn`, if it is a function, and every
        later one returns undefined without calling anything. */
    method Invoke(args: seq<Val>) returns (rtn: Val)
      requires Valid()
      modifies this
      ensures Valid() && invocations == old(invocations) + 1
      ensures old(invocations) == 0 && fn.Some? ==> rtn == fn.value(args) && forwarded == [args]
      ensures !(old(invocations) == 0 && fn.Some?) ==> rtn == Undef && forwarded == old(forwarded)
    {
      rtn := Undef;
      if proxy.Some? {
        rtn := proxy.value(args);
        forwarded := forwarded + [args];
      }
      proxy := None;
      invocations := invocations + 1;
    }
  }

  // ---------------------------------------------------------------------------
  // after (src/functions.ts:188-199)

  /** The counter `i` after `k` calls, starting from `count || 0`: each call takes one off
      while it is positive. */
  function CounterAfter(start: real, k: nat): real {
    if k == 0 then start
    else
      var prev := CounterAfter(start, k - 1);
      if prev > 0.0 then prev - 1.0 else prev
  }

  /** Whether call number `k` (from 1) goes through to `fn`: the counter reads 0 before
      it. */
  predicate Fires(start: real, k: nat)
    requires k >= 1
  {
    CounterAfter(start, k - 1) == 0.0
  }

  /** How many of the first `k` calls went through. */
  function FiredCount(start: real, k: nat): nat {
    if k == 0 then 0 else FiredCount(start, k - 1) + (if Fires(start, k) then 1 else 0)
  }

  /** `count || 0`: NaN and a missing count read as 0. */
  function StartOf(count: Number): real {
    if count.Fin? then count.r else 0.0
  }

  /** The function `after(fn, count)` returns, with its captured counter and last
      result. */
  class After {
    const fn: Fn
    const start: real
    var i: real
    var rtn: Val
    ghost var invocations: nat
    ghost var forwarded: seq<seq<Val>>

    ghost predicate Valid()
      reads this
    {
      i == CounterAfter(start, invocations) &&
      |forwarded| == FiredCount(start, invocations) &&
      (forwarded == [] ==> rtn == Undef) &&
      (forwarded != [] ==> rtn == fn(forwarded[|forwarded| - 1]))
    }

    constructor (fn: Fn, count: Number)
      ensures Valid() && this.fn == fn && start == StartOf(count)
      ensures invocations == 0 && forwarded == []
    {
      this.fn := fn;
      start := StartOf(count);
      i := StartOf(count);
      rtn := Undef;
      invocations := 0;
      forwarded := [];
    }

    /** One call of the wrapper: it calls `fn` when the counter is 0, takes one off a
        positive counter, and returns the result of the last call that went through. */
    method Invoke(args: seq<Val>) returns (r: Val)
      requires Valid()
      modifies this
      ensures Valid() && invocations == old(invocations) + 1
      ensures Fires(start, invocations) ==> r == fn(args) && forwarded == old(forwarded) + [args]
      ensures !Fires(start, invocations) ==> r == old(rtn) && forwarded == old(forwarded)
    {
      if i == 0.0 {
        rtn := fn(args);
        forwarded := forwarded + [args];
      }
      if i > 0.0 {
        i := i - 1.0;
      }
      invocations := invocations + 1;
      r := rtn;
    }
  }

  /** From a whole count `n`, the counter after `k` calls is `n - k` down to 0. */
  lemma {:induction false} CounterOfWhole(n: nat, k: nat)
    ensures CounterAfter(n as real, k) == (if k <= n then (n - k) as real else 0.0)
  {
    if k > 0 {
      CounterOfWhole(n, k - 1);
    }
  }

  /** after(fn, n) for a whole `n`: the first `n` calls return undefined without calling
      `fn`, and every later call calls it, so `k` calls call it `k - n` times. */
  lemma {:induction false} AfterWhole(n: nat, k: nat)
    ensures k >= 1 ==> (Fires(n as real, k) <==> k > n)
    ensures FiredCount(n as real, k) == (if k <= n then 0 else k - n)
  {
    if k >= 1 {
      CounterOfWhole(n, k - 1);
      AfterWhole(n, k - 1);
    }
  }

  /** How many times the counter was taken one off in the first `k` calls. */
  function Steps(start: real, k: nat): nat {
    if k == 0 then 0
    else Steps(start, k - 1) + (if CounterAfter(start, k - 1) > 0.0 then 1 else 0)
  }

  /** The counter only ever moves by whole steps while it is positive, and stops below 1. */
  lemma {:induction false} CounterSteps(start: real, k: nat)
    ensures CounterAfter(start, k) == start - Steps(start, k) as real
    ensures start > 0.0 ==> CounterAfter(start, k) > -1.0
    ensures start <= 0.0 ==> CounterAfter(start, k) == start
  {
    if k > 0 {
      CounterSteps(start, k - 1);
    }
  }

  /** A negative count or one that is not whole never reaches 0: such a wrapper never
      calls `fn` and always returns undefined (after(fn, 1.5) and after(fn, -1)). */
  lemma AfterNeverFires(start: real, k: nat)
    requires start < 0.0 || start != start.Floor as real
    requires k >= 1
    ensures !Fires(start, k)
  {
    CounterSteps(start, k - 1);
    var j := Steps(start, k - 1);
    assert (j as real).Floor == j;
  }

  /** The documented case: after(() => 'data saved', 2) returns undefined, undefined, then
      'data saved'. */
  method AfterExample() returns (a: Val, b: Val, c: Val)
    ensures a == Undef && b == Undef && c == Str("data saved")
  {
    var saveTip := new After(_ => Str("data saved"), Fin(2.0));
    AfterWhole(2, 1);
    AfterWhole(2, 2);
    AfterWhole(2, 3);
    a := saveTip.Invoke([]);
    b := saveTip.Invoke([]);
    c := saveTip.Invoke([]);
  }

  /** The documented case: a wrapped function answers its first call only. */
  method OnceExample(fn: Fn, args: seq<Val>) returns (a: Val, b: Val)
    ensures a == fn(args) && b == Undef
  {
    var wrapped := new Once(Some(fn));
    a := wrapped.Invoke(args);
    b := wrapped.Invoke(args);
  }
}
