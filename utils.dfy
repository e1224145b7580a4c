/**
 * The helpers of src/utils.ts that the combinators use: the callback factory
 * `iteratee` with `prop` and `matcher`, `identity`, `noop`, `defaultTo`, and the
 * module-level counter behind `uniqueId`. `toPath` is in module Paths and `times`
 * in module Arrays, next to the `range` it is built on.
 */
module Utils {
  import opened JsValues
  import opened Is
  import opened Paths
  import opened Objects

  /** A callback as the combinators call it: with the element and its key. */
  type Callback = (Val, Val) -> Val

  /** What a caller may pass where an iteratee is expected: a function, or a value. */
  datatype Arg = Fun(f: Callback) | Value(v: Val)

  /** `identity(v)` (src/utils.ts:83-85). */
  function Identity(v: Val): (r: Val)
    ensures r == v
  {
    v
  }

  /** `noop()` (src/utils.ts:62-64). */
  function Noop(): (r: Val)
    ensures r == Undef
  {
    Undef
  }

  /** `defaultTo(v, d)` (src/utils.ts:130-133): the default replaces exactly null,
      undefined and NaN. */
  function DefaultTo(v: Val, d: Val): (r: Val)
    ensures (v == Null || v == Undef || v == NaN) ==> r == d
    ensures !(v == Null || v == Undef || v == NaN) ==> r == v
  {
    if v == Null || v == Undef || v == NaN then d else v
  }

  /** defaultTo(null, 'x') is 'x', and 0, -0, false and '' are kept. */
  lemma DefaultToKeepsFalsy(d: Val)
    ensures DefaultTo(Null, d) == d && DefaultTo(NaN, d) == d
    ensures DefaultTo(Num(0), d) == Num(0) && DefaultTo(NegZero, d) == NegZero
    ensures DefaultTo(Bool(false), d) == Bool(false) && DefaultTo(Str(""), d) == Str("")
  {
  }

  /** `prop(path)` (src/object.ts:655-662): reads `get(obj, path)`. */
  function PropOf(path: Val): Callback {
    (obj, k) => GetSpec(obj, ToPath(path), Undef)
  }

  /** `matcher(props)` (src/utils.ts:153-157): `isMatch(obj, toObject(props))`. */
  function MatcherOf(props: Val): Callback {
    (obj, k) => Bool(IsMatch(obj, ToObjectSpec([props])))
  }

  /** The path an array iteratee stands for: its `toPath` segments as strings. */
  function PathArray(v: Val): (r: Val)
    ensures r.Arr? && |r.items| == |ToPath(v)|
  {
    var segs := ToPath(v);
    Arr(seq(|segs|, i requires 0 <= i < |segs| => Str(segs[i])))
  }

  /** `iteratee(value)` (src/utils.ts:191-204). */
  function Iteratee(a: Arg): Callback {
    match a
    case Fun(f) => f
    case Value(v) =>
      if v == Undef then (x, k) => Identity(x)
      else if v.Str? then PropOf(v)
      else if v.Arr? then PropOf(PathArray(v))
      else if IsObject(v) then MatcherOf(v)
      else (x, k) => Bool(false)
  }

  /** Which callable each kind of argument gives: undefined gives identity, a function
      itself, a string `prop`, an array `prop` of its path, an object `matcher`, and any other
      value the constant false. */
  lemma IterateeKinds(a: Arg, x: Val, k: Val)
    ensures a == Value(Undef) ==> Iteratee(a)(x, k) == x
    ensures a.Fun? ==> Iteratee(a) == a.f
    ensures a.Value? && a.v.Str? ==> Iteratee(a)(x, k) == GetSpec(x, ToPath(a.v), Undef)
    ensures a.Value? && a.v.Arr? ==> Iteratee(a)(x, k) == GetSpec(x, ToPath(PathArray(a.v)), Undef)
    ensures a.Value? && (a.v.Obj? || a.v.SetOf? || a.v.MapOf?) ==>
      Iteratee(a)(x, k) == Bool(IsMatch(x, ToObjectSpec([a.v])))
    ensures a.Value? && (a.v.Null? || a.v.Bool? || a.v.Num? || a.v.NegZero? || a.v.NaN?) ==>
      Iteratee(a)(x, k) == Bool(false)
  {
  }

  /** `iteratee('name')` reads the `name` key of an object and gives undefined when it is
      missing. */
  lemma IteratePropName(props: seq<(string, Val)>, v: Val, k: Val)
    requires props == [("name", v), ("js", Bool(true))]
    ensures Iteratee(Value(Str("name")))(Obj(props), k) == (if v == Undef then Undef else v)
    ensures Iteratee(Value(Str("name")))(Obj([("js", Bool(true))]), k) == Undef
  {
    ToPathOfPlain("name");
    IterateeOfString("name", Obj(props), k);
    IterateeOfString("name", Obj([("js", Bool(true))]), k);
    assert GetMember(Obj(props), "name") == v;
    WalkOne(Obj(props), "name");
    assert GetMember(Obj([("js", Bool(true))]), "name") == Undef;
    WalkOne(Obj([("js", Bool(true))]), "name");
  }

  lemma IterateeOfString(s: string, x: Val, k: Val)
    ensures Iteratee(Value(Str(s)))(x, k) == GetSpec(x, ToPath(Str(s)), Undef)
  {
    assert Iteratee(Value(Str(s))) == PropOf(Str(s));
  }

  lemma IterateeOfArray(a: seq<Val>, x: Val, k: Val)
    ensures Iteratee(Value(Arr(a)))(x, k) == GetSpec(x, ToPath(PathArray(Arr(a))), Undef)
  {
    assert Iteratee(Value(Arr(a))) == PropOf(PathArray(Arr(a)));
  }

  lemma WalkOne(x: Val, seg: string)
    ensures Walk(x, [seg]) == GetMember(x, seg)
  {
    assert [seg][1..] == [];
  }

  /** `iteratee(['tags', 'utils'])` reads the nested key `tags.utils`. */
  lemma IterateePathArray(x: Val, k: Val)
    ensures Iteratee(Value(Arr([Str("tags"), Str("utils")])))(x, k) == GetSpec(x, ["tags", "utils"], Undef)
  {
    IterateePathOf(["tags", "utils"], [Str("tags"), Str("utils")], x, k);
  }

  /** `iteratee(['tags', 'utils'])`, with the path and its array given by name. */
  lemma IterateePathOf(ks: seq<string>, a: seq<Val>, x: Val, k: Val)
    requires ks == ["tags", "utils"] && a == [Str("tags"), Str("utils")]
    ensures Iteratee(Value(Arr(a)))(x, k) == GetSpec(x, ks, Undef)
  {
    assert a == seq(|ks|, i requires 0 <= i < |ks| => Str(ks[i]));
    ToPathOfSegments(ks);
    assert PathArray(Arr(a)) == Arr(a);
    IterateeOfArray(a, x, k);
  }

  /** `matcher({js: true})` accepts exactly the objects whose `js` is true. */
  lemma MatcherExample(props: seq<(string, Val)>, k: Val)
    requires props == [("name", Str("func.js")), ("js", Bool(true))]
    ensures MatcherOf(Obj([("js", Bool(true))]))(Obj(props), k) == Bool(true)
    ensures MatcherOf(Obj([("js", Bool(true))]))(Obj([("js", Bool(false))]), k) == Bool(false)
  {
    var src := [("js", Bool(true))];
    assert Lookup(props[1..], "js") == Some(Bool(true));
    assert GetMember(Obj(props), "js") == Bool(true);
    MatcherJs(src, Obj(props), k);
    assert GetMember(Obj([("js", Bool(false))]), "js") == Bool(false);
    MatcherJs(src, Obj([("js", Bool(false))]), k);
  }

  /** The matcher of `{js: true}` holds exactly when the value's `js` is true. */
  lemma MatcherJs(src: seq<(string, Val)>, x: Val, k: Val)
    requires src == [("js", Bool(true))] && x.Obj?
    ensures MatcherOf(Obj(src))(x, k) == Bool(GetMember(x, "js") == Bool(true))
  {
    ToObjectOfObject(src);
    assert OwnEntries(Obj(src)) == src;
    assert IsMatch(x, Obj(src)) == Eq(GetMember(x, "js"), Bool(true));
  }

  // ---------------------------------------------------------------------------
  // uniqueId (src/utils.ts:46-49)

  /** The id for counter value `n`: `prefix_n`, or `n` when there is no prefix. */
  function IdString(prefix: Option<string>, n: nat): (s: string)
    ensures prefix.Some? ==> s == prefix.value + "_" + NatToStr(n)
    ensures prefix.None? ==> s == NatToStr(n)
  {
    (if prefix.Some? then prefix.value + "_" else "") + NatToStr(n)
  }

  /** Two counter values never give the same id under the same prefix. */
  lemma IdStringInjective(prefix: Option<string>, n: nat, m: nat)
    requires n != m
    ensures IdString(prefix, n) != IdString(prefix, m)
  {
    NatToStrShape(n);
    NatToStrShape(m);
    var p := if prefix.Some? then prefix.value + "_" else "";
    assert IdString(prefix, n)[|p|..] == NatToStr(n);
    assert IdString(prefix, m)[|p|..] == NatToStr(m);
  }

  /** The module-level `seed` counter of src/utils.ts:49. */
  class IdGen {
    var seed: nat

    constructor()
      ensures seed == 0
    {
      seed := 0;
    }

    /** `uniqueId(prefix?)`: the current counter, then the counter incremented. */
    method UniqueId(prefix: Option<string>) returns (id: string)
      modifies this
      ensures id == IdString(prefix, old(seed))
      ensures seed == old(seed) + 1
    {
      id := IdString(prefix, seed);
      seed := seed + 1;
    }
  }

  /** `uniqueId('func')` then `uniqueId()` on a fresh counter give 'func_0' and '1', and
      successive ids differ. */
  method UniqueIdExample() returns (a: string, b: string)
    ensures a == "func_0" && b == "1" && a != b
  {
    var g := new IdGen();
    a := g.UniqueId(Some("func"));
    b := g.UniqueId(None);
    assert NatToStr(0) == "0" && NatToStr(1) == "1";
  }
}
