/**
 * The functions of src/object.ts that go through a collection with `each`: `pickBy`,
 * `omitBy`, `pick`, `omit` and `findKey`. They are a module of their own because they
 * use `each`, `includes` and `flatDeep`, which come after the path functions.
 */
module ObjectFilters {
  import opened JsValues
  import opened Is
  import opened Objects
  import opened Utils
  import opened Coll
  import opened Arrays

  // ---------------------------------------------------------------------------
  // pickBy / omitBy (src/object.ts:445-458, 494-505)

  /** `predicate || identity`: an absent predicate keeps the truthy values. */
  function PredicateOr(p: Option<Callback>): Callback {
    match p
    case Some(f) => f
    case None => (v, k) => Identity(v)
  }

  /** The closure of `pickBy` (`keep`) and `omitBy` (not `keep`): `rs[k] = v` when the
      predicate's truthiness is `keep`. It never returns false, so `each` visits all. */
  function FilterStep(cb: Callback, keep: bool): Step<seq<(string, Val)>> {
    (rs: seq<(string, Val)>, v: Val, k: Val) =>
      (if Truthy(cb(v, k)) == keep then Put(rs, KeyOf(k), v) else rs, Undef)
  }

  /** `pickBy(obj, predicate)`. */
  function PickBy(obj: Val, p: Option<Callback>): Val {
    Obj(Fold(Entries(obj), [], FilterStep(PredicateOr(p), true)))
  }

  /** `omitBy(obj, predicate)`. */
  function OmitBy(obj: Val, p: Option<Callback>): Val {
    Obj(Fold(Entries(obj), [], FilterStep(PredicateOr(p), false)))
  }

  /** The entries as properties: each key converted to its string. */
  function AsProps(es: seq<(Val, Val)>): (ps: seq<(string, Val)>)
    ensures |ps| == |es| && forall i :: 0 <= i < |es| ==> ps[i] == (KeyOf(es[i].0), es[i].1)
  {
    seq(|es|, i requires 0 <= i < |es| => (KeyOf(es[i].0), es[i].1))
  }

  /** The entries' keys are distinct once converted to strings. */
  predicate DistinctKeys(es: seq<(Val, Val)>) {
    forall i, j :: 0 <= i < j < |es| ==> KeyOf(es[i].0) != KeyOf(es[j].0)
  }

  /** The reference definition of both: the entries, as properties and in order, whose
      predicate's truthiness is `keep`. */
  function Kept(es: seq<(Val, Val)>, cb: Callback, keep: bool): seq<(string, Val)>
    decreases |es|
  {
    if es == [] then []
    else (if Truthy(cb(es[0].1, es[0].0)) == keep then [(KeyOf(es[0].0), es[0].1)] else []) + Kept(es[1..], cb, keep)
  }

  /** Writing a new key appends it. */
  lemma {:induction false} PutNew(props: seq<(string, Val)>, k: string, v: Val)
    requires k !in Keys(props)
    ensures Put(props, k, v) == props + [(k, v)]
    decreases |props|
  {
    if props != [] {
      assert Keys(props) == [props[0].0] + Keys(props[1..]);
      assert Put(props, k, v) == [props[0]] + Put(props[1..], k, v);
      PutNew(props[1..], k, v);
      assert props == [props[0]] + props[1..];
    }
  }

  /** A kept property is one of the entries. */
  lemma {:induction false} KeptFrom(es: seq<(Val, Val)>, cb: Callback, keep: bool, x: (string, Val))
    requires x in Kept(es, cb, keep)
    ensures x in AsProps(es)
    decreases |es|
  {
    var h := if Truthy(cb(es[0].1, es[0].0)) == keep then [(KeyOf(es[0].0), es[0].1)] else [];
    if x !in h {
      KeptFrom(es[1..], cb, keep, x);
      var i :| 0 <= i < |es| - 1 && AsProps(es[1..])[i] == x;
      assert AsProps(es)[i + 1] == x;
    } else {
      assert AsProps(es)[0] == x;
    }
  }

  /** The entry kept by the first call, as a list of zero or one properties. */
  function HeadKept(es: seq<(Val, Val)>, cb: Callback, keep: bool): seq<(string, Val)>
    requires es != []
  {
    if Truthy(cb(es[0].1, es[0].0)) == keep then [(KeyOf(es[0].0), es[0].1)] else []
  }

  lemma FilterFirst(es: seq<(Val, Val)>, rs: seq<(string, Val)>, cb: Callback, keep: bool)
    requires es != [] && KeyOf(es[0].0) !in Keys(rs)
    ensures Fold(es, rs, FilterStep(cb, keep)) == Fold(es[1..], rs + HeadKept(es, cb, keep), FilterStep(cb, keep))
    ensures Kept(es, cb, keep) == HeadKept(es, cb, keep) + Kept(es[1..], cb, keep)
  {
    if HeadKept(es, cb, keep) != [] {
      PutNew(rs, KeyOf(es[0].0), es[0].1);
    } else {
      assert rs + [] == rs;
    }
  }

  lemma FreshAfterFirst(es: seq<(Val, Val)>, rs: seq<(string, Val)>, cb: Callback, keep: bool)
    requires es != [] && DistinctKeys(es)
    requires forall i :: 0 <= i < |es| ==> KeyOf(es[i].0) !in Keys(rs)
    ensures DistinctKeys(es[1..])
    ensures forall i :: 0 <= i < |es[1..]| ==> KeyOf(es[1..][i].0) !in Keys(rs + HeadKept(es, cb, keep))
  {
    var h := HeadKept(es, cb, keep);
    forall i | 0 <= i < |es| - 1
      ensures KeyOf(es[1..][i].0) !in Keys(rs + h)
    {
      assert es[1..][i] == es[i + 1];
      assert Keys(rs + h) == Keys(rs) + Keys(h);
    }
  }

  /** With distinct keys, the traversal appends the kept entries to what it started from,
      since no kept key is already there. */
  lemma {:induction false} FilterFold(es: seq<(Val, Val)>, rs: seq<(string, Val)>, cb: Callback, keep: bool)
    requires DistinctKeys(es)
    requires forall i :: 0 <= i < |es| ==> KeyOf(es[i].0) !in Keys(rs)
    ensures Fold(es, rs, FilterStep(cb, keep)) == rs + Kept(es, cb, keep)
    decreases |es|
  {
    if es == [] {
      assert rs + [] == rs;
    } else {
      var h := HeadKept(es, cb, keep);
      FilterFirst(es, rs, cb, keep);
      FreshAfterFirst(es, rs, cb, keep);
      FilterFold(es[1..], rs + h, cb, keep);
      var k := Kept(es[1..], cb, keep);
      assert Fold(es, rs, FilterStep(cb, keep)) == (rs + h) + k;
      assert Kept(es, cb, keep) == h + k;
      AppendAssoc(rs, h, k);
    }
  }

  /** Each entry goes to exactly one of `pickBy` and `omitBy`. */
  lemma {:induction false} KeptSplits(es: seq<(Val, Val)>, cb: Callback)
    ensures multiset(Kept(es, cb, true)) + multiset(Kept(es, cb, false)) == multiset(AsProps(es))
    decreases |es|
  {
    if es != [] {
      KeptSplits(es[1..], cb);
      KeptHead(es, cb);
      SplitStep(HeadKept(es, cb, true), HeadKept(es, cb, false), Kept(es[1..], cb, true), Kept(es[1..], cb, false),
        (KeyOf(es[0].0), es[0].1), AsProps(es[1..]));
    }
  }

  /** The first entry goes to one side, and the rest is split the same way. */
  lemma KeptHead(es: seq<(Val, Val)>, cb: Callback)
    requires es != []
    ensures Kept(es, cb, true) == HeadKept(es, cb, true) + Kept(es[1..], cb, true)
    ensures Kept(es, cb, false) == HeadKept(es, cb, false) + Kept(es[1..], cb, false)
    ensures multiset(HeadKept(es, cb, true)) + multiset(HeadKept(es, cb, false)) == multiset{(KeyOf(es[0].0), es[0].1)}
    ensures AsProps(es) == [(KeyOf(es[0].0), es[0].1)] + AsProps(es[1..])
  {
    HeadSides(HeadKept(es, cb, true), HeadKept(es, cb, false), (KeyOf(es[0].0), es[0].1));
    AsPropsCons(es);
  }

  lemma HeadSides<T>(h1: seq<T>, h2: seq<T>, x: T)
    requires (h1 == [x] && h2 == []) || (h1 == [] && h2 == [x])
    ensures multiset(h1) + multiset(h2) == multiset{x}
  {
  }

  lemma AsPropsCons(es: seq<(Val, Val)>)
    requires es != []
    ensures AsProps(es) == [(KeyOf(es[0].0), es[0].1)] + AsProps(es[1..])
  {
    var ps, rest := AsProps(es), AsProps(es[1..]);
    assert forall i :: 0 <= i < |rest| ==> rest[i] == ps[i + 1];
  }

  lemma SplitStep<T>(h1: seq<T>, h2: seq<T>, a: seq<T>, b: seq<T>, x: T, c: seq<T>)
    requires multiset(a) + multiset(b) == multiset(c)
    requires multiset(h1) + multiset(h2) == multiset{x}
    ensures multiset(h1 + a) + multiset(h2 + b) == multiset([x] + c)
  {
  }

  /** The properties of an object with distinct keys have distinct entry keys. */
  lemma ObjectKeysDistinct(props: seq<(string, Val)>)
    requires UniqueKeys(props)
    ensures DistinctKeys(Entries(Obj(props)))
    ensures AsProps(Entries(Obj(props))) == props
  {
    var es := Entries(Obj(props));
    forall i, j | 0 <= i < j < |es|
      ensures KeyOf(es[i].0) != KeyOf(es[j].0)
    {
      UniqueSuffix(props, i);
      assert props[j] == props[i + 1..][j - i - 1];
    }
  }

  /** On an object with distinct keys, `pickBy` gives the properties whose value and key
      the predicate accepts, and `omitBy` the others, both in the object's order. */
  lemma PickByOmitBy(obj: Val, p: Option<Callback>)
    requires DistinctKeys(Entries(obj))
    ensures PickBy(obj, p).props == Kept(Entries(obj), PredicateOr(p), true)
    ensures OmitBy(obj, p).props == Kept(Entries(obj), PredicateOr(p), false)
    ensures multiset(PickBy(obj, p).props) + multiset(OmitBy(obj, p).props) == multiset(AsProps(Entries(obj)))
  {
    var es, cb := Entries(obj), PredicateOr(p);
    FilterFold(es, [], cb, true);
    assert [] + Kept(es, cb, true) == Kept(es, cb, true);
    FilterFold(es, [], cb, false);
    assert [] + Kept(es, cb, false) == Kept(es, cb, false);
    KeptSplits(es, cb);
  }

  /** Every property `pickBy` or `omitBy` writes is an entry of the collection, even when
      keys collide as strings. */
  lemma {:induction false} FilterFoldFrom(es: seq<(Val, Val)>, rs: seq<(string, Val)>, cb: Callback, keep: bool, x: (string, Val))
    requires x in Fold(es, rs, FilterStep(cb, keep))
    ensures x in rs || x in AsProps(es)
    decreases |es|
  {
    if es != [] {
      var k0 := KeyOf(es[0].0);
      var rs' := if Truthy(cb(es[0].1, es[0].0)) == keep then Put(rs, k0, es[0].1) else rs;
      FilterFoldFrom(es[1..], rs', cb, keep, x);
      if x in rs' && x !in rs {
        PutFrom(rs, k0, es[0].1, x);
        assert AsProps(es)[0] == x;
      }
      if x in AsProps(es[1..]) {
        var i :| 0 <= i < |es| - 1 && AsProps(es[1..])[i] == x;
        assert AsProps(es)[i + 1] == x;
      }
    }
  }

  lemma {:induction false} PutFrom(props: seq<(string, Val)>, k: string, v: Val, x: (string, Val))
    requires x in Put(props, k, v)
    ensures x in props || x == (k, v)
    decreases |props|
  {
    if props != [] && props[0].0 != k && x != props[0] {
      assert x in Put(props[1..], k, v);
      PutFrom(props[1..], k, v, x);
    }
  }

  // ---------------------------------------------------------------------------
  // pick / omit (src/object.ts:424-432, 473-481)

  /** `(v, k) => includes(keys, k)`. */
  function AmongKeys(keys: seq<Val>): Callback {
    (v, k) => Bool(Includes(Arr(keys), k, 0))
  }

  /** `pick(obj, ...props)`: `pickBy` with the keys of `flatDeep(props)`. */
  function Pick(obj: Val, props: seq<Val>): Val {
    PickBy(obj, Some(AmongKeys(Leaves(props))))
  }

  /** `omit(obj, ...props)`. */
  function Omit(obj: Val, props: seq<Val>): Val {
    OmitBy(obj, Some(AmongKeys(Leaves(props))))
  }

  /** The properties whose name is (`keep`) or is not among the names. */
  function Named(props: seq<(string, Val)>, names: seq<Val>, keep: bool): seq<(string, Val)>
    decreases |props|
  {
    if props == [] then []
    else (if (Str(props[0].0) in names) == keep then [props[0]] else []) + Named(props[1..], names, keep)
  }

  /** An object key is among the keys exactly when one of them is that string. */
  lemma AmongKeysMeaning(keys: seq<Val>, v: Val, name: string)
    ensures Truthy(AmongKeys(keys)(v, Str(name))) <==> Str(name) in keys
  {
    IncludesMeaning(Arr(keys), Str(name), 0);
    assert JsSlice(keys, 0, None) == keys;
  }

  lemma {:induction false} KeptNamed(props: seq<(string, Val)>, names: seq<Val>, keep: bool)
    ensures Kept(Entries(Obj(props)), AmongKeys(names), keep) == Named(props, names, keep)
    decreases |props|
  {
    if props != [] {
      var es := Entries(Obj(props));
      assert es[1..] == Entries(Obj(props[1..]));
      AmongKeysMeaning(names, props[0].1, props[0].0);
      KeptNamed(props[1..], names, keep);
    }
  }

  /** pick on an object keeps, in the object's order, the properties named anywhere in
      the (nested) name arguments, and omit keeps the others. */
  lemma PickOmitNamed(props: seq<(string, Val)>, names: seq<Val>)
    requires UniqueKeys(props)
    ensures Pick(Obj(props), names).props == Named(props, Leaves(names), true)
    ensures Omit(Obj(props), names).props == Named(props, Leaves(names), false)
  {
    ObjectKeysDistinct(props);
    PickByOmitBy(Obj(props), Some(AmongKeys(Leaves(names))));
    KeptNamed(props, Leaves(names), true);
    KeptNamed(props, Leaves(names), false);
  }

  /** pick({a:1, b:2, c:'3'}, ['b','a']) is {a:1, b:2}: the object's order, not the
      arguments'. */
  lemma PickExample(props: seq<(string, Val)>, names: seq<Val>)
    requires props == [("a", Num(1)), ("b", Num(2)), ("c", Str("3"))]
    requires names == [Arr([Str("b"), Str("a")])]
    ensures Pick(Obj(props), names) == Obj([("a", Num(1)), ("b", Num(2))])
  {
    PickExampleNames(names);
    PickExampleUnique(props);
    PickOmitNamed(props, names);
    PickExampleNamed(props, Leaves(names));
  }

  lemma PickExampleNames(names: seq<Val>)
    requires names == [Arr([Str("b"), Str("a")])]
    ensures Leaves(names) == [Str("b"), Str("a")]
  {
    assert Leaves([Str("a")]) == [Str("a")];
    assert Leaves([Str("b"), Str("a")]) == [Str("b"), Str("a")];
  }

  lemma PickExampleUnique(props: seq<(string, Val)>)
    requires props == [("a", Num(1)), ("b", Num(2)), ("c", Str("3"))]
    ensures UniqueKeys(props)
  {
    assert UniqueKeys(props[3..]);
    assert UniqueKeys(props[2..]);
    assert Keys(props[2..]) == ["c"];
    assert "b" != "c";
    assert UniqueKeys(props[1..]);
    assert Keys(props[1..]) == ["b", "c"];
    assert "a" !in ["b", "c"];
  }

  lemma PickExampleNamed(props: seq<(string, Val)>, keys: seq<Val>)
    requires props == [("a", Num(1)), ("b", Num(2)), ("c", Str("3"))]
    requires keys == [Str("b"), Str("a")]
    ensures Named(props, keys, true) == [("a", Num(1)), ("b", Num(2))]
  {
    assert Named(props[2..], keys, true) == [];
    assert Named(props[1..], keys, true) == [("b", Num(2))];
  }

  // ---------------------------------------------------------------------------
  // findKey (src/object.ts:866-882)

  function FindKeyStep(cb: Callback): Step<Val> {
    (rs: Val, v: Val, k: Val) => if Truthy(cb(v, k)) then (k, Bool(false)) else (rs, Undef)
  }

  /** `findKey(object, predicate)`. */
  function FindKey(c: Val, p: Arg): Val {
    Fold(Entries(c), Undef, FindKeyStep(Iteratee(p)))
  }

  lemma {:induction false} FindKeyFold(es: seq<(Val, Val)>, rs: Val, cb: Callback)
    ensures Fold(es, rs, FindKeyStep(cb)) == match FirstMatch(es, cb) case Some(i) => es[i].0 case None => rs
    decreases |es|
  {
    if es != [] && !Truthy(cb(es[0].1, es[0].0)) {
      FindKeyFold(es[1..], rs, cb);
    }
  }

  /** `findKey` gives the key of the first entry the predicate accepts, and undefined
      when it accepts none; it is the key of the value `find` gives. */
  lemma FindKeyMeaning(c: Val, p: Arg)
    ensures FindKey(c, p) == match FirstMatch(Entries(c), Iteratee(p)) case Some(i) => Entries(c)[i].0 case None => Undef
    ensures FirstMatch(Entries(c), Iteratee(p)).Some? ==>
      exists i :: 0 <= i < |Entries(c)| && Entries(c)[i] == (FindKey(c, p), Find(c, p))
  {
    FindKeyFold(Entries(c), Undef, Iteratee(p));
    FindFirstAndLast(c, p);
    if FirstMatch(Entries(c), Iteratee(p)).Some? {
      var i := FirstMatch(Entries(c), Iteratee(p)).value;
      assert Entries(c)[i] == (FindKey(c, p), Find(c, p));
    }
  }
}
