/**
 * The functions of src/array.ts that change the array they are given: `insert`,
 * `append`, `remove`, `pull` and `pop`. An array argument is a `JsArray` object whose
 * `items` these methods reassign, and each method is specified by a function of the
 * items it started from.
 */
module ArrayEdits {
  import opened JsValues
  import opened Is
  import opened Num
  import opened Utils
  import opened Coll

  // ---------------------------------------------------------------------------
  // insert / append (src/array.ts:678-712)

  /** Where `insert` puts its values: an index that is not a number or is negative
      becomes 0, and `splice` puts an index past the end at the end. NaN is a number, and
      `splice` reads it as 0. */
  function InsertAt(index: Val, len: nat): (k: nat)
    ensures k <= len
    ensures index.Num? && 0 <= index.n <= len ==> k == index.n
    ensures index.Num? && index.n > len ==> k == len
    ensures !(index.Num? && index.n > 0) ==> k == 0
  {
    if index.Num? && index.n >= 0 then (if index.n <= len then index.n else len) else 0
  }

  /** The items after `insert(array, index, ...values)`. */
  function Inserted(xs: seq<Val>, index: Val, values: seq<Val>): seq<Val> {
    var k := InsertAt(index, |xs|);
    xs[..k] + values + xs[k..]
  }

  /** The values sit at the insertion index, the elements before it keep their places,
      the ones after it move up by the number of values, and taking the values out again
      gives back the old items. */
  lemma InsertedMeaning(xs: seq<Val>, index: Val, values: seq<Val>)
    ensures SplicedAt(xs, InsertAt(index, |xs|), values, Inserted(xs, index, values))
  {
    Spliced(xs, InsertAt(index, |xs|), values, Inserted(xs, index, values));
  }

  /** `r` is `xs` with `values` put in at position `k`. */
  predicate SplicedAt(xs: seq<Val>, k: nat, values: seq<Val>, r: seq<Val>)
    requires k <= |xs|
  {
    |r| == |xs| + |values| &&
    (forall i :: 0 <= i < k ==> r[i] == xs[i]) &&
    (forall j :: 0 <= j < |values| ==> r[k + j] == values[j]) &&
    (forall i :: k <= i < |xs| ==> r[i + |values|] == xs[i]) &&
    r[..k] + r[k + |values|..] == xs
  }

  /** The values put in at position `k`, and taken out again. */
  lemma Spliced(xs: seq<Val>, k: nat, values: seq<Val>, r: seq<Val>)
    requires k <= |xs| && r == xs[..k] + values + xs[k..]
    ensures SplicedAt(xs, k, values, r)
  {
    assert r[..k] == xs[..k];
    assert r[k + |values|..] == xs[k..];
    assert xs[..k] + xs[k..] == xs;
  }

  /** `append` is `insert` at the end; an index that is negative or not a number inserts
      at the front. */
  lemma InsertEnds(xs: seq<Val>, index: Val, values: seq<Val>)
    ensures Inserted(xs, Num(|xs|), values) == xs + values
    ensures !(index.Num? && index.n > 0) ==> Inserted(xs, index, values) == values + xs
  {
    assert xs[..|xs|] == xs;
    assert xs[0..] == xs;
  }

  /** A JavaScript array object. */
  class JsArray {
    var items: seq<Val>

    constructor (xs: seq<Val>)
      ensures items == xs
    {
      items := xs;
    }

    /** `insert(array, index, ...values)` on an array: the values are spliced in and the
        same array is returned. */
    method Insert(index: Val, values: seq<Val>) returns (r: JsArray)
      modifies this
      ensures r == this && items == Inserted(old(items), index, values)
    {
      var k := InsertAt(index, |items|);
      items := items[..k] + values + items[k..];
      r := this;
    }

    /** `append(array, ...values)` on an array: the values are pushed and the same array
        is returned. */
    method Append(values: seq<Val>) returns (r: JsArray)
      modifies this
      ensures r == this && items == old(items) + values
    {
      items := items + values;
      r := this;
    }

    /** `remove(array, predicate)`: the elements on which the predicate is truthy are
        returned in order, and the others are moved down over them, in order, before the
        length is cut to their count. */
    method Remove(pred: Arg) returns (rs: seq<Val>)
      modifies this
      ensures rs == Filter(Arr(old(items)), pred)
      ensures items == Reject(Arr(old(items)), pred)
    {
      ghost var xs := items;
      ghost var es := Entries(Arr(xs));
      var itee := Iteratee(pred);
      rs := [];
      var i := 0;
      for l := 0 to |items|
        invariant |items| == |xs| && i <= l
        invariant forall j :: l <= j < |xs| ==> items[j] == xs[j]
        invariant rs == Select(es[..l], itee, true)
        invariant items[..i] == Select(es[..l], itee, false)
      {
        var item := items[l];
        var r := itee(item, Num(l));
        SelectSnoc(xs, itee, true, l);
        SelectSnoc(xs, itee, false, l);
        if Truthy(r) {
          rs := rs + [item];
        } else {
          items := items[i := item];
          i := i + 1;
        }
      }
      items := items[..i];
      assert es[..|xs|] == es;
      PartitionIsFilterReject(Arr(xs), pred);
    }

    /** `pull(array, ...values)`: `remove` with "is one of the values" as the predicate;
        the same array is returned. */
    method Pull(values: seq<Val>) returns (r: JsArray)
      modifies this
      ensures r == this && items == Reject(Arr(old(items)), Fun(OneOf(values)))
    {
      var _ := Remove(Fun(OneOf(values)));
      r := this;
    }

    /** `pop(array, index)` on an array. */
    method Pop(index: Val) returns (rs: Val)
      modifies this
      ensures rs == Popped(old(items), index).0 && items == Popped(old(items), index).1
    {
      var at := PopAt(index);
      if at.Some? {
        var i := at.value;
        if i < |items| {
          rs := items[i];
          items := items[..i] + items[i + 1..];
        } else {
          rs := Null;
        }
      } else if items == [] {
        rs := Undef;
      } else {
        rs := items[|items| - 1];
        items := items[..|items| - 1];
      }
    }
  }

  /** `insert` and `append` on a value that is not an array object: `toArray` makes a
      new array, which gets the values. */
  method InsertCopy(v: Val, index: Val, values: seq<Val>) returns (r: JsArray)
    ensures fresh(r) && r.items == Inserted(ToArray(v), index, values)
  {
    r := new JsArray(ToArray(v));
    r := r.Insert(index, values);
  }

  method AppendCopy(v: Val, values: seq<Val>) returns (r: JsArray)
    ensures fresh(r) && r.items == ToArray(v) + values
  {
    r := new JsArray(ToArray(v));
    r := r.Append(values);
  }

  // ---------------------------------------------------------------------------
  // remove / pull (src/array.ts:739-800)

  lemma {:induction false} SelectAppend(a: seq<(Val, Val)>, b: seq<(Val, Val)>, cb: Callback, keep: bool)
    ensures Select(a + b, cb, keep) == Select(a, cb, keep) + Select(b, cb, keep)
    decreases |a|
  {
    if a == [] {
      assert a + b == b;
    } else {
      assert (a + b)[0] == a[0];
      assert (a + b)[1..] == a[1..] + b;
      SelectAppend(a[1..], b, cb, keep);
    }
  }

  lemma SelectSnoc(xs: seq<Val>, cb: Callback, keep: bool, l: nat)
    requires l < |xs|
    ensures Select(Entries(Arr(xs))[..l + 1], cb, keep) ==
      Select(Entries(Arr(xs))[..l], cb, keep) + (if Truthy(cb(xs[l], Num(l))) == keep then [xs[l]] else [])
  {
    var es := Entries(Arr(xs));
    PrefixSnoc(es, l + 1);
    SelectAppend(es[..l], [es[l]], cb, keep);
    assert [es[l]][1..] == [];
  }

  /** An entry on which the predicate's truthiness is `keep` has its value kept. */
  lemma {:induction false} SelectComplete(es: seq<(Val, Val)>, cb: Callback, keep: bool, i: nat)
    requires i < |es| && Truthy(cb(es[i].1, es[i].0)) == keep
    ensures es[i].1 in Select(es, cb, keep)
    decreases i
  {
    if i > 0 {
      SelectComplete(es[1..], cb, keep, i - 1);
    }
  }

  /** `remove` loses nothing: what it returns and what it leaves are together the old
      elements; each returned one satisfies the predicate and each one left does not. */
  lemma RemoveSplits(xs: seq<Val>, pred: Arg)
    ensures multiset(Filter(Arr(xs), pred)) + multiset(Reject(Arr(xs), pred)) == multiset(xs)
    ensures forall x :: x in Filter(Arr(xs), pred) ==>
      exists i :: 0 <= i < |xs| && xs[i] == x && Truthy(Iteratee(pred)(x, Num(i)))
    ensures forall x :: x in Reject(Arr(xs), pred) ==>
      exists i :: 0 <= i < |xs| && xs[i] == x && !Truthy(Iteratee(pred)(x, Num(i)))
  {
    var es := Entries(Arr(xs));
    var cb := Iteratee(pred);
    PartitionIsFilterReject(Arr(xs), pred);
    SelectSplits(es, cb);
    assert ValuesOf(es) == xs;
    forall x | x in Filter(Arr(xs), pred)
      ensures exists i :: 0 <= i < |xs| && xs[i] == x && Truthy(cb(x, Num(i)))
    {
      SelectedFrom(xs, cb, true, x);
    }
    forall x | x in Reject(Arr(xs), pred)
      ensures exists i :: 0 <= i < |xs| && xs[i] == x && !Truthy(cb(x, Num(i)))
    {
      SelectedFrom(xs, cb, false, x);
    }
  }

  /** A value selected from an array's entries sits at an index where the callback
      answered as `keep` says. */
  lemma SelectedFrom(xs: seq<Val>, cb: Callback, keep: bool, x: Val)
    requires x in Select(Entries(Arr(xs)), cb, keep)
    ensures exists i :: 0 <= i < |xs| && xs[i] == x && Truthy(cb(x, Num(i))) == keep
  {
    var es := Entries(Arr(xs));
    SelectSound(es, cb, keep, x);
    var i :| 0 <= i < |es| && es[i].1 == x && Truthy(cb(es[i].1, es[i].0)) == keep;
    assert es[i] == (Num(i), xs[i]);
  }

  /** The predicate of `pull`: `includes(values, item)`. */
  function OneOf(values: seq<Val>): Callback {
    (item: Val, k: Val) => Bool(Includes(Arr(values), item, 0))
  }

  /** After `pull` an element is left exactly when it was there and equals none of the
      values (by SameValueZero, so NaN pulls NaN). */
  lemma PullMeaning(xs: seq<Val>, values: seq<Val>)
    ensures forall x :: x in Reject(Arr(xs), Fun(OneOf(values))) <==>
      x in xs && !(exists v :: v in values && Eq(v, x))
  {
    var es := Entries(Arr(xs));
    var cb := OneOf(values);
    PartitionIsFilterReject(Arr(xs), Fun(cb));
    assert JsSlice(values, 0, None) == values;
    forall x ensures Includes(Arr(values), x, 0) <==> exists v :: v in values && Eq(v, x) {
      IncludesMeaning(Arr(values), x, 0);
    }
    forall x | x in Reject(Arr(xs), Fun(cb)) ensures x in xs && !(exists v :: v in values && Eq(v, x)) {
      SelectSound(es, cb, false, x);
    }
    forall x | x in xs && !(exists v :: v in values && Eq(v, x))
      ensures x in Reject(Arr(xs), Fun(cb))
    {
      var i :| 0 <= i < |xs| && xs[i] == x;
      SelectComplete(es, cb, false, i);
    }
  }

  // ---------------------------------------------------------------------------
  // pop (src/array.ts:820-836)

  /** The index `pop` splices at, `None` when it pops the last element: `index || -1`
      turns every falsy index into -1, `toNumber` converts the rest, and a number above -1
      is truncated toward zero as `splice` does; NaN and numbers up to -1 pop the last. */
  function PopAt(index: Val): (at: Option<nat>)
    ensures !Truthy(index) ==> at.None?
  {
    var idx := if Truthy(index) then index else Num(-1);
    match LibToNumber(idx)
    case Fin(r) => if r > -1.0 then Some(Trunc(r)) else None
    case NotANumber => None
  }

  /** What `pop(array, index)` returns and the items it leaves: the element at the index,
      null when the index is past the end, and for the last element `undefined` when the
      array is empty. */
  function Popped(xs: seq<Val>, index: Val): (Val, seq<Val>) {
    match PopAt(index)
    case Some(i) => if i < |xs| then (xs[i], xs[..i] + xs[i + 1..]) else (Null, xs)
    case None => if xs == [] then (Undef, xs) else (xs[|xs| - 1], xs[..|xs| - 1])
  }

  /** A falsy index, the default included, and every number up to -1 pop the last
      element: pop(a, 0) does not take the first. */
  lemma PopLast(xs: seq<Val>, index: Val)
    requires !Truthy(index) || (index.Num? && index.n <= -1)
    ensures xs != [] ==> Popped(xs, index) == (xs[|xs| - 1], xs[..|xs| - 1])
    ensures xs == [] ==> Popped(xs, index) == (Undef, [])
  {
  }

  /** pop(a, i) for i >= 1 takes the element at i, or gives null and changes nothing when
      i is past the end. */
  lemma PopIndex(xs: seq<Val>, i: nat)
    requires i >= 1
    ensures i < |xs| ==> Popped(xs, Num(i)) == (xs[i], xs[..i] + xs[i + 1..])
    ensures i >= |xs| ==> Popped(xs, Num(i)) == (Null, xs)
  {
    assert PopAt(Num(i)) == Some(i);
  }

  /** `pop` undoes `append` of one value, and `pop(array, i)` undoes `insert(array, i, v)`
      for every i >= 1 up to the length. */
  lemma PopUndoesInsert(xs: seq<Val>, v: Val, i: nat)
    requires 1 <= i <= |xs|
    ensures Popped(xs + [v], Undef) == (v, xs)
    ensures Popped(Inserted(xs, Num(i), [v]), Num(i)) == (v, xs)
  {
    assert (xs + [v])[..|xs|] == xs;
    PopIndex(Inserted(xs, Num(i), [v]), i);
    var r := Inserted(xs, Num(i), [v]);
    assert r[..i] + r[i + 1..] == xs by {
      assert r[..i] == xs[..i];
      assert r[i + 1..] == xs[i..];
    }
  }

  /** The string '0' is truthy, so it escapes `index || -1`: pop(a, '0') takes the first
      element where pop(a, 0) takes the last. */
  lemma PopStringZero(xs: seq<Val>)
    requires |xs| >= 2
    ensures Popped(xs, Str("0")) == (xs[0], xs[1..])
    ensures Popped(xs, Num(0)) == (xs[|xs| - 1], xs[..|xs| - 1])
  {
    assert DigitsVal("0") == 0 by {
      assert "0"[..0] == "";
    }
    ParseDigits("0");
    assert LibToNumber(Str("0")) == Fin(0.0);
    assert PopAt(Str("0")) == Some(0);
    assert Popped(xs, Str("0")) == (xs[0], xs[..0] + xs[1..]);
    assert xs[..0] + xs[1..] == xs[1..];
    PopLast(xs, Num(0));
  }

  /** The index `pop` is documented to use, with the default written `index ?? -1`: only a
      missing index pops the last element, and pop(a, 0) removes the first. */
  function PopAtFixed(index: Val): (at: Option<nat>)
    ensures index == Undef || index == Null ==> at.None?
    ensures index.Num? && index.n >= 0 ==> at == Some(index.n)
  {
    var idx := if index == Undef || index == Null then Num(-1) else index;
    match LibToNumber(idx)
    case Fin(r) => if r > -1.0 then Some(Trunc(r)) else None
    case NotANumber => None
  }

  /** `pop` with the corrected default. */
  function PoppedFixed(xs: seq<Val>, index: Val): (Val, seq<Val>) {
    match PopAtFixed(index)
    case Some(i) => if i < |xs| then (xs[i], xs[..i] + xs[i + 1..]) else (Null, xs)
    case None => if xs == [] then (Undef, xs) else (xs[|xs| - 1], xs[..|xs| - 1])
  }

  /** With the corrected default `pop` undoes `append` of one value and `insert(array, i, v)`
      at every index up to the length, the index 0 included. */
  lemma PopFixedUndoesInsert(xs: seq<Val>, v: Val, i: nat)
    requires i <= |xs|
    ensures PoppedFixed(xs + [v], Undef) == (v, xs)
    ensures PoppedFixed(Inserted(xs, Num(i), [v]), Num(i)) == (v, xs)
  {
    assert (xs + [v])[..|xs|] == xs;
    var r := Inserted(xs, Num(i), [v]);
    InsertedMeaning(xs, Num(i), [v]);
    assert InsertAt(Num(i), |xs|) == i;
    assert r[..i] + r[i + 1..] == xs;
  }
}
