/**
 * Path access and key-by-key copying of src/object.ts.
 *
 * The source mutates its target object in place and returns it. Values here have no
 * identity, so every operation returns the updated target instead; a nested object that
 * the source updates through a reference is rebuilt and written back under its key.
 */
module Objects {
  import opened JsValues
  import opened Is
  import opened Num
  import opened Paths

  /** A write that may throw: assigning a property of a primitive is a TypeError in
      strict-mode code. */
  datatype Outcome = Ok(value: Val) | TypeError

  /** `ToPropertyKey`: the string a value names when used as `o[k]`. */
  function KeyOf(k: Val): string {
    ToJsString(k)
  }

  /** The length an assignment to an array's `length` sets: the value as a number, when it
      is a whole number below 2^32 (section 10.4.2.4 of ECMA-262, ArraySetLength). */
  function ArrayLength(v: Val): (n: Option<nat>)
    ensures n.Some? ==> n.value < 0x1_0000_0000
  {
    match ToNumber(v)
    case Fin(x) => if x.Floor as real == x && 0 <= x.Floor < 0x1_0000_0000 then Some(x.Floor) else None
    case NotANumber => None
  }

  /** The elements of an array whose length is set to `n`: cut to the first `n`, or grown
      with undefined slots. */
  function Resized(items: seq<Val>, n: nat): (r: seq<Val>)
    ensures |r| == n
    ensures forall i :: 0 <= i < n ==> r[i] == if i < |items| then items[i] else Undef
  {
    if n <= |items| then items[..n] else items + seq(n - |items|, _ => Undef)
  }

  /** The elements after `a.length = v`; a length that is not a whole number below 2^32
      throws a RangeError in the source and is ignored here. */
  function SetLength(items: seq<Val>, v: Val): (r: seq<Val>)
    ensures ArrayLength(v).None? ==> r == items
  {
    match ArrayLength(v)
    case Some(n) => Resized(items, n)
    case None => items
  }

  /** `t[k] = v` on an object. A plain object gets the key overwritten or appended; an array
      gets the index written, growing with undefined slots when it is past the end, or its
      `length` set, which cuts or grows it. */
  function Write(t: Val, k: string, v: Val): (r: Val)
    requires IsObjectVal(t)
    ensures IsObjectVal(r)
    ensures t.Obj? ==> r == Obj(Put(t.props, k, v))
    ensures t.Arr? ==> r.Arr?
  {
    match t
    case Obj(props) => Obj(Put(props, k, v))
    case Arr(items) => Arr(WriteItems(items, k, v))
    case _ => t
  }

  /** The elements of an array after `a[k] = v`: the index written, growing with undefined
      slots when it is past the end, or the length set. Any other key leaves them as they
      are. */
  function WriteItems(items: seq<Val>, k: string, v: Val): (r: seq<Val>)
    ensures IndexKey(k).None? && k != "length" ==> r == items
  {
    if k == "length" then SetLength(items, v)
    else
      match IndexKey(k)
      case Some(i) =>
        if i < |items| then items[i := v]
        else items + seq(i - |items|, _ => Undef) + [v]
      case None => items
  }

  /** Setting an array's `length` to a whole number below 2^32 reads back as that length,
      keeps the elements below both lengths and fills the rest with undefined. */
  lemma WriteLength(items: seq<Val>, v: Val, n: nat)
    requires ArrayLength(v) == Some(n)
    ensures GetMember(Write(Arr(items), "length", v), "length") == Num(n)
    ensures forall i :: 0 <= i < n && i < |items| ==> Write(Arr(items), "length", v).items[i] == items[i]
    ensures forall i :: |items| <= i < n ==> Write(Arr(items), "length", v).items[i] == Undef
  {
  }

  lemma IndexKeyNotLength(k: string)
    requires IndexKey(k).Some?
    ensures k != "length"
  {
  }

  /** Reading back a key just written to a plain object, or an index just written to an
      array, gives the written value. */
  lemma WriteRead(t: Val, k: string, v: Val)
    requires t.Obj? || (t.Arr? && IndexKey(k).Some?)
    ensures GetMember(Write(t, k, v), k) == v
  {
    if t.Arr? {
      IndexKeyNotLength(k);
    }
  }

  /** Writing one key of a plain object leaves every other key as it was. */
  lemma WriteOther(t: Val, k: string, v: Val, k2: string)
    requires t.Obj? && k2 != k
    ensures GetMember(Write(t, k, v), k2) == GetMember(t, k2)
  {
  }

  // ---------------------------------------------------------------------------
  // get (src/object.ts:353-368)

  /** The walk of `get`: follow the segments, stopping at the first falsy value. */
  function Walk(t: Val, segs: seq<string>): Val
    decreases |segs|
  {
    if segs == [] then t
    else
      var n := GetMember(t, segs[0]);
      if !Truthy(n) then n else Walk(n, segs[1..])
  }

  function GetSpec(obj: Val, segs: seq<string>, dflt: Val): Val {
    if !IsObject(obj) then dflt
    else
      var t := Walk(obj, segs);
      if t == Undef then dflt else t
  }

  /** `get(obj, path, defaultValue)`. */
  method Get(obj: Val, path: Val, dflt: Val) returns (r: Val)
    ensures r == GetSpec(obj, ToPath(path), dflt)
  {
    if !IsObject(obj) {
      return dflt;
    }
    var chain := ToPath(path);
    var target := obj;
    var i := 0;
    while i < |chain|
      invariant 0 <= i <= |chain|
      invariant Walk(target, chain[i..]) == Walk(obj, chain)
    {
      var next := GetMember(target, chain[i]);
      WalkStep(target, chain, i);
      target := next;
      if !Truthy(target) {
        break;
      }
      i := i + 1;
    }
    if target == Undef {
      target := dflt;
    }
    r := target;
  }

  /** One segment of the walk: read it, and stop at a falsy value. */
  lemma WalkStep(t: Val, segs: seq<string>, i: nat)
    requires i < |segs|
    ensures var n := GetMember(t, segs[i]);
      Walk(t, segs[i..]) == if !Truthy(n) then n else Walk(n, segs[i + 1..])
  {
    assert segs[i..][1..] == segs[i + 1..];
  }

  /** A non-object gives the default whatever the path. */
  lemma GetOfNonObject(obj: Val, segs: seq<string>, dflt: Val)
    requires !IsObjectVal(obj)
    ensures GetSpec(obj, segs, dflt) == dflt
  {
  }

  /** The walk stops at a falsy intermediate value and returns it unless it is undefined:
      get({a: 0}, 'a.b', 'd') is 0, not 'd'. */
  lemma GetStopsAtFalsy()
    ensures GetSpec(Obj([("a", Num(0))]), ["a", "b"], Str("d")) == Num(0)
    ensures GetSpec(Obj([("a", Null)]), ["a", "b"], Str("d")) == Null
    ensures GetSpec(Obj([]), ["a", "b"], Str("d")) == Str("d")
  {
  }

  /** get([1, 2, 3], 1) is 2. */
  lemma GetArrayIndex()
    ensures GetSpec(Arr([Num(1), Num(2), Num(3)]), ToPath(Num(1)), Undef) == Num(2)
  {
    ToPathOfNumber();
    assert IndexKey("1") == Some(1) by {
      assert "1"[..0] == "";
    }
  }

  /** get({a: {b: [{x: 'Holyhigh'}]}}, 'a.b[0].x') is 'Holyhigh'. */
  lemma GetNested(s: string)
    requires s == "Holyhigh"
    ensures GetSpec(Obj([("a", Obj([("b", Arr([Obj([("x", Str(s))])]))]))]), ["a", "b", "0", "x"], Undef) == Str(s)
  {
    assert IndexKey("0") == Some(0) by {
      assert "0"[..0] == "";
    }
    var segs := ["a", "b", "0", "x"];
    assert segs[1..][1..][1..][1..] == [];
  }

  // ---------------------------------------------------------------------------
  // set (src/object.ts:386-407)

  /** The container `set` creates for a missing intermediate: an array when the next
      segment is numeric by the global `isNaN`, a plain object otherwise. */
  function Fresh(nextSeg: string): (r: Val)
    ensures r == Obj([]) || r == Arr([])
  {
    if ParseNumeric(nextSeg).NotANumber? then Obj([]) else Arr([])
  }

  /** `target[seg] = v` where the target may be a primitive. */
  function WriteAny(t: Val, k: string, v: Val): Outcome {
    if IsObjectVal(t) then Ok(Write(t, k, v)) else TypeError
  }

  /** The loop of `set` from `target` on. While the next segment is truthy the slot is
      filled (an existing truthy value is kept, otherwise a fresh container) and the walk
      descends into it; at the last segment, or before an empty one, the value is written. */
  function SetSegs(t: Val, segs: seq<string>, value: Val): Outcome
    requires segs != []
    decreases |segs|
  {
    var seg := segs[0];
    if |segs| == 1 || segs[1] == "" then WriteAny(t, seg, value)
    else
      var tmp := GetMember(t, seg);
      var slot := if !Truthy(tmp) then Fresh(segs[1]) else tmp;
      if !IsObjectVal(t) then TypeError
      else
        match SetSegs(slot, segs[1..], value)
        case Ok(child) => Ok(Write(t, seg, child))
        case TypeError => TypeError
  }

  /** `set(obj, path, value)`: a non-object is returned as it is. */
  function Set(obj: Val, path: Val, value: Val): Outcome {
    if !IsObject(obj) then Ok(obj) else SetSegs(obj, ToPath(path), value)
  }

  /** The path can be written and read back: every segment is non-empty, and every
      container on the way (existing or created) is a plain object, or an array indexed
      by a canonical index. */
  predicate Reaches(t: Val, segs: seq<string>)
    requires segs != []
    decreases |segs|
  {
    segs[0] != "" &&
    (t.Obj? || (t.Arr? && IndexKey(segs[0]).Some?)) &&
    (|segs| > 1 ==>
      segs[1] != "" &&
      var tmp := GetMember(t, segs[0]);
      Reaches(if !Truthy(tmp) then Fresh(segs[1]) else tmp, segs[1..]))
  }

  /** What `set` writes, `get` reads back. */
  lemma {:induction false} SetThenGet(t: Val, segs: seq<string>, value: Val)
    requires segs != [] && Reaches(t, segs)
    ensures SetSegs(t, segs, value).Ok?
    ensures Walk(SetSegs(t, segs, value).value, segs) == value
    decreases |segs|
  {
    var seg := segs[0];
    if |segs| == 1 {
      WriteRead(t, seg, value);
      var r := Write(t, seg, value);
      assert SetSegs(t, segs, value) == Ok(r);
      assert segs[1..] == [];
      assert Walk(r, segs) == GetMember(r, seg);
    } else {
      var tmp := GetMember(t, seg);
      var slot := if !Truthy(tmp) then Fresh(segs[1]) else tmp;
      assert Reaches(slot, segs[1..]);
      SetThenGet(slot, segs[1..], value);
      var child := SetSegs(slot, segs[1..], value).value;
      SetKeepsObject(slot, segs[1..], value);
      var r := Write(t, seg, child);
      assert SetSegs(t, segs, value) == Ok(r);
      WriteRead(t, seg, child);
      assert Truthy(child);
      assert Walk(r, segs) == Walk(child, segs[1..]);
    }
  }

  /** Writing into an object container gives an object container. */
  lemma {:induction false} SetKeepsObject(t: Val, segs: seq<string>, value: Val)
    requires segs != [] && IsObjectVal(t) && SetSegs(t, segs, value).Ok?
    ensures IsObjectVal(SetSegs(t, segs, value).value)
  {
  }

  /** `set` then `get` along a reachable path gives the value, or the default for undefined. */
  lemma SetThenGetSpec(obj: Val, segs: seq<string>, value: Val, dflt: Val)
    requires segs != [] && Reaches(obj, segs)
    ensures SetSegs(obj, segs, value).Ok?
    ensures GetSpec(SetSegs(obj, segs, value).value, segs, dflt) == if value == Undef then dflt else value
  {
    SetThenGet(obj, segs, value);
    SetKeepsObject(obj, segs, value);
  }

  /** `set` changes no other top-level key of a plain object. */
  lemma SetOtherKeys(props: seq<(string, Val)>, segs: seq<string>, value: Val, k: string)
    requires segs != [] && k != segs[0] && SetSegs(Obj(props), segs, value).Ok?
    ensures GetMember(SetSegs(Obj(props), segs, value).value, k) == Prop(props, k)
  {
  }

  /** An empty segment ends the walk early: the value lands on the segment before it, so
      set(o, 'a..b', v) writes o.a. */
  lemma SetBeforeEmptySegment(props: seq<(string, Val)>, value: Val)
    ensures SetSegs(Obj(props), ["a", "", "b"], value) == Ok(Obj(Put(props, "a", value)))
  {
  }

  /** A primitive on the way makes the write throw: set({a: 1}, 'a.b', 2) is a TypeError. */
  lemma SetThroughPrimitive()
    ensures SetSegs(Obj([("a", Num(1))]), ["a", "b"], Num(2)) == TypeError
  {
    var segs := ["a", "b"];
    assert segs[1..] == ["b"];
    assert GetMember(Obj([("a", Num(1))]), "a") == Num(1);
    assert SetSegs(Num(1), ["b"], Num(2)) == TypeError;
  }

  lemma ParseLetters(s: string)
    requires s == "c" || s == "x"
    ensures ParseNumeric(s).NotANumber?
  {
    TrimUnchanged(s);
    assert DotAt(s) == 1;
    assert s[..1] == s;
    assert !IsDigit(s[0]);
  }

  lemma SetLeafStep(v: Val)
    ensures SetSegs(Obj([]), ["x"], v) == Ok(Obj([("x", v)]))
  {
  }

  lemma SetIndexStep(v: Val)
    ensures SetSegs(Arr([]), ["1", "x"], v) == Ok(Arr([Undef, Obj([("x", v)])]))
  {
    SetIndexStepAt(["1", "x"], v);
  }

  lemma SetIndexStepAt(segs: seq<string>, v: Val)
    requires segs == ["1", "x"]
    ensures SetSegs(Arr([]), segs, v) == Ok(Arr([Undef, Obj([("x", v)])]))
  {
    ParseLetters("x");
    assert Fresh("x") == Obj([]);
    IndexOne();
    assert segs[1..] == ["x"];
    SetLeafStep(v);
    WriteSlotOne(Obj([("x", v)]));
  }

  lemma IndexOne()
    ensures IndexKey("1") == Some(1) && GetMember(Arr([]), "1") == Undef
  {
    assert "1"[..0] == "";
  }

  lemma WriteSlotOne(child: Val)
    ensures Write(Arr([]), "1", child) == Arr([Undef, child])
  {
    IndexOne();
    assert [] + seq(1, _ => Undef) + [child] == [Undef, child];
  }

  lemma SetArraySlotStep(v: Val)
    ensures SetSegs(Obj([]), ["c", "1", "x"], v) == Ok(Obj([("c", Arr([Undef, Obj([("x", v)])]))]))
  {
    SetArraySlotStepAt(["c", "1", "x"], v);
  }

  lemma SetArraySlotStepAt(segs: seq<string>, v: Val)
    requires segs == ["c", "1", "x"]
    ensures SetSegs(Obj([]), segs, v) == Ok(Obj([("c", Arr([Undef, Obj([("x", v)])]))]))
  {
    ParseDigits("1");
    assert "1"[..0] == "";
    assert Fresh("1") == Arr([]);
    assert segs[1..] == ["1", "x"];
    SetIndexStep(v);
    var child := Arr([Undef, Obj([("x", v)])]);
    assert GetMember(Obj([]), "c") == Undef;
    SetStepDown(Obj([]), segs, v, child);
    assert Write(Obj([]), "c", child) == Obj([("c", child)]);
  }

  /** A path of two segments or more through a missing key writes, under that key, the
      container created for the next segment with the rest of the path set in it. */
  lemma SetStepDown(t: Val, segs: seq<string>, v: Val, child: Val)
    requires |segs| > 1 && segs[1] != "" && IsObjectVal(t) && !Truthy(GetMember(t, segs[0]))
    requires SetSegs(Fresh(segs[1]), segs[1..], v) == Ok(child)
    ensures SetSegs(t, segs, v) == Ok(Write(t, segs[0], child))
  {
  }

  /** Before a segment that is a name, `set` creates a plain object. */
  lemma FreshForName()
    ensures Fresh("c") == Obj([])
  {
    ParseLetters("c");
  }

  /** One step of `set` through a missing slot: the rest of the path is written into the
      container made fresh for its first segment, and the result is stored under `seg`. */
  lemma SetMissingStep(t: Val, segs: seq<string>, v: Val, child: Val)
    requires IsObjectVal(t) && |segs| > 1 && segs[1] != "" && !Truthy(GetMember(t, segs[0]))
    requires SetSegs(Fresh(segs[1]), segs[1..], v) == Ok(child)
    ensures SetSegs(t, segs, v) == Ok(Write(t, segs[0], child))
  {
  }

  lemma SetExamplePath(segs: seq<string>)
    requires segs == ["b", "c", "1", "x"]
    ensures segs[0] == "b" && segs[1] == "c" && segs[1..] == ["c", "1", "x"]
  {
  }

  lemma PutAfterOne(p: (string, Val), k: string, v: Val)
    requires p.0 != k
    ensures Put([p], k, v) == [p, (k, v)]
  {
    assert [p][1..] == [];
  }

  /** set([1, 2, 3], 'length', 1) is [1]: the write to `length` cuts the array. */
  lemma SetLengthExample()
    ensures Set(Arr([Num(1), Num(2), Num(3)]), Str("length"), Num(1)) == Ok(Arr([Num(1)]))
  {
    ToPathOfPlain("length");
    assert ArrayLength(Num(1)) == Some(1);
    assert [Num(1), Num(2), Num(3)][..1] == [Num(1)];
  }

  /** set({a: 1}, 'b.c.1.x', 10) is {a: 1, b: {c: [undefined, {x: 10}]}}: a missing slot
      followed by a numeric segment becomes an array, by any other segment an object. */
  lemma SetCreatesContainers(t: Val, v: Val)
    requires t == Obj([("a", Num(1))]) && v == Num(10)
    ensures SetSegs(t, ["b", "c", "1", "x"], v) ==
      Ok(Obj([("a", Num(1)), ("b", Obj([("c", Arr([Undef, Obj([("x", Num(10))])]))]))]))
  {
    FreshForName();
    SetArraySlotStep(v);
    var child := Obj([("c", Arr([Undef, Obj([("x", v)])]))]);
    assert GetMember(t, "b") == Undef;
    var segs := ["b", "c", "1", "x"];
    SetExamplePath(segs);
    SetMissingStep(t, segs, v, child);
    PutAfterOne(("a", Num(1)), "b", child);
  }

  // ---------------------------------------------------------------------------
  // assignWith / eachSources (src/object.ts:68-137)

  /** A copy handler receives the source value, the current target value and the key;
      its result is stored. */
  type Handler = (Val, Val, string) -> Val

  /** The handler of `assign`: the source value. */
  function CopyHandler(): Handler {
    (sv: Val, tv: Val, k: string) => sv
  }

  /** One source's own entries copied into `t` in key order, storing the handler's value. */
  function AssignEntries(t: Val, es: seq<(string, Val)>, h: Handler): (r: Val)
    requires IsObjectVal(t)
    ensures IsObjectVal(r) && (t.Obj? ==> r.Obj?)
    decreases |es|
  {
    if es == [] then t
    else AssignEntries(Write(t, es[0].0, h(es[0].1, GetMember(t, es[0].0), es[0].0)), es[1..], h)
  }

  /** The sources in order; those that are not objects are skipped. */
  function AssignSources(t: Val, sources: seq<Val>, h: Handler): (r: Val)
    requires IsObjectVal(t)
    ensures IsObjectVal(r)
    decreases |sources|
  {
    if sources == [] then t
    else
      var src := sources[0];
      AssignSources(if IsObjectVal(src) then AssignEntries(t, OwnEntries(src), h) else t, sources[1..], h)
  }

  /** What `assignWith`, `defaults`, `defaultsDeep` and `mergeWith` return: the updated
      target or a new object (`Plain`), or the wrapper object `new p.constructor(p)` that
      boxes a primitive target `p` (`Boxed`): a Number, String or Boolean object whose
      primitive value is `p`. */
  datatype Returned = Plain(value: Val) | Boxed(prim: Val)

  /** `checkTarget(target)` (src/object.ts:102-112), the early answer of the four copying
      operations: null or undefined gives a new empty object, a primitive its wrapper object,
      and an object goes on to be copied into. */
  function CheckTarget(target: Val): (r: Option<Returned>)
    ensures r.None? <==> IsObject(target)
    ensures r.Some? ==> r.value.Plain? == IsNil(target)
  {
    if IsNil(target) then Some(Plain(Obj([])))
    else if !IsObject(target) then Some(Boxed(target))
    else None
  }

  /** A null or undefined target gives a new empty object and a primitive target its
      wrapper, both before any source is read. */
  function AssignWithSpec(target: Val, sources: seq<Val>, h: Handler): Returned {
    match CheckTarget(target)
    case Some(early) => early
    case None => Plain(AssignSources(target, sources, h))
  }

  /** `assignWith(target, ...sources, handler)`; `assign` passes `CopyHandler()`. */
  method AssignWith(target: Val, sources: seq<Val>, h: Handler) returns (r: Returned)
    ensures r == AssignWithSpec(target, sources, h)
    ensures r.Plain? ==> IsObject(r.value)
  {
    var early := CheckTarget(target);
    if early.Some? {
      return early.value;
    }
    var t := target;
    var i := 0;
    while i < |sources|
      invariant 0 <= i <= |sources|
      invariant IsObjectVal(t)
      invariant AssignSources(t, sources[i..], h) == AssignSources(target, sources, h)
    {
      var src := sources[i];
      AssignSourcesStep(t, sources, i, h);
      if IsObjectVal(src) {
        var es := OwnEntries(src);
        var t0 := t;
        var j := 0;
        while j < |es|
          invariant 0 <= j <= |es|
          invariant IsObjectVal(t)
          invariant AssignEntries(t, es[j..], h) == AssignEntries(t0, es, h)
        {
          var k := es[j].0;
          AssignEntriesStep(t, es, j, h);
          t := Write(t, k, h(es[j].1, GetMember(t, k), k));
          j := j + 1;
        }
      }
      i := i + 1;
    }
    r := Plain(t);
  }

  lemma AssignSourcesStep(t: Val, sources: seq<Val>, i: nat, h: Handler)
    requires IsObjectVal(t) && i < |sources|
    ensures AssignSources(t, sources[i..], h) ==
      AssignSources(if IsObjectVal(sources[i]) then AssignEntries(t, OwnEntries(sources[i]), h) else t,
        sources[i + 1..], h)
  {
    assert sources[i..][1..] == sources[i + 1..];
  }

  lemma AssignEntriesStep(t: Val, es: seq<(string, Val)>, j: nat, h: Handler)
    requires IsObjectVal(t) && j < |es|
    ensures AssignEntries(t, es[j..], h) ==
      AssignEntries(Write(t, es[j].0, h(es[j].1, GetMember(t, es[j].0), es[j].0)), es[j + 1..], h)
  {
    assert es[j..][1..] == es[j + 1..];
  }

  /** The last source holding `k` decides, if any does. */
  function LastHolder(sources: seq<Val>, k: string): Option<Val> {
    if sources == [] then None
    else
      match LastHolder(sources[1..], k)
      case Some(v) => Some(v)
      case None => if IsObjectVal(sources[0]) && k in OwnKeys(sources[0]) then Some(GetMember(sources[0], k)) else None
  }

  lemma {:induction false} AssignEntriesCopy(t: Val, es: seq<(string, Val)>, k: string)
    requires t.Obj? && UniqueKeys(es)
    ensures AssignEntries(t, es, CopyHandler()).Obj?
    ensures GetMember(AssignEntries(t, es, CopyHandler()), k) == if k in Keys(es) then Prop(es, k) else GetMember(t, k)
    decreases |es|
  {
    if es != [] {
      var t1 := Write(t, es[0].0, es[0].1);
      AssignEntriesCopy(t1, es[1..], k);
      if k == es[0].0 {
        assert k !in Keys(es[1..]);
      }
    }
  }

  lemma OwnEntriesObj(src: Val)
    requires src.Obj? && WF(src)
    ensures UniqueKeys(OwnEntries(src)) && OwnKeys(src) == Keys(OwnEntries(src))
    ensures forall k :: GetMember(src, k) == Prop(OwnEntries(src), k)
  {
  }

  /** `assign`: for plain-object sources later ones overwrite earlier ones; a key no source
      holds keeps the target's value. */
  lemma {:induction false} AssignLastWins(t: Val, sources: seq<Val>, k: string)
    requires t.Obj?
    requires forall i :: 0 <= i < |sources| ==> sources[i].Obj? && WF(sources[i])
    ensures AssignSources(t, sources, CopyHandler()).Obj?
    ensures GetMember(AssignSources(t, sources, CopyHandler()), k) ==
      match LastHolder(sources, k) case Some(v) => v case None => GetMember(t, k)
    decreases |sources|
  {
    if sources != [] {
      var src := sources[0];
      OwnEntriesObj(src);
      AssignEntriesCopy(t, OwnEntries(src), k);
      var t1 := AssignEntries(t, OwnEntries(src), CopyHandler());
      AssignLastWins(t1, sources[1..], k);
    }
  }

  /** With one plain-object source, the handler's result is what each of its keys holds. */
  lemma {:induction false} AssignWithStoresHandler(t: Val, es: seq<(string, Val)>, h: Handler, k: string)
    requires t.Obj? && UniqueKeys(es) && k in Keys(es)
    ensures GetMember(AssignEntries(t, es, h), k) == h(Prop(es, k), GetMember(t, k), k)
    decreases |es|
  {
    var t1 := Write(t, es[0].0, h(es[0].1, GetMember(t, es[0].0), es[0].0));
    if k == es[0].0 {
      assert k !in Keys(es[1..]);
      AssignEntriesOthers(t1, es[1..], h, k);
    } else {
      AssignWithStoresHandler(t1, es[1..], h, k);
    }
  }

  /** Keys the entries do not mention are left alone. */
  lemma {:induction false} AssignEntriesOthers(t: Val, es: seq<(string, Val)>, h: Handler, k: string)
    requires t.Obj? && k !in Keys(es)
    ensures AssignEntries(t, es, h).Obj?
    ensures GetMember(AssignEntries(t, es, h), k) == GetMember(t, k)
    decreases |es|
  {
    if es != [] {
      var t1 := Write(t, es[0].0, h(es[0].1, GetMember(t, es[0].0), es[0].0));
      AssignEntriesOthers(t1, es[1..], h, k);
    }
  }

  /** assign(null, {a: 1}) is {}: a nil target returns a new object before any source is read. */
  lemma AssignNilTarget(sources: seq<Val>, h: Handler)
    ensures AssignWithSpec(Null, sources, h) == Plain(Obj([]))
    ensures AssignWithSpec(Undef, sources, h) == Plain(Obj([]))
  {
  }

  /** A primitive target is boxed and returned before any source is read, by each of the
      four copying operations: assign(1, {a: 2}) is the Number object for 1, and nothing
      is copied. */
  lemma PrimitiveTargetBoxed(target: Val, sources: seq<Val>, h: Handler, mh: MergeHandler)
    requires !IsObject(target) && !IsNil(target)
    ensures AssignWithSpec(target, sources, h) == Boxed(target)
    ensures DefaultsSpec(target, sources) == Boxed(target)
    ensures DefaultsDeepSpec(target, sources) == Boxed(target)
    ensures MergeWithSpec(target, sources, mh) == Boxed(target)
    ensures AssignWithSpec(Num(1), [Obj([("a", Num(2))])], CopyHandler()) == Boxed(Num(1))
  {
  }

  /** assignWith({x: 1}, {y: 3, z: 4}, (sv, tv, k) => k == 'z' ? null : sv + k) is
      {x: 1, y: '3y', z: null}. */
  lemma AssignWithExample(t: Val, src: Val, h: Handler)
    requires t == Obj([("x", Num(1))]) && src == Obj([("y", Num(3)), ("z", Num(4))])
    requires h == ((sv: Val, tv: Val, k: string) => if k == "z" then Null else Str(ToJsString(sv) + k))
    ensures AssignWithSpec(t, [src], h) == Plain(Obj([("x", Num(1)), ("y", Str("3y")), ("z", Null)]))
  {
    AssignWithHandler(h);
    AssignTwo(t, ("y", Num(3)), ("z", Num(4)), h);
    MissingAfterOne(("x", Num(1)), "y");
    PutAfterOne(("x", Num(1)), "y", Str("3y"));
    MissingAfterTwo(("x", Num(1)), ("y", Str("3y")), "z");
    PutAfterTwo(("x", Num(1)), ("y", Str("3y")), "z", Null);
  }

  lemma AssignWithHandler(h: Handler)
    requires h == ((sv: Val, tv: Val, k: string) => if k == "z" then Null else Str(ToJsString(sv) + k))
    ensures h(Num(3), Undef, "y") == Str("3y") && h(Num(4), Undef, "z") == Null
  {
    assert IntToStr(3) == "3";
  }

  lemma MissingAfterOne(p: (string, Val), k: string)
    requires p.0 != k
    ensures GetMember(Obj([p]), k) == Undef
  {
    assert [p][1..] == [];
  }

  lemma MissingAfterTwo(p: (string, Val), q: (string, Val), k: string)
    requires p.0 != k && q.0 != k
    ensures GetMember(Obj([p, q]), k) == Undef
  {
    assert [p, q][1..] == [q] && [q][1..] == [];
  }

  /** Assigning one object with two entries into a plain object writes the two in order. */
  lemma AssignTwo(t: Val, e1: (string, Val), e2: (string, Val), h: Handler)
    requires t.Obj?
    ensures var t1 := Write(t, e1.0, h(e1.1, GetMember(t, e1.0), e1.0));
      AssignWithSpec(t, [Obj([e1, e2])], h) == Plain(Write(t1, e2.0, h(e2.1, GetMember(t1, e2.0), e2.0)))
  {
    var es := [e1, e2];
    var src := Obj(es);
    assert [src][1..] == [] && es[1..] == [e2] && [e2][1..] == [];
    assert OwnEntries(src) == es;
    assert AssignSources(t, [src], h) == AssignSources(AssignEntries(t, es, h), [], h);
    assert AssignWithSpec(t, [src], h) == Plain(AssignEntries(t, es, h));
    var t1 := Write(t, e1.0, h(e1.1, GetMember(t, e1.0), e1.0));
    assert AssignEntries(t, es, h) == AssignEntries(t1, [e2], h);
  }

  lemma PutAfterTwo(p: (string, Val), q: (string, Val), k: string, v: Val)
    requires p.0 != k && q.0 != k
    ensures Put([p, q], k, v) == [p, q, (k, v)]
  {
    assert [p, q][1..] == [q];
    PutAfterOne(q, k, v);
  }

  // ---------------------------------------------------------------------------
  // defaults (src/object.ts:710-723)

  function DefaultsEntries(t: Val, es: seq<(string, Val)>): (r: Val)
    requires IsObjectVal(t)
    ensures IsObjectVal(r)
    decreases |es|
  {
    if es == [] then t
    else
      var k := es[0].0;
      DefaultsEntries(if GetMember(t, k) == Undef then Write(t, k, es[0].1) else t, es[1..])
  }

  function DefaultsSources(t: Val, sources: seq<Val>): (r: Val)
    requires IsObjectVal(t)
    ensures IsObjectVal(r)
    decreases |sources|
  {
    if sources == [] then t
    else
      var src := sources[0];
      DefaultsSources(if IsObjectVal(src) then DefaultsEntries(t, OwnEntries(src)) else t, sources[1..])
  }

  function DefaultsSpec(target: Val, sources: seq<Val>): Returned {
    match CheckTarget(target)
    case Some(early) => early
    case None => Plain(DefaultsSources(target, sources))
  }

  /** `defaults(target, ...sources)`: a key is written only while the target holds
      undefined there. */
  method Defaults(target: Val, sources: seq<Val>) returns (r: Returned)
    ensures r == DefaultsSpec(target, sources)
    ensures r.Plain? ==> IsObject(r.value)
  {
    var early := CheckTarget(target);
    if early.Some? {
      return early.value;
    }
    var t := target;
    var i := 0;
    while i < |sources|
      invariant 0 <= i <= |sources|
      invariant IsObjectVal(t)
      invariant DefaultsSources(t, sources[i..]) == DefaultsSources(target, sources)
    {
      var src := sources[i];
      assert sources[i..][1..] == sources[i + 1..];
      if IsObjectVal(src) {
        var es := OwnEntries(src);
        var t0 := t;
        var j := 0;
        while j < |es|
          invariant 0 <= j <= |es|
          invariant IsObjectVal(t)
          invariant DefaultsEntries(t, es[j..]) == DefaultsEntries(t0, es)
        {
          var k := es[j].0;
          assert es[j..][1..] == es[j + 1..];
          if GetMember(t, k) == Undef {
            t := Write(t, k, es[j].1);
          }
          j := j + 1;
        }
      }
      i := i + 1;
    }
    r := Plain(t);
  }

  /** The value `defaults` leaves under `k`, key by key: the first defined one among the
      target's and the sources' values in order (undefined if none is). */
  function FirstDefined(tv: Val, sources: seq<Val>, k: string): Val
    decreases |sources|
  {
    if sources == [] then tv
    else
      var src := sources[0];
      FirstDefined(if tv == Undef && IsObjectVal(src) && k in OwnKeys(src) then GetMember(src, k) else tv, sources[1..], k)
  }

  lemma {:induction false} DefaultsEntriesKey(t: Val, es: seq<(string, Val)>, k: string)
    requires t.Obj? && UniqueKeys(es)
    ensures DefaultsEntries(t, es).Obj?
    ensures GetMember(DefaultsEntries(t, es), k) ==
      if GetMember(t, k) == Undef && k in Keys(es) then Prop(es, k) else GetMember(t, k)
    decreases |es|
  {
    if es != [] {
      var k0 := es[0].0;
      var t1 := if GetMember(t, k0) == Undef then Write(t, k0, es[0].1) else t;
      DefaultsEntriesKey(t1, es[1..], k);
      if k == k0 {
        assert k !in Keys(es[1..]);
      }
    }
  }

  /** For plain-object sources, `defaults` computes `FirstDefined` at every key; so a key
      whose target value is defined keeps it, and otherwise the first source wins. */
  lemma {:induction false} DefaultsFirstDefined(t: Val, sources: seq<Val>, k: string)
    requires t.Obj?
    requires forall i :: 0 <= i < |sources| ==> sources[i].Obj? && WF(sources[i])
    ensures DefaultsSources(t, sources).Obj?
    ensures GetMember(DefaultsSources(t, sources), k) == FirstDefined(GetMember(t, k), sources, k)
    decreases |sources|
  {
    if sources != [] {
      var src := sources[0];
      OwnEntriesObj(src);
      DefaultsEntriesKey(t, OwnEntries(src), k);
      DefaultsFirstDefined(DefaultsEntries(t, OwnEntries(src)), sources[1..], k);
    }
  }

  /** A defined target value is never replaced. */
  lemma {:induction false} FirstDefinedKeeps(tv: Val, sources: seq<Val>, k: string)
    requires tv != Undef
    ensures FirstDefined(tv, sources, k) == tv
    decreases |sources|
  {
    if sources != [] {
      FirstDefinedKeeps(tv, sources[1..], k);
    }
  }

  lemma DefaultsFirstSource()
    ensures DefaultsEntries(Obj([("a", Num(1))]), [("b", Num(2))]) == Obj([("a", Num(1)), ("b", Num(2))])
  {
    var es := [("b", Num(2))];
    assert es[1..] == [];
  }

  lemma DefaultsSecondSource()
    ensures DefaultsEntries(Obj([("a", Num(1)), ("b", Num(2))]), [("c", Num(3)), ("b", Num(1)), ("a", Num(2))])
      == Obj([("a", Num(1)), ("b", Num(2)), ("c", Num(3))])
  {
    DefaultsSecondSourceAt([("c", Num(3)), ("b", Num(1)), ("a", Num(2))],
      Obj([("a", Num(1)), ("b", Num(2))]), Obj([("a", Num(1)), ("b", Num(2)), ("c", Num(3))]));
  }

  lemma DefaultsSecondSourceAt(es: seq<(string, Val)>, t1: Val, t2: Val)
    requires es == [("c", Num(3)), ("b", Num(1)), ("a", Num(2))]
    requires t1 == Obj([("a", Num(1)), ("b", Num(2))])
    requires t2 == Obj([("a", Num(1)), ("b", Num(2)), ("c", Num(3))])
    ensures DefaultsEntries(t1, es) == t2
  {
    DefaultsFirstMissing(es, t1, t2);
    DefaultsRestKept(es[1..], t2);
  }

  lemma DefaultsFirstMissing(es: seq<(string, Val)>, t1: Val, t2: Val)
    requires es == [("c", Num(3)), ("b", Num(1)), ("a", Num(2))]
    requires t1 == Obj([("a", Num(1)), ("b", Num(2))])
    requires t2 == Obj([("a", Num(1)), ("b", Num(2)), ("c", Num(3))])
    ensures DefaultsEntries(t1, es) == DefaultsEntries(t2, es[1..])
  {
    MissingAfterTwo(("a", Num(1)), ("b", Num(2)), "c");
    PutAfterTwo(("a", Num(1)), ("b", Num(2)), "c", Num(3));
    assert Write(t1, "c", Num(3)) == t2;
    DefaultsEntriesStep(t1, es);
  }

  lemma DefaultsRestKept(rest: seq<(string, Val)>, t2: Val)
    requires rest == [("b", Num(1)), ("a", Num(2))]
    requires t2 == Obj([("a", Num(1)), ("b", Num(2)), ("c", Num(3))])
    ensures DefaultsEntries(t2, rest) == t2
  {
    assert GetMember(t2, "a") == Num(1);
    assert GetMember(t2, "b") == Num(2);
    DefaultsKeptTwo(t2, rest);
  }

  lemma DefaultsEntriesStep(t: Val, es: seq<(string, Val)>)
    requires IsObjectVal(t) && es != []
    ensures DefaultsEntries(t, es) ==
      DefaultsEntries(if GetMember(t, es[0].0) == Undef then Write(t, es[0].0, es[0].1) else t, es[1..])
  {
  }

  /** Two entries whose keys the target already holds leave it as it is. */
  lemma DefaultsKeptTwo(t: Val, es: seq<(string, Val)>)
    requires IsObjectVal(t) && |es| == 2
    requires GetMember(t, es[0].0) != Undef && GetMember(t, es[1].0) != Undef
    ensures DefaultsEntries(t, es) == t
  {
    assert es[1..][1..] == [] && es[1..][0] == es[1];
    assert DefaultsEntries(t, es) == DefaultsEntries(t, es[1..]);
    assert DefaultsEntries(t, es[1..]) == DefaultsEntries(t, []);
  }

  /** defaults({a: 1}, {b: 2}, {c: 3, b: 1, a: 2}) is {a: 1, b: 2, c: 3}. */
  lemma DefaultsExample(sources: seq<Val>)
    requires sources == [Obj([("b", Num(2))]), Obj([("c", Num(3)), ("b", Num(1)), ("a", Num(2))])]
    ensures DefaultsSpec(Obj([("a", Num(1))]), sources) == Plain(Obj([("a", Num(1)), ("b", Num(2)), ("c", Num(3))]))
  {
    var t0 := Obj([("a", Num(1))]);
    var t1 := Obj([("a", Num(1)), ("b", Num(2))]);
    var t2 := Obj([("a", Num(1)), ("b", Num(2)), ("c", Num(3))]);
    DefaultsFirstSource();
    DefaultsSecondSource();
    assert OwnEntries(sources[0]) == [("b", Num(2))];
    assert OwnEntries(sources[1]) == [("c", Num(3)), ("b", Num(1)), ("a", Num(2))];
    assert DefaultsSources(t0, sources) == DefaultsSources(t1, sources[1..]);
    assert DefaultsSources(t1, sources[1..]) == DefaultsSources(t2, sources[1..][1..]);
    assert sources[1..][1..] == [];
  }

  // ---------------------------------------------------------------------------
  // defaultsDeep (src/object.ts:739-754)

  /** `defaultsDeep(t, src)` from the `j`-th own entry of `src` on: an undefined slot takes
      the source value, an object slot is filled recursively, anything else stays. */
  function DefaultsDeepFrom(t: Val, src: Val, j: nat): (r: Val)
    requires IsObjectVal(t)
    ensures IsObjectVal(r)
    decreases src, |OwnEntries(src)| - j
  {
    var es := OwnEntries(src);
    if !IsObjectVal(src) || j >= |es| then t
    else
      var k := es[j].0;
      var sv := es[j].1;
      var tv := GetMember(t, k);
      var t1 := if tv == Undef then Write(t, k, sv)
                else if IsObjectVal(tv) then Write(t, k, DefaultsDeepFrom(tv, sv, 0))
                else t;
      DefaultsDeepFrom(t1, src, j + 1)
  }

  function DefaultsDeepSources(t: Val, sources: seq<Val>): (r: Val)
    requires IsObjectVal(t)
    ensures IsObjectVal(r)
    decreases |sources|
  {
    if sources == [] then t else DefaultsDeepSources(DefaultsDeepFrom(t, sources[0], 0), sources[1..])
  }

  function DefaultsDeepSpec(target: Val, sources: seq<Val>): Returned {
    match CheckTarget(target)
    case Some(early) => early
    case None => Plain(DefaultsDeepSources(target, sources))
  }

  /** `defaultsDeep(tv, sv)` for one source, recursing into object slots. */
  method DefaultsDeepOne(target: Val, src: Val) returns (r: Val)
    requires IsObjectVal(target)
    ensures r == DefaultsDeepFrom(target, src, 0)
    decreases src
  {
    var t := target;
    if IsObjectVal(src) {
      var es := OwnEntries(src);
      var j := 0;
      while j < |es|
        invariant 0 <= j <= |es|
        invariant IsObjectVal(t)
        invariant DefaultsDeepFrom(t, src, j) == DefaultsDeepFrom(target, src, 0)
      {
        var k := es[j].0;
        var sv := es[j].1;
        var tv := GetMember(t, k);
        DeepFromStep(t, src, j);
        if tv == Undef {
          t := Write(t, k, sv);
        } else if IsObjectVal(tv) {
          var inner := DefaultsDeepOne(tv, sv);
          t := Write(t, k, inner);
        }
        j := j + 1;
      }
    }
    r := t;
  }

  /** `defaultsDeep(target, ...sources)`. */
  method DefaultsDeep(target: Val, sources: seq<Val>) returns (r: Returned)
    ensures r == DefaultsDeepSpec(target, sources)
    ensures r.Plain? ==> IsObject(r.value)
  {
    var early := CheckTarget(target);
    if early.Some? {
      return early.value;
    }
    var t := target;
    var i := 0;
    while i < |sources|
      invariant 0 <= i <= |sources|
      invariant IsObjectVal(t)
      invariant DefaultsDeepSources(t, sources[i..]) == DefaultsDeepSources(target, sources)
    {
      assert sources[i..][1..] == sources[i + 1..];
      t := DefaultsDeepOne(t, sources[i]);
      i := i + 1;
    }
    r := Plain(t);
  }

  /** The value `defaultsDeep` leaves in a slot the source holds: the source value in an
      undefined slot, the slot filled recursively from the source value when it holds an
      object, and the slot's own value otherwise. */
  function DeepSlot(tv: Val, sv: Val): (r: Val)
    ensures tv != Undef && !IsObjectVal(tv) ==> r == tv
    ensures IsObjectVal(tv) ==> IsObjectVal(r)
  {
    if tv == Undef then sv
    else if IsObjectVal(tv) then DefaultsDeepFrom(tv, sv, 0)
    else tv
  }

  /** One source's entries from `j` on, key by key: a key among them gets its slot filled,
      every other key keeps the target's value. */
  lemma {:induction false} DefaultsDeepKeyFrom(t: Val, sprops: seq<(string, Val)>, j: nat, k: string)
    requires t.Obj? && UniqueKeys(sprops) && j <= |sprops|
    ensures DefaultsDeepFrom(t, Obj(sprops), j).Obj?
    ensures GetMember(DefaultsDeepFrom(t, Obj(sprops), j), k) ==
      if k !in Keys(sprops[j..]) then GetMember(t, k) else DeepSlot(GetMember(t, k), Prop(sprops, k))
    decreases |sprops| - j
  {
    assert OwnEntries(Obj(sprops)) == sprops;
    if j < |sprops| {
      var k0, sv := sprops[j].0, sprops[j].1;
      var tv := GetMember(t, k0);
      var t1 := if tv == Undef || IsObjectVal(tv) then Write(t, k0, DeepSlot(tv, sv)) else t;
      assert DefaultsDeepFrom(t, Obj(sprops), j) == DefaultsDeepFrom(t1, Obj(sprops), j + 1);
      DefaultsDeepKeyFrom(t1, sprops, j + 1, k);
      assert Keys(sprops[j..]) == [k0] + Keys(sprops[j + 1..]) by {
        assert sprops[j..][1..] == sprops[j + 1..];
      }
      if k == k0 {
        UniqueSuffix(sprops, j);
        PropAt(sprops, j);
      } else if t1 != t {
        WriteOther(t, k0, DeepSlot(tv, sv), k);
      }
    } else {
      assert sprops[j..] == [];
    }
  }

  /** `defaultsDeep(t, src)` for a plain-object source, key by key: a key the source lacks
      keeps the target's value; under a key it holds, an undefined slot takes the source
      value, an object slot is filled recursively from the source value, and any other
      value is kept. */
  lemma DefaultsDeepKey(t: Val, src: Val, k: string)
    requires t.Obj? && src.Obj? && WF(src)
    ensures DefaultsDeepFrom(t, src, 0).Obj?
    ensures k !in OwnKeys(src) ==> GetMember(DefaultsDeepFrom(t, src, 0), k) == GetMember(t, k)
    ensures k in OwnKeys(src) && GetMember(t, k) == Undef ==>
      GetMember(DefaultsDeepFrom(t, src, 0), k) == GetMember(src, k)
    ensures k in OwnKeys(src) && IsObjectVal(GetMember(t, k)) ==>
      GetMember(DefaultsDeepFrom(t, src, 0), k) == DefaultsDeepFrom(GetMember(t, k), GetMember(src, k), 0)
    ensures k in OwnKeys(src) && GetMember(t, k) != Undef && !IsObjectVal(GetMember(t, k)) ==>
      GetMember(DefaultsDeepFrom(t, src, 0), k) == GetMember(t, k)
  {
    DefaultsDeepKeyFrom(t, src.props, 0, k);
    assert src.props[0..] == src.props;
  }

  /** The value `defaultsDeep` leaves under `k` after the sources in order, each source
      that holds `k` filling the slot as `DeepSlot` says. */
  function DeepFirst(tv: Val, sources: seq<Val>, k: string): Val
    decreases |sources|
  {
    if sources == [] then tv
    else
      var src := sources[0];
      DeepFirst(if IsObjectVal(src) && k in OwnKeys(src) then DeepSlot(tv, GetMember(src, k)) else tv, sources[1..], k)
  }

  /** For plain-object sources, `defaultsDeep` computes `DeepFirst` at every key. */
  lemma {:induction false} DefaultsDeepSourcesKey(t: Val, sources: seq<Val>, k: string)
    requires t.Obj?
    requires forall i :: 0 <= i < |sources| ==> sources[i].Obj? && WF(sources[i])
    ensures DefaultsDeepSources(t, sources).Obj?
    ensures GetMember(DefaultsDeepSources(t, sources), k) == DeepFirst(GetMember(t, k), sources, k)
    decreases |sources|
  {
    if sources != [] {
      var src := sources[0];
      DefaultsDeepKey(t, src, k);
      var t1 := DefaultsDeepFrom(t, src, 0);
      assert GetMember(t1, k) ==
        if k in OwnKeys(src) then DeepSlot(GetMember(t, k), GetMember(src, k)) else GetMember(t, k);
      DefaultsDeepSourcesKey(t1, sources[1..], k);
    }
  }

  /** A defined value that is not an object is never replaced by `defaultsDeep`. */
  lemma {:induction false} DeepFirstKeeps(tv: Val, sources: seq<Val>, k: string)
    requires tv != Undef && !IsObjectVal(tv)
    ensures DeepFirst(tv, sources, k) == tv
    decreases |sources|
  {
    if sources != [] {
      DeepFirstKeeps(tv, sources[1..], k);
    }
  }

  /** "`defaults`, recursively": while neither the slot nor any source holds an object
      under `k`, `defaultsDeep` leaves there what `defaults` leaves, the first defined
      value. */
  lemma {:induction false} DeepFirstIsFirstDefined(tv: Val, sources: seq<Val>, k: string)
    requires !IsObjectVal(tv)
    requires forall i :: 0 <= i < |sources| ==> !IsObjectVal(GetMember(sources[i], k))
    ensures DeepFirst(tv, sources, k) == FirstDefined(tv, sources, k)
    decreases |sources|
  {
    if sources != [] {
      var src := sources[0];
      var tv1 := if IsObjectVal(src) && k in OwnKeys(src) then DeepSlot(tv, GetMember(src, k)) else tv;
      assert !IsObjectVal(GetMember(src, k));
      DeepFirstIsFirstDefined(tv1, sources[1..], k);
    }
  }

  /** One entry of the source: the slot is filled as `DeepSlot` says, then the rest follow. */
  lemma DeepFromStep(t: Val, src: Val, j: nat)
    requires IsObjectVal(t) && IsObjectVal(src) && j < |OwnEntries(src)|
    ensures var e := OwnEntries(src)[j];
      var tv := GetMember(t, e.0);
      DefaultsDeepFrom(t, src, j) ==
        DefaultsDeepFrom(if tv == Undef || IsObjectVal(tv) then Write(t, e.0, DeepSlot(tv, e.1)) else t, src, j + 1)
  {
  }

  lemma DeepFromEnd(t: Val, sprops: seq<(string, Val)>)
    requires IsObjectVal(t)
    ensures DefaultsDeepFrom(t, Obj(sprops), |sprops|) == t
  {
    assert OwnEntries(Obj(sprops)) == sprops;
  }

  /** The inner fill from {x: 3, y: 2}: x is kept, y is added. */
  lemma DeepExampleInner2(a1: Val, a2: Val, sp: seq<(string, Val)>)
    requires a1 == Obj([("x", Num(1))]) && a2 == Obj([("x", Num(1)), ("y", Num(2))])
    requires sp == [("x", Num(3)), ("y", Num(2))]
    ensures DefaultsDeepFrom(a1, Obj(sp), 0) == a2
  {
    DeepFromStep(a1, Obj(sp), 0);
    MissingAfterOne(("x", Num(1)), "y");
    PutAfterOne(("x", Num(1)), "y", Num(2));
    DeepFromStep(a1, Obj(sp), 1);
    DeepFromEnd(a2, sp);
  }

  /** The inner fill from {z: 3, x: 4}: z is added, x is kept. */
  lemma DeepExampleInner3(a2: Val, a3: Val, sp: seq<(string, Val)>)
    requires a2 == Obj([("x", Num(1)), ("y", Num(2))]) && a3 == Obj([("x", Num(1)), ("y", Num(2)), ("z", Num(3))])
    requires sp == [("z", Num(3)), ("x", Num(4))]
    ensures DefaultsDeepFrom(a2, Obj(sp), 0) == a3
  {
    DeepFromStep(a2, Obj(sp), 0);
    MissingAfterTwo(("x", Num(1)), ("y", Num(2)), "z");
    PutAfterTwo(("x", Num(1)), ("y", Num(2)), "z", Num(3));
    DeepFromStep(a3, Obj(sp), 1);
    DeepFromEnd(a3, sp);
  }

  /** An object slot `a` filled from a one-entry source: the slot is rewritten in place. */
  lemma DeepExampleOuter(t: Val, inner: Val, sv: Val, filled: Val, b: Val)
    requires t == Obj([("a", inner), ("b", b)]) && IsObjectVal(inner)
    requires DefaultsDeepFrom(inner, sv, 0) == filled
    ensures DefaultsDeepFrom(t, Obj([("a", sv)]), 0) == Obj([("a", filled), ("b", b)])
  {
    DeepFromStep(t, Obj([("a", sv)]), 0);
    assert Put([("a", inner), ("b", b)], "a", filled) == [("a", filled), ("b", b)];
    DeepFromEnd(Obj([("a", filled), ("b", b)]), [("a", sv)]);
  }

  /** Three sources filled in turn. */
  lemma DeepSourcesThree(t0: Val, t1: Val, t2: Val, t3: Val, sources: seq<Val>)
    requires IsObjectVal(t0) && |sources| == 3
    requires DefaultsDeepFrom(t0, sources[0], 0) == t1 && IsObjectVal(t1)
    requires DefaultsDeepFrom(t1, sources[1], 0) == t2 && IsObjectVal(t2)
    requires DefaultsDeepFrom(t2, sources[2], 0) == t3
    ensures DefaultsDeepSources(t0, sources) == t3
  {
    var r1, r2 := sources[1..], sources[2..];
    assert r1[0] == sources[1] && r1[1..] == r2 && r2[0] == sources[2] && r2[1..] == [];
    DeepSourcesStep(t0, sources);
    DeepSourcesStep(t1, r1);
    DeepSourcesStep(t2, r2);
  }

  lemma DeepSourcesStep(t: Val, sources: seq<Val>)
    requires IsObjectVal(t) && sources != []
    ensures DefaultsDeepSources(t, sources) == DefaultsDeepSources(DefaultsDeepFrom(t, sources[0], 0), sources[1..])
  {
  }

  /** defaultsDeep({a: {x: 1}}, {b: 2}, {a: {x: 3, y: 2}}, {a: {z: 3, x: 4}}) is
      {a: {x: 1, y: 2, z: 3}, b: 2}. */
  lemma DefaultsDeepExample(target: Val, sources: seq<Val>, expected: Val)
    requires target == Obj([("a", Obj([("x", Num(1))]))])
    requires sources == [Obj([("b", Num(2))]),
                         Obj([("a", Obj([("x", Num(3)), ("y", Num(2))]))]),
                         Obj([("a", Obj([("z", Num(3)), ("x", Num(4))]))])]
    requires expected == Obj([("a", Obj([("x", Num(1)), ("y", Num(2)), ("z", Num(3))])), ("b", Num(2))])
    ensures DefaultsDeepSpec(target, sources) == Plain(expected)
  {
    var a1, a3, b := target.props[0].1, expected.props[0].1, expected.props[1].1;
    var s2, s3 := sources[1].props[0].1, sources[2].props[0].1;
    var a2 := Obj([a1.props[0], s2.props[1]]);
    var t1 := Obj([("a", a1), ("b", b)]);
    var t2 := Obj([("a", a2), ("b", b)]);
    DeepExampleFirst(target, a1, t1);
    DeepExampleInner2(a1, a2, s2.props);
    DeepExampleOuter(t1, a1, s2, a2, b);
    DeepExampleInner3(a2, a3, s3.props);
    DeepExampleOuter(t2, a2, s3, a3, b);
    DeepSourcesThree(target, t1, t2, expected, sources);
  }

  /** The first source {b: 2} adds b after a. */
  lemma DeepExampleFirst(t0: Val, a1: Val, t1: Val)
    requires t0 == Obj([("a", a1)]) && t1 == Obj([("a", a1), ("b", Num(2))])
    ensures DefaultsDeepFrom(t0, Obj([("b", Num(2))]), 0) == t1
  {
    DeepFromStep(t0, Obj([("b", Num(2))]), 0);
    MissingAfterOne(("a", a1), "b");
    PutAfterOne(("a", a1), "b", Num(2));
    DeepFromEnd(t1, [("b", Num(2))]);
  }

  // ---------------------------------------------------------------------------
  // mergeWith / walkSources (src/object.ts:801-839)

  /** A merge handler receives the source value, the target value, the key and the key
      path from the top-level target; an undefined result means "merge as usual". */
  type MergeHandler = (Val, Val, string, seq<string>) -> Val

  /** The handler of `merge`: `noop`. */
  function NoopHandler(): MergeHandler {
    (sv: Val, tv: Val, k: string, path: seq<string>) => Undef
  }

  /** `walkSources(t, [src], handler, stack)` from the `j`-th own entry of `src` on. */
  function MergeFrom(t: Val, src: Val, j: nat, h: MergeHandler, stack: seq<string>): (r: Val)
    requires IsObjectVal(t)
    ensures IsObjectVal(r)
    decreases src, |OwnEntries(src)| - j
  {
    var es := OwnEntries(src);
    if !IsObjectVal(src) || j >= |es| then t
    else
      var k := es[j].0;
      var sv := es[j].1;
      var tv := GetMember(t, k);
      var path := stack + [k];
      var v := h(sv, tv, k, path);
      var t1 := if v != Undef then Write(t, k, v)
                else if IsObjectVal(tv) then Write(t, k, MergeFrom(tv, sv, 0, h, path))
                else Write(t, k, sv);
      MergeFrom(t1, src, j + 1, h, stack)
  }

  function MergeSources(t: Val, sources: seq<Val>, h: MergeHandler): (r: Val)
    requires IsObjectVal(t)
    ensures IsObjectVal(r)
    decreases |sources|
  {
    if sources == [] then t else MergeSources(MergeFrom(t, sources[0], 0, h, []), sources[1..], h)
  }

  function MergeWithSpec(target: Val, sources: seq<Val>, h: MergeHandler): Returned {
    match CheckTarget(target)
    case Some(early) => early
    case None => Plain(MergeSources(target, sources, h))
  }

  /** One own entry of the source merged in. */
  lemma MergeFromStep(t: Val, src: Val, j: nat, h: MergeHandler, stack: seq<string>)
    requires IsObjectVal(t) && IsObjectVal(src) && j < |OwnEntries(src)|
    ensures var e := OwnEntries(src)[j];
      var tv := GetMember(t, e.0);
      var v := h(e.1, tv, e.0, stack + [e.0]);
      MergeFrom(t, src, j, h, stack) ==
        MergeFrom(if v != Undef then Write(t, e.0, v)
                  else if IsObjectVal(tv) then Write(t, e.0, MergeFrom(tv, e.1, 0, h, stack + [e.0]))
                  else Write(t, e.0, e.1), src, j + 1, h, stack)
  {
  }

  /** `walkSources(target, [src], handler, stack)`. */
  method WalkSource(target: Val, src: Val, h: MergeHandler, stack: seq<string>) returns (r: Val)
    requires IsObjectVal(target)
    ensures r == MergeFrom(target, src, 0, h, stack)
    decreases src
  {
    var t := target;
    if IsObjectVal(src) {
      var es := OwnEntries(src);
      var j := 0;
      while j < |es|
        invariant 0 <= j <= |es|
        invariant IsObjectVal(t)
        invariant MergeFrom(t, src, j, h, stack) == MergeFrom(target, src, 0, h, stack)
      {
        var k := es[j].0;
        var sv := es[j].1;
        var tv := GetMember(t, k);
        var path := stack + [k];
        var v := h(sv, tv, k, path);
        MergeFromStep(t, src, j, h, stack);
        if v != Undef {
          t := Write(t, k, v);
        } else if IsObjectVal(tv) {
          var inner := WalkSource(tv, sv, h, path);
          t := Write(t, k, inner);
        } else {
          t := Write(t, k, sv);
        }
        j := j + 1;
      }
    }
    r := t;
  }

  /** `mergeWith(target, ...sources, handler)`; `merge` passes `NoopHandler()`. */
  method MergeWith(target: Val, sources: seq<Val>, h: MergeHandler) returns (r: Returned)
    ensures r == MergeWithSpec(target, sources, h)
    ensures r.Plain? ==> IsObject(r.value)
  {
    var early := CheckTarget(target);
    if early.Some? {
      return early.value;
    }
    var t := target;
    var i := 0;
    while i < |sources|
      invariant 0 <= i <= |sources|
      invariant IsObjectVal(t)
      invariant MergeSources(t, sources[i..], h) == MergeSources(target, sources, h)
    {
      assert sources[i..][1..] == sources[i + 1..];
      t := WalkSource(t, sources[i], h, []);
      i := i + 1;
    }
    r := Plain(t);
  }

  /** The slot `merge` leaves under one key of a plain-object source: the source value,
      unless the target holds an object there, which is merged into. */
  lemma {:induction false} MergeKey(props: seq<(string, Val)>, sprops: seq<(string, Val)>, k: string)
    requires UniqueKeys(sprops)
    ensures MergeFrom(Obj(props), Obj(sprops), 0, NoopHandler(), []).Obj?
    ensures GetMember(MergeFrom(Obj(props), Obj(sprops), 0, NoopHandler(), []), k) ==
      if k !in Keys(sprops) then Prop(props, k)
      else if IsObjectVal(Prop(props, k)) then MergeFrom(Prop(props, k), Prop(sprops, k), 0, NoopHandler(), [k])
      else Prop(sprops, k)
  {
    MergeKeyFrom(Obj(props), sprops, 0, k);
    assert sprops[0..] == sprops;
  }

  /** The slot `merge` fills for one source entry. */
  function MergedSlot(t: Val, k: string, sv: Val, path: seq<string>): Val
    requires IsObjectVal(t)
  {
    var tv := GetMember(t, k);
    if IsObjectVal(tv) then MergeFrom(tv, sv, 0, NoopHandler(), path) else sv
  }

  lemma MergeNoopStep(t: Val, sprops: seq<(string, Val)>, j: nat)
    requires t.Obj? && j < |sprops|
    ensures MergeFrom(t, Obj(sprops), j, NoopHandler(), []) ==
      MergeFrom(Write(t, sprops[j].0, MergedSlot(t, sprops[j].0, sprops[j].1, [sprops[j].0])), Obj(sprops), j + 1, NoopHandler(), [])
  {
    assert OwnEntries(Obj(sprops)) == sprops;
    assert [] + [sprops[j].0] == [sprops[j].0];
  }

  lemma {:induction false} MergeKeyFrom(t: Val, sprops: seq<(string, Val)>, j: nat, k: string)
    requires t.Obj? && UniqueKeys(sprops) && j <= |sprops|
    ensures MergeFrom(t, Obj(sprops), j, NoopHandler(), []).Obj?
    ensures GetMember(MergeFrom(t, Obj(sprops), j, NoopHandler(), []), k) ==
      if k !in Keys(sprops[j..]) then GetMember(t, k) else MergedSlot(t, k, Prop(sprops, k), [k])
    decreases |sprops| - j
  {
    if j < |sprops| {
      var k0 := sprops[j].0;
      var t1 := Write(t, k0, MergedSlot(t, k0, sprops[j].1, [k0]));
      MergeNoopStep(t, sprops, j);
      MergeKeyFrom(t1, sprops, j + 1, k);
      assert Keys(sprops[j..]) == [k0] + Keys(sprops[j + 1..]) by {
        assert sprops[j..][1..] == sprops[j + 1..];
      }
      if k == k0 {
        UniqueSuffix(sprops, j);
        PropAt(sprops, j);
      } else {
        WriteOther(t, k0, MergedSlot(t, k0, sprops[j].1, [k0]), k);
        if k in Keys(sprops[j + 1..]) {
          assert GetMember(t1, k) == GetMember(t, k);
        }
      }
    } else {
      assert sprops[j..] == [];
      assert OwnEntries(Obj(sprops)) == sprops;
    }
  }

  /** In a list of distinct keys, the key at `j` does not occur after it. */
  lemma {:induction false} UniqueSuffix(props: seq<(string, Val)>, j: nat)
    requires UniqueKeys(props) && j < |props|
    ensures props[j].0 !in Keys(props[j + 1..])
    decreases j
  {
    if j > 0 {
      UniqueSuffix(props[1..], j - 1);
      assert props[1..][j..] == props[j + 1..];
    }
  }

  /** In a list of distinct keys, the value at `j` is the one looked up by its key. */
  lemma {:induction false} PropAt(props: seq<(string, Val)>, j: nat)
    requires UniqueKeys(props) && j < |props|
    ensures Prop(props, props[j].0) == props[j].1
    decreases j
  {
    if j > 0 {
      PropAt(props[1..], j - 1);
      assert props[j].0 in Keys(props[1..]);
    }
  }

  /** A defined handler result is stored as it is, whatever the slots hold. */
  lemma MergeStoresHandler(t: Val, src: Val, h: MergeHandler, stack: seq<string>)
    requires IsObjectVal(t) && IsObjectVal(src) && |OwnEntries(src)| > 0
    requires h(OwnEntries(src)[0].1, GetMember(t, OwnEntries(src)[0].0), OwnEntries(src)[0].0, stack + [OwnEntries(src)[0].0]) != Undef
    ensures MergeFrom(t, src, 0, h, stack) ==
      MergeFrom(Write(t, OwnEntries(src)[0].0,
        h(OwnEntries(src)[0].1, GetMember(t, OwnEntries(src)[0].0), OwnEntries(src)[0].0, stack + [OwnEntries(src)[0].0])), src, 1, h, stack)
  {
  }

  // ---------------------------------------------------------------------------
  // toObject (src/object.ts:294-329)

  /** The locals of `toObject` while it walks its arguments. */
  datatype Gather = Gather(rs: Val, pairs: seq<Val>, key: Val)

  /** One argument: an array is converted recursively and assigned; an object is paired
      with a pending key or assigned; a primitive is paired with a pending key or becomes
      the pending key. A pending key counts only when truthy. */
  function GatherStep(g: Gather, v: Val): (r: Gather)
    requires g.rs.Obj?
    ensures r.rs.Obj?
    decreases v, 2
  {
    if v.Arr? then Gather(AssignEntries(g.rs, OwnEntries(ToObjectSpec(v.items)), CopyHandler()), g.pairs, g.key)
    else if IsObjectVal(v) then
      if Truthy(g.key) then Gather(g.rs, g.pairs + [g.key, v], Null)
      else Gather(AssignEntries(g.rs, OwnEntries(v), CopyHandler()), g.pairs, g.key)
    else
      if Truthy(g.key) then Gather(g.rs, g.pairs + [g.key, v], Null)
      else Gather(g.rs, g.pairs, v)
  }

  function GatherAll(g: Gather, vals: seq<Val>): (r: Gather)
    requires g.rs.Obj?
    ensures r.rs.Obj?
    decreases vals, 0
  {
    if vals == [] then g else GatherAll(GatherStep(g, vals[0]), vals[1..])
  }

  /** The final loop: `rs[pairs[i]] = pairs[i + 1]` for even `i`; an odd tail maps to
      undefined. */
  function ApplyPairs(rs: Val, pairs: seq<Val>): (r: Val)
    requires rs.Obj?
    ensures r.Obj?
    decreases |pairs|
  {
    if pairs == [] then rs
    else if |pairs| == 1 then Write(rs, KeyOf(pairs[0]), Undef)
    else ApplyPairs(Write(rs, KeyOf(pairs[0]), pairs[1]), pairs[2..])
  }

  function ToObjectSpec(vals: seq<Val>): (r: Val)
    ensures r.Obj?
    decreases vals, 1
  {
    if |vals| == 0 then Obj([])
    else
      var g := GatherAll(Gather(Obj([]), [], Null), vals);
      var pairs := if Truthy(g.key) then g.pairs + [g.key] else g.pairs;
      ApplyPairs(g.rs, pairs)
  }

  /** `toObject(...vals)`. */
  method ToObject(vals: seq<Val>) returns (r: Val)
    ensures r == ToObjectSpec(vals)
    decreases vals
  {
    if |vals| == 0 {
      return Obj([]);
    }
    var rs := Obj([]);
    var pairs: seq<Val> := [];
    var key := Null;
    var i := 0;
    while i < |vals|
      invariant 0 <= i <= |vals|
      invariant rs.Obj?
      invariant GatherAll(Gather(rs, pairs, key), vals[i..]) == GatherAll(Gather(Obj([]), [], Null), vals)
    {
      var v := vals[i];
      assert vals[i..][1..] == vals[i + 1..];
      if v.Arr? {
        var tmp := ToObject(v.items);
        rs := AssignEntries(rs, OwnEntries(tmp), CopyHandler());
      } else if IsObjectVal(v) {
        if Truthy(key) {
          pairs := pairs + [key, v];
          key := Null;
        } else {
          rs := AssignEntries(rs, OwnEntries(v), CopyHandler());
        }
      } else {
        if Truthy(key) {
          pairs := pairs + [key, v];
          key := Null;
        } else {
          key := v;
        }
      }
      i := i + 1;
    }
    if Truthy(key) {
      pairs := pairs + [key];
    }
    var j := 0;
    while j < |pairs|
      invariant 0 <= j <= |pairs| + 1
      invariant rs.Obj?
      invariant ApplyPairs(rs, if j <= |pairs| then pairs[j..] else []) == ToObjectSpec(vals)
      decreases |pairs| - j
    {
      var value := if j + 1 < |pairs| then pairs[j + 1] else Undef;
      if j + 1 < |pairs| {
        assert pairs[j..][2..] == pairs[j + 2..];
      }
      rs := Write(rs, KeyOf(pairs[j]), value);
      j := j + 2;
    }
    r := rs;
  }

  /** Gathering 'a', 1, 'b', 2, 'c' pairs the first four and leaves 'c' pending. */
  lemma GatherExample(vals: seq<Val>)
    requires vals == [Str("a"), Num(1), Str("b"), Num(2), Str("c")]
    ensures GatherAll(Gather(Obj([]), [], Null), vals) ==
      Gather(Obj([]), [Str("a"), Num(1), Str("b"), Num(2)], Str("c"))
  {
    var p2 := [vals[0], vals[1]];
    var p4 := p2 + [vals[2], vals[3]];
    assert vals == p2 + vals[2..];
    assert vals[2..] == [vals[2], vals[3]] + vals[4..];
    assert vals[4..] == [vals[4]];
    GatherPair(Gather(Obj([]), [], Null), vals[0], vals[1], vals[2..]);
    assert [] + p2 == p2;
    GatherPair(Gather(Obj([]), p2, Null), vals[2], vals[3], vals[4..]);
    GatherKey(Gather(Obj([]), p4, Null), vals[4]);
    calc {
      GatherAll(Gather(Obj([]), [], Null), vals);
      GatherAll(Gather(Obj([]), p2, Null), vals[2..]);
      GatherAll(Gather(Obj([]), p4, Null), [vals[4]]);
      Gather(Obj([]), p4, vals[4]);
    }
    assert p4 == [Str("a"), Num(1), Str("b"), Num(2)];
  }

  /** With no pending key, a truthy primitive followed by a primitive is one pair. */
  lemma GatherPair(g: Gather, k: Val, v: Val, rest: seq<Val>)
    requires g.rs.Obj? && !Truthy(g.key) && Truthy(k)
    requires !IsObjectVal(k) && !IsObjectVal(v)
    ensures GatherAll(g, [k, v] + rest) == GatherAll(Gather(g.rs, g.pairs + [k, v], Null), rest)
  {
    var s := [k, v] + rest;
    var g1 := Gather(g.rs, g.pairs, k);
    assert GatherStep(g, k) == g1;
    assert s[0] == k && s[1..] == [v] + rest;
    assert GatherAll(g, s) == GatherAll(g1, [v] + rest);
    assert GatherStep(g1, v) == Gather(g.rs, g.pairs + [k, v], Null);
    assert ([v] + rest)[0] == v && ([v] + rest)[1..] == rest;
  }

  /** With no pending key, a last primitive becomes the pending key. */
  lemma GatherKey(g: Gather, k: Val)
    requires g.rs.Obj? && !Truthy(g.key) && !IsObjectVal(k)
    ensures GatherAll(g, [k]) == Gather(g.rs, g.pairs, k)
  {
    assert [k][1..] == [];
  }

  lemma ApplyPairsExample(pairs: seq<Val>)
    requires pairs == [Str("a"), Num(1), Str("b"), Num(2), Str("c")]
    ensures ApplyPairs(Obj([]), pairs) == Obj([("a", Num(1)), ("b", Num(2)), ("c", Undef)])
  {
    var o1 := Obj([("a", Num(1))]);
    var o2 := Obj([("a", Num(1)), ("b", Num(2))]);
    ApplyPairsOne(pairs, o1);
    ApplyPairsTwo(pairs[2..], o1, o2);
    ApplyPairsLast(pairs[2..][2..], o2);
  }

  lemma ApplyPairsOne(pairs: seq<Val>, o1: Val)
    requires pairs == [Str("a"), Num(1), Str("b"), Num(2), Str("c")]
    requires o1 == Obj([("a", Num(1))])
    ensures ApplyPairs(Obj([]), pairs) == ApplyPairs(o1, pairs[2..])
  {
    assert KeyOf(pairs[0]) == "a";
  }

  lemma ApplyPairsTwo(pairs: seq<Val>, o1: Val, o2: Val)
    requires pairs == [Str("b"), Num(2), Str("c")]
    requires o1 == Obj([("a", Num(1))]) && o2 == Obj([("a", Num(1)), ("b", Num(2))])
    ensures ApplyPairs(o1, pairs) == ApplyPairs(o2, pairs[2..])
  {
    assert KeyOf(pairs[0]) == "b";
    PutAfterOne(("a", Num(1)), "b", Num(2));
    assert Write(o1, "b", Num(2)) == o2;
    assert |pairs| == 3 && pairs[1] == Num(2);
  }

  lemma ApplyPairsLast(pairs: seq<Val>, o2: Val)
    requires pairs == [Str("c")]
    requires o2 == Obj([("a", Num(1)), ("b", Num(2))])
    ensures ApplyPairs(o2, pairs) == Obj([("a", Num(1)), ("b", Num(2)), ("c", Undef)])
  {
    assert KeyOf(pairs[0]) == "c";
    assert Put(o2.props[2..], "c", Undef) == [("c", Undef)];
    assert Put(o2.props[1..], "c", Undef) == [("b", Num(2)), ("c", Undef)];
  }

  /** `toObject` over what gathering the arguments left: a truthy pending key is written last. */
  lemma ToObjectByGather(vals: seq<Val>, g: Gather)
    requires vals != [] && g == GatherAll(Gather(Obj([]), [], Null), vals) && Truthy(g.key)
    ensures ToObjectSpec(vals) == ApplyPairs(g.rs, g.pairs + [g.key])
  {
  }

  /** Primitive arguments pair up as key, value; a trailing key maps to undefined:
      toObject('a', 1, 'b', 2, 'c') is {a: 1, b: 2, c: undefined}. */
  lemma ToObjectExample(vals: seq<Val>)
    requires vals == [Str("a"), Num(1), Str("b"), Num(2), Str("c")]
    ensures ToObjectSpec(vals) == Obj([("a", Num(1)), ("b", Num(2)), ("c", Undef)])
  {
    GatherExample(vals);
    var g := Gather(Obj([]), [Str("a"), Num(1), Str("b"), Num(2)], Str("c"));
    ToObjectByGather(vals, g);
    assert g.pairs + [g.key] == [Str("a"), Num(1), Str("b"), Num(2), Str("c")];
    ApplyPairsExample(g.pairs + [g.key]);
  }

  /** A falsy pending key does not count: toObject(0, 'x') is {x: undefined}. */
  lemma ToObjectFalsyKey()
    ensures ToObjectSpec([Num(0), Str("x")]) == Obj([("x", Undef)])
  {
    var vals := [Num(0), Str("x")];
    assert vals[1..] == [Str("x")];
  }

  /** Pairs are written after every assigned object, whatever the order of the arguments:
      toObject({a: 2}, 'a', 1) is {a: 1}. */
  lemma ToObjectPairsLast()
    ensures ToObjectSpec([Obj([("a", Num(2))]), Str("a"), Num(1)]) == Obj([("a", Num(1))])
  {
    var vals := [Obj([("a", Num(2))]), Str("a"), Num(1)];
    var g0 := Gather(Obj([]), [], Null);
    var es := [("a", Num(2))];
    assert es[1..] == [];
    assert AssignEntries(Obj([]), es, CopyHandler()) == Obj([("a", Num(2))]);
    var g1 := Gather(Obj([("a", Num(2))]), [], Null);
    var g2 := Gather(Obj([("a", Num(2))]), [], Str("a"));
    var g3 := Gather(Obj([("a", Num(2))]), [Str("a"), Num(1)], Null);
    assert GatherStep(g0, vals[0]) == g1;
    assert GatherStep(g1, vals[1]) == g2;
    assert GatherStep(g2, vals[2]) == g3;
    assert vals[2..][1..] == [];
    assert vals[1..][1..] == vals[2..];
    assert GatherAll(g2, vals[2..]) == g3;
    assert GatherAll(g1, vals[1..]) == g3;
    assert GatherAll(g0, vals) == g3;
    var pairs := [Str("a"), Num(1)];
    assert pairs[2..] == [];
  }

  /** A plain object with distinct keys converts to itself. */
  lemma ToObjectOfObject(props: seq<(string, Val)>)
    requires UniqueKeys(props)
    ensures ToObjectSpec([Obj(props)]) == Obj(props)
  {
    CopyInto(props);
    var g0 := Gather(Obj([]), [], Null);
    var vals := [Obj(props)];
    assert vals[1..] == [];
    assert GatherAll(g0, vals) == GatherStep(g0, Obj(props));
    assert GatherStep(g0, Obj(props)) == Gather(Obj(props), [], Null);
  }

  /** Copying distinct-key entries into an empty object rebuilds them in order. */
  lemma CopyInto(props: seq<(string, Val)>)
    requires UniqueKeys(props)
    ensures AssignEntries(Obj([]), props, CopyHandler()) == Obj(props)
  {
    CopyIntoFrom(props, |props|);
  }

  lemma {:induction false} CopyIntoFrom(props: seq<(string, Val)>, n: nat)
    requires UniqueKeys(props) && n <= |props|
    ensures AssignEntries(Obj(props[..|props| - n]), props[|props| - n..], CopyHandler()) == Obj(props)
    decreases n
  {
    if n > 0 {
      CopyStep(props, |props| - n);
      CopyIntoFrom(props, n - 1);
    } else {
      assert props[..|props|] == props;
    }
  }

  /** Copying entry m of distinct-key entries appends it. */
  lemma CopyStep(props: seq<(string, Val)>, m: nat)
    requires UniqueKeys(props) && m < |props|
    ensures AssignEntries(Obj(props[..m]), props[m..], CopyHandler()) ==
      AssignEntries(Obj(props[..m + 1]), props[m + 1..], CopyHandler())
  {
    var pre := props[..m];
    CopyHead(pre, props[m..]);
    SplitAt(props, m);
    PutNew(pre, props, m);
  }

  lemma SplitAt<T>(s: seq<T>, m: nat)
    requires m < |s|
    ensures s[m..][0] == s[m] && s[m..][1..] == s[m + 1..] && s[..m + 1] == s[..m] + [s[m]]
  {
  }

  /** Copying writes the first entry's own value. */
  lemma CopyHead(pre: seq<(string, Val)>, es: seq<(string, Val)>)
    requires es != []
    ensures AssignEntries(Obj(pre), es, CopyHandler()) ==
      AssignEntries(Obj(Put(pre, es[0].0, es[0].1)), es[1..], CopyHandler())
  {
    var h := CopyHandler();
    assert h(es[0].1, GetMember(Obj(pre), es[0].0), es[0].0) == es[0].1;
  }

  /** Appending the next distinct key of `props` after its first `m` entries. */
  lemma PutNew(pre: seq<(string, Val)>, props: seq<(string, Val)>, m: nat)
    requires UniqueKeys(props) && m < |props| && pre == props[..m]
    ensures Put(pre, props[m].0, props[m].1) == pre + [props[m]]
  {
    NotInPrefix(props, m);
    PutFresh(pre, props[m].0, props[m].1);
  }

  lemma {:induction false} NotInPrefix(props: seq<(string, Val)>, m: nat)
    requires UniqueKeys(props) && m < |props|
    ensures props[m].0 !in Keys(props[..m])
    decreases m
  {
    if m > 0 {
      assert props[0].0 !in Keys(props[1..]);
      assert props[m].0 in Keys(props[1..]) by {
        assert props[1..][m - 1] == props[m];
      }
      NotInPrefix(props[1..], m - 1);
      assert props[1..][..m - 1] == props[..m][1..];
    }
  }

  lemma {:induction false} PutFresh(props: seq<(string, Val)>, k: string, v: Val)
    requires k !in Keys(props)
    ensures Put(props, k, v) == props + [(k, v)]
  {
    if props != [] {
      assert Keys(props) == [props[0].0] + Keys(props[1..]);
      assert props[0].0 != k && k !in Keys(props[1..]);
      PutFresh(props[1..], k, v);
      assert Put(props, k, v) == [props[0]] + Put(props[1..], k, v);
      assert [props[0]] + (props[1..] + [(k, v)]) == props + [(k, v)];
    }
  }

  // ---------------------------------------------------------------------------
  // keys, values, toPairs, fromPairs (src/object.ts:522-636)

  /** `keys(obj)`: the own keys of an object, none for anything else. */
  function LibKeys(obj: Val): (ks: seq<string>)
    ensures !IsObjectVal(obj) ==> ks == []
    ensures obj.Obj? ==> ks == Keys(obj.props)
    ensures obj.Arr? ==> |ks| == |obj.items| && forall i :: 0 <= i < |ks| ==> ks[i] == NatToStr(i)
  {
    if !IsObject(obj) then [] else OwnKeys(obj)
  }

  /** `values(obj)`: `keys(obj).map(k => obj[k])`. */
  function Values(obj: Val): (vs: seq<Val>)
    ensures |vs| == |LibKeys(obj)|
  {
    var ks := LibKeys(obj);
    seq(|ks|, i requires 0 <= i < |ks| => GetMember(obj, ks[i]))
  }

  /** The values of a distinct-key object, or of an array, are its entries' values in order. */
  lemma ValuesInOrder(obj: Val, i: nat)
    requires (obj.Obj? && UniqueKeys(obj.props)) || obj.Arr?
    requires i < |Values(obj)|
    ensures obj.Obj? ==> Values(obj)[i] == obj.props[i].1
    ensures obj.Arr? ==> Values(obj)[i] == obj.items[i]
  {
    if obj.Obj? {
      PropAt(obj.props, i);
    } else {
      GetMemberIndex(obj.items, i);
    }
  }

  /** `toPairs(obj)`: `[k, v]` for every entry of `toObject(obj)`. */
  function ToPairs(obj: Val): (r: Val)
    ensures r.Arr?
  {
    var props := ToObjectSpec([obj]).props;
    Arr(seq(|props|, i requires 0 <= i < |props| => Arr([Str(props[i].0), props[i].1])))
  }

  /** `fromPairs(pairs)`: `rs[pair[0]] = pair[1]` for each pair in order. */
  function FromPairsOf(rs: Val, ps: seq<Val>): (r: Val)
    requires rs.Obj?
    ensures r.Obj?
    decreases |ps|
  {
    if ps == [] then rs
    else FromPairsOf(Write(rs, KeyOf(GetMember(ps[0], "0")), GetMember(ps[0], "1")), ps[1..])
  }

  function FromPairs(pairs: Val): (r: Val)
    ensures r.Obj?
  {
    FromPairsOf(Obj([]), EntryValues(pairs))
  }

  lemma PairMembers(k: string, v: Val)
    ensures GetMember(Arr([Str(k), v]), "0") == Str(k)
    ensures GetMember(Arr([Str(k), v]), "1") == v
  {
    assert IndexKey("0") == Some(0) by { assert "0"[..0] == ""; }
    assert IndexKey("1") == Some(1) by { assert "1"[..0] == ""; }
  }

  /** `[k, v]` for every entry, as `toPairs` builds them. */
  function PairsOf(props: seq<(string, Val)>): (ps: seq<Val>)
    ensures |ps| == |props|
  {
    seq(|props|, i requires 0 <= i < |props| => Arr([Str(props[i].0), props[i].1]))
  }

  /** One pair of `fromPairs` appends the next distinct key. */
  lemma FromPairsStep(pre: seq<(string, Val)>, rest: seq<(string, Val)>)
    requires UniqueKeys(pre + rest) && rest != []
    ensures FromPairsOf(Obj(pre), PairsOf(rest)) == FromPairsOf(Obj(pre + [rest[0]]), PairsOf(rest[1..]))
  {
    var all := pre + rest;
    var ps := PairsOf(rest);
    assert ps[0] == Arr([Str(rest[0].0), rest[0].1]);
    PairMembers(rest[0].0, rest[0].1);
    assert KeyOf(GetMember(ps[0], "0")) == rest[0].0;
    assert all[..|pre|] == pre && all[|pre|] == rest[0];
    PutNew(pre, all, |pre|);
    assert Write(Obj(pre), rest[0].0, rest[0].1) == Obj(pre + [rest[0]]);
    assert ps[1..] == PairsOf(rest[1..]);
  }

  lemma {:induction false} FromPairsRebuilds(pre: seq<(string, Val)>, rest: seq<(string, Val)>)
    requires UniqueKeys(pre + rest)
    ensures FromPairsOf(Obj(pre), PairsOf(rest)) == Obj(pre + rest)
    decreases |rest|
  {
    if rest == [] {
      assert pre + rest == pre;
    } else {
      var pre2, rest2 := pre + [rest[0]], rest[1..];
      assert pre2 + rest2 == pre + rest;
      FromPairsStep(pre, rest);
      FromPairsRebuilds(pre2, rest2);
    }
  }

  /** fromPairs(toPairs(o)) is `o` for a plain object with distinct keys. */
  lemma FromPairsToPairs(props: seq<(string, Val)>)
    requires UniqueKeys(props)
    ensures FromPairs(ToPairs(Obj(props))) == Obj(props)
  {
    ToObjectOfObject(props);
    var items := ToPairs(Obj(props)).items;
    assert items == PairsOf(props);
    assert EntryValues(Arr(items)) == items;
    assert [] + props == props;
    FromPairsRebuilds([], props);
  }
}
