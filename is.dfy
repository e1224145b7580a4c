/**
 * Type tests and equality of src/is.ts.
 */
module Is {
  import opened JsValues

  /** `isNil`: null or undefined only. */
  function IsNil(v: Val): (r: bool)
    ensures r <==> v == Null || v == Undef
  {
    v.Null? || v.Undef?
  }

  /** `isObject`: not null and not of a primitive type. */
  function IsObject(v: Val): bool {
    IsObjectVal(v)
  }

  /** `eq` (is.ts:29-32): both NaN, or `===`. */
  function Eq(a: Val, b: Val): bool {
    (a == NaN && b == NaN) || StrictEq(a, b)
  }

  /** The language type of a value, as SameValueZero distinguishes them. */
  datatype JsType = TUndefined | TNull | TBoolean | TNumber | TString | TObject

  function TypeOf(v: Val): JsType {
    match v
    case Undef => TUndefined
    case Null => TNull
    case Bool(_) => TBoolean
    case Num(_) => TNumber
    case NegZero => TNumber
    case NaN => TNumber
    case Str(_) => TString
    case _ => TObject
  }

  /** SameValueZero, section 7.2.11 of ECMA-262, written from the standard: different
      types are unequal; numbers are equal when both are NaN or they have the same
      mathematical value (so +0 and -0 are equal); other values when they are the same. */
  predicate SameValueZero(a: Val, b: Val) {
    if TypeOf(a) != TypeOf(b) then false
    else if TypeOf(a) == TNumber then
      (a.NaN? && b.NaN?) ||
      (!a.NaN? && !b.NaN? && (if a.Num? then a.n else 0) == (if b.Num? then b.n else 0))
    else a == b
  }

  /** `eq` is SameValueZero. */
  lemma EqIsSameValueZero(a: Val, b: Val)
    ensures Eq(a, b) <==> SameValueZero(a, b)
  {
  }

  /** eq(NaN, NaN) holds, eq(1, '1') does not, and eq(0, -0) does. */
  lemma EqExamples()
    ensures Eq(NaN, NaN) && !Eq(Num(1), Str("1")) && Eq(Num(0), NegZero) && !StrictEq(NaN, NaN)
  {
  }

  /** `isArrayLike` as a tag test: a non-empty string or an array. */
  function IsArrayLike(v: Val): (r: bool)
    ensures r ==> TypeOf(v) == TString || v.Arr?
    ensures !r ==> v != Str("") ==> !v.Str? && !v.Arr?
  {
    (v.Str? && |v.s| > 0) || v.Arr?
  }

  /** `isEmpty` (is.ts:96-104). Sets and Maps have no own keys, so they are always empty. */
  function IsEmpty(v: Val): bool {
    if v == Null || v == Undef then true
    else if v == Str("") then true
    else if StrictEq(Num(0), v) then true
    else if IsArrayLike(v) && GetMember(v, "length") == Num(0) then true
    else if IsObjectVal(v) && |OwnKeys(v)| < 1 then true
    else false
  }

  /** `isEmpty` holds exactly for null, undefined, '', 0, -0, [], {} and every Set or Map. */
  lemma IsEmptyExactly(v: Val)
    ensures IsEmpty(v) <==>
      v == Null || v == Undef || v == Str("") || v == Num(0) || v == NegZero ||
      v == Arr([]) || v == Obj([]) || v.SetOf? || v.MapOf?
  {
    if v.Arr? && |v.items| > 0 {
      assert OwnEntries(v)[0] == (NatToStr(0), v.items[0]);
    }
    if v.Obj? && |v.props| > 0 {
      assert OwnKeys(v)[0] == v.props[0].0;
    }
  }

  /** `isBlank` (is.ts:122-124): empty, or a string form that trims to ''. */
  function IsBlank(v: Val): bool {
    IsEmpty(v) || Trim(ToJsString(v)) == ""
  }

  /** isBlank('  '), isBlank(null), isBlank({}) and isBlank('\u00A0\u3000') hold: the
      no-break and ideographic spaces are white space too. */
  lemma IsBlankExamples()
    ensures IsBlank(Str("  ")) && IsBlank(Null) && IsBlank(Obj([]))
    ensures IsBlank(Str("\U{00A0}\U{3000}"))
  {
    BlankPair("  ");
    BlankPair("\U{00A0}\U{3000}");
    IsEmptyExactly(Obj([]));
  }

  /** Two white-space characters make a blank string. */
  lemma BlankPair(s: string)
    requires |s| == 2 && IsSpace(s[0]) && IsSpace(s[1])
    ensures IsBlank(Str(s))
  {
    IsBlankString(s);
  }

  /** isBlank('     1') does not hold. */
  lemma NotBlankExample(s: string)
    requires s == "     1"
    ensures !IsBlank(Str(s))
  {
    IsBlankString(s);
    assert !IsSpace(s[5]);
  }

  /** A string is blank exactly when all its characters are white space. */
  lemma IsBlankString(s: string)
    ensures IsBlank(Str(s)) <==> forall i :: 0 <= i < |s| ==> IsSpace(s[i])
  {
    IsEmptyExactly(Str(s));
    assert IsEmpty(Str(s)) <==> s == "";
    assert ToJsString(Str(s)) == s;
    TrimEmpty(s);
  }

  // ---------------------------------------------------------------------------
  // Deep equality

  /** `isEqualWith(a, b, comparator)` (is.ts:491-514) as the value it computes: non-objects
      are compared by the comparator (default `eq`); objects need equally many own keys,
      and each own key of `a` must have a deep-equal value under the same key of `b`
      (a key missing from `b` reads as undefined). */
  function IsEqualWith(a: Val, b: Val, cptor: (Val, Val) -> bool): bool
    decreases a, 1
  {
    if !IsObjectVal(a) || !IsObjectVal(b) then cptor(a, b)
    else
      |OwnEntries(a)| == |OwnEntries(b)| &&
      forall i :: 0 <= i < |OwnEntries(a)| ==> EntryEqual(a, b, i, cptor)
  }

  /** The `j`-th own entry of the object `a` is deep-equal to the same key of `b`. */
  predicate EntryEqual(a: Val, b: Val, j: int, cptor: (Val, Val) -> bool)
    decreases a, 0
  {
    IsObjectVal(a) && 0 <= j < |OwnEntries(a)| &&
    IsEqualWith(OwnEntries(a)[j].1, GetMember(b, OwnEntries(a)[j].0), cptor)
  }

  function IsEqual(a: Val, b: Val): bool {
    IsEqualWith(a, b, Eq)
  }

  /** The loop of `isEqualWith`: keys from the last to the first, leaving at the first
      unequal one. Own keys of Sets and Maps are empty, so their contents are never compared. */
  method IsEqualWithLoop(a: Val, b: Val, cptor: (Val, Val) -> bool) returns (r: bool)
    ensures r == IsEqualWith(a, b, cptor)
    decreases a
  {
    if !IsObjectVal(a) || !IsObjectVal(b) {
      return cptor(a, b);
    }
    var keys := OwnEntries(a);
    if |keys| != |OwnEntries(b)| {
      return false;
    }
    var i := |keys|;
    while i > 0
      invariant 0 <= i <= |keys|
      invariant forall j :: i <= j < |keys| ==> EntryEqual(a, b, j, cptor)
    {
      i := i - 1;
      var k := keys[i].0;
      var v1 := keys[i].1;
      var v2 := GetMember(b, k);
      var same := IsEqualWithLoop(v1, v2, cptor);
      EntryEqualIs(a, b, i, cptor, same);
      if !same {
        return false;
      }
      EntriesEqualFrom(a, b, i, cptor);
    }
    return true;
  }

  /** The entries from `i` on are deep-equal when entry `i` and those after it are. */
  lemma EntriesEqualFrom(a: Val, b: Val, i: int, cptor: (Val, Val) -> bool)
    requires 0 <= i && EntryEqual(a, b, i, cptor)
    requires forall j :: i + 1 <= j < |OwnEntries(a)| ==> EntryEqual(a, b, j, cptor)
    ensures forall j :: i <= j < |OwnEntries(a)| ==> EntryEqual(a, b, j, cptor)
  {
  }

  /** Entry `i` is deep-equal exactly when its value compares equal to `b`'s. */
  lemma EntryEqualIs(a: Val, b: Val, i: int, cptor: (Val, Val) -> bool, same: bool)
    requires IsObjectVal(a) && 0 <= i < |OwnEntries(a)|
    requires same == IsEqualWith(OwnEntries(a)[i].1, GetMember(b, OwnEntries(a)[i].0), cptor)
    ensures EntryEqual(a, b, i, cptor) == same
  {
  }

  /** Every well-formed value is deep-equal to itself. */
  lemma {:induction false} IsEqualReflexive(a: Val)
    requires WF(a)
    ensures IsEqual(a, a)
    decreases a
  {
    if IsObjectVal(a) {
      var es := OwnEntries(a);
      forall i | 0 <= i < |es| ensures EntryEqual(a, a, i, Eq) {
        MemberOfOwnEntry(a, i);
        IsEqualReflexive(es[i].1);
      }
    }
  }

  /** In a well-formed value, reading the `i`-th own key gives the `i`-th own value. */
  lemma MemberOfOwnEntry(a: Val, i: nat)
    requires WF(a) && i < |OwnEntries(a)|
    ensures GetMember(a, OwnEntries(a)[i].0) == OwnEntries(a)[i].1
    ensures WF(OwnEntries(a)[i].1)
  {
    match a
    case Obj(props) => LookupUnique(props, i);
    case Arr(items) => GetMemberIndex(items, i);
    case Str(s) => StrMemberIndex(s, i);
  }

  lemma {:induction false} LookupUnique(props: seq<(string, Val)>, i: nat)
    requires UniqueKeys(props) && i < |props|
    ensures Lookup(props, props[i].0) == Some(props[i].1)
  {
    if i > 0 {
      assert props[i].0 == Keys(props[1..])[i - 1];
      LookupUnique(props[1..], i - 1);
    }
  }

  lemma StrMemberIndex(s: string, i: nat)
    requires i < |s|
    ensures GetMember(Str(s), NatToStr(i)) == Str([s[i]])
  {
    IndexKeyExact(NatToStr(i), i);
    NatToStrShape(i);
    assert NatToStr(i) != "length" by {
      assert IsDigit(NatToStr(i)[0]);
    }
  }

  /** Deep equality is not symmetric: a key of `b` missing from `a` is never looked at. */
  lemma IsEqualNotSymmetric()
    ensures IsEqual(Obj([("x", Undef)]), Obj([("y", Num(1))]))
    ensures !IsEqual(Obj([("y", Num(1))]), Obj([("x", Undef)]))
  {
    var a := Obj([("x", Undef)]);
    var b := Obj([("y", Num(1))]);
    assert OwnEntries(a)[0] == ("x", Undef);
    assert GetMember(b, "x") == Undef;
    assert OwnEntries(b)[0] == ("y", Num(1));
    assert GetMember(a, "y") == Undef;
    assert EntryEqual(a, b, 0, Eq);
    assert !IsEqualWith(Num(1), Undef, Eq);
    assert !EntryEqual(b, a, 0, Eq);
  }

  /** Sets and Maps are compared by their (empty) own keys only. */
  lemma IsEqualSets()
    ensures IsEqual(SetOf([Num(1)]), SetOf([Num(2)]))
  {
  }

  // ---------------------------------------------------------------------------
  // Partial deep matching

  /** `isMatchWith(target, props, comparator)` (is.ts:566-592): nil props match everything,
      a non-object target matches nothing; otherwise each own key of `props` must match,
      recursively when both sides are objects and by the comparator otherwise. */
  function IsMatchWith(target: Val, props: Val, cptor: (Val, Val) -> bool): bool
    decreases props, 1
  {
    if IsNil(props) then true
    else if !IsObjectVal(target) then false
    else
      var ks := OwnEntries(props);
      forall i :: 0 <= i < |ks| ==>
        if IsObjectVal(ks[i].1) then KeyMatches(target, ks[i], cptor) else cptor(GetMember(target, ks[i].0), ks[i].1)
  }

  /** One object-valued key of the props against the target. */
  function KeyMatches(target: Val, entry: (string, Val), cptor: (Val, Val) -> bool): bool
    decreases entry.1, 2
  {
    var v1 := GetMember(target, entry.0);
    if IsObjectVal(v1) && IsObjectVal(entry.1) then IsMatchWith(v1, entry.1, cptor) else cptor(v1, entry.1)
  }

  function IsMatch(target: Val, props: Val): bool {
    IsMatchWith(target, props, Eq)
  }

  /** The loop of `isMatchWith`: keys from the last to the first, with a result flag and a break. */
  method IsMatchWithLoop(target: Val, props: Val, cptor: (Val, Val) -> bool) returns (rs: bool)
    ensures rs == IsMatchWith(target, props, cptor)
    decreases props
  {
    if IsNil(props) {
      return true;
    }
    var ks := OwnEntries(props);
    if !IsObjectVal(target) {
      return false;
    }
    IsMatchWithKeys(target, props, cptor);
    rs := true;
    var i := |ks|;
    while i > 0
      invariant 0 <= i <= |ks|
      invariant rs ==> forall j :: i <= j < |ks| ==> KeyMatches(target, ks[j], cptor)
      invariant !rs ==> KeyFails(target, ks, i, cptor)
      decreases if rs then i else 0
    {
      i := i - 1;
      var v1 := GetMember(target, ks[i].0);
      var v2 := ks[i].1;
      ghost var ok := KeyMatches(target, ks[i], cptor);
      if IsObjectVal(v1) && IsObjectVal(v2) {
        OwnEntrySmaller(props, i);
        var sub := IsMatchWithLoop(v1, v2, cptor);
        assert ok == sub;
        if !sub {
          rs := false;
          break;
        }
      } else if !cptor(v1, v2) {
        assert !ok;
        rs := false;
        break;
      }
      KeysMatchFrom(target, ks, i, cptor);
    }
  }

  /** Key i matching extends the keys known to match down to i. */
  lemma KeysMatchFrom(target: Val, ks: seq<(string, Val)>, i: nat, cptor: (Val, Val) -> bool)
    requires i < |ks| && KeyMatches(target, ks[i], cptor)
    requires forall j :: i + 1 <= j < |ks| ==> KeyMatches(target, ks[j], cptor)
    ensures forall j :: i <= j < |ks| ==> KeyMatches(target, ks[j], cptor)
  {
  }

  /** Key i of the entries exists and does not match. */
  predicate KeyFails(target: Val, ks: seq<(string, Val)>, i: int, cptor: (Val, Val) -> bool) {
    0 <= i < |ks| && !KeyMatches(target, ks[i], cptor)
  }

  /** The values of own entries are smaller than their owner. */
  lemma OwnEntrySmaller(v: Val, i: nat)
    requires i < |OwnEntries(v)|
    ensures IsObjectVal(OwnEntries(v)[i].1) ==> OwnEntries(v)[i].1 < v
  {
    if v.Obj? {
      assert v.props[i] in v.props;
      assert v.props[i].1 < v.props[i];
    } else if v.Arr? {
      assert v.items[i] in v.items;
    }
  }

  /** Past nil props and a non-object target, props match when every key does. */
  lemma IsMatchWithKeys(target: Val, props: Val, cptor: (Val, Val) -> bool)
    requires !IsNil(props) && IsObjectVal(target)
    ensures var ks := OwnEntries(props);
      IsMatchWith(target, props, cptor) <==> forall j :: 0 <= j < |ks| ==> KeyMatches(target, ks[j], cptor)
  {
  }

  /** Every well-formed object matches itself. */
  lemma {:induction false} IsMatchReflexive(t: Val)
    requires WF(t) && IsObjectVal(t)
    ensures IsMatch(t, t)
    decreases t
  {
    var ks := OwnEntries(t);
    forall i | 0 <= i < |ks|
      ensures if IsObjectVal(ks[i].1) then KeyMatches(t, ks[i], Eq) else Eq(GetMember(t, ks[i].0), ks[i].1)
    {
      MemberOfOwnEntry(t, i);
      if IsObjectVal(ks[i].1) {
        IsMatchReflexive(ks[i].1);
      }
    }
  }

  /** With target {a:{x:1,y:2},b:1}: {b:1} and {a:{x:1}} match, {b:'1'} does not. */
  lemma IsMatchExamples(inner: Val, t: Val)
    requires inner == Obj([("x", Num(1)), ("y", Num(2))]) && t == Obj([("a", inner), ("b", Num(1))])
    ensures IsMatch(t, Obj([("b", Num(1))])) && IsMatch(t, Obj([("a", Obj([("x", Num(1))]))]))
    ensures !IsMatch(t, Obj([("b", Str("1"))]))
    ensures IsMatch(Num(1), Null) && !IsMatch(Num(1), Obj([]))
  {
    ExampleMembers(inner, t);
    MatchedExamples(inner, t);
    MissedExample(t);
    MatchNilOrPrimitive(Num(1), Null);
    MatchNilOrPrimitive(Num(1), Obj([]));
  }

  lemma MissedExample(t: Val)
    requires t.Obj? && GetMember(t, "b") == Num(1)
    ensures !IsMatch(t, Obj([("b", Str("1"))]))
  {
    MatchOneKey(t, "b", Str("1"));
  }

  lemma MatchedExamples(inner: Val, t: Val)
    requires t.Obj? && inner.Obj? && GetMember(t, "b") == Num(1) && GetMember(t, "a") == inner && GetMember(inner, "x") == Num(1)
    ensures IsMatch(t, Obj([("b", Num(1))])) && IsMatch(t, Obj([("a", Obj([("x", Num(1))]))]))
  {
    MatchOneKey(t, "b", Num(1));
    MatchOneKey(inner, "x", Num(1));
    MatchOneObjectKey(t, "a", Obj([("x", Num(1))]));
  }

  /** Nil props match anything; a target that is not an object matches no object props. */
  lemma MatchNilOrPrimitive(target: Val, props: Val)
    ensures IsNil(props) ==> IsMatch(target, props)
    ensures props.Obj? && !IsObjectVal(target) ==> !IsMatch(target, props)
  {
  }

  lemma ExampleMembers(inner: Val, t: Val)
    requires inner == Obj([("x", Num(1)), ("y", Num(2))]) && t == Obj([("a", inner), ("b", Num(1))])
    ensures GetMember(t, "b") == Num(1) && GetMember(t, "a") == inner && GetMember(inner, "x") == Num(1)
  {
    assert t.props[1..] == [("b", Num(1))];
    assert "a" != "b" by { assert "a"[0] != "b"[0]; }
    assert Lookup(t.props[1..], "b") == Some(Num(1));
  }

  /** A one-key pattern with a plain value compares that key's value. */
  lemma MatchOneKey(t: Val, k: string, v: Val)
    requires t.Obj? && !IsObjectVal(v)
    ensures IsMatch(t, Obj([(k, v)])) == Eq(GetMember(t, k), v)
  {
    assert OwnEntries(Obj([(k, v)]))[0] == (k, v);
  }

  /** A one-key pattern with an object value matches the target's object there. */
  lemma MatchOneObjectKey(t: Val, k: string, p: Val)
    requires t.Obj? && p.Obj? && IsObjectVal(GetMember(t, k))
    ensures IsMatch(t, Obj([(k, p)])) == IsMatch(GetMember(t, k), p)
  {
    assert OwnEntries(Obj([(k, p)]))[0] == (k, p);
    assert KeyMatches(t, (k, p), Eq) == IsMatchWith(GetMember(t, k), p, Eq);
  }
}
