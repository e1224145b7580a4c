/**
 * JavaScript values as the library sees them.
 *
 * Numbers stored in data are integers (`Num`), with negative zero and NaN as
 * their own constructors; arithmetic on fractions is done in module Num over
 * reals. Objects keep their own keys in insertion order. Arrays, plain objects,
 * Sets and Maps are values: the model has no heap identity, so `===` between two
 * of them compares their contents.
 */
module JsValues {

  datatype Option<T> = None | Some(value: T)

  datatype Val =
    | Undef
    | Null
    | Bool(b: bool)
    | Num(n: int)
    | NegZero
    | NaN
    | Str(s: string)
    | Arr(items: seq<Val>)
    | Obj(props: seq<(string, Val)>)
    | SetOf(elems: seq<Val>)
    | MapOf(pairs: seq<(Val, Val)>)

  /** JavaScript truthiness, as used by `if (v)`, `!v` and `v || d`. */
  predicate Truthy(v: Val) {
    match v
    case Undef => false
    case Null => false
    case Bool(b) => b
    case Num(n) => n != 0
    case NegZero => false
    case NaN => false
    case Str(s) => s != ""
    case _ => true
  }

  predicate IsZero(v: Val) {
    v == Num(0) || v == NegZero
  }

  predicate IsNumber(v: Val) {
    v.Num? || v.NegZero? || v.NaN?
  }

  /** `a === b`: NaN equals nothing, 0 and -0 are equal, everything else by value. */
  predicate StrictEq(a: Val, b: Val) {
    if a == NaN || b == NaN then false
    else if IsZero(a) && IsZero(b) then true
    else a == b
  }

  /** typeof is neither a primitive type name nor null. */
  predicate IsObjectVal(v: Val) {
    v.Arr? || v.Obj? || v.SetOf? || v.MapOf?
  }

  // ---------------------------------------------------------------------------
  // Decimal digits and canonical array-index keys

  predicate IsDigit(c: char) {
    '0' <= c <= '9'
  }

  predicate AllDigits(s: string) {
    forall i :: 0 <= i < |s| ==> IsDigit(s[i])
  }

  function DigitChar(d: nat): (c: char)
    requires d < 10
    ensures IsDigit(c) && (c as int) - ('0' as int) == d
  {
    (('0' as int) + d) as char
  }

  function DigitVal(c: char): nat
    requires IsDigit(c)
  {
    (c as int) - ('0' as int)
  }

  /** Decimal rendering of a natural number, most significant digit first. */
  function NatToStr(n: nat): (s: string)
    ensures |s| >= 1
    decreases n
  {
    if n < 10 then [DigitChar(n)] else NatToStr(n / 10) + [DigitChar(n % 10)]
  }

  /** `String(i)` for an integer. */
  function IntToStr(i: int): string {
    if i < 0 then "-" + NatToStr(-i) else NatToStr(i)
  }

  /** The value of a string of decimal digits, read left to right. */
  function DigitsVal(s: string): nat
    requires AllDigits(s)
  {
    if s == [] then 0 else DigitsVal(s[..|s| - 1]) * 10 + DigitVal(s[|s| - 1])
  }

  /** The array index a property key names: a canonical decimal numeral. */
  function IndexKey(k: string): Option<nat> {
    if k != [] && AllDigits(k) && (k == "0" || k[0] != '0') then Some(DigitsVal(k)) else None
  }

  lemma {:induction false} NatToStrShape(n: nat)
    ensures AllDigits(NatToStr(n))
    ensures DigitsVal(NatToStr(n)) == n
    ensures n == 0 || NatToStr(n)[0] != '0'
    ensures NatToStr(n) == "0" <==> n == 0
    decreases n
  {
    var s := NatToStr(n);
    if n >= 10 {
      NatToStrShape(n / 10);
      assert s[..|s| - 1] == NatToStr(n / 10);
      assert s[0] == NatToStr(n / 10)[0];
    }
  }

  lemma {:induction false} DigitsValPositive(s: string)
    requires s != [] && AllDigits(s) && s[0] != '0'
    ensures DigitsVal(s) > 0
    decreases |s|
  {
    if |s| > 1 {
      DigitsValPositive(s[..|s| - 1]);
    }
  }

  /** `IndexKey` recognises exactly the decimal renderings of the naturals. */
  lemma {:induction false} IndexKeyExact(k: string, n: nat)
    ensures IndexKey(k) == Some(n) <==> k == NatToStr(n)
    decreases |k|
  {
    if k == NatToStr(n) {
      NatToStrShape(n);
    }
    if IndexKey(k) == Some(n) {
      if |k| == 1 {
        assert k[..0] == [] && DigitsVal(k[..0]) == 0;
        assert DigitsVal(k) == DigitVal(k[0]);
        assert n == DigitVal(k[0]) && n < 10;
        assert NatToStr(n) == [DigitChar(n)];
      } else {
        var init := k[..|k| - 1];
        assert init[0] == k[0];
        assert AllDigits(init);
        DigitsValPositive(init);
        var m := DigitsVal(init);
        assert IndexKey(init) == Some(m);
        IndexKeyExact(init, m);
        assert n == m * 10 + DigitVal(k[|k| - 1]);
        assert n / 10 == m && n % 10 == DigitVal(k[|k| - 1]);
        assert k == init + [k[|k| - 1]];
      }
    }
  }

  // ---------------------------------------------------------------------------
  // String conversion `String(v)` / `v + ''`

  function ElemString(v: Val): string
    decreases v, 1
  {
    if v == Undef || v == Null then "" else ToJsString(v)
  }

  /** Joins strings with a separator, as `Array.prototype.join`. */
  function Join(parts: seq<string>, sep: string): (r: string)
    ensures parts == [] ==> r == ""
    ensures |parts| == 1 ==> r == parts[0]
  {
    if parts == [] then "" else if |parts| == 1 then parts[0] else Join(parts[..|parts| - 1], sep) + sep + parts[|parts| - 1]
  }

  /** `Array.prototype.join(sep)`: null and undefined elements become ''. */
  function ArrayJoin(items: seq<Val>, sep: string): string
    decreases items, 2
  {
    Join(seq(|items|, i requires 0 <= i < |items| => ElemString(items[i])), sep)
  }

  function ToJsString(v: Val): string
    decreases v, 0
  {
    match v
    case Undef => "undefined"
    case Null => "null"
    case Bool(b) => if b then "true" else "false"
    case Num(n) => IntToStr(n)
    case NegZero => "0"
    case NaN => "NaN"
    case Str(s) => s
    case Arr(items) => ArrayJoin(items, ",")
    case Obj(_) => "[object Object]"
    case SetOf(_) => "[object Set]"
    case MapOf(_) => "[object Map]"
  }

  // ---------------------------------------------------------------------------
  // Own properties of plain objects: ordered (key, value) pairs

  /** Concatenation regroups. */
  lemma AppendAssoc<T>(a: seq<T>, b: seq<T>, c: seq<T>)
    ensures (a + b) + c == a + (b + c)
  {
  }

  function Keys(props: seq<(string, Val)>): (ks: seq<string>)
    ensures |ks| == |props| && forall i :: 0 <= i < |props| ==> ks[i] == props[i].0
  {
    if props == [] then [] else [props[0].0] + Keys(props[1..])
  }

  /** No key occurs twice. */
  predicate UniqueKeys(props: seq<(string, Val)>) {
    props == [] || (props[0].0 !in Keys(props[1..]) && UniqueKeys(props[1..]))
  }

  /** The value stored under `k`, if `k` is an own key. */
  function Lookup(props: seq<(string, Val)>, k: string): (r: Option<Val>)
    ensures r.None? <==> k !in Keys(props)
  {
    if props == [] then None
    else if props[0].0 == k then Some(props[0].1)
    else Lookup(props[1..], k)
  }

  /** `o[k]` for a plain object: undefined when `k` is not an own key. */
  function Prop(props: seq<(string, Val)>, k: string): Val {
    match Lookup(props, k)
    case Some(v) => v
    case None => Undef
  }

  /** `o[k] = v`: overwrites an existing key in place, or appends a new one. */
  function Put(props: seq<(string, Val)>, k: string, v: Val): (r: seq<(string, Val)>)
    ensures Lookup(r, k) == Some(v)
    ensures forall k2 :: k2 != k ==> Lookup(r, k2) == Lookup(props, k2)
  {
    if props == [] then [(k, v)]
    else if props[0].0 == k then [(k, v)] + props[1..]
    else [props[0]] + Put(props[1..], k, v)
  }

  /** Writing a key keeps the key order: an existing key stays where it is, a new one goes last. */
  lemma {:induction false} PutKeys(props: seq<(string, Val)>, k: string, v: Val)
    ensures k in Keys(props) ==> Keys(Put(props, k, v)) == Keys(props)
    ensures k !in Keys(props) ==> Keys(Put(props, k, v)) == Keys(props) + [k]
  {
    if props != [] && props[0].0 != k {
      PutKeys(props[1..], k, v);
      assert ([props[0]] + Put(props[1..], k, v))[1..] == Put(props[1..], k, v);
    } else if props != [] {
      assert ([(k, v)] + props[1..])[1..] == props[1..];
    }
  }

  lemma {:induction false} PutUnique(props: seq<(string, Val)>, k: string, v: Val)
    requires UniqueKeys(props)
    ensures UniqueKeys(Put(props, k, v))
  {
    if props != [] && props[0].0 != k {
      PutUnique(props[1..], k, v);
      PutKeys(props[1..], k, v);
      assert ([props[0]] + Put(props[1..], k, v))[1..] == Put(props[1..], k, v);
    } else if props != [] {
      assert ([(k, v)] + props[1..])[1..] == props[1..];
    }
  }

  /** Reading property `key` of any value: own keys of objects, and the index and `length`
      properties of arrays and strings. */
  function GetMember(v: Val, key: string): Val {
    match v
    case Obj(props) => Prop(props, key)
    case Arr(items) =>
      if key == "length" then Num(|items|)
      else (match IndexKey(key) case Some(i) => if i < |items| then items[i] else Undef case None => Undef)
    case Str(s) =>
      if key == "length" then Num(|s|)
      else (match IndexKey(key) case Some(i) => if i < |s| then Str([s[i]]) else Undef case None => Undef)
    case SetOf(elems) => if key == "size" then Num(|elems|) else Undef
    case MapOf(pairs) => if key == "size" then Num(|pairs|) else Undef
    case _ => Undef
  }

  lemma GetMemberIndex(items: seq<Val>, i: nat)
    requires i < |items|
    ensures GetMember(Arr(items), NatToStr(i)) == items[i]
  {
    IndexKeyExact(NatToStr(i), i);
    NatToStrShape(i);
    assert NatToStr(i) != "length" by {
      assert IsDigit(NatToStr(i)[0]);
    }
  }

  // ---------------------------------------------------------------------------
  // Own enumerable properties, `Object.keys` order

  /** `Object.keys(v)` paired with the values: object keys, or the indices of arrays and
      strings; Sets, Maps and primitives have none. */
  function OwnEntries(v: Val): (es: seq<(string, Val)>)
    ensures v.Obj? ==> es == v.props
    ensures v.Arr? ==> |es| == |v.items| && forall i :: 0 <= i < |es| ==> es[i] == (NatToStr(i), v.items[i])
    ensures v.Str? ==> |es| == |v.s| && forall i :: 0 <= i < |es| ==> es[i] == (NatToStr(i), Str([v.s[i]]))
    ensures !(v.Obj? || v.Arr? || v.Str?) ==> es == []
  {
    match v
    case Obj(props) => props
    case Arr(items) => seq(|items|, i requires 0 <= i < |items| => (NatToStr(i), items[i]))
    case Str(s) => seq(|s|, i requires 0 <= i < |s| => (NatToStr(i), Str([s[i]])))
    case _ => []
  }

  /** `Object.keys(v)`. */
  function OwnKeys(v: Val): seq<string> {
    Keys(OwnEntries(v))
  }

  /** What the iteration primitive `_eachIterator` (src/collection.ts:70-152) visits, in
      forward order, as (key, value) pairs: strings and arrays by index, Sets by position,
      Maps by their keys, plain objects by own key; anything else visits nothing. */
  function Entries(c: Val): (es: seq<(Val, Val)>)
    ensures c.Str? ==> |es| == |c.s| && forall i :: 0 <= i < |es| ==> es[i] == (Num(i), Str([c.s[i]]))
    ensures c.Arr? ==> |es| == |c.items| && forall i :: 0 <= i < |es| ==> es[i] == (Num(i), c.items[i])
    ensures c.SetOf? ==> |es| == |c.elems| && forall i :: 0 <= i < |es| ==> es[i] == (Num(i), c.elems[i])
    ensures c.MapOf? ==> es == c.pairs
    ensures c.Obj? ==> |es| == |c.props| && forall i :: 0 <= i < |es| ==> es[i] == (Str(c.props[i].0), c.props[i].1)
    ensures !(c.Str? || IsObjectVal(c)) ==> es == []
  {
    match c
    case Str(s) => seq(|s|, i requires 0 <= i < |s| => (Num(i), Str([s[i]])))
    case Arr(items) => seq(|items|, i requires 0 <= i < |items| => (Num(i), items[i]))
    case SetOf(elems) => seq(|elems|, i requires 0 <= i < |elems| => (Num(i), elems[i]))
    case MapOf(pairs) => pairs
    case Obj(props) => seq(|props|, i requires 0 <= i < |props| => (Str(props[i].0), props[i].1))
    case _ => []
  }

  /** The values of `Entries(c)`, in order. */
  function EntryValues(c: Val): (vs: seq<Val>)
    ensures |vs| == |Entries(c)| && forall i :: 0 <= i < |vs| ==> vs[i] == Entries(c)[i].1
  {
    var es := Entries(c);
    seq(|es|, i requires 0 <= i < |es| => es[i].1)
  }

  /** Every object inside `v` has distinct keys. */
  predicate WF(v: Val)
    decreases v
  {
    match v
    case Obj(props) => UniqueKeys(props) && forall i :: 0 <= i < |props| ==> WF(props[i].1)
    case Arr(items) => forall i :: 0 <= i < |items| ==> WF(items[i])
    case SetOf(elems) => forall i :: 0 <= i < |elems| ==> WF(elems[i])
    case MapOf(pairs) => forall i :: 0 <= i < |pairs| ==> WF(pairs[i].0) && WF(pairs[i].1)
    case _ => true
  }

  // ---------------------------------------------------------------------------
  // `Array.prototype.slice`

  /** A relative position as `slice` reads it: negative counts from the end, and the
      result is clamped into [0, len]. */
  function RelIndex(i: int, len: nat): (r: nat)
    ensures r <= len
    ensures 0 <= i <= len ==> r == i
    ensures i < 0 && len + i >= 0 ==> r == len + i
    ensures i < 0 && len + i < 0 ==> r == 0
    ensures i > len ==> r == len
  {
    if i < 0 then (if len + i < 0 then 0 else len + i) else if i > len then len else i
  }

  /** `s.slice(begin, end)`, with `None` for an undefined end. */
  function JsSlice<T>(s: seq<T>, begin: int, end: Option<int>): seq<T> {
    var b := RelIndex(begin, |s|);
    var e := if end.None? then |s| else RelIndex(end.value, |s|);
    if b <= e then s[b..e] else []
  }

  /** A prefix one longer is the shorter prefix and the next element. */
  lemma PrefixSnoc<T>(s: seq<T>, n: nat)
    requires 0 < n <= |s|
    ensures s[..n] == s[..n - 1] + [s[n - 1]]
  {
  }

  /** Slicing from 0 to the end copies the whole sequence. */
  lemma SliceWhole<T>(s: seq<T>)
    ensures JsSlice(s, 0, None) == s
  {
    assert s[0..|s|] == s;
  }

  // ---------------------------------------------------------------------------
  // `String.prototype.trim`

  /** The characters `trim` and `Number()` strip: the white space and line terminators of
      section 12.2 and 12.3 of ECMA-262, that is tab, vertical tab, form feed, the byte
      order mark, line feed, carriage return, the line and paragraph separators and every
      space separator of Unicode (space, no-break space, ogham space mark, the en quad to
      hair space run, the narrow no-break, medium mathematical and ideographic spaces). */
  predicate IsSpace(c: char) {
    c == '\t' || c == '\U{000B}' || c == '\U{000C}' || c == '\U{FEFF}' ||
    c == '\n' || c == '\r' || c == '\U{2028}' || c == '\U{2029}' ||
    c == ' ' || c == '\U{00A0}' || c == '\U{1680}' || ('\U{2000}' <= c <= '\U{200A}') ||
    c == '\U{202F}' || c == '\U{205F}' || c == '\U{3000}'
  }

  function TrimStart(s: string): (r: string)
    ensures r == [] || !IsSpace(r[0])
    ensures |r| <= |s| && r == s[|s| - |r|..]
    ensures forall i :: 0 <= i < |s| - |r| ==> IsSpace(s[i])
  {
    if s != [] && IsSpace(s[0]) then TrimStart(s[1..]) else s
  }

  function TrimEnd(s: string): (r: string)
    ensures r == [] || !IsSpace(r[|r| - 1])
    ensures |r| <= |s| && r == s[..|r|]
    ensures forall i :: |r| <= i < |s| ==> IsSpace(s[i])
  {
    if s != [] && IsSpace(s[|s| - 1]) then TrimEnd(s[..|s| - 1]) else s
  }

  /** `s.trim()`. */
  function Trim(s: string): string {
    TrimEnd(TrimStart(s))
  }

  /** A string trims to '' exactly when every character is white space. */
  lemma TrimEmpty(s: string)
    ensures Trim(s) == "" <==> forall i :: 0 <= i < |s| ==> IsSpace(s[i])
  {
  }
}
