/**
 * The functions of src/array.ts that regroup or search an array: `chunk`, `zip`,
 * `unzip`, `zipObject` and `sortedIndexBy`.
 */
module ArrayGroups {
  import opened JsValues
  import opened Is
  import opened Num
  import opened Paths
  import opened Objects
  import opened Utils
  import opened Coll
  import opened Arrays

  // ---------------------------------------------------------------------------
  // chunk (src/array.ts:851-861)

  /** `(size || 1) >> 0`: a falsy size is 1, anything else goes through ToInt32, so a
      size that is not a number can be 0 or negative. */
  function ChunkSize(size: Val): int {
    ToInt32(ToNumber(if Truthy(size) then size else Num(1)))
  }

  /** The chunks the `forEach` of `chunk` has pushed after visiting the first `n`
      indices: one `slice(i, i + s)` for every visited `i` that `s` divides. Index `i` is
      not negative, so its remainder by `s` is 0 in the language exactly when it is 0
      here; `i % 0` is NaN and never 0. */
  function Chunks(ary: seq<Val>, s: int, n: nat): seq<seq<Val>>
    requires n <= |ary|
  {
    if n == 0 then []
    else
      var i := n - 1;
      Chunks(ary, s, i) + (if s != 0 && i % s == 0 then [JsSlice(ary, i, Some(i + s))] else [])
  }

  /** `chunk(a, size)`. */
  method Chunk(a: Val, size: Val) returns (rs: seq<seq<Val>>)
    ensures rs == Chunks(ToArray(a), ChunkSize(size), |ToArray(a)|)
  {
    rs := ChunkArray(ToArray(a), ChunkSize(size));
  }

  /** The loop of `chunk` over the converted array and size. */
  method ChunkArray(ary: seq<Val>, sizeNum: int) returns (rs: seq<seq<Val>>)
    ensures rs == Chunks(ary, sizeNum, |ary|)
  {
    rs := [];
    for i := 0 to |ary|
      invariant rs == Chunks(ary, sizeNum, i)
    {
      if sizeNum != 0 && i % sizeNum == 0 {
        rs := rs + [JsSlice(ary, i, Some(i + sizeNum))];
      }
    }
  }

  /** The chunks of a positive size `s` from index `i` on, as a reference definition:
      `ary[i..i + s]` (shorter at the end) and then those from `i + s`. */
  function ChunksFrom(ary: seq<Val>, s: nat, i: nat): seq<seq<Val>>
    requires s >= 1
    decreases |ary| - i
  {
    if i >= |ary| then []
    else [ary[i..if i + s <= |ary| then i + s else |ary|]] + ChunksFrom(ary, s, i + s)
  }

  /** The concatenation of some arrays. */
  function Concat(cs: seq<seq<Val>>): seq<Val>
    decreases |cs|
  {
    if cs == [] then [] else cs[0] + Concat(cs[1..])
  }

  lemma MulAtLeast(d: int, s: int)
    requires s >= 1
    ensures d >= 1 ==> d * s >= s
    ensures d <= -1 ==> d * s <= -s
  {
  }

  lemma ModUnique(a: int, s: int, q: int, r: int)
    requires s >= 1 && 0 <= r < s && a == q * s + r
    ensures a % s == r
  {
    var q', r' := a / s, a % s;
    assert (q' - q) * s == r - r';
    MulAtLeast(q' - q, s);
  }

  lemma ModStep(i: nat, s: nat)
    requires s >= 1
    ensures (i + 1) % s == if i % s == s - 1 then 0 else i % s + 1
  {
    var q, r := i / s, i % s;
    if r == s - 1 {
      ModUnique(i + 1, s, q + 1, 0);
    } else {
      ModUnique(i + 1, s, q, r + 1);
    }
  }

  /** The first multiple of `s` that is at least `n`. */
  function NextStart(n: nat, s: nat): nat
    requires s >= 1
  {
    if n % s == 0 then n else n + (s - n % s)
  }

  /** Where the next chunk starts after index `i`. */
  lemma NextStartStep(i: nat, s: nat)
    requires s >= 1
    ensures i % s == 0 ==> NextStart(i, s) == i && NextStart(i + 1, s) == i + s
    ensures i % s != 0 ==> NextStart(i + 1, s) == NextStart(i, s)
  {
    ModStep(i, s);
  }

  /** The first reference chunk from `i` is what `slice(i, i + s)` gives. */
  lemma ChunksFromHead(ary: seq<Val>, s: nat, i: nat)
    requires s >= 1 && i < |ary|
    ensures ChunksFrom(ary, s, i) == [JsSlice(ary, i, Some(i + s))] + ChunksFrom(ary, s, i + s)
  {
    assert JsSlice(ary, i, Some(i + s)) == ary[i..if i + s <= |ary| then i + s else |ary|];
  }

  /** After `n` indices the loop has pushed the chunks before the first multiple of `s`
      from `n` on, and the reference chunks from there are the rest. */
  lemma {:induction false} ChunksSplit(ary: seq<Val>, s: nat, n: nat)
    requires s >= 1 && n <= |ary|
    ensures Chunks(ary, s, n) + ChunksFrom(ary, s, NextStart(n, s)) == ChunksFrom(ary, s, 0)
  {
    if n > 0 {
      var i := n - 1;
      ChunksSplit(ary, s, i);
      NextStartStep(i, s);
      if i % s == 0 {
        ChunksFromHead(ary, s, i);
        var head := [JsSlice(ary, i, Some(i + s))];
        assert Chunks(ary, s, n) == Chunks(ary, s, i) + head;
        assert (Chunks(ary, s, i) + head) + ChunksFrom(ary, s, i + s) ==
          Chunks(ary, s, i) + (head + ChunksFrom(ary, s, i + s));
      }
    }
  }

  /** For a positive size the loop gives the reference chunks. */
  lemma ChunksAreChunksFrom(ary: seq<Val>, s: nat)
    requires s >= 1
    ensures Chunks(ary, s, |ary|) == ChunksFrom(ary, s, 0)
  {
    ChunksSplit(ary, s, |ary|);
    assert Chunks(ary, s, |ary|) + [] == Chunks(ary, s, |ary|);
  }

  /** Concatenating the chunks from `i` on gives back the elements from `i` on; every
      chunk has `s` elements except the last, which has between 1 and `s`. */
  lemma {:induction false} ChunksFromMeaning(ary: seq<Val>, s: nat, i: nat)
    requires s >= 1 && i <= |ary|
    ensures Concat(ChunksFrom(ary, s, i)) == ary[i..]
    ensures var cs := ChunksFrom(ary, s, i);
      (forall j :: 0 <= j < |cs| - 1 ==> |cs[j]| == s) &&
      (cs != [] ==> 1 <= |cs[|cs| - 1]| <= s)
    decreases |ary| - i
  {
    if i < |ary| {
      var e := if i + s <= |ary| then i + s else |ary|;
      var cs := ChunksFrom(ary, s, i);
      var rest := ChunksFrom(ary, s, i + s);
      if i + s <= |ary| {
        ChunksFromMeaning(ary, s, i + s);
        assert ary[i..] == ary[i..i + s] + ary[i + s..];
      } else {
        assert rest == [];
      }
      assert cs == [ary[i..e]] + rest;
      assert cs[1..] == rest;
    }
  }

  /** chunk(a, k) for a positive size concatenates back to `toArray(a)`, and all its
      chunks have k elements except the last, which is not empty. */
  lemma ChunkMeaning(a: Val, size: Val)
    requires ChunkSize(size) >= 1
    ensures var cs := Chunks(ToArray(a), ChunkSize(size), |ToArray(a)|);
      Concat(cs) == ToArray(a) &&
      (forall j :: 0 <= j < |cs| - 1 ==> |cs[j]| == ChunkSize(size)) &&
      (cs != [] ==> 1 <= |cs[|cs| - 1]| <= ChunkSize(size))
  {
    var ary := ToArray(a);
    ChunksAreChunksFrom(ary, ChunkSize(size));
    ChunksFromMeaning(ary, ChunkSize(size), 0);
    assert ary[0..] == ary;
  }

  /** A size that converts to 0, such as 'a' (NaN), gives no chunks at all. */
  lemma ChunkOfZeroSize(ary: seq<Val>, n: nat)
    requires n <= |ary|
    ensures Chunks(ary, 0, n) == []
  {
    if n > 0 {
      ChunkOfZeroSize(ary, n - 1);
    }
  }

  /** chunk([1,2,3,4], 3) is [[1,2,3],[4]]. */
  lemma ChunkExample()
    ensures Chunks([Num(1), Num(2), Num(3), Num(4)], 3, 4) == [[Num(1), Num(2), Num(3)], [Num(4)]]
  {
    var ary := [Num(1), Num(2), Num(3), Num(4)];
    ChunksAreChunksFrom(ary, 3);
    assert ChunksFrom(ary, 3, 6) == [];
    assert ary[3..4] == [Num(4)];
    assert ChunksFrom(ary, 3, 3) == [[Num(4)]];
    assert ary[0..3] == [Num(1), Num(2), Num(3)];
  }

  // ---------------------------------------------------------------------------
  // zip / unzip (src/array.ts:877-890, 932-945)

  /** The length of the longest array. */
  function MaxLen(cols: seq<seq<Val>>): (m: nat)
    ensures forall c :: 0 <= c < |cols| ==> |cols[c]| <= m
    ensures cols == [] ==> m == 0
    ensures cols != [] ==> exists c :: 0 <= c < |cols| && |cols[c]| == m
    decreases |cols|
  {
    if cols == [] then 0
    else
      var n := |cols| - 1;
      var m := MaxLen(cols[..n]);
      assert forall c :: 0 <= c < n ==> cols[c] == cols[..n][c];
      if |cols[n]| > m then |cols[n]| else m
  }

  /** The regrouping as a reference definition: row `r` holds the `r`-th element of each
      array, undefined where an array is shorter, and there are as many rows as the
      longest array has elements. `new Array(size)` leaves holes, which read as undefined. */
  function Transposed(cols: seq<seq<Val>>): (rows: seq<seq<Val>>)
    ensures |rows| == MaxLen(cols)
    ensures forall r :: 0 <= r < |rows| ==> |rows[r]| == |cols|
  {
    seq(MaxLen(cols), r requires 0 <= r < MaxLen(cols) =>
      seq(|cols|, c requires 0 <= c < |cols| => if r < |cols[c]| then cols[c][r] else Undef))
  }

  function Max(a: nat, b: nat): nat {
    if a >= b then a else b
  }

  /** Row `r`, column `k` once the arrays before `c` and the first `i` elements of
      array `c` have been placed. */
  ghost function Cell(cols: seq<seq<Val>>, c: nat, i: nat, r: nat, k: nat): Val
    requires k < |cols|
  {
    if (k < c && r < |cols[k]|) || (k == c && r < i && r < |cols[k]|) then cols[k][r] else Undef
  }

  /** What `zip` has built after the arrays before `c` and the first `i` elements of
      array `c`. */
  ghost predicate ZipInv(rs: seq<seq<Val>>, cols: seq<seq<Val>>, c: nat, i: nat)
    requires c <= |cols|
  {
    (c < |cols| ==> i <= |cols[c]|) && (c == |cols| ==> i == 0) &&
    |rs| == Max(MaxLen(cols[..c]), i) &&
    (forall r :: 0 <= r < |rs| ==> |rs[r]| == |cols|) &&
    (forall r, k :: 0 <= r < |rs| && 0 <= k < |cols| ==> rs[r][k] == Cell(cols, c, i, r, k))
  }

  lemma ZipInvNext(rs: seq<seq<Val>>, cols: seq<seq<Val>>, c: nat)
    requires c < |cols| && ZipInv(rs, cols, c, |cols[c]|)
    ensures ZipInv(rs, cols, c + 1, 0)
  {
    var pre := cols[..c + 1];
    assert pre[..c] == cols[..c];
    assert pre[c] == cols[c];
    assert MaxLen(pre) == Max(MaxLen(cols[..c]), |cols[c]|);
    assert |rs| == Max(MaxLen(pre), 0);
    forall r, k | 0 <= r < |rs| && 0 <= k < |cols|
      ensures rs[r][k] == Cell(cols, c + 1, 0, r, k)
    {
      assert rs[r][k] == Cell(cols, c, |cols[c]|, r, k);
    }
  }

  lemma ZipInvStep(rs: seq<seq<Val>>, cols: seq<seq<Val>>, c: nat, i: nat, rs': seq<seq<Val>>)
    requires c < |cols| && i < |cols[c]| && ZipInv(rs, cols, c, i)
    requires var grown := if i < |rs| then rs else rs + [seq(|cols|, _ => Undef)];
      rs' == grown[i := grown[i][c := cols[c][i]]]
    ensures ZipInv(rs', cols, c, i + 1)
  {
    var m := MaxLen(cols[..c]);
    forall k | 0 <= k < c
      ensures |cols[k]| <= m
    {
      assert cols[..c][k] == cols[k];
    }
    assert |rs'| == Max(m, i + 1);
    forall r, k | 0 <= r < |rs'| && 0 <= k < |cols|
      ensures rs'[r][k] == Cell(cols, c, i + 1, r, k)
    {
      if r == |rs| {
        assert r == i;
      } else {
        assert rs[r][k] == Cell(cols, c, i, r, k);
      }
    }
  }

  lemma ZipInvDone(rs: seq<seq<Val>>, cols: seq<seq<Val>>)
    requires ZipInv(rs, cols, |cols|, 0)
    ensures rs == Transposed(cols)
  {
    assert cols[..|cols|] == cols;
    var t := Transposed(cols);
    forall r | 0 <= r < |rs|
      ensures rs[r] == t[r]
    {
      forall k | 0 <= k < |cols|
        ensures rs[r][k] == t[r][k]
      {
        assert rs[r][k] == Cell(cols, |cols|, 0, r, k);
      }
    }
  }

  /** `zip(...arrays)`: element `i` of array `c` goes to row `i`, column `c`, and a row
      is created, as long as there are arrays, the first time an index needs it. */
  method Zip(arrays: seq<seq<Val>>) returns (rs: seq<seq<Val>>)
    ensures rs == Transposed(arrays)
  {
    rs := [];
    var size := |arrays|;
    for colIndex := 0 to |arrays|
      invariant ZipInv(rs, arrays, colIndex, 0)
    {
      var ary := arrays[colIndex];
      for i := 0 to |ary|
        invariant ZipInv(rs, arrays, colIndex, i)
      {
        ghost var rs0 := rs;
        if i >= |rs| {
          rs := rs + [seq(size, _ => Undef)];
        }
        rs := rs[i := rs[i][colIndex := ary[i]]];
        ZipInvStep(rs0, arrays, colIndex, i, rs);
      }
      ZipInvNext(rs, arrays, colIndex);
    }
    ZipInvDone(rs, arrays);
  }

  /** `unzip(groups)`: the groups regrouped exactly as `zip` regroups its arguments, with
      `size(groups)` columns. */
  method Unzip(groups: seq<seq<Val>>) returns (rs: seq<seq<Val>>)
    ensures rs == Transposed(groups)
  {
    rs := Zip(groups);
  }

  /** `zip(a, b, ...)` pads the shorter arrays with undefined: zip([1,2],['a','b','c']) is
      [[1,'a'],[2,'b'],[undefined,'c']]. */
  lemma ZipPads()
    ensures Transposed([[Num(1), Num(2)], [Str("a"), Str("b"), Str("c")]]) ==
      [[Num(1), Str("a")], [Num(2), Str("b")], [Undef, Str("c")]]
  {
    var cols := [[Num(1), Num(2)], [Str("a"), Str("b"), Str("c")]];
    assert MaxLen(cols) == 3 by {
      assert |cols[1]| == 3;
      assert forall c :: 0 <= c < |cols| ==> |cols[c]| <= 3;
    }
    var t := Transposed(cols);
    assert t[0] == [Num(1), Str("a")];
    assert t[1] == [Num(2), Str("b")];
    assert t[2] == [Undef, Str("c")];
  }

  /** Arrays of one common, non-zero length: `unzip` undoes `zip`. */
  lemma UnzipZip(rows: seq<seq<Val>>, m: nat)
    requires m >= 1 && forall c :: 0 <= c < |rows| ==> |rows[c]| == m
    ensures rows != [] ==> MaxLen(rows) == m
    ensures Transposed(Transposed(rows)) == rows
  {
    var t := Transposed(rows);
    if rows != [] {
      assert MaxLen(rows) == m;
      assert |t| == m;
      assert MaxLen(t) == |rows| by {
        assert |t[0]| == |rows|;
      }
      var tt := Transposed(t);
      forall i | 0 <= i < |rows|
        ensures tt[i] == rows[i]
      {
        forall k | 0 <= k < m
          ensures tt[i][k] == rows[i][k]
        {
          assert tt[i][k] == t[k][i];
        }
      }
    } else {
      assert t == [];
    }
  }

  // ---------------------------------------------------------------------------
  // zipObject (src/array.ts:959-969)

  /** `get(values, i)`. */
  function ValueAt(values: Val, i: nat): Val {
    GetSpec(values, ToPath(Num(i)), Undef)
  }

  /** The property names `rs[k]` converts the keys to. */
  function KeyStrings(keys: seq<Val>): (ks: seq<string>)
    ensures |ks| == |keys| && forall i :: 0 <= i < |keys| ==> ks[i] == KeyOf(keys[i])
  {
    seq(|keys|, i requires 0 <= i < |keys| => KeyOf(keys[i]))
  }

  /** The properties `zipObject` has written after the first `n` keys, whose names are
      `ks`: `rs[k] = get(i)` in order, `get(i)` being `get(values, i)`, so a name that
      comes twice keeps its first place and its last value. */
  function ZipProps(ks: seq<string>, get: nat -> Val, n: nat): seq<(string, Val)>
    requires n <= |ks|
  {
    if n == 0 then []
    else Put(ZipProps(ks, get, n - 1), ks[n - 1], get(n - 1))
  }

  /** `zipObject(keys, values)`. */
  function ZipObject(keys: seq<Val>, values: Val): Val {
    Obj(ZipProps(KeyStrings(keys), (i: nat) => ValueAt(values, i), |keys|))
  }

  /** The object's keys are distinct. */
  lemma {:induction false} ZipPropsUnique(ks: seq<string>, get: nat -> Val, n: nat)
    requires n <= |ks|
    ensures UniqueKeys(ZipProps(ks, get, n))
  {
    if n > 0 {
      ZipPropsUnique(ks, get, n - 1);
      PutUnique(ZipProps(ks, get, n - 1), ks[n - 1], get(n - 1));
    }
  }

  /** The properties' keys are exactly the names. */
  ghost predicate SameKeys(props: seq<(string, Val)>, names: seq<string>) {
    forall x :: x in Keys(props) <==> x in names
  }

  /** Writing one property adds its name to the keys. */
  lemma PutKeySet(props: seq<(string, Val)>, names: seq<string>, k: string, v: Val, names': seq<string>)
    requires SameKeys(props, names) && names' == names + [k]
    ensures SameKeys(Put(props, k, v), names')
  {
    PutKeys(props, k, v);
  }

  /** The object's keys are exactly the names. */
  lemma {:induction false} ZipPropsKeys(ks: seq<string>, get: nat -> Val, n: nat)
    requires n <= |ks|
    ensures SameKeys(ZipProps(ks, get, n), ks[..n])
  {
    if n > 0 {
      PrefixSnoc(ks, n);
      var props, names := ZipProps(ks, get, n - 1), ks[..n - 1];
      ZipPropsKeys(ks, get, n - 1);
      assert SameKeys(props, names);
      assert ks[..n] == names + [ks[n - 1]];
      PutKeySet(props, names, ks[n - 1], get(n - 1), ks[..n]);
    }
  }

  /** Each name holds the value at the last index with that name. */
  lemma {:induction false} ZipPropsLast(ks: seq<string>, get: nat -> Val, n: nat, i: nat)
    requires i < n <= |ks|
    requires forall j :: i < j < n ==> ks[j] != ks[i]
    ensures Lookup(ZipProps(ks, get, n), ks[i]) == Some(get(i))
  {
    if i < n - 1 {
      ZipPropsLast(ks, get, n - 1, i);
    }
  }

  /** zipObject makes an object whose keys are the keys' strings, each in the place of
      its first occurrence, holding get(values, i) for the last index i with that key. */
  lemma ZipObjectKeys(keys: seq<Val>, values: Val)
    ensures var props := ZipObject(keys, values).props;
      UniqueKeys(props) &&
      (forall k :: k in Keys(props) <==> exists i :: 0 <= i < |keys| && KeyOf(keys[i]) == k) &&
      (forall i :: 0 <= i < |keys| && (forall j :: i < j < |keys| ==> KeyOf(keys[j]) != KeyOf(keys[i])) ==>
         Lookup(props, KeyOf(keys[i])) == Some(ValueAt(values, i)))
  {
    var ks := KeyStrings(keys);
    var get := (i: nat) => ValueAt(values, i);
    ZipPropsUnique(ks, get, |ks|);
    ZipPropsKeys(ks, get, |ks|);
    assert ks[..|ks|] == ks;
    forall k | k in Keys(ZipObject(keys, values).props)
      ensures exists i :: 0 <= i < |keys| && KeyOf(keys[i]) == k
    {
      var i :| 0 <= i < |ks| && ks[i] == k;
    }
    forall i | 0 <= i < |keys| && (forall j :: i < j < |keys| ==> KeyOf(keys[j]) != KeyOf(keys[i]))
      ensures Lookup(ZipObject(keys, values).props, KeyOf(keys[i])) == Some(ValueAt(values, i))
    {
      ZipPropsLast(ks, get, |ks|, i);
    }
  }

  /** A number is the one-segment path of its digits. */
  lemma ToPathOfIndex(i: nat)
    ensures ToPath(Num(i)) == [NatToStr(i)]
  {
    NatToStrShape(i);
    var d := NatToStr(i);
    assert forall j :: 0 <= j < |d| ==> IsDigit(d[j]);
    ToPathOfPlain(d);
  }

  /** get(values, i) on an array is its i-th element, undefined past the end. */
  lemma ValueAtArray(vs: seq<Val>, i: nat)
    ensures ValueAt(Arr(vs), i) == if i < |vs| then vs[i] else Undef
  {
    ToPathOfIndex(i);
    var d := NatToStr(i);
    assert [d][1..] == [];
    assert Walk(Arr(vs), [d]) == GetMember(Arr(vs), d);
    if i < |vs| {
      GetMemberIndex(vs, i);
    } else {
      IndexKeyExact(NatToStr(i), i);
      NatToStrShape(i);
      assert NatToStr(i) != "length" by {
        assert IsDigit(NatToStr(i)[0]);
      }
    }
  }

  /** zipObject(['a','b'], [1,2,3]) is {a: 1, b: 2}. */
  lemma ZipObjectExample(keys: seq<Val>, vs: seq<Val>)
    requires keys == [Str("a"), Str("b")] && vs == [Num(1), Num(2), Num(3)]
    ensures ZipObject(keys, Arr(vs)) == Obj([("a", Num(1)), ("b", Num(2))])
  {
    ValueAtArray(vs, 0);
    ValueAtArray(vs, 1);
    var ks := KeyStrings(keys);
    assert ks == ["a", "b"];
    assert "a" != "b" by { assert "a"[0] != "b"[0]; }
    ZipPropsTwo(ks, (i: nat) => ValueAt(Arr(vs), i));
  }

  /** Two distinct names give two properties in order. */
  lemma ZipPropsTwo(ks: seq<string>, get: nat -> Val)
    requires |ks| == 2 && ks[0] != ks[1]
    ensures ZipProps(ks, get, 2) == [(ks[0], get(0)), (ks[1], get(1))]
  {
    var one := [(ks[0], get(0))];
    assert ZipProps(ks, get, 0) == [];
    assert ZipProps(ks, get, 1) == one;
    assert one[1..] == [];
    assert Put([], ks[1], get(1)) == [(ks[1], get(1))];
    assert Put(one, ks[1], get(1)) == [one[0]] + Put(one[1..], ks[1], get(1));
  }

  /** zipObject(keys, values) with distinct key strings pairs key i with values[i], and
      with undefined where the values run out. */
  lemma ZipObjectOfArray(keys: seq<Val>, vs: seq<Val>)
    requires forall i, j :: 0 <= i < j < |keys| ==> KeyOf(keys[i]) != KeyOf(keys[j])
    ensures forall i :: 0 <= i < |keys| ==>
      Prop(ZipObject(keys, Arr(vs)).props, KeyOf(keys[i])) == if i < |vs| then vs[i] else Undef
  {
    forall i | 0 <= i < |keys|
      ensures Prop(ZipObject(keys, Arr(vs)).props, KeyOf(keys[i])) == if i < |vs| then vs[i] else Undef
    {
      ZipPropsLast(KeyStrings(keys), (i: nat) => ValueAt(Arr(vs), i), |keys|, i);
      ValueAtArray(vs, i);
    }
  }

  // ---------------------------------------------------------------------------
  // sortedIndexBy (src/array.ts:1002-1022)

  /** Code-unit order on strings, as `<` compares two strings. */
  predicate StrLess(a: string, b: string)
    decreases |a|
  {
    if a == [] then b != []
    else if b == [] then false
    else if a[0] != b[0] then a[0] < b[0]
    else StrLess(a[1..], b[1..])
  }

  /** The primitive `<` reads an object as: its string form. */
  function ToPrimitive(v: Val): (p: Val)
    ensures !IsObjectVal(p)
  {
    if IsObjectVal(v) then Str(ToJsString(v)) else v
  }

  /** `a < b`: two strings compare by code units, anything else as numbers, and NaN is
      less and greater than nothing. */
  predicate JsLess(a: Val, b: Val) {
    var pa, pb := ToPrimitive(a), ToPrimitive(b);
    if pa.Str? && pb.Str? then StrLess(pa.s, pb.s) else Less(ToNumber(pa), ToNumber(pb))
  }

  /** The elements compare below `value` on a prefix and not after it: what a sorted
      array gives. */
  predicate Partitioned(xs: seq<Val>, key: Val -> Val, value: Val) {
    forall i, j :: 0 <= i < j < |xs| && JsLess(key(xs[j]), value) ==> JsLess(key(xs[i]), value)
  }

  /** `index` is where `value` goes: everything before compares below it, nothing after. */
  predicate IsLowerBound(xs: seq<Val>, key: Val -> Val, value: Val, index: nat) {
    index <= |xs| &&
    (forall i :: 0 <= i < index ==> JsLess(key(xs[i]), value)) &&
    (forall i :: index <= i < |xs| ==> !JsLess(key(xs[i]), value))
  }

  /** What `sortedIndexBy` compares of each element: the callback called with it alone. */
  function KeyFn(itee: Arg): Val -> Val {
    (v: Val) => UniqCallback(itee)(v, Undef)
  }

  /** `sortedIndexBy(xs, value, itee)`: binary search for the first index whose
      element does not compare below `value`, both compared through the callback. */
  method SortedIndexBy(xs: seq<Val>, value: Val, itee: Arg) returns (index: nat)
    ensures index <= |xs|
    ensures var key := KeyFn(itee);
      Partitioned(xs, key, key(value)) ==> IsLowerBound(xs, key, key(value), index)
  {
    ghost var key := KeyFn(itee);
    var left, right := 0, |xs|;
    index := 0;
    var cb := UniqCallback(itee);
    var v := cb(value, Undef);
    assert key(value) == v;
    while left < right
      invariant 0 <= left <= right <= |xs| && index == left
      invariant Partitioned(xs, key, v) ==>
        (forall i :: 0 <= i < left ==> JsLess(key(xs[i]), v)) &&
        (forall i :: right <= i < |xs| ==> !JsLess(key(xs[i]), v))
      decreases right - left
    {
      var mid := (left + right) / 2;
      assert key(xs[mid]) == cb(xs[mid], Undef);
      if JsLess(cb(xs[mid], Undef), v) {
        BelowUpTo(xs, key, v, left, mid);
        left := mid + 1;
        index := left;
      } else {
        NotBelowFrom(xs, key, v, right, mid);
        right := mid;
      }
    }
  }

  /** A search step that finds `xs[mid]` below the value moves the left bound past it. */
  lemma BelowUpTo(xs: seq<Val>, key: Val -> Val, v: Val, left: nat, mid: nat)
    requires left <= mid < |xs| && JsLess(key(xs[mid]), v)
    ensures Partitioned(xs, key, v) && (forall i :: 0 <= i < left ==> JsLess(key(xs[i]), v)) ==>
      forall i :: 0 <= i < mid + 1 ==> JsLess(key(xs[i]), v)
  {
  }

  /** A search step that finds `xs[mid]` not below the value moves the right bound to it. */
  lemma NotBelowFrom(xs: seq<Val>, key: Val -> Val, v: Val, right: nat, mid: nat)
    requires mid < right <= |xs| && !JsLess(key(xs[mid]), v)
    ensures Partitioned(xs, key, v) && (forall i :: right <= i < |xs| ==> !JsLess(key(xs[i]), v)) ==>
      forall i :: mid <= i < |xs| ==> !JsLess(key(xs[i]), v)
  {
  }

  lemma LowerBoundAt(xs: seq<Val>, key: Val -> Val, value: Val, index: nat, i: nat)
    requires IsLowerBound(xs, key, value, index) && i < |xs|
    ensures i < index <==> JsLess(key(xs[i]), value)
  {
  }

  /** There is at most one such index, so on a partitioned array the result of
      `sortedIndexBy` is determined. */
  lemma LowerBoundUnique(xs: seq<Val>, key: Val -> Val, value: Val, a: nat, b: nat)
    requires IsLowerBound(xs, key, value, a) && IsLowerBound(xs, key, value, b)
    ensures a == b
  {
    var m := if a < b then a else b;
    if m < |xs| {
      LowerBoundAt(xs, key, value, a, m);
      LowerBoundAt(xs, key, value, b, m);
    }
  }

  lemma {:induction false} StrLessTrans(a: string, b: string, c: string)
    requires StrLess(a, b) && StrLess(b, c)
    ensures StrLess(a, c)
    decreases |a|
  {
    if a != [] && a[0] == b[0] && b[0] == c[0] {
      StrLessTrans(a[1..], b[1..], c[1..]);
    }
  }

  /** An array whose keys are strings in ascending order is partitioned by any string:
      `sortedIndex` on sorted strings finds the insertion point. */
  lemma SortedStringsPartitioned(xs: seq<Val>, key: Val -> Val, value: string)
    requires forall i :: 0 <= i < |xs| ==> key(xs[i]).Str?
    requires forall i, j :: 0 <= i < j < |xs| ==> key(xs[i]) == key(xs[j]) || StrLess(key(xs[i]).s, key(xs[j]).s)
    ensures Partitioned(xs, key, Str(value))
  {
    forall i, j | 0 <= i < j < |xs| && JsLess(key(xs[j]), Str(value))
      ensures JsLess(key(xs[i]), Str(value))
    {
      if key(xs[i]) != key(xs[j]) {
        StrLessTrans(key(xs[i]).s, key(xs[j]).s, value);
      }
    }
  }

  /** sortedIndex(['a', 'c'], 'b') is 1. */
  lemma SortedIndexExample()
    ensures var key := (v: Val) => UniqCallback(Value(Undef))(v, Undef);
      Partitioned([Str("a"), Str("c")], key, key(Str("b"))) &&
      IsLowerBound([Str("a"), Str("c")], key, key(Str("b")), 1)
  {
    var key := (v: Val) => UniqCallback(Value(Undef))(v, Undef);
    var xs := [Str("a"), Str("c")];
    IterateeKinds(Value(Undef), Str("b"), Undef);
    IterateeKinds(Value(Undef), xs[0], Undef);
    IterateeKinds(Value(Undef), xs[1], Undef);
    assert UniqCallback(Value(Undef)) == Iteratee(Value(Undef));
    assert key(xs[0]) == Str("a") && key(xs[1]) == Str("c") && key(Str("b")) == Str("b");
    ACBLess();
    PartitionedTwo(xs, key, Str("b"));
  }

  lemma PartitionedTwo(xs: seq<Val>, key: Val -> Val, value: Val)
    requires |xs| == 2 && !JsLess(key(xs[1]), value)
    ensures Partitioned(xs, key, value)
  {
  }

  lemma ACBLess()
    ensures JsLess(Str("a"), Str("b")) && !JsLess(Str("c"), Str("b"))
  {
    assert StrLess("a", "b") && !StrLess("c", "b");
  }
}
