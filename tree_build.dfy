/**
 * arrayToTree (src/tree.ts:65-137): flat records that name their parent by id become a
 * forest. The records are plain objects, held here as their own properties, and are
 * referred to by their position in the input. The children arrays the source stores on
 * the parent records are kept beside the records, one optional list of positions per
 * record.
 */
module TreeBuild {
  import opened JsValues
  import opened Num
  import opened Paths
  import opened Utils
  import Is
  import Objects
  import Coll
  import Arrays
  import ArrayGroups

  /** A record: the own properties of a plain object, in insertion order. */
  type Record = seq<(string, Val)>

  // ---------------------------------------------------------------------------
  // Keys and comparisons

  /** `k || dflt`: a missing or empty key option falls back to its default. */
  function KeyOr(k: string, dflt: string): string {
    if k == "" then dflt else k
  }

  /** `a <= b`: two strings compare by code units, anything else as numbers, and NaN is
      at most nothing. */
  predicate JsLessEq(a: Val, b: Val) {
    var pa, pb := ArrayGroups.ToPrimitive(a), ArrayGroups.ToPrimitive(b);
    if pa.Str? && pb.Str? then !ArrayGroups.StrLess(pb.s, pa.s) else LessEq(ToNumber(pa), ToNumber(pb))
  }

  /** Between two numbers, `<=` and `<` are the integer comparisons. */
  lemma NumCompare(a: int, b: int)
    ensures JsLessEq(Num(a), Num(b)) <==> a <= b
    ensures ArrayGroups.JsLess(Num(a), Num(b)) <==> a < b
  {
  }

  /** The iteratee `sortKey` that sortedIndexBy and sortBy are given reads
      `record[sortKey]` when the key is a plain name. */
  lemma PlainSortKey(sortKey: string, rec: Record)
    requires PlainSegment(sortKey)
    ensures ArrayGroups.KeyFn(Value(Str(sortKey)))(Obj(rec)) == Prop(rec, sortKey)
    ensures Iteratee(Value(Str(sortKey)))(Obj(rec), Undef) == Prop(rec, sortKey)
  {
    ToPathOfPlain(sortKey);
    assert Truthy(Str(sortKey));
    assert Arrays.UniqCallback(Value(Str(sortKey))) == Iteratee(Value(Str(sortKey)));
    IterateeKinds(Value(Str(sortKey)), Obj(rec), Undef);
    assert Objects.Walk(Obj(rec), [sortKey]) == GetMember(Obj(rec), sortKey);
  }

  // ---------------------------------------------------------------------------
  // attrMap: `each(attrMap, (v, k) => (record[k] = record[v]))`

  /** One entry of the attribute map as keys: the destination and the source. */
  type Attr = (string, string)

  /** An entry `(k, v)` that `each` hands the callback, as keys. */
  function AttrOf(e: (Val, Val)): Attr {
    (ToJsString(e.0), ToJsString(e.1))
  }

  /** The entries of the attribute map, as keys. */
  function Attrs(es: seq<(Val, Val)>): (r: seq<Attr>)
    ensures |r| == |es| && forall i :: 0 <= i < |es| ==> r[i] == AttrOf(es[i])
  {
    seq(|es|, i requires 0 <= i < |es| => AttrOf(es[i]))
  }

  /** `record[k] = record[v]` for one entry. */
  function CopyAttr(rec: Record, a: Attr): Record {
    Put(rec, a.0, Prop(rec, a.1))
  }

  /** The `each` callback: it copies, and its value is the copied value. */
  function CopyStep(): Coll.Step<Record> {
    (rec: Record, v: Val, k: Val) => (CopyAttr(rec, AttrOf((k, v))), Prop(rec, ToJsString(v)))
  }

  /** The attribute map as written: `each` stops right after a copied value that is
      `false`, so the entries after it are not copied. */
  function AttrMapAsWritten(rec: Record, es: seq<(Val, Val)>): Record {
    Coll.Fold(es, rec, CopyStep())
  }

  /** The attribute map copying every entry, in order. */
  function AttrMap(rec: Record, attrs: seq<Attr>): Record
    decreases |attrs|
  {
    if attrs == [] then rec else AttrMap(CopyAttr(rec, attrs[0]), attrs[1..])
  }

  /** With distinct destinations, none of them also a source, every destination ends up
      holding its source's value and every other property is left alone. */
  lemma {:induction false} AttrMapCopies(rec: Record, attrs: seq<Attr>)
    requires forall i, j :: 0 <= i < j < |attrs| ==> attrs[i].0 != attrs[j].0
    requires forall i, j :: 0 <= i < |attrs| && 0 <= j < |attrs| ==> attrs[i].1 != attrs[j].0
    ensures forall i :: 0 <= i < |attrs| ==> Prop(AttrMap(rec, attrs), attrs[i].0) == Prop(rec, attrs[i].1)
    ensures forall k :: (forall i :: 0 <= i < |attrs| ==> k != attrs[i].0) ==>
      Prop(AttrMap(rec, attrs), k) == Prop(rec, k)
    decreases |attrs|
  {
    if attrs != [] {
      var rec1 := CopyAttr(rec, attrs[0]);
      var tail := attrs[1..];
      AttrMapCopies(rec1, tail);
      forall i | 0 <= i < |attrs|
        ensures Prop(AttrMap(rec, attrs), attrs[i].0) == Prop(rec, attrs[i].1)
      {
        if i == 0 {
          forall m | 0 <= m < |tail|
            ensures attrs[0].0 != tail[m].0
          {
            assert tail[m] == attrs[m + 1];
          }
        } else {
          assert attrs[i] == tail[i - 1];
          assert attrs[i].1 != attrs[0].0;
        }
      }
      forall k | forall i :: 0 <= i < |attrs| ==> k != attrs[i].0
        ensures Prop(AttrMap(rec, attrs), k) == Prop(rec, k)
      {
        assert k != attrs[0].0;
        forall m | 0 <= m < |tail|
          ensures k != tail[m].0
        {
          assert tail[m] == attrs[m + 1];
        }
      }
    }
  }

  /** No copy hands `each` the value `false`. */
  predicate NoFalseCopy(rec: Record, attrs: seq<Attr>)
    decreases |attrs|
  {
    attrs == [] || (Prop(rec, attrs[0].1) != Bool(false) && NoFalseCopy(CopyAttr(rec, attrs[0]), attrs[1..]))
  }

  /** The attribute map as written agrees with the full copy as long as no copied value is
      `false`. */
  lemma {:induction false} AttrMapAgrees(rec: Record, es: seq<(Val, Val)>)
    requires NoFalseCopy(rec, Attrs(es))
    ensures AttrMapAsWritten(rec, es) == AttrMap(rec, Attrs(es))
    decreases |es|
  {
    if es != [] {
      assert Attrs(es)[1..] == Attrs(es[1..]);
      assert CopyStep()(rec, es[0].1, es[0].0) == (CopyAttr(rec, AttrOf(es[0])), Prop(rec, AttrOf(es[0]).1));
      AttrMapAgrees(CopyAttr(rec, AttrOf(es[0])), es[1..]);
    }
  }

  /** `{attrMap: {open: 'expanded', text: 'name'}}` on `{expanded: false, name: 'a'}`: as
      written, `text` is never set, because the first copy returns `false` to `each`. */
  lemma AttrMapExample(rec: Record, es: seq<(Val, Val)>)
    requires rec == [("expanded", Bool(false)), ("name", Str("a"))]
    requires es == [(Str("open"), Str("expanded")), (Str("text"), Str("name"))]
    ensures Prop(AttrMapAsWritten(rec, es), "text") == Undef
  {
    var a0 := ("open", "expanded");
    assert AttrOf(es[0]) == a0;
    assert Lookup(rec, "expanded") == Some(Bool(false));
    var r1 := CopyAttr(rec, a0);
    assert CopyStep()(rec, es[0].1, es[0].0) == (r1, Bool(false));
    assert Lookup(rec, "text") == None;
  }

  /** The same input with every entry copied: `text` gets the name. */
  lemma AttrMapExampleCopies(rec: Record, es: seq<(Val, Val)>)
    requires rec == [("expanded", Bool(false)), ("name", Str("a"))]
    requires es == [(Str("open"), Str("expanded")), (Str("text"), Str("name"))]
    ensures Prop(AttrMap(rec, Attrs(es)), "text") == Str("a")
  {
    var a0, a1 := ("open", "expanded"), ("text", "name");
    assert Attrs(es) == [a0, a1];
    assert Lookup(rec, "name") == Some(Str("a"));
    var r1 := CopyAttr(rec, a0);
    assert Lookup(r1, "name") == Some(Str("a"));
    assert Attrs(es)[1..] == [a1];
    assert AttrMap(r1, [a1]) == CopyAttr(r1, a1);
  }

  // ---------------------------------------------------------------------------
  // The first pass: nodeMap, sortMap and the roots

  /** The key a record is filed under in nodeMap: its id as a property name. */
  function IdOf(rec: Record, idk: string): string {
    ToJsString(Prop(rec, idk))
  }

  /** The id keys of the records, in order. */
  function Ids(recs: seq<Record>, idk: string): (ids: seq<string>)
    ensures |ids| == |recs|
  {
    seq(|recs|, i requires 0 <= i < |recs| => IdOf(recs[i], idk))
  }

  /** nodeMap after the first n records: each id key to the position of the record filed
      under it. */
  function NodeMap(ids: seq<string>, n: nat): map<string, nat>
    requires n <= |ids|
  {
    if n == 0 then map[] else NodeMap(ids, n - 1)[ids[n - 1] := n - 1]
  }

  /** Record i has id key k, and no later record among the first n does. */
  predicate LastWithId(ids: seq<string>, n: nat, k: string, i: nat)
    requires n <= |ids|
  {
    i < n && ids[i] == k && forall j :: i < j < n ==> ids[j] != k
  }

  /** nodeMap holds exactly the ids of the records, each for the last record with that
      id. */
  lemma {:induction false} NodeMapMeaning(ids: seq<string>, n: nat)
    requires n <= |ids|
    ensures forall k :: k in NodeMap(ids, n) <==> k in ids[..n]
    ensures forall k :: k in NodeMap(ids, n) ==> LastWithId(ids, n, k, NodeMap(ids, n)[k])
  {
    if n > 0 {
      NodeMapMeaning(ids, n - 1);
      PrefixSnoc(ids, n);
    }
  }

  /** nodeMap is one-to-one: two ids never share a record. */
  lemma NodeMapInjective(ids: seq<string>, n: nat)
    requires n <= |ids|
    ensures OneToOne(NodeMap(ids, n))
  {
    NodeMapMeaning(ids, n);
  }

  /** No two keys share a position. */
  predicate OneToOne(m: map<string, nat>) {
    forall k1, k2 :: k1 in m && k2 in m && m[k1] == m[k2] ==> k1 == k2
  }

  /** The positions below n whose flag is set, in increasing order. */
  function Where(flags: seq<bool>, n: nat): seq<nat>
    requires n <= |flags|
  {
    if n == 0 then [] else Where(flags, n - 1) + (if flags[n - 1] then [n - 1] else [])
  }

  /** Where lists exactly the flagged positions below n, in increasing order. */
  lemma {:induction false} WhereMeaning(flags: seq<bool>, n: nat)
    requires n <= |flags|
    ensures forall i: nat :: i in Where(flags, n) <==> i < n && flags[i]
    ensures forall a, b :: 0 <= a < b < |Where(flags, n)| ==> Where(flags, n)[a] < Where(flags, n)[b]
  {
    if n > 0 {
      WhereMeaning(flags, n - 1);
      var r := Where(flags, n - 1);
      assert forall a :: 0 <= a < |r| ==> r[a] in r;
    }
  }

  /** `record[pk] === rootParentValue`. */
  predicate IsRoot(rec: Record, pk: string, rpv: Val) {
    StrictEq(Prop(rec, pk), rpv)
  }

  /** Which records are roots. */
  function RootFlags(recs: seq<Record>, pk: string, rpv: Val): (flags: seq<bool>)
    ensures |flags| == |recs|
  {
    seq(|recs|, i requires 0 <= i < |recs| => IsRoot(recs[i], pk, rpv))
  }

  /** The roots, in input order: the records whose parent field is the root parent value. */
  function RootsOf(recs: seq<Record>, pk: string, rpv: Val): seq<nat> {
    Where(RootFlags(recs, pk, rpv), |recs|)
  }

  /** The records after a pass that applies the attribute map, as written, to the flagged
      records. */
  function Mapped(recs: seq<Record>, flags: seq<bool>, attrs: seq<(Val, Val)>): (r: seq<Record>)
    requires |flags| == |recs|
    ensures |r| == |recs|
  {
    seq(|recs|, i requires 0 <= i < |recs| => if flags[i] then AttrMapAsWritten(recs[i], attrs) else recs[i])
  }

  /** The options once their defaults are in: the id and parent keys, the root parent
      value, the entries of the attribute map as `each` visits them and the sort key
      (`""` for none). */
  datatype Opts = Opts(idk: string, pk: string, rpv: Val, attrs: seq<(Val, Val)>, sortKey: string)

  /** The sort value `record[sortKey]` of each record. */
  function SortNos(recs: seq<Record>, sortKey: string): (nos: seq<Val>)
    ensures |nos| == |recs|
  {
    seq(|recs|, i requires 0 <= i < |recs| => Prop(recs[i], sortKey))
  }

  /** sortMap after the first pass: under each id, `[sortNo, sortNo]` of the record filed
      under it. */
  function SortInit(nos: seq<Val>, nodeMap: map<string, nat>): map<string, (Val, Val)>
    requires forall k :: k in nodeMap ==> nodeMap[k] < |nos|
  {
    map k | k in nodeMap :: (nos[nodeMap[k]], nos[nodeMap[k]])
  }

  /** What the first pass reads off each input record: its id key, whether it is a root,
      its sort value and the record with the attribute map applied. */
  datatype Seen = Seen(ids: seq<string>, isRoot: seq<bool>, sortNos: seq<Val>, mapped: seq<Record>)

  predicate Fits(sn: Seen, n: nat) {
    |sn.ids| == n && |sn.isRoot| == n && |sn.sortNos| == n && |sn.mapped| == n
  }

  function SeenOf(recs0: seq<Record>, o: Opts): (sn: Seen)
    ensures Fits(sn, |recs0|)
  {
    Seen(Ids(recs0, o.idk), RootFlags(recs0, o.pk, o.rpv), SortNos(recs0, o.sortKey),
      seq(|recs0|, i requires 0 <= i < |recs0| => AttrMapAsWritten(recs0[i], o.attrs)))
  }

  /** What the first pass has built: the records, nodeMap, sortMap and the roots. */
  datatype First = First(recs: seq<Record>, nodeMap: map<string, nat>, sortMap: map<string, (Val, Val)>, roots: seq<nat>)

  /** The callback of the first `array.forEach`, on record i: file it in nodeMap (and its
      sort value in sortMap when there is a sort key), and if it is a root, apply the
      attribute map and keep it. */
  function FirstStep(sortOn: bool, sn: Seen, st: First, i: nat): (st': First)
    requires i < |st.recs| && Fits(sn, |st.recs|)
    ensures |st'.recs| == |st.recs|
  {
    var nodeId := sn.ids[i];
    var sortMap := if sortOn then st.sortMap[nodeId := (sn.sortNos[i], sn.sortNos[i])] else st.sortMap;
    if sn.isRoot[i] then First(st.recs[i := sn.mapped[i]], st.nodeMap[nodeId := i], sortMap, st.roots + [i])
    else First(st.recs, st.nodeMap[nodeId := i], sortMap, st.roots)
  }

  /** The first pass after its first i records. */
  function FirstUpTo(recs0: seq<Record>, sortOn: bool, sn: Seen, i: nat): (st: First)
    requires i <= |recs0| && Fits(sn, |recs0|)
    ensures |st.recs| == |recs0|
  {
    if i == 0 then First(recs0, map[], map[], []) else FirstStep(sortOn, sn, FirstUpTo(recs0, sortOn, sn, i - 1), i - 1)
  }

  /** After i records, the roots among them have the attribute map applied and the rest
      is untouched. */
  lemma {:induction false} FirstRecs(recs0: seq<Record>, sortOn: bool, sn: Seen, i: nat)
    requires i <= |recs0| && Fits(sn, |recs0|)
    ensures forall j :: 0 <= j < |recs0| ==>
      FirstUpTo(recs0, sortOn, sn, i).recs[j] == if j < i && sn.isRoot[j] then sn.mapped[j] else recs0[j]
  {
    if i > 0 {
      FirstRecs(recs0, sortOn, sn, i - 1);
    }
  }

  /** After i records, nodeMap files every record among them under its id; the last one
      wins. */
  lemma {:induction false} FirstNodeMap(recs0: seq<Record>, sortOn: bool, sn: Seen, i: nat)
    requires i <= |recs0| && Fits(sn, |recs0|)
    ensures FirstUpTo(recs0, sortOn, sn, i).nodeMap == NodeMap(sn.ids, i)
    ensures forall k :: k in FirstUpTo(recs0, sortOn, sn, i).nodeMap ==> FirstUpTo(recs0, sortOn, sn, i).nodeMap[k] < i
  {
    if i > 0 {
      FirstNodeMap(recs0, sortOn, sn, i - 1);
    }
  }

  /** After i records, sortMap holds `[sortNo, sortNo]` of the record filed under each
      id, or nothing without a sort key. */
  lemma {:induction false} FirstSortMap(recs0: seq<Record>, sortOn: bool, sn: Seen, i: nat)
    requires i <= |recs0| && Fits(sn, |recs0|)
    ensures forall k :: k in FirstUpTo(recs0, sortOn, sn, i).nodeMap ==> FirstUpTo(recs0, sortOn, sn, i).nodeMap[k] < |recs0|
    ensures FirstUpTo(recs0, sortOn, sn, i).sortMap ==
      if sortOn then SortInit(sn.sortNos, FirstUpTo(recs0, sortOn, sn, i).nodeMap) else map[]
  {
    FirstNodeMap(recs0, sortOn, sn, i);
    if i > 0 {
      FirstSortMap(recs0, sortOn, sn, i - 1);
    }
  }

  /** After i records, the roots among them are listed in input order. */
  lemma {:induction false} FirstRoots(recs0: seq<Record>, sortOn: bool, sn: Seen, i: nat)
    requires i <= |recs0| && Fits(sn, |recs0|)
    ensures FirstUpTo(recs0, sortOn, sn, i).roots == Where(sn.isRoot, i)
  {
    if i > 0 {
      FirstRoots(recs0, sortOn, sn, i - 1);
    }
  }

  /** The first pass ends with every record visited: the records with the roots mapped,
      nodeMap over all ids, sortMap over nodeMap and the roots in input order. */
  lemma FirstUpToAll(recs0: seq<Record>, o: Opts)
    ensures var st := FirstUpTo(recs0, o.sortKey != "", SeenOf(recs0, o), |recs0|);
      && st.recs == Mapped(recs0, RootFlags(recs0, o.pk, o.rpv), o.attrs)
      && st.nodeMap == NodeMap(Ids(recs0, o.idk), |recs0|)
      && (forall k :: k in st.nodeMap ==> st.nodeMap[k] < |recs0|)
      && st.sortMap == (if o.sortKey != "" then SortInit(SortNos(recs0, o.sortKey), st.nodeMap) else map[])
      && st.roots == RootsOf(recs0, o.pk, o.rpv)
  {
    var sn, on := SeenOf(recs0, o), o.sortKey != "";
    FirstRecs(recs0, on, sn, |recs0|);
    FirstNodeMap(recs0, on, sn, |recs0|);
    FirstSortMap(recs0, on, sn, |recs0|);
    FirstRoots(recs0, on, sn, |recs0|);
  }

  /** The callback of the first `array.forEach` on record i, which is still as it came
      in: it does what FirstStep says. */
  method FirstVisit(ghost recs0: seq<Record>, ghost sn: Seen, o: Opts, st: First, i: nat) returns (st': First)
    requires i < |recs0| && sn == SeenOf(recs0, o) && st == FirstUpTo(recs0, o.sortKey != "", sn, i)
    ensures st' == FirstStep(o.sortKey != "", sn, st, i)
    ensures st' == FirstUpTo(recs0, o.sortKey != "", sn, i + 1)
  {
    FirstUntouched(recs0, o.sortKey != "", sn, i);
    var record := st.recs[i];
    var nodeId := IdOf(record, o.idk);
    var recs, nodeMap, sortMap, roots := st.recs, st.nodeMap[nodeId := i], st.sortMap, st.roots;
    if o.sortKey != "" {
      var sortNo := Prop(record, o.sortKey);
      sortMap := sortMap[nodeId := (sortNo, sortNo)];
    }
    if IsRoot(record, o.pk, o.rpv) {
      recs := recs[i := AttrMapAsWritten(record, o.attrs)];
      roots := roots + [i];
    }
    st' := First(recs, nodeMap, sortMap, roots);
  }

  /** The first `array.forEach`: nodeMap files every record under its id (the last one
      wins), sortMap starts each at `[sortNo, sortNo]`, and the roots, in input order, get
      the attribute map. */
  method FirstPass(recs0: seq<Record>, o: Opts)
    returns (recs: seq<Record>, nodeMap: map<string, nat>, sortMap: map<string, (Val, Val)>, roots: seq<nat>)
    ensures nodeMap == NodeMap(Ids(recs0, o.idk), |recs0|)
    ensures forall k :: k in nodeMap ==> nodeMap[k] < |recs0|
    ensures sortMap == if o.sortKey != "" then SortInit(SortNos(recs0, o.sortKey), nodeMap) else map[]
    ensures roots == RootsOf(recs0, o.pk, o.rpv)
    ensures recs == Mapped(recs0, RootFlags(recs0, o.pk, o.rpv), o.attrs)
  {
    var st := FirstLoop(recs0, o);
    FirstUpToAll(recs0, o);
    recs, nodeMap, sortMap, roots := st.recs, st.nodeMap, st.sortMap, st.roots;
  }

  /** The loop of the first pass: the callback on each record in input order. */
  method FirstLoop(recs0: seq<Record>, o: Opts) returns (st: First)
    ensures st == FirstUpTo(recs0, o.sortKey != "", SeenOf(recs0, o), |recs0|)
  {
    ghost var sn := SeenOf(recs0, o);
    st := First(recs0, map[], map[], []);
    assert st == FirstUpTo(recs0, o.sortKey != "", sn, 0);
    var i := 0;
    while i < |recs0|
      invariant i <= |recs0| && st == FirstUpTo(recs0, o.sortKey != "", sn, i)
    {
      st := FirstVisit(recs0, sn, o, st, i);
      i := i + 1;
    }
  }

  /** Record i is still as it came in when the first pass reaches it. */
  lemma FirstUntouched(recs0: seq<Record>, sortOn: bool, sn: Seen, i: nat)
    requires i < |recs0| && Fits(sn, |recs0|)
    ensures FirstUpTo(recs0, sortOn, sn, i).recs[i] == recs0[i]
    ensures FirstUpTo(recs0, sortOn, sn, i + 1) == FirstStep(sortOn, sn, FirstUpTo(recs0, sortOn, sn, i), i)
  {
    FirstRecs(recs0, sortOn, sn, i);
  }

  // ---------------------------------------------------------------------------
  // The second pass: children lists

  /** The parent of a record: the position filed in nodeMap under its parent key, if
      there is one. */
  function ParentOf(rec: Record, pk: string, nodeMap: map<string, nat>): Option<nat> {
    var key := ToJsString(Prop(rec, pk));
    if key in nodeMap then Some(nodeMap[key]) else None
  }

  /** The parent of each record. */
  function Parents(recs: seq<Record>, pk: string, nodeMap: map<string, nat>): (ps: seq<Option<nat>>)
    ensures |ps| == |recs|
  {
    seq(|recs|, i requires 0 <= i < |recs| => ParentOf(recs[i], pk, nodeMap))
  }

  /** Which records are children of record p. */
  function ChildFlags(parents: seq<Option<nat>>, p: nat): (flags: seq<bool>)
    ensures |flags| == |parents|
  {
    seq(|parents|, i requires 0 <= i < |parents| => parents[i] == Some(p))
  }

  /** Which records have a parent. */
  function HasParent(parents: seq<Option<nat>>): (flags: seq<bool>)
    ensures |flags| == |parents|
  {
    seq(|parents|, i requires 0 <= i < |parents| => parents[i].Some?)
  }

  /** The children of record p, in input order. */
  function ChildrenOf(recs: seq<Record>, pk: string, nodeMap: map<string, nat>, p: nat): seq<nat> {
    Where(ChildFlags(Parents(recs, pk, nodeMap), p), |recs|)
  }

  /** The children of p are exactly the records whose parent key is filed under p, listed
      once each in increasing position. */
  lemma ChildrenMeaning(recs: seq<Record>, pk: string, nodeMap: map<string, nat>, p: nat)
    ensures forall c: nat :: c in ChildrenOf(recs, pk, nodeMap, p) <==>
      c < |recs| && ParentOf(recs[c], pk, nodeMap) == Some(p)
    ensures forall a, b :: 0 <= a < b < |ChildrenOf(recs, pk, nodeMap, p)| ==>
      ChildrenOf(recs, pk, nodeMap, p)[a] < ChildrenOf(recs, pk, nodeMap, p)[b]
  {
    WhereMeaning(ChildFlags(Parents(recs, pk, nodeMap), p), |recs|);
  }

  /** The number under the sort key, or 0 when there is none. */
  function SortNum(rec: Record, sortKey: string): int {
    var v := Prop(rec, sortKey);
    if v.Num? then v.n else 0
  }

  /** The record holds a number under the sort key. */
  predicate HasNum(rec: Record, sortKey: string) {
    Prop(rec, sortKey).Num?
  }

  /** Every entry of `cs` is the position of a record. */
  predicate Listed(cs: seq<nat>, recs: seq<Record>) {
    forall a :: 0 <= a < |cs| ==> cs[a] < |recs|
  }

  /** The numbers under the sort key of the records listed in `cs`. */
  function NumsOf(cs: seq<nat>, recs: seq<Record>, sortKey: string): (ns: seq<int>)
    requires Listed(cs, recs)
    ensures |ns| == |cs| && forall a :: 0 <= a < |cs| ==> ns[a] == SortNum(recs[cs[a]], sortKey)
  {
    seq(|cs|, a requires 0 <= a < |cs| => SortNum(recs[cs[a]], sortKey))
  }

  predicate Ascending(ns: seq<int>) {
    forall a, b :: 0 <= a < b < |ns| ==> ns[a] <= ns[b]
  }

  predicate Within(ns: seq<int>, lo: int, hi: int) {
    forall a :: 0 <= a < |ns| ==> lo <= ns[a] <= hi
  }

  /** The records listed in `cs` carry non-decreasing numbers under the sort key. */
  predicate InOrder(cs: seq<nat>, recs: seq<Record>, sortKey: string) {
    Listed(cs, recs) && Ascending(NumsOf(cs, recs, sortKey))
  }

  /** A children list with its sortMap entry `[min, max]`: min and max are numbers with
      `min <= max`, and the list holds numbers, in order, all within them. */
  predicate Bounded(cs: seq<nat>, recs: seq<Record>, sortKey: string, mm: (Val, Val)) {
    mm.0.Num? && mm.1.Num? && mm.0.n <= mm.1.n && Listed(cs, recs) &&
    (forall a :: 0 <= a < |cs| ==> HasNum(recs[cs[a]], sortKey)) &&
    Ascending(NumsOf(cs, recs, sortKey)) && Within(NumsOf(cs, recs, sortKey), mm.0.n, mm.1.n)
  }

  lemma BoundedFrame(cs: seq<nat>, recs: seq<Record>, recs': seq<Record>, sortKey: string, mm: (Val, Val))
    requires Bounded(cs, recs, sortKey, mm) && |recs'| == |recs|
    requires forall a :: 0 <= a < |cs| ==> recs'[cs[a]] == recs[cs[a]]
    ensures Bounded(cs, recs', sortKey, mm)
  {
    assert NumsOf(cs, recs', sortKey) == NumsOf(cs, recs, sortKey);
  }

  /** Inserting at `idx` inserts the record's number at `idx`. */
  lemma NumsInsert(cs: seq<nat>, i: nat, recs: seq<Record>, sortKey: string, idx: nat)
    requires Listed(cs, recs) && i < |recs| && idx <= |cs|
    ensures Listed(cs[..idx] + [i] + cs[idx..], recs)
    ensures var ns := NumsOf(cs, recs, sortKey);
      NumsOf(cs[..idx] + [i] + cs[idx..], recs, sortKey) == ns[..idx] + [SortNum(recs[i], sortKey)] + ns[idx..]
  {
    var out := cs[..idx] + [i] + cs[idx..];
    forall a | 0 <= a < |out|
      ensures out[a] == if a < idx then cs[a] else if a == idx then i else cs[a - 1]
    {
    }
    var ns := NumsOf(cs, recs, sortKey);
    var ns' := ns[..idx] + [SortNum(recs[i], sortKey)] + ns[idx..];
    assert |NumsOf(out, recs, sortKey)| == |ns'|;
    forall a | 0 <= a < |out|
      ensures NumsOf(out, recs, sortKey)[a] == ns'[a]
    {
    }
  }

  /** Inserting a number that fits between its neighbours keeps a list ascending, and
      keeps it within bounds that are widened to take it. */
  lemma AscendingInsert(ns: seq<int>, n: int, idx: nat, lo: int, hi: int, lo': int, hi': int)
    requires Ascending(ns) && Within(ns, lo, hi) && idx <= |ns|
    requires forall a :: 0 <= a < idx ==> ns[a] <= n
    requires forall a :: idx <= a < |ns| ==> n <= ns[a]
    requires lo' <= lo && hi <= hi' && lo' <= n <= hi'
    ensures Ascending(ns[..idx] + [n] + ns[idx..]) && Within(ns[..idx] + [n] + ns[idx..], lo', hi')
  {
    var out := ns[..idx] + [n] + ns[idx..];
    forall a | 0 <= a < |out|
      ensures out[a] == if a < idx then ns[a] else if a == idx then n else ns[a - 1]
    {
    }
  }

  /** Placing record i at `idx` of a bounded list, where it fits, gives a bounded list. */
  lemma PlaceBounded(cs: seq<nat>, i: nat, recs: seq<Record>, sortKey: string, mm: (Val, Val), mm': (Val, Val), idx: nat)
    requires Bounded(cs, recs, sortKey, mm) && i < |recs| && HasNum(recs[i], sortKey) && idx <= |cs|
    requires mm'.0.Num? && mm'.1.Num? && mm'.0.n <= mm.0.n && mm.1.n <= mm'.1.n && mm'.0.n <= mm'.1.n
    requires mm'.0.n <= SortNum(recs[i], sortKey) <= mm'.1.n
    requires forall a :: 0 <= a < idx ==> NumsOf(cs, recs, sortKey)[a] <= SortNum(recs[i], sortKey)
    requires forall a :: idx <= a < |cs| ==> SortNum(recs[i], sortKey) <= NumsOf(cs, recs, sortKey)[a]
    ensures Bounded(cs[..idx] + [i] + cs[idx..], recs, sortKey, mm')
  {
    InsertHasNum(cs, i, recs, sortKey, idx);
    NumsInsert(cs, i, recs, sortKey, idx);
    AscendingInsert(NumsOf(cs, recs, sortKey), SortNum(recs[i], sortKey), idx, mm.0.n, mm.1.n, mm'.0.n, mm'.1.n);
  }

  /** Inserting a record with a number into a list of such records keeps every one
      numbered. */
  lemma InsertHasNum(cs: seq<nat>, i: nat, recs: seq<Record>, sortKey: string, idx: nat)
    requires Listed(cs, recs) && i < |recs| && HasNum(recs[i], sortKey) && idx <= |cs|
    requires forall a :: 0 <= a < |cs| ==> HasNum(recs[cs[a]], sortKey)
    ensures Listed(cs[..idx] + [i] + cs[idx..], recs)
    ensures forall a :: 0 <= a < |cs| + 1 ==> HasNum(recs[(cs[..idx] + [i] + cs[idx..])[a]], sortKey)
  {
    var out := cs[..idx] + [i] + cs[idx..];
    forall a | 0 <= a < |out|
      ensures out[a] < |recs| && HasNum(recs[out[a]], sortKey)
    {
      if a < idx {
        assert out[a] == cs[a];
      } else if a > idx {
        assert out[a] == cs[a - 1];
      }
    }
  }

  /** The first case of Place: a value at most the min goes in front and is the new min. */
  lemma UnshiftBounded(cs: seq<nat>, i: nat, recs: seq<Record>, sortKey: string, mm: (Val, Val))
    requires Bounded(cs, recs, sortKey, mm) && i < |recs| && HasNum(recs[i], sortKey)
    requires JsLessEq(Prop(recs[i], sortKey), mm.0)
    ensures Bounded([i] + cs, recs, sortKey, (Prop(recs[i], sortKey), mm.1))
  {
    var n := SortNum(recs[i], sortKey);
    NumCompare(n, mm.0.n);
    assert [i] + cs == cs[..0] + [i] + cs[0..];
    PlaceBounded(cs, i, recs, sortKey, mm, (Prop(recs[i], sortKey), mm.1), 0);
  }

  /** The second case of Place: a value at least the max goes at the back and is the new
      max. */
  lemma PushBounded(cs: seq<nat>, i: nat, recs: seq<Record>, sortKey: string, mm: (Val, Val))
    requires Bounded(cs, recs, sortKey, mm) && i < |recs| && HasNum(recs[i], sortKey)
    requires !JsLessEq(Prop(recs[i], sortKey), mm.0) && JsLessEq(mm.1, Prop(recs[i], sortKey))
    ensures Bounded(cs + [i], recs, sortKey, (mm.0, Prop(recs[i], sortKey)))
  {
    var n := SortNum(recs[i], sortKey);
    NumCompare(n, mm.0.n);
    NumCompare(mm.1.n, n);
    assert cs + [i] == cs[..|cs|] + [i] + cs[|cs|..];
    PlaceBounded(cs, i, recs, sortKey, mm, (mm.0, Prop(recs[i], sortKey)), |cs|);
  }

  /** The third case of Place: sortedIndexBy finds the lower bound of a number strictly
      between the bounds, and inserting there keeps the list bounded. */
  lemma InsertBounded(children: seq<nat>, i: nat, recs: seq<Record>, sortKey: string, mm: (Val, Val),
                      xs: seq<Val>, value: Val, idx: nat)
    requires i < |recs| && PlainSegment(sortKey) && HasNum(recs[i], sortKey) && Bounded(children, recs, sortKey, mm)
    requires xs == seq(|children|, a requires 0 <= a < |children| && children[a] < |recs| => Obj(recs[children[a]]))
    requires value == Obj([(sortKey, Prop(recs[i], sortKey))]) && idx <= |children|
    requires !JsLessEq(Prop(recs[i], sortKey), mm.0) && !JsLessEq(mm.1, Prop(recs[i], sortKey))
    requires var key := ArrayGroups.KeyFn(Value(Str(sortKey)));
      ArrayGroups.Partitioned(xs, key, key(value)) ==> ArrayGroups.IsLowerBound(xs, key, key(value), idx)
    ensures Bounded(children[..idx] + [i] + children[idx..], recs, sortKey, mm)
  {
    var key := ArrayGroups.KeyFn(Value(Str(sortKey)));
    var n := SortNum(recs[i], sortKey);
    var ns := NumsOf(children, recs, sortKey);
    NumCompare(n, mm.0.n);
    NumCompare(mm.1.n, n);
    PlainSortKey(sortKey, [(sortKey, Prop(recs[i], sortKey))]);
    assert key(value) == Num(n);
    forall a | 0 <= a < |xs|
      ensures ArrayGroups.JsLess(key(xs[a]), key(value)) <==> ns[a] < n
    {
      PlainSortKey(sortKey, recs[children[a]]);
      NumCompare(ns[a], n);
    }
    assert ArrayGroups.Partitioned(xs, key, key(value));
    PlaceBounded(children, i, recs, sortKey, mm, mm, idx);
  }

  /** Inserting at any position adds the element once and keeps the rest. */
  lemma InsertCount(cs: seq<nat>, x: nat, idx: nat)
    requires idx <= |cs|
    ensures multiset(cs[..idx] + [x] + cs[idx..]) == multiset(cs) + multiset{x}
  {
    assert cs == cs[..idx] + cs[idx..];
  }

  /** Where a child goes once a sort key is given: in front when its value is at most the
      parent's min, at the back when at least the max, otherwise where sortedIndexBy puts
      it; the min or the max follows. */
  method Place(children: seq<nat>, i: nat, recs: seq<Record>, sortKey: string, mm: (Val, Val))
    returns (out: seq<nat>, mm': (Val, Val))
    requires i < |recs| && Listed(children, recs)
    ensures multiset(out) == multiset(children) + multiset{i}
    ensures PlainSegment(sortKey) && HasNum(recs[i], sortKey) && Bounded(children, recs, sortKey, mm) ==>
      Bounded(out, recs, sortKey, mm')
  {
    ghost var fits := PlainSegment(sortKey) && HasNum(recs[i], sortKey) && Bounded(children, recs, sortKey, mm);
    var sortNo := Prop(recs[i], sortKey);
    if JsLessEq(sortNo, mm.0) {
      out, mm' := [i] + children, (sortNo, mm.1);
      if fits {
        UnshiftBounded(children, i, recs, sortKey, mm);
      }
    } else if JsLessEq(mm.1, sortNo) {
      out, mm' := children + [i], (mm.0, sortNo);
      if fits {
        PushBounded(children, i, recs, sortKey, mm);
      }
    } else {
      var xs := seq(|children|, a requires 0 <= a < |children| && children[a] < |recs| => Obj(recs[children[a]]));
      var value := Obj([(sortKey, sortNo)]);
      var idx := ArrayGroups.SortedIndexBy(xs, value, Value(Str(sortKey)));
      out, mm' := children[..idx] + [i] + children[idx..], mm;
      InsertCount(children, i, idx);
      if fits {
        InsertBounded(children, i, recs, sortKey, mm, xs, value, idx);
      }
    }
  }

  /** A children list that is absent reads as empty. */
  function ListOf(o: Option<seq<nat>>): seq<nat> {
    if o.Some? then o.value else []
  }

  /** A parent's children list against the children `w` it should hold: present just
      when there is one, holding exactly them, and in input order when `ordered`. */
  predicate KidShape(kid: Option<seq<nat>>, w: seq<nat>, ordered: bool) {
    (kid.Some? <==> |w| > 0) && multiset(ListOf(kid)) == multiset(w) && (ordered ==> ListOf(kid) == w)
  }

  /** The children lists after the first i records of the second pass: each holds the
      records among the first i whose parent it is. */
  predicate KidsUpTo(kids: seq<Option<seq<nat>>>, parents: seq<Option<nat>>, i: nat, ordered: bool)
    requires i <= |parents|
  {
    |kids| == |parents| &&
    forall p :: 0 <= p < |kids| ==> KidShape(kids[p], Where(ChildFlags(parents, p), i), ordered)
  }

  lemma ListAdd(kid: Option<seq<nat>>, w: seq<nat>, i: nat, out: seq<nat>, ordered: bool)
    requires KidShape(kid, w, ordered)
    requires multiset(out) == multiset(ListOf(kid)) + multiset{i}
    requires ordered ==> out == ListOf(kid) + [i]
    ensures KidShape(Some(out), w + [i], ordered)
  {
  }

  /** A record with a parent joins that parent's list. */
  lemma KidsStep(kids: seq<Option<seq<nat>>>, parents: seq<Option<nat>>, i: nat, out: seq<nat>, ordered: bool)
    requires i < |parents| && KidsUpTo(kids, parents, i, ordered)
    requires parents[i].Some? && parents[i].value < |kids|
    requires multiset(out) == multiset(ListOf(kids[parents[i].value])) + multiset{i}
    requires ordered ==> out == ListOf(kids[parents[i].value]) + [i]
    ensures KidsUpTo(kids[parents[i].value := Some(out)], parents, i + 1, ordered)
  {
    var p := parents[i].value;
    var kids' := kids[p := Some(out)];
    forall q | 0 <= q < |kids'|
      ensures KidShape(kids'[q], Where(ChildFlags(parents, q), i + 1), ordered)
    {
      assert ChildFlags(parents, q)[i] == (q == p);
      if q == p {
        ListAdd(kids[p], Where(ChildFlags(parents, p), i), i, out, ordered);
      }
    }
  }

  /** A record without a parent changes no list. */
  lemma KidsSkip(kids: seq<Option<seq<nat>>>, parents: seq<Option<nat>>, i: nat, ordered: bool)
    requires i < |parents| && KidsUpTo(kids, parents, i, ordered) && parents[i].None?
    ensures KidsUpTo(kids, parents, i + 1, ordered)
  {
    forall q | 0 <= q < |kids|
      ensures KidShape(kids[q], Where(ChildFlags(parents, q), i + 1), ordered)
    {
      assert !ChildFlags(parents, q)[i];
    }
  }

  /** Every position in a children list after i records is below i. */
  lemma KidsBelow(kids: seq<Option<seq<nat>>>, parents: seq<Option<nat>>, i: nat, ordered: bool, p: nat)
    requires i <= |parents| && KidsUpTo(kids, parents, i, ordered) && p < |kids|
    ensures forall a :: 0 <= a < |ListOf(kids[p])| ==> ListOf(kids[p])[a] < i
  {
    WhereMeaning(ChildFlags(parents, p), i);
    forall a | 0 <= a < |ListOf(kids[p])|
      ensures ListOf(kids[p])[a] < i
    {
      assert ListOf(kids[p])[a] in multiset(ListOf(kids[p]));
      assert ListOf(kids[p])[a] in Where(ChildFlags(parents, p), i);
    }
  }

  /** A record with children is filed in nodeMap under some key. */
  lemma IdFor(kids: seq<Option<seq<nat>>>, parents: seq<Option<nat>>, i: nat, ordered: bool, p: nat,
              recs1: seq<Record>, pk: string, nodeMap: map<string, nat>)
    returns (k: string)
    requires i <= |parents| && KidsUpTo(kids, parents, i, ordered) && p < |kids|
    requires parents == Parents(recs1, pk, nodeMap)
    requires |ListOf(kids[p])| > 0
    ensures k in nodeMap && nodeMap[k] == p
  {
    var c := ListOf(kids[p])[0];
    assert c in multiset(ListOf(kids[p]));
    assert c in Where(ChildFlags(parents, p), i);
    WhereMeaning(ChildFlags(parents, p), i);
    k := ToJsString(Prop(recs1[c], pk));
  }

  /** Every parent's list, with its sortMap entry, is bounded. */
  predicate AllBounded(kids: seq<Option<seq<nat>>>, recs: seq<Record>, sortKey: string,
                       nodeMap: map<string, nat>, sortMap: map<string, (Val, Val)>) {
    forall k :: k in nodeMap ==>
      k in sortMap && nodeMap[k] < |kids| && Bounded(ListOf(kids[nodeMap[k]]), recs, sortKey, sortMap[k])
  }

  /** Applying the attribute map to record i leaves the lists, which hold only earlier
      records, bounded. */
  lemma AllBoundedFrame(kids: seq<Option<seq<nat>>>, parents: seq<Option<nat>>, ordered: bool, recs: seq<Record>,
                        i: nat, x: Record, sortKey: string, nodeMap: map<string, nat>, sortMap: map<string, (Val, Val)>)
    requires i < |recs| && i < |parents| && KidsUpTo(kids, parents, i, ordered)
    requires AllBounded(kids, recs, sortKey, nodeMap, sortMap)
    ensures AllBounded(kids, recs[i := x], sortKey, nodeMap, sortMap)
  {
    forall k | k in nodeMap
      ensures Bounded(ListOf(kids[nodeMap[k]]), recs[i := x], sortKey, sortMap[k])
    {
      KidsBelow(kids, parents, i, ordered, nodeMap[k]);
      BoundedFrame(ListOf(kids[nodeMap[k]]), recs, recs[i := x], sortKey, sortMap[k]);
    }
  }

  /** Replacing one parent's list and its entry by bounded ones keeps every list bounded. */
  lemma AllBoundedPut(kids: seq<Option<seq<nat>>>, recs: seq<Record>, sortKey: string,
                      nodeMap: map<string, nat>, sortMap: map<string, (Val, Val)>,
                      key: string, out: seq<nat>, mm: (Val, Val))
    requires AllBounded(kids, recs, sortKey, nodeMap, sortMap) && key in nodeMap && OneToOne(nodeMap)
    requires Bounded(out, recs, sortKey, mm)
    ensures AllBounded(kids[nodeMap[key] := Some(out)], recs, sortKey, nodeMap, sortMap[key := mm])
  {
  }

  /** A plain sort key under which every starting `[min, max]` is a pair of numbers with
      `min <= max` and every record holds a number. */
  predicate Numeric(nodeMap: map<string, nat>, sortMap: map<string, (Val, Val)>, recs: seq<Record>, sortKey: string) {
    sortKey != "" && PlainSegment(sortKey) &&
    (forall k :: k in nodeMap && k in sortMap ==>
      sortMap[k].0.Num? && sortMap[k].1.Num? && sortMap[k].0.n <= sortMap[k].1.n) &&
    (forall j :: 0 <= j < |recs| ==> HasNum(recs[j], sortKey))
  }

  /** nodeMap files every key at a record, and no record under two keys. */
  predicate Filed(nodeMap: map<string, nat>, n: nat) {
    (forall k :: k in nodeMap ==> nodeMap[k] < n) && OneToOne(nodeMap)
  }

  /** The second pass's closure state: the records, the children lists and sortMap. */
  datatype Second = Second(recs: seq<Record>, kids: seq<Option<seq<nat>>>, sortMap: map<string, (Val, Val)>)

  /** After the first i records of the second pass, given each record's parent and
      each record as the pass leaves it: those records have their final form, each list
      holds the children among them, every id keeps its sortMap entry, and, when
      `numeric`, every list is bounded. */
  predicate SecondInv(recs1: seq<Record>, parents: seq<Option<nat>>, fin: seq<Record>, numeric: bool,
                      nodeMap: map<string, nat>, o: Opts, i: nat, st: Second)
  {
    |parents| == |recs1| && |fin| == |recs1| && i <= |recs1| && |st.recs| == |recs1| &&
    (forall j :: 0 <= j < |recs1| ==> st.recs[j] == if j < i then fin[j] else recs1[j]) &&
    KidsUpTo(st.kids, parents, i, o.sortKey == "") &&
    (o.sortKey != "" ==> forall k :: k in nodeMap ==> k in st.sortMap) &&
    (numeric ==> AllBounded(st.kids, st.recs, o.sortKey, nodeMap, st.sortMap))
  }

  /** The callback of the second `array.forEach`, on record i: a record whose parent key
      is filed in nodeMap gets the attribute map and joins its parent's list, at the back
      without a sort key and where Place puts it with one. */
  method SecondVisit(recs1: seq<Record>, ghost parents: seq<Option<nat>>, ghost fin: seq<Record>, ghost numeric: bool,
                     nodeMap: map<string, nat>, o: Opts, i: nat, st: Second)
    returns (st': Second)
    requires i < |recs1| && Filed(nodeMap, |recs1|) && SecondInv(recs1, parents, fin, numeric, nodeMap, o, i, st)
    requires parents[i] == ParentOf(recs1[i], o.pk, nodeMap)
    requires fin[i] == if parents[i].Some? then AttrMapAsWritten(recs1[i], o.attrs) else recs1[i]
    requires numeric ==> o.sortKey != "" && PlainSegment(o.sortKey) && HasNum(fin[i], o.sortKey)
    ensures SecondInv(recs1, parents, fin, numeric, nodeMap, o, i + 1, st')
  {
    var record := st.recs[i];
    var key := ToJsString(Prop(record, o.pk));
    var recs, kids, sortMap := st.recs, st.kids, st.sortMap;
    if key in nodeMap {
      var p := nodeMap[key];
      assert record == recs1[i] && parents[i] == Some(p);
      var children := ListOf(kids[p]);
      KidsBelow(kids, parents, i, o.sortKey == "", p);
      var mapped := AttrMapAsWritten(record, o.attrs);
      assert fin[i] == mapped;
      if numeric {
        AllBoundedFrame(kids, parents, o.sortKey == "", recs, i, mapped, o.sortKey, nodeMap, sortMap);
      }
      recs := recs[i := mapped];
      if o.sortKey != "" {
        ghost var fits := numeric && HasNum(recs[i], o.sortKey) && Bounded(children, recs, o.sortKey, sortMap[key]);
        assert numeric ==> fits;
        var out, mm' := Place(children, i, recs, o.sortKey, sortMap[key]);
        if numeric {
          assert Bounded(out, recs, o.sortKey, mm');
          AllBoundedPut(kids, recs, o.sortKey, nodeMap, sortMap, key, out, mm');
        }
        KidsStep(kids, parents, i, out, false);
        sortMap := sortMap[key := mm'];
        kids := kids[p := Some(out)];
      } else {
        KidsStep(kids, parents, i, children + [i], true);
        kids := kids[p := Some(children + [i])];
      }
    } else {
      assert parents[i].None?;
      KidsSkip(kids, parents, i, o.sortKey == "");
    }
    st' := Second(recs, kids, sortMap);
  }

  /** No record has a children list yet. */
  function NoKids(n: nat): (kids: seq<Option<seq<nat>>>)
    ensures |kids| == n && forall p :: 0 <= p < n ==> kids[p] == None
  {
    seq(n, p => None)
  }

  lemma SecondStart(recs1: seq<Record>, parents: seq<Option<nat>>, fin: seq<Record>, numeric: bool,
                    nodeMap: map<string, nat>, sortMap0: map<string, (Val, Val)>, o: Opts)
    requires |parents| == |recs1| && |fin| == |recs1| && Filed(nodeMap, |recs1|)
    requires o.sortKey != "" ==> forall k :: k in nodeMap ==> k in sortMap0
    requires numeric ==> Numeric(nodeMap, sortMap0, fin, o.sortKey)
    ensures SecondInv(recs1, parents, fin, numeric, nodeMap, o, 0, Second(recs1, NoKids(|recs1|), sortMap0))
  {
    var kids := NoKids(|recs1|);
    forall p | 0 <= p < |kids|
      ensures KidShape(kids[p], Where(ChildFlags(parents, p), 0), o.sortKey == "")
    {
      assert kids[p] == None;
    }
  }

  /** What the callback needs to know about record i: its parent and its final form. */
  lemma SecondAt(recs1: seq<Record>, parents: seq<Option<nat>>, fin: seq<Record>, numeric: bool,
                 nodeMap: map<string, nat>, sortMap0: map<string, (Val, Val)>, o: Opts, i: nat)
    requires i < |recs1|
    requires parents == Parents(recs1, o.pk, nodeMap) && fin == Mapped(recs1, HasParent(parents), o.attrs)
    requires numeric == Numeric(nodeMap, sortMap0, fin, o.sortKey)
    ensures parents[i] == ParentOf(recs1[i], o.pk, nodeMap)
    ensures fin[i] == if parents[i].Some? then AttrMapAsWritten(recs1[i], o.attrs) else recs1[i]
    ensures numeric ==> o.sortKey != "" && PlainSegment(o.sortKey) && HasNum(fin[i], o.sortKey)
  {
  }

  /** After every record, the second pass has done what SecondPass promises. */
  lemma SecondDone(recs1: seq<Record>, parents: seq<Option<nat>>, fin: seq<Record>,
                   nodeMap: map<string, nat>, sortMap0: map<string, (Val, Val)>, o: Opts, st: Second)
    requires parents == Parents(recs1, o.pk, nodeMap) && fin == Mapped(recs1, HasParent(parents), o.attrs)
    requires SecondInv(recs1, parents, fin, Numeric(nodeMap, sortMap0, fin, o.sortKey), nodeMap, o, |recs1|, st)
    ensures st.recs == fin
    ensures |st.kids| == |recs1|
    ensures forall p :: 0 <= p < |recs1| ==> KidShape(st.kids[p], ChildrenOf(recs1, o.pk, nodeMap, p), o.sortKey == "")
    ensures Numeric(nodeMap, sortMap0, st.recs, o.sortKey) ==>
      forall p :: 0 <= p < |recs1| ==> InOrder(ListOf(st.kids[p]), st.recs, o.sortKey)
  {
    assert st.recs == fin;
    forall p | 0 <= p < |recs1| && Numeric(nodeMap, sortMap0, st.recs, o.sortKey)
      ensures InOrder(ListOf(st.kids[p]), st.recs, o.sortKey)
    {
      if |ListOf(st.kids[p])| > 0 {
        var k := IdFor(st.kids, parents, |recs1|, o.sortKey == "", p, recs1, o.pk, nodeMap);
      }
    }
  }

  /** The second `array.forEach`: every record whose parent key is filed in nodeMap gets
      the attribute map and is listed under that parent. Each parent's list holds exactly
      its children: in input order without a sort key, and in ascending order of their
      numbers when a plain sort key finds a number on every record. */
  method SecondPass(recs1: seq<Record>, nodeMap: map<string, nat>, sortMap0: map<string, (Val, Val)>, o: Opts)
    returns (recs: seq<Record>, kids: seq<Option<seq<nat>>>)
    requires Filed(nodeMap, |recs1|)
    requires o.sortKey != "" ==> forall k :: k in nodeMap ==> k in sortMap0
    ensures recs == Mapped(recs1, HasParent(Parents(recs1, o.pk, nodeMap)), o.attrs)
    ensures |kids| == |recs1|
    ensures forall p :: 0 <= p < |recs1| ==> KidShape(kids[p], ChildrenOf(recs1, o.pk, nodeMap, p), o.sortKey == "")
    ensures Numeric(nodeMap, sortMap0, recs, o.sortKey) ==>
      forall p :: 0 <= p < |recs1| ==> InOrder(ListOf(kids[p]), recs, o.sortKey)
  {
    ghost var parents := Parents(recs1, o.pk, nodeMap);
    ghost var fin := Mapped(recs1, HasParent(parents), o.attrs);
    var st := SecondLoop(recs1, nodeMap, sortMap0, o);
    SecondDone(recs1, parents, fin, nodeMap, sortMap0, o, st);
    recs, kids := st.recs, st.kids;
  }

  /** The loop of the second pass: the callback on each record in input order. */
  method SecondLoop(recs1: seq<Record>, nodeMap: map<string, nat>, sortMap0: map<string, (Val, Val)>, o: Opts)
    returns (st: Second)
    requires Filed(nodeMap, |recs1|)
    requires o.sortKey != "" ==> forall k :: k in nodeMap ==> k in sortMap0
    ensures var parents := Parents(recs1, o.pk, nodeMap);
      var fin := Mapped(recs1, HasParent(parents), o.attrs);
      SecondInv(recs1, parents, fin, Numeric(nodeMap, sortMap0, fin, o.sortKey), nodeMap, o, |recs1|, st)
  {
    ghost var parents := Parents(recs1, o.pk, nodeMap);
    ghost var fin := Mapped(recs1, HasParent(parents), o.attrs);
    ghost var numeric := Numeric(nodeMap, sortMap0, fin, o.sortKey);
    st := Second(recs1, NoKids(|recs1|), sortMap0);
    SecondStart(recs1, parents, fin, numeric, nodeMap, sortMap0, o);
    var i := 0;
    while i < |recs1|
      invariant SecondInv(recs1, parents, fin, numeric, nodeMap, o, i, st)
    {
      st := SecondStep(recs1, parents, fin, numeric, nodeMap, sortMap0, o, i, st);
      i := i + 1;
    }
    SecondLoopDone(recs1, parents, fin, numeric, nodeMap, sortMap0, o, st);
  }

  /** The invariant after the last record is what the second loop promises. */
  lemma SecondLoopDone(recs1: seq<Record>, parents: seq<Option<nat>>, fin: seq<Record>, numeric: bool,
                       nodeMap: map<string, nat>, sortMap0: map<string, (Val, Val)>, o: Opts, st: Second)
    requires parents == Parents(recs1, o.pk, nodeMap) && fin == Mapped(recs1, HasParent(parents), o.attrs)
    requires numeric == Numeric(nodeMap, sortMap0, fin, o.sortKey)
    requires SecondInv(recs1, parents, fin, numeric, nodeMap, o, |recs1|, st)
    ensures var parents := Parents(recs1, o.pk, nodeMap);
      var fin := Mapped(recs1, HasParent(parents), o.attrs);
      SecondInv(recs1, parents, fin, Numeric(nodeMap, sortMap0, fin, o.sortKey), nodeMap, o, |recs1|, st)
  {
  }

  /** One turn of the second loop: the callback on record i, which is where the record's
      parent and mapped form say. */
  method SecondStep(recs1: seq<Record>, ghost parents: seq<Option<nat>>, ghost fin: seq<Record>, ghost numeric: bool,
                    nodeMap: map<string, nat>, ghost sortMap0: map<string, (Val, Val)>, o: Opts, i: nat, st: Second)
    returns (st': Second)
    requires i < |recs1| && Filed(nodeMap, |recs1|)
    requires parents == Parents(recs1, o.pk, nodeMap) && fin == Mapped(recs1, HasParent(parents), o.attrs)
    requires numeric == Numeric(nodeMap, sortMap0, fin, o.sortKey)
    requires SecondInv(recs1, parents, fin, numeric, nodeMap, o, i, st)
    ensures SecondInv(recs1, parents, fin, numeric, nodeMap, o, i + 1, st')
  {
    SecondAt(recs1, parents, fin, numeric, nodeMap, sortMap0, o, i);
    st' := SecondVisit(recs1, parents, fin, numeric, nodeMap, o, i, st);
  }

  // ---------------------------------------------------------------------------
  // The roots and the whole of arrayToTree

  /** The root records as the values `roots` holds. */
  function RootVals(recs: seq<Record>, rs: seq<nat>): (vs: seq<Val>)
    requires Listed(rs, recs)
    ensures |vs| == |rs|
  {
    seq(|rs|, j requires 0 <= j < |rs| => Obj(recs[rs[j]]))
  }

  /** `sortBy(roots, sortKey)` told by position: the roots sorted as items, each item
      taken back to the record it came from. */
  function SortRoots(recs: seq<Record>, rs: seq<nat>, sortKey: string, rank: Val -> int): seq<nat>
    requires Listed(rs, recs)
  {
    var items := Coll.Items(Entries(Arr(RootVals(recs, rs))), Iteratee(Value(Str(sortKey))));
    Coll.Project(Coll.InsertionSort(items, rank), (it: Coll.Item) => if it.index < |rs| then rs[it.index] else 0)
  }

  /** Sorting the roots rearranges them, and position by position they are the records
      `sortBy` returns. */
  lemma SortRootsMeaning(recs: seq<Record>, rs: seq<nat>, sortKey: string, rank: Val -> int)
    requires Listed(rs, recs) && sortKey != ""
    ensures multiset(SortRoots(recs, rs, sortKey, rank)) == multiset(rs)
    ensures Listed(SortRoots(recs, rs, sortKey, rank), recs)
    ensures |SortRoots(recs, rs, sortKey, rank)| == |rs|
    ensures forall i :: 0 <= i < |rs| ==>
      Obj(recs[SortRoots(recs, rs, sortKey, rank)[i]]) == Coll.SortBy(Arr(RootVals(recs, rs)), Value(Str(sortKey)), rank)[i]
  {
    SortRootsPerm(recs, rs, sortKey, rank);
    SortRootsOrder(recs, rs, sortKey, rank);
  }

  lemma SortRootsPerm(recs: seq<Record>, rs: seq<nat>, sortKey: string, rank: Val -> int)
    requires Listed(rs, recs)
    ensures multiset(SortRoots(recs, rs, sortKey, rank)) == multiset(rs)
    ensures Listed(SortRoots(recs, rs, sortKey, rank), recs)
    ensures |SortRoots(recs, rs, sortKey, rank)| == |rs|
  {
    var items := Coll.Items(Entries(Arr(RootVals(recs, rs))), Iteratee(Value(Str(sortKey))));
    var f := (it: Coll.Item) => if it.index < |rs| then rs[it.index] else 0;
    var out := SortRoots(recs, rs, sortKey, rank);
    assert Coll.Project(items, f) == rs;
    Coll.SortProject(items, rank, f);
    forall i | 0 <= i < |out|
      ensures out[i] < |recs|
    {
      assert out[i] in multiset(rs);
    }
  }

  lemma SortRootsOrder(recs: seq<Record>, rs: seq<nat>, sortKey: string, rank: Val -> int)
    requires Listed(rs, recs) && sortKey != ""
    requires |SortRoots(recs, rs, sortKey, rank)| == |rs| && Listed(SortRoots(recs, rs, sortKey, rank), recs)
    ensures forall i :: 0 <= i < |rs| ==>
      Obj(recs[SortRoots(recs, rs, sortKey, rank)[i]]) == Coll.SortBy(Arr(RootVals(recs, rs)), Value(Str(sortKey)), rank)[i]
  {
    var cb := Iteratee(Value(Str(sortKey)));
    var items := Coll.Items(Entries(Arr(RootVals(recs, rs))), cb);
    var sorted := Coll.InsertionSort(items, rank);
    var out := SortRoots(recs, rs, sortKey, rank);
    SortRootsSrc(recs, rs, sortKey, rank);
    forall i | 0 <= i < |rs|
      ensures Obj(recs[out[i]]) == Coll.SortBy(Arr(RootVals(recs, rs)), Value(Str(sortKey)), rank)[i]
    {
      assert sorted[i] in multiset(items);
      RootItem(recs, rs, cb, sorted[i]);
    }
  }

  /** Position by position, `sortBy` of the roots is the sorted items' values. */
  lemma SortRootsSrc(recs: seq<Record>, rs: seq<nat>, sortKey: string, rank: Val -> int)
    requires Listed(rs, recs) && sortKey != ""
    ensures var sorted := Coll.InsertionSort(Coll.Items(Entries(Arr(RootVals(recs, rs))), Iteratee(Value(Str(sortKey)))), rank);
      |sorted| == |rs| &&
      forall i :: 0 <= i < |rs| ==> Coll.SortBy(Arr(RootVals(recs, rs)), Value(Str(sortKey)), rank)[i] == sorted[i].src
  {
    assert Truthy(Str(sortKey));
    Coll.SizeIsEntries(Arr(RootVals(recs, rs)));
  }

  /** Each item of the roots carries the root record at its position. */
  lemma RootItem(recs: seq<Record>, rs: seq<nat>, cb: Callback, it: Coll.Item)
    requires Listed(rs, recs)
    requires it in Coll.Items(Entries(Arr(RootVals(recs, rs))), cb)
    ensures it.index < |rs| && Obj(recs[rs[it.index]]) == it.src
  {
    var items := Coll.Items(Entries(Arr(RootVals(recs, rs))), cb);
    var m :| 0 <= m < |items| && items[m] == it;
    assert it.index == m;
  }

  /** The record each array element stands for: the own properties of an object. */
  function RecordsOf(items: seq<Val>): (recs: seq<Record>)
    requires forall j :: 0 <= j < |items| ==> items[j].Obj?
    ensures |recs| == |items|
  {
    seq(|items|, j requires 0 <= j < |items| => items[j].props)
  }

  /** The options with their defaults: `idKey || 'id'`, `pidKey || 'pid'`, a root parent
      value of undefined read as null, and the attribute map only when it is a truthy
      object. */
  function OptsOf(idKey: string, pidKey: string, rootParentValue: Val, attrMap: Val, sortKey: string): Opts {
    Opts(KeyOr(idKey, "id"), KeyOr(pidKey, "pid"), if rootParentValue == Undef then Null else rootParentValue,
      if Truthy(attrMap) && Is.IsObject(attrMap) then Entries(attrMap) else [], sortKey)
  }

  /** Every record, as the input has it and as the passes leave it, holds a number under
      a plain sort key. */
  predicate NumericInput(recs0: seq<Record>, recs: seq<Record>, sortKey: string) {
    sortKey != "" && PlainSegment(sortKey) &&
    (forall j :: 0 <= j < |recs0| ==> HasNum(recs0[j], sortKey)) &&
    (forall j :: 0 <= j < |recs| ==> HasNum(recs[j], sortKey))
  }

  /** With a number on every record, sortMap starts out with number pairs `[n, n]`, so
      the second pass sees numeric bounds. */
  lemma NumericStart(recs0: seq<Record>, recs: seq<Record>, sortKey: string,
                     nodeMap: map<string, nat>, sortMap: map<string, (Val, Val)>)
    requires NumericInput(recs0, recs, sortKey)
    requires forall k :: k in nodeMap ==> nodeMap[k] < |recs0|
    requires sortMap == SortInit(SortNos(recs0, sortKey), nodeMap)
    ensures Numeric(nodeMap, sortMap, recs, sortKey)
  {
    var nos := SortNos(recs0, sortKey);
    forall k | k in nodeMap && k in sortMap
      ensures sortMap[k].0.Num? && sortMap[k].1.Num? && sortMap[k].0.n <= sortMap[k].1.n
    {
      assert sortMap[k] == (nos[nodeMap[k]], nos[nodeMap[k]]);
      assert HasNum(recs0[nodeMap[k]], sortKey);
    }
  }

  /** What arrayToTree builds from the records `recs0` under the options `o`, told by
      position: `recs` are the records as both passes leave them (the attribute map
      applied to the roots and then to every record with a parent), `kids[p]` is the
      children list stored on record p (present just when p has children, holding
      exactly them, in input order without a sort key), `roots` are the roots (in input
      order without a sort key, as `sortBy` orders them with one), and, with a number
      under a plain sort key on every record, every children list is in ascending order. */
  predicate Built(recs0: seq<Record>, o: Opts, rank: Val -> int,
                  roots: seq<nat>, kids: seq<Option<seq<nat>>>, recs: seq<Record>) {
    var nodeMap := NodeMap(Ids(recs0, o.idk), |recs0|);
    var recs1 := Mapped(recs0, RootFlags(recs0, o.pk, o.rpv), o.attrs);
    && recs == Mapped(recs1, HasParent(Parents(recs1, o.pk, nodeMap)), o.attrs)
    && |kids| == |recs0|
    && (forall p :: 0 <= p < |recs0| ==> KidShape(kids[p], ChildrenOf(recs1, o.pk, nodeMap, p), o.sortKey == ""))
    && (o.sortKey == "" ==> roots == RootsOf(recs0, o.pk, o.rpv))
    && (o.sortKey != "" ==>
          Listed(RootsOf(recs0, o.pk, o.rpv), recs) && roots == SortRoots(recs, RootsOf(recs0, o.pk, o.rpv), o.sortKey, rank))
    && (NumericInput(recs0, recs, o.sortKey) ==>
          forall p :: 0 <= p < |recs0| ==> InOrder(ListOf(kids[p]), recs, o.sortKey))
  }

  /** The positions Where lists are below n. */
  lemma {:induction false} WhereBelow(flags: seq<bool>, n: nat)
    requires n <= |flags|
    ensures forall a :: 0 <= a < |Where(flags, n)| ==> Where(flags, n)[a] < n
  {
    if n > 0 {
      WhereBelow(flags, n - 1);
    }
  }

  /** The two passes and the root sort on records. */
  method BuildTree(recs0: seq<Record>, o: Opts, rank: Val -> int)
    returns (roots: seq<nat>, kids: seq<Option<seq<nat>>>, recs: seq<Record>)
    ensures Built(recs0, o, rank, roots, kids, recs)
  {
    var recs1, nodeMap, sortMap, rs := FirstPass(recs0, o);
    NodeMapInjective(Ids(recs0, o.idk), |recs0|);
    WhereBelow(RootFlags(recs0, o.pk, o.rpv), |recs0|);
    recs, kids := SecondPass(recs1, nodeMap, sortMap, o);
    if NumericInput(recs0, recs, o.sortKey) {
      NumericStart(recs0, recs, o.sortKey, nodeMap, sortMap);
    }
    if o.sortKey != "" {
      roots := SortRoots(recs, rs, o.sortKey, rank);
    } else {
      roots := rs;
    }
  }

  /** `arrayToTree(array, idKey, pidKey, options)` (src/tree.ts:65-137), with the input
      array as `list`: anything but an array gives an empty result; otherwise the result
      is what Built says, under the options with their defaults. */
  method ArrayToTree(list: Val, idKey: string, pidKey: string, rootParentValue: Val, attrMap: Val,
                     sortKey: string, rank: Val -> int)
    returns (roots: seq<nat>, kids: seq<Option<seq<nat>>>, recs: seq<Record>)
    requires list.Arr? ==> forall j :: 0 <= j < |list.items| ==> list.items[j].Obj?
    ensures !list.Arr? ==> roots == [] && kids == [] && recs == []
    ensures list.Arr? ==>
      Built(RecordsOf(list.items), OptsOf(idKey, pidKey, rootParentValue, attrMap, sortKey), rank, roots, kids, recs)
  {
    if !list.Arr? {
      return [], [], [];
    }
    roots, kids, recs := BuildTree(RecordsOf(list.items), OptsOf(idKey, pidKey, rootParentValue, attrMap, sortKey), rank);
  }
}
