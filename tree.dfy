/** The tree operations of src/tree.ts that work on nested nodes: the preorder walker
    `walkTree` and the searches built on it (`findTreeNode`, `findTreeNodes`,
    `filterTree`), `sortTree` and `closest`.

    A tree is a value: a node is an object, and its children sit under the children key,
    either as an array of nodes or as one node. A call is given an array of nodes or a
    single node. */
module Trees {
  import opened JsValues
  import opened Is
  import opened Utils
  import Coll

  // ---------------------------------------------------------------------------
  // Nodes and their children

  /** `options.childrenKey || 'children'`. */
  function ChildrenKey(k: string): (key: string)
    ensures key != ""
    ensures k != "" ==> key == k
  {
    if k == "" then "children" else k
  }

  lemma LookupIn(props: seq<(string, Val)>, k: string) returns (i: nat)
    requires Lookup(props, k).Some?
    ensures i < |props| && props[i].1 == Lookup(props, k).value
  {
    if props[0].0 == k {
      i := 0;
    } else {
      var j := LookupIn(props[1..], k);
      i := j + 1;
    }
  }

  lemma LookupSmaller(props: seq<(string, Val)>, k: string)
    ensures Lookup(props, k).Some? ==> Lookup(props, k).value < Obj(props)
  {
    if Lookup(props, k).Some? {
      var i := LookupIn(props, k);
      assert props[i] in props;
    }
  }

  /** `node[key]`: the property of an object node; other values have none here. What it
      returns is part of the node, so a walk down children (or up parents) ends. */
  function Field(node: Val, key: string): (r: Val)
    ensures r == Undef || r < node
    ensures node.Obj? && key in Keys(node.props) ==> r == Lookup(node.props, key).value
  {
    if node.Obj? then
      match Lookup(node.props, key)
      case Some(x) =>
        LookupSmaller(node.props, key);
        x
      case None => Undef
    else Undef
  }

  /** The nodes one call works through: `isArray(treeNodes) ? treeNodes : [treeNodes]`. */
  function NodesOf(v: Val): (data: seq<Val>)
    ensures v.Arr? ==> data == v.items
    ensures !v.Arr? ==> data == [v]
  {
    if v.Arr? then v.items else [v]
  }

  /** Node `x` is one of the children of `y`: `y` has a non-empty child container and
      `x` is among its nodes. */
  predicate ChildIn(x: Val, y: Val, key: string) {
    !IsEmpty(Field(y, key)) && x in NodesOf(Field(y, key))
  }

  // ---------------------------------------------------------------------------
  // _walkTree (src/tree.ts:189-225)

  /** One callback call, `callback(parentNode, node, chain)`. */
  datatype Visit = Visit(parent: Val, node: Val, chain: seq<Val>)

  /** A callback with the state it closes over: it is given the state and the visit, and
      returns the new state and its result. */
  type Visitor<!S> = (S, Visit) -> (S, Val)

  /** `rs === false`: abort. */
  predicate Aborts(rs: Val) {
    rs == Bool(false)
  }

  /** `rs === -1`: skip the node's descendants. */
  predicate Skips(rs: Val) {
    StrictEq(rs, Num(-1))
  }

  /** The chain handed to a node's children: `[node]`, behind `chain` when there is a parent. */
  function NextChain(parent: Val, chain: seq<Val>, node: Val): (c: seq<Val>)
    ensures |c| > 0 && c[|c| - 1] == node
    ensures Truthy(parent) ==> c == chain + [node]
    ensures chain == [] ==> c == [node]
  {
    if Truthy(parent) then chain + [node] else [node]
  }

  /** `_walkTree(treeNodes, callback, options, parentNode, chain)`: the state after the
      walk and whether this call returned because a callback answered `false`.

      `propagate` says what a caller does with that answer. The code as written checks the
      result of the nested call, which never returns a value, so `propagate == false` is
      the code; `propagate == true` is the walk the documentation describes, where `false`
      ends the whole walk. */
  function WalkVal<S>(v: Val, parent: Val, chain: seq<Val>, s: S, cb: Visitor<S>, key: string,
                      propagate: bool): (S, bool)
    decreases v, 1
  {
    if v.Arr? then WalkNodes(v.items, parent, chain, s, cb, key, propagate)
    else WalkNode(v, parent, chain, s, cb, key, propagate)
  }

  /** The `for` loop over the nodes of one call. */
  function WalkNodes<S>(data: seq<Val>, parent: Val, chain: seq<Val>, s: S, cb: Visitor<S>,
                        key: string, propagate: bool): (S, bool)
    decreases data
  {
    if data == [] then (s, false)
    else
      var r := WalkNode(data[0], parent, chain, s, cb, key, propagate);
      if r.1 then r else WalkNodes(data[1..], parent, chain, r.0, cb, key, propagate)
  }

  /** One iteration of the loop: the callback on `node`, then its subtree. */
  function WalkNode<S>(node: Val, parent: Val, chain: seq<Val>, s: S, cb: Visitor<S>, key: string,
                       propagate: bool): (S, bool)
    decreases node, 0
  {
    var r := cb(s, Visit(parent, node, chain));
    if Aborts(r.1) then (r.0, true)
    else if Skips(r.1) then (r.0, false)
    else
      var kids := Field(node, key);
      if IsEmpty(kids) then (r.0, false)
      else
        var sub := WalkVal(kids, node, NextChain(parent, chain, node), r.0, cb, key, propagate);
        (sub.0, propagate && sub.1)
  }

  /** `_walkTree` as written: a loop over the nodes that calls itself on each node's
      children. Its own result is always undefined, so the test of the nested call's
      result never fires. */
  method WalkLevel<S>(treeNodes: Val, cb: Visitor<S>, key: string, parent: Val, chain: seq<Val>, s0: S)
    returns (s: S, rtn: Val)
    ensures s == WalkVal(treeNodes, parent, chain, s0, cb, key, false).0
    ensures rtn == Undef
    decreases treeNodes
  {
    rtn := Undef;
    var data := NodesOf(treeNodes);
    assert WalkVal(treeNodes, parent, chain, s0, cb, key, false) == WalkNodes(data, parent, chain, s0, cb, key, false);
    s := s0;
    var i := 0;
    while i < |data|
      invariant 0 <= i <= |data|
      invariant WalkNodes(data, parent, chain, s0, cb, key, false) == WalkNodes(data[i..], parent, chain, s, cb, key, false)
    {
      var node := data[i];
      assert data[i..][0] == node && data[i..][1..] == data[i + 1..];
      var r := cb(s, Visit(parent, node, chain));
      s := r.0;
      if Aborts(r.1) {
        return;
      }
      if !Skips(r.1) {
        var kids := Field(node, key);
        if !IsEmpty(kids) {
          var nextChain := [node];
          if Truthy(parent) {
            nextChain := chain + nextChain;
          }
          var nested;
          s, nested := WalkLevel(kids, cb, key, node, nextChain, s);
          if Aborts(nested) {
            return;
          }
        }
      }
      i := i + 1;
    }
  }

  /** `walkTree(treeNodes, callback, options)` (src/tree.ts:178-188): the state the callback
      is left with. */
  method WalkTree<S>(treeNodes: Val, cb: Visitor<S>, childrenKey: string, s0: S) returns (s: S)
    ensures s == WalkVal(treeNodes, Undef, [], s0, cb, ChildrenKey(childrenKey), false).0
  {
    var rtn;
    s, rtn := WalkLevel(treeNodes, cb, ChildrenKey(childrenKey), Undef, [], s0);
  }

  // ---------------------------------------------------------------------------
  // The preorder the walk follows

  /** The visits of a full walk in preorder: each node, then the visits below it, siblings
      in order. A node whose decision is `-1` keeps its descendants out. The chains are
      built as the walker builds them. */
  function Visits(v: Val, parent: Val, chain: seq<Val>, key: string, f: Visit -> Val): seq<Visit>
    decreases v, 1
  {
    if v.Arr? then VisitsNodes(v.items, parent, chain, key, f)
    else VisitsNode(v, parent, chain, key, f)
  }

  function VisitsNodes(data: seq<Val>, parent: Val, chain: seq<Val>, key: string, f: Visit -> Val): seq<Visit>
    decreases data
  {
    if data == [] then []
    else VisitsNode(data[0], parent, chain, key, f) + VisitsNodes(data[1..], parent, chain, key, f)
  }

  function VisitsNode(node: Val, parent: Val, chain: seq<Val>, key: string, f: Visit -> Val): seq<Visit>
    decreases node, 0
  {
    var w := Visit(parent, node, chain);
    var kids := Field(node, key);
    [w] + if Skips(f(w)) || IsEmpty(kids) then []
          else Visits(kids, node, NextChain(parent, chain, node), key, f)
  }

  /** The visits up to and including the first whose decision is `false`. */
  function TakeThrough(ws: seq<Visit>, f: Visit -> Val): (r: seq<Visit>)
    ensures |r| <= |ws| && r == ws[..|r|]
  {
    if ws == [] then []
    else if Aborts(f(ws[0])) then [ws[0]]
    else [ws[0]] + TakeThrough(ws[1..], f)
  }

  /** Some visit decides `false`. */
  predicate AnyAborts(ws: seq<Visit>, f: Visit -> Val) {
    exists i :: 0 <= i < |ws| && Aborts(f(ws[i]))
  }

  /** The state after handing the visits one by one to `g`. */
  function FoldVisits<S>(g: (S, Visit) -> S, s: S, ws: seq<Visit>): S
    decreases |ws|
  {
    if ws == [] then s else FoldVisits(g, g(s, ws[0]), ws[1..])
  }

  /** A callback whose result depends on the visit alone and whose state is updated by
      `g`: the shape of every callback src/tree.ts passes to the walker. */
  function Decided<S>(g: (S, Visit) -> S, f: Visit -> Val): Visitor<S> {
    (s: S, w: Visit) => (g(s, w), f(w))
  }

  lemma {:induction false} FoldAppend<S>(g: (S, Visit) -> S, s: S, a: seq<Visit>, b: seq<Visit>)
    ensures FoldVisits(g, s, a + b) == FoldVisits(g, FoldVisits(g, s, a), b)
    decreases |a|
  {
    if a != [] {
      assert (a + b)[0] == a[0];
      assert (a + b)[1..] == a[1..] + b;
      FoldAppend(g, g(s, a[0]), a[1..], b);
    } else {
      assert a + b == b;
    }
  }

  lemma {:induction false} TakeThroughAll(ws: seq<Visit>, f: Visit -> Val)
    requires !AnyAborts(ws, f)
    ensures TakeThrough(ws, f) == ws
    decreases |ws|
  {
    if ws != [] {
      assert !Aborts(f(ws[0]));
      assert !AnyAborts(ws[1..], f) by {
        forall i | 0 <= i < |ws[1..]|
          ensures !Aborts(f(ws[1..][i]))
        {
          assert ws[1..][i] == ws[i + 1];
        }
      }
      TakeThroughAll(ws[1..], f);
    }
  }

  lemma {:induction false} AnyAbortsCons(w: Visit, ws: seq<Visit>, f: Visit -> Val)
    ensures AnyAborts([w] + ws, f) == (Aborts(f(w)) || AnyAborts(ws, f))
    ensures TakeThrough([w] + ws, f) == if Aborts(f(w)) then [w] else [w] + TakeThrough(ws, f)
  {
    var c := [w] + ws;
    assert c[0] == w && c[1..] == ws;
    if AnyAborts(c, f) {
      var i :| 0 <= i < |c| && Aborts(f(c[i]));
      if i > 0 {
        assert ws[i - 1] == c[i];
      }
    }
    if AnyAborts(ws, f) {
      var i :| 0 <= i < |ws| && Aborts(f(ws[i]));
      assert c[i + 1] == ws[i];
    }
  }

  lemma {:induction false} TakeThroughAppend(a: seq<Visit>, b: seq<Visit>, f: Visit -> Val)
    ensures AnyAborts(a + b, f) == (AnyAborts(a, f) || AnyAborts(b, f))
    ensures TakeThrough(a + b, f) == if AnyAborts(a, f) then TakeThrough(a, f) else a + TakeThrough(b, f)
    decreases |a|
  {
    if a == [] {
      assert a + b == b;
      assert !AnyAborts(a, f);
    } else {
      var w, rest := a[0], a[1..];
      assert a == [w] + rest;
      assert a + b == [w] + (rest + b);
      TakeThroughAppend(rest, b, f);
      AnyAbortsCons(w, rest, f);
      AnyAbortsCons(w, rest + b, f);
    }
  }

  /** The corrected walk with a decided callback: the callback sees the pruned preorder
      visits up to and including the first `false`, and the walk reports an abort exactly
      when some visit decides `false`. */
  lemma {:induction false} WalkFixedMeaning<S>(v: Val, parent: Val, chain: seq<Val>, s: S, g: (S, Visit) -> S,
                                               f: Visit -> Val, key: string)
    ensures var ws := Visits(v, parent, chain, key, f);
      WalkVal(v, parent, chain, s, Decided(g, f), key, true) == (FoldVisits(g, s, TakeThrough(ws, f)), AnyAborts(ws, f))
    decreases v, 1
  {
    if v.Arr? {
      WalkNodesFixed(v.items, parent, chain, s, g, f, key);
    } else {
      WalkNodeFixed(v, parent, chain, s, g, f, key);
    }
  }

  lemma {:induction false} WalkNodesFixed<S>(data: seq<Val>, parent: Val, chain: seq<Val>, s: S, g: (S, Visit) -> S,
                                             f: Visit -> Val, key: string)
    ensures var ws := VisitsNodes(data, parent, chain, key, f);
      WalkNodes(data, parent, chain, s, Decided(g, f), key, true) == (FoldVisits(g, s, TakeThrough(ws, f)), AnyAborts(ws, f))
    decreases data
  {
    if data != [] {
      var head := VisitsNode(data[0], parent, chain, key, f);
      var rest := VisitsNodes(data[1..], parent, chain, key, f);
      WalkNodeFixed(data[0], parent, chain, s, g, f, key);
      TakeThroughAppend(head, rest, f);
      if !AnyAborts(head, f) {
        TakeThroughAll(head, f);
        WalkNodesFixed(data[1..], parent, chain, FoldVisits(g, s, head), g, f, key);
        FoldAppend(g, s, head, TakeThrough(rest, f));
      }
    } else {
      assert !AnyAborts([], f);
    }
  }

  lemma {:induction false} WalkNodeFixed<S>(node: Val, parent: Val, chain: seq<Val>, s: S, g: (S, Visit) -> S,
                                            f: Visit -> Val, key: string)
    ensures var ws := VisitsNode(node, parent, chain, key, f);
      WalkNode(node, parent, chain, s, Decided(g, f), key, true) == (FoldVisits(g, s, TakeThrough(ws, f)), AnyAborts(ws, f))
    decreases node, 0
  {
    var w := Visit(parent, node, chain);
    var kids := Field(node, key);
    var below := if Skips(f(w)) || IsEmpty(kids) then [] else Visits(kids, node, NextChain(parent, chain, node), key, f);
    assert VisitsNode(node, parent, chain, key, f) == [w] + below;
    AnyAbortsCons(w, below, f);
    assert Decided(g, f)(s, w) == (g(s, w), f(w));
    if Aborts(f(w)) {
      assert TakeThrough([w] + below, f) == [w];
    } else {
      assert FoldVisits(g, s, [w] + TakeThrough(below, f)) == FoldVisits(g, g(s, w), TakeThrough(below, f)) by {
        assert ([w] + TakeThrough(below, f))[1..] == TakeThrough(below, f);
      }
      if Skips(f(w)) || IsEmpty(kids) {
        assert !AnyAborts([], f);
      } else {
        WalkFixedMeaning(kids, node, NextChain(parent, chain, node), g(s, w), g, f, key);
      }
    }
  }

  /** The walk as written agrees with the corrected one while `false` comes only from
      top-level nodes: a `false` from a node below them is what it fails to pass up. */
  lemma {:induction false} WalkAgreesAtTop<S>(v: Val, s: S, g: (S, Visit) -> S, f: Visit -> Val, key: string)
    requires forall w :: Aborts(f(w)) ==> w.parent == Undef
    ensures WalkVal(v, Undef, [], s, Decided(g, f), key, false).0 == WalkVal(v, Undef, [], s, Decided(g, f), key, true).0
  {
    WalkAgree(v, Undef, [], s, g, f, key);
  }

  lemma {:induction false} WalkAgree<S>(v: Val, parent: Val, chain: seq<Val>, s: S, g: (S, Visit) -> S,
                                        f: Visit -> Val, key: string)
    requires forall w :: Aborts(f(w)) ==> w.parent == Undef
    ensures var a := WalkVal(v, parent, chain, s, Decided(g, f), key, false);
      a == WalkVal(v, parent, chain, s, Decided(g, f), key, true) && (parent != Undef ==> !a.1)
    decreases v, 1
  {
    if v.Arr? {
      WalkNodesAgree(v.items, parent, chain, s, g, f, key);
    } else {
      WalkNodeAgree(v, parent, chain, s, g, f, key);
    }
  }

  lemma {:induction false} WalkNodesAgree<S>(data: seq<Val>, parent: Val, chain: seq<Val>, s: S, g: (S, Visit) -> S,
                                             f: Visit -> Val, key: string)
    requires forall w :: Aborts(f(w)) ==> w.parent == Undef
    ensures var a := WalkNodes(data, parent, chain, s, Decided(g, f), key, false);
      a == WalkNodes(data, parent, chain, s, Decided(g, f), key, true) && (parent != Undef ==> !a.1)
    decreases data
  {
    if data != [] {
      WalkNodeAgree(data[0], parent, chain, s, g, f, key);
      var r := WalkNode(data[0], parent, chain, s, Decided(g, f), key, false);
      if !r.1 {
        WalkNodesAgree(data[1..], parent, chain, r.0, g, f, key);
      }
    }
  }

  lemma {:induction false} WalkNodeAgree<S>(node: Val, parent: Val, chain: seq<Val>, s: S, g: (S, Visit) -> S,
                                            f: Visit -> Val, key: string)
    requires forall w :: Aborts(f(w)) ==> w.parent == Undef
    ensures var a := WalkNode(node, parent, chain, s, Decided(g, f), key, false);
      a == WalkNode(node, parent, chain, s, Decided(g, f), key, true) && (parent != Undef ==> !a.1)
    decreases node, 0
  {
    var w := Visit(parent, node, chain);
    assert Decided(g, f)(s, w) == (g(s, w), f(w));
    var kids := Field(node, key);
    if !Aborts(f(w)) && !Skips(f(w)) && !IsEmpty(kids) {
      assert node != Undef;
      WalkAgree(kids, node, NextChain(parent, chain, node), g(s, w), g, f, key);
    }
  }

  // ---------------------------------------------------------------------------
  // The callback's arguments (src/tree.ts:200-214)

  /** `c` runs down the tree from a top-level node of `top`, each node a child of the one
      before it. */
  predicate IsPath(top: Val, c: seq<Val>, key: string) {
    c != [] && c[0] in NodesOf(top) && forall j :: 0 <= j < |c| - 1 ==> ChildIn(c[j + 1], c[j], key)
  }

  /** What the callback is given for a node: `chain` holds its ancestors from the top-level
      node down to its parent, `parentNode` is the last of them, and at the top both are
      empty. */
  predicate ChainOK(top: Val, key: string, w: Visit) {
    IsPath(top, w.chain + [w.node], key) &&
    (w.chain == [] ==> w.parent == Undef) &&
    (w.chain != [] ==> w.parent == w.chain[|w.chain| - 1])
  }

  /** Where a call of the walk stands: at the top with nothing above, or at the child
      container of `parent`, the last node of a path `chain`. */
  predicate Context(top: Val, key: string, u: Val, parent: Val, chain: seq<Val>) {
    (parent == Undef && chain == [] && u == top) ||
    (chain != [] && parent == chain[|chain| - 1] && Truthy(parent) && IsPath(top, chain, key) &&
     u == Field(parent, key) && !IsEmpty(u))
  }

  lemma PathSnoc(top: Val, c: seq<Val>, x: Val, key: string)
    requires IsPath(top, c, key) && ChildIn(x, c[|c| - 1], key)
    ensures IsPath(top, c + [x], key)
  {
    var d := c + [x];
    forall j | 0 <= j < |d| - 1
      ensures ChildIn(d[j + 1], d[j], key)
    {
      if j < |c| - 1 {
        assert d[j + 1] == c[j + 1] && d[j] == c[j];
      } else {
        assert d[j + 1] == x && d[j] == c[|c| - 1];
      }
    }
  }

  /** Every visit of a walk from the top gets the chain and parent `ChainOK` describes. */
  lemma ChainMeaning(v: Val, key: string, f: Visit -> Val)
    ensures forall w :: w in Visits(v, Undef, [], key, f) ==> ChainOK(v, key, w)
  {
    VisitsChain(v, Undef, [], key, f, v);
  }

  lemma {:induction false} VisitsChain(u: Val, parent: Val, chain: seq<Val>, key: string, f: Visit -> Val, top: Val)
    requires Context(top, key, u, parent, chain)
    ensures forall w :: w in Visits(u, parent, chain, key, f) ==> ChainOK(top, key, w)
    decreases u, 1
  {
    if u.Arr? {
      VisitsNodesChain(u.items, parent, chain, key, f, top, u);
    } else {
      VisitsNodeChain(u, parent, chain, key, f, top, u);
    }
  }

  lemma {:induction false} VisitsNodesChain(data: seq<Val>, parent: Val, chain: seq<Val>, key: string,
                                            f: Visit -> Val, top: Val, u: Val)
    requires Context(top, key, u, parent, chain)
    requires forall x :: x in data ==> x in NodesOf(u)
    ensures forall w :: w in VisitsNodes(data, parent, chain, key, f) ==> ChainOK(top, key, w)
    decreases data
  {
    if data != [] {
      assert data[0] in data;
      VisitsNodeChain(data[0], parent, chain, key, f, top, u);
      assert forall x :: x in data[1..] ==> x in data;
      VisitsNodesChain(data[1..], parent, chain, key, f, top, u);
    }
  }

  lemma {:induction false} VisitsNodeChain(node: Val, parent: Val, chain: seq<Val>, key: string,
                                           f: Visit -> Val, top: Val, u: Val)
    requires Context(top, key, u, parent, chain)
    requires node in NodesOf(u)
    ensures forall w :: w in VisitsNode(node, parent, chain, key, f) ==> ChainOK(top, key, w)
    decreases node, 0
  {
    var w0 := Visit(parent, node, chain);
    FirstVisitChain(node, parent, chain, key, top, u);
    var kids := Field(node, key);
    var rest := if Skips(f(w0)) || IsEmpty(kids) then [] else Visits(kids, node, NextChain(parent, chain, node), key, f);
    assert VisitsNode(node, parent, chain, key, f) == [w0] + rest;
    if !Skips(f(w0)) && !IsEmpty(kids) {
      ContextStep(node, parent, chain, key, top);
      VisitsChain(kids, node, NextChain(parent, chain, node), key, f, top);
    }
    forall w | w in [w0] + rest
      ensures ChainOK(top, key, w)
    {
      if w != w0 {
        assert w in rest;
      }
    }
  }

  lemma FirstVisitChain(node: Val, parent: Val, chain: seq<Val>, key: string, top: Val, u: Val)
    requires Context(top, key, u, parent, chain)
    requires node in NodesOf(u)
    ensures ChainOK(top, key, Visit(parent, node, chain))
  {
    if chain == [] {
      assert chain + [node] == [node];
    } else {
      PathSnoc(top, chain, node, key);
    }
  }

  lemma ContextStep(node: Val, parent: Val, chain: seq<Val>, key: string, top: Val)
    requires ChainOK(top, key, Visit(parent, node, chain))
    requires !IsEmpty(Field(node, key))
    requires (parent == Undef && chain == []) || Truthy(parent)
    ensures Context(top, key, Field(node, key), node, NextChain(parent, chain, node))
  {
    assert node.Obj?;
    var c := NextChain(parent, chain, node);
    assert c == chain + [node];
    assert IsPath(top, c, key);
    assert c[|c| - 1] == node && Truthy(node);
  }

  /** No decision: the callback's result is undefined. */
  function NoDecision(): (f: Visit -> Val)
    ensures forall w :: f(w) == Undef
  {
    (w: Visit) => Undef
  }

  /** The full preorder listing of a walk from the top. */
  function Preorder(v: Val, key: string): seq<Visit> {
    Visits(v, Undef, [], key, NoDecision())
  }

  /** The listing depends on the decisions only through which of them are `-1`. */
  lemma {:induction false} VisitsSameSkips(v: Val, parent: Val, chain: seq<Val>, key: string, f1: Visit -> Val, f2: Visit -> Val)
    requires forall w :: Skips(f1(w)) == Skips(f2(w))
    ensures Visits(v, parent, chain, key, f1) == Visits(v, parent, chain, key, f2)
    decreases v, 1
  {
    if v.Arr? {
      VisitsNodesSameSkips(v.items, parent, chain, key, f1, f2);
    } else {
      VisitsNodeSameSkips(v, parent, chain, key, f1, f2);
    }
  }

  lemma {:induction false} VisitsNodesSameSkips(data: seq<Val>, parent: Val, chain: seq<Val>, key: string,
                                                f1: Visit -> Val, f2: Visit -> Val)
    requires forall w :: Skips(f1(w)) == Skips(f2(w))
    ensures VisitsNodes(data, parent, chain, key, f1) == VisitsNodes(data, parent, chain, key, f2)
    decreases data
  {
    if data != [] {
      VisitsNodeSameSkips(data[0], parent, chain, key, f1, f2);
      VisitsNodesSameSkips(data[1..], parent, chain, key, f1, f2);
    }
  }

  lemma {:induction false} VisitsNodeSameSkips(node: Val, parent: Val, chain: seq<Val>, key: string,
                                               f1: Visit -> Val, f2: Visit -> Val)
    requires forall w :: Skips(f1(w)) == Skips(f2(w))
    ensures VisitsNode(node, parent, chain, key, f1) == VisitsNode(node, parent, chain, key, f2)
    decreases node, 0
  {
    var w := Visit(parent, node, chain);
    var kids := Field(node, key);
    if !Skips(f1(w)) && !IsEmpty(kids) {
      VisitsSameSkips(kids, node, NextChain(parent, chain, node), key, f1, f2);
    }
  }

  /** A callback that never answers `false` or `-1` sees every node once, in preorder,
      whichever way the walk treats an abort. */
  lemma WalkVisitsAll<S>(v: Val, s: S, g: (S, Visit) -> S, f: Visit -> Val, key: string, propagate: bool)
    requires forall w :: !Aborts(f(w)) && !Skips(f(w))
    ensures WalkVal(v, Undef, [], s, Decided(g, f), key, propagate).0 == FoldVisits(g, s, Preorder(v, key))
  {
    WalkAgreesAtTop(v, s, g, f, key);
    WalkFixedMeaning(v, Undef, [], s, g, f, key);
    VisitsSameSkips(v, Undef, [], key, f, NoDecision());
    TakeThroughAll(Preorder(v, key), f);
  }

  // ---------------------------------------------------------------------------
  // findTreeNode, findTreeNodes (src/tree.ts:336-418)

  /** The searches call `iteratee(predicate)` with the node alone. */
  predicate Hit(cb: Callback, node: Val) {
    Truthy(cb(node, Undef))
  }

  /** findTreeNode's callback, on its `node` variable: a hit is kept... */
  function KeepHit(cb: Callback): (Val, Visit) -> Val {
    (s: Val, w: Visit) => if Hit(cb, w.node) then w.node else s
  }

  /** ...and answered with `false`, anything else with undefined. */
  function StopAtHit(cb: Callback): Visit -> Val {
    (w: Visit) => if Hit(cb, w.node) then Bool(false) else Undef
  }

  /** The first visited node the predicate accepts, or undefined. */
  function FirstHit(ws: seq<Visit>, cb: Callback): (r: Val)
    ensures (exists i :: 0 <= i < |ws| && Hit(cb, ws[i].node)) ==>
      exists i :: 0 <= i < |ws| && Hit(cb, ws[i].node) && r == ws[i].node &&
        forall j :: 0 <= j < i ==> !Hit(cb, ws[j].node)
    ensures (forall i :: 0 <= i < |ws| ==> !Hit(cb, ws[i].node)) ==> r == Undef
  {
    if ws == [] then Undef
    else if Hit(cb, ws[0].node) then ws[0].node
    else
      var r := FirstHit(ws[1..], cb);
      assert forall i :: 0 < i < |ws| ==> ws[i] == ws[1..][i - 1];
      if exists i :: 0 <= i < |ws| && Hit(cb, ws[i].node) then
        var i :| 0 <= i < |ws| && Hit(cb, ws[i].node);
        assert Hit(cb, ws[1..][i - 1].node);
        r
      else r
  }

  lemma {:induction false} FoldFirstHit(ws: seq<Visit>, cb: Callback)
    ensures FoldVisits(KeepHit(cb), Undef, TakeThrough(ws, StopAtHit(cb))) == FirstHit(ws, cb)
    decreases |ws|
  {
    if ws != [] {
      var t := TakeThrough(ws, StopAtHit(cb));
      if !Hit(cb, ws[0].node) {
        assert t == [ws[0]] + TakeThrough(ws[1..], StopAtHit(cb));
        assert t[1..] == TakeThrough(ws[1..], StopAtHit(cb));
        FoldFirstHit(ws[1..], cb);
      }
    }
  }

  /** The visitor findTreeNode hands the walker. */
  function FindVisitor(cb: Callback): Visitor<Val> {
    Decided(KeepHit(cb), StopAtHit(cb))
  }

  /** Some visit's node is accepted by the predicate. */
  predicate AnyHit(ws: seq<Visit>, cb: Callback) {
    exists i :: 0 <= i < |ws| && Hit(cb, ws[i].node)
  }

  lemma AnyHitAppend(a: seq<Visit>, b: seq<Visit>, cb: Callback)
    ensures AnyHit(a + b, cb) <==> AnyHit(a, cb) || AnyHit(b, cb)
  {
    if AnyHit(a + b, cb) {
      var i :| 0 <= i < |a + b| && Hit(cb, (a + b)[i].node);
      if i < |a| {
        assert a[i] == (a + b)[i];
      } else {
        assert b[i - |a|] == (a + b)[i];
      }
    }
    if AnyHit(a, cb) {
      var i :| 0 <= i < |a| && Hit(cb, a[i].node);
      assert (a + b)[i] == a[i];
    }
    if AnyHit(b, cb) {
      var i :| 0 <= i < |b| && Hit(cb, b[i].node);
      assert (a + b)[|a| + i] == b[i];
    }
  }

  /** `findTreeNode(treeNodes, predicate, options)` as written: the `node` variable after
      the walk. It holds a node the predicate accepts exactly when the preorder listing
      has one, and stays undefined otherwise. Which accepted node it holds is not always
      the first (FindTreeNodeExample), and may even be an undefined entry of a children
      array that the predicate accepts after an earlier hit (FindTreeNodeLaterUndef). */
  method FindTreeNode(treeNodes: Val, pred: Arg, childrenKey: string) returns (node: Val)
    ensures node == WalkVal(treeNodes, Undef, [], Undef, FindVisitor(Iteratee(pred)), ChildrenKey(childrenKey), false).0
    ensures node == Undef || Hit(Iteratee(pred), node)
    ensures AnyHit(Preorder(treeNodes, ChildrenKey(childrenKey)), Iteratee(pred)) ==> Hit(Iteratee(pred), node)
    ensures !AnyHit(Preorder(treeNodes, ChildrenKey(childrenKey)), Iteratee(pred)) ==> node == Undef
  {
    var cb := Iteratee(pred);
    node := WalkTree(treeNodes, FindVisitor(cb), childrenKey, Undef);
    WalkKeeps(treeNodes, Undef, [], Undef, cb, ChildrenKey(childrenKey), false);
    WalkFinds(treeNodes, Undef, [], Undef, cb, ChildrenKey(childrenKey));
  }

  /** Once the `node` variable holds a hit, it holds one to the end of the walk. */
  lemma {:induction false} WalkHoldsHit(v: Val, parent: Val, chain: seq<Val>, s: Val, cb: Callback, key: string, propagate: bool)
    requires Hit(cb, s)
    ensures Hit(cb, WalkVal(v, parent, chain, s, FindVisitor(cb), key, propagate).0)
    decreases v, 1
  {
    if v.Arr? {
      WalkNodesHoldsHit(v.items, parent, chain, s, cb, key, propagate);
    } else {
      WalkNodeHoldsHit(v, parent, chain, s, cb, key, propagate);
    }
  }

  lemma {:induction false} WalkNodesHoldsHit(data: seq<Val>, parent: Val, chain: seq<Val>, s: Val, cb: Callback, key: string, propagate: bool)
    requires Hit(cb, s)
    ensures Hit(cb, WalkNodes(data, parent, chain, s, FindVisitor(cb), key, propagate).0)
    decreases data
  {
    if data != [] {
      WalkNodeHoldsHit(data[0], parent, chain, s, cb, key, propagate);
      var r := WalkNode(data[0], parent, chain, s, FindVisitor(cb), key, propagate);
      if !r.1 {
        WalkNodesHoldsHit(data[1..], parent, chain, r.0, cb, key, propagate);
      }
    }
  }

  lemma {:induction false} WalkNodeHoldsHit(node: Val, parent: Val, chain: seq<Val>, s: Val, cb: Callback, key: string, propagate: bool)
    requires Hit(cb, s)
    ensures Hit(cb, WalkNode(node, parent, chain, s, FindVisitor(cb), key, propagate).0)
    decreases node, 0
  {
    var w := Visit(parent, node, chain);
    assert FindVisitor(cb)(s, w) == (KeepHit(cb)(s, w), StopAtHit(cb)(w));
    var s1 := KeepHit(cb)(s, w);
    var kids := Field(node, key);
    if !Aborts(StopAtHit(cb)(w)) && !Skips(StopAtHit(cb)(w)) && !IsEmpty(kids) {
      WalkHoldsHit(kids, node, NextChain(parent, chain, node), s1, cb, key, propagate);
    }
  }

  /** The walk as written, below any node: when the preorder listing there holds a hit, the
      `node` variable ends on a hit (the first hit is reached, since only a hit aborts);
      when it holds none, the variable is untouched and the walk does not abort. */
  lemma {:induction false} WalkFinds(v: Val, parent: Val, chain: seq<Val>, s: Val, cb: Callback, key: string)
    ensures var r := WalkVal(v, parent, chain, s, FindVisitor(cb), key, false);
      var ws := Visits(v, parent, chain, key, NoDecision());
      (AnyHit(ws, cb) ==> Hit(cb, r.0)) && (!AnyHit(ws, cb) ==> r == (s, false))
    decreases v, 1
  {
    if v.Arr? {
      WalkNodesFinds(v.items, parent, chain, s, cb, key);
    } else {
      WalkNodeFinds(v, parent, chain, s, cb, key);
    }
  }

  lemma {:induction false} WalkNodesFinds(data: seq<Val>, parent: Val, chain: seq<Val>, s: Val, cb: Callback, key: string)
    ensures var r := WalkNodes(data, parent, chain, s, FindVisitor(cb), key, false);
      var ws := VisitsNodes(data, parent, chain, key, NoDecision());
      (AnyHit(ws, cb) ==> Hit(cb, r.0)) && (!AnyHit(ws, cb) ==> r == (s, false))
    decreases data
  {
    var ws := VisitsNodes(data, parent, chain, key, NoDecision());
    if data == [] {
      assert ws == [];
    } else {
      var first := VisitsNode(data[0], parent, chain, key, NoDecision());
      var rest := VisitsNodes(data[1..], parent, chain, key, NoDecision());
      assert ws == first + rest;
      AnyHitAppend(first, rest, cb);
      WalkNodeFinds(data[0], parent, chain, s, cb, key);
      var r := WalkNode(data[0], parent, chain, s, FindVisitor(cb), key, false);
      if AnyHit(first, cb) {
        if !r.1 {
          WalkNodesHoldsHit(data[1..], parent, chain, r.0, cb, key, false);
        }
      } else {
        WalkNodesFinds(data[1..], parent, chain, s, cb, key);
      }
    }
  }

  lemma {:induction false} WalkNodeFinds(node: Val, parent: Val, chain: seq<Val>, s: Val, cb: Callback, key: string)
    ensures var r := WalkNode(node, parent, chain, s, FindVisitor(cb), key, false);
      var ws := VisitsNode(node, parent, chain, key, NoDecision());
      (AnyHit(ws, cb) ==> Hit(cb, r.0)) && (!AnyHit(ws, cb) ==> r == (s, false))
    decreases node, 0
  {
    var w := Visit(parent, node, chain);
    assert FindVisitor(cb)(s, w) == (KeepHit(cb)(s, w), StopAtHit(cb)(w));
    var kids := Field(node, key);
    var ws := VisitsNode(node, parent, chain, key, NoDecision());
    assert !Skips(NoDecision()(w));
    var below := if IsEmpty(kids) then [] else Visits(kids, node, NextChain(parent, chain, node), key, NoDecision());
    assert ws == [w] + below;
    AnyHitAppend([w], below, cb);
    if Hit(cb, node) {
      assert ws[0] == w;
    } else {
      assert !AnyHit([w], cb);
      assert !Skips(Undef) by { assert !StrictEq(Undef, Num(-1)); }
      if !IsEmpty(kids) {
        WalkFinds(kids, node, NextChain(parent, chain, node), s, cb, key);
      }
    }
  }

  /** Whatever the walk does, the `node` variable only ever holds undefined or a hit. */
  lemma {:induction false} WalkKeeps(v: Val, parent: Val, chain: seq<Val>, s: Val, cb: Callback, key: string, propagate: bool)
    requires s == Undef || Hit(cb, s)
    ensures var r := WalkVal(v, parent, chain, s, FindVisitor(cb), key, propagate).0; r == Undef || Hit(cb, r)
    decreases v, 1
  {
    if v.Arr? {
      WalkNodesKeeps(v.items, parent, chain, s, cb, key, propagate);
    } else {
      WalkNodeKeeps(v, parent, chain, s, cb, key, propagate);
    }
  }

  lemma {:induction false} WalkNodesKeeps(data: seq<Val>, parent: Val, chain: seq<Val>, s: Val, cb: Callback, key: string, propagate: bool)
    requires s == Undef || Hit(cb, s)
    ensures var r := WalkNodes(data, parent, chain, s, FindVisitor(cb), key, propagate).0; r == Undef || Hit(cb, r)
    decreases data
  {
    if data != [] {
      WalkNodeKeeps(data[0], parent, chain, s, cb, key, propagate);
      var r := WalkNode(data[0], parent, chain, s, FindVisitor(cb), key, propagate);
      if !r.1 {
        WalkNodesKeeps(data[1..], parent, chain, r.0, cb, key, propagate);
      }
    }
  }

  lemma {:induction false} WalkNodeKeeps(node: Val, parent: Val, chain: seq<Val>, s: Val, cb: Callback, key: string, propagate: bool)
    requires s == Undef || Hit(cb, s)
    ensures var r := WalkNode(node, parent, chain, s, FindVisitor(cb), key, propagate).0; r == Undef || Hit(cb, r)
    decreases node, 0
  {
    var w := Visit(parent, node, chain);
    assert FindVisitor(cb)(s, w) == (KeepHit(cb)(s, w), StopAtHit(cb)(w));
    var s1 := KeepHit(cb)(s, w);
    var kids := Field(node, key);
    if !Aborts(StopAtHit(cb)(w)) && !Skips(StopAtHit(cb)(w)) && !IsEmpty(kids) {
      WalkKeeps(kids, node, NextChain(parent, chain, node), s1, cb, key, propagate);
    }
  }

  /** findTreeNode with the abort passed up, as documented: the first node in preorder the
      predicate accepts, or undefined. */
  function FindTreeNodeFixed(treeNodes: Val, pred: Arg, childrenKey: string): (node: Val)
    ensures node == FirstHit(Preorder(treeNodes, ChildrenKey(childrenKey)), Iteratee(pred))
  {
    var cb, key := Iteratee(pred), ChildrenKey(childrenKey);
    WalkFixedMeaning(treeNodes, Undef, [], Undef, KeepHit(cb), StopAtHit(cb), key);
    VisitsSameSkips(treeNodes, Undef, [], key, StopAtHit(cb), NoDecision());
    FoldFirstHit(Preorder(treeNodes, key), cb);
    WalkVal(treeNodes, Undef, [], Undef, FindVisitor(cb), key, true).0
  }

  /** The nodes the predicate accepts, in the order visited. */
  function Hits(ws: seq<Visit>, cb: Callback): (r: seq<Val>)
    ensures forall x :: x in r ==> Hit(cb, x)
    ensures forall i :: 0 <= i < |ws| && Hit(cb, ws[i].node) ==> ws[i].node in r
  {
    if ws == [] then []
    else
      var rest := Hits(ws[1..], cb);
      assert forall i :: 0 < i < |ws| ==> ws[i] == ws[1..][i - 1];
      (if Hit(cb, ws[0].node) then [ws[0].node] else []) + rest
  }

  /** findTreeNodes' callback: push each hit, answer undefined. */
  function PushHit(cb: Callback): (seq<Val>, Visit) -> seq<Val> {
    (s: seq<Val>, w: Visit) => if Hit(cb, w.node) then s + [w.node] else s
  }

  lemma {:induction false} FoldHits(s: seq<Val>, ws: seq<Visit>, cb: Callback)
    ensures FoldVisits(PushHit(cb), s, ws) == s + Hits(ws, cb)
    decreases |ws|
  {
    if ws != [] {
      FoldHits(PushHit(cb)(s, ws[0]), ws[1..], cb);
      if Hit(cb, ws[0].node) {
        assert s + [ws[0].node] + Hits(ws[1..], cb) == s + ([ws[0].node] + Hits(ws[1..], cb));
      } else {
        assert [] + Hits(ws[1..], cb) == Hits(ws[1..], cb);
      }
    } else {
      assert s + [] == s;
    }
  }

  /** `findTreeNodes(treeNodes, predicate, options)`: every node the predicate accepts, in
      preorder. */
  method FindTreeNodes(treeNodes: Val, pred: Arg, childrenKey: string) returns (nodes: seq<Val>)
    ensures nodes == Hits(Preorder(treeNodes, ChildrenKey(childrenKey)), Iteratee(pred))
  {
    var cb := Iteratee(pred);
    nodes := WalkTree(treeNodes, Decided(PushHit(cb), NoDecision()), childrenKey, []);
    WalkVisitsAll(treeNodes, [], PushHit(cb), NoDecision(), ChildrenKey(childrenKey), false);
    FoldHits([], Preorder(treeNodes, ChildrenKey(childrenKey)), cb);
  }

  /** The predicate `node => node !== a`. */
  function Other(a: Val): Callback {
    (v: Val, k: Val) => Bool(v != a)
  }

  /** The tree [A, C] with B the only child of A. A callback that answers `false` at B ends
      the whole walk only when the abort is passed up. findTreeNode as written therefore
      goes on to C and returns it, although B is the first node in preorder that the
      predicate accepts. */
  lemma FindTreeNodeExample(a: Val, b: Val, c: Val)
    requires b == Obj([("id", Num(2))]) && c == Obj([("id", Num(3))])
    requires a == Obj([("id", Num(1)), ("children", Arr([b]))])
    ensures Preorder(Arr([a, c]), "children") == [Visit(Undef, a, []), Visit(a, b, [a]), Visit(Undef, c, [])]
    ensures WalkVal(Arr([a, c]), Undef, [], Undef, FindVisitor(Other(a)), "children", false).0 == c
    ensures FindTreeNodeFixed(Arr([a, c]), Fun(Other(a)), "") == b
  {
    ExampleFields(a, b, c);
    ExamplePreorder(a, b, c);
    ExampleAsWritten(a, b, c);
    ExampleFixed(a, b, c);
  }

  lemma ExampleFixed(a: Val, b: Val, c: Val)
    requires a != b
    requires Preorder(Arr([a, c]), "children") == [Visit(Undef, a, []), Visit(a, b, [a]), Visit(Undef, c, [])]
    ensures FindTreeNodeFixed(Arr([a, c]), Fun(Other(a)), "") == b
  {
    var ws := Preorder(Arr([a, c]), "children");
    assert Hit(Other(a), ws[1].node) && !Hit(Other(a), ws[0].node);
    assert ChildrenKey("") == "children" && Iteratee(Fun(Other(a))) == Other(a);
    FirstHitSecond(ws, Other(a));
  }

  lemma FirstHitSecond(ws: seq<Visit>, cb: Callback)
    requires |ws| >= 2 && !Hit(cb, ws[0].node) && Hit(cb, ws[1].node)
    ensures FirstHit(ws, cb) == ws[1].node
  {
    assert ws[1..][0] == ws[1];
  }

  lemma ExampleFields(a: Val, b: Val, c: Val)
    requires b == Obj([("id", Num(2))]) && c == Obj([("id", Num(3))])
    requires a == Obj([("id", Num(1)), ("children", Arr([b]))])
    ensures Field(a, "children") == Arr([b]) && !IsEmpty(Arr([b]))
    ensures Field(b, "children") == Undef && Field(c, "children") == Undef
    ensures a != b && a != c
  {
    assert a.props[1..] == [("children", Arr([b]))];
    assert Lookup(a.props, "children") == Some(Arr([b]));
    assert Lookup(b.props, "children") == None;
    assert Lookup(c.props, "children") == None;
  }

  lemma ExamplePreorder(a: Val, b: Val, c: Val)
    requires Field(a, "children") == Arr([b]) && !IsEmpty(Arr([b]))
    requires Field(b, "children") == Undef && Field(c, "children") == Undef
    ensures Preorder(Arr([a, c]), "children") == [Visit(Undef, a, []), Visit(a, b, [a]), Visit(Undef, c, [])]
  {
    var f := NoDecision();
    PreorderFirst(a, b, f);
    assert VisitsNode(c, Undef, [], "children", f) == [Visit(Undef, c, [])];
    assert VisitsNodes([c], Undef, [], "children", f) == [Visit(Undef, c, [])];
    assert [a, c][1..] == [c];
    assert VisitsNodes([a, c], Undef, [], "children", f) == VisitsNode(a, Undef, [], "children", f) + VisitsNodes([c], Undef, [], "children", f);
    assert Preorder(Arr([a, c]), "children") == VisitsNodes([a, c], Undef, [], "children", f);
  }

  lemma PreorderFirst(a: Val, b: Val, f: Visit -> Val)
    requires Field(a, "children") == Arr([b]) && !IsEmpty(Arr([b]))
    requires Field(b, "children") == Undef
    requires f == NoDecision()
    ensures VisitsNode(a, Undef, [], "children", f) == [Visit(Undef, a, []), Visit(a, b, [a])]
  {
    PreorderChild(a, b, f);
    assert NextChain(Undef, [], a) == [a];
    assert f(Visit(Undef, a, [])) == Undef;
  }

  lemma PreorderChild(a: Val, b: Val, f: Visit -> Val)
    requires Field(b, "children") == Undef
    requires f == NoDecision()
    ensures Visits(Arr([b]), a, [a], "children", f) == [Visit(a, b, [a])]
  {
    assert VisitsNode(b, a, [a], "children", f) == [Visit(a, b, [a])];
    assert VisitsNodes([b], a, [a], "children", f) == [Visit(a, b, [a])];
  }

  lemma ExampleAsWritten(a: Val, b: Val, c: Val)
    requires Field(a, "children") == Arr([b]) && !IsEmpty(Arr([b]))
    requires Field(b, "children") == Undef && Field(c, "children") == Undef
    requires a != b && a != c
    ensures WalkVal(Arr([a, c]), Undef, [], Undef, FindVisitor(Other(a)), "children", false).0 == c
  {
    var fv := FindVisitor(Other(a));
    AsWrittenFirst(a, b, fv);
    AsWrittenSecond(a, b, c, fv);
    assert [a, c][1..] == [c];
    assert WalkNodes([a, c], Undef, [], Undef, fv, "children", false) == (c, true);
  }

  lemma AsWrittenFirst(a: Val, b: Val, fv: Visitor<Val>)
    requires Field(a, "children") == Arr([b]) && !IsEmpty(Arr([b]))
    requires Field(b, "children") == Undef && a != b
    requires fv == FindVisitor(Other(a))
    ensures WalkNode(a, Undef, [], Undef, fv, "children", false) == (b, false)
  {
    assert fv(Undef, Visit(Undef, a, [])) == (Undef, Undef);
    AsWrittenChild(a, b, fv);
    assert NextChain(Undef, [], a) == [a];
  }

  lemma AsWrittenChild(a: Val, b: Val, fv: Visitor<Val>)
    requires Field(b, "children") == Undef && a != b
    requires fv == FindVisitor(Other(a))
    ensures WalkVal(Arr([b]), a, [a], Undef, fv, "children", false) == (b, true)
  {
    assert fv(Undef, Visit(a, b, [a])) == (b, Bool(false));
    assert WalkNode(b, a, [a], Undef, fv, "children", false) == (b, true);
    assert WalkNodes([b], a, [a], Undef, fv, "children", false) == (b, true);
  }

  lemma AsWrittenSecond(a: Val, b: Val, c: Val, fv: Visitor<Val>)
    requires Field(c, "children") == Undef && a != c
    requires fv == FindVisitor(Other(a))
    ensures WalkNodes([c], Undef, [], b, fv, "children", false) == (c, true)
  {
    assert fv(b, Visit(Undef, c, [])) == (c, Bool(false));
    assert WalkNode(c, Undef, [], b, fv, "children", false) == (c, true);
  }

  /** The tree [A, undefined] with B the only child of A, searched with `node => node !== A`:
      B is accepted first and aborts only its own level, so the walk goes on to the
      undefined entry, which is accepted too, and findTreeNode as written returns undefined
      although an accepted node was found. */
  lemma FindTreeNodeLaterUndef(a: Val, b: Val)
    requires b == Obj([("id", Num(2))])
    requires a == Obj([("id", Num(1)), ("children", Arr([b]))])
    ensures Preorder(Arr([a, Undef]), "children") == [Visit(Undef, a, []), Visit(a, b, [a]), Visit(Undef, Undef, [])]
    ensures Hit(Other(a), b)
    ensures WalkVal(Arr([a, Undef]), Undef, [], Undef, FindVisitor(Other(a)), "children", false).0 == Undef
  {
    ExampleFields(a, b, Obj([("id", Num(3))]));
    assert Field(Undef, "children") == Undef;
    ExamplePreorder(a, b, Undef);
    ExampleAsWritten(a, b, Undef);
  }

  // ---------------------------------------------------------------------------
  // filterTree (src/tree.ts:464-494)

  /** `c.forEach(node => { if (!includes(nodes, node)) nodes.push(node) })`. The chain's
      nodes are objects and are compared by value here. */
  function AddMissing(nodes: seq<Val>, c: seq<Val>): (r: seq<Val>)
    ensures |nodes| <= |r| && r[..|nodes|] == nodes
    ensures forall x :: x in c ==> x in r
    ensures forall x :: x in r ==> x in nodes || x in c
    decreases |c|
  {
    if c == [] then nodes
    else
      var next := if c[0] in nodes then nodes else nodes + [c[0]];
      var r := AddMissing(next, c[1..]);
      assert r[..|nodes|] == next[..|nodes|];
      assert c[0] in next && next == r[..|next|];
      assert c[0] in r;
      assert forall x :: x in c ==> x == c[0] || x in c[1..];
      r
  }

  /** filterTree's callback: on a hit, first the chain's nodes not yet collected, then the
      node itself. */
  function Gather(cb: Callback): (seq<Val>, Visit) -> seq<Val> {
    (s: seq<Val>, w: Visit) => if Hit(cb, w.node) then AddMissing(s, w.chain) + [w.node] else s
  }

  /** The property `k` of the copy `cloneWith(item, (v, k) => k === childrenKey ? null : v)`
      makes of an object: the same keys, null under the children key. */
  function DetachProps(props: seq<(string, Val)>, key: string): (r: seq<(string, Val)>)
    ensures Keys(r) == Keys(props)
    ensures forall k :: Lookup(r, k) == if k == key && Lookup(props, k).Some? then Some(Null) else Lookup(props, k)
  {
    if props == [] then []
    else [(props[0].0, if props[0].0 == key then Null else props[0].1)] + DetachProps(props[1..], key)
  }

  /** The copy of a collected node. cloneWith returns values that are not objects as they
      are, and an array's index keys copy its items. */
  function Detach(item: Val, key: string): (r: Val)
    ensures item.Obj? ==> r.Obj? && Keys(r.props) == Keys(item.props)
    ensures item.Obj? ==> forall k :: Prop(r.props, k) == if k == key && k in Keys(item.props) then Null else Prop(item.props, k)
    ensures !item.Obj? ==> r == item
  {
    if item.Obj? then Obj(DetachProps(item.props, key)) else item
  }

  /** The nodes filterTree collects from the visits `ws`. */
  function Gathered(ws: seq<Visit>, cb: Callback): seq<Val> {
    FoldVisits(Gather(cb), [], ws)
  }

  /** `filterTree(treeNodes, predicate, options)`: the collected nodes, each copied with the
      children key set to null. */
  method FilterTree(treeNodes: Val, pred: Arg, childrenKey: string) returns (nodes: seq<Val>)
    ensures var g := Gathered(Preorder(treeNodes, ChildrenKey(childrenKey)), Iteratee(pred));
      |nodes| == |g| && forall i :: 0 <= i < |g| ==> nodes[i] == Detach(g[i], ChildrenKey(childrenKey))
  {
    var cb, key := Iteratee(pred), ChildrenKey(childrenKey);
    var raw := WalkTree(treeNodes, Decided(Gather(cb), NoDecision()), childrenKey, []);
    WalkVisitsAll(treeNodes, [], Gather(cb), NoDecision(), key, false);
    nodes := seq(|raw|, i requires 0 <= i < |raw| => Detach(raw[i], key));
  }

  /** What was collected stays where it is. */
  lemma {:induction false} GatherExtends(s: seq<Val>, ws: seq<Visit>, cb: Callback)
    ensures var r := FoldVisits(Gather(cb), s, ws); |s| <= |r| && r[..|s|] == s
    decreases |ws|
  {
    if ws != [] {
      var s1 := Gather(cb)(s, ws[0]);
      GatherExtends(s1, ws[1..], cb);
      var r := FoldVisits(Gather(cb), s1, ws[1..]);
      assert r[..|s|] == r[..|s1|][..|s|];
    }
  }

  /** Every node the predicate accepts is collected, and some occurrence of it comes after
      every node of its chain. */
  lemma {:induction false} GatherHits(s: seq<Val>, ws: seq<Visit>, cb: Callback, i: nat)
    requires i < |ws| && Hit(cb, ws[i].node)
    ensures var r := FoldVisits(Gather(cb), s, ws);
      exists j :: 0 <= j < |r| && r[j] == ws[i].node && forall x :: x in ws[i].chain ==> x in r[..j]
    decreases |ws|
  {
    var s1 := Gather(cb)(s, ws[0]);
    assert FoldVisits(Gather(cb), s, ws) == FoldVisits(Gather(cb), s1, ws[1..]);
    if i == 0 {
      GatherHitHere(s, ws, cb);
    } else {
      var w := ws[1..];
      assert w[i - 1] == ws[i];
      GatherHits(s1, w, cb, i - 1);
    }
  }

  lemma GatherHitHere(s: seq<Val>, ws: seq<Visit>, cb: Callback)
    requires ws != [] && Hit(cb, ws[0].node)
    ensures var r := FoldVisits(Gather(cb), Gather(cb)(s, ws[0]), ws[1..]);
      exists j :: 0 <= j < |r| && r[j] == ws[0].node && forall x :: x in ws[0].chain ==> x in r[..j]
  {
    var m := AddMissing(s, ws[0].chain);
    var s1 := m + [ws[0].node];
    assert Gather(cb)(s, ws[0]) == s1;
    var r := FoldVisits(Gather(cb), s1, ws[1..]);
    GatherExtends(s1, ws[1..], cb);
    var j := |m|;
    assert r[..|s1|] == s1;
    assert r[j] == s1[j] == ws[0].node;
    assert r[..j] == m by {
      assert r[..j] == r[..|s1|][..j];
    }
  }

  /** Nothing but hits and the nodes of their chains is collected. */
  lemma {:induction false} GatherOnly(s: seq<Val>, ws: seq<Visit>, cb: Callback, x: Val)
    requires x in FoldVisits(Gather(cb), s, ws)
    ensures x in s || exists i :: 0 <= i < |ws| && Hit(cb, ws[i].node) && (x == ws[i].node || x in ws[i].chain)
    decreases |ws|
  {
    if ws != [] {
      var s1 := Gather(cb)(s, ws[0]);
      GatherOnly(s1, ws[1..], cb, x);
      if x in s1 && x !in s {
        assert Hit(cb, ws[0].node) && (x == ws[0].node || x in ws[0].chain);
      } else if x !in s1 {
        var i :| 0 <= i < |ws[1..]| && Hit(cb, ws[1..][i].node) && (x == ws[1..][i].node || x in ws[1..][i].chain);
        assert ws[1..][i] == ws[i + 1];
      }
    }
  }

  /** filterTree collects every node the predicate accepts, each behind all of its
      ancestors, and nothing else but those ancestors. */
  lemma FilterTreeMeaning(v: Val, key: string, cb: Callback)
    ensures var ws, g := Preorder(v, key), Gathered(Preorder(v, key), cb);
      (forall i :: 0 <= i < |ws| && Hit(cb, ws[i].node) ==>
        exists j :: 0 <= j < |g| && g[j] == ws[i].node && forall x :: x in ws[i].chain ==> x in g[..j]) &&
      (forall x :: x in g ==> exists i :: 0 <= i < |ws| && Hit(cb, ws[i].node) && (x == ws[i].node || x in ws[i].chain))
  {
    var ws := Preorder(v, key);
    forall i | 0 <= i < |ws| && Hit(cb, ws[i].node)
      ensures var g := Gathered(ws, cb);
        exists j :: 0 <= j < |g| && g[j] == ws[i].node && forall x :: x in ws[i].chain ==> x in g[..j]
    {
      GatherHits([], ws, cb, i);
    }
    forall x | x in Gathered(ws, cb)
      ensures exists i :: 0 <= i < |ws| && Hit(cb, ws[i].node) && (x == ws[i].node || x in ws[i].chain)
    {
      GatherOnly([], ws, cb, x);
    }
  }

  // ---------------------------------------------------------------------------
  // sortTree (src/tree.ts:271-291)

  /** The nodes as sort items: each keyed by itself, numbered by position. */
  function Ranked(data: seq<Val>): (r: seq<Coll.Item>)
    ensures |r| == |data| && forall i :: 0 <= i < |data| ==> r[i] == Coll.Item(data[i], i, data[i])
  {
    seq(|data|, i requires 0 <= i < |data| => Coll.Item(data[i], i, data[i]))
  }

  /** `data.sort((a, b) => comparator(a, b))`, the comparator being `rank(a) - rank(b)`:
      a rearrangement of the nodes in rank order. The sort is stable: it orders the
      numbered items by rank and then by position. */
  function SortNodes(data: seq<Val>, rank: Val -> int): (r: seq<Val>)
    ensures multiset(r) == multiset(data)
    ensures forall i, j :: 0 <= i < j < |r| ==> rank(r[i]) <= rank(r[j])
  {
    var items := Ranked(data);
    var sorted := Coll.InsertionSort(items, rank);
    Coll.SortSorted(items, rank);
    var src := (it: Coll.Item) => it.src;
    Coll.SortProject(items, rank, src);
    assert Coll.Project(items, src) == data;
    forall i | 0 <= i < |sorted|
      ensures sorted[i].key == sorted[i].src
    {
      assert sorted[i] in multiset(items);
    }
    Coll.Project(sorted, src)
  }

  /** `node[key] = x`, in place; the node is an object. */
  function PutField(node: Val, key: string, x: Val): (r: Val)
    ensures node.Obj? ==> Field(r, key) == x
  {
    if node.Obj? then
      var props := Put(node.props, key, x);
      assert key in Keys(props) by {
        assert Lookup(props, key) == Some(x);
      }
      Obj(props)
    else node
  }

  /** The nodes after `sortTree(treeNodes, comparator, {childrenKey: key})`: this level
      sorted, then each node's non-empty children sorted by the nested call, which looks
      for them under `next`. */
  function SortLevel(v: Val, rank: Val -> int, key: string, next: string): Val
    decreases v, 1
  {
    if v.Arr? then
      var sorted := SortNodes(v.items, rank);
      assert forall i :: 0 <= i < |sorted| ==> sorted[i] in multiset(v.items);
      Arr(seq(|sorted|, i requires 0 <= i < |sorted| => SortBelow(sorted[i], rank, key, next)))
    else SortBelow(v, rank, key, next)
  }

  /** `if (!isEmpty(node[key])) sortTree(node[key], comparator)`. */
  function SortBelow(node: Val, rank: Val -> int, key: string, next: string): Val
    decreases node, 0
  {
    var kids := Field(node, key);
    if IsEmpty(kids) then node else PutField(node, key, SortLevel(kids, rank, next, next))
  }

  /** `sortTree` as written: the nested call is not given the options, so below the first
      level the children are looked for under 'children'. */
  function SortTreeAsWritten(treeNodes: Val, rank: Val -> int, childrenKey: string): Val {
    SortLevel(treeNodes, rank, ChildrenKey(childrenKey), "children")
  }

  /** `sortTree` with the options passed down, so every level uses the children key. */
  function SortTree(treeNodes: Val, rank: Val -> int, childrenKey: string): Val {
    SortLevel(treeNodes, rank, ChildrenKey(childrenKey), ChildrenKey(childrenKey))
  }

  /** Every level is in rank order: the nodes of this call and, under each of them, its
      non-empty children. */
  predicate SortedAt(v: Val, rank: Val -> int, key: string)
    decreases v, 1
  {
    var data := NodesOf(v);
    (forall i, j :: 0 <= i < j < |data| ==> rank(data[i]) <= rank(data[j])) &&
    (forall i :: 0 <= i < |data| ==> SortedBelow(data[i], rank, key))
  }

  predicate SortedBelow(node: Val, rank: Val -> int, key: string)
    decreases node, 0
  {
    var kids := Field(node, key);
    IsEmpty(kids) || SortedAt(kids, rank, key)
  }

  /** With a comparator that does not look at the children, the corrected sortTree leaves
      every level of the tree in order. */
  lemma {:induction false} SortTreeSorted(v: Val, rank: Val -> int, key: string)
    requires forall n, x :: rank(PutField(n, key, x)) == rank(n)
    ensures SortedAt(SortLevel(v, rank, key, key), rank, key)
    decreases v, 1
  {
    var r := SortLevel(v, rank, key, key);
    if v.Arr? {
      var sorted := SortNodes(v.items, rank);
      assert forall i :: 0 <= i < |sorted| ==> sorted[i] in multiset(v.items);
      var data := NodesOf(r);
      assert |data| == |sorted|;
      forall i | 0 <= i < |data|
        ensures data[i] == SortBelow(sorted[i], rank, key, key)
        ensures rank(data[i]) == rank(sorted[i]) && SortedBelow(data[i], rank, key)
      {
        SortBelowSorted(sorted[i], rank, key);
      }
    } else {
      SortBelowSorted(v, rank, key);
    }
  }

  lemma {:induction false} SortBelowSorted(node: Val, rank: Val -> int, key: string)
    requires forall n, x :: rank(PutField(n, key, x)) == rank(n)
    ensures var r := SortBelow(node, rank, key, key); rank(r) == rank(node) && SortedBelow(r, rank, key)
    decreases node, 0
  {
    var kids := Field(node, key);
    if !IsEmpty(kids) {
      SortTreeSorted(kids, rank, key);
      assert node.Obj?;
    }
  }

  /** The comparator `(a, b) => n(a) - n(b)` with n(p1) = 1, n(p2) = 2 and 0 elsewhere. */
  function RankOf(p1: Val, p2: Val): Val -> int {
    (v: Val) => if v == p1 then 1 else if v == p2 then 2 else 0
  }

  /** With the children key 'items', sortTree as written sorts the first level's children
      but not theirs: [{items: [{items: [p2, p1]}]}] comes back as it was, where the
      corrected sortTree puts p1 first. */
  lemma SortTreeExample(p1: Val, p2: Val, x: Val, a: Val)
    requires p1 == Obj([("n", Num(1))]) && p2 == Obj([("n", Num(2))])
    requires x == Obj([("items", Arr([p2, p1]))]) && a == Obj([("items", Arr([x]))])
    ensures SortTreeAsWritten(Arr([a]), RankOf(p1, p2), "items") == Arr([a])
    ensures SortTree(Arr([a]), RankOf(p1, p2), "items") == Arr([Obj([("items", Arr([Obj([("items", Arr([p1, p2]))])]))])])
  {
    ExampleSortFields(p1, p2, x, a);
    PutFieldOfSingle("items", Arr([x]), Arr([x]));
    ExampleSortAsWritten(p1, p2, x, a);
    ExampleSortFixed(p1, p2, x, a);
  }

  lemma ExampleSortFields(p1: Val, p2: Val, x: Val, a: Val)
    requires p1 == Obj([("n", Num(1))]) && p2 == Obj([("n", Num(2))])
    requires x == Obj([("items", Arr([p2, p1]))]) && a == Obj([("items", Arr([x]))])
    ensures Field(a, "items") == Arr([x]) && Field(x, "items") == Arr([p2, p1]) && Field(x, "children") == Undef
    ensures Field(p1, "items") == Undef && Field(p2, "items") == Undef
    ensures !IsEmpty(Arr([x])) && !IsEmpty(Arr([p2, p1]))
    ensures RankOf(p1, p2)(p1) < RankOf(p1, p2)(p2)
  {
    FieldOfSingle("items", Arr([x]), "items");
    FieldOfSingle("items", Arr([p2, p1]), "items");
    FieldOfSingle("items", Arr([p2, p1]), "children");
    FieldOfSingle("n", Num(1), "items");
    FieldOfSingle("n", Num(2), "items");
    NonEmptyArrays(x, p2, p1);
    assert p1.props[0].1 != p2.props[0].1;
    RankOrder(p1, p2);
  }

  lemma RankOrder(p1: Val, p2: Val)
    requires p1 != p2
    ensures RankOf(p1, p2)(p1) < RankOf(p1, p2)(p2)
  {
  }

  /** The field of a one-property object. */
  lemma FieldOfSingle(k: string, w: Val, f: string)
    ensures Field(Obj([(k, w)]), f) == if f == k then w else Undef
  {
    assert [(k, w)][1..] == [];
  }

  /** Overwriting the one property of a one-property object. */
  lemma PutFieldOfSingle(k: string, w: Val, v: Val)
    ensures PutField(Obj([(k, w)]), k, v) == Obj([(k, v)])
  {
  }

  lemma NonEmptyArrays(x: Val, y: Val, z: Val)
    ensures !IsEmpty(Arr([x])) && !IsEmpty(Arr([y, z]))
  {
  }

  lemma ExampleSortAsWritten(p1: Val, p2: Val, x: Val, a: Val)
    requires Field(a, "items") == Arr([x]) && Field(x, "children") == Undef && !IsEmpty(Arr([x]))
    requires PutField(a, "items", Arr([x])) == a
    ensures SortTreeAsWritten(Arr([a]), RankOf(p1, p2), "items") == Arr([a])
  {
    var rank := RankOf(p1, p2);
    SortLevelSingle(x, rank, "children", "children");
    assert SortBelow(x, rank, "children", "children") == x;
    assert SortBelow(a, rank, "items", "children") == a;
    SortLevelSingle(a, rank, "items", "children");
  }

  lemma ExampleSortFixed(p1: Val, p2: Val, x: Val, a: Val)
    requires Field(a, "items") == Arr([x]) && Field(x, "items") == Arr([p2, p1])
    requires Field(p1, "items") == Undef && Field(p2, "items") == Undef
    requires !IsEmpty(Arr([x])) && !IsEmpty(Arr([p2, p1])) && RankOf(p1, p2)(p1) < RankOf(p1, p2)(p2)
    requires x == Obj([("items", Arr([p2, p1]))]) && a == Obj([("items", Arr([x]))])
    ensures SortTree(Arr([a]), RankOf(p1, p2), "items") == Arr([Obj([("items", Arr([Obj([("items", Arr([p1, p2]))])]))])])
  {
    var rank := RankOf(p1, p2);
    PutFieldOfSingle("items", Arr([p2, p1]), Arr([p1, p2]));
    PutFieldOfSingle("items", Arr([x]), Arr([Obj([("items", Arr([p1, p2]))])]));
    SortLevelPair(p2, p1, rank, "items", "items");
    assert SortBelow(p1, rank, "items", "items") == p1 && SortBelow(p2, rank, "items", "items") == p2;
    var x' := Obj([("items", Arr([p1, p2]))]);
    assert SortBelow(x, rank, "items", "items") == x';
    SortLevelSingle(x, rank, "items", "items");
    var a' := Obj([("items", Arr([x']))]);
    assert SortBelow(a, rank, "items", "items") == a';
    SortLevelSingle(a, rank, "items", "items");
  }

  lemma SortLevelSingle(x: Val, rank: Val -> int, key: string, next: string)
    ensures SortLevel(Arr([x]), rank, key, next) == Arr([SortBelow(x, rank, key, next)])
  {
    var r := SortNodes([x], rank);
    assert multiset(r) == multiset{x};
    assert |r| == 1;
    assert r[0] in multiset(r);
  }

  lemma SortLevelPair(a: Val, b: Val, rank: Val -> int, key: string, next: string)
    requires rank(b) < rank(a)
    ensures SortLevel(Arr([a, b]), rank, key, next) == Arr([SortBelow(b, rank, key, next), SortBelow(a, rank, key, next)])
  {
    var r := SortNodes([a, b], rank);
    assert multiset(r) == multiset{a, b};
    assert |r| == 2 && r == [r[0], r[1]];
    assert multiset{r[0], r[1]} == multiset{a, b};
    assert rank(r[0]) <= rank(r[1]);
    assert r[0] == b && r[1] == a;
  }

  // ---------------------------------------------------------------------------
  // closest (src/tree.ts:504-521)

  /** The nodes `closest` may look at: the node, its `parentKey` node, and so on while
      they are truthy. */
  function Ancestry(node: Val, parentKey: string): (c: seq<Val>)
    ensures forall i :: 0 <= i < |c| ==> Truthy(c[i])
    ensures Truthy(node) ==> c != [] && c[0] == node
    ensures !Truthy(node) ==> c == []
    ensures forall i :: 0 <= i < |c| - 1 ==> c[i + 1] == Field(c[i], parentKey)
    ensures c != [] ==> !Truthy(Field(c[|c| - 1], parentKey))
    decreases node
  {
    if !Truthy(node) then []
    else
      var up := Field(node, parentKey);
      if up == Undef then [node] else [node] + Ancestry(up, parentKey)
  }

  /** After a truthy node, its ancestry goes on with its `parentKey` node. */
  lemma AncestryNext(node: Val, parentKey: string)
    requires Truthy(node)
    ensures Ancestry(node, parentKey)[1..] == Ancestry(Field(node, parentKey), parentKey)
  {
  }

  /** The predicate: given a node and how many nodes went before, whether it accepts the
      node and whether it called `cancel`. */
  type Probe = (Val, nat) -> (bool, bool)

  /** The first node from position `i` on that the predicate accepts, unless it called
      `cancel` on an earlier node; null otherwise. */
  function ClosestFrom(c: seq<Val>, probe: Probe, i: nat): (t: Val)
    ensures t != Null ==>
      exists j :: i <= j < |c| && t == c[j] && probe(c[j], j).0 && forall k :: i <= k < j ==> !probe(c[k], k).0 && !probe(c[k], k).1
    ensures (forall j :: i <= j < |c| && probe(c[j], j).0 ==> exists k :: i <= k < j && probe(c[k], k).1) ==> t == Null
    ensures (forall j :: i <= j < |c| ==> Truthy(c[j])) && t == Null ==>
      forall j :: i <= j < |c| && probe(c[j], j).0 ==> exists k :: i <= k < j && probe(c[k], k).1
    decreases |c| - i
  {
    if i >= |c| then Null
    else if probe(c[i], i).0 then c[i]
    else if probe(c[i], i).1 then Null
    else ClosestFrom(c, probe, i + 1)
  }

  /** `closest(node, predicate, parentKey)`. */
  method Closest(node: Val, probe: Probe, parentKey: string) returns (t: Val)
    ensures t == ClosestFrom(Ancestry(node, parentKey), probe, 0)
  {
    ghost var c := Ancestry(node, parentKey);
    var p := node;
    t := Null;
    var k := true;
    var i := 0;
    while k && Truthy(p)
      invariant i <= |c| && Ancestry(p, parentKey) == c[i..]
      invariant t == Null
      invariant ClosestFrom(c, probe, 0) == if k then ClosestFrom(c, probe, i) else Null
      decreases |Ancestry(p, parentKey)|
    {
      assert c[i] == p;
      var r := probe(p, i);
      if r.1 {
        k := false;
      }
      if r.0 {
        t := p;
        break;
      }
      AncestryNext(p, parentKey);
      assert c[i + 1..] == c[i..][1..];
      p := Field(p, parentKey);
      i := i + 1;
    }
  }
}
