/**
 * `toPath` of src/utils.ts: a property path given as a string, a number or an
 * array of segments becomes the list of its segments.
 */
module Paths {
  import opened JsValues

  /** Index of the first ']' in `s`, or |s|. */
  function CloseAt(s: string): (j: nat)
    ensures j <= |s| && (j < |s| ==> s[j] == ']') && forall i :: 0 <= i < j ==> s[i] != ']'
  {
    if s == [] then 0 else if s[0] == ']' then 0 else 1 + CloseAt(s[1..])
  }

  /** `s.replace(/\[([^\]]+)\]/gm, '.$1')`: every bracket group with a non-empty inside
      becomes a dot followed by the inside; matching resumes after the group. */
  function ExpandBrackets(s: string): (r: string)
    ensures '[' !in s ==> r == s
    decreases |s|
  {
    if s == [] then []
    else if s[0] == '[' && 1 <= CloseAt(s[1..]) < |s| - 1 then
      var j := CloseAt(s[1..]);
      "." + s[1..1 + j] + ExpandBrackets(s[2 + j..])
    else
      [s[0]] + ExpandBrackets(s[1..])
  }

  /** `s.replace(/^\./g, '')`: the anchor matches once, so one leading dot goes. */
  function StripLeadingDot(s: string): (r: string)
    ensures s != [] && s[0] == '.' ==> r == s[1..]
    ensures (s == [] || s[0] != '.') ==> r == s
  {
    if s != [] && s[0] == '.' then s[1..] else s
  }

  /** `s.split('.')`. */
  function SplitDots(s: string): (r: seq<string>)
    ensures |r| >= 1
  {
    if s == [] then [""]
    else if s[0] == '.' then [""] + SplitDots(s[1..])
    else
      var t := SplitDots(s[1..]);
      [[s[0]] + t[0]] + t[1..]
  }

  /** `toPath(path)` (src/utils.ts:101-115): an array is joined with '.', anything else
      converted with `+ ''`; then brackets become dots, one leading dot goes, and the
      string is split at the dots. */
  function ToPath(path: Val): (r: seq<string>)
    ensures |r| >= 1
  {
    var chain := if path.Arr? then ArrayJoin(path.items, ".") else ToJsString(path);
    SplitDots(StripLeadingDot(ExpandBrackets(chain)))
  }

  /** A path segment that needs no parsing. */
  predicate PlainSegment(k: string) {
    k != [] && '.' !in k && '[' !in k && ']' !in k
  }

  lemma {:induction false} JoinCons(a: string, ps: seq<string>, sep: string)
    requires ps != []
    ensures Join([a] + ps, sep) == a + sep + Join(ps, sep)
    decreases |ps|
  {
    var qs := [a] + ps;
    if |ps| > 1 {
      JoinCons(a, ps[..|ps| - 1], sep);
      assert qs[..|qs| - 1] == [a] + ps[..|ps| - 1];
    } else {
      assert qs[..|qs| - 1] == [a];
    }
  }

  /** Prefixing the first segment prefixes the join. */
  lemma JoinPrefixHead(c: char, t: seq<string>)
    requires t != []
    ensures Join([[c] + t[0]] + t[1..], ".") == [c] + Join(t, ".")
  {
    if |t| > 1 {
      JoinCons(t[0], t[1..], ".");
      JoinCons([c] + t[0], t[1..], ".");
      assert [t[0]] + t[1..] == t;
    }
  }

  /** A leading empty segment is a leading dot. */
  lemma JoinEmptyHead(t: seq<string>)
    requires t != []
    ensures Join([""] + t, ".") == "." + Join(t, ".")
  {
    JoinCons("", t, ".");
  }

  /** Splitting at the dots and joining with '.' gives the string back. */
  lemma {:induction false} SplitJoin(s: string)
    ensures Join(SplitDots(s), ".") == s
    decreases |s|
  {
    if s == [] {
    } else if s[0] == '.' {
      SplitJoin(s[1..]);
      JoinEmptyHead(SplitDots(s[1..]));
      assert s == "." + s[1..];
    } else {
      SplitJoin(s[1..]);
      JoinPrefixHead(s[0], SplitDots(s[1..]));
      assert s == [s[0]] + s[1..];
    }
  }

  /** No segment of a split contains a dot. */
  lemma {:induction false} SplitNoDots(s: string)
    ensures forall i :: 0 <= i < |SplitDots(s)| ==> '.' !in SplitDots(s)[i]
    decreases |s|
  {
    if s != [] {
      SplitNoDots(s[1..]);
    }
  }

  /** Splitting the join of dot-free, non-empty segments gives the segments back. */
  lemma {:induction false} JoinSplit(ks: seq<string>)
    requires ks != []
    requires forall i :: 0 <= i < |ks| ==> ks[i] != [] && '.' !in ks[i]
    ensures SplitDots(Join(ks, ".")) == ks
    decreases |ks|
  {
    if |ks| == 1 {
      SplitNoDot(ks[0]);
    } else {
      JoinCons(ks[0], ks[1..], ".");
      JoinSplit(ks[1..]);
      SplitPrefix(ks[0], Join(ks[1..], "."));
      assert [ks[0]] + ks[1..] == ks;
    }
  }

  lemma {:induction false} SplitNoDot(k: string)
    requires '.' !in k
    ensures SplitDots(k) == [k]
    decreases |k|
  {
    if k != [] {
      SplitNoDot(k[1..]);
      assert [k[0]] + k[1..] == k;
    }
  }

  lemma {:induction false} SplitPrefix(k: string, rest: string)
    requires '.' !in k
    ensures SplitDots(k + "." + rest) == [k] + SplitDots(rest)
    decreases |k|
  {
    if k == [] {
      assert k + "." + rest == "." + rest;
      assert ("." + rest)[1..] == rest;
    } else {
      var s := k + "." + rest;
      assert s[0] == k[0];
      assert s[1..] == k[1..] + "." + rest;
      SplitPrefix(k[1..], rest);
      assert [k[0]] + k[1..] == k;
    }
  }

  lemma {:induction false} NoBracketUnchanged(s: string)
    requires '[' !in s
    ensures ExpandBrackets(s) == s
  {
  }

  /** An array of plain segments is its own path. */
  lemma {:induction false} ToPathOfSegments(ks: seq<string>)
    requires ks != []
    requires forall i :: 0 <= i < |ks| ==> PlainSegment(ks[i])
    ensures ToPath(Arr(seq(|ks|, i requires 0 <= i < |ks| => Str(ks[i])))) == ks
  {
    var items := seq(|ks|, i requires 0 <= i < |ks| => Str(ks[i]));
    var parts := seq(|items|, i requires 0 <= i < |items| => ElemString(items[i]));
    forall i | 0 <= i < |ks|
      ensures parts[i] == ks[i]
    {
      assert ElemString(Str(ks[i])) == ks[i];
    }
    assert parts == ks;
    var j := Join(ks, ".");
    JoinSplit(ks);
    JoinNoBracket(ks);
    assert j[0] == ks[0][0] by { JoinHead(ks); }
  }

  lemma {:induction false} JoinHead(ks: seq<string>)
    requires ks != [] && ks[0] != []
    ensures Join(ks, ".") != [] && Join(ks, ".")[0] == ks[0][0]
    decreases |ks|
  {
    if |ks| > 1 {
      JoinHead(ks[..|ks| - 1]);
    }
  }

  lemma {:induction false} JoinNoBracket(ks: seq<string>)
    requires forall i :: 0 <= i < |ks| ==> '[' !in ks[i]
    ensures '[' !in Join(ks, ".")
    decreases |ks|
  {
    if |ks| > 1 {
      JoinNoBracket(ks[..|ks| - 1]);
    }
  }

  /** A plain key string is a one-segment path. */
  lemma ToPathOfPlain(k: string)
    requires PlainSegment(k)
    ensures ToPath(Str(k)) == [k]
  {
    NoBracketUnchanged(k);
    SplitNoDot(k);
  }

  /** A number is a one-segment path: toPath(1) is ['1']. */
  lemma ToPathOfNumber()
    ensures ToPath(Num(1)) == ["1"]
  {
    assert IntToStr(1) == "1";
  }

  lemma {:induction false} ExpandPlain(p: string, rest: string)
    requires '[' !in p
    ensures ExpandBrackets(p + rest) == p + ExpandBrackets(rest)
    decreases |p|
  {
    if p != [] {
      var s := p + rest;
      assert s[0] == p[0] && p[0] != '[';
      assert s[1..] == p[1..] + rest;
      assert ExpandBrackets(s) == [s[0]] + ExpandBrackets(s[1..]);
      ExpandPlain(p[1..], rest);
      assert [p[0]] + p[1..] == p;
      assert [p[0]] + (p[1..] + ExpandBrackets(rest)) == p + ExpandBrackets(rest);
    } else {
      assert p + rest == rest;
    }
  }

  lemma ExpandGroup(inner: string, rest: string)
    requires inner != [] && ']' !in inner
    ensures ExpandBrackets("[" + inner + "]" + rest) == "." + inner + ExpandBrackets(rest)
  {
    var s := "[" + inner + "]" + rest;
    var t := s[1..];
    assert t == inner + "]" + rest;
    CloseAtOf(inner, rest);
    assert s[1..1 + |inner|] == inner;
    assert s[2 + |inner|..] == rest;
  }

  lemma {:induction false} CloseAtOf(inner: string, rest: string)
    requires ']' !in inner
    ensures CloseAt(inner + "]" + rest) == |inner|
    decreases |inner|
  {
    if inner != [] {
      assert (inner + "]" + rest)[1..] == inner[1..] + "]" + rest;
      CloseAtOf(inner[1..], rest);
    }
  }

  lemma SplitFour(a: string, b: string, c: string, d: string)
    requires '.' !in a && '.' !in b && '.' !in c && '.' !in d
    ensures SplitDots(a + "." + b + "." + c + "." + d) == [a, b, c, d]
  {
    assert a + "." + b + "." + c + "." + d == a + "." + (b + "." + (c + "." + d));
    SplitPrefix(a, b + "." + (c + "." + d));
    SplitPrefix(b, c + "." + d);
    SplitPrefix(c, d);
    SplitNoDot(d);
  }

  /** One bracket group between bracket-free parts becomes a dot-separated segment. */
  lemma ExpandOneGroup(p: string, inner: string, q: string)
    requires '[' !in p && '[' !in q && inner != [] && ']' !in inner
    ensures ExpandBrackets(p + "[" + inner + "]" + q) == p + "." + inner + q
  {
    assert p + "[" + inner + "]" + q == p + ("[" + inner + "]" + q);
    ExpandPlain(p, "[" + inner + "]" + q);
    ExpandGroup(inner, q);
    NoBracketUnchanged(q);
  }

  lemma ExpandBracketString(s: string)
    requires s == "a.b[2].c"
    ensures ExpandBrackets(s) == "a.b.2.c"
  {
    BracketLiteral(s);
    ExpandOneGroup("a" + "." + "b", "2", "." + "c");
    ExpandedLiteral(ExpandBrackets(s));
  }

  lemma ExpandedLiteral(e: string)
    requires e == ("a" + "." + "b") + "." + "2" + ("." + "c")
    ensures e == "a.b.2.c"
  {
    assert "a" + "." + "b" == "a.b";
    assert "." + "c" == ".c";
  }

  /** toPath('a.b[2].c') is ['a', 'b', '2', 'c']. */
  lemma ToPathOfBracketString(s: string)
    requires s == "a.b[2].c"
    ensures ToPath(Str(s)) == ["a", "b", "2", "c"]
  {
    BracketLiteral(s);
    ToPathOneGroup("a", "b", "2", "c");
  }

  lemma BracketLiteral(s: string)
    requires s == "a.b[2].c"
    ensures s == ("a" + "." + "b") + "[" + "2" + "]" + ("." + "c")
  {
    assert "a" + "." + "b" == "a.b";
    assert "." + "c" == ".c";
    assert "a.b" + "[" + "2" + "]" + ".c" == s;
  }

  /** `a.b[c].d` is the path `[a, b, c, d]`. */
  lemma ToPathOneGroup(a: string, b: string, c: string, d: string)
    requires PlainSegment(a) && PlainSegment(b) && PlainSegment(c) && PlainSegment(d)
    ensures ToPath(Str((a + "." + b) + "[" + c + "]" + ("." + d))) == [a, b, c, d]
  {
    ExpandOneGroup(a + "." + b, c, "." + d);
    var e := a + "." + b + "." + c + ("." + d);
    assert e == a + "." + b + "." + c + "." + d;
    assert e[0] == a[0];
    SplitFour(a, b, c, d);
  }

  lemma JoinThree(a: string, b: string, c: string)
    ensures Join([a, b, c], ".") == a + "." + b + "." + c
  {
    assert [a, b, c][..2] == [a, b];
    assert [a, b][..1] == [a];
  }

  lemma ExpandBracketArray(s: string)
    requires s == "a.b.c[1]"
    ensures ExpandBrackets(s) == "a.b.c.1"
  {
    ExpandArrayGroup(s, "a.b.c", "1");
  }

  lemma ExpandArrayGroup(s: string, p: string, inner: string)
    requires s == "a.b.c[1]" && p == "a.b.c" && inner == "1"
    ensures ExpandBrackets(s) == "a.b.c.1"
  {
    assert '[' !in p;
    assert p + "[" + inner + "]" + "" == s;
    ExpandOneGroup(p, inner, "");
    assert p + "." + inner + "" == "a.b.c.1";
  }

  lemma JoinBracketArray(last: string)
    requires last == "c[1]"
    ensures ArrayJoin([Str("a"), Str("b"), Str(last)], ".") == "a.b.c[1]"
  {
    var items := [Str("a"), Str("b"), Str(last)];
    var parts := seq(|items|, i requires 0 <= i < |items| => ElemString(items[i]));
    assert ToJsString(Str(last)) == last;
    assert ElemString(items[2]) == last;
    assert parts[0] == "a" && parts[1] == "b" && parts[2] == last;
    assert parts == ["a", "b", last];
    JoinThree("a", "b", last);
  }

  lemma SplitBracketArray(j: string)
    requires j == "a.b.c[1]"
    ensures SplitDots(StripLeadingDot(ExpandBrackets(j))) == ["a", "b", "c", "1"]
  {
    ExpandBracketArray(j);
    var e := "a.b.c.1";
    assert StripLeadingDot(e) == e;
    assert e == "a" + "." + "b" + "." + "c" + "." + "1";
    SplitFour("a", "b", "c", "1");
  }

  /** toPath(['a', 'b', 'c[1]']) is ['a', 'b', 'c', '1']. */
  lemma ToPathOfBracketArray(path: Val)
    requires path == Arr([Str("a"), Str("b"), Str("c[1]")])
    ensures ToPath(path) == ["a", "b", "c", "1"]
  {
    var j := ArrayJoin(path.items, ".");
    JoinBracketArray("c[1]");
    SplitBracketArray(j);
  }

  /** Only one leading dot is stripped: toPath('..a') is ['', 'a']. */
  lemma ToPathStripsOneDot()
    ensures ToPath(Str("..a")) == ["", "a"]
  {
    NoBracketUnchanged("..a");
    assert StripLeadingDot("..a") == ".a";
    SplitPrefix("", "a");
    SplitNoDot("a");
  }
}
