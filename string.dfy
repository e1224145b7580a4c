/**
 * The string functions of src/string.ts: conversion, case of the first letter,
 * padding, repetition, substrings, literal replacement, regular-expression escaping
 * and truncation. Strings are sequences of UTF-16 code units; upper and lower case are
 * the ASCII letters only.
 */
module Strs {
  import opened JsValues
  import opened Num
  import opened Is

  // ---------------------------------------------------------------------------
  // toString (src/string.ts:33-37)

  /** `toString(v)`: '' for null and undefined, '-0' for minus zero, else `v.toString()`. */
  function ToStr(v: Val): string {
    if v == Undef || v == Null then ""
    else if v == NegZero then "-0"
    else ToJsString(v)
  }

  /** A string converts to itself, and a natural number to decimal digits that read back
      as the same number. */
  lemma ToStrRoundTrip(s: string, n: nat)
    ensures ToStr(Str(s)) == s
    ensures ToNumber(Str(ToStr(Num(n)))) == Fin(n as real)
  {
    var d := NatToStr(n);
    assert ToStr(Num(n)) == d by {
      assert ToJsString(Num(n)) == IntToStr(n);
    }
    ParseNatString(n);
  }

  /** Only null and undefined give the empty string among non-strings, and `-0` is the
      one place `toString` differs from string conversion. */
  lemma ToStrEmpty(v: Val)
    requires !v.Str? && !v.Arr?
    ensures ToStr(v) == "" <==> IsNil(v)
    ensures ToStr(v) != ToJsString(v) <==> IsNil(v) || v == NegZero
  {
    if v.Num? {
      var d := NatToStr(if v.n < 0 then -v.n else v.n);
      assert |d| >= 1;
    }
  }

  // ---------------------------------------------------------------------------
  // capitalize / upperFirst / lowerFirst (src/string.ts:54-58, 607-629)

  function UpperChar(c: char): char {
    if 'a' <= c <= 'z' then (c as int - 32) as char else c
  }

  function LowerChar(c: char): char {
    if 'A' <= c <= 'Z' then (c as int + 32) as char else c
  }

  predicate IsUpper(c: char) {
    !('a' <= c <= 'z')
  }

  predicate IsLower(c: char) {
    !('A' <= c <= 'Z')
  }

  /** `toLowerCase` on ASCII letters. */
  function Lower(s: string): (r: string)
    ensures |r| == |s| && forall i :: 0 <= i < |s| ==> r[i] == LowerChar(s[i])
  {
    seq(|s|, i requires 0 <= i < |s| => LowerChar(s[i]))
  }

  /** `capitalize(str)`. */
  function Capitalize(str: Val): string {
    var s := ToStr(str);
    if |s| < 1 then s else [UpperChar(s[0])] + Lower(s[1..])
  }

  /** `upperFirst(str)`. */
  function UpperFirst(str: Val): string {
    var s := ToStr(str);
    if |s| < 1 then s else [UpperChar(s[0])] + s[1..]
  }

  /** `lowerFirst(str)`. */
  function LowerFirst(str: Val): string {
    var s := ToStr(str);
    if |s| < 1 then s else [LowerChar(s[0])] + s[1..]
  }

  /** `capitalize` keeps the length, makes the first letter upper case and all the others
      lower case; it is `upperFirst` of the lower-cased string, and doing it twice is
      doing it once. */
  lemma CapitalizeMeaning(str: Val)
    ensures var s, r := ToStr(str), Capitalize(str);
      |r| == |s| && (r == "" <==> s == "") &&
      (r != "" ==> IsUpper(r[0]) && forall i :: 1 <= i < |r| ==> IsLower(r[i])) &&
      r == UpperFirst(Str(Lower(s)))
    ensures Capitalize(Str(Capitalize(str))) == Capitalize(str)
  {
    var s, r := ToStr(str), Capitalize(str);
    if |s| >= 1 {
      var l := Lower(s);
      LowerTail(s);
      assert r[1..] == Lower(s[1..]);
      LowerTwice(s[1..]);
      assert Capitalize(Str(r)) == [UpperChar(r[0])] + Lower(r[1..]);
    }
  }

  lemma LowerTail(s: string)
    requires s != []
    ensures Lower(s)[1..] == Lower(s[1..])
  {
  }

  lemma LowerTwice(s: string)
    ensures Lower(Lower(s)) == Lower(s)
  {
  }

  /** `upperFirst` and `lowerFirst` change the first character only, and each undoes the
      other on the first letter. */
  lemma FirstLetterMeaning(str: Val)
    ensures var s, u, l := ToStr(str), UpperFirst(str), LowerFirst(str);
      |u| == |s| && |l| == |s| &&
      (s != "" ==> u[1..] == s[1..] && l[1..] == s[1..] && IsUpper(u[0]) && IsLower(l[0])) &&
      UpperFirst(Str(l)) == u && LowerFirst(Str(u)) == l
  {
  }

  /** The documented cases: capitalize('abc') is 'Abc', upperFirst('first') is 'First',
      lowerFirst('FIRST') is 'fIRST', and capitalize(null) and capitalize(1) are '' and
      '1'. */
  lemma CaseExamples()
    ensures Capitalize(Str("abc")) == "Abc"
    ensures UpperFirst(Str("first")) == "First"
    ensures LowerFirst(Str("FIRST")) == "fIRST"
    ensures Capitalize(Null) == ""
  {
    assert ToStr(Str("abc")) == "abc";
    assert Lower("bc") == "bc";
    assert ToStr(Str("first")) == "first";
    assert ToStr(Str("FIRST")) == "FIRST";
  }

  // ---------------------------------------------------------------------------
  // padStart / padEnd / padZ (src/string.ts:119-121, 133-147, 164-176)

  /** The string repeated `n` times. */
  function Rep(p: string, n: nat): (r: string)
    ensures |r| == n * |p|
  {
    if n == 0 then "" else p + Rep(p, n - 1)
  }

  lemma {:induction false} RepSnoc(p: string, n: nat)
    ensures Rep(p, n + 1) == Rep(p, n) + p
  {
    if n > 0 {
      RepSnoc(p, n - 1);
    } else {
      assert Rep(p, 1) == p + "";
    }
  }

  /** The first `n` characters of `p, p, p, ...`: the fill `padEnd` keeps, cut on the
      right. */
  function Cycle(p: string, n: nat): (r: string)
    requires p != []
    ensures |r| == n
    decreases n
  {
    if n <= |p| then p[..n] else p + Cycle(p, n - |p|)
  }

  /** The last `n` characters of `..., p, p, p`: the fill the fallback `padStart` keeps,
      cut on the left. */
  function CycleEnd(p: string, n: nat): (r: string)
    requires p != []
    ensures |r| == n
    decreases n
  {
    if n <= |p| then p[|p| - n..] else CycleEnd(p, n - |p|) + p
  }

  lemma {:induction false} RepPrefix(p: string, k: nat, n: nat)
    requires p != [] && n <= k * |p|
    ensures Rep(p, k)[..n] == Cycle(p, n)
    decreases k
  {
    if n > |p| {
      assert k >= 2;
      RepPrefix(p, k - 1, n - |p|);
      assert Rep(p, k)[..n] == p + Rep(p, k - 1)[..n - |p|];
    } else if n > 0 {
      assert k >= 1;
      assert Rep(p, k)[..n] == p[..n];
    }
  }

  /** The last `m` characters of `a + b`, for `m` at least `|b|`. */
  lemma SuffixOfConcat(a: string, b: string, m: nat)
    requires |b| <= m <= |a| + |b|
    ensures (a + b)[|a + b| - m..] == a[|a| - (m - |b|)..] + b
  {
  }

  lemma {:induction false} RepSuffix(p: string, k: nat, n: nat)
    requires p != [] && n <= |Rep(p, k)|
    ensures Rep(p, k)[|Rep(p, k)| - n..] == CycleEnd(p, n)
    decreases k
  {
    if k > 0 {
      RepSnoc(p, k - 1);
      var r := Rep(p, k - 1);
      if n > |p| {
        RepSuffix(p, k - 1, n - |p|);
        SuffixOfConcat(r, p, n);
      } else {
        assert (r + p)[|r + p| - n..] == p[|p| - n..];
      }
    }
  }

  /** `Math.ceil(d / m)` for whole numbers: the fewest copies of a length-`m` string that
      cover `d` characters. */
  lemma CeilDiv(d: nat, m: nat)
    requires m >= 1
    ensures ((d + m - 1) / m) * m >= d
    ensures ((d + m - 1) / m) * m < d + m
  {
    var q, r := (d + m - 1) / m, (d + m - 1) % m;
    assert d + m - 1 == q * m + r;
  }

  /** `padString || ' '`, with None for a pad that is not given. */
  function PadOr(padString: Option<string>): (p: string)
    ensures p != []
  {
    if padString.None? || padString.value == "" then " " else padString.value
  }

  /** `Math.ceil(diff / padString.length)`: how many copies of the pad the fill loop makes. */
  function Copies(diff: nat, m: nat): nat
    requires m >= 1
  {
    (diff + m - 1) / m
  }

  /** The fill loop of both pads: `padString` appended `Math.ceil(diff / |padString|)`
      times. */
  method Fill(p: string, diff: nat) returns (fill: string)
    requires p != []
    ensures fill == Rep(p, Copies(diff, |p|))
  {
    var count := (diff + |p| - 1) / |p|;
    fill := "";
    var i := count;
    while i > 0
      invariant 0 <= i <= count && fill == Rep(p, count - i)
    {
      RepSnoc(p, count - i);
      fill := fill + p;
      i := i - 1;
    }
  }

  /** The fill covers `diff` characters; its last `diff` are the start pad and its first
      `diff` the end pad. */
  lemma FillEnds(p: string, diff: nat)
    requires p != []
    ensures var f := Rep(p, Copies(diff, |p|));
      |f| >= diff && f[|f| - diff..] == CycleEnd(p, diff) && f[..diff] == Cycle(p, diff)
  {
    var k := Copies(diff, |p|);
    CeilDiv(diff, |p|);
    RepSuffix(p, k, diff);
    RepPrefix(p, k, diff);
  }

  /** `padStart(str, len, padString)`. When the engine has `String.prototype.padStart`
      (`native`), its result is returned. Otherwise the fallback loop runs: a string already
      `len` long is returned as it is, any other gets `len - |str|` characters in front,
      read off the right end of repeated copies of the pad. */
  method PadStart(str: Val, len: int, padString: Option<string>, native: bool) returns (r: string)
    ensures var s := ToStr(str);
      r == if native then NativePad(s, len, padString, true)
           else if len - |s| < 1 then s else CycleEnd(PadOr(padString), len - |s|) + s
  {
    var s := ToStr(str);
    if native {
      return NativePad(s, len, padString, true);
    }
    var p := PadOr(padString);
    var diff := len - |s|;
    if diff < 1 {
      return s;
    }
    var fill := Fill(p, diff);
    FillEnds(p, diff);
    r := fill[|fill| - diff..] + s;
  }

  /** `padEnd(str, len, padString)`: the built-in `String.prototype.padEnd` when present,
      otherwise the fallback loop, whose characters go after the string, read off the left
      end of repeated copies of the pad. */
  method PadEnd(str: Val, len: int, padString: Option<string>, native: bool) returns (r: string)
    ensures var s := ToStr(str);
      r == if native then NativePad(s, len, padString, false)
           else if len - |s| < 1 then s else s + Cycle(PadOr(padString), len - |s|)
  {
    var s := ToStr(str);
    if native {
      return NativePad(s, len, padString, false);
    }
    var p := PadOr(padString);
    var diff := len - |s|;
    if diff < 1 {
      return s;
    }
    var fill := Fill(p, diff);
    FillEnds(p, diff);
    r := s + fill[..diff];
  }

  /** `padZ(str, len)`: zeros in front up to `len` characters, on either branch. */
  method PadZ(str: Val, len: int, native: bool) returns (r: string)
    ensures var s := ToStr(str);
      r == if len - |s| < 1 then s else seq(len - |s|, _ => '0') + s
  {
    r := PadStart(str, len, Some("0"), native);
    PadZeros(ToStr(str), len, native);
  }

  /** Both branches of padStart with the pad '0' put zeros in front. */
  lemma PadZeros(s: string, len: int, native: bool)
    ensures (if native then NativePad(s, len, Some("0"), true)
             else if len - |s| < 1 then s else CycleEnd(PadOr(Some("0")), len - |s|) + s) ==
            (if len - |s| < 1 then s else seq(len - |s|, _ => '0') + s)
  {
    var d := len - |s|;
    if d >= 1 {
      assert PadOr(Some("0")) == "0";
      if native {
        CycleOfOne('0', d);
      } else {
        CycleEndOfOne('0', d);
      }
    }
  }

  /** A string all of whose characters are `c`. */
  lemma AllSame(s: string, c: char)
    requires forall i :: 0 <= i < |s| ==> s[i] == c
    ensures s == seq(|s|, _ => c)
  {
  }

  lemma CycleOfOne(c: char, n: nat)
    ensures Cycle([c], n) == seq(n, _ => c)
  {
    CycleOfOneAt(c, n);
    AllSame(Cycle([c], n), c);
  }

  lemma CycleEndOfOne(c: char, n: nat)
    ensures CycleEnd([c], n) == seq(n, _ => c)
  {
    CycleEndOfOneAt(c, n);
    AllSame(CycleEnd([c], n), c);
  }

  lemma {:induction false} CycleOfOneAt(c: char, n: nat)
    ensures forall i :: 0 <= i < n ==> Cycle([c], n)[i] == c
    decreases n
  {
    if n > 1 {
      CycleOfOneAt(c, n - 1);
      assert Cycle([c], n) == [c] + Cycle([c], n - 1);
    }
  }

  lemma {:induction false} CycleEndOfOneAt(c: char, n: nat)
    ensures forall i :: 0 <= i < n ==> CycleEnd([c], n)[i] == c
    decreases n
  {
    if n > 1 {
      CycleEndOfOneAt(c, n - 1);
      assert CycleEnd([c], n) == CycleEnd([c], n - 1) + [c];
    } else if n == 1 {
      assert CycleEnd([c], n) == [c];
    }
  }

  /** Either pad writes exactly `len` characters when the string is shorter, and the
      string itself survives at the end of padStart and the start of padEnd. */
  lemma PadLengths(s: string, len: int, p: string)
    requires p != [] && len - |s| >= 1
    ensures |CycleEnd(p, len - |s|) + s| == len && (CycleEnd(p, len - |s|) + s)[len - |s|..] == s
    ensures |s + Cycle(p, len - |s|)| == len && (s + Cycle(p, len - |s|))[..|s|] == s
    ensures len - |s| <= |p| ==> Cycle(p, len - |s|) == p[..len - |s|] && CycleEnd(p, len - |s|) == p[|p| - (len - |s|)..]
  {
  }

  /** The built-in `String.prototype.padStart` and `padEnd` (section 22.1.3.17.2 of
      ECMA-262), which the source calls whenever they exist: a pad that is not given is a
      space, an empty pad leaves the string as it is, and the fill is cut on the right in
      both cases. */
  function NativePad(s: string, len: int, padString: Option<string>, atStart: bool): string {
    var p := if padString.None? then " " else padString.value;
    if len - |s| < 1 || p == "" then s
    else if atStart then Cycle(p, len - |s|) + s
    else s + Cycle(p, len - |s|)
  }

  /** The two branches of padEnd agree except on an empty pad, which the fallback
      replaces by a space and the built-in method does not use at all; the two branches
      of padStart agree as well when the fill is a whole number of copies of the pad. */
  lemma PadBranches(s: string, len: int, p: string, k: nat)
    requires p != [] && len - |s| >= 1
    ensures s + Cycle(PadOr(Some(p)), len - |s|) == NativePad(s, len, Some(p), false)
    ensures s + Cycle(PadOr(Some("")), len - |s|) != NativePad(s, len, Some(""), false)
    ensures len - |s| == k * |p| ==> CycleEnd(PadOr(Some(p)), len - |s|) + s == NativePad(s, len, Some(p), true)
  {
    if len - |s| == k * |p| {
      RepPrefix(p, k, k * |p|);
      RepSuffix(p, k, k * |p|);
      assert Rep(p, k)[..k * |p|] == Rep(p, k) == Rep(p, k)[0..];
    }
  }

  /** The documented cases: padZ('1', 3) and padStart('1', 3, '0') are '001',
      padEnd('1', 3, '0') is '100' and padEnd('1', 6, '-0') is '1-0-0-'; a pad longer than
      needed keeps its right end in front and its left end behind (padStart('1', 4, 'ab')
      is 'bab1' on the fallback branch, where the built-in method gives 'aba1'). */
  lemma PadExamples()
    ensures CycleEnd("0", 2) + "1" == "001"
    ensures "1" + Cycle("0", 2) == "100"
    ensures "1" + Cycle("-0", 5) == "1-0-0-"
    ensures CycleEnd("ab", 3) + "1" == "bab1"
  {
    assert Cycle("-0", 1) == "-";
    assert Cycle("-0", 3) == "-0-";
    assert CycleEnd("ab", 1) == "b";
  }

  /** The same calls on the built-in branch: padStart('1', 3, '0') is '001', padEnd('1', 6,
      '-0') is '1-0-0-' and padEnd('1', 0, '-0') is '1'; padStart('1', 4, 'ab') is 'aba1',
      and an empty pad leaves the string as it is. */
  lemma NativePadExamples()
    ensures NativePad("1", 3, Some("0"), true) == "001"
    ensures NativePad("1", 6, Some("-0"), false) == "1-0-0-"
    ensures NativePad("1", 0, Some("-0"), false) == "1"
    ensures NativePad("1", 4, Some("ab"), true) == "aba1"
    ensures NativePad("1", 4, Some(""), true) == "1"
    ensures NativePad("1", 3, None, false) == "1  "
  {
    assert Cycle("-0", 1) == "-";
    assert Cycle("-0", 3) == "-0-";
    assert Cycle("0", 1) == "0";
    assert Cycle("0", 2) == "00";
    assert Cycle("ab", 1) == "a";
    assert Cycle(" ", 1) == " ";
  }

  // ---------------------------------------------------------------------------
  // repeat (src/string.ts:250-261)

  /** The number of copies `repeat` makes: none unless the count is a finite number at
      least 1, and the count's whole part otherwise. */
  function RepeatCount(count: Number): nat {
    if count.Fin? && count.r >= 1.0 then Trunc(count.r) else 0
  }

  /** `repeat(str, count)`, with a count rounded down to a whole number. */
  method Repeat(str: Val, count: Number) returns (r: string)
    ensures r == Rep(ToStr(str), RepeatCount(count))
  {
    var s := ToStr(str);
    var n := RepeatCount(count);
    var i := n;
    r := "";
    while i > 0
      invariant 0 <= i <= n && r == Rep(s, n - i)
    {
      RepSnoc(s, n - i);
      r := r + s;
      i := i - 1;
    }
  }

  /** Copies add up. */
  lemma {:induction false} RepAdd(p: string, a: nat, b: nat)
    ensures Rep(p, a + b) == Rep(p, a) + Rep(p, b)
    decreases a
  {
    if a > 0 {
      RepAdd(p, a - 1, b);
      assert Rep(p, a + b) == p + Rep(p, a - 1 + b);
    }
  }

  /** Every copy is the string: the `q`-th block of `|str|` characters is `str`. */
  lemma RepCopy(p: string, a: nat, q: nat)
    requires q < a
    ensures q * |p| + |p| <= |Rep(p, a)| && Rep(p, a)[q * |p|..q * |p| + |p|] == p
  {
    var b: nat := a - q;
    var c: nat := b - 1;
    RepAdd(p, q, b);
    RepAdd(p, 1, c);
    assert q + b == a && 1 + c == b;
    assert Rep(p, 1) == p;
    var x, y := Rep(p, q), Rep(p, c);
    assert Rep(p, b) == p + y;
    assert Rep(p, a) == x + (p + y);
    assert |x| == q * |p|;
    MiddleSlice(x, p, y);
  }

  lemma MiddleSlice(x: string, p: string, y: string)
    ensures |x| + |p| <= |x + (p + y)| && (x + (p + y))[|x|..|x| + |p|] == p
  {
  }

  /** A whole count makes exactly that many copies: repeat('func', 3) is
      'funcfuncfunc'. */
  lemma RepeatWhole(n: nat)
    requires n >= 1
    ensures RepeatCount(Fin(n as real)) == n
    ensures Rep("func", 3) == "funcfuncfunc"
  {
    assert Rep("func", 1) == "func";
    assert Rep("func", 2) == "funcfunc";
  }

  /** The loop of the source counts `i` down from the count itself and stops only when
      `i--` reads 0. From a count that is at least 1 and not whole, `i` is never 0, so the
      loop does not end (repeat('a', 2.5) does not return). */
  lemma RepeatAsWrittenDoesNotStop(count: real, k: nat)
    requires count >= 1.0 && count != count.Floor as real
    ensures count - k as real != 0.0
  {
  }

  // ---------------------------------------------------------------------------
  // substring (src/string.ts:281-290)

  function Clamp(i: int, len: nat): (r: nat)
    ensures r <= len
  {
    if i < 0 then 0 else if i > len then len else i
  }

  /** `substring(str, indexStart, indexEnd)`: both ends clamped into the string, in
      either order; no end means the end of the string. */
  function Substring(str: Val, indexStart: int, indexEnd: Option<int>): string {
    var s := ToStr(str);
    var a := Clamp(indexStart, |s|);
    var b := if indexEnd.None? then |s| else Clamp(indexEnd.value, |s|);
    if a <= b then s[a..b] else s[b..a]
  }

  /** The two ends can be given in either order, a cut point splits the string in two,
      and the result is a piece of the string. */
  lemma SubstringMeaning(s: string, a: int, b: int, k: int)
    ensures Substring(Str(s), a, Some(b)) == Substring(Str(s), b, Some(a))
    ensures Substring(Str(s), 0, Some(k)) + Substring(Str(s), k, None) == s
    ensures exists i, j :: 0 <= i <= j <= |s| && Substring(Str(s), a, Some(b)) == s[i..j]
  {
    var c := Clamp(k, |s|);
    assert s[0..c] + s[c..|s|] == s;
    var x, y := Clamp(a, |s|), Clamp(b, |s|);
    if x <= y {
      assert Substring(Str(s), a, Some(b)) == s[x..y];
    } else {
      assert Substring(Str(s), a, Some(b)) == s[y..x];
    }
  }

  /** substring('12345678', 2) is '345678' and substring('12345678', 2, 7) is '34567'. */
  lemma SubstringExamples()
    ensures Substring(Str("12345678"), 2, None) == "345678"
    ensures Substring(Str("12345678"), 2, Some(7)) == "34567"
  {
    var s := "12345678";
    assert ToStr(Str(s)) == s && |s| == 8;
    assert Substring(Str(s), 2, None) == s[2..8];
    assert Substring(Str(s), 2, Some(7)) == s[2..7];
  }

  // ---------------------------------------------------------------------------
  // escapeRegExp (src/string.ts:442-477)

  /** REG_EXP_KEYWORDS: the 14 characters with a meaning in a regular expression. */
  predicate IsKeyword(c: char) {
    c in {'\\', '$', '(', ')', '*', '+', '.', '[', ']', '?', '^', '{', '}', '|'}
  }

  /** A backslash before every keyword, other characters kept. */
  function EscapeChars(s: string): string
    decreases |s|
  {
    if s == [] then []
    else (if IsKeyword(s[0]) then ['\\', s[0]] else [s[0]]) + EscapeChars(s[1..])
  }

  /** `escapeRegExp(str)`. */
  function EscapeRegExp(str: Val): string {
    EscapeChars(ToStr(str))
  }

  /** The text a pattern made of plain characters and backslash-escaped keywords matches,
      or None when it uses any other syntax. */
  function LiteralOf(pattern: string): Option<string>
    decreases |pattern|
  {
    if pattern == [] then Some([])
    else if pattern[0] == '\\' then
      if |pattern| >= 2 && IsKeyword(pattern[1]) then
        match LiteralOf(pattern[2..]) case Some(t) => Some([pattern[1]] + t) case None => None
      else None
    else if IsKeyword(pattern[0]) then None
    else match LiteralOf(pattern[1..]) case Some(t) => Some([pattern[0]] + t) case None => None
  }

  function KeywordCount(s: string): nat
    decreases |s|
  {
    if s == [] then 0 else (if IsKeyword(s[0]) then 1 else 0) + KeywordCount(s[1..])
  }

  /** The escaped string is a pattern that matches exactly the original text, and it is
      longer by one backslash per keyword. */
  lemma {:induction false} EscapeCharsLiteral(s: string)
    ensures LiteralOf(EscapeChars(s)) == Some(s)
    ensures |EscapeChars(s)| == |s| + KeywordCount(s)
    decreases |s|
  {
    if s != [] {
      EscapeCharsLiteral(s[1..]);
      var e, rest := EscapeChars(s), EscapeChars(s[1..]);
      if IsKeyword(s[0]) {
        assert e == ['\\', s[0]] + rest;
        assert e[2..] == rest;
        assert [s[0]] + s[1..] == s;
      } else {
        assert e == [s[0]] + rest;
        assert e[0] != '\\';
        assert e[1..] == rest;
        assert [s[0]] + s[1..] == s;
      }
    }
  }

  /** Escaping a string gives a pattern that matches exactly that string. */
  lemma EscapeIsLiteral(s: string)
    ensures LiteralOf(EscapeRegExp(Str(s))) == Some(s)
    ensures |EscapeRegExp(Str(s))| == |s| + KeywordCount(s)
  {
    assert ToJsString(Str(s)) == s;
    assert EscapeRegExp(Str(s)) == EscapeChars(s);
    EscapeCharsLiteral(s);
  }

  /** escapeRegExp('a.b$') is 'a\.b\$'. */
  lemma EscapeExample()
    ensures EscapeRegExp(Str("a.b$")) == "a\\.b\\$"
  {
    assert EscapeChars("$") == "\\$";
    assert EscapeChars("b$") == "b\\$";
  }

  /** Escaping works character by character. */
  lemma {:induction false} EscapeAppend(a: string, b: string)
    ensures EscapeChars(a + b) == EscapeChars(a) + EscapeChars(b)
    decreases |a|
  {
    if a != [] {
      EscapeAppend(a[1..], b);
      assert (a + b)[1..] == a[1..] + b;
    } else {
      assert a + b == b;
    }
  }

  // ---------------------------------------------------------------------------
  // replaceAll (src/string.ts:390-440)

  /** What `String.prototype.replace` is given to replace with: a string, whose `$`
      patterns it expands, or a function, which it calls with the match, its position and
      the whole string and whose result it converts to a string. */
  datatype Replacer = Template(tpl: string) | ReplaceFn(f: (string, nat, string) -> Val)

  /** GetSubstitution (section 22.1.3.19.1 of ECMA-262) for a pattern without capture
      groups: `$$` gives `$`, `$&` the match, `` $` `` the text before it and `$'` the text
      after it; any other `$`, `$1` and `$<` included, stays as it is. */
  function Expand(tpl: string, matched: string, before: string, after: string): string
    decreases |tpl|
  {
    if tpl == [] then []
    else if tpl[0] == '$' && |tpl| >= 2 && tpl[1] == '$' then "$" + Expand(tpl[2..], matched, before, after)
    else if tpl[0] == '$' && |tpl| >= 2 && tpl[1] == '&' then matched + Expand(tpl[2..], matched, before, after)
    else if tpl[0] == '$' && |tpl| >= 2 && tpl[1] == '`' then before + Expand(tpl[2..], matched, before, after)
    else if tpl[0] == '$' && |tpl| >= 2 && tpl[1] == '\'' then after + Expand(tpl[2..], matched, before, after)
    else [tpl[0]] + Expand(tpl[1..], matched, before, after)
  }

  /** A replacement string without `$` is used as it is. */
  lemma {:induction false} ExpandPlain(tpl: string, matched: string, before: string, after: string)
    requires '$' !in tpl
    ensures Expand(tpl, matched, before, after) == tpl
    decreases |tpl|
  {
    if tpl != [] {
      assert tpl[0] != '$';
      assert '$' !in tpl[1..] by {
        forall c | c in tpl[1..] ensures c != '$' {
          assert c in tpl;
        }
      }
      ExpandPlain(tpl[1..], matched, before, after);
      assert [tpl[0]] + tpl[1..] == tpl;
    }
  }

  /** `$$` gives one `$`, `$&` the match, `` $` `` and `$'` the text around it, and `$1`
      stays as it is when there are no groups. */
  lemma ExpandExamples()
    ensures Expand("$$", "b", "a", "c") == "$"
    ensures Expand("[$`$&$']", "b", "a", "c") == "[abc]"
    ensures Expand("$1", "b", "a", "c") == "$1"
  {
    assert Expand("$1", "b", "a", "c") == "$" + Expand("1", "b", "a", "c");
    assert Expand("]", "b", "a", "c") == "]";
    assert Expand("$']", "b", "a", "c") == "c]";
    assert Expand("$&$']", "b", "a", "c") == "bc]";
    assert Expand("$`$&$']", "b", "a", "c") == "abc]";
  }

  /** The text that replaces the match `s[b..e]`. */
  function Substitute(r: Replacer, s: string, b: nat, e: nat): string
    requires b <= e <= |s|
  {
    match r
    case Template(tpl) => Expand(tpl, s[b..e], s[..b], s[e..])
    case ReplaceFn(f) => ToJsString(f(s[b..e], b, s))
  }

  /** `t` occurs in `s` at index `j`. */
  predicate At(s: string, t: string, j: int) {
    0 <= j && j + |t| <= |s| && s[j..j + |t|] == t
  }

  /** The rest of `s.replace(new RegExp(escapeRegExp(t), 'g'), r)` from position `i`:
      every occurrence of `t`, from left to right and not overlapping, replaced by its
      substitution; the empty `t` matches before every character and at the end. */
  function ReplaceFrom(s: string, t: string, r: Replacer, i: nat): string
    requires i <= |s|
    decreases |s| - i
  {
    if t == [] then
      if i == |s| then Substitute(r, s, i, i) else Substitute(r, s, i, i) + [s[i]] + ReplaceFrom(s, t, r, i + 1)
    else if i == |s| then []
    else if At(s, t, i) then Substitute(r, s, i, i + |t|) + ReplaceFrom(s, t, r, i + |t|)
    else [s[i]] + ReplaceFrom(s, t, r, i + 1)
  }

  /** `s.replace(new RegExp(escapeRegExp(t), 'g'), r)`. */
  function ReplaceLit(s: string, t: string, r: Replacer): string {
    ReplaceFrom(s, t, r, 0)
  }

  ghost predicate Occurs(s: string, t: string) {
    exists i :: At(s, t, i)
  }

  /** From a position on, text without an occurrence is left as it is. */
  lemma {:induction false} ReplaceNone(s: string, t: string, r: Replacer, i: nat)
    requires t != [] && i <= |s|
    requires forall j :: i <= j ==> !At(s, t, j)
    ensures ReplaceFrom(s, t, r, i) == s[i..]
    decreases |s| - i
  {
    if i < |s| {
      assert !At(s, t, i);
      ReplaceNone(s, t, r, i + 1);
      assert [s[i]] + s[i + 1..] == s[i..];
    }
  }

  /** From a position on, a search string without `$` replaced by itself is left as it is. */
  lemma {:induction false} ReplaceSelf(s: string, t: string, i: nat)
    requires t != [] && '$' !in t && i <= |s|
    ensures ReplaceFrom(s, t, Template(t), i) == s[i..]
    decreases |s| - i
  {
    if i < |s| {
      if At(s, t, i) {
        ReplaceSelf(s, t, i + |t|);
        ReplaceSelfHit(s, t, i);
      } else {
        ReplaceSelf(s, t, i + 1);
        ReplaceSelfMiss(s, t, i);
      }
    }
  }

  lemma ReplaceSelfHit(s: string, t: string, i: nat)
    requires t != [] && '$' !in t && At(s, t, i)
    requires ReplaceFrom(s, t, Template(t), i + |t|) == s[i + |t|..]
    ensures ReplaceFrom(s, t, Template(t), i) == s[i..]
  {
    ReplaceStep(s, t, t, i);
    SplitAt(s, i, i + |t|);
  }

  lemma ReplaceSelfMiss(s: string, t: string, i: nat)
    requires t != [] && i < |s| && !At(s, t, i)
    requires ReplaceFrom(s, t, Template(t), i + 1) == s[i + 1..]
    ensures ReplaceFrom(s, t, Template(t), i) == s[i..]
  {
    ReplaceMiss(s, t, Template(t), i);
    SplitAt(s, i, i + 1);
  }

  /** Moving past a position where the search string does not occur. */
  lemma ReplaceMiss(s: string, t: string, r: Replacer, i: nat)
    requires t != [] && i < |s| && !At(s, t, i)
    ensures ReplaceFrom(s, t, r, i) == [s[i]] + ReplaceFrom(s, t, r, i + 1)
  {
  }

  lemma SplitAt(s: string, i: nat, j: nat)
    requires i <= j <= |s|
    ensures s[i..j] + s[j..] == s[i..]
  {
  }

  /** From a position on, a replacement without `$` as long as the search string keeps
      the length. */
  lemma {:induction false} ReplaceSameLength(s: string, t: string, tpl: string, i: nat)
    requires t != [] && '$' !in tpl && |tpl| == |t| && i <= |s|
    ensures |ReplaceFrom(s, t, Template(tpl), i)| == |s| - i
    decreases |s| - i
  {
    if i < |s| {
      if At(s, t, i) {
        ReplaceStep(s, t, tpl, i);
        ReplaceSameLength(s, t, tpl, i + |t|);
      } else {
        ReplaceSameLength(s, t, tpl, i + 1);
      }
    }
  }

  /** Text without an occurrence is left as it is; replacing a string without `$` by
      itself changes nothing; a replacement without `$` as long as the text it replaces
      keeps the length. */
  lemma ReplaceLitMeaning(s: string, t: string, r: Replacer)
    requires t != []
    ensures !Occurs(s, t) ==> ReplaceLit(s, t, r) == s
    ensures '$' !in t ==> ReplaceLit(s, t, Template(t)) == s
    ensures r.Template? && '$' !in r.tpl && |r.tpl| == |t| ==> |ReplaceLit(s, t, r)| == |s|
  {
    assert s[0..] == s;
    if !Occurs(s, t) {
      ReplaceNone(s, t, r, 0);
    }
    if '$' !in t {
      ReplaceSelf(s, t, 0);
    }
    if r.Template? && '$' !in r.tpl && |r.tpl| == |t| {
      ReplaceSameLength(s, t, r.tpl, 0);
    }
  }

  /** replaceAll('a.b.c', '.', '-') is 'a-b-c'; an empty search string matches at every
      position, so replacing it in 'ab' by '-' gives '-a-b-'. */
  lemma ReplaceLitExample()
    ensures ReplaceLit("a.b.c", ".", Template("-")) == "a-b-c"
    ensures ReplaceLit("ab", "", Template("-")) == "-a-b-"
  {
    var s, t, r := "a.b.c", ".", Template("-");
    assert Expand("-", ".", "a", ".b.c") == "-";
    assert ReplaceFrom(s, t, r, 5) == "";
    ReplaceSkip(s, t, r, 4);
    ReplaceStep(s, t, "-", 3);
    ReplaceSkip(s, t, r, 2);
    ReplaceStep(s, t, "-", 1);
    ReplaceSkip(s, t, r, 0);
    var u := "ab";
    assert ReplaceFrom(u, "", r, 2) == "-";
    assert ReplaceFrom(u, "", r, 1) == "-b-";
  }

  /** The `$` patterns and a replacing function: replaceAll('a', 'a', '$$') is '$',
      replaceAll('abc', 'b', '[$`$&$\']') is 'a[abc]c', and a function is called with
      the match and its position. */
  lemma ReplaceDollarExample(f: (string, nat, string) -> Val)
    requires forall m, p, w :: f(m, p, w) == Str(m + NatToStr(p))
    ensures ReplaceLit("a", "a", Template("$$")) == "$"
    ensures ReplaceLit("abc", "b", Template("[$`$&$']")) == "a[abc]c"
    ensures ReplaceLit("abc", "b", ReplaceFn(f)) == "ab1c"
  {
    ReplaceDollarDollar();
    ReplaceDollarParts("abc", "[$`$&$']");
    ReplaceDollarFn("abc", f);
  }

  lemma ReplaceDollarDollar()
    ensures ReplaceLit("a", "a", Template("$$")) == "$"
  {
    assert Expand("$$", "a", "", "") == "$";
    assert At("a", "a", 0);
    assert ReplaceFrom("a", "a", Template("$$"), 0) == Expand("$$", "a", "", "") + "";
  }

  lemma ReplaceDollarParts(s: string, tpl: string)
    requires s == "abc" && tpl == "[$`$&$']"
    ensures ReplaceLit(s, "b", Template(tpl)) == "a[abc]c"
  {
    var r := Template(tpl);
    assert s[1..2] == "b" && s[..1] == "a" && s[2..] == "c";
    ExpandParts(tpl, s[1..2], s[..1], s[2..]);
    assert Substitute(r, s, 1, 2) == "[abc]";
    ReplaceSkip(s, "b", r, 0);
    ReplaceHit(s, "b", r, 1);
    ReplaceSkip(s, "b", r, 2);
    assert ReplaceFrom(s, "b", r, 3) == "";
  }

  lemma ExpandParts(tpl: string, m: string, b: string, a: string)
    requires tpl == "[$`$&$']" && m == "b" && b == "a" && a == "c"
    ensures Expand(tpl, m, b, a) == "[abc]"
  {
    ExpandExamples();
  }

  /** At an occurrence, its substitution is followed by the rest after it. */
  lemma ReplaceHit(s: string, t: string, r: Replacer, i: nat)
    requires t != [] && At(s, t, i)
    ensures ReplaceFrom(s, t, r, i) == Substitute(r, s, i, i + |t|) + ReplaceFrom(s, t, r, i + |t|)
  {
  }

  lemma ReplaceDollarFn(s: string, f: (string, nat, string) -> Val)
    requires s == "abc"
    requires forall m, p, w :: f(m, p, w) == Str(m + NatToStr(p))
    ensures ReplaceLit(s, "b", ReplaceFn(f)) == "ab1c"
  {
    var r := ReplaceFn(f);
    assert s[1..2] == "b";
    ReplaceSkip(s, "b", r, 0);
    ReplaceHit(s, "b", r, 1);
    ReplaceSkip(s, "b", r, 2);
    assert ReplaceFrom(s, "b", r, 3) == "";
    assert NatToStr(1) == "1";
    assert Substitute(r, s, 1, 2) == "b1";
  }

  /** The object form as a reference: the keys applied from the last to the first, each
      replaced by its value's string. */
  function ReplaceKeys(s: string, entries: seq<(string, Val)>): string
    decreases |entries|
  {
    if entries == [] then s
    else
      var e := entries[|entries| - 1];
      ReplaceKeys(ReplaceLit(s, e.0, Template(ToJsString(e.1))), entries[..|entries| - 1])
  }

  /** The loop of the object form: `for (let i = ks.length; i--; )`. */
  method ReplaceEach(s: string, entries: seq<(string, Val)>) returns (r: string)
    ensures r == ReplaceKeys(s, entries)
  {
    r := s;
    var i := |entries|;
    assert entries[..i] == entries;
    while i > 0
      invariant 0 <= i <= |entries|
      invariant ReplaceKeys(s, entries) == ReplaceKeys(r, entries[..i])
    {
      i := i - 1;
      assert entries[..i + 1][..i] == entries[..i];
      r := ReplaceLit(r, entries[i].0, Template(ToJsString(entries[i].1)));
    }
  }

  /** `replaceAll(str, searchValue, replaceValue)` for a string or an object search value;
      any other search value gives back `str` itself. */
  method ReplaceAll(str: Val, searchValue: Val, replaceValue: Replacer) returns (r: Val)
    ensures searchValue.Str? ==> r == Str(ReplaceLit(ToStr(str), searchValue.s, replaceValue))
    ensures !searchValue.Str? && IsObject(searchValue) ==> r == Str(ReplaceKeys(ToStr(str), OwnEntries(searchValue)))
    ensures !searchValue.Str? && !IsObject(searchValue) ==> r == str
  {
    var strRs := ToStr(str);
    if searchValue.Str? {
      return Str(ReplaceLit(strRs, searchValue.s, replaceValue));
    } else if IsObject(searchValue) {
      var rs := ReplaceEach(strRs, OwnEntries(searchValue));
      return Str(rs);
    }
    return str;
  }

  /** With one key the object form is the string form, and keys go from last to first:
      replaceAll('a', {a: 'b', b: 'c'}) is 'b', since 'b' is replaced before any 'b'
      exists. */
  lemma ReplaceKeysMeaning(s: string, k: string, v: Val)
    ensures ReplaceKeys(s, [(k, v)]) == ReplaceLit(s, k, Template(ToJsString(v)))
    ensures ReplaceKeys("a", [("a", Str("b")), ("b", Str("c"))]) == "b"
  {
    var es := [("a", Str("b")), ("b", Str("c"))];
    assert es[..1] == [("a", Str("b"))];
    assert ReplaceFrom("a", "b", Template("c"), 0) == "a";
    assert At("a", "a", 0);
    assert Expand("b", "a", "", "") == "b";
    assert ReplaceFrom("a", "a", Template("b"), 0) == "b";
  }

  /** Replacing at a match whose substitution is a plain string. */
  lemma ReplaceStep(s: string, t: string, tpl: string, i: nat)
    requires t != [] && '$' !in tpl && At(s, t, i)
    ensures ReplaceFrom(s, t, Template(tpl), i) == tpl + ReplaceFrom(s, t, Template(tpl), i + |t|)
  {
    ExpandPlain(tpl, s[i..i + |t|], s[..i], s[i + |t|..]);
  }

  /** Moving past a character that cannot start a match. */
  lemma ReplaceSkip(s: string, t: string, r: Replacer, i: nat)
    requires t != [] && i < |s| && s[i] != t[0]
    ensures ReplaceFrom(s, t, r, i) == [s[i]] + ReplaceFrom(s, t, r, i + 1)
  {
    assert !At(s, t, i) by {
      if i + |t| <= |s| {
        assert s[i..i + |t|][0] == s[i];
      }
    }
  }

  lemma ReplaceLiExample()
    ensures ReplaceLit("kelikeli", "li", Template("jj")) == "kejjkejj"
  {
    var s, t, r := "kelikeli", "li", Template("jj");
    assert At(s, t, 6) && At(s, t, 2);
    ReplaceStep(s, t, "jj", 6);
    ReplaceStep(s, t, "jj", 2);
    assert ReplaceFrom(s, t, r, 8) == "";
    ReplaceSkip(s, t, r, 5);
    ReplaceSkip(s, t, r, 4);
    ReplaceSkip(s, t, r, 1);
    ReplaceSkip(s, t, r, 0);
  }

  lemma ReplaceKeExample()
    ensures ReplaceLit("kejjkejj", "ke", Template("gg")) == "ggjjggjj"
  {
    ReplaceKeAt("kejjkejj", "ke", "gg");
  }

  lemma ReplaceKeAt(s: string, t: string, g: string)
    requires s == "kejjkejj" && t == "ke" && g == "gg"
    ensures ReplaceLit(s, t, Template(g)) == "ggjjggjj"
  {
    var r := Template(g);
    assert ReplaceFrom(s, t, r, 8) == [];
    assert s[4..6] == t && s[6] == 'j' && s[7] == 'j';
    ReplaceKeHalf(s, t, g, 4);
    assert s[0..2] == t && s[2] == 'j' && s[3] == 'j';
    ReplaceKeHalf(s, t, g, 0);
  }

  /** Each half 'kejj' of the example becomes 'ggjj'. */
  lemma ReplaceKeHalf(s: string, t: string, g: string, i: nat)
    requires t == "ke" && g == "gg" && i + 4 <= |s|
    requires s[i..i + 2] == t && s[i + 2] == 'j' && s[i + 3] == 'j'
    ensures ReplaceFrom(s, t, Template(g), i) == "ggjj" + ReplaceFrom(s, t, Template(g), i + 4)
  {
    var r := Template(g);
    ReplaceStep(s, t, g, i);
    ReplaceSkip(s, t, r, i + 2);
    ReplaceSkip(s, t, r, i + 3);
  }

  /** replaceAll('kelikeli', {ke: 'gg', li: 'jj'}) is 'ggjjggjj'. */
  lemma ReplaceKeysExample()
    ensures ReplaceKeys("kelikeli", [("ke", Str("gg")), ("li", Str("jj"))]) == "ggjjggjj"
  {
    var es := [("ke", Str("gg")), ("li", Str("jj"))];
    assert es[..1] == [("ke", Str("gg"))] && es[..1][..0] == [];
    assert ToJsString(Str("jj")) == "jj" && ToJsString(Str("gg")) == "gg";
    ReplaceLiExample();
    ReplaceKeExample();
    ReplaceKeysLast("kelikeli", es);
    ReplaceKeysLast("kejjkejj", es[..1]);
  }

  /** One step of `ReplaceKeys`: the last entry is applied first. */
  lemma ReplaceKeysLast(s: string, entries: seq<(string, Val)>)
    requires entries != []
    ensures var e := entries[|entries| - 1];
      ReplaceKeys(s, entries) ==
        ReplaceKeys(ReplaceLit(s, e.0, Template(ToJsString(e.1))), entries[..|entries| - 1])
  {
  }

  // ---------------------------------------------------------------------------
  // truncate (src/string.ts:717-750)

  /** The first occurrence of `t` at or after `from`: what `exec` of a global literal
      pattern finds from `lastIndex`. */
  function FindFrom(s: string, t: string, from: nat): (r: Option<nat>)
    ensures r.Some? ==> from <= r.value && At(s, t, r.value)
    ensures r.Some? ==> forall j :: from <= j < r.value ==> !At(s, t, j)
    ensures r.None? ==> forall j :: from <= j ==> !At(s, t, j)
    decreases |s| - from
  {
    if from + |t| > |s| then None
    else if s[from..from + |t|] == t then Some(from)
    else FindFrom(s, t, from + 1)
  }

  /** The matches successive `exec` calls return: the first from `from`, then the first
      after its end, and so on. */
  function Matches(s: string, t: string, from: nat): (ms: seq<nat>)
    requires t != []
    ensures forall i :: 0 <= i < |ms| ==> from <= ms[i] && At(s, t, ms[i])
    decreases |s| - from
  {
    match FindFrom(s, t, from)
    case None => []
    case Some(j) => [j] + Matches(s, t, j + |t|)
  }

  function LastOf(ms: seq<nat>): Option<nat> {
    if ms == [] then None else Some(ms[|ms| - 1])
  }

  /** The `exec` loop of `truncate`: the index of the last match, if any. */
  method LastMatch(s: string, t: string) returns (found: Option<nat>)
    requires t != []
    ensures found == LastOf(Matches(s, t, 0))
  {
    found := None;
    var lastIndex := 0;
    var m := FindFrom(s, t, lastIndex);
    while m.Some?
      invariant m == FindFrom(s, t, lastIndex)
      invariant LastOf(Matches(s, t, 0)) == (if Matches(s, t, lastIndex) == [] then found else LastOf(Matches(s, t, lastIndex)))
      decreases |s| - lastIndex
    {
      var j := m.value;
      assert Matches(s, t, lastIndex) == [j] + Matches(s, t, j + |t|);
      found := m;
      lastIndex := j + |t|;
      m := FindFrom(s, t, lastIndex);
    }
  }

  /** Where the search for match `i` starts: `from`, or the end of the match before. */
  function SearchStart(ms: seq<nat>, t: string, from: nat, i: nat): nat
    requires i <= |ms|
  {
    if i == 0 then from else ms[i - 1] + |t|
  }

  /** The matches are in increasing order and none overlaps the next. */
  lemma {:induction false} MatchesOrdered(s: string, t: string, from: nat, i: nat)
    requires t != [] && i + 1 < |Matches(s, t, from)|
    ensures Matches(s, t, from)[i] + |t| <= Matches(s, t, from)[i + 1]
    decreases |s| - from
  {
    match FindFrom(s, t, from)
    case None =>
    case Some(m) =>
      var rest := Matches(s, t, m + |t|);
      var ms := [m] + rest;
      assert ms == Matches(s, t, from);
      assert ms[i + 1] == rest[i];
      if i > 0 {
        assert ms[i] == rest[i - 1];
        MatchesOrdered(s, t, m + |t|, i - 1);
      } else {
        assert m + |t| <= rest[0];
      }
  }

  /** Each match is the first occurrence after the end of the one before: no occurrence
      is skipped between two matches. */
  lemma MatchesGreedy(s: string, t: string, from: nat, ms: seq<nat>, i: nat, j: int)
    requires t != [] && ms == Matches(s, t, from)
    requires i < |ms| && SearchStart(ms, t, from, i) <= j < ms[i]
    ensures !At(s, t, j)
  {
    MatchesFind(s, t, from, ms, i);
  }

  /** Match `i` is the first occurrence of `t` from where its search starts. */
  lemma {:induction false} MatchesFind(s: string, t: string, from: nat, ms: seq<nat>, i: nat)
    requires t != [] && ms == Matches(s, t, from) && i < |ms|
    ensures FindFrom(s, t, SearchStart(ms, t, from, i)) == Some(ms[i])
    decreases |s| - from
  {
    MatchesHead(s, t, from, ms);
    if i > 0 {
      MatchesShift(s, t, from, ms, i);
      MatchesFind(s, t, ms[0] + |t|, ms[1..], i - 1);
    }
  }

  /** A non-empty list of matches starts with the first occurrence from `from`. */
  lemma MatchesHead(s: string, t: string, from: nat, ms: seq<nat>)
    requires t != [] && ms == Matches(s, t, from) && ms != []
    ensures FindFrom(s, t, from) == Some(ms[0]) && ms[1..] == Matches(s, t, ms[0] + |t|)
    ensures from <= ms[0] && ms[0] + |t| <= |s|
    ensures forall j :: from <= j < ms[0] ==> !At(s, t, j)
  {
  }

  /** Match `i` of the search from `from` is match `i - 1` of the search from the end of
      the first match, and its search starts at the same place. */
  lemma MatchesShift(s: string, t: string, from: nat, ms: seq<nat>, i: nat)
    requires t != [] && ms == Matches(s, t, from) && 0 < i < |ms|
    ensures ms[1..] == Matches(s, t, ms[0] + |t|) && from < ms[0] + |t| <= |s|
    ensures ms[1..][i - 1] == ms[i]
    ensures SearchStart(ms[1..], t, ms[0] + |t|, i - 1) == SearchStart(ms, t, from, i)
  {
    MatchesHead(s, t, from, ms);
  }

  /** After the last match, or from `from` when there is none, `t` does not occur. */
  lemma {:induction false} MatchesTail(s: string, t: string, from: nat, j: int)
    requires t != []
    requires var ms := Matches(s, t, from); SearchStart(ms, t, from, |ms|) <= j
    ensures !At(s, t, j)
    decreases |s| - from
  {
    match FindFrom(s, t, from)
    case None =>
    case Some(m) =>
      var rest := Matches(s, t, m + |t|);
      var ms := [m] + rest;
      assert ms == Matches(s, t, from);
      if rest != [] {
        assert ms[|ms| - 1] == rest[|rest| - 1];
      }
      assert SearchStart(ms, t, from, |ms|) == SearchStart(rest, t, m + |t|, |rest|);
      MatchesTail(s, t, m + |t|, j);
  }

  /** What `truncate` reads from its options: the omission (default '...', for a falsy
      or absent one) and the separator as text, when it is truthy. */
  function Omission(options: Val): string {
    var o := if IsObject(options) then GetMember(options, "omission") else Undef;
    if Truthy(o) then ToJsString(o) else "..."
  }

  function Separator(options: Val): Option<string> {
    var sep := if IsObject(options) then GetMember(options, "separator") else Undef;
    if Truthy(sep) then Some(ToStr(sep)) else None
  }

  /** Cut before the last separator match, if there is one. */
  function CutAt(s: string, sep: Option<string>): string {
    if sep.None? || sep.value == [] then s
    else match LastOf(Matches(s, sep.value, 0)) case None => s case Some(i) => s[..i]
  }

  /** `truncate(str, len, options)` with a string separator. */
  method Truncate(str: Val, len: int, options: Val) returns (r: string)
    ensures var s := ToStr(str);
      r == if |s| <= len then s else CutAt(s[..Clamp(len, |s|)], Separator(options)) + Omission(options)
  {
    var s := ToStr(str);
    if |s| <= len {
      return s;
    }
    var omission := Omission(options);
    var cut := s[..Clamp(len, |s|)];
    var sep := Separator(options);
    if sep.Some? && sep.value != [] {
      var rs := LastMatch(cut, sep.value);
      if rs.Some? {
        cut := cut[..rs.value];
      }
    }
    r := cut + omission;
  }

  /** What is kept before the omission is a prefix of the first `len` characters;
      a separator that cut it occurs right after the cut, and not again later among
      those characters. */
  lemma CutAtMeaning(x: string, t: string, j: int)
    requires t != []
    ensures var c := CutAt(x, Some(t));
      |c| <= |x| && c == x[..|c|] &&
      (c != x ==> At(x, t, |c|) && (|c| + |t| <= j ==> !At(x, t, j)))
  {
    var ms := Matches(x, t, 0);
    if ms != [] {
      var i := ms[|ms| - 1];
      assert At(x, t, i);
      if i + |t| <= j {
        MatchesTail(x, t, 0, j);
      }
    } else {
      assert CutAt(x, Some(t)) == x;
    }
  }

  /** The documented cases: truncate('func.js', 4) is 'func...',
      truncate('func.js', 3, {omission: '!!!'}) is 'fun!!!'. Matches do not overlap: in
      'aaa' with separator 'aa' the only match is at 0. */
  lemma TruncateExamples()
    ensures CutAt("func", Separator(Undef)) + Omission(Undef) == "func..."
    ensures Omission(Obj([("omission", Str("!!!"))])) == "!!!"
    ensures Matches("aaa", "aa", 0) == [0]
  {
    assert FindFrom("aaa", "aa", 0) == Some(0);
    assert FindFrom("aaa", "aa", 2) == None;
  }

  /** truncate('func.js.com.cn', 13, {separator: '.'}) is 'func.js.com...': the last '.'
      among the first 13 characters is at 11. */
  lemma TruncateSeparatorExample()
    ensures CutAt("func.js.com.c", Some(".")) == "func.js.com"
  {
    var x := "func.js.com.c";
    DotFinds();
    assert Matches(x, ".", 12) == [];
    assert Matches(x, ".", 8) == [11];
    assert Matches(x, ".", 5) == [7, 11];
    assert Matches(x, ".", 0) == [4, 7, 11];
  }

  /** Where the searches for '.' in 'func.js.com.c' stop. */
  lemma DotFinds()
    ensures var x := "func.js.com.c";
      FindFrom(x, ".", 12) == None && FindFrom(x, ".", 8) == Some(11) &&
      FindFrom(x, ".", 5) == Some(7) && FindFrom(x, ".", 0) == Some(4)
  {
    var x := "func.js.com.c";
    DotsAt(x);
    assert FindFrom(x, ".", 12) == None;
    assert FindFrom(x, ".", 11) == Some(11);
    assert FindFrom(x, ".", 9) == Some(11);
    assert FindFrom(x, ".", 8) == Some(11);
    assert FindFrom(x, ".", 7) == Some(7);
    assert FindFrom(x, ".", 5) == Some(7);
    assert FindFrom(x, ".", 4) == Some(4);
    assert FindFrom(x, ".", 2) == Some(4);
    assert FindFrom(x, ".", 0) == Some(4);
  }

  /** A one-character pattern occurs exactly where that character is. */
  lemma DotsAt(x: string)
    ensures forall j | 0 <= j < |x| :: At(x, ".", j) <==> x[j] == '.'
  {
    forall j | 0 <= j < |x|
      ensures At(x, ".", j) <==> x[j] == '.'
    {
      assert x[j..j + 1] == [x[j]];
    }
  }

  /** A truthy separator whose string is empty (an empty array, say) makes a pattern that
      matches the empty string: `exec` then finds it at `lastIndex` without moving
      `lastIndex` on, so the search loop of the source starts again where it stood and
      does not end, whatever the string. */
  lemma TruncateEmptySeparatorAsWritten(s: string, from: nat)
    requires from <= |s|
    ensures Separator(Obj([("separator", Arr([]))])) == Some("")
    ensures FindFrom(s, "", from) == Some(from) && from + |""| == from
  {
    assert At(s, "", from);
  }

  /** The corrected reading: with an empty separator the last match is at the end of the
      string, so nothing is cut. */
  lemma TruncateEmptySeparator(s: string, len: int)
    requires |s| > len
    ensures CutAt(s[..Clamp(len, |s|)], Some("")) == s[..Clamp(len, |s|)]
  {
  }
}
