/**
 * Number conversions and comparisons of src/number.ts. The library's numbers are
 * modelled as reals plus NaN; infinities, exponents and hexadecimal literals are
 * not part of this model.
 */
module Num {
  import opened JsValues
  import opened Is

  datatype Number = Fin(r: real) | NotANumber

  function Pow10(n: nat): (p: nat)
    ensures p >= 1
  {
    if n == 0 then 1 else 10 * Pow10(n - 1)
  }

  /** Index of the first '.' in `s`, or |s|. */
  function DotAt(s: string): (i: nat)
    ensures i <= |s| && (i < |s| ==> s[i] == '.') && forall j :: 0 <= j < i ==> s[j] != '.'
  {
    if s == [] then 0 else if s[0] == '.' then 0 else 1 + DotAt(s[1..])
  }

  /** An unsigned decimal literal `digits [. digits]` with at least one digit. */
  function ParseUnsigned(s: string): Number {
    var d := DotAt(s);
    var ip := s[..d];
    var fp := if d < |s| then s[d + 1..] else [];
    if AllDigits(ip) && AllDigits(fp) && |ip| + |fp| > 0 && (d < |s| || fp == [])
    then Fin(DigitsVal(ip) as real + DigitsVal(fp) as real / Pow10(|fp|) as real)
    else NotANumber
  }

  /** StringToNumber: blank gives 0, an optionally signed decimal literal gives its value,
      anything else NaN. */
  function ParseNumeric(s: string): Number {
    var t := Trim(s);
    if t == [] then Fin(0.0)
    else if t[0] == '-' then (match ParseUnsigned(t[1..]) case Fin(r) => Fin(-r) case NotANumber => NotANumber)
    else if t[0] == '+' then ParseUnsigned(t[1..])
    else ParseUnsigned(t)
  }

  /** The language's `Number(v)` (ToNumber). Objects convert through their string form. */
  function ToNumber(v: Val): Number {
    match v
    case Undef => NotANumber
    case Null => Fin(0.0)
    case Bool(b) => if b then Fin(1.0) else Fin(0.0)
    case Num(n) => Fin(n as real)
    case NegZero => Fin(0.0)
    case NaN => NotANumber
    case Str(s) => ParseNumeric(s)
    case _ => ParseNumeric(ToJsString(v))
  }

  /** `toNumber` (number.ts:204-207): null and undefined give NaN, the rest `Number(v)`. */
  function LibToNumber(v: Val): (x: Number)
    ensures IsNil(v) ==> x == NotANumber
    ensures !IsNil(v) ==> x == ToNumber(v)
  {
    if v == Undef || v == Null then NotANumber else ToNumber(v)
  }

  /** Rounding toward zero. */
  function Trunc(r: real): (t: int)
    ensures r >= 0.0 ==> 0 <= t && t as real <= r < t as real + 1.0
    ensures r < 0.0 ==> t <= 0 && t as real - 1.0 < r <= t as real
  {
    if r >= 0.0 then r.Floor else -((-r).Floor)
  }

  const TwoTo31: int := 0x8000_0000
  const TwoTo32: int := 0x1_0000_0000

  /** ToInt32 (section 7.1.6 of ECMA-262): NaN gives 0; otherwise truncate and wrap
      modulo 2^32 into [-2^31, 2^31). */
  function ToInt32(x: Number): (i: int)
    ensures -TwoTo31 <= i < TwoTo31
    ensures x.Fin? ==> (i - Trunc(x.r)) % TwoTo32 == 0
    ensures x.NotANumber? ==> i == 0
  {
    match x
    case NotANumber => 0
    case Fin(r) =>
      var m := Trunc(r) % TwoTo32;
      if m >= TwoTo31 then m - TwoTo32 else m
  }

  /** `toInteger(v)` is `v >> 0`. */
  function ToInteger(v: Val): int {
    ToInt32(ToNumber(v))
  }

  /** ToInt32 leaves every integer already in the 32-bit range unchanged. */
  lemma ToInt32InRange(n: int)
    requires -TwoTo31 <= n < TwoTo31
    ensures ToInt32(Fin(n as real)) == n
  {
    assert Trunc(n as real) == n;
    if n < 0 {
      assert (n % TwoTo32) == n + TwoTo32;
    }
  }

  /** 2^31 wraps to -2^31, and 2^32 + 5 wraps to 5. */
  lemma ToInt32Wraps()
    ensures ToInt32(Fin(TwoTo31 as real)) == -TwoTo31
    ensures ToInt32(Fin((TwoTo32 + 5) as real)) == 5
  {
    assert Trunc(TwoTo31 as real) == TwoTo31;
    assert Trunc((TwoTo32 + 5) as real) == TwoTo32 + 5;
  }

  /** The fraction is dropped toward zero: 9.99 gives 9 and -9.99 gives -9. */
  lemma ToInt32Truncates()
    ensures ToInt32(Fin(9.99)) == 9
    ensures ToInt32(Fin(-9.99)) == -9
  {
    assert Trunc(9.99) == 9;
    assert Trunc(-9.99) == -9;
  }

  lemma TrimUnchanged(s: string)
    requires s != [] && !IsSpace(s[0]) && !IsSpace(s[|s| - 1])
    ensures Trim(s) == s
  {
  }

  /** A string of digits without a dot parses as that natural number. */
  lemma ParseDigits(s: string)
    requires s != [] && AllDigits(s)
    ensures ParseNumeric(s) == Fin(DigitsVal(s) as real)
  {
    TrimUnchanged(s);
    assert DotAt(s) == |s|;
    assert s[..|s|] == s;
  }

  /** The decimal digits of a natural number parse back as that number. */
  lemma ParseNatString(n: nat)
    ensures ParseNumeric(NatToStr(n)) == Fin(n as real)
  {
    NatToStrShape(n);
    ParseDigits(NatToStr(n));
  }

  lemma DigitsExamples()
    ensures DigitsVal("12") == 12 && DigitsVal("34") == 34
  {
    assert "12"[..1] == "1" && "1"[..0] == "";
    assert "34"[..1] == "3" && "3"[..0] == "";
  }

  /** '12.34' parses as 12.34. */
  lemma ParseDecimalExample()
    ensures ParseUnsigned("12.34") == Fin(12.34)
  {
    var s := "12.34";
    assert DotAt(s) == 2 by {
      assert s[1..][1..] == ".34";
    }
    assert s[..2] == "12" && s[3..] == "34";
    DigitsExamples();
  }

  /** toInteger('12.34') is 12. */
  lemma ToIntegerOfDecimalString()
    ensures ToInteger(Str("12.34")) == 12
  {
    ParseDecimalString();
    assert ToNumber(Str("12.34")) == Fin(12.34);
    assert Trunc(12.34) == 12;
  }

  /** '12.34' converts to the number 12.34. */
  lemma ParseDecimalString()
    ensures ParseNumeric("12.34") == Fin(12.34)
  {
    TrimUnchanged("12.34");
    ParseDecimalExample();
  }

  /** Unicode white space is stripped like ASCII white space: toNumber('\u00A012\u3000')
      is 12. */
  lemma ToNumberUnicodeSpace(s: string)
    requires s == "\U{00A0}12\U{3000}"
    ensures LibToNumber(Str(s)) == Fin(12.0)
  {
    assert LibToNumber(Str(s)) == ParseNumeric(s);
    TrimUnicodeExample(s);
    ParseTwelve(s, "12");
  }

  /** Text whose trimmed form is '12' parses as 12. */
  lemma ParseTwelve(s: string, t: string)
    requires t == "12" && Trim(s) == t
    ensures ParseNumeric(s) == Fin(12.0)
  {
    assert ParseNumeric(s) == ParseUnsigned(t);
    TrimUnchanged(t);
    ParseDigits(t);
    assert ParseNumeric(t) == ParseUnsigned(t);
    DigitsExamples();
  }

  lemma TrimUnicodeExample(s: string)
    requires s == "\U{00A0}12\U{3000}"
    ensures Trim(s) == "12"
  {
    var t := "12\U{3000}";
    assert s[1..] == t;
    assert IsSpace(s[0]) && !IsSpace(t[0]);
    assert TrimStart(t) == t;
    assert TrimStart(s) == t;
    assert t[..2] == "12";
    assert IsSpace(t[2]) && !IsSpace('2');
    assert TrimEnd("12") == "12";
  }

  /** toInteger(null) is 0. */
  lemma ToIntegerOfNull()
    ensures ToInteger(Null) == 0
  {
  }

  lemma ParseNonNumericExample()
    ensures ParseUnsigned("1x") == NotANumber
  {
    var t := "1x";
    assert DotAt(t) == 2 by {
      assert t[1..][1..] == "";
    }
    assert !IsDigit(t[..2][1]);
  }

  /** A string that is not a number converts to NaN, so toInteger gives 0. */
  lemma ToIntegerOfNonNumeric()
    ensures ToInteger(Str("1x")) == 0
  {
    TrimUnchanged("1x");
    ParseNonNumericExample();
  }

  predicate Less(x: Number, y: Number) {
    x.Fin? && y.Fin? && x.r < y.r
  }

  predicate LessEq(x: Number, y: Number) {
    x.Fin? && y.Fin? && x.r <= y.r
  }

  /** `lt`, `lte`, `gt`, `gte` (number.ts:223-283) compare the library's `toNumber` of both sides. */
  predicate Lt(a: Val, b: Val) { Less(LibToNumber(a), LibToNumber(b)) }
  predicate Lte(a: Val, b: Val) { LessEq(LibToNumber(a), LibToNumber(b)) }
  predicate Gt(a: Val, b: Val) { Less(LibToNumber(b), LibToNumber(a)) }
  predicate Gte(a: Val, b: Val) { LessEq(LibToNumber(b), LibToNumber(a)) }

  /** When both sides convert to numbers the four comparisons are the usual order;
      when either side is NaN, null or undefined all four are false. */
  lemma ComparisonsTotalOnNumbers(a: Val, b: Val)
    ensures LibToNumber(a).Fin? && LibToNumber(b).Fin? ==>
      (Lt(a, b) <==> !Gte(a, b)) && (Lte(a, b) <==> !Gt(a, b)) && (Gt(a, b) <==> Lt(b, a))
    ensures (LibToNumber(a).NotANumber? || LibToNumber(b).NotANumber?) ==>
      !Lt(a, b) && !Lte(a, b) && !Gt(a, b) && !Gte(a, b)
    ensures IsNil(a) ==> !Lt(a, b) && !Lte(a, b) && !Gt(a, b) && !Gte(a, b)
  {
  }

  /** lt(5,'5') is false and lte(5,'5') is true; lt(1,2) and gt(2,1) hold. */
  lemma CompareExamples()
    ensures !Lt(Num(5), Str("5")) && Lte(Num(5), Str("5")) && Gte(Num(5), Str("5"))
    ensures Lt(Num(1), Num(2)) && Gt(Num(2), Num(1))
  {
    NumberFive("5");
  }

  /** Number('5') is 5. */
  lemma NumberFive(t: string)
    requires t == "5"
    ensures LibToNumber(Str(t)) == Fin(5.0)
  {
    ParseDigits(t);
    assert t[..0] == "";
  }

  /** lte(5,'b') and gte(5,'b') are both false: 'b' converts to NaN. */
  lemma CompareLetterExample()
    ensures !Lte(Num(5), Str("b")) && !Gte(Num(5), Str("b"))
  {
    LetterIsNaN();
    assert LibToNumber(Num(5)) == Fin(5.0);
  }

  /** Number('b') is NaN. */
  lemma LetterIsNaN()
    ensures LibToNumber(Str("b")) == NotANumber
  {
    TrimUnchanged("b");
    assert ParseNumeric("b") == ParseUnsigned("b");
    UnsignedLetter();
  }

  /** 'b' is not a decimal literal. */
  lemma UnsignedLetter()
    ensures ParseUnsigned("b") == NotANumber
  {
    assert DotAt("b") == 1;
    assert !AllDigits("b"[..1]) by { assert "b"[..1][0] == 'b'; }
  }

  /** `inRange(v, start?, end?)` (number.ts:335-347). */
  function InRange(v: Val, start: Option<Number>, end: Option<Number>): bool {
    // start = start || 0
    var s0 := if start.Some? && start.value.Fin? && start.value.r != 0.0 then start.value else Fin(0.0);
    // an undefined end makes the start the end and 0 the start
    var s1 := if end.None? then Fin(0.0) else s0;
    var e1 := if end.None? then s0 else end.value;
    // start > end swaps them
    var swap := Less(e1, s1);
    var lo := if swap then e1 else s1;
    var hi := if swap then s1 else e1;
    LessEq(lo, LibToNumber(v)) && Less(LibToNumber(v), hi)
  }

  /** With finite bounds `inRange` is the half-open interval between the smaller and the
      larger bound, whichever order they are given in. */
  lemma {:induction false} InRangeHalfOpen(v: Val, a: real, b: real)
    ensures InRange(v, Some(Fin(a)), Some(Fin(b))) <==>
      LibToNumber(v).Fin? &&
      (if a <= b then a <= LibToNumber(v).r < b else b <= LibToNumber(v).r < a)
  {
  }

  /** `inRange(v, end)` is `inRange(v, 0, end)`, and an undefined start counts as 0. */
  lemma {:induction false} InRangeOneBound(v: Val, e: Option<Number>)
    ensures InRange(v, e, None) == InRange(v, Some(Fin(0.0)), e)
    ensures InRange(v, None, e) == InRange(v, Some(Fin(0.0)), e)
  {
  }

  /** inRange(1,1,2), inRange(2,3), inRange(-2,-2,0) and inRange(-1,-2) hold; inRange(2,0,2) does not. */
  lemma InRangeExamples()
    ensures InRange(Num(1), Some(Fin(1.0)), Some(Fin(2.0)))
    ensures InRange(Num(2), Some(Fin(3.0)), None)
    ensures !InRange(Num(2), Some(Fin(0.0)), Some(Fin(2.0)))
    ensures InRange(Num(-2), Some(Fin(-2.0)), Some(Fin(0.0)))
    ensures InRange(Num(-1), Some(Fin(-2.0)), None)
  {
  }
}
