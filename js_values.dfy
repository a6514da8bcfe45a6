/**
 * The JavaScript values that the overlay scripts read out of a map feature's
 * properties, with the three pieces of JavaScript semantics the scripts rely
 * on: truthiness (`a || b`), loose `== null`, and `String(v).toUpperCase()`.
 */
module JsValues {

  datatype Option<T> = None | Some(value: T)

  /** A property value as it arrives from the decoded geometry: missing
      (`undefined`), `null`, a string, or an integer-valued number. */
  datatype JsVal = Undefined | Null | Str(s: string) | Num(n: int)

  /** JavaScript truthiness: the empty string, zero, `null` and `undefined`
      are falsy, everything else is truthy. */
  predicate Truthy(v: JsVal) {
    match v
    case Undefined => false
    case Null => false
    case Str(s) => s != ""
    case Num(n) => n != 0
  }

  /** Loose equality with null: `v == null` holds for `null` and `undefined`. */
  predicate IsNullish(v: JsVal) {
    v.Undefined? || v.Null?
  }

  /** `a || b`: the left operand when it is truthy, otherwise the right one. */
  function Or(a: JsVal, b: JsVal): (r: JsVal)
    ensures r == a || r == b
    ensures Truthy(r) <==> Truthy(a) || Truthy(b)
    ensures Truthy(a) ==> r == a
  {
    if Truthy(a) then a else b
  }

  /** Reference definition of a fallback chain as an explicit ordered list of
      candidates: the index of the first truthy candidate, |vs| when none is. */
  function FirstTruthyIndex(vs: seq<JsVal>): (i: nat)
    ensures i <= |vs|
    ensures forall j :: 0 <= j < i ==> !Truthy(vs[j])
    ensures i < |vs| ==> Truthy(vs[i])
  {
    if vs == [] then 0
    else if Truthy(vs[0]) then 0
    else 1 + FirstTruthyIndex(vs[1..])
  }

  /** The first truthy candidate of an ordered list, if any. */
  function FirstTruthy(vs: seq<JsVal>): (r: Option<JsVal>)
    ensures r.Some? ==> Truthy(r.value) && r.value in vs
    ensures r.None? <==> forall j :: 0 <= j < |vs| ==> !Truthy(vs[j])
  {
    var i := FirstTruthyIndex(vs);
    if i < |vs| then Some(vs[i]) else None
  }

  /** A chain `a || b || ... || last` (left-associated) picks the first truthy
      operand, and falls back on the last operand when none before it is. */
  lemma {:induction false} OrChainIsFirstTruthy(vs: seq<JsVal>, last: JsVal)
    ensures OrChain(vs, last) == (match FirstTruthy(vs) case Some(v) => v case None => last)
    decreases |vs|
  {
    if vs != [] {
      var init := vs[..|vs| - 1];
      OrChainIsFirstTruthy(init, vs[|vs| - 1]);
      FirstTruthyOfSnoc(init, vs[|vs| - 1]);
    }
  }

  /** `vs[0] || vs[1] || ... || last`, associated to the left as JavaScript does. */
  function OrChain(vs: seq<JsVal>, last: JsVal): JsVal
    decreases |vs|
  {
    if vs == [] then last else Or(OrChain(vs[..|vs| - 1], vs[|vs| - 1]), last)
  }

  lemma {:induction false} FirstTruthyOfSnoc(vs: seq<JsVal>, v: JsVal)
    ensures FirstTruthy(vs + [v]) ==
      (match FirstTruthy(vs) case Some(u) => Some(u) case None => if Truthy(v) then Some(v) else None)
  {
    var i := FirstTruthyIndex(vs);
    var k := FirstTruthyIndex(vs + [v]);
    assert forall j :: 0 <= j < |vs| ==> (vs + [v])[j] == vs[j];
    assert (vs + [v])[|vs|] == v;
    if i < |vs| {
      assert k == i;
    } else {
      assert k >= |vs|;
    }
  }

  // ---- String(v) --------------------------------------------------------

  function DigitChar(d: nat): (c: char)
    requires d < 10
    ensures '0' <= c <= '9'
  {
    ('0' as int + d) as char
  }

  /** Decimal digits of a natural number, without leading zeros. */
  function Digits(n: nat): (s: string)
    ensures |s| > 0
    ensures forall i :: 0 <= i < |s| ==> '0' <= s[i] <= '9'
  {
    if n < 10 then [DigitChar(n)] else Digits(n / 10) + [DigitChar(n % 10)]
  }

  /** The number denoted by a string of decimal digits. */
  function DigitsValue(s: string): nat
  {
    if s == [] then 0
    else DigitsValue(s[..|s| - 1]) * 10 + (if '0' <= s[|s| - 1] <= '9' then s[|s| - 1] as int - '0' as int else 0)
  }

  /** Reading back the digits of n gives n. */
  lemma {:induction false} DigitsRoundTrip(n: nat)
    ensures DigitsValue(Digits(n)) == n
    decreases n
  {
    if n >= 10 {
      var s := Digits(n);
      assert s[..|s| - 1] == Digits(n / 10);
      DigitsRoundTrip(n / 10);
    }
  }

  /** `String(n)` for an integer-valued number. */
  function DecimalOf(n: int): (s: string)
    ensures |s| > 0
    ensures forall i :: 0 <= i < |s| ==> s[i] == '-' || '0' <= s[i] <= '9'
  {
    if n < 0 then "-" + Digits(-n) else Digits(n)
  }

  /** Distinct numbers print differently, so `String` is injective on them. */
  lemma DecimalOfInjective(m: int, n: int)
    requires DecimalOf(m) == DecimalOf(n)
    ensures m == n
  {
    DecimalOfSign(m);
    DecimalOfSign(n);
    if m < 0 {
      assert Digits(-m) == DecimalOf(m)[1..];
      assert Digits(-n) == DecimalOf(n)[1..];
      DigitsRoundTrip(-m);
      DigitsRoundTrip(-n);
    } else {
      DigitsRoundTrip(m);
      DigitsRoundTrip(n);
    }
  }

  /** The printed form starts with a minus sign exactly for negative numbers. */
  lemma DecimalOfSign(n: int)
    ensures DecimalOf(n)[0] == '-' <==> n < 0
  {
    if n >= 0 {
      assert DecimalOf(n)[0] == Digits(n)[0];
    }
  }

  /** `String(v)`. */
  function ToJsString(v: JsVal): string
  {
    match v
    case Undefined => "undefined"
    case Null => "null"
    case Str(s) => s
    case Num(n) => DecimalOf(n)
  }

  // ---- toUpperCase() ----------------------------------------------------

  predicate IsLowerAscii(c: char) {
    'a' <= c <= 'z'
  }

  function UpperChar(c: char): (u: char)
    ensures !IsLowerAscii(u)
    ensures !IsLowerAscii(c) ==> u == c
  {
    if IsLowerAscii(c) then (c as int - 32) as char else c
  }

  /** `s.toUpperCase()` on the ASCII letters. */
  function ToUpper(s: string): (r: string)
    ensures |r| == |s|
    ensures forall i :: 0 <= i < |s| ==> r[i] == UpperChar(s[i])
  {
    seq(|s|, i requires 0 <= i < |s| => UpperChar(s[i]))
  }

  /** No character of s is a lower-case ASCII letter. */
  predicate IsUpperCase(s: string) {
    forall i :: 0 <= i < |s| ==> !IsLowerAscii(s[i])
  }

  /** Upper-casing yields an upper-case string and is idempotent. */
  lemma ToUpperIsUpperCase(s: string)
    ensures IsUpperCase(ToUpper(s))
    ensures ToUpper(ToUpper(s)) == ToUpper(s)
  {
  }

  /** Upper-casing leaves an upper-case string alone. */
  lemma ToUpperFixesUpperCase(s: string)
    requires IsUpperCase(s)
    ensures ToUpper(s) == s
  {
  }

  /** Only "-99" itself upper-cases to "-99": the sentinel has no letters. */
  lemma ToUpperSentinel(s: string)
    ensures ToUpper(s) == "-99" <==> s == "-99"
  {
    if ToUpper(s) == "-99" {
      assert |s| == 3;
      assert UpperChar(s[0]) == '-' && UpperChar(s[1]) == '9' && UpperChar(s[2]) == '9';
      assert s == "-99";
    }
  }

  /** The printed form of every number is already upper case. */
  lemma DecimalOfIsUpperCase(n: int)
    ensures IsUpperCase(DecimalOf(n))
  {
  }

  lemma DecimalOfMinus99()
    ensures DecimalOf(-99) == "-99"
  {
    assert Digits(9) == "9";
    assert Digits(99) == "99";
  }
}
