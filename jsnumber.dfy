/** JavaScript's `Number(text)` and number-to-text conversion, on exact decimals.
    `Number(text)` follows the StringToNumber grammar of ECMA-262 (section 7.1.4.1.1):
    white space around the literal is ignored, empty text is 0, "0x"/"0o"/"0b"
    literals, an optionally signed decimal literal with fraction and exponent, or
    "Infinity"; anything else is NaN, which is `None` here. */
module JsNumber {
  import opened Seqs
  import opened JsText

  /** A number other than NaN: the exact decimal `mantissa / 10^scale`, or an infinity. */
  datatype Number = Finite(mantissa: int, scale: nat) | Infinity(negative: bool)

  /** Decimals in lowest terms, so that equal values have equal representations. */
  type Num = n: Number | n.Infinity? || n.scale == 0 || n.mantissa % 10 != 0
    witness Finite(0, 0)

  const Zero: Num := Finite(0, 0)

  // ---- digits ----

  /** Value of `c` as a digit of any radix up to 16, or -1. */
  function DigitValue(c: char): int {
    if '0' <= c <= '9' then c as int - '0' as int
    else if 'a' <= c <= 'f' then c as int - 'a' as int + 10
    else if 'A' <= c <= 'F' then c as int - 'A' as int + 10
    else -1
  }

  predicate IsDigitIn(c: char, radix: nat) {
    0 <= DigitValue(c) < radix
  }

  predicate AllDigitsIn(ds: string, radix: nat) {
    forall i :: 0 <= i < |ds| ==> IsDigitIn(ds[i], radix)
  }

  /** The value of a string of digits in `radix`, most significant first. */
  function DigitsValue(ds: string, radix: nat): nat
    requires AllDigitsIn(ds, radix)
    decreases |ds|
  {
    if ds == [] then 0
    else radix * DigitsValue(ds[..|ds| - 1], radix) + DigitValue(ds[|ds| - 1])
  }

  /** The length of the run of decimal digits that starts `s`. */
  function DigitRun(s: string): (n: nat)
    ensures n <= |s|
    ensures AllDigitsIn(s[..n], 10)
    ensures n < |s| ==> !IsDigitIn(s[n], 10)
    decreases |s|
  {
    if s != [] && IsDigitIn(s[0], 10) then
      var n := 1 + DigitRun(s[1..]);
      assert forall i :: 1 <= i < n ==> s[..n][i] == s[1..][..n - 1][i - 1];
      n
    else 0
  }

  /** `m * 10^e`, as repeated multiplication by ten. */
  function TimesPow10(m: int, e: nat): int
    decreases e
  {
    if e == 0 then m else 10 * TimesPow10(m, e - 1)
  }

  // ---- Number(text) ----

  /** `m * 10^e` in lowest terms. */
  function Scaled(m: int, e: int): Num {
    if e >= 0 then Finite(TimesPow10(m, e), 0) else Lowest(m, -e)
  }

  function Lowest(m: int, scale: nat): Num
    decreases scale
  {
    if scale > 0 && m % 10 == 0 then Lowest(m / 10, scale - 1) else Finite(m, scale)
  }

  function Negate(n: Option<Num>): Option<Num> {
    match n
    case None => None
    case Some(Infinity(neg)) => Some(Infinity(!neg))
    case Some(Finite(m, scale)) =>
      assert scale > 0 ==> m % 10 != 0;
      assert (-m) % 10 == 0 ==> m % 10 == 0;
      Some(Finite(-m, scale))
  }

  /** A "0x", "0o" or "0b" literal after its prefix: at least one digit, nothing else. */
  function RadixLiteral(ds: string, radix: nat): Option<Num> {
    if ds != [] && AllDigitsIn(ds, radix) then Some(Finite(DigitsValue(ds, radix), 0)) else None
  }

  /** The exponent part that ends a decimal literal: empty, or "e"/"E", an optional
      sign and at least one digit. */
  function ExponentPart(s: string): Option<int> {
    if s == [] then Some(0)
    else if s[0] != 'e' && s[0] != 'E' then None
    else
      var t := s[1..];
      var neg := t != [] && t[0] == '-';
      var ds := if t != [] && (t[0] == '-' || t[0] == '+') then t[1..] else t;
      if ds != [] && AllDigitsIn(ds, 10) then
        var v: int := DigitsValue(ds, 10);
        Some(if neg then -v else v)
      else None
  }

  /** An unsigned decimal literal: digits, an optional "." with digits, at least one
      digit in all, then the exponent part. */
  function DecimalLiteral(u: string): Option<Num> {
    var i := DigitRun(u);
    AfterIntegerPart(u[..i], u[i..])
  }

  function AfterIntegerPart(intPart: string, afterInt: string): Option<Num>
    requires AllDigitsIn(intPart, 10)
  {
    if afterInt != [] && afterInt[0] == '.' then
      var fraction := afterInt[1..];
      var f := DigitRun(fraction);
      LiteralValue(intPart, fraction[..f], fraction[f..])
    else LiteralValue(intPart, [], afterInt)
  }

  /** The value of a decimal literal split into its integer digits, its fraction
      digits and what follows them. */
  function LiteralValue(intPart: string, fracPart: string, rest: string): Option<Num>
    requires AllDigitsIn(intPart, 10) && AllDigitsIn(fracPart, 10)
  {
    if intPart == [] && fracPart == [] then None
    else
      assert AllDigitsIn(intPart + fracPart, 10) by {
        assert forall i :: 0 <= i < |intPart| ==> (intPart + fracPart)[i] == intPart[i];
        assert forall i :: |intPart| <= i < |intPart| + |fracPart| ==> (intPart + fracPart)[i] == fracPart[i - |intPart|];
      }
      match ExponentPart(rest)
      case None => None
      case Some(e) => Some(Scaled(DigitsValue(intPart + fracPart, 10), e - |fracPart|))
  }

  function UnsignedLiteral(u: string): Option<Num> {
    if u == "Infinity" then Some(Infinity(false)) else DecimalLiteral(u)
  }

  /** `Number(text)`; `None` is NaN. */
  function ToNumber(text: string): Option<Num> {
    TrimmedToNumber(Trim(text))
  }

  /** `Number` of text without white space around it. */
  function TrimmedToNumber(t: string): Option<Num> {
    if t == [] then Some(Zero)
    else if |t| >= 2 && t[0] == '0' && (t[1] == 'x' || t[1] == 'X') then RadixLiteral(t[2..], 16)
    else if |t| >= 2 && t[0] == '0' && (t[1] == 'o' || t[1] == 'O') then RadixLiteral(t[2..], 8)
    else if |t| >= 2 && t[0] == '0' && (t[1] == 'b' || t[1] == 'B') then RadixLiteral(t[2..], 2)
    else if t[0] == '-' then Negate(UnsignedLiteral(t[1..]))
    else if t[0] == '+' then UnsignedLiteral(t[1..])
    else UnsignedLiteral(t)
  }

  /** Empty and all-white-space text converts to 0, not NaN. */
  lemma BlankIsZero(text: string)
    requires forall i :: 0 <= i < |text| ==> IsSpace(text[i])
    ensures ToNumber(text) == Some(Zero)
  {
  }

  // ---- number to text ----

  function DigitChar(d: nat): (c: char)
    requires d < 10
    ensures IsDigitIn(c, 10) && DigitValue(c) == d
  {
    ('0' as int + d) as char
  }

  /** The decimal digits of `n`, without leading zeros. */
  function NatDigits(n: nat): (ds: string)
    ensures ds != [] && AllDigitsIn(ds, 10)
    ensures DigitsValue(ds, 10) == n
  {
    if n < 10 then
      var ds := [DigitChar(n)];
      assert ds[..0] == [];
      ds
    else
      var ds := NatDigits(n / 10) + [DigitChar(n % 10)];
      assert ds[..|ds| - 1] == NatDigits(n / 10);
      ds
  }

  function Zeros(k: nat): (z: string)
    ensures |z| == k && AllDigitsIn(z, 10)
  {
    seq(k, i requires 0 <= i < k => '0')
  }

  /** The digits `ds` with a decimal point before the last `scale` of them, padded
      with leading zeros so that at least one digit precedes the point. */
  function WithPoint(ds: string, scale: nat): string {
    if scale == 0 then ds
    else
      var padded := Zeros(if |ds| > scale then 0 else scale + 1 - |ds|) + ds;
      padded[..|padded| - scale] + "." + padded[|padded| - scale..]
  }

  /** Number-to-text conversion (`String(n)`, as `join` applies it), in plain
      decimal notation. */
  function ToText(n: Num): string {
    match n
    case Infinity(neg) => (if neg then "-" else "") + "Infinity"
    case Finite(m, scale) =>
      (if m < 0 then "-" else "") + WithPoint(NatDigits(if m < 0 then -m else m), scale)
  }

  // ---- the round trip ----

  lemma {:induction false} ZerosValue(z: nat)
    ensures DigitsValue(Zeros(z), 10) == 0
  {
    if z > 0 {
      assert Zeros(z)[..z - 1] == Zeros(z - 1);
      ZerosValue(z - 1);
    }
  }

  /** Leading zeros do not change the value of a digit string. */
  lemma {:induction false} LeadingZeros(z: nat, ds: string)
    requires AllDigitsIn(ds, 10)
    ensures AllDigitsIn(Zeros(z) + ds, 10)
    ensures DigitsValue(Zeros(z) + ds, 10) == DigitsValue(ds, 10)
    decreases |ds|
  {
    var s := Zeros(z) + ds;
    if ds == [] {
      assert s == Zeros(z);
      ZerosValue(z);
    } else {
      var n := |ds| - 1;
      LeadingZeros(z, ds[..n]);
      assert s[..|s| - 1] == Zeros(z) + ds[..n];
      assert s[|s| - 1] == ds[n];
    }
  }

  /** A run of digits ends where the digits end. */
  lemma DigitRunOf(x: string, y: string)
    requires AllDigitsIn(x, 10)
    requires y == [] || !IsDigitIn(y[0], 10)
    ensures DigitRun(x + y) == |x|
  {
    var s := x + y;
    assert forall i :: 0 <= i < |x| ==> s[i] == x[i];
    assert y != [] ==> s[|x|] == y[0];
  }

  /** A literal with digits on both sides of the point. */
  lemma DecimalLiteralWithPoint(intPart: string, fracPart: string)
    requires intPart != [] && AllDigitsIn(intPart, 10) && AllDigitsIn(fracPart, 10)
    ensures DecimalLiteral(intPart + "." + fracPart) == LiteralValue(intPart, fracPart, [])
  {
    var u := intPart + "." + fracPart;
    assert u == intPart + ("." + fracPart);
    DigitRunOf(intPart, "." + fracPart);
    assert u[..|intPart|] == intPart;
    assert u[|intPart|..] == "." + fracPart;
    AfterPoint(intPart, fracPart);
  }

  /** After the integer digits, a point and the fraction digits end the literal. */
  lemma AfterPoint(intPart: string, fracPart: string)
    requires AllDigitsIn(intPart, 10) && AllDigitsIn(fracPart, 10)
    ensures AfterIntegerPart(intPart, "." + fracPart) == LiteralValue(intPart, fracPart, [])
  {
    assert ("." + fracPart)[1..] == fracPart;
    DigitRunOf(fracPart, []);
    assert fracPart + [] == fracPart;
    assert fracPart[..|fracPart|] == fracPart && fracPart[|fracPart|..] == [];
  }

  /** Without an exponent, a literal is its digits scaled down by its fraction digits. */
  lemma LiteralValueNoExponent(intPart: string, fracPart: string)
    requires intPart != [] && AllDigitsIn(intPart, 10) && AllDigitsIn(fracPart, 10)
    ensures AllDigitsIn(intPart + fracPart, 10)
    ensures LiteralValue(intPart, fracPart, []) == Some(Scaled(DigitsValue(intPart + fracPart, 10), -|fracPart|))
  {
    assert forall i :: 0 <= i < |intPart| ==> (intPart + fracPart)[i] == intPart[i];
    assert forall i :: |intPart| <= i < |intPart| + |fracPart| ==> (intPart + fracPart)[i] == fracPart[i - |intPart|];
  }

  /** A literal that is digits only. */
  lemma DecimalLiteralDigits(ds: string)
    requires ds != [] && AllDigitsIn(ds, 10)
    ensures DecimalLiteral(ds) == LiteralValue(ds, [], [])
  {
    DigitRunOf(ds, []);
    assert ds + [] == ds;
    assert ds[..|ds|] == ds && ds[|ds|..] == [];
  }

  /** `WithPoint` writes digits and at most one point, a digit first and a digit
      last, and reads back as `ds` scaled down by `scale` decimal places. */
  predicate PlainDecimal(body: string, value: nat, scale: nat) {
    && body != []
    && IsDigitIn(body[0], 10) && IsDigitIn(body[|body| - 1], 10)
    && (forall i :: 0 <= i < |body| ==> IsDigitIn(body[i], 10) || body[i] == '.')
    && DecimalLiteral(body) == Some(Scaled(value, -(scale as int)))
  }

  lemma WithPointIsPlainDecimal(ds: string, scale: nat)
    requires ds != [] && AllDigitsIn(ds, 10)
    ensures PlainDecimal(WithPoint(ds, scale), DigitsValue(ds, 10), scale)
  {
    if scale == 0 {
      DecimalLiteralDigits(ds);
      LiteralValueNoExponent(ds, []);
      assert ds + [] == ds;
    } else {
      WithPointScaled(ds, scale);
    }
  }

  lemma WithPointScaled(ds: string, scale: nat)
    requires ds != [] && AllDigitsIn(ds, 10) && scale > 0
    ensures PlainDecimal(WithPoint(ds, scale), DigitsValue(ds, 10), scale)
  {
    var intPart, fracPart := WithPointParts(ds, scale);
    PointedIsPlainDecimal(intPart, fracPart);
  }

  /** The two sides of the point that `WithPoint` writes. */
  lemma WithPointParts(ds: string, scale: nat) returns (intPart: string, fracPart: string)
    requires ds != [] && AllDigitsIn(ds, 10) && scale > 0
    ensures intPart != [] && AllDigitsIn(intPart, 10) && AllDigitsIn(fracPart, 10)
    ensures |fracPart| == scale && WithPoint(ds, scale) == intPart + "." + fracPart
    ensures AllDigitsIn(intPart + fracPart, 10) && DigitsValue(intPart + fracPart, 10) == DigitsValue(ds, 10)
  {
    var z := if |ds| > scale then 0 else scale + 1 - |ds|;
    var padded := Zeros(z) + ds;
    LeadingZeros(z, ds);
    var k := |padded| - scale;
    intPart, fracPart := padded[..k], padded[k..];
    CutDigits(padded, k);
  }

  /** Both sides of a cut through a digit string are digit strings. */
  lemma CutDigits(ds: string, k: nat)
    requires AllDigitsIn(ds, 10) && k <= |ds|
    ensures AllDigitsIn(ds[..k], 10) && AllDigitsIn(ds[k..], 10) && ds[..k] + ds[k..] == ds
  {
    assert forall i :: 0 <= i < k ==> ds[..k][i] == ds[i];
    assert forall i :: 0 <= i < |ds| - k ==> ds[k..][i] == ds[k + i];
  }

  lemma PointedIsPlainDecimal(intPart: string, fracPart: string)
    requires intPart != [] && fracPart != [] && AllDigitsIn(intPart, 10) && AllDigitsIn(fracPart, 10)
    ensures AllDigitsIn(intPart + fracPart, 10)
    ensures PlainDecimal(intPart + "." + fracPart, DigitsValue(intPart + fracPart, 10), |fracPart|)
  {
    DecimalLiteralWithPoint(intPart, fracPart);
    LiteralValueNoExponent(intPart, fracPart);
    PointedShape(intPart, fracPart);
  }

  lemma PointedShape(intPart: string, fracPart: string)
    requires intPart != [] && fracPart != [] && AllDigitsIn(intPart, 10) && AllDigitsIn(fracPart, 10)
    ensures var body := intPart + "." + fracPart;
      && IsDigitIn(body[0], 10) && IsDigitIn(body[|body| - 1], 10)
      && (forall i :: 0 <= i < |body| ==> IsDigitIn(body[i], 10) || body[i] == '.')
  {
    var body := intPart + "." + fracPart;
    var k := |intPart|;
    assert body[0] == intPart[0] && body[|body| - 1] == fracPart[|fracPart| - 1];
    forall i | 0 <= i < |body| ensures IsDigitIn(body[i], 10) || body[i] == '.' {
      if i < k { assert body[i] == intPart[i]; }
      else if i > k { assert body[i] == fracPart[i - k - 1]; }
    }
  }

  /** A number in lowest terms is its own lowest-terms form. */
  lemma ScaledCanonical(a: nat, scale: nat)
    requires scale == 0 || a % 10 != 0
    ensures Scaled(a, -(scale as int)) == Finite(a, scale)
  {
  }

  /** Plain decimal text reads back as its value. */
  lemma ReadPlain(body: string, value: nat, scale: nat)
    requires PlainDecimal(body, value, scale)
    ensures ToNumber(body) == Some(Scaled(value, -(scale as int)))
  {
    assert |body| >= 2 ==> IsDigitIn(body[1], 10) || body[1] == '.';
    ToNumberDigitFirst(body);
    PlainUnsigned(body, value, scale);
  }

  /** Text that starts with a digit not followed by a radix letter, and has nothing to
      trim, reads as an unsigned literal. */
  lemma ToNumberDigitFirst(t: string)
    requires t != [] && IsDigitIn(t[0], 10) && !IsSpace(t[|t| - 1])
    requires |t| >= 2 ==> IsDigitIn(t[1], 10) || t[1] == '.'
    ensures ToNumber(t) == UnsignedLiteral(t)
  {
    TrimUnchanged(t);
    TrimmedDigitFirst(t);
  }

  lemma TrimmedDigitFirst(t: string)
    requires t != [] && IsDigitIn(t[0], 10)
    requires |t| >= 2 ==> IsDigitIn(t[1], 10) || t[1] == '.'
    ensures TrimmedToNumber(t) == UnsignedLiteral(t)
  {
  }

  /** Plain decimal text is an unsigned literal with its value. */
  lemma PlainUnsigned(body: string, value: nat, scale: nat)
    requires PlainDecimal(body, value, scale)
    ensures UnsignedLiteral(body) == Some(Scaled(value, -(scale as int)))
  {
    assert body != "Infinity" by { assert body[0] != 'I'; }
  }

  /** Text that starts with a minus sign and has nothing to trim reads as a negated literal. */
  lemma ToNumberMinus(t: string)
    requires t != [] && t[0] == '-' && !IsSpace(t[|t| - 1])
    ensures ToNumber(t) == Negate(UnsignedLiteral(t[1..]))
  {
    TrimUnchanged(t);
    TrimmedMinus(t);
  }

  lemma TrimmedMinus(t: string)
    requires t != [] && t[0] == '-'
    ensures TrimmedToNumber(t) == Negate(UnsignedLiteral(t[1..]))
  {
  }

  /** Plain decimal text after a minus sign reads back as the negated value. */
  lemma ReadMinusPlain(body: string, value: nat, scale: nat)
    requires PlainDecimal(body, value, scale)
    ensures ToNumber("-" + body) == Negate(Some(Scaled(value, -(scale as int))))
  {
    PlainUnsigned(body, value, scale);
    var text := "-" + body;
    DropSign('-', body);
    assert text[|text| - 1] == body[|body| - 1];
    ToNumberMinus(text);
  }

  lemma DropSign(sign: char, u: string)
    ensures ([sign] + u)[1..] == u
  {
  }

  /** Writing a number as text and reading it back with `Number` gives the number. */
  lemma ToNumberToText(n: Num)
    ensures ToNumber(ToText(n)) == Some(n)
  {
    if n.Infinity? {
      ReadInfinity(n.negative);
      assert n == Infinity(n.negative);
    } else if n.mantissa < 0 {
      var a: nat := -n.mantissa;
      ReadNegative(a, n.scale);
      assert n == Finite(-(a as int), n.scale);
    } else {
      var m: nat := n.mantissa;
      ReadNonNegative(m, n.scale);
      assert n == Finite(m, n.scale);
    }
  }

  lemma ReadInfinity(neg: bool)
    ensures ToNumber(ToText(Infinity(neg))) == Some(Infinity(neg))
  {
    var text := ToText(Infinity(neg));
    if neg {
      assert text == "-" + "Infinity";
      DropSign('-', "Infinity");
      ToNumberMinus(text);
    } else {
      assert text == "Infinity";
      TrimUnchanged(text);
    }
  }

  lemma ReadNonNegative(m: nat, scale: nat)
    requires scale == 0 || m % 10 != 0
    ensures ToNumber(ToText(Finite(m, scale))) == Some(Finite(m, scale))
  {
    var body := WithPoint(NatDigits(m), scale);
    WithPointIsPlainDecimal(NatDigits(m), scale);
    ScaledCanonical(m, scale);
    ReadPlain(body, m, scale);
    assert ToText(Finite(m, scale)) == [] + body;
    assert [] + body == body;
  }

  lemma ReadNegative(a: nat, scale: nat)
    requires a > 0 && (scale == 0 || a % 10 != 0)
    ensures ToNumber(ToText(Finite(-(a as int), scale))) == Some(Finite(-(a as int), scale))
  {
    var body := WithPoint(NatDigits(a), scale);
    ToTextNegative(a, scale);
    WithPointIsPlainDecimal(NatDigits(a), scale);
    ReadMinusPlain(body, a, scale);
    ScaledCanonical(a, scale);
    NegateFinite(a, scale);
  }

  lemma ToTextNegative(a: nat, scale: nat)
    requires a > 0 && (scale == 0 || a % 10 != 0)
    ensures ToText(Finite(-(a as int), scale)) == "-" + WithPoint(NatDigits(a), scale)
  {
  }

  lemma NegateFinite(a: nat, scale: nat)
    requires scale == 0 || a % 10 != 0
    ensures Negate(Some(Finite(a, scale))) == Some(Finite(-(a as int), scale))
  {
  }

  /** Number-to-text never writes white space or a comma, and never nothing. */
  lemma ToTextIsOneToken(n: Num)
    ensures IsBareToken(ToText(n))
  {
    if n.Infinity? {
      InfinityToken(n.negative);
      assert n == Infinity(n.negative);
    } else if n.mantissa < 0 {
      var a: nat := -n.mantissa;
      NegativeToken(a, n.scale);
      assert n == Finite(-(a as int), n.scale);
    } else {
      var m: nat := n.mantissa;
      NonNegativeToken(m, n.scale);
      assert n == Finite(m, n.scale);
    }
  }

  lemma InfinityToken(neg: bool)
    ensures IsBareToken(ToText(Infinity(neg)))
  {
    assert IsBareToken("Infinity");
    if neg {
      SignedToken("Infinity");
      assert ToText(Infinity(neg)) == "-" + "Infinity";
    } else {
      assert ToText(Infinity(neg)) == "Infinity";
    }
  }

  lemma DigitsToken(a: nat, scale: nat)
    ensures IsBareToken(WithPoint(NatDigits(a), scale))
  {
    WithPointIsPlainDecimal(NatDigits(a), scale);
  }

  lemma NonNegativeToken(m: nat, scale: nat)
    requires scale == 0 || m % 10 != 0
    ensures IsBareToken(ToText(Finite(m, scale)))
  {
    DigitsToken(m, scale);
    assert ToText(Finite(m, scale)) == [] + WithPoint(NatDigits(m), scale);
    assert [] + WithPoint(NatDigits(m), scale) == WithPoint(NatDigits(m), scale);
  }

  lemma NegativeToken(a: nat, scale: nat)
    requires a > 0 && (scale == 0 || a % 10 != 0)
    ensures IsBareToken(ToText(Finite(-(a as int), scale)))
  {
    DigitsToken(a, scale);
    SignedToken(WithPoint(NatDigits(a), scale));
    ToTextNegative(a, scale);
  }

  lemma SignedToken(body: string)
    requires IsBareToken(body)
    ensures IsBareToken("-" + body)
  {
    assert forall i :: 1 <= i < |"-" + body| ==> ("-" + body)[i] == body[i - 1];
  }
}
