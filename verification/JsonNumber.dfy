// Integers in JSON: what sprintf("%d") prints and what parse_number reads back through strtod.
module JsonNumber {
  import opened Bytes

  const MINUS: byte := 45
  const ZERO: byte := 48

  predicate IsDigit(b: byte) { 48 <= b <= 57 }

  // The bytes parse_number collects before it calls strtod: digits, signs, exponent letters and the point.
  predicate NumberByte(b: byte) {
    IsDigit(b) || b == 43 || b == MINUS || b == 101 || b == 69 || b == 46
  }

  lemma NumberAlphabet(b: byte)
    ensures IsDigit(b) <==> b in Ascii("0123456789")
    ensures NumberByte(b) <==> b in Ascii("0123456789+-eE.")
    ensures MINUS == '-' as int && ZERO == '0' as int
  {
    assert Ascii("0123456789") == [48, 49, 50, 51, 52, 53, 54, 55, 56, 57];
    assert Ascii("0123456789+-eE.") == [48, 49, 50, 51, 52, 53, 54, 55, 56, 57, 43, 45, 101, 69, 46];
  }

  function Digits(n: nat): (r: bytes)
    ensures |r| > 0
  {
    if n < 10 then [ZERO + n] else Digits(n / 10) + [ZERO + n % 10]
  }

  // sprintf("%d", n)
  function PrintInt(n: int): (r: bytes)
    ensures |r| > 0
  {
    if n < 0 then [MINUS] + Digits(-n) else Digits(n)
  }

  // Whole part of the converted number and the number of bytes it was read from.
  datatype Conversion = Conversion(whole: int, used: nat)

  // What is assumed of the C library: a conversion uses at least one and at most all bytes, the bytes it uses convert
  // the same way alone, and the decimal digits of an int are converted exactly and completely.
  ghost predicate Conforms(strtod: bytes -> Option<Conversion>) {
    && (forall t :: strtod(t).Some? ==> 0 < strtod(t).value.used <= |t|)
    && (forall t :: strtod(t).Some? ==> strtod(t[..strtod(t).value.used]) == strtod(t))
    && (forall n :: INT_MIN <= n <= INT_MAX ==> strtod(PrintInt(n)) == Some(Conversion(n, |PrintInt(n)|)))
  }

  // valueint of a parsed number: out-of-range values saturate.
  function Saturate(n: int): (r: int)
    ensures INT_MIN <= r <= INT_MAX
  {
    if n >= INT_MAX then INT_MAX else if n <= INT_MIN then INT_MIN else n
  }

  // The int nearest to n: an int stays, and a number beyond the range goes to the end it has passed.
  lemma SaturateIsNearest(n: int)
    ensures -2147483648 <= n <= 2147483647 ==> Saturate(n) == n
    ensures n > 2147483647 ==> Saturate(n) == 2147483647
    ensures n < -2147483648 ==> Saturate(n) == -2147483648
  {
  }

  // End of the run of number bytes that starts at i.
  function NumberEnd(s: bytes, i: nat): (e: nat)
    requires i <= |s|
    ensures i <= e <= |s|
    ensures forall k :: i <= k < e ==> NumberByte(s[k])
    ensures e < |s| ==> !NumberByte(s[e])
    decreases |s| - i
  {
    if i == |s| || !NumberByte(s[i]) then i else NumberEnd(s, i + 1)
  }

  lemma {:induction false} DigitsAreDigits(n: nat)
    ensures forall k :: 0 <= k < |Digits(n)| ==> IsDigit(Digits(n)[k])
  {
    if n >= 10 {
      DigitsAreDigits(n / 10);
    }
  }

  lemma PrintIntBytes(n: int)
    ensures forall k :: 0 <= k < |PrintInt(n)| ==> NumberByte(PrintInt(n)[k])
    ensures PrintInt(n)[0] == MINUS || IsDigit(PrintInt(n)[0])
  {
    DigitsAreDigits(if n < 0 then -n else n);
  }

  predicate NumberBytes(t: bytes) {
    forall k :: 0 <= k < |t| ==> NumberByte(t[k])
  }

  // A position at which no number goes on.
  predicate Ended(s: bytes, e: nat) {
    e < |s| ==> !NumberByte(s[e])
  }

  // Number bytes followed by something that cannot continue them are one whole token.
  lemma TokenEnds(s: bytes, off: nat, token: bytes)
    requires At(s, off, token) && NumberBytes(token) && Ended(s, off + |token|)
    ensures off + |token| <= |s| && NumberEnd(s, off) == off + |token|
  {
    var e := NumberEnd(s, off);
    if e < off + |token| {
      AtByte(s, off, token, e - off);
    }
  }

  // ----- Section 6 of RFC 8259 -----

  // How many digits t starts with.
  function DigitRun(t: bytes): (k: nat)
    ensures k <= |t|
  {
    if t == [] || !IsDigit(t[0]) then 0 else 1 + DigitRun(t[1..])
  }

  lemma {:induction false} RunIsDigits(t: bytes)
    ensures forall i :: 0 <= i < DigitRun(t) ==> IsDigit(t[i])
  {
    if t != [] && IsDigit(t[0]) {
      RunIsDigits(t[1..]);
    }
  }

  // number = [ minus ] int [ frac ] [ exp ]
  predicate StandardNumeral(t: bytes) {
    var u := if t != [] && t[0] == MINUS then t[1..] else t;
    var k := DigitRun(u);
    k > 0 && (k == 1 || u[0] != ZERO) && StandardFraction(u[k..])
  }

  predicate StandardFraction(t: bytes) {
    if t != [] && t[0] == 46 then DigitRun(t[1..]) > 0 && StandardExponent(t[1 + DigitRun(t[1..])..])
    else StandardExponent(t)
  }

  predicate StandardExponent(t: bytes) {
    || t == []
    || ((t[0] == 101 || t[0] == 69) &&
        var u := if |t| > 1 && (t[1] == 43 || t[1] == MINUS) then t[2..] else t[1..];
        u != [] && DigitRun(u) == |u|)
  }

  // The parser hands a standard numeral to strtod as a whole.
  lemma StandardIsNumberBytes(t: bytes)
    requires StandardNumeral(t)
    ensures t != [] && NumberBytes(t) && (t[0] == MINUS || IsDigit(t[0]))
  {
    hide StandardFraction, DigitRun;
    var n := if t[0] == MINUS then 1 else 0;
    var k := DigitRun(t[n..]);
    FractionIsNumberBytes(t[n..][k..]);
    RunIsDigits(t[n..]);
    RunThenNumberBytes(t, n, k);
  }

  lemma RunThenNumberBytes(t: bytes, n: nat, k: nat)
    requires n + k <= |t| && NumberBytes(t[..n]) && NumberBytes(t[n..][k..])
    requires forall i :: 0 <= i < k ==> IsDigit(t[n..][i])
    ensures NumberBytes(t)
  {
    forall i | 0 <= i < |t| ensures NumberByte(t[i]) {
      if i < n {
        assert t[..n][i] == t[i];
      } else if i < n + k {
        assert t[n..][i - n] == t[i];
      } else {
        assert t[n..][k..][i - n - k] == t[i];
      }
    }
  }

  lemma FractionIsNumberBytes(t: bytes)
    requires StandardFraction(t)
    ensures NumberBytes(t)
  {
    if t != [] && t[0] == 46 {
      hide StandardExponent, DigitRun;
      var k := DigitRun(t[1..]);
      assert t[1..][k..] == t[1 + k..];
      ExponentIsNumberBytes(t[1 + k..]);
      RunIsDigits(t[1..]);
      RunThenNumberBytes(t, 1, k);
    } else {
      ExponentIsNumberBytes(t);
    }
  }

  lemma ExponentIsNumberBytes(t: bytes)
    requires StandardExponent(t)
    ensures NumberBytes(t)
  {
    if t != [] {
      var n := if |t| > 1 && (t[1] == 43 || t[1] == MINUS) then 2 else 1;
      RunIsDigits(t[n..]);
      forall i | n <= i < |t| ensures IsDigit(t[i]) {
        assert t[i] == t[n..][i - n];
      }
    }
  }

  // What sprintf prints for an int is a standard numeral.
  lemma {:induction false} DigitsDoNotStartWithZero(n: nat)
    ensures n >= 10 ==> |Digits(n)| > 1 && Digits(n)[0] != ZERO
    ensures 1 <= n < 10 ==> Digits(n)[0] != ZERO
  {
    if n >= 10 {
      DigitsDoNotStartWithZero(n / 10);
    }
  }

  lemma {:induction false} AllDigits(t: bytes)
    requires forall k :: 0 <= k < |t| ==> IsDigit(t[k])
    ensures DigitRun(t) == |t|
  {
    if t != [] {
      AllDigits(t[1..]);
    }
  }

  lemma PrintIntIsStandard(n: int)
    ensures StandardNumeral(PrintInt(n))
  {
    var m := if n < 0 then -n else n;
    DigitsAreDigits(m);
    AllDigits(Digits(m));
    DigitsDoNotStartWithZero(m);
    var u := Digits(m);
    assert u[|u|..] == [];
    if n < 0 {
      assert PrintInt(n)[1..] == u;
    }
  }

  // The C library converts every numeral of section 6 completely.
  ghost predicate ConvertsNumerals(strtod: bytes -> Option<Conversion>) {
    forall token :: StandardNumeral(token) ==> strtod(token).Some? && strtod(token).value.used == |token|
  }

  // ----- A strtod for decimal numbers, which shows that all assumptions can be met -----

  const POINT: byte := 46

  // Value of the leading digits of t, continuing from v, and how many there are.
  function ReadDigits(t: bytes, v: nat): (r: (nat, nat))
    ensures r.1 <= |t|
  {
    if t == [] || !IsDigit(t[0]) then (v, 0)
    else var rest := ReadDigits(t[1..], 10 * v + t[0] - ZERO); (rest.0, rest.1 + 1)
  }

  // 1 if t starts with a sign.
  function SignLength(t: bytes): (n: nat)
    ensures n <= |t|
  {
    if t != [] && (t[0] == MINUS || t[0] == 43) then 1 else 0
  }

  // All digits of a mantissa as one number, how many of them there are, how many behind the point, and the bytes read.
  datatype Mantissa = Mantissa(digits: nat, count: nat, scale: nat, used: nat)

  function ReadMantissa(t: bytes): (m: Mantissa)
    ensures m.used <= |t|
  {
    var head := ReadDigits(t, 0);
    var n := head.1;
    if n < |t| && t[n] == POINT then
      var tail := ReadDigits(t[n + 1..], head.0);
      Mantissa(tail.0, n + tail.1, tail.1, n + 1 + tail.1)
    else Mantissa(head.0, n, 0, n)
  }

  // A letter e and at least one digit; otherwise there is no exponent.
  function ReadExponent(t: bytes): (r: (int, nat))
    ensures r.1 <= |t| && (r.1 == 0 ==> r.0 == 0)
  {
    if t == [] || (t[0] != 101 && t[0] != 69) then (0, 0)
    else
      var sign := SignLength(t[1..]);
      var digits := ReadDigits(t[1 + sign..], 0);
      var e := Natural(digits.0);
      if digits.1 == 0 then (0, 0) else (if sign == 1 && t[1] == MINUS then -e else e, 1 + sign + digits.1)
  }

  function Natural(n: nat): int { n }

  function Pow10(k: nat): (p: nat)
    ensures p > 0
  {
    if k == 0 then 1 else 10 * Pow10(k - 1)
  }

  // n * 10^e without its fraction.
  function Scaled(n: nat, e: int): nat {
    if e >= 0 then Product(n, Pow10(e)) else Quotient(n, Pow10(-e))
  }

  function Product(n: nat, d: nat): nat { n * d }

  function Quotient(n: nat, d: nat): nat
    requires d > 0
  {
    n / d
  }

  function DecimalStrtod(t: bytes): Option<Conversion> {
    var sign := SignLength(t);
    var m := ReadMantissa(t[sign..]);
    if m.count == 0 then None
    else
      var (e, used) := ReadExponent(t[sign + m.used..]);
      var magnitude := Natural(Scaled(m.digits, e - m.scale));
      Some(Conversion(if t[0] == MINUS then -magnitude else magnitude, sign + m.used + used))
  }

  lemma {:induction false} ReadDigitsConcat(a: bytes, b: bytes, v: nat)
    requires forall k :: 0 <= k < |a| ==> IsDigit(a[k])
    ensures ReadDigits(a + b, v) == (var p := ReadDigits(a, v); var q := ReadDigits(b, p.0); (q.0, |a| + q.1))
    ensures ReadDigits(a, v).1 == |a|
    decreases |a|
  {
    if a == [] {
      assert a + b == b;
    } else {
      assert (a + b)[1..] == a[1..] + b;
      ReadDigitsConcat(a[1..], b, 10 * v + a[0] - ZERO);
    }
  }

  lemma {:induction false} ReadPrintedDigits(n: nat)
    ensures ReadDigits(Digits(n), 0) == (n, |Digits(n)|)
  {
    DigitsAreDigits(n);
    if n >= 10 {
      DigitsAreDigits(n / 10);
      ReadPrintedDigits(n / 10);
      ReadDigitsConcat(Digits(n / 10), [ZERO + n % 10], 0);
      assert ReadDigits([ZERO + n % 10], n / 10) == (n, 1);
    }
  }

  // Cutting a text behind what is read makes no difference.
  lemma {:induction false} DigitsAlone(t: bytes, v: nat, k: nat)
    requires ReadDigits(t, v).1 <= k <= |t|
    ensures ReadDigits(t[..k], v) == ReadDigits(t, v)
    decreases |t|
  {
    if ReadDigits(t, v).1 > 0 {
      DigitsAlone(t[1..], 10 * v + t[0] - ZERO, k - 1);
      assert t[..k][1..] == t[1..][..k - 1];
    }
  }

  lemma Cut(t: bytes, k: nat, a: nat)
    requires a <= k <= |t|
    ensures t[..k][a..] == t[a..][..k - a]
  {
  }

  lemma MantissaAlone(t: bytes, k: nat)
    requires ReadMantissa(t).used <= k <= |t|
    ensures ReadMantissa(t[..k]) == ReadMantissa(t)
  {
    var n := ReadDigits(t, 0).1;
    DigitsAlone(t, 0, k);
    if n < |t| && t[n] == POINT {
      DigitsAlone(t[n + 1..], ReadDigits(t, 0).0, k - n - 1);
      Cut(t, k, n + 1);
    }
  }

  lemma ExponentAlone(t: bytes)
    ensures ReadExponent(t[..ReadExponent(t).1]) == ReadExponent(t)
  {
    var k := ReadExponent(t).1;
    if k > 0 {
      var sign := SignLength(t[1..]);
      Cut(t, k, 1);
      assert SignLength(t[..k][1..]) == sign;
      DigitsAlone(t[1 + sign..], 0, k - 1 - sign);
      Cut(t, k, 1 + sign);
    }
  }

  lemma ReadAlone(t: bytes)
    requires DecimalStrtod(t).Some?
    ensures 0 < DecimalStrtod(t).value.used <= |t|
    ensures DecimalStrtod(t[..DecimalStrtod(t).value.used]) == DecimalStrtod(t)
  {
    hide ReadDigits, ReadExponent, Scaled;
    var sign, k := SignLength(t), DecimalStrtod(t).value.used;
    var m := ReadMantissa(t[sign..]);
    MantissaAlone(t[sign..], k - sign);
    ExponentAlone(t[sign + m.used..]);
    hide ReadMantissa;
    Cut(t, k, sign);
    Cut(t, k, sign + m.used);
  }

  lemma ReadPrintedInt(n: int)
    ensures DecimalStrtod(PrintInt(n)) == Some(Conversion(n, |PrintInt(n)|))
  {
    var m := if n < 0 then -n else n;
    var t := PrintInt(n);
    var sign := if n < 0 then 1 else 0;
    ReadPrintedDigits(m);
    DigitsAreDigits(m);
    assert t[sign..] == Digits(m);
    assert SignLength(t) == sign;
    hide ReadDigits, Digits;
    assert ReadMantissa(t[sign..]) == Mantissa(m, |t| - sign, 0, |t| - sign);
    assert t[|t|..] == [];
    assert Scaled(m, 0) == m;
  }

  lemma {:induction false} DigitsAreRead(t: bytes, v: nat)
    ensures ReadDigits(t, v).1 == DigitRun(t)
  {
    if t != [] && IsDigit(t[0]) {
      DigitsAreRead(t[1..], 10 * v + t[0] - ZERO);
    }
  }

  // A fraction and an exponent of section 6 are read to their end.
  lemma ExponentIsRead(t: bytes)
    requires StandardExponent(t)
    ensures ReadExponent(t).1 == |t|
  {
    if t != [] {
      DigitsAreRead(t[1 + SignLength(t[1..])..], 0);
      assert SignLength(t[1..]) == if |t| > 1 && (t[1] == 43 || t[1] == MINUS) then 1 else 0;
    }
  }

  lemma Behind(t: bytes, a: nat, b: nat)
    requires a + b <= |t|
    ensures t[a..][b..] == t[a + b..]
  {
  }

  // A mantissa without a point, and one with a point.
  lemma MantissaCases(t: bytes)
    ensures var n := ReadDigits(t, 0).1;
            if n < |t| && t[n] == POINT then
              var k := ReadDigits(t[n + 1..], ReadDigits(t, 0).0).1;
              ReadMantissa(t).count == n + k && ReadMantissa(t).used == n + 1 + k
            else ReadMantissa(t).count == n && ReadMantissa(t).used == n
  {
    hide ReadDigits;
  }

  lemma MantissaIsRead(t: bytes)
    requires DigitRun(t) > 0 && StandardFraction(t[DigitRun(t)..])
    ensures ReadMantissa(t).count > 0 && StandardExponent(t[ReadMantissa(t).used..])
  {
    hide ReadMantissa, ReadDigits, StandardExponent, DigitRun;
    DigitsAreRead(t, 0);
    MantissaCases(t);
    var k := DigitRun(t);
    var u := t[k..];
    if u != [] && u[0] == POINT {
      Behind(t, k, 1);
      DigitsAreRead(u[1..], ReadDigits(t, 0).0);
      Behind(t, k, 1 + DigitRun(u[1..]));
    }
  }

  lemma NumeralIsRead(t: bytes)
    requires StandardNumeral(t)
    ensures DecimalStrtod(t).Some? && DecimalStrtod(t).value.used == |t|
  {
    var sign := NumeralSign(t);
    hide StandardNumeral, DigitRun, StandardFraction, StandardExponent, ReadMantissa, ReadExponent, Scaled, SignLength;
    MantissaIsRead(t[sign..]);
    var m := ReadMantissa(t[sign..]);
    Behind(t, sign, m.used);
    ExponentIsRead(t[sign + m.used..]);
  }

  lemma NumeralSign(t: bytes) returns (sign: nat)
    requires StandardNumeral(t)
    ensures sign == SignLength(t) && DigitRun(t[sign..]) > 0 && StandardFraction(t[sign..][DigitRun(t[sign..])..])
  {
    hide StandardFraction;
    sign := if t != [] && t[0] == MINUS then 1 else 0;
    assert sign == 0 ==> t[sign..] == t && IsDigit(t[0]);
  }

  // The assumptions about strtod can be met all together.
  lemma DecimalStrtodConforms()
    ensures Conforms(DecimalStrtod) && ConvertsNumerals(DecimalStrtod)
  {
    hide DecimalStrtod, PrintInt, StandardNumeral;
    forall t | DecimalStrtod(t).Some?
      ensures 0 < DecimalStrtod(t).value.used <= |t|
      ensures DecimalStrtod(t[..DecimalStrtod(t).value.used]) == DecimalStrtod(t)
    {
      ReadAlone(t);
    }
    forall n | INT_MIN <= n <= INT_MAX ensures DecimalStrtod(PrintInt(n)) == Some(Conversion(n, |PrintInt(n)|)) {
      ReadPrintedInt(n);
    }
    forall t | StandardNumeral(t) ensures DecimalStrtod(t).Some? && DecimalStrtod(t).value.used == |t| {
      NumeralIsRead(t);
    }
  }

  // The C library function, any conforming one.
  type Strtod = f: bytes -> Option<Conversion> | Conforms(f) ghost witness (DecimalStrtodConforms(); DecimalStrtod)

  // The bytes a conversion uses convert the same way alone.
  lemma UsedAlone(strtod: Strtod, t: bytes)
    requires strtod(t).Some?
    ensures 0 < strtod(t).value.used <= |t| && strtod(t[..strtod(t).value.used]) == strtod(t)
  {
  }
}
