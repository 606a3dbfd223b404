/** Numbers as the page's script sees them. A finite number is written
    exactly in decimal, `mant × 10^exp`; the conversions are those of
    ECMA-262: `Number::toString` (section 6.1.6.1.20, what `String(x)` and a
    template literal print) and `StringToNumber` (section 7.1.4.1.1, what
    `Number(s)` reads). */
module Numbers {
  import opened Strings
  import opened Wrappers

  /** The finite number `mant × 10^exp`. Several values of `Dec` write one
      number; `Strip` picks the canonical one, and `Le` compares numbers. */
  datatype Dec = Dec(mant: int, exp: int)

  /** The outcome of converting something to a number: a finite value, or
      one of NaN, +Infinity, -Infinity (which the code only ever rejects). */
  datatype Numeric = Finite(d: Dec) | NonFinite

  function Pow10(n: nat): (r: nat)
    ensures r >= 1
  {
    if n == 0 then 1 else 10 * Pow10(n - 1)
  }

  /** `x` with `n` zero digits after it, `x × 10^n`. */
  function Shift(x: int, n: nat): int
  {
    if n == 0 then x else 10 * Shift(x, n - 1)
  }

  /** The mantissa of `d` written over the smaller exponent `e`. */
  function Over(d: Dec, e: int): int
    requires e <= d.exp
  {
    Shift(d.mant, d.exp - e)
  }

  /** `a <= b` as numbers: both written over the smaller of their exponents. */
  predicate Le(a: Dec, b: Dec)
  {
    var e := if a.exp <= b.exp then a.exp else b.exp;
    Over(a, e) <= Over(b, e)
  }

  /** `Number.isInteger` of a finite number. */
  predicate IsInteger(d: Dec)
  {
    d.exp >= 0 || d.mant % Pow10(-d.exp) == 0
  }

  /** The written form with no trailing zero in the mantissa; zero is `Dec(0, 0)`. */
  predicate Canonical(d: Dec)
  {
    d == Dec(0, 0) || d.mant % 10 != 0
  }

  /** `d` with the trailing zeros of its mantissa moved into the exponent. */
  function Strip(d: Dec): (c: Dec)
    ensures Canonical(c)
    ensures Canonical(d) ==> c == d
    decreases if d.mant < 0 then -d.mant else d.mant
  {
    if d.mant == 0 then Dec(0, 0)
    else if d.mant % 10 == 0 then Strip(Dec(d.mant / 10, d.exp + 1))
    else d
  }

  /** A mantissa with `z` trailing zeros strips to the one without them. */
  lemma {:induction false} StripZeros(m: int, z: nat, e: int)
    requires m % 10 != 0
    ensures Strip(Dec(Shift(m, z), e)) == Dec(m, e + z)
  {
    if z > 0 {
      ShiftZero(m, z - 1);
      StripZeros(m, z - 1, e + 1);
    }
  }

  lemma {:induction false} ShiftZero(m: int, z: nat)
    requires m % 10 != 0
    ensures Shift(m, z) != 0
  {
    if z > 0 {
      ShiftZero(m, z - 1);
    }
  }

  // ------------------------------------------------ printing

  function Zeros(n: nat): (r: string)
    ensures |r| == n && forall i :: 0 <= i < n ==> r[i] == '0'
  {
    seq(n, _ => '0')
  }

  /** `Number::toString` of a finite number (section 6.1.6.1.20 of ECMA-262,
      radix 10): the shortest digits `s` with `k` digits and point position
      `n`, written plainly for `-6 < n <= 21` and in exponent form otherwise.
      As every number here is an exact decimal, the shortest digits are those
      of the canonical mantissa. */
  function NumberToString(d: Dec): string
  {
    var c := Strip(d);
    if c.mant == 0 then "0"
    else if c.mant < 0 then "-" + PositiveToString(-c.mant, c.exp)
    else PositiveToString(c.mant, c.exp)
  }

  function PositiveToString(m: nat, e: int): string
    requires m > 0
  {
    var s := NatToString(m);
    Layout(s, |s| + e)
  }

  /** The digits `s` of a positive number whose point sits after `n` of them. */
  function Layout(s: string, n: int): string
    requires |s| > 0
  {
    if |s| <= n <= 21 then PlainForm(s, n - |s|)
    else if 0 < n <= 21 then PointForm(s, n)
    else if -6 < n <= 0 then FractionForm(s, -n)
    else ExponentForm(s, ExponentText(n - 1))
  }

  /** The digits and `z` zeros: an integer. */
  function PlainForm(s: string, z: nat): string
  {
    s + Zeros(z)
  }

  /** The first `n` digits, a point, the rest. */
  function PointForm(s: string, n: nat): string
    requires n <= |s|
  {
    s[..n] + "." + s[n..]
  }

  /** `0.`, `z` zeros, the digits. */
  function FractionForm(s: string, z: nat): string
  {
    "0." + Zeros(z) + s
  }

  /** One digit, the others after a point if any, and the written exponent `t`. */
  function ExponentForm(s: string, t: string): string
    requires |s| > 0
  {
    s[..1] + ((if |s| == 1 then "" else "." + s[1..]) + ("e" + t))
  }

  /** The exponent with its sign always written. */
  function ExponentText(x: int): string
  {
    (if x < 0 then "-" else "+") + NatToString(if x < 0 then -x else x)
  }

  // ------------------------------------------------ reading

  predicate IsDigit(c: char)
  {
    '0' <= c <= '9'
  }

  /** How many decimal digits `u` starts with. */
  function DigitRun(u: string): (n: nat)
    ensures n <= |u|
  {
    DigitsFrom(u, 0)
  }

  /** How many decimal digits follow position `k` of `u`. */
  function DigitsFrom(u: string, k: nat): (n: nat)
    requires k <= |u|
    ensures n <= |u| - k
    decreases |u| - k
  {
    if k < |u| && IsDigit(u[k]) then 1 + DigitsFrom(u, k + 1) else 0
  }

  /** The run `DigitRun` counts is made of digits. */
  lemma DigitRunDigits(u: string)
    ensures AllDigits(u[..DigitRun(u)])
  {
    DigitsFromDigits(u, 0);
  }

  lemma {:induction false} DigitsFromDigits(u: string, k: nat)
    requires k <= |u|
    ensures forall j :: k <= j < k + DigitsFrom(u, k) ==> IsDigit(u[j])
    decreases |u| - k
  {
    if k < |u| && IsDigit(u[k]) {
      DigitsFromDigits(u, k + 1);
    }
  }

  /** The value of a hexadecimal digit, or -1 for any other character. */
  function HexValue(c: char): (v: int)
    ensures -1 <= v < 16
  {
    if '0' <= c <= '9' then (c as int) - ('0' as int)
    else if 'a' <= c <= 'f' then (c as int) - ('a' as int) + 10
    else if 'A' <= c <= 'F' then (c as int) - ('A' as int) + 10
    else -1
  }

  predicate RadixDigits(s: string, base: nat)
  {
    forall i :: 0 <= i < |s| ==> 0 <= HexValue(s[i]) < base
  }

  /** The value of the first `k` digits of `s` in the given base. */
  function RadixValue(s: string, base: nat, k: nat): (v: nat)
    requires RadixDigits(s, base) && k <= |s|
  {
    if k == 0 then 0 else RadixValue(s, base, k - 1) * base + HexValue(s[k - 1])
  }

  /** `0x`, `0o` or `0b` literal digits: all digits of the base, at least one. */
  function RadixLiteral(s: string, base: nat): Numeric
  {
    if |s| > 0 && RadixDigits(s, base) then Finite(Strip(Dec(RadixValue(s, base, |s|), 0))) else NonFinite
  }

  /** A signed exponent: an optional sign, then digits and nothing else. */
  function ExponentOf(t: string): Option<int>
  {
    if |t| > 0 && t[0] == '-' then Negated(DigitsOnly(t[1..]))
    else if |t| > 0 && t[0] == '+' then DigitsOnly(t[1..])
    else DigitsOnly(t)
  }

  /** The value of `ds` when it is one or more digits and nothing else. */
  function DigitsOnly(ds: string): Option<int>
  {
    if |ds| > 0 && DigitRun(ds) == |ds| then
      DigitRunDigits(ds);
      assert ds[..|ds|] == ds;
      Some(DigitsValue(ds))
    else None
  }

  function Negated(v: Option<int>): Option<int>
  {
    if v.Some? then Some(-v.value) else None
  }

  /** When `rest` starts with a point: the digits after it and what follows
      them; otherwise no digits and all of `rest`. */
  function Fraction(rest: string): (string, string)
  {
    if |rest| > 0 && rest[0] == '.' then
      var t := rest[1..];
      (t[..DigitRun(t)], t[DigitRun(t)..])
    else ("", rest)
  }

  lemma FractionDigits(rest: string)
    ensures AllDigits(Fraction(rest).0)
  {
    if |rest| > 0 && rest[0] == '.' {
      DigitRunDigits(rest[1..]);
    }
  }

  /** StrUnsignedDecimalLiteral without `Infinity`: digits, an optional point
      with more digits (at least one digit in all), an optional exponent. */
  function UnsignedDecimal(u: string): Option<Dec>
  {
    var i := DigitRun(u);
    var f := Fraction(u[i..]);
    DigitRunDigits(u);
    FractionDigits(u[i..]);
    if i == 0 && |f.0| == 0 then None
    else WithExponent(Shift(DigitsValue(u[..i]), |f.0|) + DigitsValue(f.0), -|f.0|, f.1)
  }

  /** The number `mant` * 10^`e`, scaled by the exponent part `after` when
      there is one; None when `after` is anything else. */
  function WithExponent(mant: int, e: int, after: string): Option<Dec>
  {
    if after == "" then Some(Dec(mant, e))
    else if after[0] == 'e' || after[0] == 'E' then Scaled(mant, e, ExponentOf(after[1..]))
    else None
  }

  /** `mant` * 10^`e` scaled by the exponent, if there is one. */
  function Scaled(mant: int, e: int, x: Option<int>): Option<Dec>
  {
    if x.Some? then Some(Dec(mant, x.value + e)) else None
  }

  /** StrDecimalLiteral: an optional sign before an unsigned literal or `Infinity`. */
  function DecimalLiteral(t: string): Numeric
    requires |t| > 0
  {
    if t[0] == '-' then Negative(UnsignedLiteral(t[1..]))
    else if t[0] == '+' then UnsignedLiteral(t[1..])
    else UnsignedLiteral(t)
  }

  /** StrUnsignedDecimalLiteral, `Infinity` included. */
  function UnsignedLiteral(u: string): Numeric
  {
    if u == "Infinity" then NonFinite
    else if UnsignedDecimal(u).Some? then Finite(Strip(UnsignedDecimal(u).value))
    else NonFinite
  }

  function Negative(n: Numeric): Numeric
  {
    if n.Finite? then Finite(Strip(Dec(-n.d.mant, n.d.exp))) else n
  }

  /** `StringToNumber` (section 7.1.4.1.1 of ECMA-262): white space around the
      literal is ignored, the empty string is 0, anything that is not a
      literal is NaN. The number comes back in canonical form. */
  function StringToNumber(str: string): Numeric
  {
    var t := Trim(str);
    if t == "" then Finite(Dec(0, 0))
    else if RadixPrefixed(t) then RadixLiteral(t[2..], Radix(t[1]))
    else DecimalLiteral(t)
  }

  /** `0x`, `0o` or `0b` (either case) and at least one more character. */
  predicate RadixPrefixed(t: string)
  {
    |t| > 2 && t[0] == '0' && Radix(t[1]) > 0
  }

  /** The base a radix letter names, or 0 for any other character. */
  function Radix(c: char): nat
  {
    if c == 'x' || c == 'X' then 16
    else if c == 'o' || c == 'O' then 8
    else if c == 'b' || c == 'B' then 2
    else 0
  }

  /** A trimmed literal without a radix prefix is read as a decimal one. */
  lemma DecimalRead(t: string)
    requires |t| > 0 && Trim(t) == t && !RadixPrefixed(t)
    ensures StringToNumber(t) == DecimalLiteral(t)
  {
  }

  // ------------------------------------------------ printing, then reading back

  /** The characters `Number::toString` writes. */
  predicate NumberChar(c: char)
  {
    IsDigit(c) || c == '.' || c == 'e' || c == '+' || c == '-'
  }

  /** Reading back what `String(x)` prints gives `x` again, in canonical form. */
  lemma {:induction false} NumberRoundTrip(d: Dec)
    ensures StringToNumber(NumberToString(d)) == Finite(Strip(d))
  {
    var c := Strip(d);
    if c.mant == 0 {
      assert c == Dec(0, 0);
      ZeroRead();
      assert NumberToString(d) == "0";
    } else if c.mant > 0 {
      PositiveRead(c.mant, c.exp);
      assert NumberToString(d) == PositiveToString(c.mant, c.exp);
    } else {
      NegativeRead(-c.mant, c.exp);
      assert Dec(-(-c.mant), c.exp) == c;
      assert NumberToString(d) == "-" + PositiveToString(-c.mant, c.exp);
    }
  }

  lemma ZeroRead()
    ensures StringToNumber("0") == Finite(Dec(0, 0))
  {
    ParsePlain("0", 0);
    assert PlainForm("0", 0) == "0";
    assert PrefixValue("0", 0) == 0;
    assert DigitsValue("0") == 0;
    assert LiteralEnds("0");
    ReadShaped("0");
    ShapedLiteral("0");
  }





  lemma {:induction false} PositiveRead(m: nat, e: int)
    requires m > 0 && m % 10 != 0
    ensures StringToNumber(PositiveToString(m, e)) == Finite(Dec(m, e))
  {
    var p := PositiveToString(m, e);
    PositiveParse(m, e);
    PositiveShape(m, e);
    ReadShaped(p);
    ShapedLiteral(p);
  }

  lemma {:induction false} NegativeRead(m: nat, e: int)
    requires m > 0 && m % 10 != 0
    ensures StringToNumber("-" + PositiveToString(m, e)) == Finite(Dec(-(m as int), e))
  {
    var p := PositiveToString(m, e);
    PositiveParse(m, e);
    PositiveShape(m, e);
    ReadNegativeShaped(p);
    ShapedLiteral(p);
    NegativeOf(Strip(UnsignedDecimal(p).value), m, e);
  }

  lemma NegativeOf(c: Dec, m: int, e: int)
    requires c.mant == m && c.exp == e && m % 10 != 0
    ensures Negative(Finite(c)) == Finite(Dec(-m, e))
  {
    NegateStrip(c);
  }

  /** A literal with digits at both ends is read as a decimal one. */
  lemma {:induction false} ReadShaped(p: string)
    requires LiteralEnds(p)
    ensures StringToNumber(p) == UnsignedLiteral(p)
  {
    TrimIdentity(p);
    DecimalRead(p);
  }

  /** The same with a minus sign in front. */
  lemma {:induction false} ReadNegativeShaped(p: string)
    requires LiteralEnds(p)
    ensures StringToNumber("-" + p) == Negative(UnsignedLiteral(p))
  {
    var t := "-" + p;
    assert t[1..] == p && t[|t| - 1] == p[|p| - 1];
    TrimIdentity(t);
    DecimalRead(t);
  }

  /** Such a literal is not `Infinity`: it is the decimal it spells. */
  lemma ShapedLiteral(p: string)
    requires LiteralEnds(p) && UnsignedDecimal(p).Some?
    ensures UnsignedLiteral(p) == Finite(Strip(UnsignedDecimal(p).value))
  {
    assert p != "Infinity" by {
      assert IsDigit(p[0]);
    }
  }

  /** Negating the mantissa commutes with stripping. */
  lemma {:induction false} NegateStrip(x: Dec)
    ensures Strip(Dec(-x.mant, x.exp)) == Dec(-Strip(x).mant, Strip(x).exp)
    decreases if x.mant < 0 then -x.mant else x.mant
  {
    if x.mant != 0 && x.mant % 10 == 0 {
      assert (-x.mant) % 10 == 0 && (-x.mant) / 10 == -(x.mant / 10);
      NegateStrip(Dec(x.mant / 10, x.exp + 1));
    }
  }

  predicate NumberChars(p: string)
  {
    forall i :: 0 <= i < |p| ==> NumberChar(p[i])
  }

  lemma {:induction false} NumberCharsAppend(a: string, b: string)
    requires NumberChars(a) && NumberChars(b)
    ensures NumberChars(a + b)
  {
    assert forall i :: 0 <= i < |a + b| ==> (a + b)[i] == if i < |a| then a[i] else b[i - |a|];
  }

  lemma DigitsNumberChars(s: string)
    requires AllDigits(s)
    ensures NumberChars(s)
  {
  }

  /** What `Layout` writes: a digit first and last, and only characters of a
      number literal. */
  predicate NumberShaped(p: string)
  {
    |p| >= 1 && IsDigit(p[0]) && IsDigit(p[|p| - 1]) && NumberChars(p)
  }

  lemma {:induction false} LayoutShape(s: string, n: int)
    requires |s| > 0 && AllDigits(s)
    ensures NumberShaped(Layout(s, n))
  {
    var p := Layout(s, n);
    if |s| <= n <= 21 {
      assert p == PlainForm(s, n - |s|);
      PlainShape(s, n - |s|);
    } else if 0 < n <= 21 {
      assert p == PointForm(s, n);
      PointShape(s, n);
    } else if -6 < n <= 0 {
      assert p == FractionForm(s, -n);
      FractionShape(s, -n);
    } else {
      var x := n - 1;
      assert p == ExponentForm(s, ExponentText(x));
      ExponentShape(s, x);
    }
  }

  lemma {:induction false} PlainShape(s: string, z: nat)
    requires |s| > 0 && AllDigits(s)
    ensures NumberShaped(PlainForm(s, z))
  {
    DigitsNumberChars(s);
    DigitsNumberChars(Zeros(z));
    NumberCharsAppend(s, Zeros(z));
  }

  lemma {:induction false} PointShape(s: string, n: nat)
    requires AllDigits(s) && 0 < n < |s|
    ensures NumberShaped(PointForm(s, n))
  {
    DigitsNumberChars(s[..n]);
    DigitsNumberChars(s[n..]);
    NumberCharsAppend(s[..n], ".");
    NumberCharsAppend(s[..n] + ".", s[n..]);
  }

  lemma {:induction false} FractionShape(s: string, z: nat)
    requires |s| > 0 && AllDigits(s)
    ensures NumberShaped(FractionForm(s, z))
  {
    DigitsNumberChars(s);
    DigitsNumberChars(Zeros(z));
    NumberCharsAppend("0.", Zeros(z));
    NumberCharsAppend("0." + Zeros(z), s);
  }

  lemma {:induction false} ExponentShape(s: string, x: int)
    requires |s| > 0 && AllDigits(s)
    ensures NumberShaped(ExponentForm(s, ExponentText(x)))
  {
    var mid := if |s| == 1 then "" else "." + s[1..];
    var digits := NatToString(if x < 0 then -x else x);
    var sign := if x < 0 then "-" else "+";
    DigitsNumberChars(s[..1]);
    DigitsNumberChars(s[1..]);
    NumberCharsAppend(".", s[1..]);
    DigitsNumberChars(digits);
    NumberCharsAppend(sign, digits);
    NumberCharsAppend(s[..1], mid);
    NumberCharsAppend(s[..1] + mid, "e");
    NumberCharsAppend(s[..1] + mid + "e", sign + digits);
  }

  lemma DigitRunAll(a: string)
    requires AllDigits(a)
    ensures DigitRun(a) == |a|
  {
    DigitsFromAll(a, 0);
  }

  lemma {:induction false} DigitsFromAll(a: string, k: nat)
    requires AllDigits(a) && k <= |a|
    ensures DigitsFrom(a, k) == |a| - k
    decreases |a| - k
  {
    if k < |a| {
      DigitsFromAll(a, k + 1);
    }
  }

  lemma DigitRunAppend(a: string, b: string)
    requires AllDigits(a)
    ensures DigitRun(a + b) == |a| + DigitRun(b)
  {
    DigitsFromPrefix(a, b, 0);
    DigitsFromSuffix(a, b, 0);
  }

  /** Inside the digits `a`, the run goes on to the end of `a` and on into `b`. */
  lemma {:induction false} DigitsFromPrefix(a: string, b: string, k: nat)
    requires AllDigits(a) && k <= |a|
    ensures DigitsFrom(a + b, k) == (|a| - k) + DigitsFrom(a + b, |a|)
    decreases |a| - k
  {
    if k < |a| {
      assert (a + b)[k] == a[k];
      DigitsFromPrefix(a, b, k + 1);
    }
  }

  /** Past `a`, the run is the run in `b`. */
  lemma {:induction false} DigitsFromSuffix(a: string, b: string, j: nat)
    requires j <= |b|
    ensures DigitsFrom(a + b, |a| + j) == DigitsFrom(b, j)
    decreases |b| - j
  {
    if j < |b| {
      assert (a + b)[|a| + j] == b[j];
      DigitsFromSuffix(a, b, j + 1);
    }
  }

  lemma DigitsAppend(a: string, b: string)
    requires AllDigits(a) && AllDigits(b)
    ensures AllDigits(a + b)
    ensures DigitsValue(a + b) == Shift(DigitsValue(a), |b|) + DigitsValue(b)
  {
    AppendDigits(a, b);
    PrefixOfAppend(a, b, |a|);
    SuffixOfAppend(a, b, |b|);
  }

  lemma AppendDigits(a: string, b: string)
    requires AllDigits(a) && AllDigits(b)
    ensures AllDigits(a + b)
  {
    assert forall i :: 0 <= i < |a + b| ==> (a + b)[i] == if i < |a| then a[i] else b[i - |a|];
  }

  /** Within `a`, the digits of `a + b` have the values they have in `a`. */
  lemma {:induction false} PrefixOfAppend(a: string, b: string, k: nat)
    requires AllDigits(a) && AllDigits(a + b) && k <= |a|
    ensures PrefixValue(a + b, k) == PrefixValue(a, k)
  {
    if k > 0 {
      assert (a + b)[k - 1] == a[k - 1];
      PrefixOfAppend(a, b, k - 1);
    }
  }

  /** Past `a`, each digit of `b` shifts the value of `a` one more place. */
  lemma {:induction false} SuffixOfAppend(a: string, b: string, j: nat)
    requires AllDigits(b) && AllDigits(a + b) && j <= |b|
    ensures PrefixValue(a + b, |a| + j) == Shift(PrefixValue(a + b, |a|), j) + PrefixValue(b, j)
  {
    if j > 0 {
      assert (a + b)[|a| + j - 1] == b[j - 1];
      SuffixOfAppend(a, b, j - 1);
    }
  }

  lemma {:induction false} ZerosValue(n: nat)
    ensures AllDigits(Zeros(n)) && DigitsValue(Zeros(n)) == 0
  {
    ZerosPrefix(n, n);
  }

  lemma {:induction false} ZerosPrefix(n: nat, k: nat)
    requires k <= n
    ensures PrefixValue(Zeros(n), k) == 0
  {
    if k > 0 {
      ZerosPrefix(n, k - 1);
    }
  }

  /** The mantissa and exponent read from what `PositiveToString` writes. */
  lemma {:induction false} PositiveParse(m: nat, e: int)
    requires m > 0 && m % 10 != 0
    ensures ReadsCanonical(PositiveToString(m, e), m, e)
  {
    var s := NatToString(m);
    var n := |s| + e;
    NatToStringValue(m);
    assert PositiveToString(m, e) == Layout(s, n);
    LayoutRead(s, n);
  }

  lemma {:induction false} PositiveShape(m: nat, e: int)
    requires m > 0
    ensures LiteralEnds(PositiveToString(m, e))
  {
    var s := NatToString(m);
    LayoutShape(s, |s| + e);
  }

  /** What reading a literal looks at besides its digits: how it starts and ends. */
  predicate LiteralEnds(p: string)
  {
    |p| >= 1 && IsDigit(p[0]) && IsDigit(p[|p| - 1]) && (|p| > 1 ==> NumberChar(p[1]))
  }

  /** Reading what `Layout` writes for digits that do not end in zero. */
  lemma {:induction false} LayoutRead(s: string, n: int)
    requires |s| > 0 && AllDigits(s) && DigitsValue(s) % 10 != 0
    ensures ReadsCanonical(Layout(s, n), DigitsValue(s), n - |s|)
  {
    if |s| <= n <= 21 {
      LayoutPlainRead(s, n);
    } else if 0 < n <= 21 {
      LayoutPointRead(s, n);
    } else if -6 < n <= 0 {
      LayoutFractionRead(s, n);
    } else {
      LayoutExponentRead(s, n);
    }
  }

  /** `u` reads as a decimal that strips to `m × 10^e`. */
  predicate ReadsCanonical(u: string, m: int, e: int)
  {
    UnsignedDecimal(u).Some? && Strip(UnsignedDecimal(u).value).mant == m
    && Strip(UnsignedDecimal(u).value).exp == e
  }

  /** `u` reads as the decimal `m × 10^e` as written. */
  predicate Reads(u: string, m: int, e: int)
  {
    UnsignedDecimal(u).Some? && UnsignedDecimal(u).value.mant == m
    && UnsignedDecimal(u).value.exp == e
  }

  lemma ReadsStrip(u: string, m: int, e: int)
    requires Reads(u, m, e) && m % 10 != 0
    ensures ReadsCanonical(u, m, e)
  {
    assert Canonical(UnsignedDecimal(u).value);
  }

  lemma {:induction false} LayoutPlainRead(s: string, n: int)
    requires |s| > 0 && AllDigits(s) && DigitsValue(s) % 10 != 0 && |s| <= n <= 21
    ensures ReadsCanonical(Layout(s, n), DigitsValue(s), n - |s|)
  {
    var z := n - |s|;
    assert Layout(s, n) == PlainForm(s, z);
    ParsePlain(s, z);
    StripZerosOf(UnsignedDecimal(PlainForm(s, z)).value, DigitsValue(s), z);
  }

  lemma {:induction false} LayoutPointRead(s: string, n: int)
    requires |s| > 0 && AllDigits(s) && DigitsValue(s) % 10 != 0 && 0 < n <= 21 && n < |s|
    ensures ReadsCanonical(Layout(s, n), DigitsValue(s), n - |s|)
  {
    assert Layout(s, n) == PointForm(s, n);
    ParsePoint(s, n);
    ReadsStrip(PointForm(s, n), DigitsValue(s), n - |s|);
  }

  lemma {:induction false} LayoutFractionRead(s: string, n: int)
    requires |s| > 0 && AllDigits(s) && DigitsValue(s) % 10 != 0 && -6 < n <= 0
    ensures ReadsCanonical(Layout(s, n), DigitsValue(s), n - |s|)
  {
    var z := -n;
    assert Layout(s, n) == FractionForm(s, z);
    ParseFraction(s, z);
    ReadsStrip(FractionForm(s, z), DigitsValue(s), n - |s|);
  }

  lemma {:induction false} LayoutExponentRead(s: string, n: int)
    requires |s| > 0 && AllDigits(s) && DigitsValue(s) % 10 != 0 && (n > 21 || n <= -6)
    ensures ReadsCanonical(Layout(s, n), DigitsValue(s), n - |s|)
  {
    var x := n - 1;
    var t := ExponentText(x);
    assert Layout(s, n) == ExponentForm(s, t);
    ExponentOfText(x);
    if |s| == 1 {
      ParseExponentDigit(s, t, x);
    } else {
      ParseExponentPoint(s, t, x);
    }
    ReadsStrip(ExponentForm(s, t), DigitsValue(s), n - |s|);
  }

  /** `StripZeros` for a number given by its fields. */
  lemma StripZerosOf(v: Dec, m: int, z: nat)
    requires v.mant == Shift(m, z) && m % 10 != 0
    ensures Strip(v).mant == m && Strip(v).exp == v.exp + z
  {
    assert v == Dec(Shift(m, z), v.exp);
    StripZeros(m, z, v.exp);
  }

  /** Reading digits with no point after them. */
  lemma {:induction false} ReadInteger(a: string, rest: string)
    requires |a| > 0 && AllDigits(a)
    requires rest == "" || (!IsDigit(rest[0]) && rest[0] != '.')
    ensures UnsignedDecimal(a + rest) == WithExponent(DigitsValue(a), 0, rest)
  {
    DigitRunAppend(a, rest);
    Slices(a, rest);
    NoFraction(rest);
  }

  /** Reading digits, a point, more digits. */
  lemma {:induction false} ReadPoint(a: string, frac: string, rest: string)
    requires |a| > 0 && AllDigits(a) && AllDigits(frac)
    requires rest == "" || !IsDigit(rest[0])
    ensures UnsignedDecimal(a + ("." + (frac + rest)))
      == WithExponent(Shift(DigitsValue(a), |frac|) + DigitsValue(frac), -|frac|, rest)
  {
    var u := a + ("." + (frac + rest));
    PointRun(a, frac + rest);
    FractionOf(frac, rest);
    Slices(a, "." + (frac + rest));
    ReadParts(u, |a|, frac, rest);
  }

  /** `UnsignedDecimal` in terms of the pieces it reads. */
  lemma ReadParts(u: string, i: nat, frac: string, rest: string)
    requires 0 < i <= |u| && DigitRun(u) == i && Fraction(u[i..]) == (frac, rest)
    requires AllDigits(u[..i]) && AllDigits(frac)
    ensures UnsignedDecimal(u) == WithExponent(Shift(DigitsValue(u[..i]), |frac|) + DigitsValue(frac), -|frac|, rest)
  {
  }

  lemma Slices(a: string, b: string)
    ensures (a + b)[..|a|] == a && (a + b)[|a|..] == b
  {
  }

  lemma NoFraction(rest: string)
    requires rest == "" || rest[0] != '.'
    ensures Fraction(rest) == ("", rest)
  {
  }

  lemma {:induction false} PointRun(a: string, t: string)
    requires AllDigits(a)
    ensures DigitRun(a + ("." + t)) == |a|
  {
    DigitRunAppend(a, "." + t);
  }

  lemma {:induction false} FractionOf(frac: string, rest: string)
    requires AllDigits(frac)
    requires rest == "" || !IsDigit(rest[0])
    ensures Fraction("." + (frac + rest)) == (frac, rest)
  {
    var t := frac + rest;
    assert ("." + t)[1..] == t;
    DigitRunAppend(frac, rest);
    Slices(frac, rest);
  }

  /** Reading the digits `s` and `z` zeros: the integer `s × 10^z`. */
  lemma {:induction false} ParsePlain(s: string, z: nat)
    requires |s| > 0 && AllDigits(s)
    ensures Reads(PlainForm(s, z), Shift(DigitsValue(s), z), 0)
  {
    ZerosValue(z);
    DigitsAppend(s, Zeros(z));
    ReadInteger(s + Zeros(z), "");
    PlainFormSplit(s, z);
  }

  /** Reading the digits `s` with a point after `n` of them. */
  lemma {:induction false} ParsePoint(s: string, n: nat)
    requires AllDigits(s) && 0 < n < |s|
    ensures Reads(PointForm(s, n), DigitsValue(s), n - |s|)
  {
    SplitValue(s, n);
    ReadPoint(s[..n], s[n..], "");
    PointFormSplit(s, n);
  }

  /** Reading `0.`, `z` zeros and the digits `s`. */
  lemma {:induction false} ParseFraction(s: string, z: nat)
    requires |s| > 0 && AllDigits(s)
    ensures Reads(FractionForm(s, z), DigitsValue(s), -(z + |s|))
  {
    var t := Zeros(z) + s;
    LeadingZerosValue(s, z);
    ReadPoint("0", t, "");
    ZeroPointValue(t);
    FractionFormSplit(s, z);
  }

  /** Reading one digit and an exponent that reads as `x`. */
  lemma {:induction false} ParseExponentDigit(s: string, t: string, x: int)
    requires |s| == 1 && AllDigits(s) && ExponentOf(t) == Some(x)
    ensures Reads(ExponentForm(s, t), DigitsValue(s), x)
  {
    ReadInteger(s, "e" + t);
    ExponentAfter(DigitsValue(s), 0, t, x, x);
    ExponentDigitSplit(s, t);
  }

  /** Reading a digit, a point, more digits and an exponent that reads as `x`. */
  lemma {:induction false} ParseExponentPoint(s: string, t: string, x: int)
    requires |s| > 1 && AllDigits(s) && ExponentOf(t) == Some(x)
    ensures Reads(ExponentForm(s, t), DigitsValue(s), x - (|s| - 1))
  {
    SplitValue(s, 1);
    ReadPointExponent(s[..1], s[1..], t, x);
    ExponentPointSplit(s, t);
  }

  lemma {:induction false} ReadPointExponent(a: string, frac: string, t: string, x: int)
    requires |a| > 0 && AllDigits(a) && AllDigits(frac) && ExponentOf(t) == Some(x)
    ensures Reads(a + ("." + (frac + ("e" + t))), Shift(DigitsValue(a), |frac|) + DigitsValue(frac), x - |frac|)
  {
    var rest := "e" + t;
    var m := Shift(DigitsValue(a), |frac|) + DigitsValue(frac);
    var y := x - |frac|;
    assert !IsDigit(rest[0]);
    ReadPoint(a, frac, rest);
    ExponentAfter(m, -|frac|, t, x, y);
  }

  lemma {:induction false} LeadingZerosValue(s: string, z: nat)
    requires AllDigits(s)
    ensures AllDigits(Zeros(z) + s) && DigitsValue(Zeros(z) + s) == DigitsValue(s)
  {
    ZerosValue(z);
    DigitsAppend(Zeros(z), s);
    ShiftOfZero(|s|);
  }

  lemma {:induction false} ZeroPointValue(t: string)
    requires AllDigits(t)
    ensures Shift(DigitsValue("0"), |t|) + DigitsValue(t) == DigitsValue(t)
  {
    assert PrefixValue("0", 0) == 0;
    assert DigitsValue("0") == 0;
    ShiftOfZero(|t|);
  }

  lemma {:induction false} SplitValue(s: string, n: nat)
    requires AllDigits(s) && n <= |s|
    ensures AllDigits(s[..n]) && AllDigits(s[n..])
    ensures DigitsValue(s) == Shift(DigitsValue(s[..n]), |s[n..]|) + DigitsValue(s[n..])
  {
    assert s[..n] + s[n..] == s;
    DigitsAppend(s[..n], s[n..]);
  }

  lemma {:induction false} ShiftOfZero(n: nat)
    ensures Shift(0, n) == 0
  {
    if n > 0 {
      ShiftOfZero(n - 1);
    }
  }

  /** The exponent `x` as `ExponentText` writes it, read back. */
  lemma {:induction false} ExponentOfText(x: int)
    ensures ExponentOf(ExponentText(x)) == Some(x)
  {
    var ax := if x < 0 then -x else x;
    var t := ExponentText(x);
    assert t[1..] == NatToString(ax);
    DigitRunAll(NatToString(ax));
    NatToStringValue(ax);
  }

  lemma ExponentAfter(mant: int, e: int, t: string, x: int, y: int)
    requires ExponentOf(t) == Some(x) && y == x + e
    ensures WithExponent(mant, e, "e" + t) == Some(Dec(mant, y))
  {
    assert ("e" + t)[1..] == t;
  }

  // Each written form, regrouped as the reading lemmas above take it.

  lemma PlainFormSplit(s: string, z: nat)
    ensures PlainForm(s, z) == (s + Zeros(z)) + ""
  {
  }

  lemma PointFormSplit(s: string, n: nat)
    requires n <= |s|
    ensures PointForm(s, n) == s[..n] + ("." + (s[n..] + ""))
  {
  }

  lemma FractionFormSplit(s: string, z: nat)
    ensures FractionForm(s, z) == "0" + ("." + ((Zeros(z) + s) + ""))
  {
  }

  lemma ExponentDigitSplit(s: string, t: string)
    requires |s| == 1
    ensures ExponentForm(s, t) == s + ("e" + t)
  {
    assert s[..1] == s;
  }

  lemma ExponentPointSplit(s: string, t: string)
    requires |s| > 1
    ensures ExponentForm(s, t) == s[..1] + ("." + (s[1..] + ("e" + t)))
  {
    assert ("." + s[1..]) + ("e" + t) == "." + (s[1..] + ("e" + t));
  }
}
