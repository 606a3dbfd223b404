/** `Math.max`, `Math.min`, the editor's `clamp` and `Number(x.toFixed(2))`
    on exact decimals, with the facts the number sanitizer rests on: a
    clamped value lies in its range and rounding to hundredths keeps it
    there when the bounds have at most two decimals. */
module JsMath {
  import opened Numbers

  function Abs(x: int): nat
  {
    if x < 0 then -x else x
  }

  /** `Math.max(a, b)`. */
  function Max(a: Dec, b: Dec): (r: Dec)
    ensures r == a || r == b
    ensures Le(a, r) && Le(b, r)
  {
    if Le(b, a) then a else b
  }

  /** `Math.min(a, b)`. */
  function Min(a: Dec, b: Dec): (r: Dec)
    ensures r == a || r == b
    ensures Le(r, a) && Le(r, b)
  {
    if Le(a, b) then a else b
  }

  /** `clamp(value, min, max)`, which is `Math.min(Math.max(value, min), max)`:
      inside a non-empty range, and the value itself when it already lies
      there. */
  function Clamp(v: Dec, lo: Dec, hi: Dec): (r: Dec)
    ensures r == v || r == lo || r == hi
    ensures Le(r, hi)
    ensures Le(lo, hi) ==> Le(lo, r)
    ensures Le(lo, v) && Le(v, hi) ==> r == v
  {
    Min(Max(v, lo), hi)
  }

  /** `m / p` rounded to the nearest integer, halves upwards. */
  function HalfUp(m: nat, p: nat): nat
    requires p > 0
  {
    if 2 * (m % p) >= p then m / p + 1 else m / p
  }

  /** `Number(d.toFixed(2))` below 10^21 in magnitude: the nearest number of
      hundredths, ties away from zero (`toFixed` rounds the magnitude and
      puts the sign back). */
  function Round2(d: Dec): (r: Dec)
  {
    if d.exp >= -2 then d
    else Strip(Dec(RoundedMant(d), -2))
  }

  /** `Number(d.toFixed(2))`: from 10^21 in magnitude on, `toFixed` writes
      `String(d)`, which reads back as `d`. */
  function Fixed2(d: Dec): (r: Dec)
  {
    if Le(Dec(1, 21), Dec(Abs(d.mant), d.exp)) then d else Round2(d)
  }

  /** At most two decimals: the number is a whole count of hundredths. */
  predicate Hundredths(d: Dec)
  {
    d.exp >= -2
  }

  // ------------------------------------------------ comparing at any scale

  lemma {:induction false} ShiftAdd(x: int, i: nat, j: nat)
    ensures Shift(x, i + j) == Shift(Shift(x, i), j)
    decreases j
  {
    if j > 0 {
      ShiftAdd(x, i, j - 1);
    }
  }

  lemma {:induction false} ShiftMono(x: int, y: int, n: nat)
    ensures x <= y <==> Shift(x, n) <= Shift(y, n)
    decreases n
  {
    if n > 0 {
      ShiftMono(x, y, n - 1);
    }
  }

  lemma {:induction false} ShiftMul(x: int, n: nat)
    ensures Shift(x, n) == x * Pow10(n)
    decreases n
  {
    if n > 0 {
      ShiftMul(x, n - 1);
      assert 10 * (x * Pow10(n - 1)) == x * (10 * Pow10(n - 1));
    }
  }

  lemma {:induction false} ShiftTen(x: int, n: nat)
    ensures Shift(x, n + 1) == Shift(10 * x, n)
    decreases n
  {
    if n > 0 {
      ShiftTen(x, n - 1);
    }
  }

  /** `Le` may compare at any exponent no larger than both. */
  lemma LeAt(a: Dec, b: Dec, e: int)
    requires e <= a.exp && e <= b.exp
    ensures Le(a, b) <==> Over(a, e) <= Over(b, e)
  {
    var e0 := if a.exp <= b.exp then a.exp else b.exp;
    ShiftAdd(a.mant, a.exp - e0, e0 - e);
    ShiftAdd(b.mant, b.exp - e0, e0 - e);
    ShiftMono(Over(a, e0), Over(b, e0), e0 - e);
  }

  /** Stripping trailing zeros keeps the value at every common scale. */
  lemma {:induction false} OverStrip(b: Dec, e: int)
    requires e <= b.exp && e <= Strip(b).exp
    ensures Over(Strip(b), e) == Over(b, e)
    decreases Abs(b.mant)
  {
    if b.mant == 0 {
      ShiftOfZero(-e);
      ShiftOfZero(b.exp - e);
    } else if b.mant % 10 == 0 {
      var c := Dec(b.mant / 10, b.exp + 1);
      OverStrip(c, e);
      ShiftTen(b.mant / 10, b.exp - e);
    }
  }

  /** Stripping never lowers the exponent of a non-zero number or of one
      written with a non-positive exponent. */
  lemma {:induction false} StripExp(d: Dec)
    requires d.mant != 0 || d.exp <= 0
    ensures Strip(d).exp >= d.exp
    decreases Abs(d.mant)
  {
    if d.mant != 0 && d.mant % 10 == 0 {
      StripExp(Dec(d.mant / 10, d.exp + 1));
    }
  }

  lemma LeStripRight(a: Dec, b: Dec)
    requires Strip(b).exp >= b.exp
    ensures Le(a, Strip(b)) <==> Le(a, b)
  {
    var e := if a.exp <= b.exp then a.exp else b.exp;
    LeAt(a, Strip(b), e);
    LeAt(a, b, e);
    OverStrip(b, e);
  }

  lemma LeStripLeft(a: Dec, b: Dec)
    requires Strip(a).exp >= a.exp
    ensures Le(Strip(a), b) <==> Le(a, b)
  {
    var e := if a.exp <= b.exp then a.exp else b.exp;
    LeAt(Strip(a), b, e);
    LeAt(a, b, e);
    OverStrip(a, e);
  }

  // ------------------------------------------------ rounding stays in range

  lemma MulLe(x: int, y: int, p: nat)
    requires x <= y
    ensures x * p <= y * p
  {
    assert y * p - x * p == (y - x) * p;
  }

  /** Multiplying by a positive number keeps the order, both ways. */
  lemma MulMono(x: int, y: int, p: nat)
    requires p > 0
    ensures x <= y <==> x * p <= y * p
  {
    if x <= y {
      MulLe(x, y, p);
    } else {
      MulLe(y + 1, x, p);
      assert (y + 1) * p == y * p + p;
    }
  }

  /** A bound `h` of whole units of `p` below `m` survives rounding `m / p`. */
  lemma HalfUpAbove(m: nat, p: nat, h: int)
    requires p > 0 && h * p <= m
    ensures h <= HalfUp(m, p)
  {
    var q := m / p;
    assert m == q * p + m % p;
    assert (q + 1) * p == q * p + p;
    MulMono(q + 1, h, p);
  }

  /** A bound `h` of whole units of `p` above `m` survives rounding `m / p`. */
  lemma HalfUpBelow(m: nat, p: nat, h: int)
    requires p > 0 && m <= h * p
    ensures HalfUp(m, p) <= h
  {
    var q := m / p;
    assert m == q * p + m % p;
    MulMono(q, h, p);
    MulMono(h, q, p);
  }

  /** `d`, written over exponent `d.exp - k`, is the count of hundredths times 10^k. */
  lemma OverHundredths(d: Dec, k: nat)
    requires Hundredths(d)
    ensures Over(d, -2 - k) == Over(d, -2) * Pow10(k)
  {
    ShiftAdd(d.mant, d.exp + 2, k);
    ShiftMul(Over(d, -2), k);
  }

  /** The signed count of hundredths `toFixed(2)` picks. */
  function RoundedMant(c: Dec): int
    requires c.exp < -2
  {
    var n: int := HalfUp(Abs(c.mant), Pow10(-2 - c.exp));
    if c.mant < 0 then -n else n
  }

  lemma RoundedAbove(c: Dec, h: int)
    requires c.exp < -2 && h * Pow10(-2 - c.exp) <= c.mant
    ensures h <= RoundedMant(c)
  {
    var p := Pow10(-2 - c.exp);
    if c.mant >= 0 {
      HalfUpAbove(c.mant, p, h);
    } else {
      assert (-h) * p == -(h * p);
      HalfUpBelow(-c.mant, p, -h);
    }
  }

  lemma RoundedBelow(c: Dec, h: int)
    requires c.exp < -2 && c.mant <= h * Pow10(-2 - c.exp)
    ensures RoundedMant(c) <= h
  {
    var p := Pow10(-2 - c.exp);
    if c.mant >= 0 {
      HalfUpBelow(c.mant, p, h);
    } else {
      assert (-h) * p == -(h * p);
      HalfUpAbove(-c.mant, p, -h);
    }
  }

  lemma Round2Lower(c: Dec, lo: Dec)
    requires Hundredths(lo) && Le(lo, c)
    ensures Le(lo, Round2(c))
  {
    if c.exp < -2 {
      var r := Dec(RoundedMant(c), -2);
      assert Round2(c) == Strip(r);
      StripExp(r);
      LeStripRight(lo, r);
      LeAt(lo, r, -2);
      LeAt(lo, c, c.exp);
      OverHundredths(lo, -2 - c.exp);
      RoundedAbove(c, Over(lo, -2));
    }
  }

  lemma Round2Upper(c: Dec, hi: Dec)
    requires Hundredths(hi) && Le(c, hi)
    ensures Le(Round2(c), hi)
  {
    if c.exp < -2 {
      var r := Dec(RoundedMant(c), -2);
      assert Round2(c) == Strip(r);
      StripExp(r);
      LeStripLeft(r, hi);
      LeAt(r, hi, -2);
      LeAt(c, hi, c.exp);
      OverHundredths(hi, -2 - c.exp);
      RoundedBelow(c, Over(hi, -2));
    }
  }

  /** `Number(x.toFixed(2))` of a number between two bounds with at most two
      decimals stays between them. */
  lemma Fixed2InRange(c: Dec, lo: Dec, hi: Dec)
    requires Hundredths(lo) && Hundredths(hi)
    requires Le(lo, c) && Le(c, hi)
    ensures Le(lo, Fixed2(c)) && Le(Fixed2(c), hi)
  {
    Round2Lower(c, lo);
    Round2Upper(c, hi);
  }

  /** Rounding gives a canonical number of hundredths, and rounding it again
      changes nothing. */
  lemma Fixed2Shape(c: Dec)
    requires Canonical(c)
    ensures Canonical(Fixed2(c))
    ensures Fixed2(c) != c ==> Hundredths(Fixed2(c))
  {
    if c.exp < -2 {
      StripExp(Dec(RoundedMant(c), -2));
    }
  }

  lemma Round2OfHundredths(c: Dec)
    requires Hundredths(c)
    ensures Round2(c) == c
  {
  }
}
