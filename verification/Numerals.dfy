/** Positional numerals, most significant digit first, in any base. */
module Numerals {
  function Pow(base: nat, e: nat): nat {
    if e == 0 then 1 else base * Pow(base, e - 1)
  }

  ghost predicate IsNumeral(d: seq<nat>, base: nat) {
    forall i :: 0 <= i < |d| ==> d[i] < base
  }

  function Value(d: seq<nat>, base: nat): nat {
    if d == [] then 0 else Value(d[..|d| - 1], base) * base + d[|d| - 1]
  }

  /** The shortest numeral for `n`; zero is the empty numeral. */
  function Digits(n: nat, base: nat): (d: seq<nat>)
    requires base >= 2
    ensures IsNumeral(d, base)
    ensures d != [] ==> d[0] != 0
    ensures d == [] <==> n == 0
  {
    if n == 0 then [] else
      Digits(n / base, base) + [n % base]
  }

  lemma ValueAppend(d: seq<nat>, l: nat, base: nat)
    ensures Value(d + [l], base) == Value(d, base) * base + l
  {
    assert (d + [l])[..|d|] == d;
  }

  lemma DivMod(n: nat, base: nat)
    requires base > 0
    ensures n == (n / base) * base + n % base
  {
  }

  lemma DivWindow(n: nat, k: nat, q: int)
    requires k > 0 && q == n / k
    ensures 0 <= q && q * k <= n < q * k + k
  {
    DivMod(n, k);
  }

  /** Division that remembers what it means. */
  function Quotient(n: nat, k: nat): (q: nat)
    requires k > 0
    ensures q * k <= n < q * k + k
  {
    var q := n / k;
    DivWindow(n, k, q);
    q
  }

  lemma {:induction false} QuotientIs(n: nat, k: nat, q: nat)
    requires k > 0 && q * k <= n < q * k + k
    ensures Quotient(n, k) == q
  {
    var p := Quotient(n, k);
    if p < q {
      MulStep(p, k);
      MulMonotone(p + 1, q, k);
    } else if q < p {
      MulStep(q, k);
      MulMonotone(q + 1, p, k);
    }
  }

  lemma {:induction false} ValueOfDigits(n: nat, base: nat)
    requires base >= 2
    ensures Value(Digits(n, base), base) == n
  {
    if n != 0 {
      ValueOfDigits(n / base, base);
      ValueAppend(Digits(n / base, base), n % base, base);
      DivMod(n, base);
    }
  }

  lemma MulMonotone(x: int, y: int, k: nat)
    requires x <= y
    ensures x * k <= y * k
  {
  }

  lemma MulStep(x: int, k: int)
    ensures (x + 1) * k == x * k + k
  {
  }

  lemma {:induction false} DivModUnique(q: nat, r: nat, base: nat)
    requires r < base
    ensures (q * base + r) / base == q && (q * base + r) % base == r
  {
    var n := q * base + r;
    QuotientUnique(n / base - q, base, r - n % base);
  }

  lemma QuotientUnique(k: int, base: int, gap: int)
    requires 0 < base && k * base == gap && -base < gap < base
    ensures k == 0
  {
    if k >= 1 {
      MulMonotone(1, k, base);
    } else if k <= -1 {
      MulMonotone(k, -1, base);
    }
  }

  lemma {:induction false} ValueStep(d: seq<nat>, base: nat)
    requires base >= 2 && IsNumeral(d, base) && d != []
    ensures Value(d, base) / base == Value(d[..|d| - 1], base)
    ensures Value(d, base) % base == d[|d| - 1]
  {
    DivModUnique(Value(d[..|d| - 1], base), d[|d| - 1], base);
  }

  /** Without a leading zero, a numeral is the shortest one for its value. */
  lemma {:induction false} DigitsOfValue(d: seq<nat>, base: nat)
    requires base >= 2 && IsNumeral(d, base)
    requires d != [] ==> d[0] != 0
    ensures Digits(Value(d, base), base) == d
  {
    if d != [] {
      var init := d[..|d| - 1];
      DigitsOfValue(init, base);
      ValueStep(d, base);
      if init == [] {
        assert d == [d[0]];
      } else {
        assert Digits(Value(init, base), base) != [];
        assert Value(init, base) != 0;
      }
      assert d == init + [d[|d| - 1]];
    }
  }

  /** Numerals of one length are distinguished by their value. */
  lemma {:induction false} SameLengthInjective(c: seq<nat>, d: seq<nat>, base: nat)
    requires base >= 2 && IsNumeral(c, base) && IsNumeral(d, base)
    requires |c| == |d| && Value(c, base) == Value(d, base)
    ensures c == d
  {
    if c != [] {
      ValueStep(c, base);
      ValueStep(d, base);
      SameLengthInjective(c[..|c| - 1], d[..|d| - 1], base);
      assert c == c[..|c| - 1] + [c[|c| - 1]];
      assert d == d[..|d| - 1] + [d[|d| - 1]];
    }
  }

  lemma {:induction false} LeadingZeros(k: nat, d: seq<nat>, base: nat)
    ensures Value(seq(k, _ => 0) + d, base) == Value(d, base)
  {
    if d == [] {
      assert seq(k, _ => 0) + d == seq(k, _ => 0);
      if k > 0 {
        LeadingZeros(k - 1, [], base);
        assert seq(k, _ => 0)[..k - 1] == seq(k - 1, _ => 0) + [];
      }
    } else {
      var s := seq(k, _ => 0) + d;
      assert s[..|s| - 1] == seq(k, _ => 0) + d[..|d| - 1];
      LeadingZeros(k, d[..|d| - 1], base);
    }
  }

  lemma MulAssociative(x: int, y: int, z: int)
    ensures x * (y * z) == (x * y) * z
  {
  }

  lemma {:induction false} PowAdd(base: nat, a: nat, b: nat)
    ensures Pow(base, a + b) == Pow(base, a) * Pow(base, b)
  {
    if a > 0 {
      PowAdd(base, a - 1, b);
      MulAssociative(base, Pow(base, a - 1), Pow(base, b));
    }
  }

  lemma {:induction false} PowProduct(base: nat, a: nat, b: nat, x: nat, y: nat)
    requires Pow(base, a) == x && Pow(base, b) == y
    ensures Pow(base, a + b) == x * y
  {
    PowAdd(base, a, b);
  }

  lemma {:induction false} PowMonotone(base: nat, a: nat, b: nat)
    requires base >= 2 && a <= b
    ensures 0 < Pow(base, a) <= Pow(base, b)
    decreases b
  {
    if a < b {
      PowMonotone(base, a, b - 1);
    } else if a > 0 {
      PowMonotone(base, a - 1, a - 1);
    }
  }

  /** A numeral's value lies in the window fixed by its first digit and its length. */
  lemma {:induction false} ValueWindow(d: seq<nat>, base: nat)
    requires base >= 2 && IsNumeral(d, base) && d != []
    ensures d[0] * Pow(base, |d| - 1) <= Value(d, base) < (d[0] + 1) * Pow(base, |d| - 1)
  {
    if |d| == 1 {
      assert d[..0] == [];
      assert Value(d, base) == d[0];
    } else {
      ValueWindow(d[..|d| - 1], base);
      WindowStep(d[0], Pow(base, |d| - 2), Value(d[..|d| - 1], base), d[|d| - 1], base);
    }
  }

  lemma {:induction false} WindowStep(f: nat, p: nat, v: nat, l: nat, base: nat)
    requires f * p <= v < (f + 1) * p && l < base
    ensures f * (base * p) <= v * base + l < (f + 1) * (base * p)
  {
    MulMonotone(f * p, v, base);
    MulMonotone(v + 1, (f + 1) * p, base);
    assert (f * p) * base == f * (base * p);
    assert ((f + 1) * p) * base == (f + 1) * (base * p);
    assert (v + 1) * base == v * base + base;
  }

  /** A value strictly below `base^w` and at least `base^(w-1)` has exactly `w` digits. */
  lemma DigitCount(n: nat, base: nat, w: nat)
    requires base >= 2 && w > 0 && Pow(base, w - 1) <= n < Pow(base, w)
    ensures |Digits(n, base)| == w
  {
    PowMonotone(base, w - 1, w - 1);
    var d := Digits(n, base);
    ValueOfDigits(n, base);
    ValueWindow(d, base);
    PowMonotone(base, |d| - 1, |d| - 1);
    MulMonotone(1, d[0], Pow(base, |d| - 1));
    MulMonotone(d[0] + 1, base, Pow(base, |d| - 1));
    if |d| > w {
      PowMonotone(base, w, |d| - 1);
    } else if |d| < w {
      PowMonotone(base, |d|, w - 1);
    }
  }

  lemma {:induction false} DigitsFit(n: nat, base: nat, w: nat)
    requires base >= 2 && n < Pow(base, w)
    ensures |Digits(n, base)| <= w
  {
    var d := Digits(n, base);
    if |d| > w {
      ValueOfDigits(n, base);
      ValueWindow(d, base);
      PowMonotone(base, w, |d| - 1);
      MulMonotone(1, d[0], Pow(base, |d| - 1));
    }
  }

  lemma {:induction false} DivTwice(n: nat, a: nat, b: nat)
    requires a > 0 && b > 0
    ensures a * b > 0 && n / a / b == n / (a * b)
  {
    var m := Quotient(n, a);
    var q := Quotient(m, b);
    MulMonotone(q * b, m, a);
    MulMonotone(m + 1, q * b + b, a);
    QuotientIs(n, a, m);
    assert a * b > 0 by { MulMonotone(1, b, a); }
    assert q * b * a == q * (a * b) && (q * b + b) * a == q * (a * b) + a * b;
    QuotientIs(n, a * b, q);
  }

  lemma {:induction false} DivShift(n: int, p: nat, c: nat, whole: nat)
    requires p > 0 && whole == p * c
    ensures (n + whole) / p == n / p + c
  {
    var q, r := n / p, n % p;
    assert n == q * p + r;
    assert n + whole == (q + c) * p + r;
    QuotientUnique((n + whole) / p - (q + c), p, r - (n + whole) % p);
  }

  /** The most significant digit comes first. */
  lemma {:induction false} ValuePrepend(x: nat, d: seq<nat>, base: nat)
    ensures Value([x] + d, base) == x * Pow(base, |d|) + Value(d, base)
  {
    if d == [] {
      assert ([x] + d)[..0] == [];
    } else {
      var n := |d| - 1;
      assert ([x] + d)[..|d|] == [x] + d[..n];
      ValuePrepend(x, d[..n], base);
      assert (x * Pow(base, n)) * base == x * (base * Pow(base, n));
      assert (x * Pow(base, n) + Value(d[..n], base)) * base == (x * Pow(base, n)) * base + Value(d[..n], base) * base;
    }
  }

  /** The digit `k` places from the right end. */
  function Place(n: nat, base: nat, k: nat): nat
    requires base >= 2
  {
    PowMonotone(base, 0, k);
    n / Pow(base, k) % base
  }

  /** The digits of a numeral are the places of its value, and every place beyond them is zero. */
  lemma {:induction false} DigitPlace(n: nat, base: nat, k: nat)
    requires base >= 2
    ensures var d := Digits(n, base); Place(n, base, k) == if k < |d| then d[|d| - 1 - k] else 0
    decreases k
  {
    PowMonotone(base, 0, k);
    if n == 0 {
      DivWindow(0, Pow(base, k), 0 / Pow(base, k));
      ZeroPlace(Pow(base, k), base);
    } else if k > 0 {
      PowMonotone(base, 0, k - 1);
      DigitPlace(n / base, base, k - 1);
      DivTwice(n, base, Pow(base, k - 1));
    }
  }

  lemma ZeroPlace(p: nat, base: nat)
    requires p > 0 && base >= 2
    ensures 0 / p % base == 0
  {
    QuotientIs(0, p, 0);
  }
}
