/** Positional numbers, and shifts and bit operations of C on non-negative values. */
module Radix {

  function Pow(b: nat, k: nat): nat {
    if k == 0 then 1 else b * Pow(b, k - 1)
  }

  /** The number with the given digits, least significant first. */
  function Value(b: nat, ds: seq<nat>): nat {
    if ds == [] then 0 else ds[0] + b * Value(b, ds[1..])
  }

  predicate AreDigits(b: nat, ds: seq<nat>) {
    forall i :: 0 <= i < |ds| ==> ds[i] < b
  }

  /** The n least significant digits of a number. */
  function Digits(b: nat, n: nat, v: nat): (ds: seq<nat>)
    requires 0 < b
    ensures |ds| == n && AreDigits(b, ds)
  {
    if n == 0 then [] else [v % b] + Digits(b, n - 1, v / b)
  }

  lemma {:induction false} PowPositive(b: nat, k: nat)
    requires 0 < b
    ensures 0 < Pow(b, k)
  {
    if k > 0 {
      PowPositive(b, k - 1);
    }
  }

  lemma Regroup(x: nat, y: nat, z: nat)
    ensures x * (y * z) == x * y * z
  {
  }

  lemma {:induction false} PowAdd(b: nat, j: nat, k: nat)
    ensures Pow(b, j + k) == Pow(b, j) * Pow(b, k)
  {
    if j > 0 {
      PowAdd(b, j - 1, k);
      assert Pow(b, j + k) == b * Pow(b, j - 1 + k);
      Regroup(b, Pow(b, j - 1), Pow(b, k));
    }
  }

  lemma {:induction false} PowPow(b: nat, j: nat, k: nat)
    ensures Pow(Pow(b, j), k) == Pow(b, j * k)
  {
    if k > 0 {
      PowPow(b, j, k - 1);
      PowAdd(b, j, j * (k - 1));
      assert j + j * (k - 1) == j * k;
    }
  }

  lemma {:induction false} MulLess(a: nat, x: nat, y: nat, r: nat)
    requires r < a
    ensures x < y ==> r + a * x < a * y
  {
    if x < y {
      MulLess(a, x, y - 1, r);
    }
  }

  lemma DivMod(x: nat, b: nat, q: nat, r: nat)
    requires r < b && x == r + b * q
    ensures x / b == q && x % b == r
  {
    MulLess(b, x / b, q, x % b);
    MulLess(b, q, x / b, r);
  }

  lemma Distribute(a: nat, b: nat, q: nat, r: nat)
    ensures a * (r + b * q) == a * r + a * b * q
  {
  }

  lemma Nested(x: nat, a: nat, y: nat, s: nat, b: nat, q: nat, r: nat)
    requires x == s + a * y && s < a && y == r + b * q && r < b
    ensures x == s + a * r + a * b * q && s + a * r < a * b
  {
    Distribute(a, b, q, r);
    MulLess(a, r, b, s);
  }

  lemma DivDiv(x: nat, a: nat, b: nat)
    requires 0 < a && 0 < b
    ensures 0 < a * b && x / (a * b) == x / a / b
  {
    var y, s := x / a, x % a;
    var q, r := y / b, y % b;
    Nested(x, a, y, s, b, q, r);
    DivMod(x, a * b, q, s + a * r);
  }

  lemma DivLess(v: nat, b: nat, p: nat)
    requires 0 < b && v < b * p
    ensures v / b < p
  {
    MulLess(b, p, v / b, 0);
  }

  /** Digit by digit: what division and remainder pick out. */
  lemma {:induction false} DigitAt(b: nat, n: nat, v: nat, i: nat)
    requires 0 < b && i < n
    ensures 0 < Pow(b, i) && Digits(b, n, v)[i] == v / Pow(b, i) % b
  {
    PowPositive(b, i);
    if i > 0 {
      assert Digits(b, n, v)[i] == Digits(b, n - 1, v / b)[i - 1];
      assert Pow(b, i) == b * Pow(b, i - 1);
      DigitAt(b, n - 1, v / b, i - 1);
      DivDiv(v, b, Pow(b, i - 1));
    } else {
      assert v / Pow(b, 0) == v;
    }
  }

  lemma Divided(v: nat, b: nat)
    requires 0 < b
    ensures v == v % b + b * (v / b)
  {
  }

  lemma {:induction false} ValueStep(b: nat, ds: seq<nat>, v: nat)
    requires 0 < b && ds != [] && ds[0] == v % b && Value(b, ds[1..]) == v / b
    ensures Value(b, ds) == v
  {
    assert Value(b, ds) == ds[0] + b * Value(b, ds[1..]);
    Divided(v, b);
  }

  lemma {:induction false} ValueDigits(b: nat, n: nat, v: nat)
    requires 0 < b && v < Pow(b, n)
    ensures Value(b, Digits(b, n, v)) == v
  {
    if n > 0 {
      assert Pow(b, n) == b * Pow(b, n - 1);
      DivLess(v, b, Pow(b, n - 1));
      ValueDigits(b, n - 1, v / b);
      var ds := Digits(b, n, v);
      assert ds[1..] == Digits(b, n - 1, v / b);
      ValueStep(b, ds, v);
    }
  }

  lemma {:induction false} ValueBound(b: nat, ds: seq<nat>)
    requires 0 < b && AreDigits(b, ds)
    ensures Value(b, ds) < Pow(b, |ds|)
  {
    if ds != [] {
      ValueBound(b, ds[1..]);
      MulLess(b, Value(b, ds[1..]), Pow(b, |ds| - 1), ds[0]);
    }
  }

  lemma {:induction false} DigitsValue(b: nat, ds: seq<nat>)
    requires 0 < b && AreDigits(b, ds)
    ensures Digits(b, |ds|, Value(b, ds)) == ds
  {
    if ds != [] {
      DivMod(Value(b, ds), b, Value(b, ds[1..]), ds[0]);
      DigitsValue(b, ds[1..]);
    }
  }

  /** Dividing by a power of the base drops digits. */
  lemma {:induction false} DropDigits(b: nat, ds: seq<nat>, q: nat)
    requires 0 < b && AreDigits(b, ds) && q <= |ds|
    ensures 0 < Pow(b, q) && Value(b, ds) / Pow(b, q) == Value(b, ds[q..])
  {
    PowPositive(b, q);
    if q == 0 {
      assert ds[0..] == ds;
    } else {
      DropDigits(b, ds[1..], q - 1);
      DivMod(Value(b, ds), b, Value(b, ds[1..]), ds[0]);
      DivDiv(Value(b, ds), b, Pow(b, q - 1));
      assert ds[1..][q - 1..] == ds[q..];
    }
  }

  /** Two notations of the same numbers: changing the base back and forth loses nothing. */
  lemma {:induction false} ChangeOfBase(b: nat, n: nat, c: nat, ds: seq<nat>)
    requires 0 < b && 0 < c && AreDigits(c, ds) && Pow(c, |ds|) == Pow(b, n)
    ensures Digits(c, |ds|, Value(b, Digits(b, n, Value(c, ds)))) == ds
  {
    ValueBound(c, ds);
    ValueDigits(b, n, Value(c, ds));
    DigitsValue(c, ds);
  }

  // ---- Bits --------------------------------------------------------------------------------------

  function Shr(x: nat, k: nat): nat {
    PowPositive(2, k);
    x / Pow(2, k)
  }

  function Shl(x: nat, k: nat): nat {
    x * Pow(2, k)
  }

  function Or(x: nat, y: nat): nat {
    if x == 0 then y
    else (if x % 2 == 1 || y % 2 == 1 then 1 else 0) + 2 * Or(x / 2, y / 2)
  }

  function And(x: nat, y: nat): nat {
    if x == 0 then 0
    else (if x % 2 == 1 && y % 2 == 1 then 1 else 0) + 2 * And(x / 2, y / 2)
  }

  /** Values without a bit in common: `|` adds. */
  lemma {:induction false} OrDisjoint(x: nat, y: nat, k: nat)
    requires x < Pow(2, k)
    ensures Or(x, Shl(y, k)) == x + Shl(y, k)
  {
    if x != 0 {
      assert Shl(y, k) == 2 * Shl(y, k - 1);
      OrDisjoint(x / 2, y, k - 1);
    }
  }

  lemma ModDouble(y: nat, p: nat)
    requires 0 < p
    ensures y % (2 * p) == y % 2 + 2 * (y / 2 % p)
  {
    var q, r := y / 2 / p, y / 2 % p;
    Distribute(2, p, q, r);
    DivMod(y, 2 * p, q, y % 2 + 2 * r);
  }

  /** A mask of low bits is a remainder. */
  lemma {:induction false} AndMask(k: nat, y: nat)
    ensures 0 < Pow(2, k) && And(Pow(2, k) - 1, y) == y % Pow(2, k)
  {
    PowPositive(2, k);
    if k > 0 {
      AndMask(k - 1, y / 2);
      ModDouble(y, Pow(2, k - 1));
    }
  }
}
