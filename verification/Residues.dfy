/**
 Multiplication modulo the generator of a division register.  A register of width n holds a residue, a polynomial of
 degree below n; clocking it multiplies by x, and products are built from clocks and additions.
 */
module Residues {
  import opened ShiftRegister

  /** x * r modulo the generator. */
  function Clock(r: Bits, p: Bits): (r': Bits)
    requires 0 < |r| == |p|
    ensures |r'| == |r|
  {
    Step(r, false, p)
  }

  /** s * x^|w| + w * r modulo the generator, with the coefficients of w most significant first (Horner's scheme). */
  function Horner(s: Bits, w: Bits, r: Bits, p: Bits): (m: Bits)
    requires 0 < |s| == |r| == |p|
    ensures |m| == |p|
  {
    if w == [] then s
    else
      var k := |w| - 1;
      Xor(Clock(Horner(s, w[..k], r, p), p), if w[k] then r else Zeros(|p|))
  }

  /** w * r modulo the generator. */
  function Mul(w: Bits, r: Bits, p: Bits): (m: Bits)
    requires 0 < |r| == |p|
    ensures |m| == |p|
  {
    Horner(Zeros(|p|), w, r, p)
  }

  function Unit(n: nat): (u: Bits)
    requires 0 < n
    ensures |u| == n
  {
    Zeros(n - 1) + [true]
  }

  /** x^k modulo the generator. */
  function Power(k: nat, p: Bits): (r: Bits)
    requires 0 < |p|
    ensures |r| == |p|
  {
    Run(Unit(|p|), Zeros(k), p)
  }

  lemma ClockXor(r: Bits, s: Bits, p: Bits)
    requires 0 < |r| == |s| == |p|
    ensures Clock(Xor(r, s), p) == Xor(Clock(r, p), Clock(s, p))
    ensures Clock(Zeros(|p|), p) == Zeros(|p|)
  {
    StepLinear(r, s, false, false, p);
  }

  lemma {:induction false} HornerConcat(s: Bits, v: Bits, w: Bits, r: Bits, p: Bits)
    requires 0 < |s| == |r| == |p|
    ensures Horner(s, v + w, r, p) == Horner(Horner(s, v, r, p), w, r, p)
  {
    if w == [] {
      assert v + w == v;
    } else {
      var k := |w| - 1;
      assert (v + w)[..|v + w| - 1] == v + w[..k];
      HornerConcat(s, v, w[..k], r, p);
    }
  }

  lemma {:induction false} MulClock(w: Bits, r: Bits, p: Bits)
    requires 0 < |r| == |p|
    ensures Mul(w, Clock(r, p), p) == Clock(Mul(w, r, p), p)
  {
    ClockXor(r, r, p);
    if w != [] {
      var k := |w| - 1;
      MulClock(w[..k], r, p);
      ClockXor(Clock(Mul(w[..k], r, p), p), if w[k] then r else Zeros(|p|), p);
    }
  }

  /** A short enough polynomial times one is itself. */
  lemma {:induction false} MulUnit(w: Bits, p: Bits)
    requires 0 < |p| && |w| <= |p|
    ensures Mul(w, Unit(|p|), p) == Zeros(|p| - |w|) + w
  {
    if w != [] {
      var n, k := |p|, |w| - 1;
      MulUnit(w[..k], p);
      var r := Zeros(n - k) + w[..k];
      assert !r[0];
      assert Clock(r, p) == r[1..] + [false];
      assert r[1..] == Zeros(n - k - 1) + w[..k];
      var product := Xor(Clock(r, p), if w[k] then Unit(n) else Zeros(n));
      forall i | 0 <= i < n ensures product[i] == (Zeros(n - k - 1) + w)[i] {
      }
    }
  }

  /** Multiplying by x^k is clocking k times. */
  lemma {:induction false} MulPower(r: Bits, k: nat, p: Bits)
    requires 0 < |r| == |p|
    ensures Mul(r, Power(k, p), p) == Run(r, Zeros(k), p)
  {
    if k == 0 {
      MulUnit(r, p);
      assert Zeros(0) + r == r;
    } else {
      assert Zeros(k)[..k - 1] == Zeros(k - 1);
      MulPower(r, k - 1, p);
      MulClock(r, Power(k - 1, p), p);
    }
  }

  /** x^j * x^k is x^(j + k), modulo the generator. */
  lemma PowerSum(j: nat, k: nat, p: Bits)
    requires 0 < |p|
    ensures Mul(Power(j, p), Power(k, p), p) == Power(j + k, p)
  {
    MulPower(Power(j, p), k, p);
    RunConcat(Unit(|p|), Zeros(j), Zeros(k), p);
    ZerosConcat(j, k);
  }
}
