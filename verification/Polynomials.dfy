/**
 Polynomials over GF(2) and what a division register computes in their terms.

 A polynomial is the set of exponents whose coefficient is one, so equality of polynomials is equality
 of sets and addition is symmetric difference.
 */
module Polynomials {
  import opened ShiftRegister

  type Poly = iset<nat>

  ghost const Nil: Poly := iset{}

  ghost function Add(p: Poly, q: Poly): Poly {
    (p - q) + (q - p)
  }

  ghost predicate InShift(p: Poly, k: nat, i: nat) {
    k <= i && i - k in p
  }

  /** p * x^k */
  ghost function Shift(p: Poly, k: nat): Poly {
    iset i: nat | InShift(p, k, i)
  }

  ghost predicate Coefficient(w: Bits, i: nat) {
    i < |w| && w[|w| - 1 - i]
  }

  /** The polynomial written by a bit string, most significant coefficient first. */
  ghost function PolyOf(w: Bits): Poly {
    iset i: nat | Coefficient(w, i)
  }

  /** The monic generator of degree |p| whose remaining coefficients are `p`. */
  ghost function Generator(p: Bits): Poly {
    iset{|p|} + PolyOf(p)
  }

  /** q * g, with the coefficients of q most significant first (Horner's scheme). */
  ghost function Times(q: Bits, g: Poly): Poly {
    if q == [] then Nil
    else Add(Shift(Times(q[..|q| - 1], g), 1), if q[|q| - 1] then g else Nil)
  }

  /** `r` is what is left of `a` after long division by the generator with low coefficients `p`. */
  ghost predicate IsRemainder(r: Bits, a: Poly, p: Bits) {
    |r| == |p| && exists q: Bits :: a == Add(Times(q, Generator(p)), PolyOf(r))
  }

  // ---- Existence: the register computes a remainder ---------------------------------------------

  /** The dividend of a CRC: the initial register above the message, and the message above n zeros. */
  ghost function Dividend(r: Bits, w: Bits): Poly {
    Add(Shift(PolyOf(r), |w|), Shift(PolyOf(w), |r|))
  }

  lemma ShiftAdd(p: Poly, q: Poly, k: nat)
    ensures Shift(Add(p, q), k) == Add(Shift(p, k), Shift(q, k))
  {
  }

  lemma StepCoefficient(r: Bits, b: bool, p: Bits, i: nat)
    requires 0 < |r| == |p| && i < |p|
    ensures Coefficient(Step(r, b, p), i)
         == ((0 < i && Coefficient(r, i - 1)) != (r[0] != b && Coefficient(p, i)))
  {
    var j := |p| - 1 - i;
    assert (r[1..] + [false])[j] == (0 < i && r[j + 1]);
  }

  lemma StepPoly(r: Bits, b: bool, p: Bits)
    requires 0 < |r| == |p|
    ensures Add(Shift(PolyOf(r), 1), if b then iset{|p|} else Nil)
         == Add(if r[0] != b then Generator(p) else Nil, PolyOf(Step(r, b, p)))
  {
    var n := |p|;
    var entering, leaving := if b then iset{n} else Nil, if r[0] != b then Generator(p) else Nil;
    var s := PolyOf(Step(r, b, p));
    forall i: nat ensures i in Add(Shift(PolyOf(r), 1), entering) <==> i in Add(leaving, s) {
      assert InShift(PolyOf(r), 1, i) == (0 < i && Coefficient(r, i - 1));
      if i < n {
        StepCoefficient(r, b, p, i);
      } else if i == n {
        assert Coefficient(r, n - 1) == r[0];
      }
    }
  }

  lemma DividendStep(r: Bits, w: Bits, b: bool)
    ensures Dividend(r, w + [b]) == Add(Shift(Dividend(r, w), 1), if b then iset{|r|} else Nil)
  {
    var n, k := |r|, |w|;
    var lhs := Dividend(r, w + [b]);
    var rhs := Add(Shift(Dividend(r, w), 1), if b then iset{n} else Nil);
    forall i: nat ensures i in lhs <==> i in rhs {
      if n < i <= n + k {
        assert (w + [b])[k - (i - n)] == w[k - 1 - (i - 1 - n)];
      }
    }
  }

  /** The quotient bits are the ones that fall out at the top of the register. */
  ghost function Quotient(r: Bits, w: Bits, p: Bits): Bits
    requires 0 < |r| == |p|
  {
    if w == [] then []
    else
      var k := |w| - 1;
      Quotient(r, w[..k], p) + [Run(r, w[..k], p)[0] != w[k]]
  }

  lemma AddAssoc(p: Poly, q: Poly, r: Poly)
    ensures Add(Add(p, q), r) == Add(p, Add(q, r)) && Add(p, q) == Add(q, p)
  {
  }

  /** One more line of the long division: `q` so far, remainder `s`, next dividend bit `b`. */
  lemma {:induction false} DivisionStep(q: Bits, s: Bits, b: bool, p: Bits)
    requires 0 < |s| == |p|
    ensures Add(Shift(Add(Times(q, Generator(p)), PolyOf(s)), 1), if b then iset{|p|} else Nil)
         == Add(Times(q + [s[0] != b], Generator(p)), PolyOf(Step(s, b, p)))
  {
    var g, top := Generator(p), s[0] != b;
    var entering, leaving := if b then iset{|p|} else Nil, if top then g else Nil;
    var multiple := Shift(Times(q, g), 1);
    assert (q + [top])[..|q + [top]| - 1] == q;
    ShiftAdd(Times(q, g), PolyOf(s), 1);
    StepPoly(s, b, p);
    AddAssoc(multiple, Shift(PolyOf(s), 1), entering);
    AddAssoc(multiple, leaving, PolyOf(Step(s, b, p)));
  }

  lemma {:induction false} RunDivides(r: Bits, w: Bits, p: Bits)
    requires 0 < |r| == |p|
    ensures Dividend(r, w) == Add(Times(Quotient(r, w, p), Generator(p)), PolyOf(Run(r, w, p)))
  {
    if w == [] {
      assert Dividend(r, w) == PolyOf(r);
    } else {
      var k := |w| - 1;
      var v, b := w[..k], w[k];
      RunDivides(r, v, p);
      assert w == v + [b];
      DividendStep(r, v, b);
      DivisionStep(Quotient(r, v, p), Run(r, v, p), b, p);
    }
  }

  // ---- Uniqueness: nothing else is a remainder --------------------------------------------------

  lemma {:induction false} TimesZeros(q: Bits, g: Poly)
    requires !HasOne(q)
    ensures Times(q, g) == Nil
  {
    if q != [] {
      TimesZeros(q[..|q| - 1], g);
    }
  }

  /** A non-zero multiple of the generator reaches its degree. */
  lemma {:induction false} MultipleReachesDegree(q: Bits, p: Bits) returns (e: nat)
    requires HasOne(q)
    ensures e >= |p| && e in Times(q, Generator(p))
  {
    var k := |q| - 1;
    if HasOne(q[..k]) {
      var e' := MultipleReachesDegree(q[..k], p);
      e := e' + 1;
    } else {
      TimesZeros(q[..k], Generator(p));
      var i :| 0 <= i < |q| && q[i];
      assert forall j :: 0 <= j < k ==> q[j] == q[..k][j];
      e := |p|;
    }
  }

  lemma {:induction false} TimesXor(q: Bits, q': Bits, g: Poly)
    requires |q| == |q'|
    ensures Times(Xor(q, q'), g) == Add(Times(q, g), Times(q', g))
  {
    if q != [] {
      var k := |q| - 1;
      TimesXor(q[..k], q'[..k], g);
      assert Xor(q, q')[..k] == Xor(q[..k], q'[..k]);
      ShiftAdd(Times(q[..k], g), Times(q'[..k], g), 1);
    }
  }

  lemma {:induction false} TimesPadded(z: nat, q: Bits, g: Poly)
    ensures Times(Zeros(z) + q, g) == Times(q, g)
  {
    if q == [] {
      assert Zeros(z) + q == Zeros(z);
      TimesZeros(Zeros(z), g);
    } else {
      var k := |q| - 1;
      assert (Zeros(z) + q)[..z + k] == Zeros(z) + q[..k];
      TimesPadded(z, q[..k], g);
    }
  }

  lemma TimesAdd(q: Bits, q': Bits, g: Poly) returns (d: Bits)
    ensures Times(d, g) == Add(Times(q, g), Times(q', g))
  {
    var v, v' := Zeros(|q'|) + q, Zeros(|q|) + q';
    TimesPadded(|q'|, q, g);
    TimesPadded(|q|, q', g);
    TimesXor(v, v', g);
    d := Xor(v, v');
  }

  lemma AddCancel(a: Poly, b: Poly, c: Poly, d: Poly)
    requires Add(a, b) == Add(c, d)
    ensures Add(a, c) == Add(b, d)
  {
    forall i: nat ensures i in Add(a, c) <==> i in Add(b, d) {
      assert i in Add(a, b) <==> i in Add(c, d);
    }
  }

  lemma RemainderUnique(r: Bits, r': Bits, a: Poly, p: Bits)
    requires IsRemainder(r, a, p) && IsRemainder(r', a, p)
    ensures r == r'
  {
    var g := Generator(p);
    var q: Bits :| a == Add(Times(q, g), PolyOf(r));
    var q': Bits :| a == Add(Times(q', g), PolyOf(r'));
    AddCancel(Times(q, g), PolyOf(r), Times(q', g), PolyOf(r'));
    var d := TimesAdd(q, q', g);
    var difference := Add(PolyOf(r), PolyOf(r'));
    if HasOne(d) {
      var e := MultipleReachesDegree(d, p);
      assert false;
    } else {
      TimesZeros(d, g);
    }
    forall i | 0 <= i < |r| ensures r[i] == r'[i] {
      var e: nat := |r| - 1 - i;
      assert Coefficient(r, e) == r[i] && Coefficient(r', e) == r'[i];
      assert e !in difference;
    }
  }

  /** The register's contents are the remainder of the dividend, and nothing else is. */
  lemma {:induction false} RegisterIsRemainder(r: Bits, w: Bits, p: Bits, s: Bits)
    requires 0 < |r| == |p|
    ensures IsRemainder(s, Dividend(r, w), p) <==> s == Run(r, w, p)
  {
    RunDivides(r, w, p);
    assert IsRemainder(Run(r, w, p), Dividend(r, w), p);
    if IsRemainder(s, Dividend(r, w), p) {
      RemainderUnique(s, Run(r, w, p), Dividend(r, w), p);
    }
  }
}
