/**
 Two flipped bits under crc16 with the CCITT generator (lib/crc.c): they cancel exactly when they are a multiple of
 32767 bits apart, which is the order of x modulo the generator.  No error of one, two or three bits in less than
 that is accepted.
 */
module CrcDistance {
  import opened Basics
  import opened Crc
  import opened ShiftRegister
  import Radix
  import Residues

  const ORDER: nat := 32767

  const P: Bits := WordBits(CRC16_POLY_CCITT)

  /** x^k modulo the generator: k clocks of a register that holds one. */
  function Power(k: nat): bv16 {
    BitSteps(1, CRC16_POLY_CCITT, k)
  }

  /** One step of Horner's scheme: s * x, plus b if the highest term of a is there. */
  function MulStep(s: bv16, a: bv16, b: bv16): bv16 {
    if a & 0x8000 != 0 then BitStep(s, CRC16_POLY_CCITT) ^ b else BitStep(s, CRC16_POLY_CCITT)
  }

  /** s * x^n plus the n highest terms of a, times b. */
  function MulSteps(s: bv16, a: bv16, b: bv16, n: nat): bv16
    decreases n, a
  {
    if n == 0 then s else MulSteps(MulStep(s, a, b), a << 1, b, n - 1)
  }

  lemma TopBit(a: bv16)
    ensures WordBits(a)[..1] == [a & 0x8000 != 0]
  {
    assert WordBits(a)[0] == Bit(a, 0);
  }

  lemma MulStepBits(s: bv16, a: bv16, b: bv16)
    ensures WordBits(MulStep(s, a, b))
         == Residues.Horner(WordBits(s), WordBits(a)[..1], WordBits(b), P)
  {
    BitStepIsStep(s, CRC16_POLY_CCITT);
    var x := BitStep(s, CRC16_POLY_CCITT);
    XorWordBits(x, b);
    XorZeros(WordBits(x));
    TopBit(a);
    assert WordBits(a)[..1][..0] == [];
  }

  lemma {:induction false} MulStepsNext(s: bv16, a: bv16, b: bv16, n: nat)
    ensures MulSteps(s, a, b, n + 1) == MulSteps(MulStep(s, a, b), a << 1, b, n)
  {
  }

  lemma TopAndRest(a: bv16, n: nat)
    requires 0 < n <= 16
    ensures WordBits(a)[..n] == WordBits(a)[..1] + WordBits(a << 1)[..n - 1]
  {
    ShiftWordBits(a);
  }

  lemma {:induction false} MulStepsBits(s: bv16, a: bv16, b: bv16, n: nat)
    requires n <= 16
    ensures WordBits(MulSteps(s, a, b, n)) == Residues.Horner(WordBits(s), WordBits(a)[..n], WordBits(b), P)
    decreases n
  {
    if n > 0 {
      MulStepsNext(s, a, b, n - 1);
      MulStepBits(s, a, b);
      MulStepsBits(MulStep(s, a, b), a << 1, b, n - 1);
      TopAndRest(a, n);
      Residues.HornerConcat(WordBits(s), WordBits(a)[..1], WordBits(a << 1)[..n - 1], WordBits(b), P);
    }
  }

  /** Four steps. */
  function MulFour(s: bv16, a: bv16, b: bv16): bv16 {
    MulStep(MulStep(MulStep(MulStep(s, a, b), a << 1, b), a << 2, b), a << 3, b)
  }

  /** a * b modulo the generator. */
  function Mul(a: bv16, b: bv16): bv16 {
    MulFour(MulFour(MulFour(MulFour(0, a, b), a << 4, b), a << 8, b), a << 12, b)
  }

  lemma Shifts(a: bv16)
    ensures a << 1 << 1 == a << 2 && a << 2 << 1 == a << 3 && a << 3 << 1 == a << 4
    ensures a << 4 << 4 == a << 8 && a << 8 << 4 == a << 12
  {
  }

  lemma {:induction false} MulFourIs(s: bv16, a: bv16, b: bv16, n: nat)
    ensures MulSteps(s, a, b, n + 4) == MulSteps(MulFour(s, a, b), a << 4, b, n)
  {
    Shifts(a);
    var s1 := MulStep(s, a, b);
    var s2 := MulStep(s1, a << 1, b);
    var s3 := MulStep(s2, a << 2, b);
    MulStepsNext(s, a, b, n + 3);
    MulStepsNext(s1, a << 1, b, n + 2);
    MulStepsNext(s2, a << 2, b, n + 1);
    MulStepsNext(s3, a << 3, b, n);
  }

  lemma {:induction false} MulIs(a: bv16, b: bv16)
    ensures Mul(a, b) == MulSteps(0, a, b, 16)
  {
    Shifts(a);
    var s1 := MulFour(0, a, b);
    var s2 := MulFour(s1, a << 4, b);
    var s3 := MulFour(s2, a << 8, b);
    MulFourIs(0, a, b, 12);
    MulFourIs(s1, a << 4, b, 8);
    MulFourIs(s2, a << 8, b, 4);
    MulFourIs(s3, a << 12, b, 0);
  }

  lemma OneBits()
    ensures WordBits(1) == Residues.Unit(16)
  {
    forall i: nat | i < 16 ensures Bit(1, i) == Residues.Unit(16)[i] {
    }
  }

  lemma PowerBits(k: nat)
    ensures WordBits(Power(k)) == Residues.Power(k, P)
  {
    OneBits();
    BitStepsAreRun(1, CRC16_POLY_CCITT, k);
  }

  /** x^j * x^k is x^(j + k), modulo the generator. */
  lemma PowerProduct(j: nat, k: nat, a: bv16, b: bv16, product: bv16)
    requires Power(j) == a && Power(k) == b && Mul(a, b) == product
    ensures Power(j + k) == product
  {
    MulIs(a, b);
    MulStepsBits(0, a, b, 16);
    ZeroWordBits(0);
    assert WordBits(a)[..16] == WordBits(a);
    PowerBits(j);
    PowerBits(k);
    PowerBits(j + k);
    Residues.PowerSum(j, k, P);
    WordBitsInjective(product, Power(j + k));
  }

  // ---- The order of x ----------------------------------------------------------------------------

  lemma Power217()
    ensures Power(27) == 0x89a9 && Power(54) == 0x1168 && Power(108) == 0x3750 && Power(217) == 0x48e3
  {
    assert Power(1) == 0x0002 && Power(5) == 0x0020 && Power(8) == 0x0100;
    PowerProduct(8, 5, 0x0100, 0x0020, 0x2000);
    PowerProduct(13, 13, 0x2000, 0x2000, 0xccc4);
    PowerProduct(26, 1, 0xccc4, 0x0002, 0x89a9);
    PowerProduct(27, 27, 0x89a9, 0x89a9, 0x1168);
    PowerProduct(54, 54, 0x1168, 0x1168, 0x3750);
    PowerProduct(108, 108, 0x3750, 0x3750, 0xac61);
    PowerProduct(216, 1, 0xac61, 0x0002, 0x48e3);
  }

  lemma Power1057()
    ensures Power(434) == 0x1fb2 && Power(1057) == 0xf2af
  {
    Power217();
    PowerProduct(217, 217, 0x48e3, 0x48e3, 0x1fb2);
    PowerProduct(434, 434, 0x1fb2, 0x1fb2, 0x7c65);
    PowerProduct(54, 27, 0x1168, 0x89a9, 0xc667);
    PowerProduct(108, 81, 0x3750, 0xc667, 0x6aad);
    PowerProduct(868, 189, 0x7c65, 0x6aad, 0xf2af);
  }

  lemma Power4681()
    ensures Power(4681) == 0x2c42
  {
    Power1057();
    assert Power(3) == 0x0008 && Power(8) == 0x0100;
    PowerProduct(8, 8, 0x0100, 0x0100, 0x1021);
    PowerProduct(16, 3, 0x1021, 0x0008, 0x8108);
    PowerProduct(1057, 1057, 0xf2af, 0xf2af, 0xf59b);
    PowerProduct(2114, 2114, 0xf59b, 0xf59b, 0xb21f);
    PowerProduct(4228, 434, 0xb21f, 0x1fb2, 0x7696);
    PowerProduct(4662, 19, 0x7696, 0x8108, 0x2c42);
  }

  lemma PowerOrder()
    ensures Power(ORDER) == 1
  {
    Power4681();
    PowerProduct(4681, 4681, 0x2c42, 0x2c42, 0x8635);
    PowerProduct(9362, 9362, 0x8635, 0x8635, 0x5a68);
    PowerProduct(18724, 9362, 0x5a68, 0x8635, 0x762b);
    PowerProduct(28086, 4681, 0x762b, 0x2c42, 0x0001);
  }

  lemma ModDown(k: nat, n: nat)
    requires 0 < n <= k
    ensures (k - n) % n == k % n
  {
    var q: nat := k / n - 1;
    assert k - n == k % n + n * q;
    Radix.DivMod(k - n, n, q, k % n);
  }

  lemma {:induction false} PowerMod(k: nat, n: nat)
    requires 0 < n && Power(n) == 1
    ensures Power(k) == Power(k % n)
    decreases k
  {
    if k >= n {
      BitStepsAdd(1, CRC16_POLY_CCITT, n, k - n);
      PowerMod(k - n, n);
      ModDown(k, n);
    }
  }

  lemma {:induction false} LeastPeriod(n: nat) returns (m: nat)
    requires 0 < n && Power(n) == 1
    ensures 0 < m && Power(m) == 1 && forall k :: 0 < k < m ==> Power(k) != 1
    decreases n
  {
    if k :| 0 < k < n && Power(k) == 1 {
      m := LeastPeriod(k);
    } else {
      m := n;
    }
  }

  lemma NotNegative(p: nat, m: int)
    requires 0 < p && 0 <= p * m
    ensures 0 <= m
  {
  }

  lemma Remaindered(p: nat, a: nat, b: nat)
    requires 0 < a < p && (a * b) % p == 0
    ensures ((p % a) * b) % p == 0
  {
    var q, r, c := p / a, p % a, (a * b) / p;
    assert p == q * a + r && a * b == c * p;
    var m := b - q * c;
    calc {
      r * b;
      (p - q * a) * b;
      p * b - q * (a * b);
      p * b - q * (c * p);
      p * m;
    }
    NotNegative(p, m);
    Radix.DivMod(r * b, p, m, 0);
  }

  /** If p has no divisors and does not divide a, it divides b when it divides a * b. */
  lemma {:induction false} Euclid(p: nat, a: nat, b: nat)
    requires 0 < a < p && (forall d :: 2 <= d < p ==> p % d != 0) && (a * b) % p == 0
    ensures b % p == 0
    decreases a
  {
    if a > 1 {
      var q, r := p / a, p % a;
      Remaindered(p, a, b);
      Euclid(p, r, b);
    } else {
      assert a * b == b;
    }
  }

  lemma Prime7()
    ensures forall d :: 2 <= d < 7 ==> 7 % d != 0
  {
  }

  lemma Prime31()
    ensures forall d :: 2 <= d < 31 ==> 31 % d != 0
  {
  }

  lemma Prime151()
    ensures forall d :: 2 <= d < 151 ==> 151 % d != 0
  {
  }

  lemma Same(p: nat, x: nat, y: nat)
    requires 0 < p && p * x == p * y
    ensures x == y
  {
  }

  lemma Factor(n: nat, k: nat, p: nat, m: nat)
    requires 0 < n && 0 < p && n * k == p * m && k % p == 0
    ensures m % n == 0
  {
    var c := k / p;
    assert k == p * c;
    calc {
      p * m;
      n * (p * c);
      p * (n * c);
    }
    Same(p, m, n * c);
    Radix.DivMod(m, n, c, 0);
  }

  /** A prime that divides n * k but not k divides n. */
  lemma Peel(n: nat, k: nat, p: nat, m: nat) returns (c: nat)
    requires 2 <= p && (forall d :: 2 <= d < p ==> p % d != 0) && n * k == p * m && k % p != 0
    ensures c * k == m
  {
    var q, r := k / p, k % p;
    assert k == p * q + r;
    var rest := m - n * q;
    calc {
      r * n;
      n * k - n * (p * q);
      p * m - p * (n * q);
      p * rest;
    }
    NotNegative(p, rest);
    Radix.DivMod(r * n, p, rest, 0);
    Euclid(p, r, n);
    c := n / p;
    assert n == p * c;
    calc {
      p * m;
      (p * c) * k;
      p * (c * k);
    }
    Same(p, m, c * k);
  }

  lemma OnlyWhole(n: nat)
    requires 0 < n && ORDER % n == 0 && 217 % n != 0 && 1057 % n != 0 && 4681 % n != 0
    ensures n == ORDER
  {
    var k := ORDER / n;
    assert n * k == ORDER;
    if k % 7 == 0 {
      Factor(n, k, 7, 4681);
    } else if k % 31 == 0 {
      Factor(n, k, 31, 1057);
    } else if k % 151 == 0 {
      Factor(n, k, 151, 217);
    } else {
      Prime7();
      Prime31();
      Prime151();
      var c := Peel(n, k, 7, 4681);
      c := Peel(c, k, 31, 151);
      c := Peel(c, k, 151, 1);
      assert k == 1;
    }
  }

  /** 32767 is the order of x modulo the generator. */
  lemma OrderIff(k: nat)
    ensures Power(k) == 1 <==> k % ORDER == 0
  {
    PowerOrder();
    Power217();
    Power1057();
    Power4681();
    var m := LeastPeriod(ORDER);
    PowerMod(ORDER, m);
    PowerMod(217, m);
    PowerMod(1057, m);
    PowerMod(4681, m);
    OnlyWhole(m);
    PowerMod(k, ORDER);
  }

  // ---- Two flipped bits --------------------------------------------------------------------------

  /** Exactly bits a and b of e are set. */
  ghost predicate TwoOnes(e: Bits, a: nat, b: nat) {
    a < b < |e| && forall i :: 0 <= i < |e| ==> (e[i] <==> i == a || i == b)
  }

  lemma TopWord()
    ensures WordBits(0x8000) == [true] + Zeros(15)
  {
    forall i: nat | i < 16 ensures Bit(0x8000, i) == ([true] + Zeros(15))[i] {
    }
  }

  lemma StepFlipped(r: Bits, p: Bits)
    requires 0 < |r| == |p|
    ensures Step(r, true, p) == Step(Xor(r, [true] + Zeros(|r| - 1)), false, p)
  {
    assert Xor(r, [true] + Zeros(|r| - 1))[1..] == r[1..];
  }

  /** Feeding a one is clocking with the top bit flipped. */
  lemma FeedOne(w: bv16)
    ensures Step(WordBits(w), true, P) == WordBits(BitStep(w ^ 0x8000, CRC16_POLY_CCITT))
  {
    TopWord();
    StepFlipped(WordBits(w), P);
    XorWordBits(w, 0x8000);
    BitStepIsStep(w ^ 0x8000, CRC16_POLY_CCITT);
  }

  lemma ZeroXor(w: bv16)
    ensures 0 ^ w == w
  {
  }

  function TopStepped(): bv16 {
    BitStep(0x8000, CRC16_POLY_CCITT)
  }

  /** What a one leaves in a clear register. */
  lemma OneTrace()
    ensures Run(Zeros(16), [true], P) == WordBits(TopStepped())
  {
    ZeroWordBits(0);
    FeedOne(0);
    ZeroXor(0x8000);
    assert [true][..0] == [];
  }

  lemma {:induction false} TopSteps(d: nat)
    requires 0 < d
    ensures BitSteps(0x8000, CRC16_POLY_CCITT, d) == BitSteps(TopStepped(), CRC16_POLY_CCITT, d - 1)
  {
  }

  lemma {:induction false} RunSnoc(r: Bits, w: Bits, b: bool)
    requires |r| == 16
    ensures Run(r, w + [b], P) == Step(Run(r, w, P), b, P)
  {
    assert (w + [b])[..|w|] == w;
  }

  /** And after d - 1 clocks. */
  lemma {:induction false} OneTraceLater(d: nat, t: bv16)
    requires 0 < d && t == BitSteps(0x8000, CRC16_POLY_CCITT, d)
    ensures Run(Zeros(16), [true] + Zeros(d - 1), P) == WordBits(t)
  {
    OneTrace();
    TopSteps(d);
    RunConcat(Zeros(16), [true], Zeros(d - 1), P);
    BitStepsAreRun(TopStepped(), CRC16_POLY_CCITT, d - 1);
  }

  /** What two ones, d bits apart, leave in a clear register. */
  lemma {:induction false} PairTrace(d: nat, t: bv16)
    requires 0 < d && t == BitSteps(0x8000, CRC16_POLY_CCITT, d)
    ensures Run(Zeros(16), [true] + Zeros(d - 1) + [true], P) == WordBits(BitStep(t ^ 0x8000, CRC16_POLY_CCITT))
  {
    OneTraceLater(d, t);
    RunSnoc(Zeros(16), [true] + Zeros(d - 1), true);
    FeedOne(t);
  }

  lemma LowBitSet(w: bv16)
    ensures (w << 1) ^ 0x1021 != 0
  {
  }

  lemma NothingLost(w: bv16)
    requires w & 0x8000 == 0
    ensures w << 1 == 0 ==> w == 0
  {
  }

  lemma ClockKeeps(w: bv16)
    ensures BitStep(w, CRC16_POLY_CCITT) == 0 <==> w == 0
  {
    if w & 0x8000 != 0 {
      LowBitSet(w);
    } else {
      NothingLost(w);
    }
  }

  lemma Equals(w: bv16)
    ensures w ^ 0x8000 == 0 <==> w == 0x8000
  {
  }

  lemma {:induction false} TopReturnsIff(d: nat)
    ensures BitSteps(0x8000, CRC16_POLY_CCITT, d) == 0x8000 <==> d % ORDER == 0
  {
    OrderIff(d);
    assert Power(7) == 0x0080 && Power(8) == 0x0100;
    PowerProduct(7, 8, 0x0080, 0x0100, 0x8000);
    BitStepsAdd(1, CRC16_POLY_CCITT, 15, d);
    if Power(d) == 1 {
      BitStepsAdd(1, CRC16_POLY_CCITT, d, 15);
    }
    if Power(15 + d) == Power(15) {
      PowerOrder();
      BitStepsAdd(1, CRC16_POLY_CCITT, 15 + d, ORDER - 15);
      BitStepsAdd(1, CRC16_POLY_CCITT, 15, ORDER - 15);
      BitStepsAdd(1, CRC16_POLY_CCITT, ORDER, d);
    }
  }

  lemma TwoOnesShape(e: Bits, a: nat, b: nat)
    requires TwoOnes(e, a, b)
    ensures e == Zeros(a) + ([true] + Zeros(b - a - 1) + [true]) + Zeros(|e| - b - 1)
  {
  }

  /** Zeros around an input change nothing about whether it leaves a trace. */
  lemma {:induction false} PaddedTraceIff(before: nat, w: Bits, after: nat, p: Bits)
    requires 0 < |p| && p[|p| - 1]
    ensures Run(Zeros(|p|), Zeros(before) + w + Zeros(after), p) == Zeros(|p|)
       <==> Run(Zeros(|p|), w, p) == Zeros(|p|)
  {
    RunConcat(Zeros(|p|), Zeros(before) + w, Zeros(after), p);
    RunConcat(Zeros(|p|), Zeros(before), w, p);
    ZerosKeepZero(|p|, before, p);
    ZerosKeepZero(|p|, after, p);
    var trace := Run(Zeros(|p|), w, p);
    NonZeroHasOne(trace);
    NonZeroHasOne(Run(trace, Zeros(after), p));
    if HasOne(trace) {
      ZerosKeepNonZero(trace, after, p);
    }
  }

  lemma PairClearsIff(d: nat)
    requires 0 < d
    ensures Run(Zeros(16), [true] + Zeros(d - 1) + [true], P) == Zeros(16) <==> d % ORDER == 0
  {
    var w := BitSteps(0x8000, CRC16_POLY_CCITT, d);
    PairTrace(d, w);
    TopReturnsIff(d);
    Equals(w);
    ClockKeeps(w ^ 0x8000);
    ZeroWordBits(BitStep(w ^ 0x8000, CRC16_POLY_CCITT));
  }

  lemma {:induction false} TraceOfTwo(e: Bits, a: nat, b: nat)
    requires TwoOnes(e, a, b)
    ensures Run(Zeros(16), e, P) == Zeros(16) <==> (b - a) % ORDER == 0
  {
    TwoOnesShape(e, a, b);
    CcittGenerator();
    LowestCoefficient(CRC16_POLY_CCITT);
    PaddedTraceIff(a, [true] + Zeros(b - a - 1) + [true], |e| - b - 1, P);
    PairClearsIff(b - a);
  }

  /** Two flipped bits go unnoticed exactly if they are a multiple of 32767 bits apart. */
  lemma {:induction false} DoubleErrorUndetectedIff(s: seq<byte>, e: seq<byte>, a: nat, b: nat)
    requires Accepted(s, CRC16_POLY_CCITT) && |s| == |e| && TwoOnes(MessageBits(e), a, b)
    ensures Accepted(XorBytes(s, e), CRC16_POLY_CCITT) <==> (b - a) % ORDER == 0
  {
    CcittGenerator();
    UndetectedErrors(s, e, CRC16_POLY_CCITT);
    Crc16IsRun(e, 0, CRC16_POLY_CCITT);
    ZeroWordBits(0);
    ZeroWordBits(Crc16(e, 0, CRC16_POLY_CCITT));
    TraceOfTwo(MessageBits(e), a, b);
  }

  // ---- Up to three flipped bits ------------------------------------------------------------------

  function Ones(w: Bits): nat {
    if w == [] then 0 else (if w[0] then 1 else 0) + Ones(w[1..])
  }

  lemma {:induction false} OddOnes(w: Bits)
    ensures Odd(w) <==> Ones(w) % 2 == 1
  {
    if w != [] {
      OddOnes(w[1..]);
    }
  }

  lemma {:induction false} NoOnes(w: Bits)
    requires Ones(w) == 0
    ensures forall i :: 0 <= i < |w| ==> !w[i]
  {
    if w != [] {
      NoOnes(w[1..]);
      assert forall i :: 0 < i < |w| ==> w[i] == w[1..][i - 1];
    }
  }

  lemma {:induction false} OneOne(w: Bits) returns (a: nat)
    requires Ones(w) == 1
    ensures a < |w| && forall i :: 0 <= i < |w| ==> (w[i] <==> i == a)
  {
    assert forall i :: 0 < i < |w| ==> w[i] == w[1..][i - 1];
    if w[0] {
      NoOnes(w[1..]);
      a := 0;
    } else {
      a := OneOne(w[1..]);
      a := a + 1;
    }
  }

  lemma {:induction false} TwoOnesOf(w: Bits) returns (a: nat, b: nat)
    requires Ones(w) == 2
    ensures TwoOnes(w, a, b)
  {
    assert forall i :: 0 < i < |w| ==> w[i] == w[1..][i - 1];
    if w[0] {
      b := OneOne(w[1..]);
      a, b := 0, b + 1;
    } else {
      a, b := TwoOnesOf(w[1..]);
      a, b := a + 1, b + 1;
    }
  }

  /** No error of one, two or three bits is accepted in up to 4095 bytes. */
  lemma {:induction false} FewFlipsRejected(s: seq<byte>, e: seq<byte>)
    requires Accepted(s, CRC16_POLY_CCITT) && |s| == |e| && |s| <= 4095
    requires 1 <= Ones(MessageBits(e)) <= 3
    ensures !Accepted(XorBytes(s, e), CRC16_POLY_CCITT)
  {
    OddOnes(MessageBits(e));
    if Ones(MessageBits(e)) == 2 {
      var a, b := TwoOnesOf(MessageBits(e));
      DoubleErrorUndetectedIff(s, e, a, b);
    } else {
      OddErrorRejected(s, e);
    }
  }
}
