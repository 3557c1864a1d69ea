/**
 Bit-serial division registers over bit strings, most significant bit first.

 This is the simple machine that the word-sized CRC loops of the firmware implement: one message bit
 enters at the top, the register shifts by one and the generator is subtracted when the bit that falls
 out is set.  Everything that makes a CRC worth having is proved here once, for a register of any width
 and any generator; module Crc shows that the C loops are instances of it.
 */
module ShiftRegister {

  type Bits = seq<bool>

  function Zeros(n: nat): (z: Bits)
    ensures |z| == n && forall i :: 0 <= i < n ==> !z[i]
  {
    seq(n, _ => false)
  }

  function Xor(a: Bits, b: Bits): (r: Bits)
    requires |a| == |b|
    ensures |r| == |a| && forall i {:trigger r[i]} :: 0 <= i < |a| ==> r[i] == (a[i] != b[i])
  {
    seq(|a|, i requires 0 <= i < |a| => a[i] != b[i])
  }

  ghost predicate HasOne(w: Bits) {
    exists i :: 0 <= i < |w| && w[i]
  }

  /** Parity of a bit string: true when the number of ones is odd. */
  function Odd(w: Bits): bool {
    if w == [] then false else w[0] != Odd(w[1..])
  }

  /** One clock of the register `r` with generator `p` (its top coefficient left out) and input `b`. */
  function Step(r: Bits, b: bool, p: Bits): (r': Bits)
    requires 0 < |r| == |p|
    ensures |r'| == |r|
  {
    Xor(r[1..] + [false], if r[0] != b then p else Zeros(|p|))
  }

  function Run(r: Bits, w: Bits, p: Bits): (r': Bits)
    requires 0 < |r| == |p|
    ensures |r'| == |r|
  {
    if w == [] then r else Step(Run(r, w[..|w| - 1], p), w[|w| - 1], p)
  }

  lemma {:induction false} RunConcat(r: Bits, v: Bits, w: Bits, p: Bits)
    requires 0 < |r| == |p|
    ensures Run(r, v + w, p) == Run(Run(r, v, p), w, p)
  {
    if w == [] {
      assert v + w == v;
    } else {
      var n := |w| - 1;
      assert (v + w)[..|v + w| - 1] == v + w[..n];
      RunConcat(r, v, w[..n], p);
    }
  }

  // ---- Linearity -------------------------------------------------------------------------------

  lemma StepLinear(r: Bits, s: Bits, b: bool, c: bool, p: Bits)
    requires 0 < |r| == |s| == |p|
    ensures Step(Xor(r, s), b != c, p) == Xor(Step(r, b, p), Step(s, c, p))
  {
  }

  lemma {:induction false} RunLinear(r: Bits, s: Bits, v: Bits, w: Bits, p: Bits)
    requires 0 < |r| == |s| == |p| && |v| == |w|
    ensures Run(Xor(r, s), Xor(v, w), p) == Xor(Run(r, v, p), Run(s, w, p))
  {
    if v != [] {
      var n := |v| - 1;
      assert Xor(v, w)[..n] == Xor(v[..n], w[..n]);
      RunLinear(r, s, v[..n], w[..n], p);
      StepLinear(Run(r, v[..n], p), Run(s, w[..n], p), v[n], w[n], p);
    }
  }

  /** Adding an error to the input adds the error's own trace to the register. */
  lemma {:induction false} ErrorTrace(r: Bits, w: Bits, e: Bits, p: Bits)
    requires 0 < |r| == |p| && |w| == |e|
    ensures Run(r, Xor(w, e), p) == Xor(Run(r, w, p), Run(Zeros(|r|), e, p))
  {
    RunLinear(r, Zeros(|r|), w, e, p);
    assert Xor(r, Zeros(|r|)) == r;
  }

  // ---- Zero inputs -----------------------------------------------------------------------------

  lemma {:induction false} ZerosKeepZero(n: nat, k: nat, p: Bits)
    requires 0 < n == |p|
    ensures Run(Zeros(n), Zeros(k), p) == Zeros(n)
  {
    if k > 0 {
      assert Zeros(k)[..k - 1] == Zeros(k - 1);
      ZerosKeepZero(n, k - 1, p);
    }
  }

  /** With the lowest generator coefficient set, clocking in zeros never clears a non-zero register. */
  lemma {:induction false} ZerosKeepNonZero(r: Bits, k: nat, p: Bits)
    requires 0 < |r| == |p| && p[|p| - 1] && HasOne(r)
    ensures HasOne(Run(r, Zeros(k), p))
  {
    if k > 0 {
      assert Zeros(k)[..k - 1] == Zeros(k - 1);
      ZerosKeepNonZero(r, k - 1, p);
      var s := Run(r, Zeros(k - 1), p);
      var n := |s| - 1;
      if s[0] {
        assert Step(s, false, p)[n];
      } else {
        var i :| 0 <= i < |s| && s[i];
        assert Step(s, false, p)[i - 1];
      }
    }
  }

  // ---- Absorbing the register's own contents ---------------------------------------------------

  lemma {:induction false} AbsorbPrefix(w: Bits, rest: Bits, p: Bits)
    requires 0 < |p| == |w| + |rest|
    ensures Run(w + rest, w, p) == rest + Zeros(|w|)
  {
    if w == [] {
      assert w + rest == rest + Zeros(0);
    } else {
      var k := |w| - 1;
      var rest' := [w[k]] + rest;
      assert w + rest == w[..k] + rest';
      AbsorbPrefix(w[..k], rest', p);
      assert Step(rest' + Zeros(k), w[k], p) == rest + Zeros(k + 1);
    }
  }

  lemma NonZeroHasOne(r: Bits)
    ensures HasOne(r) <==> r != Zeros(|r|)
  {
    if !HasOne(r) {
      assert forall i :: 0 <= i < |r| ==> !r[i];
    }
  }

  lemma XorZeros(r: Bits)
    ensures Xor(r, Zeros(|r|)) == r && Xor(Zeros(|r|), r) == r
  {
  }

  lemma XorCancel(a: Bits, b: Bits)
    requires |a| == |b| && Xor(a, b) == Zeros(|a|)
    ensures a == b
  {
    forall i | 0 <= i < |a| ensures a[i] == b[i] {
      assert !Xor(a, b)[i];
    }
  }

  lemma ZerosConcat(m: nat, n: nat)
    ensures Zeros(m) + Zeros(n) == Zeros(m + n)
  {
  }

  lemma {:induction false} SilentAndTraceCancel(w: Bits, p: Bits)
    requires 0 < |p| && |w| <= |p|
    ensures Xor(Run(w + Zeros(|p| - |w|), Zeros(|w|), p), Run(Zeros(|p|), w, p)) == Zeros(|p|)
  {
    var n, j := |p|, |w|;
    AbsorbPrefix(w, Zeros(n - j), p);
    ZerosConcat(n - j, j);
    ErrorTrace(w + Zeros(n - j), Zeros(j), w, p);
    XorZeros(w);
  }

  /** Up to a register's width of input, not all zero, always leaves a trace in a clear register. */
  lemma {:induction false} ShortInputLeavesTrace(w: Bits, p: Bits)
    requires 0 < |p| && p[|p| - 1] && |w| <= |p| && HasOne(w)
    ensures HasOne(Run(Zeros(|p|), w, p))
  {
    var n, j := |p|, |w|;
    var r := w + Zeros(n - j);
    var i :| 0 <= i < |w| && w[i];
    assert r[i];
    ZerosKeepNonZero(r, j, p);
    SilentAndTraceCancel(w, p);
    XorCancel(Run(r, Zeros(j), p), Run(Zeros(n), w, p));
  }

  lemma StepWidened(r: Bits, b: bool, p: Bits, k: nat)
    requires 0 < |r| == |p|
    ensures Step(r + Zeros(k), b, p + Zeros(k)) == Step(r, b, p) + Zeros(k)
  {
    var s, t := Step(r + Zeros(k), b, p + Zeros(k)), Step(r, b, p) + Zeros(k);
    forall i | 0 <= i < |s| ensures s[i] == t[i] {
    }
  }

  /** Empty stages below the register stay empty when the generator has none of their coefficients. */
  lemma {:induction false} RunWidened(r: Bits, w: Bits, p: Bits, k: nat)
    requires 0 < |r| == |p|
    ensures Run(r + Zeros(k), w, p + Zeros(k)) == Run(r, w, p) + Zeros(k)
  {
    if w != [] {
      var n := |w| - 1;
      RunWidened(r, w[..n], p, k);
      StepWidened(Run(r, w[..n], p), w[n], p, k);
    }
  }

  /** Input added at the top of the register and clocked through equals input fed bit by bit. */
  lemma {:induction false} PreloadedInput(r: Bits, w: Bits, p: Bits)
    requires |w| <= |r| == |p| && 0 < |p|
    ensures Run(Xor(r, w + Zeros(|p| - |w|)), Zeros(|w|), p) == Run(r, w, p)
  {
    var n, j := |p|, |w|;
    var loaded := w + Zeros(n - j);
    SilentAndTraceCancel(w, p);
    XorCancel(Run(loaded, Zeros(j), p), Run(Zeros(n), w, p));
    ErrorTrace(r, Zeros(j), w, p);
    XorZeros(w);
    RunLinear(r, loaded, Zeros(j), Zeros(j), p);
    XorZeros(Zeros(j));
  }

  lemma {:induction false} AbsorbAll(r: Bits, p: Bits)
    requires 0 < |r| == |p|
    ensures Run(r, r, p) == Zeros(|r|)
  {
    AbsorbPrefix(r, [], p);
    assert r + [] == r;
    assert [] + Zeros(|r|) == Zeros(|r|);
  }

  /** The register is cleared by exactly one word of its own width: its own contents. */
  lemma {:induction false} ClearedExactlyByOwnContents(r: Bits, w: Bits, p: Bits)
    requires 0 < |r| == |p| == |w| && p[|p| - 1]
    ensures Run(r, w, p) == Zeros(|r|) <==> w == r
  {
    AbsorbAll(r, p);
    if w != r {
      var e := Xor(r, w);
      var i :| 0 <= i < |r| && r[i] != w[i];
      assert e[i];
      ShortInputLeavesTrace(e, p);
      ErrorTrace(r, r, e, p);
      assert Xor(r, e) == w;
      var trace := Run(Zeros(|r|), e, p);
      XorZeros(trace);
    }
  }

  // ---- Error detection -------------------------------------------------------------------------

  /** All ones of `e` lie in the window of `width` bits that starts at bit `at`. */
  ghost predicate Burst(e: Bits, at: nat, width: nat) {
    && HasOne(e)
    && forall i :: 0 <= i < |e| && e[i] ==> at <= i < at + width
  }

  lemma {:induction false} PaddedLeavesTrace(before: nat, w: Bits, after: nat, p: Bits)
    requires 0 < |p| && p[|p| - 1] && |w| <= |p| && HasOne(w)
    ensures HasOne(Run(Zeros(|p|), Zeros(before) + (w + Zeros(after)), p))
  {
    var n := |p|;
    RunConcat(Zeros(n), Zeros(before), w + Zeros(after), p);
    ZerosKeepZero(n, before, p);
    RunConcat(Zeros(n), w, Zeros(after), p);
    ShortInputLeavesTrace(w, p);
    ZerosKeepNonZero(Run(Zeros(n), w, p), after, p);
  }

  lemma BurstWindow(e: Bits, at: nat, width: nat) returns (w: Bits, after: nat)
    requires Burst(e, at, width)
    ensures |w| <= width && HasOne(w) && e == Zeros(at) + (w + Zeros(after))
  {
    var i :| 0 <= i < |e| && e[i];
    var hi := if at + width <= |e| then at + width else |e|;
    w, after := e[at..hi], |e| - hi;
    assert w[i - at];
  }

  lemma {:induction false} BurstLeavesTrace(e: Bits, at: nat, p: Bits)
    requires 0 < |p| && p[|p| - 1] && Burst(e, at, |p|)
    ensures HasOne(Run(Zeros(|p|), e, p))
  {
    var w, after := BurstWindow(e, at, |p|);
    PaddedLeavesTrace(at, w, after, p);
  }

  lemma {:induction false} OddConcat(v: Bits, w: Bits)
    ensures Odd(v + w) == (Odd(v) != Odd(w))
  {
    if v == [] {
      assert v + w == w;
    } else {
      assert (v + w)[1..] == v[1..] + w;
      OddConcat(v[1..], w);
    }
  }

  lemma {:induction false} OddXor(v: Bits, w: Bits)
    requires |v| == |w|
    ensures Odd(Xor(v, w)) == (Odd(v) != Odd(w))
  {
    if v != [] {
      assert Xor(v, w)[1..] == Xor(v[1..], w[1..]);
      OddXor(v[1..], w[1..]);
    }
  }

  lemma {:induction false} OddZeros(n: nat)
    ensures !Odd(Zeros(n))
  {
    if n > 0 {
      assert Zeros(n)[1..] == Zeros(n - 1);
      OddZeros(n - 1);
    }
  }

  lemma {:induction false} StepParity(r: Bits, b: bool, p: Bits)
    requires 0 < |r| == |p| && Odd(p)
    ensures Odd(Step(r, b, p)) == (Odd(r) != b)
  {
    var shifted := r[1..] + [false];
    OddConcat(r[1..], [false]);
    OddXor(shifted, if r[0] != b then p else Zeros(|p|));
    OddZeros(|p|);
  }

  /** A generator with an odd number of coefficients below the top one keeps the parity of its input. */
  lemma {:induction false} RunParity(r: Bits, w: Bits, p: Bits)
    requires 0 < |r| == |p| && Odd(p)
    ensures Odd(Run(r, w, p)) == (Odd(r) != Odd(w))
  {
    if w != [] {
      var n := |w| - 1;
      RunParity(r, w[..n], p);
      StepParity(Run(r, w[..n], p), w[n], p);
      assert w == w[..n] + [w[n]];
      OddConcat(w[..n], [w[n]]);
    }
  }
}
