/**
 The byte-wise CRC loops: crc16 (lib/crc.c) and sdcard_crc7 (module/mgmt/sdcard.c).

 Both are shown to be instances of the bit-serial division register of module ShiftRegister, and inherit
 its meaning (the remainder of a polynomial division) and its error detection from there.
 */
module Crc {
  import opened Basics
  import opened ShiftRegister
  import opened Polynomials

  const CRC16_POLY_CCITT: bv16 := 0x1021

  // ---- Words and bytes as bit strings -----------------------------------------------------------

  /** The mask of bit `i` of a word, counted from the top. */
  function Mask(i: nat): bv16 {
    match i
    case 0 => 0x8000
    case 1 => 0x4000
    case 2 => 0x2000
    case 3 => 0x1000
    case 4 => 0x0800
    case 5 => 0x0400
    case 6 => 0x0200
    case 7 => 0x0100
    case 8 => 0x0080
    case 9 => 0x0040
    case 10 => 0x0020
    case 11 => 0x0010
    case 12 => 0x0008
    case 13 => 0x0004
    case 14 => 0x0002
    case 15 => 0x0001
    case _ => 0
  }

  predicate Bit(w: bv16, i: nat) {
    w & Mask(i) != 0
  }

  function WordBits(w: bv16): (r: Bits)
    ensures |r| == 16
  {
    seq(16, i requires 0 <= i => Bit(w, i))
  }

  /** A byte in the upper half of a word, where the CRC loop puts it. */
  function InUpperHalf(b: byte): bv16 {
    (b as bv16) << 8
  }

  function ByteBits(b: byte): (r: Bits)
    ensures |r| == 8
  {
    WordBits(InUpperHalf(b))[..8]
  }

  /** The bits of a message in transmission order. */
  function MessageBits(s: seq<byte>): (r: Bits)
    ensures |r| == 8 * |s|
  {
    if s == [] then [] else MessageBits(s[..|s| - 1]) + ByteBits(s[|s| - 1])
  }

  lemma SingleBit(i: nat)
    ensures Mask(i) & (Mask(i) - 1) == 0
    ensures Mask(i) >> 1 == Mask(i + 1)
    ensures i < 8 ==> Mask(i) & 0x00ff == 0 && Mask(i) >> 8 == Mask(i + 8)
  {
  }

  lemma XorMask(v: bv16, w: bv16, m: bv16)
    requires m & (m - 1) == 0
    ensures ((v ^ w) & m != 0) == ((v & m != 0) != (w & m != 0))
  {
  }

  lemma ShiftMask(w: bv16, m: bv16)
    ensures ((w << 1) & m != 0) == (w & (m >> 1) != 0)
  {
  }

  lemma XorBit(v: bv16, w: bv16, i: nat)
    ensures Bit(v ^ w, i) == (Bit(v, i) != Bit(w, i))
  {
    SingleBit(i);
    XorMask(v, w, Mask(i));
  }

  lemma ShiftBit(w: bv16, i: nat)
    ensures Bit(w << 1, i) == Bit(w, i + 1)
  {
    SingleBit(i);
    ShiftMask(w, Mask(i));
  }

  lemma NoMasks(w: bv16)
    requires w & 0x8000 == 0 && w & 0x4000 == 0 && w & 0x2000 == 0 && w & 0x1000 == 0
    requires w & 0x0800 == 0 && w & 0x0400 == 0 && w & 0x0200 == 0 && w & 0x0100 == 0
    requires w & 0x0080 == 0 && w & 0x0040 == 0 && w & 0x0020 == 0 && w & 0x0010 == 0
    requires w & 0x0008 == 0 && w & 0x0004 == 0 && w & 0x0002 == 0 && w & 0x0001 == 0
    ensures w == 0
  {
  }

  lemma NoBits(w: bv16)
    requires forall i: nat :: i < 16 ==> !Bit(w, i)
    ensures w == 0
  {
    assert !Bit(w, 0) && !Bit(w, 1) && !Bit(w, 2) && !Bit(w, 3);
    assert !Bit(w, 4) && !Bit(w, 5) && !Bit(w, 6) && !Bit(w, 7);
    assert !Bit(w, 8) && !Bit(w, 9) && !Bit(w, 10) && !Bit(w, 11);
    assert !Bit(w, 12) && !Bit(w, 13) && !Bit(w, 14) && !Bit(w, 15);
    NoMasks(w);
  }

  lemma XorWordBits(v: bv16, w: bv16)
    ensures WordBits(v ^ w) == Xor(WordBits(v), WordBits(w))
  {
    forall i: nat | i < 16 ensures WordBits(v ^ w)[i] == Xor(WordBits(v), WordBits(w))[i] {
      XorBit(v, w, i);
    }
  }

  lemma ShiftWordBits(w: bv16)
    ensures WordBits(w << 1) == WordBits(w)[1..] + [false]
  {
    forall i: nat | i < 16 ensures WordBits(w << 1)[i] == (WordBits(w)[1..] + [false])[i] {
      ShiftBit(w, i);
    }
  }

  lemma ZeroWordBits(w: bv16)
    ensures w == 0 <==> WordBits(w) == Zeros(16)
  {
    if WordBits(w) == Zeros(16) {
      forall i: nat | i < 16 ensures !Bit(w, i) {
        assert !WordBits(w)[i];
      }
      NoBits(w);
    }
  }

  lemma XorSelf(v: bv16, w: bv16)
    ensures v ^ w == 0 ==> v == w
  {
  }

  lemma WordBitsInjective(v: bv16, w: bv16)
    requires WordBits(v) == WordBits(w)
    ensures v == w
  {
    XorWordBits(v, w);
    assert Xor(WordBits(v), WordBits(w)) == Zeros(16);
    ZeroWordBits(v ^ w);
    XorSelf(v, w);
  }

  lemma UpperHalfXor(a: byte, b: byte)
    ensures InUpperHalf(a ^ b) == InUpperHalf(a) ^ InUpperHalf(b)
  {
  }

  lemma XorByteBits(a: byte, b: byte)
    ensures ByteBits(a ^ b) == Xor(ByteBits(a), ByteBits(b))
  {
    UpperHalfXor(a, b);
    XorWordBits(InUpperHalf(a), InUpperHalf(b));
  }

  lemma ShiftMask8(w: bv16, m: bv16)
    ensures ((w << 8) & m != 0) == (w & (m >> 8) != 0)
  {
  }

  lemma Shift8Bit(w: bv16, i: nat)
    requires i < 8
    ensures Bit(w << 8, i) == Bit(w, i + 8)
  {
    SingleBit(i);
    ShiftMask8(w, Mask(i));
  }

  lemma SameMask(v: bv16, w: bv16, m: bv16)
    requires m & 0x00ff == 0 && v & 0xff00 == w & 0xff00
    ensures (v & m != 0) == (w & m != 0)
  {
  }

  lemma SameUpperBit(v: bv16, w: bv16, i: nat)
    requires i < 8 && v & 0xff00 == w & 0xff00
    ensures Bit(v, i) == Bit(w, i)
  {
    SingleBit(i);
    SameMask(v, w, Mask(i));
  }

  lemma UpperHalfShiftedOut(b: byte)
    ensures InUpperHalf(b) << 8 == 0
  {
  }

  lemma UpperHalfBits(b: byte)
    ensures WordBits(InUpperHalf(b)) == ByteBits(b) + Zeros(8)
  {
    var w := InUpperHalf(b);
    forall i: nat | 8 <= i < 16 ensures !WordBits(w)[i] {
      Shift8Bit(w, i - 8);
      UpperHalfShiftedOut(b);
    }
  }

  function HighByte(w: bv16): byte { ((w >> 8) & 0xff) as byte }
  function LowByte(w: bv16): byte { (w & 0xff) as byte }

  lemma Halves(w: bv16)
    ensures InUpperHalf(HighByte(w)) & 0xff00 == w & 0xff00
    ensures InUpperHalf(LowByte(w)) == w << 8
  {
  }

  lemma UpperBits(w: bv16, hi: byte)
    requires InUpperHalf(hi) & 0xff00 == w & 0xff00
    ensures WordBits(w)[..8] == ByteBits(hi)
  {
    forall i: nat | i < 8 ensures Bit(InUpperHalf(hi), i) == Bit(w, i) {
      SameUpperBit(InUpperHalf(hi), w, i);
    }
  }

  lemma LowerBits(w: bv16, lo: byte)
    requires InUpperHalf(lo) == w << 8
    ensures WordBits(w)[8..] == ByteBits(lo)
  {
    forall i: nat | i < 8 ensures WordBits(w)[8..][i] == ByteBits(lo)[i] {
      Shift8Bit(w, i);
    }
  }

  lemma BitsOfHalves(w: bv16)
    ensures WordBits(w) == ByteBits(HighByte(w)) + ByteBits(LowByte(w))
  {
    Halves(w);
    UpperBits(w, HighByte(w));
    LowerBits(w, LowByte(w));
    assert WordBits(w) == WordBits(w)[..8] + WordBits(w)[8..];
  }

  lemma UpperHalfInjective(a: byte, b: byte)
    ensures InUpperHalf(a) == InUpperHalf(b) ==> a == b
  {
  }

  lemma ByteBitsInjective(a: byte, b: byte)
    requires ByteBits(a) == ByteBits(b)
    ensures a == b
  {
    UpperHalfBits(a);
    UpperHalfBits(b);
    WordBitsInjective(InUpperHalf(a), InUpperHalf(b));
    UpperHalfInjective(a, b);
  }

  function XorBytes(s: seq<byte>, e: seq<byte>): (r: seq<byte>)
    requires |s| == |e|
    ensures |r| == |s| && forall i {:trigger r[i]} :: 0 <= i < |s| ==> r[i] == s[i] ^ e[i]
  {
    seq(|s|, i requires 0 <= i < |s| => s[i] ^ e[i])
  }

  lemma XorConcat(a: Bits, b: Bits, c: Bits, d: Bits)
    requires |a| == |c| && |b| == |d|
    ensures Xor(a + b, c + d) == Xor(a, c) + Xor(b, d)
  {
  }

  lemma {:induction false} XorMessageBits(s: seq<byte>, e: seq<byte>)
    requires |s| == |e|
    ensures MessageBits(XorBytes(s, e)) == Xor(MessageBits(s), MessageBits(e))
  {
    if s != [] {
      var n := |s| - 1;
      assert XorBytes(s, e)[..n] == XorBytes(s[..n], e[..n]);
      XorMessageBits(s[..n], e[..n]);
      XorByteBits(s[n], e[n]);
      XorConcat(MessageBits(s[..n]), ByteBits(s[n]), MessageBits(e[..n]), ByteBits(e[n]));
    }
  }

  lemma {:induction false} MessageBitsConcat(s: seq<byte>, t: seq<byte>)
    ensures MessageBits(s + t) == MessageBits(s) + MessageBits(t)
  {
    if t == [] {
      assert s + t == s;
    } else {
      var n := |t| - 1;
      assert (s + t)[..|s| + n] == s + t[..n];
      MessageBitsConcat(s, t[..n]);
    }
  }

  lemma MessageBitsOfTwo(a: byte, b: byte)
    ensures MessageBits([a, b]) == ByteBits(a) + ByteBits(b)
  {
    assert [a, b][..1] == [a];
    assert MessageBits([a]) == [] + ByteBits(a);
  }

  // ---- crc16 -------------------------------------------------------------------------------------

  /** One pass of the inner loop of crc16. */
  function BitStep(crc: bv16, poly: bv16): bv16 {
    if crc & 0x8000 != 0 then (crc << 1) ^ poly else crc << 1
  }

  function BitSteps(crc: bv16, poly: bv16, n: nat): bv16
    decreases n, crc
  {
    if n == 0 then crc else BitSteps(BitStep(crc, poly), poly, n - 1)
  }

  function FeedByte(crc: bv16, b: byte, poly: bv16): bv16 {
    BitSteps(crc ^ InUpperHalf(b), poly, 8)
  }

  function Crc16(s: seq<byte>, iv: bv16, poly: bv16): bv16 {
    if s == [] then iv else FeedByte(Crc16(s[..|s| - 1], iv, poly), s[|s| - 1], poly)
  }

  method Crc16Loop(buf: array<byte>, len: nat, iv: bv16, poly: bv16) returns (crc: bv16)
    requires len <= buf.Length
    ensures crc == Crc16(buf[..len], iv, poly)
  {
    crc := iv;
    var i := 0;
    while i < len
      invariant 0 <= i <= len
      invariant crc == Crc16(buf[..i], iv, poly)
    {
      crc := crc ^ ((buf[i] as bv16) << 8);
      ghost var start := crc;
      var bit := 0;
      while bit < 8
        invariant 0 <= bit <= 8
        invariant BitSteps(crc, poly, 8 - bit) == BitSteps(start, poly, 8)
      {
        if crc & 0x8000 != 0 {
          crc := crc << 1;
          crc := crc ^ poly;
        } else {
          crc := crc << 1;
        }
        bit := bit + 1;
      }
      assert buf[..i + 1][..i] == buf[..i];
      i := i + 1;
    }
  }

  // ---- crc16 is a 16 bit division register -------------------------------------------------------

  lemma BitStepIsStep(crc: bv16, poly: bv16)
    ensures WordBits(BitStep(crc, poly)) == Step(WordBits(crc), false, WordBits(poly))
  {
    var r := WordBits(crc);
    assert r[0] == Bit(crc, 0);
    ShiftWordBits(crc);
    if r[0] {
      XorWordBits(crc << 1, poly);
    } else {
      XorZeros(r[1..] + [false]);
    }
  }

  lemma {:induction false} BitStepsAreRun(crc: bv16, poly: bv16, n: nat)
    ensures WordBits(BitSteps(crc, poly, n)) == Run(WordBits(crc), Zeros(n), WordBits(poly))
    decreases n
  {
    if n > 0 {
      BitStepIsStep(crc, poly);
      BitStepsAreRun(BitStep(crc, poly), poly, n - 1);
      RunConcat(WordBits(crc), [false], Zeros(n - 1), WordBits(poly));
      assert Zeros(n) == [false] + Zeros(n - 1);
      assert Run(WordBits(crc), [false], WordBits(poly)) == Step(WordBits(crc), false, WordBits(poly));
    }
  }

  lemma {:induction false} LoadedSteps(crc: bv16, w: bv16, poly: bv16)
    ensures WordBits(BitSteps(crc ^ w, poly, 8)) == Run(Xor(WordBits(crc), WordBits(w)), Zeros(8), WordBits(poly))
  {
    XorWordBits(crc, w);
    BitStepsAreRun(crc ^ w, poly, 8);
  }

  lemma FeedByteIsRun(crc: bv16, b: byte, poly: bv16)
    ensures WordBits(FeedByte(crc, b, poly)) == Run(WordBits(crc), ByteBits(b), WordBits(poly))
  {
    UpperHalfBits(b);
    PreloadedInput(WordBits(crc), ByteBits(b), WordBits(poly));
    LoadedSteps(crc, InUpperHalf(b), poly);
  }

  /** crc16 computes what a 16 bit register clocked once for every message bit computes. */
  lemma {:induction false} Crc16IsRun(s: seq<byte>, iv: bv16, poly: bv16)
    ensures WordBits(Crc16(s, iv, poly)) == Run(WordBits(iv), MessageBits(s), WordBits(poly))
  {
    if s != [] {
      var n := |s| - 1;
      Crc16IsRun(s[..n], iv, poly);
      FeedByteIsRun(Crc16(s[..n], iv, poly), s[n], poly);
      RunConcat(WordBits(iv), MessageBits(s[..n]), ByteBits(s[n]), WordBits(poly));
    }
  }

  // ---- What crc16 means --------------------------------------------------------------------------

  /** crc16 is the remainder of iv * x^(8n) + M * x^16 modulo x^16 + poly, and no other word is. */
  lemma {:induction false} Crc16IsRemainder(s: seq<byte>, iv: bv16, poly: bv16, crc: bv16)
    ensures IsRemainder(WordBits(crc), Dividend(WordBits(iv), MessageBits(s)), WordBits(poly))
       <==> crc == Crc16(s, iv, poly)
  {
    Crc16IsRun(s, iv, poly);
    RegisterIsRemainder(WordBits(iv), MessageBits(s), WordBits(poly), WordBits(crc));
    if WordBits(crc) == WordBits(Crc16(s, iv, poly)) {
      WordBitsInjective(crc, Crc16(s, iv, poly));
    }
  }

  lemma XorFromBits(x: bv16, a: bv16, b: bv16)
    requires WordBits(x) == Xor(WordBits(a), WordBits(b))
    ensures x == a ^ b
  {
    XorWordBits(a, b);
    WordBitsInjective(x, a ^ b);
  }

  lemma {:induction false} Crc16Linear(s: seq<byte>, t: seq<byte>, iv: bv16, jv: bv16, poly: bv16)
    requires |s| == |t|
    ensures Crc16(XorBytes(s, t), iv ^ jv, poly) == Crc16(s, iv, poly) ^ Crc16(t, jv, poly)
  {
    Crc16IsRun(s, iv, poly);
    Crc16IsRun(t, jv, poly);
    Crc16IsRun(XorBytes(s, t), iv ^ jv, poly);
    XorMessageBits(s, t);
    XorWordBits(iv, jv);
    RunLinear(WordBits(iv), WordBits(jv), MessageBits(s), MessageBits(t), WordBits(poly));
    XorFromBits(Crc16(XorBytes(s, t), iv ^ jv, poly), Crc16(s, iv, poly), Crc16(t, jv, poly));
  }

  lemma {:induction false} Crc16Concat(s: seq<byte>, t: seq<byte>, iv: bv16, poly: bv16)
    ensures Crc16(s + t, iv, poly) == Crc16(t, Crc16(s, iv, poly), poly)
  {
    if t == [] {
      assert s + t == s;
    } else {
      var n := |t| - 1;
      assert (s + t)[..|s| + n] == s + t[..n];
      Crc16Concat(s, t[..n], iv, poly);
    }
  }

  lemma {:induction false} BitStepsAdd(crc: bv16, poly: bv16, m: nat, n: nat)
    ensures BitSteps(crc, poly, m + n) == BitSteps(BitSteps(crc, poly, m), poly, n)
    decreases m
  {
    if m > 0 {
      BitStepsAdd(BitStep(crc, poly), poly, m - 1, n);
    }
  }

  function FourSteps(crc: bv16): bv16 {
    BitStep(BitStep(BitStep(BitStep(crc, 0x1021), 0x1021), 0x1021), 0x1021)
  }

  lemma {:induction false} FourStepsAre(crc: bv16)
    ensures BitSteps(crc, 0x1021, 4) == FourSteps(crc)
  {
    var c1 := BitStep(crc, 0x1021);
    var c2 := BitStep(c1, 0x1021);
    var c3 := BitStep(c2, 0x1021);
    assert BitSteps(crc, 0x1021, 4) == BitSteps(c1, 0x1021, 3);
    assert BitSteps(c1, 0x1021, 3) == BitSteps(c2, 0x1021, 2);
    assert BitSteps(c2, 0x1021, 2) == BitSteps(c3, 0x1021, 1);
  }

  lemma FeedByteInHalves(crc: bv16, b: byte, start: bv16)
    requires start == crc ^ InUpperHalf(b)
    ensures FeedByte(crc, b, 0x1021) == FourSteps(FourSteps(start))
  {
    FourStepsAre(start);
    FourStepsAre(FourSteps(start));
    BitStepsAdd(start, 0x1021, 4, 4);
  }

  lemma CrcSnoc(s: seq<byte>, k: nat)
    requires k < |s|
    ensures Crc16(s[..k + 1], 0, 0x1021) == FeedByte(Crc16(s[..k], 0, 0x1021), s[k], 0x1021)
  {
    assert s[..k + 1][..k] == s[..k];
  }

  /** What one more byte makes of the CRC; `half` is the word after four of its bits. */
  lemma FeedNext(s: seq<byte>, k: nat, b: byte, before: bv16, half: bv16, after: bv16)
    requires k < |s| && s[k] == b && Crc16(s[..k], 0, 0x1021) == before
    requires FourSteps(before ^ InUpperHalf(b)) == half && FourSteps(half) == after
    ensures Crc16(s[..k + 1], 0, 0x1021) == after
  {
    CrcSnoc(s, k);
    FeedByteInHalves(before, b, before ^ InUpperHalf(b));
  }

  const DOC_PACKET: seq<byte> := [0x04, 0x7d, 0x7e, 0x03, 0x17, 0x19, 0x08]

  lemma DocVectorHead(s: seq<byte>)
    requires s == DOC_PACKET
    ensures Crc16(s[..2], 0, 0x1021) == 0x63fe
  {
    assert s[..0] == [];
    FeedNext(s, 0, 0x04, 0x0000, 0x4000, 0x4084);
    FeedNext(s, 1, 0x7d, 0x4084, 0xe823, 0x63fe);
  }

  lemma DocVectorMiddle(s: seq<byte>)
    requires s == DOC_PACKET
    ensures Crc16(s[..4], 0, 0x1021) == 0x4b9d
  {
    DocVectorHead(s);
    FeedNext(s, 2, 0x7e, 0x63fe, 0xcfc1, 0x3d9c);
    FeedNext(s, 3, 0x03, 0x3d9c, 0xd9a3, 0x4b9d);
  }

  /** The worked example of docs/nfcp.md. */
  lemma {:induction false} DocVector(s: seq<byte>)
    requires s == DOC_PACKET
    ensures Crc16(s, 0, CRC16_POLY_CCITT) == 0x7dfb
  {
    DocVectorMiddle(s);
    FeedNext(s, 4, 0x17, 0x4b9d, 0x9975, 0x0679);
    FeedNext(s, 5, 0x19, 0x0679, 0xe7b1, 0x9ade);
    FeedNext(s, 6, 0x08, 0x9ade, 0xbcc9, 0x7dfb);
    assert s[..7] == s;
  }

  // ---- The receiver's check ----------------------------------------------------------------------

  /** The two check bytes a sender appends. */
  function CheckBytes(s: seq<byte>, poly: bv16): (c: seq<byte>)
    ensures |c| == 2
  {
    var crc := Crc16(s, 0, poly);
    [HighByte(crc), LowByte(crc)]
  }

  /** The receiver's test on payload and check bytes. */
  predicate Accepted(s: seq<byte>, poly: bv16) {
    |s| >= 2 && s[|s| - 2..] == CheckBytes(s[..|s| - 2], poly)
  }

  lemma {:induction false} CheckBytesBits(s: seq<byte>, poly: bv16, c: seq<byte>)
    requires |c| == 2
    ensures MessageBits(c) == WordBits(Crc16(s, 0, poly)) <==> c == CheckBytes(s, poly)
  {
    var crc := Crc16(s, 0, poly);
    var d := CheckBytes(s, poly);
    BitsOfHalves(crc);
    MessageBitsOfTwo(c[0], c[1]);
    assert c == [c[0], c[1]];
    if MessageBits(c) == WordBits(crc) {
      assert ByteBits(c[0]) == MessageBits(c)[..8] == ByteBits(d[0]);
      assert ByteBits(c[1]) == MessageBits(c)[8..] == ByteBits(d[1]);
      ByteBitsInjective(c[0], d[0]);
      ByteBitsInjective(c[1], d[1]);
    }
  }

  lemma OneBit(w: bv16)
    ensures (w & 1 != 0) == (w & 1 == 1)
  {
  }

  lemma LowestCoefficient(poly: bv16)
    ensures WordBits(poly)[15] <==> poly & 1 == 1
  {
    assert Mask(15) == 1;
    OneBit(poly);
  }

  lemma {:induction false} ResidueOfTwoBytes(crc: bv16, c: seq<byte>, poly: bv16)
    requires |c| == 2 && poly & 1 == 1
    ensures Crc16(c, crc, poly) == 0 <==> MessageBits(c) == WordBits(crc)
  {
    Crc16IsRun(c, crc, poly);
    LowestCoefficient(poly);
    ClearedExactlyByOwnContents(WordBits(crc), MessageBits(c), WordBits(poly));
    ZeroWordBits(Crc16(c, crc, poly));
  }

  /** With a generator that has its lowest coefficient set, accepting means leaving residue zero. */
  lemma {:induction false} AcceptedIffResidueZero(s: seq<byte>, poly: bv16)
    requires |s| >= 2 && poly & 1 == 1
    ensures Accepted(s, poly) <==> Crc16(s, 0, poly) == 0
  {
    var m, c := s[..|s| - 2], s[|s| - 2..];
    assert s == m + c;
    Crc16Concat(m, c, 0, poly);
    CheckBytesBits(m, poly, c);
    ResidueOfTwoBytes(Crc16(m, 0, poly), c, poly);
  }

  lemma AppendedCheckAccepted(s: seq<byte>, poly: bv16)
    ensures Accepted(s + CheckBytes(s, poly), poly)
  {
    assert (s + CheckBytes(s, poly))[..|s|] == s;
  }

  /** An accepted transmission stays accepted under an error exactly when the error itself leaves no residue. */
  lemma {:induction false} UndetectedErrors(s: seq<byte>, e: seq<byte>, poly: bv16)
    requires Accepted(s, poly) && |s| == |e| && poly & 1 == 1
    ensures Accepted(XorBytes(s, e), poly) <==> Crc16(e, 0, poly) == 0
  {
    AcceptedIffResidueZero(s, poly);
    AcceptedIffResidueZero(XorBytes(s, e), poly);
    Crc16Linear(s, e, 0, 0, poly);
  }

  /** Every error confined to 16 consecutive bits, wherever they start, is rejected. */
  lemma {:induction false} BurstRejected(s: seq<byte>, e: seq<byte>, at: nat, poly: bv16)
    requires Accepted(s, poly) && |s| == |e| && poly & 1 == 1
    requires Burst(MessageBits(e), at, 16)
    ensures !Accepted(XorBytes(s, e), poly)
  {
    UndetectedErrors(s, e, poly);
    Crc16IsRun(e, 0, poly);
    ZeroWordBits(0);
    LowestCoefficient(poly);
    BurstLeavesTrace(MessageBits(e), at, WordBits(poly));
    NonZeroHasOne(Run(Zeros(16), MessageBits(e), WordBits(poly)));
    ZeroWordBits(Crc16(e, 0, poly));
  }

  /** crc16 carries the parity of what it was fed when its generator has an odd number of coefficients. */
  lemma {:induction false} Crc16Parity(s: seq<byte>, iv: bv16, poly: bv16)
    requires Odd(WordBits(poly))
    ensures Odd(WordBits(Crc16(s, iv, poly))) == (Odd(WordBits(iv)) != Odd(MessageBits(s)))
  {
    Crc16IsRun(s, iv, poly);
    RunParity(WordBits(iv), MessageBits(s), WordBits(poly));
  }

  lemma CcittBits(i: nat)
    requires i < 16
    ensures Bit(CRC16_POLY_CCITT, i) <==> i == 3 || i == 10 || i == 15
  {
  }

  lemma CcittGenerator()
    ensures CRC16_POLY_CCITT & 1 == 1
    ensures Odd(WordBits(CRC16_POLY_CCITT))
  {
    var low := Zeros(4) + [true];
    var middle := Zeros(6) + [true];
    var high := Zeros(3) + [true];
    forall i: nat | i < 16 ensures WordBits(CRC16_POLY_CCITT)[i] == (high + (middle + low))[i] {
      CcittBits(i);
    }
    assert WordBits(CRC16_POLY_CCITT) == high + (middle + low);
    OddZeros(4);
    OddZeros(6);
    OddZeros(3);
    OddConcat(Zeros(4), [true]);
    OddConcat(Zeros(6), [true]);
    OddConcat(Zeros(3), [true]);
    OddConcat(middle, low);
    OddConcat(high, middle + low);
  }

  /** Every error that flips an odd number of bits is rejected. */
  lemma {:induction false} OddErrorRejected(s: seq<byte>, e: seq<byte>)
    requires Accepted(s, CRC16_POLY_CCITT) && |s| == |e| && Odd(MessageBits(e))
    ensures !Accepted(XorBytes(s, e), CRC16_POLY_CCITT)
  {
    CcittGenerator();
    UndetectedErrors(s, e, CRC16_POLY_CCITT);
    Crc16Parity(e, 0, CRC16_POLY_CCITT);
    OddZeros(16);
    ZeroWordBits(0);
  }

  // ---- sdcard_crc7 -------------------------------------------------------------------------------

  /** One pass of the inner loop of sdcard_crc7. */
  function BitStep7(crc: bv16): bv16 {
    if crc & 0x80 != 0 then (crc ^ 0x89) << 1 else crc << 1
  }

  function BitSteps7(crc: bv16, n: nat): bv16
    decreases n, crc
  {
    if n == 0 then crc else BitSteps7(BitStep7(crc), n - 1)
  }

  function FeedByte7(crc: bv16, b: byte): bv16 {
    BitSteps7(crc ^ (b as bv16), 8)
  }

  /** The loop variable after the bytes `s`. */
  function Crc7State(s: seq<byte>): bv16 {
    if s == [] then 0 else FeedByte7(Crc7State(s[..|s| - 1]), s[|s| - 1])
  }

  function Crc7(s: seq<byte>): byte {
    LowByte(Crc7State(s) | 1)
  }

  /** The inner loop of sdcard_crc7. */
  method BitLoop7(start: bv16) returns (crc: bv16)
    ensures crc == BitSteps7(start, 8)
  {
    crc := start;
    var bit := 0;
    while bit < 8
      invariant 0 <= bit <= 8
      invariant BitSteps7(crc, 8 - bit) == BitSteps7(start, 8)
    {
      if crc & 0x80 != 0 {
        crc := crc ^ 0x89;
      }
      crc := crc << 1;
      bit := bit + 1;
    }
  }

  lemma {:induction false} Crc7Snoc(s: seq<byte>, b: byte, start: bv16)
    requires start == Crc7State(s) ^ (b as bv16)
    ensures Crc7State(s + [b]) == BitSteps7(start, 8)
  {
    assert (s + [b])[..|s|] == s;
  }

  method Crc7Loop(buf: array<byte>, len: nat) returns (r: byte)
    requires len <= buf.Length
    ensures r == Crc7(buf[..len])
  {
    var crc: bv16 := 0;
    var i := 0;
    while i < len
      invariant 0 <= i <= len
      invariant crc == Crc7State(buf[..i])
    {
      var start := crc ^ (buf[i] as bv16);
      crc := BitLoop7(start);
      assert buf[..i + 1] == buf[..i] + [buf[i]];
      Crc7Snoc(buf[..i], buf[i], start);
      i := i + 1;
    }
    r := LowByte(crc | 1);
  }

  /** x^7 + x^3 + 1 without its top coefficient. */
  const CRC7_GENERATOR: Bits := [false, false, false, true, false, false, true]

  /** The loop variable fits in a byte whose low bit is clear. */
  predicate EvenByte(crc: bv16) {
    crc & 0xff01 == 0
  }

  lemma Step7On(crc: bv16)
    requires crc & 0xff00 == 0 && crc & 0x80 != 0
    ensures ((crc ^ 0x89) << 1) & 0xff01 == 0
    ensures ((crc ^ 0x89) << 1) << 8 == ((crc << 8) << 1) ^ 0x1200
    ensures (crc << 8) & 0x8000 != 0
  {
  }

  lemma Step7Off(crc: bv16)
    requires crc & 0xff00 == 0 && crc & 0x80 == 0
    ensures (crc << 1) & 0xff01 == 0
    ensures (crc << 1) << 8 == (crc << 8) << 1
    ensures (crc << 8) & 0x8000 == 0
  {
  }

  /** The crc7 loop is the crc16 loop with generator 0x1200, one byte further down. */
  lemma BitStep7IsBitStep(crc: bv16)
    requires crc & 0xff00 == 0
    ensures EvenByte(BitStep7(crc))
    ensures BitStep7(crc) << 8 == BitStep(crc << 8, 0x1200)
  {
    if crc & 0x80 != 0 {
      Step7On(crc);
    } else {
      Step7Off(crc);
    }
  }

  lemma EvenByteIsByte(crc: bv16)
    requires EvenByte(crc)
    ensures crc & 0xff00 == 0
  {
  }

  lemma {:induction false} BitSteps7AreBitSteps(crc: bv16, up: bv16, n: nat)
    requires crc & 0xff00 == 0 && up == crc << 8
    ensures n > 0 ==> EvenByte(BitSteps7(crc, n))
    ensures BitSteps7(crc, n) << 8 == BitSteps(up, 0x1200, n)
    decreases n
  {
    if n > 0 {
      BitStep7IsBitStep(crc);
      EvenByteIsByte(BitStep7(crc));
      BitSteps7AreBitSteps(BitStep7(crc), BitStep(up, 0x1200), n - 1);
    }
  }

  lemma EnterByte(crc: bv16, b: byte)
    requires crc & 0xff00 == 0
    ensures (crc ^ (b as bv16)) & 0xff00 == 0
    ensures (crc ^ (b as bv16)) << 8 == (crc << 8) ^ InUpperHalf(b)
  {
  }

  lemma FeedByte7IsFeedByte(crc: bv16, b: byte)
    requires crc & 0xff00 == 0
    ensures EvenByte(FeedByte7(crc, b))
    ensures FeedByte7(crc, b) << 8 == FeedByte(crc << 8, b, 0x1200)
  {
    var x := crc ^ (b as bv16);
    EnterByte(crc, b);
    BitSteps7AreBitSteps(x, x << 8, 8);
    calc {
      FeedByte7(crc, b) << 8;
      BitSteps7(x, 8) << 8;
      BitSteps(x << 8, 0x1200, 8);
      { EnterByte(crc, b); }
      BitSteps((crc << 8) ^ InUpperHalf(b), 0x1200, 8);
      FeedByte(crc << 8, b, 0x1200);
    }
  }

  lemma {:induction false} Crc7StateIsCrc16(s: seq<byte>)
    ensures EvenByte(Crc7State(s))
    ensures Crc7State(s) << 8 == Crc16(s, 0, 0x1200)
  {
    if s != [] {
      var n := |s| - 1;
      var c := Crc7State(s[..n]);
      Crc7StateIsCrc16(s[..n]);
      EvenByteIsByte(c);
      FeedByte7IsFeedByte(c, s[n]);
      assert Crc7State(s) == FeedByte7(c, s[n]);
      assert Crc16(s, 0, 0x1200) == FeedByte(c << 8, s[n], 0x1200);
    }
  }

  lemma Generator7Bit(i: nat)
    requires i < 16
    ensures Bit(0x1200, i) <==> i == 3 || i == 6
  {
  }

  lemma Generator7Bits()
    ensures WordBits(0x1200) == CRC7_GENERATOR + Zeros(9)
  {
    forall i: nat | i < 16 ensures WordBits(0x1200)[i] == (CRC7_GENERATOR + Zeros(9))[i] {
      Generator7Bit(i);
    }
  }

  lemma ForcedLowBit(crc: bv16)
    requires EvenByte(crc)
    ensures LowByte(crc | 1) & 1 == 1
    ensures InUpperHalf(LowByte(crc | 1)) & 0xfe00 == crc << 8
  {
  }

  lemma SameMask7(v: bv16, w: bv16, m: bv16)
    requires m & 0x01ff == 0 && v & 0xfe00 == w
    ensures (v & m != 0) == (w & m != 0)
  {
  }

  lemma SameBit7(v: bv16, w: bv16, i: nat)
    requires i < 7 && v & 0xfe00 == w
    ensures Bit(v, i) == Bit(w, i)
  {
    assert Mask(i) & 0x01ff == 0;
    SameMask7(v, w, Mask(i));
  }

  lemma {:induction false} Crc7Register(s: seq<byte>)
    ensures WordBits(Crc7State(s) << 8)[..7] == Run(Zeros(7), MessageBits(s), CRC7_GENERATOR)
  {
    Crc7StateIsCrc16(s);
    Crc16IsRun(s, 0, 0x1200);
    ZeroWordBits(0);
    ZerosConcat(7, 9);
    Generator7Bits();
    RunWidened(Zeros(7), MessageBits(s), CRC7_GENERATOR, 9);
  }

  lemma {:induction false} Crc7TopBits(s: seq<byte>)
    ensures ByteBits(Crc7(s))[..7] == WordBits(Crc7State(s) << 8)[..7]
  {
    var state := Crc7State(s);
    Crc7StateIsCrc16(s);
    ForcedLowBit(state);
    var v, w := WordBits(InUpperHalf(Crc7(s))), WordBits(state << 8);
    forall i: nat | i < 7 ensures v[i] == w[i] {
      SameBit7(InUpperHalf(Crc7(s)), state << 8, i);
    }
    assert v[..8][..7] == v[..7] == w[..7];
  }

  /** The result ends in a one, and its top seven bits are the remainder of M * x^7 modulo x^7 + x^3 + 1. */
  lemma {:induction false} Crc7IsRemainder(s: seq<byte>, r: Bits)
    ensures Crc7(s) & 1 == 1
    ensures IsRemainder(r, Dividend(Zeros(7), MessageBits(s)), CRC7_GENERATOR) <==> r == ByteBits(Crc7(s))[..7]
  {
    Crc7StateIsCrc16(s);
    ForcedLowBit(Crc7State(s));
    Crc7TopBits(s);
    Crc7Register(s);
    RegisterIsRemainder(Zeros(7), MessageBits(s), CRC7_GENERATOR, r);
  }
}
