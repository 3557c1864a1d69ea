/**
 Damage on the link: which errors in the bytes of a frame the receiver of module/nfcp/nfcp.c notices.  Unlike an
 error in payload and check bytes, an error on the wire can also make or unmake escapes and boundaries.
 */
module LinkErrors {
  import opened Basics
  import opened Crc
  import opened CrcDistance
  import opened Hdlc
  import opened NfcpLink
  import opened ShiftRegister
  import opened Ticks
  import UartRx

  /** Where unstuffing reads on after position i: an escape byte covers the byte behind it. */
  function Next(f: seq<byte>, i: nat): (n: nat)
    requires i < |f|
    ensures i < n <= |f| && n <= i + 2
  {
    if f[i] == HDLC_ESCAPE_CHAR && i + 1 < |f| then i + 2 else i + 1
  }

  /** Unstuffing reads an escape in one string exactly where it reads one in the other. */
  ghost predicate SameEscapes(f: seq<byte>, w: seq<byte>, i: nat)
    requires |f| == |w|
    decreases |f| - i
  {
    i < |f| ==> (w[i] == HDLC_ESCAPE_CHAR <==> f[i] == HDLC_ESCAPE_CHAR) && SameEscapes(f, w, Next(f, i))
  }

  ghost predicate SameBoundaries(f: seq<byte>, w: seq<byte>) {
    |f| == |w| && forall i :: 0 <= i < |f| ==> (w[i] == HDLC_FRAME_BOUNDARY <==> f[i] == HDLC_FRAME_BOUNDARY)
  }

  /** From position i on the error leaves boundaries and escapes where they were, and makes no new ones. */
  ghost predicate KeepsFrom(f: seq<byte>, e: seq<byte>, i: nat) {
    |f| == |e| && SameBoundaries(f, XorBytes(f, e)) && SameEscapes(f, XorBytes(f, e), i)
  }

  /** The error keeps the shape of the frame.  A byte that an escape covers may become any but a boundary. */
  ghost predicate KeepsMarks(f: seq<byte>, e: seq<byte>) {
    KeepsFrom(f, e, 0)
  }

  /** The bytes of the error from position `i` on, without those on escape bytes: what unstuffing makes of it. */
  function Thin(f: seq<byte>, e: seq<byte>, i: nat): seq<byte>
    requires |f| == |e|
    decreases |f| - i
  {
    if i >= |f| then []
    else if f[i] == HDLC_ESCAPE_CHAR && i + 1 < |f| then [e[i + 1]] + Thin(f, e, i + 2)
    else [e[i]] + Thin(f, e, i + 1)
  }

  /** The positions those bytes had. */
  function Kept(f: seq<byte>, i: nat): seq<nat>
    decreases |f| - i
  {
    if i >= |f| then []
    else if f[i] == HDLC_ESCAPE_CHAR && i + 1 < |f| then [i + 1] + Kept(f, i + 2)
    else [i] + Kept(f, i + 1)
  }

  lemma ZeroByte(a: byte, b: byte)
    ensures a ^ b == a <==> b == 0
  {
  }

  lemma XorAcross(a: byte, b: byte, c: byte)
    ensures (a ^ b) ^ c == (a ^ c) ^ b
  {
  }

  lemma {:induction false} XorCons(c: byte, s: seq<byte>, d: byte, t: seq<byte>)
    requires |s| == |t|
    ensures XorBytes([c] + s, [d] + t) == [c ^ d] + XorBytes(s, t)
  {
  }

  /** Unstuffing a damaged body gives the unstuffed body, damaged by the thinned error. */
  lemma {:induction false} UnstuffDamaged(f: seq<byte>, e: seq<byte>, i: nat)
    requires KeepsFrom(f, e, i) && i <= |f| && UnstuffBody(f[i..]).Some?
    ensures |Thin(f, e, i)| == |UnstuffBody(f[i..]).value|
    ensures UnstuffBody(XorBytes(f, e)[i..]) == Some(XorBytes(UnstuffBody(f[i..]).value, Thin(f, e, i)))
    decreases |f| - i
  {
    var w := XorBytes(f, e);
    if i == |f| {
      assert f[i..] == [] && w[i..] == [];
    } else {
      UnstuffAt(f, i);
      UnstuffAt(w, i);
      if f[i] == HDLC_ESCAPE_CHAR {
        UnstuffDamaged(f, e, i + 2);
        XorAcross(f[i + 1], e[i + 1], HDLC_ESCAPE_BITS);
        XorCons(f[i + 1] ^ HDLC_ESCAPE_BITS, UnstuffBody(f[i + 2..]).value, e[i + 1], Thin(f, e, i + 2));
      } else {
        UnstuffDamaged(f, e, i + 1);
        XorCons(f[i], UnstuffBody(f[i + 1..]).value, e[i], Thin(f, e, i + 1));
      }
    }
  }

  // ---- Thinning makes bursts no longer and keeps parity -------------------------------------------

  lemma {:induction false} KeptEntries(f: seq<byte>, e: seq<byte>, i: nat)
    requires |f| == |e| && i <= |f|
    ensures |Kept(f, i)| == |Thin(f, e, i)|
    ensures forall j :: 0 <= j < |Kept(f, i)| ==> i + j <= Kept(f, i)[j] < |f| && Thin(f, e, i)[j] == e[Kept(f, i)[j]]
    decreases |f| - i
  {
    if i < |f| {
      KeptEntries(f, e, Next(f, i));
    }
  }

  lemma {:induction false} KeptSpread(f: seq<byte>, i: nat, j: nat, k: nat)
    requires i <= |f| && j <= k < |Kept(f, i)|
    ensures Kept(f, i)[k] - Kept(f, i)[j] >= k - j
    decreases |f| - i
  {
    if i < |f| {
      if j > 0 {
        KeptSpread(f, Next(f, i), j - 1, k - 1);
      } else if k > 0 {
        KeptEntries(f, f, Next(f, i));
      }
    }
  }

  /** What unstuffing does not keep is an escape byte, which the error leaves alone. */
  lemma {:induction false} KeptCovers(f: seq<byte>, e: seq<byte>, i: nat, p: nat)
    requires KeepsFrom(f, e, i) && i <= p < |f| && p !in Kept(f, i)
    ensures f[p] == HDLC_ESCAPE_CHAR == XorBytes(f, e)[p]
    decreases |f| - i
  {
    if p >= Next(f, i) {
      KeptCovers(f, e, Next(f, i), p);
    }
  }

  lemma {:induction false} MessageBitAt(s: seq<byte>, x: nat)
    requires x < 8 * |s|
    ensures MessageBits(s)[x] == ByteBits(s[x / 8])[x % 8]
  {
    if x < 8 * (|s| - 1) {
      MessageBitAt(s[..|s| - 1], x);
    }
  }

  lemma ZeroBits(r: nat)
    requires r < 8
    ensures !ByteBits(0)[r]
  {
  }

  /** A one in the error is in a byte that unstuffing keeps. */
  lemma {:induction false} OneIsKept(f: seq<byte>, e: seq<byte>, x: nat) returns (j: nat)
    requires KeepsMarks(f, e) && x < 8 * |e| && MessageBits(e)[x]
    ensures j < |Kept(f, 0)| && Kept(f, 0)[j] == x / 8
  {
    var p := x / 8;
    MessageBitAt(e, x);
    if p !in Kept(f, 0) {
      KeptCovers(f, e, 0, p);
      ZeroByte(f[p], e[p]);
      ZeroBits(x % 8);
    }
    j :| 0 <= j < |Kept(f, 0)| && Kept(f, 0)[j] == p;
  }

  lemma {:induction false} FirstOne(w: Bits) returns (a: nat)
    requires HasOne(w)
    ensures a < |w| && w[a] && forall i :: 0 <= i < a ==> !w[i]
  {
    if w[0] {
      a := 0;
    } else {
      var i :| 0 <= i < |w| && w[i];
      assert w[1..][i - 1];
      var b := FirstOne(w[1..]);
      a := b + 1;
      assert forall k :: 0 < k < a ==> w[k] == w[1..][k - 1];
    }
  }

  lemma Place(p: nat, r: nat)
    requires r < 8
    ensures (8 * p + r) / 8 == p && (8 * p + r) % 8 == r
  {
  }

  /** Where bit r of byte j of the thinned error was on the wire. */
  lemma {:induction false} WireBit(f: seq<byte>, e: seq<byte>, j: nat, r: nat)
    requires |f| == |e| && j < |Thin(f, e, 0)| && r < 8
    ensures j < |Kept(f, 0)| && Kept(f, 0)[j] < |e|
    ensures MessageBits(Thin(f, e, 0))[8 * j + r] == MessageBits(e)[8 * Kept(f, 0)[j] + r]
  {
    KeptEntries(f, e, 0);
    Place(j, r);
    Place(Kept(f, 0)[j], r);
    MessageBitAt(Thin(f, e, 0), 8 * j + r);
    MessageBitAt(e, 8 * Kept(f, 0)[j] + r);
  }

  /** Two bits are no further apart in the thinned error than they were on the wire. */
  lemma {:induction false} Closer(f: seq<byte>, e: seq<byte>, j: nat, r: nat, k: nat, q: nat)
    returns (wa: nat, wb: nat)
    requires |f| == |e| && j < |Thin(f, e, 0)| && r < 8 && k < |Thin(f, e, 0)| && q < 8
    requires 8 * j + r <= 8 * k + q
    ensures wa <= wb < 8 * |e| && (8 * k + q) - (8 * j + r) <= wb - wa
    ensures MessageBits(Thin(f, e, 0))[8 * j + r] == MessageBits(e)[wa]
    ensures MessageBits(Thin(f, e, 0))[8 * k + q] == MessageBits(e)[wb]
  {
    WireBit(f, e, j, r);
    WireBit(f, e, k, q);
    KeptSpread(f, 0, j, k);
    wa, wb := 8 * Kept(f, 0)[j] + r, 8 * Kept(f, 0)[k] + q;
  }

  /** Bit x of the error, which unstuffing keeps, is bit t of the thinned error. */
  ghost predicate ThinnedTo(f: seq<byte>, e: seq<byte>, x: nat, t: nat)
    requires |f| == |e|
  {
    && x < 8 * |e| && t < 8 * |Thin(f, e, 0)| && t / 8 < |Kept(f, 0)|
    && Kept(f, 0)[t / 8] == x / 8 && t % 8 == x % 8
  }

  lemma {:induction false} OneThinnedTo(f: seq<byte>, e: seq<byte>, x: nat) returns (t: nat)
    requires KeepsMarks(f, e) && x < 8 * |e| && MessageBits(e)[x]
    ensures ThinnedTo(f, e, x, t) && MessageBits(Thin(f, e, 0))[t]
  {
    var j := OneIsKept(f, e, x);
    KeptEntries(f, e, 0);
    WireBit(f, e, j, x % 8);
    Place(j, x % 8);
    t := 8 * j + x % 8;
  }

  lemma {:induction false} OneThinned(f: seq<byte>, e: seq<byte>)
    requires KeepsMarks(f, e) && HasOne(MessageBits(e))
    ensures HasOne(MessageBits(Thin(f, e, 0)))
  {
    var x :| 0 <= x < |MessageBits(e)| && MessageBits(e)[x];
    var t := OneThinnedTo(f, e, x);
  }

  lemma {:induction false} BurstThinned(f: seq<byte>, e: seq<byte>, at: nat) returns (at': nat)
    requires KeepsMarks(f, e) && Burst(MessageBits(e), at, 16)
    ensures Burst(MessageBits(Thin(f, e, 0)), at', 16)
  {
    OneThinned(f, e);
    at' := FirstOne(MessageBits(Thin(f, e, 0)));
    forall b: nat | b < |MessageBits(Thin(f, e, 0))| && MessageBits(Thin(f, e, 0))[b] ensures at' <= b < at' + 16 {
      if b >= at' {
        var wa, wb := Closer(f, e, at' / 8, at' % 8, b / 8, b % 8);
      }
    }
  }

  lemma {:induction false} KeptOnce(f: seq<byte>, j: nat, k: nat)
    requires j < |Kept(f, 0)| && k < |Kept(f, 0)| && Kept(f, 0)[j] == Kept(f, 0)[k]
    ensures j == k
  {
    if j <= k {
      KeptSpread(f, 0, j, k);
    } else {
      KeptSpread(f, 0, k, j);
    }
  }

  lemma {:induction false} OneWas(f: seq<byte>, e: seq<byte>, t: nat) returns (x: nat)
    requires |f| == |e| && t < 8 * |Thin(f, e, 0)| && MessageBits(Thin(f, e, 0))[t]
    ensures ThinnedTo(f, e, x, t) && MessageBits(e)[x]
  {
    KeptEntries(f, e, 0);
    WireBit(f, e, t / 8, t % 8);
    x := 8 * Kept(f, 0)[t / 8] + t % 8;
    Place(Kept(f, 0)[t / 8], t % 8);
  }

  lemma {:induction false} ThinnedOnce(f: seq<byte>, e: seq<byte>, x: nat, t: nat, u: nat)
    requires |f| == |e| && ThinnedTo(f, e, x, t) && ThinnedTo(f, e, x, u)
    ensures t == u
  {
    KeptOnce(f, t / 8, u / 8);
  }

  /** Thinning keeps the order of the bits, and moves them no further apart. */
  lemma {:induction false} ThinnedOrder(f: seq<byte>, e: seq<byte>, a: nat, b: nat, t: nat, u: nat)
    requires |f| == |e| && a < b && ThinnedTo(f, e, a, t) && ThinnedTo(f, e, b, u)
    ensures t < u && u - t <= b - a
  {
    var j, k := t / 8, u / 8;
    assert a == 8 * Kept(f, 0)[j] + t % 8 && b == 8 * Kept(f, 0)[k] + u % 8;
    if j <= k {
      KeptSpread(f, 0, j, k);
    } else {
      KeptSpread(f, 0, k, j);
    }
  }

  lemma {:induction false} TwoThinned(f: seq<byte>, e: seq<byte>, a: nat, b: nat) returns (a': nat, b': nat)
    requires KeepsMarks(f, e) && TwoOnes(MessageBits(e), a, b)
    ensures TwoOnes(MessageBits(Thin(f, e, 0)), a', b') && b' - a' <= b - a
  {
    a' := OneThinnedTo(f, e, a);
    b' := OneThinnedTo(f, e, b);
    ThinnedOrder(f, e, a, b, a', b');
    forall t: nat | t < 8 * |Thin(f, e, 0)| && MessageBits(Thin(f, e, 0))[t] ensures t == a' || t == b' {
      var x := OneWas(f, e, t);
      if x == a {
        ThinnedOnce(f, e, a, t, a');
      } else {
        ThinnedOnce(f, e, b, t, b');
      }
    }
  }

  lemma {:induction false} OddCons(b: byte, s: seq<byte>)
    ensures Odd(MessageBits([b] + s)) == (Odd(ByteBits(b)) != Odd(MessageBits(s)))
  {
    MessageBitsConcat([b], s);
    assert MessageBits([b]) == [] + ByteBits(b);
    assert [] + ByteBits(b) == ByteBits(b);
    OddConcat(ByteBits(b), MessageBits(s));
  }

  lemma {:induction false} OddHead(e: seq<byte>, i: nat)
    requires i < |e|
    ensures Odd(MessageBits(e[i..])) == (Odd(ByteBits(e[i])) != Odd(MessageBits(e[i + 1..])))
  {
    assert e[i..] == [e[i]] + e[i + 1..];
    OddCons(e[i], e[i + 1..]);
  }

  lemma {:induction false} OddZeroByte()
    ensures !Odd(ByteBits(0))
  {
    forall r: nat | r < 8 ensures !ByteBits(0)[r] {
      ZeroBits(r);
    }
    assert ByteBits(0) == Zeros(8);
    OddZeros(8);
  }

  lemma {:induction false} OddOfEscape(f: seq<byte>, e: seq<byte>, i: nat)
    requires KeepsFrom(f, e, i) && i < |f| && f[i] == HDLC_ESCAPE_CHAR
    ensures !Odd(ByteBits(e[i]))
  {
    assert XorBytes(f, e)[i] == f[i];
    ZeroByte(f[i], e[i]);
    OddZeroByte();
  }

  lemma {:induction false} OddThinned(f: seq<byte>, e: seq<byte>, i: nat)
    requires KeepsFrom(f, e, i) && i <= |f|
    ensures Odd(MessageBits(Thin(f, e, i))) == Odd(MessageBits(e[i..]))
    decreases |f| - i
  {
    if i < |f| {
      var escaped := f[i] == HDLC_ESCAPE_CHAR && i + 1 < |f|;
      OddHead(e, i);
      if escaped {
        OddOfEscape(f, e, i);
        OddHead(e, i + 1);
        OddThinned(f, e, i + 2);
        OddCons(e[i + 1], Thin(f, e, i + 2));
      } else {
        OddThinned(f, e, i + 1);
        OddCons(e[i], Thin(f, e, i + 1));
      }
    }
  }

  // ---- Frames ------------------------------------------------------------------------------------

  /** The bytes that a frame carries: the packet and its check bytes. */
  function Checked(packet: seq<byte>): seq<byte> {
    packet + CheckBytes(packet, CRC16_POLY_CCITT)
  }

  /** What unstuffing makes of an error on the frame of a packet. */
  function PayloadError(packet: seq<byte>, e: seq<byte>): seq<byte>
    requires |e| == |Frame(packet)|
  {
    Thin(StuffBody(Checked(packet)), e[..|e| - 1], 0)
  }

  lemma {:induction false} BodyEscapes(body: seq<byte>, w: seq<byte>, i: nat)
    requires |w| == |body| && SameEscapes(body + [HDLC_FRAME_BOUNDARY], w + [HDLC_FRAME_BOUNDARY], i)
    ensures SameEscapes(body, w, i)
    decreases |body| - i
  {
    if i < |body| {
      BodyEscapes(body, w, Next(body, i));
    }
  }

  lemma {:induction false} BodyMarks(packet: seq<byte>, e: seq<byte>)
    requires KeepsMarks(Frame(packet), e)
    ensures KeepsMarks(StuffBody(Checked(packet)), e[..|e| - 1]) && e[|e| - 1] == 0
    ensures XorBytes(Frame(packet), e)
         == XorBytes(StuffBody(Checked(packet)), e[..|e| - 1]) + [HDLC_FRAME_BOUNDARY]
  {
    var f, body := Frame(packet), StuffBody(Checked(packet));
    var n := |body|;
    var w, w' := XorBytes(f, e), XorBytes(body, e[..n]);
    assert f[n] == HDLC_FRAME_BOUNDARY == w[n];
    ZeroByte(f[n], e[n]);
    forall i | 0 <= i < n ensures w'[i] == w[i] && body[i] == f[i] {
    }
    assert f == body + [HDLC_FRAME_BOUNDARY] && w == w' + [HDLC_FRAME_BOUNDARY];
    BodyEscapes(body, w', 0);
  }

  /** The receiver unstuffs a damaged frame to the packet with its check bytes, damaged by the payload error. */
  lemma {:induction false} DamagedFrame(packet: seq<byte>, e: seq<byte>)
    requires KeepsMarks(Frame(packet), e)
    ensures |PayloadError(packet, e)| == |Checked(packet)|
    ensures Unstuff(XorBytes(Frame(packet), e)) == Some(XorBytes(Checked(packet), PayloadError(packet, e)))
  {
    var body, damage := StuffBody(Checked(packet)), e[..|e| - 1];
    BodyMarks(packet, e);
    UnstuffStuffBody(Checked(packet));
    assert body[0..] == body && XorBytes(body, damage)[0..] == XorBytes(body, damage);
    UnstuffDamaged(body, damage, 0);
    assert CutBoundary(XorBytes(body, damage) + [HDLC_FRAME_BOUNDARY]) == XorBytes(body, damage);
  }

  /** Exactly which errors on the wire go unnoticed, of those that leave escapes and boundaries alone. */
  lemma {:induction false} UndetectedOnLink(packet: seq<byte>, e: seq<byte>)
    requires KeepsMarks(Frame(packet), e)
    ensures Decode(XorBytes(Frame(packet), e)).Some? <==> Crc16(PayloadError(packet, e), 0, CRC16_POLY_CCITT) == 0
  {
    DamagedFrame(packet, e);
    AppendedCheckAccepted(packet, CRC16_POLY_CCITT);
    CcittGenerator();
    UndetectedErrors(Checked(packet), PayloadError(packet, e), CRC16_POLY_CCITT);
  }

  /** A zero byte at the end of an error adds nothing to it. */
  lemma {:induction false} ClosingZero(e: seq<byte>)
    requires e != [] && e[|e| - 1] == 0
    ensures forall at, width :: Burst(MessageBits(e), at, width) ==> Burst(MessageBits(e[..|e| - 1]), at, width)
    ensures Odd(MessageBits(e)) == Odd(MessageBits(e[..|e| - 1]))
  {
    var d := MessageBits(e[..|e| - 1]);
    OddZeroByte();
    OddConcat(d, ByteBits(0));
    forall r: nat | r < 8 ensures !ByteBits(0)[r] {
      ZeroBits(r);
    }
    forall at, width | Burst(MessageBits(e), at, width) ensures Burst(d, at, width) {
      var i :| 0 <= i < |MessageBits(e)| && MessageBits(e)[i];
      assert d[i];
      assert forall k :: 0 <= k < |d| ==> d[k] == MessageBits(e)[k];
    }
  }

  /** A frame with an error burst of up to 16 bits on the wire is refused, if escapes and boundaries stay. */
  lemma {:induction false} BurstRefused(packet: seq<byte>, e: seq<byte>, at: nat)
    requires KeepsMarks(Frame(packet), e) && Burst(MessageBits(e), at, 16)
    ensures Decode(XorBytes(Frame(packet), e)) == None
  {
    BodyMarks(packet, e);
    ClosingZero(e);
    var at' := BurstThinned(StuffBody(Checked(packet)), e[..|e| - 1], at);
    DamagedFrame(packet, e);
    AppendedCheckAccepted(packet, CRC16_POLY_CCITT);
    CcittGenerator();
    BurstRejected(Checked(packet), PayloadError(packet, e), at', CRC16_POLY_CCITT);
  }

  /** So is a frame with an odd number of bits flipped on the wire. */
  lemma {:induction false} OddErrorRefused(packet: seq<byte>, e: seq<byte>)
    requires KeepsMarks(Frame(packet), e) && Odd(MessageBits(e))
    ensures Decode(XorBytes(Frame(packet), e)) == None
  {
    BodyMarks(packet, e);
    ClosingZero(e);
    OddThinned(StuffBody(Checked(packet)), e[..|e| - 1], 0);
    assert e[..|e| - 1][0..] == e[..|e| - 1];
    DamagedFrame(packet, e);
    AppendedCheckAccepted(packet, CRC16_POLY_CCITT);
    OddErrorRejected(Checked(packet), PayloadError(packet, e));
  }

  lemma {:induction false} TwoOnesCut(e: seq<byte>, a: nat, b: nat)
    requires e != [] && e[|e| - 1] == 0 && TwoOnes(MessageBits(e), a, b)
    ensures TwoOnes(MessageBits(e[..|e| - 1]), a, b)
  {
    var d := MessageBits(e[..|e| - 1]);
    assert MessageBits(e) == d + ByteBits(0);
    forall i: nat | |d| <= i < |d| + 8 ensures !MessageBits(e)[i] {
      ZeroBits(i - |d|);
    }
    assert MessageBits(e)[a] && MessageBits(e)[b];
    assert forall i :: 0 <= i < |d| ==> d[i] == MessageBits(e)[i];
  }

  lemma {:induction false} TwoInPayload(packet: seq<byte>, e: seq<byte>, a: nat, b: nat) returns (a': nat, b': nat)
    requires KeepsMarks(Frame(packet), e) && TwoOnes(MessageBits(e), a, b)
    ensures TwoOnes(MessageBits(PayloadError(packet, e)), a', b') && b' - a' <= b - a
  {
    BodyMarks(packet, e);
    TwoOnesCut(e, a, b);
    a', b' := TwoThinned(StuffBody(Checked(packet)), e[..|e| - 1], a, b);
  }

  /** So is a frame with two bits flipped on the wire that are less than 32767 bits apart. */
  lemma {:induction false} DoubleErrorRefused(packet: seq<byte>, e: seq<byte>, a: nat, b: nat)
    requires KeepsMarks(Frame(packet), e) && TwoOnes(MessageBits(e), a, b) && b - a < ORDER
    ensures Decode(XorBytes(Frame(packet), e)) == None
  {
    var a', b' := TwoInPayload(packet, e, a, b);
    UndetectedOnLink(packet, e);
    DamagedFrame(packet, e);
    AppendedCheckAccepted(packet, CRC16_POLY_CCITT);
    DoubleErrorUndetectedIff(Checked(packet), PayloadError(packet, e), a', b');
  }

  /** No frame of up to 4095 bytes with one, two or three bits flipped on the wire is accepted. */
  lemma {:induction false} FewFlipsRefused(packet: seq<byte>, e: seq<byte>)
    requires KeepsMarks(Frame(packet), e) && |Frame(packet)| <= 4095 && 1 <= Ones(MessageBits(e)) <= 3
    ensures Decode(XorBytes(Frame(packet), e)) == None
  {
    OddOnes(MessageBits(e));
    if Ones(MessageBits(e)) == 2 {
      var a, b := TwoOnesOf(MessageBits(e));
      DoubleErrorRefused(packet, e, a, b);
    } else {
      OddErrorRefused(packet, e);
    }
  }

  // ---- A stream of frames, some of them damaged ---------------------------------------------------

  /** A packet that was sent, and what happened to its frame on the way. */
  datatype Sent = Sent(packet: seq<byte>, error: seq<byte>)

  ghost predicate IsZero(e: seq<byte>) {
    forall i :: 0 <= i < |e| ==> e[i] == 0
  }

  /** Damage of a kind that the receiver notices. */
  ghost predicate Noticed(t: Sent) {
    && KeepsMarks(Frame(t.packet), t.error)
    && var bits := MessageBits(t.error);
       (exists at :: Burst(bits, at, 16)) || Odd(bits) || 1 <= Ones(bits) <= 3
  }

  /** The frame fits the receiver's buffer and arrives as it was sent or with damage that is noticed. */
  ghost predicate Arrives(t: Sent) {
    && |t.error| == |Frame(t.packet)| <= NFCP_PACKET_BUFFER_SIZE
    && (IsZero(t.error) || Noticed(t))
  }

  ghost predicate AllArrive(sent: seq<Sent>) {
    forall i :: 0 <= i < |sent| ==> Arrives(sent[i])
  }

  ghost function OnWire(t: Sent): seq<byte>
    requires Arrives(t)
  {
    XorBytes(Frame(t.packet), t.error)
  }

  ghost function Wire(sent: seq<Sent>): (r: seq<seq<byte>>)
    requires AllArrive(sent)
    ensures |r| == |sent|
  {
    seq(|sent|, i requires 0 <= i < |sent| => OnWire(sent[i]))
  }

  /** What should become of a frame. */
  ghost function Expected(t: Sent): Option<seq<byte>> {
    if IsZero(t.error) then Some(t.packet) else None
  }

  /** The packets whose frames were not damaged, in order. */
  ghost function Undamaged(sent: seq<Sent>): seq<seq<byte>> {
    if sent == [] then []
    else (if IsZero(sent[0].error) then [sent[0].packet] else []) + Undamaged(sent[1..])
  }

  lemma {:induction false} ZeroError(f: seq<byte>, e: seq<byte>)
    requires |f| == |e| && IsZero(e)
    ensures XorBytes(f, e) == f
  {
    forall i | 0 <= i < |f| ensures XorBytes(f, e)[i] == f[i] {
      ZeroByte(f[i], e[i]);
    }
  }

  lemma {:induction false} OnWireDecodes(t: Sent)
    requires Arrives(t)
    ensures Decode(OnWire(t)) == Expected(t)
  {
    if IsZero(t.error) {
      ZeroError(Frame(t.packet), t.error);
      DecodeFrame(t.packet);
    } else if at :| Burst(MessageBits(t.error), at, 16) {
      BurstRefused(t.packet, t.error, at);
    } else if Odd(MessageBits(t.error)) {
      OddErrorRefused(t.packet, t.error);
    } else {
      FewFlipsRefused(t.packet, t.error);
    }
  }

  lemma {:induction false} OnWireClosed(t: Sent)
    requires Arrives(t)
    ensures IsClosed(OnWire(t))
  {
    var f := Frame(t.packet);
    FrameIsClosed(t.packet);
    if IsZero(t.error) {
      ZeroError(f, t.error);
    } else {
      assert SameBoundaries(f, OnWire(t));
    }
  }

  lemma {:induction false} ReturnedExpected(sent: seq<Sent>, outcomes: seq<Option<seq<byte>>>)
    requires |outcomes| == |sent| && forall i :: 0 <= i < |sent| ==> outcomes[i] == Expected(sent[i])
    ensures Returned(outcomes) == Undamaged(sent)
  {
    if sent != [] {
      ReturnedExpected(sent[1..], outcomes[1..]);
    }
  }

  lemma {:induction false} WireDecodes(sent: seq<Sent>)
    requires AllArrive(sent)
    ensures AllClosed(Wire(sent)) && Decodings(Wire(sent)) == Undamaged(sent)
  {
    forall i | 0 <= i < |sent| ensures IsClosed(Wire(sent)[i]) && Outcomes(Wire(sent))[i] == Expected(sent[i]) {
      OnWireClosed(sent[i]);
      OnWireDecodes(sent[i]);
    }
    ReturnedExpected(sent, Outcomes(Wire(sent)));
  }

  lemma {:induction false} WireAnswered(pieces: seq<seq<byte>>, results: seq<Option<seq<byte>>>, k: nat,
                                        sent: seq<Sent>)
    requires AllArrive(sent) && |pieces| == |results| && Answered(pieces, results, k, Wire(sent))
    ensures forall i :: 0 <= i < |sent| ==> results[k + i] == Expected(sent[i])
  {
    forall i | 0 <= i < |sent| ensures results[k + i] == Expected(sent[i]) {
      assert Wire(sent)[i] == OnWire(sent[i]);
      OnWireDecodes(sent[i]);
    }
  }

  /**
   End-to-end delivery over a link that damages any of the frames in these ways: the packets of the undamaged ones are
   returned, in order and once each, and nothing else.
   */
  method ReceiveUndamaged(ring: UartRx.Ring, buf: array<byte>, deadlines: seq<TickType>, clock: seq<seq<TickType>>,
                          ghost before: seq<byte>, ghost sent: seq<Sent>)
    returns (results: seq<Option<seq<byte>>>, ghost pieces: seq<seq<byte>>, ghost k: nat)
    requires ring.Valid() && ring.delimiter == Some(HDLC_FRAME_BOUNDARY) && ring.buf != buf
    requires buf.Length == NFCP_PACKET_BUFFER_SIZE && |deadlines| == |clock|
    requires AllArrive(sent) && (before == [] || EndsWithBoundary(before))
    modifies ring, ring.buf, buf
    ensures ring.Valid() && Heard(pieces, results) && |results| == |clock|
    ensures ring.delivered == old(ring.delivered) + Concat(pieces)
    ensures
      var all := old(ring.delivered) + before + Concat(Wire(sent));
      OnlyFrames(old(ring.delivered), before, Concat(Wire(sent)), ring.received, ring.delivered) ==>
        && k <= |pieces| && Concat(pieces[..k]) == before
        && InStep(pieces[k..], results[k..], Concat(Wire(sent)), Undamaged(sent))
        && (ring.delivered == all ==> Concat(pieces[k..]) == Concat(Wire(sent)))
    // those that wait in the ring when the calls start: each undamaged one is returned by the call that takes it
    ensures Waits(old(ring.queue), before, Wire(sent), deadlines, clock) ==>
      && k + |sent| <= |pieces| && Concat(pieces[..k]) == before
      && forall i :: 0 <= i < |sent| ==> results[k + i] == Expected(sent[i])
  {
    WireDecodes(sent);
    results, pieces, k := ReceiveFrames(ring, buf, deadlines, clock, before, Wire(sent));
    if Waits(old(ring.queue), before, Wire(sent), deadlines, clock) {
      WireAnswered(pieces, results, k, sent);
    }
  }

  lemma {:induction false} PlainUnstuff(f: seq<byte>)
    requires forall i :: 0 <= i < |f| ==> f[i] != HDLC_ESCAPE_CHAR && f[i] != HDLC_FRAME_BOUNDARY
    ensures UnstuffBody(f) == Some(f)
  {
    if f != [] {
      PlainUnstuff(f[1..]);
      assert [f[0]] + f[1..] == f;
    }
  }

  lemma {:induction false} ShortPiece(w: seq<byte>)
    requires w == [0x00, 0x00, 0x00, 0x7e]
    ensures IsCut(w, NFCP_PACKET_BUFFER_SIZE) && Decode(w) == Some([0x00])
  {
    var f: seq<byte> := [0x00, 0x00, 0x00];
    assert CutBoundary(w) == f;
    PlainUnstuff(f);
    assert f[..1] == [0x00] && f[1..] == [0x00, 0x00];
    assert Crc16([0x00], 0, 0x1021) == 0 by {
      FeedNext([0x00], 0, 0x00, 0x0000, 0x0000, 0x0000);
    }
  }

  /**
   Without that condition one flipped bit can deliver a packet that was never sent: here it makes a boundary, and
   what stands before it has the right check bytes.
   */
  lemma {:induction false} FlippedIntoBoundary()
    ensures var wire := Frame([0x00, 0x00, 0x00, 0x7f]);
      |wire| > 4 && wire[3] == 0x7f && wire[3] ^ 0x01 == HDLC_FRAME_BOUNDARY
      && IsCut(wire[3 := wire[3] ^ 0x01][..4], NFCP_PACKET_BUFFER_SIZE)
      && Decode(wire[3 := wire[3] ^ 0x01][..4]) == Some([0x00])
  {
    var packet: seq<byte> := [0x00, 0x00, 0x00, 0x7f];
    var wire := Frame(packet);
    StuffBodyConcat(packet, CheckBytes(packet, CRC16_POLY_CCITT));
    PlainStuff(packet);
    assert wire[..4] == packet;
    assert wire[3] == 0x7f;
    ShortPiece(wire[3 := wire[3] ^ 0x01][..4]);
  }
}
