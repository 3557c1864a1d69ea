/**
 The F.Port receiver (module/rc_io/fport.c): frames assembled from the receive ring, an end-around-carry
 checksum, and sixteen 11-bit channels packed across byte boundaries.
 */
module FPort {
  import opened Basics
  import opened Radix
  import Hdlc
  import UartRx

  const FPORT_FLAG_FAILSAFE: byte := 0x08
  const FPORT_FLAG_FRAME_LOST: byte := 0x04
  const FPORT_FLAG_CH18: byte := 0x02
  const FPORT_FLAG_CH17: byte := 0x04
  const FPORT_RAW_VALUE_MIN: nat := 192
  const FPORT_RAW_VALUE_MAX: nat := 1792

  // ---- The checksum ------------------------------------------------------------------------------

  function Sum(f: seq<nat>): nat {
    if f == [] then 0 else f[0] + Sum(f[1..])
  }

  lemma {:induction false} SumSplit(f: seq<nat>, i: nat)
    requires i < |f|
    ensures Sum(f[..i + 1]) == Sum(f[..i]) + f[i]
    ensures Sum(f) == Sum(f[..i]) + f[i] + Sum(f[i + 1..])
  {
    if i == 0 {
      assert f[..1][1..] == [] && f[0..] == f;
    } else {
      SumSplit(f[1..], i - 1);
      assert f[..i + 1][1..] == f[1..][..i] && f[..i][1..] == f[1..][..i - 1] && f[1..][i..] == f[i + 1..];
    }
  }

  lemma {:induction false} SumBound(f: seq<nat>)
    requires AreDigits(256, f)
    ensures Sum(f) <= 255 * |f|
  {
    if f != [] {
      SumBound(f[1..]);
    }
  }

  lemma {:induction false} ModShift(x: nat, m: nat, q: nat)
    requires 0 < m
    ensures (x + m * q) % m == x % m
  {
    DivMod(x + m * q, m, x / m + q, x % m);
  }

  /** Folding the high byte into the low one keeps the value modulo 255 and whether it is zero. */
  lemma FoldStep(c: nat)
    requires c > 0xff
    ensures 0 < c % 256 + c / 256 < c
    ensures (c % 256 + c / 256) % 255 == c % 255
  {
    var q, r := c / 256, c % 256;
    assert c == (r + q) + 255 * q;
    ModShift(r + q, 255, q);
  }

  /** The two checksum loops.  A frame has at most 257 bytes, so the 16-bit sum does not wrap. */
  method Checksum(f: seq<nat>) returns (checksum: nat)
    requires AreDigits(256, f) && |f| <= 257
    ensures checksum <= 0xff && checksum % 255 == Sum(f) % 255 && (checksum == 0 <==> Sum(f) == 0)
    ensures checksum == 0xff <==> Sum(f) > 0 && Sum(f) % 255 == 0
  {
    checksum := 0;
    var i := 0;
    while i < |f|
      invariant i <= |f| && checksum == Sum(f[..i])
    {
      SumSplit(f, i);
      SumBound(f[..i + 1]);
      checksum := (checksum + f[i]) % 0x1_0000;
      i := i + 1;
    }
    assert f[..i] == f;
    while checksum > 0xff
      invariant checksum % 255 == Sum(f) % 255 && (checksum == 0 <==> Sum(f) == 0)
    {
      FoldStep(checksum);
      checksum := checksum % 256 + checksum / 256;
    }
  }

  predicate SumAccepted(f: seq<nat>) {
    Sum(f) > 0 && Sum(f) % 255 == 0
  }

  /** A length byte that fits and an acceptable sum. */
  predicate ValidFrame(f: seq<nat>) {
    |f| > 0 && |f| == f[0] + 2 && SumAccepted(f)
  }

  lemma SameRemainder(rest: nat, x: nat, y: nat)
    requires x < 256 && y < 256 && x != y && (rest + x) % 255 == 0
    ensures (rest + y) % 255 == 0 <==> {x, y} == {0, 255}
  {
    var q := (rest + x) / 255;
    assert rest + y == 255 * q + (y - x);
    if y > x {
      DivMod(rest + y, 255, if y - x == 255 then q + 1 else q, (y - x) % 255);
    } else {
      var d := x - y;
      assert d <= 255 && q > 0;
      DivMod(rest + y, 255, q - 1, if d == 255 then 0 else 255 - d);
    }
    assert {x, y} == {0, 255} <==> (x == 0 && y == 255) || (x == 255 && y == 0) by {
      assert {x, y} == {0, 255} ==> 0 in {x, y} && 255 in {x, y};
    }
  }

  /**
   Exactly which changes of a single byte pass: not of the length byte, and of another byte only 0x00 to 0xff or
   back, as long as some byte of the result is not zero.
   */
  lemma SingleByteChange(f: seq<nat>, i: nat, v: nat)
    requires AreDigits(256, f) && ValidFrame(f) && i < |f| && v < 256 && v != f[i]
    ensures ValidFrame(f[i := v]) <==> i > 0 && {f[i], v} == {0, 255} && Sum(f[i := v]) > 0
  {
    var g := f[i := v];
    SumSplit(f, i);
    SumSplit(g, i);
    assert g[..i] == f[..i] && g[i + 1..] == f[i + 1..];
    var rest := Sum(f[..i]) + Sum(f[i + 1..]);
    assert Sum(f) == rest + f[i] && Sum(g) == rest + v;
    if i > 0 {
      SameRemainder(rest, f[i], v);
    }
  }

  // ---- The channels ------------------------------------------------------------------------------

  /** The argument of raw2float as a uint16_t, and its mask. */
  function Low(raw: nat): nat {
    And(0x07ff, raw % 0x1_0000)
  }

  lemma PowersOfTwo()
    ensures Pow(2, 0) == 1 && Pow(2, 1) == 2 && Pow(2, 2) == 4 && Pow(2, 3) == 8 && Pow(2, 4) == 16
    ensures Pow(2, 5) == 32 && Pow(2, 6) == 64 && Pow(2, 7) == 128 && Pow(2, 8) == 256 && Pow(2, 9) == 512
    ensures Pow(2, 10) == 1024 && Pow(2, 11) == 2048
  {
    assert Pow(2, 3) == 8 && Pow(2, 6) == 64 && Pow(2, 9) == 512;
  }

  lemma LowIsRemainder(raw: nat)
    ensures Low(raw) == raw % 2048
  {
    var x, q := raw % 0x1_0000, raw / 0x1_0000;
    PowersOfTwo();
    AndMask(11, x);
    ModShift(x, 2048, 32 * q);
  }

  /** Shifting a number right moves its higher bytes by the rest of a byte. */
  lemma {:induction false} ShiftedSum(b0: nat, y: nat, s: nat)
    requires s <= 8
    ensures Shr(b0 + 256 * y, s) == Shr(b0, s) + Pow(2, 8 - s) * y
  {
    PowersOfTwo();
    PowPositive(2, s);
    PowAdd(2, s, 8 - s);
    var p, c := Pow(2, s), Pow(2, 8 - s);
    Distribute(p, c, y, 0);
    Distribute(p, 1, c * y, Shr(b0, s));
    DivMod(b0 + 256 * y, p, Shr(b0, s) + c * y, b0 % p);
  }

  lemma {:induction false} ShrLess(b: nat, s: nat)
    requires b < 256 && s <= 8
    ensures Shr(b, s) < Pow(2, 8 - s)
  {
    PowersOfTwo();
    PowPositive(2, s);
    PowAdd(2, s, 8 - s);
    DivLess(b, Pow(2, s), Pow(2, 8 - s));
  }

  lemma HighPart(c: nat, d: nat, b1: nat, rest: nat)
    requires c == 8 * d
    ensures c * (b1 + 256 * rest) == b1 * c + 2048 * (d * rest)
  {
    Distribute(c, 256, rest, b1);
    assert c * 256 * rest == 2048 * (d * rest);
  }

  lemma HighParts(c: nat, b1: nat, b2: nat, rest: nat)
    ensures c * (b1 + 256 * (b2 + 256 * rest)) == b1 * c + b2 * (256 * c) + 2048 * (32 * c * rest)
  {
    Distribute(c, 256, b2 + 256 * rest, b1);
    Distribute(c * 256, 256, rest, b2);
    assert c * 256 * 256 * rest == 2048 * (32 * c * rest);
  }

  lemma {:induction false} LowTwo(b0: nat, b1: nat, s: nat)
    requires b0 < 256 && b1 < 256 && s <= 8
    ensures Shr(b0, s) + Shl(b1, 8 - s) < Pow(2, 16 - s) == 256 * Pow(2, 8 - s)
  {
    ShrLess(b0, s);
    PowersOfTwo();
    PowAdd(2, 8, 8 - s);
    MulLess(Pow(2, 8 - s), b1, 256, Shr(b0, s));
  }

  /** The masked sum is what the number gives, if the rest of the number is a multiple of 2048. */
  lemma SameLow(number: nat, low: nat, m: nat)
    requires number == low + 2048 * m
    ensures Low(low) == number % 2048
  {
    LowIsRemainder(low);
    ModShift(low, 2048, m);
  }

  lemma TwoBytesSum(b0: nat, b1: nat, rest: nat, s: nat) returns (m: nat)
    requires b0 < 256 && s <= 5
    ensures Shr(b0 + 256 * (b1 + 256 * rest), s) == Shr(b0, s) + Shl(b1, 8 - s) + 2048 * m
  {
    m := Pow(2, 5 - s) * rest;
    ShiftedSum(b0, b1 + 256 * rest, s);
    PowersOfTwo();
    PowAdd(2, 3, 5 - s);
    HighPart(Pow(2, 8 - s), Pow(2, 5 - s), b1, rest);
  }

  /** A channel that starts `s` bits into the first of two bytes. */
  lemma TwoBytes(b0: nat, b1: nat, rest: nat, s: nat)
    requires b0 < 256 && b1 < 256 && s <= 5
    ensures Low(Or(Shr(b0, s), Shl(b1, 8 - s))) == Shr(b0 + 256 * (b1 + 256 * rest), s) % 2048
  {
    ShrLess(b0, s);
    OrDisjoint(Shr(b0, s), b1, 8 - s);
    var m := TwoBytesSum(b0, b1, rest, s);
    SameLow(Shr(b0 + 256 * (b1 + 256 * rest), s), Shr(b0, s) + Shl(b1, 8 - s), m);
  }

  lemma ThreeBytesOr(b0: nat, b1: nat, b2: nat, s: nat)
    requires b0 < 256 && b1 < 256 && s <= 8
    ensures Or(Or(Shr(b0, s), Shl(b1, 8 - s)), Shl(b2, 16 - s)) == Shr(b0, s) + Shl(b1, 8 - s) + Shl(b2, 16 - s)
  {
    ShrLess(b0, s);
    OrDisjoint(Shr(b0, s), b1, 8 - s);
    LowTwo(b0, b1, s);
    OrDisjoint(Shr(b0, s) + Shl(b1, 8 - s), b2, 16 - s);
  }

  lemma ThreeBytesSum(b0: nat, b1: nat, b2: nat, rest: nat, s: nat) returns (m: nat)
    requires b0 < 256 && b1 < 256 && s <= 8
    ensures Shr(b0 + 256 * (b1 + 256 * (b2 + 256 * rest)), s)
         == Shr(b0, s) + Shl(b1, 8 - s) + Shl(b2, 16 - s) + 2048 * m
  {
    m := 32 * Pow(2, 8 - s) * rest;
    ShiftedSum(b0, b1 + 256 * (b2 + 256 * rest), s);
    LowTwo(b0, b1, s);
    HighParts(Pow(2, 8 - s), b1, b2, rest);
  }

  /** A channel that needs a third byte. */
  lemma ThreeBytes(b0: nat, b1: nat, b2: nat, rest: nat, s: nat)
    requires b0 < 256 && b1 < 256 && b2 < 256 && 6 <= s <= 7
    ensures Low(Or(Or(Shr(b0, s), Shl(b1, 8 - s)), Shl(b2, 16 - s)))
         == Shr(b0 + 256 * (b1 + 256 * (b2 + 256 * rest)), s) % 2048
  {
    ThreeBytesOr(b0, b1, b2, s);
    var m := ThreeBytesSum(b0, b1, b2, rest, s);
    SameLow(Shr(b0 + 256 * (b1 + 256 * (b2 + 256 * rest)), s), Shr(b0, s) + Shl(b1, 8 - s) + Shl(b2, 16 - s), m);
  }

  /** The channels as the receiver reads them: base-2048 digits of the little-endian number that the bytes hold. */
  function ChannelsOf(v: seq<nat>): (ch: seq<nat>)
    ensures |ch| == 16 && AreDigits(2048, ch)
  {
    Digits(2048, 16, Value(256, v))
  }

  /** Channel i starts at bit 11 * i, which is bit s of byte q. */
  lemma ChannelAt(v: seq<nat>, q: nat, s: nat, i: nat)
    requires AreDigits(256, v) && q < |v| && i < 16 && 8 * q + s == 11 * i
    ensures ChannelsOf(v)[i] == Shr(Value(256, v[q..]), s) % 2048
  {
    var n := Value(256, v);
    DigitAt(2048, 16, n, i);
    PowersOfTwo();
    PowPow(2, 11, i);
    PowPow(2, 8, q);
    PowAdd(2, 8 * q, s);
    PowPositive(256, q);
    PowPositive(2, s);
    DivDiv(n, Pow(256, q), Pow(2, s));
    DropDigits(256, v, q);
  }

  lemma ValueFrom(v: seq<nat>, q: nat)
    requires q < |v|
    ensures Value(256, v[q..]) == v[q] + 256 * Value(256, v[q + 1..])
  {
    assert v[q..][1..] == v[q + 1..];
  }

  /** The argument of raw2float for a channel in two bytes of the packet. */
  function InTwo(buf: seq<nat>, at: nat, shift: nat): nat
    requires at + 1 < |buf| && shift <= 8
  {
    Low(Or(Shr(buf[at], shift), Shl(buf[at + 1], 8 - shift)))
  }

  /** The argument of raw2float for a channel in three bytes of the packet. */
  function InThree(buf: seq<nat>, at: nat, shift: nat): nat
    requires at + 2 < |buf| && shift <= 8
  {
    Low(Or(Or(Shr(buf[at], shift), Shl(buf[at + 1], 8 - shift)), Shl(buf[at + 2], 16 - shift)))
  }

  lemma ChannelTwo(buf: seq<nat>, at: nat, shift: nat, i: nat)
    requires |buf| == 27 && AreDigits(256, buf) && shift <= 5
    requires 2 <= at < 23 && i < 16 && 8 * (at - 2) + shift == 11 * i
    ensures InTwo(buf, at, shift) == ChannelsOf(buf[2..24])[i]
  {
    var v, q := buf[2..24], at - 2;
    ChannelAt(v, q, shift, i);
    ValueFrom(v, q);
    ValueFrom(v, q + 1);
    TwoBytes(v[q], v[q + 1], Value(256, v[q + 2..]), shift);
  }

  lemma ChannelThree(buf: seq<nat>, at: nat, shift: nat, i: nat)
    requires |buf| == 27 && AreDigits(256, buf) && 6 <= shift <= 7
    requires 2 <= at < 22 && i < 16 && 8 * (at - 2) + shift == 11 * i
    ensures InThree(buf, at, shift) == ChannelsOf(buf[2..24])[i]
  {
    var v, q := buf[2..24], at - 2;
    ChannelAt(v, q, shift, i);
    ValueFrom(v, q);
    ValueFrom(v, q + 1);
    ValueFrom(v, q + 2);
    ThreeBytes(v[q], v[q + 1], v[q + 2], Value(256, v[q + 3..]), shift);
  }

  method ReadLowChannels(buf: seq<nat>) returns (ch: seq<nat>)
    requires |buf| == 27 && AreDigits(256, buf)
    ensures var all := ChannelsOf(buf[2..24]);
      ch == [all[0], all[1], all[2], all[3], all[4], all[5], all[6], all[7]]
  {
    ch := [InTwo(buf, 2, 0), InTwo(buf, 3, 3), InThree(buf, 4, 6), InTwo(buf, 6, 1),
           InTwo(buf, 7, 4), InThree(buf, 8, 7), InTwo(buf, 10, 2), InTwo(buf, 11, 5)];
    ChannelTwo(buf, 2, 0, 0);
    ChannelTwo(buf, 3, 3, 1);
    ChannelThree(buf, 4, 6, 2);
    ChannelTwo(buf, 6, 1, 3);
    ChannelTwo(buf, 7, 4, 4);
    ChannelThree(buf, 8, 7, 5);
    ChannelTwo(buf, 10, 2, 6);
    ChannelTwo(buf, 11, 5, 7);
  }

  method ReadHighChannels(buf: seq<nat>) returns (ch: seq<nat>)
    requires |buf| == 27 && AreDigits(256, buf)
    ensures var all := ChannelsOf(buf[2..24]);
      ch == [all[8], all[9], all[10], all[11], all[12], all[13], all[14], all[15]]
  {
    ch := [InTwo(buf, 13, 0), InTwo(buf, 14, 3), InThree(buf, 15, 6), InTwo(buf, 17, 1),
           InTwo(buf, 18, 4), InThree(buf, 19, 7), InTwo(buf, 21, 2), InTwo(buf, 22, 5)];
    ChannelTwo(buf, 13, 0, 8);
    ChannelTwo(buf, 14, 3, 9);
    ChannelThree(buf, 15, 6, 10);
    ChannelTwo(buf, 17, 1, 11);
    ChannelTwo(buf, 18, 4, 12);
    ChannelThree(buf, 19, 7, 13);
    ChannelTwo(buf, 21, 2, 14);
    ChannelTwo(buf, 22, 5, 15);
  }

  /** The sixteen assignments of the control frame branch. */
  method ReadChannels(buf: seq<nat>) returns (ch: seq<nat>)
    requires |buf| == 27 && AreDigits(256, buf)
    ensures ch == ChannelsOf(buf[2..24])
  {
    var low := ReadLowChannels(buf);
    var high := ReadHighChannels(buf);
    ch := low + high;
  }

  /** The sender's side: sixteen channels as 22 bytes. */
  function Pack(ch: seq<nat>): (v: seq<nat>)
    ensures |v| == 22 && AreDigits(256, v)
  {
    Digits(256, 22, Value(2048, ch))
  }

  lemma SameWidth()
    ensures Pow(2048, 16) == Pow(256, 22)
  {
    PowersOfTwo();
    PowPow(2, 11, 16);
    PowPow(2, 8, 22);
  }

  /** Unpacking undoes packing. */
  lemma UnpackPack(ch: seq<nat>)
    requires |ch| == 16 && AreDigits(2048, ch)
    ensures ChannelsOf(Pack(ch)) == ch
  {
    SameWidth();
    ChangeOfBase(256, 22, 2048, ch);
  }

  /** Packing undoes unpacking: no bit of the 22 bytes is ignored. */
  lemma PackUnpack(v: seq<nat>)
    requires |v| == 22 && AreDigits(256, v)
    ensures Pack(ChannelsOf(v)) == v
  {
    SameWidth();
    ChangeOfBase(2048, 16, 256, v);
  }

  // ---- Packets -----------------------------------------------------------------------------------

  /** What the task publishes from a control frame: eighteen channels and the link state. */
  datatype Control = Control(channels: seq<real>, rssi: nat, failsafe: bool, signalLoss: bool)

  /** raw2float after its mask, on real numbers. */
  function Scaled(raw: nat): real {
    (raw as real - FPORT_RAW_VALUE_MIN as real) / (FPORT_RAW_VALUE_MAX - FPORT_RAW_VALUE_MIN) as real * 2.0 - 1.0
  }

  function Switch(on: bool): real {
    if on then 1.0 else -1.0
  }

  function Octets(f: seq<byte>): (v: seq<nat>)
    ensures |v| == |f| && AreDigits(256, v)
  {
    seq(|f|, i requires 0 <= i < |f| => f[i] as nat)
  }

  function ControlOf(f: seq<byte>): Control
    requires |f| == 27
  {
    var ch, flags := ChannelsOf(Octets(f)[2..24]), f[24];
    Control(seq(16, i requires 0 <= i < 16 => Scaled(ch[i]))
            + [Switch(flags & FPORT_FLAG_CH17 != 0), Switch(flags & FPORT_FLAG_CH18 != 0)],
            f[25] as nat, flags & FPORT_FLAG_FAILSAFE != 0, flags & FPORT_FLAG_FRAME_LOST != 0)
  }

  /** What the task makes of the bytes it cut off the stream. */
  function Decode(piece: seq<byte>): Option<Control> {
    match Hdlc.Unstuff(piece)
    case None => None
    case Some(f) => if ValidFrame(Octets(f)) && f[1] == 0 && |f| == 27 then Some(ControlOf(f)) else None
  }

  /** The body of the loop of fport_task, from the unstuffing on. */
  method ProcessPiece(buf: array<byte>, length: nat) returns (r: Option<Control>)
    requires length <= buf.Length
    modifies buf
    ensures r == Decode(old(buf[..length]))
  {
    var len := Hdlc.FrameUnstuff(buf, length);
    if len <= 0 {
      return None;
    }
    ghost var f := buf[..len];
    if len != buf[0] as int + 2 {
      return None;
    }
    var octets := Octets(buf[..len]);
    var checksum := Checksum(octets);
    if checksum != 0xff {
      return None;
    }
    if buf[1] == 0x00 && len == 27 {
      var raw := ReadChannels(octets);
      var channels := seq(16, i requires 0 <= i < 16 => Scaled(raw[i]));
      var flags := buf[24];
      channels := channels + [Switch(flags & FPORT_FLAG_CH17 != 0), Switch(flags & FPORT_FLAG_CH18 != 0)];
      assert channels == ControlOf(f).channels;
      var failsafe, signalLoss := flags & FPORT_FLAG_FAILSAFE != 0, flags & FPORT_FLAG_FRAME_LOST != 0;
      return Some(Control(channels, buf[25] as nat, failsafe, signalLoss));
    }
    return None;
  }

  /** Channel 17 and the frame-lost flag share a bit: channel 17 is on exactly when signal loss is reported. */
  lemma Channel17IsSignalLoss(piece: seq<byte>)
    requires Decode(piece).Some?
    ensures var c := Decode(piece).value; |c.channels| == 18 && (c.channels[16] == 1.0 <==> c.signalLoss)
  {
  }

  function CheckByte(sum: nat): nat {
    255 - sum % 255
  }

  lemma {:induction false} CheckByteAccepted(f: seq<nat>)
    ensures SumAccepted(f + [CheckByte(Sum(f))]) && CheckByte(Sum(f)) < 256
  {
    var g := f + [CheckByte(Sum(f))];
    SumSplit(g, |f|);
    assert g[..|f|] == f && g[|f| + 1..] == [];
    ModShift(0, 255, Sum(f) / 255 + 1);
  }

  /** A control packet as its sender builds it, before stuffing. */
  function ControlPacket(ch: seq<nat>, flags: nat, rssi: nat): seq<nat> {
    var head := [25, 0] + Pack(ch) + [flags, rssi];
    head + [CheckByte(Sum(head))]
  }

  lemma ByteSuccessor(b: byte)
    requires b != 0xff
    ensures (b + 1) as nat == b as nat + 1
  {
  }

  function ByteOf(v: nat): (b: byte)
    requires v < 256
    ensures b as nat == v
  {
    if v == 0 then 0
    else
      var b := ByteOf(v - 1);
      ByteSuccessor(b);
      b + 1
  }

  function BytesOf(v: seq<nat>): (f: seq<byte>)
    requires AreDigits(256, v)
    ensures Octets(f) == v
  {
    seq(|v|, i requires 0 <= i < |v| => ByteOf(v[i]))
  }

  lemma ControlPacketValid(ch: seq<nat>, flags: nat, rssi: nat)
    requires flags < 256 && rssi < 256
    ensures var v := ControlPacket(ch, flags, rssi);
      |v| == 27 && AreDigits(256, v) && ValidFrame(v) && v[2..24] == Pack(ch) && v[24] == flags && v[25] == rssi
  {
    CheckByteAccepted([25, 0] + Pack(ch) + [flags, rssi]);
  }

  lemma SameByte(a: byte, b: byte)
    ensures a as nat == b as nat ==> a == b
  {
  }

  /** What a receiver must publish from a control packet, bit by bit. */
  predicate Publishes(c: Control, ch: seq<nat>, flags: byte, rssi: byte)
    requires |ch| == 16
  {
    && |c.channels| == 18
    && (forall i :: 0 <= i < 16 ==> c.channels[i] == (ch[i] as real - 992.0) / 800.0)
    && c.channels[16] == (if flags & 0x04 != 0 then 1.0 else -1.0)
    && c.channels[17] == (if flags & 0x02 != 0 then 1.0 else -1.0)
    && (c.failsafe <==> flags & 0x08 != 0) && (c.signalLoss <==> flags & 0x04 != 0)
    && c.rssi == rssi as nat
  }

  lemma ScaledIs(raw: nat)
    ensures Scaled(raw) == (raw as real - 992.0) / 800.0
  {
  }

  lemma {:induction false} ControlIs(f: seq<byte>, ch: seq<nat>, flags: byte, rssi: byte)
    requires |f| == 27 && |ch| == 16 && ChannelsOf(Octets(f)[2..24]) == ch
    requires f[24] == flags && f[25] as nat == rssi as nat
    ensures Publishes(ControlOf(f), ch, flags, rssi)
  {
    forall i | 0 <= i < 16 ensures ControlOf(f).channels[i] == (ch[i] as real - 992.0) / 800.0 {
      ScaledIs(ch[i]);
    }
  }

  /** The receiver gets what the sender put in: the sixteen channels, the flags and the signal strength. */
  lemma ControlRoundTrip(ch: seq<nat>, flags: byte, rssi: byte)
    requires |ch| == 16 && AreDigits(2048, ch)
    ensures var v := ControlPacket(ch, flags as nat, rssi as nat);
      AreDigits(256, v) && match Decode(Hdlc.Stuff(BytesOf(v)))
      case None => false
      case Some(c) => Publishes(c, ch, flags, rssi)
  {
    ControlPacketValid(ch, flags as nat, rssi as nat);
    var v := ControlPacket(ch, flags as nat, rssi as nat);
    var f := BytesOf(v);
    Hdlc.UnstuffStuff(f);
    UnpackPack(ch);
    assert Octets(f)[1] == 0 && Octets(f)[24] == flags as nat;
    SameByte(f[1], 0);
    SameByte(f[24], flags);
    ControlIs(f, ch, flags, rssi);
  }

  lemma {:induction false} SumAtLeast(f: seq<nat>, i: nat)
    requires i < |f|
    ensures f[i] <= Sum(f)
  {
    SumSplit(f, i);
  }

  /** Exactly the pieces that are published. */
  lemma {:induction false} PublishedIff(piece: seq<byte>)
    ensures Decode(piece).Some? <==>
      match Hdlc.Unstuff(piece)
      case None => false
      case Some(f) => |f| == 27 && f[0] == 0x19 && f[1] == 0x00 && Sum(Octets(f)) % 255 == 0
  {
    match Hdlc.Unstuff(piece)
    case None =>
    case Some(f) =>
      if |f| == 27 {
        SameByte(f[0], 0x19);
        SumAtLeast(Octets(f), 0);
      }
  }

  /** What a wrong byte does to a valid frame of 27 bytes whose type is zero. */
  lemma {:induction false} WrongByte(f: seq<byte>, i: nat, b: byte)
    requires |f| == 27 && ValidFrame(Octets(f)) && f[1] == 0 && i < 27 && b != f[i]
    ensures Decode(Hdlc.Stuff(f[i := b])).Some? <==> i > 1 && {f[i] as nat, b as nat} == {0, 255}
  {
    var g, v := f[i := b], Octets(f);
    Hdlc.UnstuffStuff(g);
    PublishedIff(Hdlc.Stuff(g));
    assert Octets(g) == v[i := b as nat];
    SameByte(f[i], b);
    SameByte(f[0], 0x19);
    assert v[0] == 25;
    SumAtLeast(Octets(g), 0);
    if i > 1 {
      SingleByteChange(v, i, b as nat);
    }
  }

  /** A control packet with one wrong byte is published exactly if the byte became 0xff from 0x00 or the reverse. */
  lemma {:induction false} WrongByteRefused(ch: seq<nat>, flags: byte, rssi: byte, i: nat, b: byte)
    requires |ch| == 16 && AreDigits(2048, ch) && i < 27
    ensures var v := ControlPacket(ch, flags as nat, rssi as nat);
      |v| == 27 && AreDigits(256, v) && var f := BytesOf(v);
      |f| == 27 && (b != f[i] ==>
        (Decode(Hdlc.Stuff(f[i := b])).Some? <==> i > 1 && {f[i] as nat, b as nat} == {0, 255}))
  {
    ControlPacketValid(ch, flags as nat, rssi as nat);
    var v := ControlPacket(ch, flags as nat, rssi as nat);
    var f := BytesOf(v);
    SameByte(f[1], 0);
    if b != f[i] {
      WrongByte(f, i, b);
    }
  }

  /** Different raw values are different channel values, and the nominal range is -1 to 1. */
  lemma ScaledInjective(raw: nat, raw': nat)
    ensures raw < raw' <==> Scaled(raw) < Scaled(raw')
    ensures Scaled(FPORT_RAW_VALUE_MIN) == -1.0 && Scaled(FPORT_RAW_VALUE_MAX) == 1.0
  {
    assert Scaled(raw') - Scaled(raw) == (raw' - raw) as real / 800.0;
  }

  // ---- Cutting packets off the stream ------------------------------------------------------------

  const FPORT_RX_MAX_PACKET_SIZE: nat := 64

  /** What the buffer holds after `s` was read into it: it starts over each time it is full. */
  function Kept(s: seq<byte>): (r: seq<byte>)
    ensures |r| <= FPORT_RX_MAX_PACKET_SIZE
  {
    if s == [] then [] else s[FPORT_RX_MAX_PACKET_SIZE * ((|s| - 1) / FPORT_RX_MAX_PACKET_SIZE)..]
  }

  lemma KeptTail(lost: seq<byte>, tail: seq<byte>, k: nat)
    requires |lost| == FPORT_RX_MAX_PACKET_SIZE * k && 0 < |tail| <= FPORT_RX_MAX_PACKET_SIZE
    ensures Kept(lost + tail) == tail
  {
    DivMod(|lost + tail| - 1, FPORT_RX_MAX_PACKET_SIZE, k, |tail| - 1);
  }

  /**
   Overlong data is not always caught: bytes that fill the buffer some whole number of times are forgotten, and the
   frame that follows them is accepted as if it had come alone.
   */
  lemma OverlongForgotten(garbage: seq<byte>, frame: seq<byte>, k: nat)
    requires |garbage| == FPORT_RX_MAX_PACKET_SIZE * k && 0 < |frame| <= FPORT_RX_MAX_PACKET_SIZE
    ensures Decode(Kept(garbage + frame)) == Decode(frame)
  {
    KeptTail(garbage, frame, k);
  }

  /**
   So a control packet is received although 64 bytes of data came before it in the same piece: the piece is longer
   than any packet, but what is left of it in the buffer is the packet.
   */
  lemma OverlongAccepted(garbage: seq<byte>, ch: seq<nat>, flags: byte, rssi: byte)
    requires |garbage| == FPORT_RX_MAX_PACKET_SIZE && |ch| == 16 && AreDigits(2048, ch)
    ensures var v := ControlPacket(ch, flags as nat, rssi as nat);
      AreDigits(256, v) && var piece := garbage + Hdlc.Stuff(BytesOf(v));
      |piece| > FPORT_RX_MAX_PACKET_SIZE && match Decode(Kept(piece))
      case None => false
      case Some(c) => Publishes(c, ch, flags, rssi)
  {
    ControlPacketValid(ch, flags as nat, rssi as nat);
    var v := ControlPacket(ch, flags as nat, rssi as nat);
    var frame := Hdlc.Stuff(BytesOf(v));
    Hdlc.StuffAlphabet(BytesOf(v), 0);
    OverlongForgotten(garbage, frame, 1);
    ControlRoundTrip(ch, flags, rssi);
  }

  /** One read of the loop, behind `len` bytes without a boundary. */
  method ReadMore(ring: UartRx.Ring, buf: array<byte>, len: nat) returns (res: nat, ghost chunk: seq<byte>)
    requires ring.Valid() && ring.delimiter == Some(Hdlc.HDLC_FRAME_BOUNDARY) && ring.buf != buf
    requires len <= FPORT_RX_MAX_PACKET_SIZE == buf.Length
    requires forall i :: 0 <= i < len ==> buf[i] != Hdlc.HDLC_FRAME_BOUNDARY
    modifies ring, ring.buf, buf
    ensures ring.Valid() && old(ring.received) <= ring.received && ring.delivered == old(ring.delivered) + chunk
    ensures |chunk| == res && len + res <= buf.Length && buf[..len + res] == old(buf[..len]) + chunk
    ensures forall i :: 0 <= i < len + res - 1 ==> buf[i] != Hdlc.HDLC_FRAME_BOUNDARY
    ensures |ring.calls| == |old(ring.calls)| + 1
    ensures res == 0 && len < buf.Length ==> old(ring.received) <= ring.delivered
  {
    ghost var before := buf[..len];
    res := ring.RxRead(buf, len, FPORT_RX_MAX_PACKET_SIZE - len);
    chunk := buf[len..len + res];
    assert buf[..len] == before;
    assert forall i :: 0 <= i < len ==> buf[i] == before[i];
  }

  /** The buffer holds what was read since it was full for the k-th time; no boundary but the last byte was read. */
  ghost predicate Holding(buf: array<byte>, len: nat, lost: seq<byte>, k: nat)
    reads buf
  {
    && len <= FPORT_RX_MAX_PACKET_SIZE == buf.Length && |lost| == FPORT_RX_MAX_PACKET_SIZE * k
    && Hdlc.HDLC_FRAME_BOUNDARY !in lost
    && forall i :: 0 <= i < len - 1 ==> buf[i] != Hdlc.HDLC_FRAME_BOUNDARY
  }

  lemma NoBoundaryYet(buf: array<byte>, len: nat, lost: seq<byte>, k: nat)
    requires Holding(buf, len, lost, k) && (len == 0 || buf[len - 1] != Hdlc.HDLC_FRAME_BOUNDARY)
    ensures Hdlc.HDLC_FRAME_BOUNDARY !in lost + buf[..len]
  {
    forall i | 0 <= i < len ensures buf[..len][i] != Hdlc.HDLC_FRAME_BOUNDARY {
      assert buf[..len][i] == buf[i];
    }
  }

  /** One round of the read loop: the buffer starts over if it is full, and is read into. */
  method ReadRound(ring: UartRx.Ring, buf: array<byte>, len: nat, ghost lost: seq<byte>, ghost k: nat)
    returns (len': nat, res: nat, ghost chunk: seq<byte>, ghost lost': seq<byte>, ghost k': nat)
    requires ring.Valid() && ring.delimiter == Some(Hdlc.HDLC_FRAME_BOUNDARY) && ring.buf != buf
    requires Holding(buf, len, lost, k) && (len == 0 || buf[len - 1] != Hdlc.HDLC_FRAME_BOUNDARY)
    modifies ring, ring.buf, buf
    ensures ring.Valid() && old(ring.received) <= ring.received && ring.delivered == old(ring.delivered) + chunk
    ensures Holding(buf, len', lost', k') && res == |chunk|
    ensures |ring.calls| == |old(ring.calls)| + 1 && (res == 0 ==> old(ring.received) <= ring.delivered)
    ensures lost' + buf[..len'] == lost + old(buf[..len]) + chunk
  {
    len', lost', k' := len, lost, k;
    if len == FPORT_RX_MAX_PACKET_SIZE {
      lost', k', len' := lost + buf[..len], k + 1, 0;
    }
    ghost var before := buf[..len'];
    res, chunk := ReadMore(ring, buf, len');
    Associate(lost', before, chunk);
    len' := len' + res;
  }

  lemma {:induction false} SumSnoc(counts: seq<nat>, n: nat)
    ensures Sum(counts + [n]) == Sum(counts) + n
  {
    SumSplit(counts + [n], |counts|);
    assert (counts + [n])[..|counts|] == counts && (counts + [n])[|counts| + 1..] == [];
  }

  /** What has been reported after reads that returned `counts` bytes each: a loss for each that returned nothing. */
  ghost predicate Reported(counts: seq<nat>, total: nat, lossReported: bool, triggers: nat, hasScheduler: bool) {
    && Sum(counts) == total && (lossReported <==> 0 in counts)
    && triggers == if hasScheduler then multiset(counts)[0] else 0
  }

  lemma {:induction false} ReportedSnoc(counts: seq<nat>, total: nat, lossReported: bool, triggers: nat,
                                        hasScheduler: bool, n: nat)
    requires Reported(counts, total, lossReported, triggers, hasScheduler)
    ensures Reported(counts + [n], total + n, lossReported || n == 0,
                     triggers + (if n == 0 && hasScheduler then 1 else 0), hasScheduler)
  {
    SumSnoc(counts, n);
  }

  /** A piece of the stream: closed by its only boundary. */
  predicate IsPiece(f: seq<byte>) {
    f != [] && forall i :: 0 <= i < |f| ==> (f[i] == Hdlc.HDLC_FRAME_BOUNDARY <==> i == |f| - 1)
  }

  lemma {:induction false} SumCounts(counts: seq<nat>)
    requires 0 !in counts
    ensures |counts| <= Sum(counts)
  {
    if counts != [] {
      SumCounts(counts[1..]);
    }
  }

  lemma {:induction false} SamePiece(f: seq<byte>, consumed: seq<byte>, done: bool, limit: nat)
    requires IsPiece(f) && |f| <= limit && forall i :: 0 <= i < |f| && i < |consumed| ==> f[i] == consumed[i]
    requires if done then IsPiece(consumed) else Hdlc.HDLC_FRAME_BOUNDARY !in consumed && limit <= |consumed|
    ensures done && consumed == f
  {
    var n := if |f| < |consumed| then |f| else |consumed|;
    assert n > 0 ==> f[n - 1] == consumed[n - 1];
  }

  /** A piece that waits in the ring is what has been read when the loop ends, and no read has found nothing. */
  lemma {:induction false} PieceTaken(start: seq<byte>, queue: seq<byte>, consumed: seq<byte>, received: seq<byte>,
                                      done: bool, counts: seq<nat>, lossReported: bool, triggers: nat,
                                      hasScheduler: bool, limit: nat)
    requires start + consumed <= received && start + queue <= received
    requires forall i :: 0 <= i < |consumed| - 1 ==> consumed[i] != Hdlc.HDLC_FRAME_BOUNDARY
    requires done <==> consumed != [] && consumed[|consumed| - 1] == Hdlc.HDLC_FRAME_BOUNDARY
    requires Reported(counts, |consumed|, lossReported, triggers, hasScheduler) && (done || |counts| == limit)
    requires lossReported ==> Hdlc.HDLC_FRAME_BOUNDARY !in queue
    ensures forall f :: IsPiece(f) && |f| <= limit && f <= queue ==>
      done && consumed == f && !lossReported && triggers == 0
  {
    forall f | IsPiece(f) && |f| <= limit && f <= queue
      ensures done && consumed == f && !lossReported && triggers == 0
    {
      assert queue[|f| - 1] == Hdlc.HDLC_FRAME_BOUNDARY;
      SumCounts(counts);
      forall i: nat | i < |f| && i < |consumed| ensures f[i] == consumed[i] {
        assert f[i] == (start + queue)[|start| + i] == received[|start| + i] == (start + consumed)[|start| + i];
      }
      SamePiece(f, consumed, done, limit);
    }
  }

  /** A read that found nothing, behind bytes without a boundary, shows that no boundary waited. */
  lemma NothingWaits(start: seq<byte>, queue: seq<byte>, consumed: seq<byte>)
    requires start + queue <= start + consumed && Hdlc.HDLC_FRAME_BOUNDARY !in consumed
    ensures Hdlc.HDLC_FRAME_BOUNDARY !in queue
  {
    forall i | 0 <= i < |queue| ensures queue[i] == consumed[i] {
      assert (start + queue)[|start| + i] == (start + consumed)[|start| + i];
    }
  }

  /**
   The read loop of fport_task, with a limit on the number of reads.  `counts` says how many bytes each returned.
   Each read that returns nothing sets failsafe and signal loss, and triggers the scheduler if there is one.
   */
  method ReadPiece(ring: UartRx.Ring, buf: array<byte>, limit: nat, hasScheduler: bool)
    returns (len: nat, done: bool, lossReported: bool, triggers: nat, ghost consumed: seq<byte>, ghost counts: seq<nat>)
    requires ring.Valid() && ring.delimiter == Some(Hdlc.HDLC_FRAME_BOUNDARY) && ring.buf != buf
    requires buf.Length == FPORT_RX_MAX_PACKET_SIZE
    modifies ring, ring.buf, buf
    ensures ring.Valid() && old(ring.received) <= ring.received
    ensures ring.delivered == old(ring.delivered) + consumed
    ensures done ==> len <= FPORT_RX_MAX_PACKET_SIZE && buf[..len] == Kept(consumed)
    ensures done <==> consumed != [] && consumed[|consumed| - 1] == Hdlc.HDLC_FRAME_BOUNDARY
    ensures forall i :: 0 <= i < |consumed| - 1 ==> consumed[i] != Hdlc.HDLC_FRAME_BOUNDARY
    ensures |counts| <= limit && (!done ==> |counts| == limit)
    ensures Reported(counts, |consumed|, lossReported, triggers, hasScheduler)
    // each count is a read, and a loss is reported only if no boundary waited in the ring
    ensures |ring.calls| == |old(ring.calls)| + |counts|
    ensures lossReported ==> Hdlc.HDLC_FRAME_BOUNDARY !in old(ring.queue)
    // so a piece that waits in the ring is what the loop reads, without reporting a loss
    ensures forall f :: IsPiece(f) && |f| <= limit && f <= old(ring.queue) ==>
      done && consumed == f && !lossReported && triggers == 0
  {
    ghost var start, queue := ring.delivered, ring.queue;
    len, lossReported, triggers, consumed, counts := 0, false, 0, [], [];
    var pass := 0;
    ghost var lost: seq<byte>, k: nat := [], 0;
    while len == 0 || buf[len - 1] != Hdlc.HDLC_FRAME_BOUNDARY
      invariant ring.Valid() && old(ring.received) <= ring.received
      invariant ring.delivered == old(ring.delivered) + consumed
      invariant Holding(buf, len, lost, k) && consumed == lost + buf[..len]
      invariant |counts| == pass <= limit && Reported(counts, |consumed|, lossReported, triggers, hasScheduler)
      invariant |ring.calls| == |old(ring.calls)| + pass
      invariant lossReported ==> Hdlc.HDLC_FRAME_BOUNDARY !in queue
      decreases limit - pass
    {
      NoBoundaryYet(buf, len, lost, k);
      if pass >= limit {
        ring.DeliveredFirst();
        PieceTaken(start, queue, consumed, ring.received, false, counts, lossReported, triggers, hasScheduler,
                   limit);
        return len, false, lossReported, triggers, consumed, counts;
      }
      pass := pass + 1;
      var res;
      ghost var chunk;
      len, res, chunk, lost, k := ReadRound(ring, buf, len, lost, k);
      Associate(old(ring.delivered), consumed, chunk);
      ReportedSnoc(counts, |consumed|, lossReported, triggers, hasScheduler, res);
      consumed, counts := consumed + chunk, counts + [res];
      if res == 0 {
        NothingWaits(start, queue, consumed);
        lossReported := true;
        triggers := triggers + if hasScheduler then 1 else 0;
      }
    }
    KeptTail(lost, buf[..len], k);
    ring.DeliveredFirst();
    PieceTaken(start, queue, consumed, ring.received, true, counts, lossReported, triggers, hasScheduler,
               limit);
    done := true;
  }
}
