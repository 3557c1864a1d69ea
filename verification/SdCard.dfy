/** The data transfer of sdcard_read_block (module/mgmt/sdcard.c), after the card has announced its data. */
module SdCard {
  import opened Basics
  import opened Crc
  import opened CrcDistance
  import opened ShiftRegister

  lemma SplitCheck(data: seq<byte>, crc: seq<byte>)
    requires |crc| == 2
    ensures Accepted(data + crc, CRC16_POLY_CCITT) <==> crc == CheckBytes(data, CRC16_POLY_CCITT)
  {
    var s := data + crc;
    assert s[..|s| - 2] == data && s[|s| - 2..] == crc;
  }

  /** What the card sends comes in as `data` and `crc`; the destination is filled before the check is made. */
  method ReceiveBlock(dst: array<byte>, size: nat, data: seq<byte>, crc: seq<byte>) returns (ok: bool)
    requires size <= dst.Length && |data| == size && |crc| == 2
    modifies dst
    ensures dst[..] == data + old(dst[size..])
    ensures ok <==> Accepted(data + crc, CRC16_POLY_CCITT)
  {
    var i := 0;
    while i < size
      invariant 0 <= i <= size
      invariant forall k :: 0 <= k < i ==> dst[k] == data[k]
      invariant forall k :: i <= k < dst.Length ==> dst[k] == old(dst[k])
    {
      dst[i] := data[i];
      i := i + 1;
    }
    assert dst[..size] == data;
    var expected := Crc16Loop(dst, size, 0, CRC16_POLY_CCITT);
    ok := crc[0] == HighByte(expected) && crc[1] == LowByte(expected);
    SplitCheck(data, crc);
  }

  /**
   A block that is damaged on the bus in up to 16 consecutive bits, in an odd number of bits, or, if the card's block
   has at most 4093 bytes, in one to three bits, is refused.
   */
  lemma {:induction false} DamagedBlockRefused(data: seq<byte>, e: seq<byte>, at: nat)
    requires |e| == |data| + 2
    requires Burst(MessageBits(e), at, 16) || Odd(MessageBits(e)) || (|e| <= 4095 && 1 <= Ones(MessageBits(e)) <= 3)
    ensures !Accepted(XorBytes(data + CheckBytes(data, CRC16_POLY_CCITT), e), CRC16_POLY_CCITT)
  {
    var s := data + CheckBytes(data, CRC16_POLY_CCITT);
    AppendedCheckAccepted(data, CRC16_POLY_CCITT);
    if Odd(MessageBits(e)) {
      OddErrorRejected(s, e);
    } else if |e| <= 4095 && 1 <= Ones(MessageBits(e)) <= 3 {
      FewFlipsRejected(s, e);
    } else {
      CcittGenerator();
      BurstRejected(s, e, at, CRC16_POLY_CCITT);
    }
  }
}
