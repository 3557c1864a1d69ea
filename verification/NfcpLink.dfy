/**
 The NFCP link (module/nfcp/nfcp.c): a packet with its CRC, byte-stuffed into a frame, written to a byte
 stream and taken off a receive ring in whatever pieces the driver returns.
 */
module NfcpLink {
  import opened Basics
  import opened Crc
  import opened Hdlc
  import opened Ticks
  import UartRx

  const NFCP_MAX_PACKET_LENGTH: nat := 128
  const NFCP_PACKET_BUFFER_SIZE: nat := NFCP_MAX_PACKET_LENGTH * 2 + 3
  const NFCP_ABORT_SEQUENCE: seq<byte> := [0x7d, 0x7e]

  // ---- Frames ------------------------------------------------------------------------------------

  /** What nfcp_tx_packet puts on the wire. */
  function Frame(packet: seq<byte>): seq<byte> {
    Stuff(packet + CheckBytes(packet, CRC16_POLY_CCITT))
  }

  /** What the receiver makes of the bytes it cut off the stream. */
  function Decode(f: seq<byte>): Option<seq<byte>> {
    match Unstuff(f)
    case None => None
    case Some(s) => if Accepted(s, CRC16_POLY_CCITT) then Some(s[..|s| - 2]) else None
  }

  lemma DecodeFrame(packet: seq<byte>)
    ensures Decode(Frame(packet)) == Some(packet)
  {
    var s := packet + CheckBytes(packet, CRC16_POLY_CCITT);
    UnstuffStuff(s);
    AppendedCheckAccepted(packet, CRC16_POLY_CCITT);
    assert s[..|s| - 2] == packet;
  }

  lemma {:induction false} DocFrameHead(s: seq<byte>)
    requires s == [0x04, 0x7d, 0x7e, 0x03]
    ensures StuffBody(s) == [0x04, 0x7d, 0x5d, 0x7d, 0x5e, 0x03]
  {
    StuffBodySnoc(s, 0);
    StuffBodySnoc(s, 1);
    StuffBodySnoc(s, 2);
    StuffBodySnoc(s, 3);
    assert s[..4] == s;
  }

  lemma {:induction false} DocFrameTail(s: seq<byte>)
    requires s == [0x17, 0x19, 0x08, 0x7d, 0xfb]
    ensures StuffBody(s) == [0x7d, 0x37, 0x7d, 0x39, 0x08, 0x7d, 0x5d, 0xfb]
  {
    StuffBodySnoc(s, 0);
    StuffBodySnoc(s, 1);
    StuffBodySnoc(s, 2);
    StuffBodySnoc(s, 3);
    StuffBodySnoc(s, 4);
    assert s[..5] == s;
  }

  /** The worked example of docs/nfcp.md, with its check bytes and framed. */
  lemma {:induction false} DocFrame(s: seq<byte>)
    requires s == [0x04, 0x7d, 0x7e, 0x03, 0x17, 0x19, 0x08]
    ensures Frame(s) == [0x04, 0x7d, 0x5d, 0x7d, 0x5e, 0x03, 0x7d, 0x37, 0x7d, 0x39, 0x08, 0x7d, 0x5d, 0xfb, 0x7e]
  {
    DocVector(s);
    assert CheckBytes(s, CRC16_POLY_CCITT) == [0x7d, 0xfb];
    var head, tail: seq<byte> := [0x04, 0x7d, 0x7e, 0x03], [0x17, 0x19, 0x08, 0x7d, 0xfb];
    assert s + [0x7d, 0xfb] == head + tail;
    StuffBodyConcat(head, tail);
    DocFrameHead(head);
    DocFrameTail(tail);
  }

  lemma FrameShape(packet: seq<byte>, i: nat)
    requires i < |Frame(packet)|
    ensures Frame(packet)[i] == HDLC_FRAME_BOUNDARY <==> i == |Frame(packet)| - 1
    ensures |packet| + 3 <= |Frame(packet)| <= 2 * |packet| + 5
  {
    StuffAlphabet(packet + CheckBytes(packet, CRC16_POLY_CCITT), i);
  }

  /** 127 bytes of packet always fit the 259 byte buffers. */
  lemma FrameFits(packet: seq<byte>)
    requires |packet| < NFCP_MAX_PACKET_LENGTH
    ensures 0 < |Frame(packet)| <= NFCP_PACKET_BUFFER_SIZE
  {
    FrameShape(packet, 0);
  }

  method TxPacket(buf: array<byte>, length: nat) returns (outLen: nat)
    requires length + 2 <= buf.Length
    requires |Frame(buf[..length])| <= buf.Length
    modifies buf
    ensures outLen <= buf.Length && buf[..outLen] == Frame(old(buf[..length]))
  {
    ghost var packet := buf[..length];
    var len := length;
    var crc := Crc16Loop(buf, len, 0, CRC16_POLY_CCITT);
    buf[len] := HighByte(crc);
    len := len + 1;
    buf[len] := LowByte(crc);
    len := len + 1;
    assert buf[..len] == packet + CheckBytes(packet, CRC16_POLY_CCITT);
    outLen := FrameStuff(buf, len);
  }

  // ---- Cutting frames off the stream -------------------------------------------------------------

  /** A boundary, if there is one, ends the piece. */
  predicate BoundaryLast(c: seq<byte>) {
    forall i :: 0 <= i < |c| - 1 ==> c[i] != HDLC_FRAME_BOUNDARY
  }

  predicate EndsWithBoundary(c: seq<byte>) {
    c != [] && c[|c| - 1] == HDLC_FRAME_BOUNDARY
  }

  /** What one undisturbed call consumes: up to the first boundary, or as much as the buffer holds. */
  predicate IsCut(c: seq<byte>, size: nat) {
    BoundaryLast(c) && (|c| == size || (EndsWithBoundary(c) && |c| <= size))
  }

  /** A sent piece: closed by its only boundary and no longer than the receiver's buffer. */
  predicate IsClosed(f: seq<byte>) {
    BoundaryLast(f) && EndsWithBoundary(f) && |f| <= NFCP_PACKET_BUFFER_SIZE
  }

  /** The call's first reading of the clock comes before its deadline. */
  predicate HasTime(deadline: TickType, ticks: seq<TickType>) {
    ticks != [] && SignedDiff(deadline, ticks[0]) > 0
  }

  /** Behind the same bytes, a piece that was cut off or reaches as far as a closed one is the closed one. */
  lemma NextPiece(before: seq<byte>, c: seq<byte>, f: seq<byte>, all: seq<byte>, size: nat)
    requires BoundaryLast(f) && EndsWithBoundary(f) && |f| <= size && BoundaryLast(c) && |c| <= size
    requires before + c <= all && before + f <= all && (IsCut(c, size) || |f| <= |c|)
    ensures c == f
  {
    var m := if |c| < |f| then |c| else |f|;
    forall i | 0 <= i < m ensures c[i] == f[i] {
      assert c[i] == (before + c)[|before| + i] == all[|before| + i] == (before + f)[|before| + i];
    }
    assert |c| > 0;
    assert c[m - 1] == f[m - 1];
  }

  datatype RxOutcome =
    | Packet(len: nat)  // a length is returned
    | Refused           // -1: the piece was no frame or its check bytes were wrong
    | TimedOut          // -1: the deadline passed first
    | Blocked           // the readings of the clock ran out before the call returned

  /** The read loop of nfcp_rx_packet: one tick reading and one read for each pass. */
  method ReadPiece(ring: UartRx.Ring, buf: array<byte>, size: nat, tickEnd: TickType, ticks: seq<TickType>)
    returns (len: nat, failure: Option<RxOutcome>, ghost consumed: seq<byte>, used: nat)
    requires ring.Valid() && ring.delimiter == Some(HDLC_FRAME_BOUNDARY) && ring.buf != buf
    requires 0 < size <= buf.Length
    modifies ring, ring.buf, buf
    ensures ring.Valid() && old(ring.received) <= ring.received
    ensures ring.delivered == old(ring.delivered) + consumed
    ensures len <= size && consumed == buf[..len] && BoundaryLast(consumed)
    ensures failure == None <==> IsCut(consumed, size)
    ensures failure in {None, Some(TimedOut), Some(Blocked)}
    ensures used <= |ticks| && forall i :: 0 <= i < used - 1 ==> SignedDiff(tickEnd, ticks[i]) > 0
    ensures used > 0 ==> (failure == Some(TimedOut) <==> SignedDiff(tickEnd, ticks[used - 1]) <= 0)
    ensures (failure == Some(TimedOut) ==> used > 0) && (failure == Some(Blocked) ==> used == |ticks|)
    ensures ticks != [] ==> used > 0
    // one read for each reading of the clock that the deadline allows
    ensures old(ring.calls) <= ring.calls
    ensures |ring.calls| == |old(ring.calls)| + if failure == Some(TimedOut) then used - 1 else used
    // and a call that cuts nothing off leaves nothing behind that was there when it last read
    ensures failure != None && |old(ring.calls)| < |ring.calls| ==>
      old(ring.received) <= ring.calls[|ring.calls| - 1] <= ring.delivered
  {
    len := 0;
    var pass := 0;
    consumed, used := [], 0;
    while len < size && (len == 0 || buf[len - 1] != HDLC_FRAME_BOUNDARY)
      invariant 0 <= len <= size && consumed == buf[..len] && BoundaryLast(consumed) && (pass == 0 ==> len == 0)
      invariant ring.Valid() && old(ring.received) <= ring.received
      invariant ring.delivered == old(ring.delivered) + consumed
      invariant used == pass <= |ticks| && forall i :: 0 <= i < pass ==> SignedDiff(tickEnd, ticks[i]) > 0
      invariant old(ring.calls) <= ring.calls && |ring.calls| == |old(ring.calls)| + pass
      invariant pass > 0 ==> old(ring.received) <= ring.calls[|ring.calls| - 1]
      invariant pass > 0 && len < size && (len == 0 || buf[len - 1] != HDLC_FRAME_BOUNDARY) ==>
        ring.calls[|ring.calls| - 1] <= ring.delivered
      decreases |ticks| - pass
    {
      if pass == |ticks| {
        return len, Some(Blocked), consumed, used;
      }
      var diff := SignedDiff(tickEnd, ticks[pass]);
      used := used + 1;
      if diff <= 0 {
        return len, Some(TimedOut), consumed, used;
      }
      pass := pass + 1;
      var n := ring.RxRead(buf, len, size - len);
      ghost var chunk := buf[len..len + n];
      assert buf[..len] == consumed;
      assert buf[..len + n] == consumed + chunk;
      len := len + n;
      consumed := consumed + chunk;
    }
    failure := None;
  }

  /** The rest of nfcp_rx_packet: unstuff in place, then compare the check bytes. */
  method DecodePiece(buf: array<byte>, length: nat) returns (r: RxOutcome)
    requires length <= buf.Length
    modifies buf
    ensures match Decode(old(buf[..length]))
            case None => r == Refused
            case Some(p) => |p| <= buf.Length && r == Packet(|p|) && buf[..|p|] == p
  {
    var u := FrameUnstuff(buf, length);
    if u < 2 {
      return Refused;
    }
    var len: nat := u;
    ghost var s := buf[..len];
    var crc := Crc16Loop(buf, len - 2, 0, CRC16_POLY_CCITT);
    len := len - 2;
    assert buf[..len] == s[..len] && s[len..] == [buf[len], buf[len + 1]];
    if buf[len] != HighByte(crc) || buf[len + 1] != LowByte(crc) {
      return Refused;
    }
    return Packet(len);
  }

  lemma TakesWaiting(start: seq<byte>, queue: seq<byte>, c: seq<byte>, all: seq<byte>, size: nat)
    requires BoundaryLast(c) && |c| <= size && start + c <= all && start + queue <= all
    requires IsCut(c, size) || start + queue <= start + c
    ensures forall f :: BoundaryLast(f) && EndsWithBoundary(f) && |f| <= size && f <= queue ==> c == f
  {
    forall f | BoundaryLast(f) && EndsWithBoundary(f) && |f| <= size && f <= queue ensures c == f {
      assert start + f <= start + queue;
      NextPiece(start, c, f, all, size);
    }
  }

  /**
   nfcp_rx_packet.  `ticks` are the values the tick counter shows, one for each pass of the read loop, of which the
   call reads the first `used`.
   */
  method RxPacket(ring: UartRx.Ring, buf: array<byte>, size: nat, tickEnd: TickType, ticks: seq<TickType>)
    returns (r: RxOutcome, ghost consumed: seq<byte>, used: nat)
    requires ring.Valid() && ring.delimiter == Some(HDLC_FRAME_BOUNDARY) && ring.buf != buf
    requires 0 < size <= buf.Length
    modifies ring, ring.buf, buf
    ensures ring.Valid() && old(ring.received) <= ring.received
    ensures ring.delivered == old(ring.delivered) + consumed
    ensures BoundaryLast(consumed) && |consumed| <= size
    ensures r.Packet? || r.Refused? <==> IsCut(consumed, size)
    ensures r.Packet? ==> r.len <= buf.Length && Decode(consumed) == Some(buf[..r.len])
    ensures r.Refused? ==> Decode(consumed) == None
    ensures used <= |ticks| && forall i :: 0 <= i < used - 1 ==> SignedDiff(tickEnd, ticks[i]) > 0
    ensures used > 0 ==> (r.TimedOut? <==> SignedDiff(tickEnd, ticks[used - 1]) <= 0)
    ensures (r.TimedOut? ==> used > 0) && (r.Blocked? ==> used == |ticks|)
    ensures ticks != [] ==> used > 0
    ensures |ring.calls| == |old(ring.calls)| + if r.TimedOut? then used - 1 else used
    // a call that reads leaves a frame unfinished only after all that was there when it last read
    ensures r.Packet? || r.Refused? || |old(ring.calls)| == |ring.calls|
         || old(ring.received) <= ring.calls[|ring.calls| - 1] <= ring.delivered
    // so a closed piece that stands first in the ring is what the call takes
    ensures HasTime(tickEnd, ticks) ==>
      forall f :: BoundaryLast(f) && EndsWithBoundary(f) && |f| <= size && f <= old(ring.queue) ==> consumed == f
  {
    var len, failure;
    ghost var start, queue := ring.delivered, ring.queue;
    len, failure, consumed, used := ReadPiece(ring, buf, size, tickEnd, ticks);
    ring.DeliveredFirst();
    if HasTime(tickEnd, ticks) {
      TakesWaiting(start, queue, consumed, ring.received, size);
    }
    match failure {
      case Some(outcome) => r := outcome;
      case None => r := DecodePiece(buf, len);
    }
  }

  // ---- Delivery ----------------------------------------------------------------------------------

  function Concat(pieces: seq<seq<byte>>): seq<byte> {
    if pieces == [] then [] else pieces[0] + Concat(pieces[1..])
  }

  function Frames(packets: seq<seq<byte>>): (r: seq<seq<byte>>)
    ensures |r| == |packets|
  {
    seq(|packets|, i requires 0 <= i < |packets| => Frame(packets[i]))
  }

  /** The byte stream that sending `packets` one after the other produces. */
  function LinkBytes(packets: seq<seq<byte>>): seq<byte> {
    Concat(Frames(packets))
  }

  ghost predicate AllFit(packets: seq<seq<byte>>) {
    forall i :: 0 <= i < |packets| ==> |Frame(packets[i])| <= NFCP_PACKET_BUFFER_SIZE
  }

  ghost predicate AllCuts(pieces: seq<seq<byte>>) {
    forall i :: 0 <= i < |pieces| ==> IsCut(pieces[i], NFCP_PACKET_BUFFER_SIZE)
  }

  ghost predicate AllClosed(frames: seq<seq<byte>>) {
    forall i :: 0 <= i < |frames| ==> IsClosed(frames[i])
  }

  /** Two ways of cutting the same stream agree on the first piece. */
  lemma FirstCut(c: seq<byte>, f: seq<byte>, rest: seq<byte>)
    requires IsClosed(f) && IsCut(c, NFCP_PACKET_BUFFER_SIZE)
    requires c <= f + rest
    ensures c == f
  {
    NextPiece([], c, f, f + rest, NFCP_PACKET_BUFFER_SIZE);
  }

  /** However a stream of closed pieces reaches the receiver, the cuts it takes are exactly those pieces. */
  lemma {:induction false} CutsAreFrames(pieces: seq<seq<byte>>, frames: seq<seq<byte>>)
    requires AllClosed(frames) && AllCuts(pieces)
    requires Concat(pieces) <= Concat(frames)
    ensures pieces <= frames
    ensures |Concat(pieces)| == |Concat(frames)| ==> pieces == frames
  {
    if pieces == [] {
      assert frames != [] ==> |frames[0]| > 0;
    } else {
      var c, f := pieces[0], frames[0];
      FirstCut(c, f, Concat(frames[1..]));
      assert Concat(pieces[1..]) == Concat(pieces)[|c|..];
      assert Concat(frames[1..]) == Concat(frames)[|f|..];
      CutsAreFrames(pieces[1..], frames[1..]);
      assert pieces == [c] + pieces[1..] && frames == [f] + frames[1..];
    }
  }

  lemma FrameIsClosed(packet: seq<byte>)
    requires |Frame(packet)| <= NFCP_PACKET_BUFFER_SIZE
    ensures IsClosed(Frame(packet))
  {
    var f := Frame(packet);
    forall i | 0 <= i < |f| ensures f[i] == HDLC_FRAME_BOUNDARY <==> i == |f| - 1 {
      FrameShape(packet, i);
    }
  }

  lemma {:induction false} ConcatSnoc(pieces: seq<seq<byte>>, c: seq<byte>)
    ensures Concat(pieces + [c]) == Concat(pieces) + c
  {
    if pieces == [] {
      assert pieces + [c] == [c];
      assert Concat([c]) == c + [];
    } else {
      assert (pieces + [c])[1..] == pieces[1..] + [c];
      ConcatSnoc(pieces[1..], c);
    }
  }

  lemma PrefixOfRest(a: seq<byte>, b: seq<byte>, c: seq<byte>, d: seq<byte>)
    requires a + b <= c <= a + d
    ensures b <= d
  {
    assert a + b == (a + d)[..|a + b|];
    assert forall i :: 0 <= i < |b| ==> b[i] == (a + b)[|a| + i] == (a + d)[|a| + i] == d[i];
  }

  // ---- Every call of the receiver, whatever becomes of it ------------------------------------------

  /** One call: the piece it consumed and the packet it returned, if any. */
  ghost predicate HeardOne(c: seq<byte>, r: Option<seq<byte>>) {
    && BoundaryLast(c) && |c| <= NFCP_PACKET_BUFFER_SIZE
    && r == if IsCut(c, NFCP_PACKET_BUFFER_SIZE) then Decode(c) else None
  }

  ghost predicate Heard(pieces: seq<seq<byte>>, results: seq<Option<seq<byte>>>) {
    |pieces| == |results| && forall i :: 0 <= i < |pieces| ==> HeardOne(pieces[i], results[i])
  }

  /** A call that has time cuts a piece off, or has then read all that was waiting. */
  predicate AttentiveOne(c: seq<byte>, read: seq<byte>, waiting: seq<byte>, deadline: TickType, ticks: seq<TickType>) {
    HasTime(deadline, ticks) ==> IsCut(c, NFCP_PACKET_BUFFER_SIZE) || waiting <= read
  }

  ghost predicate Attentive(pieces: seq<seq<byte>>, waiting: seq<byte>, deadlines: seq<TickType>,
                            clock: seq<seq<TickType>>)
    requires |pieces| <= |deadlines| == |clock|
  {
    forall i :: 0 <= i < |pieces| ==>
      AttentiveOne(pieces[i], Concat(pieces[..i + 1]), waiting, deadlines[i], clock[i])
  }

  lemma {:induction false} AttentiveSnoc(pieces: seq<seq<byte>>, c: seq<byte>, waiting: seq<byte>,
                                         deadlines: seq<TickType>, clock: seq<seq<TickType>>)
    requires |pieces| < |deadlines| == |clock| && Attentive(pieces, waiting, deadlines, clock)
    requires AttentiveOne(c, Concat(pieces) + c, waiting, deadlines[|pieces|], clock[|pieces|])
    ensures Attentive(pieces + [c], waiting, deadlines, clock)
  {
    var all := pieces + [c];
    ConcatSnoc(pieces, c);
    assert all[..|all|] == all;
    forall i | 0 <= i < |pieces|
      ensures AttentiveOne(all[i], Concat(all[..i + 1]), waiting, deadlines[i], clock[i])
    {
      assert all[..i + 1] == pieces[..i + 1];
    }
  }

  /** One call of the receiver's loop, and what it returned. */
  method ListenOnce(ring: UartRx.Ring, buf: array<byte>, deadline: TickType, ticks: seq<TickType>,
                    ghost start: seq<byte>, ghost before: seq<byte>, ghost waiting: seq<byte>)
    returns (result: Option<seq<byte>>, ghost c: seq<byte>)
    requires ring.Valid() && ring.delimiter == Some(HDLC_FRAME_BOUNDARY) && ring.buf != buf
    requires buf.Length == NFCP_PACKET_BUFFER_SIZE
    requires ring.delivered == start + before && start + waiting <= ring.received
    modifies ring, ring.buf, buf
    ensures ring.Valid() && old(ring.received) <= ring.received
    ensures ring.delivered == start + (before + c) && HeardOne(c, result)
    ensures AttentiveOne(c, before + c, waiting, deadline, ticks)
  {
    var r;
    var used;
    r, c, used := RxPacket(ring, buf, NFCP_PACKET_BUFFER_SIZE, deadline, ticks);
    Associate(start, before, c);
    if HasTime(deadline, ticks) && !IsCut(c, NFCP_PACKET_BUFFER_SIZE) {
      assert ring.delivered == start + (before + c);
      PrefixOfRest(start, waiting, ring.delivered, before + c);
    }
    result := if r.Packet? then Some(buf[..r.len]) else None;
  }

  /** The receiver's loop: one call after the other, each with its own deadline; failures do not stop it. */
  method Listen(ring: UartRx.Ring, buf: array<byte>, deadlines: seq<TickType>, clock: seq<seq<TickType>>)
    returns (results: seq<Option<seq<byte>>>, ghost pieces: seq<seq<byte>>)
    requires ring.Valid() && ring.delimiter == Some(HDLC_FRAME_BOUNDARY) && ring.buf != buf
    requires buf.Length == NFCP_PACKET_BUFFER_SIZE && |deadlines| == |clock|
    modifies ring, ring.buf, buf
    ensures ring.Valid() && |results| == |clock| && Heard(pieces, results)
    ensures ring.delivered == old(ring.delivered) + Concat(pieces)
    ensures old(ring.received) <= ring.received && Attentive(pieces, old(ring.queue), deadlines, clock)
  {
    results, pieces := [], [];
    var i := 0;
    ghost var start, waiting := ring.delivered, ring.queue;
    while i < |clock|
      invariant 0 <= i == |results| <= |clock|
      invariant ring.Valid() && old(ring.received) <= ring.received && Heard(pieces, results)
      invariant ring.delivered == start + Concat(pieces)
      invariant Attentive(pieces, waiting, deadlines, clock)
    {
      var result;
      ghost var c;
      result, c := ListenOnce(ring, buf, deadlines[i], clock[i], start, Concat(pieces), waiting);
      ConcatSnoc(pieces, c);
      AttentiveSnoc(pieces, c, waiting, deadlines, clock);
      pieces := pieces + [c];
      results := results + [result];
      i := i + 1;
    }
  }

  /** The packets returned, in order. */
  function Returned(results: seq<Option<seq<byte>>>): seq<seq<byte>> {
    if results == [] then []
    else (if results[0].Some? then [results[0].value] else []) + Returned(results[1..])
  }

  /** A call that was not interrupted in the middle of a frame: it cut a piece off, or found nothing to read. */
  predicate Whole(c: seq<byte>) {
    c == [] || IsCut(c, NFCP_PACKET_BUFFER_SIZE)
  }

  ghost predicate AllWhole(pieces: seq<seq<byte>>) {
    forall i :: 0 <= i < |pieces| ==> Whole(pieces[i])
  }

  function Outcomes(frames: seq<seq<byte>>): (r: seq<Option<seq<byte>>>)
    ensures |r| == |frames|
  {
    seq(|frames|, i requires 0 <= i < |frames| => Decode(frames[i]))
  }

  /** The packets that frames decode to, in order; frames that are refused are left out. */
  function Decodings(frames: seq<seq<byte>>): seq<seq<byte>> {
    Returned(Outcomes(frames))
  }

  lemma {:induction false} AllReturned(results: seq<Option<seq<byte>>>, packets: seq<seq<byte>>)
    requires |results| == |packets| && forall i :: 0 <= i < |packets| ==> results[i] == Some(packets[i])
    ensures Returned(results) == packets
  {
    if packets != [] {
      AllReturned(results[1..], packets[1..]);
      assert packets == [packets[0]] + packets[1..];
    }
  }

  lemma {:induction false} DecodingsOfFrames(packets: seq<seq<byte>>)
    ensures Decodings(Frames(packets)) == packets
  {
    forall i | 0 <= i < |packets| ensures Outcomes(Frames(packets))[i] == Some(packets[i]) {
      DecodeFrame(packets[i]);
    }
    AllReturned(Outcomes(Frames(packets)), packets);
  }

  lemma OutcomesTail(frames: seq<seq<byte>>)
    requires frames != []
    ensures Outcomes(frames)[0] == Decode(frames[0]) && Outcomes(frames)[1..] == Outcomes(frames[1..])
  {
  }

  /** Two sequences of results that begin alike. */
  lemma {:induction false} ReturnedTail(results: seq<Option<seq<byte>>>, outcomes: seq<Option<seq<byte>>>)
    requires results != [] && outcomes != [] && results[0] == outcomes[0]
    ensures Returned(results[1..]) <= Returned(outcomes[1..]) ==> Returned(results) <= Returned(outcomes)
    ensures Returned(results[1..]) == Returned(outcomes[1..]) ==> Returned(results) == Returned(outcomes)
  {
  }

  lemma CancelPrefix(a: seq<byte>, b: seq<byte>, c: seq<byte>)
    requires a + b == a + c
    ensures b == c
  {
    assert b == (a + b)[|a|..];
    assert c == (a + c)[|a|..];
  }

  /** The first piece that is not empty is the first frame, and leaves the others in step. */
  lemma {:induction false} FirstFrame(pieces: seq<seq<byte>>, frames: seq<seq<byte>>)
    requires pieces != [] && IsCut(pieces[0], NFCP_PACKET_BUFFER_SIZE) && pieces[0] != [] && AllClosed(frames)
    requires Concat(pieces) <= Concat(frames)
    ensures frames != [] && pieces[0] == frames[0]
    ensures Concat(pieces[1..]) <= Concat(frames[1..])
    ensures Concat(pieces) == Concat(frames) ==> Concat(pieces[1..]) == Concat(frames[1..])
  {
    var f := frames[0];
    FirstCut(pieces[0], f, Concat(frames[1..]));
    PrefixOfRest(f, Concat(pieces[1..]), Concat(pieces), Concat(frames[1..]));
    if Concat(pieces) == Concat(frames) {
      CancelPrefix(f, Concat(pieces[1..]), Concat(frames[1..]));
    }
  }

  /** What uninterrupted calls return is what the frames say: in order, once each, and all of it if all was read. */
  lemma {:induction false} WholeDelivery(pieces: seq<seq<byte>>, results: seq<Option<seq<byte>>>,
                                         frames: seq<seq<byte>>)
    requires Heard(pieces, results) && AllWhole(pieces) && AllClosed(frames)
    requires Concat(pieces) <= Concat(frames)
    ensures Returned(results) <= Decodings(frames)
    ensures Concat(pieces) == Concat(frames) ==> Returned(results) == Decodings(frames)
    decreases |pieces|
  {
    if pieces == [] {
      assert frames != [] ==> |frames[0]| > 0;
    } else if pieces[0] == [] {
      assert Concat(pieces) == [] + Concat(pieces[1..]);
      WholeDelivery(pieces[1..], results[1..], frames);
    } else {
      FirstFrame(pieces, frames);
      assert HeardOne(pieces[0], results[0]);
      OutcomesTail(frames);
      WholeDelivery(pieces[1..], results[1..], frames[1..]);
      ReturnedTail(results, Outcomes(frames));
    }
  }

  lemma {:induction false} ConcatClosed(frames: seq<seq<byte>>)
    requires AllClosed(frames)
    ensures Concat(frames) == [] || EndsWithBoundary(Concat(frames))
  {
    if frames != [] {
      ConcatClosed(frames[1..]);
    }
  }

  lemma {:induction false} LastPieceEnds(pieces: seq<seq<byte>>)
    requires pieces != [] && pieces[|pieces| - 1] != []
    requires Concat(pieces) == [] || EndsWithBoundary(Concat(pieces))
    ensures EndsWithBoundary(pieces[|pieces| - 1])
  {
    var n := |pieces| - 1;
    var c := pieces[n];
    assert pieces == pieces[..n] + [c];
    ConcatSnoc(pieces[..n], c);
    assert c[|c| - 1] == Concat(pieces)[|Concat(pieces)| - 1];
  }

  /** When all that was sent has been consumed, the last call was not interrupted either. */
  lemma {:induction false} LastIsWhole(pieces: seq<seq<byte>>, results: seq<Option<seq<byte>>>,
                                       frames: seq<seq<byte>>)
    requires Heard(pieces, results) && AllClosed(frames) && Concat(pieces) == Concat(frames)
    requires pieces != [] && AllWhole(pieces[..|pieces| - 1])
    ensures AllWhole(pieces)
  {
    var n := |pieces| - 1;
    var c := pieces[n];
    ConcatClosed(frames);
    if c != [] {
      LastPieceEnds(pieces);
    }
    assert HeardOne(c, results[n]);
    forall i | 0 <= i < |pieces| ensures Whole(pieces[i]) {
      assert i < n ==> pieces[..n][i] == pieces[i];
    }
  }

  lemma {:induction false} AllRead(pieces: seq<seq<byte>>, results: seq<Option<seq<byte>>>, frames: seq<seq<byte>>)
    requires Heard(pieces, results) && AllClosed(frames) && Concat(pieces) == Concat(frames)
    requires pieces == [] || AllWhole(pieces[..|pieces| - 1])
    ensures Returned(results) == Decodings(frames)
  {
    if pieces != [] {
      LastIsWhole(pieces, results, frames);
    }
    WholeDelivery(pieces, results, frames);
  }

  // ---- Resynchronisation -------------------------------------------------------------------------

  ghost predicate BoundariesLast(pieces: seq<seq<byte>>) {
    forall i :: 0 <= i < |pieces| ==> BoundaryLast(pieces[i])
  }

  /**
   Whatever came before and however it was received (garbage, timeouts, overlong data), once a boundary
   has been consumed the receiver is between two pieces.
   */
  lemma {:induction false} BoundaryEndsPiece(pieces: seq<seq<byte>>, garbage: seq<byte>) returns (k: nat)
    requires BoundariesLast(pieces)
    requires garbage + [HDLC_FRAME_BOUNDARY] <= Concat(pieces)
    ensures k <= |pieces| && Concat(pieces[..k]) == garbage + [HDLC_FRAME_BOUNDARY]
  {
    var c, n := pieces[0], |garbage|;
    var s := Concat(pieces);
    assert s[n] == HDLC_FRAME_BOUNDARY && s[..n] == garbage;
    if n < |c| {
      assert c[n] == s[n];
      assert n == |c| - 1;
      k := 1;
      assert pieces[..1] == [c] && Concat([c]) == c + [];
      assert c == s[..n + 1];
    } else {
      var later := garbage[|c|..];
      assert s[|c|..] == Concat(pieces[1..]);
      assert later + [HDLC_FRAME_BOUNDARY] <= Concat(pieces[1..]);
      var j := BoundaryEndsPiece(pieces[1..], later);
      k := j + 1;
      assert pieces[..k][1..] == pieces[1..][..j];
      assert garbage == c + later;
    }
  }

  lemma {:induction false} ConcatSplit(pieces: seq<seq<byte>>, k: nat)
    requires k <= |pieces|
    ensures Concat(pieces) == Concat(pieces[..k]) + Concat(pieces[k..])
  {
    if k == 0 {
      assert pieces[0..] == pieces;
    } else {
      ConcatSplit(pieces[1..], k - 1);
      assert pieces[..k][1..] == pieces[1..][..k - 1];
      assert pieces[1..][k - 1..] == pieces[k..];
    }
  }

  /** What calls return that read the bytes `sent`, which amount to `packets`. */
  ghost predicate InStep(pieces: seq<seq<byte>>, results: seq<Option<seq<byte>>>, sent: seq<byte>,
                         packets: seq<seq<byte>>)
    requires |pieces| == |results|
  {
    // up to the first interrupted call, what is returned is what was sent
    && (forall m :: 0 <= m <= |pieces| && AllWhole(pieces[..m]) ==> Returned(results[..m]) <= packets)
    // and it is everything, once everything has been read and no call but the last was interrupted
    && (Concat(pieces) == sent && (pieces == [] || AllWhole(pieces[..|pieces| - 1])) ==> Returned(results) == packets)
  }

  lemma {:induction false} ReadInStep(pieces: seq<seq<byte>>, results: seq<Option<seq<byte>>>,
                                      frames: seq<seq<byte>>)
    requires Heard(pieces, results) && AllClosed(frames) && Concat(pieces) <= Concat(frames)
    ensures InStep(pieces, results, Concat(frames), Decodings(frames))
  {
    forall m | 0 <= m <= |pieces| && AllWhole(pieces[..m]) ensures Returned(results[..m]) <= Decodings(frames) {
      ConcatSplit(pieces, m);
      WholeDelivery(pieces[..m], results[..m], frames);
    }
    if Concat(pieces) == Concat(frames) && (pieces == [] || AllWhole(pieces[..|pieces| - 1])) {
      AllRead(pieces, results, frames);
    }
  }

  lemma {:induction false} HeardBoundaries(pieces: seq<seq<byte>>, results: seq<Option<seq<byte>>>)
    requires Heard(pieces, results)
    ensures BoundariesLast(pieces)
  {
    forall i | 0 <= i < |pieces| ensures BoundaryLast(pieces[i]) {
      assert HeardOne(pieces[i], results[i]);
    }
  }

  lemma {:induction false} BetweenPieces(pieces: seq<seq<byte>>, results: seq<Option<seq<byte>>>, before: seq<byte>)
    returns (k: nat)
    requires Heard(pieces, results) && (before == [] || EndsWithBoundary(before)) && before <= Concat(pieces)
    ensures k <= |pieces| && Concat(pieces[..k]) == before && (before == [] ==> k == 0)
  {
    if before == [] {
      k := 0;
    } else {
      HeardBoundaries(pieces, results);
      assert before == before[..|before| - 1] + [HDLC_FRAME_BOUNDARY];
      k := BoundaryEndsPiece(pieces, before[..|before| - 1]);
    }
  }

  /** Calls that read nothing but frames, from the k-th on. */
  lemma {:induction false} FramesBehind(pieces: seq<seq<byte>>, results: seq<Option<seq<byte>>>, k: nat,
                                        frames: seq<seq<byte>>)
    requires Heard(pieces, results) && AllClosed(frames)
    requires k <= |pieces| && Concat(pieces) <= Concat(pieces[..k]) + Concat(frames)
    ensures InStep(pieces[k..], results[k..], Concat(frames), Decodings(frames))
  {
    ConcatSplit(pieces, k);
    PrefixOfRest(Concat(pieces[..k]), Concat(pieces[k..]), Concat(pieces), Concat(frames));
    ReadInStep(pieces[k..], results[k..], frames);
  }

  /**
   Whatever was received before (nothing, or anything that ends in a boundary: garbage, overlong data, frames
   whose calls timed out), from there on the receiver returns exactly what the frames that follow decode to.
   */
  lemma {:induction false} Resynchronisation(pieces: seq<seq<byte>>, results: seq<Option<seq<byte>>>,
                                             before: seq<byte>, frames: seq<seq<byte>>) returns (k: nat)
    requires Heard(pieces, results) && AllClosed(frames) && (before == [] || EndsWithBoundary(before))
    requires before <= Concat(pieces) <= before + Concat(frames)
    ensures k <= |pieces| && Concat(pieces[..k]) == before && Concat(pieces) == before + Concat(pieces[k..])
    ensures before == [] ==> k == 0
    ensures InStep(pieces[k..], results[k..], Concat(frames), Decodings(frames))
  {
    k := BetweenPieces(pieces, results, before);
    ConcatSplit(pieces, k);
    FramesBehind(pieces, results, k, frames);
  }

  // ---- What waits in the ring is read --------------------------------------------------------------

  /** Every call has time. */
  ghost predicate AllHaveTime(deadlines: seq<TickType>, clock: seq<seq<TickType>>)
    requires |deadlines| == |clock|
  {
    forall i :: 0 <= i < |clock| ==> HasTime(deadlines[i], clock[i])
  }

  /** From the k-th call on, the calls take the frames one by one and return what they decode to. */
  ghost predicate Answered(pieces: seq<seq<byte>>, results: seq<Option<seq<byte>>>, k: nat, frames: seq<seq<byte>>)
    requires |pieces| == |results|
  {
    && k + |frames| <= |pieces|
    && forall i :: 0 <= i < |frames| ==> pieces[k + i] == frames[i] && results[k + i] == Decode(frames[i])
  }

  lemma {:induction false} ConcatPrefix(pieces: seq<seq<byte>>, k: nat)
    requires k < |pieces|
    ensures Concat(pieces[..k + 1]) == Concat(pieces[..k]) + pieces[k] <= Concat(pieces)
  {
    assert pieces[..k + 1] == pieces[..k] + [pieces[k]];
    ConcatSnoc(pieces[..k], pieces[k]);
    ConcatSplit(pieces, k + 1);
  }

  /** Calls that have time make progress until all that was waiting has been read. */
  lemma {:induction false} Progress(pieces: seq<seq<byte>>, k: nat, waiting: seq<byte>, deadlines: seq<TickType>,
                                    clock: seq<seq<TickType>>)
    requires k <= |pieces| <= |deadlines| == |clock| && AllHaveTime(deadlines, clock)
    requires Attentive(pieces, waiting, deadlines, clock)
    ensures k <= |Concat(pieces[..k])| || |waiting| <= |Concat(pieces[..k])|
  {
    if k > 0 {
      Progress(pieces, k - 1, waiting, deadlines, clock);
      ConcatPrefix(pieces, k - 1);
      assert HasTime(deadlines[k - 1], clock[k - 1]);
      assert AttentiveOne(pieces[k - 1], Concat(pieces[..k]), waiting, deadlines[k - 1], clock[k - 1]);
    }
  }

  lemma PrefixTrans(a: seq<byte>, b: seq<byte>, c: seq<byte>)
    requires a <= b <= c
    ensures a <= c
  {
  }

  /** Behind m frames that have been taken stands the next one. */
  lemma {:induction false} NextWaiting(pieces: seq<seq<byte>>, k: nat, frames: seq<seq<byte>>, m: nat,
                                       waiting: seq<byte>)
    requires k + m <= |pieces| && m < |frames| && pieces[k..k + m] == frames[..m]
    requires Concat(pieces[..k]) + Concat(frames) <= waiting
    ensures Concat(pieces[..k + m]) + frames[m] <= waiting
  {
    var before := pieces[..k + m];
    ConcatSplit(before, k);
    assert before[..k] == pieces[..k] && before[k..] == frames[..m];
    ConcatPrefix(frames, m);
    Associate(Concat(pieces[..k]), Concat(frames[..m]), frames[m]);
    PrefixTrans(Concat(pieces[..k + m]) + frames[m], Concat(pieces[..k]) + Concat(frames), waiting);
  }

  /** A closed piece that waits behind what n calls have read is what the next call takes. */
  lemma {:induction false} NextCall(pieces: seq<seq<byte>>, results: seq<Option<seq<byte>>>, n: nat, f: seq<byte>,
                                    all: seq<byte>, waiting: seq<byte>, deadlines: seq<TickType>,
                                    clock: seq<seq<TickType>>)
    requires Heard(pieces, results) && n < |pieces| == |deadlines| == |clock| && AllHaveTime(deadlines, clock)
    requires Attentive(pieces, waiting, deadlines, clock) && IsClosed(f)
    requires Concat(pieces) <= all && Concat(pieces[..n]) + f <= waiting <= all
    ensures pieces[n] == f && results[n] == Decode(f)
  {
    var before, c := Concat(pieces[..n]), pieces[n];
    ConcatPrefix(pieces, n);
    assert HasTime(deadlines[n], clock[n]);
    assert AttentiveOne(c, Concat(pieces[..n + 1]), waiting, deadlines[n], clock[n]);
    assert HeardOne(c, results[n]);
    NextPiece(before, c, f, all, NFCP_PACKET_BUFFER_SIZE);
  }

  lemma SliceSnoc(pieces: seq<seq<byte>>, k: nat, frames: seq<seq<byte>>, m: nat)
    requires k + m < |pieces| && m < |frames| && pieces[k..k + m] == frames[..m] && pieces[k + m] == frames[m]
    ensures pieces[k..k + m + 1] == frames[..m + 1]
  {
    assert pieces[k..k + m + 1] == pieces[k..k + m] + [pieces[k + m]] && frames[..m + 1] == frames[..m] + [frames[m]];
  }

  /** The calls that follow `before` take the waiting frames, the first m of them in m calls. */
  lemma {:induction false} TakeWaiting(pieces: seq<seq<byte>>, results: seq<Option<seq<byte>>>, k: nat,
                                       frames: seq<seq<byte>>, m: nat, all: seq<byte>, waiting: seq<byte>,
                                       deadlines: seq<TickType>, clock: seq<seq<TickType>>)
    requires Heard(pieces, results) && |pieces| == |deadlines| == |clock| && AllHaveTime(deadlines, clock)
    requires Attentive(pieces, waiting, deadlines, clock) && AllClosed(frames)
    requires k + m <= |pieces| && m <= |frames|
    requires Concat(pieces) <= all && Concat(pieces[..k]) + Concat(frames) <= waiting <= all
    ensures pieces[k..k + m] == frames[..m]
    decreases m
  {
    if m > 0 {
      var n: nat := m - 1;
      TakeWaiting(pieces, results, k, frames, n, all, waiting, deadlines, clock);
      NextWaiting(pieces, k, frames, n, waiting);
      NextCall(pieces, results, k + n, frames[n], all, waiting, deadlines, clock);
      SliceSnoc(pieces, k, frames, n);
    }
  }

  lemma TakenAnswered(pieces: seq<seq<byte>>, results: seq<Option<seq<byte>>>, k: nat, frames: seq<seq<byte>>)
    requires Heard(pieces, results) && AllClosed(frames)
    requires k + |frames| <= |pieces| && pieces[k..k + |frames|] == frames
    ensures Answered(pieces, results, k, frames)
  {
    forall i | 0 <= i < |frames| ensures pieces[k + i] == frames[i] && results[k + i] == Decode(frames[i]) {
      assert pieces[k + i] == pieces[k..k + |frames|][i];
      assert HeardOne(pieces[k + i], results[k + i]) && IsClosed(frames[i]);
    }
  }

  /**
   Closed frames that wait in the ring behind `before` are all returned by calls that have time: one call each, and
   no more than one for each byte before them.
   */
  lemma {:induction false} WaitingFrames(pieces: seq<seq<byte>>, results: seq<Option<seq<byte>>>, k: nat,
                                         frames: seq<seq<byte>>, all: seq<byte>, waiting: seq<byte>,
                                         deadlines: seq<TickType>, clock: seq<seq<TickType>>)
    requires Heard(pieces, results) && |pieces| == |deadlines| == |clock| && AllHaveTime(deadlines, clock)
    requires Attentive(pieces, waiting, deadlines, clock) && AllClosed(frames)
    requires k <= |pieces| && |Concat(pieces[..k])| + |frames| <= |pieces|
    requires Concat(pieces) <= all && Concat(pieces[..k]) + Concat(frames) <= waiting <= all
    ensures Answered(pieces, results, k, frames)
  {
    assert frames[..|frames|] == frames;
    if frames != [] {
      assert |frames[0]| > 0;
      Progress(pieces, k, waiting, deadlines, clock);
      TakeWaiting(pieces, results, k, frames, |frames|, all, waiting, deadlines, clock);
      TakenAnswered(pieces, results, k, frames);
    }
  }

  /** Enough calls that have time reach past whatever waits before the frames. */
  lemma {:induction false} ReachesPast(pieces: seq<seq<byte>>, before: seq<byte>, all: seq<byte>, waiting: seq<byte>,
                                       deadlines: seq<TickType>, clock: seq<seq<TickType>>)
    requires |before| <= |pieces| == |deadlines| == |clock| && AllHaveTime(deadlines, clock)
    requires Attentive(pieces, waiting, deadlines, clock)
    requires Concat(pieces) <= all && before <= waiting <= all
    ensures before <= Concat(pieces)
  {
    Progress(pieces, |pieces|, waiting, deadlines, clock);
    assert pieces[..|pieces|] == pieces;
    assert before == all[..|before|];
  }

  lemma {:induction false} Behind(start: seq<byte>, before: seq<byte>, sent: seq<byte>, read: seq<byte>)
    requires start + read <= start + before + sent && |before| <= |read|
    ensures before <= read <= before + sent
    ensures start + read == start + before + sent <==> read == before + sent
  {
    assert start + before + sent == start + (before + sent);
    PrefixOfRest(start, read, start + read, before + sent);
    assert before == (before + sent)[..|before|] == read[..|before|];
    if start + read == start + (before + sent) {
      CancelPrefix(start, read, before + sent);
    }
  }

  /** The frames wait behind `before`, and there are enough calls that have time. */
  ghost predicate Waits(waiting: seq<byte>, before: seq<byte>, frames: seq<seq<byte>>, deadlines: seq<TickType>,
                        clock: seq<seq<TickType>>)
    requires |deadlines| == |clock|
  {
    before + Concat(frames) <= waiting && AllHaveTime(deadlines, clock) && |before| + |frames| <= |clock|
  }

  /** Nothing but `before` and the frames has come in since `start`, and `before` has been read. */
  ghost predicate OnlyFrames(start: seq<byte>, before: seq<byte>, sent: seq<byte>, received: seq<byte>,
                             delivered: seq<byte>) {
    received <= start + before + sent && |start + before| <= |delivered|
  }

  /** What calls that begin with the `waiting` bytes in the ring return of the frames, from the k-th call on. */
  lemma {:induction false} FramesHeard(pieces: seq<seq<byte>>, results: seq<Option<seq<byte>>>, before: seq<byte>,
                                       frames: seq<seq<byte>>, start: seq<byte>, received: seq<byte>,
                                       waiting: seq<byte>, deadlines: seq<TickType>, clock: seq<seq<TickType>>)
    returns (k: nat)
    requires Heard(pieces, results) && |pieces| == |deadlines| == |clock|
    requires Attentive(pieces, waiting, deadlines, clock)
    requires AllClosed(frames) && (before == [] || EndsWithBoundary(before))
    requires start + Concat(pieces) <= received && start + waiting <= received
    ensures before == [] ==> k == 0
    ensures Waits(waiting, before, frames, deadlines, clock) ==>
      k <= |pieces| && Concat(pieces[..k]) == before && Answered(pieces, results, k, frames)
    ensures OnlyFrames(start, before, Concat(frames), received, start + Concat(pieces)) ==>
      && k <= |pieces| && Concat(pieces[..k]) == before
      && InStep(pieces[k..], results[k..], Concat(frames), Decodings(frames))
      && (start + Concat(pieces) == start + before + Concat(frames) ==> Concat(pieces[k..]) == Concat(frames))
  {
    var read, sent, all := Concat(pieces), Concat(frames), received[|start|..];
    assert received == start + all;
    PrefixOfRest(start, read, received, all);
    PrefixOfRest(start, waiting, received, all);
    if Waits(waiting, before, frames, deadlines, clock) {
      ReachesPast(pieces, before, all, waiting, deadlines, clock);
    }
    if OnlyFrames(start, before, sent, received, start + read) {
      Behind(start, before, sent, read);
    }
    k := 0;
    if before <= read {
      k := BetweenPieces(pieces, results, before);
      if Waits(waiting, before, frames, deadlines, clock) {
        WaitingFrames(pieces, results, k, frames, all, waiting, deadlines, clock);
      }
      if read <= before + sent {
        FramesBehind(pieces, results, k, frames);
      }
      if start + read == start + before + sent {
        ConcatSplit(pieces, k);
        Associate(start, before, sent);
        CancelPrefix(start, read, before + sent);
        CancelPrefix(before, Concat(pieces[k..]), sent);
      }
    }
  }

  /**
   End-to-end delivery of any closed frames that come in behind whatever `before` was: what they decode to is returned
   in order and once each, up to the first call that its deadline interrupts in the middle of a frame; and all of it,
   once all has been read.
   */
  method ReceiveFrames(ring: UartRx.Ring, buf: array<byte>, deadlines: seq<TickType>, clock: seq<seq<TickType>>,
                       ghost before: seq<byte>, ghost frames: seq<seq<byte>>)
    returns (results: seq<Option<seq<byte>>>, ghost pieces: seq<seq<byte>>, ghost k: nat)
    requires ring.Valid() && ring.delimiter == Some(HDLC_FRAME_BOUNDARY) && ring.buf != buf
    requires buf.Length == NFCP_PACKET_BUFFER_SIZE && |deadlines| == |clock|
    requires AllClosed(frames) && (before == [] || EndsWithBoundary(before))
    modifies ring, ring.buf, buf
    ensures ring.Valid() && Heard(pieces, results) && |results| == |clock|
    ensures ring.delivered == old(ring.delivered) + Concat(pieces)
    ensures
      var sent := old(ring.delivered) + before + Concat(frames);
      OnlyFrames(old(ring.delivered), before, Concat(frames), ring.received, ring.delivered) ==>
        && k <= |pieces| && Concat(pieces[..k]) == before
        && InStep(pieces[k..], results[k..], Concat(frames), Decodings(frames))
        && (ring.delivered == sent ==> Concat(pieces[k..]) == Concat(frames))
    ensures before == [] ==> k == 0
    // what waits in the ring when the calls start is all returned
    ensures Waits(old(ring.queue), before, frames, deadlines, clock) ==>
      k <= |pieces| && Concat(pieces[..k]) == before && Answered(pieces, results, k, frames)
  {
    ghost var start, waiting := ring.delivered, ring.queue;
    results, pieces := Listen(ring, buf, deadlines, clock);
    ring.DeliveredFirst();
    k := FramesHeard(pieces, results, before, frames, start, ring.received, waiting, deadlines, clock);
  }

  lemma {:induction false} FramesClosed(packets: seq<seq<byte>>)
    requires AllFit(packets)
    ensures AllClosed(Frames(packets))
  {
    forall i | 0 <= i < |packets| ensures IsClosed(Frames(packets)[i]) {
      FrameIsClosed(packets[i]);
    }
  }

  lemma {:induction false} PacketsAnswered(pieces: seq<seq<byte>>, results: seq<Option<seq<byte>>>, k: nat,
                                           packets: seq<seq<byte>>)
    requires |pieces| == |results| && Answered(pieces, results, k, Frames(packets))
    ensures forall i ::
      0 <= i < |packets| ==> pieces[k + i] == Frame(packets[i]) && results[k + i] == Some(packets[i])
  {
    forall i | 0 <= i < |packets|
      ensures pieces[k + i] == Frame(packets[i]) && results[k + i] == Some(packets[i])
    {
      assert Frames(packets)[i] == Frame(packets[i]);
      DecodeFrame(packets[i]);
    }
  }

  lemma {:induction false} PacketsHeard(pieces: seq<seq<byte>>, results: seq<Option<seq<byte>>>, before: seq<byte>,
                                        packets: seq<seq<byte>>, start: seq<byte>, received: seq<byte>,
                                        waiting: seq<byte>, deadlines: seq<TickType>, clock: seq<seq<TickType>>)
    returns (k: nat)
    requires Heard(pieces, results) && |pieces| == |deadlines| == |clock|
    requires Attentive(pieces, waiting, deadlines, clock)
    requires AllFit(packets) && (before == [] || EndsWithBoundary(before))
    requires start + Concat(pieces) <= received && start + waiting <= received
    requires Waits(waiting, before, Frames(packets), deadlines, clock)
    ensures (before == [] ==> k == 0) && k + |packets| <= |pieces| && Concat(pieces[..k]) == before
    ensures forall i ::
      0 <= i < |packets| ==> pieces[k + i] == Frame(packets[i]) && results[k + i] == Some(packets[i])
  {
    FramesClosed(packets);
    k := FramesHeard(pieces, results, before, Frames(packets), start, received, waiting, deadlines, clock);
    PacketsAnswered(pieces, results, k, packets);
  }

  /** In particular, packets that were sent are returned, in order and once each. */
  method ReceivePackets(ring: UartRx.Ring, buf: array<byte>, deadlines: seq<TickType>, clock: seq<seq<TickType>>,
                        ghost before: seq<byte>, ghost packets: seq<seq<byte>>)
    returns (results: seq<Option<seq<byte>>>, ghost pieces: seq<seq<byte>>, ghost k: nat)
    requires ring.Valid() && ring.delimiter == Some(HDLC_FRAME_BOUNDARY) && ring.buf != buf
    requires buf.Length == NFCP_PACKET_BUFFER_SIZE && |deadlines| == |clock|
    requires AllFit(packets) && (before == [] || EndsWithBoundary(before))
    modifies ring, ring.buf, buf
    ensures ring.Valid() && Heard(pieces, results) && |results| == |clock|
    ensures ring.delivered == old(ring.delivered) + Concat(pieces)
    ensures
      var sent := old(ring.delivered) + before + LinkBytes(packets);
      OnlyFrames(old(ring.delivered), before, LinkBytes(packets), ring.received, ring.delivered) ==>
        && k <= |pieces| && Concat(pieces[..k]) == before
        && InStep(pieces[k..], results[k..], LinkBytes(packets), packets)
        && (ring.delivered == sent ==> Concat(pieces[k..]) == LinkBytes(packets))
    // and those that wait in the ring when the calls start, whatever stands behind them, are all returned, one by each
    // call that has time, if there are as many calls as packets, and one more for each byte before them
    ensures before == [] ==> k == 0
    ensures Waits(old(ring.queue), before, Frames(packets), deadlines, clock) ==>
      && k + |packets| <= |pieces| && Concat(pieces[..k]) == before
      && forall i :: 0 <= i < |packets| ==> pieces[k + i] == Frame(packets[i]) && results[k + i] == Some(packets[i])
  {
    FramesClosed(packets);
    DecodingsOfFrames(packets);
    results, pieces, k := ReceiveFrames(ring, buf, deadlines, clock, before, Frames(packets));
    if Waits(old(ring.queue), before, Frames(packets), deadlines, clock) {
      PacketsAnswered(pieces, results, k, packets);
    }
  }

  // ---- Aborts ------------------------------------------------------------------------------------

  lemma {:induction false} EscapedEscape(f: seq<byte>)
    requires f == [HDLC_ESCAPE_CHAR, HDLC_ESCAPE_CHAR]
    ensures UnstuffBody(f) == Some([0x5d])
  {
    assert f[2..] == [];
    assert HDLC_ESCAPE_CHAR ^ HDLC_ESCAPE_BITS == 0x5d;
    assert [0x5d] + [] == [0x5d as byte];
  }

  lemma {:induction false} AbortedRestIs(partial: seq<byte>)
    requires HDLC_FRAME_BOUNDARY !in partial && TrailingEscapes(partial) % 2 == 1
    ensures UnstuffBody(partial[..|partial| - 1]).Some?
    ensures Unstuff(partial + NFCP_ABORT_SEQUENCE) == Some(UnstuffBody(partial[..|partial| - 1]).value + [0x5d])
  {
    var q := partial[..|partial| - 1];
    var two := [HDLC_ESCAPE_CHAR, HDLC_ESCAPE_CHAR];
    assert partial == q + [HDLC_ESCAPE_CHAR];
    assert (q + [HDLC_ESCAPE_CHAR])[..|q|] == q;
    RefusedIffDangling(q);
    assert CutBoundary(q + [HDLC_FRAME_BOUNDARY]) == q;
    UnstuffConcat(q, two);
    assert partial + NFCP_ABORT_SEQUENCE == (q + two) + [HDLC_FRAME_BOUNDARY];
    assert CutBoundary((q + two) + [HDLC_FRAME_BOUNDARY]) == q + two;
    EscapedEscape(two);
  }

  /**
   An abort sequence makes the receiver drop what it has so far, unless that ends inside an escape and, closed by
   the byte 0x5d, carries the right check bytes.
   */
  lemma {:induction false} AbortRefuses(partial: seq<byte>)
    requires HDLC_FRAME_BOUNDARY !in partial
    ensures TrailingEscapes(partial) % 2 == 1 ==> UnstuffBody(partial[..|partial| - 1]).Some?
    ensures Decode(partial + NFCP_ABORT_SEQUENCE).Some?
       <==> TrailingEscapes(partial) % 2 == 1
            && Accepted(UnstuffBody(partial[..|partial| - 1]).value + [0x5d], CRC16_POLY_CCITT)
  {
    if TrailingEscapes(partial) % 2 == 1 {
      AbortedRestIs(partial);
    } else {
      var f := partial + [HDLC_ESCAPE_CHAR];
      assert f[..|f| - 1] == partial;
      assert partial + NFCP_ABORT_SEQUENCE == f + [HDLC_FRAME_BOUNDARY];
      RefusedIffDangling(f);
    }
  }

  /** Such a partial packet: the abort that should discard it delivers it. */
  lemma {:induction false} AbortDelivers()
    ensures Decode([0xf2, 0xcf, 0x7d] + NFCP_ABORT_SEQUENCE) == Some([0xf2])
  {
    var s: seq<byte> := [0xf2, 0xcf, 0x5d];
    assert Crc16([0xf2], 0, 0x1021) == 0xcf5d by {
      FeedNext([0xf2], 0, 0xf2, 0x0000, 0xd1ef, 0xcf5d);
    }
    assert s[..1] == [0xf2] && s[1..] == [0xcf, 0x5d];
    var f: seq<byte> := [0xf2, 0xcf, 0x7d, 0x7d];
    assert [0xf2, 0xcf, 0x7d] + NFCP_ABORT_SEQUENCE == f + [HDLC_FRAME_BOUNDARY];
    assert CutBoundary(f + [HDLC_FRAME_BOUNDARY]) == f;
    assert f[1..][1..] == [0x7d, 0x7d];
    EscapedEscape([0x7d, 0x7d]);
    assert UnstuffBody(f) == Some([0xf2] + ([0xcf] + [0x5d]));
    assert [0xf2] + ([0xcf] + [0x5d]) == s;
  }
}
