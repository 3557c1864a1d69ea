/**
 The NFCP session machine: the task loop and reset of module/nfcp/nfcp.c with the SESSION_ID operation of
 module/nfcp/nfcp_cls_mgmt.c.
 */
module NfcpSession {
  import opened Basics
  import opened Hdlc
  import opened NfcpLink
  import UartRx
  import opened Ticks

  const NFCP_SESSION_TIMEOUT_TICKS: nat := 5000
  const NFCP_SESSION_ID_NONE: bv32 := 0
  const NFCP_CLS_MGMT: byte := 0
  const NFCP_CLS_CAP: byte := 1
  const NUM_OPS: byte := 4

  /** "NodeFlight test" */
  const VERSION_TAG: seq<byte> :=
    [0x4e, 0x6f, 0x64, 0x65, 0x46, 0x6c, 0x69, 0x67, 0x68, 0x74, 0x20, 0x74, 0x65, 0x73, 0x74]

  // ---- What goes out -----------------------------------------------------------------------------

  datatype Event =
    | Abort                                    // the abort sequence
    | Response(id: bv32, packet: seq<byte>)    // the answer to an accepted SESSION_ID request
    | Other(packet: seq<byte>)                 // any other packet

  function WireBytes(e: Event): seq<byte> {
    match e
    case Abort => NFCP_ABORT_SEQUENCE
    case Response(_, packet) => Frame(packet)
    case Other(packet) => Frame(packet)
  }

  function Pieces(trace: seq<Event>): (r: seq<seq<byte>>)
    ensures |r| == |trace|
  {
    seq(|trace|, i requires 0 <= i < |trace| => WireBytes(trace[i]))
  }

  predicate CarriesVersion(e: Event) {
    e.Response? && |e.packet| > 3
  }

  /** Id of the latest version-carrying response, unless an abort has been sent since. */
  function Latest(trace: seq<Event>): Option<bv32> {
    if trace == [] then None
    else
      var e := trace[|trace| - 1];
      if e.Abort? then None
      else if CarriesVersion(e) then Some(e.id)
      else Latest(trace[..|trace| - 1])
  }

  /** Each response carries the version exactly when it does not repeat the latest id, and only after an abort. */
  ghost predicate Disciplined(trace: seq<Event>) {
    forall k :: 0 <= k < |trace| && trace[k].Response? ==>
      if CarriesVersion(trace[k]) then Latest(trace[..k]) == None else Latest(trace[..k]) == Some(trace[k].id)
  }

  lemma {:induction false} DisciplinedSnoc(trace: seq<Event>, e: Event)
    requires Disciplined(trace)
    requires e.Response? ==> Latest(trace) == if CarriesVersion(e) then None else Some(e.id)
    ensures Disciplined(trace + [e])
  {
    var t := trace + [e];
    forall k | 0 <= k < |t| && t[k].Response?
      ensures if CarriesVersion(t[k]) then Latest(t[..k]) == None else Latest(t[..k]) == Some(t[k].id)
    {
      assert t[..k] == trace[..k];
      assert k == |trace| ==> trace[..k] == trace;
    }
  }

  lemma {:induction false} LatestSnoc(trace: seq<Event>, e: Event)
    ensures Latest(trace + [e]) ==
      if e.Abort? then None else if CarriesVersion(e) then Some(e.id) else Latest(trace)
  {
    assert (trace + [e])[..|trace|] == trace;
  }

  /** An abort lies strictly between the two positions. */
  ghost predicate AbortBetween(trace: seq<Event>, j: nat, k: nat) {
    exists i :: j < i < k && i < |trace| && trace[i].Abort?
  }

  /** Position `j` holds the latest version-carrying response before `k`, with no abort since. */
  ghost predicate OpenedAt(trace: seq<Event>, j: nat, k: nat) {
    && j < k <= |trace| && CarriesVersion(trace[j])
    && forall i :: j < i < k ==> !trace[i].Abort? && !CarriesVersion(trace[i])
  }

  ghost predicate AllAborted(trace: seq<Event>, k: nat)
    requires k <= |trace|
  {
    forall j: nat :: j < k && CarriesVersion(trace[j]) ==> AbortBetween(trace, j, k)
  }

  lemma AbortedNow(trace: seq<Event>, k: nat)
    requires 0 < k <= |trace| && trace[k - 1].Abort?
    ensures AllAborted(trace, k)
  {
    forall j: nat | j < k && CarriesVersion(trace[j]) ensures AbortBetween(trace, j, k) {
      assert j < k - 1 < k && trace[k - 1].Abort?;
    }
  }

  lemma AbortedStill(trace: seq<Event>, k: nat)
    requires 0 < k <= |trace| && AllAborted(trace, k - 1) && !CarriesVersion(trace[k - 1])
    ensures AllAborted(trace, k)
  {
    forall j: nat | j < k && CarriesVersion(trace[j]) ensures AbortBetween(trace, j, k) {
      assert AbortBetween(trace, j, k - 1);
    }
  }

  /** The position Latest speaks about, or none when every opened session has been aborted since. */
  lemma {:induction false} LatestPosition(trace: seq<Event>, k: nat) returns (j: Option<nat>)
    requires k <= |trace|
    ensures j.Some? ==> OpenedAt(trace, j.value, k) && Latest(trace[..k]) == Some(trace[j.value].id)
    ensures j.None? ==> Latest(trace[..k]) == None && AllAborted(trace, k)
  {
    if k == 0 {
      j := None;
    } else {
      var e := trace[k - 1];
      j := LatestPosition(trace, k - 1);
      assert trace[..k] == trace[..k - 1] + [e];
      LatestSnoc(trace[..k - 1], e);
      if e.Abort? {
        j := None;
        AbortedNow(trace, k);
      } else if CarriesVersion(e) {
        j := Some(k - 1);
      } else if j.None? {
        AbortedStill(trace, k);
      }
    }
  }

  /** Between any two version-carrying responses the peer has seen an abort sequence. */
  lemma VersionsSeparated(trace: seq<Event>, j: nat, k: nat)
    requires Disciplined(trace)
    requires j < k < |trace| && CarriesVersion(trace[j]) && CarriesVersion(trace[k])
    ensures AbortBetween(trace, j, k)
  {
    var p := LatestPosition(trace, k);
  }

  lemma OpenedOnce(trace: seq<Event>, i: nat, j: nat, k: nat)
    requires OpenedAt(trace, i, k) && OpenedAt(trace, j, k)
    ensures i == j
  {
  }

  /** A response is empty exactly when it repeats the id of the session opened last and not aborted since. */
  lemma EmptyIffRefresh(trace: seq<Event>, k: nat)
    requires Disciplined(trace) && k < |trace| && trace[k].Response?
    ensures !CarriesVersion(trace[k]) <==> exists j: nat :: OpenedAt(trace, j, k) && trace[j].id == trace[k].id
  {
    var p := LatestPosition(trace, k);
    if CarriesVersion(trace[k]) {
      forall j: nat ensures !OpenedAt(trace, j, k) {
        assert OpenedAt(trace, j, k) ==> AbortBetween(trace, j, k);
      }
    } else {
      assert OpenedAt(trace, p.value, k);
    }
  }

  /** What the peer decodes a sent piece to: nothing for an abort, the packet otherwise. */
  function Meaning(e: Event): Option<seq<byte>> {
    match e
    case Abort => None
    case Response(_, packet) => Some(packet)
    case Other(packet) => Some(packet)
  }

  /** However the peer's driver chops the wire up, its cuts are the sent pieces and decode to what they mean. */
  lemma {:induction false} PeerSees(trace: seq<Event>, cuts: seq<seq<byte>>)
    requires AllClosed(Pieces(trace)) && AllCuts(cuts) && Concat(cuts) <= Concat(Pieces(trace))
    ensures |cuts| <= |trace| && forall i :: 0 <= i < |cuts| ==> Decode(cuts[i]) == Meaning(trace[i])
  {
    CutsAreFrames(cuts, Pieces(trace));
    forall i | 0 <= i < |cuts| ensures Decode(cuts[i]) == Meaning(trace[i]) {
      assert cuts[i] == WireBytes(trace[i]);
      match trace[i] {
        case Abort =>
          AbortRefuses([]);
          assert [] + NFCP_ABORT_SEQUENCE == NFCP_ABORT_SEQUENCE;
        case Response(_, packet) => DecodeFrame(packet);
        case Other(packet) => DecodeFrame(packet);
      }
    }
  }

  // ---- Session expiry on a wrapping clock --------------------------------------------------------

  /** The loop's test at true time `t`, when the session was last refreshed at true time `last`. */
  predicate Expired(t: nat, last: nat) {
    SignedDiff(Tick(t), Tick(last + NFCP_SESSION_TIMEOUT_TICKS)) >= 0
  }

  lemma HalfRanges(gap: nat)
    ensures gap % TICK_RANGE < HALF_RANGE <==> (gap / HALF_RANGE) % 2 == 0
  {
    var q, r := gap / HALF_RANGE, gap % HALF_RANGE;
    SameResidue((q % 2) * HALF_RANGE + r, gap, q / 2);
  }

  /** The test agrees with unbounded time exactly in every other half of the counter's range. */
  lemma ExpiryExact(t: nat, last: nat)
    requires last <= t
    ensures (Expired(t, last) <==> t >= last + NFCP_SESSION_TIMEOUT_TICKS)
       <==> t < last + NFCP_SESSION_TIMEOUT_TICKS || ((t - last - NFCP_SESSION_TIMEOUT_TICKS) / HALF_RANGE) % 2 == 0
  {
    var end := last + NFCP_SESSION_TIMEOUT_TICKS;
    if t < end {
      SignedDiffTrue(t, end);
    } else {
      var gap := t - end;
      var k := t / TICK_RANGE - end / TICK_RANGE;
      SameResidue(Tick(t) - Tick(end), gap, k);
      HalfRanges(gap);
    }
  }

  /** A deadline that a reading of the clock has reached stays reached, for half the counter's range. */
  lemma {:induction false} DeadlinePassed(t: nat, last: nat)
    requires SignedDiff(Tick(last + NFCP_SESSION_TIMEOUT_TICKS), Tick(t)) <= 0 && last <= t
    ensures forall at :: t <= at < last + NFCP_SESSION_TIMEOUT_TICKS + HALF_RANGE ==> Expired(at, last)
  {
    var end := last + NFCP_SESSION_TIMEOUT_TICKS;
    if t < end {
      SignedDiffTrue(end, t);
    }
    forall at | t <= at < end + HALF_RANGE ensures Expired(at, last) {
      ExpiryExact(at, last);
    }
  }

  lemma TickPlus(t: nat, d: nat)
    ensures (Tick(t) + d) % TICK_RANGE == Tick(t + d)
  {
    SameResidue(Tick(t) + d, t + d, t / TICK_RANGE);
  }

  function PackU32(a: byte, b: byte, c: byte, d: byte): bv32 {
    (d as bv32) | ((c as bv32) << 8) | ((b as bv32) << 16) | ((a as bv32) << 24)
  }

  /** pack_to_u32 is big endian: shifting the value right gives back the bytes. */
  lemma PackU32Bytes(a: byte, b: byte, c: byte, d: byte)
    ensures var v := PackU32(a, b, c, d);
      v >> 24 == a as bv32 && (v >> 16) & 0xff == b as bv32 && (v >> 8) & 0xff == c as bv32 && v & 0xff == d as bv32
  {
  }

  function ResponsePacket(seqNr: byte, sendVersion: bool): seq<byte> {
    [0x03, 0x00, seqNr] + if sendVersion then VERSION_TAG else []
  }

  // ---- Headers and answers -----------------------------------------------------------------------

  const SESSION_ID: byte := 0
  const INVALID_CLASS: byte := 2
  const INVALID_OPERATION: byte := 3

  /** Whether the handler of an operation takes calls; the other handlers take informations. */
  predicate HandlesCall(class_: byte, operation: byte) {
    class_ == NFCP_CLS_CAP || operation == SESSION_ID
  }

  datatype Header = Header(class_: byte, operation: byte, isCall: bool, isResp: bool, seqNr: byte, size: nat)

  predicate HasHeader(p: seq<byte>) {
    |p| >= 2 && (p[0] & 0x02 != 0 ==> |p| >= 3)
  }

  function ParseHeader(p: seq<byte>): (h: Header)
    requires HasHeader(p)
    ensures h.size <= |p| && h.size == if h.isCall then 3 else 2
  {
    var isCall := p[0] & 0x02 != 0;
    Header((p[0] & 0xfc) >> 2, p[1], isCall, p[0] & 0x01 != 0,
           if isCall then p[2] else 0, if isCall then 3 else 2)
  }

  /** The first bytes of a packet with the given header. */
  function HeaderBytes(h: Header): seq<byte> {
    [(h.class_ << 2) | (if h.isCall then 0x02 else 0) | (if h.isResp then 0x01 else 0), h.operation]
    + if h.isCall then [h.seqNr] else []
  }

  lemma HeaderBits(class_: byte, flags: byte)
    requires class_ < 64 && flags < 4
    ensures (((class_ << 2) | flags) & 0xfc) >> 2 == class_
    ensures ((class_ << 2) | flags) & 0x02 == flags & 0x02
    ensures ((class_ << 2) | flags) & 0x01 == flags & 0x01
  {
  }

  /** What the task reads from a packet is the header that was put in front of it. */
  lemma HeaderRoundTrip(h: Header, payload: seq<byte>)
    requires h.class_ < 64 && h.size == (if h.isCall then 3 else 2) && (!h.isCall ==> h.seqNr == 0)
    ensures HasHeader(HeaderBytes(h) + payload) && ParseHeader(HeaderBytes(h) + payload) == h
  {
    var flags: byte := (if h.isCall then 0x02 else 0) | (if h.isResp then 0x01 else 0);
    HeaderBits(h.class_, flags);
    assert (h.class_ << 2) | flags == HeaderBytes(h)[0];
  }

  /** The management information that reports a packet nobody handles. */
  function Notice(kind: byte, h: Header): (r: seq<byte>)
    ensures |r| == 5
  {
    var flags: byte := (if h.isCall then 0x02 else 0) | (if h.isResp then 0x01 else 0);
    [NFCP_CLS_MGMT << 2, kind, (h.class_ << 2) | flags, h.operation, h.seqNr]
  }

  /** A packet that nfcp_cls_op_session_id accepts. */
  predicate IsSessionRequest(p: seq<byte>) {
    && |p| == 7 && HasHeader(p)
    && (var h := ParseHeader(p); h.class_ == NFCP_CLS_MGMT && h.operation == SESSION_ID && h.isCall)
    && PackU32(p[3], p[4], p[5], p[6]) != NFCP_SESSION_ID_NONE
  }

  function AnswersTo(h: Header, capReply: Option<seq<byte>>): seq<seq<byte>> {
    if h.class_ != NFCP_CLS_MGMT && h.class_ != NFCP_CLS_CAP then [Notice(INVALID_CLASS, h)]
    else if h.operation >= NUM_OPS || h.isCall != HandlesCall(h.class_, h.operation) then
      [Notice(INVALID_OPERATION, h)]
    else if h.class_ == NFCP_CLS_CAP && capReply.Some? then [capReply.value]
    else []
  }

  /** The response to an accepted request repeats its class, operation and sequence number, marked as a response. */
  lemma ResponseMatchesRequest(p: seq<byte>, sendVersion: bool)
    requires IsSessionRequest(p)
    ensures var r := ResponsePacket(ParseHeader(p).seqNr, sendVersion);
      HasHeader(r) && ParseHeader(r) == ParseHeader(p).(isResp := true)
  {
    var h := ParseHeader(p).(isResp := true);
    assert HeaderBytes(h) == [0x03, 0x00, h.seqNr];
    HeaderRoundTrip(h, if sendVersion then VERSION_TAG else []);
  }

  /** The packets with which the device answers a packet that opens or refreshes no session. */
  function Answers(p: seq<byte>, capReply: Option<seq<byte>>): seq<seq<byte>> {
    if HasHeader(p) then AnswersTo(ParseHeader(p), capReply) else []
  }

  /** A header and a length that make a request for session `id`. */
  predicate Opens(h: Header, length: nat, id: bv32) {
    && h.class_ == NFCP_CLS_MGMT && h.operation == SESSION_ID && h.isCall
    && length == h.size + 4 && id != NFCP_SESSION_ID_NONE
  }

  lemma OpensIff(p: seq<byte>)
    requires HasHeader(p)
    ensures IsSessionRequest(p) <==> |p| == 7 && Opens(ParseHeader(p), 7, PackU32(p[3], p[4], p[5], p[6]))
    ensures forall id :: Opens(ParseHeader(p), |p|, id) ==> |p| == 7
    ensures ParseHeader(p).isCall ==> |p| >= 3 && ParseHeader(p).seqNr == p[2] && ParseHeader(p).size == 3
  {
  }

  lemma RequestBits(b: byte, w: byte, x: byte, y: byte, z: byte)
    ensures (b & 0xfc) >> 2 == NFCP_CLS_MGMT && b & 0x02 != 0 <==> b & 0xfe == 0x02
    ensures PackU32(w, x, y, z) == NFCP_SESSION_ID_NONE <==> w == x == y == z == 0
  {
  }

  /** The requests, byte by byte; whether one is marked as a response makes no difference. */
  lemma RequestsAre(p: seq<byte>)
    ensures IsSessionRequest(p) <==>
      |p| == 7 && p[0] & 0xfe == 0x02 && p[1] == 0x00 && !(p[3] == p[4] == p[5] == p[6] == 0x00)
  {
    if |p| == 7 {
      RequestBits(p[0], p[3], p[4], p[5], p[6]);
    }
  }

  lemma HeaderByte(b: byte)
    ensures (((b & 0xfc) >> 2) << 2) | ((if b & 0x02 != 0 then 0x02 else 0) | (if b & 0x01 != 0 then 0x01 else 0)) == b
    ensures (b & 0xfc) >> 2 > 1 <==> b >= 0x08
    ensures b < 0x08 ==> ((b & 0xfc) >> 2 == 1 <==> b >= 0x04)
  {
  }

  /**
   The answers, byte by byte: a packet of a class other than 0 and 1, or of an operation that is not there or is called
   the wrong way, is reported to its sender with the header it had.
   */
  lemma AnswersAre(p: seq<byte>, capReply: Option<seq<byte>>)
    ensures Answers(p, capReply) ==
      if |p| < 2 || (p[0] & 0x02 != 0 && |p| < 3) then []
      else
        var isCall := p[0] & 0x02 != 0;
        var takesCall := 0x04 <= p[0] < 0x08 || p[1] == 0x00;
        var seqNr := if isCall then p[2] else 0x00;
        if p[0] >= 0x08 then [[0x00, 0x02, p[0], p[1], seqNr]]
        else if p[1] >= 4 || isCall != takesCall then [[0x00, 0x03, p[0], p[1], seqNr]]
        else if p[0] >= 0x04 && capReply.Some? then [capReply.value]
        else []
  {
    if p != [] {
      HeaderByte(p[0]);
    }
  }

  function Others(packets: seq<seq<byte>>): seq<Event> {
    seq(|packets|, i requires 0 <= i < |packets| => Other(packets[i]))
  }

  lemma OthersOfOne(trace: seq<Event>, p: seq<byte>)
    ensures Others([p]) == [Other(p)]
    ensures trace + Others([]) == trace
  {
  }

  lemma NoticeByte(b: byte)
    requires b == NFCP_CLS_MGMT << 2
    ensures b & 0x02 == 0 && (b & 0xfc) >> 2 == NFCP_CLS_MGMT
  {
  }

  /** Two devices never answer each other's notices: a notice of either kind goes unanswered. */
  lemma NoticesEndThere(kind: byte, h: Header, capReply: Option<seq<byte>>)
    requires kind == INVALID_CLASS || kind == INVALID_OPERATION
    ensures Answers(Notice(kind, h), capReply) == [] && !IsSessionRequest(Notice(kind, h))
  {
    NoticeByte(Notice(kind, h)[0]);
  }

  // ---- The machine -------------------------------------------------------------------------------

  function Total(delays: seq<nat>): nat {
    if delays == [] then 0 else Total(delays[..|delays| - 1]) + delays[|delays| - 1]
  }

  /** The counter values read at a time `start` and after each of the delays that follow. */
  function Readings(start: nat, delays: seq<nat>): (ticks: seq<TickType>)
    ensures |ticks| == |delays|
  {
    seq(|delays|, i requires 0 <= i < |delays| => Tick(start + Total(delays[..i + 1])))
  }

  lemma ReadingAt(start: nat, delays: seq<nat>, i: nat)
    requires i < |delays|
    ensures Readings(start, delays)[i] == Tick(start + Total(delays[..i + 1]))
  {
  }

  /** A reading that true time puts before the session's end is one before the receiver's deadline. */
  lemma FirstReading(start: nat, delays: seq<nat>, refreshed: nat)
    requires delays != [] && refreshed <= start && start + delays[0] < refreshed + NFCP_SESSION_TIMEOUT_TICKS
    ensures HasTime(Tick(refreshed + NFCP_SESSION_TIMEOUT_TICKS), Readings(start, delays))
  {
    ReadingAt(start, delays, 0);
    assert delays[..1] == [delays[0]] && [delays[0]][..0] == [];
    SignedDiffTrue(refreshed + NFCP_SESSION_TIMEOUT_TICKS, start + delays[0]);
  }

  // ---- What a pass of the task loop must do ------------------------------------------------------

  /** The id that a SESSION_ID request asks for. */
  function RequestOf(p: seq<byte>): bv32
    requires IsSessionRequest(p)
  {
    PackU32(p[3], p[4], p[5], p[6])
  }

  /** The session open after the timeout check. */
  function Checked(expired: bool, open: bv32): bv32 {
    if expired then NFCP_SESSION_ID_NONE else open
  }

  /** The session a pass leaves open, with `open` before it. */
  function SessionAfter(expired: bool, open: bv32, packet: Option<seq<byte>>): bv32 {
    if packet.Some? && IsSessionRequest(packet.value) then RequestOf(packet.value) else Checked(expired, open)
  }

  /** What is sent in answer to a packet, with session `open`. */
  function AnswersIn(open: bv32, p: seq<byte>, capReply: Option<seq<byte>>): seq<Event> {
    if !IsSessionRequest(p) then Others(Answers(p, capReply))
    else
      var id := RequestOf(p);
      (if open != NFCP_SESSION_ID_NONE && open != id then [Abort] else [])
      + [Response(id, ResponsePacket(p[2], open != id))]
  }

  /** Everything a pass sends. */
  function PassSends(expired: bool, open: bv32, packet: Option<seq<byte>>, capReply: Option<seq<byte>>): seq<Event> {
    (if expired then [Abort] else [])
    + if packet.Some? then AnswersIn(Checked(expired, open), packet.value, capReply) else []
  }

  /** A pass of the task loop. */
  datatype Pass = Pass(
    consumed: seq<byte>,  // what the receiver took off the ring
    gaveUp: bool,         // whether it returned at the deadline
    start: nat,           // when it was called
    refreshed: nat,       // when the session had last been refreshed
    before: bv32,         // the session open then
    at: nat,              // when the check read the clock
    sent: seq<Event>,
    after: bv32,          // the session left open
    renewed: nat,         // when the session was last refreshed then
    accepted: nat)        // when the last accepted request refreshed it

  /** The packet that the receiver returned. */
  function Received(p: Pass): Option<seq<byte>> {
    if IsCut(p.consumed, NFCP_PACKET_BUFFER_SIZE) then Decode(p.consumed) else None
  }

  /**
   A pass whose check comes in time leaves no session open whose last accepted request is 5000 ticks old, and none
   at all if the receiver gave up at the deadline.
   */
  predicate InTime(p: Pass) {
    p.after != NFCP_SESSION_ID_NONE && p.at < p.refreshed + NFCP_SESSION_TIMEOUT_TICKS + HALF_RANGE ==>
      p.at < p.accepted + NFCP_SESSION_TIMEOUT_TICKS && !p.gaveUp
  }

  /** A pass refreshes the session exactly if it had expired or a request is accepted. */
  predicate Renewed(expired: bool, at: nat, packet: Option<seq<byte>>, refreshed: nat, renewed: nat, accepted: nat) {
    if packet.Some? && IsSessionRequest(packet.value) then at <= renewed == accepted
    else if expired then at <= renewed
    else renewed == refreshed
  }

  /** The pass did what the packet it received and its check of the clock ask for. */
  predicate Honest(p: Pass, capReply: Option<seq<byte>>) {
    && BoundaryLast(p.consumed) && |p.consumed| <= NFCP_PACKET_BUFFER_SIZE
    && p.refreshed <= p.start <= p.at && InTime(p)
    && p.sent == PassSends(Expired(p.at, p.refreshed), p.before, Received(p), capReply)
    && p.after == SessionAfter(Expired(p.at, p.refreshed), p.before, Received(p))
    && Renewed(Expired(p.at, p.refreshed), p.at, Received(p), p.refreshed, p.renewed, p.accepted)
  }

  lemma HonestPass(p: Pass, packet: Option<seq<byte>>, capReply: Option<seq<byte>>)
    requires BoundaryLast(p.consumed) && |p.consumed| <= NFCP_PACKET_BUFFER_SIZE && packet == Received(p)
    requires p.refreshed <= p.start <= p.at
    requires p.sent == PassSends(Expired(p.at, p.refreshed), p.before, packet, capReply)
    requires p.after == SessionAfter(Expired(p.at, p.refreshed), p.before, packet)
    requires p.at < p.refreshed + NFCP_SESSION_TIMEOUT_TICKS + HALF_RANGE && p.after != NFCP_SESSION_ID_NONE ==>
      p.at < p.accepted + NFCP_SESSION_TIMEOUT_TICKS
    requires Renewed(Expired(p.at, p.refreshed), p.at, packet, p.refreshed, p.renewed, p.accepted)
    requires p.gaveUp ==> packet == None
    requires p.gaveUp && p.at < p.refreshed + NFCP_SESSION_TIMEOUT_TICKS + HALF_RANGE ==> Expired(p.at, p.refreshed)
    ensures Honest(p, capReply)
    ensures p.gaveUp && p.at < p.refreshed + NFCP_SESSION_TIMEOUT_TICKS + HALF_RANGE ==> p.sent == [Abort]
  {
  }

  /**
   A pass that receives a session request opens or refreshes that session and answers it: with the version exactly if
   the session was not open any more, and behind an abort exactly if one had to be closed or had expired.
   */
  lemma RequestAnswered(p: Pass, q: seq<byte>, capReply: Option<seq<byte>>)
    requires Honest(p, capReply) && Received(p) == Some(q) && IsSessionRequest(q)
    ensures
      var id := PackU32(q[3], q[4], q[5], q[6]);
      var expired := Expired(p.at, p.refreshed);
      && p.after == id && p.at <= p.renewed == p.accepted
      && p.sent == (if expired || (p.before != NFCP_SESSION_ID_NONE && p.before != id) then [Abort] else [])
                   + [Response(id, [0x03, 0x00, q[2]] + if expired || p.before != id then VERSION_TAG else [])]
  {
  }

  // ---- Runs of the task loop ---------------------------------------------------------------------

  function Consumed(passes: seq<Pass>): (r: seq<seq<byte>>)
    ensures |r| == |passes|
  {
    seq(|passes|, i requires 0 <= i < |passes| => passes[i].consumed)
  }

  function AllReceived(passes: seq<Pass>): (r: seq<Option<seq<byte>>>)
    ensures |r| == |passes|
  {
    seq(|passes|, i requires 0 <= i < |passes| => Received(passes[i]))
  }

  function SentBy(passes: seq<Pass>): seq<Event> {
    if passes == [] then [] else SentBy(passes[..|passes| - 1]) + passes[|passes| - 1].sent
  }

  /** The deadline of each call of the receiver. */
  function Deadlines(passes: seq<Pass>): (r: seq<TickType>)
    ensures |r| == |passes|
  {
    seq(|passes|, i requires 0 <= i < |passes| => Tick(passes[i].refreshed + NFCP_SESSION_TIMEOUT_TICKS))
  }

  /** The readings of the clock each of them makes. */
  function Clock(passes: seq<Pass>, delays: seq<seq<nat>>): (r: seq<seq<TickType>>)
    requires |passes| <= |delays|
    ensures |r| == |passes|
  {
    seq(|passes|, i requires 0 <= i < |passes| => Readings(passes[i].start, delays[i]))
  }

  /** The session a pass starts with is the one the pass before it left; the first starts after a reset. */
  ghost predicate Chained(passes: seq<Pass>) {
    forall i :: 0 <= i < |passes| ==>
      if i == 0 then passes[i].before == NFCP_SESSION_ID_NONE
      else passes[i].before == passes[i - 1].after && passes[i].refreshed == passes[i - 1].renewed
  }

  ghost predicate AllHonest(passes: seq<Pass>, capReplies: seq<Option<seq<byte>>>) {
    |passes| <= |capReplies| && forall i :: 0 <= i < |passes| ==> Honest(passes[i], capReplies[i])
  }

  /** What holds of the passes made so far, with `waiting` in the ring when the first began. */
  ghost predicate TaskRun(passes: seq<Pass>, delays: seq<seq<nat>>, capReplies: seq<Option<seq<byte>>>,
                          waiting: seq<byte>) {
    && |passes| <= |delays| && AllHonest(passes, capReplies) && Chained(passes)
    && Attentive(Consumed(passes), waiting, Deadlines(passes), Clock(passes, delays))
  }

  /** What the passes have left: the session, and when it was last refreshed. */
  ghost predicate LeftBy(passes: seq<Pass>, open: bv32, refreshed: nat) {
    if passes == [] then open == NFCP_SESSION_ID_NONE
    else var last := passes[|passes| - 1]; open == last.after && refreshed == last.renewed
  }

  lemma {:induction false} AttentiveFirst(pieces: seq<seq<byte>>, waiting: seq<byte>, deadlines: seq<TickType>,
                                          clock: seq<seq<TickType>>)
    requires |pieces| <= |deadlines| == |clock|
    requires Attentive(pieces, waiting, deadlines[..|pieces|], clock[..|pieces|])
    ensures Attentive(pieces, waiting, deadlines, clock)
  {
    var d, c := deadlines[..|pieces|], clock[..|pieces|];
    forall i | 0 <= i < |pieces|
      ensures AttentiveOne(pieces[i], Concat(pieces[..i + 1]), waiting, deadlines[i], clock[i])
    {
      assert d[i] == deadlines[i] && c[i] == clock[i];
    }
  }

  lemma {:induction false} AttentivePass(passes: seq<Pass>, p: Pass, delays: seq<seq<nat>>, waiting: seq<byte>)
    requires |passes| < |delays|
    requires Attentive(Consumed(passes), waiting, Deadlines(passes), Clock(passes, delays))
    requires AttentiveOne(p.consumed, Concat(Consumed(passes)) + p.consumed, waiting,
                          Tick(p.refreshed + NFCP_SESSION_TIMEOUT_TICKS), Readings(p.start, delays[|passes|]))
    ensures Attentive(Consumed(passes + [p]), waiting, Deadlines(passes + [p]), Clock(passes + [p], delays))
    ensures Concat(Consumed(passes + [p])) == Concat(Consumed(passes)) + p.consumed
  {
    var d, c := Deadlines(passes + [p]), Clock(passes + [p], delays);
    assert d[..|passes|] == Deadlines(passes) && c[..|passes|] == Clock(passes, delays);
    AttentiveFirst(Consumed(passes), waiting, d, c);
    assert Consumed(passes + [p]) == Consumed(passes) + [p.consumed];
    AttentiveSnoc(Consumed(passes), p.consumed, waiting, d, c);
    ConcatSnoc(Consumed(passes), p.consumed);
  }

  lemma HonestSnoc(passes: seq<Pass>, p: Pass, capReplies: seq<Option<seq<byte>>>)
    requires AllHonest(passes, capReplies) && |passes| < |capReplies| && Honest(p, capReplies[|passes|])
    ensures AllHonest(passes + [p], capReplies)
  {
    forall i | 0 <= i < |passes| + 1 ensures Honest((passes + [p])[i], capReplies[i]) {
      assert i < |passes| ==> (passes + [p])[i] == passes[i];
    }
  }

  lemma ChainedSnoc(passes: seq<Pass>, p: Pass)
    requires Chained(passes) && LeftBy(passes, p.before, p.refreshed)
    ensures Chained(passes + [p])
  {
  }

  lemma {:induction false} TaskRunSnoc(passes: seq<Pass>, p: Pass, delays: seq<seq<nat>>,
                                       capReplies: seq<Option<seq<byte>>>, waiting: seq<byte>)
    requires TaskRun(passes, delays, capReplies, waiting) && |passes| < |delays| == |capReplies|
    requires Honest(p, capReplies[|passes|]) && LeftBy(passes, p.before, p.refreshed)
    requires AttentiveOne(p.consumed, Concat(Consumed(passes)) + p.consumed, waiting,
                          Tick(p.refreshed + NFCP_SESSION_TIMEOUT_TICKS), Readings(p.start, delays[|passes|]))
    ensures TaskRun(passes + [p], delays, capReplies, waiting)
    ensures Concat(Consumed(passes + [p])) == Concat(Consumed(passes)) + p.consumed
    ensures SentBy(passes + [p]) == SentBy(passes) + p.sent
  {
    AttentivePass(passes, p, delays, waiting);
    HonestSnoc(passes, p, capReplies);
    ChainedSnoc(passes, p);
    assert (passes + [p])[..|passes|] == passes;
  }

  /** Each pass calls the receiver, and its clock is first read, before the session ends. */
  ghost predicate OnTime(passes: seq<Pass>, delays: seq<seq<nat>>)
    requires |passes| <= |delays|
  {
    forall i :: 0 <= i < |passes| ==>
      delays[i] != [] && passes[i].start + delays[i][0] < passes[i].refreshed + NFCP_SESSION_TIMEOUT_TICKS
  }

  /** The pass takes the frame of a packet and does what that packet asks for. */
  predicate ServedOne(p: Pass, packet: seq<byte>, capReply: Option<seq<byte>>) {
    var expired := Expired(p.at, p.refreshed);
    && p.consumed == Frame(packet)
    && p.sent == PassSends(expired, p.before, Some(packet), capReply)
    && p.after == SessionAfter(expired, p.before, Some(packet))
  }

  /** The i-th pass serves the i-th packet. */
  ghost predicate Served(passes: seq<Pass>, packets: seq<seq<byte>>, capReplies: seq<Option<seq<byte>>>) {
    && |packets| <= |passes| <= |capReplies|
    && forall i :: 0 <= i < |packets| ==> ServedOne(passes[i], packets[i], capReplies[i])
  }

  lemma {:induction false} PassesHeard(passes: seq<Pass>, delays: seq<seq<nat>>, capReplies: seq<Option<seq<byte>>>)
    requires AllHonest(passes, capReplies) && |passes| <= |delays| && OnTime(passes, delays)
    ensures Heard(Consumed(passes), AllReceived(passes))
    ensures AllHaveTime(Deadlines(passes), Clock(passes, delays))
  {
    forall i | 0 <= i < |passes| ensures HeardOne(Consumed(passes)[i], AllReceived(passes)[i]) {
      assert Honest(passes[i], capReplies[i]);
    }
    forall i | 0 <= i < |passes| ensures HasTime(Deadlines(passes)[i], Clock(passes, delays)[i]) {
      assert Honest(passes[i], capReplies[i]);
      FirstReading(passes[i].start, delays[i], passes[i].refreshed);
    }
  }

  lemma ServesPacket(p: Pass, packet: seq<byte>, capReply: Option<seq<byte>>)
    requires Honest(p, capReply) && p.consumed == Frame(packet) && Received(p) == Some(packet)
    ensures ServedOne(p, packet, capReply)
  {
  }

  /** Packets whose frames wait in the ring are served one by one, whatever stands behind them. */
  lemma {:induction false} WaitingServed(passes: seq<Pass>, delays: seq<seq<nat>>, capReplies: seq<Option<seq<byte>>>,
                                         packets: seq<seq<byte>>, start: seq<byte>, received: seq<byte>,
                                         waiting: seq<byte>)
    requires TaskRun(passes, delays, capReplies, waiting) && OnTime(passes, delays)
    requires AllFit(packets) && |packets| <= |passes| && LinkBytes(packets) <= waiting
    requires start + Concat(Consumed(passes)) <= received && start + waiting <= received
    ensures Served(passes, packets, capReplies)
  {
    PassesHeard(passes, delays, capReplies);
    var k := PacketsHeard(Consumed(passes), AllReceived(passes), [], packets, start, received, waiting,
                          Deadlines(passes), Clock(passes, delays));
    assert [] + LinkBytes(packets) == LinkBytes(packets);
    forall i | 0 <= i < |packets| ensures ServedOne(passes[i], packets[i], capReplies[i]) {
      assert Consumed(passes)[k + i] == passes[i].consumed && AllReceived(passes)[k + i] == Received(passes[i]);
      ServesPacket(passes[i], packets[i], capReplies[i]);
    }
  }

  class Nfcp {
    var sessionId: bv32           // storage of the management class
    var sessionEndTime: TickType
    const rxBuffer: array<byte>
    const txBuffer: array<byte>
    var wire: seq<byte>           // everything written to the serial port
    var now: nat                  // true time; the tick counter shows Tick(now)

    ghost var trace: seq<Event>   // what was written, piece by piece
    ghost var refreshed: nat      // true time of the last nfcp_refresh_session
    ghost var accepted: nat       // true time at which the last accepted SESSION_ID request refreshed the session

    /** What holds from the start, before the first reset has initialised the session. */
    ghost predicate Ready()
      reads this
    {
      && rxBuffer.Length == txBuffer.Length == NFCP_PACKET_BUFFER_SIZE && rxBuffer != txBuffer
      && Disciplined(trace)
      && wire == Concat(Pieces(trace)) && AllClosed(Pieces(trace))
    }

    ghost predicate Valid()
      reads this
    {
      && Ready()
      && Latest(trace) == (if sessionId == NFCP_SESSION_ID_NONE then None else Some(sessionId))
      && refreshed <= now && sessionEndTime == Tick(refreshed + NFCP_SESSION_TIMEOUT_TICKS)
      && (sessionId != NFCP_SESSION_ID_NONE ==> refreshed == accepted)
    }

    constructor (memory: bv32)
      ensures Ready() && fresh(rxBuffer) && fresh(txBuffer) && trace == [] && sessionId == memory
    {
      sessionId := memory;
      sessionEndTime := 0;
      rxBuffer := new byte[NFCP_PACKET_BUFFER_SIZE];
      txBuffer := new byte[NFCP_PACKET_BUFFER_SIZE];
      wire, now := [], 0;
      trace, refreshed, accepted := [], 0, 0;
    }

    /** xTaskGetTickCount: any amount of time may have passed. */
    method ReadTick() returns (t: TickType)
      modifies this`now
      ensures old(now) <= now && t == Tick(now)
    {
      var passed: int := *;
      if passed > 0 {
        now := now + passed;
      }
      t := Tick(now);
    }

    lemma PiecesSnoc(trace: seq<Event>, e: Event)
      requires IsClosed(WireBytes(e)) && AllClosed(Pieces(trace))
      ensures AllClosed(Pieces(trace + [e]))
      ensures Concat(Pieces(trace + [e])) == Concat(Pieces(trace)) + WireBytes(e)
    {
      assert Pieces(trace + [e]) == Pieces(trace) + [WireBytes(e)];
      ConcatSnoc(Pieces(trace), WireBytes(e));
    }

    /** nfcp_tx_packet on the transmit buffer. */
    method SendPacket(length: nat, ghost e: Event)
      requires Ready() && length + 2 <= txBuffer.Length && |Frame(txBuffer[..length])| <= txBuffer.Length
      requires WireBytes(e) == Frame(txBuffer[..length])
      requires e.Response? ==> Latest(trace) == if CarriesVersion(e) then None else Some(e.id)
      modifies this`wire, this`trace, txBuffer
      ensures Ready() && trace == old(trace) + [e]
    {
      ghost var packet := txBuffer[..length];
      var n := TxPacket(txBuffer, length);
      FrameIsClosed(packet);
      PiecesSnoc(trace, e);
      DisciplinedSnoc(trace, e);
      wire := wire + txBuffer[..n];
      trace := trace + [e];
    }

    method TxAbort()
      requires Ready()
      modifies this`wire, this`trace
      ensures Ready() && trace == old(trace) + [Abort]
    {
      PiecesSnoc(trace, Abort);
      DisciplinedSnoc(trace, Abort);
      wire := wire + NFCP_ABORT_SEQUENCE;
      trace := trace + [Abort];
    }

    method RefreshSession()
      modifies this`now, this`sessionEndTime, this`refreshed
      ensures old(now) <= refreshed <= now && sessionEndTime == Tick(refreshed + NFCP_SESSION_TIMEOUT_TICKS)
    {
      var t := ReadTick();
      refreshed := now;
      TickPlus(now, NFCP_SESSION_TIMEOUT_TICKS);
      sessionEndTime := (t + NFCP_SESSION_TIMEOUT_TICKS) % TICK_RANGE;
    }

    /** nfcp_reset, with the reset of the management class; the capability class keeps no state. */
    method Reset()
      requires Ready()
      modifies this`now, this`sessionEndTime, this`refreshed, this`sessionId, this`wire, this`trace
      ensures Valid() && sessionId == NFCP_SESSION_ID_NONE && trace == old(trace) + [Abort]
      ensures old(now) <= refreshed
    {
      RefreshSession();
      sessionId := NFCP_SESSION_ID_NONE;
      TxAbort();
      LatestSnoc(old(trace), Abort);
    }

    /** The condition of the timeout check; `at` is the true time at which it reads the clock. */
    method TimedOut() returns (late: bool, ghost at: nat)
      requires refreshed <= now && sessionEndTime == Tick(refreshed + NFCP_SESSION_TIMEOUT_TICKS)
      modifies this`now
      ensures old(now) <= at == now && late == Expired(at, refreshed)
      ensures at < refreshed + NFCP_SESSION_TIMEOUT_TICKS + HALF_RANGE ==>
        (late <==> at >= refreshed + NFCP_SESSION_TIMEOUT_TICKS)
    {
      var t := ReadTick();
      at := now;
      ExpiryExact(at, refreshed);
      late := SignedDiff(t, sessionEndTime) >= 0;
    }

    /** The timeout check of the task loop. */
    method CheckTimeout() returns (ghost at: nat)
      requires Valid()
      modifies this`now, this`sessionEndTime, this`refreshed, this`sessionId, this`wire, this`trace
      ensures Valid() && old(now) <= at <= now
      ensures if Expired(at, old(refreshed))
              then sessionId == NFCP_SESSION_ID_NONE && trace == old(trace) + [Abort] && at <= refreshed
              else sessionId == old(sessionId) && trace == old(trace) && refreshed == old(refreshed)
      // no session outlives the check made 5000 ticks or more after its last refresh
      ensures at < old(refreshed) + NFCP_SESSION_TIMEOUT_TICKS + HALF_RANGE && sessionId != NFCP_SESSION_ID_NONE ==>
        at < accepted + NFCP_SESSION_TIMEOUT_TICKS
      // and none is closed earlier
      ensures at < old(refreshed) + NFCP_SESSION_TIMEOUT_TICKS ==> sessionId == old(sessionId)
    {
      var late;
      late, at := TimedOut();
      if late {
        Reset();
      }
    }

    /** The bytes of a response, written into the transmit buffer one by one. */
    method FillResponse(seqNr: byte, sendVersion: bool) returns (len: nat)
      requires txBuffer.Length == NFCP_PACKET_BUFFER_SIZE
      modifies txBuffer
      ensures len <= 18 && txBuffer[..len] == ResponsePacket(seqNr, sendVersion)
    {
      len := 0;
      txBuffer[len] := 0x03;
      len := len + 1;
      txBuffer[len] := 0x00;
      len := len + 1;
      txBuffer[len] := seqNr;
      len := len + 1;
      if sendVersion {
        var cur := 0;
        while cur < |VERSION_TAG|
          invariant 0 <= cur <= |VERSION_TAG| && len == 3 + cur
          invariant txBuffer[0] == 0x03 && txBuffer[1] == 0x00 && txBuffer[2] == seqNr
          invariant forall k :: 3 <= k < len ==> txBuffer[k] == VERSION_TAG[k - 3]
        {
          txBuffer[len] := VERSION_TAG[cur];
          len := len + 1;
          cur := cur + 1;
        }
      }
      assert txBuffer[..len] == ResponsePacket(seqNr, sendVersion);
    }

    method SendResponse(id: bv32, seqNr: byte, sendVersion: bool)
      requires Ready() && Latest(trace) == if sendVersion then None else Some(id)
      modifies this`wire, this`trace, txBuffer
      ensures Ready() && trace == old(trace) + [Response(id, ResponsePacket(seqNr, sendVersion))]
      ensures Latest(trace) == Some(id)
    {
      var len := FillResponse(seqNr, sendVersion);
      ghost var e := Response(id, ResponsePacket(seqNr, sendVersion));
      assert CarriesVersion(e) == sendVersion;
      FrameFits(txBuffer[..len]);
      LatestSnoc(trace, e);
      SendPacket(len, e);
    }

    /** The id carried by a SESSION_ID request whose payload starts at rxBuffer[at]. */
    function RequestedId(at: nat): bv32
      requires at + 4 <= rxBuffer.Length
      reads rxBuffer
    {
      PackU32(rxBuffer[at], rxBuffer[at + 1], rxBuffer[at + 2], rxBuffer[at + 3])
    }

    /** The second half of nfcp_cls_op_session_id: a request with a usable id. */
    method AcceptSession(id: bv32, seqNr: byte)
      requires Valid() && id != NFCP_SESSION_ID_NONE
      modifies this, txBuffer
      ensures Valid() && sessionId == id && accepted == refreshed >= old(now)
      ensures trace == old(trace)
                + (if old(sessionId) != NFCP_SESSION_ID_NONE && old(sessionId) != id then [Abort] else [])
                + [Response(id, ResponsePacket(seqNr, old(sessionId) != id))]
    {
      var sendVersion := false;
      if sessionId != id {
        if sessionId != NFCP_SESSION_ID_NONE {
          Reset();
        }
        sessionId := id;
        sendVersion := true;
      }
      SendResponse(id, seqNr, sendVersion);
      RefreshSession();
      accepted := refreshed;
    }

    /** nfcp_cls_op_session_id; the payload starts at rxBuffer[at]. */
    method OpSessionId(isCall: bool, seqNr: byte, at: nat, length: nat)
      requires Valid() && at + length <= rxBuffer.Length
      modifies this, txBuffer
      ensures Valid() && old(now) <= now
      ensures
        if length != 4 || !isCall || RequestedId(at) == NFCP_SESSION_ID_NONE
        then trace == old(trace) && sessionId == old(sessionId) && sessionEndTime == old(sessionEndTime)
             && refreshed == old(refreshed)
        else
          && sessionId == RequestedId(at) && accepted == refreshed >= old(now)
          && trace == old(trace)
               + (if old(sessionId) != NFCP_SESSION_ID_NONE && old(sessionId) != sessionId then [Abort] else [])
               + [Response(sessionId, ResponsePacket(seqNr, old(sessionId) != sessionId))]
    {
      if length != 4 || !isCall {
        return;
      }
      var id := RequestedId(at);
      if id == NFCP_SESSION_ID_NONE {
        return;
      }
      AcceptSession(id, seqNr);
    }

    method FillPacket(packet: seq<byte>)
      requires |packet| <= txBuffer.Length
      modifies txBuffer
      ensures txBuffer[..|packet|] == packet
    {
      for i := 0 to |packet|
        invariant forall k :: 0 <= k < i ==> txBuffer[k] == packet[k]
      {
        txBuffer[i] := packet[i];
      }
    }

    method SendOther(packet: seq<byte>)
      requires Valid() && |packet| < NFCP_MAX_PACKET_LENGTH
      modifies this`wire, this`trace, txBuffer
      ensures Valid() && trace == old(trace) + [Other(packet)]
    {
      FrameFits(packet);
      FillPacket(packet);
      LatestSnoc(trace, Other(packet));
      SendPacket(|packet|, Other(packet));
    }

    /** The one packet with which a call is answered. */
    method Reply(packet: seq<byte>)
      requires Valid() && |packet| < NFCP_MAX_PACKET_LENGTH
      modifies this`wire, this`trace, txBuffer
      ensures Valid() && trace == old(trace) + Others([packet])
    {
      OthersOfOne(trace, packet);
      SendOther(packet);
    }

    /** The branches of the dispatch, on a packet of `len` bytes whose header is h. */
    method DispatchHeader(h: Header, len: nat, capReply: Option<seq<byte>>)
      requires Valid() && h.size <= len <= rxBuffer.Length
      requires capReply.Some? ==> |capReply.value| < NFCP_MAX_PACKET_LENGTH
      modifies this, txBuffer
      ensures Valid() && old(now) <= now
      ensures
        if len == h.size + 4 && Opens(h, len, old(RequestedId(h.size)))
        then sessionId == old(RequestedId(h.size)) && accepted == refreshed >= old(now)
             && trace == old(trace)
                  + (if old(sessionId) != NFCP_SESSION_ID_NONE && old(sessionId) != sessionId then [Abort] else [])
                  + [Response(sessionId, ResponsePacket(h.seqNr, old(sessionId) != sessionId))]
        else sessionId == old(sessionId) && sessionEndTime == old(sessionEndTime) && refreshed == old(refreshed)
             && trace == old(trace) + Others(AnswersTo(h, capReply))
    {
      OthersOfOne(trace, []);
      if h.class_ != NFCP_CLS_MGMT && h.class_ != NFCP_CLS_CAP {
        Reply(Notice(INVALID_CLASS, h));
      } else if h.operation >= NUM_OPS || h.isCall != HandlesCall(h.class_, h.operation) {
        Reply(Notice(INVALID_OPERATION, h));
      } else if h.class_ == NFCP_CLS_MGMT && h.operation == SESSION_ID {
        OpSessionId(h.isCall, h.seqNr, h.size, len - h.size);
      } else if h.class_ == NFCP_CLS_CAP && capReply.Some? {
        Reply(capReply.value);
      }
    }

    /**
     The dispatch part of the task loop, on a packet of `len` bytes in rxBuffer.  `capReply` is what the
     capability class answers, if it is asked and answers at all.
     */
    method Dispatch(len: nat, capReply: Option<seq<byte>>)
      requires Valid() && len <= rxBuffer.Length
      requires capReply.Some? ==> |capReply.value| < NFCP_MAX_PACKET_LENGTH
      modifies this, txBuffer
      ensures Valid() && old(now) <= now
      ensures
        if IsSessionRequest(old(rxBuffer[..len]))
        then sessionId == old(RequestedId(3)) && accepted == refreshed >= old(now)
             && trace == old(trace)
                  + (if old(sessionId) != NFCP_SESSION_ID_NONE && old(sessionId) != sessionId then [Abort] else [])
                  + [Response(sessionId, ResponsePacket(old(rxBuffer[2]), old(sessionId) != sessionId))]
        else sessionId == old(sessionId) && sessionEndTime == old(sessionEndTime) && refreshed == old(refreshed)
             && trace == old(trace) + Others(Answers(old(rxBuffer[..len]), capReply))
    {
      var packet := rxBuffer[..len];
      if !HasHeader(packet) {
        OthersOfOne(trace, []);
        return;
      }
      OpensIff(packet);
      DispatchHeader(ParseHeader(packet), len, capReply);
    }

    /** The packet that the receiver left in rxBuffer. */
    function PacketOf(r: RxOutcome): Option<seq<byte>>
      requires r.Packet? ==> r.len <= rxBuffer.Length
      reads rxBuffer
    {
      if r.Packet? then Some(rxBuffer[..r.len]) else None
    }

    /**
     The call of nfcp_rx_packet in the task loop.  `delays` are the times that pass before the readings of the clock;
     afterwards it is as late as the last reading made.
     */
    method Receive(ring: UartRx.Ring, delays: seq<nat>) returns (r: RxOutcome, ghost consumed: seq<byte>)
      requires ring.Valid() && ring.delimiter == Some(HDLC_FRAME_BOUNDARY)
      requires ring.buf != rxBuffer && rxBuffer.Length == NFCP_PACKET_BUFFER_SIZE
      modifies this`now, rxBuffer, ring, ring.buf
      ensures ring.Valid() && (r.Packet? ==> r.len <= rxBuffer.Length) && old(now) <= now
      ensures old(ring.received) <= ring.received && ring.delivered == old(ring.delivered) + consumed
      ensures BoundaryLast(consumed) && |consumed| <= NFCP_PACKET_BUFFER_SIZE
      ensures PacketOf(r) == if IsCut(consumed, NFCP_PACKET_BUFFER_SIZE) then Decode(consumed) else None
      ensures r.TimedOut? ==> SignedDiff(sessionEndTime, Tick(now)) <= 0
      // called before the end of the session, it takes a piece or all that waits in the ring
      ensures HasTime(sessionEndTime, Readings(old(now), delays)) ==>
        IsCut(consumed, NFCP_PACKET_BUFFER_SIZE) || old(ring.received) <= ring.delivered
    {
      var ticks := Readings(now, delays);
      var used;
      r, consumed, used := RxPacket(ring, rxBuffer, NFCP_PACKET_BUFFER_SIZE, sessionEndTime, ticks);
      if used > 0 {
        ReadingAt(now, delays, used - 1);
        now := now + Total(delays[..used]);
      }
    }

    /** The dispatch of whatever the receiver returned. */
    method Answer(r: RxOutcome, capReply: Option<seq<byte>>)
      requires Valid() && (r.Packet? ==> r.len <= rxBuffer.Length)
      requires capReply.Some? ==> |capReply.value| < NFCP_MAX_PACKET_LENGTH
      modifies this, txBuffer
      ensures Valid() && old(now) <= now
      ensures
        var packet := old(PacketOf(r));
        var id := old(sessionId);
        if packet.Some? && IsSessionRequest(packet.value)
        then sessionId == RequestOf(packet.value) && accepted == refreshed >= old(now)
             && trace == old(trace)
                  + (if id != NFCP_SESSION_ID_NONE && id != sessionId then [Abort] else [])
                  + [Response(sessionId, ResponsePacket(packet.value[2], id != sessionId))]
        else sessionId == id && refreshed == old(refreshed)
             && trace == old(trace) + if packet.Some? then Others(Answers(packet.value, capReply)) else []
    {
      if r.Packet? {
        Dispatch(r.len, capReply);
      }
    }

    /** The rest of one pass: the timeout check, then dispatch.  `at` is when the check reads the clock. */
    method Process(r: RxOutcome, capReply: Option<seq<byte>>) returns (ghost at: nat)
      requires Valid() && (r.Packet? ==> r.len <= rxBuffer.Length)
      requires capReply.Some? ==> |capReply.value| < NFCP_MAX_PACKET_LENGTH
      modifies this, txBuffer
      ensures Valid() && old(now) <= at <= now
      // a session still open was accepted by this very pass or less than 5000 ticks before its check
      ensures at < old(refreshed) + NFCP_SESSION_TIMEOUT_TICKS + HALF_RANGE && sessionId != NFCP_SESSION_ID_NONE ==>
        at < accepted + NFCP_SESSION_TIMEOUT_TICKS
      // the session and everything that is sent: an abort if the session had expired, then what the packet asks for
      ensures
        var expired := Expired(at, old(refreshed));
        var open := if expired then NFCP_SESSION_ID_NONE else old(sessionId);
        var checked := old(trace) + if expired then [Abort] else [];
        var packet := old(PacketOf(r));
        if packet.Some? && IsSessionRequest(packet.value) then
          && sessionId == RequestOf(packet.value) && accepted == refreshed >= at
          && trace == checked
               + (if open != NFCP_SESSION_ID_NONE && open != sessionId then [Abort] else [])
               + [Response(sessionId, ResponsePacket(packet.value[2], open != sessionId))]
        else
          && sessionId == open && (if expired then at <= refreshed else refreshed == old(refreshed))
          && trace == checked + if packet.Some? then Others(Answers(packet.value, capReply)) else []
    {
      at := CheckTimeout();
      assert trace == old(trace) + if Expired(at, old(refreshed)) then [Abort] else [];
      Answer(r, capReply);
    }

    lemma Sent(before: seq<Event>, after: seq<Event>, id: bv32, expired: bool, open: bv32, packet: Option<seq<byte>>,
               capReply: Option<seq<byte>>)
      requires
        var now := if expired then NFCP_SESSION_ID_NONE else open;
        var checked := before + if expired then [Abort] else [];
        if packet.Some? && IsSessionRequest(packet.value) then
          && id == RequestOf(packet.value)
          && after == checked
               + (if now != NFCP_SESSION_ID_NONE && now != id then [Abort] else [])
               + [Response(id, ResponsePacket(packet.value[2], now != id))]
        else id == now && after == checked + if packet.Some? then Others(Answers(packet.value, capReply)) else []
      ensures after == before + PassSends(expired, open, packet, capReply)
      ensures id == SessionAfter(expired, open, packet)
    {
    }

    method CheckAndAnswer(r: RxOutcome, ghost packet: Option<seq<byte>>, capReply: Option<seq<byte>>)
      returns (ghost at: nat, ghost sent: seq<Event>)
      requires Valid() && (r.Packet? ==> r.len <= rxBuffer.Length) && packet == PacketOf(r)
      requires capReply.Some? ==> |capReply.value| < NFCP_MAX_PACKET_LENGTH
      modifies this, txBuffer
      ensures Valid() && old(now) <= at <= now
      ensures at < old(refreshed) + NFCP_SESSION_TIMEOUT_TICKS + HALF_RANGE && sessionId != NFCP_SESSION_ID_NONE ==>
        at < accepted + NFCP_SESSION_TIMEOUT_TICKS
      ensures sent == PassSends(Expired(at, old(refreshed)), old(sessionId), packet, capReply)
      ensures sessionId == SessionAfter(Expired(at, old(refreshed)), old(sessionId), packet)
      ensures Renewed(Expired(at, old(refreshed)), at, packet, old(refreshed), refreshed, accepted)
      ensures trace == old(trace) + sent
    {
      ghost var last, open, all := refreshed, sessionId, trace;
      at := Process(r, capReply);
      ghost var expired := Expired(at, last);
      Sent(all, trace, sessionId, expired, open, packet, capReply);
      sent := PassSends(expired, open, packet, capReply);
    }

    /** One pass of the task loop. */
    method TaskPass(ring: UartRx.Ring, delays: seq<nat>, capReply: Option<seq<byte>>) returns (ghost p: Pass)
      requires Valid() && ring.Valid() && ring.delimiter == Some(HDLC_FRAME_BOUNDARY)
      requires ring.buf != rxBuffer && ring.buf != txBuffer
      requires capReply.Some? ==> |capReply.value| < NFCP_MAX_PACKET_LENGTH
      modifies this, rxBuffer, txBuffer, ring, ring.buf
      ensures Valid() && ring.Valid() && Honest(p, capReply)
      ensures p.start == old(now) && p.refreshed == old(refreshed) && p.before == old(sessionId)
      ensures p.at <= now && p.after == sessionId && p.renewed == refreshed && p.accepted == accepted
      ensures trace == old(trace) + p.sent
      ensures old(ring.received) <= ring.received && ring.delivered == old(ring.delivered) + p.consumed
      ensures p.gaveUp && p.at < p.refreshed + NFCP_SESSION_TIMEOUT_TICKS + HALF_RANGE ==> p.sent == [Abort]
      ensures HasTime(old(sessionEndTime), Readings(old(now), delays)) ==>
        IsCut(p.consumed, NFCP_PACKET_BUFFER_SIZE) || old(ring.received) <= ring.delivered
    {
      ghost var started, last, open := now, refreshed, sessionId;
      var r;
      ghost var at, consumed;
      r, consumed := Receive(ring, delays);
      ghost var packet := PacketOf(r);
      if r.TimedOut? {
        DeadlinePassed(now, last);
      }
      ghost var sent;
      at, sent := CheckAndAnswer(r, packet, capReply);
      p := Pass(consumed, r.TimedOut?, started, last, open, at, sent, sessionId, refreshed, accepted);
      HonestPass(p, packet, capReply);
    }

    /** One pass in a run of them: `before` is what the passes so far have consumed behind `start`. */
    method NextPass(ring: UartRx.Ring, delays: seq<nat>, capReply: Option<seq<byte>>, ghost start: seq<byte>,
                    ghost before: seq<byte>, ghost waiting: seq<byte>) returns (ghost p: Pass)
      requires Valid() && ring.Valid() && ring.delimiter == Some(HDLC_FRAME_BOUNDARY)
      requires ring.buf != rxBuffer && ring.buf != txBuffer
      requires capReply.Some? ==> |capReply.value| < NFCP_MAX_PACKET_LENGTH
      requires ring.delivered == start + before && start + waiting <= ring.received
      modifies this, rxBuffer, txBuffer, ring, ring.buf
      ensures Valid() && ring.Valid() && Honest(p, capReply) && trace == old(trace) + p.sent
      ensures p.before == old(sessionId) && p.refreshed == old(refreshed)
      ensures p.after == sessionId && p.renewed == refreshed
      ensures old(ring.received) <= ring.received && ring.delivered == start + (before + p.consumed)
      ensures AttentiveOne(p.consumed, before + p.consumed, waiting,
                           Tick(p.refreshed + NFCP_SESSION_TIMEOUT_TICKS), Readings(p.start, delays))
    {
      p := TaskPass(ring, delays, capReply);
      Associate(start, before, p.consumed);
      if old(ring.received) <= ring.delivered {
        PrefixOfRest(start, waiting, ring.delivered, before + p.consumed);
      }
    }

    /** A run of passes with one pass more. */
    method ExtendRun(ring: UartRx.Ring, delays: seq<seq<nat>>, capReplies: seq<Option<seq<byte>>>, n: nat,
                     ghost start: seq<byte>, ghost waiting: seq<byte>, ghost sent: seq<Event>,
                     ghost passes: seq<Pass>)
      returns (ghost passes': seq<Pass>)
      requires Valid() && ring.Valid() && ring.delimiter == Some(HDLC_FRAME_BOUNDARY)
      requires ring.buf != rxBuffer && ring.buf != txBuffer && n == |passes| < |delays| == |capReplies|
      requires var capReply := capReplies[n]; capReply.Some? ==> |capReply.value| < NFCP_MAX_PACKET_LENGTH
      requires ring.delivered == start + Concat(Consumed(passes)) && start + waiting <= ring.received
      requires TaskRun(passes, delays, capReplies, waiting) && LeftBy(passes, sessionId, refreshed)
      requires trace == sent + SentBy(passes)
      modifies this, rxBuffer, txBuffer, ring, ring.buf
      ensures Valid() && ring.Valid() && |passes'| == n + 1
      ensures trace == sent + SentBy(passes')
      ensures old(ring.received) <= ring.received && ring.delivered == start + Concat(Consumed(passes'))
      ensures TaskRun(passes', delays, capReplies, waiting) && LeftBy(passes', sessionId, refreshed)
    {
      ghost var p := NextPass(ring, delays[n], capReplies[n], start, Concat(Consumed(passes)), waiting);
      TaskRunSnoc(passes, p, delays, capReplies, waiting);
      Associate(sent, SentBy(passes), p.sent);
      passes' := passes + [p];
    }

    /**
     nfcp_task: the first reset, then any number of passes.  `packets` are any packets whose frames may stand first in
     the ring when the task starts.
     */
    method Task(ring: UartRx.Ring, delays: seq<seq<nat>>, capReplies: seq<Option<seq<byte>>>,
                ghost packets: seq<seq<byte>>) returns (ghost passes: seq<Pass>)
      requires Ready() && ring.Valid() && ring.delimiter == Some(HDLC_FRAME_BOUNDARY)
      requires ring.buf != rxBuffer && ring.buf != txBuffer && |capReplies| == |delays|
      requires forall i ::
        0 <= i < |capReplies| && capReplies[i].Some? ==> |capReplies[i].value| < NFCP_MAX_PACKET_LENGTH
      modifies this, rxBuffer, txBuffer, ring, ring.buf
      ensures Valid() && ring.Valid() && |passes| == |delays|
      ensures trace == old(trace) + [Abort] + SentBy(passes)
      ensures ring.delivered == old(ring.delivered) + Concat(Consumed(passes))
      ensures TaskRun(passes, delays, capReplies, old(ring.queue)) && LeftBy(passes, sessionId, refreshed)
      // packets that wait in the ring are served one by one, if the passes come before the session ends
      ensures AllFit(packets) && LinkBytes(packets) <= old(ring.queue) && |packets| <= |delays| ==>
        OnTime(passes, delays) ==> Served(passes, packets, capReplies)
    {
      Reset();
      ghost var start, waiting, sent := ring.delivered, ring.queue, trace;
      passes := [];
      var i := 0;
      while i < |delays|
        invariant 0 <= i == |passes| <= |delays|
        invariant Valid() && ring.Valid() && old(ring.received) <= ring.received
        invariant trace == sent + SentBy(passes) && ring.delivered == start + Concat(Consumed(passes))
        invariant TaskRun(passes, delays, capReplies, waiting) && LeftBy(passes, sessionId, refreshed)
      {
        passes := ExtendRun(ring, delays, capReplies, i, start, waiting, sent, passes);
        i := i + 1;
      }
      ring.DeliveredFirst();
      if AllFit(packets) && LinkBytes(packets) <= waiting && |packets| <= |delays| && OnTime(passes, delays) {
        WaitingServed(passes, delays, capReplies, packets, start, ring.received, waiting);
      }
    }
  }
}
