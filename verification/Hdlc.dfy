/**
 In-place byte stuffing and unstuffing (lib/hdlc.c), in the style of section 4.2 of RFC 1662 with 0x17
 and 0x19 added to the set of escaped bytes.
 */
module Hdlc {
  import opened Basics

  const HDLC_FRAME_BOUNDARY: byte := 0x7e
  const HDLC_ESCAPE_CHAR: byte := 0x7d
  const HDLC_ESCAPE_BITS: byte := 0x20
  const HDLC_XON: byte := 0x17
  const HDLC_XOFF: byte := 0x19

  predicate MustEscape(c: byte) {
    c == HDLC_ESCAPE_CHAR || c == HDLC_FRAME_BOUNDARY || c == HDLC_XON || c == HDLC_XOFF
  }

  // ---- What the two functions compute ------------------------------------------------------------

  function Encode(c: byte): seq<byte> {
    if MustEscape(c) then [HDLC_ESCAPE_CHAR, c ^ HDLC_ESCAPE_BITS] else [c]
  }

  function StuffBody(s: seq<byte>): (r: seq<byte>)
    ensures |s| <= |r| <= 2 * |s|
  {
    if s == [] then [] else Encode(s[0]) + StuffBody(s[1..])
  }

  /** A whole frame: the escaped payload and the closing boundary. */
  function Stuff(s: seq<byte>): seq<byte> {
    StuffBody(s) + [HDLC_FRAME_BOUNDARY]
  }

  function Prepend(a: seq<byte>, r: Option<seq<byte>>): Option<seq<byte>> {
    match r
    case None => None
    case Some(b) => Some(a + b)
  }

  /** Unstuffing of a frame whose closing boundary has been cut off. */
  function UnstuffBody(f: seq<byte>): Option<seq<byte>> {
    if f == [] then Some([])
    else if f[0] == HDLC_FRAME_BOUNDARY then None
    else if f[0] == HDLC_ESCAPE_CHAR then
      if |f| == 1 then None else Prepend([f[1] ^ HDLC_ESCAPE_BITS], UnstuffBody(f[2..]))
    else Prepend([f[0]], UnstuffBody(f[1..]))
  }

  function CutBoundary(f: seq<byte>): seq<byte> {
    if f != [] && f[|f| - 1] == HDLC_FRAME_BOUNDARY then f[..|f| - 1] else f
  }

  function Unstuff(f: seq<byte>): Option<seq<byte>> {
    UnstuffBody(CutBoundary(f))
  }

  // ---- The functions themselves, on one buffer ---------------------------------------------------

  lemma {:induction false} UnstuffStart(body: seq<byte>)
    ensures UnstuffBody(body) == Prepend([], UnstuffBody(body[0..]))
  {
    assert body[0..] == body;
    if UnstuffBody(body).Some? {
      assert [] + UnstuffBody(body).value == UnstuffBody(body).value;
    }
  }

  lemma UnstuffAt(body: seq<byte>, rd: nat)
    requires rd < |body|
    ensures UnstuffBody(body[rd..]) ==
      if body[rd] == HDLC_FRAME_BOUNDARY then None
      else if body[rd] == HDLC_ESCAPE_CHAR then
        if rd + 1 == |body| then None
        else Prepend([body[rd + 1] ^ HDLC_ESCAPE_BITS], UnstuffBody(body[rd + 2..]))
      else Prepend([body[rd]], UnstuffBody(body[rd + 1..]))
  {
    assert body[rd..][1..] == body[rd + 1..];
    if rd + 1 < |body| {
      assert body[rd..][2..] == body[rd + 2..];
    }
  }

  lemma PrependTwice(a: seq<byte>, b: seq<byte>, r: Option<seq<byte>>)
    ensures Prepend(a, Prepend(b, r)) == Prepend(a + b, r)
  {
    if r.Some? {
      assert a + (b + r.value) == (a + b) + r.value;
    }
  }

  /** The loop of hdlc_frame_unstuff: the write index never passes the read index. */
  method UnstuffInPlace(buf: array<byte>, len: nat, ghost body: seq<byte>) returns (r: int)
    requires len == |body| <= buf.Length
    requires forall k :: 0 <= k < len ==> buf[k] == body[k]
    modifies buf
    ensures match UnstuffBody(body)
            case None => r == -1
            case Some(p) => r == |p| <= len && forall k :: 0 <= k < r ==> buf[k] == p[k]
    ensures forall k :: len <= k < buf.Length ==> buf[k] == old(buf[k])
  {
    var rd, wr := 0, 0;
    ghost var out: seq<byte> := [];
    UnstuffStart(body);
    while rd < len
      invariant 0 <= wr == |out| <= rd <= len
      invariant forall k :: 0 <= k < wr ==> buf[k] == out[k]
      invariant forall k :: rd <= k < len ==> buf[k] == body[k]
      invariant forall k :: len <= k < buf.Length ==> buf[k] == old(buf[k])
      invariant UnstuffBody(body) == Prepend(out, UnstuffBody(body[rd..]))
    {
      UnstuffAt(body, rd);
      var c := buf[rd];
      rd := rd + 1;
      if c == HDLC_FRAME_BOUNDARY {
        return -1;
      } else if c == HDLC_ESCAPE_CHAR {
        if rd == len {
          return -1;
        }
        c := buf[rd];
        rd := rd + 1;
        buf[wr] := c ^ HDLC_ESCAPE_BITS;
        wr := wr + 1;
      } else {
        buf[wr] := c;
        wr := wr + 1;
      }
      PrependTwice(out, [buf[wr - 1]], UnstuffBody(body[rd..]));
      out := out + [buf[wr - 1]];
    }
    assert body[len..] == [];
    r := wr;
  }

  method FrameUnstuff(buf: array<byte>, length: nat) returns (r: int)
    requires length <= buf.Length
    modifies buf
    ensures match Unstuff(old(buf[..length]))
            case None => r == -1
            case Some(p) => r == |p| <= length && buf[..r] == p
    ensures buf[length..] == old(buf[length..])
  {
    var len := length;
    ghost var frame := buf[..length];
    if len > 0 && buf[len - 1] == HDLC_FRAME_BOUNDARY {
      len := len - 1;
    }
    ghost var body := frame[..len];
    assert body == CutBoundary(frame);
    r := UnstuffInPlace(buf, len, body);
    if UnstuffBody(body).Some? {
      assert buf[..r] == UnstuffBody(body).value;
    }
  }

  lemma {:induction false} StuffBodyConcat(s: seq<byte>, t: seq<byte>)
    ensures StuffBody(s + t) == StuffBody(s) + StuffBody(t)
  {
    if s == [] {
      assert s + t == t;
    } else {
      assert (s + t)[1..] == s[1..] + t;
      StuffBodyConcat(s[1..], t);
    }
  }

  lemma EncodeIs(c: byte)
    ensures Encode(c) == if c in {0x7d, 0x7e, 0x17, 0x19} then [0x7d, c ^ 0x20] else [c]
  {
  }

  lemma {:induction false} StuffSingle(c: byte)
    ensures StuffBody([c]) == Encode(c)
  {
    assert StuffBody([c]) == Encode(c) + [];
  }

  /** Stuffing byte by byte: the four special bytes are escaped, every other byte stands for itself. */
  lemma {:induction false} StuffOneByte(s: seq<byte>, c: byte, t: seq<byte>)
    ensures var e := if c in {0x7d, 0x7e, 0x17, 0x19} then [0x7d, c ^ 0x20] else [c];
      Stuff(s + [c] + t) == StuffBody(s) + e + Stuff(t) && Stuff([]) == [0x7e]
  {
    StuffBodyConcat(s + [c], t);
    StuffBodyConcat(s, [c]);
    StuffSingle(c);
    EncodeIs(c);
    Associate(StuffBody(s) + Encode(c), StuffBody(t), [HDLC_FRAME_BOUNDARY]);
  }

  lemma {:induction false} PlainStuff(s: seq<byte>)
    requires forall i :: 0 <= i < |s| ==> !MustEscape(s[i])
    ensures StuffBody(s) == s
  {
    if s != [] {
      PlainStuff(s[1..]);
    }
  }

  lemma StuffBodySnoc(s: seq<byte>, k: nat)
    requires k < |s|
    ensures StuffBody(s[..k + 1]) == StuffBody(s[..k]) + Encode(s[k])
  {
    assert s[..k + 1] == s[..k] + [s[k]];
    StuffBodyConcat(s[..k], [s[k]]);
    assert StuffBody([s[k]]) == Encode(s[k]) + [];
  }

  lemma StuffBodyCons(s: seq<byte>, k: nat)
    requires k < |s|
    ensures StuffBody(s[k..]) == Encode(s[k]) + StuffBody(s[k + 1..])
  {
    assert s[k..][1..] == s[k + 1..];
  }

  /** tails[k] is the frame that belongs to the payload from byte k on. */
  ghost predicate Suffixes(payload: seq<byte>, tails: seq<seq<byte>>) {
    && |tails| == |payload| + 1
    && tails[|payload|] == [HDLC_FRAME_BOUNDARY]
    && forall k {:trigger payload[k]} :: 0 <= k < |payload| ==> tails[k] == Encode(payload[k]) + tails[k + 1]
  }

  /** Every stuffed suffix fits above the bytes that are still to be read. */
  lemma SuffixFrames(payload: seq<byte>) returns (tails: seq<seq<byte>>)
    ensures Suffixes(payload, tails) && tails[0] == Stuff(payload)
    ensures forall k :: 0 <= k <= |payload| ==> |tails[k]| <= |Stuff(payload)| - k
  {
    tails := seq(|payload| + 1, k requires 0 <= k <= |payload| => Stuff(payload[k..]));
    forall k {:trigger payload[k]} | 0 <= k < |payload| ensures tails[k] == Encode(payload[k]) + tails[k + 1] {
      StuffBodyCons(payload, k);
    }
    forall k | 0 <= k <= |payload| ensures |tails[k]| <= |Stuff(payload)| - k {
      assert payload == payload[..k] + payload[k..];
      StuffBodyConcat(payload[..k], payload[k..]);
    }
    assert payload[0..] == payload && payload[|payload|..] == [];
  }

  method PutBackwards(buf: array<byte>, at: nat, c: byte) returns (wr: nat)
    requires |Encode(c)| <= at <= buf.Length
    modifies buf
    ensures wr == at - |Encode(c)|
    ensures forall k :: 0 <= k < buf.Length ==>
      buf[k] == if wr <= k < at then Encode(c)[k - wr] else old(buf[k])
  {
    wr := at;
    if c == HDLC_ESCAPE_CHAR || c == HDLC_FRAME_BOUNDARY || c == HDLC_XON || c == HDLC_XOFF {
      wr := wr - 1;
      buf[wr] := c ^ HDLC_ESCAPE_BITS;
      wr := wr - 1;
      buf[wr] := HDLC_ESCAPE_CHAR;
    } else {
      wr := wr - 1;
      buf[wr] := c;
    }
  }

  /** The second half of hdlc_frame_stuff: write the frame backwards, behind the bytes still to be read. */
  method StuffFromEnd(buf: array<byte>, length: nat, outLen: nat, ghost payload: seq<byte>, ghost tails: seq<seq<byte>>)
    requires length == |payload| < outLen <= buf.Length
    requires Suffixes(payload, tails) && |tails[0]| == outLen
    requires forall k :: 0 <= k <= length ==> |tails[k]| <= outLen - k
    requires forall k :: 0 <= k < length ==> buf[k] == payload[k]
    modifies buf
    ensures forall k :: 0 <= k < outLen ==> buf[k] == tails[0][k]
    ensures forall k :: outLen <= k < buf.Length ==> buf[k] == old(buf[k])
  {
    var wr := outLen;
    wr := wr - 1;
    buf[wr] := HDLC_FRAME_BOUNDARY;
    var rd := length - 1;
    while rd >= 0
      invariant -1 <= rd < length
      invariant wr == outLen - |tails[rd + 1]|
      invariant forall k :: 0 <= k <= rd ==> buf[k] == payload[k]
      invariant forall k :: wr <= k < outLen ==> buf[k] == tails[rd + 1][k - wr]
      invariant forall k :: outLen <= k < buf.Length ==> buf[k] == old(buf[k])
      decreases rd
    {
      wr := PutBackwards(buf, wr, buf[rd]);
      rd := rd - 1;
    }
  }

  method FrameStuff(buf: array<byte>, length: nat) returns (outLen: nat)
    requires length <= buf.Length
    requires |Stuff(buf[..length])| <= buf.Length
    modifies buf
    ensures outLen <= buf.Length && buf[..outLen] == Stuff(old(buf[..length]))
    ensures buf[outLen..] == old(buf[outLen..])
  {
    ghost var payload := buf[..length];
    outLen := 0;
    var rd := 0;
    while rd < length
      invariant 0 <= rd <= length
      invariant outLen == |StuffBody(payload[..rd])|
      invariant buf[..] == old(buf[..])
    {
      StuffBodySnoc(payload, rd);
      assert buf[rd] == payload[rd];
      if MustEscape(buf[rd]) {
        outLen := outLen + 2;
      } else {
        outLen := outLen + 1;
      }
      rd := rd + 1;
    }
    assert payload[..length] == payload == buf[..length];
    outLen := outLen + 1;
    ghost var tails := SuffixFrames(payload);
    StuffFromEnd(buf, length, outLen, payload, tails);
    assert buf[..outLen] == tails[0];
  }

  // ---- Round trip --------------------------------------------------------------------------------

  lemma EscapedByte(c: byte)
    ensures (c ^ HDLC_ESCAPE_BITS) ^ HDLC_ESCAPE_BITS == c
    ensures MustEscape(c) ==> !MustEscape(c ^ HDLC_ESCAPE_BITS)
  {
  }

  lemma {:induction false} UnstuffStuffBody(s: seq<byte>)
    ensures UnstuffBody(StuffBody(s)) == Some(s)
  {
    if s != [] {
      var c, rest := s[0], StuffBody(s[1..]);
      UnstuffStuffBody(s[1..]);
      EscapedByte(c);
      if MustEscape(c) {
        assert StuffBody(s)[2..] == rest;
      } else {
        assert StuffBody(s)[1..] == rest;
      }
      assert [c] + s[1..] == s;
    }
  }

  /** Unstuffing what stuffing wrote gives back the payload, whatever it was. */
  lemma UnstuffStuff(s: seq<byte>)
    ensures Unstuff(Stuff(s)) == Some(s)
  {
    assert CutBoundary(Stuff(s)) == StuffBody(s);
    UnstuffStuffBody(s);
  }

  /** What may appear on the wire: the boundary only as the last byte, flow control bytes never. */
  lemma {:induction false} StuffBodyAlphabet(s: seq<byte>)
    ensures forall i :: 0 <= i < |StuffBody(s)| ==>
      StuffBody(s)[i] != HDLC_FRAME_BOUNDARY && StuffBody(s)[i] != HDLC_XON && StuffBody(s)[i] != HDLC_XOFF
  {
    if s != [] {
      StuffBodyAlphabet(s[1..]);
      EscapedByte(s[0]);
    }
  }

  lemma StuffAlphabet(s: seq<byte>, i: nat)
    requires i < |Stuff(s)|
    ensures Stuff(s)[i] == HDLC_FRAME_BOUNDARY <==> i == |Stuff(s)| - 1
    ensures Stuff(s)[i] != HDLC_XON && Stuff(s)[i] != HDLC_XOFF
    ensures |s| + 1 <= |Stuff(s)| <= 2 * |s| + 1
  {
    StuffBodyAlphabet(s);
  }

  // ---- Abort sequences ---------------------------------------------------------------------------

  /** The number of escape bytes a string ends with. */
  function TrailingEscapes(f: seq<byte>): nat {
    if f == [] || f[|f| - 1] != HDLC_ESCAPE_CHAR then 0 else 1 + TrailingEscapes(f[..|f| - 1])
  }

  lemma {:induction false} TrailingEscapesBound(f: seq<byte>)
    ensures TrailingEscapes(f) <= |f|
  {
    if f != [] {
      TrailingEscapesBound(f[..|f| - 1]);
    }
  }

  lemma {:induction false} TrailingEscapesConcat(e: seq<byte>, f: seq<byte>)
    ensures TrailingEscapes(e + f) ==
      if TrailingEscapes(f) == |f| then |f| + TrailingEscapes(e) else TrailingEscapes(f)
  {
    if f == [] {
      assert e + f == e;
    } else {
      assert (e + f)[..|e + f| - 1] == e + f[..|f| - 1];
      TrailingEscapesConcat(e, f[..|f| - 1]);
      TrailingEscapesBound(f[..|f| - 1]);
    }
  }

  /** One unit of stuffed data: a plain byte, or an escape byte with the byte it escapes. */
  predicate Unit(e: seq<byte>) {
    (|e| == 1 && e[0] != HDLC_ESCAPE_CHAR) || (|e| == 2 && e[0] == HDLC_ESCAPE_CHAR)
  }

  lemma {:induction false} UnitParity(e: seq<byte>, f: seq<byte>)
    requires Unit(e)
    ensures TrailingEscapes(e + f) % 2 == TrailingEscapes(f) % 2
  {
    TrailingEscapesConcat(e, f);
    if |e| == 1 {
      assert e[..0] == [];
    } else {
      assert e[..1] == [HDLC_ESCAPE_CHAR] && e[..1][..0] == [];
      assert TrailingEscapes(e[..1]) == 1;
    }
  }

  /** Byte `i` is a boundary that no escape byte covers. */
  predicate BareBoundary(f: seq<byte>, i: nat)
    requires i < |f|
  {
    f[i] == HDLC_FRAME_BOUNDARY && TrailingEscapes(f[..i]) % 2 == 0
  }

  ghost predicate Malformed(f: seq<byte>) {
    TrailingEscapes(f) % 2 == 1 || exists i :: 0 <= i < |f| && BareBoundary(f, i)
  }

  lemma MalformedAfterUnit(e: seq<byte>, f: seq<byte>)
    requires Unit(e) && e[0] != HDLC_FRAME_BOUNDARY
    ensures Malformed(e + f) <==> Malformed(f)
  {
    UnitParity(e, f);
    forall i | 0 <= i < |f| ensures BareBoundary(e + f, |e| + i) == BareBoundary(f, i) {
      assert (e + f)[..|e| + i] == e + f[..i];
      UnitParity(e, f[..i]);
    }
    forall i | 0 <= i < |e| ensures !BareBoundary(e + f, i) {
      if i == 1 {
        assert (e + f)[..1] == [HDLC_ESCAPE_CHAR] && [HDLC_ESCAPE_CHAR][..0] == [];
        assert TrailingEscapes((e + f)[..1]) == 1;
      }
    }
    if Malformed(e + f) && exists i :: 0 <= i < |e + f| && BareBoundary(e + f, i) {
      var i :| 0 <= i < |e + f| && BareBoundary(e + f, i);
      assert BareBoundary(f, i - |e|);
    }
    if Malformed(f) && exists i :: 0 <= i < |f| && BareBoundary(f, i) {
      var i :| 0 <= i < |f| && BareBoundary(f, i);
      assert BareBoundary(e + f, |e| + i);
    }
  }

  /** A frame body is refused exactly when it holds a bare boundary or ends in the middle of an escape. */
  lemma {:induction false} RefusedIffMalformed(f: seq<byte>)
    ensures UnstuffBody(f).None? <==> Malformed(f)
  {
    if f == [] {
    } else if f[0] == HDLC_FRAME_BOUNDARY {
      assert BareBoundary(f, 0);
    } else if f[0] != HDLC_ESCAPE_CHAR {
      assert f == f[..1] + f[1..];
      MalformedAfterUnit(f[..1], f[1..]);
      RefusedIffMalformed(f[1..]);
    } else if |f| == 1 {
      assert f[..0] == [];
    } else {
      assert f == f[..2] + f[2..];
      MalformedAfterUnit(f[..2], f[2..]);
      RefusedIffMalformed(f[2..]);
    }
  }

  /** A frame cut at its boundary is refused exactly when an odd run of escape bytes precedes the boundary. */
  lemma {:induction false} RefusedIffDangling(f: seq<byte>)
    requires HDLC_FRAME_BOUNDARY !in f
    ensures Unstuff(f + [HDLC_FRAME_BOUNDARY]).None? <==> TrailingEscapes(f) % 2 == 1
  {
    assert CutBoundary(f + [HDLC_FRAME_BOUNDARY]) == f;
    RefusedIffMalformed(f);
  }

  /** A whole number of units in front is unstuffed by itself. */
  lemma {:induction false} UnstuffConcat(f: seq<byte>, g: seq<byte>)
    requires UnstuffBody(f).Some?
    ensures UnstuffBody(f + g) == Prepend(UnstuffBody(f).value, UnstuffBody(g))
  {
    if f == [] {
      assert f + g == g;
      UnstuffStart(g);
      assert g[0..] == g;
    } else {
      var n := if f[0] == HDLC_ESCAPE_CHAR then 2 else 1;
      var c := if n == 2 then f[1] ^ HDLC_ESCAPE_BITS else f[0];
      assert (f + g)[n..] == f[n..] + g;
      UnstuffConcat(f[n..], g);
      PrependTwice([c], UnstuffBody(f[n..]).value, UnstuffBody(g));
    }
  }

  /** An escaped boundary inside a frame is accepted, although the interface rules such frames out. */
  lemma EscapedBoundaryAccepted(rest: seq<byte>)
    requires rest != []
    ensures Unstuff([HDLC_ESCAPE_CHAR, HDLC_FRAME_BOUNDARY] + rest) == Prepend([0x5e], Unstuff(rest))
  {
    var f := [HDLC_ESCAPE_CHAR, HDLC_FRAME_BOUNDARY] + rest;
    assert CutBoundary(f)[2..] == CutBoundary(rest);
    assert HDLC_FRAME_BOUNDARY ^ HDLC_ESCAPE_BITS == 0x5e;
  }
}
