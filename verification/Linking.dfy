/**
 What linking variables means (core/variable.c): the effect of each vr_register and vr_request call on the
 table of sources and on the requesters' pointers; what a whole run of calls, failed ones included, amounts to; and
 when vr_connect can be believed.  Module Variables proves the pointer structures of the C code against this module.
 */
module Linking {
  import opened Basics

  datatype VarType = VR_TYPE_NULL | VR_TYPE_FLOAT | VR_TYPE_BOOL | VR_TYPE_INT

  type Address = nat

  type ValueType = t: VarType | t != VR_TYPE_NULL witness VR_TYPE_FLOAT

  datatype Table = Table(types: seq<ValueType>, vars: seq<Address>)

  /** The arguments of vr_register: the types up to the terminator and as many variables. */
  type Registration = t: Table | |t.types| == |t.vars| witness Table([], [])

  datatype Request = Request(index: int, typ: ValueType, dst: Address)

  datatype Source = Source(reg: Option<Registration>, pending: seq<Request>)

  const NEW_SOURCE := Source(None, [])

  datatype Links = Links(sources: map<string, Source>, memory: map<Address, Address>)

  const NO_LINKS := Links(map[], map[])

  datatype Op =
    | Register(name: string, reg: Registration)
    | Require(name: string, request: Request)

  const UINT16_RANGE: nat := 0x1_0000

  // ---- The calls ---------------------------------------------------------------------------------

  /** vr_reloc_exec: the variable a request gets, or none if the index or the type does not fit. */
  function Resolve(reg: Registration, q: Request): Option<Address> {
    if 0 <= q.index < |reg.types| && reg.types[q.index] == q.typ then Some(reg.vars[q.index]) else None
  }

  /** A request as it is stored while it waits: its index has 16 bits. */
  function Cut(q: Request): Request {
    q.(index := q.index % UINT16_RANGE)
  }

  function SourceOf(s: Links, name: string): Source {
    if name in s.sources then s.sources[name] else NEW_SOURCE
  }

  datatype Drained = Drained(rest: seq<Request>, memory: map<Address, Address>, ok: bool)

  /** The relocation loop of vr_register: stops at the first failure, which loses that request. */
  function Drain(reg: Registration, pending: seq<Request>, memory: map<Address, Address>): Drained {
    if pending == [] then Drained([], memory, true)
    else match Resolve(reg, pending[0])
      case None => Drained(pending[1..], memory, false)
      case Some(v) => Drain(reg, pending[1..], memory[pending[0].dst := v])
  }

  /** The state after a call, and whether the call returned 0. */
  function Apply(s: Links, op: Op): (Links, bool) {
    var src := SourceOf(s, op.name);
    match op
    case Register(name, reg) =>
      if src.reg.Some? then (s, false)
      else
        var d := Drain(reg, src.pending, s.memory);
        (Links(s.sources[name := Source(Some(reg), d.rest)], d.memory), d.ok)
    case Require(name, q) =>
      if src.reg.None? then
        (s.(sources := s.sources[name := src.(pending := [Cut(q)] + src.pending)]), true)
      else
        match Resolve(src.reg.value, q)
        case None => (s, false)
        case Some(v) => (s.(memory := s.memory[q.dst := v]), true)
  }

  /** A run of calls; the flag says whether all of them returned 0. */
  function Run(ops: seq<Op>): (Links, bool) {
    if ops == [] then (NO_LINKS, true)
    else
      var (s, ok) := Run(ops[..|ops| - 1]);
      var (s', ok') := Apply(s, ops[|ops| - 1]);
      (s', ok && ok')
  }

  /** vr_connect returns 0. */
  predicate Connected(s: Links) {
    forall name :: name in s.sources ==> s.sources[name].reg.Some? && s.sources[name].pending == []
  }

  // ---- What a run amounts to, as a property of the calls alone ------------------------------------

  ghost predicate Mentioned(ops: seq<Op>, name: string) {
    exists i :: 0 <= i < |ops| && ops[i].name == name
  }

  predicate IsRequest(ops: seq<Op>, t: nat, name: string)
    requires t < |ops|
  {
    ops[t].Require? && ops[t].name == name
  }

  /** The first registration of a name: the later ones are refused. */
  function FirstRegister(ops: seq<Op>, name: string): (u: Option<nat>)
    ensures match u
      case None => forall i :: 0 <= i < |ops| && ops[i].Register? ==> ops[i].name != name
      case Some(k) =>
        && k < |ops| && ops[k].Register? && ops[k].name == name
        && forall i :: 0 <= i < k && ops[i].Register? ==> ops[i].name != name
  {
    if ops == [] then None
    else
      var n := |ops| - 1;
      var u := FirstRegister(ops[..n], name);
      if u.None? && ops[n].Register? && ops[n].name == name then Some(n) else u
  }

  /** The requests made for a name, newest first. */
  function Requests(ops: seq<Op>, name: string): (p: seq<nat>)
    ensures forall k :: 0 <= k < |p| ==> p[k] < |ops| && IsRequest(ops, p[k], name)
  {
    if ops == [] then []
    else
      var n := |ops| - 1;
      (if IsRequest(ops, n, name) then [n] else []) + Requests(ops[..n], name)
  }

  /** Those requests as they wait for the name's registration. */
  function Waiting(ops: seq<Op>, name: string): seq<Request> {
    if ops == [] then []
    else
      var n := |ops| - 1;
      (if IsRequest(ops, n, name) then [Cut(ops[n].request)] else []) + Waiting(ops[..n], name)
  }

  /** The variable that a request is offered by the registration of its name, early or late. */
  function Offer(ops: seq<Op>, t: nat): Option<Address>
    requires t < |ops| && ops[t].Require?
  {
    var q := ops[t].request;
    match FirstRegister(ops, ops[t].name)
    case None => None
    case Some(u) => Resolve(ops[u].reg, if t < u then Cut(q) else q)
  }

  /** A request is carried out if it is offered a variable and so are the newer ones that wait with it. */
  ghost predicate Honoured(ops: seq<Op>, t: nat)
    requires t < |ops| && ops[t].Require?
  {
    && Offer(ops, t).Some?
    && forall w :: t < w < FirstRegister(ops, ops[t].name).value && IsRequest(ops, w, ops[t].name) ==>
         Offer(ops, w).Some?
  }

  /** Request t is carried out, and makes pointer d variable v. */
  ghost predicate Gives(ops: seq<Op>, t: nat, d: Address, v: Address) {
    t < |ops| && ops[t].Require? && Honoured(ops, t) && ops[t].request.dst == d && Offer(ops, t) == Some(v)
  }

  /** The call that carries a request out: its own, or the registration it waits for. */
  function When(ops: seq<Op>, t: nat): nat
    requires t < |ops|
  {
    var u := FirstRegister(ops, ops[t].name);
    if u.Some? && t < u.value then u.value else t
  }

  /** Request s is carried out before request t: by an earlier call, or as the newer one by the same registration. */
  predicate Sooner(ops: seq<Op>, s: nat, t: nat)
    requires s < |ops| && t < |ops|
  {
    When(ops, s) < When(ops, t) || (When(ops, s) == When(ops, t) && t < s)
  }

  /** Of the requests for pointer d that are carried out, t is the last, and makes it v. */
  ghost predicate Decides(ops: seq<Op>, t: nat, d: Address, v: Address) {
    && Gives(ops, t, d, v)
    && forall s: nat, w: Address :: Gives(ops, s, d, w) && s != t ==> Sooner(ops, s, t)
  }

  // ---- One more call -----------------------------------------------------------------------------

  lemma {:induction false} RunSnoc(ops: seq<Op>, op: Op)
    ensures Run(ops + [op]) == (Apply(Run(ops).0, op).0, Run(ops).1 && Apply(Run(ops).0, op).1)
  {
    assert (ops + [op])[..|ops|] == ops;
  }

  lemma {:induction false} FirstRegisterSnoc(ops: seq<Op>, op: Op, name: string)
    ensures FirstRegister(ops + [op], name)
         == var u := FirstRegister(ops, name);
            if u.None? && op.Register? && op.name == name then Some(|ops|) else u
  {
    assert (ops + [op])[..|ops|] == ops;
  }

  lemma MentionedSnoc(ops: seq<Op>, op: Op, name: string)
    ensures Mentioned(ops + [op], name) <==> Mentioned(ops, name) || op.name == name
  {
    var ops' := ops + [op];
    assert ops'[|ops|] == op;
    if Mentioned(ops, name) {
      var i :| 0 <= i < |ops| && ops[i].name == name;
      assert ops'[i].name == name;
    }
  }

  lemma {:induction false} WaitingSnoc(ops: seq<Op>, op: Op, name: string)
    ensures Waiting(ops + [op], name)
         == (if op.Require? && op.name == name then [Cut(op.request)] else []) + Waiting(ops, name)
  {
    assert (ops + [op])[..|ops|] == ops;
  }

  lemma {:induction false} WaitingLength(ops: seq<Op>, name: string)
    ensures |Waiting(ops, name)| == |Requests(ops, name)|
  {
    if ops != [] {
      WaitingLength(ops[..|ops| - 1], name);
    }
  }

  lemma {:induction false} WaitingAt(ops: seq<Op>, name: string, k: nat)
    requires k < |Requests(ops, name)|
    ensures k < |Waiting(ops, name)| && Waiting(ops, name)[k] == Cut(ops[Requests(ops, name)[k]].request)
  {
    var n := |ops| - 1;
    if !IsRequest(ops, n, name) {
      WaitingAt(ops[..n], name, k);
    } else if k > 0 {
      WaitingAt(ops[..n], name, k - 1);
    }
  }

  lemma {:induction false} RequestsFall(ops: seq<Op>, name: string, j: nat, k: nat)
    requires j < k < |Requests(ops, name)|
    ensures Requests(ops, name)[k] < Requests(ops, name)[j]
  {
    var n := |ops| - 1;
    if !IsRequest(ops, n, name) {
      RequestsFall(ops[..n], name, j, k);
    } else if j > 0 {
      RequestsFall(ops[..n], name, j - 1, k - 1);
    }
  }

  /** Where a request is among the requests for its name. */
  lemma {:induction false} RequestAt(ops: seq<Op>, t: nat, name: string) returns (k: nat)
    requires t < |ops| && IsRequest(ops, t, name)
    ensures k < |Requests(ops, name)| && Requests(ops, name)[k] == t
  {
    var n := |ops| - 1;
    if t == n {
      k := 0;
    } else {
      k := RequestAt(ops[..n], t, name);
      k := if IsRequest(ops, n, name) then k + 1 else k;
    }
  }

  /** A source after any run, failed calls included. */
  ghost predicate SourceFollows(ops: seq<Op>, s: Links, name: string) {
    var src := SourceOf(s, name);
    && (name in s.sources <==> Mentioned(ops, name))
    && match FirstRegister(ops, name)
       case None => src == Source(None, Waiting(ops, name))
       case Some(u) =>
         && src.reg == Some(ops[u].reg)
         && src.pending == Drain(ops[u].reg, Waiting(ops[..u], name), Run(ops[..u]).0.memory).rest
  }

  /** What a call does to the source of a name. */
  lemma ApplySource(l: Links, op: Op, name: string)
    ensures var l', src := Apply(l, op).0, SourceOf(l, name);
      SourceOf(l', name) ==
        if op.name != name || src.reg.Some? then src
        else match op
          case Register(_, reg) => Source(Some(reg), Drain(reg, src.pending, l.memory).rest)
          case Require(_, q) => src.(pending := [Cut(q)] + src.pending)
    ensures name in Apply(l, op).0.sources <==> name in l.sources || op.name == name
  {
  }

  lemma {:induction false} SourceStep(ops: seq<Op>, op: Op, name: string)
    requires SourceFollows(ops, Run(ops).0, name)
    ensures SourceFollows(ops + [op], Run(ops + [op]).0, name)
  {
    RunSnoc(ops, op);
    ApplySource(Run(ops).0, op, name);
    FirstRegisterSnoc(ops, op, name);
    MentionedSnoc(ops, op, name);
    WaitingSnoc(ops, op, name);
    var u := FirstRegister(ops, name);
    if u.Some? {
      assert (ops + [op])[..u.value] == ops[..u.value];
    } else {
      assert (ops + [op])[..|ops|] == ops;
      assert op.name != name ==> [] + Waiting(ops, name) == Waiting(ops, name);
    }
  }

  lemma {:induction false} SourceAfter(ops: seq<Op>, name: string)
    ensures SourceFollows(ops, Run(ops).0, name)
  {
    if ops != [] {
      var n := |ops| - 1;
      SourceAfter(ops[..n], name);
      assert ops == ops[..n] + [ops[n]];
      SourceStep(ops[..n], ops[n], name);
    }
  }

  // ---- The relocation loop -----------------------------------------------------------------------

  /** Waiting request k is carried out by a registration: it fits, and so do those in front of it. */
  ghost predicate Served(reg: Registration, pending: seq<Request>, k: nat) {
    k < |pending| && forall i :: 0 <= i <= k ==> Resolve(reg, pending[i]).Some?
  }

  lemma {:induction false} DrainOk(reg: Registration, pending: seq<Request>, memory: map<Address, Address>)
    ensures Drain(reg, pending, memory).ok <==> forall q :: q in pending ==> Resolve(reg, q).Some?
    ensures Drain(reg, pending, memory).ok ==> Drain(reg, pending, memory).rest == []
  {
    if pending != [] {
      assert pending == [pending[0]] + pending[1..];
      var r := Resolve(reg, pending[0]);
      if r.Some? {
        DrainOk(reg, pending[1..], memory[pending[0].dst := r.value]);
      }
    }
  }

  /** A registration leaves no request waiting exactly when every one but the oldest fits. */
  lemma {:induction false} DrainLeavesNothingIff(reg: Registration, pending: seq<Request>,
                                                 memory: map<Address, Address>)
    ensures Drain(reg, pending, memory).rest == []
       <==> forall i :: 0 <= i < |pending| - 1 ==> Resolve(reg, pending[i]).Some?
  {
    if |pending| > 1 {
      var r := Resolve(reg, pending[0]);
      if r.Some? {
        DrainLeavesNothingIff(reg, pending[1..], memory[pending[0].dst := r.value]);
        assert forall i :: 0 < i < |pending| - 1 ==> pending[i] == pending[1..][i - 1];
      }
    }
  }

  lemma ServedTail(reg: Registration, pending: seq<Request>, k: nat)
    requires 0 < k && pending != [] && Resolve(reg, pending[0]).Some?
    ensures Served(reg, pending, k) <==> Served(reg, pending[1..], k - 1)
  {
    assert forall i :: 0 < i < |pending| ==> pending[i] == pending[1..][i - 1];
    if Served(reg, pending[1..], k - 1) {
      forall i | 0 <= i <= k ensures Resolve(reg, pending[i]).Some? {
        if i > 0 {
          assert Resolve(reg, pending[1..][i - 1]).Some?;
        }
      }
    } else if Served(reg, pending, k) {
      assert forall i :: 0 <= i < k ==> Resolve(reg, pending[1..][i]) == Resolve(reg, pending[i + 1]);
    }
  }

  /** Waiting request k is the last one for pointer d that is carried out. */
  ghost predicate LastServed(reg: Registration, pending: seq<Request>, k: nat, d: Address) {
    && Served(reg, pending, k) && pending[k].dst == d
    && forall j: nat :: k < j && Served(reg, pending, j) ==> pending[j].dst != d
  }

  ghost predicate NotServed(reg: Registration, pending: seq<Request>, d: Address) {
    forall k: nat :: Served(reg, pending, k) ==> pending[k].dst != d
  }

  lemma {:induction false} LastOrNone(reg: Registration, pending: seq<Request>, d: Address, n: nat) returns (k: nat)
    requires n <= |pending| && forall j: nat :: n <= j && Served(reg, pending, j) ==> pending[j].dst != d
    ensures LastServed(reg, pending, k, d) || NotServed(reg, pending, d)
  {
    if n == 0 {
      k := 0;
    } else if Served(reg, pending, n - 1) && pending[n - 1].dst == d {
      k := n - 1;
    } else {
      k := LastOrNone(reg, pending, d, n - 1);
    }
  }

  /** A pointer after the loop: as the last of its requests that was carried out wants it, or else as it was. */
  lemma {:induction false} DrainMemory(reg: Registration, pending: seq<Request>, memory: map<Address, Address>,
                                       d: Address)
    ensures var m := Drain(reg, pending, memory).memory;
      && (forall k: nat :: LastServed(reg, pending, k, d) ==> d in m && Resolve(reg, pending[k]) == Some(m[d]))
      && (NotServed(reg, pending, d) ==> (d in m <==> d in memory) && (d in m ==> m[d] == memory[d]))
  {
    if pending != [] && Resolve(reg, pending[0]).Some? {
      var v, rest := Resolve(reg, pending[0]).value, pending[1..];
      var memory' := memory[pending[0].dst := v];
      DrainMemory(reg, rest, memory', d);
      forall k: nat | 0 < k < |pending|
        ensures pending[k] == rest[k - 1] && (Served(reg, pending, k) <==> Served(reg, rest, k - 1))
      {
        ServedTail(reg, pending, k);
      }
      forall k: nat | Served(reg, rest, k) ensures Served(reg, pending, k + 1) && pending[k + 1] == rest[k] {
        ServedTail(reg, pending, k + 1);
      }
      assert Served(reg, pending, 0);
      var m := Drain(reg, pending, memory).memory;
      forall k: nat | LastServed(reg, pending, k, d) ensures d in m && Resolve(reg, pending[k]) == Some(m[d]) {
        if k > 0 {
          assert LastServed(reg, rest, k - 1, d);
        } else {
          assert NotServed(reg, rest, d);
        }
      }
    } else {
      assert forall k: nat :: !Served(reg, pending, k);
    }
  }

  /** The oldest waiting request is carried out last, and decides. */
  lemma {:induction false} DrainLast(reg: Registration, pending: seq<Request>, memory: map<Address, Address>)
    requires pending != [] && Drain(reg, pending, memory).ok
    ensures var q := pending[|pending| - 1];
      Resolve(reg, q).Some? && q.dst in Drain(reg, pending, memory).memory
      && Some(Drain(reg, pending, memory).memory[q.dst]) == Resolve(reg, q)
  {
    var v := Resolve(reg, pending[0]).value;
    var memory' := memory[pending[0].dst := v];
    if |pending| > 1 {
      DrainLast(reg, pending[1..], memory');
    } else {
      assert Drain(reg, pending[1..], memory') == Drained([], memory', true);
    }
  }

  // ---- Which calls return 0 ----------------------------------------------------------------------

  ghost predicate RegisteredOnce(ops: seq<Op>) {
    forall i, j :: 0 <= i < j < |ops| && ops[i].Register? && ops[j].Register? ==> ops[i].name != ops[j].name
  }

  /** Every request for a registered name is offered a variable. */
  ghost predicate Offered(ops: seq<Op>) {
    forall t :: 0 <= t < |ops| && ops[t].Require? && FirstRegister(ops, ops[t].name).Some? ==> Offer(ops, t).Some?
  }

  ghost predicate CallsFit(ops: seq<Op>) {
    RegisteredOnce(ops) && Offered(ops)
  }

  /** What a call finds and answers, given the calls before it. */
  lemma {:induction false} ApplyOk(ops: seq<Op>, op: Op)
    ensures Apply(Run(ops).0, op).1 <==>
      var u := FirstRegister(ops, op.name);
      match op
      case Register(name, reg) =>
        && u.None?
        && forall t :: 0 <= t < |ops| && IsRequest(ops, t, name) ==> Resolve(reg, Cut(ops[t].request)).Some?
      case Require(name, q) => u.None? || Resolve(ops[u.value].reg, q).Some?
  {
    SourceAfter(ops, op.name);
    if op.Register? && FirstRegister(ops, op.name).None? {
      var p, w := Requests(ops, op.name), Waiting(ops, op.name);
      DrainOk(op.reg, w, Run(ops).0.memory);
      forall t | 0 <= t < |ops| && IsRequest(ops, t, op.name) ensures Cut(ops[t].request) in w {
        var k := RequestAt(ops, t, op.name);
        WaitingAt(ops, op.name, k);
      }
      forall k | 0 <= k < |w| ensures k < |p| && w[k] == Cut(ops[p[k]].request) {
        WaitingLength(ops, op.name);
        WaitingAt(ops, op.name, k);
      }
    }
  }

  /** What one more call does to the offers. */
  lemma {:induction false} OfferSnoc(ops: seq<Op>, op: Op, t: nat)
    requires t < |ops| && ops[t].Require?
    ensures var u := FirstRegister(ops, ops[t].name);
      Offer(ops + [op], t) == if u.None? && op.Register? && op.name == ops[t].name
                              then Resolve(op.reg, Cut(ops[t].request)) else Offer(ops, t)
  {
    FirstRegisterSnoc(ops, op, ops[t].name);
  }

  lemma {:induction false} RegisteredOnceSnoc(ops: seq<Op>, op: Op)
    ensures RegisteredOnce(ops + [op])
       <==> RegisteredOnce(ops) && (op.Register? ==> FirstRegister(ops, op.name).None?)
  {
    var ops' := ops + [op];
    assert forall i :: 0 <= i < |ops| ==> ops'[i] == ops[i];
    assert ops'[|ops|] == op;
    var u := FirstRegister(ops, op.name);
    assert op.Register? && u.Some? ==> ops'[u.value].name == ops'[|ops|].name;
  }

  /** An offer of a longer run, for a request of the shorter one. */
  lemma {:induction false} OfferLater(ops: seq<Op>, op: Op, t: nat)
    requires t < |ops| && ops[t].Require? && (op.Register? ==> FirstRegister(ops, op.name).None?)
    ensures (FirstRegister(ops + [op], ops[t].name).Some? ==> Offer(ops + [op], t).Some?)
       <==> (FirstRegister(ops, ops[t].name).Some? ==> Offer(ops, t).Some?)
            && (op.Register? && op.name == ops[t].name ==> Resolve(op.reg, Cut(ops[t].request)).Some?)
  {
    OfferSnoc(ops, op, t);
    FirstRegisterSnoc(ops, op, ops[t].name);
  }

  /** The last call is a registration that finds no earlier one, or a request. */
  lemma {:induction false} OfferedSnoc(ops: seq<Op>, op: Op)
    requires op.Register? ==> FirstRegister(ops, op.name).None?
    ensures Offered(ops + [op]) <==> Offered(ops) && Apply(Run(ops).0, op).1
  {
    var ops', n := ops + [op], |ops|;
    ApplyOk(ops, op);
    FirstRegisterSnoc(ops, op, op.name);
    assert ops'[n] == op;
    assert forall t :: 0 <= t < n ==> ops'[t] == ops[t];
    forall t | 0 <= t < n && ops[t].Require?
      ensures (FirstRegister(ops', ops[t].name).Some? ==> Offer(ops', t).Some?)
         <==> (FirstRegister(ops, ops[t].name).Some? ==> Offer(ops, t).Some?)
              && (op.Register? && op.name == ops[t].name ==> Resolve(op.reg, Cut(ops[t].request)).Some?)
    {
      OfferLater(ops, op, t);
    }
    if op.Require? {
      assert FirstRegister(ops', op.name) == FirstRegister(ops, op.name);
      assert (FirstRegister(ops', op.name).Some? ==> Offer(ops', n).Some?) <==> Apply(Run(ops).0, op).1;
    }
  }

  lemma {:induction false} CallsFitSnoc(ops: seq<Op>, op: Op)
    ensures CallsFit(ops + [op]) <==> CallsFit(ops) && Apply(Run(ops).0, op).1
  {
    RegisteredOnceSnoc(ops, op);
    ApplyOk(ops, op);
    if op.Register? ==> FirstRegister(ops, op.name).None? {
      OfferedSnoc(ops, op);
    }
  }

  /** All calls of a run return 0 exactly when they fit each other, whatever the indices are. */
  lemma {:induction false} RunSucceedsIff(ops: seq<Op>)
    ensures Run(ops).1 <==> CallsFit(ops)
  {
    if ops != [] {
      var n := |ops| - 1;
      assert ops == ops[..n] + [ops[n]];
      RunSucceedsIff(ops[..n]);
      RunSnoc(ops[..n], ops[n]);
      CallsFitSnoc(ops[..n], ops[n]);
    }
  }

  // ---- Which pointers a run sets -----------------------------------------------------------------

  /** A pointer after any run: set exactly if some request for it was carried out, as the last of these wants it. */
  ghost predicate PointerFollows(ops: seq<Op>, s: Links, d: Address) {
    && (d in s.memory ==> exists t: nat :: Decides(ops, t, d, s.memory[d]))
    && (forall t: nat, v: Address :: Gives(ops, t, d, v) ==> d in s.memory)
  }

  /** What was given stays given, whatever is called next. */
  lemma {:induction false} GivesLater(ops: seq<Op>, op: Op, t: nat, d: Address, v: Address)
    requires t < |ops| && (op.Register? && op.name == ops[t].name ==> FirstRegister(ops, op.name).Some?)
    ensures Gives(ops + [op], t, d, v) <==> Gives(ops, t, d, v)
  {
    var ops' := ops + [op];
    assert forall w :: 0 <= w < |ops| ==> ops'[w] == ops[w];
    if ops[t].Require? {
      FirstRegisterSnoc(ops, op, ops[t].name);
      assert Offer(ops', t) == Offer(ops, t);
      if Offer(ops, t).Some? {
        var u := FirstRegister(ops, ops[t].name).value;
        forall w | t < w < u && IsRequest(ops, w, ops[t].name) ensures Offer(ops', w) == Offer(ops, w) {
        }
      }
    }
  }

  lemma {:induction false} OfferServed(ops: seq<Op>, op: Op, k: nat)
    requires op.Register? && FirstRegister(ops, op.name).None? && k < |Requests(ops, op.name)|
    ensures k < |Waiting(ops, op.name)|
    ensures Offer(ops + [op], Requests(ops, op.name)[k]) == Resolve(op.reg, Waiting(ops, op.name)[k])
  {
    WaitingAt(ops, op.name, k);
    FirstRegisterSnoc(ops, op, op.name);
  }

  lemma {:induction false} HonouredServed(ops: seq<Op>, op: Op, k: nat)
    requires op.Register? && FirstRegister(ops, op.name).None? && k < |Requests(ops, op.name)|
    ensures Honoured(ops + [op], Requests(ops, op.name)[k]) <==> Served(op.reg, Waiting(ops, op.name), k)
  {
    var ops', p, w := ops + [op], Requests(ops, op.name), Waiting(ops, op.name);
    FirstRegisterSnoc(ops, op, op.name);
    WaitingLength(ops, op.name);
    OfferServed(ops, op, k);
    if Honoured(ops', p[k]) {
      forall i | 0 <= i < k ensures Resolve(op.reg, w[i]).Some? {
        OfferServed(ops, op, i);
        RequestsFall(ops, op.name, i, k);
        assert IsRequest(ops', p[i], op.name);
      }
    } else if Served(op.reg, w, k) {
      forall t | p[k] < t < |ops| && IsRequest(ops', t, op.name) ensures Offer(ops', t).Some? {
        var i := RequestAt(ops, t, op.name);
        if k < i {
          RequestsFall(ops, op.name, k, i);
        }
        OfferServed(ops, op, i);
      }
    }
  }

  /** A registration that comes first gives exactly what the relocation loop serves. */
  lemma {:induction false} GivesServed(ops: seq<Op>, op: Op, k: nat, d: Address, v: Address)
    requires op.Register? && FirstRegister(ops, op.name).None? && k < |Requests(ops, op.name)|
    ensures k < |Waiting(ops, op.name)|
    ensures Gives(ops + [op], Requests(ops, op.name)[k], d, v) <==>
      var w := Waiting(ops, op.name);
      Served(op.reg, w, k) && w[k].dst == d && Resolve(op.reg, w[k]) == Some(v)
  {
    WaitingAt(ops, op.name, k);
    OfferServed(ops, op, k);
    HonouredServed(ops, op, k);
  }

  /** A request that a call does not release from waiting is carried out when it was, or would have been. */
  lemma {:induction false} WhenLater(ops: seq<Op>, op: Op, t: nat)
    requires t < |ops| && (op.Register? && op.name == ops[t].name ==> FirstRegister(ops, op.name).Some?)
    ensures When(ops + [op], t) == When(ops, t) < |ops|
  {
    FirstRegisterSnoc(ops, op, ops[t].name);
  }

  /** A request goes on deciding if the next call gives the pointer nothing. */
  lemma {:induction false} DecidesLater(ops: seq<Op>, op: Op, t: nat, d: Address, v: Address)
    requires Decides(ops, t, d, v)
    requires forall s: nat, w: Address :: Gives(ops + [op], s, d, w) ==> s < |ops| && Gives(ops, s, d, w)
    requires Gives(ops + [op], t, d, v)
    requires forall s: nat, w: Address :: Gives(ops, s, d, w) ==> FirstRegister(ops, ops[s].name).Some?
    ensures Decides(ops + [op], t, d, v)
  {
    var ops' := ops + [op];
    WhenLater(ops, op, t);
    forall s: nat, w: Address | Gives(ops', s, d, w) && s != t ensures Sooner(ops', s, t) {
      WhenLater(ops, op, s);
    }
  }

  /** A first registration serves a request for the pointer: the last one served decides. */
  lemma {:induction false} FirstRegisterDecides(ops: seq<Op>, op: Op, k: nat, d: Address, v: Address)
    requires op.Register? && FirstRegister(ops, op.name).None?
    requires LastServed(op.reg, Waiting(ops, op.name), k, d) && Resolve(op.reg, Waiting(ops, op.name)[k]) == Some(v)
    ensures k < |Requests(ops, op.name)| && Decides(ops + [op], Requests(ops, op.name)[k], d, v)
  {
    var ops', p, w := ops + [op], Requests(ops, op.name), Waiting(ops, op.name);
    WaitingLength(ops, op.name);
    GivesServed(ops, op, k, d, v);
    FirstRegisterSnoc(ops, op, op.name);
    forall s: nat, x: Address | Gives(ops', s, d, x) && s != p[k] ensures Sooner(ops', s, p[k]) {
      if IsRequest(ops, s, op.name) {
        var j := RequestAt(ops, s, op.name);
        GivesServed(ops, op, j, d, x);
        assert j < k;
        RequestsFall(ops, op.name, j, k);
      } else {
        WhenLater(ops, op, s);
      }
    }
  }

  /** A first registration that serves no request for the pointer. */
  lemma {:induction false} NothingServed(ops: seq<Op>, op: Op, d: Address)
    requires op.Register? && FirstRegister(ops, op.name).None? && NotServed(op.reg, Waiting(ops, op.name), d)
    ensures forall s: nat, v: Address :: Gives(ops + [op], s, d, v) ==> s < |ops| && Gives(ops, s, d, v)
  {
    forall s: nat, v: Address | Gives(ops + [op], s, d, v) ensures s < |ops| && Gives(ops, s, d, v) {
      if IsRequest(ops, s, op.name) {
        var k := RequestAt(ops, s, op.name);
        GivesServed(ops, op, k, d, v);
      } else {
        GivesLater(ops, op, s, d, v);
      }
    }
  }

  lemma {:induction false} FirstRegisterGives(ops: seq<Op>, op: Op, d: Address)
    requires op.Register? && FirstRegister(ops, op.name).None? && PointerFollows(ops, Run(ops).0, d)
    ensures PointerFollows(ops + [op], Apply(Run(ops).0, op).0, d)
  {
    var ops', s, s' := ops + [op], Run(ops).0, Apply(Run(ops).0, op).0;
    var w := Waiting(ops, op.name);
    SourceAfter(ops, op.name);
    DrainMemory(op.reg, w, s.memory, d);
    var k := LastOrNone(op.reg, w, d, |w|);
    if LastServed(op.reg, w, k, d) {
      FirstRegisterDecides(ops, op, k, d, s'.memory[d]);
    } else {
      NothingServed(ops, op, d);
      if d in s'.memory {
        var t :| Decides(ops, t, d, s.memory[d]);
        GivesLater(ops, op, t, d, s.memory[d]);
        DecidesLater(ops, op, t, d, s.memory[d]);
      }
    }
  }

  lemma {:induction false} LateOffer(ops: seq<Op>, op: Op)
    requires op.Require?
    ensures (ops + [op])[|ops|] == op
    ensures Offer(ops + [op], |ops|)
         == match FirstRegister(ops, op.name) case None => None case Some(u) => Resolve(ops[u].reg, op.request)
    ensures Honoured(ops + [op], |ops|) <==> Offer(ops + [op], |ops|).Some?
  {
    FirstRegisterSnoc(ops, op, op.name);
  }

  /** What a request for a registered name gives, and for one that is not registered: nothing. */
  lemma {:induction false} RequestGives(ops: seq<Op>, op: Op, d: Address, v: Address)
    requires op.Require?
    ensures Gives(ops + [op], |ops|, d, v) <==>
      var reg := SourceOf(Run(ops).0, op.name).reg;
      reg.Some? && op.request.dst == d && Resolve(reg.value, op.request) == Some(v)
  {
    SourceAfter(ops, op.name);
    LateOffer(ops, op);
  }

  lemma {:induction false} GivesBefore(ops: seq<Op>, op: Op, d: Address)
    requires op.Require? || FirstRegister(ops, op.name).Some?
    ensures forall s: nat, v: Address :: s < |ops| ==> (Gives(ops + [op], s, d, v) <==> Gives(ops, s, d, v))
  {
    forall s: nat, v: Address | s < |ops| ensures Gives(ops + [op], s, d, v) <==> Gives(ops, s, d, v) {
      GivesLater(ops, op, s, d, v);
    }
  }

  lemma RequestDecides(ops: seq<Op>, op: Op, d: Address, v: Address)
    requires op.Require? && Gives(ops + [op], |ops|, d, v)
    ensures Decides(ops + [op], |ops|, d, v)
  {
    var ops', n := ops + [op], |ops|;
    forall s: nat, w: Address | Gives(ops', s, d, w) && s != n ensures Sooner(ops', s, n) {
      WhenLater(ops, op, s);
    }
  }

  /** What a request does to a pointer. */
  lemma RequireMemory(l: Links, op: Op, d: Address)
    requires op.Require?
    ensures var m, m', reg := l.memory, Apply(l, op).0.memory, SourceOf(l, op.name).reg;
      if reg.Some? && op.request.dst == d && Resolve(reg.value, op.request).Some?
      then d in m' && Resolve(reg.value, op.request) == Some(m'[d])
      else (d in m' <==> d in m) && (d in m' ==> m'[d] == m[d])
  {
  }

  lemma {:induction false} RequireGives(ops: seq<Op>, op: Op, d: Address)
    requires op.Require? && PointerFollows(ops, Run(ops).0, d)
    ensures PointerFollows(ops + [op], Apply(Run(ops).0, op).0, d)
  {
    var l, n := Run(ops).0, |ops|;
    var l', reg := Apply(l, op).0, SourceOf(l, op.name).reg;
    RequireMemory(l, op, d);
    GivesBefore(ops, op, d);
    forall v: Address | Gives(ops + [op], n, d, v) ensures d in l'.memory && l'.memory[d] == v {
      RequestGives(ops, op, d, v);
    }
    if d in l'.memory {
      RequestGives(ops, op, d, l'.memory[d]);
      if Gives(ops + [op], n, d, l'.memory[d]) {
        RequestDecides(ops, op, d, l'.memory[d]);
      } else {
        var t :| Decides(ops, t, d, l.memory[d]);
        DecidesLater(ops, op, t, d, l.memory[d]);
      }
    }
  }

  lemma {:induction false} RefusedGives(ops: seq<Op>, op: Op, d: Address)
    requires op.Register? && FirstRegister(ops, op.name).Some? && PointerFollows(ops, Run(ops).0, d)
    ensures PointerFollows(ops + [op], Apply(Run(ops).0, op).0, d)
  {
    SourceAfter(ops, op.name);
    var s := Run(ops).0;
    GivesBefore(ops, op, d);
    if d in s.memory {
      var t :| Decides(ops, t, d, s.memory[d]);
      DecidesLater(ops, op, t, d, s.memory[d]);
    }
  }

  lemma {:induction false} PointerAfter(ops: seq<Op>, d: Address)
    ensures PointerFollows(ops, Run(ops).0, d)
  {
    if ops != [] {
      var n := |ops| - 1;
      var before, op := ops[..n], ops[n];
      assert ops == before + [op];
      PointerAfter(before, d);
      RunSnoc(before, op);
      if op.Require? {
        RequireGives(before, op, d);
      } else if FirstRegister(before, op.name).None? {
        FirstRegisterGives(before, op, d);
      } else {
        RefusedGives(before, op, d);
      }
    }
  }

  /** What any run, failed calls included, leaves in a pointer: what the last request carried out for it wants. */
  lemma {:induction false} PointerIs(ops: seq<Op>, d: Address, v: Address)
    ensures d in Run(ops).0.memory && Run(ops).0.memory[d] == v <==> exists t: nat :: Decides(ops, t, d, v)
  {
    PointerAfter(ops, d);
    if t: nat :| Decides(ops, t, d, v) {
      var u: nat :| Decides(ops, u, d, Run(ops).0.memory[d]);
      assert u != t ==> Sooner(ops, u, t) && Sooner(ops, t, u);
    }
  }

  /** The index names a variable of the registration, and the type asked for is that variable's. */
  predicate Fits(reg: Registration, index: int, typ: VarType) {
    0 <= index < |reg.types| && reg.types[index] == typ
  }

  /** The index that is looked up for a request: one that had to wait has been cut to 16 bits. */
  function IndexUsed(ops: seq<Op>, t: nat, u: nat): int
    requires t < |ops| && ops[t].Require?
  {
    if t < u then ops[t].request.index % 0x1_0000 else ops[t].request.index
  }

  /** A request is offered the variable at its index of the first registration of its name, if it fits. */
  lemma {:induction false} OfferMeans(ops: seq<Op>, t: nat)
    requires t < |ops| && ops[t].Require?
    ensures Offer(ops, t) == match FirstRegister(ops, ops[t].name)
      case None => None
      case Some(u) =>
        var i := IndexUsed(ops, t, u);
        if Fits(ops[u].reg, i, ops[t].request.typ) then Some(ops[u].reg.vars[i]) else None
  {
  }

  /** It is carried out if it fits, and so do the newer ones that wait with it. */
  ghost predicate Reached(ops: seq<Op>, t: nat, u: nat)
    requires t < |ops| && ops[t].Require? && u < |ops| && ops[u].Register?
  {
    && Fits(ops[u].reg, IndexUsed(ops, t, u), ops[t].request.typ)
    && forall w :: t < w < u && IsRequest(ops, w, ops[t].name) ==>
         Fits(ops[u].reg, ops[w].request.index % 0x1_0000, ops[w].request.typ)
  }

  lemma {:induction false} HonouredMeans(ops: seq<Op>, t: nat)
    requires t < |ops| && ops[t].Require?
    ensures Honoured(ops, t) <==>
      match FirstRegister(ops, ops[t].name) case None => false case Some(u) => Reached(ops, t, u)
  {
    OfferMeans(ops, t);
    match FirstRegister(ops, ops[t].name)
    case None =>
    case Some(u) =>
      forall w | t < w < u && IsRequest(ops, w, ops[t].name)
        ensures Offer(ops, w).Some? <==> Fits(ops[u].reg, ops[w].request.index % 0x1_0000, ops[w].request.typ)
      {
        OfferMeans(ops, w);
      }
  }

  /**
   After any run, a pointer that one request was made for leads to the variable at the request's index of the first
   registration of its name, and is not set if that request does not fit or a newer one waits with it that does not.
   */
  lemma {:induction false} RequesterGets(ops: seq<Op>, t: nat)
    requires t < |ops| && ops[t].Require?
    requires forall s :: 0 <= s < |ops| && ops[s].Require? && s != t ==> ops[s].request.dst != ops[t].request.dst
    ensures var d, m := ops[t].request.dst, Run(ops).0.memory;
      match FirstRegister(ops, ops[t].name)
      case None => d !in m
      case Some(u) =>
        if Reached(ops, t, u) then d in m && m[d] == ops[u].reg.vars[IndexUsed(ops, t, u)] else d !in m
  {
    var d, m := ops[t].request.dst, Run(ops).0.memory;
    OfferMeans(ops, t);
    HonouredMeans(ops, t);
    if d in m {
      PointerIs(ops, d, m[d]);
      var s: nat :| Decides(ops, s, d, m[d]);
      assert s == t;
    }
    if Honoured(ops, t) {
      assert Decides(ops, t, d, Offer(ops, t).value);
      PointerIs(ops, d, Offer(ops, t).value);
    }
  }

  /** A request for a registered name sets its pointer at once, or fails and sets nothing. */
  lemma {:induction false} LateRequestSets(ops: seq<Op>, name: string, q: Request)
    requires FirstRegister(ops, name).Some?
    ensures
      var m, m', ok := Run(ops).0.memory, Run(ops + [Require(name, q)]).0.memory, Run(ops + [Require(name, q)]).1;
      var reg := ops[FirstRegister(ops, name).value].reg;
      if Fits(reg, q.index, q.typ) then m' == m[q.dst := reg.vars[q.index]] && ok == Run(ops).1
      else m' == m && !ok
  {
    RunSnoc(ops, Require(name, q));
    SourceAfter(ops, name);
  }

  // ---- What vr_connect says about a run ----------------------------------------------------------

  /** The first of the requests for its name. */
  ghost predicate Oldest(ops: seq<Op>, t: nat)
    requires t < |ops|
  {
    forall s :: 0 <= s < t ==> !IsRequest(ops, s, ops[t].name)
  }

  /** A registered name whose waiting requests, except the oldest one, are all offered a variable. */
  ghost predicate Bound(ops: seq<Op>, name: string) {
    && FirstRegister(ops, name).Some?
    && forall t :: 0 <= t < FirstRegister(ops, name).value && IsRequest(ops, t, name) && !Oldest(ops, t) ==>
         Offer(ops, t).Some?
  }

  lemma {:induction false} OldestIsLast(ops: seq<Op>, name: string, k: nat)
    requires k < |Requests(ops, name)|
    ensures Oldest(ops, Requests(ops, name)[k]) <==> k == |Requests(ops, name)| - 1
  {
    var p := Requests(ops, name);
    if k < |p| - 1 {
      RequestsFall(ops, name, k, |p| - 1);
      assert IsRequest(ops, p[|p| - 1], name);
    } else {
      forall s | 0 <= s < p[k] ensures !IsRequest(ops, s, name) {
        if IsRequest(ops, s, name) {
          var j := RequestAt(ops, s, name);
          assert j < k;
          RequestsFall(ops, name, j, k);
        }
      }
    }
  }

  /** The requests that a registration must serve so that none is left waiting. */
  lemma {:induction false} AllButOldest(ops: seq<Op>, name: string, reg: Registration)
    ensures (forall i :: 0 <= i < |Waiting(ops, name)| - 1 ==> Resolve(reg, Waiting(ops, name)[i]).Some?)
       <==> (forall t :: 0 <= t < |ops| && IsRequest(ops, t, name) && !Oldest(ops, t) ==>
              Resolve(reg, Cut(ops[t].request)).Some?)
  {
    var p, w := Requests(ops, name), Waiting(ops, name);
    WaitingLength(ops, name);
    forall i | 0 <= i < |w|
      ensures w[i] == Cut(ops[p[i]].request) && (Oldest(ops, p[i]) <==> i == |w| - 1)
    {
      WaitingAt(ops, name, i);
      OldestIsLast(ops, name, i);
    }
    forall t | 0 <= t < |ops| && IsRequest(ops, t, name) ensures exists i :: 0 <= i < |w| && p[i] == t {
      var i := RequestAt(ops, t, name);
    }
  }

  lemma OldestBefore(ops: seq<Op>, u: nat, t: nat)
    requires t < u <= |ops|
    ensures Oldest(ops[..u], t) <==> Oldest(ops, t)
  {
    assert forall s :: 0 <= s <= t ==> (IsRequest(ops[..u], s, ops[t].name) <==> IsRequest(ops, s, ops[t].name));
  }

  lemma {:induction false} BoundIff(ops: seq<Op>, name: string)
    ensures var src := SourceOf(Run(ops).0, name); src.reg.Some? && src.pending == [] <==> Bound(ops, name)
  {
    SourceAfter(ops, name);
    if FirstRegister(ops, name).Some? {
      var u := FirstRegister(ops, name).value;
      var before, reg := ops[..u], ops[u].reg;
      DrainLeavesNothingIff(reg, Waiting(before, name), Run(before).0.memory);
      AllButOldest(before, name, reg);
      forall t | 0 <= t < u
        ensures IsRequest(before, t, name) <==> IsRequest(ops, t, name)
        ensures Oldest(before, t) <==> Oldest(ops, t)
        ensures IsRequest(ops, t, name) ==> Offer(ops, t) == Resolve(reg, Cut(ops[t].request))
      {
        OldestBefore(ops, u, t);
      }
    }
  }

  /** After any run, failed calls included, vr_connect returns 0 exactly when every name used is bound. */
  lemma {:induction false} ConnectedIff(ops: seq<Op>)
    ensures Connected(Run(ops).0) <==> forall i :: 0 <= i < |ops| ==> Bound(ops, ops[i].name)
  {
    var s := Run(ops).0;
    forall name
      ensures name in s.sources <==> Mentioned(ops, name)
      ensures name in s.sources ==>
        (s.sources[name].reg.Some? && s.sources[name].pending == [] <==> Bound(ops, name))
    {
      SourceAfter(ops, name);
      BoundIff(ops, name);
    }
    if Connected(s) {
      forall i | 0 <= i < |ops| ensures Bound(ops, ops[i].name) {
        assert Mentioned(ops, ops[i].name);
      }
    }
  }

  /** A request made after the registration of its name. */
  ghost predicate Late(ops: seq<Op>, t: nat)
    requires t < |ops|
  {
    FirstRegister(ops, ops[t].name).Some? && FirstRegister(ops, ops[t].name).value < t
  }

  ghost predicate AllHonoured(ops: seq<Op>) {
    forall t :: 0 <= t < |ops| && ops[t].Require? ==> Honoured(ops, t)
  }

  /**
   When vr_connect returning 0 means that every request was carried out: exactly when the requests it says
   nothing about, the oldest of a name and those made after the registration, are offered a variable.
   */
  lemma {:induction false} AllHonouredIff(ops: seq<Op>)
    ensures AllHonoured(ops) <==>
      && Connected(Run(ops).0)
      && forall t :: 0 <= t < |ops| && ops[t].Require? && (Oldest(ops, t) || Late(ops, t)) ==> Offer(ops, t).Some?
  {
    ConnectedIff(ops);
    forall i | 0 <= i < |ops| && AllHonoured(ops) ensures Bound(ops, ops[i].name) {
      if ops[i].Require? {
        assert Honoured(ops, i);
      }
    }
    forall t | 0 <= t < |ops| && ops[t].Require? && Bound(ops, ops[t].name) && !Oldest(ops, t) && !Late(ops, t)
      ensures Offer(ops, t).Some?
    {
      assert IsRequest(ops, t, ops[t].name);
      assert ops[FirstRegister(ops, ops[t].name).value].Register?;
    }
  }

  /** If all calls returned 0, vr_connect returns 0 exactly when every name used is registered. */
  lemma {:induction false} ConnectedIffAllRegistered(ops: seq<Op>)
    requires Run(ops).1
    ensures Connected(Run(ops).0) <==> forall i :: 0 <= i < |ops| ==> FirstRegister(ops, ops[i].name).Some?
    ensures Connected(Run(ops).0) ==> AllHonoured(ops)
  {
    ConnectedIff(ops);
    RunSucceedsIff(ops);
    forall i | 0 <= i < |ops| ensures Bound(ops, ops[i].name) <==> FirstRegister(ops, ops[i].name).Some? {
    }
  }

  /** If all calls returned 0, no request waits for a registered name. */
  lemma {:induction false} NothingWaits(ops: seq<Op>, name: string)
    requires Run(ops).1 && SourceOf(Run(ops).0, name).reg.Some?
    ensures SourceOf(Run(ops).0, name).pending == []
  {
    RunSucceedsIff(ops);
    SourceAfter(ops, name);
    BoundIff(ops, name);
  }

  /** A request that does not fit can be lost: vr_connect then returns 0 with the pointer never set. */
  lemma FailureCanGoUnnoticed()
    ensures var ops := [Require("a", Request(0, VR_TYPE_INT, 7)), Register("a", Table([VR_TYPE_FLOAT], [9]))];
      !Run(ops).1 && Connected(Run(ops).0) && 7 !in Run(ops).0.memory
  {
    var q, r := Require("a", Request(0, VR_TYPE_INT, 7)), Register("a", Table([VR_TYPE_FLOAT], [9]));
    var ops := [q, r];
    assert ops[..1] == [q] && [q][..0] == [];
    assert Run([q]) == (Links(map["a" := Source(None, [q.request])], map[]), true) by {
      assert Cut(q.request) == q.request && [q.request] + [] == [q.request];
    }
    assert Drain(r.reg, [q.request], map[]) == Drained([], map[], false);
  }
}
