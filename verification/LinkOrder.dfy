/**
 When the order of the vr_register and vr_request calls does not matter (core/variable.c): a request is served
 in two ways, at once if its source is registered and later, with its index cut to 16 bits, if it is not.
 */
module LinkOrder {
  import opened Basics
  import opened Linking

  /** A registration and a request of one name. */
  ghost predicate Concerns(r: Op, q: Op) {
    r.Register? && q.Require? && r.name == q.name
  }

  /** Every request for a registered name fits its registration. */
  ghost predicate AllResolved(ops: multiset<Op>) {
    forall r, q :: r in ops && q in ops && Concerns(r, q) ==> Resolve(r.reg, q.request).Some?
  }

  /** No name is registered twice and every request for a registered name fits its registration. */
  ghost predicate Linkable(ops: multiset<Op>) {
    && (forall r :: r in ops && r.Register? ==> ops[r] == 1)
    && (forall r, r' :: r in ops && r' in ops && r.Register? && r'.Register? && r.name == r'.name ==> r == r')
    && AllResolved(ops)
  }

  /** A registration gives a request the same variable, or none, whether its index is cut to 16 bits or not. */
  ghost predicate CutHarmless(ops: multiset<Op>) {
    forall r, q :: r in ops && q in ops && Concerns(r, q) ==>
      Resolve(r.reg, Cut(q.request)) == Resolve(r.reg, q.request)
  }

  /** A pair of calls that want pointer d to be v. */
  ghost predicate Wants(r: Op, q: Op, d: Address, v: Address) {
    Concerns(r, q) && q.request.dst == d && Resolve(r.reg, q.request) == Some(v)
  }

  /** Some request asks for pointer d to be set to variable v. */
  ghost predicate Wanted(ops: multiset<Op>, d: Address, v: Address) {
    exists r, q :: r in ops && q in ops && Wants(r, q, d, v)
  }

  /** No pointer is asked to be two variables. */
  ghost predicate Consistent(ops: multiset<Op>) {
    forall d, v, v' :: Wanted(ops, d, v) && Wanted(ops, d, v') ==> v == v'
  }

  /** In particular, no index that fits in 16 bits is harmed. */
  lemma SmallIndicesHarmless(ops: multiset<Op>)
    requires forall q :: q in ops && q.Require? ==> 0 <= q.request.index < UINT16_RANGE
    ensures CutHarmless(ops)
  {
    forall r, q | r in ops && q in ops && Concerns(r, q)
      ensures Resolve(r.reg, Cut(q.request)) == Resolve(r.reg, q.request)
    {
      assert Cut(q.request) == q.request;
    }
  }

  // ---- The calls as a multiset -------------------------------------------------------------------

  lemma Elsewhere(ops: seq<Op>, k: nat, op: Op)
    requires k < |ops|
    ensures op in ops[..k] || op in ops[k + 1..] <==> exists i :: 0 <= i < |ops| && i != k && ops[i] == op
  {
    var front, back := ops[..k], ops[k + 1..];
    if op in front {
      var i :| 0 <= i < k && front[i] == op;
      assert ops[i] == op;
    } else if op in back {
      var i :| 0 <= i < |back| && back[i] == op;
      assert ops[k + 1 + i] == op;
    }
    if i :| 0 <= i < |ops| && i != k && ops[i] == op {
      assert op == if i < k then front[i] else back[i - k - 1];
    }
  }

  lemma OnceIff(ops: seq<Op>, op: Op)
    requires op in ops
    ensures multiset(ops)[op] == 1 <==> forall i, j :: 0 <= i < j < |ops| ==> !(ops[i] == op && ops[j] == op)
  {
    var k :| 0 <= k < |ops| && ops[k] == op;
    var front, back := ops[..k], ops[k + 1..];
    assert ops == front + [op] + back;
    assert multiset(ops)[op] == multiset(front)[op] + 1 + multiset(back)[op];
    Elsewhere(ops, k, op);
  }

  lemma RegisteredOnceIff(ops: seq<Op>)
    ensures RegisteredOnce(ops) <==>
      && (forall r :: r in multiset(ops) && r.Register? ==> multiset(ops)[r] == 1)
      && (forall r, r' :: r in multiset(ops) && r' in multiset(ops) && r.Register? && r'.Register? && r.name == r'.name
           ==> r == r')
  {
    forall r | r in ops ensures multiset(ops)[r] == 1
      <==> forall i, j :: 0 <= i < j < |ops| ==> !(ops[i] == r && ops[j] == r)
    {
      OnceIff(ops, r);
    }
    forall i, j | 0 <= i < j < |ops| ensures ops[i] in multiset(ops) && ops[j] in multiset(ops) {
    }
  }

  /** A name registered once is registered where it says. */
  lemma RegisteredAt(ops: seq<Op>, r: Op) returns (u: nat)
    requires RegisteredOnce(ops) && r in ops && r.Register?
    ensures u < |ops| && ops[u] == r && FirstRegister(ops, r.name) == Some(u)
  {
    u :| u < |ops| && ops[u] == r;
  }

  lemma {:induction false} OfferIs(ops: seq<Op>, t: nat)
    requires CutHarmless(multiset(ops)) && t < |ops| && ops[t].Require? && FirstRegister(ops, ops[t].name).Some?
    ensures Offer(ops, t) == Resolve(ops[FirstRegister(ops, ops[t].name).value].reg, ops[t].request)
  {
    var r := ops[FirstRegister(ops, ops[t].name).value];
    assert r in multiset(ops) && ops[t] in multiset(ops) && Concerns(r, ops[t]);
  }

  lemma OfferedIff(ops: seq<Op>)
    requires CutHarmless(multiset(ops)) && RegisteredOnce(ops)
    ensures Offered(ops) <==> AllResolved(multiset(ops))
  {
    if Offered(ops) {
      forall r, q | r in multiset(ops) && q in multiset(ops) && Concerns(r, q) ensures Resolve(r.reg, q.request).Some? {
        var u := RegisteredAt(ops, r);
        var t :| 0 <= t < |ops| && ops[t] == q;
        OfferIs(ops, t);
        assert Offer(ops, t).Some?;
      }
    } else {
      var t :| 0 <= t < |ops| && ops[t].Require? && FirstRegister(ops, ops[t].name).Some? && Offer(ops, t).None?;
      OfferIs(ops, t);
      var r := ops[FirstRegister(ops, ops[t].name).value];
      assert r in multiset(ops) && ops[t] in multiset(ops) && Concerns(r, ops[t]);
    }
  }

  /** A run succeeds exactly when its calls, in whatever order, fit together. */
  lemma {:induction false} RunSucceedsIffLinkable(ops: seq<Op>)
    requires CutHarmless(multiset(ops))
    ensures Run(ops).1 <==> Linkable(multiset(ops))
  {
    RunSucceedsIff(ops);
    RegisteredOnceIff(ops);
    if RegisteredOnce(ops) {
      OfferedIff(ops);
    }
  }

  lemma GivesWanted(ops: seq<Op>, t: nat, d: Address, v: Address)
    requires CutHarmless(multiset(ops)) && Gives(ops, t, d, v)
    ensures Wanted(multiset(ops), d, v)
  {
    var r, q := ops[FirstRegister(ops, ops[t].name).value], ops[t];
    assert r in multiset(ops) && q in multiset(ops) && Concerns(r, q);
    assert Wants(r, q, d, v);
  }

  lemma WantedGives(ops: seq<Op>, d: Address, v: Address) returns (t: nat)
    requires CutHarmless(multiset(ops)) && CallsFit(ops) && Wanted(multiset(ops), d, v)
    ensures Gives(ops, t, d, v)
  {
    var r, q :| r in multiset(ops) && q in multiset(ops) && Wants(r, q, d, v);
    var u := RegisteredAt(ops, r);
    t :| t < |ops| && ops[t] == q;
    assert Concerns(r, q);
    assert Offer(ops, t) == Some(v);
  }

  /** A pointer after successful calls: set exactly if some request for a registered name wants it, and to that. */
  ghost predicate PointerAsWanted(ops: seq<Op>, s: Links, d: Address) {
    && (d in s.memory ==> Wanted(multiset(ops), d, s.memory[d]))
    && (d !in s.memory ==> forall v :: !Wanted(multiset(ops), d, v))
  }

  /** A run succeeds exactly when its calls fit together, and then the pointers are what the calls ask for. */
  lemma {:induction false} RunMeaning(ops: seq<Op>)
    requires CutHarmless(multiset(ops))
    ensures Run(ops).1 <==> Linkable(multiset(ops))
    ensures Run(ops).1 ==> forall d :: PointerAsWanted(ops, Run(ops).0, d)
  {
    RunSucceedsIffLinkable(ops);
    RunSucceedsIff(ops);
    var s := Run(ops).0;
    forall d | Run(ops).1 ensures PointerAsWanted(ops, s, d) {
      PointerAfter(ops, d);
      if d in s.memory {
        var t: nat :| Decides(ops, t, d, s.memory[d]);
        GivesWanted(ops, t, d, s.memory[d]);
      }
      forall v | Wanted(multiset(ops), d, v) ensures d in s.memory {
        var t := WantedGives(ops, d, v);
      }
    }
  }

  // ---- Order of the calls ------------------------------------------------------------------------

  /**
   Two orders of the same calls both succeed or both fail; on success they set the same pointers, and, unless
   some pointer is requested twice as different variables, to the same variables.
   */
  lemma {:induction false} OrderIrrelevant(ops: seq<Op>, ops': seq<Op>)
    requires multiset(ops) == multiset(ops') && CutHarmless(multiset(ops))
    ensures Run(ops').1 <==> Run(ops).1
    ensures Run(ops).1 ==> Run(ops').0.memory.Keys == Run(ops).0.memory.Keys
    ensures Run(ops).1 && Consistent(multiset(ops)) ==> Run(ops').0.memory == Run(ops).0.memory
  {
    RunMeaning(ops);
    RunMeaning(ops');
    if Run(ops).1 {
      var s, s' := Run(ops).0, Run(ops').0;
      forall d: Address
        ensures d in s.memory <==> d in s'.memory
        ensures d in s.memory && Consistent(multiset(ops)) ==> s.memory[d] == s'.memory[d]
      {
        assert PointerAsWanted(ops, s, d) && PointerAsWanted(ops', s', d);
      }
    }
  }

  lemma MoveLast(ops: seq<Op>, q: Op) returns (rest: seq<Op>)
    requires q in ops
    ensures multiset(rest + [q]) == multiset(ops)
  {
    var i :| 0 <= i < |ops| && ops[i] == q;
    rest := ops[..i] + ops[i + 1..];
    assert ops == ops[..i] + [q] + ops[i + 1..];
  }

  /** Of several requests for one pointer, the one made last decides. */
  lemma {:induction false} LastRequestDecides(rest: seq<Op>, r: Op, q: Op)
    requires Run(rest + [q]).1 && r in rest && Concerns(r, q)
    ensures var m := Run(rest + [q]).0.memory;
      q.request.dst in m && Some(m[q.request.dst]) == Resolve(r.reg, q.request)
  {
    RunSnoc(rest, q);
    RunSucceedsIff(rest);
    SourceAfter(rest, q.name);
    var u :| 0 <= u < |rest| && rest[u] == r;
    assert FirstRegister(rest, q.name) == Some(u);
  }

  lemma {:induction false} WaitingLast(q: Op, rest: seq<Op>)
    requires q.Require?
    ensures Waiting([q] + rest, q.name) == Waiting(rest, q.name) + [Cut(q.request)]
  {
    if rest == [] {
      assert [q] + rest == [q] && [q][..0] == [];
      assert Waiting([q], q.name) == [Cut(q.request)] + [];
    } else {
      var n := |rest| - 1;
      assert [q] + rest == ([q] + rest[..n]) + [rest[n]] && rest == rest[..n] + [rest[n]];
      WaitingLast(q, rest[..n]);
      WaitingSnoc([q] + rest[..n], rest[n], q.name);
      WaitingSnoc(rest[..n], rest[n], q.name);
    }
  }

  /** Of the requests that wait for one registration, the one made first is carried out last. */
  lemma {:induction false} FirstRequestDecides(q: Op, rest: seq<Op>, r: Op)
    requires Run([q] + rest + [r]).1 && Concerns(r, q)
    ensures var m := Run([q] + rest + [r]).0.memory;
      q.request.dst in m && Some(m[q.request.dst]) == Resolve(r.reg, Cut(q.request))
  {
    var before := [q] + rest;
    RunSnoc(before, r);
    ApplyOk(before, r);
    SourceAfter(before, q.name);
    WaitingLast(q, rest);
    DrainLast(r.reg, Waiting(before, q.name), Run(before).0.memory);
  }

  /** Every order of the calls succeeds, with the same pointers. */
  ghost predicate AnyOrder(ops: seq<Op>) {
    forall ops' :: multiset(ops') == multiset(ops) ==> Run(ops').1 && Run(ops').0.memory == Run(ops).0.memory
  }

  /** Two orders of the same calls, in which q is the last and the first. */
  lemma LateAndEarly(ops: seq<Op>, r: Op, q: Op) returns (rest: seq<Op>)
    requires r in ops && q in ops && r != q
    ensures multiset(rest + [r] + [q]) == multiset(ops)
    ensures multiset([q] + rest + [r]) == multiset(ops)
  {
    var others := MoveLast(ops, q);
    assert r in multiset(others + [q]);
    rest := MoveLast(others, r);
  }

  lemma {:induction false} SomeOrder(ops: seq<Op>, ops': seq<Op>)
    requires AnyOrder(ops) && multiset(ops') == multiset(ops)
    ensures Run(ops').1 && Run(ops').0.memory == Run(ops).0.memory
  {
  }

  /** A request made before everything else and one made after everything else show both kinds of service. */
  lemma AnyOrderCuts(ops: seq<Op>, r: Op, q: Op)
    requires AnyOrder(ops) && r in ops && q in ops && Concerns(r, q)
    ensures Resolve(r.reg, Cut(q.request)) == Resolve(r.reg, q.request)
  {
    var rest := LateAndEarly(ops, r, q);
    SomeOrder(ops, rest + [r] + [q]);
    SomeOrder(ops, [q] + rest + [r]);
    assert r in rest + [r];
    LastRequestDecides(rest + [r], r, q);
    FirstRequestDecides(q, rest, r);
  }

  /** If a pointer is wanted to be v, some order of the calls makes it v. */
  lemma OrderFor(ops: seq<Op>, d: Address, v: Address) returns (ops': seq<Op>)
    requires CutHarmless(multiset(ops)) && Run(ops).1 && Wanted(multiset(ops), d, v)
    ensures multiset(ops') == multiset(ops)
    ensures d in Run(ops').0.memory && Run(ops').0.memory[d] == v
  {
    var r, q :| r in multiset(ops) && q in multiset(ops) && Wants(r, q, d, v);
    var rest := MoveLast(ops, q);
    ops' := rest + [q];
    assert r in multiset(ops');
    OrderIrrelevant(ops, ops');
    LastRequestDecides(rest, r, q);
  }

  /** Exactly when every order of the calls succeeds and sets the same pointers to the same variables. */
  lemma OrderIrrelevantIff(ops: seq<Op>)
    ensures AnyOrder(ops)
       <==> Linkable(multiset(ops)) && CutHarmless(multiset(ops)) && Consistent(multiset(ops))
  {
    var calls := multiset(ops);
    if AnyOrder(ops) {
      forall r, q | r in calls && q in calls && Concerns(r, q)
        ensures Resolve(r.reg, Cut(q.request)) == Resolve(r.reg, q.request)
      {
        AnyOrderCuts(ops, r, q);
      }
      RunMeaning(ops);
      forall d, v, v' | Wanted(calls, d, v) && Wanted(calls, d, v') ensures v == v' {
        var one := OrderFor(ops, d, v);
        var other := OrderFor(ops, d, v');
      }
    } else if Linkable(calls) && CutHarmless(calls) && Consistent(calls) {
      RunMeaning(ops);
      forall ops' | multiset(ops') == calls ensures Run(ops').1 && Run(ops').0.memory == Run(ops).0.memory {
        OrderIrrelevant(ops, ops');
      }
    }
  }

  /** An index of 65536 or more is cut to 16 bits when the request comes first, and refused when it comes second. */
  lemma WideIndexBreaksOrder()
    ensures
      var q := Require("a", Request(UINT16_RANGE, VR_TYPE_FLOAT, 7));
      var r := Register("a", Table([VR_TYPE_FLOAT], [9]));
      Run([q, r]).1 && Run([q, r]).0.memory == map[7 := 9] && !Run([r, q]).1
  {
    var q, r := Require("a", Request(UINT16_RANGE, VR_TYPE_FLOAT, 7)), Register("a", Table([VR_TYPE_FLOAT], [9]));
    var cut := Request(0, VR_TYPE_FLOAT, 7);
    assert [q, r][..1] == [q] && [q][..0] == [] && [r, q][..1] == [r] && [r][..0] == [];
    assert [cut] + [] == [cut];
    assert Run([q]) == (Links(map["a" := Source(None, [cut])], map[]), true);
    assert Drain(r.reg, [cut], map[]) == Drain(r.reg, [], map[7 := 9]);
    assert Run([r]) == (Links(map["a" := Source(Some(r.reg), [])], map[]), true);
  }
}
