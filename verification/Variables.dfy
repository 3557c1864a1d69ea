/**
 The boot-time linker (core/variable.c): sources in a dictionary, requests that came before their source in a
 linked list per source, and one free list.  Every call is proved to do what module Linking says it does, and
 no request node is ever in two lists, or lost by a call that succeeds.
 */
module Variables {
  import opened Basics
  import opened Linking
  import opened LinkOrder
  import Strops

  /** Which list holds a node. */
  datatype Owner = Free | Waits(src: Source)

  /** vr_reloc_t. */
  class Reloc {
    var next: Reloc?
    var dst: Address
    var index: nat
    var typ: VarType
    ghost var owner: Owner
    ghost var height: nat  // how many nodes follow in the list

    constructor ()
      ensures next == null && typ == VR_TYPE_NULL
    {
      next, dst, index, typ := null, 0, 0, VR_TYPE_NULL;
      owner, height := Free, 0;
    }

    method Fill(index: nat, typ: ValueType, dst: Address, next: Reloc?, ghost owner: Owner, ghost height: nat)
      modifies this
      ensures this.index == index && this.typ == typ && this.dst == dst && this.next == next
      ensures this.owner == owner && this.height == height
    {
      this.dst, this.typ, this.index, this.next := dst, typ, index, next;
      this.owner, this.height := owner, height;
    }
  }

  ghost function Head(nodes: seq<Reloc>, i: nat): Reloc? {
    if i < |nodes| then nodes[i] else null
  }

  /** `nodes` is the null-terminated list that starts at `first`, and belongs to `owner`. */
  ghost predicate IsList(first: Reloc?, nodes: seq<Reloc>, owner: Owner)
    reads nodes
  {
    && first == Head(nodes, 0)
    && (forall i {:trigger nodes[i].next} :: 0 <= i < |nodes| ==> nodes[i].next == Head(nodes, i + 1))
    && (forall i :: 0 <= i < |nodes| ==> nodes[i].owner == owner && nodes[i].height == |nodes| - 1 - i)
  }

  /** The list's nodes hold the requests, in the same order. */
  ghost predicate Carries(nodes: seq<Reloc>, requests: seq<Request>)
    reads nodes
  {
    && |nodes| == |requests|
    && forall i :: 0 <= i < |nodes| ==>
         nodes[i].index == requests[i].index && nodes[i].typ == requests[i].typ && nodes[i].dst == requests[i].dst
  }

  /** The types of a registration, as the null-terminated array that vr_register is given. */
  ghost predicate TypesAre(types: seq<VarType>, reg: Registration) {
    && |reg.types| < |types|
    && types[..|reg.types|] == reg.types
    && types[|reg.types|] == VR_TYPE_NULL
  }

  /** vr_source_t. */
  class Source {
    var types: Option<seq<VarType>>
    var vars: seq<Address>
    var reloc: Reloc?
    ghost var pending: seq<Reloc>
    ghost var state: Linking.Source  // the abstract source
    ghost const name: string

    ghost predicate Valid()
      reads this, pending
    {
      && IsList(reloc, pending, Waits(this))
      && Carries(pending, state.pending)
      && (types.Some? <==> state.reg.Some?)
      && (types.Some? ==> TypesAre(types.value, state.reg.value) && vars == state.reg.value.vars)
    }

    constructor (ghost name: string)
      ensures Valid() && state == NEW_SOURCE && pending == [] && this.name == name
    {
      types, vars, reloc := None, [], null;
      this.name, pending, state := name, [], NEW_SOURCE;
    }

    /** A node in front of a list makes a list. */
    twostate lemma Pushed(rlc: Reloc)
      requires old(Valid()) && rlc !in old(pending) && pending == [rlc] + old(pending)
      requires forall n :: n in old(pending) ==> unchanged(n)
      requires reloc == rlc && rlc.next == old(reloc) && rlc.owner == Waits(this) && rlc.height == |old(pending)|
      ensures IsList(reloc, pending, Waits(this))
    {
      forall i | 0 <= i < |pending|
        ensures pending[i].next == Head(pending, i + 1)
        ensures pending[i].owner == Waits(this) && pending[i].height == |pending| - 1 - i
      {
        if i > 0 {
          var n := old(pending)[i - 1];
          assert pending[i] == n && n in old(pending);
          assert old(n.next == Head(pending, i) && n.owner == Waits(this) && n.height == |pending| - i);
        }
      }
    }

    /** Fill in a node and put it at the front of the list. */
    method PushFront(rlc: Reloc, index: nat, typ: ValueType, dst: Address)
      requires Valid() && rlc !in pending
      modifies this`reloc, this`pending, this`state, rlc
      ensures Valid() && pending == [rlc] + old(pending)
      ensures state == old(state).(pending := [Request(index, typ, dst)] + old(state).pending)
    {
      rlc.Fill(index, typ, dst, reloc, Waits(this), |pending|);
      reloc := rlc;
      pending, state := [rlc] + pending, state.(pending := [Request(index, typ, dst)] + state.pending);
      Pushed(rlc);
    }

    /** Take the first node off the list. */
    method PopFront() returns (rlc: Reloc)
      requires Valid() && reloc != null
      modifies this`reloc, this`pending, this`state
      ensures Valid() && old(state).pending != [] && state == old(state).(pending := old(state).pending[1..])
      ensures rlc == old(reloc) && old(pending) == [rlc] + pending && rlc !in pending
      ensures var q := old(state).pending[0];
        rlc.index == q.index && rlc.typ == q.typ && rlc.dst == q.dst
    {
      rlc := reloc;
      reloc := reloc.next;
      pending, state := pending[1..], state.(pending := state.pending[1..]);
    }

    method SetTypes(types: seq<VarType>, vars: seq<Address>, ghost reg: Registration)
      requires Valid() && TypesAre(types, reg) && vars == reg.vars
      modifies this`types, this`vars, this`state
      ensures Valid() && state == old(state).(reg := Some(reg))
    {
      this.types, this.vars := Some(types), vars;
      state := state.(reg := Some(reg));
    }

    /** The table goes on past the index: no terminator stands at or before it. */
    ghost predicate InTable(index: nat)
      requires types.Some?
      reads this`types
    {
      forall i :: 0 <= i <= index ==> i < |types.value| && types.value[i] != VR_TYPE_NULL
    }

    lemma InTableIff(index: nat)
      requires Valid() && types.Some?
      ensures InTable(index) <==> index < |state.reg.value.types|
      ensures InTable(index) ==> types.value[index] == state.reg.value.types[index] && index < |vars|
    {
      var reg := state.reg.value;
      if index < |reg.types| {
        forall i | 0 <= i <= index ensures types.value[i] != VR_TYPE_NULL {
          assert types.value[i] == types.value[..|reg.types|][i] == reg.types[i];
        }
        assert types.value[index] == types.value[..|reg.types|][index];
      }
    }

    /** The checks of vr_reloc_exec, and the variable that passes them. */
    method Select(index: nat, typ: VarType) returns (v: Option<Address>)
      requires Valid() && state.reg.Some? && typ != VR_TYPE_NULL
      ensures InTable(index) ==> index < |types.value| && index < |vars|
      ensures v == if InTable(index) && types.value[index] == typ then Some(vars[index]) else None
      ensures v == Resolve(state.reg.value, Request(index, typ, 0))
    {
      InTableIff(index);
      ghost var reg := state.reg.value;
      var i := 0;
      while i < index
        invariant 0 <= i <= index && i <= |reg.types|
      {
        if types.value[i] == VR_TYPE_NULL {
          return None;
        }
        assert i < |reg.types|;
        i := i + 1;
      }
      assert index < |reg.types| ==> types.value[index] == reg.types[index];
      v := if types.value[index] != typ then None else Some(vars[index]);
    }
  }

  lemma SetFacts(s: set<Reloc>, n: Reloc?)
    ensures s + {} == s && s - {} == s
    ensures n != null && n in s ==> s - {n} + {n} == s
  {
  }

  lemma UpdateTwice(m: map<string, Linking.Source>, name: string, s: Linking.Source, s': Linking.Source)
    ensures m[name := s][name := s'] == m[name := s']
    ensures name in m ==> m[name := m[name]] == m
  {
  }

  /** What Apply does with a request for a registered source. */
  lemma RequireRegistered(l: Links, name: string, q: Request, memory: map<Address, Address>)
    requires SourceOf(l, name).reg.Some?
    requires memory == match Resolve(SourceOf(l, name).reg.value, q)
      case None => l.memory
      case Some(v) => l.memory[q.dst := v]
    ensures Apply(l, Require(name, q))
         == (Links(l.sources[name := SourceOf(l, name)], memory), Resolve(SourceOf(l, name).reg.value, q).Some?)
  {
    UpdateTwice(l.sources, name, NEW_SOURCE, NEW_SOURCE);
  }

  /** Where the index of a request starts: after the last dot of its text. */
  function LastDot(text: string): (dot: Option<nat>)
    ensures dot.Some? ==> dot.value < |text|
  {
    if text == [] then None
    else if text[|text| - 1] == '.' then Some(|text| - 1)
    else LastDot(text[..|text| - 1])
  }

  /** What the text of a request names. */
  function Parse(text: string): Option<(string, int)> {
    match LastDot(text)
    case None => None
    case Some(dot) => Some((text[..dot], Strops.WordToInt(text[dot + 1..])))
  }

  lemma {:induction false} LastDotInPrefix(name: string, index: string)
    requires '.' !in index
    ensures LastDot(name + "." + index) == Some(|name|)
  {
    var text := name + "." + index;
    if index != [] {
      LastDotInPrefix(name, index[..|index| - 1]);
      assert text[..|text| - 1] == name + "." + index[..|index| - 1];
    }
  }

  /** The text "name.index" names that source and that index, dots in the name included. */
  lemma {:induction false} ParsePrinted(name: string, index: nat)
    ensures Parse(name + "." + Strops.Decimal(index)) == Some((name, index))
  {
    Strops.DecimalDigits(index);
    LastDotInPrefix(name, Strops.Decimal(index));
    Strops.DecimalRoundTrip(index, "");
    var text := name + "." + Strops.Decimal(index);
    assert text[..|name|] == name && text[|name| + 1..] == Strops.Decimal(index);
    assert Strops.Decimal(index) + "" == Strops.Decimal(index);
  }

  lemma {:induction false} NoDot(text: string)
    ensures Parse(text) == None <==> '.' !in text
  {
    if text != [] && text[|text| - 1] != '.' {
      NoDot(text[..|text| - 1]);
      assert text == text[..|text| - 1] + [text[|text| - 1]];
    }
  }

  method FindDot(text: string) returns (dot: Option<nat>)
    ensures dot == LastDot(text)
  {
    dot := None;
    var i := 0;
    while i < |text|
      invariant i <= |text| && dot == LastDot(text[..i])
    {
      assert text[..i + 1][..i] == text[..i];
      if text[i] == '.' {
        dot := Some(i);
      }
      i := i + 1;
    }
    assert text[..i] == text;
  }

  /** Split the text of a request into name and index. */
  method SplitText(text: string) returns (parts: Option<(string, int)>)
    ensures parts == Parse(text)
  {
    var dot := FindDot(text);
    if dot.None? {
      return None;
    }
    var index, _ := Strops.ReadInt(text[dot.value + 1..]);
    parts := Some((text[..dot.value], index));
  }

  /** Read the variables that go with the types of a registration. */
  method ReadTable(types: seq<VarType>, args: seq<Address>, ghost reg: Registration) returns (vars: seq<Address>)
    requires TypesAre(types, reg) && |reg.vars| <= |args| && args[..|reg.vars|] == reg.vars
    ensures vars == reg.vars
  {
    var numArgs := 0;
    while types[numArgs] != VR_TYPE_NULL
      invariant numArgs <= |reg.types|
      decreases |reg.types| - numArgs
    {
      numArgs := numArgs + 1;
    }
    assert numArgs == |reg.types|;
    vars := [];
    var i := 0;
    while i < numArgs
      invariant 0 <= i <= numArgs && vars == args[..i]
    {
      vars := vars + [args[i]];
      i := i + 1;
    }
  }

  class Linker {
    var sources: map<string, Source>
    var freeReloc: Reloc?
    var memory: map<Address, Address>  // the requesters' pointers

    ghost var free: seq<Reloc>
    ghost var nodes: set<Reloc>        // the nodes in the lists
    ghost var made: set<Reloc>         // every node ever allocated
    ghost var calls: seq<Op>           // the calls so far

    /** The source of a name, with its list of waiting requests. */
    ghost predicate Holds(name: string)
      requires name in sources
      reads this`sources, this`nodes, sources[name], nodes
    {
      var src := sources[name];
      && src.name == name
      && (forall i :: 0 <= i < |src.pending| ==> src.pending[i] in nodes)
      && src.Valid()
    }

    /** Every node is in the list of its owner. */
    ghost predicate Accounted(n: Reloc)
      reads this`sources, this`free, n, sources.Values
    {
      match n.owner
      case Free => n in free
      case Waits(src) => src.name in sources && sources[src.name] == src && n in src.pending
    }

    ghost predicate Valid()
      reads this`sources, this`freeReloc, this`free, this`nodes, nodes, sources.Values
    {
      && (forall i :: 0 <= i < |free| ==> free[i] in nodes)
      && IsList(freeReloc, free, Free)
      && (forall name :: name in sources ==> Holds(name))
      && (forall n :: n in nodes ==> Accounted(n))
    }

    lemma ForSource(name: string)
      requires Valid() && name in sources
      ensures sources[name].Valid() && sources[name].name == name
      ensures forall n :: n in sources[name].pending ==> n in nodes
      ensures forall other :: other in sources && other != name ==> sources[other] != sources[name]
    {
      assert Holds(name);
      forall other | other in sources && other != name ensures sources[other] != sources[name] {
        assert Holds(other);
      }
    }

    ghost function States(): map<string, Linking.Source>
      reads this`sources, sources.Values
    {
      map name | name in sources :: sources[name].state
    }

    /** The state as module Linking sees it. */
    ghost function Abs(): Links
      reads this`sources, this`memory, sources.Values
    {
      Links(States(), memory)
    }

    twostate lemma AbsChanged(name: string)
      requires sources.Keys == old(sources.Keys) + {name}
      requires forall other :: other in old(sources) ==> sources[other] == old(sources[other])
      requires forall other :: other in old(sources) && other != name ==> unchanged(old(sources[other]))
      ensures Abs() == Links(old(Abs()).sources[name := sources[name].state], memory)
    {
    }

    // ---- Nodes -----------------------------------------------------------------------------------

    /** Work on the free list leaves the sources alone. */
    twostate lemma FreeChanged()
      requires sources == old(sources) && forall name :: name in sources ==> unchanged(sources[name])
      requires forall n :: n in old(nodes) && n !in old(free) ==> unchanged(n)
      requires IsList(freeReloc, free, Free)
      requires forall n :: n in nodes <==> (n in old(nodes) && n !in old(free)) || n in free
      ensures old(Valid()) ==> Valid()
    {
      if old(Valid()) {
        forall name | name in sources ensures Holds(name) {
          assert old(Holds(name));
        }
        forall n | n in nodes ensures Accounted(n) {
          assert n in old(nodes) ==> old(Accounted(n));
        }
      }
    }

    /** vr_reloc_alloc, when the free list has a node. */
    method Recycle() returns (rlc: Reloc)
      requires Valid() && freeReloc != null
      modifies this`freeReloc, this`free, this`nodes, nodes
      ensures Valid() && rlc in old(nodes) && nodes == old(nodes) - {rlc} && old(free) == [rlc] + free
      ensures rlc.next == null && rlc.typ == VR_TYPE_NULL
    {
      rlc := freeReloc;
      freeReloc := freeReloc.next;
      rlc.next, rlc.dst, rlc.index, rlc.typ := null, 0, 0, VR_TYPE_NULL;
      free, nodes := free[1..], nodes - {rlc};
      assert old(free) == [rlc] + free;
      FreeChanged();
    }

    /** vr_reloc_alloc. */
    method RelocAlloc() returns (rlc: Reloc)
      requires Valid()
      modifies this`freeReloc, this`free, this`nodes, this`made, nodes
      ensures Valid() && rlc !in nodes && rlc.next == null && rlc.typ == VR_TYPE_NULL
      ensures if old(free) == [] then fresh(rlc) && free == [] && nodes == old(nodes) && made == old(made) + {rlc}
              else old(free) == [rlc] + free && rlc in old(nodes) && nodes == old(nodes) - {rlc} && made == old(made)
    {
      if freeReloc != null {
        rlc := Recycle();
        return;
      }
      rlc := new Reloc();
      made := made + {rlc};
      FreeChanged();
    }

    /** vr_reloc_free. */
    method RelocFree(rlc: Reloc)
      requires Valid() && rlc !in nodes
      modifies this`freeReloc, this`free, this`nodes, rlc
      ensures Valid() && nodes == old(nodes) + {rlc} && free == [rlc] + old(free)
    {
      rlc.next := freeReloc;
      freeReloc := rlc;
      rlc.owner, rlc.height := Free, |free|;
      free, nodes := [rlc] + free, nodes + {rlc};
      FreeChanged();
    }

    // ---- Sources ---------------------------------------------------------------------------------

    twostate lemma SourceAdded(name: string)
      requires name !in old(sources) && sources.Keys == old(sources.Keys) + {name}
      requires forall other :: other in old(sources) ==> sources[other] == old(sources[other])
      requires forall other :: other in old(sources) ==> unchanged(old(sources[other]))
      requires sources[name].Valid() && sources[name].name == name && sources[name].pending == []
      requires nodes == old(nodes) && free == old(free) && freeReloc == old(freeReloc)
      requires forall n :: n in nodes ==> unchanged(n)
      ensures old(Valid()) ==> Valid()
    {
      if old(Valid()) {
        forall other | other in sources ensures Holds(other) {
          assert other != name ==> old(Holds(other));
        }
        forall n | n in nodes ensures Accounted(n) {
          assert old(Accounted(n));
        }
      }
    }

    method AddSource(name: string, src: Source)
      requires Valid() && name !in sources
      requires src.Valid() && src.state == NEW_SOURCE && src.pending == [] && src.name == name
      modifies this`sources
      ensures Valid() && sources == old(sources)[name := src]
    {
      sources := sources[name := src];
      SourceAdded(name);
    }

    /** vr_get_source. */
    method GetSource(name: string) returns (src: Source)
      requires Valid()
      modifies this`sources
      ensures Valid() && src.name == name && src.Valid() && sources == old(sources)[name := src]
      ensures if name in old(sources) then src == old(sources)[name] else fresh(src)
      ensures src.state == SourceOf(old(Abs()), name)
      ensures Abs() == Links(old(Abs()).sources[name := src.state], memory)
    {
      if name in sources {
        src := sources[name];
        ForSource(name);
        assert sources[name := src] == sources;
        AbsChanged(name);
        return;
      }
      src := new Source(name);
      AddSource(name, src);
      AbsChanged(name);
    }

    twostate lemma OthersKept(name: string)
      requires old(Valid()) && name in sources && sources == old(sources)
      requires forall other :: other in sources && other != name ==> unchanged(sources[other])
      requires forall n :: n in old(nodes) && n !in old(sources[name].pending) ==> unchanged(n)
      requires sources[name].Valid()
      requires forall n :: n in nodes <==>
        (n in old(nodes) && n !in old(sources[name].pending)) || n in sources[name].pending
      ensures forall other :: other in sources ==> Holds(other)
    {
      forall other | other in sources ensures Holds(other) {
        assert old(Holds(other)) && old(Holds(name));
      }
    }

    /** Work on one source and on the nodes that wait for it leaves everything else alone. */
    twostate lemma SourceChanged(name: string)
      requires name in sources && sources == old(sources)
      requires forall other :: other in sources && other != name ==> unchanged(sources[other])
      requires free == old(free) && freeReloc == old(freeReloc)
      requires forall n :: n in old(nodes) && n !in old(sources[name].pending) ==> unchanged(n)
      requires sources[name].Valid()
      requires forall n :: n in nodes <==>
        (n in old(nodes) && n !in old(sources[name].pending)) || n in sources[name].pending
      ensures old(Valid()) ==> Valid()
    {
      if old(Valid()) {
        OthersKept(name);
        forall n | n in nodes ensures Accounted(n) {
          assert n in old(nodes) ==> old(Accounted(n));
        }
      }
    }

    /** Fill in a node and put it at the front of a source's list. */
    method Push(src: Source, rlc: Reloc, index: nat, typ: ValueType, dst: Address)
      requires Valid() && src.name in sources && src == sources[src.name] && rlc !in nodes
      modifies src`reloc, src`pending, src`state, rlc, this`nodes
      ensures Valid() && nodes == old(nodes) + {rlc}
      ensures src.state == old(src.state).(pending := [Request(index, typ, dst)] + old(src.state).pending)
    {
      ForSource(src.name);
      nodes := nodes + {rlc};
      src.PushFront(rlc, index, typ, dst);
      SourceChanged(src.name);
    }

    /** Take the first node off a source's list. */
    method Pop(src: Source) returns (rlc: Reloc)
      requires Valid() && src.name in sources && src == sources[src.name] && src.reloc != null
      modifies src`reloc, src`pending, src`state, this`nodes
      ensures Valid() && src.Valid() && rlc in old(nodes) && nodes == old(nodes) - {rlc}
      ensures old(src.state).pending != []
      ensures Request(rlc.index, rlc.typ, rlc.dst) == old(src.state).pending[0] && rlc.typ != VR_TYPE_NULL
      ensures src.state == old(src.state).(pending := old(src.state).pending[1..])
    {
      ForSource(src.name);
      nodes := nodes - {src.reloc};
      rlc := src.PopFront();
      SourceChanged(src.name);
      ForSource(src.name);
    }

    method SetTypes(src: Source, types: seq<VarType>, vars: seq<Address>, ghost reg: Registration)
      requires Valid() && src.name in sources && src == sources[src.name]
      requires TypesAre(types, reg) && vars == reg.vars
      modifies src`types, src`vars, src`state
      ensures Valid() && src.state == old(src.state).(reg := Some(reg))
    {
      ForSource(src.name);
      src.SetTypes(types, vars, reg);
      SourceChanged(src.name);
    }

    /** vr_reloc_exec. */
    method RelocExec(src: Source, index: nat, typ: VarType, dst: Address) returns (ok: bool)
      requires src.Valid() && src.state.reg.Some? && typ != VR_TYPE_NULL
      modifies this`memory
      ensures var r := Resolve(src.state.reg.value, Request(index, typ, dst));
        ok == r.Some? && memory == if r.Some? then old(memory)[dst := r.value] else old(memory)
    {
      var v := src.Select(index, typ);
      if v.None? {
        return false;
      }
      memory := memory[dst := v.value];
      ok := true;
    }

    // ---- The calls -------------------------------------------------------------------------------

    /** Take the first request off a source's list and execute it. */
    method PopAndExec(src: Source, ghost reg: Registration) returns (ok: bool, rlc: Reloc)
      requires Valid() && src.name in sources && src == sources[src.name] && src.state.reg == Some(reg)
      requires src.reloc != null
      modifies src`reloc, src`pending, src`state, this`nodes, this`memory
      ensures Valid() && rlc in old(nodes) && nodes == old(nodes) - {rlc}
      ensures old(src.state).pending != [] && src.state == old(src.state).(pending := old(src.state).pending[1..])
      ensures var v := Resolve(reg, old(src.state).pending[0]);
        ok == v.Some? && memory == if ok then old(memory)[old(src.state).pending[0].dst := v.value] else old(memory)
    {
      rlc := Pop(src);
      ok := RelocExec(src, rlc.index, rlc.typ, rlc.dst);
    }

    /** One round of the relocation loop of vr_register; a request that does not fit is lost with its node. */
    method ExecFirst(src: Source, ghost reg: Registration) returns (ok: bool, rlc: Reloc)
      requires Valid() && src.name in sources && src == sources[src.name] && src.state.reg == Some(reg)
      requires src.reloc != null
      modifies src`reloc, src`pending, src`state, nodes, this`freeReloc, this`free, this`nodes, this`memory
      ensures Valid() && rlc in old(nodes) && nodes == if ok then old(nodes) else old(nodes) - {rlc}
      ensures old(src.state).pending != [] && src.state == old(src.state).(pending := old(src.state).pending[1..])
      ensures var v := Resolve(reg, old(src.state).pending[0]);
        ok == v.Some? && memory == if ok then old(memory)[old(src.state).pending[0].dst := v.value] else old(memory)
    {
      ok, rlc := PopAndExec(src, reg);
      SetFacts(old(nodes), rlc);
      if ok {
        RelocFree(rlc);
      }
    }

    /** The relocation loop of vr_register. */
    method DrainPending(src: Source, ghost reg: Registration) returns (ok: bool, ghost lost: set<Reloc>)
      requires Valid() && src.name in sources && src == sources[src.name] && src.state.reg == Some(reg)
      modifies src`reloc, src`pending, src`state, nodes, this`freeReloc, this`free, this`nodes, this`memory
      ensures Valid() && nodes == old(nodes) - lost
      ensures if ok then lost == {} else exists n :: n in old(nodes) && lost == {n}
      ensures Drained(src.state.pending, memory, ok) == Drain(reg, old(src.state).pending, old(memory))
      ensures src.state.reg == Some(reg)
    {
      ForSource(src.name);
      while src.reloc != null
        invariant Valid() && src.Valid() && nodes == old(nodes) && src.state.reg == Some(reg)
        invariant Drain(reg, src.state.pending, memory) == Drain(reg, old(src.state).pending, old(memory))
        decreases |src.state.pending|
      {
        var rlc;
        ok, rlc := ExecFirst(src, reg);
        if !ok {
          lost := {rlc};
          return;
        }
        ForSource(src.name);
      }
      ok, lost := true, {};
    }

    /** Between calls: the state is that of the calls made, and successful calls lose no node. */
    ghost predicate Settled()
      reads this, nodes, sources.Values
    {
      && Valid()
      && Abs() == Run(calls).0
      && nodes <= made
      && (Run(calls).1 ==> nodes == made)
    }

    /** A call that did what it should is added to the calls made. */
    ghost method Log(op: Op)
      requires Valid() && nodes <= made
      requires Abs() == Run(calls + [op]).0 && (Run(calls + [op]).1 ==> nodes == made)
      modifies this`calls
      ensures Settled() && calls == old(calls) + [op] && Abs() == old(Abs())
    {
      calls := calls + [op];
    }

    /** vr_init. */
    constructor ()
      ensures Settled() && calls == [] && made == {} && sources == map[]
    {
      sources, freeReloc, memory := map[], null, map[];
      calls, free, nodes, made := [], [], {}, {};
    }

    /** The tables of a source are stored, then its waiting requests are executed. */
    method StoreAndDrain(src: Source, types: seq<VarType>, vars: seq<Address>, ghost reg: Registration)
      returns (ok: bool, ghost lost: set<Reloc>)
      requires Valid() && src.name in sources && src == sources[src.name]
      requires TypesAre(types, reg) && vars == reg.vars
      modifies src, nodes, this`freeReloc, this`free, this`nodes, this`memory
      ensures Valid() && nodes == old(nodes) - lost
      ensures if ok then lost == {} else exists n :: n in old(nodes) && lost == {n}
      ensures Drained(src.state.pending, memory, ok) == Drain(reg, old(src.state).pending, old(memory))
      ensures src.state.reg == Some(reg)
    {
      SetTypes(src, types, vars, reg);
      ok, lost := DrainPending(src, reg);
    }

    /** vr_register, for a source that is not registered yet. */
    method FillSource(src: Source, types: seq<VarType>, args: seq<Address>, ghost reg: Registration)
      returns (ok: bool, ghost lost: set<Reloc>)
      requires Valid() && src.name in sources && src == sources[src.name]
      requires TypesAre(types, reg) && |reg.vars| <= |args| && args[..|reg.vars|] == reg.vars
      modifies src, nodes, this`freeReloc, this`free, this`nodes, this`memory
      ensures Valid() && nodes == old(nodes) - lost
      ensures if ok then lost == {} else exists n :: n in old(nodes) && lost == {n}
      ensures Drained(src.state.pending, memory, ok) == Drain(reg, old(src.state).pending, old(memory))
      ensures src.state.reg == Some(reg) && Abs() == Links(old(Abs()).sources[src.name := src.state], memory)
    {
      var vars := ReadTable(types, args, reg);
      ok, lost := StoreAndDrain(src, types, vars, reg);
      AbsChanged(src.name);
    }

    /** vr_register on the data; the bookkeeping of calls is in VrRegister. */
    method RegisterSource(name: string, types: seq<VarType>, args: seq<Address>, ghost reg: Registration)
      returns (ok: bool, ghost lost: set<Reloc>)
      requires Valid()
      requires TypesAre(types, reg) && |reg.vars| <= |args| && args[..|reg.vars|] == reg.vars
      modifies this`sources, this`freeReloc, this`free, this`nodes, this`memory, nodes, sources.Values
      ensures Valid() && nodes == old(nodes) - lost && lost <= old(nodes) && |lost| <= if ok then 0 else 1
      ensures (Abs(), ok) == Apply(old(Abs()), Register(name, reg))
    {
      ghost var before := Abs();
      SetFacts(nodes, null);
      var src := GetSource(name);
      ghost var s := src.state;
      if src.types != None {
        UpdateTwice(before.sources, name, s, s);
        return false, {};
      }
      ok, lost := FillSource(src, types, args, reg);
      UpdateTwice(before.sources, name, s, src.state);
    }

    /** vr_register.  The caller passes as many variables as there are types before the terminator. */
    method VrRegister(name: string, types: seq<VarType>, args: seq<Address>, ghost reg: Registration)
      returns (ok: bool, ghost lost: set<Reloc>)
      requires Settled()
      requires TypesAre(types, reg) && |reg.vars| <= |args| && args[..|reg.vars|] == reg.vars
      modifies this, nodes, sources.Values
      ensures Settled() && calls == old(calls) + [Register(name, reg)]
      ensures (Abs(), ok) == Apply(old(Abs()), Register(name, reg))
      ensures made == old(made) && nodes == old(nodes) - lost && lost <= old(nodes) && |lost| <= if ok then 0 else 1
    {
      SetFacts(nodes, null);
      RunSnoc(calls, Register(name, reg));
      ok, lost := RegisterSource(name, types, args, reg);
      Log(Register(name, reg));
    }

    /** Put a recycled or new node, filled in, at the front of a source's list. */
    method Append(src: Source, index: nat, typ: ValueType, target: Address) returns (ghost added: set<Reloc>)
      requires Valid() && src.name in sources && src == sources[src.name]
      modifies src`reloc, src`pending, src`state, nodes, this`freeReloc, this`free, this`nodes, this`made
      ensures Valid() && fresh(added) && nodes == old(nodes) + added && made == old(made) + added
      ensures src.state == old(src.state).(pending := [Request(index, typ, target)] + old(src.state).pending)
    {
      ForSource(src.name);
      var rlc := RelocAlloc();
      added := if rlc in old(nodes) then {} else {rlc};
      SetFacts(old(nodes), rlc);
      SetFacts(old(made), null);
      Push(src, rlc, index, typ, target);
    }

    /** vr_request, for a source that is not registered yet. */
    method Defer(src: Source, index: int, typ: ValueType, target: Address) returns (ghost added: set<Reloc>)
      requires Valid() && src.name in sources && src == sources[src.name]
      modifies src, nodes, this`freeReloc, this`free, this`nodes, this`made
      ensures Valid() && fresh(added) && nodes == old(nodes) + added && made == old(made) + added
      ensures src.state == old(src.state).(pending :=
                [Cut(Request(index, typ, target))] + old(src.state).pending)
      ensures Abs() == Links(old(Abs()).sources[src.name := src.state], memory)
    {
      added := Append(src, index % UINT16_RANGE, typ, target);
      AbsChanged(src.name);
    }

    /** vr_request, for a source that is registered. */
    method LinkNow(src: Source, index: nat, typ: ValueType, target: Address) returns (ok: bool)
      requires Valid() && src.name in sources && src == sources[src.name] && src.state.reg.Some?
      modifies this`memory
      ensures Valid() && Abs() == Links(old(Abs()).sources[src.name := src.state], memory)
      ensures var r := Resolve(src.state.reg.value, Request(index, typ, target));
        ok == r.Some? && memory == if r.Some? then old(memory)[target := r.value] else old(memory)
    {
      ForSource(src.name);
      ok := RelocExec(src, index, typ, target);
      AbsChanged(src.name);
    }

    /** The index of a request for a registered source is one that the code can look up. */
    ghost predicate IndexUsable(name: string, index: int)
      reads this`sources, this`memory, sources.Values
    {
      SourceOf(Abs(), name).reg.Some? ==> 0 <= index
    }

    /** vr_request on the data, with the text already split. */
    method RequestVariable(name: string, index: int, typ: ValueType, target: Address)
      returns (ok: bool, ghost added: set<Reloc>)
      requires Valid() && IndexUsable(name, index)
      modifies this`sources, this`freeReloc, this`free, this`nodes, this`made, this`memory, nodes, sources.Values
      ensures Valid() && fresh(added) && nodes == old(nodes) + added && made == old(made) + added
      ensures (Abs(), ok) == Apply(old(Abs()), Require(name, Request(index, typ, target)))
    {
      ghost var before := Abs();
      var src := GetSource(name);
      ghost var s := src.state;
      if src.types == None {
        added := Defer(src, index, typ, target);
        UpdateTwice(before.sources, name, s, src.state);
        return true, added;
      }
      added := {};
      SetFacts(nodes, null);
      SetFacts(made, null);
      ok := LinkNow(src, index, typ, target);
      UpdateTwice(before.sources, name, s, s);
      RequireRegistered(before, name, Request(index, typ, target), memory);
    }

    /** vr_request, after its text has been split. */
    method RequestParsed(name: string, index: int, typ: ValueType, target: Address)
      returns (ok: bool, ghost added: set<Reloc>)
      requires Settled() && IndexUsable(name, index)
      modifies this, nodes, sources.Values
      ensures Settled() && calls == old(calls) + [Require(name, Request(index, typ, target))]
      ensures (Abs(), ok) == Apply(old(Abs()), Require(name, Request(index, typ, target)))
      ensures fresh(added) && nodes == old(nodes) + added && made == old(made) + added
    {
      RunSnoc(calls, Require(name, Request(index, typ, target)));
      ok, added := RequestVariable(name, index, typ, target);
      Log(Require(name, Request(index, typ, target)));
    }

    /**
     vr_request.  A text without a dot is refused.  The caller names a type, and a negative index only for a source
     that is not registered yet: vr_reloc_exec would read before the table.
     */
    method VrRequest(text: string, typ: ValueType, target: Address) returns (ok: bool, ghost added: set<Reloc>)
      requires Settled() && (Parse(text).Some? ==> IndexUsable(Parse(text).value.0, Parse(text).value.1))
      modifies this, nodes, sources.Values
      ensures Settled() && fresh(added) && nodes == old(nodes) + added && made == old(made) + added
      ensures match Parse(text)
        case None => !ok && calls == old(calls) && Abs() == old(Abs())
        case Some((name, index)) =>
          && calls == old(calls) + [Require(name, Request(index, typ, target))]
          && (Abs(), ok) == Apply(old(Abs()), Require(name, Request(index, typ, target)))
    {
      var parts := SplitText(text);
      if parts.None? {
        SetFacts(nodes, null);
        SetFacts(made, null);
        return false, {};
      }
      ok, added := RequestParsed(parts.value.0, parts.value.1, typ, target);
    }

    /** A source that vr_connect has nothing to say against. */
    ghost predicate Done(name: string)
      requires name in sources
      reads this`sources, sources[name]
    {
      sources[name].state.reg.Some? && sources[name].state.pending == []
    }

    lemma DoneIff(name: string)
      requires Valid() && name in sources
      ensures Done(name) <==> sources[name].types != None && sources[name].reloc == null
    {
      ForSource(name);
    }

    lemma ConnectedIffDone()
      ensures Connected(Abs()) <==> forall name :: name in sources ==> Done(name)
    {
      forall name | name in sources ensures Abs().sources[name] == sources[name].state {
      }
    }

    /** The loop of vr_connect.  The order in which the sources are visited does not matter. */
    method AllDone() returns (ok: bool)
      requires Valid()
      ensures ok <==> forall name :: name in sources ==> Done(name)
    {
      var todo := sources.Keys;
      while todo != {}
        invariant todo <= sources.Keys
        invariant forall name :: name in sources && name !in todo ==> Done(name)
        decreases |todo|
      {
        var name :| name in todo;
        DoneIff(name);
        if sources[name].types == None || sources[name].reloc != null {
          return false;
        }
        todo := todo - {name};
      }
      ok := true;
    }

    /** vr_connect. */
    method VrConnect() returns (ok: bool)
      requires Settled()
      ensures ok <==> Connected(Abs())
    {
      ConnectedIffDone();
      ok := AllDone();
    }

    /**
     After any calls, failed ones included: vr_connect returns 0 exactly when every name used is bound, and then
     every request was carried out exactly if those it says nothing about were offered a variable.
     */
    lemma ConnectedMeans()
      requires Settled()
      ensures Connected(Abs()) <==> forall i :: 0 <= i < |calls| ==> Bound(calls, calls[i].name)
      ensures AllHonoured(calls) <==>
        && Connected(Abs())
        && forall t :: 0 <= t < |calls| && calls[t].Require? && (Oldest(calls, t) || Late(calls, t)) ==>
             Offer(calls, t).Some?
    {
      ConnectedIff(calls);
      AllHonouredIff(calls);
    }

    /** After any calls a pointer is set exactly if a request for it was carried out, and as the last of these wants. */
    lemma PointersMean(d: Address, v: Address)
      requires Settled()
      ensures d in memory && memory[d] == v <==> exists t: nat :: Decides(calls, t, d, v)
    {
      PointerIs(calls, d, v);
    }

    /** In particular, the only request for a pointer sets it to the variable it names, if it is carried out at all. */
    lemma {:induction false} PointerSet(t: nat)
      requires Settled() && t < |calls| && calls[t].Require?
      requires forall s :: 0 <= s < |calls| && calls[s].Require? && s != t ==>
        calls[s].request.dst != calls[t].request.dst
      ensures var d := calls[t].request.dst;
        match FirstRegister(calls, calls[t].name)
        case None => d !in memory
        case Some(u) =>
          if Reached(calls, t, u) then d in memory && memory[d] == calls[u].reg.vars[IndexUsed(calls, t, u)]
          else d !in memory
    {
      RequesterGets(calls, t);
    }

    lemma NodesCovered()
      requires Valid()
      ensures forall n :: n in nodes <==> n in free || exists name :: name in sources && n in sources[name].pending
    {
      forall n | n in nodes ensures n in free || exists name :: name in sources && n in sources[name].pending {
        assert Accounted(n);
      }
      forall name, n | name in sources && n in sources[name].pending ensures n in nodes {
        ForSource(name);
      }
    }

    /**
     The lists are acyclic and pairwise disjoint and hold exactly the nodes in `nodes`; while every call has
     succeeded these are all the nodes ever allocated, and a registered source has none.
     */
    lemma NodesAccountedFor()
      requires Settled()
      ensures forall i, j :: 0 <= i < j < |free| ==> free[i] != free[j]
      ensures forall name :: name in sources ==>
        (forall i, j :: 0 <= i < j < |sources[name].pending| ==> sources[name].pending[i] != sources[name].pending[j])
      ensures forall name, n :: name in sources && n in sources[name].pending ==> n !in free
      ensures forall name, other :: name in sources && other in sources && name != other ==>
        forall n :: n in sources[name].pending ==> n !in sources[other].pending
      ensures forall n :: n in nodes <==> n in free || exists name :: name in sources && n in sources[name].pending
      ensures Run(calls).1 ==> nodes == made
      ensures Run(calls).1 ==>
        forall name :: name in sources && sources[name].types.Some? ==> sources[name].pending == []
    {
      forall name | name in sources
        ensures sources[name].Valid() && forall n :: n in sources[name].pending ==> n.owner == Waits(sources[name])
      {
        ForSource(name);
      }
      NodesCovered();
      forall name | Run(calls).1 && name in sources && sources[name].types.Some? ensures sources[name].pending == [] {
        assert Abs().sources[name] == sources[name].state;
        NothingWaits(calls, name);
      }
    }
  }

  /**
   Two linkers given the same calls, in any order, agree: the same calls succeed as a whole, and then the same
   pointers are set, to the same variables if no pointer was requested as two different ones.
   */
  lemma SameCallsSameLinks(a: Linker, b: Linker)
    requires a.Settled() && b.Settled()
    requires multiset(a.calls) == multiset(b.calls) && CutHarmless(multiset(a.calls))
    ensures Run(a.calls).1 <==> Run(b.calls).1
    ensures Run(a.calls).1 ==> a.memory.Keys == b.memory.Keys
    ensures Run(a.calls).1 && Consistent(multiset(a.calls)) ==> a.memory == b.memory
  {
    OrderIrrelevant(a.calls, b.calls);
  }
}
