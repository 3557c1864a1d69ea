/** The tag map (lib/map.c): a chain of 16-slot chunks that only grows. */
module StringMap {
  import opened Basics
  import Strops

  const MAP_ELEMS_PER_CHUNK: nat := 16

  datatype Elem<+V> = Empty | Elem(tag: string, ptr: V)

  /** The bindings of a map as a mathematical map. */
  function Lookup<V>(bindings: seq<(string, V)>, tag: string): Option<V> {
    if bindings == [] then None
    else if bindings[0].0 == tag then Some(bindings[0].1)
    else Lookup(bindings[1..], tag)
  }

  /** The tags are pairwise different. */
  ghost predicate UniqueTags<V>(bindings: seq<(string, V)>) {
    forall i, j :: 0 <= i < j < |bindings| ==> bindings[i].0 != bindings[j].0
  }

  ghost predicate Bound<V>(bindings: seq<(string, V)>, tag: string) {
    exists i :: 0 <= i < |bindings| && bindings[i].0 == tag
  }

  function ElemOf<V>(bindings: seq<(string, V)>, i: nat): Elem<V> {
    if i < |bindings| then Elem(bindings[i].0, bindings[i].1) else Empty
  }

  lemma {:induction false} LookupAt<V>(bindings: seq<(string, V)>, tag: string, i: nat)
    requires i < |bindings| && bindings[i].0 == tag && UniqueTags(bindings)
    ensures Lookup(bindings, tag) == Some(bindings[i].1)
  {
    if i > 0 {
      LookupAt(bindings[1..], tag, i - 1);
    }
  }

  lemma {:induction false} LookupUnbound<V>(bindings: seq<(string, V)>, tag: string)
    requires forall i :: 0 <= i < |bindings| ==> bindings[i].0 != tag
    ensures Lookup(bindings, tag) == None
  {
    if bindings != [] {
      LookupUnbound(bindings[1..], tag);
    }
  }

  /** What map_set does to the bindings: replace in place, or append. */
  function Bind<V>(bindings: seq<(string, V)>, tag: string, value: V): seq<(string, V)> {
    if bindings == [] then [(tag, value)]
    else if bindings[0].0 == tag then [(tag, value)] + bindings[1..]
    else [bindings[0]] + Bind(bindings[1..], tag, value)
  }

  lemma {:induction false} BindAt<V>(bindings: seq<(string, V)>, tag: string, value: V, n: nat)
    requires n <= |bindings| && (n < |bindings| ==> bindings[n].0 == tag)
    requires forall j :: 0 <= j < n ==> bindings[j].0 != tag
    ensures Bind(bindings, tag, value)
         == bindings[..n] + [(tag, value)] + if n < |bindings| then bindings[n + 1..] else []
  {
    if n > 0 {
      BindAt(bindings[1..], tag, value, n - 1);
      assert bindings[..n] == [bindings[0]] + bindings[1..][..n - 1];
    } else if bindings != [] {
      assert bindings[..0] + [(tag, value)] == [(tag, value)];
    }
  }

  /** The law of a finite map: the latest value is found, and other tags are not disturbed. */
  lemma {:induction false} LookupBind<V>(bindings: seq<(string, V)>, tag: string, value: V, other: string)
    ensures Lookup(Bind(bindings, tag, value), other) == if other == tag then Some(value) else Lookup(bindings, other)
  {
    if bindings != [] && bindings[0].0 != tag {
      LookupBind(bindings[1..], tag, value, other);
      assert Bind(bindings, tag, value)[1..] == Bind(bindings[1..], tag, value);
    } else {
      assert Bind(bindings, tag, value)[1..] == if bindings == [] then [] else bindings[1..];
    }
  }

  /** Tags keep the order of their first insertion. */
  lemma {:induction false} BindKeepsOrder<V>(bindings: seq<(string, V)>, tag: string, value: V, i: nat)
    requires i < |Bind(bindings, tag, value)|
    ensures |bindings| <= |Bind(bindings, tag, value)| <= |bindings| + 1
    ensures i < |bindings| ==> Bind(bindings, tag, value)[i].0 == bindings[i].0
    ensures i == |bindings| ==> Bind(bindings, tag, value)[i] == (tag, value)
  {
    if bindings != [] && bindings[0].0 != tag && i > 0 {
      BindKeepsOrder(bindings[1..], tag, value, i - 1);
    } else if bindings != [] && bindings[0].0 != tag {
      BindKeepsOrder(bindings[1..], tag, value, 0);
    }
  }

  class Chunk<V> {
    const elems: array<Elem<V>>
    var next: Chunk?<V>

    constructor ()
      ensures fresh(elems) && elems.Length == MAP_ELEMS_PER_CHUNK && next == null
      ensures forall i :: 0 <= i < MAP_ELEMS_PER_CHUNK ==> elems[i] == Empty
    {
      elems := new Elem<V>[MAP_ELEMS_PER_CHUNK](_ => Empty);
      next := null;
    }
  }

  class Map<V> {
    const first: Chunk<V>

    ghost var chain: seq<Chunk<V>>
    ghost var bindings: seq<(string, V)>  // in order of first insertion
    ghost var Repr: set<object>

    ghost function Link(k: nat): Chunk?<V>
      reads this`chain
    {
      if k < |chain| then chain[k] else null
    }

    ghost function Capacity(): nat
      reads this`chain
    {
      MAP_ELEMS_PER_CHUNK * |chain|
    }

    /** The chunks form one null-terminated chain; only the first may be there without need. */
    ghost predicate Shape()
      reads this`chain, this`bindings, chain
    {
      && (forall k :: 0 <= k < |chain| ==> chain[k].elems.Length == MAP_ELEMS_PER_CHUNK)
      && (forall k {:trigger chain[k].next} :: 0 <= k < |chain| ==> chain[k].next == Link(k + 1))
      && (forall j, k :: 0 <= j < k < |chain| ==> chain[j] != chain[k] && chain[j].elems != chain[k].elems)
      && 1 <= |chain| && chain[0] == first
      && |bindings| <= Capacity()
      && (|chain| == 1 || Capacity() - MAP_ELEMS_PER_CHUNK <= |bindings|)
    }

    /** The slots hold the bindings in order, without a hole, each tag once. */
    ghost predicate Filled()
      requires Shape()
      reads this`chain, this`bindings, chain, set k | 0 <= k < |chain| :: chain[k].elems
    {
      && (forall k, i :: 0 <= k < |chain| && 0 <= i < MAP_ELEMS_PER_CHUNK ==>
        chain[k].elems[i] == ElemOf(bindings, MAP_ELEMS_PER_CHUNK * k + i))
      && UniqueTags(bindings)
    }

    ghost predicate Valid()
      reads this, Repr
    {
      && this in Repr
      && (forall k :: 0 <= k < |chain| ==> chain[k] in Repr && chain[k].elems in Repr)
      && Shape()
      && Filled()
    }

    /** map_create. */
    constructor ()
      ensures Valid() && fresh(Repr) && bindings == []
    {
      first := new Chunk<V>();
      new;
      chain, bindings, Repr := [first], [], {this, first, first.elems};
    }

    /** map_get. */
    method Get(tag: string) returns (r: Option<V>)
      requires Valid()
      ensures r == Lookup(bindings, tag)
      ensures r == None <==> !Bound(bindings, tag)
    {
      var map_: Chunk?<V> := first;
      ghost var k := 0;
      while map_ != null
        invariant k <= |chain| && map_ == Link(k)
        invariant forall j :: 0 <= j < MAP_ELEMS_PER_CHUNK * k && j < |bindings| ==> bindings[j].0 != tag
        decreases |chain| - k
      {
        var i := 0;
        while i < MAP_ELEMS_PER_CHUNK
          invariant 0 <= i <= MAP_ELEMS_PER_CHUNK
          invariant forall j :: 0 <= j < MAP_ELEMS_PER_CHUNK * k + i && j < |bindings| ==> bindings[j].0 != tag
        {
          assert chain[k].elems[i] == ElemOf(bindings, MAP_ELEMS_PER_CHUNK * k + i);
          if map_.elems[i].Empty? {
            LookupUnbound(bindings, tag);
            return None;
          }
          var c := Strops.Cmp(map_.elems[i].tag, tag);
          if c == 0 {
            LookupAt(bindings, tag, MAP_ELEMS_PER_CHUNK * k + i);
            return Some(map_.elems[i].ptr);
          }
          i := i + 1;
        }
        map_ := map_.next;
        k := k + 1;
      }
      LookupUnbound(bindings, tag);
      r := None;
    }

    /** The slot write of map_set: replaces a binding or appends one. */
    method Write(chunk: Chunk<V>, ghost k: nat, i: nat, tag: string, value: V)
      requires Valid() && k < |chain| && chunk == chain[k] && i < MAP_ELEMS_PER_CHUNK
      requires MAP_ELEMS_PER_CHUNK * k + i <= |bindings|
      requires forall j :: 0 <= j < |bindings| && j != MAP_ELEMS_PER_CHUNK * k + i ==> bindings[j].0 != tag
      modifies chunk.elems, this`bindings
      ensures Valid()
      ensures bindings == old(bindings)[..MAP_ELEMS_PER_CHUNK * k + i] + [(tag, value)]
                        + (if MAP_ELEMS_PER_CHUNK * k + i < |old(bindings)|
                           then old(bindings)[MAP_ELEMS_PER_CHUNK * k + i + 1..] else [])
    {
      ghost var n := MAP_ELEMS_PER_CHUNK * k + i;
      chunk.elems[i] := Elem(tag, value);
      bindings := bindings[..n] + [(tag, value)] + if n < |bindings| then bindings[n + 1..] else [];
      assert Shape();
      forall k', i' | 0 <= k' < |chain| && 0 <= i' < MAP_ELEMS_PER_CHUNK
        ensures chain[k'].elems[i'] == ElemOf(bindings, MAP_ELEMS_PER_CHUNK * k' + i')
      {
        assert old(chain[k'].elems[i']) == ElemOf(old(bindings), MAP_ELEMS_PER_CHUNK * k' + i');
        assert (k' != k || i' != i) ==> chain[k'].elems[i'] == old(chain[k'].elems[i']);
      }
    }

    method AttachChunk(last: Chunk<V>, ghost k: nat)
      requires Valid() && k + 1 == |chain| && last == chain[k] && |bindings| == Capacity()
      modifies this`chain, this`Repr, last
      ensures Valid() && |chain| == |old(chain)| + 1 && last.next == Link(k + 1) && chain[k] == last
      ensures old(Repr) <= Repr && fresh(Repr - old(Repr))
    {
      var chunk := new Chunk<V>();
      last.next := chunk;
      chain, Repr := chain + [chunk], Repr + {chunk, chunk.elems};
      assert Shape();
      forall k', i | 0 <= k' < |chain| && 0 <= i < MAP_ELEMS_PER_CHUNK
        ensures chain[k'].elems[i] == ElemOf(bindings, MAP_ELEMS_PER_CHUNK * k' + i)
      {
        if k' < |old(chain)| {
          assert chain[k'].elems[i] == ElemOf(bindings, MAP_ELEMS_PER_CHUNK * k' + i);
        }
      }
    }

    /** The inner loop of map_set, over one chunk. */
    method SetInChunk(chunk: Chunk<V>, ghost k: nat, tag: string, value: V) returns (done: bool)
      requires Valid() && k < |chain| && chunk == chain[k] && MAP_ELEMS_PER_CHUNK * k <= |bindings|
      requires forall j :: 0 <= j < MAP_ELEMS_PER_CHUNK * k ==> bindings[j].0 != tag
      modifies chunk.elems, this`bindings
      ensures Valid()
      ensures done ==> bindings == Bind(old(bindings), tag, value)
      ensures !done ==> bindings == old(bindings) && MAP_ELEMS_PER_CHUNK * (k + 1) <= |bindings|
      ensures !done ==> forall j :: 0 <= j < MAP_ELEMS_PER_CHUNK * (k + 1) ==> bindings[j].0 != tag
    {
      var i := 0;
      while i < MAP_ELEMS_PER_CHUNK
        invariant Valid() && bindings == old(bindings)
        invariant 0 <= i <= MAP_ELEMS_PER_CHUNK && MAP_ELEMS_PER_CHUNK * k + i <= |bindings|
        invariant forall j :: 0 <= j < MAP_ELEMS_PER_CHUNK * k + i ==> bindings[j].0 != tag
      {
        ghost var n := MAP_ELEMS_PER_CHUNK * k + i;
        assert chunk.elems[i] == ElemOf(bindings, n);
        if chunk.elems[i].Empty? {
          BindAt(bindings, tag, value, n);
          Write(chunk, k, i, tag, value);
          return true;
        }
        var c := Strops.Cmp(chunk.elems[i].tag, tag);
        if c == 0 {
          BindAt(bindings, tag, value, n);
          Write(chunk, k, i, tag, value);
          return true;
        }
        i := i + 1;
      }
      done := false;
    }

    /** map_set, with allocations that succeed. */
    method Set(tag: string, value: V)
      requires Valid()
      modifies Repr
      ensures Valid() && bindings == Bind(old(bindings), tag, value)
      ensures old(Repr) <= Repr && fresh(Repr - old(Repr))
    {
      var map_ := first;
      ghost var k := 0;
      while true
        invariant Valid() && k < |chain| && map_ == chain[k] && bindings == old(bindings)
        invariant old(Repr) <= Repr && fresh(Repr - old(Repr))
        invariant MAP_ELEMS_PER_CHUNK * k <= |bindings|
        invariant forall j :: 0 <= j < MAP_ELEMS_PER_CHUNK * k ==> bindings[j].0 != tag
        decreases |bindings| - MAP_ELEMS_PER_CHUNK * k
      {
        var done := SetInChunk(map_, k, tag, value);
        if done {
          return;
        }
        if map_.next == null {
          AttachChunk(map_, k);
        }
        map_ := map_.next;
        k := k + 1;
      }
    }
  }

  /** map_iter_t. */
  class Iter<V> {
    var map_: Chunk?<V>
    var nextIndex: nat
    ghost var pos: nat  // how many bindings have been returned

    ghost predicate At(m: Map<V>)
      reads this, m, m.Repr
    {
      && m.Valid() && pos <= |m.bindings|
      && exists k: nat :: k <= |m.chain| && map_ == m.Link(k) && nextIndex < MAP_ELEMS_PER_CHUNK
           && pos == MAP_ELEMS_PER_CHUNK * k + nextIndex
    }

    /** map_iter_start. */
    constructor (m: Map<V>)
      requires m.Valid()
      ensures At(m) && pos == 0
    {
      map_, nextIndex, pos := m.first, 0, 0;
      new;
      assert map_ == m.Link(0);
    }

    /** map_iter_next. */
    method Next(m: Map<V>) returns (r: Option<(string, V)>)
      requires At(m)
      modifies this
      ensures At(m)
      ensures if old(pos) < |m.bindings| then r == Some(m.bindings[old(pos)]) && pos == old(pos) + 1
              else r == None && pos == old(pos)
    {
      ghost var k: nat :| k <= |m.chain| && map_ == m.Link(k) && nextIndex < MAP_ELEMS_PER_CHUNK
        && pos == MAP_ELEMS_PER_CHUNK * k + nextIndex;
      if map_ == null {
        return None;
      }
      assert m.chain[k].elems[nextIndex] == ElemOf(m.bindings, pos);
      var e := map_.elems[nextIndex];
      if e.Empty? {
        return None;
      }
      r := Some((e.tag, e.ptr));
      nextIndex := nextIndex + 1;
      pos := pos + 1;
      if nextIndex >= MAP_ELEMS_PER_CHUNK {
        nextIndex := 0;
        map_ := map_.next;
        assert map_ == m.Link(k + 1);
      } else {
        assert map_ == m.Link(k);
      }
    }
  }

  /** A whole iteration ends, having seen every binding once, in order of first insertion. */
  method Iterate<V>(m: Map<V>) returns (all: seq<(string, V)>)
    requires m.Valid()
    ensures all == m.bindings
  {
    var iter := new Iter<V>(m);
    all := [];
    while true
      invariant iter.At(m) && all == m.bindings[..iter.pos]
      invariant fresh(iter)
      decreases |m.bindings| - iter.pos
    {
      var r := iter.Next(m);
      if r.None? {
        break;
      }
      all := all + [r.value];
    }
  }
}
