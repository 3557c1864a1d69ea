/**
 Schedulers and their clients (core/scheduler.c), as the code runs under sc_mutex.  Module SchedulerRaces
 adds the task that reads the same pools without the mutex.
 */
module Scheduler {
  const SCHEDULER_CLIENTS_PER_POOL: nat := 32
  const SCHEDULER_NUM_PRIORITIES: int := 8

  /** Addresses of functions and of the data they work on. */
  type Pointer = nat
  const NULL: Pointer := 0

  datatype Client = Client(init: Pointer, run: Pointer, storage: Pointer)

  const EMPTY: Client := Client(NULL, NULL, NULL)

  /** Slot `i` of the pools when `clients` have been registered: the clients first, without a hole, then free slots. */
  predicate Fits(slot: Client, clients: seq<Client>, i: nat) {
    if i < |clients| then slot == clients[i] else slot.init == NULL
  }

  /** What a registration adds: a client without an init function leaves its slot free. */
  function Added(c: Client): seq<Client> {
    if c.init != NULL then [c] else []
  }

  class Pool {
    var next: Pool?
    const slots: array<Client>

    /** A pool that is not attached yet, with one client in its first slot. */
    constructor (first: Client)
      ensures fresh(slots) && slots.Length == SCHEDULER_CLIENTS_PER_POOL && next == null
      ensures forall i :: 0 <= i < SCHEDULER_CLIENTS_PER_POOL ==> Fits(slots[i], Added(first), i)
    {
      slots := new Client[SCHEDULER_CLIENTS_PER_POOL](_ => EMPTY);
      next := null;
      new;
      slots[0] := first;
    }
  }

  /** One call of a client's init function. */
  datatype InitCall = InitCall(period: real, client: Client)

  class Sched {
    var next: Sched?
    const name: string
    var clients: Pool?
    var clientsInitialized: nat
    var period: real

    ghost var chain: seq<Pool>
    ghost var registered: seq<Client>  // in registration order
    ghost var initCalls: seq<InitCall> // in call order
    ghost var Repr: set<object>

    /** The k-th pool, or the null pointer that ends the chain. */
    ghost function Link(k: nat): Pool?
      reads this`chain
    {
      if k < |chain| then chain[k] else null
    }

    ghost function Capacity(): nat
      reads this`chain
    {
      SCHEDULER_CLIENTS_PER_POOL * |chain|
    }

    /** The pools form one null-terminated chain, no longer than the clients need. */
    ghost predicate Shape()
      reads this`clients, this`chain, this`registered, chain
    {
      && (forall k :: 0 <= k < |chain| ==> chain[k].slots.Length == SCHEDULER_CLIENTS_PER_POOL)
      && (forall k {:trigger chain[k].next} :: 0 <= k < |chain| ==> chain[k].next == Link(k + 1))
      && (forall j, k :: 0 <= j < k < |chain| ==> chain[j] != chain[k] && chain[j].slots != chain[k].slots)
      && clients == Link(0)
      && Capacity() - SCHEDULER_CLIENTS_PER_POOL <= |registered| <= Capacity()
    }

    /** The slots hold the registered clients in order and nothing behind them. */
    ghost predicate Filled()
      requires Shape()
      reads this`clients, this`chain, this`registered, chain, set k | 0 <= k < |chain| :: chain[k].slots
    {
      && (forall k, i :: 0 <= k < |chain| && 0 <= i < SCHEDULER_CLIENTS_PER_POOL ==>
        Fits(chain[k].slots[i], registered, SCHEDULER_CLIENTS_PER_POOL * k + i))
      && (forall i :: 0 <= i < |registered| ==> registered[i].init != NULL)
    }

    /** The first clients have been initialised, once each, in registration order, all with the final period. */
    ghost predicate InitialisedOnce()
      reads this`registered, this`initCalls, this`clientsInitialized, this`period
    {
      && |initCalls| == clientsInitialized && clientsInitialized <= |registered|
      && (initCalls != [] ==> period >= 0.0)
      && forall i :: 0 <= i < |initCalls| ==> initCalls[i] == InitCall(period, registered[i])
    }

    ghost predicate Valid()
      reads this, Repr
    {
      && this in Repr
      && (forall k :: 0 <= k < |chain| ==> chain[k] in Repr && chain[k].slots in Repr)
      && Shape()
      && Filled()
      && InitialisedOnce()
    }

    constructor (name: string)
      ensures Valid() && fresh(Repr) && this.name == name && next == null
      ensures registered == [] && initCalls == [] && period < 0.0
    {
      this.name := name;
      next, clients := null, null;
      clientsInitialized, period := 0, -1.0;
      chain, registered, initCalls := [], [], [];
      Repr := {this};
    }

    /** sc_configure_source: the first non-negative period stays. */
    method ConfigureSource(periodSec: real) returns (r: int)
      requires Valid()
      modifies this`period
      ensures Valid()
      ensures if old(period) >= 0.0 then r == -1 && period == old(period) else r == 0 && period == periodSec
    {
      if period >= 0.0 {
        return -1;
      }
      period := periodSec;
      return 0;
    }

    /** The inner loops of sc_init_clients, for one scheduler with a period. */
    method InitPools()
      requires Valid() && period >= 0.0
      modifies this`clientsInitialized, this`initCalls
      ensures Valid() && old(initCalls) <= initCalls && clientsInitialized == |registered|
    {
      var curClient := 0;
      var pool := clients;
      ghost var k := 0;
      while pool != null
        invariant InitialisedOnce() && old(initCalls) <= initCalls
        invariant k <= |chain| && pool == Link(k) && curClient == SCHEDULER_CLIENTS_PER_POOL * k
        invariant clientsInitialized >= if curClient < |registered| then curClient else |registered|
        decreases |chain| - k
      {
        var i := 0;
        while i < SCHEDULER_CLIENTS_PER_POOL
          invariant InitialisedOnce() && old(initCalls) <= initCalls
          invariant 0 <= i <= SCHEDULER_CLIENTS_PER_POOL && curClient == SCHEDULER_CLIENTS_PER_POOL * k + i
          invariant clientsInitialized >= if curClient < |registered| then curClient else |registered|
        {
          assert Fits(chain[k].slots[i], registered, SCHEDULER_CLIENTS_PER_POOL * k + i);
          if curClient >= clientsInitialized && pool.slots[i].init != NULL {
            initCalls := initCalls + [InitCall(period, pool.slots[i])];
            clientsInitialized := curClient + 1;
          }
          curClient := curClient + 1;
          i := i + 1;
        }
        pool := pool.next;
        k := k + 1;
      }
    }

    /** The writes of sc_register_client to a free slot: init first, then run, then storage. */
    method FillSlot(pool: Pool, ghost k: nat, i: nat, init: Pointer, run: Pointer, storage: Pointer)
      requires Valid() && k < |chain| && pool == chain[k]
      requires i < SCHEDULER_CLIENTS_PER_POOL && SCHEDULER_CLIENTS_PER_POOL * k + i == |registered|
      modifies pool.slots, this`registered
      ensures Valid() && registered == old(registered) + Added(Client(init, run, storage))
    {
      pool.slots[i] := pool.slots[i].(init := init);
      pool.slots[i] := pool.slots[i].(run := run);
      pool.slots[i] := pool.slots[i].(storage := storage);
      registered := registered + Added(Client(init, run, storage));
      assert Shape();
      forall k', i' | 0 <= k' < |chain| && 0 <= i' < SCHEDULER_CLIENTS_PER_POOL
        ensures Fits(chain[k'].slots[i'], registered, SCHEDULER_CLIENTS_PER_POOL * k' + i')
      {
        assert Fits(old(chain[k'].slots[i']), old(registered), SCHEDULER_CLIENTS_PER_POOL * k' + i');
        assert (k' != k || i' != i) ==> chain[k'].slots[i'] == old(chain[k'].slots[i']);
      }
    }

    method Attach(lastPool: Pool?, pool: Pool, ghost c: Client)
      requires Valid() && |registered| == Capacity()
      requires lastPool == if |chain| == 0 then null else chain[|chain| - 1]
      requires {pool, pool.slots} !! Repr
      requires pool.slots.Length == SCHEDULER_CLIENTS_PER_POOL && pool.next == null
      requires forall i :: 0 <= i < SCHEDULER_CLIENTS_PER_POOL ==> Fits(pool.slots[i], Added(c), i)
      modifies this`clients, this`chain, this`registered, this`Repr, lastPool
      ensures Valid() && Repr == old(Repr) + {pool, pool.slots}
      ensures registered == old(registered) + Added(c)
    {
      if lastPool == null {
        clients := pool;
      } else {
        lastPool.next := pool;
      }
      chain := chain + [pool];
      registered := registered + Added(c);
      Repr := Repr + {pool, pool.slots};
      assert Shape();
      forall k, i | 0 <= k < |chain| && 0 <= i < SCHEDULER_CLIENTS_PER_POOL
        ensures Fits(chain[k].slots[i], registered, SCHEDULER_CLIENTS_PER_POOL * k + i)
      {
        if k < |old(chain)| {
          assert Fits(chain[k].slots[i], old(registered), SCHEDULER_CLIENTS_PER_POOL * k + i);
        } else {
          assert Fits(pool.slots[i], Added(c), i);
        }
      }
    }

    /** The other half of sc_register_client: a new pool, filled before it is attached at the end. */
    method AddPool(lastPool: Pool?, init: Pointer, run: Pointer, storage: Pointer)
      requires Valid() && |registered| == Capacity()
      requires lastPool == if |chain| == 0 then null else chain[|chain| - 1]
      modifies Repr
      ensures Valid() && fresh(Repr - old(Repr)) && old(Repr) <= Repr
      ensures registered == old(registered) + Added(Client(init, run, storage))
      ensures next == old(next) && initCalls == old(initCalls) && period == old(period)
    {
      var pool := new Pool(Client(init, run, storage));
      Attach(lastPool, pool, Client(init, run, storage));
    }

    /** sc_register_client. */
    method RegisterClient(init: Pointer, run: Pointer, storage: Pointer)
      requires Valid()
      modifies Repr
      ensures Valid() && fresh(Repr - old(Repr)) && old(Repr) <= Repr
      ensures registered == old(registered) + Added(Client(init, run, storage))
      ensures next == old(next) && initCalls == old(initCalls) && period == old(period)
    {
      ghost var k := 0;
      var pool := clients;
      var lastPool: Pool? := null;
      while pool != null
        invariant k <= |chain| && pool == Link(k) && SCHEDULER_CLIENTS_PER_POOL * k <= |registered|
        invariant lastPool == if k == 0 then null else chain[k - 1]
        decreases |chain| - k
      {
        var i := 0;
        while i < SCHEDULER_CLIENTS_PER_POOL
          invariant 0 <= i <= SCHEDULER_CLIENTS_PER_POOL
          invariant SCHEDULER_CLIENTS_PER_POOL * k + i <= |registered|
        {
          assert Fits(chain[k].slots[i], registered, SCHEDULER_CLIENTS_PER_POOL * k + i);
          if pool.slots[i].init == NULL {
            FillSlot(pool, k, i, init, run, storage);
            return;
          }
          i := i + 1;
        }
        lastPool := pool;
        pool := pool.next;
        k := k + 1;
      }
      assert k == |chain|;
      AddPool(lastPool, init, run, storage);
    }
  }

  /** The list behind sc_schedulers: new schedulers are put in front. */
  class Schedulers {
    var first: Sched?
    ghost var list: seq<Sched>  // oldest first, so the chain runs through it backwards
    ghost var Repr: set<object>

    /** The k-th scheduler counted from one, or the null pointer that ends the chain. */
    ghost function Link(k: nat): Sched?
      reads this`list
    {
      if 0 < k <= |list| then list[k - 1] else null
    }

    ghost predicate Valid()
      reads this, Repr
    {
      && this !in Repr
      && (forall k :: 0 <= k < |list| ==> list[k] in Repr)
      && (forall k {:trigger list[k].Repr} :: 0 <= k < |list| ==> list[k].Repr <= Repr)
      && (forall j, k :: 0 <= j < k < |list| ==> list[j] != list[k])
      && first == Link(|list|)
      && (forall k {:trigger list[k].next} :: 0 <= k < |list| ==> list[k].next == Link(k))
      && (forall k {:trigger list[k].Valid()} :: 0 <= k < |list| ==> list[k].Valid())
      && (forall j, k {:trigger list[j].Repr, list[k].Repr} :: 0 <= j < k < |list| ==> list[j].Repr !! list[k].Repr)
      && (forall j, k {:trigger list[j].name, list[k].name} :: 0 <= j < k < |list| ==> list[j].name != list[k].name)
    }

    ghost predicate Named(name: string)
      reads this`list
    {
      exists k :: 0 <= k < |list| && list[k].name == name
    }

    constructor ()
      ensures Valid() && list == []
    {
      first, list, Repr := null, [], {};
    }

    /** sc_get. */
    method Get(name: string) returns (sched: Sched?)
      requires Valid()
      ensures sched == null <==> !Named(name)
      ensures sched != null ==> sched in list && sched.name == name
    {
      sched := null;
      var cur := first;
      ghost var k := |list|;
      while cur != null && sched == null
        invariant 0 <= k <= |list| && (sched == null ==> cur == Link(k))
        invariant sched == null ==> forall j :: k <= j < |list| ==> list[j].name != name
        invariant sched != null ==> sched in list && sched.name == name
        decreases k
      {
        if cur.name == name {
          sched := cur;
        }
        cur := cur.next;
        k := k - 1;
      }
    }

    /** Writing the link of a scheduler that is not in the list yet disturbs nobody's pools. */
    twostate lemma MembersKept(sched: Sched)
      requires old(Valid()) && old(sched.Valid()) && sched.Repr !! old(Repr) && list == old(list) + [sched]
      requires forall o :: o in old(Repr) ==> unchanged(o)
      requires forall o :: o in old(sched.Repr) && o != sched ==> unchanged(o)
      requires unchanged(sched`clients, sched`chain, sched`registered, sched`Repr)
      requires unchanged(sched`initCalls, sched`clientsInitialized, sched`period)
      ensures forall k {:trigger list[k].Valid()} :: 0 <= k < |list| ==> list[k].Valid()
    {
      forall k | 0 <= k < |list| ensures list[k].Valid() {
        if k < |old(list)| {
          assert old(list[k].Valid());
        }
      }
    }

    method PutInFront(sched: Sched)
      requires Valid() && !Named(sched.name) && sched.Valid() && sched.Repr !! Repr && this !in sched.Repr
      modifies this, sched`next
      ensures Valid() && list == old(list) + [sched]
    {
      sched.next := first;
      first, list, Repr := sched, list + [sched], Repr + sched.Repr;
      MembersKept(sched);
    }

    method Append(name: string) returns (sched: Sched)
      requires Valid() && !Named(name)
      modifies this
      ensures Valid() && list == old(list) + [sched] && sched.name == name && fresh(sched)
      ensures sched.registered == [] && sched.period < 0.0
    {
      sched := new Sched(name);
      assert fresh(sched.Repr) && sched.Repr !! Repr;
      PutInFront(sched);
    }

    /** sc_define: refuses a bad priority or a name that is taken. */
    method Define(name: string, priority: int) returns (sched: Sched?)
      requires Valid()
      modifies this
      ensures Valid()
      ensures sched == null <==> !(0 <= priority < SCHEDULER_NUM_PRIORITIES) || old(Named(name))
      ensures sched == null ==> list == old(list)
      ensures sched != null ==> list == old(list) + [sched] && sched.name == name && fresh(sched)
      ensures sched != null ==> sched.registered == [] && sched.period < 0.0
    {
      if priority < 0 || priority >= SCHEDULER_NUM_PRIORITIES {
        return null;
      }
      var cur := first;
      ghost var k := |list|;
      while cur != null
        invariant 0 <= k <= |list| && cur == Link(k)
        invariant forall j :: k <= j < |list| ==> list[j].name != name
        decreases k
      {
        if cur.name == name {
          return null;
        }
        cur := cur.next;
        k := k - 1;
      }
      sched := Append(name);
    }

    /** The registration itself; the footprint of the list is brought up to date afterwards. */
    method RegisterAt(sched: Sched, ghost k: nat, init: Pointer, run: Pointer, storage: Pointer)
      requires Valid() && k < |list| && sched == list[k]
      modifies sched.Repr
      ensures sched.registered == old(sched.registered) + Added(Client(init, run, storage))
      ensures sched.initCalls == old(sched.initCalls) && sched.next == old(sched.next)
      ensures old(sched.Repr) <= sched.Repr && fresh(sched.Repr - old(sched.Repr))
      ensures forall j :: 0 <= j < |list| && j != k ==> unchanged(list[j])
      ensures forall j {:trigger list[j].Valid()} :: 0 <= j < |list| ==> list[j].Valid()
      ensures forall j :: 0 <= j < |list| && j != k ==> list[j].Repr !! sched.Repr
    {
      assert sched.Valid();
      sched.RegisterClient(init, run, storage);
      forall j | 0 <= j < |list| && j != k ensures list[j].Valid() && list[j].Repr !! sched.Repr {
        assert old(list[j].Valid()) && old(list[j].Repr) !! old(sched.Repr);
      }
    }

    /** sc_register_client on one of the schedulers; the others are not touched. */
    method Register(sched: Sched, ghost k: nat, init: Pointer, run: Pointer, storage: Pointer)
      requires Valid() && k < |list| && sched == list[k]
      modifies this`Repr, sched.Repr
      ensures Valid() && sched.registered == old(sched.registered) + Added(Client(init, run, storage))
      ensures sched.initCalls == old(sched.initCalls)
      ensures forall j :: 0 <= j < |list| && j != k ==> unchanged(list[j])
    {
      RegisterAt(sched, k, init, run, storage);
      Repr := Repr + sched.Repr;
    }

    /** All clients of a scheduler with a period have been initialised. */
    ghost predicate Ready(s: Sched)
      reads s
    {
      s.period >= 0.0 && s.clientsInitialized == |s.registered|
    }

    /** Initialisation only adds init calls. */
    twostate predicate Progressed(s: Sched)
      reads s
    {
      && old(s.initCalls) <= s.initCalls
      && s.registered == old(s.registered) && s.period == old(s.period)
    }

    method InitAt(sched: Sched, ghost k: nat)
      requires Valid() && k < |list| && sched == list[k] && sched.period >= 0.0
      modifies sched`clientsInitialized, sched`initCalls
      ensures Valid() && Ready(sched) && Progressed(sched)
    {
      assert sched.Valid();
      sched.InitPools();
      forall j | 0 <= j < |list| && j != k ensures list[j].Valid() {
        assert old(list[j].Valid()) && list[j].Repr !! list[k].Repr;
      }
    }

    /** sc_init_clients: runs down the list and stops at the first scheduler without a period. */
    method InitClients() returns (r: int, ghost left: nat)
      requires Valid()
      modifies list
      ensures Valid() && list == old(list) && left <= |list|
      ensures r == (if left == 0 then 0 else -1) && (left > 0 ==> list[left - 1].period < 0.0)
      // every client of the schedulers it got to has been initialised by now, and no other
      ensures forall k :: left <= k < |list| ==> Ready(list[k])
      ensures forall k :: 0 <= k < left ==> list[k].initCalls == old(list[k].initCalls)
      ensures forall k :: 0 <= k < |list| ==> Progressed(list[k])
    {
      var sched := first;
      left := |list|;
      while sched != null
        invariant Valid() && left <= |list| && sched == Link(left)
        invariant forall k :: left <= k < |list| ==> Ready(list[k])
        invariant forall k :: 0 <= k < left ==> list[k].initCalls == old(list[k].initCalls)
        invariant forall k :: 0 <= k < |list| ==> Progressed(list[k])
        decreases left
      {
        if sched.period < 0.0 {
          return -1, left;
        }
        InitAt(sched, left - 1);
        sched := sched.next;
        left := left - 1;
      }
      r := 0;
    }
  }
}
