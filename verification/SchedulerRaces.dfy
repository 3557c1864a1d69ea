/**
 One scheduler under concurrency (core/scheduler.c): registration and initialisation take turns under
 sc_mutex, while the scheduler's task walks the same pools without the mutex.

 The machine below interleaves them write by write.  A step of one party may come between any two accesses
 of the other to shared memory; theorems quantify over all sequences of steps.
 */
module SchedulerRaces {
  import opened Basics
  import opened Scheduler

  /** The holder of sc_mutex, and where it is. */
  datatype Writer =
    | Idle
    | FillInit(n: nat, c: Client)     // sc_register_client found slot n free and is about to write its init field
    | FillRun(n: nat, c: Client)      // ... its run field
    | FillStorage(n: nat, c: Client)  // ... its storage field
    | Attaching(c: Client)            // ... has a new, private pool holding c and is about to attach it
    | Scanning(cur: nat)              // sc_init_clients is about to look at slot cur
    | Called(cur: nat)                // ... has called that slot's init and is about to write clients_initialized

  datatype Call = Call(run: Pointer, storage: Pointer)

  /** The scheduler's task: left is its clients_left, pos the slot it is at. */
  datatype Runner =
    | Waiting
    | Woken                                       // was triggered, and read that schedulers are enabled
    | Testing(left: nat, pos: nat)
    | Running(left: nat, pos: nat)                // run was not NULL
    | Fetched(left: nat, pos: nat, run: Pointer)  // run has been read again

  datatype Event =
    | InitCalled(period: real, client: Client)
    | Triggered(n: nat)  // the task has read clients_initialized
    | RunCalled(call: Call)
    | Finished           // the task waits again
    | PeriodWritten(written: real)

  datatype State = State(
    slots: seq<Client>,          // the slots of all attached pools, in chain order
    clientsInitialized: nat,
    period: real,
    enabled: bool,
    writer: Writer,
    runner: Runner,
    configuring: multiset<real>, // the periods that sc_configure_source has found free to write, not yet written
    registered: seq<Client>,     // registrations completed, in order
    log: seq<Event>)

  function InitialState(): State {
    State([], 0, -1.0, false, Idle, Waiting, multiset{}, [], [])
  }

  datatype Action =
    | Register(c: Client)     // a task enters sc_register_client
    | InitClients             // a task enters sc_init_clients
    | WriterStep              // the mutex holder makes one access
    | TestPeriod(p: real)     // a task in sc_configure_source, which takes no mutex, makes its test
    | WritePeriod(p: real)    // a task that has made it writes the period
    | Enable
    | Trigger                 // the scheduler's task wakes up and reads sc_is_enabled
    | RunnerStep              // the scheduler's task makes one access

  function FirstFree(slots: seq<Client>, from: nat): nat
    requires from <= |slots|
    decreases |slots| - from
  {
    if from == |slots| || slots[from].init == NULL then from else FirstFree(slots, from + 1)
  }

  function NewPool(c: Client): (r: seq<Client>)
    ensures |r| == SCHEDULER_CLIENTS_PER_POOL
  {
    seq(SCHEDULER_CLIENTS_PER_POOL, i => if i == 0 then c else EMPTY)
  }

  function StepWriter(s: State): State {
    match s.writer
    case Idle => s
    case FillInit(n, c) =>
      if n < |s.slots| then s.(slots := s.slots[n := s.slots[n].(init := c.init)], writer := FillRun(n, c)) else s
    case FillRun(n, c) =>
      if n < |s.slots| then s.(slots := s.slots[n := s.slots[n].(run := c.run)], writer := FillStorage(n, c)) else s
    case FillStorage(n, c) =>
      if n < |s.slots| then
        s.(slots := s.slots[n := s.slots[n].(storage := c.storage)], writer := Idle,
           registered := s.registered + Added(c))
      else s
    case Attaching(c) =>
      s.(slots := s.slots + NewPool(c), writer := Idle, registered := s.registered + Added(c))
    case Scanning(cur) =>
      if cur >= |s.slots| then s.(writer := Idle)
      else if cur >= s.clientsInitialized && s.slots[cur].init != NULL then
        s.(writer := Called(cur), log := s.log + [InitCalled(s.period, s.slots[cur])])
      else s.(writer := Scanning(cur + 1))
    case Called(cur) => s.(clientsInitialized := cur + 1, writer := Scanning(cur + 1))
  }

  /** Where the runner's loops go on after slot pos. */
  function StepRunner(s: State): State {
    match s.runner
    case Waiting => s
    case Woken =>
      var n := s.clientsInitialized;
      s.(runner := Testing(n, 0), log := s.log + [Triggered(n)])
    case Testing(left, pos) =>
      if pos >= |s.slots| then s.(runner := Waiting, log := s.log + [Finished])
      else if left == 0 then
        // the inner loop ends at once; on to the next pool
        s.(runner := Testing(0, (pos / SCHEDULER_CLIENTS_PER_POOL + 1) * SCHEDULER_CLIENTS_PER_POOL))
      else if s.slots[pos].run != NULL then s.(runner := Running(left, pos))
      else s.(runner := Testing(left - 1, pos + 1))
    case Running(left, pos) =>
      if pos < |s.slots| then s.(runner := Fetched(left, pos, s.slots[pos].run)) else s
    case Fetched(left, pos, run) =>
      if pos < |s.slots| && left > 0 then
        s.(runner := Testing(left - 1, pos + 1), log := s.log + [RunCalled(Call(run, s.slots[pos].storage))])
      else s
  }

  function Step(s: State, a: Action): State {
    match a
    case Register(c) =>
      if s.writer.Idle? then
        var n := FirstFree(s.slots, 0);
        s.(writer := if n < |s.slots| then FillInit(n, c) else Attaching(c))
      else s
    case InitClients => if s.writer.Idle? && s.period >= 0.0 then s.(writer := Scanning(0)) else s
    case WriterStep => StepWriter(s)
    case TestPeriod(p) => if s.period >= 0.0 then s else s.(configuring := s.configuring + multiset{p})
    case WritePeriod(p) =>
      if p in s.configuring then
        s.(period := p, configuring := s.configuring - multiset{p}, log := s.log + [PeriodWritten(p)])
      else s
    case Enable => s.(enabled := true)
    case Trigger => if s.runner.Waiting? && s.enabled then s.(runner := Woken) else s
    case RunnerStep => StepRunner(s)
  }

  function Steps(s: State, actions: seq<Action>): State {
    if actions == [] then s else Step(Steps(s, actions[..|actions| - 1]), actions[|actions| - 1])
  }

  // ---- What a log must look like -----------------------------------------------------------------

  /** The clients initialised in a log, in order. */
  function Initialised(log: seq<Event>): seq<Client> {
    if log == [] then []
    else
      var e := log[|log| - 1];
      Initialised(log[..|log| - 1]) + if e.InitCalled? then [e.client] else []
  }

  /** The calls that running `clients` in order amounts to: one for each client with a run function. */
  function CallsOf(clients: seq<Client>): seq<Call> {
    if clients == [] then []
    else
      var c := clients[|clients| - 1];
      CallsOf(clients[..|clients| - 1]) + if c.run != NULL then [Call(c.run, c.storage)] else []
  }

  /** The run calls in a stretch of the log, in order. */
  function RunCalls(log: seq<Event>): seq<Call> {
    if log == [] then []
    else
      var e := log[|log| - 1];
      RunCalls(log[..|log| - 1]) + if e.RunCalled? then [e.call] else []
  }

  /** Position `j` holds the trigger that the task works on at position `k`. */
  ghost predicate TriggerOf(log: seq<Event>, j: nat, k: nat) {
    && j < k <= |log| && log[j].Triggered?
    && forall i :: j < i < k ==> !log[i].Triggered? && !log[i].Finished?
  }

  /** The run calls that a trigger with snapshot n asks for, when `log` is what came before it. */
  ghost function Asked(log: seq<Event>, n: nat): seq<Call>
    requires n <= |Initialised(log)|
  {
    CallsOf(Initialised(log)[..n])
  }

  ghost predicate RunAnswers(log: seq<Event>, j: nat, k: nat)
    requires k < |log|
  {
    && TriggerOf(log, j, k) && log[j].n <= |Initialised(log[..j])|
    && RunCalls(log[j + 1..k + 1]) <= Asked(log[..j], log[j].n)
  }

  /**
   Every run call answers a trigger, and is the next in order of the calls of the first n clients, all of them
   initialised before that trigger.
   */
  ghost predicate RunsAreSafe(log: seq<Event>) {
    forall k :: 0 <= k < |log| && log[k].RunCalled? ==> exists j: nat :: RunAnswers(log, j, k)
  }

  ghost predicate FinishAnswers(log: seq<Event>, j: nat, k: nat)
    requires k < |log|
  {
    && TriggerOf(log, j, k) && log[j].n <= |Initialised(log[..j])|
    && RunCalls(log[j + 1..k]) == Asked(log[..j], log[j].n)
  }

  /** Every finished trigger has run exactly the first n clients, once each, in registration order. */
  ghost predicate TriggersAreExact(log: seq<Event>) {
    forall k :: 0 <= k < |log| && log[k].Finished? ==> exists j: nat :: FinishAnswers(log, j, k)
  }

  // ---- The invariant -----------------------------------------------------------------------------

  /** What slot `i` holds while `registered` are complete and the writer is where it is. */
  predicate Expected(slot: Client, registered: seq<Client>, w: Writer, i: nat) {
    if i < |registered| then slot == registered[i]
    else if i > |registered| then slot.init == NULL
    else match w
      case FillRun(_, c) => slot.init == c.init
      case FillStorage(_, c) => slot.init == c.init && slot.run == c.run
      case _ => slot.init == NULL
  }

  ghost predicate SlotsInv(s: State) {
    && |s.registered| <= |s.slots|
    && (forall i :: 0 <= i < |s.slots| ==> Expected(s.slots[i], s.registered, s.writer, i))
    && (forall i :: 0 <= i < |s.registered| ==> s.registered[i].init != NULL)
    && (s.writer.FillInit? || s.writer.FillRun? || s.writer.FillStorage? ==> s.writer.n == |s.registered| < |s.slots|)
    && (s.writer.Attaching? ==> |s.registered| == |s.slots|)
  }

  /** How many clients have been initialised: one more than clients_initialized says while the writer updates it. */
  function InitCount(s: State): nat {
    s.clientsInitialized + if s.writer.Called? then 1 else 0
  }

  ghost predicate InitInv(s: State) {
    && InitCount(s) <= |s.registered|
    && Initialised(s.log) == s.registered[..InitCount(s)]
    && (s.writer.Scanning? && s.writer.cur <= |s.registered| ==> s.clientsInitialized >= s.writer.cur)
    && (s.writer.Scanning? && s.writer.cur > |s.registered| ==> s.clientsInitialized == |s.registered|)
    && (s.writer.Called? ==> s.writer.cur == s.clientsInitialized)
  }

  /** The trigger the task works on, if it does. */
  function Open(log: seq<Event>): Option<nat> {
    if log == [] then None
    else
      var e := log[|log| - 1];
      if e.Triggered? then Some(|log| - 1) else if e.Finished? then None else Open(log[..|log| - 1])
  }

  /** The number read at the start of the open trigger. */
  function Snapshot(log: seq<Event>): nat {
    var j := Open(log);
    if j.Some? && j.value < |log| && log[j.value].Triggered? then log[j.value].n else 0
  }

  ghost predicate Progress(log: seq<Event>, registered: seq<Client>, initialised: nat, left: nat)
    requires initialised <= |registered|
  {
    var j, n := Open(log), Snapshot(log);
    && j.Some? && TriggerOf(log, j.value, |log|) && left <= n <= initialised
    && n <= |Initialised(log[..j.value])| && Initialised(log[..j.value])[..n] == registered[..n]
    && RunCalls(log[j.value + 1..]) == CallsOf(registered[..n - left])
  }

  /**
   The runner has run the first n - left clients since its trigger, and works on one that was initialised
   before the trigger.
   */
  ghost predicate RunnerInv(r: Runner, log: seq<Event>, registered: seq<Client>, initialised: nat)
    requires initialised <= |registered|
  {
    match r
    case Waiting => true
    case Woken => true
    case Testing(left, pos) =>
      Progress(log, registered, initialised, left) && (left > 0 ==> pos == Snapshot(log) - left)
    case Running(left, pos) =>
      && Progress(log, registered, initialised, left)
      && left > 0 && pos == Snapshot(log) - left && registered[pos].run != NULL
    case Fetched(left, pos, run) =>
      && Progress(log, registered, initialised, left)
      && left > 0 && pos == Snapshot(log) - left && registered[pos].run == run != NULL
  }

  ghost predicate Inv(s: State) {
    && SlotsInv(s) && InitInv(s) && RunnerInv(s.runner, s.log, s.registered, s.clientsInitialized)
    && RunsAreSafe(s.log) && TriggersAreExact(s.log) && (s.runner.Woken? ==> s.enabled)
  }

  // ---- Logs grow at the end ----------------------------------------------------------------------

  lemma {:induction false} InitialisedSnoc(log: seq<Event>, e: Event)
    ensures Initialised(log + [e]) == Initialised(log) + if e.InitCalled? then [e.client] else []
  {
    assert (log + [e])[..|log|] == log;
  }

  lemma {:induction false} CallsOfSnoc(clients: seq<Client>, c: Client)
    ensures CallsOf(clients + [c]) == CallsOf(clients) + if c.run != NULL then [Call(c.run, c.storage)] else []
  {
    assert (clients + [c])[..|clients|] == clients;
  }

  lemma {:induction false} RunCallsSnoc(log: seq<Event>, j: nat, e: Event)
    requires j < |log|
    ensures RunCalls((log + [e])[j + 1..]) == RunCalls(log[j + 1..]) + if e.RunCalled? then [e.call] else []
  {
    var tail := log[j + 1..];
    assert (log + [e])[j + 1..] == tail + [e];
    assert (tail + [e])[..|tail|] == tail;
  }

  lemma {:induction false} OpenSnoc(log: seq<Event>, e: Event)
    ensures Open(log + [e]) == if e.Triggered? then Some(|log|) else if e.Finished? then None else Open(log)
  {
    assert (log + [e])[..|log|] == log;
  }

  /** What the log says about its first k events does not change when it grows. */
  lemma {:induction false} AnswersKept(log: seq<Event>, e: Event, j: nat, k: nat)
    requires k < |log|
    ensures RunAnswers(log, j, k) ==> RunAnswers(log + [e], j, k)
    ensures FinishAnswers(log, j, k) ==> FinishAnswers(log + [e], j, k)
  {
    var log' := log + [e];
    if j < k {
      assert log'[..j] == log[..j] && log'[j + 1..k + 1] == log[j + 1..k + 1] && log'[j + 1..k] == log[j + 1..k];
    }
  }

  lemma {:induction false} LogSnoc(log: seq<Event>, e: Event)
    requires RunsAreSafe(log) && TriggersAreExact(log)
    requires e.RunCalled? ==> exists j: nat :: RunAnswers(log + [e], j, |log|)
    requires e.Finished? ==> exists j: nat :: FinishAnswers(log + [e], j, |log|)
    ensures RunsAreSafe(log + [e]) && TriggersAreExact(log + [e])
  {
    var log' := log + [e];
    forall k | 0 <= k < |log'| && log'[k].RunCalled? ensures exists j: nat :: RunAnswers(log', j, k) {
      if k < |log| {
        var j: nat :| RunAnswers(log, j, k);
        AnswersKept(log, e, j, k);
      }
    }
    forall k | 0 <= k < |log'| && log'[k].Finished? ensures exists j: nat :: FinishAnswers(log', j, k) {
      if k < |log| {
        var j: nat :| FinishAnswers(log, j, k);
        AnswersKept(log, e, j, k);
      }
    }
  }

  lemma {:induction false} FirstFreeIsNext(s: State, from: nat)
    requires SlotsInv(s) && from <= |s.registered|
    requires !s.writer.FillRun? && !s.writer.FillStorage?
    ensures FirstFree(s.slots, from) == |s.registered|
    decreases |s.registered| - from
  {
    if from < |s.slots| {
      assert Expected(s.slots[from], s.registered, s.writer, from);
    }
    if from < |s.registered| {
      FirstFreeIsNext(s, from + 1);
    }
  }

  // ---- Every step keeps the invariant ------------------------------------------------------------

  /** What an event that is neither a trigger nor an end adds to the open trigger. */
  lemma {:induction false} OpenKept(log: seq<Event>, e: Event)
    requires Open(log).Some? && TriggerOf(log, Open(log).value, |log|) && !e.Triggered? && !e.Finished?
    ensures Open(log + [e]) == Open(log) && Snapshot(log + [e]) == Snapshot(log)
    ensures var j := Open(log).value;
      && TriggerOf(log + [e], j, |log| + 1) && (log + [e])[..j] == log[..j]
      && RunCalls((log + [e])[j + 1..]) == RunCalls(log[j + 1..]) + if e.RunCalled? then [e.call] else []
  {
    OpenSnoc(log, e);
    RunCallsSnoc(log, Open(log).value, e);
  }

  /** More registrations and initialisations leave the runner's progress alone. */
  lemma {:induction false} ProgressGrown(log: seq<Event>, registered: seq<Client>, initialised: nat, left: nat,
                                         registered': seq<Client>, initialised': nat)
    requires initialised <= |registered| && Progress(log, registered, initialised, left)
    requires initialised <= initialised' <= |registered'| && registered <= registered'
    ensures Progress(log, registered', initialised', left)
  {
    var n := Snapshot(log);
    assert registered'[..n] == registered[..n];
    assert registered'[..n - left] == registered[..n - left];
  }

  /** So do their events. */
  lemma {:induction false} ProgressLogged(log: seq<Event>, registered: seq<Client>, initialised: nat, left: nat,
                                          e: Event)
    requires initialised <= |registered| && Progress(log, registered, initialised, left)
    requires e.InitCalled? || e.PeriodWritten?
    ensures Progress(log + [e], registered, initialised, left) && Snapshot(log + [e]) == Snapshot(log)
  {
    OpenKept(log, e);
  }

  lemma {:induction false} ProgressKept(log: seq<Event>, registered: seq<Client>, initialised: nat, left: nat,
                                        log': seq<Event>, registered': seq<Client>, initialised': nat)
    requires initialised <= |registered| && Progress(log, registered, initialised, left)
    requires initialised <= initialised' <= |registered'| && registered <= registered'
    requires log' == log || exists e: Event :: (e.InitCalled? || e.PeriodWritten?) && log' == log + [e]
    ensures Progress(log', registered', initialised', left) && Snapshot(log') == Snapshot(log)
  {
    ProgressGrown(log, registered, initialised, left, registered', initialised');
    if log' != log {
      var e: Event :| (e.InitCalled? || e.PeriodWritten?) && log' == log + [e];
      ProgressLogged(log, registered', initialised', left, e);
    }
  }

  lemma {:induction false} RunnerKept(s: State, s': State)
    requires s.clientsInitialized <= |s.registered|
    requires RunnerInv(s.runner, s.log, s.registered, s.clientsInitialized) && s'.runner == s.runner
    requires s.clientsInitialized <= s'.clientsInitialized <= |s'.registered| && s.registered <= s'.registered
    requires s'.log == s.log || exists e: Event :: (e.InitCalled? || e.PeriodWritten?) && s'.log == s.log + [e]
    ensures RunnerInv(s'.runner, s'.log, s'.registered, s'.clientsInitialized)
  {
    if !s.runner.Waiting? && !s.runner.Woken? {
      ProgressKept(s.log, s.registered, s.clientsInitialized, s.runner.left,
                   s'.log, s'.registered, s'.clientsInitialized);
    }
  }

  /** Completing a registration changes nothing that the runner or the log relies on. */
  lemma {:induction false} Registered(s: State, s': State, c: Client)
    requires InitInv(s) && RunnerInv(s.runner, s.log, s.registered, s.clientsInitialized)
    requires s'.registered == s.registered + Added(c) && s'.writer.Idle? && InitCount(s) == s.clientsInitialized
    requires s'.log == s.log && s'.clientsInitialized == s.clientsInitialized
    requires s'.runner == s.runner
    ensures InitInv(s') && RunnerInv(s'.runner, s'.log, s'.registered, s'.clientsInitialized)
  {
    RunnerKept(s, s');
    assert s'.registered[..InitCount(s)] == s.registered[..InitCount(s)];
  }

  lemma {:induction false} FillInv(s: State)
    requires Inv(s) && (s.writer.FillInit? || s.writer.FillRun?)
    ensures Inv(StepWriter(s))
  {
    var s' := StepWriter(s);
    assert SlotsInv(s');
    RunnerKept(s, s');
  }

  lemma {:induction false} FillStorageInv(s: State)
    requires Inv(s) && s.writer.FillStorage?
    ensures Inv(StepWriter(s))
  {
    var s' := StepWriter(s);
    assert Expected(s.slots[s.writer.n], s.registered, s.writer, s.writer.n);
    assert SlotsInv(s');
    Registered(s, s', s.writer.c);
  }

  lemma {:induction false} AttachInv(s: State)
    requires Inv(s) && s.writer.Attaching?
    ensures Inv(StepWriter(s))
  {
    var s' := StepWriter(s);
    assert SlotsInv(s');
    Registered(s, s', s.writer.c);
  }

  lemma {:induction false} CallInv(s: State)
    requires Inv(s) && s.writer.Scanning? && s.writer.cur < |s.slots|
    requires s.writer.cur >= s.clientsInitialized && s.slots[s.writer.cur].init != NULL
    ensures Inv(StepWriter(s))
  {
    var s', cur := StepWriter(s), s.writer.cur;
    assert Expected(s.slots[cur], s.registered, s.writer, cur);
    assert cur == s.clientsInitialized < |s.registered|;
    var e := InitCalled(s.period, s.registered[cur]);
    LogSnoc(s.log, e);
    RunnerKept(s, s');
    assert InitInv(s') by {
      assert s.registered[..cur + 1] == s.registered[..cur] + [s.registered[cur]];
      InitialisedSnoc(s.log, e);
    }
    assert SlotsInv(s');
  }

  lemma {:induction false} ScanInv(s: State)
    requires Inv(s) && (s.writer.Scanning? || s.writer.Called?)
    ensures Inv(StepWriter(s))
  {
    var s' := StepWriter(s);
    if s'.writer.Called? {
      CallInv(s);
    } else {
      assert s.writer.Scanning? && s.writer.cur < |s.slots| ==>
        Expected(s.slots[s.writer.cur], s.registered, s.writer, s.writer.cur);
      assert SlotsInv(s');
      assert InitInv(s');
      RunnerKept(s, s');
    }
  }

  lemma {:induction false} WriterStepInv(s: State)
    requires Inv(s)
    ensures Inv(StepWriter(s))
  {
    match s.writer {
      case Idle =>
      case FillInit(_, _) => FillInv(s);
      case FillRun(_, _) => FillInv(s);
      case FillStorage(_, _) => FillStorageInv(s);
      case Attaching(_) => AttachInv(s);
      case Scanning(_) => ScanInv(s);
      case Called(_) => ScanInv(s);
    }
  }

  lemma {:induction false} NextClient(registered: seq<Client>, pos: nat)
    requires pos < |registered|
    ensures CallsOf(registered[..pos + 1]) == CallsOf(registered[..pos])
      + (var c := registered[pos]; if c.run != NULL then [Call(c.run, c.storage)] else [])
  {
    assert registered[..pos + 1] == registered[..pos] + [registered[pos]];
    CallsOfSnoc(registered[..pos], registered[pos]);
  }

  /** A step of the runner that keeps its side of the invariant keeps it all. */
  lemma {:induction false} RunnerMoved(s: State, r: Runner, log: seq<Event>)
    requires SlotsInv(s) && InitInv(s) && Initialised(log) == Initialised(s.log) && !r.Woken?
    requires RunnerInv(r, log, s.registered, s.clientsInitialized) && RunsAreSafe(log) && TriggersAreExact(log)
    ensures Inv(s.(runner := r, log := log))
  {
  }

  /** The runner is at a client that was initialised before its trigger, if it has any left to run. */
  lemma {:induction false} AtClient(s: State)
    requires Inv(s) && (s.runner.Testing? || s.runner.Running? || s.runner.Fetched?) && s.runner.left > 0
    ensures s.runner.pos == Snapshot(s.log) - s.runner.left < |s.registered| <= |s.slots|
    ensures s.slots[s.runner.pos] == s.registered[s.runner.pos]
  {
    assert Expected(s.slots[s.runner.pos], s.registered, s.writer, s.runner.pos);
  }

  lemma {:induction false} CallsOfPrefix(clients: seq<Client>, k: nat)
    requires k <= |clients|
    ensures CallsOf(clients[..k]) <= CallsOf(clients)
  {
    if k == |clients| {
      assert clients[..k] == clients;
    } else {
      var n := |clients| - 1;
      CallsOfPrefix(clients[..n], k);
      assert clients[..n][..k] == clients[..k];
    }
  }

  /** The call of the next client is the next one that the open trigger asks for. */
  lemma {:induction false} CallAnswered(log: seq<Event>, registered: seq<Client>, initialised: nat, left: nat)
    requires initialised <= |registered| && Progress(log, registered, initialised, left) && left > 0
    requires registered[Snapshot(log) - left].run != NULL
    ensures var c := registered[Snapshot(log) - left];
      var log' := log + [RunCalled(Call(c.run, c.storage))];
      && RunAnswers(log', Open(log).value, |log|)
      && Progress(log', registered, initialised, left - 1) && Snapshot(log') == Snapshot(log)
  {
    var j, n := Open(log).value, Snapshot(log);
    var c := registered[n - left];
    var e := RunCalled(Call(c.run, c.storage));
    OpenKept(log, e);
    NextClient(registered, n - left);
    CallsOfPrefix(registered[..n], n - left + 1);
    assert registered[..n][..n - left + 1] == registered[..n - left + 1];
    assert (log + [e])[j + 1..|log| + 1] == (log + [e])[j + 1..];
  }

  /** A client without a run function is passed over. */
  lemma {:induction false} PassedOver(log: seq<Event>, registered: seq<Client>, initialised: nat, left: nat)
    requires initialised <= |registered| && Progress(log, registered, initialised, left) && left > 0
    requires registered[Snapshot(log) - left].run == NULL
    ensures Progress(log, registered, initialised, left - 1)
  {
    NextClient(registered, Snapshot(log) - left);
  }

  lemma {:induction false} FinishAnswered(log: seq<Event>, registered: seq<Client>, initialised: nat)
    requires initialised <= |registered| && Progress(log, registered, initialised, 0)
    ensures FinishAnswers(log + [Finished], Open(log).value, |log|)
  {
    var j := Open(log).value;
    assert (log + [Finished])[j + 1..|log|] == log[j + 1..] && (log + [Finished])[..j] == log[..j];
  }

  lemma {:induction false} FinishLogged(log: seq<Event>, registered: seq<Client>, initialised: nat)
    requires initialised <= |registered| && Progress(log, registered, initialised, 0)
    requires RunsAreSafe(log) && TriggersAreExact(log)
    ensures RunsAreSafe(log + [Finished]) && TriggersAreExact(log + [Finished])
    ensures Initialised(log + [Finished]) == Initialised(log)
  {
    FinishAnswered(log, registered, initialised);
    LogSnoc(log, Finished);
    InitialisedSnoc(log, Finished);
  }

  lemma {:induction false} FinishInv(s: State)
    requires Inv(s) && s.runner.Testing? && s.runner.pos >= |s.slots|
    ensures Inv(StepRunner(s))
  {
    if s.runner.left > 0 {
      AtClient(s);
    }
    FinishLogged(s.log, s.registered, s.clientsInitialized);
    RunnerMoved(s, Waiting, s.log + [Finished]);
  }

  lemma {:induction false} TestKept(log: seq<Event>, registered: seq<Client>, initialised: nat, left: nat, slot: Client)
    requires initialised <= |registered| && Progress(log, registered, initialised, left)
    requires left > 0 ==> slot == registered[Snapshot(log) - left]
    ensures left > 0 ==>
      var pos := Snapshot(log) - left;
      var next := if slot.run != NULL then Running(left, pos) else Testing(left - 1, pos + 1);
      RunnerInv(next, log, registered, initialised)
    ensures left == 0 ==> forall pos :: RunnerInv(Testing(0, pos), log, registered, initialised)
  {
    if left > 0 && slot.run == NULL {
      PassedOver(log, registered, initialised, left);
    }
  }

  /** Where the runner goes from a slot it has tested. */
  function Tested(left: nat, pos: nat, slot: Client): Runner {
    if left == 0 then Testing(0, (pos / SCHEDULER_CLIENTS_PER_POOL + 1) * SCHEDULER_CLIENTS_PER_POOL)
    else if slot.run != NULL then Running(left, pos)
    else Testing(left - 1, pos + 1)
  }

  lemma {:induction false} TestStep(s: State)
    requires Inv(s) && s.runner.Testing? && s.runner.pos < |s.slots|
    ensures StepRunner(s) == s.(runner := Tested(s.runner.left, s.runner.pos, s.slots[s.runner.pos]), log := s.log)
    ensures s.runner.left > 0 ==>
      && s.runner.pos == Snapshot(s.log) - s.runner.left < |s.registered|
      && s.slots[s.runner.pos] == s.registered[s.runner.pos]
  {
    if s.runner.left > 0 {
      AtClient(s);
    }
  }

  lemma {:induction false} TestInv(s: State)
    requires Inv(s) && s.runner.Testing? && s.runner.pos < |s.slots|
    ensures Inv(StepRunner(s))
  {
    var pos, left := s.runner.pos, s.runner.left;
    TestStep(s);
    TestKept(s.log, s.registered, s.clientsInitialized, left, s.slots[pos]);
    RunnerMoved(s, Tested(left, pos, s.slots[pos]), s.log);
  }

  lemma {:induction false} RunningInv(s: State)
    requires Inv(s) && s.runner.Running?
    ensures Inv(StepRunner(s))
  {
    AtClient(s);
    RunnerMoved(s, StepRunner(s).runner, s.log);
  }

  lemma {:induction false} CallLogged(log: seq<Event>, registered: seq<Client>, initialised: nat, left: nat)
    requires initialised <= |registered| && Progress(log, registered, initialised, left) && left > 0
    requires registered[Snapshot(log) - left].run != NULL
    requires RunsAreSafe(log) && TriggersAreExact(log)
    ensures var c := registered[Snapshot(log) - left];
      var log' := log + [RunCalled(Call(c.run, c.storage))];
      && RunsAreSafe(log') && TriggersAreExact(log') && Initialised(log') == Initialised(log)
      && RunnerInv(Testing(left - 1, Snapshot(log) - left + 1), log', registered, initialised)
  {
    var c := registered[Snapshot(log) - left];
    CallAnswered(log, registered, initialised, left);
    LogSnoc(log, RunCalled(Call(c.run, c.storage)));
    InitialisedSnoc(log, RunCalled(Call(c.run, c.storage)));
  }

  lemma {:induction false} FetchedStep(s: State)
    requires Inv(s) && s.runner.Fetched?
    ensures s.runner.left > 0 && s.runner.pos == Snapshot(s.log) - s.runner.left < |s.registered|
    ensures var c, left := s.registered[s.runner.pos], s.runner.left;
      StepRunner(s)
      == s.(runner := Testing(left - 1, s.runner.pos + 1), log := s.log + [RunCalled(Call(c.run, c.storage))])
  {
    AtClient(s);
  }

  lemma {:induction false} FetchedInv(s: State)
    requires Inv(s) && s.runner.Fetched?
    ensures Inv(StepRunner(s))
  {
    FetchedStep(s);
    var pos, left := s.runner.pos, s.runner.left;
    var c := s.registered[pos];
    CallLogged(s.log, s.registered, s.clientsInitialized, left);
    RunnerMoved(s, Testing(left - 1, pos + 1), s.log + [RunCalled(Call(c.run, c.storage))]);
  }

  lemma {:induction false} SnapshotInv(s: State)
    requires Inv(s) && s.runner.Woken?
    ensures Inv(StepRunner(s))
  {
    var n := s.clientsInitialized;
    var e := Triggered(n);
    LogSnoc(s.log, e);
    InitialisedSnoc(s.log, e);
    OpenSnoc(s.log, e);
    var log' := s.log + [e];
    assert log'[..|s.log|] == s.log && log'[|s.log| + 1..] == [] && s.registered[..0] == [];
    assert s.registered[..InitCount(s)][..n] == s.registered[..n];
  }

  lemma {:induction false} RunnerStepInv(s: State)
    requires Inv(s)
    ensures Inv(StepRunner(s))
  {
    match s.runner {
      case Waiting =>
      case Woken => SnapshotInv(s);
      case Testing(_, pos) =>
        if pos >= |s.slots| {
          FinishInv(s);
        } else {
          TestInv(s);
        }
      case Running(_, _) => RunningInv(s);
      case Fetched(_, _, _) => FetchedInv(s);
    }
  }

  lemma {:induction false} RegisterInv(s: State, c: Client)
    requires Inv(s)
    ensures Inv(Step(s, Register(c)))
  {
    if s.writer.Idle? {
      FirstFreeIsNext(s, 0);
    }
    var s' := Step(s, Register(c));
    assert SlotsInv(s') && InitInv(s');
    RunnerKept(s, s');
  }

  /** An event that is no init call leaves slots and initialisation alone, and so does the period. */
  lemma {:induction false} OnlyPeriod(s: State, p: real, m: multiset<real>, e: Event)
    requires SlotsInv(s) && InitInv(s) && e.PeriodWritten?
    ensures var s' := s.(period := p, configuring := m, log := s.log + [e]); SlotsInv(s') && InitInv(s')
  {
    InitialisedSnoc(s.log, e);
  }

  lemma {:induction false} WriteInv(s: State, p: real)
    requires Inv(s) && p in s.configuring
    ensures Inv(Step(s, WritePeriod(p)))
  {
    var e := PeriodWritten(p);
    LogSnoc(s.log, e);
    OnlyPeriod(s, p, s.configuring - multiset{p}, e);
    RunnerKept(s, Step(s, WritePeriod(p)));
  }

  /** Steps that change none of what the invariant speaks of, except for who holds the mutex. */
  lemma {:induction false} QuietInv(s: State, a: Action)
    requires Inv(s) && (a.InitClients? || a.TestPeriod? || a.Enable? || a.Trigger?)
    ensures Inv(Step(s, a))
  {
    var s' := Step(s, a);
    assert s'.log == s.log && s'.registered == s.registered && s'.clientsInitialized == s.clientsInitialized;
    assert SlotsInv(s') && InitInv(s');
  }

  lemma {:induction false} StepInv(s: State, a: Action)
    requires Inv(s)
    ensures Inv(Step(s, a))
  {
    match a {
      case Register(c) => RegisterInv(s, c);
      case WriterStep => WriterStepInv(s);
      case RunnerStep => RunnerStepInv(s);
      case WritePeriod(p) =>
        if p in s.configuring {
          WriteInv(s, p);
        }
      case InitClients => QuietInv(s, a);
      case TestPeriod(_) => QuietInv(s, a);
      case Enable => QuietInv(s, a);
      case Trigger => QuietInv(s, a);
    }
  }

  /** The invariant holds after every sequence of steps, in whatever order the parties take them. */
  lemma {:induction false} AlwaysInv(actions: seq<Action>)
    ensures Inv(Steps(InitialState(), actions))
  {
    if actions != [] {
      var n := |actions| - 1;
      AlwaysInv(actions[..n]);
      StepInv(Steps(InitialState(), actions[..n]), actions[n]);
    }
  }

  // ---- What every run does -----------------------------------------------------------------------

  lemma {:induction false} CallAsked(log: seq<Event>, j: nat, k: nat)
    requires k < |log| && log[k].RunCalled? && RunAnswers(log, j, k)
    ensures log[k].call in Asked(log[..j], log[j].n)
  {
    var stretch := log[j + 1..k + 1];
    assert stretch[|stretch| - 1] == log[k];
    var calls := RunCalls(stretch);
    assert calls[|calls| - 1] == log[k].call;
  }

  lemma {:induction false} CallOrigin(clients: seq<Client>, call: Call) returns (c: Client)
    requires call in CallsOf(clients)
    ensures c in clients && c.run != NULL && call == Call(c.run, c.storage)
  {
    var n := |clients| - 1;
    c := clients[n];
    if c.run == NULL || call != Call(c.run, c.storage) {
      c := CallOrigin(clients[..n], call);
    }
  }

  lemma {:induction false} InitialisedGrows(log: seq<Event>, j: nat, k: nat)
    requires j <= k <= |log|
    ensures Initialised(log[..j]) <= Initialised(log[..k])
  {
    if j < k {
      InitialisedGrows(log, j, k - 1);
      assert log[..k][..k - 1] == log[..k - 1];
    }
  }

  /** Lock-free running is safe: every run call takes run and storage of one client whose init was called before. */
  lemma {:induction false} RunnerIsSafe(actions: seq<Action>, k: nat)
    requires k < |Steps(InitialState(), actions).log| && Steps(InitialState(), actions).log[k].RunCalled?
    ensures var log := Steps(InitialState(), actions).log;
      exists c :: c in Initialised(log[..k]) && c.run != NULL && log[k].call == Call(c.run, c.storage)
  {
    AlwaysInv(actions);
    var log := Steps(InitialState(), actions).log;
    var j: nat :| RunAnswers(log, j, k);
    CallAsked(log, j, k);
    var c := CallOrigin(Initialised(log[..j])[..log[j].n], log[k].call);
    InitialisedGrows(log, j, k);
  }

  lemma {:induction false} EveryCall(clients: seq<Client>, i: nat)
    requires i < |clients| && clients[i].run != NULL
    ensures Call(clients[i].run, clients[i].storage) in CallsOf(clients)
  {
    if i < |clients| - 1 {
      EveryCall(clients[..|clients| - 1], i);
    }
  }

  lemma {:induction false} CallLoggedAt(log: seq<Event>, call: Call) returns (p: nat)
    requires call in RunCalls(log)
    ensures p < |log| && log[p] == RunCalled(call)
  {
    var n := |log| - 1;
    if log[n] == RunCalled(call) {
      p := n;
    } else {
      p := CallLoggedAt(log[..n], call);
    }
  }

  /** Between positions j and k the client's run function is called with its storage, if it has one. */
  ghost predicate RunBetween(log: seq<Event>, j: nat, k: nat, c: Client) {
    c.run != NULL ==> exists p: nat :: j < p < k && p < |log| && log[p] == RunCalled(Call(c.run, c.storage))
  }

  lemma {:induction false} ClientRuns(log: seq<Event>, j: nat, k: nat, clients: seq<Client>, i: nat)
    requires j < k <= |log| && RunCalls(log[j + 1..k]) == CallsOf(clients) && i < |clients|
    ensures RunBetween(log, j, k, clients[i])
  {
    var c := clients[i];
    if c.run != NULL {
      EveryCall(clients, i);
      var p := CallLoggedAt(log[j + 1..k], Call(c.run, c.storage));
      assert log[j + 1 + p] == log[j + 1..k][p];
    }
  }

  /**
   No client of the snapshot is left out: when a trigger has finished, run has been called, with the client's own
   storage, for every client with a run function among the first n that had been initialised.
   */
  lemma {:induction false} EveryClientRuns(actions: seq<Action>, k: nat) returns (j: nat)
    requires k < |Steps(InitialState(), actions).log| && Steps(InitialState(), actions).log[k].Finished?
    ensures var log := Steps(InitialState(), actions).log;
      && j < k && log[j].Triggered? && log[j].n <= |Initialised(log[..j])|
      && (forall i :: j < i < k ==> !log[i].Triggered? && !log[i].Finished?)
      && forall i :: 0 <= i < log[j].n ==> RunBetween(log, j, k, Initialised(log[..j])[i])
  {
    AlwaysInv(actions);
    var log := Steps(InitialState(), actions).log;
    j :| FinishAnswers(log, j, k);
    var before, n := Initialised(log[..j]), log[j].n;
    forall i | 0 <= i < n ensures RunBetween(log, j, k, before[i]) {
      ClientRuns(log, j, k, before[..n], i);
    }
  }

  /** Each trigger runs exactly the clients of its snapshot, once each and in registration order. */
  lemma {:induction false} TriggersRunSnapshot(actions: seq<Action>)
    ensures var log := Steps(InitialState(), actions).log; RunsAreSafe(log) && TriggersAreExact(log)
  {
    AlwaysInv(actions);
  }

  /** An event that a step adds to the log. */
  lemma {:induction false} LogGrows(s: State, a: Action)
    ensures var log' := Step(s, a).log;
      log' == s.log || (|log'| == |s.log| + 1 && log'[..|s.log|] == s.log)
    ensures var log' := Step(s, a).log;
      |log'| > |s.log| && log'[|s.log|].Triggered? ==>
        a == RunnerStep && s.runner.Woken? && log'[|s.log|].n == s.clientsInitialized
  {
  }

  /**
   The snapshot in the log is the value of clients_initialized at the step that made it: the number of clients
   initialised by then, less the one whose init has been called but not been counted yet, if there is one.
   */
  lemma {:induction false} SnapshotIsRead(actions: seq<Action>, j: nat) returns (m: nat)
    requires j < |Steps(InitialState(), actions).log| && Steps(InitialState(), actions).log[j].Triggered?
    ensures m < |actions| && actions[m] == RunnerStep
    ensures var log := Steps(InitialState(), actions).log;
      var s := Steps(InitialState(), actions[..m]);
      && s.log == log[..j] && s.enabled && s.runner.Woken? && log[j].n == s.clientsInitialized
      && |Initialised(log[..j])| == log[j].n + if s.writer.Called? then 1 else 0
  {
    var n := |actions| - 1;
    var s := Steps(InitialState(), actions[..n]);
    LogGrows(s, actions[n]);
    var log := Steps(InitialState(), actions).log;
    if j < |s.log| {
      assert s.log == log[..|s.log|];
      m := SnapshotIsRead(actions[..n], j);
      assert actions[..n][..m] == actions[..m];
      assert s.log[..j] == log[..j];
    } else {
      m := n;
      AlwaysInv(actions[..n]);
      assert log[..j] == s.log;
    }
  }

  /** How many more steps the runner takes at most, if no pool is added. */
  function Ahead(s: State): nat {
    match s.runner
    case Waiting => 0
    case Woken => 3 * |s.slots| + 2
    case Testing(_, pos) => if pos < |s.slots| then 3 * (|s.slots| - pos) + 1 else 1
    case Running(_, pos) => if pos < |s.slots| then 3 * (|s.slots| - pos) else 1
    case Fetched(_, pos, _) => if pos < |s.slots| then 3 * (|s.slots| - pos) - 1 else 1
  }

  function RunnerSteps(actions: seq<Action>): nat {
    if actions == [] then 0
    else RunnerSteps(actions[..|actions| - 1]) + if actions[|actions| - 1].RunnerStep? then 1 else 0
  }

  ghost predicate FinishedSince(log: seq<Event>, from: nat) {
    exists k :: from <= k < |log| && log[k].Finished?
  }

  lemma {:induction false} NextPool(pos: nat)
    ensures pos < (pos / SCHEDULER_CLIENTS_PER_POOL + 1) * SCHEDULER_CLIENTS_PER_POOL
  {
  }

  lemma {:induction false} RunnerAhead(s: State)
    requires Inv(s) && !s.runner.Waiting?
    ensures var s' := StepRunner(s);
      && (s'.runner.Waiting? ==> |s'.log| > |s.log| && s'.log[|s.log|].Finished?)
      && (!s'.runner.Waiting? ==> Ahead(s') + 1 <= Ahead(s))
  {
    if s.runner.Running? || s.runner.Fetched? {
      assert s.runner.pos < |s.registered|;
    } else if s.runner.Testing? {
      NextPool(s.runner.pos);
    }
  }

  lemma {:induction false} WriterAhead(s: State)
    ensures var s' := StepWriter(s);
      s'.runner == s.runner && |s.slots| <= |s'.slots| && Ahead(s') <= Ahead(s) + 3 * (|s'.slots| - |s.slots|)
  {
  }

  lemma {:induction false} OthersAhead(s: State, a: Action)
    requires !s.runner.Waiting? && !a.RunnerStep? && !a.WriterStep?
    ensures Step(s, a).runner == s.runner && Step(s, a).slots == s.slots
  {
  }

  lemma {:induction false} StepAhead(s: State, a: Action)
    requires Inv(s) && !s.runner.Waiting?
    ensures var s' := Step(s, a);
      && |s.slots| <= |s'.slots|
      && (s'.runner.Waiting? ==> |s'.log| > |s.log| && s'.log[|s.log|].Finished?)
      && (!s'.runner.Waiting? ==>
           Ahead(s') + (if a.RunnerStep? then 1 else 0) <= Ahead(s) + 3 * (|s'.slots| - |s.slots|))
  {
    if a.RunnerStep? {
      RunnerAhead(s);
    } else if a.WriterStep? {
      WriterAhead(s);
    } else {
      OthersAhead(s, a);
    }
  }

  /** The runner has finished since `from`, or has no more steps ahead than `budget` and three for every slot. */
  ghost predicate Advanced(s: State, from: nat, budget: int) {
    FinishedSince(s.log, from) || (!s.runner.Waiting? && Ahead(s) <= budget + 3 * |s.slots|)
  }

  lemma {:induction false} AdvancedStep(s: State, a: Action, from: nat, budget: int)
    requires Inv(s) && Advanced(s, from, budget) && from <= |s.log|
    ensures Advanced(Step(s, a), from, budget - if a.RunnerStep? then 1 else 0)
    ensures s.log <= Step(s, a).log
  {
    LogGrows(s, a);
    if FinishedSince(s.log, from) {
      var k :| from <= k < |s.log| && s.log[k].Finished?;
      assert Step(s, a).log[k].Finished?;
    } else {
      StepAhead(s, a);
    }
  }

  lemma {:induction false} AheadBound(s: State, actions: seq<Action>)
    requires Inv(s) && !s.runner.Waiting?
    ensures var s' := Steps(s, actions);
      && Inv(s') && |s.log| <= |s'.log|
      && Advanced(s', |s.log|, Ahead(s) - 3 * |s.slots| - RunnerSteps(actions))
  {
    if actions != [] {
      var n := |actions| - 1;
      AheadBound(s, actions[..n]);
      var mid := Steps(s, actions[..n]);
      StepInv(mid, actions[n]);
      AdvancedStep(mid, actions[n], |s.log|, Ahead(s) - 3 * |s.slots| - RunnerSteps(actions[..n]));
    }
  }

  lemma Wakes(s: State)
    requires Inv(s) && s.runner.Waiting?
    ensures var t := Step(Step(s, Enable), Trigger);
      Inv(t) && t.log == s.log && !t.runner.Waiting? && Ahead(t) - 3 * |t.slots| == 2
  {
    StepInv(s, Enable);
    StepInv(Step(s, Enable), Trigger);
  }

  /**
   A trigger comes to its end: once the runner has made as many steps as there were to make, and three for every
   slot added meanwhile, it has finished, whatever the other parties did in between.
   */
  lemma {:induction false} TriggerFinishes(s: State, actions: seq<Action>)
    requires Inv(s) && s.runner.Waiting?
    requires var s' := Steps(Step(Step(s, Enable), Trigger), actions); RunnerSteps(actions) > 3 * |s'.slots| + 1
    ensures FinishedSince(Steps(Step(Step(s, Enable), Trigger), actions).log, |s.log|)
  {
    var t := Step(Step(s, Enable), Trigger);
    Wakes(s);
    AheadBound(t, actions);
    var log := Steps(t, actions).log;
    if FinishedSince(log, |t.log|) {
      var k :| |t.log| <= k < |log| && log[k].Finished?;
      assert |s.log| <= k;
    }
  }

  /** The init calls are those of the first registered clients, once each and in order. */
  lemma {:induction false} InitialisedOnceInOrder(actions: seq<Action>)
    ensures var s := Steps(InitialState(), actions); Initialised(s.log) <= s.registered
  {
    AlwaysInv(actions);
  }

  // ---- An initialisation call comes to its end -----------------------------------------------------

  function WriterSteps(actions: seq<Action>): nat {
    if actions == [] then 0
    else WriterSteps(actions[..|actions| - 1]) + if actions[|actions| - 1].WriterStep? then 1 else 0
  }

  /** The accesses of a call of sc_init_clients: one for each slot, one more for each client it initialises, the end. */
  function ScanLength(s: State): nat
    requires s.clientsInitialized <= |s.registered|
  {
    |s.slots| + (|s.registered| - s.clientsInitialized) + 1
  }

  /** How many of them are left. */
  function ScanLeft(s: State): int {
    match s.writer
    case Scanning(cur) => |s.slots| - cur + (|s.registered| - s.clientsInitialized) + 1
    case Called(cur) => |s.slots| - cur + (|s.registered| - s.clientsInitialized)
    case _ => 0
  }

  /** Where a call that began with `registered`, and has `left` accesses to make, has got to. */
  ghost predicate ScanAt(s: State, registered: seq<Client>, left: int) {
    if left > 0 then
      && (s.writer.Scanning? || s.writer.Called?) && s.writer.cur <= |s.slots|
      && s.registered == registered && ScanLeft(s) == left
    else if left == 0 then
      && !s.writer.FillRun? && !s.writer.FillStorage? && !s.writer.Called?
      && s.registered == registered && s.clientsInitialized == |registered|
    else
      registered <= s.registered && |registered| <= s.clientsInitialized
  }

  lemma {:induction false} ScanStep(s: State, registered: seq<Client>, left: int)
    requires Inv(s) && ScanAt(s, registered, left)
    ensures ScanAt(StepWriter(s), registered, left - 1)
    ensures left == 1 ==> StepWriter(s).writer.Idle?
  {
    if left > 0 && s.writer.cur < |s.slots| {
      assert Expected(s.slots[s.writer.cur], s.registered, s.writer, s.writer.cur);
    }
  }

  /** The other parties leave the writer's state alone, except that a task may take a free mutex. */
  lemma {:induction false} WriterKept(s: State, a: Action)
    requires !a.WriterStep?
    ensures var s' := Step(s, a);
      && s'.slots == s.slots && s'.registered == s.registered && s'.clientsInitialized == s.clientsInitialized
      && (s'.writer == s.writer
          || (s.writer.Idle? && (s'.writer.FillInit? || s'.writer.Attaching? || s'.writer == Scanning(0))))
  {
  }

  lemma {:induction false} OthersScan(s: State, a: Action, registered: seq<Client>, left: int)
    requires Inv(s) && ScanAt(s, registered, left) && !a.WriterStep?
    ensures ScanAt(Step(s, a), registered, left)
  {
    WriterKept(s, a);
  }

  lemma ScanBegins(s: State)
    requires Inv(s) && s.writer.Idle? && s.period >= 0.0
    ensures Inv(Step(s, InitClients)) && ScanAt(Step(s, InitClients), s.registered, ScanLength(s))
  {
    StepInv(s, InitClients);
  }

  lemma {:induction false} ScanSteps(s: State, actions: seq<Action>, registered: seq<Client>, left: int)
    requires Inv(s) && ScanAt(s, registered, left)
    ensures Inv(Steps(s, actions)) && ScanAt(Steps(s, actions), registered, left - WriterSteps(actions))
  {
    if actions != [] {
      var n := |actions| - 1;
      ScanSteps(s, actions[..n], registered, left);
      var mid := Steps(s, actions[..n]);
      StepInv(mid, actions[n]);
      if actions[n].WriterStep? {
        ScanStep(mid, registered, left - WriterSteps(actions[..n]));
      } else {
        OthersScan(mid, actions[n], registered, left - WriterSteps(actions[..n]));
      }
    }
  }

  /**
   Whatever the other parties do in between, a call of sc_init_clients has ended after exactly as many accesses as
   ScanLength says, and left every client registered by then initialised.
   */
  lemma {:induction false} InitFinishes(s: State, actions: seq<Action>)
    requires Inv(s) && s.writer.Idle? && s.period >= 0.0
    ensures
      var s' := Steps(Step(s, InitClients), actions);
      && (WriterSteps(actions) < ScanLength(s) ==>
           (s'.writer.Scanning? || s'.writer.Called?) && s'.registered == s.registered)
      && (WriterSteps(actions) == ScanLength(s) ==>
           s'.clientsInitialized == |s.registered| && Initialised(s'.log) == s'.registered == s.registered)
      && (WriterSteps(actions) >= ScanLength(s) ==>
           s'.clientsInitialized >= |s.registered| && s.registered <= Initialised(s'.log))
  {
    var t := Step(s, InitClients);
    ScanBegins(s);
    ScanSteps(t, actions, s.registered, ScanLength(s));
    var s' := Steps(t, actions);
    if WriterSteps(actions) >= ScanLength(s) {
      assert Initialised(s'.log) == s'.registered[..InitCount(s')];
      assert s.registered == s'.registered[..|s.registered|];
    }
  }

  // ---- Left alone, the steps of a party add up to the call ---------------------------------------

  /** Entering sc_register_client and letting it finish registers the client, whatever the state it found. */
  lemma {:induction false} UndisturbedRegistration(s: State, c: Client)
    requires Inv(s) && s.writer.Idle?
    ensures var s' := StepWriter(StepWriter(StepWriter(Step(s, Register(c)))));
      s'.registered == s.registered + Added(c) && s'.writer.Idle? && s'.runner == s.runner && s'.log == s.log
  {
    FirstFreeIsNext(s, 0);
  }

  /** Accesses of the mutex holder with nothing in between. */
  function Alone(s: State, n: nat): State {
    if n == 0 then s else StepWriter(Alone(s, n - 1))
  }

  lemma {:induction false} ScanAlone(t: State, registered: seq<Client>, left: nat, n: nat)
    requires Inv(t) && ScanAt(t, registered, left) && n <= left
    ensures Inv(Alone(t, n)) && ScanAt(Alone(t, n), registered, left - n)
    ensures 0 < n == left ==> Alone(t, n).writer.Idle?
  {
    if n > 0 {
      ScanAlone(t, registered, left, n - 1);
      ScanStep(Alone(t, n - 1), registered, left - n + 1);
      WriterStepInv(Alone(t, n - 1));
    }
  }

  lemma ScanOver(s: State, registered: seq<Client>)
    requires Inv(s) && ScanAt(s, registered, 0)
    ensures s.clientsInitialized == |s.registered| && Initialised(s.log) == s.registered == registered
  {
  }

  /** Entering sc_init_clients and letting it finish initialises every registered client, whatever it found. */
  lemma {:induction false} UndisturbedInit(s: State)
    requires Inv(s) && s.writer.Idle? && s.period >= 0.0
    ensures var s' := Alone(Step(s, InitClients), ScanLength(s));
      && s'.writer.Idle? && s'.clientsInitialized == |s'.registered|
      && Initialised(s'.log) == s'.registered == s.registered
  {
    var t, n := Step(s, InitClients), ScanLength(s);
    ScanBegins(s);
    ScanAlone(t, s.registered, n, n);
    ScanOver(Alone(t, n), s.registered);
  }
}
