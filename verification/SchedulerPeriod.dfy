/**
 Which period clients are initialised with (core/scheduler.c).  sc_configure_source tests and then writes the period
 without taking sc_mutex, so two calls can both find it free, and the later write can come between two init calls.
 */
module SchedulerPeriod {
  import opened Basics
  import opened Scheduler
  import opened SchedulerRaces

  /** All init calls were made with the same period, and that is not negative. */
  ghost predicate OnePeriod(log: seq<Event>) {
    forall j, k :: 0 <= j < |log| && 0 <= k < |log| && log[j].InitCalled? && log[k].InitCalled? ==>
      log[j].period == log[k].period >= 0.0
  }

  // ---- The exact condition on a run --------------------------------------------------------------

  /** The period after the events of a log: the last one written. */
  function InForce(log: seq<Event>): real {
    if log == [] then -1.0
    else
      var e := log[|log| - 1];
      if e.PeriodWritten? then e.written else InForce(log[..|log| - 1])
  }

  /** Some configuration of the log has a period that is not negative. */
  ghost predicate Configured(log: seq<Event>) {
    exists w :: 0 <= w < |log| && log[w].PeriodWritten? && log[w].written >= 0.0
  }

  /** Every init call came after such a configuration and was given the period that was in force. */
  ghost predicate InitsConfigured(log: seq<Event>) {
    forall k :: 0 <= k < |log| && log[k].InitCalled? ==> Configured(log[..k]) && log[k].period == InForce(log[..k])
  }

  predicate Initialising(w: Writer) {
    w.Scanning? || w.Called?
  }

  ghost predicate PeriodInv(s: State) {
    && s.period == InForce(s.log) && InitsConfigured(s.log)
    && (s.period >= 0.0 || Initialising(s.writer) ==> Configured(s.log))
  }

  lemma {:induction false} InForceSnoc(log: seq<Event>, e: Event)
    ensures InForce(log + [e]) == if e.PeriodWritten? then e.written else InForce(log)
    ensures Configured(log) ==> Configured(log + [e])
    ensures e.PeriodWritten? && e.written >= 0.0 ==> Configured(log + [e])
  {
    var log' := log + [e];
    assert log'[..|log|] == log && log'[|log|] == e;
    if Configured(log) {
      var w :| 0 <= w < |log| && log[w].PeriodWritten? && log[w].written >= 0.0;
      assert log'[w] == log[w];
    }
  }

  lemma {:induction false} InitsSnoc(log: seq<Event>, e: Event)
    requires InitsConfigured(log) && (e.InitCalled? ==> Configured(log) && e.period == InForce(log))
    ensures InitsConfigured(log + [e])
  {
    var log' := log + [e];
    forall k | 0 <= k < |log'| && log'[k].InitCalled?
      ensures Configured(log'[..k]) && log'[k].period == InForce(log'[..k])
    {
      assert log'[..k] == log[..k];
      assert log[..|log|] == log;
    }
  }

  ghost predicate Allowed(s: State, e: Event) {
    !e.PeriodWritten? && (e.InitCalled? ==> Initialising(s.writer) && e.period == s.period)
  }

  /** What a step that is not part of a configuration can do about the period: begin or make init calls with it. */
  ghost predicate KeepsPeriod(s: State, s': State) {
    && s'.period == s.period && s'.configuring == s.configuring
    && (Initialising(s'.writer) ==> Initialising(s.writer) || s.period >= 0.0)
    && (s'.log == s.log || exists e :: s'.log == s.log + [e] && Allowed(s, e))
  }

  lemma {:induction false} WriterKeepsPeriod(s: State)
    ensures KeepsPeriod(s, StepWriter(s))
  {
    if s.writer.Scanning? && StepWriter(s).writer.Called? {
      assert Allowed(s, InitCalled(s.period, s.slots[s.writer.cur]));
    }
  }

  lemma {:induction false} RunnerKeepsPeriod(s: State)
    ensures KeepsPeriod(s, StepRunner(s))
  {
    if StepRunner(s).log != s.log {
      var e := StepRunner(s).log[|s.log|];
      assert StepRunner(s).log == s.log + [e] && Allowed(s, e);
    }
  }

  lemma {:induction false} StepKeepsPeriod(s: State, a: Action)
    requires !a.TestPeriod? && !a.WritePeriod?
    ensures KeepsPeriod(s, Step(s, a))
  {
    match a {
      case WriterStep => WriterKeepsPeriod(s);
      case RunnerStep => RunnerKeepsPeriod(s);
      case Register(_) =>
      case InitClients =>
      case Enable =>
      case Trigger =>
    }
  }

  lemma {:induction false} PeriodKept(s: State, s': State)
    requires PeriodInv(s) && KeepsPeriod(s, s')
    ensures PeriodInv(s')
  {
    if s'.log != s.log {
      var e :| s'.log == s.log + [e] && Allowed(s, e);
      InForceSnoc(s.log, e);
      InitsSnoc(s.log, e);
    }
  }

  lemma {:induction false} PeriodStep(s: State, a: Action)
    requires PeriodInv(s)
    ensures PeriodInv(Step(s, a))
  {
    if a.WritePeriod? {
      InForceSnoc(s.log, PeriodWritten(a.p));
      InitsSnoc(s.log, PeriodWritten(a.p));
    } else if !a.TestPeriod? {
      StepKeepsPeriod(s, a);
      PeriodKept(s, Step(s, a));
    }
  }

  lemma {:induction false} AlwaysPeriodInv(actions: seq<Action>)
    ensures PeriodInv(Steps(InitialState(), actions))
  {
    if actions != [] {
      var n := |actions| - 1;
      AlwaysPeriodInv(actions[..n]);
      PeriodStep(Steps(InitialState(), actions[..n]), actions[n]);
    }
  }

  /** The period written at w is the one in force at the init call at k. */
  ghost predicate Serves(log: seq<Event>, w: nat, k: nat) {
    && w < k < |log| && log[w].PeriodWritten? && log[k].InitCalled?
    && forall i :: w < i < k ==> !log[i].PeriodWritten?
  }

  lemma {:induction false} LastWrite(log: seq<Event>) returns (w: nat)
    requires Configured(log)
    ensures w < |log| && log[w].PeriodWritten? && log[w].written == InForce(log)
    ensures forall i :: w < i < |log| ==> !log[i].PeriodWritten?
  {
    var n := |log| - 1;
    if log[n].PeriodWritten? {
      w := n;
    } else {
      var v :| 0 <= v < |log| && log[v].PeriodWritten? && log[v].written >= 0.0;
      assert log[..n][v] == log[v];
      w := LastWrite(log[..n]);
    }
  }

  lemma {:induction false} WriteServes(log: seq<Event>, w: nat, k: nat)
    requires w < k <= |log| && log[w].PeriodWritten? && forall i :: w < i < k ==> !log[i].PeriodWritten?
    ensures InForce(log[..k]) == log[w].written
  {
    if w < k - 1 {
      assert log[..k][..k - 1] == log[..k - 1];
      WriteServes(log, w, k - 1);
    }
  }

  /** All configurations that served an init call wrote the same period, and that is not negative. */
  ghost predicate ServingWritesAgree(log: seq<Event>) {
    forall v: nat, w: nat, j: nat, k: nat :: Serves(log, v, j) && Serves(log, w, k) ==>
      log[v].written == log[w].written >= 0.0
  }

  /** Exactly when all clients of a run are initialised with one period. */
  lemma {:induction false} OnePeriodIff(actions: seq<Action>)
    ensures var log := Steps(InitialState(), actions).log; OnePeriod(log) <==> ServingWritesAgree(log)
  {
    var log := Steps(InitialState(), actions).log;
    AlwaysPeriodInv(actions);
    forall w: nat, k: nat | Serves(log, w, k) ensures log[k].period == log[w].written {
      WriteServes(log, w, k);
    }
    forall k: nat | k < |log| && log[k].InitCalled? ensures exists w: nat :: Serves(log, w, k) {
      var w := LastWrite(log[..k]);
      assert Serves(log, w, k);
    }
  }

  // ---- Conditions that callers can check beforehand ----------------------------------------------

  /** At no time are two calls of sc_configure_source between their test and their write. */
  ghost predicate OneAtATime(actions: seq<Action>) {
    forall m :: 0 <= m <= |actions| ==> |Steps(InitialState(), actions[..m]).configuring| <= 1
  }

  /** Once a usable period is there no call can change it, and every init call is given it. */
  ghost predicate Settled(s: State) {
    && (s.period >= 0.0 ==> s.configuring == multiset{})
    && (Initialising(s.writer) ==> s.period >= 0.0)
    && forall k :: 0 <= k < |s.log| && s.log[k].InitCalled? ==> s.log[k].period == s.period >= 0.0
  }

  lemma OnlyOne(m: multiset<real>, p: real)
    requires p in m && |m| <= 1
    ensures m - multiset{p} == multiset{}
  {
    assert m == multiset{p} + (m - multiset{p});
  }

  lemma {:induction false} SettledStep(s: State, a: Action)
    requires Settled(s) && |s.configuring| <= 1
    ensures Settled(Step(s, a))
  {
    if a.WritePeriod? {
      if a.p in s.configuring {
        OnlyOne(s.configuring, a.p);
      }
    } else if !a.TestPeriod? {
      StepKeepsPeriod(s, a);
    }
  }

  lemma {:induction false} OneAtATimeBefore(actions: seq<Action>)
    requires OneAtATime(actions) && actions != []
    ensures OneAtATime(actions[..|actions| - 1])
    ensures |Steps(InitialState(), actions[..|actions| - 1]).configuring| <= 1
  {
    var before := actions[..|actions| - 1];
    forall m | 0 <= m <= |before| ensures |Steps(InitialState(), before[..m]).configuring| <= 1 {
      assert before[..m] == actions[..m];
    }
  }

  lemma {:induction false} AlwaysSettled(actions: seq<Action>)
    requires OneAtATime(actions)
    ensures Settled(Steps(InitialState(), actions))
  {
    if actions != [] {
      var n := |actions| - 1;
      OneAtATimeBefore(actions);
      AlwaysSettled(actions[..n]);
      SettledStep(Steps(InitialState(), actions[..n]), actions[n]);
    }
  }

  lemma {:induction false} SettledStays(s: State, a: Action)
    requires Settled(s) && s.period >= 0.0
    ensures Step(s, a).period == s.period
  {
    if !a.TestPeriod? && !a.WritePeriod? {
      StepKeepsPeriod(s, a);
    }
  }

  /** If configurations do not overlap, all clients are initialised with one period. */
  lemma {:induction false} OneAtATimeIsEnough(actions: seq<Action>)
    requires OneAtATime(actions)
    ensures OnePeriod(Steps(InitialState(), actions).log)
  {
    AlwaysSettled(actions);
  }

  /** Then a usable period, once it is there, is never changed. */
  lemma {:induction false} OneAtATimeStays(actions: seq<Action>, m: nat)
    requires OneAtATime(actions) && m <= |actions| && Steps(InitialState(), actions[..m]).period >= 0.0
    ensures Steps(InitialState(), actions).period == Steps(InitialState(), actions[..m]).period
  {
    if m == |actions| {
      assert actions[..m] == actions;
    } else {
      var n := |actions| - 1;
      assert actions[..n][..m] == actions[..m];
      OneAtATimeBefore(actions);
      OneAtATimeStays(actions[..n], m);
      AlwaysSettled(actions[..n]);
      SettledStays(Steps(InitialState(), actions[..n]), actions[n]);
    }
  }

  /** All periods that the run's configurations ask for are among `periods`. */
  ghost predicate AsksOnly(actions: seq<Action>, periods: set<real>) {
    forall i :: 0 <= i < |actions| && actions[i].TestPeriod? ==> actions[i].p in periods
  }

  /** A usable period is the only one there is. */
  ghost predicate NoChoice(periods: set<real>) {
    forall p, q :: p in periods && q in periods && p >= 0.0 ==> p == q
  }

  ghost predicate WritesAsked(s: State, periods: set<real>) {
    && (forall p :: p in s.configuring ==> p in periods)
    && forall w :: 0 <= w < |s.log| && s.log[w].PeriodWritten? ==> s.log[w].written in periods
  }

  lemma {:induction false} AskedStep(s: State, a: Action, periods: set<real>)
    requires WritesAsked(s, periods) && (a.TestPeriod? ==> a.p in periods)
    ensures WritesAsked(Step(s, a), periods)
  {
    if !a.TestPeriod? && !a.WritePeriod? {
      StepKeepsPeriod(s, a);
    }
  }

  lemma {:induction false} OnlyAsked(actions: seq<Action>, periods: set<real>)
    requires AsksOnly(actions, periods)
    ensures WritesAsked(Steps(InitialState(), actions), periods)
  {
    if actions != [] {
      var n := |actions| - 1;
      OnlyAsked(actions[..n], periods);
      AskedStep(Steps(InitialState(), actions[..n]), actions[n], periods);
    }
  }

  lemma {:induction false} NoChoiceIsEnough(actions: seq<Action>, periods: set<real>)
    requires AsksOnly(actions, periods) && NoChoice(periods)
    ensures OnePeriod(Steps(InitialState(), actions).log)
  {
    OnlyAsked(actions, periods);
    AlwaysPeriodInv(actions);
    OnePeriodIff(actions);
    var log := Steps(InitialState(), actions).log;
    forall v: nat, w: nat, j: nat, k: nat | Serves(log, v, j) && Serves(log, w, k)
      ensures log[v].written == log[w].written >= 0.0
    {
      assert Configured(log[..k]);
      var u :| 0 <= u < k && log[..k][u].PeriodWritten? && log[..k][u].written >= 0.0;
      assert log[u].written in periods;
    }
  }

  // ---- Two overlapping configurations ------------------------------------------------------------

  /** A run that goes on with one more step. */
  lemma {:induction false} Extend(actions: seq<Action>, a: Action, periods: set<real>) returns (longer: seq<Action>)
    requires AsksOnly(actions, periods) && (a.TestPeriod? ==> a.p in periods)
    ensures AsksOnly(longer, periods)
    ensures Steps(InitialState(), longer) == Step(Steps(InitialState(), actions), a)
  {
    longer := actions + [a];
    assert longer[..|actions|] == actions;
  }

  /** A run that registers a client twice. */
  lemma TwoRegistered(c: Client, periods: set<real>) returns (actions: seq<Action>)
    requires c.init != NULL
    ensures AsksOnly(actions, periods)
    ensures var s := Steps(InitialState(), actions);
      && s == InitialState().(slots := s.slots, registered := s.registered)
      && |s.slots| >= 2 && s.slots[0] == s.slots[1] == c
  {
    actions := Extend([], Register(c), periods);
    actions := Extend(actions, WriterStep, periods);
    var s := Steps(InitialState(), actions);
    assert s.slots == NewPool(c);
    assert FirstFree(s.slots, 0) == FirstFree(s.slots, 1) == 1;
    actions := Extend(actions, Register(c), periods);
    actions := Extend(actions, WriterStep, periods);
    actions := Extend(actions, WriterStep, periods);
    actions := Extend(actions, WriterStep, periods);
  }

  /** Two configurations in a run where no client is initialised yet: both find the period free, p is written. */
  lemma BothFindItFree(before: seq<Action>, p: real, q: real) returns (actions: seq<Action>)
    requires AsksOnly(before, {p, q}) && p >= 0.0
    requires var s := Steps(InitialState(), before); s.period < 0.0 && s.configuring == multiset{}
    ensures AsksOnly(actions, {p, q})
    ensures var s := Steps(InitialState(), before);
      Steps(InitialState(), actions) == s.(period := p, configuring := multiset{q}, log := s.log + [PeriodWritten(p)])
  {
    actions := Extend(before, TestPeriod(p), {p, q});
    actions := Extend(actions, TestPeriod(q), {p, q});
    actions := Extend(actions, WritePeriod(p), {p, q});
    assert multiset{} + multiset{p} + multiset{q} - multiset{p} == multiset{q};
  }

  /** The first client is initialised. */
  lemma FirstInit(before: seq<Action>, periods: set<real>) returns (actions: seq<Action>)
    requires AsksOnly(before, periods)
    requires var s := Steps(InitialState(), before);
      s.writer.Idle? && s.period >= 0.0 && s.clientsInitialized == 0 && s.slots != [] && s.slots[0].init != NULL
    ensures AsksOnly(actions, periods)
    ensures var s := Steps(InitialState(), before);
      Steps(InitialState(), actions)
      == s.(writer := Scanning(1), clientsInitialized := 1, log := s.log + [InitCalled(s.period, s.slots[0])])
  {
    var s := Steps(InitialState(), before);
    actions := Extend(before, InitClients, periods);
    assert Steps(InitialState(), actions) == s.(writer := Scanning(0));
    actions := Extend(actions, WriterStep, periods);
    var log := s.log + [InitCalled(s.period, s.slots[0])];
    assert Steps(InitialState(), actions) == s.(writer := Called(0), log := log);
    actions := Extend(actions, WriterStep, periods);
  }

  /**
   Two overlapping configurations can give two clients different periods: both find the period free, p is written,
   the first client is initialised, q is written, the second client is initialised.
   */
  lemma OverlapSplitsPeriods(p: real, q: real, c: Client) returns (actions: seq<Action>)
    requires p >= 0.0 && c.init != NULL
    ensures AsksOnly(actions, {p, q})
    ensures Steps(InitialState(), actions).log
         == [PeriodWritten(p), InitCalled(p, c), PeriodWritten(q), InitCalled(q, c)]
  {
    actions := TwoRegistered(c, {p, q});
    actions := BothFindItFree(actions, p, q);
    actions := FirstInit(actions, {p, q});
    actions := Extend(actions, WritePeriod(q), {p, q});
    actions := Extend(actions, WriterStep, {p, q});
  }

  ghost predicate AlwaysOnePeriod(periods: set<real>) {
    forall actions :: AsksOnly(actions, periods) ==> OnePeriod(Steps(InitialState(), actions).log)
  }

  /**
   What callers must agree on if nothing keeps their configurations apart: all runs whose configurations ask for these
   periods initialise with one period, exactly if a usable one among them is the only one.
   */
  lemma {:induction false} AlwaysOnePeriodIff(periods: set<real>)
    ensures AlwaysOnePeriod(periods) <==> NoChoice(periods)
  {
    if NoChoice(periods) {
      forall actions | AsksOnly(actions, periods) ensures OnePeriod(Steps(InitialState(), actions).log) {
        NoChoiceIsEnough(actions, periods);
      }
    } else {
      var p, q :| p in periods && q in periods && p >= 0.0 && p != q;
      var actions := OverlapSplitsPeriods(p, q, Client(1, 1, 1));
      var log := Steps(InitialState(), actions).log;
      assert log[1].InitCalled? && log[3].InitCalled? && log[1].period != log[3].period;
      assert AsksOnly(actions, periods);
    }
  }
}
