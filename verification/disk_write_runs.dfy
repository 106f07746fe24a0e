/**
 Whole runs of the disk-write-speed task: every interleaving of `Scrape` calls with the
 steps of every task goroutine they have started.
 */
module DiskWriteRuns {
  import opened DiskWriteCounters
  import opened DiskWriteTask
  import opened Outcomes
  import opened Sequences
  import opened Words

  ghost predicate Valid(cap: nat, run: seq<Event>)
    decreases |run|, 0
  {
    run == [] || (Valid(cap, Init(run)) && Enabled(After(cap, Init(run)), Last(run)))
  }

  ghost function After(cap: nat, run: seq<Event>): State
    requires Valid(cap, run)
    decreases |run|, 1
  {
    if run == [] then INITIAL else Step(cap, After(cap, Init(run)), Last(run))
  }

  // ------------------------------------------------------------- counters

  /** The updates of the ticks that succeeded, in order. */
  ghost function Updates(cap: nat, run: seq<Event>): seq<CounterMap> {
    if run == [] then [] else Updates(cap, Init(run)) + UpdateOf(cap, Last(run))
  }

  function UpdateOf(cap: nat, e: Event): seq<CounterMap> {
    if e.Tick? && ScrapeResult(cap, e.query).Success? then [ScrapeResult(cap, e.query).value] else []
  }

  /** The rows of the ticks whose queries were answered to the end, in order. */
  ghost function Feeds(run: seq<Event>): seq<seq<Row>> {
    if run == [] then [] else Feeds(Init(run)) + FeedOf(Last(run))
  }

  function FeedOf(e: Event): seq<seq<Row>> {
    if e.Tick? && Answered(e.query) then [e.query.rows] else []
  }

  lemma {:induction false} UpdatesAreCappedFeeds(cap: nat, run: seq<Event>)
    ensures |Updates(cap, run)| == |Feeds(run)|
    ensures forall i :: 0 <= i < |Feeds(run)| ==> Updates(cap, run)[i] == CappedUpdate(Feeds(run)[i], cap)
  {
    if run != [] {
      UpdatesAreCappedFeeds(cap, Init(run));
    }
  }

  /**
   Whatever failures, connection losses and restarts a run mixes in, the counters are
   the fold of the capped updates of its successful ticks.
   */
  lemma {:induction false} CountersAreFoldOfUpdates(cap: nat, run: seq<Event>)
    requires Valid(cap, run)
    ensures After(cap, run).counter == Fold(Updates(cap, run))
  {
    if run != [] {
      CountersAreFoldOfUpdates(cap, Init(run));
      StepAddsUpdate(cap, After(cap, Init(run)), Last(run));
      FoldAtMostOneMore(Updates(cap, Init(run)), UpdateOf(cap, Last(run)));
    }
  }

  lemma StepAddsUpdate(cap: nat, s: State, e: Event)
    requires Enabled(s, e)
    ensures Step(cap, s, e).counter ==
            if UpdateOf(cap, e) == [] then s.counter else Merge(s.counter, UpdateOf(cap, e)[0])
  {
  }

  lemma FoldAtMostOneMore(us: seq<CounterMap>, u: seq<CounterMap>)
    requires |u| <= 1
    ensures Fold(us + u) == if u == [] then Fold(us) else Merge(Fold(us), u[0])
  {
    if u == [] {
      assert us + u == us;
    } else {
      assert (us + u)[..|us|] == us;
    }
  }

  /** Two runs whose successful ticks saw the same updates, in whatever order, end with the same counters. */
  lemma CountersIgnoreTickOrder(cap: nat, run: seq<Event>, other: seq<Event>)
    requires Valid(cap, run) && Valid(cap, other)
    requires multiset(Updates(cap, run)) == multiset(Updates(cap, other))
    ensures After(cap, run).counter == After(cap, other).counter
  {
    CountersAreFoldOfUpdates(cap, run);
    CountersAreFoldOfUpdates(cap, other);
    FoldOrderIrrelevant(Updates(cap, run), Updates(cap, other));
  }

  lemma {:induction false} ValidPrefix(cap: nat, run: seq<Event>, n: nat)
    requires Valid(cap, run) && n <= |run|
    ensures Valid(cap, run[..n]) && Updates(cap, run[..n]) <= Updates(cap, run)
  {
    if n == |run| {
      assert run[..n] == run;
    } else {
      ValidPrefix(cap, Init(run), n);
      assert Init(run)[..n] == run[..n];
    }
  }

  /** Along any run, a counter whose exact sums fit in 64 bits shows them and never decreases. */
  lemma CountersNeverDecrease(cap: nat, run: seq<Event>, n: nat, k: Lookup)
    requires Valid(cap, run) && n <= |run|
    requires ExactLcp(Contributions(Updates(cap, run), k)) < TWO_64
    requires ExactRedo(Contributions(Updates(cap, run), k)) < TWO_64
    ensures Valid(cap, run[..n])
    ensures k in After(cap, run[..n]).counter ==>
              var early, late := After(cap, run[..n]).counter, After(cap, run).counter;
              && k in late
              && late[k].backupLcp == ExactLcp(Contributions(Updates(cap, run), k)) >= early[k].backupLcp
              && late[k].redo == ExactRedo(Contributions(Updates(cap, run), k)) >= early[k].redo
  {
    ValidPrefix(cap, run, n);
    CountersAreFoldOfUpdates(cap, run);
    CountersAreFoldOfUpdates(cap, run[..n]);
    var us, m := Updates(cap, run), |Updates(cap, run[..n])|;
    assert us[..m] == Updates(cap, run[..n]);
    if k in After(cap, run[..n]).counter {
      CounterNeverDecreases(us, m, k);
    }
  }

  // ------------------------------------------------------- task life cycle

  predicate Live(p: Phase) {
    p != Stopped
  }

  ghost predicate NoneLive(tasks: seq<Phase>) {
    forall i :: 0 <= i < |tasks| ==> !Live(tasks[i])
  }

  ghost predicate AtMostOneLive(tasks: seq<Phase>) {
    forall i, j :: 0 <= i < j < |tasks| ==> !(Live(tasks[i]) && Live(tasks[j]))
  }

  /** No `Scrape` reads the running flag between the spawning of a task and that task setting the flag. */
  ghost predicate Prompt(cap: nat, run: seq<Event>)
    requires Valid(cap, run)
  {
    run == [] || (Prompt(cap, Init(run)) && (Last(run) == Scrape ==> NoneSpawned(After(cap, Init(run)).tasks)))
  }

  ghost predicate NoneSpawned(tasks: seq<Phase>) {
    forall i :: 0 <= i < |tasks| ==> tasks[i] != Spawned
  }

  /** What every prompt run keeps. */
  ghost predicate Lifecycle(s: State) {
    && AtMostOneLive(s.tasks)
    && (forall i :: 0 <= i < |s.tasks| && Live(s.tasks[i]) ==> (s.running <==> s.tasks[i] != Spawned))
    && (NoneLive(s.tasks) ==> !s.running)
    && (s.conn.Some? ==> In(s, s.conn.value, Ticking) || In(s, s.conn.value, Returning))
    && (forall i :: 0 <= i < |s.tasks| && s.tasks[i] == Ticking ==> s.conn == Some(i))
    && (s.lastError.Some? ==> forall i :: 0 <= i < |s.tasks| && Live(s.tasks[i]) ==> s.tasks[i] == Returning)
  }

  lemma {:induction false} PromptRunsKeepLifecycle(cap: nat, run: seq<Event>)
    requires Valid(cap, run) && Prompt(cap, run)
    ensures Lifecycle(After(cap, run))
  {
    if run != [] {
      PromptRunsKeepLifecycle(cap, Init(run));
      StepKeepsLifecycle(cap, After(cap, Init(run)), Last(run));
    }
  }

  /** The life cycle seen from task i when no other task is alive. */
  ghost predicate Sole(s: State, i: nat) {
    && i < |s.tasks|
    && (forall j :: 0 <= j < |s.tasks| && j != i ==> !Live(s.tasks[j]))
    && (s.running <==> Live(s.tasks[i]) && s.tasks[i] != Spawned)
    && (s.conn.Some? ==> s.conn.value == i && (s.tasks[i] == Ticking || s.tasks[i] == Returning))
    && (s.tasks[i] == Ticking ==> s.conn == Some(i))
    && (s.lastError.Some? && Live(s.tasks[i]) ==> s.tasks[i] == Returning)
  }

  lemma SoleHasLifecycle(s: State, i: nat)
    requires Sole(s, i)
    ensures Lifecycle(s)
  {
  }

  lemma LiveIsSole(s: State, i: nat)
    requires Lifecycle(s) && i < |s.tasks| && Live(s.tasks[i])
    ensures Sole(s, i)
  {
    forall j | 0 <= j < |s.tasks| && j != i ensures !Live(s.tasks[j]) {
      assert !(Live(s.tasks[if i < j then i else j]) && Live(s.tasks[if i < j then j else i]));
    }
  }

  lemma SoleMoves(cap: nat, s: State, e: Event)
    requires e != Scrape && Enabled(s, e) && Sole(s, e.task)
    ensures Sole(Step(cap, s, e), e.task)
  {
  }

  lemma ScrapeKeepsLifecycle(cap: nat, s: State)
    requires Lifecycle(s) && NoneSpawned(s.tasks)
    ensures Lifecycle(Step(cap, s, Scrape))
  {
    assert s.running ==> !NoneLive(s.tasks);
    assert !s.running ==> NoneLive(s.tasks);
  }

  lemma StepKeepsLifecycle(cap: nat, s: State, e: Event)
    requires Lifecycle(s) && Enabled(s, e) && (e == Scrape ==> NoneSpawned(s.tasks))
    ensures Lifecycle(Step(cap, s, e))
  {
    if e == Scrape {
      ScrapeKeepsLifecycle(cap, s);
    } else {
      LiveIsSole(s, e.task);
      SoleMoves(cap, s, e);
      SoleHasLifecycle(Step(cap, s, e), e.task);
    }
  }

  /** Prompt scheduling is exactly what keeps two tasks from being alive at once. */
  lemma {:induction false} PromptIffOneTaskAtATime(cap: nat, run: seq<Event>)
    requires Valid(cap, run)
    ensures Prompt(cap, run) <==>
            forall n :: 0 <= n <= |run| ==> Valid(cap, run[..n]) && AtMostOneLive(After(cap, run[..n]).tasks)
  {
    forall n | 0 <= n <= |run| ensures Valid(cap, run[..n]) {
      ValidPrefix(cap, run, n);
    }
    assert run[..|run|] == run;
    if run != [] {
      PromptIffOneTaskAtATime(cap, Init(run));
      assert forall n :: 0 <= n < |run| ==> Init(run)[..n] == run[..n];
      if Prompt(cap, Init(run)) {
        NextStaysSingle(cap, run);
      }
    }
  }

  lemma NextStaysSingle(cap: nat, run: seq<Event>)
    requires Valid(cap, run) && run != [] && Prompt(cap, Init(run))
    ensures Prompt(cap, run) <==> AtMostOneLive(After(cap, run).tasks)
  {
    if Prompt(cap, run) {
      PromptRunsKeepLifecycle(cap, run);
    } else {
      PromptRunsKeepLifecycle(cap, Init(run));
      SecondTask(After(cap, Init(run)), cap);
    }
  }

  /** Scraping while a spawned task has not set the flag starts a second one. */
  lemma SecondTask(s: State, cap: nat)
    requires Lifecycle(s) && !NoneSpawned(s.tasks)
    ensures !AtMostOneLive(Step(cap, s, Scrape).tasks)
  {
    var i :| 0 <= i < |s.tasks| && s.tasks[i] == Spawned;
    var tasks := Step(cap, s, Scrape).tasks;
    assert tasks[i] == Spawned && tasks[|s.tasks|] == Spawned;
  }

  // ------------------------------------------------------------ connections

  ghost predicate NoneTicking(tasks: seq<Phase>) {
    forall i :: 0 <= i < |tasks| ==> tasks[i] != Ticking
  }

  /** Every tick that could be taken now finds a connection. */
  ghost predicate Connected(s: State) {
    NoneTicking(s.tasks) || s.conn.Some?
  }

  /** No task runs its deferred function while another one is in the ticker loop. */
  ghost predicate NoExitWhileTicking(cap: nat, run: seq<Event>)
    requires Valid(cap, run)
  {
    run == [] || (NoExitWhileTicking(cap, Init(run)) && (Last(run).Exit? ==> NoneTicking(After(cap, Init(run)).tasks)))
  }

  /** Only the deferred function takes a connection away. */
  lemma StepKeepsConnected(cap: nat, s: State, e: Event)
    requires Connected(s) && Enabled(s, e)
    ensures Connected(Step(cap, s, e)) <==> (e.Exit? ==> NoneTicking(s.tasks))
  {
    var s' := Step(cap, s, e);
    match e
    case Scrape =>
      assert forall j :: 0 <= j < |s.tasks| ==> s'.tasks[j] == s.tasks[j];
    case Begin(i) =>
      assert forall j :: 0 <= j < |s.tasks| && j != i ==> s'.tasks[j] == s.tasks[j];
    case Open(i, _) =>
      assert forall j :: 0 <= j < |s.tasks| && j != i ==> s'.tasks[j] == s.tasks[j];
    case Tick(i, _) =>
    case Exit(i) =>
      assert s.tasks[i] != Ticking && s'.tasks[i] != Ticking;
      assert forall j :: 0 <= j < |s.tasks| && j != i ==> s'.tasks[j] == s.tasks[j];
  }

  /**
   Over all runs, prompt or not: every tick finds a connection, at every moment, exactly when
   no task's deferred function clears it while a task is ticking.
   */
  lemma {:induction false} TicksFindAConnectionIff(cap: nat, run: seq<Event>)
    requires Valid(cap, run)
    ensures NoExitWhileTicking(cap, run) <==>
            forall n :: 0 <= n <= |run| ==> Valid(cap, run[..n]) && Connected(After(cap, run[..n]))
  {
    forall n | 0 <= n <= |run| ensures Valid(cap, run[..n]) {
      ValidPrefix(cap, run, n);
    }
    assert run[..|run|] == run;
    if run != [] {
      TicksFindAConnectionIff(cap, Init(run));
      assert forall n :: 0 <= n < |run| ==> Init(run)[..n] == run[..n];
      if NoExitWhileTicking(cap, Init(run)) {
        assert Init(run)[..|run| - 1] == Init(run);
        StepKeepsConnected(cap, After(cap, Init(run)), Last(run));
      }
    }
  }

  /** Every task that can tick has the connection it opened itself. */
  ghost predicate OwnConnected(s: State) {
    forall i :: 0 <= i < |s.tasks| && s.tasks[i] == Ticking ==> s.conn == Some(i)
  }

  /** Nor does a second task publish its connection while one is ticking. */
  ghost predicate Undisturbed(cap: nat, run: seq<Event>)
    requires Valid(cap, run)
  {
    run == [] || (Undisturbed(cap, Init(run)) && (Disturbs(Last(run)) ==> NoneTicking(After(cap, Init(run)).tasks)))
  }

  predicate Disturbs(e: Event) {
    e.Exit? || (e.Open? && e.ok)
  }

  lemma StepKeepsOwnConnected(cap: nat, s: State, e: Event)
    requires OwnConnected(s) && Enabled(s, e)
    ensures OwnConnected(Step(cap, s, e)) <==> (Disturbs(e) ==> NoneTicking(s.tasks))
  {
    var s' := Step(cap, s, e);
    if e != Scrape {
      assert forall j :: 0 <= j < |s.tasks| && j != e.task ==> s'.tasks[j] == s.tasks[j];
      if Disturbs(e) && !NoneTicking(s.tasks) {
        var j :| 0 <= j < |s.tasks| && s.tasks[j] == Ticking;
        assert j != e.task && s'.tasks[j] == Ticking;
      }
    }
  }

  /**
   Over all runs: every tick finds the connection its own task opened exactly when no task
   opens or drops one while a task is ticking.
   */
  lemma {:induction false} TicksFindTheirOwnIff(cap: nat, run: seq<Event>)
    requires Valid(cap, run)
    ensures Undisturbed(cap, run) <==>
            forall n :: 0 <= n <= |run| ==> Valid(cap, run[..n]) && OwnConnected(After(cap, run[..n]))
  {
    forall n | 0 <= n <= |run| ensures Valid(cap, run[..n]) {
      ValidPrefix(cap, run, n);
    }
    assert run[..|run|] == run;
    if run != [] {
      TicksFindTheirOwnIff(cap, Init(run));
      assert forall n :: 0 <= n < |run| ==> Init(run)[..n] == run[..n];
      if Undisturbed(cap, Init(run)) {
        assert Init(run)[..|run| - 1] == Init(run);
        StepKeepsOwnConnected(cap, After(cap, Init(run)), Last(run));
      }
    }
  }

  lemma {:induction false} PromptIsUndisturbed(cap: nat, run: seq<Event>)
    requires Valid(cap, run) && Prompt(cap, run)
    ensures Undisturbed(cap, run) && NoExitWhileTicking(cap, run)
  {
    if run != [] {
      PromptIsUndisturbed(cap, Init(run));
      PromptRunsKeepLifecycle(cap, Init(run));
      if Disturbs(Last(run)) {
        LiveIsSole(After(cap, Init(run)), Last(run).task);
      }
    }
  }

  /** So in prompt runs the connection is set only while running, and every tick finds the one its own task opened. */
  lemma TicksFindTheirConnection(cap: nat, run: seq<Event>)
    requires Valid(cap, run) && Prompt(cap, run)
    ensures var s := After(cap, run);
            && (s.conn.Some? ==> s.running)
            && forall i: nat, q :: In(s, i, Ticking) ==> s.conn == Some(i) && Enabled(s, Tick(i, q))
  {
    var s := After(cap, run);
    PromptIsUndisturbed(cap, run);
    TicksFindTheirOwnIff(cap, run);
    assert run[..|run|] == run;
    forall i: nat | In(s, i, Ticking) ensures s.conn == Some(i) {
      assert OwnConnected(s) && s.tasks[i] == Ticking;
    }
    PromptRunsKeepLifecycle(cap, run);
    if s.conn.Some? {
      assert Live(s.tasks[s.conn.value]);
    }
  }

  /**
   Two tasks spawned before either set the flag; the second fails to connect, and its exit
   clears the first one's connection.
   */
  const UNPROMPT_RUN: seq<Event> := [Scrape, Scrape, Begin(0), Open(0, true), Begin(1), Open(1, false), Exit(1)]

  ghost function UnpromptState(n: nat): State {
    if n == 0 then INITIAL
    else if n == 1 then State(false, None, None, map[], [Spawned])
    else if n == 2 then State(false, None, None, map[], [Spawned, Spawned])
    else if n == 3 then State(true, None, None, map[], [Opening, Spawned])
    else if n == 4 then State(true, Some(0), None, map[], [Ticking, Spawned])
    else if n == 5 then State(true, Some(0), None, map[], [Ticking, Opening])
    else if n == 6 then State(true, Some(0), None, map[], [Ticking, Returning])
    else State(false, None, None, map[], [Ticking, Stopped])
  }

  lemma UnpromptStep(cap: nat, n: nat)
    requires n < 7
    ensures Enabled(UnpromptState(n), UNPROMPT_RUN[n])
    ensures Step(cap, UnpromptState(n), UNPROMPT_RUN[n]) == UnpromptState(n + 1)
  {
  }

  lemma UnpromptPrefix(cap: nat, n: nat)
    requires n <= 7
    ensures Valid(cap, UNPROMPT_RUN[..n]) && After(cap, UNPROMPT_RUN[..n]) == UnpromptState(n)
  {
    var run := UNPROMPT_RUN;
    var states := seq(8, j requires 0 <= j < 8 => UnpromptState(j));
    forall j | 0 <= j < 7 ensures Enabled(states[j], run[j]) && Step(cap, states[j], run[j]) == states[j + 1] {
      UnpromptStep(cap, j);
    }
    Replay(cap, run, states, n);
  }

  /** A run after which a task is ticking on a nil connection: it breaks both conditions. */
  lemma UnpromptRunLosesTheConnection(cap: nat)
    ensures Valid(cap, UNPROMPT_RUN) && !Prompt(cap, UNPROMPT_RUN) && !NoExitWhileTicking(cap, UNPROMPT_RUN)
    ensures In(After(cap, UNPROMPT_RUN), 0, Ticking) && After(cap, UNPROMPT_RUN).conn == None
  {
    UnpromptPrefix(cap, 7);
    assert UNPROMPT_RUN[..7] == UNPROMPT_RUN;
    assert !Connected(After(cap, UNPROMPT_RUN)) by {
      assert In(After(cap, UNPROMPT_RUN), 0, Ticking);
    }
    TicksFindAConnectionIff(cap, UNPROMPT_RUN);
    if Prompt(cap, UNPROMPT_RUN) {
      PromptIsUndisturbed(cap, UNPROMPT_RUN);
    }
  }

  lemma {:induction false} Replay(cap: nat, run: seq<Event>, states: seq<State>, n: nat)
    requires n <= |run| && |states| == |run| + 1 && states[0] == INITIAL
    requires forall j :: 0 <= j < |run| ==> Enabled(states[j], run[j]) && Step(cap, states[j], run[j]) == states[j + 1]
    ensures Valid(cap, run[..n]) && After(cap, run[..n]) == states[n]
  {
    if n > 0 {
      Replay(cap, run, states, n - 1);
      assert Init(run[..n]) == run[..n - 1];
    }
  }

  // ------------------------------------------------------ error reporting

  /** The errors of the failed ticks, in order. */
  ghost function FailedTicks(cap: nat, run: seq<Event>): seq<Error> {
    if run == [] then [] else FailedTicks(cap, Init(run)) + FailureOf(cap, Last(run))
  }

  function FailureOf(cap: nat, e: Event): seq<Error> {
    if e.Tick? && ScrapeResult(cap, e.query).Failure? then [ScrapeResult(cap, e.query).error] else []
  }

  /** The errors the `Scrape` calls of a run return, in order. */
  ghost function Returned(cap: nat, run: seq<Event>): seq<Error>
    requires Valid(cap, run)
  {
    if run == [] then []
    else Returned(cap, Init(run)) + (if Last(run) == Scrape then Pending(After(cap, Init(run))) else [])
  }

  function Pending(s: State): seq<Error> {
    if s.lastError.Some? then [s.lastError.value] else []
  }

  /** How many ticks are taken while an error is pending: each one drops it, whether it fails itself or not. */
  ghost function DroppedErrors(cap: nat, run: seq<Event>): nat
    requires Valid(cap, run)
  {
    if run == [] then 0
    else DroppedErrors(cap, Init(run)) + (if Last(run).Tick? then |Pending(After(cap, Init(run)))| else 0)
  }

  /** What a step makes of the errors that were pending or new: it returns, keeps or drops them. */
  lemma StepAccountsForErrors(cap: nat, s: State, e: Event)
    requires Enabled(s, e)
    ensures var kept := (if e == Scrape then Pending(s) else []) + Pending(Step(cap, s, e));
            && |Pending(s) + FailureOf(cap, e)| == |kept| + (if e.Tick? then |Pending(s)| else 0)
            && ((e.Tick? ==> Pending(s) == []) ==> Pending(s) + FailureOf(cap, e) == kept)
  {
  }

  /** Over all runs: as many ticks fail as are returned, pending or dropped by a later tick. */
  lemma {:induction false} FailuresCounted(cap: nat, run: seq<Event>)
    requires Valid(cap, run)
    ensures |FailedTicks(cap, run)| ==
            |Returned(cap, run)| + |Pending(After(cap, run))| + DroppedErrors(cap, run)
  {
    if run != [] {
      FailuresCounted(cap, Init(run));
      StepAccountsForErrors(cap, After(cap, Init(run)), Last(run));
    }
  }

  lemma {:induction false} NothingDropped(cap: nat, run: seq<Event>)
    requires Valid(cap, run) && DroppedErrors(cap, run) == 0
    ensures FailedTicks(cap, run) == Returned(cap, run) + Pending(After(cap, run))
  {
    if run != [] {
      var s, e := After(cap, Init(run)), Last(run);
      NothingDropped(cap, Init(run));
      StepAccountsForErrors(cap, s, e);
      ConcatAssociative(Returned(cap, Init(run)), Pending(s), FailureOf(cap, e));
      ConcatAssociative(Returned(cap, Init(run)), if e == Scrape then Pending(s) else [], Pending(Step(cap, s, e)));
    }
  }

  /**
   Over all runs: the failed ticks are, in order, those whose error some `Scrape` returned and
   the one still pending, exactly when no tick is taken while an error is pending.
   */
  lemma FailuresReturnedOnceIff(cap: nat, run: seq<Event>)
    requires Valid(cap, run)
    ensures FailedTicks(cap, run) == Returned(cap, run) + Pending(After(cap, run)) <==> DroppedErrors(cap, run) == 0
  {
    FailuresCounted(cap, run);
    if DroppedErrors(cap, run) == 0 {
      NothingDropped(cap, run);
    }
  }

  lemma {:induction false} PromptDropsNothing(cap: nat, run: seq<Event>)
    requires Valid(cap, run) && Prompt(cap, run)
    ensures DroppedErrors(cap, run) == 0
  {
    if run != [] {
      PromptDropsNothing(cap, Init(run));
      PromptRunsKeepLifecycle(cap, Init(run));
      if Last(run).Tick? {
        assert Live(After(cap, Init(run)).tasks[Last(run).task]);
      }
    }
  }

  /** Two tasks are ticking; the first one's failure is wiped out by the second one's success. */
  const DROPPING_RUN: seq<Event> :=
    [Scrape, Scrape, Begin(0), Begin(1), Open(0, true), Open(1, true),
     Tick(0, QueryFailed("")), Tick(1, Streamed([], None))]

  ghost function DroppingState(n: nat): State {
    if n == 0 then INITIAL
    else if n == 1 then State(false, None, None, map[], [Spawned])
    else if n == 2 then State(false, None, None, map[], [Spawned, Spawned])
    else if n == 3 then State(true, None, None, map[], [Opening, Spawned])
    else if n == 4 then State(true, None, None, map[], [Opening, Opening])
    else if n == 5 then State(true, Some(0), None, map[], [Ticking, Opening])
    else if n == 6 then State(true, Some(1), None, map[], [Ticking, Ticking])
    else if n == 7 then State(true, Some(1), Some(ErrorWhileQuerying("")), map[], [Returning, Ticking])
    else State(true, Some(1), None, map[], [Returning, Ticking])
  }

  lemma DroppingStep(cap: nat, n: nat)
    requires n < 8
    ensures Enabled(DroppingState(n), DROPPING_RUN[n])
    ensures Step(cap, DroppingState(n), DROPPING_RUN[n]) == DroppingState(n + 1)
  {
  }

  lemma DroppingPrefix(cap: nat, n: nat)
    requires n <= 8
    ensures Valid(cap, DROPPING_RUN[..n]) && After(cap, DROPPING_RUN[..n]) == DroppingState(n)
  {
    var run := DROPPING_RUN;
    var states := seq(9, j requires 0 <= j < 9 => DroppingState(j));
    forall j | 0 <= j < 8 ensures Enabled(states[j], run[j]) && Step(cap, states[j], run[j]) == states[j + 1] {
      DroppingStep(cap, j);
    }
    Replay(cap, run, states, n);
  }

  /** A run whose failed tick is neither returned nor pending. */
  lemma UnpromptRunDropsAnError(cap: nat)
    ensures Valid(cap, DROPPING_RUN) && DroppedErrors(cap, DROPPING_RUN) > 0
    ensures FailedTicks(cap, DROPPING_RUN) != Returned(cap, DROPPING_RUN) + Pending(After(cap, DROPPING_RUN))
  {
    DroppingPrefix(cap, 7);
    DroppingPrefix(cap, 8);
    assert DROPPING_RUN[..8] == DROPPING_RUN && Init(DROPPING_RUN) == DROPPING_RUN[..7];
    FailuresReturnedOnceIff(cap, DROPPING_RUN);
  }

  /** In prompt runs each failed tick is returned by exactly one `Scrape`, in order, or is the one still pending. */
  lemma EachFailureReturnedOnce(cap: nat, run: seq<Event>)
    requires Valid(cap, run) && Prompt(cap, run)
    ensures FailedTicks(cap, run) == Returned(cap, run) + Pending(After(cap, run))
  {
    PromptDropsNothing(cap, run);
    FailuresReturnedOnceIff(cap, run);
  }

  /** Task i has failed and no `Scrape` came since; `over` tells whether its deferred function has run. */
  ghost predicate FailurePending(s: State, i: nat, error: Error, over: bool) {
    && s.lastError == Some(error)
    && In(s, i, if over then Stopped else Returning)
    && (forall j :: 0 <= j < |s.tasks| && j != i ==> !Live(s.tasks[j]))
    && (s.running <==> !over)
  }

  lemma FailureStarts(cap: nat, s: State, i: nat, q: Query)
    requires Lifecycle(s) && Enabled(s, Tick(i, q)) && ScrapeResult(cap, q).Failure?
    ensures FailurePending(Step(cap, s, Tick(i, q)), i, ScrapeResult(cap, q).error, false)
  {
    LiveIsSole(s, i);
  }

  lemma FailureStays(cap: nat, s: State, e: Event, i: nat, error: Error, over: bool)
    requires FailurePending(s, i, error, over) && Enabled(s, e) && e != Scrape
    ensures e == Exit(i) && FailurePending(Step(cap, s, e), i, error, true)
  {
    assert Live(s.tasks[e.task]);
  }

  lemma {:induction false} FailureStaysPending(cap: nat, before: seq<Event>, i: nat, q: Query, between: seq<Event>)
    requires ScrapeResult(cap, q).Failure?
    requires Valid(cap, before + [Tick(i, q)] + between) && Prompt(cap, before + [Tick(i, q)] + between)
    requires Scrape !in between
    ensures FailurePending(After(cap, before + [Tick(i, q)] + between), i, ScrapeResult(cap, q).error,
                           Exit(i) in between)
  {
    var run := before + [Tick(i, q)] + between;
    if between == [] {
      assert Init(run) == before;
      PromptRunsKeepLifecycle(cap, before);
      FailureStarts(cap, After(cap, before), i, q);
    } else {
      assert Init(run) == before + [Tick(i, q)] + Init(between);
      FailureStaysPending(cap, before, i, q, Init(between));
      FailureStays(cap, After(cap, Init(run)), Last(run), i, ScrapeResult(cap, q).error, Exit(i) in Init(between));
    }
  }

  /**
   The `Scrape` that returns a failure is the next one after it; it starts a new task
   iff the failed one has run its deferred function by then.
   */
  lemma NextScrapeReturnsTheFailure(cap: nat, before: seq<Event>, i: nat, q: Query, between: seq<Event>)
    requires ScrapeResult(cap, q).Failure?
    requires Valid(cap, before + [Tick(i, q)] + between) && Prompt(cap, before + [Tick(i, q)] + between)
    requires Scrape !in between
    ensures var s := After(cap, before + [Tick(i, q)] + between);
            && s.lastError == Some(ScrapeResult(cap, q).error)
            && (Exit(i) in between <==> !s.running)
            && (Step(cap, s, Scrape).tasks == s.tasks + [Spawned] <==> Exit(i) in between)
            && (Exit(i) !in between ==> In(s, i, Returning))
            && (Exit(i) in between ==> NoneLive(s.tasks))
  {
    FailureStaysPending(cap, before, i, q, between);
  }
}
