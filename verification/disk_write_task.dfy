/**
 The background task behind the disk-write-speed collector. The package-level variables
 (running flag, connection, last error, counter map) are shared by every task goroutine
 and by `Scrape`, so a run is an interleaving of their steps.
 */
module DiskWriteTask {
  import opened DiskWriteCounters
  import opened Outcomes
  import opened Sequences

  // ------------------------------------------------------------ one scrape

  /** What the server does with the query: refuse it, or send rows and then end or fail to scan. */
  datatype Query = QueryFailed(cause: string) | Streamed(rows: seq<Row>, scanFailure: Option<string>)

  datatype Error = ErrorWhileQuerying(cause: string) | ErrorWhileScanning(cause: string)

  function ScrapeResult(intervalSecs: nat, query: Query): Result<CounterMap, Error> {
    match query
    case QueryFailed(cause) => Failure(ErrorWhileQuerying(cause))
    case Streamed(rows, Some(cause)) => Failure(ErrorWhileScanning(cause))
    case Streamed(rows, None) => Success(CappedUpdate(rows, intervalSecs))
  }

  /** The rows of a query that was answered to its end. */
  predicate Answered(query: Query) {
    query.Streamed? && query.scanFailure.None?
  }

  // ----------------------------------------------------- the shared state

  /**
   Where a task goroutine is: not yet scheduled, opening its connection, in the ticker loop, about to run its
   deferred function, gone.
   */
  datatype Phase = Spawned | Opening | Ticking | Returning | Stopped

  /** `conn` names the task that opened the connection. */
  datatype State = State(running: bool, conn: Option<nat>, lastError: Option<Error>,
                         counter: CounterMap, tasks: seq<Phase>)

  datatype Event =
    | Scrape
    | Begin(task: nat)
    | Open(task: nat, ok: bool)
    | Tick(task: nat, query: Query)
    | Exit(task: nat)

  const INITIAL := State(false, None, None, map[], [])

  predicate In(s: State, i: nat, p: Phase) {
    i < |s.tasks| && s.tasks[i] == p
  }

  /** A tick dereferences the shared connection, so it can only be taken while that is not nil. */
  predicate Enabled(s: State, e: Event) {
    match e
    case Scrape => true
    case Begin(i) => In(s, i, Spawned)
    case Open(i, _) => In(s, i, Opening)
    case Tick(i, _) => In(s, i, Ticking) && s.conn.Some?
    case Exit(i) => In(s, i, Returning)
  }

  function Step(intervalSecs: nat, s: State, e: Event): State
    requires Enabled(s, e)
  {
    match e
    case Scrape =>
      s.(lastError := None, tasks := if s.running then s.tasks else s.tasks + [Spawned])
    case Begin(i) =>
      s.(running := true, tasks := s.tasks[i := Opening])
    case Open(i, ok) =>
      if ok then s.(conn := Some(i), tasks := s.tasks[i := Ticking])
      else s.(tasks := s.tasks[i := Returning])
    case Tick(i, query) =>
      (match ScrapeResult(intervalSecs, query)
       case Failure(error) => s.(lastError := Some(error), tasks := s.tasks[i := Returning])
       case Success(update) => s.(lastError := None, counter := Merge(s.counter, update)))
    case Exit(i) =>
      s.(running := false, conn := None, tasks := s.tasks[i := Stopped])
  }

  /** What an answered tick leaves under key k: what was there, increased by the key's first `cap` rows. */
  ghost predicate IncreasedByFirstRows(before: CounterMap, after: CounterMap, rows: seq<Row>, cap: nat, k: Lookup) {
    var mine := Project(rows, k);
    && (k in after <==> k in before || (mine != [] && cap > 0))
    && (k in after ==>
          after[k] == Plus(if k in before then before[k] else ZERO, Total(if |mine| <= cap then mine else mine[..cap])))
  }

  /**
   A tick in terms of its query alone: a refused query or a failing scan is recorded and ends the loop without
   touching a counter; an answered one clears the error and adds the first `cap` rows of every key.
   */
  lemma TickMeaning(cap: nat, s: State, i: nat, query: Query, k: Lookup)
    requires Enabled(s, Tick(i, query))
    ensures var s' := Step(cap, s, Tick(i, query));
            var ended := s.tasks[i := Returning];
            && (query.QueryFailed? ==> s' == s.(lastError := Some(ErrorWhileQuerying(query.cause)), tasks := ended))
            && (query.Streamed? && query.scanFailure.Some? ==>
                  s' == s.(lastError := Some(ErrorWhileScanning(query.scanFailure.value)), tasks := ended))
            && (Answered(query) ==>
                  && s' == s.(lastError := None, counter := s'.counter)
                  && IncreasedByFirstRows(s.counter, s'.counter, query.rows, cap, k))
  {
    if Answered(query) {
      UpdateHoldsFirstRows(query.rows, cap, k);
      MergeAt(s.counter, CappedUpdate(query.rows, cap), k);
      FirstOfNothing(Project(query.rows, k), cap);
    }
  }

  lemma MergeAt(a: CounterMap, b: CounterMap, k: Lookup)
    ensures k in Merge(a, b) <==> k in a || k in b
    ensures k in Merge(a, b) ==>
              Merge(a, b)[k] == Plus(if k in a then a[k] else ZERO, if k in b then b[k] else ZERO)
  {
  }

  lemma FirstOfNothing(bs: seq<Bytes>, cap: nat)
    ensures bs == [] || cap == 0 ==> Total(if |bs| <= cap then bs else bs[..cap]) == ZERO
  {
  }

  /** The package-level variables and the statements that read and write them. */
  class BackgroundTask {
    const intervalSecs: nat
    var running: bool
    var conn: Option<nat>
    var lastError: Option<Error>
    var counter: CounterMap
    var tasks: seq<Phase>

    ghost function View(): State
      reads this
    {
      State(running, conn, lastError, counter, tasks)
    }

    constructor (intervalSecs: nat)
      ensures View() == INITIAL && this.intervalSecs == intervalSecs
    {
      this.intervalSecs := intervalSecs;
      running, conn, lastError, counter, tasks := false, None, None, map[], [];
    }

    /** The map is ranged over in an arbitrary order. */
    method Add(update: CounterMap)
      modifies this`counter
      ensures counter == Merge(old(counter), update)
    {
      var remaining := update.Keys;
      while remaining != {}
        invariant remaining <= update.Keys
        invariant counter == Merge(old(counter), update - remaining)
      {
        var key :| key in remaining;
        counter := counter[key := if key in counter then Plus(counter[key], update[key]) else update[key]];
        remaining := remaining - {key};
      }
      assert update - {} == update;
    }

    /** The row loop: at most `intervalSecs` rows of each key are added up. */
    method TaskScrape(query: Query) returns (result: Result<CounterMap, Error>)
      ensures result == ScrapeResult(intervalSecs, query)
      ensures query.QueryFailed? ==> result == Failure(ErrorWhileQuerying(query.cause))
      ensures query.Streamed? && query.scanFailure.Some? ==>
                result == Failure(ErrorWhileScanning(query.scanFailure.value))
      ensures Answered(query) ==>
                result.Success? && forall k :: HoldsFirstRows(result.value, query.rows, intervalSecs, k)
    {
      if query.QueryFailed? {
        return Failure(ErrorWhileQuerying(query.cause));
      }
      var rows := query.rows;
      var sumLimit: map<Lookup, nat> := map[];
      var update: CounterMap := map[];
      for i := 0 to |rows|
        invariant update == CappedUpdate(rows[..i], intervalSecs)
        invariant Limits(sumLimit, rows[..i], intervalSecs)
      {
        var lookup, bytes := rows[i].lookup, rows[i].bytes;
        assert rows[..i + 1] == rows[..i] + [rows[i]];
        LimitsNext(sumLimit, rows[..i], rows[i], intervalSecs);
        UpdateNext(rows[..i], rows[i], intervalSecs);
        if LimitAt(sumLimit, lookup) >= intervalSecs {
          continue;
        }
        update := update[lookup := if lookup in update then Plus(update[lookup], bytes) else bytes];
        sumLimit := sumLimit[lookup := LimitAt(sumLimit, lookup) + 1];
      }
      assert rows[..|rows|] == rows;
      forall k ensures HoldsFirstRows(update, rows, intervalSecs, k) {
        UpdateHoldsFirstRows(rows, intervalSecs, k);
      }
      match query.scanFailure {
        case Some(cause) => result := Failure(ErrorWhileScanning(cause));
        case None => result := Success(update);
      }
    }

    method BeginTask(i: nat)
      requires Enabled(View(), Begin(i))
      modifies this
      ensures View() == Step(intervalSecs, old(View()), Begin(i))
    {
      running := true;
      tasks := tasks[i := Opening];
    }

    method OpenConnection(i: nat, ok: bool)
      requires Enabled(View(), Open(i, ok))
      modifies this
      ensures View() == Step(intervalSecs, old(View()), Open(i, ok))
    {
      if !ok {
        tasks := tasks[i := Returning];
        return;
      }
      conn := Some(i);
      tasks := tasks[i := Ticking];
    }

    method TickOnce(i: nat, query: Query)
      requires Enabled(View(), Tick(i, query))
      modifies this
      ensures View() == Step(intervalSecs, old(View()), Tick(i, query))
    {
      var result := TaskScrape(query);
      match result {
        case Failure(error) =>
          lastError := Some(error);
          tasks := tasks[i := Returning];
        case Success(update) =>
          lastError := None;
          Add(update);
      }
    }

    method ExitTask(i: nat)
      requires Enabled(View(), Exit(i))
      modifies this
      ensures View() == Step(intervalSecs, old(View()), Exit(i))
    {
      running := false;
      conn := None;
      tasks := tasks[i := Stopped];
    }

    /** Starts a task if none is flagged as running, then reports a pending error or sends every counter. */
    method ScrapeOnce() returns (err: Option<Error>, sent: seq<Metric>, ghost order: seq<Lookup>)
      modifies this
      ensures View() == Step(intervalSecs, old(View()), Scrape)
      ensures err == old(lastError)
      ensures err.Some? ==> sent == []
      ensures err.None? ==> Enumerates(order, counter.Keys) && |sent| == 2 * |order|
      ensures err.None? ==>
                forall j :: 0 <= j < |order| ==> order[j] in counter && SentAt(sent, j, order[j], counter[order[j]])
    {
      if !running {
        tasks := tasks + [Spawned];
      }
      err, sent, order := lastError, [], [];
      if err.Some? {
        lastError := None;
        return;
      }
      var remaining := counter.Keys;
      while remaining != {}
        invariant remaining <= counter.Keys
        invariant Enumerates(order, counter.Keys - remaining) && |sent| == 2 * |order|
        invariant forall j :: 0 <= j < |order| ==> order[j] in counter && SentAt(sent, j, order[j], counter[order[j]])
      {
        var lookup :| lookup in remaining;
        sent := sent + [BackupLcpBytes(counter[lookup].backupLcp, lookup), RedoBytes(counter[lookup].redo, lookup)];
        order := order + [lookup];
        remaining := remaining - {lookup};
      }
    }
  }

  datatype Metric = BackupLcpBytes(value: nat, lookup: Lookup) | RedoBytes(value: nat, lookup: Lookup)

  /** The j-th key visited is sent as a pair: its backup and LCP bytes, then its redo bytes. */
  ghost predicate SentAt(sent: seq<Metric>, j: nat, k: Lookup, bytes: Bytes) {
    && 2 * j + 1 < |sent|
    && sent[2 * j] == BackupLcpBytes(bytes.backupLcp, k)
    && sent[2 * j + 1] == RedoBytes(bytes.redo, k)
  }
}
