/**
 The processlist collector: rows are counted per sanitized (command, state), per host and
 per user in maps of 32-bit counters, then sent in sorted order.
 */
module Processlist {
  import opened Words
  import opened Sequences
  import opened Sanitize
  import opened Sorting
  import opened Tallies

  datatype Row = Row(user: string, host: string, command: string, state: string, count: U32, time: U32)

  datatype Metric =
    | Threads(value: U32, command: string, state: string)
    | Seconds(value: U32, command: string, state: string)
    | ByHost(value: U32, host: string)
    | ByUser(value: U32, user: string)

  // ---------------------------------------------- what a row counts towards

  function CellOf(r: Row): (string, string) { (SanitizedState(r.command), SanitizedState(r.state)) }

  function HostOf(r: Row): string { if r.host == "" then "unknown" else r.host }

  function UserOf(r: Row): string { r.user }

  function CountOf(r: Row): U32 { r.count }

  function TimeOf(r: Row): U32 { r.time }

  // -------------------------------------------------------------- the maps

  class Aggregator {
    var stateCounts: Nested
    var stateTime: Nested
    var stateHostCounts: map<string, U32>
    var stateUserCounts: map<string, U32>

    /** Every counter is the sum over exactly the rows that sanitize to it. */
    ghost predicate Counts(rows: seq<Row>)
      reads this
    {
      && NestedTallied(stateCounts, rows, CellOf, CountOf)
      && NestedTallied(stateTime, rows, CellOf, TimeOf)
      && Tallied(stateHostCounts, rows, HostOf, CountOf)
      && Tallied(stateUserCounts, rows, UserOf, CountOf)
    }

    constructor ()
      ensures Counts([])
    {
      stateCounts, stateTime, stateHostCounts, stateUserCounts := map[], map[], map[], map[];
    }

    method AddRow(ghost rows: seq<Row>, row: Row)
      requires Counts(rows)
      modifies this
      ensures Counts(rows + [row])
    {
      var command := SanitizeState(row.command);
      var state := SanitizeState(row.state);
      var host := if row.host == "" then "unknown" else row.host;
      NestedTalliedNext(stateCounts, rows, row, CellOf, CountOf);
      NestedTalliedNext(stateTime, rows, row, CellOf, TimeOf);
      TalliedNext(stateHostCounts, rows, row, HostOf, CountOf);
      TalliedNext(stateUserCounts, rows, row, UserOf, CountOf);
      SameShape(stateCounts, stateTime, rows);
      AddState(command, state, row.count, row.time);
      AddHostAndUser(host, row.user, row.count);
    }

    method AddState(command: string, state: string, count: U32, time: U32)
      requires forall c :: c in stateCounts <==> c in stateTime
      requires forall c, s :: Has(stateCounts, c, s) <==> Has(stateTime, c, s)
      modifies this`stateCounts, this`stateTime
      ensures stateCounts == BumpedNested(old(stateCounts), command, state, count)
      ensures stateTime == BumpedNested(old(stateTime), command, state, time)
    {
      assert Has(stateCounts, command, state) <==> Has(stateTime, command, state);
      BumpedNestedInSteps(stateCounts, command, state, count);
      BumpedNestedInSteps(stateTime, command, state, time);
      if command !in stateCounts {
        stateCounts := stateCounts[command := map[]];
        stateTime := stateTime[command := map[]];
      }
      if state !in stateCounts[command] {
        stateCounts := stateCounts[command := Put(stateCounts[command], state, 0)];
        stateTime := stateTime[command := Put(stateTime[command], state, 0)];
      }
      var newCount, newTime := Add32(stateCounts[command][state], count), Add32(stateTime[command][state], time);
      stateCounts := stateCounts[command := Put(stateCounts[command], state, newCount)];
      stateTime := stateTime[command := Put(stateTime[command], state, newTime)];
    }

    method AddHostAndUser(host: string, user: string, count: U32)
      modifies this`stateHostCounts, this`stateUserCounts
      ensures stateHostCounts == Bumped(old(stateHostCounts), host, count)
      ensures stateUserCounts == Bumped(old(stateUserCounts), user, count)
    {
      BumpedInSteps(stateHostCounts, host, count);
      BumpedInSteps(stateUserCounts, user, count);
      if host !in stateHostCounts {
        stateHostCounts := stateHostCounts[host := 0];
      }
      if user !in stateUserCounts {
        stateUserCounts := stateUserCounts[user := 0];
      }
      stateHostCounts := stateHostCounts[host := Add32(stateHostCounts[host], count)];
      stateUserCounts := stateUserCounts[user := Add32(stateUserCounts[user], count)];
    }

    /** One count and one time per (command, state), commands and their states in ascending order. */
    method SendStates() returns (ch: seq<Metric>)
      requires forall c, s :: Has(stateCounts, c, s) ==> Has(stateTime, c, s)
      ensures ch == NestedMetrics(stateCounts, stateTime, SortedPairs(CellsOf(stateCounts)))
    {
      ch := [];
      ghost var order := [];
      var commands := Sorted(stateCounts.Keys);
      for i := 0 to |commands|
        invariant Ascending(LessPair, order)
        invariant forall c, s :: (c, s) in order <==> c in commands[..i] && Has(stateCounts, c, s)
        invariant ch == NestedMetrics(stateCounts, stateTime, order)
      {
        assert commands[..i + 1] == commands[..i] + [commands[i]];
        ghost var states := SortedStrings(stateCounts[commands[i]].Keys);
        assert forall s :: s in states <==> Has(stateCounts, commands[i], s);
        var more := SendCommand(commands[i]);
        AppendCommand(order, commands[i], states, commands[..i]);
        NestedMetricsAppend(stateCounts, stateTime, order, commands[i], states);
        ch, order := ch + more, order + Pairs(commands[i], states);
      }
      assert commands[..|commands|] == commands;
      forall k ensures k in order <==> k in CellsOf(stateCounts) {
        assert k == (k.0, k.1);
      }
      SortedPairsUnique(order, CellsOf(stateCounts));
    }

    method SendCommand(command: string) returns (ch: seq<Metric>)
      requires command in stateCounts
      requires forall s :: Has(stateCounts, command, s) ==> Has(stateTime, command, s)
      ensures ch == NestedMetrics(stateCounts, stateTime, Pairs(command, SortedStrings(stateCounts[command].Keys)))
    {
      ch := [];
      var states := Sorted(stateCounts[command].Keys);
      for j := 0 to |states|
        invariant ch == NestedMetrics(stateCounts, stateTime, Pairs(command, states[..j]))
      {
        var state := states[j];
        assert state in states && Has(stateCounts, command, state) && Has(stateTime, command, state);
        assert Pairs(command, states[..j + 1]) == Pairs(command, states[..j]) + [(command, state)];
        NestedMetricsNext(stateCounts, stateTime, Pairs(command, states[..j]), command, state);
        ch := ch + [Threads(stateCounts[command][state], command, state),
                    Seconds(stateTime[command][state], command, state)];
      }
      assert states[..|states|] == states;
    }
  }

  ghost function CellsOf(m: Nested): set<(string, string)> {
    set c, s | c in m && s in m[c] :: (c, s)
  }

  function GetOrZero(m: map<string, U32>, k: string): U32 {
    if k in m then m[k] else 0
  }

  ghost function HostMetrics(counts: map<string, U32>, order: seq<string>): seq<Metric> {
    seq(|order|, i requires 0 <= i < |order| => ByHost(GetOrZero(counts, order[i]), order[i]))
  }

  ghost function UserMetrics(counts: map<string, U32>, order: seq<string>): seq<Metric> {
    seq(|order|, i requires 0 <= i < |order| => ByUser(GetOrZero(counts, order[i]), order[i]))
  }

  method SendHosts(counts: map<string, U32>) returns (ch: seq<Metric>)
    ensures ch == HostMetrics(counts, SortedStrings(counts.Keys))
  {
    ch := [];
    var hosts := Sorted(counts.Keys);
    for i := 0 to |hosts|
      invariant ch == HostMetrics(counts, hosts[..i])
    {
      assert hosts[i] in hosts;
      ch := ch + [ByHost(counts[hosts[i]], hosts[i])];
    }
    assert hosts[..|hosts|] == hosts;
  }

  method SendUsers(counts: map<string, U32>) returns (ch: seq<Metric>)
    ensures ch == UserMetrics(counts, SortedStrings(counts.Keys))
  {
    ch := [];
    var users := Sorted(counts.Keys);
    for i := 0 to |users|
      invariant ch == UserMetrics(counts, users[..i])
    {
      assert users[i] in users;
      ch := ch + [ByUser(counts[users[i]], users[i])];
    }
    assert users[..|users|] == users;
  }

  function NestedGet(m: Nested, c: string, s: string): U32 {
    if Has(m, c, s) then m[c][s] else 0
  }

  /** What is sent for the given (command, state) pairs. */
  ghost function NestedMetrics(counts: Nested, times: Nested, order: seq<(string, string)>): seq<Metric> {
    if order == [] then []
    else
      var (c, s) := Last(order);
      NestedMetrics(counts, times, Init(order))
      + [Threads(NestedGet(counts, c, s), c, s), Seconds(NestedGet(times, c, s), c, s)]
  }

  lemma NestedMetricsNext(counts: Nested, times: Nested, order: seq<(string, string)>, c: string, s: string)
    ensures NestedMetrics(counts, times, order + [(c, s)]) ==
            NestedMetrics(counts, times, order)
            + [Threads(NestedGet(counts, c, s), c, s), Seconds(NestedGet(times, c, s), c, s)]
  {
    assert Init(order + [(c, s)]) == order;
  }

  lemma {:induction false} NestedMetricsAppend(counts: Nested, times: Nested, order: seq<(string, string)>,
                                               c: string, states: seq<string>)
    ensures NestedMetrics(counts, times, order + Pairs(c, states)) ==
            NestedMetrics(counts, times, order) + NestedMetrics(counts, times, Pairs(c, states))
  {
    if states == [] {
      assert order + Pairs(c, states) == order;
    } else {
      var init, s := Init(states), Last(states);
      NestedMetricsAppend(counts, times, order, c, init);
      assert Pairs(c, states) == Pairs(c, init) + [(c, s)];
      assert order + Pairs(c, states) == (order + Pairs(c, init)) + [(c, s)];
      NestedMetricsNext(counts, times, order + Pairs(c, init), c, s);
      NestedMetricsNext(counts, times, Pairs(c, init), c, s);
      ConcatAssociative(NestedMetrics(counts, times, order), NestedMetrics(counts, times, Pairs(c, init)),
                        [Threads(NestedGet(counts, c, s), c, s), Seconds(NestedGet(times, c, s), c, s)]);
    }
  }

  lemma SameShape(m: Nested, n: Nested, rows: seq<Row>)
    requires NestedTallied(m, rows, CellOf, CountOf) && NestedTallied(n, rows, CellOf, TimeOf)
    ensures forall c, s :: Has(m, c, s) <==> Has(n, c, s)
    ensures forall c :: c in m <==> c in n
  {
    assert forall c, s :: Has(m, c, s) <==> (c, s) in KeysOf(rows, CellOf);
    SameKeys(m, n);
  }

  lemma SameKeys(m: Nested, n: Nested)
    requires forall c, s :: Has(m, c, s) <==> Has(n, c, s)
    requires forall c :: c in m ==> m[c] != map[]
    requires forall c :: c in n ==> n[c] != map[]
    ensures forall c :: c in m <==> c in n
  {
    forall c ensures c in m <==> c in n {
      if c in m {
        var s :| s in m[c];
        assert Has(m, c, s);
      }
      if c in n {
        var s :| s in n[c];
        assert Has(n, c, s);
      }
    }
  }

  ghost function Pairs(command: string, states: seq<string>): seq<(string, string)> {
    seq(|states|, i requires 0 <= i < |states| => (command, states[i]))
  }

  lemma AppendCommand(order: seq<(string, string)>, command: string, states: seq<string>, done: seq<string>)
    requires Ascending(LessPair, order) && Ascending(Less, states) && Ascending(Less, done + [command])
    requires forall k :: k in order ==> k.0 in done
    ensures Ascending(LessPair, order + Pairs(command, states))
    ensures forall k :: k in order + Pairs(command, states) <==> k in order || (k.0 == command && k.1 in states)
  {
    var all, more := order + Pairs(command, states), Pairs(command, states);
    forall i, j | 0 <= i < j < |all| ensures LessPair(all[i], all[j]) {
      if i < |order| <= j {
        assert order[i] in order;
        var d :| 0 <= d < |done| && done[d] == order[i].0;
        assert Less((done + [command])[d], (done + [command])[|done|]);
      } else if |order| <= i {
        assert all[i] == more[i - |order|] && all[j] == more[j - |order|];
      }
    }
    forall k: (string, string) | k.0 == command && k.1 in states ensures k in all {
      var i :| 0 <= i < |states| && states[i] == k.1;
      assert all[|order| + i] == k;
    }
  }

  // ------------------------------------------------------- what is sent

  /** Each cell is the sum over exactly the rows that sanitize to it. */
  ghost function StateCells(rows: seq<Row>, order: seq<(string, string)>): seq<Metric> {
    if order == [] then []
    else
      var (c, s) := Last(order);
      StateCells(rows, Init(order))
      + [Threads(Cell(rows, CellOf, CountOf, (c, s)), c, s), Seconds(Cell(rows, CellOf, TimeOf, (c, s)), c, s)]
  }

  ghost function HostCells(rows: seq<Row>, order: seq<string>): seq<Metric> {
    seq(|order|, i requires 0 <= i < |order| => ByHost(Cell(rows, HostOf, CountOf, order[i]), order[i]))
  }

  ghost function UserCells(rows: seq<Row>, order: seq<string>): seq<Metric> {
    seq(|order|, i requires 0 <= i < |order| => ByUser(Cell(rows, UserOf, CountOf, order[i]), order[i]))
  }

  lemma {:induction false} NestedMetricsAreCells(rows: seq<Row>, counts: Nested, times: Nested,
                                                 order: seq<(string, string)>)
    requires forall k :: k in order ==> NestedGet(counts, k.0, k.1) == Cell(rows, CellOf, CountOf, k)
    requires forall k :: k in order ==> NestedGet(times, k.0, k.1) == Cell(rows, CellOf, TimeOf, k)
    ensures NestedMetrics(counts, times, order) == StateCells(rows, order)
  {
    if order != [] {
      assert order == Init(order) + [Last(order)];
      NestedMetricsAreCells(rows, counts, times, Init(order));
      assert Last(order) in order;
    }
  }

  lemma HeldCells(rows: seq<Row>, m: Nested, weight: Row -> U32, k: (string, string))
    requires NestedTallied(m, rows, CellOf, weight) && Has(m, k.0, k.1)
    ensures NestedGet(m, k.0, k.1) == Cell(rows, CellOf, weight, k)
    ensures k in KeysOf(rows, CellOf)
  {
  }

  lemma TalliedStates(rows: seq<Row>, counts: Nested, times: Nested, order: seq<(string, string)>)
    requires NestedTallied(counts, rows, CellOf, CountOf) && NestedTallied(times, rows, CellOf, TimeOf)
    requires forall k :: k in order ==> k in CellsOf(counts)
    ensures CellsOf(counts) == KeysOf(rows, CellOf)
    ensures NestedMetrics(counts, times, order) == StateCells(rows, order)
  {
    forall k | k in order
      ensures NestedGet(counts, k.0, k.1) == Cell(rows, CellOf, CountOf, k)
      ensures NestedGet(times, k.0, k.1) == Cell(rows, CellOf, TimeOf, k)
    {
      assert k == (k.0, k.1) && k in CellsOf(counts);
      assert Has(counts, k.0, k.1) && Has(times, k.0, k.1);
      HeldCells(rows, counts, CountOf, k);
      HeldCells(rows, times, TimeOf, k);
    }
    forall k ensures k in CellsOf(counts) <==> k in KeysOf(rows, CellOf) {
      assert k == (k.0, k.1);
      assert Has(counts, k.0, k.1) <==> (k.0, k.1) in KeysOf(rows, CellOf);
    }
    NestedMetricsAreCells(rows, counts, times, order);
  }

  /** Everything the collector sends for the rows: a function of them, whatever order the maps are ranged over. */
  ghost function Emission(rows: seq<Row>, byHost: bool, byUser: bool): seq<Metric>
  {
    StateCells(rows, SortedPairs(KeysOf(rows, CellOf)))
    + (if byHost then HostCells(rows, SortedStrings(KeysOf(rows, HostOf))) else [])
    + (if byUser then UserCells(rows, SortedStrings(KeysOf(rows, UserOf))) else [])
  }

  method Scrape(rows: seq<Row>, scanFails: bool, byHost: bool, byUser: bool) returns (ok: bool, ch: seq<Metric>)
    ensures ok <==> !scanFails
    ensures ch == if ok then Emission(rows, byHost, byUser) else []
  {
    var maps := CountRows(rows);
    if scanFails {
      return false, [];
    }
    SameShape(maps.stateCounts, maps.stateTime, rows);
    TalliedMaps(rows, maps.stateCounts, maps.stateTime, maps.stateHostCounts, maps.stateUserCounts, byHost, byUser);
    ch := SendAll(maps, byHost, byUser);
    ok := true;
  }

  method CountRows(rows: seq<Row>) returns (maps: Aggregator)
    ensures maps.Counts(rows)
  {
    maps := new Aggregator();
    assert rows[..0] == [];
    for i := 0 to |rows|
      invariant fresh(maps) && maps.Counts(rows[..i])
    {
      assert rows[..i + 1] == rows[..i] + [rows[i]];
      maps.AddRow(rows[..i], rows[i]);
    }
    assert rows[..|rows|] == rows;
  }

  /** What is sent from the four maps. */
  ghost function MapMetrics(counts: Nested, times: Nested, hosts: map<string, U32>, users: map<string, U32>,
                            byHost: bool, byUser: bool): seq<Metric>
  {
    NestedMetrics(counts, times, SortedPairs(CellsOf(counts)))
    + (if byHost then HostMetrics(hosts, SortedStrings(hosts.Keys)) else [])
    + (if byUser then UserMetrics(users, SortedStrings(users.Keys)) else [])
  }

  method SendAll(maps: Aggregator, byHost: bool, byUser: bool) returns (ch: seq<Metric>)
    requires forall c, s :: Has(maps.stateCounts, c, s) ==> Has(maps.stateTime, c, s)
    ensures ch == MapMetrics(maps.stateCounts, maps.stateTime, maps.stateHostCounts, maps.stateUserCounts,
                             byHost, byUser)
  {
    ch := maps.SendStates();
    if byHost {
      var hosts := SendHosts(maps.stateHostCounts);
      ch := ch + hosts;
    }
    if byUser {
      var users := SendUsers(maps.stateUserCounts);
      ch := ch + users;
    }
  }

  lemma TalliedMaps(rows: seq<Row>, counts: Nested, times: Nested, hosts: map<string, U32>, users: map<string, U32>,
                    byHost: bool, byUser: bool)
    requires NestedTallied(counts, rows, CellOf, CountOf) && NestedTallied(times, rows, CellOf, TimeOf)
    requires Tallied(hosts, rows, HostOf, CountOf) && Tallied(users, rows, UserOf, CountOf)
    ensures MapMetrics(counts, times, hosts, users, byHost, byUser) == Emission(rows, byHost, byUser)
  {
    TalliedStates(rows, counts, times, SortedPairs(CellsOf(counts)));
    TalliedHosts(rows, hosts);
    TalliedUsers(rows, users);
  }

  lemma TalliedHosts(rows: seq<Row>, counts: map<string, U32>)
    requires Tallied(counts, rows, HostOf, CountOf)
    ensures HostMetrics(counts, SortedStrings(counts.Keys)) == HostCells(rows, SortedStrings(KeysOf(rows, HostOf)))
  {
    var order := SortedStrings(counts.Keys);
    assert forall i :: 0 <= i < |order| ==> order[i] in order;
  }

  lemma TalliedUsers(rows: seq<Row>, counts: map<string, U32>)
    requires Tallied(counts, rows, UserOf, CountOf)
    ensures UserMetrics(counts, SortedStrings(counts.Keys)) == UserCells(rows, SortedStrings(KeysOf(rows, UserOf)))
  {
    var order := SortedStrings(counts.Keys);
    assert forall i :: 0 <= i < |order| ==> order[i] in order;
  }

  // ----------------------------------------------------------- conservation

  datatype Kind = ThreadsKind | SecondsKind | HostKind | UserKind

  function KindOf(m: Metric): Kind {
    match m
    case Threads(_, _, _) => ThreadsKind
    case Seconds(_, _, _) => SecondsKind
    case ByHost(_, _) => HostKind
    case ByUser(_, _) => UserKind
  }

  /** The values of one kind of metric, added up modulo 2^32. */
  function Total(ch: seq<Metric>, kind: Kind): U32 {
    if ch == [] then 0
    else if KindOf(Last(ch)) == kind then Add32(Total(Init(ch), kind), Last(ch).value)
    else Total(Init(ch), kind)
  }

  lemma {:induction false} TotalConcat(a: seq<Metric>, b: seq<Metric>, kind: Kind)
    ensures Total(a + b, kind) == Add32(Total(a, kind), Total(b, kind))
  {
    if b == [] {
      assert a + b == a;
    } else {
      TotalConcat(a, Init(b), kind);
      assert Init(a + b) == a + Init(b);
    }
  }

  lemma TotalOfTwo(m: Metric, n: Metric, kind: Kind)
    ensures Total([m, n], kind) ==
            Add32(if KindOf(m) == kind then m.value else 0, if KindOf(n) == kind then n.value else 0)
  {
    assert Init([m, n]) == [m] && Last([m, n]) == n;
    assert Init([m]) == [] && Last([m]) == m;
    assert Total([m], kind) == if KindOf(m) == kind then m.value else 0;
  }

  lemma {:induction false} StateTotals(rows: seq<Row>, order: seq<(string, string)>)
    ensures Total(StateCells(rows, order), ThreadsKind) == CellsTotal(rows, CellOf, CountOf, order)
    ensures Total(StateCells(rows, order), SecondsKind) == CellsTotal(rows, CellOf, TimeOf, order)
    ensures Total(StateCells(rows, order), HostKind) == 0 == Total(StateCells(rows, order), UserKind)
  {
    if order != [] {
      var (c, s) := Last(order);
      var threads := Threads(Cell(rows, CellOf, CountOf, (c, s)), c, s);
      var seconds := Seconds(Cell(rows, CellOf, TimeOf, (c, s)), c, s);
      StateTotals(rows, Init(order));
      forall kind: Kind
        ensures Total(StateCells(rows, order), kind) ==
                Add32(Total(StateCells(rows, Init(order)), kind), Total([threads, seconds], kind))
      {
        TotalConcat(StateCells(rows, Init(order)), [threads, seconds], kind);
      }
      forall kind: Kind {
        TotalOfTwo(threads, seconds, kind);
      }
    }
  }

  lemma {:induction false} HostTotals(rows: seq<Row>, order: seq<string>)
    ensures Total(HostCells(rows, order), HostKind) == CellsTotal(rows, HostOf, CountOf, order)
    ensures forall kind :: kind != HostKind ==> Total(HostCells(rows, order), kind) == 0
  {
    if order != [] {
      HostTotals(rows, Init(order));
      assert Init(HostCells(rows, order)) == HostCells(rows, Init(order));
    }
  }

  lemma {:induction false} UserTotals(rows: seq<Row>, order: seq<string>)
    ensures Total(UserCells(rows, order), UserKind) == CellsTotal(rows, UserOf, CountOf, order)
    ensures forall kind :: kind != UserKind ==> Total(UserCells(rows, order), kind) == 0
  {
    if order != [] {
      UserTotals(rows, Init(order));
      assert Init(UserCells(rows, order)) == UserCells(rows, Init(order));
    }
  }

  /**
   Conservation: the thread counts sent, the counts by host and the counts by user each
   add up to the counts of all rows modulo 2^32, and the seconds sent to the times of all rows.
   */
  lemma NothingLostInTheMaps(rows: seq<Row>, byHost: bool, byUser: bool)
    ensures var ch := Emission(rows, byHost, byUser);
            && Total(ch, ThreadsKind) == Wrap32(ExactGrand(rows, CountOf))
            && Total(ch, SecondsKind) == Wrap32(ExactGrand(rows, TimeOf))
            && Total(ch, HostKind) == (if byHost then Wrap32(ExactGrand(rows, CountOf)) else 0)
            && Total(ch, UserKind) == (if byUser then Wrap32(ExactGrand(rows, CountOf)) else 0)
  {
    var cells, hosts, users :=
      SortedPairs(KeysOf(rows, CellOf)), SortedStrings(KeysOf(rows, HostOf)), SortedStrings(KeysOf(rows, UserOf));
    GrandIsExactModulo(rows, CountOf);
    GrandIsExactModulo(rows, TimeOf);
    CellTotals(rows);
    HostAndUserTotals(rows);
    var a := StateCells(rows, cells);
    var b := if byHost then HostCells(rows, hosts) else [];
    var c := if byUser then UserCells(rows, users) else [];
    TotalOfThree(a, b, c, ThreadsKind);
    TotalOfThree(a, b, c, SecondsKind);
    TotalOfThree(a, b, c, HostKind);
    TotalOfThree(a, b, c, UserKind);
  }

  lemma CellTotals(rows: seq<Row>)
    ensures var cells := StateCells(rows, SortedPairs(KeysOf(rows, CellOf)));
            && Total(cells, ThreadsKind) == Grand(rows, CountOf)
            && Total(cells, SecondsKind) == Grand(rows, TimeOf)
            && Total(cells, HostKind) == 0 == Total(cells, UserKind)
  {
    var order := SortedPairs(KeysOf(rows, CellOf));
    SortedAreDistinct({}, KeysOf(rows, CellOf));
    CellsAddUp(rows, CellOf, CountOf, order);
    CellsAddUp(rows, CellOf, TimeOf, order);
    StateTotals(rows, order);
  }

  lemma HostAndUserTotals(rows: seq<Row>)
    ensures var hosts := HostCells(rows, SortedStrings(KeysOf(rows, HostOf)));
            var users := UserCells(rows, SortedStrings(KeysOf(rows, UserOf)));
            && Total(hosts, HostKind) == Grand(rows, CountOf)
            && Total(users, UserKind) == Grand(rows, CountOf)
            && (forall kind :: kind != HostKind ==> Total(hosts, kind) == 0)
            && (forall kind :: kind != UserKind ==> Total(users, kind) == 0)
  {
    var hosts, users := SortedStrings(KeysOf(rows, HostOf)), SortedStrings(KeysOf(rows, UserOf));
    SortedAreDistinct(KeysOf(rows, HostOf), {});
    SortedAreDistinct(KeysOf(rows, UserOf), {});
    CellsAddUp(rows, HostOf, CountOf, hosts);
    CellsAddUp(rows, UserOf, CountOf, users);
    HostTotals(rows, hosts);
    UserTotals(rows, users);
  }

  lemma TotalOfThree(a: seq<Metric>, b: seq<Metric>, c: seq<Metric>, kind: Kind)
    ensures Total(a + b + c, kind) == Add32(Add32(Total(a, kind), Total(b, kind)), Total(c, kind))
  {
    TotalConcat(a + b, c, kind);
    TotalConcat(a, b, kind);
  }
}
