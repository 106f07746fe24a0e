/** What the processlist collector sends, in terms of the fields of its rows, and in which order. */
module ProcesslistSent {
  import opened Words
  import opened Sequences
  import opened Sanitize
  import opened Sorting
  import opened Tallies
  import opened Processlist

  // ------------------------------------------------------ which metrics, of what value

  function CountOfState(command: string, state: string): Row -> U32 {
    (r: Row) => if SanitizedState(r.command) == command && SanitizedState(r.state) == state then r.count else 0
  }

  function TimeOfState(command: string, state: string): Row -> U32 {
    (r: Row) => if SanitizedState(r.command) == command && SanitizedState(r.state) == state then r.time else 0
  }

  function CountOfHost(host: string): Row -> U32 {
    (r: Row) => if r.host == host || (r.host == "" && host == "unknown") then r.count else 0
  }

  function CountOfUser(user: string): Row -> U32 {
    (r: Row) => if r.user == user then r.count else 0
  }

  ghost predicate HasState(rows: seq<Row>, command: string, state: string) {
    exists r :: r in rows && SanitizedState(r.command) == command && SanitizedState(r.state) == state
  }

  ghost predicate HasHost(rows: seq<Row>, host: string) {
    host != "" && exists r :: r in rows && (r.host == host || (r.host == "" && host == "unknown"))
  }

  ghost predicate HasUser(rows: seq<Row>, user: string) {
    exists r :: r in rows && r.user == user
  }

  /** The metrics there should be: one of each kind per label that occurs, with the sum modulo 2^32 of its rows. */
  ghost predicate Due(m: Metric, rows: seq<Row>, byHost: bool, byUser: bool) {
    match m
    case Threads(v, c, s) => HasState(rows, c, s) && v == Wrap32(ExactGrand(rows, CountOfState(c, s)))
    case Seconds(v, c, s) => HasState(rows, c, s) && v == Wrap32(ExactGrand(rows, TimeOfState(c, s)))
    case ByHost(v, h) => byHost && HasHost(rows, h) && v == Wrap32(ExactGrand(rows, CountOfHost(h)))
    case ByUser(v, u) => byUser && HasUser(rows, u) && v == Wrap32(ExactGrand(rows, CountOfUser(u)))
  }

  lemma {:induction false} InStateCells(rows: seq<Row>, order: seq<(string, string)>, m: Metric)
    ensures m in StateCells(rows, order) <==>
            match m
            case Threads(v, c, s) => (c, s) in order && v == Cell(rows, CellOf, CountOf, (c, s))
            case Seconds(v, c, s) => (c, s) in order && v == Cell(rows, CellOf, TimeOf, (c, s))
            case _ => false
  {
    if order != [] {
      assert order == Init(order) + [Last(order)];
      InStateCells(rows, Init(order), m);
    }
  }

  lemma InHostCells(rows: seq<Row>, order: seq<string>, m: Metric)
    ensures m in HostCells(rows, order) <==>
            m.ByHost? && m.host in order && m.value == Cell(rows, HostOf, CountOf, m.host)
  {
    if m.ByHost? && m.host in order && m.value == Cell(rows, HostOf, CountOf, m.host) {
      var i :| 0 <= i < |order| && order[i] == m.host;
      assert HostCells(rows, order)[i] == m;
    }
  }

  lemma InUserCells(rows: seq<Row>, order: seq<string>, m: Metric)
    ensures m in UserCells(rows, order) <==>
            m.ByUser? && m.user in order && m.value == Cell(rows, UserOf, CountOf, m.user)
  {
    if m.ByUser? && m.user in order && m.value == Cell(rows, UserOf, CountOf, m.user) {
      var i :| 0 <= i < |order| && order[i] == m.user;
      assert UserCells(rows, order)[i] == m;
    }
  }

  lemma StateDue(rows: seq<Row>, c: string, s: string)
    ensures (c, s) in KeysOf(rows, CellOf) <==> HasState(rows, c, s)
    ensures Cell(rows, CellOf, CountOf, (c, s)) == Wrap32(ExactGrand(rows, CountOfState(c, s)))
    ensures Cell(rows, CellOf, TimeOf, (c, s)) == Wrap32(ExactGrand(rows, TimeOfState(c, s)))
  {
    KeysAre(rows, CellOf, (c, s));
    CellIsGrand(rows, CellOf, CountOf, (c, s), CountOfState(c, s));
    CellIsGrand(rows, CellOf, TimeOf, (c, s), TimeOfState(c, s));
    if HasState(rows, c, s) {
      var r :| r in rows && SanitizedState(r.command) == c && SanitizedState(r.state) == s;
      assert CellOf(r) == (c, s);
    }
  }

  lemma HostDue(rows: seq<Row>, h: string)
    ensures h in KeysOf(rows, HostOf) <==> HasHost(rows, h)
    ensures h != "" ==> Cell(rows, HostOf, CountOf, h) == Wrap32(ExactGrand(rows, CountOfHost(h)))
  {
    KeysAre(rows, HostOf, h);
    if h != "" {
      CellIsGrand(rows, HostOf, CountOf, h, CountOfHost(h));
    }
    if HasHost(rows, h) {
      var r :| r in rows && (r.host == h || (r.host == "" && h == "unknown"));
      assert HostOf(r) == h;
    }
  }

  lemma UserDue(rows: seq<Row>, u: string)
    ensures u in KeysOf(rows, UserOf) <==> HasUser(rows, u)
    ensures Cell(rows, UserOf, CountOf, u) == Wrap32(ExactGrand(rows, CountOfUser(u)))
  {
    KeysAre(rows, UserOf, u);
    CellIsGrand(rows, UserOf, CountOf, u, CountOfUser(u));
    if HasUser(rows, u) {
      var r :| r in rows && r.user == u;
      assert UserOf(r) == u;
    }
  }

  /** What is sent is exactly what is due. */
  lemma SentIffDue(rows: seq<Row>, byHost: bool, byUser: bool, m: Metric)
    ensures m in Emission(rows, byHost, byUser) <==> Due(m, rows, byHost, byUser)
  {
    InStateCells(rows, SortedPairs(KeysOf(rows, CellOf)), m);
    InHostCells(rows, SortedStrings(KeysOf(rows, HostOf)), m);
    InUserCells(rows, SortedStrings(KeysOf(rows, UserOf)), m);
    match m
    case Threads(_, c, s) => StateDue(rows, c, s);
    case Seconds(_, c, s) => StateDue(rows, c, s);
    case ByHost(_, h) => HostDue(rows, h);
    case ByUser(_, u) => UserDue(rows, u);
  }

  // ----------------------------------------------------------- in which order

  /**
   States before hosts before users; states by command and then by state, threads before seconds; hosts and users
   by name.
   */
  predicate Before(a: Metric, b: Metric) {
    match (a, b)
    case (Threads(_, c, s), Threads(_, c', s')) => LessPair((c, s), (c', s'))
    case (Threads(_, c, s), Seconds(_, c', s')) => LessPair((c, s), (c', s')) || (c, s) == (c', s')
    case (Seconds(_, c, s), Threads(_, c', s')) => LessPair((c, s), (c', s'))
    case (Seconds(_, c, s), Seconds(_, c', s')) => LessPair((c, s), (c', s'))
    case (ByHost(_, h), ByHost(_, h')) => Less(h, h')
    case (ByUser(_, u), ByUser(_, u')) => Less(u, u')
    case (ByHost(_, _), ByUser(_, _)) => true
    case (ByHost(_, _), _) => false
    case (ByUser(_, _), _) => false
    case (_, _) => true
  }

  lemma {:induction false} StateCellsAscend(rows: seq<Row>, order: seq<(string, string)>)
    requires Ascending(LessPair, order)
    ensures Ascending(Before, StateCells(rows, order))
  {
    if order != [] {
      var init, k := Init(order), Last(order);
      assert order == init + [k];
      StateCellsAscend(rows, init);
      var before := StateCells(rows, init);
      forall m | m in before ensures OfStateBefore(m, k) {
        InStateCells(rows, init, m);
        LastIsGreatest(order, m.command, m.state);
      }
      AppendPair(before, k, Threads(Cell(rows, CellOf, CountOf, k), k.0, k.1),
                 Seconds(Cell(rows, CellOf, TimeOf, k), k.0, k.1));
    }
  }

  predicate OfStateBefore(m: Metric, k: (string, string)) {
    (m.Threads? || m.Seconds?) && LessPair((m.command, m.state), k)
  }

  lemma LastIsGreatest(order: seq<(string, string)>, c: string, s: string)
    requires Ascending(LessPair, order) && order != [] && (c, s) in Init(order)
    ensures LessPair((c, s), Last(order))
  {
    var i :| 0 <= i < |order| - 1 && order[i] == (c, s);
  }

  lemma AppendPair(before: seq<Metric>, k: (string, string), threads: Metric, seconds: Metric)
    requires Ascending(Before, before) && forall m :: m in before ==> OfStateBefore(m, k)
    requires threads.Threads? && seconds.Seconds?
    requires (threads.command, threads.state) == k == (seconds.command, seconds.state)
    ensures Ascending(Before, before + [threads, seconds])
  {
    var all := before + [threads, seconds];
    forall i, j | 0 <= i < j < |all| ensures Before(all[i], all[j]) {
      if i < |before| {
        assert all[i] in before;
      }
    }
  }

  function Block(m: Metric): nat {
    match m
    case Threads(_, _, _) => 0
    case Seconds(_, _, _) => 0
    case ByHost(_, _) => 1
    case ByUser(_, _) => 2
  }

  lemma AscendingConcat(a: seq<Metric>, b: seq<Metric>, n: nat)
    requires Ascending(Before, a) && Ascending(Before, b)
    requires (forall m :: m in a ==> Block(m) < n) && forall m :: m in b ==> Block(m) == n
    ensures Ascending(Before, a + b) && forall m :: m in a + b ==> Block(m) <= n
  {
    var all := a + b;
    forall i, j | 0 <= i < j < |all| ensures Before(all[i], all[j]) {
      if i < |a| <= j {
        assert all[i] in a && all[j] in b;
      } else if |a| <= i {
        assert all[i] == b[i - |a|] && all[j] == b[j - |a|];
      }
    }
  }

  lemma StateBlock(rows: seq<Row>, order: seq<(string, string)>)
    ensures forall m :: m in StateCells(rows, order) ==> Block(m) < 1
  {
    forall m | m in StateCells(rows, order) ensures Block(m) < 1 {
      InStateCells(rows, order, m);
    }
  }

  lemma HostBlock(rows: seq<Row>, order: seq<string>)
    requires Ascending(Less, order)
    ensures Ascending(Before, HostCells(rows, order)) && forall m :: m in HostCells(rows, order) ==> Block(m) == 1
  {
  }

  lemma UserBlock(rows: seq<Row>, order: seq<string>)
    requires Ascending(Less, order)
    ensures Ascending(Before, UserCells(rows, order)) && forall m :: m in UserCells(rows, order) ==> Block(m) == 2
  {
  }

  /** Everything is sent in strictly ascending order: each metric once, whatever order the maps are ranged over. */
  lemma SentInOrder(rows: seq<Row>, byHost: bool, byUser: bool)
    ensures Ascending(Before, Emission(rows, byHost, byUser))
  {
    var pairs := SortedPairs(KeysOf(rows, CellOf));
    var hostNames, userNames := SortedStrings(KeysOf(rows, HostOf)), SortedStrings(KeysOf(rows, UserOf));
    StateCellsAscend(rows, pairs);
    StateBlock(rows, pairs);
    HostBlock(rows, hostNames);
    UserBlock(rows, userNames);
    BlocksAscend(StateCells(rows, pairs), if byHost then HostCells(rows, hostNames) else [],
                 if byUser then UserCells(rows, userNames) else []);
  }

  lemma BlocksAscend(states: seq<Metric>, hosts: seq<Metric>, users: seq<Metric>)
    requires Ascending(Before, states) && Ascending(Before, hosts) && Ascending(Before, users)
    requires (forall m :: m in states ==> Block(m) < 1) && (forall m :: m in hosts ==> Block(m) == 1)
    requires forall m :: m in users ==> Block(m) == 2
    ensures Ascending(Before, states + hosts + users)
  {
    AscendingConcat(states, hosts, 1);
    AscendingConcat(states + hosts, users, 2);
  }
}
