/**
 The two time-track collectors of ndbinfo: rows of (node, upper bound, one count per
 column) are spread over one bucket map per column and node, and each of those is then
 summed, cumulated in place and sent as a histogram that shares the map.
 */
module TimeTrackStats {
  import opened Words
  import opened Histogram
  import opened HistogramError
  import opened Sequences

  const TC_BOUNDS: seq<real> := [
    50.0, 75.0, 112.0, 168.0, 252.0, 378.0, 567.0, 850.0, 1275.0, 1912.0, 2868.0, 4302.0, 6453.0, 9679.0, 14518.0,
    21777.0, 32665.0, 48997.0, 73495.0, 110242.0, 165363.0, 248044.0, 372066.0, 558099.0, 837148.0, 1255722.0,
    1883583.0, 2825374.0, 4238061.0, 6357091.0, 9535636.0, 14303454.0]

  /**
   scans, scan errors, scan fragments, scan fragment errors, transactions, transaction errors, read, write and
   index key operations, key operation errors.
   */
  const TC_COLUMNS: nat := 10

  const PGMAN_BOUNDS: seq<real> := [
    0.0, 16.0, 32.0, 64.0, 128.0, 256.0, 512.0, 1024.0, 2048.0, 4096.0, 8192.0, 16384.0, 32768.0, 65536.0, 131072.0,
    262144.0, 524288.0, 1048576.0, 2097152.0, 4294967295.0]

  /** page reads, page writes, log waits, get page calls. */
  const PGMAN_COLUMNS: nat := 4

  lemma TablesIncrease()
    ensures BoundTable(TC_BOUNDS) && BoundTable(PGMAN_BOUNDS)
    ensures |TC_BOUNDS| == 32 && |PGMAN_BOUNDS| == 20
  {
    StepsIncrease(TC_BOUNDS);
    StepsIncrease(PGMAN_BOUNDS);
  }

  /** Half as much again each time, cut down to a whole number. */
  lemma TCBoundsGrow(i: nat)
    requires i + 1 < |TC_BOUNDS|
    ensures |TC_BOUNDS| == 32 && TC_BOUNDS[0] == 50.0
    ensures TC_BOUNDS[i + 1] == (1.5 * TC_BOUNDS[i]).Floor as real
  {
  }

  function Doubled(x: real, n: nat): real {
    if n == 0 then x else 2.0 * Doubled(x, n - 1)
  }

  /** Zero, sixteen doubled up to 2^21, and the largest 32-bit number. */
  lemma PGMANBoundsDouble(i: nat)
    requires i < |PGMAN_BOUNDS|
    ensures |PGMAN_BOUNDS| == 20
    ensures PGMAN_BOUNDS[i] == if i == 0 then 0.0 else if i < 19 then Doubled(16.0, i - 1) else TWO_32 as real - 1.0
  {
    if i < 19 {
      DoublingSteps(i);
    }
  }

  lemma {:induction false} DoublingSteps(i: nat)
    requires i < 19
    ensures i > 0 ==> PGMAN_BOUNDS[i] == Doubled(16.0, i - 1)
  {
    if i > 1 {
      DoublingSteps(i - 1);
    }
  }

  lemma {:induction false} StepsIncrease(bounds: seq<real>)
    requires forall i :: 0 <= i < |bounds| - 1 ==> bounds[i] < bounds[i + 1]
    ensures Increasing(bounds)
  {
    if bounds != [] {
      StepsIncrease(Init(bounds));
      forall i, j | 0 <= i < j < |bounds| ensures bounds[i] < bounds[j] {
        assert bounds[j - 1] < bounds[j - 1 + 1];
        assert i < j - 1 ==> Init(bounds)[i] < Init(bounds)[j - 1];
      }
    }
  }

  datatype Row = Row(nodeID: string, upperBound: real, columns: seq<U64>)

  /** A histogram as it is put on the channel; its buckets are the map itself, not a copy. */
  datatype Sent = Sent(column: nat, nodeID: string, count: U64, sum: real, buckets: Bucket)

  type Table = map<string, Bucket>

  predicate Wide(rows: seq<Row>, width: nat) {
    forall r :: r in rows ==> |r.columns| == width
  }

  function Nodes(rows: seq<Row>): set<string> {
    if rows == [] then {} else Nodes(rows[..|rows| - 1]) + {rows[|rows| - 1].nodeID}
  }

  /** The raw bucket map of one column and node: its rows' counts by bound. */
  function Raw(rows: seq<Row>, c: nat, node: string): Counts
    requires forall r :: r in rows ==> c < |r.columns|
  {
    if rows == [] then map[]
    else
      var last := rows[|rows| - 1];
      var before := Raw(rows[..|rows| - 1], c, node);
      if last.nodeID == node then before[last.upperBound := last.columns[c]] else before
  }

  lemma {:induction false} NodesAre(rows: seq<Row>, node: string)
    ensures node in Nodes(rows) <==> exists r :: r in rows && r.nodeID == node
  {
    if rows != [] {
      var init, last := rows[..|rows| - 1], rows[|rows| - 1];
      NodesAre(init, node);
      assert rows == init + [last];
      if node in Nodes(rows) {
        assert last in rows;
      }
    }
  }

  /** Row i is the last one of its node and bound. */
  ghost predicate LastOfCell(rows: seq<Row>, i: nat) {
    && i < |rows|
    && forall j :: i < j < |rows| ==> !(rows[j].nodeID == rows[i].nodeID && rows[j].upperBound == rows[i].upperBound)
  }

  /** A later row replaces an earlier one with the same node and bound; its column's count is what is kept. */
  lemma {:induction false} RawHoldsTheLast(rows: seq<Row>, c: nat, i: nat)
    requires (forall r :: r in rows ==> c < |r.columns|) && LastOfCell(rows, i)
    ensures rows[i].upperBound in Raw(rows, c, rows[i].nodeID)
    ensures Raw(rows, c, rows[i].nodeID)[rows[i].upperBound] == rows[i].columns[c]
  {
    if i < |rows| - 1 {
      RawHoldsTheLast(rows[..|rows| - 1], c, i);
      assert rows[|rows| - 1] in rows;
    }
  }

  ghost predicate Filled(table: Table, rows: seq<Row>, c: nat)
    requires forall r :: r in rows ==> c < |r.columns|
    reads table.Values
  {
    && table.Keys == Nodes(rows)
    && forall node :: node in table ==> table[node].counts == Raw(rows, c, node)
  }

  ghost predicate Injective(table: Table) {
    forall n, n' :: n in table && n' in table && table[n] == table[n'] ==> n == n'
  }

  /** No two (column, node) pairs share a bucket map. */
  ghost predicate Unaliased(tables: seq<Table>) {
    && (forall c :: 0 <= c < |tables| ==> Injective(tables[c]))
    && (forall c, d :: 0 <= c < d < |tables| ==> tables[c].Values !! tables[d].Values)
  }

  ghost function Buckets(tables: seq<Table>): set<Bucket> {
    set c, b | 0 <= c < |tables| && b in tables[c].Values :: b
  }

  /** One cell of one row: a fresh map if the node is new to the column, then the count under the row's bound. */
  method Record(ghost rows: seq<Row>, row: Row, c: nat, before: Table) returns (table: Table)
    requires (forall r :: r in rows ==> c < |r.columns|) && c < |row.columns|
    requires Filled(before, rows, c) && Injective(before)
    modifies before.Values
    ensures Filled(table, rows + [row], c) && Injective(table) && fresh(table.Values - before.Values)
  {
    assert (rows + [row])[..|rows|] == rows;
    table := before;
    if row.nodeID !in table {
      NewNode(rows, c, row.nodeID);
      var bucket := new Bucket();
      table := table[row.nodeID := bucket];
    }
    var bucket := table[row.nodeID];
    bucket.counts := bucket.counts[row.upperBound := row.columns[c]];
  }

  lemma {:induction false} NewNode(rows: seq<Row>, c: nat, node: string)
    requires (forall r :: r in rows ==> c < |r.columns|) && node !in Nodes(rows)
    ensures Raw(rows, c, node) == map[]
  {
    if rows != [] {
      NewNode(rows[..|rows| - 1], c, node);
    }
  }

  /** The first c tables have seen the row, the others have not. */
  ghost predicate HalfFilled(tables: seq<Table>, rows: seq<Row>, row: Row, c: nat)
    requires Wide(rows + [row], |tables|)
    reads Buckets(tables)
  {
    forall d :: 0 <= d < |tables| ==> Filled(tables[d], if d < c then rows + [row] else rows, d)
  }

  lemma UnaliasedUpdate(tables: seq<Table>, c: nat, table: Table)
    requires c < |tables| && Unaliased(tables) && Injective(table)
    requires forall d :: 0 <= d < |tables| && d != c ==> table.Values !! tables[d].Values
    ensures Unaliased(tables[c := table])
  {
    var after := tables[c := table];
    forall d, e | 0 <= d < e < |after| ensures after[d].Values !! after[e].Values {
      assert d != c && e != c ==> tables[d].Values !! tables[e].Values;
    }
  }

  lemma BucketsAfterUpdate(tables: seq<Table>, c: nat, table: Table)
    requires c < |tables|
    ensures tables[c].Values <= Buckets(tables)
    ensures Buckets(tables[c := table]) <= Buckets(tables) + table.Values
  {
    var after := tables[c := table];
    forall b | b in Buckets(after) ensures b in Buckets(tables) + table.Values {
      var d :| 0 <= d < |after| && b in after[d].Values;
      assert d != c ==> after[d] == tables[d];
    }
  }

  method FillColumn(ghost rows: seq<Row>, row: Row, c: nat, before: seq<Table>) returns (tables: seq<Table>)
    requires Wide(rows + [row], |before|) && c < |before|
    requires Unaliased(before) && HalfFilled(before, rows, row, c)
    modifies before[c].Values
    ensures |tables| == |before| && fresh(Buckets(tables) - Buckets(before))
    ensures Unaliased(tables) && HalfFilled(tables, rows, row, c + 1)
  {
    assert row in rows + [row];
    assert Filled(before[c], rows, c);
    forall d | 0 <= d < |before| && d != c
      ensures before[c].Values !! before[d].Values && Filled(before[d], if d < c then rows + [row] else rows, d)
    {
    }
    var table := Record(rows, row, c, before[c]);
    forall d | 0 <= d < |before| && d != c
      ensures table.Values !! before[d].Values && Filled(before[d], if d < c + 1 then rows + [row] else rows, d)
    {
    }
    UnaliasedUpdate(before, c, table);
    BucketsAfterUpdate(before, c, table);
    tables := before[c := table];
  }

  method FillRow(ghost rows: seq<Row>, row: Row, filled: seq<Table>) returns (tables: seq<Table>)
    requires Wide(rows + [row], |filled|)
    requires Unaliased(filled) && HalfFilled(filled, rows, row, 0)
    modifies Buckets(filled)
    ensures |tables| == |filled| && Unaliased(tables) && fresh(Buckets(tables) - Buckets(filled))
    ensures HalfFilled(tables, rows, row, |tables|)
  {
    tables := filled;
    for c := 0 to |filled|
      invariant |tables| == |filled| && Unaliased(tables) && fresh(Buckets(tables) - Buckets(filled))
      invariant HalfFilled(tables, rows, row, c)
    {
      BucketsAfterUpdate(tables, c, tables[c]);
      tables := FillColumn(rows, row, c, tables);
    }
  }

  /** The row loop: ten (or four) maps of maps, filled side by side. */
  method Fill(rows: seq<Row>, width: nat) returns (tables: seq<Table>)
    requires Wide(rows, width)
    ensures |tables| == width && Unaliased(tables) && fresh(Buckets(tables))
    ensures forall c :: 0 <= c < width ==> Filled(tables[c], rows, c)
  {
    tables := seq(width, _ => map[]);
    for i := 0 to |rows|
      invariant |tables| == width && Unaliased(tables) && fresh(Buckets(tables))
      invariant forall c :: 0 <= c < width ==> Filled(tables[c], rows[..i], c)
    {
      assert rows[..i + 1] == rows[..i] + [rows[i]];
      tables := FillRow(rows[..i], rows[i], tables);
      assert forall c :: 0 <= c < width ==> Filled(tables[c], rows[..i + 1], c);
    }
    assert rows[..|rows|] == rows;
  }

  // ------------------------------------------------------------- emission

  /**
   The histogram sent for its column and node: sum taken from the raw counts, buckets cumulated, count read from
   the last one.
   */
  ghost predicate HistogramOf(s: Sent, bounds: seq<real>, rows: seq<Row>)
    requires bounds != [] && forall r :: r in rows ==> s.column < |r.columns|
    reads s.buckets
  {
    var raw := Raw(rows, s.column, s.nodeID);
    && s.sum == ArtificialSumTo(bounds, raw, |bounds|)
    && s.buckets.counts == Cumulate(bounds, raw, |bounds|)
    && s.count == Get(s.buckets.counts, Last(bounds))
  }

  /** The histogram of one column and node, sharing the table's map for it. */
  ghost predicate SentFrom(s: Sent, bounds: seq<real>, rows: seq<Row>, c: nat, node: string, table: Table)
    requires bounds != [] && forall r :: r in rows ==> c < |r.columns|
    reads s.buckets
  {
    s.column == c && s.nodeID == node && node in table && s.buckets == table[node] && HistogramOf(s, bounds, rows)
  }

  /**
   One emission loop, over the nodes in an arbitrary order. Its histograms share the column's maps and stay as
   they were sent.
   */
  method EmitColumn(bounds: seq<real>, ghost rows: seq<Row>, c: nat, table: Table)
    returns (sent: seq<Sent>, ghost order: seq<string>)
    requires bounds != [] && forall r :: r in rows ==> c < |r.columns|
    requires Filled(table, rows, c) && Injective(table)
    modifies table.Values
    ensures Enumerates(order, Nodes(rows)) && |sent| == |order|
    ensures forall i :: 0 <= i < |sent| ==> SentFrom(sent[i], bounds, rows, c, order[i], table)
  {
    sent, order := [], [];
    var remaining := table.Keys;
    while remaining != {}
      invariant remaining <= table.Keys
      invariant Enumerates(order, table.Keys - remaining) && |sent| == |order|
      invariant forall node :: node in remaining ==> table[node].counts == Raw(rows, c, node)
      invariant forall i :: 0 <= i < |sent| ==> SentFrom(sent[i], bounds, rows, c, order[i], table)
    {
      var node :| node in remaining;
      forall i | 0 <= i < |sent| ensures sent[i].buckets != table[node] {
        assert order[i] in order;
      }
      var one := EmitOne(bounds, rows, c, node, table[node]);
      sent, order := sent + [one], order + [node];
      remaining := remaining - {node};
    }
  }

  /** The artificial sum is taken before the counts are cumulated; the map itself is what is sent. */
  method EmitOne(bounds: seq<real>, ghost rows: seq<Row>, c: nat, node: string, bucket: Bucket) returns (sent: Sent)
    requires bounds != [] && forall r :: r in rows ==> c < |r.columns|
    requires bucket.counts == Raw(rows, c, node)
    modifies bucket
    ensures sent.column == c && sent.nodeID == node && sent.buckets == bucket && HistogramOf(sent, bounds, rows)
  {
    var sum := ArtificialSum(bounds, bucket);
    MakeCumulative(bounds, bucket);
    sent := Sent(c, node, Get(bucket.counts, Last(bounds)), sum, bucket);
  }

  /** One histogram for each of the first `width` columns and each node, column by column. */
  ghost predicate EachOnce(sent: seq<Sent>, width: nat, nodes: set<string>) {
    && (forall i :: 0 <= i < |sent| ==> sent[i].column < width && sent[i].nodeID in nodes)
    && (forall c, n :: 0 <= c < width && n in nodes ==> SentFor(sent, c, n))
    && (forall i, j :: 0 <= i < j < |sent| ==>
          sent[i].column <= sent[j].column && (sent[i].column == sent[j].column ==> sent[i].nodeID != sent[j].nodeID))
  }

  ghost predicate SentFor(sent: seq<Sent>, c: nat, node: string) {
    exists i :: 0 <= i < |sent| && sent[i].column == c && sent[i].nodeID == node
  }

  function ColumnsAndNodes(width: nat, nodes: set<string>): set<(nat, string)> {
    set c: nat, n | c < width && n in nodes :: (c, n)
  }

  function OneColumn(c: nat, nodes: set<string>): set<(nat, string)> {
    set n | n in nodes :: (c, n)
  }

  lemma {:induction false} OneColumnCount(c: nat, nodes: set<string>)
    ensures |OneColumn(c, nodes)| == |nodes|
  {
    if nodes != {} {
      var node :| node in nodes;
      OneColumnCount(c, nodes - {node});
      assert OneColumn(c, nodes) == OneColumn(c, nodes - {node}) + {(c, node)};
    }
  }

  lemma {:induction false} ColumnsAndNodesCount(width: nat, nodes: set<string>)
    ensures |ColumnsAndNodes(width, nodes)| == Multiple(width, |nodes|)
  {
    if width > 0 {
      var before, last := ColumnsAndNodes(width - 1, nodes), OneColumn(width - 1, nodes);
      ColumnsAndNodesCount(width - 1, nodes);
      OneColumnCount(width - 1, nodes);
      assert before !! last;
      assert ColumnsAndNodes(width, nodes) == before + last;
    }
  }

  lemma CountSent(sent: seq<Sent>, width: nat, nodes: set<string>)
    requires EachOnce(sent, width, nodes)
    ensures |sent| == width * |nodes|
  {
    var order: seq<(nat, string)> := seq(|sent|, i requires 0 <= i < |sent| => (sent[i].column, sent[i].nodeID));
    forall k ensures k in order <==> k in ColumnsAndNodes(width, nodes) {
      if k in ColumnsAndNodes(width, nodes) {
        assert SentFor(sent, k.0, k.1);
        var i :| 0 <= i < |sent| && sent[i].column == k.0 && sent[i].nodeID == k.1;
        assert order[i] == k;
      }
    }
    EnumeratesAll(order, ColumnsAndNodes(width, nodes));
    ColumnsAndNodesCount(width, nodes);
    MultipleIsProduct(width, |nodes|);
  }

  lemma AppendColumn(sent: seq<Sent>, more: seq<Sent>, order: seq<string>, c: nat, nodes: set<string>)
    requires EachOnce(sent, c, nodes) && |more| == |order| && Enumerates(order, nodes)
    requires forall i :: 0 <= i < |more| ==> more[i].column == c && more[i].nodeID == order[i]
    ensures EachOnce(sent + more, c + 1, nodes)
  {
    forall d, n | 0 <= d < c + 1 && n in nodes ensures SentFor(sent + more, d, n) {
      if d < c {
        assert SentFor(sent, d, n);
        var i :| 0 <= i < |sent| && sent[i].column == d && sent[i].nodeID == n;
        assert (sent + more)[i] == sent[i];
      } else {
        assert n in order;
        var i :| 0 <= i < |order| && order[i] == n;
        assert (sent + more)[|sent| + i] == more[i];
      }
    }
    forall i | 0 <= i < |more| ensures more[i].nodeID in nodes {
      assert order[i] in order;
    }
  }

  /** The histograms sent are right, and belong to the first c tables. */
  ghost predicate AllSent(sent: seq<Sent>, c: nat, bounds: seq<real>, rows: seq<Row>, tables: seq<Table>)
    requires bounds != [] && Wide(rows, |tables|)
    reads set s | s in sent :: s.buckets
  {
    forall i :: 0 <= i < |sent| ==>
      && sent[i].column < |tables| && sent[i].column < c
      && sent[i].buckets in tables[sent[i].column].Values
      && HistogramOf(sent[i], bounds, rows)
  }

  lemma SentTogether(before: seq<Sent>, more: seq<Sent>, order: seq<string>, c: nat,
                     bounds: seq<real>, rows: seq<Row>, tables: seq<Table>)
    requires bounds != [] && Wide(rows, |tables|) && c < |tables| && |more| == |order|
    requires AllSent(before, c, bounds, rows, tables)
    requires forall i :: 0 <= i < |more| ==> SentFrom(more[i], bounds, rows, c, order[i], tables[c])
    ensures AllSent(before + more, c + 1, bounds, rows, tables)
  {
  }

  method EmitNext(bounds: seq<real>, ghost rows: seq<Row>, tables: seq<Table>, c: nat, before: seq<Sent>)
    returns (sent: seq<Sent>)
    requires bounds != [] && Wide(rows, |tables|) && Unaliased(tables) && c < |tables|
    requires Filled(tables[c], rows, c)
    requires EachOnce(before, c, Nodes(rows)) && AllSent(before, c, bounds, rows, tables)
    modifies tables[c].Values
    ensures EachOnce(sent, c + 1, Nodes(rows)) && AllSent(sent, c + 1, bounds, rows, tables)
  {
    forall i | 0 <= i < |before| ensures before[i].buckets !in tables[c].Values {
      assert tables[before[i].column].Values !! tables[c].Values;
    }
    var more;
    ghost var order;
    more, order := EmitColumn(bounds, rows, c, tables[c]);
    SentTogether(before, more, order, c, bounds, rows, tables);
    AppendColumn(before, more, order, c, Nodes(rows));
    sent := before + more;
  }

  /**
   The emission loops, one column after the other. Cumulating one map leaves every other one, sent or not, as it
   is.
   */
  method Emit(bounds: seq<real>, ghost rows: seq<Row>, tables: seq<Table>) returns (sent: seq<Sent>)
    requires bounds != [] && Wide(rows, |tables|) && Unaliased(tables)
    requires forall c :: 0 <= c < |tables| ==> Filled(tables[c], rows, c)
    modifies Buckets(tables)
    ensures EachOnce(sent, |tables|, Nodes(rows)) && AllSent(sent, |tables|, bounds, rows, tables)
  {
    sent := [];
    for c := 0 to |tables|
      invariant EachOnce(sent, c, Nodes(rows)) && AllSent(sent, c, bounds, rows, tables)
      invariant forall d :: c <= d < |tables| ==> Filled(tables[d], rows, d)
    {
      assert tables[c].Values <= Buckets(tables);
      forall d | c < d < |tables| ensures tables[c].Values !! tables[d].Values {
      }
      sent := EmitNext(bounds, rows, tables, c, sent);
    }
  }

  /** The whole collector: a row that fails to scan ends it before anything is sent. */
  method Scrape(bounds: seq<real>, width: nat, rows: seq<Row>, scanFails: bool) returns (ok: bool, sent: seq<Sent>)
    requires bounds != [] && Wide(rows, width)
    ensures ok <==> !scanFails
    ensures !ok ==> sent == []
    ensures ok ==> EachOnce(sent, width, Nodes(rows)) && |sent| == width * |Nodes(rows)|
    ensures ok ==> forall i :: 0 <= i < |sent| ==> HistogramOf(sent[i], bounds, rows)
  {
    var tables := Fill(rows, width);
    if scanFails {
      return false, [];
    }
    sent := Emit(bounds, rows, tables);
    ok := true;
    CountSent(sent, width, Nodes(rows));
    assert AllSent(sent, width, bounds, rows, tables);
  }

  // ------------------------------------------------ what the histograms say

  /** The sum of one column over the rows of one node. */
  function ColumnSum(rows: seq<Row>, c: nat, node: string): nat
    requires forall r :: r in rows ==> c < |r.columns|
  {
    if rows == [] then 0
    else ColumnSum(Init(rows), c, node) + (if Last(rows).nodeID == node then Last(rows).columns[c] else 0)
  }

  ghost predicate DistinctCells(rows: seq<Row>) {
    forall i, j :: 0 <= i < j < |rows| ==>
      !(rows[i].nodeID == rows[j].nodeID && rows[i].upperBound == rows[j].upperBound)
  }

  ghost predicate HasBound(rows: seq<Row>, node: string, b: real) {
    exists i :: 0 <= i < |rows| && rows[i].nodeID == node && rows[i].upperBound == b
  }

  lemma {:induction false} RawKeys(rows: seq<Row>, c: nat, node: string, b: real)
    requires forall r :: r in rows ==> c < |r.columns|
    ensures b in Raw(rows, c, node) <==> HasBound(rows, node, b)
  {
    if rows != [] {
      RawKeys(Init(rows), c, node, b);
      assert HasBound(Init(rows), node, b) ==> HasBound(rows, node, b);
    }
  }

  lemma {:induction false} NewBoundCounts(bounds: seq<real>, counts: Counts, b: real, x: U64, n: nat)
    requires Distinct(bounds) && b !in counts && n <= |bounds|
    ensures CountTo(bounds, counts[b := x], n) == CountTo(bounds, counts, n) + (if b in bounds[..n] then x else 0)
  {
    if n > 0 {
      NewBoundCounts(bounds, counts, b, x, n - 1);
      assert bounds[..n] == bounds[..n - 1] + [bounds[n - 1]];
      assert bounds[n - 1] !in bounds[..n - 1];
    }
  }

  lemma {:induction false} RawTotal(bounds: seq<real>, rows: seq<Row>, c: nat, node: string)
    requires Distinct(bounds) && DistinctCells(rows) && forall r :: r in rows ==> c < |r.columns|
    requires forall r :: r in rows && r.nodeID == node ==> r.upperBound in bounds
    ensures CountTo(bounds, Raw(rows, c, node), |bounds|) == ColumnSum(rows, c, node)
  {
    if rows == [] {
      NothingCounted(bounds, |bounds|);
    } else {
      RawTotal(bounds, Init(rows), c, node);
      var row := Last(rows);
      assert row in rows;
      if row.nodeID == node {
        RawKeys(Init(rows), c, node, row.upperBound);
        NewBoundCounts(bounds, Raw(Init(rows), c, node), row.upperBound, row.columns[c], |bounds|);
        assert bounds[..|bounds|] == bounds;
      }
    }
  }

  lemma NothingCounted(bounds: seq<real>, n: nat)
    requires n <= |bounds|
    ensures CountTo(bounds, map[], n) == 0
  {
  }

  /**
   End to end: if the rows have distinct (node, bound) pairs with every bound in the table
   and a node's column does not overflow, then its histogram has non-decreasing buckets,
   and the last one, the reported count and the sum of the raw column are the same number.
   */
  lemma HistogramCountsTheColumn(bounds: seq<real>, rows: seq<Row>, c: nat, node: string, i: nat)
    requires Increasing(bounds) && DistinctCells(rows) && forall r :: r in rows ==> c < |r.columns|
    requires forall r :: r in rows && r.nodeID == node ==> r.upperBound in bounds
    requires ColumnSum(rows, c, node) < TWO_64 && i < |bounds|
    ensures var h := Cumulate(bounds, Raw(rows, c, node), |bounds|);
            && Get(h, Last(bounds)) == ColumnSum(rows, c, node)
            && (i > 0 ==> Get(h, bounds[i - 1]) <= Get(h, bounds[i]))
            && Get(h, bounds[i]) <= ColumnSum(rows, c, node)
  {
    var raw := Raw(rows, c, node);
    RawTotal(bounds, rows, c, node);
    CumulatesExactly(bounds, raw);
    CountToGrows(bounds, raw, i, i + 1);
    CountToGrows(bounds, raw, i + 1, |bounds|);
  }

  /** A histogram has exactly the table's bounds as buckets iff the node's rows use no other bound. */
  lemma BucketsAreTheTableIff(bounds: seq<real>, rows: seq<Row>, c: nat, node: string)
    requires Distinct(bounds) && forall r :: r in rows ==> c < |r.columns|
    ensures (forall b :: b in Cumulate(bounds, Raw(rows, c, node), |bounds|) <==> b in bounds)
       <==> (forall r :: r in rows && r.nodeID == node ==> r.upperBound in bounds)
  {
    var h := Cumulate(bounds, Raw(rows, c, node), |bounds|);
    CumulateMeaning(bounds, Raw(rows, c, node));
    forall b ensures b in h <==> HasBound(rows, node, b) || b in bounds {
      RawKeys(rows, c, node, b);
    }
    forall r | r in rows && r.nodeID == node ensures HasBound(rows, node, r.upperBound) {
    }
  }

  // ------------------------------------------------------ the two collectors

  /** What the queries promise: one row per node and bound of the table, and sums that fit in 64 bits. */
  ghost predicate Clean(rows: seq<Row>, bounds: seq<real>, width: nat)
    requires Wide(rows, width)
  {
    && DistinctCells(rows)
    && (forall r :: r in rows ==> r.upperBound in bounds)
    && (forall c, node :: 0 <= c < width ==> ColumnSum(rows, c, node) < TWO_64)
  }

  /** The histogram has one bucket per bound, never decreasing, and its count is the sum of its node's raw column. */
  ghost predicate CountsItsColumn(s: Sent, bounds: seq<real>, rows: seq<Row>)
    requires bounds != [] && forall r :: r in rows ==> s.column < |r.columns|
    reads s.buckets
  {
    && (forall b :: b in s.buckets.counts <==> b in bounds)
    && (forall i :: 0 < i < |bounds| ==> Get(s.buckets.counts, bounds[i - 1]) <= Get(s.buckets.counts, bounds[i]))
    && s.count == Get(s.buckets.counts, Last(bounds)) == ColumnSum(rows, s.column, s.nodeID)
  }

  /**
   The sum that is sent is within half a bucket width per observation of the true sum, whatever observations the
   raw cells of its column and node count.
   */
  ghost predicate SumIsNear(s: Sent, bounds: seq<real>, rows: seq<Row>)
    requires forall r :: r in rows ==> s.column < |r.columns|
  {
    var raw := Raw(rows, s.column, s.nodeID);
    forall obs :: Consistent(bounds, raw, obs) ==>
      && -ErrorBoundTo(bounds, raw, |bounds|) <= RealSum(obs) - s.sum
      && RealSum(obs) - s.sum <= ErrorBoundTo(bounds, raw, |bounds|)
  }

  lemma SentSumIsNear(s: Sent, bounds: seq<real>, rows: seq<Row>)
    requires bounds != [] && BoundTable(bounds) && forall r :: r in rows ==> s.column < |r.columns|
    requires HistogramOf(s, bounds, rows)
    ensures SumIsNear(s, bounds, rows)
  {
    var raw := Raw(rows, s.column, s.nodeID);
    forall obs | Consistent(bounds, raw, obs)
      ensures -ErrorBoundTo(bounds, raw, |bounds|) <= RealSum(obs) - s.sum
      ensures RealSum(obs) - s.sum <= ErrorBoundTo(bounds, raw, |bounds|)
    {
      ArtificialSumError(bounds, raw, obs);
    }
  }

  lemma AllSumsAreNear(sent: seq<Sent>, bounds: seq<real>, rows: seq<Row>, width: nat)
    requires bounds != [] && BoundTable(bounds) && Wide(rows, width) && EachOnce(sent, width, Nodes(rows))
    requires forall i :: 0 <= i < |sent| ==> HistogramOf(sent[i], bounds, rows)
    ensures forall i :: 0 <= i < |sent| ==> SumIsNear(sent[i], bounds, rows)
  {
    forall i | 0 <= i < |sent| ensures SumIsNear(sent[i], bounds, rows) {
      SentSumIsNear(sent[i], bounds, rows);
    }
  }

  lemma SentCountsItsColumn(s: Sent, bounds: seq<real>, rows: seq<Row>, width: nat)
    requires bounds != [] && Increasing(bounds) && s.column < width && Wide(rows, width) && Clean(rows, bounds, width)
    requires HistogramOf(s, bounds, rows)
    ensures CountsItsColumn(s, bounds, rows)
  {
    BucketsAreTheTableIff(bounds, rows, s.column, s.nodeID);
    HistogramCountsTheColumn(bounds, rows, s.column, s.nodeID, 0);
    forall i | 0 < i < |bounds|
      ensures Get(s.buckets.counts, bounds[i - 1]) <= Get(s.buckets.counts, bounds[i])
    {
      HistogramCountsTheColumn(bounds, rows, s.column, s.nodeID, i);
    }
  }

  lemma AllCountTheirColumns(sent: seq<Sent>, bounds: seq<real>, rows: seq<Row>, width: nat)
    requires bounds != [] && Increasing(bounds) && Wide(rows, width) && EachOnce(sent, width, Nodes(rows))
    requires forall i :: 0 <= i < |sent| ==> HistogramOf(sent[i], bounds, rows)
    ensures Clean(rows, bounds, width) ==> forall i :: 0 <= i < |sent| ==> CountsItsColumn(sent[i], bounds, rows)
  {
    if Clean(rows, bounds, width) {
      forall i | 0 <= i < |sent| ensures CountsItsColumn(sent[i], bounds, rows) {
        SentCountsItsColumn(sent[i], bounds, rows, width);
      }
    }
  }

  /** Ten histograms per node over the 32 bounds; for clean rows each one counts exactly its own raw column. */
  method ScrapeTC(rows: seq<Row>, scanFails: bool) returns (ok: bool, sent: seq<Sent>)
    requires Wide(rows, TC_COLUMNS)
    ensures ok <==> !scanFails
    ensures !ok ==> sent == []
    ensures ok ==> EachOnce(sent, TC_COLUMNS, Nodes(rows)) && |sent| == 10 * |Nodes(rows)|
    ensures ok ==> forall i :: 0 <= i < |sent| ==> HistogramOf(sent[i], TC_BOUNDS, rows)
    ensures ok ==> forall i :: 0 <= i < |sent| ==> SumIsNear(sent[i], TC_BOUNDS, rows)
    ensures Clean(rows, TC_BOUNDS, TC_COLUMNS) ==>
              forall i :: 0 <= i < |sent| ==> CountsItsColumn(sent[i], TC_BOUNDS, rows)
  {
    ok, sent := Scrape(TC_BOUNDS, TC_COLUMNS, rows, scanFails);
    TablesIncrease();
    if ok {
      AllCountTheirColumns(sent, TC_BOUNDS, rows, TC_COLUMNS);
      AllSumsAreNear(sent, TC_BOUNDS, rows, TC_COLUMNS);
    }
  }

  /** Four histograms per node over the 20 bounds; for clean rows each one counts exactly its own raw column. */
  method ScrapePGMAN(rows: seq<Row>, scanFails: bool) returns (ok: bool, sent: seq<Sent>)
    requires Wide(rows, PGMAN_COLUMNS)
    ensures ok <==> !scanFails
    ensures !ok ==> sent == []
    ensures ok ==> EachOnce(sent, PGMAN_COLUMNS, Nodes(rows)) && |sent| == 4 * |Nodes(rows)|
    ensures ok ==> forall i :: 0 <= i < |sent| ==> HistogramOf(sent[i], PGMAN_BOUNDS, rows)
    ensures ok ==> forall i :: 0 <= i < |sent| ==> SumIsNear(sent[i], PGMAN_BOUNDS, rows)
    ensures Clean(rows, PGMAN_BOUNDS, PGMAN_COLUMNS) ==>
              forall i :: 0 <= i < |sent| ==> CountsItsColumn(sent[i], PGMAN_BOUNDS, rows)
  {
    ok, sent := Scrape(PGMAN_BOUNDS, PGMAN_COLUMNS, rows, scanFails);
    TablesIncrease();
    if ok {
      AllCountTheirColumns(sent, PGMAN_BOUNDS, rows, PGMAN_COLUMNS);
      AllSumsAreNear(sent, PGMAN_BOUNDS, rows, PGMAN_COLUMNS);
    }
  }
}
