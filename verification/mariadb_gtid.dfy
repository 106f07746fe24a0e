/** The MariaDB GTID positions of the slave-status collector: "domain-server-sequence", comma-separated. */
module MariaDBGtid {
  import opened Words
  import opened Outcomes
  import opened Sequences
  import opened Text

  datatype Gtid = Gtid(domainID: string, serverID: string, sequence: nat)

  /** An unsigned 64-bit decimal: digits only, and not above 2^64 - 1. */
  function ParseUint64(s: string): Option<nat> {
    if IsNumber(s) && Value(s) < TWO_64 then Some(Value(s)) else None
  }

  /** One entry: no metric at all unless it has three parts and the last is a number. */
  function ParseEntry(entry: string): seq<Gtid> {
    var parts := Split(entry, '-');
    if |parts| != 3 then []
    else
      match ParseUint64(parts[2])
      case None => []
      case Some(n) => [Gtid(parts[0], parts[1], n)]
  }

  function ParseEntries(entries: seq<string>): seq<Gtid> {
    if entries == [] then [] else ParseEntries(Init(entries)) + ParseEntry(Last(entries))
  }

  function Parse(value: string): seq<Gtid> {
    if value == "" then [] else ParseEntries(Split(value, ','))
  }

  /** The loop that sends one metric per well-formed entry. */
  method ParseMariaDBGtid(value: string) returns (ch: seq<Gtid>)
    ensures ch == Parse(value)
  {
    ch := [];
    if value == "" {
      return;
    }
    var entries := Split(value, ',');
    for i := 0 to |entries|
      invariant ch == ParseEntries(entries[..i])
    {
      assert Init(entries[..i + 1]) == entries[..i];
      var parts := Split(entries[i], '-');
      if |parts| != 3 {
        continue;
      }
      var sequence := ParseUint64(parts[2]);
      if sequence.None? {
        continue;
      }
      ch := ch + [Gtid(parts[0], parts[1], sequence.value)];
    }
    assert entries[..|entries|] == entries;
  }

  lemma ParseNext(entries: seq<string>, entry: string)
    ensures ParseEntries(entries + [entry]) == ParseEntries(entries) + ParseEntry(entry)
  {
    assert Init(entries + [entry]) == entries;
  }

  lemma {:induction false} ParseEntriesConcat(xs: seq<string>, ys: seq<string>)
    ensures ParseEntries(xs + ys) == ParseEntries(xs) + ParseEntries(ys)
  {
    if ys == [] {
      assert xs + ys == xs;
    } else {
      var init, last := Init(ys), Last(ys);
      ParseEntriesConcat(xs, init);
      assert ys == init + [last];
      ConcatAssociative(xs, init, [last]);
      ParseNext(xs + init, last);
      ConcatAssociative(ParseEntries(xs), ParseEntries(init), ParseEntry(last));
    }
  }

  lemma ParseWithoutGuard(value: string)
    ensures Parse(value) == ParseEntries(Split(value, ','))
  {
    if value == "" {
      assert Split("", ',') == [""] && Init([""]) == [] && Split("", '-') == [""];
    }
  }

  /** The parser is a homomorphism: an entry, however malformed, affects no other. */
  lemma ParseConcat(x: string, y: string)
    ensures Parse(x + "," + y) == Parse(x) + Parse(y)
  {
    SplitConcat(x, ',', y);
    ParseEntriesConcat(Split(x, ','), Split(y, ','));
    ParseWithoutGuard(x);
    ParseWithoutGuard(y);
    ParseWithoutGuard(x + "," + y);
  }

  /** A text without a comma is one entry. */
  lemma ParseSingle(entry: string)
    requires ',' !in entry
    ensures Parse(entry) == ParseEntry(entry)
  {
    SplitNothing(entry, ',');
    ParseWithoutGuard(entry);
    assert Init([entry]) == [];
  }

  // ------------------------------------------------------------- round trip

  function PrintEntry(g: Gtid): string {
    Join([g.domainID, g.serverID, Decimal(g.sequence)], "-")
  }

  function PrintEntries(gs: seq<Gtid>): seq<string> {
    seq(|gs|, i requires 0 <= i < |gs| => PrintEntry(gs[i]))
  }

  function Print(gs: seq<Gtid>): string {
    Join(PrintEntries(gs), ",")
  }

  predicate WellFormed(g: Gtid) {
    && ',' !in g.domainID && '-' !in g.domainID
    && ',' !in g.serverID && '-' !in g.serverID
    && g.sequence < TWO_64
  }

  lemma NumberHasNo(s: string, c: char)
    requires IsNumber(s) && !IsDigit(c)
    ensures c !in s
  {
  }

  lemma JoinThree(a: string, b: string, c: string, sep: string)
    ensures Join([a, b, c], sep) == a + sep + b + sep + c
  {
    var three, two := [a, b, c], [a, b];
    assert Init(three) == two && Last(three) == c;
    assert Init(two) == [a] && Last(two) == b;
    assert Join(two, sep) == a + sep + b;
  }

  lemma ParsePrintedEntry(g: Gtid)
    requires WellFormed(g)
    ensures ParseEntry(PrintEntry(g)) == [g]
    ensures ',' !in PrintEntry(g)
  {
    ValueOfDecimal(g.sequence);
    NumberHasNo(Decimal(g.sequence), '-');
    NumberHasNo(Decimal(g.sequence), ',');
    SplitJoin([g.domainID, g.serverID, Decimal(g.sequence)], '-');
    JoinThree(g.domainID, g.serverID, Decimal(g.sequence), "-");
  }

  lemma {:induction false} ParsePrintedEntries(gs: seq<Gtid>)
    requires forall g :: g in gs ==> WellFormed(g)
    ensures ParseEntries(PrintEntries(gs)) == gs
    ensures forall e :: e in PrintEntries(gs) ==> ',' !in e
  {
    if gs != [] {
      assert gs == Init(gs) + [Last(gs)];
      assert Init(PrintEntries(gs)) == PrintEntries(Init(gs));
      assert PrintEntries(gs) == PrintEntries(Init(gs)) + [PrintEntry(Last(gs))];
      ParsePrintedEntries(Init(gs));
      ParsePrintedEntry(Last(gs));
    }
  }

  lemma ParseEntrySound(entry: string, g: Gtid)
    requires ',' !in entry && g in ParseEntry(entry)
    ensures WellFormed(g)
  {
    SplitParts(entry, '-');
  }

  lemma {:induction false} ParseEntriesSound(entries: seq<string>)
    requires forall e :: e in entries ==> ',' !in e
    ensures forall g :: g in ParseEntries(entries) ==> WellFormed(g)
  {
    if entries != [] {
      assert entries == Init(entries) + [Last(entries)];
      ParseEntriesSound(Init(entries));
      forall g | g in ParseEntry(Last(entries)) ensures WellFormed(g) {
        ParseEntrySound(Last(entries), g);
      }
    }
  }

  /**
   An entry, whatever its text, yields at most one metric, and this one exactly if it is domain-server-number with
   two dashes in all and an unsigned 64-bit number.
   */
  lemma EntryParsesIff(entry: string, g: Gtid)
    ensures |ParseEntry(entry)| <= 1
    ensures ParseEntry(entry) == [g] <==> exists n :: Spells(entry, g, n)
  {
    if ParseEntry(entry) == [g] {
      ParsedIsSpelled(entry, g);
    }
    if n :| Spells(entry, g, n) {
      SpelledIsParsed(entry, g, n);
    }
  }

  lemma ParsedIsSpelled(entry: string, g: Gtid)
    requires ParseEntry(entry) == [g]
    ensures exists n :: Spells(entry, g, n)
  {
    var parts := Split(entry, '-');
    SplitParts(entry, '-');
    JoinSplit(entry, '-');
    JoinThree(parts[0], parts[1], parts[2], "-");
    assert parts == [parts[0], parts[1], parts[2]];
    assert Spells(entry, g, parts[2]);
  }

  lemma SpelledIsParsed(entry: string, g: Gtid, n: string)
    requires Spells(entry, g, n)
    ensures ParseEntry(entry) == [g]
  {
    NumberHasNo(n, '-');
    SplitJoin([g.domainID, g.serverID, n], '-');
    JoinThree(g.domainID, g.serverID, n, "-");
  }

  ghost predicate Spells(entry: string, g: Gtid, n: string) {
    && entry == g.domainID + "-" + g.serverID + "-" + n
    && '-' !in g.domainID && '-' !in g.serverID
    && IsNumber(n) && Value(n) == g.sequence < TWO_64
  }

  /** Whatever the text, every parsed triple has labels without comma or dash and a 64-bit sequence number. */
  lemma ParseSound(value: string)
    ensures forall g :: g in Parse(value) ==> WellFormed(g)
  {
    SplitParts(value, ',');
    ParseEntriesSound(Split(value, ','));
  }

  /**
   Printing and parsing gives a list back exactly when its labels have no comma or dash and its numbers fit in 64
   bits.
   */
  lemma RoundTripIff(gs: seq<Gtid>)
    ensures Parse(Print(gs)) == gs <==> forall g :: g in gs ==> WellFormed(g)
  {
    if forall g :: g in gs ==> WellFormed(g) {
      ParsePrintedEntries(gs);
      ParseWithoutGuard(Print(gs));
      if gs == [] {
        assert Print(gs) == "";
      } else {
        SplitJoin(PrintEntries(gs), ',');
      }
    } else {
      ParseSound(Print(gs));
    }
  }

  /** Printing what was parsed is a normal form: parsing it again finds the same triples. */
  lemma ParseNormalizes(value: string)
    ensures Parse(Print(Parse(value))) == Parse(value)
  {
    ParseSound(value);
    RoundTripIff(Parse(value));
  }
}
