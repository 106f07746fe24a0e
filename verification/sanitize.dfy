/**
 The two sanitizers, which turn server texts into label values and metric names by
 running one ReplaceAll per entry of a map, in whatever order the map is ranged over.
 */
module Sanitize {
  import opened Sequences
  import opened Text

  type Replacements = map<char, string>

  const STATE_REPLACEMENTS: Replacements :=
    map[';' := "", ',' := "", ':' := "", '.' := "", '(' := "", ')' := "", ' ' := "_", '-' := "_"]

  const TOKUDB_REPLACEMENTS: Replacements :=
    map['>' := "", ',' := "", ':' := "", '(' := "", ')' := "", ' ' := "_", '-' := "_", '+' := "and", '/' := "and"]

  /** No replacement text contains a character that is itself replaced. */
  ghost predicate Inert(m: Replacements) {
    forall k, c :: k in m && c in m[k] ==> c !in m
  }

  lemma BothInert()
    ensures Inert(STATE_REPLACEMENTS) && Inert(TOKUDB_REPLACEMENTS)
  {
    forall k, c | k in STATE_REPLACEMENTS && c in STATE_REPLACEMENTS[k] ensures c !in STATE_REPLACEMENTS {
      assert STATE_REPLACEMENTS[k] == "_";
    }
    TokudbInert();
  }

  lemma TokudbInert()
    ensures Inert(TOKUDB_REPLACEMENTS)
  {
    forall k, c | k in TOKUDB_REPLACEMENTS && c in TOKUDB_REPLACEMENTS[k] ensures c !in TOKUDB_REPLACEMENTS {
      assert TOKUDB_REPLACEMENTS[k] == "_" || TOKUDB_REPLACEMENTS[k] == "and";
    }
  }

  /** One left-to-right pass: each character that is a key becomes its text. */
  function Substitute(m: Replacements, s: string): string {
    if s == "" then "" else Substitute(m, Init(s)) + (if Last(s) in m then m[Last(s)] else [Last(s)])
  }

  /** One ReplaceAll per key, in the given order. */
  function ReplaceInOrder(m: Replacements, order: seq<char>, s: string): string
    requires forall k :: k in order ==> k in m
  {
    if order == [] then s else ReplaceAll(ReplaceInOrder(m, Init(order), s), Last(order), m[Last(order)])
  }

  /** After substituting some keys, replacing one more is substituting that one as well. */
  lemma {:induction false} SubstituteOneMore(m: Replacements, done: Replacements, k: char, s: string)
    requires Inert(m) && k in m && k !in done && forall c :: c in done ==> c in m && done[c] == m[c]
    ensures ReplaceAll(Substitute(done, s), k, m[k]) == Substitute(done[k := m[k]], s)
  {
    if s != "" {
      SubstituteOneMore(m, done, k, Init(s));
      var one := if Last(s) in done then done[Last(s)] else [Last(s)];
      ReplaceAllConcat(Substitute(done, Init(s)), one, k, m[k]);
      if Last(s) in done {
        ReplaceNothing(one, k, m[k]);
      } else {
        assert [Last(s)] == "" + [Last(s)];
        ReplaceNext("", Last(s), k, m[k]);
      }
    }
  }

  lemma {:induction false} SubstituteWithoutKeys(m: Replacements, s: string)
    requires forall c :: c in s ==> c !in m
    ensures Substitute(m, s) == s
  {
    if s != "" {
      assert s == Init(s) + [Last(s)];
      SubstituteWithoutKeys(m, Init(s));
    }
  }

  function Only(m: Replacements, order: seq<char>): Replacements {
    map k | k in m && k in order :: m[k]
  }

  lemma {:induction false} OrderPrefix(m: Replacements, order: seq<char>, s: string)
    requires Inert(m) && forall k :: k in order ==> k in m
    requires forall i, j :: 0 <= i < j < |order| ==> order[i] != order[j]
    ensures ReplaceInOrder(m, order, s) == Substitute(Only(m, order), s)
  {
    if order == [] {
      SubstituteWithoutKeys(Only(m, order), s);
    } else {
      OrderPrefix(m, Init(order), s);
      assert order == Init(order) + [Last(order)];
      SubstituteOneMore(m, Only(m, Init(order)), Last(order), s);
      assert Only(m, order) == Only(m, Init(order))[Last(order) := m[Last(order)]];
    }
  }

  /** Every order in which the keys can be visited gives the one-pass substitution. */
  lemma AnyOrderSubstitutes(m: Replacements, order: seq<char>, s: string)
    requires Inert(m) && Enumerates(order, m.Keys)
    ensures ReplaceInOrder(m, order, s) == Substitute(m, s)
  {
    OrderPrefix(m, order, s);
    assert Only(m, order) == m;
  }

  lemma {:induction false} SubstituteLeavesNoKey(m: Replacements, s: string)
    requires Inert(m)
    ensures forall c :: c in Substitute(m, s) ==> c !in m
  {
    if s != "" {
      SubstituteLeavesNoKey(m, Init(s));
    }
  }

  /** The loop both sanitizers share: the next key is any key not yet visited. */
  method ReplaceEach(replacements: Replacements, s: string) returns (r: string)
    requires Inert(replacements)
    ensures r == Substitute(replacements, s)
  {
    r := s;
    var remaining := replacements.Keys;
    SubstituteWithoutKeys(replacements - remaining, s);
    while remaining != {}
      invariant remaining <= replacements.Keys
      invariant r == Substitute(replacements - remaining, s)
    {
      var k :| k in remaining;
      SubstituteOneMore(replacements, replacements - remaining, k, s);
      assert replacements - (remaining - {k}) == (replacements - remaining)[k := replacements[k]];
      r := ReplaceAll(r, k, replacements[k]);
      remaining := remaining - {k};
    }
    assert replacements - {} == replacements;
  }

  // ------------------------------------------------------------ the sanitizers

  function LowerChar(c: char): char {
    if 'A' <= c <= 'Z' then (c as int + 32) as char else c
  }

  /** Lower-casing of ASCII letters. */
  function Lower(s: string): string {
    seq(|s|, i requires 0 <= i < |s| => LowerChar(s[i]))
  }

  function OrUnknown(state: string): string {
    if state == "" then "unknown" else state
  }

  function SanitizedState(state: string): string {
    Substitute(STATE_REPLACEMENTS, Lower(OrUnknown(state)))
  }

  method SanitizeState(state: string) returns (r: string)
    ensures r == SanitizedState(state)
    ensures forall c :: c in r ==> c !in STATE_REPLACEMENTS && LowerChar(c) == c
  {
    BothInert();
    r := OrUnknown(state);
    SubstituteStaysLower(r);
    r := Lower(r);
    SubstituteLeavesNoKey(STATE_REPLACEMENTS, r);
    r := ReplaceEach(STATE_REPLACEMENTS, r);
  }

  method SanitizeTokudbMetric(metricName: string) returns (r: string)
    ensures r == Substitute(TOKUDB_REPLACEMENTS, metricName)
    ensures forall c :: c in r ==> c !in TOKUDB_REPLACEMENTS
  {
    BothInert();
    SubstituteLeavesNoKey(TOKUDB_REPLACEMENTS, metricName);
    r := ReplaceEach(TOKUDB_REPLACEMENTS, metricName);
  }

  predicate IsLower(s: string) {
    forall c :: c in s ==> LowerChar(c) == c
  }

  lemma LowerIsLower(s: string)
    ensures IsLower(Lower(s))
    ensures IsLower(s) ==> Lower(s) == s
  {
    forall c | c in Lower(s) ensures LowerChar(c) == c {
      var i :| 0 <= i < |s| && Lower(s)[i] == c;
    }
    if IsLower(s) {
      assert forall i :: 0 <= i < |s| ==> s[i] in s;
    }
  }

  lemma {:induction false} SubstituteStaysLower(s: string)
    ensures IsLower(Substitute(STATE_REPLACEMENTS, Lower(s)))
  {
    LowerIsLower(s);
    SubstituteKeepsLower(Lower(s));
  }

  lemma {:induction false} SubstituteKeepsLower(s: string)
    requires IsLower(s)
    ensures IsLower(Substitute(STATE_REPLACEMENTS, s))
  {
    if s != "" {
      assert s == Init(s) + [Last(s)];
      SubstituteKeepsLower(Init(s));
    }
  }

  // ---------------------------------------------- character by character

  const CAPITALS: string := "ABCDEFGHIJKLMNOPQRSTUVWXYZ"
  const SMALL: string := "abcdefghijklmnopqrstuvwxyz"

  /** The i-th capital becomes the i-th small letter; everything else stays. */
  lemma LowerByAlphabet(c: char, i: nat)
    ensures |CAPITALS| == 26 == |SMALL|
    ensures i < 26 ==> LowerChar(CAPITALS[i]) == SMALL[i] && 'a' <= SMALL[i] <= 'z'
    ensures c !in CAPITALS ==> LowerChar(c) == c
  {
    Alphabets(i);
    if 'A' <= c <= 'Z' {
      Alphabets(c as int - 'A' as int);
    }
  }

  lemma Alphabets(i: nat)
    ensures |CAPITALS| == 26 == |SMALL|
    ensures i < 26 ==> CAPITALS[i] == ('A' as int + i) as char && SMALL[i] == ('a' as int + i) as char
  {
  }

  lemma SubstituteNext(m: Replacements, s: string, c: char)
    ensures Substitute(m, s + [c]) == Substitute(m, s) + (if c in m then m[c] else [c])
  {
    assert Init(s + [c]) == s;
  }

  lemma {:induction false} SubstituteConcat(m: Replacements, x: string, y: string)
    ensures Substitute(m, x + y) == Substitute(m, x) + Substitute(m, y)
  {
    if y == "" {
      assert x + y == x;
    } else {
      SubstituteConcat(m, x, Init(y));
      assert x + y == (x + Init(y)) + [Last(y)];
      SubstituteNext(m, x + Init(y), Last(y));
      ConcatAssociative(Substitute(m, x), Substitute(m, Init(y)), if Last(y) in m then m[Last(y)] else [Last(y)]);
    }
  }

  lemma SubstituteOne(m: Replacements, c: char)
    ensures Substitute(m, [c]) == if c in m then m[c] else [c]
  {
    assert Init([c]) == "";
  }

  /** Sanitizing a state sanitizes its parts, as long as neither part is empty. */
  lemma SanitizeConcat(x: string, y: string)
    requires x != "" && y != ""
    ensures SanitizedState(x + y) == SanitizedState(x) + SanitizedState(y)
  {
    assert Lower(x + y) == Lower(x) + Lower(y);
    SubstituteConcat(STATE_REPLACEMENTS, Lower(x), Lower(y));
  }

  lemma SanitizeOne(c: char)
    ensures SanitizedState([c]) ==
            if LowerChar(c) in STATE_REPLACEMENTS then STATE_REPLACEMENTS[LowerChar(c)] else [LowerChar(c)]
  {
    assert Lower([c]) == [LowerChar(c)];
    SubstituteOne(STATE_REPLACEMENTS, LowerChar(c));
  }

  /** A capital letter becomes the small one. */
  lemma SanitizeCapital(i: nat)
    requires i < |CAPITALS|
    ensures |SMALL| == |CAPITALS| && SanitizedState([CAPITALS[i]]) == [SMALL[i]]
  {
    LowerByAlphabet(CAPITALS[i], i);
    SanitizeOne(CAPITALS[i]);
    assert 'a' <= SMALL[i] <= 'z';
  }

  /** What any other character becomes; with SanitizeConcat and SanitizeCapital, what every state becomes. */
  lemma SanitizeCharacter(c: char)
    requires c !in CAPITALS
    ensures SanitizedState([c]) == if c in ";,:.()" then "" else if c in " -" then "_" else [c]
  {
    LowerByAlphabet(c, 0);
    SanitizeOne(c);
  }

  /** The same two laws for the TokuDB sanitizer, which has no special case for an empty text. */
  lemma TokudbCharacterwise(x: string, y: string, c: char)
    ensures Substitute(TOKUDB_REPLACEMENTS, x + y) ==
            Substitute(TOKUDB_REPLACEMENTS, x) + Substitute(TOKUDB_REPLACEMENTS, y)
    ensures Substitute(TOKUDB_REPLACEMENTS, "") == ""
    ensures Substitute(TOKUDB_REPLACEMENTS, [c]) ==
            if c in ">,:()" then "" else if c in " -" then "_" else if c in "+/" then "and" else [c]
  {
    SubstituteConcat(TOKUDB_REPLACEMENTS, x, y);
    TokudbCharacter(c);
  }

  lemma TokudbCharacter(c: char)
    ensures Substitute(TOKUDB_REPLACEMENTS, [c]) ==
            if c in ">,:()" then "" else if c in " -" then "_" else if c in "+/" then "and" else [c]
  {
    SubstituteOne(TOKUDB_REPLACEMENTS, c);
  }

  /** A character that leaves something behind: not one of the six that are deleted. */
  predicate Survives(c: char) {
    c !in STATE_REPLACEMENTS || STATE_REPLACEMENTS[c] != ""
  }

  lemma {:induction false} EmptyIff(s: string)
    ensures Substitute(STATE_REPLACEMENTS, s) != "" <==> exists c :: c in s && Survives(c)
  {
    if s != "" {
      var init, last := Init(s), Last(s);
      assert s == init + [last];
      EmptyIff(init);
      assert (exists c :: c in s && Survives(c)) <==> Survives(last) || exists c :: c in init && Survives(c) by {
        assert last in s;
      }
    }
  }

  /** A non-empty sanitized text has nothing left to sanitize. */
  lemma SanitizedIsFixed(state: string)
    requires SanitizedState(state) != ""
    ensures SanitizedState(SanitizedState(state)) == SanitizedState(state)
  {
    var once := SanitizedState(state);
    BothInert();
    SubstituteLeavesNoKey(STATE_REPLACEMENTS, Lower(OrUnknown(state)));
    SubstituteStaysLower(OrUnknown(state));
    LowerIsLower(once);
    SubstituteWithoutKeys(STATE_REPLACEMENTS, once);
  }

  lemma SanitizedEmptyIff(state: string)
    ensures SanitizedState(state) != "" <==> state == "" || exists c :: c in state && Survives(c)
  {
    EmptyIff(Lower(OrUnknown(state)));
    LowerSurvives(OrUnknown(state));
    if state == "" {
      assert OrUnknown(state)[0] == 'u' && Survives('u');
    }
  }

  /**
   Sanitizing again changes nothing exactly when the state was empty or has a character
   that survives; a state of deleted characters only becomes "", and "" becomes "unknown".
   */
  lemma SanitizeStateIdempotentIff(state: string)
    ensures SanitizedState(SanitizedState(state)) == SanitizedState(state) <==>
            state == "" || exists c :: c in state && Survives(c)
  {
    SanitizedEmptyIff(state);
    if SanitizedState(state) == "" {
      SanitizedEmptyIff(SanitizedState(state));
    } else {
      SanitizedIsFixed(state);
    }
  }

  lemma LowerSurvives(s: string)
    ensures (exists c :: c in s && Survives(c)) <==> exists c :: c in Lower(s) && Survives(c)
  {
    if c :| c in s && Survives(c) {
      var i :| 0 <= i < |s| && s[i] == c;
      assert Lower(s)[i] in Lower(s) && Survives(LowerChar(c));
    }
    if c :| c in Lower(s) && Survives(c) {
      var i :| 0 <= i < |s| && Lower(s)[i] == c;
      assert s[i] in s && Survives(s[i]);
    }
  }

  /** A state of one deleted character: sanitized once it is empty, twice it is "unknown". */
  lemma DeletedStateIsNotFixed()
    ensures SanitizedState(";") == "" && SanitizedState("") == "unknown"
  {
    SanitizeOne(';');
    assert ";" == [';'];
    Unknown();
  }

  lemma Unknown()
    ensures SanitizedState("") == "unknown"
  {
    assert Lower("unknown") == "unknown";
    SubstituteWithoutKeys(STATE_REPLACEMENTS, "unknown");
  }
}
