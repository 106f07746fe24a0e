/** The list of schema names that the events-statements query excludes, as SQL string literals. */
module ExcludedSchemas {
  import opened Outcomes
  import opened Sequences
  import opened Text

  const DEFAULTS: seq<string> := ["mysql", "performance_schema", "information_schema"]

  const DEFAULT_LITERALS: seq<string> := ["'mysql'", "'performance_schema'", "'information_schema'"]

  function Doubled(name: string): string {
    ReplaceAll(name, '\'', "''")
  }

  /** A name as a literal: in single quotes, with inner quotes doubled. */
  function Quote(name: string): string {
    "'" + Doubled(name) + "'"
  }

  function QuoteAll(names: seq<string>): seq<string> {
    seq(|names|, i requires 0 <= i < |names| => Quote(names[i]))
  }

  /** Each name once, where it first occurs. */
  function FirstOccurrences(names: seq<string>): seq<string> {
    if names == [] then []
    else if Last(names) in Init(names) then FirstOccurrences(Init(names))
    else FirstOccurrences(Init(names)) + [Last(names)]
  }

  // ------------------------------------------------- reading the list back

  /** The text after an opening quote: a literal's characters up to its closing quote, and what follows it. */
  function ReadLiteral(s: string): (r: Option<(string, string)>)
    ensures r.Some? ==> |r.value.1| < |s|
  {
    if s == "" then None
    else if s[0] != '\'' then
      match ReadLiteral(s[1..])
      case None => None
      case Some((name, rest)) => Some(([s[0]] + name, rest))
    else if |s| > 1 && s[1] == '\'' then
      match ReadLiteral(s[2..])
      case None => None
      case Some((name, rest)) => Some(("'" + name, rest))
    else Some(("", s[1..]))
  }

  /** A list of character string literals (section 5.3 of ISO/IEC 9075-2) separated by a comma and a space. */
  function ReadList(s: string): Option<seq<string>>
    decreases |s|
  {
    if s == "" || s[0] != '\'' then None
    else
      match ReadLiteral(s[1..])
      case None => None
      case Some((name, rest)) =>
        if rest == "" then Some([name])
        else if |rest| >= 2 && rest[..2] == ", " then
          match ReadList(rest[2..])
          case None => None
          case Some(names) => Some([name] + names)
        else None
  }

  lemma DoubledFirst(c: char, s: string)
    ensures Doubled([c] + s) == (if c == '\'' then "''" else [c]) + Doubled(s)
  {
    ReplaceAllConcat([c], s, '\'', "''");
    assert [c] == "" + [c];
    ReplaceNext("", c, '\'', "''");
  }

  lemma ReadPlain(c: char, s: string)
    requires c != '\''
    ensures ReadLiteral([c] + s) ==
            match ReadLiteral(s)
            case None => None
            case Some((name, rest)) => Some(([c] + name, rest))
  {
    assert ([c] + s)[1..] == s;
  }

  lemma ReadDoubled(s: string)
    ensures ReadLiteral("''" + s) ==
            match ReadLiteral(s)
            case None => None
            case Some((name, rest)) => Some(("'" + name, rest))
  {
    assert ("''" + s)[2..] == s;
  }

  /** A quoted name reads back as itself, whatever characters it has, if no quote follows it. */
  lemma {:induction false} ReadQuoted(name: string, rest: string)
    requires rest == "" || rest[0] != '\''
    ensures ReadLiteral(Doubled(name) + ("'" + rest)) == Some((name, rest))
  {
    if name == "" {
      assert Doubled("") + ("'" + rest) == "'" + rest;
      assert ("'" + rest)[1..] == rest;
    } else {
      var c, tail := name[0], name[1..];
      var one := if c == '\'' then "''" else [c];
      assert name == [c] + tail;
      DoubledFirst(c, tail);
      ReadQuoted(tail, rest);
      ConcatAssociative(one, Doubled(tail), "'" + rest);
      if c == '\'' {
        ReadDoubled(Doubled(tail) + ("'" + rest));
      } else {
        ReadPlain(c, Doubled(tail) + ("'" + rest));
      }
    }
  }

  lemma {:induction false} JoinFirst(parts: seq<string>, sep: string)
    requires |parts| > 1
    ensures Join(parts, sep) == parts[0] + sep + Join(parts[1..], sep)
  {
    if |parts| > 2 {
      var middle := Init(parts)[1..];
      JoinFirst(Init(parts), sep);
      assert middle == Init(parts[1..]);
      BehindFirst(parts[0], sep, Join(middle, sep), Last(parts));
    } else {
      assert Init(parts) == [parts[0]] && parts[1..] == [parts[1]];
    }
  }

  lemma BehindFirst(first: string, sep: string, middle: string, last: string)
    ensures (first + sep + middle) + sep + last == first + sep + (middle + sep + last)
  {
  }

  lemma ReadFirst(name: string, rest: string)
    requires rest == "" || rest[0] != '\''
    ensures var s := Quote(name) + rest;
            s != "" && s[0] == '\'' && ReadLiteral(s[1..]) == Some((name, rest))
  {
    ReadQuoted(name, rest);
    assert (Quote(name) + rest)[1..] == Doubled(name) + ("'" + rest);
  }

  lemma ReadMore(name: string, tail: string, names: seq<string>)
    requires ReadList(tail) == Some(names)
    ensures ReadList(Quote(name) + (", " + tail)) == Some([name] + names)
  {
    var rest := ", " + tail;
    assert rest[2..] == tail && rest[..2] == ", ";
    ReadFirst(name, rest);
  }

  /** Reading the joined literals returns the names, for every list of names. */
  lemma {:induction false} ReadJoined(names: seq<string>)
    requires names != []
    ensures ReadList(Join(QuoteAll(names), ", ")) == Some(names)
  {
    var name := names[0];
    if |names| == 1 {
      ReadFirst(name, "");
      assert Quote(name) + "" == Quote(name);
      assert names == [name];
    } else {
      var tail := Join(QuoteAll(names[1..]), ", ");
      assert QuoteAll(names)[1..] == QuoteAll(names[1..]);
      JoinFirst(QuoteAll(names), ", ");
      ConcatAssociative(Quote(name), ", ", tail);
      ReadJoined(names[1..]);
      ReadMore(name, tail, names[1..]);
      assert names == [name] + names[1..];
    }
  }

  lemma QuoteInjective(a: string, b: string)
    requires Quote(a) == Quote(b)
    ensures a == b
  {
    ReadFirst(a, "");
    ReadFirst(b, "");
    assert Quote(a) + "" == Quote(b) + "";
  }

  // ---------------------------------------------------------------- building

  lemma {:induction false} FirstOccurrencesHas(names: seq<string>, name: string)
    ensures name in FirstOccurrences(names) <==> name in names
  {
    if names != [] {
      FirstOccurrencesHas(Init(names), name);
      assert names == Init(names) + [Last(names)];
    }
  }

  /** No name twice, and the earlier a name first occurs, the earlier it stands. */
  lemma {:induction false} FirstOccurrencesOnce(names: seq<string>, n: nat)
    requires n <= |names|
    ensures forall i, j :: 0 <= i < j < |FirstOccurrences(names)| ==>
              FirstOccurrences(names)[i] != FirstOccurrences(names)[j]
    ensures FirstOccurrences(names[..n]) <= FirstOccurrences(names)
  {
    if names != [] {
      FirstOccurrencesOnce(Init(names), if n < |names| then n else n - 1);
      FirstOccurrencesHas(Init(names), Last(names));
      if n < |names| {
        assert Init(names)[..n] == names[..n];
      } else {
        assert names[..n] == names;
      }
    }
  }

  lemma QuotedHas(names: seq<string>, name: string)
    ensures Quote(name) in QuoteAll(FirstOccurrences(names)) <==> name in names
  {
    var firsts := FirstOccurrences(names);
    FirstOccurrencesHas(names, name);
    if name in firsts {
      var i :| 0 <= i < |firsts| && firsts[i] == name;
      assert QuoteAll(firsts)[i] == Quote(name);
    }
    if Quote(name) in QuoteAll(firsts) {
      var i :| 0 <= i < |firsts| && QuoteAll(firsts)[i] == Quote(name);
      QuoteInjective(firsts[i], name);
    }
  }

  lemma DefaultsAreDistinct()
    ensures FirstOccurrences(DEFAULTS) == DEFAULTS
  {
    assert Init(DEFAULTS) == ["mysql", "performance_schema"] && Init(["mysql", "performance_schema"]) == ["mysql"];
    assert FirstOccurrences(["mysql"]) == ["mysql"];
    assert "performance_schema"[0] != "mysql"[0] && "information_schema"[0] != "mysql"[0];
    assert "information_schema"[0] != "performance_schema"[0];
  }

  predicate PlainLiteral(name: string, literal: string) {
    literal == "'" + name + "'" && '\'' !in name
  }

  lemma QuotePlain(names: seq<string>, literals: seq<string>)
    requires |names| == |literals| && forall i :: 0 <= i < |names| ==> PlainLiteral(names[i], literals[i])
    ensures QuoteAll(names) == literals
  {
    forall i | 0 <= i < |names| ensures Quote(names[i]) == literals[i] {
      ReplaceNothing(names[i], '\'', "''");
    }
  }

  lemma DefaultsQuoted()
    ensures QuoteAll(DEFAULTS) == DEFAULT_LITERALS
  {
    assert PlainLiteral("mysql", "'mysql'");
    assert PlainLiteral("performance_schema", "'performance_schema'");
    assert PlainLiteral("information_schema", "'information_schema'");
    QuotePlain(DEFAULTS, DEFAULT_LITERALS);
  }

  /** What the loop does with one more name. */
  lemma NextName(names: seq<string>, name: string)
    ensures var before := QuoteAll(FirstOccurrences(names));
            QuoteAll(FirstOccurrences(names + [name])) ==
            if Quote(name) in before then before else before + [Quote(name)]
  {
    assert Init(names + [name]) == names;
    QuotedHas(names, name);
  }

  lemma ReadBack(defaults: seq<string>, extra: seq<string>)
    requires defaults != []
    ensures var list := ReadList(Join(QuoteAll(FirstOccurrences(defaults + extra)), ", "));
            && list == Some(FirstOccurrences(defaults + extra))
            && (forall i, j :: 0 <= i < j < |list.value| ==> list.value[i] != list.value[j])
            && forall name :: name in list.value <==> name in defaults || name in extra
  {
    var names := defaults + extra;
    FirstOccurrencesHas(names, names[0]);
    ReadJoined(FirstOccurrences(names));
    FirstOccurrencesOnce(names, 0);
    forall name ensures name in FirstOccurrences(names) <==> name in defaults || name in extra {
      FirstOccurrencesHas(names, name);
    }
  }

  /**
   The list reads back as the three defaults followed by the first occurrence of each
   extra name that is not one of them, whatever characters the names contain.
   */
  method BuildExcludedSchemasList(extraSchemas: seq<string>) returns (list: string)
    ensures ReadList(list) == Some(FirstOccurrences(DEFAULTS + extraSchemas))
    ensures DEFAULTS <= FirstOccurrences(DEFAULTS + extraSchemas)
    ensures forall i, j :: 0 <= i < j < |ReadList(list).value| ==> ReadList(list).value[i] != ReadList(list).value[j]
    ensures forall name :: name in ReadList(list).value <==> name in DEFAULTS || name in extraSchemas
  {
    var excludedSchemas := DEFAULT_LITERALS;
    StartsWithDefaults(extraSchemas);
    for i := 0 to |extraSchemas|
      invariant excludedSchemas == QuoteAll(FirstOccurrences(DEFAULTS + extraSchemas[..i]))
    {
      MoreExtra(DEFAULTS, extraSchemas, i);
      var escaped := "'" + ReplaceAll(extraSchemas[i], '\'', "''") + "'";
      if escaped !in excludedSchemas {
        excludedSchemas := excludedSchemas + [escaped];
      }
    }
    assert extraSchemas[..|extraSchemas|] == extraSchemas;
    list := Join(excludedSchemas, ", ");
    ReadBack(DEFAULTS, extraSchemas);
  }

  lemma StartsWithDefaults(extra: seq<string>)
    ensures DEFAULT_LITERALS == QuoteAll(FirstOccurrences(DEFAULTS + extra[..0]))
    ensures DEFAULTS <= FirstOccurrences(DEFAULTS + extra)
  {
    DefaultsQuoted();
    DefaultsAreDistinct();
    FirstOccurrencesOnce(DEFAULTS + extra, |DEFAULTS|);
    assert DEFAULTS + extra[..0] == DEFAULTS == (DEFAULTS + extra)[..|DEFAULTS|];
  }

  lemma MoreExtra(defaults: seq<string>, extra: seq<string>, i: nat)
    requires i < |extra|
    ensures var before := QuoteAll(FirstOccurrences(defaults + extra[..i]));
            QuoteAll(FirstOccurrences(defaults + extra[..i + 1])) ==
            if Quote(extra[i]) in before then before else before + [Quote(extra[i])]
  {
    SliceNext(defaults, extra, i);
    NextName(defaults + extra[..i], extra[i]);
  }

  lemma SliceNext(defaults: seq<string>, extra: seq<string>, i: nat)
    requires i < |extra|
    ensures defaults + extra[..i + 1] == (defaults + extra[..i]) + [extra[i]]
  {
  }
}
