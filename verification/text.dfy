/** The string operations the collectors use: splitting, joining, replacing, decimal numbers. */
module Text {
  import opened Sequences

  // --------------------------------------------------------- split and join

  function Split(s: string, sep: char): (parts: seq<string>)
    ensures |parts| >= 1
  {
    if s == "" then [""]
    else if Last(s) == sep then Split(Init(s), sep) + [""]
    else
      var parts := Split(Init(s), sep);
      Init(parts) + [Last(parts) + [Last(s)]]
  }

  function Join(parts: seq<string>, sep: string): string {
    if parts == [] then ""
    else if |parts| == 1 then parts[0]
    else Join(Init(parts), sep) + sep + Last(parts)
  }

  function SplitMore(parts: seq<string>, c: char, sep: char): seq<string>
    requires parts != []
  {
    if c == sep then parts + [""] else Init(parts) + [Last(parts) + [c]]
  }

  lemma SplitNext(s: string, c: char, sep: char)
    ensures Split(s + [c], sep) == SplitMore(Split(s, sep), c, sep)
  {
    assert Init(s + [c]) == s;
  }

  lemma SplitMoreConcat(xs: seq<string>, ys: seq<string>, c: char, sep: char)
    requires ys != []
    ensures SplitMore(xs + ys, c, sep) == xs + SplitMore(ys, c, sep)
  {
    assert Last(xs + ys) == Last(ys);
    assert Init(xs + ys) == xs + Init(ys);
  }

  lemma {:induction false} SplitConcat(x: string, sep: char, y: string)
    ensures Split(x + [sep] + y, sep) == Split(x, sep) + Split(y, sep)
  {
    if y == "" {
      assert x + [sep] + y == x + [sep];
      SplitNext(x, sep, sep);
    } else {
      var y', c := Init(y), Last(y);
      SplitConcat(x, sep, y');
      assert x + [sep] + y == (x + [sep] + y') + [c];
      SplitNext(x + [sep] + y', c, sep);
      SplitMoreConcat(Split(x, sep), Split(y', sep), c, sep);
    }
  }

  lemma {:induction false} SplitNothing(s: string, sep: char)
    requires sep !in s
    ensures Split(s, sep) == [s]
  {
    if s != "" {
      assert s == Init(s) + [Last(s)];
      SplitNothing(Init(s), sep);
    }
  }

  lemma {:induction false} SplitParts(s: string, sep: char)
    ensures forall p :: p in Split(s, sep) ==> sep !in p
    ensures forall p, c :: p in Split(s, sep) && c in p ==> c in s
  {
    if s != "" {
      SplitParts(Init(s), sep);
      assert s == Init(s) + [Last(s)];
      var parts := Split(Init(s), sep);
      assert parts == Init(parts) + [Last(parts)];
    }
  }

  lemma {:induction false} SplitJoin(parts: seq<string>, sep: char)
    requires parts != [] && forall p :: p in parts ==> sep !in p
    ensures Split(Join(parts, [sep]), sep) == parts
  {
    if |parts| == 1 {
      SplitNothing(parts[0], sep);
    } else {
      SplitJoin(Init(parts), sep);
      SplitConcat(Join(Init(parts), [sep]), sep, Last(parts));
      SplitNothing(Last(parts), sep);
      assert parts == Init(parts) + [Last(parts)];
    }
  }

  lemma JoinNext(parts: seq<string>, p: string, sep: string)
    requires parts != []
    ensures Join(parts + [p], sep) == Join(parts, sep) + sep + p
  {
    assert Init(parts + [p]) == parts;
  }

  /** Splitting loses nothing: the parts, joined again, are the text. */
  lemma {:induction false} JoinSplit(s: string, sep: char)
    ensures Join(Split(s, sep), [sep]) == s
  {
    if s != "" {
      var parts := Split(Init(s), sep);
      JoinSplit(Init(s), sep);
      assert s == Init(s) + [Last(s)] && parts == Init(parts) + [Last(parts)];
      if Last(s) == sep {
        JoinNext(parts, "", [sep]);
      } else {
        JoinGrows(Init(parts), Last(parts), Last(s), [sep]);
      }
    }
  }

  lemma JoinGrows(parts: seq<string>, p: string, c: char, sep: string)
    ensures Join(parts + [p + [c]], sep) == Join(parts + [p], sep) + [c]
  {
    if parts == [] {
      assert parts + [p + [c]] == [p + [c]] && parts + [p] == [p];
    } else {
      JoinNext(parts, p + [c], sep);
      JoinNext(parts, p, sep);
    }
  }

  // -------------------------------------------------------------- replacing

  /** Replace every occurrence of a one-character pattern. */
  function ReplaceAll(s: string, c: char, text: string): string {
    if s == "" then "" else ReplaceAll(Init(s), c, text) + (if Last(s) == c then text else [Last(s)])
  }

  lemma ReplaceNext(s: string, d: char, c: char, text: string)
    ensures ReplaceAll(s + [d], c, text) == ReplaceAll(s, c, text) + (if d == c then text else [d])
  {
    assert Init(s + [d]) == s;
  }

  lemma {:induction false} ReplaceAllConcat(x: string, y: string, c: char, text: string)
    ensures ReplaceAll(x + y, c, text) == ReplaceAll(x, c, text) + ReplaceAll(y, c, text)
  {
    if y == "" {
      assert x + y == x;
    } else {
      var y', d := Init(y), Last(y);
      ReplaceAllConcat(x, y', c, text);
      assert x + y == (x + y') + [d];
      ReplaceNext(x + y', d, c, text);
      var one := if d == c then text else [d];
      assert ReplaceAll(x, c, text) + (ReplaceAll(y', c, text) + one) ==
             (ReplaceAll(x, c, text) + ReplaceAll(y', c, text)) + one;
    }
  }

  lemma {:induction false} ReplaceNothing(s: string, c: char, text: string)
    requires c !in s
    ensures ReplaceAll(s, c, text) == s
  {
    if s != "" {
      assert s == Init(s) + [Last(s)];
      ReplaceNothing(Init(s), c, text);
    }
  }

  // --------------------------------------------------------------- decimals

  predicate IsDigit(c: char) {
    '0' <= c <= '9'
  }

  predicate IsNumber(s: string) {
    s != "" && forall c :: c in s ==> IsDigit(c)
  }

  function DigitValue(c: char): nat
    requires IsDigit(c)
  {
    c as int - '0' as int
  }

  function Digit(d: nat): char
    requires d < 10
  {
    ('0' as int + d) as char
  }

  const DIGITS: string := "0123456789"

  /** The ten digits, one by one. */
  lemma DigitsInOrder(d: nat, c: char)
    ensures |DIGITS| == 10 && (d < 10 ==> Digit(d) == DIGITS[d] && IsDigit(DIGITS[d]) && DigitValue(DIGITS[d]) == d)
    ensures IsDigit(c) <==> c in DIGITS
  {
    assert d < 10 ==> DIGITS[d] == ('0' as int + d) as char;
    if IsDigit(c) {
      assert DIGITS[c as int - '0' as int] == c;
    }
  }

  /** The number a string of digits spells. */
  function Value(s: string): nat
    requires forall c :: c in s ==> IsDigit(c)
  {
    if s == "" then 0 else 10 * Value(Init(s)) + DigitValue(Last(s))
  }

  /** Decimal printing without leading zeros. */
  function Decimal(n: nat): string {
    if n < 10 then [Digit(n)] else Decimal(n / 10) + [Digit(n % 10)]
  }

  lemma {:induction false} ValueOfDecimal(n: nat)
    ensures IsNumber(Decimal(n)) && Value(Decimal(n)) == n
  {
    if n >= 10 {
      ValueOfDecimal(n / 10);
      assert Init(Decimal(n)) == Decimal(n / 10);
    } else {
      assert Init(Decimal(n)) == "" && Value("") == 0;
    }
  }
}
