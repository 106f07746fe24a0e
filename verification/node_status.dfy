/** Node states of `ndbinfo.nodes` as numbers, with the start phase behind the point while a node is starting. */
module NodeStatus {
  import opened Outcomes
  import opened Text
  import opened Decimals

  function StatusToNumber(status: string, startPhase: int): real {
    if status == "NOTHING" then 0.0
    else if status == "CMVMI" then 1.0
    else if status == "STARTING" then
      if startPhase <= 0 then 2.0
      else
        match ParseFloat(PrintPair(2, startPhase))
        case Some(x) => x
        case None => 0.0
    else if status == "STARTED" then 3.0
    else if status == "SINGLEUSER" then 4.0
    else if status == "STOPPING_1" then 5.0
    else if status == "STOPPING_2" then 6.0
    else if status == "STOPPING_3" then 7.0
    else if status == "STOPPING_4" then 8.0
    else -1.0
  }

  /** The statuses as the metric's help text numbers them. */
  const DOCUMENTED: seq<string> :=
    ["NOTHING", "CMVMI", "STARTING", "STARTED", "SINGLEUSER", "STOPPING_1", "STOPPING_2", "STOPPING_3", "STOPPING_4"]

  lemma StartingValue(phase: int)
    requires phase > 0
    ensures AllDigits(Decimal(phase)) && StatusToNumber("STARTING", phase) == 2.0 + Fraction(Decimal(phase))
  {
    ParsePrintedPair(2, phase);
  }

  /** A positive start phase is put behind the point, digit by digit. */
  lemma StartingNumber(phase: int)
    requires phase > 0
    ensures StatusToNumber("STARTING", phase) == 2.0 + phase as real / PowTen(|Decimal(phase)|) as real
  {
    PrintedPairValue(2, phase);
  }

  /** While starting, every positive phase lies strictly between STARTING and STARTED. */
  lemma StartingIsBetween(phase: int, other: int)
    requires phase > 0
    ensures StatusToNumber("STARTING", 0) < StatusToNumber("STARTING", phase) < StatusToNumber("STARTED", other)
  {
    StartingValue(phase);
    LeadingDigitPrinted(phase);
    FractionFirstDigit(Decimal(phase));
    FractionBounds(Decimal(phase));
  }

  /** Two phases look the same exactly when one is the other times a power of ten. */
  lemma SamePhaseIff(p: int, q: int)
    requires p > 0 && q > 0
    ensures StatusToNumber("STARTING", p) == StatusToNumber("STARTING", q) <==>
            exists k: nat :: p == Scaled(q, k) || q == Scaled(p, k)
  {
    StartingValue(p);
    StartingValue(q);
    SameFractionIff(p, q);
  }

  /** Any other status is -1, whatever the phase. */
  lemma UnknownIsMinusOne(status: string, phase: int)
    ensures StatusToNumber(status, phase) == -1.0 <==> status !in DOCUMENTED
  {
    assert DOCUMENTED[0] == "NOTHING" && DOCUMENTED[1] == "CMVMI" && DOCUMENTED[2] == "STARTING";
    assert DOCUMENTED[3] == "STARTED" && DOCUMENTED[4] == "SINGLEUSER" && DOCUMENTED[5] == "STOPPING_1";
    assert DOCUMENTED[6] == "STOPPING_2" && DOCUMENTED[7] == "STOPPING_3" && DOCUMENTED[8] == "STOPPING_4";
    if status in DOCUMENTED {
      var i :| 0 <= i < |DOCUMENTED| && DOCUMENTED[i] == status;
      NumberIsDocumented(i, phase);
    }
  }

  /** The whole part is the documented number, and only a positive start phase adds a fraction to it. */
  lemma NumberIsDocumented(i: nat, phase: int)
    requires i < |DOCUMENTED|
    ensures i as real <= StatusToNumber(DOCUMENTED[i], phase) < i as real + 1.0
    ensures StatusToNumber(DOCUMENTED[i], phase) == i as real <==> !(i == 2 && phase > 0)
  {
    if phase > 0 {
      StartingIsBetween(phase, 0);
    }
  }

  /** Whatever the phases, the whole part of a known status's number tells the status. */
  lemma NumberTellsStatus(a: string, p: int, b: string, q: int)
    requires StatusToNumber(a, p) == StatusToNumber(b, q) != -1.0
    ensures a == b
  {
    UnknownIsMinusOne(a, p);
    UnknownIsMinusOne(b, q);
    var i :| 0 <= i < |DOCUMENTED| && DOCUMENTED[i] == a;
    var j :| 0 <= j < |DOCUMENTED| && DOCUMENTED[j] == b;
    NumberIsDocumented(i, p);
    NumberIsDocumented(j, q);
  }
}
