/** The version gate: the server's major and minor version printed as "major.minor" and reparsed as one number. */
module ServerVersion {
  import opened Outcomes
  import opened Text
  import opened Decimals

  /** The number a server version is compared by. */
  function VersionMajorMinor(major: nat, minor: nat): Option<real> {
    ParseFloat(PrintPair(major, minor))
  }

  /** A scraper's threshold T.t with a one-digit t. */
  function Threshold(major: nat, minor: nat): real
    requires minor < 10
  {
    major as real + minor as real / 10.0
  }

  /** The scraper is run unless the version number is below its threshold. */
  predicate Passes(version: real, threshold: real) {
    !(version < threshold)
  }

  /** (a, b) is at or above (c, d) in version order. */
  predicate AtLeast(a: nat, b: nat, c: nat, d: nat) {
    a > c || (a == c && b >= d)
  }

  lemma VersionBounds(major: nat, minor: nat)
    ensures LeadingDigit(minor) < 10
    ensures VersionMajorMinor(major, minor).Some?
    ensures var v, d := VersionMajorMinor(major, minor).value, LeadingDigit(minor);
            major as real + d as real / 10.0 <= v < major as real + (d + 1) as real / 10.0
  {
    ParsePrintedPair(major, minor);
    LeadingDigitPrinted(minor);
    FractionFirstDigit(Decimal(minor));
  }

  /** The number a version is compared by is not the version: major plus the digits of minor behind the point. */
  lemma VersionNumber(major: nat, minor: nat)
    ensures VersionMajorMinor(major, minor) ==
            Some(major as real + minor as real / PowTen(|Decimal(minor)|) as real)
  {
    PrintedPairValue(major, minor);
  }

  /**
   For every server version the printed number parses, and the gate compares (major, leading digit of minor)
   lexicographically.
   */
  lemma GateComparesLeadingDigit(major: nat, minor: nat, t: nat, u: nat)
    requires u < 10
    ensures VersionMajorMinor(major, minor).Some?
    ensures Passes(VersionMajorMinor(major, minor).value, Threshold(t, u)) <==>
            AtLeast(major, LeadingDigit(minor), t, u)
  {
    VersionBounds(major, minor);
  }

  /**
   The gate is right about (major, minor) except exactly for a minor of two or more digits whose first one is
   below the threshold's.
   */
  lemma GateIsVersionOrderIff(major: nat, minor: nat, t: nat, u: nat)
    requires u < 10
    ensures VersionMajorMinor(major, minor).Some?
    ensures (Passes(VersionMajorMinor(major, minor).value, Threshold(t, u)) <==> AtLeast(major, minor, t, u))
       <==> !(major == t && minor >= 10 && LeadingDigit(minor) < u)
  {
    GateComparesLeadingDigit(major, minor, t, u);
  }

  /** Server 8.10 is held to be older than 8.4. */
  lemma TwoDigitMinorIsMisjudged()
    ensures VersionMajorMinor(8, 10).Some?
    ensures !Passes(VersionMajorMinor(8, 10).value, Threshold(8, 4)) && AtLeast(8, 10, 8, 4)
  {
    GateComparesLeadingDigit(8, 10, 8, 4);
    assert LeadingDigit(10) == LeadingDigit(1) == 1;
  }
}
