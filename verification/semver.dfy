/**
  Release versions as the version check sees them once `semver.coerce` has
  normalised a text: a `major.minor.patch` triple with no pre-release or build
  part, ordered by the precedence of section 11 of Semantic Versioning 2.0.0.
  Coercion itself is modelled here as a small scanner over the text.
 */
module Semver {
  import opened Wrappers

  datatype Version = Version(major: nat, minor: nat, patch: nat)

  /** Precedence of release versions: major, then minor, then patch, numerically. */
  predicate Less(a: Version, b: Version) {
    || a.major < b.major
    || (a.major == b.major && a.minor < b.minor)
    || (a.major == b.major && a.minor == b.minor && a.patch < b.patch)
  }

  predicate LessOrEqual(a: Version, b: Version) {
    Less(a, b) || a == b
  }

  /** Precedence is a strict total order on versions. */
  lemma LessIsStrictTotalOrder(a: Version, b: Version, c: Version)
    ensures !Less(a, a)
    ensures Less(a, b) && Less(b, c) ==> Less(a, c)
    ensures a == b || Less(a, b) || Less(b, a)
    ensures Less(a, b) ==> !Less(b, a)
  {
  }

  /** Three-way comparison of one numeric identifier. */
  function CompareIdentifiers(x: nat, y: nat): int {
    if x == y then 0 else if x < y then -1 else 1
  }

  /** The library's comparison of two release versions, field by field. */
  function Compare(a: Version, b: Version): (c: int)
    ensures c == -1 || c == 0 || c == 1
    ensures c < 0 <==> Less(a, b)
    ensures c == 0 <==> a == b
    ensures c > 0 <==> Less(b, a)
  {
    var major := CompareIdentifiers(a.major, b.major);
    if major != 0 then major
    else
      var minor := CompareIdentifiers(a.minor, b.minor);
      if minor != 0 then minor
      else CompareIdentifiers(a.patch, b.patch)
  }

  /** `semver.lte`. */
  function Lte(a: Version, b: Version): (r: bool)
    ensures r <==> LessOrEqual(a, b)
  {
    Compare(a, b) <= 0
  }

  /** `semver.satisfies(v, "lo - hi")`: the hyphen range, inclusive at both ends. */
  function SatisfiesHyphenRange(v: Version, lo: Version, hi: Version): (r: bool)
    ensures r <==> LessOrEqual(lo, v) && LessOrEqual(v, hi)
  {
    Compare(v, lo) >= 0 && Compare(v, hi) <= 0
  }

  // ---------------------------------------------------------------------------
  // Decimal digits

  predicate IsDigit(c: char) {
    '0' <= c <= '9'
  }

  predicate AllDigits(s: string) {
    forall i :: 0 <= i < |s| ==> IsDigit(s[i])
  }

  predicate HasDigit(s: string) {
    exists i :: 0 <= i < |s| && IsDigit(s[i])
  }

  function DigitValue(c: char): nat
    requires IsDigit(c)
  {
    c as int - '0' as int
  }

  function DigitChar(d: nat): char
    requires d < 10
  {
    ('0' as int + d) as char
  }

  /** The number a non-empty or empty run of digits denotes (empty denotes 0). */
  function DecimalValue(s: string): nat
    requires AllDigits(s)
    decreases |s|
  {
    if |s| == 0 then 0 else 10 * DecimalValue(s[..|s| - 1]) + DigitValue(s[|s| - 1])
  }

  /** A numeric identifier as a version may write it: `0`, or digits that do
      not start with `0`. */
  predicate NoLeadingZero(digits: string) {
    |digits| <= 1 || digits[0] != '0'
  }

  /** Decimal notation of n, without leading zeros. */
  function Decimal(n: nat): (s: string)
    ensures |s| > 0 && AllDigits(s)
    ensures DecimalValue(s) == n
    ensures NoLeadingZero(s)
    ensures s[0] == '0' ==> n == 0
  {
    if n < 10 then [DigitChar(n)]
    else
      var prefix := Decimal(n / 10);
      var s := prefix + [DigitChar(n % 10)];
      assert s[..|s| - 1] == prefix;
      s
  }

  /** The `.version` text of a coerced version. */
  function Format(v: Version): string {
    Decimal(v.major) + "." + Decimal(v.minor) + "." + Decimal(v.patch)
  }

  // ---------------------------------------------------------------------------
  // Coercion

  /** The suffix of s that starts at its first digit; empty when s has none. */
  function SkipToDigit(s: string): (t: string)
    ensures |t| <= |s|
    ensures |t| > 0 <==> HasDigit(s)
    ensures |t| > 0 ==> IsDigit(t[0])
  {
    if |s| == 0 then s
    else if IsDigit(s[0]) then
      assert s[..0] == [];
      s
    else
      var t := SkipToDigit(s[1..]);
      t
  }

  /** Length of the run of digits at the start of s. */
  function DigitRun(s: string): (n: nat)
    ensures n <= |s|
    ensures AllDigits(s[..n])
    ensures n == |s| || !IsDigit(s[n])
  {
    if |s| == 0 || !IsDigit(s[0]) then 0
    else
      var n := 1 + DigitRun(s[1..]);
      assert s[..n] == [s[0]] + s[1..][..n - 1];
      n
  }

  /** Reads `.<digits>` at the start of s, as each optional minor and patch
      part of the coercion pattern does; gives the digits and what follows them. */
  function DotNumber(s: string): (r: Option<(string, string)>)
    ensures r.Some? ==> |r.value.0| > 0 && AllDigits(r.value.0)
  {
    if |s| >= 2 && s[0] == '.' && IsDigit(s[1]) then
      var n := DigitRun(s[1..]);
      Some((s[1..][..n], s[1..][n..]))
    else None
  }

  /** The texts of `major[.minor[.patch]]` at the start of a text that starts
      with a digit, with a missing part written `0` and anything after the
      parts ignored. */
  function Parts(t: string): (p: (string, string, string))
    requires |t| > 0 && IsDigit(t[0])
    ensures AllDigits(p.0) && AllDigits(p.1) && AllDigits(p.2)
  {
    var n := DigitRun(t);
    match DotNumber(t[n..])
    case None => (t[..n], "0", "0")
    case Some((minor, rest)) =>
      match DotNumber(rest)
      case None => (t[..n], minor, "0")
      case Some((patch, _)) => (t[..n], minor, patch)
  }

  /** Parses the rebuilt `major.minor.patch` strictly: a part written with a
      leading zero makes the whole text invalid. */
  function ReadTriple(t: string): Option<Version>
    requires |t| > 0 && IsDigit(t[0])
  {
    var (major, minor, patch) := Parts(t);
    if NoLeadingZero(major) && NoLeadingZero(minor) && NoLeadingZero(patch) then
      Some(Version(DecimalValue(major), DecimalValue(minor), DecimalValue(patch)))
    else None
  }

  /** `semver.coerce`: the first `major[.minor[.patch]]` found in the text.
      Text without a digit never coerces; nor does text whose parts are
      written with leading zeros. */
  function Coerce(s: string): (r: Option<Version>)
    ensures r.Some? ==> HasDigit(s)
    ensures r.Some? ==> |s| > 0
  {
    var t := SkipToDigit(s);
    if |t| == 0 then None else ReadTriple(t)
  }

  /** A major part written with a leading zero is refused. */
  lemma CoerceRejectsLeadingZeroMajor()
    ensures Coerce("01") == None
  {
    assert DigitRun("01") == 2;
  }

  /** A minor part written with a leading zero is refused. */
  lemma CoerceRejectsLeadingZeroMinor()
    ensures Coerce("1.02") == None
  {
    assert "1.02" == "1" + ".02" && ".02" == "." + "02" + "";
    DigitRunOfConcat("1", ".02");
    DotNumberOf("02", "");
  }

  /** A patch part written with a leading zero is refused. */
  lemma CoerceRejectsLeadingZeroPatch()
    ensures Coerce("2.0.01") == None
  {
    assert "2.0.01" == "2" + ".0.01" && ".0.01" == "." + "0" + ".01" && ".01" == "." + "01" + "";
    DigitRunOfConcat("2", ".0.01");
    DotNumberOf("0", ".01");
    DotNumberOf("01", "");
  }

  /** Any text whose first digit is a `0` followed by another digit is refused:
      its major part is written with a leading zero. */
  lemma CoerceRejectsLeadingZeroMajorPart(s: string)
    requires var t := SkipToDigit(s); |t| >= 2 && t[0] == '0' && IsDigit(t[1])
    ensures Coerce(s) == None
  {
    var t := SkipToDigit(s);
    assert DigitRun(t) >= 2 by {
      assert DigitRun(t) == 1 + DigitRun(t[1..]);
      assert t[1..][0] == t[1];
    }
  }

  /** The digits at the head of `a + b` are exactly `a` when `b` does not go on with a digit. */
  lemma {:induction false} DigitRunOfConcat(a: string, b: string)
    requires AllDigits(a)
    requires |b| == 0 || !IsDigit(b[0])
    ensures DigitRun(a + b) == |a|
    decreases |a|
  {
    if |a| == 0 {
      assert a + b == b;
    } else {
      assert (a + b)[1..] == a[1..] + b;
      DigitRunOfConcat(a[1..], b);
    }
  }

  /** Text before the first digit does not change what the text coerces to. */
  lemma {:induction false} CoerceSkipsNonDigitPrefix(p: string, s: string)
    requires !HasDigit(p)
    ensures Coerce(p + s) == Coerce(s)
    ensures SkipToDigit(p + s) == SkipToDigit(s)
    decreases |p|
  {
    if |p| == 0 {
      assert p + s == s;
    } else {
      assert (p + s)[1..] == p[1..] + s;
      CoerceSkipsNonDigitPrefix(p[1..], s);
    }
  }

  /** `.` followed by a run of digits and then a non-digit reads as those digits. */
  lemma DotNumberOf(b: string, rest: string)
    requires |b| > 0 && AllDigits(b)
    requires |rest| == 0 || !IsDigit(rest[0])
    ensures DotNumber("." + b + rest) == Some((b, rest))
  {
    var s := "." + b + rest;
    var tail := b + rest;
    assert s == ['.'] + tail;
    assert s[1..] == tail;
    assert |s| >= 2 && s[0] == '.' && IsDigit(s[1]);
    DigitRunOfConcat(b, rest);
    assert tail[..|b|] == b;
    assert tail[|b|..] == rest;
  }

  /** Scanning `a.b.c`, each part a run of digits, finds the three parts. */
  lemma PartsOf(a: string, b: string, c: string)
    requires |a| > 0 && AllDigits(a)
    requires |b| > 0 && AllDigits(b)
    requires |c| > 0 && AllDigits(c)
    ensures |a + "." + b + "." + c| > 0 && IsDigit((a + "." + b + "." + c)[0])
    ensures Parts(a + "." + b + "." + c) == (a, b, c)
  {
    var rest2 := "." + c;
    var rest1 := "." + b + rest2;
    var t := a + rest1;
    assert t == a + "." + b + "." + c;
    assert t[0] == a[0];
    assert DigitRun(t) == |a| && t[..|a|] == a && t[|a|..] == rest1 by {
      DigitRunOfConcat(a, rest1);
    }
    assert DotNumber(rest1) == Some((b, rest2)) by {
      DotNumberOf(b, rest2);
    }
    assert DotNumber(rest2) == Some((c, "")) by {
      assert rest2 == "." + c + "";
      DotNumberOf(c, "");
    }
  }

  /** Reading `a.b.c`, each part written without a leading zero, gives back the three numbers. */
  lemma ReadTripleOf(a: string, b: string, c: string)
    requires |a| > 0 && AllDigits(a)
    requires |b| > 0 && AllDigits(b)
    requires |c| > 0 && AllDigits(c)
    requires NoLeadingZero(a) && NoLeadingZero(b) && NoLeadingZero(c)
    ensures |a + "." + b + "." + c| > 0 && IsDigit((a + "." + b + "." + c)[0])
    ensures ReadTriple(a + "." + b + "." + c) == Some(Version(DecimalValue(a), DecimalValue(b), DecimalValue(c)))
  {
    PartsOf(a, b, c);
  }

  /** Coercing the printed form of a version gives the version back. */
  lemma CoerceFormat(v: Version)
    ensures Coerce(Format(v)) == Some(v)
  {
    var a, b, c := Decimal(v.major), Decimal(v.minor), Decimal(v.patch);
    ReadTripleOf(a, b, c);
    assert SkipToDigit(Format(v)) == Format(v);
  }

  /** A caret range written for a version coerces back to that version. */
  lemma CoerceCaretFormat(v: Version)
    ensures Coerce("^" + Format(v)) == Some(v)
  {
    assert !HasDigit("^");
    CoerceSkipsNonDigitPrefix("^", Format(v));
    CoerceFormat(v);
  }
}
