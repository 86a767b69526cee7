/**
 Release versions as text (scripts/release/lib.ts): the pattern, the parser, the printer and
 the order, following Semantic Versioning 2.0.0, items 2, 9 and 11. Numbers are naturals;
 they agree with the source's numbers below 2^53.
 */
module ReleaseVersion {
  import opened Common

  datatype Version = Version(major: nat, minor: nat, patch: nat, alphaNumber: Option<nat>)

  datatype ReleaseError = InvalidVersion(text: string) | NoCommits | TagExists(tag: string)

  // ---------- Numerals ----------

  predicate IsDigit(c: char) {
    '0' <= c <= '9'
  }

  predicate AllDigits(s: string) {
    forall c | c in s :: IsDigit(c)
  }

  /** The pattern (0|[1-9]\d*) */
  predicate IsNumeral(s: string) {
    s != "" && AllDigits(s) && (s[0] == '0' ==> |s| == 1)
  }

  function DigitValue(c: char): nat
    requires IsDigit(c)
  {
    c as int - '0' as int
  }

  function DigitOf(n: nat): (c: char)
    requires n < 10
    ensures IsDigit(c) && DigitValue(c) == n && (c == '0' <==> n == 0)
  {
    ('0' as int + n) as char
  }

  function Print(n: nat): (s: string)
    ensures s != "" && AllDigits(s)
  {
    if n < 10 then [DigitOf(n)] else Print(n / 10) + [DigitOf(n % 10)]
  }

  /** Number.parseInt(s, 10) on a string of digits. */
  function ReadNumber(s: string): nat
    requires AllDigits(s)
  {
    if s == "" then 0
    else
      assert s[|s| - 1] in s && forall c :: c in s[..|s| - 1] ==> c in s;
      ReadNumber(s[..|s| - 1]) * 10 + DigitValue(s[|s| - 1])
  }

  lemma {:induction false} PrintIsNumeral(n: nat)
    ensures IsNumeral(Print(n)) && ReadNumber(Print(n)) == n
    ensures n > 0 ==> Print(n)[0] != '0'
  {
    if n >= 10 {
      PrintIsNumeral(n / 10);
      assert Print(n)[..|Print(n)| - 1] == Print(n / 10);
    } else {
      assert Print(n)[..0] == "";
    }
  }

  function TenToThe(n: nat): nat {
    if n == 0 then 1 else 10 * TenToThe(n - 1)
  }

  /** Digits are read from the most significant to the least. */
  lemma {:induction false} DigitsHavePlaces(a: string, b: string)
    requires AllDigits(a) && AllDigits(b)
    ensures AllDigits(a + b) && ReadNumber(a + b) == ReadNumber(a) * TenToThe(|b|) + ReadNumber(b)
  {
    if b == "" {
      assert a + b == a;
    } else {
      var n := |b| - 1;
      assert b[n] in b && forall c :: c in b[..n] ==> c in b;
      DigitsHavePlaces(a, b[..n]);
      assert (a + b)[..|a + b| - 1] == a + b[..n];
      assert ReadNumber(a) * TenToThe(|b|) == 10 * (ReadNumber(a) * TenToThe(n));
    }
  }

  lemma LastDigit(n: nat, d: nat)
    requires n > 0 && d < 10
    ensures Print(n * 10 + d) == Print(n) + [DigitOf(d)]
  {
    assert (n * 10 + d) / 10 == n && (n * 10 + d) % 10 == d;
  }

  lemma {:induction false} NumeralIsPrinted(s: string)
    requires IsNumeral(s)
    ensures Print(ReadNumber(s)) == s
    ensures s[0] != '0' ==> ReadNumber(s) > 0
  {
    var n := |s| - 1;
    assert s[n] in s && s[0] in s;
    if n > 0 {
      var front := s[..n];
      assert forall c :: c in front ==> c in s;
      NumeralIsPrinted(front);
      LastDigit(ReadNumber(front), DigitValue(s[n]));
      assert DigitOf(DigitValue(s[n])) == s[n] && s == front + [s[n]];
    } else {
      assert s[..0] == "" && s == [s[0]];
    }
  }

  // ---------- The pattern ----------

  datatype Segments = Segments(major: string, minor: string, patch: string, alpha: Option<string>) {
    predicate Canonical() {
      IsNumeral(major) && IsNumeral(minor) && IsNumeral(patch) && (alpha.Some? ==> IsNumeral(alpha.value))
    }

    function Base(): string {
      major + "." + minor + "." + patch
    }

    function Text(): string {
      if alpha.None? then Base() else Base() + "-alpha." + alpha.value
    }

    function Values(): Version
      requires Canonical()
    {
      Version(ReadNumber(major), ReadNumber(minor), ReadNumber(patch),
              if alpha.None? then None else Some(ReadNumber(alpha.value)))
    }
  }

  /** What the pattern means: the text of some canonical segments. */
  ghost predicate IsReleaseVersion(text: string) {
    exists segments: Segments :: segments.Canonical() && text == segments.Text()
  }

  function DropDigits(s: string): string {
    if s != "" && IsDigit(s[0]) then DropDigits(s[1..]) else s
  }

  /** The rest after a numeral, taken greedily. */
  function AfterNumeral(s: string): Option<string> {
    if s == "" || !IsDigit(s[0]) then None
    else if s[0] == '0' then Some(s[1..])
    else Some(DropDigits(s))
  }

  function After(s: Option<string>, literal: string): Option<string> {
    if s.Some? && StartsWith(s.value, literal) then Some(s.value[|literal|..]) else None
  }

  function AfterBase(s: string): Option<string> {
    var major := After(AfterNumeral(s), ".");
    if major.None? then None
    else
      var minor := After(AfterNumeral(major.value), ".");
      if minor.None? then None else AfterNumeral(minor.value)
  }

  /** Matching ReleaseVersionPattern. */
  predicate Matches(text: string) {
    var rest := AfterBase(text);
    var alpha := After(rest, "-alpha.");
    rest == Some("") || (alpha.Some? && AfterNumeral(alpha.value) == Some(""))
  }

  lemma {:induction false} DigitsThenRest(digits: string, rest: string)
    requires AllDigits(digits) && (rest == "" || !IsDigit(rest[0]))
    ensures DropDigits(digits + rest) == rest
  {
    if digits != "" {
      assert (digits + rest)[1..] == digits[1..] + rest;
      assert digits[0] in digits && forall c :: c in digits[1..] ==> c in digits;
      DigitsThenRest(digits[1..], rest);
    } else {
      assert digits + rest == rest;
    }
  }

  lemma NumeralThenRest(numeral: string, rest: string)
    requires IsNumeral(numeral) && (rest == "" || !IsDigit(rest[0]))
    ensures AfterNumeral(numeral + rest) == Some(rest)
  {
    assert numeral[0] in numeral;
    DigitsThenRest(numeral, rest);
    assert (numeral + rest)[1..] == numeral[1..] + rest;
  }

  lemma {:induction false} DropDigitsDrops(s: string) returns (digits: string)
    ensures AllDigits(digits) && s == digits + DropDigits(s)
    ensures s != "" && IsDigit(s[0]) ==> digits != ""
  {
    if s != "" && IsDigit(s[0]) {
      var tail := DropDigitsDrops(s[1..]);
      digits := [s[0]] + tail;
      assert s == [s[0]] + s[1..];
    } else {
      digits := "";
    }
  }

  lemma AfterNumeralDrops(s: string) returns (numeral: string)
    requires AfterNumeral(s).Some?
    ensures IsNumeral(numeral) && s == numeral + AfterNumeral(s).value
  {
    if s[0] == '0' {
      numeral := [s[0]];
    } else {
      numeral := DropDigitsDrops(s);
      assert numeral[0] == s[0];
    }
  }

  lemma SegmentsMatch(segments: Segments)
    requires segments.Canonical()
    ensures Matches(segments.Text())
  {
    var tail := if segments.alpha.None? then "" else "-alpha." + segments.alpha.value;
    var text := segments.Text();
    var minorOn := segments.minor + ("." + segments.patch + tail);
    var patchOn := segments.patch + tail;
    assert text == segments.major + ("." + minorOn);
    NumeralThenRest(segments.major, "." + minorOn);
    assert ("." + minorOn)[1..] == minorOn;
    NumeralThenRest(segments.minor, "." + segments.patch + tail);
    assert ("." + segments.patch + tail)[1..] == patchOn;
    NumeralThenRest(segments.patch, tail);
    assert AfterBase(text) == Some(tail);
    if segments.alpha.Some? {
      assert tail[7..] == segments.alpha.value + "";
      NumeralThenRest(segments.alpha.value, "");
    }
  }

  lemma NumeralAndDotDrops(s: string) returns (numeral: string)
    requires After(AfterNumeral(s), ".").Some?
    ensures IsNumeral(numeral) && s == numeral + "." + After(AfterNumeral(s), ".").value
  {
    numeral := AfterNumeralDrops(s);
    var rest := AfterNumeral(s).value;
    assert rest == "." + rest[1..];
  }

  lemma Regroup(major: string, minor: string, patch: string, tail: string)
    ensures major + "." + (minor + "." + (patch + tail)) == major + "." + minor + "." + patch + tail
  {
    assert minor + "." + (patch + tail) == minor + "." + patch + tail;
  }

  lemma AfterBaseDrops(text: string) returns (major: string, minor: string, patch: string)
    requires AfterBase(text).Some?
    ensures IsNumeral(major) && IsNumeral(minor) && IsNumeral(patch)
    ensures text == major + "." + minor + "." + patch + AfterBase(text).value
  {
    major := NumeralAndDotDrops(text);
    var minorOn := After(AfterNumeral(text), ".").value;
    minor := NumeralAndDotDrops(minorOn);
    var patchOn := After(AfterNumeral(minorOn), ".").value;
    patch := AfterNumeralDrops(patchOn);
    Regroup(major, minor, patch, AfterBase(text).value);
  }

  lemma MatchesGivesSegments(text: string) returns (segments: Segments)
    requires Matches(text)
    ensures segments.Canonical() && text == segments.Text()
  {
    var major, minor, patch := AfterBaseDrops(text);
    var tail := AfterBase(text).value;
    segments := Segments(major, minor, patch, None);
    assert text == segments.Base() + tail;
    if tail != "" {
      var alphaOn := After(Some(tail), "-alpha.").value;
      assert tail == "-alpha." + alphaOn;
      var alpha := AfterNumeralDrops(alphaOn);
      assert alphaOn == alpha;
      segments := Segments(major, minor, patch, Some(alpha));
      assert text == segments.Base() + ("-alpha." + alpha);
    }
  }

  /** The greedy matcher accepts exactly the texts of the pattern. */
  lemma PatternIsExact(text: string)
    ensures Matches(text) <==> IsReleaseVersion(text)
  {
    if Matches(text) {
      var segments := MatchesGivesSegments(text);
    }
    if IsReleaseVersion(text) {
      var segments: Segments :| segments.Canonical() && text == segments.Text();
      SegmentsMatch(segments);
    }
  }

  // ---------- Parsing and printing ----------

  function ParseReleaseVersion(text: string): Result<Version, ReleaseError> {
    if !Matches(text) then Err(InvalidVersion(text))
    else
      var parts := Split(text, "-alpha.");
      var segments := Split(parts[0], ".");
      var alphaPart := if |parts| < 2 then None else Some(parts[1]);
      if |segments| < 3 || !AllDigits(segments[0]) || !AllDigits(segments[1]) || !AllDigits(segments[2])
         || (alphaPart.Some? && !AllDigits(alphaPart.value)) then Err(InvalidVersion(text))
      else
        Ok(Version(ReadNumber(segments[0]), ReadNumber(segments[1]), ReadNumber(segments[2]),
                   if alphaPart.None? then None else Some(ReadNumber(alphaPart.value))))
  }

  function FormatReleaseVersion(version: Version): string {
    var base := Print(version.major) + "." + Print(version.minor) + "." + Print(version.patch);
    if version.alphaNumber.None? then base else base + "-alpha." + Print(version.alphaNumber.value)
  }

  lemma ParseReadsSegments(segments: Segments)
    requires segments.Canonical()
    ensures ParseReleaseVersion(segments.Text()) == Ok(segments.Values())
  {
    SegmentsMatch(segments);
    SplitBase(segments);
    SplitAlpha(segments);
  }

  lemma SplitAlpha(segments: Segments)
    requires segments.Canonical()
    ensures Split(segments.Text(), "-alpha.")
            == [segments.Base()] + if segments.alpha.None? then [] else [segments.alpha.value]
  {
    var alpha := if segments.alpha.None? then "" else segments.alpha.value;
    assert '-' !in segments.Base() && '-' !in alpha;
    SplitFirst(segments.Base(), "-alpha.", alpha);
    SplitFirst(alpha, "-alpha.", "");
  }

  lemma SplitBase(segments: Segments)
    requires segments.Canonical()
    ensures Split(segments.Base(), ".") == [segments.major, segments.minor, segments.patch]
  {
    assert segments.Base() == segments.major + "." + (segments.minor + "." + segments.patch);
    SplitFirst(segments.major, ".", segments.minor + "." + segments.patch);
    SplitFirst(segments.minor, ".", segments.patch);
    SplitFirst(segments.patch, ".", "");
  }

  /** The parser accepts exactly the texts of the pattern. */
  lemma ParserAcceptsThePattern(text: string)
    ensures ParseReleaseVersion(text).Ok? <==> IsReleaseVersion(text)
  {
    PatternIsExact(text);
    if IsReleaseVersion(text) {
      var segments: Segments :| segments.Canonical() && text == segments.Text();
      ParseReadsSegments(segments);
    }
  }

  /** Parsing undoes printing. */
  lemma ParseOfFormat(version: Version)
    ensures ParseReleaseVersion(FormatReleaseVersion(version)) == Ok(version)
  {
    PrintIsNumeral(version.major);
    PrintIsNumeral(version.minor);
    PrintIsNumeral(version.patch);
    var alpha := if version.alphaNumber.None? then None else Some(Print(version.alphaNumber.value));
    if version.alphaNumber.Some? {
      PrintIsNumeral(version.alphaNumber.value);
    }
    var segments := Segments(Print(version.major), Print(version.minor), Print(version.patch), alpha);
    assert segments.Text() == FormatReleaseVersion(version);
    ParseReadsSegments(segments);
  }

  /** Printing undoes parsing. */
  lemma FormatOfParse(text: string)
    requires ParseReleaseVersion(text).Ok?
    ensures FormatReleaseVersion(ParseReleaseVersion(text).value) == text
  {
    var segments := MatchesGivesSegments(text);
    ParseReadsSegments(segments);
    NumeralIsPrinted(segments.major);
    NumeralIsPrinted(segments.minor);
    NumeralIsPrinted(segments.patch);
    if segments.alpha.Some? {
      NumeralIsPrinted(segments.alpha.value);
    }
  }

  // ---------- The order ----------

  function CompareVersions(left: Version, right: Version): int {
    if left.major < right.major then -1
    else if left.major > right.major then 1
    else if left.minor < right.minor then -1
    else if left.minor > right.minor then 1
    else if left.patch < right.patch then -1
    else if left.patch > right.patch then 1
    else if left.alphaNumber.None? && right.alphaNumber.None? then 0
    else if left.alphaNumber.None? then 1
    else if right.alphaNumber.None? then -1
    else if left.alphaNumber.value < right.alphaNumber.value then -1
    else if left.alphaNumber.value > right.alphaNumber.value then 1
    else 0
  }

  function CompareReleaseVersions(left: string, right: string): Result<int, ReleaseError> {
    var parsedLeft := ParseReleaseVersion(left);
    var parsedRight := ParseReleaseVersion(right);
    if parsedLeft.Err? then Err(parsedLeft.error)
    else if parsedRight.Err? then Err(parsedRight.error)
    else Ok(CompareVersions(parsedLeft.value, parsedRight.value))
  }

  function SameStableBase(left: string, right: string): Result<bool, ReleaseError> {
    var parsedLeft := ParseReleaseVersion(left);
    var parsedRight := ParseReleaseVersion(right);
    if parsedLeft.Err? then Err(parsedLeft.error)
    else if parsedRight.Err? then Err(parsedRight.error)
    else
      Ok(&& parsedLeft.value.major == parsedRight.value.major
         && parsedLeft.value.minor == parsedRight.value.minor
         && parsedLeft.value.patch == parsedRight.value.patch)
  }

  /** The identifiers of a version from left to right; a pre-release version ranks below the
      version without one, and pre-releases rank by number. */
  function Identifiers(v: Version): (r: seq<nat>)
    ensures |r| == 5
  {
    [v.major, v.minor, v.patch] + if v.alphaNumber.None? then [1, 0] else [0, v.alphaNumber.value]
  }

  /** Precedence is decided by the first difference (item 11). */
  ghost predicate Precedes(left: Version, right: Version) {
    var a, b := Identifiers(left), Identifiers(right);
    exists i: nat :: i < 5 && a[..i] == b[..i] && a[i] < b[i]
  }

  lemma DifferenceAt(left: Version, right: Version, i: nat)
    requires i < 5 && forall j :: 0 <= j < i ==> Identifiers(left)[j] == Identifiers(right)[j]
    requires Identifiers(left)[i] < Identifiers(right)[i]
    ensures Precedes(left, right)
  {
    assert Identifiers(left)[..i] == Identifiers(right)[..i];
  }

  lemma PrecedesComparesLess(left: Version, right: Version)
    requires Precedes(left, right)
    ensures CompareVersions(left, right) == -1
  {
    var a, b := Identifiers(left), Identifiers(right);
    var i: nat :| i < 5 && a[..i] == b[..i] && a[i] < b[i];
    forall j | 0 <= j < i ensures a[j] == b[j] {
      assert a[..i][j] == b[..i][j];
    }
    assert i > 0 ==> a[0] == b[0];
    assert i > 1 ==> a[1] == b[1];
    assert i > 2 ==> a[2] == b[2];
    assert i > 3 ==> a[3] == b[3];
  }

  lemma CompareFindsTheFirstDifference(left: Version, right: Version)
    ensures CompareVersions(left, right) == -1 ==> Precedes(left, right)
    ensures CompareVersions(left, right) == 0 ==> left == right
  {
    var a, b := Identifiers(left), Identifiers(right);
    if CompareVersions(left, right) == -1 {
      var i: nat := if a[0] != b[0] then 0 else if a[1] != b[1] then 1 else if a[2] != b[2] then 2
                    else if a[3] != b[3] then 3 else 4;
      DifferenceAt(left, right, i);
    }
  }

  lemma CompareIsAntisymmetric(left: Version, right: Version)
    ensures CompareVersions(right, left) == -CompareVersions(left, right)
    ensures CompareVersions(left, right) in {-1, 0, 1}
  {
  }

  lemma CompareIsTransitive(a: Version, b: Version, c: Version)
    requires CompareVersions(a, b) <= 0 && CompareVersions(b, c) <= 0
    ensures CompareVersions(a, c) <= 0
    ensures CompareVersions(a, c) == 0 ==> CompareVersions(a, b) == 0 && CompareVersions(b, c) == 0
  {
  }

  /** The comparison of texts is the precedence of Semantic Versioning, and a total order: it
      is 0 for equal texts only and its sign turns around with its arguments. */
  lemma ComparisonIsPrecedence(left: string, right: string)
    requires IsReleaseVersion(left) && IsReleaseVersion(right)
    ensures ParseReleaseVersion(left).Ok? && ParseReleaseVersion(right).Ok?
    ensures CompareReleaseVersions(left, right).Ok? && CompareReleaseVersions(right, left).Ok?
    ensures var c := CompareReleaseVersions(left, right).value;
      && (c == -1 <==> Precedes(ParseReleaseVersion(left).value, ParseReleaseVersion(right).value))
      && (c == 1 <==> Precedes(ParseReleaseVersion(right).value, ParseReleaseVersion(left).value))
      && (c == 0 <==> left == right)
      && CompareReleaseVersions(right, left).value == -c
  {
    ParserAcceptsThePattern(left);
    ParserAcceptsThePattern(right);
    var a, b := ParseReleaseVersion(left).value, ParseReleaseVersion(right).value;
    CompareIsAntisymmetric(a, b);
    CompareFindsTheFirstDifference(a, b);
    CompareFindsTheFirstDifference(b, a);
    if Precedes(a, b) {
      PrecedesComparesLess(a, b);
    }
    if Precedes(b, a) {
      PrecedesComparesLess(b, a);
    }
    FormatOfParse(left);
    FormatOfParse(right);
  }

  lemma AlphasPrecedeTheirStable(version: Version, n: nat)
    ensures Precedes(version.(alphaNumber := Some(n)), version.(alphaNumber := None))
  {
    DifferenceAt(version.(alphaNumber := Some(n)), version.(alphaNumber := None), 3);
  }
}
