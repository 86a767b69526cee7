/**
 Inferring the next release version from the release tags and a summary of the commits since
 the latest stable tag (scripts/release/prepare.ts). The main results hold for every list of
 tags: when inference succeeds, and that what it infers is new and in the right place.
 */
module ReleaseInference {
  import opened Common
  import opened ReleaseVersion

  datatype Channel = Stable | Alpha

  datatype ReleaseIntent = OnChannel(channel: Channel) | Override(version: string)

  datatype ConventionalCommitSummary = Summary(hasFeature: bool, hasBreakingChange: bool)

  predicate Valid(text: string) {
    ParseReleaseVersion(text).Ok?
  }

  function VersionOf(text: string): Version
    requires Valid(text)
  {
    ParseReleaseVersion(text).value
  }

  // ---------- Reading tags ----------

  function WithoutFirst(tag: string): string {
    if tag == "" then "" else tag[1..]
  }

  function AfterDigits(s: string): Option<string> {
    if s != "" && IsDigit(s[0]) then Some(DropDigits(s)) else None
  }

  function AfterDigitsAndDot(s: Option<string>): Option<string> {
    if s.None? then None else After(AfterDigits(s.value), ".")
  }

  /** The pattern ^v\d+\.\d+\.\d+$, which also accepts leading zeros. */
  predicate IsStableTag(tag: string) {
    var patchOn := AfterDigitsAndDot(AfterDigitsAndDot(After(Some(tag), "v")));
    patchOn.Some? && AfterDigits(patchOn.value) == Some("")
  }

  function StableVersions(tags: seq<string>): seq<string> {
    if tags == [] then []
    else (if IsStableTag(tags[0]) then [WithoutFirst(tags[0])] else []) + StableVersions(tags[1..])
  }

  function AlphaVersions(tags: seq<string>): seq<string> {
    if tags == [] then []
    else
      (if Includes(WithoutFirst(tags[0]), "-alpha.") then [WithoutFirst(tags[0])] else []) + AlphaVersions(tags[1..])
  }

  lemma {:induction false} StableVersionsAre(tags: seq<string>, v: string)
    ensures v in StableVersions(tags) <==> exists tag :: tag in tags && IsStableTag(tag) && v == WithoutFirst(tag)
  {
    if tags != [] {
      StableVersionsAre(tags[1..], v);
      assert forall tag :: tag in tags <==> tag == tags[0] || tag in tags[1..];
    }
  }

  lemma {:induction false} AlphaVersionsAre(tags: seq<string>, v: string)
    ensures v in AlphaVersions(tags) <==> exists tag :: tag in tags && v == WithoutFirst(tag) && Includes(v, "-alpha.")
  {
    if tags != [] {
      AlphaVersionsAre(tags[1..], v);
      assert forall tag :: tag in tags <==> tag == tags[0] || tag in tags[1..];
    }
  }

  predicate AllValid(versions: seq<string>) {
    forall v | v in versions :: Valid(v)
  }

  function FirstInvalid(versions: seq<string>): string
    requires !AllValid(versions)
  {
    if !Valid(versions[0]) then versions[0] else FirstInvalid(versions[1..])
  }

  // ---------- sort(compareReleaseVersions) ----------

  function Insert(v: string, sorted: seq<string>): (r: seq<string>)
    requires Valid(v) && AllValid(sorted)
    ensures forall x :: x in r <==> x == v || x in sorted
    ensures |r| == |sorted| + 1
  {
    if sorted == [] || CompareVersions(VersionOf(v), VersionOf(sorted[0])) <= 0 then [v] + sorted
    else
      assert forall x :: x in sorted <==> x == sorted[0] || x in sorted[1..];
      [sorted[0]] + Insert(v, sorted[1..])
  }

  function SortVersions(versions: seq<string>): (sorted: seq<string>)
    requires AllValid(versions)
    ensures forall x :: x in sorted <==> x in versions
    ensures |sorted| == |versions|
  {
    if versions == [] then []
    else
      assert forall x :: x in versions <==> x == versions[0] || x in versions[1..];
      Insert(versions[0], SortVersions(versions[1..]))
  }

  function Last(versions: seq<string>): string
    requires versions != []
  {
    versions[|versions| - 1]
  }

  ghost predicate LastIsGreatest(versions: seq<string>) {
    versions != [] && AllValid(versions) ==>
      forall v :: v in versions ==> CompareVersions(VersionOf(v), VersionOf(Last(versions))) <= 0
  }

  lemma {:induction false} InsertKeepsAscending(v: string, sorted: seq<string>)
    requires Valid(v) && AllValid(sorted) && Ascending(sorted)
    ensures Ascending(Insert(v, sorted))
  {
    if sorted != [] {
      assert forall x :: x in sorted <==> x == sorted[0] || x in sorted[1..];
      if CompareVersions(VersionOf(v), VersionOf(sorted[0])) <= 0 {
        forall x | x in sorted ensures CompareVersions(VersionOf(v), VersionOf(x)) <= 0 {
          CompareIsTransitive(VersionOf(v), VersionOf(sorted[0]), VersionOf(x));
        }
        assert ([v] + sorted)[1..] == sorted;
      } else {
        InsertKeepsAscending(v, sorted[1..]);
        CompareIsAntisymmetric(VersionOf(sorted[0]), VersionOf(v));
        assert ([sorted[0]] + Insert(v, sorted[1..]))[1..] == Insert(v, sorted[1..]);
      }
    }
  }

  ghost predicate Ascending(versions: seq<string>)
    requires AllValid(versions)
  {
    versions != [] ==>
      && (forall v :: v in versions ==> CompareVersions(VersionOf(versions[0]), VersionOf(v)) <= 0)
      && AllValid(versions[1..]) && Ascending(versions[1..])
  }

  lemma {:induction false} AscendingEndsGreatest(versions: seq<string>)
    requires AllValid(versions) && Ascending(versions)
    ensures LastIsGreatest(versions)
  {
    if |versions| > 1 {
      AscendingEndsGreatest(versions[1..]);
      assert Last(versions[1..]) == Last(versions);
      assert forall x :: x in versions <==> x == versions[0] || x in versions[1..];
    }
  }

  lemma {:induction false} SortedIsAscending(versions: seq<string>)
    requires AllValid(versions)
    ensures Ascending(SortVersions(versions))
  {
    if versions != [] {
      assert forall x :: x in versions <==> x == versions[0] || x in versions[1..];
      SortedIsAscending(versions[1..]);
      InsertKeepsAscending(versions[0], SortVersions(versions[1..]));
    }
  }

  lemma SortPutsTheGreatestLast(versions: seq<string>)
    requires AllValid(versions) && versions != []
    ensures Last(SortVersions(versions)) in versions
    ensures forall v :: v in versions ==> CompareVersions(VersionOf(v), VersionOf(Last(SortVersions(versions)))) <= 0
  {
    SortedIsAscending(versions);
    AscendingEndsGreatest(SortVersions(versions));
    assert Last(SortVersions(versions)) in SortVersions(versions);
  }

  // ---------- Inference ----------

  /** A list of one version is not compared, so not parsed, by the sort. */
  function LatestStableReleaseVersion(tags: seq<string>): Result<Option<string>, ReleaseError> {
    var versions := StableVersions(tags);
    if versions == [] then Ok(None)
    else if |versions| == 1 then Ok(Some(versions[0]))
    else if !AllValid(versions) then Err(InvalidVersion(FirstInvalid(versions)))
    else Ok(Some(Last(SortVersions(versions))))
  }

  function Bump(latest: Version, summary: ConventionalCommitSummary): Version {
    if summary.hasFeature || summary.hasBreakingChange then Version(latest.major, latest.minor + 1, 0, None)
    else Version(latest.major, latest.minor, latest.patch + 1, None)
  }

  /** `summary` is None when there are no commits since the latest stable tag. */
  function InferNextStableVersion(tags: seq<string>, summary: Option<ConventionalCommitSummary>)
    : Result<string, ReleaseError>
  {
    match LatestStableReleaseVersion(tags)
    case Err(error) => Err(error)
    case Ok(None) => Ok("0.1.0")
    case Ok(Some(latest)) =>
      if !Valid(latest) then Err(InvalidVersion(latest))
      else if summary.None? then Err(NoCommits)
      else Ok(FormatReleaseVersion(Bump(VersionOf(latest), summary.value)))
  }

  predicate HasBase(text: string, next: string) {
    SameStableBase(text, next) == Ok(true)
  }

  function AlphaAfter(ofBase: seq<string>, next: string): string
    requires AllValid(ofBase)
  {
    if ofBase == [] then next + "-alpha.1"
    else
      var latest := VersionOf(Last(SortVersions(ofBase)));
      var latestNumber := if latest.alphaNumber.Some? then latest.alphaNumber.value else 0;
      FormatReleaseVersion(latest.(alphaNumber := Some(latestNumber + 1)))
  }

  function NextAlpha(alphas: seq<string>, next: string): string
    requires AllValid(alphas)
  {
    FilterTakesExactly(alphas, v => HasBase(v, next));
    AlphaAfter(Filter(alphas, v => HasBase(v, next)), next)
  }

  function InferReleaseVersion(intent: ReleaseIntent, tags: seq<string>, summary: Option<ConventionalCommitSummary>)
    : Result<string, ReleaseError>
  {
    if intent.Override? then Ok(intent.version)
    else
      match InferNextStableVersion(tags, summary)
      case Err(error) => Err(error)
      case Ok(next) =>
        if intent.channel == Stable then Ok(next)
        else
          var alphas := AlphaVersions(tags);
          if !AllValid(alphas) then Err(InvalidVersion(FirstInvalid(alphas)))
          else Ok(NextAlpha(alphas, next))
  }

  function ReleaseTag(version: string): string {
    "v" + version
  }

  /** main: infer, then refuse a version whose tag exists. */
  function PrepareRelease(intent: ReleaseIntent, tags: seq<string>, summary: Option<ConventionalCommitSummary>)
    : Result<string, ReleaseError>
  {
    match InferReleaseVersion(intent, tags, summary)
    case Err(error) => Err(error)
    case Ok(version) =>
      if !Valid(version) then Err(InvalidVersion(version))
      else if ReleaseTag(version) in tags then Err(TagExists(ReleaseTag(version)))
      else Ok(version)
  }

  // ---------- Tags and versions ----------

  lemma {:induction false} DropDigitsKeepsDashes(s: string)
    ensures '-' in s <==> '-' in DropDigits(s)
  {
    if s != "" && IsDigit(s[0]) {
      DropDigitsKeepsDashes(s[1..]);
      assert forall c :: c in s <==> c == s[0] || c in s[1..];
    }
  }

  lemma DigitsAndDotKeepDashes(s: string)
    requires AfterDigitsAndDot(Some(s)).Some?
    ensures '-' in s <==> '-' in AfterDigitsAndDot(Some(s)).value
  {
    DropDigitsKeepsDashes(s);
    var rest := DropDigits(s);
    assert rest == "." + rest[1..];
    assert forall c :: c in rest <==> c == '.' || c in rest[1..];
  }

  lemma StableTagsHaveNoAlpha(tag: string)
    requires IsStableTag(tag) && Valid(WithoutFirst(tag))
    ensures VersionOf(WithoutFirst(tag)).alphaNumber == None
  {
    var text := tag[1..];
    var minorOn := AfterDigitsAndDot(Some(text));
    DigitsAndDotKeepDashes(text);
    DigitsAndDotKeepDashes(minorOn.value);
    DropDigitsKeepsDashes(AfterDigitsAndDot(minorOn).value);
    assert '-' !in text;
    DashesMarkAlphas(text);
  }

  /** A version contains a dash exactly when it has an alpha number. */
  lemma DashesMarkAlphas(text: string)
    requires Valid(text)
    ensures '-' in text <==> VersionOf(text).alphaNumber.Some?
  {
    var segments := MatchesGivesSegments(text);
    ParseReadsSegments(segments);
    assert '-' !in segments.Base();
    if segments.alpha.Some? {
      assert text[|segments.Base()|] == '-';
    }
  }

  lemma DigitsThenDot(numeral: string, rest: string)
    requires IsNumeral(numeral)
    ensures AfterDigitsAndDot(Some(numeral + "." + rest)) == Some(rest)
    ensures AfterDigits(numeral) == Some("")
  {
    assert numeral[0] in numeral;
    DigitsThenRest(numeral, "." + rest);
    assert numeral + "." + rest == numeral + ("." + rest);
    DigitsThenRest(numeral, "");
    assert numeral + "" == numeral;
  }

  predicate IsDigits(s: string) {
    s != "" && AllDigits(s)
  }

  predicate IsTagOf(tag: string, major: string, minor: string, patch: string) {
    && IsDigits(major) && IsDigits(minor) && IsDigits(patch)
    && tag == "v" + (major + "." + (minor + "." + patch))
  }

  /** The pattern of stable tags means a v, and three texts of digits with dots between them. */
  lemma StableTagsAre(tag: string)
    ensures IsStableTag(tag) <==> exists major, minor, patch :: IsTagOf(tag, major, minor, patch)
  {
    if IsStableTag(tag) {
      var major, minorOn := DigitsAndDotDrop(tag[1..]);
      var minor, patchOn := DigitsAndDotDrop(minorOn);
      var patch := DropDigitsDrops(patchOn);
      assert patchOn == patch + "";
      assert tag == "v" + tag[1..];
      assert IsTagOf(tag, major, minor, patch);
    }
    if major, minor, patch :| IsTagOf(tag, major, minor, patch) {
      var patchOn := patch;
      var minorOn := minor + "." + patchOn;
      assert minorOn == minor + ("." + patchOn);
      assert tag[1..] == major + ("." + minorOn);
      DigitsThenRest(major, "." + minorOn);
      DigitsThenRest(minor, "." + patchOn);
      DigitsThenRest(patch, "");
      assert patch + "" == patch && major[0] in major && minor[0] in minor && patch[0] in patch;
      assert ("." + minorOn)[1..] == minorOn && ("." + patchOn)[1..] == patchOn;
      assert tag[1..][0] == major[0] && minorOn[0] == minor[0];
      assert AfterDigitsAndDot(Some(tag[1..])) == Some(minorOn);
      assert AfterDigitsAndDot(Some(minorOn)) == Some(patchOn);
    }
  }

  lemma DigitsAndDotDrop(s: string) returns (digits: string, rest: string)
    requires AfterDigitsAndDot(Some(s)).Some?
    ensures IsDigits(digits) && rest == AfterDigitsAndDot(Some(s)).value && s == digits + ("." + rest)
  {
    digits := DropDigitsDrops(s);
    rest := AfterDigitsAndDot(Some(s)).value;
    assert DropDigits(s) == "." + rest;
  }

  lemma StableVersionsHaveStableTags(text: string)
    requires Valid(text) && VersionOf(text).alphaNumber == None
    ensures IsStableTag(ReleaseTag(text)) && WithoutFirst(ReleaseTag(text)) == text
  {
    var segments := MatchesGivesSegments(text);
    ParseReadsSegments(segments);
    assert text == segments.major + "." + (segments.minor + "." + segments.patch);
    DigitsThenDot(segments.major, segments.minor + "." + segments.patch);
    DigitsThenDot(segments.minor, segments.patch);
    DigitsThenDot(segments.patch, "");
    assert ReleaseTag(text)[1..] == text;
  }

  lemma {:induction false} IncludesInside(before: string, part: string, rest: string)
    ensures Includes(before + part + rest, part)
  {
    if before == "" {
      assert before + part + rest == part + rest;
    } else {
      assert (before + part + rest)[1..] == before[1..] + part + rest;
      IncludesInside(before[1..], part, rest);
    }
  }

  lemma AlphaVersionsIncludeAlpha(text: string)
    requires Valid(text) && VersionOf(text).alphaNumber.Some?
    ensures Includes(text, "-alpha.")
  {
    var segments := MatchesGivesSegments(text);
    ParseReadsSegments(segments);
    IncludesInside(segments.Base(), "-alpha.", segments.alpha.value);
  }

  // ---------- When inference succeeds ----------

  predicate StableTagsUsable(tags: seq<string>, summary: Option<ConventionalCommitSummary>) {
    StableVersions(tags) == [] || (AllValid(StableVersions(tags)) && summary.Some?)
  }

  /** Inference on a channel succeeds exactly when every stable tag is canonical, there are
      commits since the latest one, and for an alpha every alpha tag is canonical too. */
  lemma InferenceSucceedsIff(channel: Channel, tags: seq<string>, summary: Option<ConventionalCommitSummary>)
    ensures InferReleaseVersion(OnChannel(channel), tags, summary).Ok?
            <==> StableTagsUsable(tags, summary) && (channel == Alpha ==> AllValid(AlphaVersions(tags)))
  {
    LatestIsOneOfTheStableVersions(tags);
  }

  lemma LatestIsOneOfTheStableVersions(tags: seq<string>)
    ensures var versions := StableVersions(tags);
      var latest := LatestStableReleaseVersion(tags);
      && (versions == [] <==> latest == Ok(None))
      && (AllValid(versions) ==> latest.Ok? && (latest.value.Some? ==> Valid(latest.value.value)))
      && (latest.Ok? && latest.value.Some? && Valid(latest.value.value) ==> AllValid(versions))
  {
    var versions := StableVersions(tags);
    if versions != [] && AllValid(versions) {
      SortPutsTheGreatestLast(versions);
    }
  }

  // ---------- What is inferred ----------

  lemma LatestIsGreatest(tags: seq<string>)
    requires AllValid(StableVersions(tags)) && StableVersions(tags) != []
    ensures var latest := LatestStableReleaseVersion(tags);
      && latest.Ok? && latest.value.Some? && latest.value.value in StableVersions(tags)
      && VersionOf(latest.value.value).alphaNumber == None
      && forall v :: v in StableVersions(tags) ==> CompareVersions(VersionOf(v), VersionOf(latest.value.value)) <= 0
  {
    var versions := StableVersions(tags);
    SortPutsTheGreatestLast(versions);
    var latest := LatestStableReleaseVersion(tags).value.value;
    StableVersionsAre(tags, latest);
    var tag :| tag in tags && IsStableTag(tag) && latest == WithoutFirst(tag);
    StableTagsHaveNoAlpha(tag);
  }

  lemma BumpExceeds(v: Version, latest: Version, summary: ConventionalCommitSummary, n: nat)
    requires latest.alphaNumber == None && CompareVersions(v, latest) <= 0
    ensures CompareVersions(v, Bump(latest, summary)) == -1
    ensures CompareVersions(v, Bump(latest, summary).(alphaNumber := Some(n))) == -1
  {
  }

  /** The next stable version is a stable version above every stable tag, and so are its
      alphas. */
  lemma NextStableExceedsEveryStableTag(tags: seq<string>, summary: Option<ConventionalCommitSummary>, n: nat)
    requires StableTagsUsable(tags, summary)
    ensures InferNextStableVersion(tags, summary).Ok?
    ensures Valid(InferNextStableVersion(tags, summary).value)
    ensures var next := VersionOf(InferNextStableVersion(tags, summary).value);
      && next.alphaNumber == None
      && forall v :: v in StableVersions(tags) ==>
           && Valid(v)
           && CompareVersions(VersionOf(v), next) == -1
           && CompareVersions(VersionOf(v), next.(alphaNumber := Some(n))) == -1
  {
    if StableVersions(tags) == [] {
      FirstVersionIsStable();
    } else {
      LatestIsGreatest(tags);
      var latest := VersionOf(LatestStableReleaseVersion(tags).value.value);
      ParseOfFormat(Bump(latest, summary.value));
      forall v | v in StableVersions(tags)
        ensures CompareVersions(VersionOf(v), Bump(latest, summary.value)) == -1
        ensures CompareVersions(VersionOf(v), Bump(latest, summary.value).(alphaNumber := Some(n))) == -1
      {
        BumpExceeds(VersionOf(v), latest, summary.value, n);
      }
    }
  }

  lemma FirstVersionIsStable()
    ensures Valid("0.1.0") && VersionOf("0.1.0").alphaNumber == None
  {
    ParseReadsSegments(Segments("0", "1", "0", None));
    assert Segments("0", "1", "0", None).Text() == "0.1.0";
  }

  lemma HasBaseMeans(text: string, next: string)
    requires Valid(text) && Valid(next)
    ensures HasBase(text, next)
            <==> VersionOf(text).(alphaNumber := None) == VersionOf(next).(alphaNumber := None)
  {
  }

  lemma {:induction false} IncludedCharactersOccur(s: string, part: string, c: char)
    requires Includes(s, part) && c in part
    ensures c in s
  {
    if part <= s {
      var i :| 0 <= i < |part| && part[i] == c;
      assert s[i] == c;
    } else {
      IncludedCharactersOccur(s[1..], part, c);
    }
  }

  lemma AlphaTagsHaveAlpha(text: string)
    requires Valid(text) && Includes(text, "-alpha.")
    ensures VersionOf(text).alphaNumber.Some?
  {
    assert "-alpha."[0] == '-';
    IncludedCharactersOccur(text, "-alpha.", '-');
    DashesMarkAlphas(text);
  }

  /** Of versions with one base the greatest has the greatest alpha number. */
  lemma AlphaAboveGreatest(v: Version, latest: Version)
    requires v.(alphaNumber := None) == latest.(alphaNumber := None)
    requires v.alphaNumber.Some? && latest.alphaNumber.Some? && CompareVersions(v, latest) <= 0
    ensures CompareVersions(v, latest.(alphaNumber := Some(latest.alphaNumber.value + 1))) == -1
  {
  }

  lemma AlphaAfterExceeds(ofBase: seq<string>, next: string)
    requires AllValid(ofBase) && Valid(next) && VersionOf(next).alphaNumber == None
    requires forall v :: v in ofBase ==> VersionOf(v).alphaNumber.Some? && HasBase(v, next)
    ensures Valid(AlphaAfter(ofBase, next))
    ensures VersionOf(AlphaAfter(ofBase, next)).alphaNumber.Some?
    ensures VersionOf(AlphaAfter(ofBase, next)).(alphaNumber := None) == VersionOf(next)
    ensures forall v :: v in ofBase ==> CompareVersions(VersionOf(v), VersionOf(AlphaAfter(ofBase, next))) == -1
  {
    if ofBase == [] {
      AppendFirstAlpha(next);
    } else {
      SortPutsTheGreatestLast(ofBase);
      var greatest := Last(SortVersions(ofBase));
      var latest := VersionOf(greatest);
      assert latest.alphaNumber.Some? && HasBase(greatest, next);
      ParseOfFormat(latest.(alphaNumber := Some(latest.alphaNumber.value + 1)));
      HasBaseMeans(greatest, next);
      forall v | v in ofBase
        ensures CompareVersions(VersionOf(v), latest.(alphaNumber := Some(latest.alphaNumber.value + 1))) == -1
      {
        HasBaseMeans(v, next);
        AlphaAboveGreatest(VersionOf(v), latest);
      }
    }
  }

  /** The inferred alpha is the next stable version with an alpha number above that of every
      alpha tag of the same base, and 1 when there is none. */
  lemma NextAlphaExceedsAlphasOfItsBase(alphas: seq<string>, next: string)
    requires AllValid(alphas) && Valid(next) && VersionOf(next).alphaNumber == None
    requires forall v :: v in alphas ==> VersionOf(v).alphaNumber.Some?
    ensures Valid(NextAlpha(alphas, next))
    ensures var alpha := VersionOf(NextAlpha(alphas, next));
      && alpha.alphaNumber.Some? && alpha.(alphaNumber := None) == VersionOf(next)
      && (forall v :: v in alphas && HasBase(v, next) ==> CompareVersions(VersionOf(v), alpha) == -1)
  {
    FilterTakesExactly(alphas, v => HasBase(v, next));
    AlphaAfterExceeds(Filter(alphas, v => HasBase(v, next)), next);
  }

  lemma InferredAlphaIsNextAlpha(tags: seq<string>, summary: Option<ConventionalCommitSummary>)
    requires StableTagsUsable(tags, summary) && AllValid(AlphaVersions(tags))
    ensures InferNextStableVersion(tags, summary).Ok?
    ensures InferReleaseVersion(OnChannel(Alpha), tags, summary)
            == Ok(NextAlpha(AlphaVersions(tags), InferNextStableVersion(tags, summary).value))
    ensures forall v :: v in AlphaVersions(tags) ==> VersionOf(v).alphaNumber.Some?
  {
    InferenceSucceedsIff(Alpha, tags, summary);
    forall v | v in AlphaVersions(tags) ensures VersionOf(v).alphaNumber.Some? {
      AlphaVersionsAre(tags, v);
      AlphaTagsHaveAlpha(v);
    }
  }

  lemma AppendFirstAlpha(next: string)
    requires Valid(next) && VersionOf(next).alphaNumber == None
    ensures Valid(next + "-alpha.1")
    ensures VersionOf(next + "-alpha.1") == VersionOf(next).(alphaNumber := Some(1))
  {
    var segments := MatchesGivesSegments(next);
    ParseReadsSegments(segments);
    var alpha := Segments(segments.major, segments.minor, segments.patch, Some("1"));
    OneIsANumeral();
    assert alpha.Canonical() && alpha.Text() == next + "-alpha." + "1";
    assert next + "-alpha." + "1" == next + "-alpha.1";
    ParseReadsSegments(alpha);
  }

  lemma OneIsANumeral()
    ensures IsNumeral("1") && ReadNumber("1") == 1
  {
    assert "1"[..0] == "";
  }

  lemma TaggedStablesAreListed(version: string, tags: seq<string>)
    requires Valid(version) && VersionOf(version).alphaNumber == None && ReleaseTag(version) in tags
    ensures version in StableVersions(tags) && CompareVersions(VersionOf(version), VersionOf(version)) == 0
  {
    StableVersionsHaveStableTags(version);
    StableVersionsAre(tags, version);
    CompareIsAntisymmetric(VersionOf(version), VersionOf(version));
  }

  lemma TaggedAlphasAreListed(version: string, tags: seq<string>)
    requires Valid(version) && VersionOf(version).alphaNumber.Some? && ReleaseTag(version) in tags
    ensures version in AlphaVersions(tags) && HasBase(version, version)
    ensures CompareVersions(VersionOf(version), VersionOf(version)) == 0
  {
    AlphaVersionsIncludeAlpha(version);
    AlphaVersionsAre(tags, version);
    assert WithoutFirst(ReleaseTag(version)) == version;
    HasBaseMeans(version, version);
    CompareIsAntisymmetric(VersionOf(version), VersionOf(version));
  }

  // ---------- Main results ----------

  /** Whenever inference succeeds, the stable version is valid, above every stable tag, and not tagged yet. */
  lemma InferredStableIsNew(tags: seq<string>, summary: Option<ConventionalCommitSummary>)
    requires StableTagsUsable(tags, summary)
    ensures InferReleaseVersion(OnChannel(Stable), tags, summary).Ok?
    ensures var version := InferReleaseVersion(OnChannel(Stable), tags, summary).value;
      && Valid(version) && VersionOf(version).alphaNumber == None
      && (forall v :: v in StableVersions(tags) ==> Valid(v) && CompareVersions(VersionOf(v), VersionOf(version)) == -1)
      && ReleaseTag(version) !in tags
  {
    InferenceSucceedsIff(Stable, tags, summary);
    NextStableExceedsEveryStableTag(tags, summary, 0);
    var version := InferReleaseVersion(OnChannel(Stable), tags, summary).value;
    StableVersionsHaveStableTags(version);
    if ReleaseTag(version) in tags {
      TaggedStablesAreListed(version, tags);
    }
  }

  /** Whenever inference succeeds, the alpha is valid, above every alpha tag of its base, above every stable tag and
      below the next stable version, and not tagged yet. */
  lemma InferredAlphaIsNewAndBetween(tags: seq<string>, summary: Option<ConventionalCommitSummary>)
    requires StableTagsUsable(tags, summary) && AllValid(AlphaVersions(tags))
    ensures InferReleaseVersion(OnChannel(Alpha), tags, summary).Ok?
    ensures var version := InferReleaseVersion(OnChannel(Alpha), tags, summary).value;
      && Valid(version) && VersionOf(version).alphaNumber.Some?
      && (forall v :: v in StableVersions(tags) ==> Valid(v) && CompareVersions(VersionOf(v), VersionOf(version)) == -1)
      && (forall v :: v in AlphaVersions(tags) && HasBase(v, version) ==>
            Valid(v) && CompareVersions(VersionOf(v), VersionOf(version)) == -1)
      && ReleaseTag(version) !in tags
    ensures var version := InferReleaseVersion(OnChannel(Alpha), tags, summary).value;
      var next := InferReleaseVersion(OnChannel(Stable), tags, summary);
      next.Ok? && Valid(next.value) && CompareVersions(VersionOf(version), VersionOf(next.value)) == -1
  {
    InferredAlphaIsNextAlpha(tags, summary);
    var alphas := AlphaVersions(tags);
    var next := InferNextStableVersion(tags, summary).value;
    var version := NextAlpha(alphas, next);
    NextStableExceedsEveryStableTag(tags, summary, 0);
    NextAlphaExceedsAlphasOfItsBase(alphas, next);
    NextStableExceedsEveryStableTag(tags, summary, VersionOf(version).alphaNumber.value);
    forall v | v in alphas && HasBase(v, version)
      ensures CompareVersions(VersionOf(v), VersionOf(version)) == -1
    {
      HasBaseMeans(v, version);
      HasBaseMeans(v, next);
    }
    if ReleaseTag(version) in tags {
      TaggedAlphasAreListed(version, tags);
    }
  }

  /** An override is taken as it is iff it is a release version whose tag does not exist. */
  lemma OverrideSucceedsIff(version: string, tags: seq<string>, summary: Option<ConventionalCommitSummary>)
    ensures var prepared := PrepareRelease(Override(version), tags, summary);
      && (prepared.Ok? <==> IsReleaseVersion(version) && "v" + version !in tags)
      && (prepared.Ok? ==> prepared.value == version)
      && (prepared.Err? ==>
            prepared.error == if IsReleaseVersion(version) then TagExists("v" + version) else InvalidVersion(version))
  {
    ParserAcceptsThePattern(version);
  }

  // ---------- Exactly what is inferred ----------

  /** The text of a stable version. */
  function StableText(major: nat, minor: nat, patch: nat): string {
    Print(major) + "." + Print(minor) + "." + Print(patch)
  }

  ghost predicate IsGreatestStable(tags: seq<string>, greatest: string) {
    && greatest in StableVersions(tags)
    && forall v :: v in StableVersions(tags) ==>
         CompareVersions(VersionOrZero(v), VersionOrZero(greatest)) <= 0
  }

  function VersionOrZero(text: string): Version {
    if Valid(text) then VersionOf(text) else Version(0, 0, 0, None)
  }

  lemma GreatestIsLatest(tags: seq<string>, greatest: string)
    requires AllValid(StableVersions(tags)) && IsGreatestStable(tags, greatest)
    ensures LatestStableReleaseVersion(tags) == Ok(Some(greatest))
    ensures Valid(greatest) && VersionOf(greatest).alphaNumber == None
  {
    LatestIsGreatest(tags);
    var latest := LatestStableReleaseVersion(tags).value.value;
    CompareIsAntisymmetric(VersionOf(latest), VersionOf(greatest));
    CompareFindsTheFirstDifference(VersionOf(latest), VersionOf(greatest));
    FormatOfParse(latest);
    FormatOfParse(greatest);
  }

  lemma TextsDiffer(a: Version, b: Version)
    ensures FormatReleaseVersion(a) == FormatReleaseVersion(b) <==> a == b
  {
    ParseOfFormat(a);
    ParseOfFormat(b);
  }

  /** With x.y.z the greatest stable tag, the inferred stable version is x.(y+1).0 iff there is
      a feature or a breaking change among the commits, and x.y.(z+1) iff there is none. Without
      stable tags it is 0.1.0. */
  lemma InferredStableIsExact(tags: seq<string>, summary: Option<ConventionalCommitSummary>, greatest: string)
    requires StableTagsUsable(tags, summary)
    ensures StableVersions(tags) == [] ==> InferReleaseVersion(OnChannel(Stable), tags, summary) == Ok("0.1.0")
    ensures IsGreatestStable(tags, greatest) ==>
      var v := VersionOrZero(greatest);
      var inferred := InferReleaseVersion(OnChannel(Stable), tags, summary);
      && summary.Some? && greatest == StableText(v.major, v.minor, v.patch)
      && (inferred == Ok(StableText(v.major, v.minor + 1, 0))
          <==> summary.value.hasFeature || summary.value.hasBreakingChange)
      && (inferred == Ok(StableText(v.major, v.minor, v.patch + 1))
          <==> !summary.value.hasFeature && !summary.value.hasBreakingChange)
  {
    if IsGreatestStable(tags, greatest) {
      GreatestIsLatest(tags, greatest);
      var v := VersionOf(greatest);
      FormatOfParse(greatest);
      TextsDiffer(Version(v.major, v.minor + 1, 0, None), Version(v.major, v.minor, v.patch + 1, None));
    }
  }

  /** No stable version lies strictly between the greatest stable tag and an inferred patch
      release, and between it and an inferred minor release only patches of the same minor. */
  lemma NothingIsSkipped(tags: seq<string>, summary: Option<ConventionalCommitSummary>, greatest: string,
                         between: Version)
    requires StableTagsUsable(tags, summary) && IsGreatestStable(tags, greatest) && between.alphaNumber == None
    ensures
      var inferred := InferReleaseVersion(OnChannel(Stable), tags, summary);
      && inferred.Ok? && Valid(inferred.value) && Valid(greatest)
      && (CompareVersions(VersionOf(greatest), between) == -1
          && CompareVersions(between, VersionOf(inferred.value)) == -1
          ==> && (summary.value.hasFeature || summary.value.hasBreakingChange)
              && between.major == VersionOf(greatest).major && between.minor == VersionOf(greatest).minor)
  {
    InferredStableIsNew(tags, summary);
    InferredStableIsExact(tags, summary, greatest);
    GreatestIsLatest(tags, greatest);
    var v := VersionOf(greatest);
    ParseOfFormat(Version(v.major, v.minor + 1, 0, None));
    ParseOfFormat(Version(v.major, v.minor, v.patch + 1, None));
    if CompareVersions(v, between) == -1 {
      BetweenIsSkipped(v, between);
    }
  }

  lemma BetweenIsSkipped(v: Version, between: Version)
    requires v.alphaNumber == None && between.alphaNumber == None && CompareVersions(v, between) == -1
    ensures CompareVersions(between, Version(v.major, v.minor, v.patch + 1, None)) != -1
    ensures CompareVersions(between, Version(v.major, v.minor + 1, 0, None)) == -1 ==>
      between.major == v.major && between.minor == v.minor
  {
  }

  /** The alphas among the tags that have the numbers of the next stable version. */
  ghost predicate IsAlphaOf(tags: seq<string>, next: Version, v: string) {
    && v in AlphaVersions(tags) && Valid(v)
    && VersionOf(v).major == next.major && VersionOf(v).minor == next.minor && VersionOf(v).patch == next.patch
  }

  /** The inferred alpha is the text of the next stable version with an alpha number: 1 when no
      alpha tag has its numbers, and otherwise one more than the greatest of those. */
  lemma InferredAlphaIsExact(tags: seq<string>, summary: Option<ConventionalCommitSummary>) returns (n: nat)
    requires StableTagsUsable(tags, summary) && AllValid(AlphaVersions(tags))
    ensures
      var stable := InferReleaseVersion(OnChannel(Stable), tags, summary);
      && stable.Ok? && Valid(stable.value)
      && InferReleaseVersion(OnChannel(Alpha), tags, summary) == Ok(stable.value + "-alpha." + Print(n))
      && var next := VersionOf(stable.value);
      && (forall v :: IsAlphaOf(tags, next, v) ==>
            VersionOf(v).alphaNumber.Some? && VersionOf(v).alphaNumber.value < n)
      && if exists v :: IsAlphaOf(tags, next, v)
         then n > 0 && exists v :: IsAlphaOf(tags, next, v) && VersionOf(v).alphaNumber == Some((n - 1) as nat)
         else n == 1
  {
    InferredStableIsNew(tags, summary);
    InferredAlphaIsNextAlpha(tags, summary);
    var alphas := AlphaVersions(tags);
    var text := InferNextStableVersion(tags, summary).value;
    var next := VersionOf(text);
    n := NextAlphaIsExact(alphas, text);
    forall v ensures IsAlphaOf(tags, next, v) <==> v in alphas && HasBase(v, text) {
      if v in alphas {
        HasBaseMeans(v, text);
      }
    }
  }

  lemma NextAlphaIsExact(alphas: seq<string>, next: string) returns (n: nat)
    requires AllValid(alphas) && Valid(next) && VersionOf(next).alphaNumber == None
    requires forall v :: v in alphas ==> VersionOf(v).alphaNumber.Some?
    ensures NextAlpha(alphas, next) == next + "-alpha." + Print(n)
    ensures forall v :: v in alphas && HasBase(v, next) ==> VersionOf(v).alphaNumber.value < n
    ensures if exists v :: v in alphas && HasBase(v, next)
            then n > 0 && exists v :: v in alphas && HasBase(v, next)
                                      && VersionOf(v).alphaNumber == Some((n - 1) as nat)
            else n == 1
  {
    FilterTakesExactly(alphas, v => HasBase(v, next));
    var ofBase := Filter(alphas, v => HasBase(v, next));
    if ofBase == [] {
      n := 1;
      PrintOne();
    } else {
      var greatest: string;
      n, greatest := AlphaAfterIsExact(ofBase, next);
      assert greatest in alphas && HasBase(greatest, next);
    }
  }

  lemma AlphaAfterIsExact(ofBase: seq<string>, next: string) returns (n: nat, greatest: string)
    requires AllValid(ofBase) && Valid(next) && VersionOf(next).alphaNumber == None && ofBase != []
    requires forall v :: v in ofBase ==> VersionOf(v).alphaNumber.Some? && HasBase(v, next)
    ensures AlphaAfter(ofBase, next) == next + "-alpha." + Print(n)
    ensures forall v :: v in ofBase ==> VersionOf(v).alphaNumber.value < n
    ensures greatest in ofBase && n > 0 && VersionOf(greatest).alphaNumber == Some((n - 1) as nat)
  {
    greatest := GreatestAlpha(ofBase, next);
    n := VersionOf(greatest).alphaNumber.value + 1;
    AlphaText(VersionOf(greatest), next, n);
  }

  lemma GreatestAlpha(ofBase: seq<string>, next: string) returns (greatest: string)
    requires AllValid(ofBase) && Valid(next) && ofBase != []
    requires forall v :: v in ofBase ==> VersionOf(v).alphaNumber.Some? && HasBase(v, next)
    ensures greatest == Last(SortVersions(ofBase)) && greatest in ofBase
    ensures VersionOf(greatest).(alphaNumber := None) == VersionOf(next).(alphaNumber := None)
    ensures forall v :: v in ofBase ==> VersionOf(v).alphaNumber.value <= VersionOf(greatest).alphaNumber.value
  {
    SortPutsTheGreatestLast(ofBase);
    greatest := Last(SortVersions(ofBase));
    HasBaseMeans(greatest, next);
    forall v | v in ofBase ensures VersionOf(v).alphaNumber.value <= VersionOf(greatest).alphaNumber.value {
      HasBaseMeans(v, next);
      NotAboveInNumber(VersionOf(v), VersionOf(greatest));
    }
  }

  lemma NotAboveInNumber(v: Version, latest: Version)
    requires v.(alphaNumber := None) == latest.(alphaNumber := None)
    requires v.alphaNumber.Some? && latest.alphaNumber.Some? && CompareVersions(v, latest) <= 0
    ensures v.alphaNumber.value <= latest.alphaNumber.value
  {
  }

  lemma AlphaText(latest: Version, next: string, n: nat)
    requires Valid(next) && VersionOf(next).alphaNumber == None
    requires latest.(alphaNumber := None) == VersionOf(next)
    ensures FormatReleaseVersion(latest.(alphaNumber := Some(n))) == next + "-alpha." + Print(n)
  {
    FormatOfParse(next);
  }

  lemma PrintOne()
    ensures Print(1) == "1"
  {
    assert DigitOf(1) == '1';
  }

  /** So a channel release is never refused for an existing tag: preparing it succeeds exactly
      when inference does. Only an override can name an existing version. */
  lemma ChannelReleasesNeverCollide(channel: Channel, tags: seq<string>, summary: Option<ConventionalCommitSummary>)
    ensures PrepareRelease(OnChannel(channel), tags, summary) == InferReleaseVersion(OnChannel(channel), tags, summary)
  {
    InferenceSucceedsIff(channel, tags, summary);
    if InferReleaseVersion(OnChannel(channel), tags, summary).Ok? {
      if channel == Stable {
        InferredStableIsNew(tags, summary);
      } else {
        InferredAlphaIsNewAndBetween(tags, summary);
      }
    }
  }
}
