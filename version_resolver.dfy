/** Dependabot::Shards::UpdateChecker::VersionResolver. It runs `shards outdated` and, when
    shards answers that a specification is ambiguous, picks one of the specifications the error
    lists (better_specification_needed?) and retries once more. The subprocess, temporary files,
    YAML and TOML are not part of this model: each run's outcome is an input (RunOutcome), and so
    are GitCommitChecker#git_dependency? and the result of git_dependency_version. */
module ShardsVersionResolver {
  import opened Common
  import opened Dependencies
  import opened ShardsUpdateChecker
  import ShardsFileParser

  /** What the resolver knows about the dependency it resolves. */
  datatype ResolverContext = ResolverContext(
    dependency: Dependency,
    /** GitCommitChecker#git_dependency? */
    gitDependency: bool,
    /** git_dependency_version */
    gitDependencyVersion: Option<string>)

  datatype ResolverError =
    /** `s.end_with?(nil)`: there is no version to match candidates against */
    | TypeErrorNilSuffix
    /** handle_cargo_errors is called but not defined */
    | NoMethodErrorHandleCargoErrors

  /** One run of `shards outdated`: it succeeds, or fails with its output as the message. */
  datatype RunOutcome = Succeeded | Failed(message: string)

  /** How fetch_latest_resolvable_version ends: a successful run reaches `exit 0`, a failure
      that is not retried raises, and RunsExhausted means every given run failed and was retried. */
  datatype FetchOutcome = Exited | Raised(error: ResolverError) | RunsExhausted

  // ---------------------------------------------------------------------------
  // Reading the error message

  /** `/specification .* is ambigu/`: the two phrases on one line, in that order. */
  predicate AmbiguityAt(message: string, i: int, j: int) {
    0 <= i && i + 14 <= j && OccursAt(message, i, "specification ") && OccursAt(message, j, " is ambigu") &&
    '\n' !in message[i + 14..j]
  }

  predicate MatchesAmbiguous(message: string) {
    exists i, j | 0 <= i <= j <= |message| :: AmbiguityAt(message, i, j)
  }

  const Marker: string := "following:\n"

  /** The last position at or before k where `part` occurs in s. */
  function LastOccurrence(s: string, part: string, k: int): (r: Option<nat>)
    ensures r.Some? ==> r.value <= k && OccursAt(s, r.value, part)
    ensures forall j | (if r.Some? then r.value + 1 else 0) <= j <= k :: !OccursAt(s, j, part)
    decreases k + 1
  {
    if k < 0 then None
    else if OccursAt(s, k, part) then Some(k)
    else LastOccurrence(s, part, k - 1)
  }

  /** `gsub(/.*following:\n/m, "")`: the text after the last marker, all of it without one. */
  function AfterLastMarker(message: string): (r: string)
    ensures !Contains(message, Marker) ==> r == message
    ensures Contains(message, Marker) ==>
      !Contains(r, Marker) && |Marker| + |r| <= |message| && message[|message| - |r| - |Marker|..] == Marker + r
  {
    match LastOccurrence(message, Marker, |message| - |Marker|)
    case None => message
    case Some(i) =>
      assert OccursAt(message, i, Marker);
      var r := message[i + |Marker|..];
      assert !Contains(r, Marker) by {
        forall j | 0 <= j <= |r| - |Marker| ensures !OccursAt(r, j, Marker) {
          var at := i + |Marker| + j;
          assert i + 1 <= at <= |message| - |Marker|;
          assert !OccursAt(message, at, Marker);
          assert r[j..j + |Marker|] == message[at..at + |Marker|];
        }
      }
      r
  }

  /** The candidate specifications: the stripped lines after the marker. */
  function Candidates(message: string): (r: seq<string>)
    ensures |r| == |Lines(AfterLastMarker(message))|
  {
    var lines := Lines(AfterLastMarker(message));
    seq(|lines|, k requires 0 <= k < |lines| => Strip(lines[k]))
  }

  // ---------------------------------------------------------------------------
  // Choosing a specification

  /** `select { |s| s.end_with?(suffix) }`, order kept. */
  function SelectEndingWith(xs: seq<string>, suffix: string): (r: seq<string>)
    ensures |r| <= |xs|
    ensures forall x | x in r :: x in xs && EndsWith(x, suffix)
    ensures forall x | x in xs && EndsWith(x, suffix) :: x in r
  {
    if xs == [] then []
    else (if EndsWith(xs[0], suffix) then [xs[0]] else []) + SelectEndingWith(xs[1..], suffix)
  }

  /** `select { |s| s.include?(part) }`, order kept. */
  function SelectContaining(xs: seq<string>, part: string): (r: seq<string>)
    ensures |r| <= |xs|
    ensures forall x | x in r :: x in xs && Contains(x, part)
    ensures forall x | x in xs && Contains(x, part) :: x in r
  {
    if xs == [] then []
    else (if Contains(xs[0], part) then [xs[0]] else []) + SelectContaining(xs[1..], part)
  }

  /** The suffix candidates are matched against: the git dependency's version when there is one,
      the dependency's version otherwise. */
  function Ver(ctx: ResolverContext): Option<string> {
    if ctx.gitDependency && ctx.gitDependencyVersion.Some? then ctx.gitDependencyVersion else ctx.dependency.version
  }

  predicate IsGitRequirement(r: RequirementEntry) {
    r.source.Some? && r.source.value.GitSource?
  }

  /** git_source_url: the URL of the first requirement with a git source. */
  function GitSourceUrl(requirements: seq<RequirementEntry>): (r: Option<string>)
    ensures r.None? <==> forall k | 0 <= k < |requirements| :: !IsGitRequirement(requirements[k])
    ensures r.Some? ==> exists k | 0 <= k < |requirements| ::
      IsGitRequirement(requirements[k]) && requirements[k].source.value.url == r.value &&
      forall j | 0 <= j < k :: !IsGitRequirement(requirements[j])
  {
    if requirements == [] then None
    else if IsGitRequirement(requirements[0]) then Some(requirements[0].source.value.url)
    else
      var r := GitSourceUrl(requirements[1..]);
      assert forall k | 1 <= k < |requirements| :: requirements[k] == requirements[1..][k - 1];
      if r.Some? then
        ghost var k :| 0 <= k < |requirements[1..]| && IsGitRequirement(requirements[1..][k]) &&
          requirements[1..][k].source.value.url == r.value && forall j | 0 <= j < k :: !IsGitRequirement(requirements[1..][j]);
        assert IsGitRequirement(requirements[k + 1]);
        r
      else r
  }

  /** The URL candidates are narrowed by: git_source_url, for a git dependency only. */
  function UrlFilter(ctx: ResolverContext): Option<string> {
    if ctx.gitDependency then GitSourceUrl(ctx.dependency.requirements) else None
  }

  /** The specification better_specification_needed? settles on, given the candidates: nil when
      there are none; the one candidate ending with `ver` if there is exactly one; otherwise the
      first of those ending with `ver` (all candidates if none does), narrowed to those containing
      the git URL when some do. Matching a suffix against a nil `ver` raises. */
  function ChooseSpecification(candidates: seq<string>, ver: Option<string>, url: Option<string>)
    : Result<Option<string>, ResolverError>
  {
    if candidates == [] then Ok(None)
    else if ver.None? then Err(TypeErrorNilSuffix)
    else
      var ending := SelectEndingWith(candidates, ver.value);
      if |ending| == 1 then Ok(Some(ending[0]))
      else
        var narrowed := if |ending| > 1 then ending else candidates;
        var byUrl := if url.Some? then SelectContaining(narrowed, url.value) else [];
        var remaining := if |byUrl| >= 1 then byUrl else narrowed;
        Ok(Some(remaining[0]))
  }

  /** better_specification_needed? as a function of the custom specification before the call:
      the answer, and the custom specification after it. */
  function SpecificationStep(custom: Option<string>, message: string, ctx: ResolverContext)
    : (Result<bool, ResolverError>, Option<string>)
  {
    if custom.Some? then (Ok(false), custom)
    else if !MatchesAmbiguous(message) then (Ok(false), custom)
    else
      match ChooseSpecification(Candidates(message), Ver(ctx), UrlFilter(ctx))
      case Err(e) => (Err(e), custom)
      case Ok(choice) => (Ok(true), choice)
  }

  /** fetch_latest_resolvable_version over a sequence of run outcomes: retry while
      better_specification_needed? says so. Returns the outcome and the final custom specification. */
  function Drive(custom: Option<string>, runs: seq<RunOutcome>, ctx: ResolverContext): (FetchOutcome, Option<string>)
    decreases |runs|
  {
    if runs == [] then (RunsExhausted, custom)
    else if runs[0].Succeeded? then (Exited, custom)
    else
      var (answer, next) := SpecificationStep(custom, runs[0].message, ctx);
      if answer.Err? then (Raised(answer.error), next)
      else if !answer.value then (Raised(NoMethodErrorHandleCargoErrors), next)
      else Drive(next, runs[1..], ctx)
  }

  /** The version appended to the dependency's name: the git version for a git dependency, the
      dependency's version otherwise. */
  function AppendedVersion(ctx: ResolverContext): Option<string> {
    if ctx.gitDependency then ctx.gitDependencyVersion else ctx.dependency.version
  }

  /** dependency_spec: the custom specification if set, otherwise `name` or `name:version`. */
  function SpecString(custom: Option<string>, ctx: ResolverContext): string {
    if custom.Some? then custom.value
    else if AppendedVersion(ctx).Some? then ctx.dependency.name + ":" + AppendedVersion(ctx).value
    else ctx.dependency.name
  }

  // ---------------------------------------------------------------------------
  // The resolver object

  class VersionResolver {
    const dependency: Dependency
    const gitDependency: bool
    const gitDependencyVersion: Option<string>
    /** @custom_specification */
    var customSpecification: Option<string>

    constructor (dependency: Dependency, gitDependency: bool, gitDependencyVersion: Option<string>)
      ensures this.dependency == dependency && this.gitDependency == gitDependency
      ensures this.gitDependencyVersion == gitDependencyVersion
      ensures customSpecification.None?
    {
      this.dependency := dependency;
      this.gitDependency := gitDependency;
      this.gitDependencyVersion := gitDependencyVersion;
      customSpecification := None;
    }

    function Context(): ResolverContext {
      ResolverContext(dependency, gitDependency, gitDependencyVersion)
    }

    /** better_specification_needed?(error). */
    method BetterSpecificationNeeded(message: string) returns (r: Result<bool, ResolverError>)
      modifies this
      ensures (r, customSpecification) == SpecificationStep(old(customSpecification), message, Context())
    {
      if customSpecification.Some? {
        return Ok(false);
      }
      if !MatchesAmbiguous(message) {
        return Ok(false);
      }
      var specOptions := Candidates(message);
      var ver := Ver(Context());
      if specOptions == [] {
        customSpecification := None;
        return Ok(true);
      }
      if ver.None? {
        return Err(TypeErrorNilSuffix);
      }
      var ending := SelectEndingWith(specOptions, ver.value);
      if |ending| == 1 {
        customSpecification := Some(ending[0]);
        return Ok(true);
      } else if |ending| > 1 {
        specOptions := ending;
      }
      var url := UrlFilter(Context());
      if url.Some? && |SelectContaining(specOptions, url.value)| >= 1 {
        specOptions := SelectContaining(specOptions, url.value);
      }
      customSpecification := Some(specOptions[0]);
      return Ok(true);
    }

    /** dependency_spec. */
    method DependencySpec() returns (spec: string)
      ensures spec == SpecString(customSpecification, Context())
    {
      if customSpecification.Some? {
        return customSpecification.value;
      }
      spec := dependency.name;
      if gitDependency {
        if gitDependencyVersion.Some? {
          spec := spec + ":" + gitDependencyVersion.value;
        }
      } else if dependency.version.Some? {
        spec := spec + ":" + dependency.version.value;
      }
    }

    /** fetch_latest_resolvable_version, with `retry` as a loop over the runs. */
    method FetchLatestResolvableVersion(runs: seq<RunOutcome>) returns (outcome: FetchOutcome)
      modifies this
      ensures (outcome, customSpecification) == Drive(old(customSpecification), runs, Context())
    {
      var i := 0;
      while i < |runs|
        invariant 0 <= i <= |runs|
        invariant Drive(old(customSpecification), runs, Context()) == Drive(customSpecification, runs[i..], Context())
      {
        assert runs[i..][1..] == runs[i + 1..];
        if runs[i].Succeeded? {
          return Exited;
        }
        var needed := BetterSpecificationNeeded(runs[i].message);
        if needed.Err? {
          return Raised(needed.error);
        }
        if !needed.value {
          return Raised(NoMethodErrorHandleCargoErrors);
        }
        i := i + 1;
      }
      return RunsExhausted;
    }
  }

  // ---------------------------------------------------------------------------
  // Properties of the choice

  /** The choice is nil exactly when there are no candidates, raises exactly when there are
      candidates but no version, and is otherwise one of the candidates. */
  lemma ChoiceIsCandidate(candidates: seq<string>, ver: Option<string>, url: Option<string>)
    ensures ChooseSpecification(candidates, ver, url) == Ok(None) <==> candidates == []
    ensures ChooseSpecification(candidates, ver, url).Err? <==> candidates != [] && ver.None?
    ensures ChooseSpecification(candidates, ver, url).Ok? && ChooseSpecification(candidates, ver, url).value.Some? ==>
      ChooseSpecification(candidates, ver, url).value.value in candidates
  {
    if candidates != [] && ver.Some? {
      var ending := SelectEndingWith(candidates, ver.value);
      assert ending != [] ==> ending[0] in ending;
      var narrowed := if |ending| > 1 then ending else candidates;
      assert narrowed[0] in narrowed;
      if url.Some? {
        var byUrl := SelectContaining(narrowed, url.value);
        assert byUrl != [] ==> byUrl[0] in byUrl;
      }
    }
  }

  /** When some candidate ends with the version, the choice does too. */
  lemma SuffixPreferred(candidates: seq<string>, v: string, url: Option<string>)
    requires exists k | 0 <= k < |candidates| :: EndsWith(candidates[k], v)
    ensures ChooseSpecification(candidates, Some(v), url).Ok?
    ensures ChooseSpecification(candidates, Some(v), url).value.Some?
    ensures EndsWith(ChooseSpecification(candidates, Some(v), url).value.value, v)
  {
    var k :| 0 <= k < |candidates| && EndsWith(candidates[k], v);
    var ending := SelectEndingWith(candidates, v);
    assert candidates[k] in ending;
    assert ending[0] in ending;
    if |ending| > 1 && url.Some? {
      var byUrl := SelectContaining(ending, url.value);
      assert byUrl != [] ==> byUrl[0] in byUrl;
    }
  }

  /** The number of candidates ending with v is one exactly when one position holds such a
      candidate; that candidate is then the choice, whatever the URL. */
  lemma {:induction false} SelectSingle(xs: seq<string>, v: string, k: nat)
    requires k < |xs| && EndsWith(xs[k], v)
    requires forall j | 0 <= j < |xs| && j != k :: !EndsWith(xs[j], v)
    ensures SelectEndingWith(xs, v) == [xs[k]]
  {
    if k == 0 {
      assert forall j | 0 <= j < |xs[1..]| :: !EndsWith(xs[1..][j], v) by {
        forall j | 0 <= j < |xs[1..]| ensures !EndsWith(xs[1..][j], v) {
          assert xs[1..][j] == xs[j + 1];
        }
      }
      NoneSelected(xs[1..], v);
    } else {
      forall j | 0 <= j < |xs[1..]| && j != k - 1 ensures !EndsWith(xs[1..][j], v) {
        assert xs[1..][j] == xs[j + 1];
      }
      SelectSingle(xs[1..], v, k - 1);
    }
  }

  lemma {:induction false} NoneSelected(xs: seq<string>, v: string)
    requires forall j | 0 <= j < |xs| :: !EndsWith(xs[j], v)
    ensures SelectEndingWith(xs, v) == []
  {
    if xs != [] {
      forall j | 0 <= j < |xs[1..]| ensures !EndsWith(xs[1..][j], v) {
        assert xs[1..][j] == xs[j + 1];
      }
      NoneSelected(xs[1..], v);
    }
  }

  lemma UniqueSuffixChosen(candidates: seq<string>, v: string, url: Option<string>, k: nat)
    requires k < |candidates| && EndsWith(candidates[k], v)
    requires forall j | 0 <= j < |candidates| && j != k :: !EndsWith(candidates[j], v)
    ensures ChooseSpecification(candidates, Some(v), url) == Ok(Some(candidates[k]))
  {
    SelectSingle(candidates, v, k);
  }

  /** With no candidate ending with the version, a candidate containing the git URL is preferred. */
  lemma UrlPreferred(candidates: seq<string>, v: string, url: string)
    requires forall j | 0 <= j < |candidates| :: !EndsWith(candidates[j], v)
    requires exists k | 0 <= k < |candidates| :: Contains(candidates[k], url)
    ensures ChooseSpecification(candidates, Some(v), Some(url)).Ok?
    ensures ChooseSpecification(candidates, Some(v), Some(url)).value.Some?
    ensures Contains(ChooseSpecification(candidates, Some(v), Some(url)).value.value, url)
  {
    NoneSelected(candidates, v);
    var k :| 0 <= k < |candidates| && Contains(candidates[k], url);
    var byUrl := SelectContaining(candidates, url);
    assert candidates[k] in byUrl;
    assert byUrl[0] in byUrl;
  }

  /** Among several candidates ending with the version, one that also contains the git URL wins. */
  lemma SuffixThenUrl(candidates: seq<string>, v: string, url: string, k: nat)
    requires |SelectEndingWith(candidates, v)| > 1
    requires k < |candidates| && EndsWith(candidates[k], v) && Contains(candidates[k], url)
    ensures ChooseSpecification(candidates, Some(v), Some(url)).Ok?
    ensures ChooseSpecification(candidates, Some(v), Some(url)).value.Some?
    ensures var c := ChooseSpecification(candidates, Some(v), Some(url)).value.value;
      EndsWith(c, v) && Contains(c, url)
  {
    var ending := SelectEndingWith(candidates, v);
    assert candidates[k] in ending;
    var byUrl := SelectContaining(ending, url);
    assert candidates[k] in byUrl;
    assert byUrl[0] in byUrl;
  }

  /** Without any preference to apply, the first candidate is chosen. */
  lemma FirstByDefault(candidates: seq<string>, v: string, url: Option<string>)
    requires candidates != []
    requires forall j | 0 <= j < |candidates| :: !EndsWith(candidates[j], v)
    requires url.Some? ==> forall j | 0 <= j < |candidates| :: !Contains(candidates[j], url.value)
    ensures ChooseSpecification(candidates, Some(v), url) == Ok(Some(candidates[0]))
  {
    NoneSelected(candidates, v);
    if url.Some? {
      NoneContaining(candidates, url.value);
    }
  }

  lemma {:induction false} NoneContaining(xs: seq<string>, part: string)
    requires forall j | 0 <= j < |xs| :: !Contains(xs[j], part)
    ensures SelectContaining(xs, part) == []
  {
    if xs != [] {
      forall j | 0 <= j < |xs[1..]| ensures !Contains(xs[1..][j], part) {
        assert xs[1..][j] == xs[j + 1];
      }
      NoneContaining(xs[1..], part);
    }
  }

  // ---------------------------------------------------------------------------
  // select! keeps the original order, so `.first` is the first candidate that passes

  /** The first candidate ending with the suffix heads the selection. */
  lemma {:induction false} SelectEndingWithFirst(xs: seq<string>, v: string, i: nat)
    requires i < |xs| && EndsWith(xs[i], v)
    requires forall j | 0 <= j < i :: !EndsWith(xs[j], v)
    ensures SelectEndingWith(xs, v) != [] && SelectEndingWith(xs, v)[0] == xs[i]
  {
    if i > 0 {
      forall j | 0 <= j < i - 1 ensures !EndsWith(xs[1..][j], v) {
        assert xs[1..][j] == xs[j + 1];
      }
      SelectEndingWithFirst(xs[1..], v, i - 1);
    }
  }

  /** The first candidate containing the part heads the selection. */
  lemma {:induction false} SelectContainingFirst(xs: seq<string>, part: string, i: nat)
    requires i < |xs| && Contains(xs[i], part)
    requires forall j | 0 <= j < i :: !Contains(xs[j], part)
    ensures SelectContaining(xs, part) != [] && SelectContaining(xs, part)[0] == xs[i]
  {
    if i > 0 {
      forall j | 0 <= j < i - 1 ensures !Contains(xs[1..][j], part) {
        assert xs[1..][j] == xs[j + 1];
      }
      SelectContainingFirst(xs[1..], part, i - 1);
    }
  }

  /** Selecting by suffix and then by URL keeps the original order: the first candidate that
      passes both heads the result. */
  lemma {:induction false} SelectBothFirst(xs: seq<string>, v: string, url: string, i: nat)
    requires i < |xs| && EndsWith(xs[i], v) && Contains(xs[i], url)
    requires forall j | 0 <= j < i :: !(EndsWith(xs[j], v) && Contains(xs[j], url))
    ensures SelectContaining(SelectEndingWith(xs, v), url) != []
    ensures SelectContaining(SelectEndingWith(xs, v), url)[0] == xs[i]
  {
    var ending := SelectEndingWith(xs, v);
    var rest := SelectEndingWith(xs[1..], v);
    if EndsWith(xs[0], v) {
      assert ending == [xs[0]] + rest;
      assert ending[0] == xs[0] && ending[1..] == rest;
    } else {
      assert ending == rest;
    }
    if i > 0 {
      forall j | 0 <= j < i - 1 ensures !(EndsWith(xs[1..][j], v) && Contains(xs[1..][j], url)) {
        assert xs[1..][j] == xs[j + 1];
      }
      SelectBothFirst(xs[1..], v, url, i - 1);
    }
  }

  /** The first candidate ending with the version is chosen when the URL narrows nothing: when
      it is the only one, when there is no URL, or when none of them contains the URL. */
  lemma FirstSuffixMatchChosen(candidates: seq<string>, v: string, url: Option<string>, i: nat)
    requires i < |candidates| && EndsWith(candidates[i], v)
    requires forall j | 0 <= j < i :: !EndsWith(candidates[j], v)
    requires url.Some? && |SelectEndingWith(candidates, v)| > 1 ==>
      forall j | 0 <= j < |candidates| :: !(EndsWith(candidates[j], v) && Contains(candidates[j], url.value))
    ensures ChooseSpecification(candidates, Some(v), url) == Ok(Some(candidates[i]))
  {
    var ending := SelectEndingWith(candidates, v);
    SelectEndingWithFirst(candidates, v, i);
    if url.Some? && |ending| > 1 {
      forall j | 0 <= j < |ending| ensures !Contains(ending[j], url.value) {
        assert ending[j] in ending;
        var k :| 0 <= k < |candidates| && candidates[k] == ending[j];
      }
      NoneContaining(ending, url.value);
    }
  }

  /** Among several candidates ending with the version, the first one that also contains the
      git URL is chosen. */
  lemma FirstBothMatchChosen(candidates: seq<string>, v: string, url: string, i: nat)
    requires |SelectEndingWith(candidates, v)| > 1
    requires i < |candidates| && EndsWith(candidates[i], v) && Contains(candidates[i], url)
    requires forall j | 0 <= j < i :: !(EndsWith(candidates[j], v) && Contains(candidates[j], url))
    ensures ChooseSpecification(candidates, Some(v), Some(url)) == Ok(Some(candidates[i]))
  {
    SelectBothFirst(candidates, v, url, i);
  }

  /** With no candidate ending with the version, the first one containing the git URL is chosen. */
  lemma FirstUrlMatchChosen(candidates: seq<string>, v: string, url: string, i: nat)
    requires forall j | 0 <= j < |candidates| :: !EndsWith(candidates[j], v)
    requires i < |candidates| && Contains(candidates[i], url)
    requires forall j | 0 <= j < i :: !Contains(candidates[j], url)
    ensures ChooseSpecification(candidates, Some(v), Some(url)) == Ok(Some(candidates[i]))
  {
    NoneSelected(candidates, v);
    SelectContainingFirst(candidates, url, i);
  }

  /** Each candidate is its line of the message with the surrounding white space removed: it
      holds no line feed, starts and ends with no white space, and sits in its line between
      white space only. */
  lemma CandidateIsTrimmedLine(message: string, k: nat)
    requires k < |Candidates(message)|
    ensures TrimmedLine(Lines(AfterLastMarker(message))[k], Candidates(message)[k])
  {
    var lines := Lines(AfterLastMarker(message));
    LinesRoundTrip(AfterLastMarker(message));
    assert lines[k] != [] && '\n' !in lines[k][..|lines[k]| - 1];
    StripLine(lines[k]);
  }

  /** Once a custom specification is set, better_specification_needed? is false and changes
      nothing, so a later failure is not retried. */
  lemma SetSpecificationStopsRetry(spec: string, runs: seq<RunOutcome>, ctx: ResolverContext)
    requires runs != [] && runs[0].Failed?
    ensures Drive(Some(spec), runs, ctx) == (Raised(NoMethodErrorHandleCargoErrors), Some(spec))
  {
  }

  /** A failure that is not an ambiguity error is not retried: it goes to handle_cargo_errors. */
  lemma OtherFailuresNotRetried(custom: Option<string>, runs: seq<RunOutcome>, ctx: ResolverContext)
    requires runs != [] && runs[0].Failed? && !MatchesAmbiguous(runs[0].message)
    ensures Drive(custom, runs, ctx) == (Raised(NoMethodErrorHandleCargoErrors), custom)
  {
  }

  // ---------------------------------------------------------------------------
  // dependency_spec and the other helpers

  /** Without a custom specification, the spec splits at `:` into the name and the appended
      version (when names and versions hold no `:`). */
  lemma SpecStringSplits(ctx: ResolverContext)
    requires ':' !in ctx.dependency.name
    requires AppendedVersion(ctx).Some? ==> ':' !in AppendedVersion(ctx).value
    ensures AppendedVersion(ctx).Some? ==>
      Pieces(SpecString(None, ctx), ':') == [ctx.dependency.name, AppendedVersion(ctx).value]
    ensures AppendedVersion(ctx).None? ==> Pieces(SpecString(None, ctx), ':') == [ctx.dependency.name]
  {
    var name := ctx.dependency.name;
    if AppendedVersion(ctx).Some? {
      var v := AppendedVersion(ctx).value;
      assert name + ":" + v == name + [':'] + v;
      PiecesOfJoined(name, v, ':');
      PiecesOfSeparatorFree(v, ':');
    } else {
      PiecesOfSeparatorFree(name, ':');
    }
  }

  /** `object[key] || {}`: a missing, null or false value becomes an empty mapping. */
  function OrEmpty(v: Option<ShardsFileParser.Value>): ShardsFileParser.Value {
    if v.None? || v.value.Null? || v.value == ShardsFileParser.Bool(false) then ShardsFileParser.DependencyMap([])
    else v.value
  }

  /** sanitized_manifest_content: a placeholder name and version, the two dependency sections kept. */
  function SanitizedManifestContent(doc: ShardsFileParser.Manifest): ShardsFileParser.Manifest {
    [("name", ShardsFileParser.Scalar("dependabot")),
     ("version", ShardsFileParser.Scalar("0.1.0")),
     ("dependencies", OrEmpty(Lookup(doc, "dependencies"))),
     ("development_dependencies", OrEmpty(Lookup(doc, "development_dependencies")))]
  }

  /** The sanitized manifest has exactly the four keys, with the placeholder name and version. */
  lemma SanitizedShape(doc: ShardsFileParser.Manifest)
    ensures Keys(SanitizedManifestContent(doc)) == ["name", "version", "dependencies", "development_dependencies"]
    ensures Lookup(SanitizedManifestContent(doc), "name") == Some(ShardsFileParser.Scalar("dependabot"))
    ensures Lookup(SanitizedManifestContent(doc), "version") == Some(ShardsFileParser.Scalar("0.1.0"))
  {
  }

  /** The sanitized manifest declares the same dependencies as the original: parsing it gives
      the same entries. */
  lemma SanitizedKeepsDependencies(doc: ShardsFileParser.Manifest)
    ensures ShardsFileParser.ManifestEntries(SanitizedManifestContent(doc), ShardsFileParser.DependencyTypes) ==
            ShardsFileParser.ManifestEntries(doc, ShardsFileParser.DependencyTypes)
  {
    SectionKept(doc, "dependencies");
    SectionKept(doc, "development_dependencies");
    ShardsFileParser.ManifestEntriesBySection(SanitizedManifestContent(doc));
    ShardsFileParser.ManifestEntriesBySection(doc);
  }

  lemma SectionKept(doc: ShardsFileParser.Manifest, group: string)
    requires group == "dependencies" || group == "development_dependencies"
    ensures ShardsFileParser.SectionEntries(SanitizedManifestContent(doc), group) == ShardsFileParser.SectionEntries(doc, group)
  {
    var s := SanitizedManifestContent(doc);
    if group == "dependencies" {
      LookupAt(s, group, 2);
    } else {
      LookupAt(s, group, 3);
    }
    assert Lookup(s, group) == Some(OrEmpty(Lookup(doc, group)));
  }

  /** lockfile: the first file named shard.lock. */
  function LockfileOf(files: seq<ProjectFile>): (r: Option<ProjectFile>)
    ensures r.Some? ==> r.value in files && r.value.name == "shard.lock"
    ensures r.Some? ==> exists i | 0 <= i < |files| ::
      files[i] == r.value && forall j | 0 <= j < i :: files[j].name != "shard.lock"
  {
    if files == [] then None
    else if files[0].name == "shard.lock" then Some(files[0])
    else
      var rest := LockfileOf(files[1..]);
      if rest.Some? then
        var i :| 0 <= i < |files[1..]| && files[1..][i] == rest.value &&
          forall j | 0 <= j < i :: files[1..][j].name != "shard.lock";
        assert files[i + 1] == rest.value && forall j | 0 <= j < i + 1 :: files[j].name != "shard.lock";
        rest
      else rest
  }

  /** The resolver finds a lockfile exactly when the update checker does not treat the project
      as a library. */
  lemma {:induction false} LockfileIffNotLibrary(files: seq<ProjectFile>)
    ensures LockfileOf(files).None? <==> Library(files)
  {
    if files != [] && files[0].name != "shard.lock" {
      LockfileIffNotLibrary(files[1..]);
      assert forall k | 1 <= k < |files| :: files[k] == files[1..][k - 1];
    }
  }

  // ---------------------------------------------------------------------------
  // The retry is unbounded when the candidate list is empty

  /** A message that ends right after the marker lists no candidate. */
  lemma NoCandidatesAfterTrailingMarker(message: string)
    requires EndsWith(message, Marker)
    ensures Candidates(message) == []
  {
    assert OccursAt(message, |message| - |Marker|, Marker);
    assert AfterLastMarker(message) == [];
  }

  /** As written: an ambiguity error that lists no candidate leaves @custom_specification nil
      and answers true, so every further identical failure is retried again; the loop consumes
      any number of runs. */
  lemma {:induction false} RetryUnbounded(message: string, n: nat, ctx: ResolverContext)
    requires MatchesAmbiguous(message) && EndsWith(message, Marker)
    ensures Drive(None, seq(n, _ => Failed(message)), ctx) == (RunsExhausted, None)
  {
    NoCandidatesAfterTrailingMarker(message);
    assert SpecificationStep(None, message, ctx) == (Ok(true), None);
    if n > 0 {
      var runs := seq(n, _ => Failed(message));
      assert runs[1..] == seq(n - 1, _ => Failed(message));
      RetryUnbounded(message, n - 1, ctx);
    }
  }

  /** Such a message: the form shards uses, "the specification `db` is ambiguous, it matches
      the following:" and a line feed, with the list of matches left empty. */
  lemma EmptyAmbiguityMessage()
    ensures var m := "the " + "specification " + "`db`" + " is ambigu" + "ous, it matches the " + Marker;
      MatchesAmbiguous(m) && EndsWith(m, Marker)
  {
    var a, b, c, d, e := "the ", "specification ", "`db`", " is ambigu", "ous, it matches the ";
    var m := a + b + c + d + e + Marker;
    assert m[4..18] == b;
    assert m[18..22] == c;
    assert m[22..32] == d;
    assert '\n' !in c;
    assert AmbiguityAt(m, 4, 22);
    assert m[|m| - |Marker|..] == Marker;
  }

  /** The evidently intended guard: remember that a specification was chosen, even a nil one. */
  datatype Choice = Unset | Chosen(spec: Option<string>)

  function SpecificationStepOnce(choice: Choice, message: string, ctx: ResolverContext): (Result<bool, ResolverError>, Choice) {
    if choice.Chosen? then (Ok(false), choice)
    else if !MatchesAmbiguous(message) then (Ok(false), choice)
    else
      match ChooseSpecification(Candidates(message), Ver(ctx), UrlFilter(ctx))
      case Err(e) => (Err(e), choice)
      case Ok(spec) => (Ok(true), Chosen(spec))
  }

  function DriveOnce(choice: Choice, runs: seq<RunOutcome>, ctx: ResolverContext): FetchOutcome
    decreases |runs|
  {
    if runs == [] then RunsExhausted
    else if runs[0].Succeeded? then Exited
    else
      var (answer, next) := SpecificationStepOnce(choice, runs[0].message, ctx);
      if answer.Err? then Raised(answer.error)
      else if !answer.value then Raised(NoMethodErrorHandleCargoErrors)
      else DriveOnce(next, runs[1..], ctx)
  }

  /** With the corrected guard at most two runs happen: the outcome depends on the first two
      runs only, whatever the messages. */
  lemma RetryBounded(runs: seq<RunOutcome>, ctx: ResolverContext)
    requires |runs| >= 2
    ensures DriveOnce(Unset, runs, ctx) == DriveOnce(Unset, runs[..2], ctx)
  {
    var first := runs[..2];
    assert first[0] == runs[0] && first[1..] == [runs[1]];
    if runs[0].Failed? {
      var (answer, next) := SpecificationStepOnce(Unset, runs[0].message, ctx);
      if answer.Ok? && answer.value {
        assert next.Chosen?;
        ChosenStops(next, runs[1..], ctx);
        ChosenStops(next, [runs[1]], ctx);
      }
    }
  }

  lemma ChosenStops(choice: Choice, runs: seq<RunOutcome>, ctx: ResolverContext)
    requires choice.Chosen? && runs != []
    ensures DriveOnce(choice, runs, ctx) == if runs[0].Succeeded? then Exited else Raised(NoMethodErrorHandleCargoErrors)
  {
  }

  /** Wherever the source chooses a non-nil specification, the corrected guard behaves the same. */
  lemma CorrectedAgreesWhenChosen(runs: seq<RunOutcome>, ctx: ResolverContext)
    requires runs != [] && runs[0].Failed? && MatchesAmbiguous(runs[0].message)
    requires Candidates(runs[0].message) != []
    ensures Drive(None, runs, ctx).0 == DriveOnce(Unset, runs, ctx)
  {
    var (answer, next) := SpecificationStep(None, runs[0].message, ctx);
    if answer.Ok? && answer.value {
      ChoiceIsCandidate(Candidates(runs[0].message), Ver(ctx), UrlFilter(ctx));
      if |runs| > 1 {
        ChosenStops(Chosen(next), runs[1..], ctx);
        if runs[1].Failed? {
          SetSpecificationStopsRetry(next.value, runs[1..], ctx);
        }
      }
    }
  }
}
