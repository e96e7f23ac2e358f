/** Dependabot::Shards::UpdateChecker: the latest version of a dependency, decided by a cascade
    of rules over what GitCommitChecker reports, and the requirements update strategy, chosen by
    whether the project is a library. GitCommitChecker talks to git hosts and is not part of this
    model: its answers are inputs (GitCommitAnswers). */
module ShardsUpdateChecker {
  import opened Common
  import opened Dependencies

  /** What GitCommitChecker answers about the dependency under check. */
  datatype GitCommitAnswers = GitCommitAnswers(
    /** head_commit_for_current_branch */
    headCommitForCurrentBranch: Option<string>,
    /** pinned_ref_looks_like_version? */
    pinnedRefLooksLikeVersion: bool,
    /** ref_looks_like_commit_sha?, asked of the dependency's current version */
    refLooksLikeCommitSha: Option<string> -> bool,
    /** the `version` of local_tag_for_latest_version, None when there is no such tag (nil) */
    latestTagVersion: Option<string>)

  datatype CheckerError =
    /** `nil[:branch]`: the dependency has no source details */
    | NoMethodErrorOnSourceDetails
    /** `nil.fetch(:version)`: there is no latest tag */
    | NoMethodErrorOnLatestTag

  /** A file given to the checker, by name. */
  datatype ProjectFile = ProjectFile(name: string, content: string)

  datatype Strategy = BumpVersions | BumpVersionsIfNecessary | WidenRanges | LockfileOnly

  /** path_dependency?: some requirement has a path source. */
  predicate PathDependency(d: Dependency) {
    exists k | 0 <= k < |d.requirements| :: d.requirements[k].source == Some(PathSource)
  }

  /** `source_details[:branch]`: a path source has no branch. */
  function Branch(details: Source): Option<string> {
    match details
    case PathSource => None
    case GitSource(_, branch, _) => branch
  }

  /** `local_tag_for_latest_version.fetch(:version)`. */
  function LatestTag(answers: GitCommitAnswers): Result<Option<string>, CheckerError> {
    if answers.latestTagVersion.None? then Err(NoMethodErrorOnLatestTag) else Ok(answers.latestTagVersion)
  }

  /** latest_version. `sourceDetails` is the dependency's source_details. */
  function LatestVersion(d: Dependency, sourceDetails: Option<Source>, answers: GitCommitAnswers)
    : Result<Option<string>, CheckerError>
  {
    if PathDependency(d) then Ok(None)
    else if sourceDetails.None? then Err(NoMethodErrorOnSourceDetails)
    else if Branch(sourceDetails.value).Some? then Ok(answers.headCommitForCurrentBranch)
    else if answers.pinnedRefLooksLikeVersion then LatestTag(answers)
    else if answers.refLooksLikeCommitSha(d.version) then Ok(d.version)
    else LatestTag(answers)
  }

  /** latest_resolvable_version_with_no_unlock: nil for a path dependency, otherwise what the
      version resolver reports (`resolved`). */
  function LatestResolvableVersionWithNoUnlock(d: Dependency, resolved: Option<string>): (r: Option<string>)
    ensures PathDependency(d) ==> r.None?
    ensures !PathDependency(d) ==> r == resolved
  {
    if PathDependency(d) then None else resolved
  }

  /** latest_version_resolvable_with_full_unlock?: full unlocks are not supported. */
  function LatestVersionResolvableWithFullUnlock(): (r: bool)
    ensures !r
  {
    false
  }

  /** library?: none of the files is named shard.lock. */
  predicate Library(files: seq<ProjectFile>) {
    forall k | 0 <= k < |files| :: files[k].name != "shard.lock"
  }

  /** The names of the given files. */
  function FileNameSet(files: seq<ProjectFile>): set<string> {
    set f | f in files :: f.name
  }

  /** requirements_update_strategy: the strategy passed in, if any; otherwise a library widens
      only if necessary and an application always bumps. */
  function RequirementsUpdateStrategy(explicit: Option<Strategy>, files: seq<ProjectFile>): Strategy {
    if explicit.Some? then explicit.value
    else if Library(files) then BumpVersionsIfNecessary
    else BumpVersions
  }

  // ---------------------------------------------------------------------------
  // Properties

  /** A project is a library exactly when none of its files is named shard.lock. */
  lemma LibraryIffNoLockfile(files: seq<ProjectFile>)
    ensures Library(files) <==> "shard.lock" !in FileNameSet(files)
  {
    if !Library(files) {
      var k :| 0 <= k < |files| && files[k].name == "shard.lock";
      assert files[k] in files;
    }
  }

  /** The strategy passed in is honoured; otherwise the lockfile decides. */
  lemma StrategyChoice(explicit: Option<Strategy>, files: seq<ProjectFile>)
    ensures explicit.Some? ==> RequirementsUpdateStrategy(explicit, files) == explicit.value
    ensures explicit.None? ==>
      (RequirementsUpdateStrategy(explicit, files) == BumpVersions <==> "shard.lock" in FileNameSet(files))
    ensures explicit.None? ==>
      (RequirementsUpdateStrategy(explicit, files) == BumpVersionsIfNecessary <==> "shard.lock" !in FileNameSet(files))
  {
    LibraryIffNoLockfile(files);
  }

  /** A path dependency has no latest version and no resolvable version, whatever git reports. */
  lemma PathDependencyHasNoVersions(d: Dependency, sourceDetails: Option<Source>, answers: GitCommitAnswers, resolved: Option<string>)
    requires exists k | 0 <= k < |d.requirements| :: d.requirements[k].source == Some(PathSource)
    ensures LatestVersion(d, sourceDetails, answers) == Ok(None)
    ensures LatestResolvableVersionWithNoUnlock(d, resolved) == None
  {
  }

  /** A branch wins over every other rule: the answer is the branch head, and what git says
      about tags and commit SHAs is never consulted. */
  lemma BranchWins(d: Dependency, details: Source, a: GitCommitAnswers, b: GitCommitAnswers)
    requires !PathDependency(d) && Branch(details).Some?
    requires a.headCommitForCurrentBranch == b.headCommitForCurrentBranch
    ensures LatestVersion(d, Some(details), a) == LatestVersion(d, Some(details), b) == Ok(a.headCommitForCurrentBranch)
  {
  }

  /** Without a branch, a version-like pinned ref gives the latest tag, whether or not the
      current version looks like a commit SHA. */
  lemma PinnedVersionGivesLatestTag(d: Dependency, details: Source, a: GitCommitAnswers)
    requires !PathDependency(d) && Branch(details).None? && a.pinnedRefLooksLikeVersion
    ensures forall sha: Option<string> -> bool ::
      LatestVersion(d, Some(details), a.(refLooksLikeCommitSha := sha)) == LatestTag(a)
  {
  }

  /** Without a branch or a version-like pin, a commit SHA is kept as it is, even when there is
      no tag at all. */
  lemma CommitShaKept(d: Dependency, details: Source, a: GitCommitAnswers)
    requires !PathDependency(d) && Branch(details).None?
    requires !a.pinnedRefLooksLikeVersion && a.refLooksLikeCommitSha(d.version)
    ensures forall tag: Option<string> ::
      LatestVersion(d, Some(details), a.(latestTagVersion := tag)) == Ok(d.version)
  {
  }

  /** In every other case the answer is the latest tag's version. */
  lemma FallbackToLatestTag(d: Dependency, details: Source, a: GitCommitAnswers)
    requires !PathDependency(d) && Branch(details).None?
    requires !a.pinnedRefLooksLikeVersion && !a.refLooksLikeCommitSha(d.version)
    ensures a.latestTagVersion.Some? ==> LatestVersion(d, Some(details), a) == Ok(a.latestTagVersion)
    ensures a.latestTagVersion.None? ==> LatestVersion(d, Some(details), a) == Err(NoMethodErrorOnLatestTag)
  {
  }

  /** Every answer is one of: nothing, the branch head, the latest tag or the current version;
      and only a missing tag or missing source details make it raise. */
  lemma LatestVersionIsKnownAnswer(d: Dependency, sourceDetails: Option<Source>, a: GitCommitAnswers)
    ensures var r := LatestVersion(d, sourceDetails, a);
      (r.Ok? ==> r.value.None? || r.value == a.headCommitForCurrentBranch || r.value == a.latestTagVersion || r.value == d.version)
    ensures var r := LatestVersion(d, sourceDetails, a);
      r.Err? <==> (
        !PathDependency(d) &&
        (sourceDetails.None? ||
         (Branch(sourceDetails.value).None? && a.latestTagVersion.None? &&
          (a.pinnedRefLooksLikeVersion || !a.refLooksLikeCommitSha(d.version)))))
  {
  }
}
