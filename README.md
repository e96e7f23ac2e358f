# Crystal shards support for Dependabot, modelled in Dafny

This project models the Crystal "shards" package-manager plugin of Dependabot. It covers four
parts:

- **File parser.** It reads an already-parsed `shard.yml` manifest and, when present, an
  already-parsed `shard.lock` lockfile, and produces one dependency record per shard.
- **`Version` class.** A version string whose `+build` suffix is kept for display but ignored when
  versions are ordered.
- **`Requirement` class.** It cuts a constraint string at `,` into clauses that must all hold, and
  rewrites a bare `*` clause to `>= 0`.
- **Update checker and its version resolver.**
  - The checker decides the latest version by a cascade of rules over what the git commit checker
    reports, and picks the requirements update strategy.
  - The resolver runs the literal command `shards outdated`. When a run fails with an ambiguity
    error, it records a more specific specification (`@custom_specification`, which
    `dependency_spec` returns) and retries while `better_specification_needed?` answers true.
    That answer stops the retry once a specification is set, but not when the ambiguity error
    lists no candidate (see Findings).

Modules, one per file:

- `Common`: Ruby's string operations as the source uses them, and an insertion-ordered hash.
  - `String#split` drops trailing empty strings.
  - `String#lines` keeps the line terminators.
  - `String#strip` removes the null character and ASCII white space.
- `ShardsVersion`: `Dependabot::Shards::Version`.
  - Construction, `to_s` and `correct?`.
  - Ordering is delegated to the parent class. That ordering is a parameter.
- `ShardsRequirement`: `Dependabot::Shards::Requirement`.
  - Flattening the arguments, splitting them into clauses, and the `*` rewrite.
  - Satisfaction is a conjunction of clauses. What each clause means is a parameter.
- `Dependencies`: the dependency record and `DependencySet`.
  - `DependencySet` is a class whose `Add` merges a record into the one with the same name, or
    appends it.
  - How two records are merged is a parameter (`MergePolicy`).
- `ShardsFileParser`: `Dependabot::Shards::FileParser`.
  - `manifest_dependencies` and `lockfile_dependencies` are methods with loops that fill a
    `DependencySet`. Each is proved equal to a specification function.
  - The properties are proved about those functions.
- `ShardsUpdateChecker`: `Dependabot::Shards::UpdateChecker`. The answers of `GitCommitChecker` are
  inputs.
- `ShardsVersionResolver`: `Dependabot::Shards::UpdateChecker::VersionResolver`.
  - A class with the mutable field `@custom_specification`.
  - `fetch_latest_resolvable_version`'s `retry` is a loop over a given sequence of run outcomes.

Ruby exceptions raised by the plugin's own code are values of `Result` error datatypes. These
include `KeyError` from `fetch("version")`, `NoMethodError` on `nil`, and `TypeError` from
`end_with?(nil)`; none of these is excluded by a precondition. Exceptions raised inside foreign
code (Gem's version and requirement parsers, file reads in the temporary directory) are listed
under "Left out".

## Model

| member | source | states |
|---|---|---|
| ShardsVersion.FromString | shards/lib/dependabot/shards/version.rb:25-31 | `to_s` text is the input unchanged. Without `+`, the whole string goes to the parent class and there is no build info. With `+`, the parent receives a `+`-free prefix of the input and the build info is `+`-free. |
| ShardsVersion.ToS | shards/lib/dependabot/shards/version.rb:33-35 | `to_s` returns the string the version was built from, `+build` included; `FromString` states that this text is the input unchanged. |
| ShardsVersion.Less | shards/lib/dependabot/shards/version.rb:13 | Ordering is the parent class ordering applied to the base handed to it, never to the build info; `BuildSuffixIgnoredByOrdering` and `DifferentBuildsEquivalent` are its properties. |
| ShardsVersion.Correct | shards/lib/dependabot/shards/version.rb:19-23 | `correct?`: false for nil; otherwise the string without surrounding white space is empty or a whole Shards version. Characterised by `CorrectNilAndBlank`, `CorrectWithBuild`, `CorrectDecomposes` and `CorrectSplitIsExact`. |
| ShardsVersion.BuildSuffixNotInBase | shards/lib/dependabot/shards/version.rb:28-30 | `x+build` hands the parent class exactly `x`, as `x` alone does, and still prints as `x+build`. |
| ShardsVersion.BuildSuffixIgnoredByOrdering | shards/lib/dependabot/shards/version.rb:25-31 | For any parent ordering, `x+build` sorts against every other version exactly as `x` does. |
| ShardsVersion.DifferentBuildsEquivalent | shards/lib/dependabot/shards/version.rb:25-31 | Two versions differing only in build info are equivalent: neither sorts before the other. |
| ShardsVersion.CorrectNilAndBlank | shards/lib/dependabot/shards/version.rb:19-23 | `correct?(nil)` is false, and a blank or white-space-only string is accepted because the version group is optional. |
| ShardsVersion.CorrectWithBuild | shards/lib/dependabot/shards/version.rb:16-23 | A Gem version followed by `+` and a non-empty suffix of letters, digits, `-` and `.` is accepted. |
| ShardsVersion.GemVersionHasNoPlus | shards/lib/dependabot/shards/version.rb:16 | No string matched by Gem's version pattern contains `+`. |
| ShardsVersion.GemVersionStartsWithDigit | shards/lib/dependabot/shards/version.rb:16 | A string matched by Gem's version pattern starts with a digit. |
| ShardsVersion.CorrectDecomposes | shards/lib/dependabot/shards/version.rb:16-23 | An accepted string containing `+` consists of `+`-free text, one `+` and non-empty `+`-free text. |
| ShardsVersion.SinglePlusSplit | shards/lib/dependabot/shards/version.rb:28 | With exactly one `+`, the split gives the text before it to the parent and the text after it as build info. |
| ShardsVersion.CorrectSplitIsExact | shards/lib/dependabot/shards/version.rb:16-31 | For every string `correct?` accepts that holds a `+`, the constructor's split is exact: base, `+` and build info put back together give the input. |
| ShardsRequirement.TranslateAll | shards/lib/dependabot/shards/requirement.rb:33-39 | Clause-by-clause translation keeps the number and order of the clauses. |
| ShardsRequirement.New | shards/lib/dependabot/shards/requirement.rb:29-42 | `new(*requirements)`: flatten, split every string at `,`, rewrite `*`; a nil argument raises NoMethodError. Characterised by `NewConcatenatesArguments`, `ClausesOfOne`, `ClausesAreSeparated` and `ClausesJoinBack`. |
| ShardsRequirement.RequirementsArray | shards/lib/dependabot/shards/requirement.rb:20-22 | `requirements_array` wraps one `new` in a list; `RequirementsArraySingle` states the result. |
| ShardsRequirement.SatisfiedBy | shards/lib/dependabot/shards/requirement.rb:15 | A version satisfies a requirement iff every clause admits it (Gem's `>= 0` default with no clause); `ConjunctionOfClauses`, `SatisfiedByCons` and `StarAdmitsAll` are its properties. |
| ShardsRequirement.FlattenCons | shards/lib/dependabot/shards/requirement.rb:31 | Flattening a non-empty argument list flattens its first argument, then the rest. |
| ShardsRequirement.FlattenAppend | shards/lib/dependabot/shards/requirement.rb:31 | Flattening distributes over concatenation of the arguments. |
| ShardsRequirement.RequirementsArraySingle | shards/lib/dependabot/shards/requirement.rb:20-22 | A string gives a list of exactly one Requirement with all of the string's clauses. `nil` raises NoMethodError. |
| ShardsRequirement.ClausesOfOne | shards/lib/dependabot/shards/requirement.rb:29-42 | A single string argument contributes exactly its own clauses. |
| ShardsRequirement.ConcatClausesAppend | shards/lib/dependabot/shards/requirement.rb:31-32 | The clauses of concatenated argument lists are the concatenated clauses. |
| ShardsRequirement.ClausesOfAllConcatenates | shards/lib/dependabot/shards/requirement.rb:31-32 | Construction succeeds on `a + b` iff it succeeds on both parts, and then yields the clauses of `a` followed by those of `b`. |
| ShardsRequirement.NewConcatenatesArguments | shards/lib/dependabot/shards/requirement.rb:29-42 | `new(a, b)` holds the clauses of `a` followed by those of `b`. |
| ShardsRequirement.ClausesAreSeparated | shards/lib/dependabot/shards/requirement.rb:29-42 | No clause contains the AND separator `,`, and no clause is `*` after translation. |
| ShardsRequirement.ClausesJoinBack | shards/lib/dependabot/shards/requirement.rb:29-42 | Without a `*` clause or a trailing `,`, joining the clauses with `,` gives back the constraint string. |
| ShardsRequirement.SplitFirstClause | shards/lib/dependabot/shards/requirement.rb:15 | `c,rest` splits into `c` followed by the clauses of `rest`. |
| ShardsRequirement.SatisfiedByCons | shards/lib/dependabot/shards/requirement.rb:15 | A non-empty conjunction of clauses holds iff its first clause and the rest hold. |
| ShardsRequirement.ConjunctionOfClauses | shards/lib/dependabot/shards/requirement.rb:15 | A version satisfies `c,rest` iff it satisfies the clause `c` and the constraint `rest`, so clauses are AND-combined. |
| ShardsRequirement.StarAdmitsAll | shards/lib/dependabot/shards/requirement.rb:34-36 | `"*"` becomes the single clause `>= 0` and admits every version that `>= 0` admits. |
| ShardsRequirement.PaddedStarUntouched | shards/lib/dependabot/shards/requirement.rb:37-39 | Only an exact `*` is rewritten: `" *"` is passed on to Gem::Requirement unchanged (which rejects it; see Left out). |
| Dependencies.Merge | shards/lib/dependabot/shards/file_parser.rb:59 | A merged record keeps the name of the record already in the set. |
| Dependencies.Insert | shards/lib/dependabot/shards/file_parser.rb:59 | `set << dep` merges into the record of the same name or appends; `InsertNames` states the resulting names and `DependencySet.Add` is proved against it. |
| Dependencies.InsertAll | shards/lib/dependabot/shards/file_parser.rb:20-21 | Records added one by one, in order; `InsertAllNames`, `OnePerName` and `InsertAllFresh` are its properties. |
| Dependencies.Names | shards/lib/dependabot/shards/file_parser.rb:18-23 | The names of a record list, position by position. |
| Dependencies.IndexOfName | shards/lib/dependabot/shards/file_parser.rb:59 | The set finds no record for a name iff the name is absent. A record it finds is at a valid position and has that name. |
| Dependencies.InsertNames | shards/lib/dependabot/shards/file_parser.rb:59 | `set << dep` leaves the names unchanged when the name is present and appends it otherwise. |
| Dependencies.InsertAllNames | shards/lib/dependabot/shards/file_parser.rb:18-23 | Adding records one by one gives the names in first-seen order, each once (`Dedup`). |
| Dependencies.DedupNoDuplicates | shards/lib/dependabot/shards/file_parser.rb:18-23 | Deduplicated names have no repeats and are exactly the names seen. |
| Dependencies.NoDuplicatesCardinality | shards/lib/dependabot/shards/file_parser.rb:18-23 | A repeat-free list has as many elements as its set of elements. |
| Dependencies.OnePerName | shards/lib/dependabot/shards/file_parser.rb:18-23 | Starting from an empty set, the set has one record per distinct added name: no repeats, the same names, and as many records as distinct names. |
| Dependencies.NamesAppend | shards/lib/dependabot/shards/file_parser.rb:18-23 | The names of concatenated record lists are the concatenated names. |
| Dependencies.InsertAllFresh | shards/lib/dependabot/shards/file_parser.rb:18-23 | Records whose names are distinct and new are appended untouched. |
| Dependencies.DependencySet.constructor | shards/lib/dependabot/shards/file_parser.rb:19 | A new set is empty and has no repeated names. |
| Dependencies.DependencySet.Add | shards/lib/dependabot/shards/file_parser.rb:59 | `<<` keeps one record per name, and the new contents are the old ones with the record merged in or appended. |
| Dependencies.DependencySet.AddAll | shards/lib/dependabot/shards/file_parser.rb:20-21 | `+=` adds every record of the other set in order and keeps one record per name. |
| ShardsFileParser.Get | shards/lib/dependabot/shards/file_parser.rb:37 | `attributes[key]` is non-nil only when the key is present. |
| ShardsFileParser.GetAt | shards/lib/dependabot/shards/file_parser.rb:37 | `attributes[key]` is the value of the first entry with that key, nil included. |
| ShardsFileParser.DependencySourceCases | shards/lib/dependabot/shards/file_parser.rb:97-122 | A path source iff a `path` key exists, whatever other keys there are. No source iff there is no `path` and none of `github`, `gitlab`, `bitbucket`, `git`. A git source carries `branch`, and `tag` or else `commit` as its ref. |
| ShardsFileParser.ShorthandRoundTrip | shards/lib/dependabot/shards/file_parser.rb:103-108 | A shorthand key wins over the keys after it. Its `owner/repo` is recovered from the URL by removing the host prefix and `.git`. |
| ShardsFileParser.GitUrlVerbatim | shards/lib/dependabot/shards/file_parser.rb:109-121 | Without a shorthand key, the `git` URL is used unchanged, with branch and ref. |
| ShardsFileParser.DependencySource | shards/lib/dependabot/shards/file_parser.rb:97-122 | `dependency_source`: path, shorthand host URL, `git` URL or nil, in that order of precedence; characterised by `DependencySourceCases`, `ShorthandRoundTrip` and `GitUrlVerbatim`. |
| ShardsFileParser.LockfileDetails | shards/lib/dependabot/shards/file_parser.rb:124-126 | A lockfile entry is found iff the lockfile has a `shards` mapping holding the name. |
| ShardsFileParser.LockfileDetailsAt | shards/lib/dependabot/shards/file_parser.rb:124-126 | The entry found is the attributes of the first shard with that name. |
| ShardsFileParser.DependencyVersion | shards/lib/dependabot/shards/file_parser.rb:88-95 | The call raises KeyError("version") iff there is a lockfile entry without a `version` key. A returned version is that entry's `version`. |
| ShardsFileParser.DependencyVersionAt | shards/lib/dependabot/shards/file_parser.rb:88-95 | Conversely, a locked shard whose entry has a `version` key yields the value of its first `version` key, nil included. |
| ShardsFileParser.SingleLineDigitTest | shards/lib/dependabot/shards/file_parser.rb:56 | For a version without line feeds, `/^\d/` tests just the first character. |
| ShardsFileParser.SectionEntries | shards/lib/dependabot/shards/file_parser.rb:49-51 | A missing section, or one that is not a mapping, yields no entry. A mapping yields one entry per pair, in order, with that pair's name and attributes and the section as group. |
| ShardsFileParser.EntriesOf | shards/lib/dependabot/shards/file_parser.rb:51 | One entry per pair of the section's mapping, in order, with that pair's name and the section as its group. |
| ShardsFileParser.BuildManifestDependency | shards/lib/dependabot/shards/file_parser.rb:31-43 | A record named after the entry, with the given version and one requirement: the entry's `version` constraint, file `shard.yml`, its source and its section as group. `WithoutLockfileAllKept` and `WithLockfileOnlyKept` state it for the records built. |
| ShardsFileParser.BuildLockfileDependency | shards/lib/dependabot/shards/file_parser.rb:142-150 | A record with the locked name and version and no requirements; `LockfileRecordsAreSubdependencies` states it for every locked shard. |
| ShardsFileParser.ParsedShardYaml | shards/lib/dependabot/shards/file_parser.rb:74-78 | A broken `shard.yml` raises DependencyFileNotParseable with its path; `SyntaxErrorsFirst` states the order of the two parses. |
| ShardsFileParser.ParsedLockfile | shards/lib/dependabot/shards/file_parser.rb:66-72 | nil without a lockfile; a broken lockfile raises DependencyFileNotParseable with its path. |
| ShardsFileParser.ManifestSet | shards/lib/dependabot/shards/file_parser.rb:45-64 | What `manifest_dependencies` returns; `ManifestDependencies` is proved equal to it, and `WithoutLockfileAllKept`, `WithLockfileOnlyKept`, `WithLockfileAllKeptRecorded` and `ManifestErrorExactly` characterise it. |
| ShardsFileParser.LockfileSet | shards/lib/dependabot/shards/file_parser.rb:129-139 | What `lockfile_dependencies` returns; `LockfileDependencies` is proved equal to it, and `LockfileRecordsAreSubdependencies` and `LockfileWithoutShards` characterise it. |
| ShardsFileParser.ParseResult | shards/lib/dependabot/shards/file_parser.rb:18-23 | What `parse` returns or raises; `Parse` is proved equal to it, and `ParseNames`, `ParseWithoutLockfile` and `SyntaxErrorsFirst` characterise it. |
| ShardsFileParser.EntriesOfPrefix | shards/lib/dependabot/shards/file_parser.rb:51 | The entries of the first pairs of a section are a prefix of the section's entries. |
| ShardsFileParser.ManifestEntriesBySection | shards/lib/dependabot/shards/file_parser.rb:48-51 | Entries come from `dependencies` first, then `development_dependencies`. |
| ShardsFileParser.ManifestEntriesStep | shards/lib/dependabot/shards/file_parser.rb:48-51 | Reading one more section appends that section's entries. |
| ShardsFileParser.ManifestEntriesPrefix | shards/lib/dependabot/shards/file_parser.rb:48-51 | The entries read so far are a prefix of all entries. |
| ShardsFileParser.ErrorPersists | shards/lib/dependabot/shards/file_parser.rb:51-57 | Once an entry raises, the later entries change nothing: the same error is raised. |
| ShardsFileParser.RecordsStep | shards/lib/dependabot/shards/file_parser.rb:51-60 | One more entry either raises its version error, is skipped by the lockfile filter, or appends its record. |
| ShardsFileParser.TracksStep | shards/lib/dependabot/shards/file_parser.rb:51-60 | Adding an entry's record, or skipping it, keeps the set equal to the records gathered so far. |
| ShardsFileParser.AddEntry | shards/lib/dependabot/shards/file_parser.rb:52-59 | One entry either raises the error its records raise, or leaves the set equal to the records gathered with it. |
| ShardsFileParser.AddSection | shards/lib/dependabot/shards/file_parser.rb:51-60 | The inner loop over a section either gathers the records of all its entries or returns the error the records raise. |
| ShardsFileParser.AddSections | shards/lib/dependabot/shards/file_parser.rb:48-60 | The outer loop over the sections either gathers the records of all their entries or returns the error the records raise. |
| ShardsFileParser.ManifestDependencies | shards/lib/dependabot/shards/file_parser.rb:45-64 | `manifest_dependencies` returns exactly `ManifestSet`: the gathered manifest records, or the first error. |
| ShardsFileParser.LockfileDependencies | shards/lib/dependabot/shards/file_parser.rb:129-139 | `lockfile_dependencies` returns exactly `LockfileSet`: the set is empty without a lockfile, and without `shards` the call raises NoMethodError. |
| ShardsFileParser.LockTracksStep | shards/lib/dependabot/shards/file_parser.rb:134-136 | Adding the record of the next locked shard keeps the set equal to the records of the shards seen so far. |
| ShardsFileParser.Parse | shards/lib/dependabot/shards/file_parser.rb:18-23 | `parse` returns exactly `ParseResult`. |
| ShardsFileParser.WithoutLockfileAllKept | shards/lib/dependabot/shards/file_parser.rb:31-64 | Without a lockfile, every entry gives a top-level record with no version. Its single requirement has the entry's `version` constraint, file `shard.yml`, the entry's source and its section as group. |
| ShardsFileParser.FromKeptEntryExtends | shards/lib/dependabot/shards/file_parser.rb:51-57 | A record that comes from a kept entry still does when more entries follow. |
| ShardsFileParser.WithLockfileOnlyKept | shards/lib/dependabot/shards/file_parser.rb:52-57 | With a lockfile, every record comes from an entry whose locked version exists and starts a line with a digit, and it carries that version. |
| ShardsFileParser.WithLockfileAllKeptRecorded | shards/lib/dependabot/shards/file_parser.rb:52-59 | With a lockfile, every entry with such a version yields its record. |
| ShardsFileParser.ManifestErrorExactly | shards/lib/dependabot/shards/file_parser.rb:88-95 | The manifest raises iff some entry's lockfile entry lacks `version`, and the error is KeyError("version"). |
| ShardsFileParser.LockfileWithoutShards | shards/lib/dependabot/shards/file_parser.rb:129-139 | A lockfile without `shards` filters out every manifest entry, and then `lockfile_dependencies` raises NoMethodError. |
| ShardsFileParser.LockfileRecordsAreSubdependencies | shards/lib/dependabot/shards/file_parser.rb:142-150 | One record per locked shard, with the same names in order. Each has no requirements and carries the locked `version`. |
| ShardsFileParser.SyntaxErrorsFirst | shards/lib/dependabot/shards/file_parser.rb:66-78 | A broken `shard.yml` raises DependencyFileNotParseable with its path, whatever the lockfile holds. Otherwise a broken lockfile raises with the lockfile's path. |
| ShardsFileParser.GatheredNames | shards/lib/dependabot/shards/file_parser.rb:18-23 | Combining the manifest set and the lockfile set leaves each name of either exactly once. |
| ShardsFileParser.ParseUnfolds | shards/lib/dependabot/shards/file_parser.rb:18-23 | A successful parse is the manifest set, then the lockfile set, added to a new set. |
| ShardsFileParser.ParseNames | shards/lib/dependabot/shards/file_parser.rb:18-23 | `parse` returns records with distinct names: exactly the kept manifest names and the locked shard names. |
| ShardsFileParser.ParseWithoutLockfile | shards/lib/dependabot/shards/file_parser.rb:18-64 | Without a lockfile and with distinct names, `parse` returns one record per manifest entry, in section order, each without a version. |
| ShardsUpdateChecker.LatestResolvableVersionWithNoUnlock | shards/lib/dependabot/shards/update_checker.rb:49-59 | nil for a path dependency, otherwise the resolver's answer. |
| ShardsUpdateChecker.LatestVersionResolvableWithFullUnlock | shards/lib/dependabot/shards/update_checker.rb:78-81 | Always false. |
| ShardsUpdateChecker.LatestVersion | shards/lib/dependabot/shards/update_checker.rb:17-39 | The cascade of `latest_version`; characterised case by case by `PathDependencyHasNoVersions`, `BranchWins`, `PinnedVersionGivesLatestTag`, `CommitShaKept`, `FallbackToLatestTag` and `LatestVersionIsKnownAnswer`. |
| ShardsUpdateChecker.PathDependency | shards/lib/dependabot/shards/update_checker.rb:105-107 | Some requirement has a path source; `PathDependencyHasNoVersions` states its effect. |
| ShardsUpdateChecker.Library | shards/lib/dependabot/shards/update_checker.rb:100-103 | No file is named `shard.lock`; `LibraryIffNoLockfile` states it over the set of file names. |
| ShardsUpdateChecker.RequirementsUpdateStrategy | shards/lib/dependabot/shards/update_checker.rb:68-74 | The strategy chosen; `StrategyChoice` states both directions. |
| ShardsUpdateChecker.LibraryIffNoLockfile | shards/lib/dependabot/shards/update_checker.rb:100-103 | A project is a library iff `shard.lock` is not in the set of its file names. |
| ShardsUpdateChecker.StrategyChoice | shards/lib/dependabot/shards/update_checker.rb:68-74 | An explicit strategy is honoured. Otherwise the strategy is BumpVersions iff a lockfile exists, and BumpVersionsIfNecessary iff none does. |
| ShardsUpdateChecker.PathDependencyHasNoVersions | shards/lib/dependabot/shards/update_checker.rb:17-18 | A dependency with a path requirement has no latest version and no resolvable version, whatever git reports. |
| ShardsUpdateChecker.BranchWins | shards/lib/dependabot/shards/update_checker.rb:22-25 | With a branch, the answer is the branch head, independent of tags and SHAs. |
| ShardsUpdateChecker.PinnedVersionGivesLatestTag | shards/lib/dependabot/shards/update_checker.rb:27-30 | Without a branch, a version-like pin gives the latest tag, whatever the SHA test says. |
| ShardsUpdateChecker.CommitShaKept | shards/lib/dependabot/shards/update_checker.rb:32-35 | Otherwise a SHA-like current version is returned unchanged, whatever tags exist. |
| ShardsUpdateChecker.FallbackToLatestTag | shards/lib/dependabot/shards/update_checker.rb:37-38 | In every other case the answer is the latest tag's version. Without a tag, the call raises NoMethodError. |
| ShardsUpdateChecker.LatestVersionIsKnownAnswer | shards/lib/dependabot/shards/update_checker.rb:17-39 | The answer is nil, the branch head, the latest tag or the current version. The call raises exactly when there are no source details, or when it needs a tag that is missing. |
| ShardsVersionResolver.LastOccurrence | shards/lib/dependabot/shards/update_checker/version_resolver.rb:95 | The last position at or before a bound where the marker occurs, and no occurrence after it. |
| ShardsVersionResolver.MatchesAmbiguous | shards/lib/dependabot/shards/update_checker/version_resolver.rb:93 | The message matches `/specification .* is ambigu/`: `specification ` and later ` is ambigu` on the same line; `EmptyAmbiguityMessage` exhibits one. |
| ShardsVersionResolver.AfterLastMarker | shards/lib/dependabot/shards/update_checker/version_resolver.rb:95 | Without the marker `following:\n`, the whole message. Otherwise the text after the last marker: the message ends with the marker followed by that text, and the text contains no marker. |
| ShardsVersionResolver.Candidates | shards/lib/dependabot/shards/update_checker/version_resolver.rb:95-96 | One candidate per line after the marker. |
| Common.LinesRoundTrip | shards/lib/dependabot/shards/update_checker/version_resolver.rb:96 | `String#lines`: the lines put back together give the text; each is non-empty, every line but the last ends with a line feed, and no line has a line feed before its end. |
| Common.StripTrims | shards/lib/dependabot/shards/update_checker/version_resolver.rb:96 | `String#strip` leaves a string that starts and ends with no white space and sits in its input between white space only. |
| ShardsVersionResolver.CandidateIsTrimmedLine | shards/lib/dependabot/shards/update_checker/version_resolver.rb:95-96 | Each candidate is its line after the marker with the surrounding white space removed, and holds no line feed. |
| ShardsVersionResolver.SelectEndingWith | shards/lib/dependabot/shards/update_checker/version_resolver.rb:104-108 | A candidate is kept iff it ends with the version, and the result is no longer than the input. `SelectEndingWithFirst` places the first match at the head, and `SelectSingle` and `NoneSelected` give the counts of one and zero that the source tests. |
| ShardsVersionResolver.SelectContaining | shards/lib/dependabot/shards/update_checker/version_resolver.rb:111-113 | A candidate is kept iff it contains the URL, and the result is no longer than the input. `SelectContainingFirst` places the first match at the head, and `NoneContaining` gives the empty selection the source tests. |
| ShardsVersionResolver.SelectEndingWithFirst | shards/lib/dependabot/shards/update_checker/version_resolver.rb:108 | The first candidate ending with the version heads the selection. |
| ShardsVersionResolver.SelectContainingFirst | shards/lib/dependabot/shards/update_checker/version_resolver.rb:113 | The first candidate containing the URL heads the selection. |
| ShardsVersionResolver.SelectBothFirst | shards/lib/dependabot/shards/update_checker/version_resolver.rb:108-113 | The first candidate passing both filters heads the twice-narrowed list. |
| ShardsVersionResolver.GitSourceUrl | shards/lib/dependabot/shards/update_checker/version_resolver.rb:192-196 | nil iff no requirement has a git source. Otherwise the URL of the first requirement that does. |
| ShardsVersionResolver.VersionResolver.constructor | shards/lib/dependabot/shards/update_checker/version_resolver.rb:21-26 | A new resolver has no custom specification. |
| ShardsVersionResolver.ChooseSpecification | shards/lib/dependabot/shards/update_checker/version_resolver.rb:95-117 | The specification `better_specification_needed?` settles on; characterised by `ChoiceIsCandidate`, `SuffixPreferred`, `UniqueSuffixChosen`, `UrlPreferred`, `SuffixThenUrl`, `FirstByDefault` and the `First*Chosen` lemmas. |
| ShardsVersionResolver.SpecificationStep | shards/lib/dependabot/shards/update_checker/version_resolver.rb:91-118 | The answer of `better_specification_needed?` and the specification it leaves; `BetterSpecificationNeeded` is proved against it. |
| ShardsVersionResolver.Drive | shards/lib/dependabot/shards/update_checker/version_resolver.rb:42-61 | The retry loop over given run outcomes; `FetchLatestResolvableVersion` is proved against it, and `SetSpecificationStopsRetry`, `OtherFailuresNotRetried` and `RetryUnbounded` characterise it. |
| ShardsVersionResolver.SpecString | shards/lib/dependabot/shards/update_checker/version_resolver.rb:123-135 | What `dependency_spec` returns; `SpecStringSplits` characterises it. |
| ShardsVersionResolver.SanitizedManifestContent | shards/lib/dependabot/shards/update_checker/version_resolver.rb:198-208 | The manifest written for the resolver; `SanitizedShape`, `SectionKept` and `SanitizedKeepsDependencies` characterise it. |
| ShardsVersionResolver.VersionResolver.BetterSpecificationNeeded | shards/lib/dependabot/shards/update_checker/version_resolver.rb:91-118 | The answer and the new `@custom_specification` are `SpecificationStep` of the old one. |
| ShardsVersionResolver.VersionResolver.DependencySpec | shards/lib/dependabot/shards/update_checker/version_resolver.rb:123-135 | The built string is `SpecString` of the current custom specification. |
| ShardsVersionResolver.VersionResolver.FetchLatestResolvableVersion | shards/lib/dependabot/shards/update_checker/version_resolver.rb:42-61 | The retry loop ends as `Drive` says, with the custom specification `Drive` gives. |
| ShardsVersionResolver.ChoiceIsCandidate | shards/lib/dependabot/shards/update_checker/version_resolver.rb:95-117 | The choice is nil iff there are no candidates. It raises TypeError iff there are candidates but no version. Otherwise it is one of the candidates. |
| ShardsVersionResolver.SuffixPreferred | shards/lib/dependabot/shards/update_checker/version_resolver.rb:104-109 | When some candidate ends with the version, the chosen one does too. |
| ShardsVersionResolver.SelectSingle | shards/lib/dependabot/shards/update_checker/version_resolver.rb:104-105 | When exactly one position holds a candidate ending with the version, selection yields exactly that candidate. |
| ShardsVersionResolver.NoneSelected | shards/lib/dependabot/shards/update_checker/version_resolver.rb:107-108 | When no candidate ends with the version, the selection is empty. |
| ShardsVersionResolver.UniqueSuffixChosen | shards/lib/dependabot/shards/update_checker/version_resolver.rb:104-106 | The unique candidate ending with the version is chosen, whatever the URL. |
| ShardsVersionResolver.UrlPreferred | shards/lib/dependabot/shards/update_checker/version_resolver.rb:111-116 | When no candidate ends with the version, a candidate containing the git URL is chosen if one exists. |
| ShardsVersionResolver.SuffixThenUrl | shards/lib/dependabot/shards/update_checker/version_resolver.rb:107-116 | Among several candidates ending with the version, the choice also contains the URL when one of them does. |
| ShardsVersionResolver.NoneContaining | shards/lib/dependabot/shards/update_checker/version_resolver.rb:111-113 | When no candidate contains the URL, the URL selection is empty. |
| ShardsVersionResolver.FirstByDefault | shards/lib/dependabot/shards/update_checker/version_resolver.rb:116 | With no preference applying, the first candidate is chosen. |
| ShardsVersionResolver.FirstSuffixMatchChosen | shards/lib/dependabot/shards/update_checker/version_resolver.rb:104-116 | When the URL narrows nothing, the first candidate ending with the version is chosen. |
| ShardsVersionResolver.FirstBothMatchChosen | shards/lib/dependabot/shards/update_checker/version_resolver.rb:107-116 | Among several candidates ending with the version, the first that also contains the URL is chosen. |
| ShardsVersionResolver.FirstUrlMatchChosen | shards/lib/dependabot/shards/update_checker/version_resolver.rb:111-116 | When no candidate ends with the version, the first containing the URL is chosen. |
| ShardsVersionResolver.SetSpecificationStopsRetry | shards/lib/dependabot/shards/update_checker/version_resolver.rb:92 | Once a specification is set, a failure is not retried: it goes to `handle_cargo_errors`, and the specification is kept. |
| ShardsVersionResolver.OtherFailuresNotRetried | shards/lib/dependabot/shards/update_checker/version_resolver.rb:93 | A failure that is not an ambiguity error is not retried. |
| ShardsVersionResolver.SpecStringSplits | shards/lib/dependabot/shards/update_checker/version_resolver.rb:123-135 | Without a custom specification, the spec is the name, or the name, `:` and the appended version, and it splits back into them at `:`. |
| ShardsVersionResolver.SanitizedShape | shards/lib/dependabot/shards/update_checker/version_resolver.rb:198-208 | The sanitized manifest has exactly the keys `name`, `version`, `dependencies` and `development_dependencies`, with name `dependabot` and version `0.1.0`. |
| ShardsVersionResolver.SectionKept | shards/lib/dependabot/shards/update_checker/version_resolver.rb:205-206 | Each dependency section of the sanitized manifest yields the same entries as the original's. |
| ShardsVersionResolver.SanitizedKeepsDependencies | shards/lib/dependabot/shards/update_checker/version_resolver.rb:198-208 | The sanitized manifest declares exactly the original's dependency entries, in order. |
| ShardsVersionResolver.LockfileOf | shards/lib/dependabot/shards/update_checker/version_resolver.rb:210-213 | A lockfile found is the first of the files named `shard.lock`. |
| ShardsVersionResolver.LockfileIffNotLibrary | shards/lib/dependabot/shards/update_checker/version_resolver.rb:210-213 | The resolver finds a lockfile iff the update checker does not treat the project as a library. |
| ShardsVersionResolver.NoCandidatesAfterTrailingMarker | shards/lib/dependabot/shards/update_checker/version_resolver.rb:95-96 | A message that ends with the marker lists no candidate. |
| ShardsVersionResolver.RetryUnbounded | shards/lib/dependabot/shards/update_checker/version_resolver.rb:59 | As written: an ambiguity error listing no candidate is retried on every run, for any number of runs. |
| ShardsVersionResolver.EmptyAmbiguityMessage | shards/lib/dependabot/shards/update_checker/version_resolver.rb:93-96 | A concrete such message: it matches the ambiguity pattern and ends with the marker. |
| ShardsVersionResolver.RetryBounded | shards/lib/dependabot/shards/update_checker/version_resolver.rb:92 | With the corrected guard, the outcome depends only on the first two runs. |
| ShardsVersionResolver.ChosenStops | shards/lib/dependabot/shards/update_checker/version_resolver.rb:92 | With the corrected guard, once a choice is made the next run ends the loop. |
| ShardsVersionResolver.CorrectedAgreesWhenChosen | shards/lib/dependabot/shards/update_checker/version_resolver.rb:92-117 | Wherever the source chooses a candidate, the corrected guard gives the same outcome. |

## Left out

- YAML parsing and dumping (`YAML.safe_load`, `YAML.dump`) belong to a foreign library.
  - Files arrive already parsed, or marked as having a syntax error.
  - A manifest is an insertion-ordered list of top-level keys; a dependency section is a mapping from shard name to attributes.
  - Duplicate YAML keys are outside the modelled inputs. A Ruby Hash loaded from YAML keeps one entry per key, while the model's mappings are lists of pairs. Lookup finds the first pair, but iteration over a section (`EntriesOf`, `SectionEntries`) would visit every pair.
- Top-level YAML documents that are not mappings, attribute values that are not strings or null, manifest entries that are not mappings (a shard name with a null value, whose `attributes["version"]` raises NoMethodError once the entry is kept), and lockfile entries that are not mappings are not modelled. These make the source raise in ways the YAML library decides.
- File fetching, registration with the Dependabot lookup tables, and `check_required_files` are outside the parser's logic.
- `parsed_lockfile` and `parsed_shard_yaml` memoise their results. The model reads each file once, and a lockfile syntax error is raised before anything else in the manifest can fail. In the source, the lockfile is parsed at the first manifest entry or in `lockfile_dependencies`, and no error can occur before that point, so the error raised is the same.
- The subprocess (`run_shards_command`), temporary directories, git configuration and file writing are I/O. Each run of `shards outdated` is an input: `Succeeded`, or `Failed` with its output.
- `fetch_version_from_new_lockfile` stops the process (`exit 0`) after printing, so its selection code is unreachable. A successful run is modelled as the outcome `Exited`.
- `handle_cargo_errors` is not defined in the plugin. Reaching it is modelled as the error `NoMethodErrorHandleCargoErrors`.
- `RunsExhausted` only marks the end of the given sequence of runs. The source has no run budget.
- `latest_resolvable_version`'s rescue and memoisation wrap the resolver, and are not modelled.
- `git_dependency_version` parses TOML, and its result is an input. `git_dependency?` and the answers of `GitCommitChecker` (branch head, pinned-ref test, SHA test, latest tag) are network-backed oracles, also inputs. `dependency.source_details` is an input too.
- Gem::Version ordering and Gem::Requirement clause semantics are not part of the plugin, and are parameters (`ParentOrder`, `ClauseHolds`).
- DependencySet's merge of two same-name records belongs to the framework, and is a parameter (`MergePolicy`). Only one record per name, with merging in place, is modelled.
- `DependencyFileNotEvaluatable` appears in the tests but is never raised by the parser, so it is not modelled.
- The unused regular-expression constants of the resolver are not modelled.
- `fetch_version_from_new_lockfile` reads `shard.lock` from the temporary directory and fetches its `shards` key. A missing file (Errno::ENOENT) or a missing key (KeyError) would escape the retry loop. Both depend on what the subprocess wrote, so the model does not capture them: a successful run always ends as `Exited`.
- ShardsRequirement.New: clauses are not validated. Gem::Requirement raises BadRequirementError on an ill-formed clause such as `" *"`, and that parser is not part of this model, so `New` returns such clauses.
- ShardsVersion.FromString: Gem::Version raises ArgumentError on a malformed base. That parser is not part of this model, so `FromString` accepts any string.
- `inspect` is a debugging display and is not modelled.
- `updated_dependencies_after_full_unlock` only raises NotImplementedError and is never reached, because full unlocks are reported unsupported.
- `updated_requirements` and its RequirementsUpdater are not part of the plugin's sources, so they are not modelled.

## Findings

| source | as written | input that shows it | evidently intended | confidence | as-written member | corrected member |
|---|---|---|---|---|---|---|
| shards/lib/dependabot/shards/update_checker/version_resolver.rb:92 | An ambiguity error listing no candidate sets `@custom_specification` to `spec_options.first`, which is nil, and answers true. The guard `return false if @custom_specification` then never stops the `retry` at line 59. | Every run of `shards outdated` failing with "the specification `db` is ambiguous, it matches the following:" and a line feed | Retry at most once, as when a candidate is chosen | medium, not executed | ShardsVersionResolver.RetryUnbounded | ShardsVersionResolver.RetryBounded |
