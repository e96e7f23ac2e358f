/** Dependabot::Shards::FileParser: reads the parsed shard.yml manifest and, when present, the
    parsed shard.lock lockfile, and produces one Dependency per shard. Manifest shards come
    first, in the order of the `dependencies` then `development_dependencies` sections; with a
    lockfile, a manifest shard is kept only when its locked version starts (on some line) with
    a digit. Every locked shard follows as a record without requirements. YAML itself is not
    modelled: files arrive already parsed, or marked as syntactically broken. */
module ShardsFileParser {
  import opened Common
  import opened Dependencies

  /** The manifest sections that list dependencies, in the order they are read. */
  const DependencyTypes: seq<string> := ["dependencies", "development_dependencies"]

  /** A shard's attributes: string keys to string values, None standing for YAML null. */
  type Attrs = Hash<Option<string>>

  /** A top-level manifest value: a dependency section is a mapping from shard name to attributes. */
  datatype Value = Null | Bool(b: bool) | Scalar(text: string) | DependencyMap(shards: Hash<Attrs>) | Other

  type Manifest = Hash<Value>

  /** shard.lock: its `shards` mapping, None when the key is missing or null. */
  datatype Lockfile = Lockfile(shards: Option<Hash<Attrs>>)

  /** What YAML.safe_load made of a file. */
  datatype Content<T> = Parsed(doc: T) | SyntaxError

  datatype DependencyFile<T> = DependencyFile(path: string, content: Content<T>)

  /** The files the parser is given: shard.yml, and shard.lock if it exists. */
  datatype Files = Files(shardYml: DependencyFile<Manifest>, lockfile: Option<DependencyFile<Lockfile>>)

  datatype ParseError =
    | DependencyFileNotParseable(path: string)
    | KeyError(key: string)
    | NoMethodError(methodName: string)

  /** One `name: attributes` pair of a dependency section, with the section it came from. */
  datatype Entry = Entry(name: string, attributes: Attrs, group: string)

  /** `attributes[key]`: nil when the key is missing or its value is null. */
  function Get(attributes: Attrs, key: string): (r: Option<string>)
    ensures r.Some? ==> HasKey(attributes, key)
  {
    match Lookup(attributes, key)
    case Some(v) => v
    case None => None
  }

  /** `attributes[key]` is the value of the entry with that key. */
  lemma GetAt(attributes: Attrs, key: string, i: nat)
    requires i < |attributes| && attributes[i].0 == key
    requires forall j | 0 <= j < i :: attributes[j].0 != key
    ensures Get(attributes, key) == attributes[i].1
  {
    LookupAt(attributes, key, i);
  }

  // ---------------------------------------------------------------------------
  // Sources

  /** dependency_source: a `path` key (whatever its value) makes a path source; otherwise the
      first of `github`, `gitlab`, `bitbucket` (expanded to a clone URL) and `git` gives the URL,
      and with no URL there is no source. */
  function DependencySource(attributes: Attrs): Option<Source> {
    if HasKey(attributes, "path") then Some(PathSource)
    else
      var url :=
        if Get(attributes, "github").Some? then Some("https://github.com/" + Get(attributes, "github").value + ".git")
        else if Get(attributes, "gitlab").Some? then Some("https://gitlab.com/" + Get(attributes, "gitlab").value + ".git")
        else if Get(attributes, "bitbucket").Some? then Some("https://bitbucket.com/" + Get(attributes, "bitbucket").value + ".git")
        else Get(attributes, "git");
      if url.None? then None
      else
        var tag := Get(attributes, "tag");
        Some(GitSource(url.value, Get(attributes, "branch"), if tag.Some? then tag else Get(attributes, "commit")))
  }

  /** A `path` key (whatever its value) gives a path source; no source exactly when none of the
      five keys is there; a git source carries `branch`, and `tag` or else `commit` as its ref. */
  lemma DependencySourceCases(attributes: Attrs)
    ensures var r := DependencySource(attributes);
      (r == Some(PathSource) <==> HasKey(attributes, "path")) &&
      (r.None? <==>
        !HasKey(attributes, "path") && Get(attributes, "github").None? && Get(attributes, "gitlab").None? &&
        Get(attributes, "bitbucket").None? && Get(attributes, "git").None?) &&
      (r.Some? && r.value.GitSource? ==>
        r.value.branch == Get(attributes, "branch") &&
        r.value.ref == (if Get(attributes, "tag").Some? then Get(attributes, "tag") else Get(attributes, "commit")))
  {
  }

  /** The host prefix a shorthand key expands with. */
  function ShorthandHost(key: string): string {
    if key == "github" then "https://github.com/"
    else if key == "gitlab" then "https://gitlab.com/"
    else "https://bitbucket.com/"
  }

  /** A shorthand `owner/repo` is recovered from the URL by removing the host and `.git`; and a
      shorthand key wins over the keys after it. */
  lemma ShorthandRoundTrip(attributes: Attrs, key: string)
    requires key in ["github", "gitlab", "bitbucket"]
    requires !HasKey(attributes, "path") && Get(attributes, key).Some?
    requires key != "github" ==> Get(attributes, "github").None?
    requires key == "bitbucket" ==> Get(attributes, "gitlab").None?
    ensures var r := DependencySource(attributes);
      r.Some? && r.value.GitSource? &&
      StartsWith(r.value.url, ShorthandHost(key)) && EndsWith(r.value.url, ".git") &&
      r.value.url[|ShorthandHost(key)|..|r.value.url| - 4] == Get(attributes, key).value
  {
    var s := Get(attributes, key).value;
    var url := ShorthandHost(key) + s + ".git";
    assert DependencySource(attributes).value.url == url;
    assert url[..|ShorthandHost(key)|] == ShorthandHost(key);
    assert url[|url| - 4..] == ".git";
    assert url[|ShorthandHost(key)|..|url| - 4] == s;
  }

  /** Without a shorthand key, a `git` URL is used as it is. */
  lemma GitUrlVerbatim(attributes: Attrs)
    requires !HasKey(attributes, "path") && Get(attributes, "git").Some?
    requires Get(attributes, "github").None? && Get(attributes, "gitlab").None? && Get(attributes, "bitbucket").None?
    ensures DependencySource(attributes) ==
      Some(GitSource(Get(attributes, "git").value, Get(attributes, "branch"),
        if Get(attributes, "tag").Some? then Get(attributes, "tag") else Get(attributes, "commit")))
  {
  }

  // ---------------------------------------------------------------------------
  // Versions from the lockfile

  /** lockfile_details: `parsed_lockfile.dig("shards", name)`. */
  function LockfileDetails(lock: Lockfile, name: string): (r: Option<Attrs>)
    ensures r.Some? <==> lock.shards.Some? && HasKey(lock.shards.value, name)
  {
    if lock.shards.None? then None else Lookup(lock.shards.value, name)
  }

  /** dependency_version: nil without a lockfile or a locked entry; otherwise the entry's
      `version`, fetched so that an entry without that key raises KeyError. */
  function DependencyVersion(lock: Option<Lockfile>, name: string): (r: Result<Option<string>, ParseError>)
    ensures r.Err? <==>
      lock.Some? && LockfileDetails(lock.value, name).Some? && !HasKey(LockfileDetails(lock.value, name).value, "version")
    ensures r.Err? ==> r.error == KeyError("version")
    ensures r.Ok? && r.value.Some? ==>
      lock.Some? && LockfileDetails(lock.value, name).Some? && Lookup(LockfileDetails(lock.value, name).value, "version") == Some(r.value)
  {
    if lock.None? then Ok(None)
    else match LockfileDetails(lock.value, name)
      case None => Ok(None)
      case Some(shard) =>
        match Lookup(shard, "version")
        case None => Err(KeyError("version"))
        case Some(v) => Ok(v)
  }

  /** The lockfile details of a shard are the attributes of its entry under `shards`. */
  lemma LockfileDetailsAt(shards: Hash<Attrs>, name: string, i: nat)
    requires i < |shards| && shards[i].0 == name
    requires forall j | 0 <= j < i :: shards[j].0 != name
    ensures LockfileDetails(Lockfile(Some(shards)), name) == Some(shards[i].1)
  {
    LookupAt(shards, name, i);
  }

  /** A locked shard whose entry has a `version` key yields that key's value, nil included. */
  lemma DependencyVersionAt(shards: Hash<Attrs>, name: string, i: nat, m: nat)
    requires i < |shards| && shards[i].0 == name
    requires forall j | 0 <= j < i :: shards[j].0 != name
    requires m < |shards[i].1| && shards[i].1[m].0 == "version"
    requires forall j | 0 <= j < m :: shards[i].1[j].0 != "version"
    ensures DependencyVersion(Some(Lockfile(Some(shards))), name) == Ok(shards[i].1[m].1)
  {
    LockfileDetailsAt(shards, name, i);
    LookupAt(shards[i].1, "version", m);
  }

  /** `/^\d/`: some line of s starts with a digit (Ruby's `^` matches after every line feed). */
  predicate LineStartsWithDigit(s: string) {
    exists i | 0 <= i < |s| :: DigitStartsLineAt(s, i)
  }

  predicate DigitStartsLineAt(s: string, i: nat)
    requires i < |s|
  {
    (i == 0 || s[i - 1] == '\n') && IsDigit(s[i])
  }

  /** For a single-line version string the test is just its first character. */
  lemma SingleLineDigitTest(s: string)
    requires '\n' !in s
    ensures LineStartsWithDigit(s) <==> s != [] && IsDigit(s[0])
  {
    if s != [] && IsDigit(s[0]) {
      assert DigitStartsLineAt(s, 0);
    }
    if LineStartsWithDigit(s) {
      var i :| 0 <= i < |s| && DigitStartsLineAt(s, i);
      if i != 0 {
        assert s[i - 1] in s;
      }
    }
  }

  /** `version&.match?(/^\d/)`: a locked version that can be compared later on. */
  predicate Comparable(version: Option<string>) {
    version.Some? && LineStartsWithDigit(version.value)
  }

  // ---------------------------------------------------------------------------
  // Records

  function BuildManifestDependency(e: Entry, version: Option<string>): Dependency {
    Dependency(e.name, version,
      [RequirementEntry(Get(e.attributes, "version"), "shard.yml", DependencySource(e.attributes), [e.group])])
  }

  function BuildLockfileDependency(name: string, version: Option<string>): Dependency {
    Dependency(name, version, [])
  }

  /** The entries of one section, when that section is a mapping (`next unless ... is_a?(Hash)`). */
  function SectionEntries(manifest: Manifest, group: string): (r: seq<Entry>)
    ensures forall k | 0 <= k < |r| :: r[k].group == group
    ensures !(Lookup(manifest, group).Some? && Lookup(manifest, group).value.DependencyMap?) ==> r == []
    ensures Lookup(manifest, group).Some? && Lookup(manifest, group).value.DependencyMap? ==>
      var shards := Lookup(manifest, group).value.shards;
      |r| == |shards| && forall k | 0 <= k < |r| :: r[k] == Entry(shards[k].0, shards[k].1, group)
  {
    var section := Lookup(manifest, group);
    if section.Some? && section.value.DependencyMap? then EntriesOf(section.value.shards, group) else []
  }

  function EntriesOf(shards: Hash<Attrs>, group: string): (r: seq<Entry>)
    ensures |r| == |shards| && forall k | 0 <= k < |r| :: r[k] == Entry(shards[k].0, shards[k].1, group)
  {
    if shards == [] then []
    else EntriesOf(shards[..|shards| - 1], group) + [Entry(shards[|shards| - 1].0, shards[|shards| - 1].1, group)]
  }

  /** The entries of the given sections, section by section. */
  function ManifestEntries(manifest: Manifest, groups: seq<string>): seq<Entry> {
    if groups == [] then []
    else ManifestEntries(manifest, groups[..|groups| - 1]) + SectionEntries(manifest, groups[|groups| - 1])
  }

  /** The records manifest_dependencies adds, in order, or the error it raises first. */
  function ManifestRecords(entries: seq<Entry>, lock: Option<Lockfile>): Result<seq<Dependency>, ParseError> {
    if entries == [] then Ok([])
    else
      match ManifestRecords(entries[..|entries| - 1], lock)
      case Err(err) => Err(err)
      case Ok(rs) =>
        var e := entries[|entries| - 1];
        match DependencyVersion(lock, e.name)
        case Err(err) => Err(err)
        case Ok(v) => if lock.Some? && !Comparable(v) then Ok(rs) else Ok(rs + [BuildManifestDependency(e, v)])
  }

  /** What manifest_dependencies returns: the records gathered in a DependencySet. */
  function ManifestSet(manifest: Manifest, lock: Option<Lockfile>, policy: MergePolicy): Result<seq<Dependency>, ParseError> {
    match ManifestRecords(ManifestEntries(manifest, DependencyTypes), lock)
    case Err(err) => Err(err)
    case Ok(rs) => Ok(InsertAll([], rs, policy))
  }

  /** The records lockfile_dependencies adds: one per locked shard, none without a lockfile;
      a lockfile without a `shards` mapping raises NoMethodError on `nil.each`. */
  function LockfileRecords(lock: Option<Lockfile>): Result<seq<Dependency>, ParseError> {
    if lock.None? then Ok([])
    else if lock.value.shards.None? then Err(NoMethodError("each"))
    else
      var shards := lock.value.shards.value;
      Ok(seq(|shards|, k requires 0 <= k < |shards| => BuildLockfileDependency(shards[k].0, Get(shards[k].1, "version"))))
  }

  function LockfileSet(lock: Option<Lockfile>, policy: MergePolicy): Result<seq<Dependency>, ParseError> {
    match LockfileRecords(lock)
    case Err(err) => Err(err)
    case Ok(rs) => Ok(InsertAll([], rs, policy))
  }

  /** parsed_shard_yaml. */
  function ParsedShardYaml(files: Files): Result<Manifest, ParseError> {
    match files.shardYml.content
    case SyntaxError => Err(DependencyFileNotParseable(files.shardYml.path))
    case Parsed(doc) => Ok(doc)
  }

  /** parsed_lockfile: nil without a lockfile. */
  function ParsedLockfile(files: Files): Result<Option<Lockfile>, ParseError> {
    match files.lockfile
    case None => Ok(None)
    case Some(f) =>
      match f.content
      case SyntaxError => Err(DependencyFileNotParseable(f.path))
      case Parsed(doc) => Ok(Some(doc))
  }

  /** What parse returns or raises. The manifest is read first, so its syntax error wins. A
      lockfile is read at the first manifest entry or else by lockfile_dependencies, before any
      other error can arise, so its syntax error comes next. */
  function ParseResult(files: Files, policy: MergePolicy): Result<seq<Dependency>, ParseError> {
    match ParsedShardYaml(files)
    case Err(err) => Err(err)
    case Ok(manifest) =>
      match ParsedLockfile(files)
      case Err(err) => Err(err)
      case Ok(lock) =>
        match ManifestSet(manifest, lock, policy)
        case Err(err) => Err(err)
        case Ok(m) =>
          match LockfileSet(lock, policy)
          case Err(err) => Err(err)
          case Ok(l) => Ok(InsertAll(InsertAll([], m, policy), l, policy))
  }

  // ---------------------------------------------------------------------------
  // The parser's methods

  lemma ManifestEntriesStep(manifest: Manifest, groups: seq<string>, t: nat)
    requires t < |groups|
    ensures ManifestEntries(manifest, groups[..t + 1]) == ManifestEntries(manifest, groups[..t]) + SectionEntries(manifest, groups[t])
  {
    assert groups[..t + 1][..t] == groups[..t];
  }

  lemma {:induction false} ManifestEntriesPrefix(manifest: Manifest, groups: seq<string>, t: nat)
    requires t <= |groups|
    ensures ManifestEntries(manifest, groups[..t]) <= ManifestEntries(manifest, groups)
    decreases |groups| - t
  {
    if t < |groups| {
      ManifestEntriesStep(manifest, groups, t);
      ManifestEntriesPrefix(manifest, groups, t + 1);
    } else {
      assert groups[..t] == groups;
    }
  }

  /** The entries of the manifest: those of `dependencies`, then those of `development_dependencies`. */
  lemma ManifestEntriesBySection(manifest: Manifest)
    ensures ManifestEntries(manifest, DependencyTypes) ==
      SectionEntries(manifest, "dependencies") + SectionEntries(manifest, "development_dependencies")
  {
    var types := DependencyTypes;
    assert types[..1] == ["dependencies"] && types[..1][..0] == [] && types[..2 - 1] == types[..1];
    assert ManifestEntries(manifest, types[..1]) == SectionEntries(manifest, "dependencies");
  }

  /** Once an entry raises, the rest of the manifest is never read. */
  lemma {:induction false} ErrorPersists(a: seq<Entry>, b: seq<Entry>, lock: Option<Lockfile>)
    requires a <= b && ManifestRecords(a, lock).Err?
    ensures ManifestRecords(b, lock) == ManifestRecords(a, lock)
    decreases |b|
  {
    if |b| > |a| {
      assert a <= b[..|b| - 1];
      ErrorPersists(a, b[..|b| - 1], lock);
    } else {
      assert a == b;
    }
  }

  /** One more entry: it raises, is skipped, or adds its record. */
  lemma RecordsStep(done: seq<Entry>, e: Entry, lock: Option<Lockfile>)
    requires ManifestRecords(done, lock).Ok?
    ensures var v := DependencyVersion(lock, e.name);
      ManifestRecords(done + [e], lock) ==
        if v.Err? then Err(v.error)
        else if lock.Some? && !Comparable(v.value) then ManifestRecords(done, lock)
        else Ok(ManifestRecords(done, lock).value + [BuildManifestDependency(e, v.value)])
  {
    assert (done + [e])[..|done + [e]| - 1] == done;
  }

  lemma InsertAllSnoc(ds: seq<Dependency>, more: seq<Dependency>, d: Dependency, policy: MergePolicy)
    ensures InsertAll(ds, more + [d], policy) == Insert(InsertAll(ds, more, policy), d, policy)
  {
    assert (more + [d])[..|more + [d]| - 1] == more;
  }

  /** `deps` holds exactly the records of the entries in `done`. */
  ghost predicate Tracks(deps: seq<Dependency>, done: seq<Entry>, lock: Option<Lockfile>, policy: MergePolicy) {
    ManifestRecords(done, lock).Ok? && deps == InsertAll([], ManifestRecords(done, lock).value, policy)
  }

  lemma TracksStep(deps: seq<Dependency>, done: seq<Entry>, e: Entry, lock: Option<Lockfile>, policy: MergePolicy)
    requires Tracks(deps, done, lock, policy) && DependencyVersion(lock, e.name).Ok?
    ensures var v := DependencyVersion(lock, e.name).value;
      if lock.Some? && !Comparable(v) then Tracks(deps, done + [e], lock, policy)
      else Tracks(Insert(deps, BuildManifestDependency(e, v), policy), done + [e], lock, policy)
  {
    RecordsStep(done, e, lock);
    var v := DependencyVersion(lock, e.name).value;
    InsertAllSnoc([], ManifestRecords(done, lock).value, BuildManifestDependency(e, v), policy);
  }

  lemma ConcatKeepsPrefix<T>(xs: seq<T>, a: seq<T>, b: seq<T>)
    requires a <= b
    ensures xs + a <= xs + b
  {
    assert (xs + b)[..|xs + a|] == xs + a;
  }

  lemma EntriesOfStep(done: seq<Entry>, shards: Hash<Attrs>, group: string, i: nat)
    requires i < |shards|
    ensures done + EntriesOf(shards[..i + 1], group) == (done + EntriesOf(shards[..i], group)) + [Entry(shards[i].0, shards[i].1, group)]
  {
    assert shards[..i + 1][..i] == shards[..i];
  }

  lemma {:induction false} EntriesOfPrefix(shards: Hash<Attrs>, group: string, j: nat)
    requires j <= |shards|
    ensures EntriesOf(shards[..j], group) <= EntriesOf(shards, group)
    decreases |shards|
  {
    if j < |shards| {
      var init := shards[..|shards| - 1];
      assert init[..j] == shards[..j];
      EntriesOfPrefix(init, group, j);
    } else {
      assert shards[..j] == shards;
    }
  }

  /** The body of manifest_dependencies' inner loop for one entry: raise its version error, skip it
      by the lockfile filter, or add its record. */
  method AddEntry(dependencies: DependencySet, e: Entry, lock: Option<Lockfile>, ghost seen: seq<Entry>)
    returns (err: Option<ParseError>)
    requires dependencies.Valid() && Tracks(dependencies.dependencies, seen, lock, dependencies.policy)
    modifies dependencies
    ensures dependencies.Valid()
    ensures err.None? ==> Tracks(dependencies.dependencies, seen + [e], lock, dependencies.policy)
    ensures err.Some? ==> ManifestRecords(seen + [e], lock) == Err(err.value)
  {
    var version := DependencyVersion(lock, e.name);
    if version.Err? {
      RecordsStep(seen, e, lock);
      return Some(version.error);
    }
    TracksStep(dependencies.dependencies, seen, e, lock, dependencies.policy);
    if lock.Some? && !Comparable(version.value) {
      return None;
    }
    dependencies.Add(BuildManifestDependency(e, version.value));
    return None;
  }

  /** The inner loop of manifest_dependencies: the shards of one section, each added unless the
      lockfile filter skips it; stops at the first entry that raises. */
  method AddSection(dependencies: DependencySet, shards: Hash<Attrs>, group: string, lock: Option<Lockfile>,
                    ghost done: seq<Entry>)
    returns (err: Option<ParseError>)
    requires dependencies.Valid() && Tracks(dependencies.dependencies, done, lock, dependencies.policy)
    modifies dependencies
    ensures dependencies.Valid()
    ensures err.None? ==> Tracks(dependencies.dependencies, done + EntriesOf(shards, group), lock, dependencies.policy)
    ensures err.Some? ==> ManifestRecords(done + EntriesOf(shards, group), lock) == Err(err.value)
  {
    assert shards[..0] == [];
    ghost var seen := done;
    assert seen == done + EntriesOf(shards[..0], group);
    for i := 0 to |shards|
      invariant seen == done + EntriesOf(shards[..i], group)
      invariant dependencies.Valid()
      invariant Tracks(dependencies.dependencies, seen, lock, dependencies.policy)
    {
      var e := Entry(shards[i].0, shards[i].1, group);
      EntriesOfStep(done, shards, group, i);
      err := AddEntry(dependencies, e, lock, seen);
      seen := seen + [e];
      if err.Some? {
        EntriesOfPrefix(shards, group, i + 1);
        ConcatKeepsPrefix(done, EntriesOf(shards[..i + 1], group), EntriesOf(shards, group));
        ErrorPersists(seen, done + EntriesOf(shards, group), lock);
        return;
      }
    }
    assert shards[..|shards|] == shards;
    return None;
  }

  /** The outer loop of manifest_dependencies, over the given sections in order: sections that
      are not mappings are skipped; stops at the first entry that raises. */
  method AddSections(dependencies: DependencySet, manifest: Manifest, groups: seq<string>, lock: Option<Lockfile>)
    returns (err: Option<ParseError>)
    requires dependencies.Valid() && dependencies.dependencies == []
    modifies dependencies
    ensures dependencies.Valid()
    ensures err.None? ==> Tracks(dependencies.dependencies, ManifestEntries(manifest, groups), lock, dependencies.policy)
    ensures err.Some? ==> ManifestRecords(ManifestEntries(manifest, groups), lock) == Err(err.value)
  {
    ghost var done: seq<Entry> := [];
    for t := 0 to |groups|
      invariant done == ManifestEntries(manifest, groups[..t])
      invariant dependencies.Valid()
      invariant Tracks(dependencies.dependencies, done, lock, dependencies.policy)
    {
      ManifestEntriesStep(manifest, groups, t);
      var group := groups[t];
      var section := Lookup(manifest, group);
      if section.Some? && section.value.DependencyMap? {
        assert SectionEntries(manifest, group) == EntriesOf(section.value.shards, group);
        err := AddSection(dependencies, section.value.shards, group, lock, done);
        if err.Some? {
          ManifestEntriesPrefix(manifest, groups, t + 1);
          ErrorPersists(ManifestEntries(manifest, groups[..t + 1]), ManifestEntries(manifest, groups), lock);
          return;
        }
      } else {
        assert done + SectionEntries(manifest, group) == done;
      }
      done := done + SectionEntries(manifest, group);
    }
    assert groups[..|groups|] == groups;
    return None;
  }

  /** manifest_dependencies. */
  method ManifestDependencies(manifest: Manifest, lock: Option<Lockfile>, policy: MergePolicy)
    returns (r: Result<seq<Dependency>, ParseError>)
    ensures r == ManifestSet(manifest, lock, policy)
  {
    var dependencies := new DependencySet(policy);
    var err := AddSections(dependencies, manifest, DependencyTypes, lock);
    if err.Some? {
      return Err(err.value);
    }
    return Ok(dependencies.dependencies);
  }

  /** `deps` holds exactly the records of the first `i` locked shards. */
  ghost predicate LockTracks(deps: seq<Dependency>, shards: Hash<Attrs>, i: nat, policy: MergePolicy)
    requires i <= |shards|
  {
    deps == InsertAll([], LockfileRecords(Some(Lockfile(Some(shards)))).value[..i], policy)
  }

  lemma LockTracksStep(deps: seq<Dependency>, shards: Hash<Attrs>, i: nat, policy: MergePolicy)
    requires i < |shards| && LockTracks(deps, shards, i, policy)
    ensures LockTracks(Insert(deps, BuildLockfileDependency(shards[i].0, Get(shards[i].1, "version")), policy), shards, i + 1, policy)
  {
    var all := LockfileRecords(Some(Lockfile(Some(shards)))).value;
    assert all[..i + 1] == all[..i] + [all[i]];
    InsertAllSnoc([], all[..i], all[i], policy);
  }

  /** lockfile_dependencies. */
  method LockfileDependencies(lock: Option<Lockfile>, policy: MergePolicy)
    returns (r: Result<seq<Dependency>, ParseError>)
    ensures r == LockfileSet(lock, policy)
  {
    var dependencies := new DependencySet(policy);
    if lock.None? {
      assert InsertAll([], [], policy) == [];
      return Ok(dependencies.dependencies);
    }
    if lock.value.shards.None? {
      return Err(NoMethodError("each"));
    }
    var shards := lock.value.shards.value;
    for i := 0 to |shards|
      invariant dependencies.Valid() && dependencies.policy == policy
      invariant LockTracks(dependencies.dependencies, shards, i, policy)
    {
      var d := BuildLockfileDependency(shards[i].0, Get(shards[i].1, "version"));
      LockTracksStep(dependencies.dependencies, shards, i, policy);
      dependencies.Add(d);
    }
    assert LockfileRecords(lock).value[..|shards|] == LockfileRecords(lock).value;
    return Ok(dependencies.dependencies);
  }

  /** parse. */
  method Parse(files: Files, policy: MergePolicy) returns (r: Result<seq<Dependency>, ParseError>)
    ensures r == ParseResult(files, policy)
  {
    var manifest :- ParsedShardYaml(files);
    var lock :- ParsedLockfile(files);
    var dependencySet := new DependencySet(policy);
    var m :- ManifestDependencies(manifest, lock, policy);
    dependencySet.AddAll(m);
    var l :- LockfileDependencies(lock, policy);
    dependencySet.AddAll(l);
    return Ok(dependencySet.dependencies);
  }

  // ---------------------------------------------------------------------------
  // Properties

  /** The names of manifest entries, in order. */
  function EntryNames(entries: seq<Entry>): seq<string> {
    seq(|entries|, k requires 0 <= k < |entries| => entries[k].name)
  }

  /** Without a lockfile every manifest entry becomes a top-level record with no version, whose
      one requirement is the entry's `version` constraint in shard.yml, under the entry's section. */
  lemma {:induction false} WithoutLockfileAllKept(entries: seq<Entry>)
    ensures ManifestRecords(entries, None).Ok?
    ensures var rs := ManifestRecords(entries, None).value;
      |rs| == |entries| &&
      forall k | 0 <= k < |rs| ::
        rs[k].name == entries[k].name && rs[k].version == None && TopLevel(rs[k]) &&
        rs[k].requirements == [RequirementEntry(Get(entries[k].attributes, "version"), "shard.yml",
                                                DependencySource(entries[k].attributes), [entries[k].group])]
    decreases |entries|
  {
    if entries != [] {
      WithoutLockfileAllKept(entries[..|entries| - 1]);
    }
  }

  /** A manifest entry whose locked version is usable: it has a lockfile entry with a `version`
      whose value starts a line with a digit. */
  ghost predicate Kept(e: Entry, lock: Lockfile) {
    DependencyVersion(Some(lock), e.name).Ok? && Comparable(DependencyVersion(Some(lock), e.name).value)
  }

  /** A record built from one of the kept entries, with that entry's locked version. */
  ghost predicate FromKeptEntry(r: Dependency, entries: seq<Entry>, lock: Lockfile) {
    r.version.Some? && LineStartsWithDigit(r.version.value) &&
    exists k | 0 <= k < |entries| :: Kept(entries[k], lock) && r == BuildManifestDependency(entries[k], r.version)
  }

  lemma FromKeptEntryExtends(r: Dependency, entries: seq<Entry>, e: Entry, lock: Lockfile)
    requires FromKeptEntry(r, entries, lock)
    ensures FromKeptEntry(r, entries + [e], lock)
  {
    var k :| 0 <= k < |entries| && Kept(entries[k], lock) && r == BuildManifestDependency(entries[k], r.version);
    assert (entries + [e])[k] == entries[k];
  }

  /** With a lockfile, every record comes from a kept entry and carries its locked version. */
  lemma {:induction false} WithLockfileOnlyKept(entries: seq<Entry>, lock: Lockfile)
    requires ManifestRecords(entries, Some(lock)).Ok?
    ensures var rs := ManifestRecords(entries, Some(lock)).value;
      forall j | 0 <= j < |rs| :: FromKeptEntry(rs[j], entries, lock)
    decreases |entries|
  {
    if entries != [] {
      var init := entries[..|entries| - 1];
      var e := entries[|entries| - 1];
      assert entries == init + [e];
      RecordsStep(init, e, Some(lock));
      WithLockfileOnlyKept(init, lock);
      var rs0 := ManifestRecords(init, Some(lock)).value;
      var rs := ManifestRecords(entries, Some(lock)).value;
      forall j | 0 <= j < |rs0| ensures FromKeptEntry(rs[j], entries, lock) {
        FromKeptEntryExtends(rs0[j], init, e, lock);
      }
      if Kept(e, lock) {
        assert Kept(entries[|init|], lock);
      }
    }
  }

  /** With a lockfile, every kept entry yields its record. */
  lemma {:induction false} WithLockfileAllKeptRecorded(entries: seq<Entry>, lock: Lockfile)
    requires ManifestRecords(entries, Some(lock)).Ok?
    ensures forall k | 0 <= k < |entries| && Kept(entries[k], lock) ::
      BuildManifestDependency(entries[k], DependencyVersion(Some(lock), entries[k].name).value)
        in ManifestRecords(entries, Some(lock)).value
    decreases |entries|
  {
    if entries != [] {
      var init := entries[..|entries| - 1];
      var e := entries[|entries| - 1];
      RecordsStep(init, e, Some(lock));
      WithLockfileAllKeptRecorded(init, lock);
      var rs0 := ManifestRecords(init, Some(lock)).value;
      var rs := ManifestRecords(entries, Some(lock)).value;
      assert rs0 <= rs;
      forall k | 0 <= k < |entries| && Kept(entries[k], lock)
        ensures BuildManifestDependency(entries[k], DependencyVersion(Some(lock), entries[k].name).value) in rs
      {
        if k < |init| {
          assert init[k] == entries[k];
          var x := BuildManifestDependency(init[k], DependencyVersion(Some(lock), init[k].name).value);
          assert x in rs0;
        } else {
          assert entries[k] == e;
          assert rs[|rs| - 1] == BuildManifestDependency(e, DependencyVersion(Some(lock), e.name).value);
        }
      }
    }
  }

  /** The manifest raises exactly when some entry's lockfile entry lacks a `version` key. */
  lemma {:induction false} ManifestErrorExactly(entries: seq<Entry>, lock: Option<Lockfile>)
    ensures ManifestRecords(entries, lock).Err? <==>
      exists k | 0 <= k < |entries| :: DependencyVersion(lock, entries[k].name).Err?
    ensures ManifestRecords(entries, lock).Err? ==> ManifestRecords(entries, lock).error == KeyError("version")
    decreases |entries|
  {
    if entries != [] {
      var init := entries[..|entries| - 1];
      ManifestErrorExactly(init, lock);
      assert forall k | 0 <= k < |init| :: init[k] == entries[k];
      if ManifestRecords(init, lock).Ok? {
        RecordsStep(init, entries[|entries| - 1], lock);
      }
    }
  }

  /** A lockfile without a `shards` mapping filters out every manifest entry (there is no locked
      version to compare), and then lockfile_dependencies raises. */
  lemma {:induction false} LockfileWithoutShards(entries: seq<Entry>)
    ensures ManifestRecords(entries, Some(Lockfile(None))) == Ok([])
    ensures LockfileRecords(Some(Lockfile(None))) == Err(NoMethodError("each"))
    decreases |entries|
  {
    if entries != [] {
      LockfileWithoutShards(entries[..|entries| - 1]);
    }
  }

  /** Every locked shard is recorded as a subdependency: not top level, with the locked version. */
  lemma LockfileRecordsAreSubdependencies(shards: Hash<Attrs>)
    ensures var rs := LockfileRecords(Some(Lockfile(Some(shards))));
      rs.Ok? && Names(rs.value) == Keys(shards) &&
      forall k | 0 <= k < |rs.value| :: !TopLevel(rs.value[k]) && rs.value[k].version == Get(shards[k].1, "version")
  {
  }

  /** The parsed files in the order parse raises: shard.yml's syntax error first, whatever the
      lockfile holds. */
  lemma SyntaxErrorsFirst(files: Files, policy: MergePolicy)
    ensures files.shardYml.content.SyntaxError? ==>
      ParseResult(files, policy) == Err(DependencyFileNotParseable(files.shardYml.path))
    ensures files.shardYml.content.Parsed? && files.lockfile.Some? && files.lockfile.value.content.SyntaxError? ==>
      ParseResult(files, policy) == Err(DependencyFileNotParseable(files.lockfile.value.path))
  {
  }

  /** Gathering m and l into sets of their own, then adding both to an empty one, leaves each name
      of m or l once. */
  lemma GatheredNames(m: seq<Dependency>, l: seq<Dependency>, policy: MergePolicy)
    ensures var ds := InsertAll(InsertAll([], InsertAll([], m, policy), policy), InsertAll([], l, policy), policy);
      NoDuplicates(Names(ds)) && forall n :: n in Names(ds) <==> n in Names(m) || n in Names(l)
  {
    var set1 := InsertAll([], m, policy);
    InsertAllNames([], m, policy);
    DedupNoDuplicates([], Names(m));
    var set2 := InsertAll([], set1, policy);
    InsertAllNames([], set1, policy);
    DedupNoDuplicates([], Names(set1));
    var set3 := InsertAll([], l, policy);
    InsertAllNames([], l, policy);
    DedupNoDuplicates([], Names(l));
    InsertAllNames(set2, set3, policy);
    DedupNoDuplicates(Names(set2), Names(set3));
  }

  lemma ParseUnfolds(files: Files, policy: MergePolicy)
    requires ParseResult(files, policy).Ok?
    ensures ParsedShardYaml(files).Ok? && ParsedLockfile(files).Ok?
    ensures var lock := ParsedLockfile(files).value;
      var m := ManifestRecords(ManifestEntries(ParsedShardYaml(files).value, DependencyTypes), lock);
      var l := LockfileRecords(lock);
      m.Ok? && l.Ok? &&
      ParseResult(files, policy).value ==
        InsertAll(InsertAll([], InsertAll([], m.value, policy), policy), InsertAll([], l.value, policy), policy)
  {
  }

  /** The records parse returns have distinct names, and these are exactly the names of the
      manifest records and of the locked shards. */
  lemma ParseNames(files: Files, policy: MergePolicy)
    requires ParseResult(files, policy).Ok?
    ensures ParsedShardYaml(files).Ok? && ParsedLockfile(files).Ok?
    ensures var ds := ParseResult(files, policy).value;
      var lock := ParsedLockfile(files).value;
      var m := ManifestRecords(ManifestEntries(ParsedShardYaml(files).value, DependencyTypes), lock);
      m.Ok? && (lock.Some? ==> lock.value.shards.Some?) &&
      NoDuplicates(Names(ds)) &&
      forall n :: n in Names(ds) <==> n in Names(m.value) || (lock.Some? && n in Keys(lock.value.shards.value))
  {
    ParseUnfolds(files, policy);
    var lock := ParsedLockfile(files).value;
    var m := ManifestRecords(ManifestEntries(ParsedShardYaml(files).value, DependencyTypes), lock).value;
    var l := LockfileRecords(lock).value;
    GatheredNames(m, l, policy);
    if lock.Some? {
      LockfileRecordsAreSubdependencies(lock.value.shards.value);
    }
  }

  lemma BuiltNames(entries: seq<Entry>, rs: seq<Dependency>)
    requires |rs| == |entries|
    requires forall k | 0 <= k < |rs| :: rs[k] == BuildManifestDependency(entries[k], None)
    ensures Names(rs) == EntryNames(entries)
  {
  }

  /** Without a lockfile, and with each shard named once in shard.yml, parse returns one
      top-level record per manifest entry, in order, all without a version. */
  lemma ParseWithoutLockfile(files: Files, policy: MergePolicy)
    requires files.lockfile.None? && files.shardYml.content.Parsed?
    requires NoDuplicates(EntryNames(ManifestEntries(files.shardYml.content.doc, DependencyTypes)))
    ensures ParseResult(files, policy).Ok?
    ensures var ds := ParseResult(files, policy).value;
      var entries := ManifestEntries(files.shardYml.content.doc, DependencyTypes);
      |ds| == |entries| &&
      forall k | 0 <= k < |ds| :: ds[k] == BuildManifestDependency(entries[k], None)
  {
    var entries := ManifestEntries(files.shardYml.content.doc, DependencyTypes);
    WithoutLockfileAllKept(entries);
    var rs := ManifestRecords(entries, None).value;
    assert forall k | 0 <= k < |rs| :: rs[k] == BuildManifestDependency(entries[k], None);
    BuiltNames(entries, rs);
    assert [] + rs == rs;
    InsertAllFresh([], rs, policy);
  }
}
