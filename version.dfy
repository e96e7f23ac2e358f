/** Dependabot::Shards::Version: a version string whose `+build` suffix is kept for display
    (`to_s`) but not handed to the parent version class, so ordering never sees it. */
module ShardsVersion {
  import opened Common

  /** A constructed version: `text` is what `to_s` returns, `base` the value passed on to the
      parent class (the text before the first `+`, or nil when the split yields nothing), and
      `buildInfo` the text after it. */
  datatype Version = Version(text: string, base: Option<string>, buildInfo: Option<string>)

  /** Element k of a Ruby array, nil past the end (what a multiple assignment binds). */
  function ElementOrNil(xs: seq<string>, k: nat): Option<string> {
    if k < |xs| then Some(xs[k]) else None
  }

  /** `Version.new(s)`: `version, @build_info = s.split("+")` when s contains a `+`. */
  function FromString(s: string): (v: Version)
    ensures v.text == s
    ensures '+' !in s ==> v.base == Some(s) && v.buildInfo == None
    ensures v.base.Some? ==> '+' !in v.base.value && StartsWith(s, v.base.value)
    ensures v.buildInfo.Some? ==> '+' !in v.buildInfo.value && v.base.Some?
  {
    if '+' in s then
      var parts := Split(s, '+');
      PiecesHaveNoSeparator(s, '+');
      PiecesStartWithFirst(s, '+');
      Version(s, ElementOrNil(parts, 0), ElementOrNil(parts, 1))
    else
      Version(s, Some(s), None)
  }

  lemma {:induction false} PiecesStartWithFirst(s: string, sep: char)
    ensures StartsWith(s, Pieces(s, sep)[0])
    decreases |s|
  {
    if s != [] && s[0] != sep {
      PiecesStartWithFirst(s[1..], sep);
    }
  }

  /** `to_s`. */
  function ToS(v: Version): string {
    v.text
  }

  // ---------------------------------------------------------------------------
  // Ordering

  /** The parent class orders versions by the value it was constructed from; that ordering
      (Gem::Version's) is not part of this model and is taken as a parameter. */
  type ParentOrder = (Option<string>, Option<string>) -> bool

  predicate Less(a: Version, b: Version, parentLess: ParentOrder) {
    parentLess(a.base, b.base)
  }

  /** A version with a build suffix is handed to the parent class exactly as the same version
      without it. */
  lemma {:induction false} BuildSuffixNotInBase(x: string, build: string)
    requires x != "" && '+' !in x
    ensures FromString(x + "+" + build).base == Some(x)
    ensures FromString(x).base == Some(x)
    ensures FromString(x + "+" + build).text == x + "+" + build
  {
    var s := x + "+" + build;
    assert s[|x|] == '+';
    PiecesOfJoined(x, build, '+');
    var p := Pieces(s, '+');
    assert p[0] == x;
    DropTrailingEmptyKeepsFirst(p);
  }

  /** Build information never affects ordering: `x+build` sorts exactly where `x` does, against
      every other version, whatever the parent class's ordering is. */
  lemma BuildSuffixIgnoredByOrdering(x: string, build: string, other: Version, parentLess: ParentOrder)
    requires x != "" && '+' !in x
    ensures Less(FromString(x + "+" + build), other, parentLess) == Less(FromString(x), other, parentLess)
    ensures Less(other, FromString(x + "+" + build), parentLess) == Less(other, FromString(x), parentLess)
  {
    BuildSuffixNotInBase(x, build);
  }

  /** Two versions differing only in build information are equivalent under any irreflexive
      parent ordering (neither sorts before the other). */
  lemma DifferentBuildsEquivalent(x: string, b1: string, b2: string, parentLess: ParentOrder)
    requires x != "" && '+' !in x
    requires !parentLess(Some(x), Some(x))
    ensures !Less(FromString(x + "+" + b1), FromString(x + "+" + b2), parentLess)
    ensures !Less(FromString(x + "+" + b2), FromString(x + "+" + b1), parentLess)
  {
    BuildSuffixNotInBase(x, b1);
    BuildSuffixNotInBase(x, b2);
  }

  // ---------------------------------------------------------------------------
  // Version.correct?: /\A\s*(VERSION_PATTERN)?\s*\z/ where VERSION_PATTERN is Gem's
  //   [0-9]+(?>\.[0-9a-zA-Z]+)*(-[0-9A-Za-z-]+(\.[0-9A-Za-z-]+)*)?
  // followed by the shards build suffix (\+[0-9a-zA-Z\-.]+)?

  const RegexSpaces: set<char> := {' ', '\t', '\r', '\n', '\U{000C}', '\U{000B}'}

  /** Ruby's regular-expression `\s`. */
  predicate IsRegexSpace(c: char) {
    c in RegexSpaces
  }

  function TrimLeft(s: string): (r: string)
    ensures r == [] || !IsRegexSpace(r[0])
    ensures |r| <= |s| && r == s[|s| - |r|..]
    ensures AllSpace(s[..|s| - |r|])
  {
    if s != [] && IsRegexSpace(s[0]) then
      var r := TrimLeft(s[1..]);
      assert s[..|s| - |r|] == [s[0]] + s[1..][..|s| - 1 - |r|];
      r
    else s
  }

  function TrimRight(s: string): (r: string)
    ensures r == [] || !IsRegexSpace(r[|r| - 1])
    ensures |r| <= |s| && r == s[..|r|]
    ensures AllSpace(s[|r|..])
  {
    if s != [] && IsRegexSpace(s[|s| - 1]) then
      var r := TrimRight(s[..|s| - 1]);
      assert s[|r|..] == s[..|s| - 1][|r|..] + [s[|s| - 1]];
      r
    else s
  }

  predicate AllSpace(s: string) { forall j | 0 <= j < |s| :: IsRegexSpace(s[j]) }

  lemma SpaceHasNoPlus(s: string)
    requires AllSpace(s)
    ensures '+' !in s
  {
  }

  predicate AllDigits(s: string) { forall k | 0 <= k < |s| :: IsDigit(s[k]) }
  predicate AllAlnum(s: string) { forall k | 0 <= k < |s| :: IsAlnum(s[k]) }
  predicate AllAlnumOrDash(s: string) { forall k | 0 <= k < |s| :: IsAlnum(s[k]) || s[k] == '-' }
  predicate AllBuildChars(s: string) { forall k | 0 <= k < |s| :: IsAlnum(s[k]) || s[k] == '-' || s[k] == '.' }

  /** `[0-9]+(\.[0-9a-zA-Z]+)*` */
  predicate IsRelease(s: string) {
    var segments := Pieces(s, '.');
    segments[0] != "" && AllDigits(segments[0]) &&
    forall k | 1 <= k < |segments| :: segments[k] != "" && AllAlnum(segments[k])
  }

  /** `[0-9A-Za-z-]+(\.[0-9A-Za-z-]+)*` */
  predicate IsPrerelease(s: string) {
    var segments := Pieces(s, '.');
    forall k | 0 <= k < |segments| :: segments[k] != "" && AllAlnumOrDash(segments[k])
  }

  /** Gem::Version::VERSION_PATTERN, matched against a whole string. The release part has no
      `-`, so the first `-` starts the pre-release part. */
  predicate IsGemVersion(s: string) {
    match IndexOf(s, '-')
    case None => IsRelease(s)
    case Some(k) => IsRelease(s[..k]) && IsPrerelease(s[k + 1..])
  }

  /** VERSION_PATTERN of Shards::Version, matched against a whole string. Neither Gem's pattern
      nor the build suffix admits a `+`, so the first `+` starts the suffix. */
  predicate IsShardsVersion(s: string) {
    match IndexOf(s, '+')
    case None => IsGemVersion(s)
    case Some(k) => IsGemVersion(s[..k]) && s[k + 1..] != "" && AllBuildChars(s[k + 1..])
  }

  /** `Version.correct?(v)`: false for nil; otherwise the text, without surrounding white
      space, is empty (the version group is optional) or a whole Shards version. */
  predicate Correct(v: Option<string>) {
    v.Some? && (Core(v.value) == "" || IsShardsVersion(Core(v.value)))
  }

  /** The text between the white space `\A\s*` and `\s*\z` consume. */
  function Core(s: string): string {
    TrimRight(TrimLeft(s))
  }

  /** Every string matched by Gem::Version::VERSION_PATTERN is free of `+`. */
  lemma GemVersionHasNoPlus(s: string)
    requires IsGemVersion(s)
    ensures '+' !in s
  {
    match IndexOf(s, '-')
    case None =>
      ReleaseHasNoPlus(s);
    case Some(k) =>
      ReleaseHasNoPlus(s[..k]);
      PrereleaseHasNoPlus(s[k + 1..]);
      assert s == s[..k] + [s[k]] + s[k + 1..];
  }

  lemma ReleaseHasNoPlus(s: string)
    requires IsRelease(s)
    ensures '+' !in s
  {
    var segments := Pieces(s, '.');
    forall k | 0 <= k < |segments| ensures '+' !in segments[k] {
      if k == 0 {
        assert AllDigits(segments[0]);
      } else {
        assert AllAlnum(segments[k]);
      }
    }
    JoinLacks(segments, '.', '+');
    JoinPieces(s, '.');
  }

  lemma PrereleaseHasNoPlus(s: string)
    requires IsPrerelease(s)
    ensures '+' !in s
  {
    var segments := Pieces(s, '.');
    forall k | 0 <= k < |segments| ensures '+' !in segments[k] {
      assert AllAlnumOrDash(segments[k]);
    }
    JoinLacks(segments, '.', '+');
    JoinPieces(s, '.');
  }

  lemma TrimLeftSplits(s: string) returns (lead: string)
    ensures s == lead + TrimLeft(s) && '+' !in lead
  {
    lead := s[..|s| - |TrimLeft(s)|];
    SpaceHasNoPlus(lead);
  }

  lemma TrimRightSplits(s: string) returns (tail: string)
    ensures s == TrimRight(s) + tail && '+' !in tail
  {
    tail := s[|TrimRight(s)|..];
    SpaceHasNoPlus(tail);
  }

  /** The white space `correct?` allows around a version holds no `+`. */
  lemma TrimmedParts(s: string) returns (lead: string, tail: string)
    ensures s == lead + Core(s) + tail && '+' !in lead && '+' !in tail
  {
    lead := TrimLeftSplits(s);
    var t := TrimLeft(s);
    tail := TrimRightSplits(t);
    assert t == Core(s) + tail;
    assert s == lead + (Core(s) + tail);
  }

  lemma Regroup<T>(a: seq<T>, b: seq<T>, x: T, d: seq<T>, e: seq<T>)
    ensures a + (b + [x] + d) + e == (a + b) + [x] + (d + e)
  {
  }

  /** A string with a single `+` and text after it splits into exactly the two sides. */
  lemma SinglePlusSplit(before: string, after: string)
    requires '+' !in before && '+' !in after && after != ""
    ensures FromString(before + "+" + after) == Version(before + "+" + after, Some(before), Some(after))
  {
    var s := before + "+" + after;
    assert s[|before|] == '+';
    PiecesOfJoined(before, after, '+');
    PiecesOfSeparatorFree(after, '+');
    assert Pieces(s, '+') == [before, after];
    assert Split(s, '+') == [before, after];
  }

  /** A whole Shards version holding a `+` is a Gem version, the `+`, and a build suffix. */
  lemma ShardsVersionDecomposes(core: string) returns (pre: string, build: string)
    requires IsShardsVersion(core) && '+' in core
    ensures core == pre + "+" + build && '+' !in pre && '+' !in build && build != ""
  {
    var c := IndexOf(core, '+').value;
    pre := core[..c];
    build := core[c + 1..];
    GemVersionHasNoPlus(pre);
    assert AllBuildChars(build);
    assert core == pre + [core[c]] + build;
  }

  /** A string `correct?` accepts that holds a `+` is: text without `+`, the `+`, and
      non-empty text without `+`. */
  lemma CorrectDecomposes(s: string) returns (before: string, after: string)
    requires Correct(Some(s)) && '+' in s
    ensures s == before + "+" + after && '+' !in before && '+' !in after && after != ""
  {
    var lead, tail := TrimmedParts(s);
    var core := Core(s);
    assert '+' in core;
    var pre, build := ShardsVersionDecomposes(core);
    before := lead + pre;
    after := build + tail;
    Regroup(lead, pre, '+', build, tail);
  }

  lemma {:induction false} TrimLeftOfSpace(s: string)
    requires AllSpace(s)
    ensures TrimLeft(s) == []
    decreases |s|
  {
    if s != [] {
      TrimLeftOfSpace(s[1..]);
    }
  }

  /** `correct?` rejects nil and, the version group being optional, accepts a blank string. */
  lemma CorrectNilAndBlank(s: string)
    requires AllSpace(s)
    ensures !Correct(None)
    ensures Correct(Some(s))
  {
    TrimLeftOfSpace(s);
  }

  /** A Gem version starts with a digit. */
  lemma GemVersionStartsWithDigit(v: string)
    requires IsGemVersion(v)
    ensures v != [] && IsDigit(v[0])
  {
    match IndexOf(v, '-')
    case None =>
      PiecesStartWithFirst(v, '.');
    case Some(k) =>
      PiecesStartWithFirst(v[..k], '.');
      assert v[..k][0] == v[0];
  }

  lemma FirstOccurrenceAfterFree(a: string, c: char, b: string)
    requires c !in a
    ensures IndexOf(a + [c] + b, c) == Some(|a|)
  {
    var s := a + [c] + b;
    assert s[..|a|] == a && s[|a|] == c;
  }

  /** Text that starts with a digit and ends with a build character has no surrounding white space. */
  lemma CoreOfUnpadded(s: string)
    requires s != [] && IsDigit(s[0])
    requires IsAlnum(s[|s| - 1]) || s[|s| - 1] == '-' || s[|s| - 1] == '.'
    ensures Core(s) == s
  {
  }

  /** `correct?` accepts a Gem version followed by one `+` and a build suffix of letters, digits,
      `-` and `.`. */
  lemma CorrectWithBuild(v: string, build: string)
    requires IsGemVersion(v) && build != "" && AllBuildChars(build)
    ensures Correct(Some(v + "+" + build))
  {
    var s := v + "+" + build;
    assert s == v + ['+'] + build;
    GemVersionHasNoPlus(v);
    GemVersionStartsWithDigit(v);
    FirstOccurrenceAfterFree(v, '+', build);
    assert s[..|v|] == v && s[|v| + 1..] == build;
    assert IsShardsVersion(s);
    assert s[0] == v[0] && s[|s| - 1] == build[|build| - 1];
    CoreOfUnpadded(s);
  }

  /** A string `correct?` accepts has at most one `+`, so the constructor's split is exact:
      the parent class receives the text before it and build_info is the rest, and the two put
      back together with the `+` are the original string. */
  lemma CorrectSplitIsExact(s: string)
    requires Correct(Some(s)) && '+' in s
    ensures exists k | 0 <= k < |s| ::
      s[k] == '+' && '+' !in s[..k] && '+' !in s[k + 1..] && s[k + 1..] != "" &&
      FromString(s) == Version(s, Some(s[..k]), Some(s[k + 1..]))
  {
    var before, after := CorrectDecomposes(s);
    SinglePlusSplit(before, after);
    var k := |before|;
    assert s[..k] == before && s[k + 1..] == after;
  }
}
