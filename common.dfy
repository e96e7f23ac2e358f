/** Shared value types and the Ruby string and Hash operations the shards plugin relies on:
    String#split with a one-character separator, String#lines, String#strip, prefix, suffix and
    substring tests, and key lookup in an insertion-ordered Hash. */
module Common {

  datatype Option<+T> = None | Some(value: T)

  /** A computation that either yields a value or raises the error it carries. */
  datatype Result<+T, +E> = Ok(value: T) | Err(error: E) {
    predicate IsFailure() { Err? }

    function PropagateFailure<U>(): Result<U, E>
      requires Err?
    {
      Err(error)
    }

    function Extract(): T
      requires Ok?
    {
      value
    }
  }

  // ---------------------------------------------------------------------------
  // Prefixes, suffixes and substrings

  predicate StartsWith(s: string, prefix: string) {
    |prefix| <= |s| && s[..|prefix|] == prefix
  }

  /** Ruby's String#end_with? with one suffix. */
  predicate EndsWith(s: string, suffix: string) {
    |suffix| <= |s| && s[|s| - |suffix|..] == suffix
  }

  /** `part` occurs in `s` starting at index i. */
  predicate OccursAt(s: string, i: int, part: string) {
    0 <= i && i + |part| <= |s| && s[i..i + |part|] == part
  }

  /** Ruby's String#include?. */
  predicate Contains(s: string, part: string) {
    exists i | 0 <= i <= |s| - |part| :: OccursAt(s, i, part)
  }

  predicate IsDigit(c: char) { '0' <= c <= '9' }

  predicate IsAlnum(c: char) {
    IsDigit(c) || 'a' <= c <= 'z' || 'A' <= c <= 'Z'
  }

  // ---------------------------------------------------------------------------
  // String#split with a one-character separator

  /** The text between consecutive occurrences of `sep`: one piece more than there are separators. */
  function Pieces(s: string, sep: char): (r: seq<string>)
    ensures |r| >= 1
    decreases |s|
  {
    if s == [] then [""]
    else if s[0] == sep then [""] + Pieces(s[1..], sep)
    else
      var rest := Pieces(s[1..], sep);
      [[s[0]] + rest[0]] + rest[1..]
  }

  /** The inverse of Pieces: the pieces glued back with the separator between them. */
  function Join(xs: seq<string>, sep: char): string {
    if xs == [] then ""
    else if |xs| == 1 then xs[0]
    else xs[0] + [sep] + Join(xs[1..], sep)
  }

  function DropTrailingEmpty(xs: seq<string>): (r: seq<string>)
    ensures |r| <= |xs| && r == xs[..|r|]
    ensures r == [] || r[|r| - 1] != ""
    ensures forall k | |r| <= k < |xs| :: xs[k] == ""
  {
    if xs == [] then []
    else if xs[|xs| - 1] == "" then DropTrailingEmpty(xs[..|xs| - 1])
    else xs
  }

  /** Ruby's `s.split(sep)` for a one-character string separator other than a space: the
      pieces between separators, with trailing empty pieces removed (so "" and "," give []). */
  function Split(s: string, sep: char): seq<string> {
    DropTrailingEmpty(Pieces(s, sep))
  }

  lemma {:induction false} PiecesHaveNoSeparator(s: string, sep: char)
    ensures forall k | 0 <= k < |Pieces(s, sep)| :: sep !in Pieces(s, sep)[k]
    decreases |s|
  {
    if s != [] {
      PiecesHaveNoSeparator(s[1..], sep);
    }
  }

  lemma {:induction false} JoinPieces(s: string, sep: char)
    ensures Join(Pieces(s, sep), sep) == s
    decreases |s|
  {
    if s != [] {
      var rest := Pieces(s[1..], sep);
      JoinPieces(s[1..], sep);
      if s[0] == sep {
        assert Pieces(s, sep) == [""] + rest;
        assert s == [sep] + s[1..];
      } else {
        var p := Pieces(s, sep);
        assert p == [[s[0]] + rest[0]] + rest[1..];
        if |rest| == 1 {
          assert Join(rest, sep) == rest[0];
        } else {
          assert Join(rest, sep) == rest[0] + [sep] + Join(rest[1..], sep);
          assert p[1..] == rest[1..];
        }
      }
    }
  }

  lemma PiecesOfSeparatorFree(s: string, sep: char)
    requires sep !in s
    ensures Pieces(s, sep) == [s]
    decreases |s|
  {
    if s != [] {
      assert s[0] in s;
      PiecesOfSeparatorFree(s[1..], sep);
      assert [s[0]] + s[1..] == s;
    }
  }

  lemma {:induction false} PiecesOfJoined(a: string, b: string, sep: char)
    requires sep !in a
    ensures Pieces(a + [sep] + b, sep) == [a] + Pieces(b, sep)
    decreases |a|
  {
    if a == [] {
      assert a + [sep] + b == [sep] + b;
    } else {
      var x := a + [sep] + b;
      assert a[0] in a;
      assert x[0] == a[0] && x[1..] == a[1..] + [sep] + b;
      PiecesOfJoined(a[1..], b, sep);
      assert [a[0]] + a[1..] == a;
    }
  }

  /** A character that is neither the separator nor in any piece is not in the joined text. */
  lemma {:induction false} JoinLacks(xs: seq<string>, sep: char, c: char)
    requires c != sep && forall k | 0 <= k < |xs| :: c !in xs[k]
    ensures c !in Join(xs, sep)
  {
    if |xs| > 1 {
      JoinLacks(xs[1..], sep, c);
    }
  }

  lemma {:induction false} DropTrailingEmptyKeepsFirst(xs: seq<string>)
    requires |xs| >= 1 && xs[0] != ""
    ensures |DropTrailingEmpty(xs)| >= 1 && DropTrailingEmpty(xs)[0] == xs[0]
  {
    if xs[|xs| - 1] == "" {
      DropTrailingEmptyKeepsFirst(xs[..|xs| - 1]);
    }
  }

  /** Split loses nothing but trailing separators: when `s` does not end with the separator,
      joining the split pieces gives `s` back, and no piece contains the separator. */
  lemma SplitJoin(s: string, sep: char)
    requires s == [] || s[|s| - 1] != sep
    ensures Join(Split(s, sep), sep) == s
    ensures forall k | 0 <= k < |Split(s, sep)| :: sep !in Split(s, sep)[k]
  {
    var p := Pieces(s, sep);
    JoinPieces(s, sep);
    PiecesHaveNoSeparator(s, sep);
    if s == [] {
      assert p == [""];
    } else {
      LastPieceNonEmpty(s, sep);
      assert Split(s, sep) == p;
    }
  }

  lemma {:induction false} LastPieceNonEmpty(s: string, sep: char)
    requires s != [] && s[|s| - 1] != sep
    ensures Pieces(s, sep)[|Pieces(s, sep)| - 1] != ""
    decreases |s|
  {
    if |s| > 1 {
      assert s[1..][|s[1..]| - 1] == s[|s| - 1];
      LastPieceNonEmpty(s[1..], sep);
    } else {
      assert s[1..] == [];
    }
  }

  // ---------------------------------------------------------------------------
  // String#lines and String#strip

  /** Index of the first occurrence of `c` in s, if any. */
  function IndexOf(s: string, c: char): (r: Option<nat>)
    ensures r.None? <==> c !in s
    ensures r.Some? ==> r.value < |s| && s[r.value] == c && c !in s[..r.value]
  {
    if s == [] then None
    else if s[0] == c then Some(0)
    else match IndexOf(s[1..], c)
      case None => None
      case Some(k) => assert s[..k + 1] == [s[0]] + s[1..][..k]; Some(k + 1)
  }

  /** Ruby's String#lines: s cut after every line feed, each line keeping its terminator;
      there is no empty last line. */
  function Lines(s: string): (r: seq<string>)
    ensures forall k | 0 <= k < |r| :: r[k] != ""
    decreases |s|
  {
    if s == [] then []
    else match IndexOf(s, '\n')
      case None => [s]
      case Some(k) => [s[..k + 1]] + Lines(s[k + 1..])
  }

  /** The strings of xs, one after the other. */
  function Concat(xs: seq<string>): string {
    if xs == [] then "" else xs[0] + Concat(xs[1..])
  }

  /** What String#lines promises of its lines: put together they give s back, every line but
      the last ends with a line feed, and no line has a line feed anywhere else. */
  predicate LinesOf(s: string, lines: seq<string>) {
    Concat(lines) == s &&
    (forall k | 0 <= k < |lines| :: lines[k] != "") &&
    (forall k | 0 <= k < |lines| - 1 :: lines[k][|lines[k]| - 1] == '\n') &&
    (forall k | 0 <= k < |lines| :: '\n' !in lines[k][..|lines[k]| - 1])
  }

  /** String#lines loses nothing and cuts exactly after each line feed. */
  lemma {:induction false} LinesRoundTrip(s: string)
    ensures LinesOf(s, Lines(s))
    decreases |s|
  {
    if s == [] {
    } else if IndexOf(s, '\n').None? {
      LinesOfOneLine(s);
    } else {
      var k := IndexOf(s, '\n').value;
      LinesRoundTrip(s[k + 1..]);
      LinesStep(s, k);
    }
  }

  lemma LinesOfOneLine(s: string)
    requires s != [] && '\n' !in s
    ensures LinesOf(s, Lines(s))
  {
    assert Lines(s) == [s];
    assert Concat([s]) == s + Concat([]);
    assert s[..|s| - 1] <= s;
  }

  /** The lines after the first line feed, with the first line put in front. */
  lemma LinesStep(s: string, k: nat)
    requires IndexOf(s, '\n') == Some(k)
    requires LinesOf(s[k + 1..], Lines(s[k + 1..]))
    ensures LinesOf(s, Lines(s))
  {
    var first, tail := s[..k + 1], s[k + 1..];
    assert Lines(s) == [first] + Lines(tail);
    assert first[..|first| - 1] == s[..k];
    assert first + tail == s;
    LinesCons(first, tail, Lines(tail));
  }

  /** A line ending with its only line feed, put in front of the lines of tail. */
  lemma LinesCons(first: string, tail: string, rest: seq<string>)
    requires first != [] && first[|first| - 1] == '\n' && '\n' !in first[..|first| - 1]
    requires LinesOf(tail, rest)
    ensures LinesOf(first + tail, [first] + rest)
  {
    var all := [first] + rest;
    assert all[1..] == rest;
    forall j | 1 <= j < |all| ensures all[j] == rest[j - 1] {
    }
  }

  /** The characters Ruby's String#strip removes from both ends. */
  predicate IsStripSpace(c: char) {
    c == ' ' || c == '\t' || c == '\n' || c == '\U{000B}' || c == '\U{000C}' || c == '\r' || c == '\0'
  }

  function StripLeft(s: string): (r: string)
    ensures r == [] || !IsStripSpace(r[0])
    ensures |r| <= |s| && r == s[|s| - |r|..]
    ensures forall j | 0 <= j < |s| - |r| :: IsStripSpace(s[j])
  {
    if s != [] && IsStripSpace(s[0]) then StripLeft(s[1..]) else s
  }

  function StripRight(s: string): (r: string)
    ensures r == [] || !IsStripSpace(r[|r| - 1])
    ensures |r| <= |s| && r == s[..|r|]
    ensures forall j | |r| <= j < |s| :: IsStripSpace(s[j])
  {
    if s != [] && IsStripSpace(s[|s| - 1]) then StripRight(s[..|s| - 1]) else s
  }

  /** Ruby's String#strip. */
  function Strip(s: string): string {
    StripRight(StripLeft(s))
  }

  /** strip keeps the part of s between its leading and its trailing white space. */
  lemma StripTrims(s: string)
    ensures var r := Strip(s);
      (r == [] || (!IsStripSpace(r[0]) && !IsStripSpace(r[|r| - 1]))) &&
      exists i, j | 0 <= i <= j <= |s| :: StrippedAt(s, r, i, j)
  {
    StripBothEnds(s, StripLeft(s), Strip(s));
  }

  lemma StripBothEnds(s: string, left: string, r: string)
    requires |left| <= |s| && left == s[|s| - |left|..] && (left == [] || !IsStripSpace(left[0]))
    requires forall j | 0 <= j < |s| - |left| :: IsStripSpace(s[j])
    requires |r| <= |left| && r == left[..|r|] && (r == [] || !IsStripSpace(r[|r| - 1]))
    requires forall j | |r| <= j < |left| :: IsStripSpace(left[j])
    ensures r == [] || (!IsStripSpace(r[0]) && !IsStripSpace(r[|r| - 1]))
    ensures exists i, j | 0 <= i <= j <= |s| :: StrippedAt(s, r, i, j)
  {
    var i := |s| - |left|;
    assert r != [] ==> r[0] == left[0];
    assert r == s[i..i + |r|] by {
      assert left == s[i..] && r == left[..|r|];
    }
    assert forall k | 0 <= k < i :: IsStripSpace(s[k]);
    assert forall k | i + |r| <= k < |s| :: IsStripSpace(s[k]) by {
      forall k | i + |r| <= k < |s| ensures IsStripSpace(s[k]) {
        assert s[k] == left[k - i];
      }
    }
    assert StrippedAt(s, r, i, i + |r|);
  }

  /** A line with a line feed at most at its end loses it to strip. */
  lemma StripOfOneLine(line: string)
    requires line != [] && '\n' !in line[..|line| - 1]
    ensures '\n' !in Strip(line)
  {
    var c := Strip(line);
    StripTrims(line);
    var i, j :| 0 <= i <= j <= |line| && StrippedAt(line, c, i, j);
    forall t | 0 <= t < |c| ensures c[t] != '\n' {
      if i + t < |line| - 1 {
        assert c[t] == line[..|line| - 1][i + t];
      } else {
        assert t == |c| - 1;
      }
    }
  }

  /** `c` is `line` with its surrounding white space removed and holds no line feed. */
  predicate TrimmedLine(line: string, c: string) {
    '\n' !in c && (c == [] || (!IsStripSpace(c[0]) && !IsStripSpace(c[|c| - 1]))) &&
    exists i, j | 0 <= i <= j <= |line| :: StrippedAt(line, c, i, j)
  }

  /** Stripping one line of `lines` leaves a trimmed line. */
  lemma StripLine(line: string)
    requires line != [] && '\n' !in line[..|line| - 1]
    ensures TrimmedLine(line, Strip(line))
  {
    StripOfOneLine(line);
    StripTrims(line);
  }

  /** r is s[i..j], and everything of s before i and from j on is white space. */
  predicate StrippedAt(s: string, r: string, i: int, j: int) {
    0 <= i <= j <= |s| && r == s[i..j] &&
    (forall k | 0 <= k < i :: IsStripSpace(s[k])) && (forall k | j <= k < |s| :: IsStripSpace(s[k]))
  }

  // ---------------------------------------------------------------------------
  // Insertion-ordered Hash with string keys

  /** A Ruby Hash with string keys, in insertion order. */
  type Hash<V> = seq<(string, V)>

  function Keys<V>(h: Hash<V>): (r: seq<string>)
    ensures |r| == |h| && forall i | 0 <= i < |h| :: r[i] == h[i].0
  {
    if h == [] then [] else [h[0].0] + Keys(h[1..])
  }

  /** `h.has_key?(k)`. */
  predicate HasKey<V>(h: Hash<V>, k: string) {
    exists i | 0 <= i < |h| :: h[i].0 == k
  }

  /** The value stored under key k (the first entry with that key; a Ruby Hash has only one). */
  function Lookup<V>(h: Hash<V>, k: string): (r: Option<V>)
    ensures r.Some? <==> HasKey(h, k)
  {
    if h == [] then None
    else if h[0].0 == k then Some(h[0].1)
    else
      var r := Lookup(h[1..], k);
      assert HasKey(h[1..], k) ==> HasKey(h, k) by {
        if HasKey(h[1..], k) {
          var i :| 0 <= i < |h[1..]| && h[1..][i].0 == k;
          assert h[i + 1].0 == k;
        }
      }
      r
  }

  /** What Lookup finds is the value of the first entry with that key. */
  lemma {:induction false} LookupFindsFirst<V>(h: Hash<V>, k: string)
    requires HasKey(h, k)
    ensures exists i | 0 <= i < |h| :: h[i] == (k, Lookup(h, k).value) && forall j | 0 <= j < i :: h[j].0 != k
    decreases |h|
  {
    if h[0].0 == k {
      assert h[0] == (k, Lookup(h, k).value);
    } else {
      var i0 :| 0 <= i0 < |h| && h[i0].0 == k;
      assert h[1..][i0 - 1].0 == k;
      LookupFindsFirst(h[1..], k);
      var i :| 0 <= i < |h[1..]| && h[1..][i] == (k, Lookup(h[1..], k).value) && forall j | 0 <= j < i :: h[1..][j].0 != k;
      assert h[i + 1] == (k, Lookup(h, k).value);
    }
  }

  /** Conversely, the value of the first entry with key k is what Lookup finds. */
  lemma {:induction false} LookupAt<V>(h: Hash<V>, k: string, i: nat)
    requires i < |h| && h[i].0 == k
    requires forall j | 0 <= j < i :: h[j].0 != k
    ensures Lookup(h, k) == Some(h[i].1)
  {
    if i > 0 {
      forall j | 0 <= j < i - 1 ensures h[1..][j].0 != k {
        assert h[1..][j] == h[j + 1];
      }
      LookupAt(h[1..], k, i - 1);
    }
  }
}
