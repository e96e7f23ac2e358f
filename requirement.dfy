/** Dependabot::Shards::Requirement: translates a shards constraint string into the clauses
    Gem::Requirement understands. The string is cut at every `,` into clauses that must all
    hold, a clause that is exactly `*` becomes `>= 0`, and every other clause is passed on
    untouched. What each clause means (its operator and version ordering) belongs to
    Gem::Requirement and is a parameter here. */
module ShardsRequirement {
  import opened Common

  /** The clauses handed to Gem::Requirement, in order. */
  datatype Requirement = Requirement(clauses: seq<string>)

  /** One argument of `Requirement.new(*requirements)`: a string, nil, or an array of them. */
  datatype Argument = Text(text: string) | Nil | List(items: seq<Argument>)

  /** `nil.split` inside `flat_map` raises NoMethodError. */
  datatype RequirementError = NoMethodErrorOnNil

  /** `requirements.flatten`: the strings and nils in order, arrays opened at every depth. */
  function Flatten(args: seq<Argument>): (r: seq<Option<string>>)
    decreases args
  {
    if args == [] then []
    else
      var head := match args[0]
        case Text(s) => [Some(s)]
        case Nil => [None]
        case List(items) => Flatten(items);
      head + Flatten(args[1..])
  }

  lemma {:induction false} FlattenAppend(a: seq<Argument>, b: seq<Argument>)
    ensures Flatten(a + b) == Flatten(a) + Flatten(b)
    decreases a
  {
    if a == [] {
      assert a + b == b;
    } else {
      var ab := a + b;
      assert ab[0] == a[0];
      assert ab[1..] == a[1..] + b;
      FlattenAppend(a[1..], b);
      calc {
        Flatten(ab);
        Flatten([ab[0]]) + Flatten(ab[1..]);
        Flatten([a[0]]) + (Flatten(a[1..]) + Flatten(b));
        (Flatten([a[0]]) + Flatten(a[1..])) + Flatten(b);
      }
      FlattenCons(a);
    }
  }

  lemma FlattenCons(a: seq<Argument>)
    requires a != []
    ensures Flatten(a) == Flatten([a[0]]) + Flatten(a[1..])
  {
    assert [a[0]][1..] == [];
  }

  /** The `case` inside the `map`: exactly `*` means any version. */
  function Translate(clause: string): string {
    if clause == "*" then ">= 0" else clause
  }

  function TranslateAll(clauses: seq<string>): (r: seq<string>)
    ensures |r| == |clauses|
    ensures forall k | 0 <= k < |r| :: r[k] == Translate(clauses[k])
  {
    if clauses == [] then [] else [Translate(clauses[0])] + TranslateAll(clauses[1..])
  }

  /** The clauses one argument string contributes: `req_string.split(",")`, translated. */
  function ClausesOf(s: string): seq<string> {
    TranslateAll(Split(s, ','))
  }

  /** The clauses of every string, concatenated in order. */
  function ConcatClauses(strings: seq<Option<string>>): seq<string> {
    if strings == [] then []
    else (if strings[0].Some? then ClausesOf(strings[0].value) else []) + ConcatClauses(strings[1..])
  }

  /** `flat_map` over the flattened arguments, which raises as soon as it meets a nil. */
  function ClausesOfAll(strings: seq<Option<string>>): Result<seq<string>, RequirementError> {
    if None in strings then Err(NoMethodErrorOnNil) else Ok(ConcatClauses(strings))
  }

  /** `Requirement.new(*requirements)`. */
  function New(args: seq<Argument>): Result<Requirement, RequirementError> {
    match ClausesOfAll(Flatten(args))
    case Err(e) => Err(e)
    case Ok(clauses) => Ok(Requirement(clauses))
  }

  /** `Requirement.requirements_array(requirement_string)`: `[new(requirement_string)]`. */
  function RequirementsArray(requirement: Option<string>): Result<seq<Requirement>, RequirementError> {
    var arg := if requirement.Some? then Text(requirement.value) else Nil;
    match New([arg])
    case Err(e) => Err(e)
    case Ok(r) => Ok([r])
  }

  // ---------------------------------------------------------------------------
  // Satisfaction

  /** Whether a single clause admits a version: Gem::Requirement's operator semantics. */
  type ClauseHolds<!V> = (string, V) -> bool

  /** Gem::Requirement#satisfied_by?: every clause admits the version. Given no clauses at all,
      Gem falls back on its default requirement `>= 0`. */
  predicate SatisfiedBy<V>(r: Requirement, v: V, holds: ClauseHolds<V>) {
    if r.clauses == [] then holds(">= 0", v)
    else forall k | 0 <= k < |r.clauses| :: holds(r.clauses[k], v)
  }

  // ---------------------------------------------------------------------------
  // Properties

  /** `requirements_array` always yields exactly one Requirement, built from the whole string
      (shards has no OR separator); given nil it raises instead. */
  lemma RequirementsArraySingle(requirement: Option<string>)
    ensures requirement.Some? ==>
      RequirementsArray(requirement) == Ok([Requirement(ClausesOf(requirement.value))])
    ensures requirement.None? ==> RequirementsArray(requirement) == Err(NoMethodErrorOnNil)
  {
    if requirement.Some? {
      assert Flatten([Text(requirement.value)]) == [requirement];
      ClausesOfOne(requirement.value);
    } else {
      assert Flatten([Nil]) == [None];
    }
  }

  lemma ClausesOfOne(s: string)
    ensures ClausesOfAll([Some(s)]) == Ok(ClausesOf(s))
  {
    assert [Some(s)][1..] == [];
    assert None !in [Some(s)];
    assert ConcatClauses([Some(s)]) == ClausesOf(s) + ConcatClauses([]);
    assert ClausesOf(s) + [] == ClausesOf(s);
  }

  /** Construction fails exactly when some flattened argument is nil; otherwise the clauses are
      those of each argument string, concatenated in argument order. */
  lemma {:induction false} ConcatClausesAppend(a: seq<Option<string>>, b: seq<Option<string>>)
    ensures ConcatClauses(a + b) == ConcatClauses(a) + ConcatClauses(b)
    decreases |a|
  {
    if a == [] {
      assert a + b == b;
    } else {
      assert (a + b)[0] == a[0] && (a + b)[1..] == a[1..] + b;
      ConcatClausesAppend(a[1..], b);
    }
  }

  lemma ClausesOfAllConcatenates(a: seq<Option<string>>, b: seq<Option<string>>)
    ensures ClausesOfAll(a + b).Ok? <==> ClausesOfAll(a).Ok? && ClausesOfAll(b).Ok?
    ensures ClausesOfAll(a + b).Ok? ==> ClausesOfAll(a + b).value == ClausesOfAll(a).value + ClausesOfAll(b).value
  {
    ConcatClausesAppend(a, b);
    assert (None in a + b) <==> (None in a || None in b);
  }

  /** `Requirement.new(a, b)` holds the clauses of a followed by those of b. */
  lemma NewConcatenatesArguments(a: string, b: string)
    ensures New([Text(a), Text(b)]) == Ok(Requirement(ClausesOf(a) + ClausesOf(b)))
  {
    assert Flatten([Text(a), Text(b)]) == [Some(a), Some(b)] by {
      assert Flatten([Text(b)]) == [Some(b)];
    }
    ClausesOfOne(a);
    ClausesOfOne(b);
    ClausesOfAllConcatenates([Some(a)], [Some(b)]);
    assert [Some(a), Some(b)] == [Some(a)] + [Some(b)];
  }

  /** No clause contains the AND separator, and the clause `*` never survives translation. */
  lemma ClausesAreSeparated(s: string)
    ensures forall k | 0 <= k < |ClausesOf(s)| :: ',' !in ClausesOf(s)[k] && ClausesOf(s)[k] != "*"
  {
    var pieces := Split(s, ',');
    PiecesHaveNoSeparator(s, ',');
    assert forall k | 0 <= k < |pieces| :: pieces[k] == Pieces(s, ',')[k];
    forall k | 0 <= k < |ClausesOf(s)| ensures ',' !in ClausesOf(s)[k] {
      assert ClausesOf(s)[k] == Translate(pieces[k]);
      if pieces[k] == "*" {
        assert ClausesOf(s)[k] == ">= 0";
        assert ClausesOf(s)[k][0] != ',' && ClausesOf(s)[k][1] != ',';
      }
    }
  }

  /** Without a `*` clause, translation is the identity and joining the clauses with `,` gives
      the constraint string back (when it does not end in a `,`, which split discards). */
  lemma ClausesJoinBack(s: string)
    requires s == [] || s[|s| - 1] != ','
    requires "*" !in Split(s, ',')
    ensures Join(ClausesOf(s), ',') == s
  {
    var pieces := Split(s, ',');
    assert TranslateAll(pieces) == pieces by {
      forall k | 0 <= k < |pieces| ensures TranslateAll(pieces)[k] == pieces[k] {
        assert pieces[k] != "*";
      }
    }
    SplitJoin(s, ',');
  }

  /** A constraint with a first clause c and further clauses: splitting starts with c. */
  lemma {:induction false} SplitFirstClause(c: string, rest: string)
    requires ',' !in c && Split(rest, ',') != []
    ensures Split(c + "," + rest, ',') == [c] + Split(rest, ',')
  {
    PiecesOfJoined(c, rest, ',');
    var p := Pieces(rest, ',');
    DropTrailingAfterNonEmpty([c], p);
  }

  lemma {:induction false} DropTrailingAfterNonEmpty(a: seq<string>, b: seq<string>)
    requires DropTrailingEmpty(b) != []
    ensures DropTrailingEmpty(a + b) == a + DropTrailingEmpty(b)
    decreases |b|
  {
    if b[|b| - 1] == "" {
      assert (a + b)[..|a + b| - 1] == a + b[..|b| - 1];
      DropTrailingAfterNonEmpty(a, b[..|b| - 1]);
    } else {
      assert (a + b)[|a + b| - 1] == b[|b| - 1];
    }
  }

  /** Clauses are AND-combined: a version satisfies `c,rest` exactly when it satisfies the single
      clause c and the constraint `rest`. */
  lemma ConjunctionOfClauses<V>(c: string, rest: string, v: V, holds: ClauseHolds<V>)
    requires ',' !in c && Split(rest, ',') != []
    ensures SatisfiedBy(Requirement(ClausesOf(c + "," + rest)), v, holds) <==>
            holds(Translate(c), v) && SatisfiedBy(Requirement(ClausesOf(rest)), v, holds)
  {
    SplitFirstClause(c, rest);
    assert ClausesOf(c + "," + rest) == [Translate(c)] + ClausesOf(rest);
    SatisfiedByCons(Translate(c), ClausesOf(rest), v, holds);
  }

  lemma SatisfiedByCons<V>(head: string, tail: seq<string>, v: V, holds: ClauseHolds<V>)
    requires tail != []
    ensures SatisfiedBy(Requirement([head] + tail), v, holds) <==> holds(head, v) && SatisfiedBy(Requirement(tail), v, holds)
  {
    var all := [head] + tail;
    assert forall k | 1 <= k < |all| :: all[k] == tail[k - 1];
    if SatisfiedBy(Requirement(all), v, holds) {
      assert holds(all[0], v);
      forall k | 0 <= k < |tail| ensures holds(tail[k], v) {
        assert tail[k] == all[k + 1];
      }
    }
  }

  /** `*` becomes `>= 0`, so it admits every version that `>= 0` admits: under Gem's semantics,
      every version. */
  lemma StarAdmitsAll<V>(v: V, holds: ClauseHolds<V>)
    requires holds(">= 0", v)
    ensures RequirementsArray(Some("*")) == Ok([Requirement([">= 0"])])
    ensures SatisfiedBy(Requirement(ClausesOf("*")), v, holds)
  {
    PiecesOfSeparatorFree("*", ',');
    assert Split("*", ',') == ["*"];
    assert ClausesOf("*") == [">= 0"];
    RequirementsArraySingle(Some("*"));
  }

  /** Only a clause exactly equal to `*` is rewritten; there is no trimming. */
  lemma PaddedStarUntouched()
    ensures ClausesOf(" *") == [" *"]
  {
    PiecesOfSeparatorFree(" *", ',');
    assert Split(" *", ',') == [" *"];
  }
}
