/** The dependency records the parser produces and the collection they are gathered in. The
    record shape (Dependabot::Dependency) and DependencySet come from the surrounding framework;
    only what the shards plugin relies on is modelled: a set holds at most one record per
    name, and adding a record whose name is already present merges the two in place. How the
    framework merges two records is not part of this model and is a parameter (MergePolicy). */
module Dependencies {
  import opened Common

  /** A requirement's source: `{type: "path"}` or `{type: "git", url:, branch:, ref:}`. */
  datatype Source = PathSource | GitSource(url: string, branch: Option<string>, ref: Option<string>)

  /** One entry of a dependency's requirements: `{requirement:, file:, source:, groups:}`. */
  datatype RequirementEntry = RequirementEntry(
    requirement: Option<string>, file: string, source: Option<Source>, groups: seq<string>)

  datatype Dependency = Dependency(name: string, version: Option<string>, requirements: seq<RequirementEntry>)

  /** Dependency#top_level?: it is declared somewhere, i.e. has a requirement. */
  predicate TopLevel(d: Dependency) {
    d.requirements != []
  }

  /** How the framework combines an existing record with an incoming one of the same name. */
  datatype MergePolicy = MergePolicy(
    version: (Dependency, Dependency) -> Option<string>,
    requirements: (Dependency, Dependency) -> seq<RequirementEntry>)

  function Merge(existing: Dependency, incoming: Dependency, policy: MergePolicy): (r: Dependency)
    ensures r.name == existing.name
  {
    Dependency(existing.name, policy.version(existing, incoming), policy.requirements(existing, incoming))
  }

  function Names(ds: seq<Dependency>): (r: seq<string>)
    ensures |r| == |ds| && forall i | 0 <= i < |ds| :: r[i] == ds[i].name
  {
    if ds == [] then [] else Names(ds[..|ds| - 1]) + [ds[|ds| - 1].name]
  }

  predicate NoDuplicates(xs: seq<string>) {
    forall i, j | 0 <= i < j < |xs| :: xs[i] != xs[j]
  }

  /** The position of the record named `name`, if any. */
  function IndexOfName(ds: seq<Dependency>, name: string): (r: Option<nat>)
    ensures r.None? <==> name !in Names(ds)
    ensures r.Some? ==> r.value < |ds| && ds[r.value].name == name
  {
    if ds == [] then None
    else if ds[|ds| - 1].name == name then Some(|ds| - 1)
    else
      var r := IndexOfName(ds[..|ds| - 1], name);
      assert Names(ds) == Names(ds[..|ds| - 1]) + [ds[|ds| - 1].name];
      r
  }

  /** `set << dep`: merge into the record of the same name, or append. */
  function Insert(ds: seq<Dependency>, d: Dependency, policy: MergePolicy): seq<Dependency> {
    match IndexOfName(ds, d.name)
    case None => ds + [d]
    case Some(i) => ds[i := Merge(ds[i], d, policy)]
  }

  /** `set << dep` for each dep in order. */
  function InsertAll(ds: seq<Dependency>, more: seq<Dependency>, policy: MergePolicy): seq<Dependency> {
    if more == [] then ds
    else Insert(InsertAll(ds, more[..|more| - 1], policy), more[|more| - 1], policy)
  }

  /** `acc` followed by the names of `xs` not seen before, in first-seen order. */
  function Dedup(acc: seq<string>, xs: seq<string>): seq<string> {
    if xs == [] then acc
    else
      var d := Dedup(acc, xs[..|xs| - 1]);
      if xs[|xs| - 1] in d then d else d + [xs[|xs| - 1]]
  }

  lemma InsertNames(ds: seq<Dependency>, d: Dependency, policy: MergePolicy)
    ensures Names(Insert(ds, d, policy)) == if d.name in Names(ds) then Names(ds) else Names(ds) + [d.name]
  {
    var r := Insert(ds, d, policy);
    if d.name in Names(ds) {
      assert Names(r) == Names(ds);
    } else {
      assert Names(r) == Names(ds) + [d.name];
    }
  }

  /** Inserting records one by one leaves the names in first-seen order, each once. */
  lemma {:induction false} InsertAllNames(ds: seq<Dependency>, more: seq<Dependency>, policy: MergePolicy)
    ensures Names(InsertAll(ds, more, policy)) == Dedup(Names(ds), Names(more))
    decreases |more|
  {
    if more != [] {
      var init := more[..|more| - 1];
      InsertAllNames(ds, init, policy);
      InsertNames(InsertAll(ds, init, policy), more[|more| - 1], policy);
      assert Names(more)[..|more| - 1] == Names(init);
    }
  }

  lemma {:induction false} DedupNoDuplicates(acc: seq<string>, xs: seq<string>)
    requires NoDuplicates(acc)
    ensures NoDuplicates(Dedup(acc, xs))
    ensures forall x :: x in Dedup(acc, xs) <==> x in acc || x in xs
    decreases |xs|
  {
    if xs != [] {
      var init := xs[..|xs| - 1];
      DedupNoDuplicates(acc, init);
      assert xs == init + [xs[|xs| - 1]];
    }
  }

  lemma {:induction false} NoDuplicatesCardinality(xs: seq<string>)
    requires NoDuplicates(xs)
    ensures |set x | x in xs| == |xs|
    decreases |xs|
  {
    if xs != [] {
      var init := xs[..|xs| - 1];
      NoDuplicatesCardinality(init);
      var last := xs[|xs| - 1];
      assert last !in init;
      assert (set x | x in xs) == (set x | x in init) + {last};
    }
  }

  lemma SameElementsSameSet(a: seq<string>, b: seq<string>)
    requires forall x :: x in a <==> x in b
    ensures (set x | x in a) == (set x | x in b)
  {
  }

  /** Starting from an empty set, the records added end up one per distinct name: the set's
      names are exactly the added names, without repeats. */
  lemma OnePerName(more: seq<Dependency>, policy: MergePolicy)
    ensures NoDuplicates(Names(InsertAll([], more, policy)))
    ensures forall n :: n in Names(InsertAll([], more, policy)) <==> n in Names(more)
    ensures |InsertAll([], more, policy)| == |set n | n in Names(more)|
  {
    var out := Names(InsertAll([], more, policy));
    InsertAllNames([], more, policy);
    DedupNoDuplicates([], Names(more));
    NoDuplicatesCardinality(out);
    SameElementsSameSet(out, Names(more));
  }

  lemma NamesAppend(a: seq<Dependency>, b: seq<Dependency>)
    ensures Names(a + b) == Names(a) + Names(b)
  {
  }

  lemma NoDuplicatesSnoc(xs: seq<string>, x: string)
    requires NoDuplicates(xs + [x])
    ensures NoDuplicates(xs) && x !in xs
  {
    var all := xs + [x];
    assert forall k | 0 <= k < |xs| :: xs[k] == all[k];
    assert all[|xs|] == x;
  }

  /** Records whose names are new and distinct are simply appended, untouched. */
  lemma {:induction false} InsertAllFresh(ds: seq<Dependency>, more: seq<Dependency>, policy: MergePolicy)
    requires NoDuplicates(Names(ds + more))
    ensures InsertAll(ds, more, policy) == ds + more
    decreases |more|
  {
    if more != [] {
      var init := more[..|more| - 1];
      var last := more[|more| - 1];
      assert ds + more == (ds + init) + [last];
      NamesAppend(ds + init, [last]);
      NoDuplicatesSnoc(Names(ds + init), last.name);
      InsertAllFresh(ds, init, policy);
    }
  }

  /** Dependabot::FileParsers::Base::DependencySet. */
  class DependencySet {
    var dependencies: seq<Dependency>
    const policy: MergePolicy

    ghost predicate Valid()
      reads this
    {
      NoDuplicates(Names(dependencies))
    }

    constructor (policy: MergePolicy)
      ensures Valid() && dependencies == [] && this.policy == policy
    {
      dependencies := [];
      this.policy := policy;
    }

    /** `set << dep`. */
    method Add(d: Dependency)
      requires Valid()
      modifies this
      ensures Valid()
      ensures dependencies == Insert(old(dependencies), d, policy)
    {
      InsertNames(dependencies, d, policy);
      var i := IndexOfName(dependencies, d.name);
      if i.None? {
        dependencies := dependencies + [d];
      } else {
        dependencies := dependencies[i.value := Merge(dependencies[i.value], d, policy)];
      }
    }

    /** `set += other`: every record of other added in turn. */
    method AddAll(other: seq<Dependency>)
      requires Valid()
      modifies this
      ensures Valid()
      ensures dependencies == InsertAll(old(dependencies), other, policy)
    {
      var i := 0;
      while i < |other|
        invariant 0 <= i <= |other|
        invariant Valid()
        invariant dependencies == InsertAll(old(dependencies), other[..i], policy)
      {
        assert other[..i + 1][..i] == other[..i];
        Add(other[i]);
        i := i + 1;
      }
      assert other[..|other|] == other;
    }
  }
}
