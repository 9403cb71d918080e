/**
 * `resolve_dependency_graph` (local_skills.py:379-464): a depth-first
 * backtracking search that selects one release per skill key so that
 * every selected release satisfies every requirement recorded against
 * its key, and every dependency of a selected release is selected.
 *
 * The selected releases form a dictionary in insertion order (the order
 * decides which keys the recheck revisits first); the constraints are a
 * map from key to requirements. Candidate lists come from
 * `CandidateReleases`, as written: a hydrated release is not checked
 * against the requirements again, so a branch that selects one the
 * recheck then rejects keeps going around until the recursion limit.
 * The recursion depth is bounded by `fuel`, which stands for Python's
 * recursion limit; running out is `RecursionLimit`, which is not a
 * `SkilldockError`.
 */
module Resolver {
  import opened Wrappers
  import opened Errors
  import opened Refs
  import opened Specifiers
  import opened Releases
  import opened Candidates
  import opened Sorting
  import opened Dicts

  type Constraints = map<string, seq<Requirement>>
  type Selection = seq<(string, Release)>

  /** `constraints_map.get(key, [])`. */
  function ConstraintsOf(cons: Constraints, k: string): seq<Requirement> {
    if k in cons then cons[k] else []
  }

  /** The source recorded with the requirements a selected release imposes on its dependencies. */
  function Source(key: string, rel: Release): string {
    key + "@" + rel.version
  }

  /**
   * The specifiers one dependency contributes: `=<release_version>` when
   * it names a release, its `version_requirement` when it has one, and
   * `latest` when it has neither.
   */
  function DepSpecs(dep: DependencySpec): (r: seq<string>)
    ensures r != []
    ensures Truthy(dep.releaseVersion) ==> r[0] == "=" + dep.releaseVersion.value
    ensures Truthy(dep.versionRequirement) ==> dep.versionRequirement.value in r
    ensures forall s | s in r ::
      (Truthy(dep.releaseVersion) && s == "=" + dep.releaseVersion.value)
      || (Truthy(dep.versionRequirement) && s == dep.versionRequirement.value)
      || (!Truthy(dep.releaseVersion) && !Truthy(dep.versionRequirement) && s == "latest")
  {
    var pinned := if Truthy(dep.releaseVersion) then ["=" + dep.releaseVersion.value] else [];
    var ranged := if Truthy(dep.versionRequirement) then [dep.versionRequirement.value] else [];
    if pinned + ranged == [] then ["latest"] else pinned + ranged
  }

  /** One requirement per specifier, all from `source`. */
  function Tagged(specs: seq<string>, source: string): (r: seq<Requirement>)
    ensures |r| == |specs| && forall i | 0 <= i < |specs| :: r[i] == Requirement(specs[i], source)
  {
    seq(|specs|, i requires 0 <= i < |specs| => Requirement(specs[i], source))
  }

  // ---------------------------------------------------------------------
  // One step of the search
  // ---------------------------------------------------------------------

  /** A selected entry still satisfies the requirements of its key. */
  function Satisfied(cons: Constraints): ((string, Release)) -> bool {
    (e: (string, Release)) => SatisfiesAll(e.1.version, ConstraintsOf(cons, e.0)) == Ok(true)
  }

  /**
   * The recheck at the start of `_search`: each selected entry, in order,
   * is kept when it satisfies its key's requirements, and otherwise
   * dropped and its key put at the front of the pending keys (unless it
   * is already pending). A requirement that raises aborts the search.
   */
  function Recheck(entries: Selection, cons: Constraints, pend: seq<string>): (r: Result<(Selection, seq<string>), Error>)
    ensures r.Ok? ==> r.value.0 == Filter(Satisfied(cons), entries)
    ensures r.Err? ==> r.error.InvalidRequirement?
    decreases |entries|
  {
    if |entries| == 0 then Ok(([], pend))
    else
      var e := entries[0];
      var ok :- SatisfiesAll(e.1.version, ConstraintsOf(cons, e.0));
      var pend' := if ok || e.0 in pend then pend else [e.0] + pend;
      var rest :- Recheck(entries[1..], cons, pend');
      Ok(((if ok then [e] else []) + rest.0, rest.1))
  }

  /** After a change of `k`'s requirements, a selected release for `k` that no longer satisfies them is dropped. */
  function Unseat(sel: Selection, k: string, reqs: seq<Requirement>): (r: Result<Selection, Error>)
    ensures r.Ok? ==> r.value == sel || r.value == Remove(sel, k)
    ensures r.Ok? && HasKey(r.value, k) ==> r.value == sel && SatisfiesAll(Get(sel, k).value.version, reqs) == Ok(true)
    ensures r.Err? ==> r.error.InvalidRequirement?
  {
    match Get(sel, k)
    case None => Ok(sel)
    case Some(rel) =>
      var ok :- SatisfiesAll(rel.version, reqs);
      Ok(if ok then sel else Remove(sel, k))
  }

  /**
   * The dependency loop for a tentatively selected candidate: each
   * dependency adds its specifiers to its key's requirements, unseats a
   * selected release that no longer fits, and becomes pending unless it
   * is selected or pending already.
   */
  function AddDeps(source: string, deps: seq<DependencySpec>, sel: Selection, cons: Constraints, pend: seq<string>)
    : (r: Result<(Selection, Constraints, seq<string>), Error>)
    ensures r.Err? ==> r.error.InvalidRequirement?
    decreases |deps|
  {
    if |deps| == 0 then Ok((sel, cons, pend))
    else
      var dk := deps[0].ref.Key();
      var cons' := cons[dk := ConstraintsOf(cons, dk) + Tagged(DepSpecs(deps[0]), source)];
      var sel' :- Unseat(sel, dk, cons'[dk]);
      var pend' := if !HasKey(sel', dk) && dk !in pend then pend + [dk] else pend;
      AddDeps(source, deps[1..], sel', cons', pend')
  }

  // ---------------------------------------------------------------------
  // The search
  // ---------------------------------------------------------------------

  /** What a search returns: a solution, `None` (backtrack), or the recursion limit. */
  datatype Outcome = Solved(selected: Selection, constraints: Constraints) | Dead | OutOfFuel

  /**
   * `_search`: recheck, stop when nothing is pending, otherwise try the
   * candidates of the first pending key in order. A candidate failure is
   * remembered as the last error and backtracks; a bad reference or a
   * raising requirement propagates. The last error is threaded through.
   */
  function Search(sel: Selection, cons: Constraints, pending: seq<string>, repo: Repo, last: Option<Error>, fuel: nat)
    : (r: Result<(Outcome, Option<Error>), Error>)
    ensures r.Err? ==> r.error.InvalidRequirement? || r.error.InvalidRef?
    decreases fuel, 0, 0
  {
    var checked :- Recheck(sel, cons, Distinct(pending));
    var sel1, pend1 := checked.0, checked.1;
    if |pend1| == 0 then Ok((Solved(sel1, cons), last))
    else if fuel == 0 then Ok((OutOfFuel, last))
    else SearchCandidates(sel1, cons, pend1, repo, last, fuel - 1)
  }

  /** The candidates of the first pending key: a bad key propagates, a candidate failure backtracks. */
  function SearchCandidates(sel: Selection, cons: Constraints, pend: seq<string>, repo: Repo, last: Option<Error>, fuel: nat)
    : (r: Result<(Outcome, Option<Error>), Error>)
    requires |pend| > 0
    ensures r.Err? ==> r.error.InvalidRequirement? || r.error.InvalidRef?
    decreases fuel, 1, 0
  {
    var key := pend[0];
    var ref :- ParseSkillRef(key);
    match CandidateReleases(ref, ConstraintsOf(cons, key), repo)
    case Err(e) => Ok((Dead, Some(e)))
    case Ok(cands) => TryCandidates(key, cands, sel, cons, pend[1..], repo, last, fuel)
  }

  /** The loop over the candidates of `key`: the first one whose sub-search does not backtrack wins. */
  function TryCandidates(key: string, cands: seq<Release>, sel: Selection, cons: Constraints, rest: seq<string>,
                         repo: Repo, last: Option<Error>, fuel: nat)
    : (r: Result<(Outcome, Option<Error>), Error>)
    ensures r.Err? ==> r.error.InvalidRequirement? || r.error.InvalidRef?
    decreases fuel, 0, |cands|
  {
    if |cands| == 0 then Ok((Dead, last))
    else
      var c := cands[0];
      var next :- AddDeps(Source(key, c), c.dependencies, Put(sel, key, c), cons, rest);
      var sub :- Search(next.0, next.1, next.2, repo, last, fuel);
      if !sub.0.Dead? then Ok(sub)
      else TryCandidates(key, cands[1..], sel, cons, rest, repo, sub.1, fuel)
  }

  /**
   * The seeding loop over `sorted(direct_requirements.items())`: each key
   * is parsed (a bad one raises), its normalized requirement is recorded
   * with source `direct`, and its canonical key becomes pending once.
   */
  function Seed(items: seq<(string, string)>, cons: Constraints, pend: seq<string>): (r: Result<(Constraints, seq<string>), Error>)
    ensures r.Err? ==> r.error.InvalidRef?
    decreases |items|
  {
    if |items| == 0 then Ok((cons, pend))
    else
      var ref :- ParseSkillRef(items[0].0);
      var k := ref.Key();
      var req := Requirement(NormalizeRequirement(Some(items[0].1)), "direct");
      Seed(items[1..], cons[k := ConstraintsOf(cons, k) + [req]], if k in pend then pend else pend + [k])
  }

  /**
   * `resolve_dependency_graph`: the selected releases and the final
   * constraints, or `Unresolved` carrying the last candidate failure
   * when every branch backtracked.
   */
  function Resolve(direct: seq<(string, string)>, repo: Repo, fuel: nat): (r: Result<(Selection, Constraints), Error>)
    ensures r.Err? ==> r.error.InvalidRef? || r.error.InvalidRequirement? || r.error.Unresolved? || r.error.RecursionLimit?
  {
    var seed :- Seed(SortedItems(direct), map[], []);
    var res :- Search([], seed.0, seed.1, repo, None, fuel);
    match res.0
    case Solved(sel, cons) => Ok((sel, cons))
    case OutOfFuel => Err(RecursionLimit)
    case Dead => Err(Unresolved(res.1))
  }
}
