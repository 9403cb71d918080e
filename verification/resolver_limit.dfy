/**
 * The resolver as written, on the input that shows the unchecked
 * hydrated candidate (`Candidates.HydratedCandidateFails`): a skill whose only listed release `1.0` has no download URL,
 * whose per-version lookup answers `1.0.0` with one, and whose one
 * direct requirement is `<1.0.-`. The candidate `1.0.0` is selected, the
 * recheck at the start of the next `_search` drops it again and puts the
 * key back in front of the pending keys, and the search starts over from
 * the same state; `resolve_dependency_graph` therefore runs into
 * Python's recursion limit, whatever that limit is.
 */
module ResolverLimit {
  import opened Wrappers
  import opened Strs
  import opened Errors
  import opened Refs
  import opened Specifiers
  import opened Releases
  import opened Candidates
  import opened Sorting
  import opened Dicts
  import opened Resolver
  import opened ResolverSoundness

  /** The constraints the seeding loop records for the one direct requirement. */
  function LoopConstraints(ref: SkillRef): Constraints {
    map[ref.Key() := ExampleReqs()]
  }

  /** A repository answering as in the finding for `ref`. */
  predicate LoopRepo(ref: SkillRef, repo: Repo) {
    repo.list(ref) == Ok([ListedRelease(ref)]) && repo.get(ref, "1.0") == Ok(Some(LookedUpRelease(ref)))
  }

  lemma {:induction false} DistinctOne(k: string)
    ensures Distinct([]) == [] && Distinct([k]) == [k]
  {
    assert [k][..0] == [];
  }

  /** A selected entry that fails its requirements is dropped, and its key goes in front of the pending ones. */
  lemma {:induction false} RecheckOneDrop(e: (string, Release), cons: Constraints, pend: seq<string>)
    requires SatisfiesAll(e.1.version, ConstraintsOf(cons, e.0)) == Ok(false) && e.0 !in pend
    ensures Recheck([e], cons, pend) == Ok(([], [e.0] + pend))
  {
    assert [e][1..] == [];
  }

  /** The looked-up release is dropped by the recheck and its key is pending again. */
  lemma {:induction false} RecheckDrops(ref: SkillRef)
    ensures Recheck([(ref.Key(), LookedUpRelease(ref))], LoopConstraints(ref), Distinct([])) == Ok(([], [ref.Key()]))
  {
    DistinctOne(ref.Key());
    ExampleHolds("1.0.0");
    var e := (ref.Key(), LookedUpRelease(ref));
    assert ConstraintsOf(LoopConstraints(ref), e.0) == ExampleReqs();
    RecheckOneDrop(e, LoopConstraints(ref), []);
    assert [e.0] + [] == [e.0];
  }

  /** With nothing selected, the recheck keeps the one pending key. */
  lemma {:induction false} RecheckEmpty(ref: SkillRef)
    ensures Recheck([], LoopConstraints(ref), Distinct([ref.Key()])) == Ok(([], [ref.Key()]))
  {
    DistinctOne(ref.Key());
  }

  /** After the candidate is tried, the search is back where it started, with one level less. */
  lemma {:induction false} BackToStart(ref: SkillRef, repo: Repo, last: Option<Error>, f: nat)
    ensures Search([(ref.Key(), LookedUpRelease(ref))], LoopConstraints(ref), [], repo, last, f)
      == Search([], LoopConstraints(ref), [ref.Key()], repo, last, f)
  {
    RecheckDrops(ref);
    RecheckEmpty(ref);
  }

  /** A key with exactly one candidate: its candidate loop is all that is left. */
  lemma {:induction false} OneCandidate(cons: Constraints, k: string, ref: SkillRef, c: Release, repo: Repo, last: Option<Error>, f: nat)
    requires ParseSkillRef(k) == Ok(ref) && CandidateReleases(ref, ConstraintsOf(cons, k), repo) == Ok([c])
    ensures SearchCandidates([], cons, [k], repo, last, f) == TryCandidates(k, [c], [], cons, [], repo, last, f)
  {
    assert [k][1..] == [];
  }

  /** Trying a single candidate without dependencies: select it and search on; backtracking leaves nothing to try. */
  lemma {:induction false} TryOnly(k: string, c: Release, cons: Constraints, repo: Repo, last: Option<Error>, f: nat)
    requires c.dependencies == []
    ensures TryCandidates(k, [c], [], cons, [], repo, last, f)
      == (var sub := Search([(k, c)], cons, [], repo, last, f);
          if sub.Ok? && sub.value.0.Dead? then Ok((Dead, sub.value.1)) else sub)
  {
    assert Put([], k, c) == [(k, c)];
    assert AddDeps(Source(k, c), c.dependencies, [(k, c)], cons, []) == Ok(([(k, c)], cons, []));
    assert [c][1..] == [];
  }

  /** From the seeded state, every search runs out of fuel and keeps the last error it was given. */
  lemma {:induction false} SearchLoops(ref: SkillRef, repo: Repo, last: Option<Error>, fuel: nat)
    requires WellFormed(ref) && LoopRepo(ref, repo)
    ensures Search([], LoopConstraints(ref), [ref.Key()], repo, last, fuel) == Ok((OutOfFuel, last))
    decreases fuel
  {
    RecheckEmpty(ref);
    if fuel > 0 {
      var f := fuel - 1;
      var k := ref.Key();
      SearchUnfold([], LoopConstraints(ref), [k], repo, last, f, ([], [k]));
      ParseKey(ref);
      HydratedCandidateFails(ref, ExampleReqs(), repo);
      assert ConstraintsOf(LoopConstraints(ref), k) == ExampleReqs();
      OneCandidate(LoopConstraints(ref), k, ref, LookedUpRelease(ref), repo, last, f);
      TryOnly(k, LookedUpRelease(ref), LoopConstraints(ref), repo, last, f);
      BackToStart(ref, repo, last, f);
      SearchLoops(ref, repo, last, f);
    }
  }

  lemma {:induction false} MapOne<V>(k: string, v: V)
    ensures map[][k := v] == map[k := v]
  {
  }

  /** One step of the seeding loop, for a key that parses. */
  lemma {:induction false} SeedUnfold(items: seq<(string, string)>, cons: Constraints, pend: seq<string>)
    requires |items| > 0 && ParseSkillRef(items[0].0).Ok?
    ensures var k := ParseSkillRef(items[0].0).value.Key();
      Seed(items, cons, pend)
        == Seed(items[1..], cons[k := ConstraintsOf(cons, k) + [Requirement(NormalizeRequirement(Some(items[0].1)), "direct")]],
                if k in pend then pend else pend + [k])
  {
  }

  /** The seeding loop on one direct requirement records it under the canonical key, which becomes pending. */
  lemma {:induction false} SeedOne(items: seq<(string, string)>, ref: SkillRef)
    requires |items| == 1 && ParseSkillRef(items[0].0) == Ok(ref)
    ensures Seed(items, map[], [])
      == Ok((map[ref.Key() := [Requirement(NormalizeRequirement(Some(items[0].1)), "direct")]], [ref.Key()]))
  {
    SeedUnfold(items, map[], []);
    assert items[1..] == [];
    SeedDone(ref.Key(), Requirement(NormalizeRequirement(Some(items[0].1)), "direct"));
  }

  /** The end of the seeding loop after one requirement. */
  lemma {:induction false} SeedDone(k: string, req: Requirement)
    ensures Seed([], map[][k := ConstraintsOf(map[], k) + [req]], if k in [] then [] else [] + [k])
      == Ok((map[k := [req]], [k]))
  {
    assert ConstraintsOf(map[], k) + [req] == [req];
    MapOne(k, [req]);
    assert [] + [k] == [k];
  }

  /** `<1.0.-` is already a normalized requirement. */
  lemma {:induction false} ExampleNormalized()
    ensures NormalizeRequirement(Some("<1.0.-")) == "<1.0.-"
  {
    var s := "<1.0.-";
    assert s[0] == '<' && s[|s| - 1] == '-';
    NormalizeKeeps(s);
  }

  /** The requirements of the example are the direct requirement `<1.0.-`. */
  lemma {:induction false} ExampleDirect()
    ensures ExampleReqs() == [Requirement("<1.0.-", "direct")]
  {
    assert OpText(Lt) + "1.0.-" == "<1.0.-";
  }

  /** The seeding loop on the one direct requirement `<1.0.-`. */
  lemma {:induction false} SeedLoop(ref: SkillRef)
    requires WellFormed(ref)
    ensures Seed(SortedItems([(ref.Key(), "<1.0.-")]), map[], []) == Ok((LoopConstraints(ref), [ref.Key()]))
  {
    var items := [(ref.Key(), "<1.0.-")];
    var sorted := SortedItems(items);
    assert sorted[0] in multiset(sorted);
    assert sorted == items;
    ParseKey(ref);
    SeedOne(items, ref);
    ExampleNormalized();
    ExampleDirect();
  }

  /**
   * On the finding's input the resolver as written fails with the
   * recursion limit for every fuel, as the source raises `RecursionError`;
   * it neither returns the skill nor reports it unresolvable.
   */
  lemma {:induction false} ResolveHitsLimit(ref: SkillRef, repo: Repo, fuel: nat)
    requires WellFormed(ref) && LoopRepo(ref, repo)
    ensures Resolve([(ref.Key(), "<1.0.-")], repo, fuel) == Err(RecursionLimit)
  {
    SeedLoop(ref);
    SearchLoops(ref, repo, None, fuel);
  }
}
