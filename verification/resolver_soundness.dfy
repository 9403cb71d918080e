/**
 * What a successful `resolve_dependency_graph` guarantees: every direct
 * requirement and every dependency of every selected release is met by
 * the release selected for its key, and every selected release can be
 * downloaded. The proof carries an invariant through the search: the
 * constraints only grow, every constrained key is selected or pending,
 * and every selected release has recorded its dependencies' specifiers.
 */
module ResolverSoundness {
  import opened Wrappers
  import opened Errors
  import opened Refs
  import opened Specifiers
  import opened Releases
  import opened Candidates
  import opened Sorting
  import opened Dicts
  import opened Resolver

  /** Every requirement recorded in `cons` is still recorded in `next`. */
  ghost predicate Grows(cons: Constraints, next: Constraints) {
    forall k, q | k in cons && q in cons[k] :: k in next && q in next[k]
  }

  /** The specifiers of the dependencies of `rel`, selected as `key`, are recorded under the dependencies' keys. */
  ghost predicate DepsRecorded(key: string, rel: Release, cons: Constraints) {
    forall d, s | d in rel.dependencies && s in DepSpecs(d) ::
      Requirement(s, Source(key, rel)) in ConstraintsOf(cons, d.ref.Key())
  }

  /** The selection is a dictionary of downloadable releases whose dependencies are recorded. */
  ghost predicate Seated(sel: Selection, cons: Constraints) {
    DistinctKeys(sel) && forall e | e in sel :: HasDownloadUrl(e.1) && DepsRecorded(e.0, e.1, cons)
  }

  /** Every constrained key is selected or pending. */
  ghost predicate Covered(sel: Selection, cons: Constraints, pend: seq<string>) {
    forall k | k in cons :: HasKey(sel, k) || k in pend
  }

  /** A solution: seated, every constrained key selected, and every selected release meets its requirements. */
  ghost predicate Consistent(sel: Selection, cons: Constraints) {
    Seated(sel, cons) && Covered(sel, cons, []) && forall e | e in sel :: Satisfied(cons)(e)
  }

  /** The release selected for `k` satisfies `spec`. */
  ghost predicate Holds(sel: Selection, k: string, spec: string) {
    HasKey(sel, k) && VersionSatisfies(Get(sel, k).value.version, spec) == Ok(true)
  }

  // ---------------------------------------------------------------------
  // Small facts
  // ---------------------------------------------------------------------

  lemma EntryHasKey(d: Selection, e: (string, Release))
    requires e in d
    ensures HasKey(d, e.0)
  {
    var i :| 0 <= i < |d| && d[i] == e;
  }

  lemma GrowsTrans(a: Constraints, b: Constraints, c: Constraints)
    requires Grows(a, b) && Grows(b, c)
    ensures Grows(a, c)
  {
  }

  lemma RecordedGrows(key: string, rel: Release, cons: Constraints, next: Constraints)
    requires DepsRecorded(key, rel, cons) && Grows(cons, next)
    ensures DepsRecorded(key, rel, next)
  {
    forall d, s | d in rel.dependencies && s in DepSpecs(d)
      ensures Requirement(s, Source(key, rel)) in ConstraintsOf(next, d.ref.Key())
    {
      assert Requirement(s, Source(key, rel)) in ConstraintsOf(cons, d.ref.Key());
    }
  }

  lemma SeatedGrows(sel: Selection, cons: Constraints, next: Constraints)
    requires Seated(sel, cons) && Grows(cons, next)
    ensures Seated(sel, next)
  {
    forall e | e in sel ensures DepsRecorded(e.0, e.1, next) {
      RecordedGrows(e.0, e.1, cons, next);
    }
  }

  lemma SeatedFilter(p: ((string, Release)) -> bool, sel: Selection, cons: Constraints)
    requires Seated(sel, cons)
    ensures Seated(Filter(p, sel), cons)
  {
    FilterDistinct(p, sel);
    forall e | e in Filter(p, sel) ensures e in sel {
      FilterMembers(p, sel, e);
    }
  }

  /** Under a consistent selection, every recorded requirement holds for the release selected for its key. */
  lemma ConstraintHolds(sel: Selection, cons: Constraints, k: string, q: Requirement)
    requires Consistent(sel, cons) && q in ConstraintsOf(cons, k)
    ensures Holds(sel, k, q.specifier)
  {
    assert k in cons;
    var i :| 0 <= i < |sel| && sel[i].0 == k;
    var e := sel[i];
    GetMember(sel, k, e.1);
    assert Satisfied(cons)(e);
    SatisfiesAllEvery(e.1.version, cons[k]);
    var j :| 0 <= j < |cons[k]| && cons[k][j] == q;
    assert Meets(e.1.version)(cons[k][j]);
  }

  // ---------------------------------------------------------------------
  // The recheck and the dependency loop
  // ---------------------------------------------------------------------

  /** The recheck keeps every pending key and makes every dropped key pending. */
  lemma {:induction false} RecheckFacts(entries: Selection, cons: Constraints, pend: seq<string>)
    requires Recheck(entries, cons, pend).Ok?
    ensures forall k | k in pend :: k in Recheck(entries, cons, pend).value.1
    ensures forall e | e in entries && !Satisfied(cons)(e) :: e.0 in Recheck(entries, cons, pend).value.1
    decreases |entries|
  {
    if |entries| > 0 {
      var e := entries[0];
      var ok := SatisfiesAll(e.1.version, ConstraintsOf(cons, e.0)).value;
      var pend' := if ok || e.0 in pend then pend else [e.0] + pend;
      RecheckFacts(entries[1..], cons, pend');
      assert Recheck(entries, cons, pend).value.1 == Recheck(entries[1..], cons, pend').value.1;
      assert forall x | x in entries :: x == e || x in entries[1..] by {
        assert entries == [e] + entries[1..];
      }
    }
  }

  /** The recheck of the distinct pending keys keeps the invariant, and leaves a solution when nothing is pending. */
  lemma RecheckKeeps(sel: Selection, cons: Constraints, pending: seq<string>)
    requires Seated(sel, cons) && Covered(sel, cons, pending)
    requires Recheck(sel, cons, Distinct(pending)).Ok?
    ensures var r := Recheck(sel, cons, Distinct(pending)).value;
      && Seated(r.0, cons) && Covered(r.0, cons, r.1)
      && (r.1 == [] ==> Consistent(r.0, cons))
  {
    var dp := Distinct(pending);
    var r := Recheck(sel, cons, dp).value;
    RecheckFacts(sel, cons, dp);
    SeatedFilter(Satisfied(cons), sel, cons);
    forall k | k in cons ensures HasKey(r.0, k) || k in r.1 {
      if HasKey(sel, k) {
        var i :| 0 <= i < |sel| && sel[i].0 == k;
        var e := sel[i];
        FilterMembers(Satisfied(cons), sel, e);
        if Satisfied(cons)(e) {
          EntryHasKey(r.0, e);
        }
      } else {
        assert k in pending;
      }
    }
    forall e | e in r.0 ensures Satisfied(cons)(e) {
      FilterMembers(Satisfied(cons), sel, e);
    }
  }

  /** One dependency: its requirements are recorded, the selection shrinks, and coverage is kept. */
  lemma AddDepStep(source: string, dep: DependencySpec, sel: Selection, cons: Constraints, pend: seq<string>,
                   sel': Selection, cons': Constraints, pend': seq<string>)
    requires cons' == cons[dep.ref.Key() := ConstraintsOf(cons, dep.ref.Key()) + Tagged(DepSpecs(dep), source)]
    requires Unseat(sel, dep.ref.Key(), cons'[dep.ref.Key()]) == Ok(sel')
    requires pend' == if !HasKey(sel', dep.ref.Key()) && dep.ref.Key() !in pend then pend + [dep.ref.Key()] else pend
    ensures Grows(cons, cons')
    ensures forall s | s in DepSpecs(dep) :: Requirement(s, source) in ConstraintsOf(cons', dep.ref.Key())
    ensures forall e | e in sel' :: e in sel
    ensures DistinctKeys(sel) ==> DistinctKeys(sel')
    ensures forall k | k in pend :: k in pend'
    ensures Covered(sel, cons, pend) ==> Covered(sel', cons', pend')
  {
    var dk := dep.ref.Key();
    var p := (e: (string, Release)) => e.0 != dk;
    forall s | s in DepSpecs(dep) ensures Requirement(s, source) in ConstraintsOf(cons', dk) {
      var tags := Tagged(DepSpecs(dep), source);
      var i :| 0 <= i < |DepSpecs(dep)| && DepSpecs(dep)[i] == s;
      assert cons'[dk] == ConstraintsOf(cons, dk) + tags;
      assert cons'[dk][|ConstraintsOf(cons, dk)| + i] == tags[i];
    }
    if sel' != sel {
      forall e | e in sel' ensures e in sel {
        FilterMembers(p, sel, e);
      }
      if DistinctKeys(sel) {
        FilterDistinct(p, sel);
      }
    }
    if Covered(sel, cons, pend) {
      forall k | k in cons' ensures HasKey(sel', k) || k in pend' {
        if k != dk && HasKey(sel, k) && sel' != sel {
          var i :| 0 <= i < |sel| && sel[i].0 == k;
          FilterMembers(p, sel, sel[i]);
          EntryHasKey(sel', sel[i]);
        }
      }
    }
  }

  /** The dependency loop: the constraints grow, every dependency's specifiers are recorded with `source`, and coverage is kept. */
  lemma {:induction false} AddDepsFacts(source: string, deps: seq<DependencySpec>, sel: Selection, cons: Constraints, pend: seq<string>)
    requires AddDeps(source, deps, sel, cons, pend).Ok?
    ensures var r := AddDeps(source, deps, sel, cons, pend).value;
      && Grows(cons, r.1)
      && (forall d, s | d in deps && s in DepSpecs(d) :: Requirement(s, source) in ConstraintsOf(r.1, d.ref.Key()))
      && (forall e | e in r.0 :: e in sel)
      && (DistinctKeys(sel) ==> DistinctKeys(r.0))
      && (Covered(sel, cons, pend) ==> Covered(r.0, r.1, r.2))
    decreases |deps|
  {
    if |deps| > 0 {
      var dep := deps[0];
      var dk := dep.ref.Key();
      var cons' := cons[dk := ConstraintsOf(cons, dk) + Tagged(DepSpecs(dep), source)];
      var sel' := Unseat(sel, dk, cons'[dk]).value;
      var pend' := if !HasKey(sel', dk) && dk !in pend then pend + [dk] else pend;
      AddDepStep(source, dep, sel, cons, pend, sel', cons', pend');
      AddDepsFacts(source, deps[1..], sel', cons', pend');
      var r := AddDeps(source, deps, sel, cons, pend).value;
      assert r == AddDeps(source, deps[1..], sel', cons', pend').value;
      GrowsTrans(cons, cons', r.1);
      forall d, s | d in deps && s in DepSpecs(d) ensures Requirement(s, source) in ConstraintsOf(r.1, d.ref.Key()) {
        if d == dep {
          assert Requirement(s, source) in ConstraintsOf(cons', dk);
        } else {
          assert deps == [dep] + deps[1..];
          assert d in deps[1..];
        }
      }
    }
  }

  // ---------------------------------------------------------------------
  // The search
  // ---------------------------------------------------------------------

  /** A search result that is a solution is consistent and extends `cons`. */
  ghost predicate SolvedWell(cons: Constraints, r: Result<(Outcome, Option<Error>), Error>) {
    r.Ok? && r.value.0.Solved? ==> Consistent(r.value.0.selected, r.value.0.constraints) && Grows(cons, r.value.0.constraints)
  }

  /** The search unfolds to trying the candidates of the first pending key when keys remain pending and fuel remains. */
  lemma SearchUnfold(sel: Selection, cons: Constraints, pending: seq<string>, repo: Repo, last: Option<Error>, f: nat,
                      c: (Selection, seq<string>))
    requires Recheck(sel, cons, Distinct(pending)) == Ok(c) && |c.1| > 0
    ensures Search(sel, cons, pending, repo, last, f + 1) == SearchCandidates(c.0, cons, c.1, repo, last, f)
  {
  }

  /** A solution found by the search is consistent, and extends the constraints it started from. */
  lemma {:induction false} SearchSound(sel: Selection, cons: Constraints, pending: seq<string>, repo: Repo, last: Option<Error>, fuel: nat)
    requires Seated(sel, cons) && Covered(sel, cons, pending)
    ensures SolvedWell(cons, Search(sel, cons, pending, repo, last, fuel))
    decreases fuel, 1, 0
  {
    var checked := Recheck(sel, cons, Distinct(pending));
    if checked.Ok? && |checked.value.1| > 0 && fuel > 0 {
      RecheckKeeps(sel, cons, pending);
      SearchBranch(sel, cons, pending, repo, last, fuel - 1, checked.value);
    } else {
      SearchStop(sel, cons, pending, repo, last, fuel);
    }
  }

  /** When the recheck raises, nothing is pending, or no fuel remains, the search stops soundly. */
  lemma SearchStop(sel: Selection, cons: Constraints, pending: seq<string>, repo: Repo, last: Option<Error>, fuel: nat)
    requires Seated(sel, cons) && Covered(sel, cons, pending)
    requires var checked := Recheck(sel, cons, Distinct(pending));
      !(checked.Ok? && |checked.value.1| > 0 && fuel > 0)
    ensures SolvedWell(cons, Search(sel, cons, pending, repo, last, fuel))
  {
    var checked := Recheck(sel, cons, Distinct(pending));
    if checked.Ok? && |checked.value.1| == 0 {
      RecheckKeeps(sel, cons, pending);
    }
  }

  /**
   * The branch of the search that tries the candidates of the first key
   * still pending after the recheck `c`, with `f` fuel left for them.
   */
  lemma {:induction false} SearchBranch(sel: Selection, cons: Constraints, pending: seq<string>, repo: Repo, last: Option<Error>,
                                        f: nat, c: (Selection, seq<string>))
    requires Recheck(sel, cons, Distinct(pending)) == Ok(c) && |c.1| > 0
    requires Seated(c.0, cons) && Covered(c.0, cons, c.1)
    ensures SolvedWell(cons, Search(sel, cons, pending, repo, last, f + 1))
    decreases f + 1, 0, 0
  {
    SearchUnfold(sel, cons, pending, repo, last, f, c);
    var key := c.1[0];
    var ref := ParseSkillRef(key);
    if ref.Ok? {
      var cands := CandidateReleases(ref.value, ConstraintsOf(cons, key), repo);
      if cands.Ok? {
        TryCandidatesSound(cands.value, c.0, cons, c.1, repo, last, f);
      }
    }
  }

  /** The same for the loop over the candidates of `key`. */
  lemma {:induction false} TryCandidatesSound(cands: seq<Release>, sel: Selection, cons: Constraints,
                                              pend: seq<string>, repo: Repo, last: Option<Error>, fuel: nat)
    requires Seated(sel, cons) && Covered(sel, cons, pend) && |pend| > 0
    requires forall i | 0 <= i < |cands| :: HasDownloadUrl(cands[i])
    ensures SolvedWell(cons, TryCandidates(pend[0], cands, sel, cons, pend[1..], repo, last, fuel))
    decreases fuel, 2, |cands|
  {
    var key, rest := pend[0], pend[1..];
    var r := TryCandidates(key, cands, sel, cons, rest, repo, last, fuel);
    if r.Ok? && r.value.0.Solved? && |cands| > 0 {
      var c := cands[0];
      var sel2 := Put(sel, key, c);
      var next := AddDeps(Source(key, c), c.dependencies, sel2, cons, rest).value;
      var sub := Search(next.0, next.1, next.2, repo, last, fuel).value;
      if sub.0.Dead? {
        TryCandidatesSound(cands[1..], sel, cons, pend, repo, sub.1, fuel);
      } else {
        PlaceCandidate(c, sel, cons, pend);
        SearchSound(next.0, next.1, next.2, repo, last, fuel);
        GrowsTrans(cons, next.1, sub.0.constraints);
      }
    }
  }

  /** Placing a downloadable candidate and running its dependency loop keeps the invariant. */
  lemma PlaceCandidate(c: Release, sel: Selection, cons: Constraints, pend: seq<string>)
    requires Seated(sel, cons) && Covered(sel, cons, pend) && |pend| > 0 && HasDownloadUrl(c)
    requires AddDeps(Source(pend[0], c), c.dependencies, Put(sel, pend[0], c), cons, pend[1..]).Ok?
    ensures var next := AddDeps(Source(pend[0], c), c.dependencies, Put(sel, pend[0], c), cons, pend[1..]).value;
      Seated(next.0, next.1) && Covered(next.0, next.1, next.2) && Grows(cons, next.1)
  {
    var key, rest := pend[0], pend[1..];
    var sel2 := Put(sel, key, c);
    PutDistinct(sel, key, c);
    EntryHasKey(sel2, (key, c));
    forall k | k in cons ensures HasKey(sel2, k) || k in rest {
      if k != key {
        if HasKey(sel, k) {
          var i :| 0 <= i < |sel| && sel[i].0 == k;
          EntryHasKey(sel2, sel[i]);
        } else {
          var i :| 0 <= i < |pend| && pend[i] == k;
          assert rest[i - 1] == k;
        }
      }
    }
    AddDepsFacts(Source(key, c), c.dependencies, sel2, cons, rest);
    var next := AddDeps(Source(key, c), c.dependencies, sel2, cons, rest).value;
    forall e | e in next.0 ensures HasDownloadUrl(e.1) && DepsRecorded(e.0, e.1, next.1) {
      if e != (key, c) {
        RecordedGrows(e.0, e.1, cons, next.1);
      }
    }
  }

  // ---------------------------------------------------------------------
  // Seeding and the whole resolution
  // ---------------------------------------------------------------------

  /** The direct requirement `item` is recorded under its parsed key. */
  ghost predicate DirectRecorded(item: (string, string), cons: Constraints) {
    ParseSkillRef(item.0).Ok?
    && Requirement(NormalizeRequirement(Some(item.1)), "direct") in ConstraintsOf(cons, ParseSkillRef(item.0).value.Key())
  }

  lemma DirectRecordedGrows(item: (string, string), cons: Constraints, next: Constraints)
    requires DirectRecorded(item, cons) && Grows(cons, next)
    ensures DirectRecorded(item, next)
  {
  }

  /** One seeding step records its requirement and keeps the earlier ones. */
  lemma SeedStep(cons: Constraints, k: string, req: Requirement)
    ensures var cons' := cons[k := ConstraintsOf(cons, k) + [req]];
      Grows(cons, cons') && req in ConstraintsOf(cons', k)
  {
    var cons' := cons[k := ConstraintsOf(cons, k) + [req]];
    assert cons'[k][|ConstraintsOf(cons, k)|] == req;
  }

  /** The seed records every direct requirement under its parsed key, which is pending. */
  lemma {:induction false} SeedFacts(items: seq<(string, string)>, cons: Constraints, pend: seq<string>)
    requires Seed(items, cons, pend).Ok?
    ensures var r := Seed(items, cons, pend).value;
      && Grows(cons, r.0)
      && ((forall k | k in cons :: k in pend) ==> forall k | k in r.0 :: k in r.1)
      && forall i | 0 <= i < |items| :: DirectRecorded(items[i], r.0)
    decreases |items|
  {
    if |items| > 0 {
      var k := ParseSkillRef(items[0].0).value.Key();
      var req := Requirement(NormalizeRequirement(Some(items[0].1)), "direct");
      var cons' := cons[k := ConstraintsOf(cons, k) + [req]];
      var pend' := if k in pend then pend else pend + [k];
      SeedStep(cons, k, req);
      assert DirectRecorded(items[0], cons');
      SeedFacts(items[1..], cons', pend');
      var r := Seed(items, cons, pend).value;
      assert r == Seed(items[1..], cons', pend').value;
      GrowsTrans(cons, cons', r.0);
      DirectRecordedGrows(items[0], cons', r.0);
      forall i | 0 <= i < |items| ensures DirectRecorded(items[i], r.0) {
        if i > 0 {
          assert items[i] == items[1..][i - 1];
        }
      }
    }
  }

  /** What a resolution promises of its selection. */
  ghost predicate SoundSelection(direct: seq<(string, string)>, sel: Selection) {
    && DistinctKeys(sel)
    && (forall e | e in sel :: HasDownloadUrl(e.1))
    && (forall i | 0 <= i < |direct| :: ParseSkillRef(direct[i].0).Ok?
          && Holds(sel, ParseSkillRef(direct[i].0).value.Key(), NormalizeRequirement(Some(direct[i].1))))
    && (forall e, d, s | e in sel && d in e.1.dependencies && s in DepSpecs(d) :: Holds(sel, d.ref.Key(), s))
  }

  /** A consistent selection that extends the seeded constraints is sound. */
  lemma ConsistentSound(direct: seq<(string, string)>, seeded: Constraints, sel: Selection, cons: Constraints)
    requires forall i | 0 <= i < |SortedItems(direct)| :: DirectRecorded(SortedItems(direct)[i], seeded)
    requires Consistent(sel, cons) && Grows(seeded, cons)
    ensures SoundSelection(direct, sel)
  {
    forall i | 0 <= i < |direct| ensures ParseSkillRef(direct[i].0).Ok?
      && Holds(sel, ParseSkillRef(direct[i].0).value.Key(), NormalizeRequirement(Some(direct[i].1)))
    {
      SortedItemsMembers(direct, direct[i]);
      var j :| 0 <= j < |SortedItems(direct)| && SortedItems(direct)[j] == direct[i];
      assert DirectRecorded(direct[i], seeded);
      DirectRecordedGrows(direct[i], seeded, cons);
      ConstraintHolds(sel, cons, ParseSkillRef(direct[i].0).value.Key(), Requirement(NormalizeRequirement(Some(direct[i].1)), "direct"));
    }
    forall e, d, s | e in sel && d in e.1.dependencies && s in DepSpecs(d) ensures Holds(sel, d.ref.Key(), s) {
      assert DepsRecorded(e.0, e.1, cons);
      ConstraintHolds(sel, cons, d.ref.Key(), Requirement(s, Source(e.0, e.1)));
    }
  }

  /**
   * A resolution that succeeds selects a dictionary of downloadable
   * releases in which every direct requirement holds for the release
   * selected for its key, and every specifier of every dependency of a
   * selected release holds for the release selected for the dependency.
   */
  lemma ResolveSound(direct: seq<(string, string)>, repo: Repo, fuel: nat)
    ensures Resolve(direct, repo, fuel).Ok? ==> SoundSelection(direct, Resolve(direct, repo, fuel).value.0)
  {
    var items := SortedItems(direct);
    var seed := Seed(items, map[], []);
    if seed.Ok? {
      SeedFacts(items, map[], []);
      SeededSound(direct, seed.value.0, seed.value.1, repo, fuel);
      ResolveFromSeed(direct, repo, fuel, seed.value);
    }
  }

  /** `Resolve` after a successful seeding is the search from the seed. */
  lemma ResolveFromSeed(direct: seq<(string, string)>, repo: Repo, fuel: nat, seed: (Constraints, seq<string>))
    requires Seed(SortedItems(direct), map[], []) == Ok(seed)
    ensures var res := Search([], seed.0, seed.1, repo, None, fuel);
      Resolve(direct, repo, fuel).Ok? <==> res.Ok? && res.value.0.Solved?
    ensures var res := Search([], seed.0, seed.1, repo, None, fuel);
      Resolve(direct, repo, fuel).Ok? ==> Resolve(direct, repo, fuel).value.0 == res.value.0.selected
  {
  }

  /** The search that starts from the seeded constraints only ever solves soundly. */
  lemma SeededSound(direct: seq<(string, string)>, seeded: Constraints, pend: seq<string>, repo: Repo, fuel: nat)
    requires Grows(map[], seeded) && forall k | k in seeded :: k in pend
    requires forall i | 0 <= i < |SortedItems(direct)| :: DirectRecorded(SortedItems(direct)[i], seeded)
    ensures var res := Search([], seeded, pend, repo, None, fuel);
      res.Ok? && res.value.0.Solved? ==> SoundSelection(direct, res.value.0.selected)
  {
    var res := Search([], seeded, pend, repo, None, fuel);
    SearchSound([], seeded, pend, repo, None, fuel);
    if res.Ok? && res.value.0.Solved? {
      ConsistentSound(direct, seeded, res.value.0.selected, res.value.0.constraints);
    }
  }

  /** A direct requirement whose key does not parse stops the seeding. */
  lemma {:induction false} SeedBadKey(items: seq<(string, string)>, cons: Constraints, pend: seq<string>, bad: (string, string))
    requires bad in items && ParseSkillRef(bad.0).Err?
    ensures Seed(items, cons, pend).Err?
    decreases |items|
  {
    var k := ParseSkillRef(items[0].0);
    if items[0] != bad && k.Ok? {
      var i :| 0 <= i < |items| && items[i] == bad;
      assert items[1..][i - 1] == bad;
      var key := k.value.Key();
      var req := Requirement(NormalizeRequirement(Some(items[0].1)), "direct");
      var cons' := cons[key := ConstraintsOf(cons, key) + [req]];
      var pend' := if key in pend then pend else pend + [key];
      SeedBadKey(items[1..], cons', pend', bad);
      assert Seed(items, cons, pend) == Seed(items[1..], cons', pend');
    }
  }

  /** A resolution with a direct requirement whose key does not parse fails with an invalid reference. */
  lemma ResolveBadKey(direct: seq<(string, string)>, repo: Repo, fuel: nat, bad: (string, string))
    requires bad in direct && ParseSkillRef(bad.0).Err?
    ensures Resolve(direct, repo, fuel).Err? && Resolve(direct, repo, fuel).error.InvalidRef?
  {
    SortedItemsMembers(direct, bad);
    SeedBadKey(SortedItems(direct), map[], [], bad);
  }

  /** Without direct requirements nothing is selected. */
  lemma ResolveNothing(repo: Repo, fuel: nat)
    ensures Resolve([], repo, fuel) == Ok(([], map[]))
  {
    assert SortedItems<string>([]) == [];
    assert Distinct([]) == [];
  }
}
