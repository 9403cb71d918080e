/**
 * What a reconcile run promises: the per-skill decision is idempotent,
 * failures leave a skill's directory as it was, the report partitions
 * the resolved keys, and the removed keys are exactly the stale ones.
 */
module ReconcileFacts {
  import opened Wrappers
  import opened Errors
  import opened Refs
  import opened Versions
  import opened Releases
  import opened Candidates
  import opened Sorting
  import opened Dicts
  import opened Resolver
  import opened ResolverSoundness
  import opened Files
  import opened InstallFacts
  import opened Reconcile

  // ---------------------------------------------------------------------
  // One skill
  // ---------------------------------------------------------------------

  /** A skill that was installed or updated holds SKILL.md and the metadata of the selected release. */
  lemma KeyInstalls(fs: FS, skills: Path, key: string, rel: Release, locked: Option<string>, env: Env)
    requires FreshTmp(fs, skills, rel.ref, env.tmpName(key))
    requires var r := ReconcileKey(fs, skills, key, rel, locked, env).1; r.Ok? && (r.value.InstallNew? || r.value.Update?)
    ensures Installed(Subtree(ReconcileKey(fs, skills, key, rel, locked, env).0, SkillDir(skills, rel.ref)),
                      MetaOf(rel.ref, rel.version, rel.sha256))
  {
    var entries := env.download(rel).value;
    InstallSuccess(fs, skills, rel.ref, rel.version, rel.sha256, entries, env.tmpName(key), env.fault(key));
  }

  /** A skill directory holding the metadata of a release with a clean version is up to date for that release. */
  lemma InstalledUpToDate(fs: FS, skills: Path, rel: Release, locked: Option<string>)
    requires Installed(Subtree(fs, SkillDir(skills, rel.ref)), MetaOf(rel.ref, rel.version, rel.sha256))
    requires Clean(Some(rel.version))
    ensures UpToDate(fs, skills, rel, locked)
  {
    var dir := SkillDir(skills, rel.ref);
    assert [MetaName] in Subtree(fs, dir);
    assert dir + [MetaName] in fs && fs[dir + [MetaName]] == File(MetaOf(rel.ref, rel.version, rel.sha256));
    CleanNonBlank(Some(rel.version));
    assert MetaVersion(fs, dir) == Some(rel.version);
    CompareVersionsReflexive(rel.version);
    assert dir <= dir + [MetaName];
  }

  /**
   * Reconciling a skill a second time, after it was installed or updated,
   * finds it unchanged and touches nothing, whatever the lock says and
   * whatever the environment would do. Releases parsed from the API have
   * clean versions.
   */
  lemma KeyIdempotent(fs: FS, skills: Path, key: string, rel: Release, locked: Option<string>, env: Env,
                      locked2: Option<string>, env2: Env)
    requires FreshTmp(fs, skills, rel.ref, env.tmpName(key))
    requires Clean(Some(rel.version))
    requires var r := ReconcileKey(fs, skills, key, rel, locked, env).1; r.Ok? && (r.value.InstallNew? || r.value.Update?)
    ensures var fs2 := ReconcileKey(fs, skills, key, rel, locked, env).0;
      ReconcileKey(fs2, skills, key, rel, locked2, env2) == (fs2, Ok(Unchanged))
  {
    var fs2 := ReconcileKey(fs, skills, key, rel, locked, env).0;
    KeyInstalls(fs, skills, key, rel, locked, env);
    InstalledUpToDate(fs2, skills, rel, locked2);
  }

  /**
   * A skill that ends up unchanged, skipped or failed keeps its
   * directory's contents exactly.
   */
  lemma KeyFailureKeepsDir(fs: FS, skills: Path, key: string, rel: Release, locked: Option<string>, env: Env)
    requires FreshTmp(fs, skills, rel.ref, env.tmpName(key))
    requires var r := ReconcileKey(fs, skills, key, rel, locked, env).1;
      r.Err? || r.value.Unchanged? || r.value.SkipNoUrl?
    ensures Subtree(ReconcileKey(fs, skills, key, rel, locked, env).0, SkillDir(skills, rel.ref))
         == Subtree(fs, SkillDir(skills, rel.ref))
  {
    if !UpToDate(fs, skills, rel, locked) && env.download(rel).Ok? {
      var entries := env.download(rel).value;
      InstallFailureKeepsDest(fs, skills, rel.ref, rel.version, rel.sha256, entries, env.tmpName(key), env.fault(key));
    }
  }

  /** An up-to-date first key is reported unchanged and the loop carries on with the same tree. */
  lemma UnchangedStep(fs: FS, skills: Path, items: Selection, lock: Lock, env: Env)
    requires |items| > 0 && ReconcileKey(fs, skills, items[0].0, items[0].1, Locked(lock, items[0].0), env).1 == Ok(Unchanged)
    ensures var rest := InstallAll(fs, skills, items[1..], lock, env);
      InstallAll(fs, skills, items, lock, env)
        == (rest.0, if rest.1.Ok? then Ok([(items[0].0, Unchanged)] + rest.1.value) else rest.1)
  {
  }

  /** When every resolved skill is up to date, the loop reports each unchanged and touches nothing. */
  lemma {:induction false} RerunUnchanged(fs: FS, skills: Path, items: Selection, lock: Lock, env: Env)
    requires forall i | 0 <= i < |items| :: UpToDate(fs, skills, items[i].1, Locked(lock, items[i].0))
    ensures InstallAll(fs, skills, items, lock, env).0 == fs
    ensures var r := InstallAll(fs, skills, items, lock, env).1;
      r.Ok? && forall i | 0 <= i < |r.value| :: r.value[i].1 == Unchanged
    decreases |items|
  {
    if |items| > 0 {
      var t := items[1..];
      forall i | 0 <= i < |t| ensures UpToDate(fs, skills, t[i].1, Locked(lock, t[i].0)) {
        assert t[i] == items[i + 1];
      }
      assert UpToDate(fs, skills, items[0].1, Locked(lock, items[0].0));
      assert ReconcileKey(fs, skills, items[0].0, items[0].1, Locked(lock, items[0].0), env).1 == Ok(Unchanged);
      RerunUnchanged(fs, skills, t, lock, env);
      UnchangedStep(fs, skills, items, lock, env);
      AllUnchangedCons(items[0].0, InstallAll(fs, skills, t, lock, env).1.value);
    }
  }

  lemma AllUnchangedCons(key: string, acts: seq<(string, Action)>)
    requires forall i | 0 <= i < |acts| :: acts[i].1 == Unchanged
    ensures var all := [(key, Unchanged)] + acts; forall i | 0 <= i < |all| :: all[i].1 == Unchanged
  {
    var all := [(key, Unchanged)] + acts;
    forall i | 0 <= i < |all| ensures all[i].1 == Unchanged {
      if i > 0 {
        assert all[i] == acts[i - 1];
      }
    }
  }

  // ---------------------------------------------------------------------
  // The report
  // ---------------------------------------------------------------------

  /** A key is listed for an action exactly when the loop recorded that action for it. */
  lemma KeysWithMember(acts: seq<(string, Action)>, a: Action, k: string)
    ensures k in KeysWith(acts, a) <==> (k, a) in acts
  {
    var p := (x: (string, Action)) => x.1 == a;
    var f := Filter(p, acts);
    KeysMember(f, k);
    if k in KeysWith(acts, a) {
      var i :| 0 <= i < |f| && f[i].0 == k;
      FilterMembers(p, acts, f[i]);
      assert f[i] == (k, a);
    }
    if (k, a) in acts {
      FilterMembers(p, acts, (k, a));
      var i :| 0 <= i < |f| && f[i] == (k, a);
      assert f[i].0 == k;
    }
  }

  /** With distinct keys, no key is listed for two different actions. */
  lemma KeysWithDisjoint(acts: seq<(string, Action)>, a: Action, b: Action, k: string)
    requires DistinctKeys(acts) && a != b
    ensures !(k in KeysWith(acts, a) && k in KeysWith(acts, b))
  {
    KeysWithMember(acts, a, k);
    KeysWithMember(acts, b, k);
  }

  /** Distinctness of keys depends on the keys alone. */
  lemma SameKeysDistinct<U, V>(a: seq<(string, U)>, b: seq<(string, V)>)
    requires Keys(a) == Keys(b) && DistinctKeys(b)
    ensures DistinctKeys(a)
  {
    forall i, j | 0 <= i < j < |a| ensures a[i].0 != a[j].0 {
      assert Keys(a)[i] == a[i].0 && Keys(a)[j] == a[j].0;
      assert Keys(b)[i] == b[i].0 && Keys(b)[j] == b[j].0;
    }
  }

  /** The intermediate values of a successful run. */
  datatype Trace = Trace(settled: Settled, acts: seq<(string, Action)>)

  /** A successful run's settled requirements and actions, with the report they make. */
  lemma TraceOf(fs: FS, skills: Path, direct: Direct, lock: Lock, repo: Repo, fuel: nat, env: Env)
    returns (run: Trace)
    requires Run(fs, skills, direct, lock, repo, fuel, env).1.Ok?
    ensures var rep := Run(fs, skills, direct, lock, repo, fuel, env).1.value;
      && CleanDirect(direct, []).Ok?
      && Settle(CleanDirect(direct, []).value, ResolveWith(repo, fuel)) == Ok(run.settled)
      && rep.lock == SortedItems(run.settled.resolved)
      && rep.manifest == SortedItems(run.settled.effective)
      && Keys(run.acts) == Keys(rep.lock)
      && rep.installed == KeysWith(run.acts, InstallNew)
      && rep.updated == KeysWith(run.acts, Update)
      && rep.upToDate == KeysWith(run.acts, Unchanged)
      && rep.warnings == run.settled.warnings + NoUrlWarnings(run.acts)
      && rep.removed == Filter((k: string) => !HasKey(run.settled.resolved, k), Keys(SortedItems(lock)))
  {
    var fs1 := EnsureSkillsDir(fs, skills).value;
    var cleaned := CleanDirect(direct, []).value;
    var st := Settle(cleaned, ResolveWith(repo, fuel)).value;
    var inst := InstallAll(fs1, skills, SortedItems(st.resolved), lock, env);
    run := Trace(st, inst.1.value);
  }

  /** The selection a settled run resolved has distinct keys, in key order as well. */
  lemma SettledDistinct(s: Settled, repo: Repo, fuel: nat)
    requires ResolvesTo(s, ResolveWith(repo, fuel))
    ensures DistinctKeys(SortedItems(s.resolved))
  {
    if s.effective != [] {
      ResolveSound(s.effective, repo, fuel);
    }
    SortedItemsDistinct(s.resolved);
  }

  /**
   * The installed, updated and unchanged keys of a successful run are
   * pairwise disjoint, and each is a key of the saved lock.
   */
  lemma ReportPartition(fs: FS, skills: Path, direct: Direct, lock: Lock, repo: Repo, fuel: nat, env: Env)
    requires Run(fs, skills, direct, lock, repo, fuel, env).1.Ok?
    ensures var rep := Run(fs, skills, direct, lock, repo, fuel, env).1.value;
      && (forall k | k in rep.installed :: k !in rep.updated && k !in rep.upToDate && HasKey(rep.lock, k))
      && (forall k | k in rep.updated :: k !in rep.upToDate && HasKey(rep.lock, k))
      && (forall k | k in rep.upToDate :: HasKey(rep.lock, k))
  {
    var rep := Run(fs, skills, direct, lock, repo, fuel, env).1.value;
    var run := TraceOf(fs, skills, direct, lock, repo, fuel, env);
    SettledDistinct(run.settled, repo, fuel);
    SameKeysDistinct(run.acts, rep.lock);
    forall k ensures k in rep.installed ==> k !in rep.updated && k !in rep.upToDate {
      KeysWithDisjoint(run.acts, InstallNew, Update, k);
      KeysWithDisjoint(run.acts, InstallNew, Unchanged, k);
    }
    forall k ensures k in rep.updated ==> k !in rep.upToDate {
      KeysWithDisjoint(run.acts, Update, Unchanged, k);
    }
    forall k, a | a in {InstallNew, Update, Unchanged} && k in KeysWith(run.acts, a) ensures HasKey(rep.lock, k) {
      KeysWithMember(run.acts, a, k);
      EntryKey(run.acts, (k, a));
      KeysMember(run.acts, k);
      KeysMember(rep.lock, k);
    }
  }

  /**
   * The removed keys of a successful run are exactly the keys of the old
   * lock, in sorted order, that the saved lock does not contain.
   */
  lemma ReportRemoved(fs: FS, skills: Path, direct: Direct, lock: Lock, repo: Repo, fuel: nat, env: Env)
    requires Run(fs, skills, direct, lock, repo, fuel, env).1.Ok?
    ensures var rep := Run(fs, skills, direct, lock, repo, fuel, env).1.value;
      rep.removed == Filter((k: string) => !HasKey(rep.lock, k), Keys(SortedItems(lock)))
  {
    var rep := Run(fs, skills, direct, lock, repo, fuel, env).1.value;
    var run := TraceOf(fs, skills, direct, lock, repo, fuel, env);
    var resolved := run.settled.resolved;
    forall k ensures HasKey(resolved, k) == HasKey(rep.lock, k) {
      KeysMember(resolved, k);
      KeysMember(rep.lock, k);
      SortedKeysSame(resolved, k);
    }
    FilterAgree((k: string) => !HasKey(resolved, k), (k: string) => !HasKey(rep.lock, k), Keys(SortedItems(lock)));
  }

  /** Sorting keeps the set of keys. */
  lemma SortedKeysSame<V(!new)>(d: seq<(string, V)>, k: string)
    ensures k in Keys(d) <==> k in Keys(SortedItems(d))
  {
    KeysMember(d, k);
    KeysMember(SortedItems(d), k);
    if HasKey(d, k) {
      var i :| 0 <= i < |d| && d[i].0 == k;
      SortedItemsMembers(d, d[i]);
      EntryKey(SortedItems(d), d[i]);
    }
    if HasKey(SortedItems(d), k) {
      var i :| 0 <= i < |SortedItems(d)| && SortedItems(d)[i].0 == k;
      SortedItemsMembers(d, SortedItems(d)[i]);
      EntryKey(d, SortedItems(d)[i]);
    }
  }

  /** Filters with predicates that agree on the input agree. */
  lemma {:induction false} FilterAgree<T>(p: T -> bool, q: T -> bool, xs: seq<T>)
    requires forall x | x in xs :: p(x) == q(x)
    ensures Filter(p, xs) == Filter(q, xs)
    decreases |xs|
  {
    if |xs| > 0 {
      FilterAgree(p, q, xs[1..]);
    }
  }

  /**
   * The saved manifest keeps only cleaned requirements, with distinct
   * canonical keys; a cleaned requirement is missing from it exactly when
   * a warning names its key.
   */
  lemma ReportManifest(fs: FS, skills: Path, direct: Direct, lock: Lock, repo: Repo, fuel: nat, env: Env)
    requires Run(fs, skills, direct, lock, repo, fuel, env).1.Ok?
    ensures var rep := Run(fs, skills, direct, lock, repo, fuel, env).1.value;
      var cleaned := CleanDirect(direct, []).value;
      && (forall x | x in rep.manifest :: x in cleaned && CanonicalKey(x.0))
      && DistinctKeys(rep.manifest)
      && (forall x | x in cleaned && x !in rep.manifest :: x.0 in WarnedKeys(rep.warnings))
  {
    var rep := Run(fs, skills, direct, lock, repo, fuel, env).1.value;
    var run := TraceOf(fs, skills, direct, lock, repo, fuel, env);
    CleanDirectCanonical(direct, []);
    CleanDirectDistinct(direct, []);
    SettledManifest(CleanDirect(direct, []).value, run.settled, ResolveWith(repo, fuel), rep.warnings);
  }

  /** The manifest facts, from what `Settle` promises. */
  lemma SettledManifest(cleaned: Direct, st: Settled, resolve: Resolution, warnings: seq<Warning>)
    requires Settle(cleaned, resolve) == Ok(st)
    requires AllCanonical(cleaned) && DistinctKeys(cleaned)
    requires forall w | w in st.warnings :: w in warnings
    ensures forall x | x in SortedItems(st.effective) :: x in cleaned && CanonicalKey(x.0)
    ensures DistinctKeys(SortedItems(st.effective))
    ensures forall x | x in cleaned && x !in SortedItems(st.effective) :: x.0 in WarnedKeys(warnings)
  {
    forall x | x in SortedItems(st.effective) ensures x in cleaned {
      SortedItemsMembers(st.effective, x);
    }
    forall x | x in cleaned && x !in SortedItems(st.effective) ensures x.0 in WarnedKeys(warnings) {
      SortedItemsMembers(st.effective, x);
      assert x.0 in WarnedKeys(st.warnings);
      var w :| w in st.warnings && w.key == x.0;
      assert w in warnings;
    }
    SortedItemsDistinct(st.effective);
  }
}
