/**
 * `LocalSkillManager._reconcile` (local_skills.py:924-1023) and the two
 * entry points that call it, `install` and `uninstall` (738-751).
 *
 * A run cleans the direct requirements, drops direct skills that cannot
 * be resolved (with a warning each) until the rest resolves, brings
 * every resolved skill's directory to the selected version, removes the
 * skills the old lock file lists that are no longer resolved, and
 * reports what it did together with the manifest and lock contents it
 * saves. The file system is the abstract one of `Files`; the archive
 * download, the temporary directories' names and install-step failures
 * come from an `Env`.
 */
module Reconcile {
  import opened Wrappers
  import opened Errors
  import opened Refs
  import Json
  import opened Versions
  import opened Specifiers
  import opened Releases
  import opened Candidates
  import opened Sorting
  import opened Dicts
  import opened Resolver
  import opened Files

  /** A `{key: requirement}` dictionary in insertion order. */
  type Direct = seq<(string, string)>

  /**
   * The lock file's `skills` table as the reconciler reads it: each key
   * with the `version` string its item records, or `None` when the item
   * is not an object or has no string `version`.
   */
  type Lock = seq<(string, Option<string>)>

  datatype Warning =
    | SkippedMissing(key: string)
    | SkippedUnresolved(key: string, reason: Error)
    | SkippedNoUrl(key: string, version: string)

  /** What the reconciler did for one resolved skill. */
  datatype Action = Unchanged | InstallNew | Update | SkipNoUrl(key: string, version: string)

  /**
   * What the run cannot see: the archive `download_archive` returns for a
   * release (as its entries), the name `TemporaryDirectory` picks for a
   * skill's install, and which guarded install step fails, if any.
   */
  datatype Env = Env(download: Release -> Result<seq<Entry>, Error>, tmpName: string -> string, fault: string -> Fault)

  /**
   * The `ReconcileResult` (its `unchanged` is `upToDate` here), with the `direct` table `_save_manifest` writes
   * and the releases `_save_lock` writes, both in key order.
   */
  datatype Report = Report(
    installed: seq<string>,
    updated: seq<string>,
    removed: seq<string>,
    upToDate: seq<string>,
    warnings: seq<Warning>,
    manifest: Direct,
    lock: Selection)

  // ---------------------------------------------------------------------
  // Cleaning the direct requirements
  // ---------------------------------------------------------------------

  /** A key that parses and is its own canonical `namespace/slug` form. */
  predicate CanonicalKey(k: string) {
    ParseSkillRef(k).Ok? && ParseSkillRef(k).value.Key() == k
  }

  predicate AllCanonical(d: Direct) {
    forall e | e in d :: CanonicalKey(e.0)
  }

  /**
   * The `cleaned_direct` loop: every key is parsed (a bad one raises) and
   * its normalized requirement stored under the canonical key; a later
   * key with the same canonical form overwrites an earlier one.
   */
  function CleanDirect(direct: Direct, acc: Direct): (r: Result<Direct, Error>)
    ensures r.Ok? <==> forall i | 0 <= i < |direct| :: ParseSkillRef(direct[i].0).Ok?
    ensures r.Err? ==> r.error.InvalidRef?
    decreases |direct|
  {
    if |direct| == 0 then Ok(acc)
    else
      match ParseSkillRef(direct[0].0)
      case Err(e) => Err(e)
      case Ok(ref) =>
        var r := CleanDirect(direct[1..], Put(acc, ref.Key(), NormalizeRequirement(Some(direct[0].1))));
        AllCons((x: (string, string)) => ParseSkillRef(x.0).Ok?, direct);
        r
  }

  /** The cleaned requirements have canonical keys. */
  lemma {:induction false} CleanDirectCanonical(direct: Direct, acc: Direct)
    requires CleanDirect(direct, acc).Ok? && AllCanonical(acc)
    ensures AllCanonical(CleanDirect(direct, acc).value)
    decreases |direct|
  {
    if |direct| > 0 {
      var k := ParseSkillRef(direct[0].0).value.Key();
      var acc' := Put(acc, k, NormalizeRequirement(Some(direct[0].1)));
      assert CleanDirect(direct[1..], acc') == CleanDirect(direct, acc);
      ParseCanonical(direct[0].0);
      CleanDirectCanonical(direct[1..], acc');
    }
  }

  /** The cleaned requirements have distinct keys. */
  lemma {:induction false} CleanDirectDistinct(direct: Direct, acc: Direct)
    requires CleanDirect(direct, acc).Ok? && DistinctKeys(acc)
    ensures DistinctKeys(CleanDirect(direct, acc).value)
    decreases |direct|
  {
    if |direct| > 0 {
      var k := ParseSkillRef(direct[0].0).value.Key();
      var acc' := Put(acc, k, NormalizeRequirement(Some(direct[0].1)));
      assert CleanDirect(direct[1..], acc') == CleanDirect(direct, acc);
      PutDistinct(acc, k, NormalizeRequirement(Some(direct[0].1)));
      CleanDirectDistinct(direct[1..], acc');
    }
  }

  /** Every input key is present in its canonical form, and every key already collected stays. */
  lemma {:induction false} CleanDirectCovers(direct: Direct, acc: Direct)
    requires CleanDirect(direct, acc).Ok?
    ensures forall i | 0 <= i < |direct| :: HasKey(CleanDirect(direct, acc).value, ParseSkillRef(direct[i].0).value.Key())
    ensures forall k | HasKey(acc, k) :: HasKey(CleanDirect(direct, acc).value, k)
    decreases |direct|
  {
    if |direct| > 0 {
      var k := ParseSkillRef(direct[0].0).value.Key();
      var acc' := Put(acc, k, NormalizeRequirement(Some(direct[0].1)));
      var r := CleanDirect(direct, acc).value;
      assert CleanDirect(direct[1..], acc') == CleanDirect(direct, acc);
      PutKeys(acc, k, NormalizeRequirement(Some(direct[0].1)));
      CleanDirectCovers(direct[1..], acc');
      forall i | 0 <= i < |direct| ensures HasKey(r, ParseSkillRef(direct[i].0).value.Key()) {
        if i == 0 {
          assert HasKey(acc', k);
        } else {
          assert direct[i] == direct[1..][i - 1];
        }
      }
    }
  }

  /** `Put` binds its key and keeps every other key. */
  lemma PutKeys<V>(d: seq<(string, V)>, k: string, v: V)
    ensures HasKey(Put(d, k, v), k)
    ensures forall j | HasKey(d, j) :: HasKey(Put(d, k, v), j)
  {
    var r := Put(d, k, v);
    EntryKey(r, (k, v));
    forall j | HasKey(d, j) ensures HasKey(r, j) {
      var i :| 0 <= i < |d| && d[i].0 == j;
      if j != k {
        EntryKey(r, d[i]);
      }
    }
  }

  lemma EntryKey<V>(d: seq<(string, V)>, e: (string, V))
    requires e in d
    ensures HasKey(d, e.0)
  {
    var i :| 0 <= i < |d| && d[i] == e;
  }

  /** A key missing from a dictionary is missing from every dictionary made of its entries. */
  lemma {:induction false} KeyAbsentBelow<V>(a: seq<(string, V)>, b: seq<(string, V)>, k: string)
    requires forall x | x in a :: x in b
    requires !HasKey(b, k)
    ensures !HasKey(a, k)
  {
    if HasKey(a, k) {
      var i :| 0 <= i < |a| && a[i].0 == k;
      EntryKey(b, a[i]);
    }
  }

  // ---------------------------------------------------------------------
  // Settling the effective direct requirements
  // ---------------------------------------------------------------------

  /**
   * `resolve_dependency_graph` with the repository and the recursion
   * limit fixed; `Run` passes `Resolver.Resolve`.
   */
  type Resolution = Direct -> Result<(Selection, Constraints), Error>

  /** A direct skill whose resolution on its own failed because a release is unavailable. */
  datatype Failure = Failure(key: string, requirement: string, reason: Error)

  /**
   * `_find_unresolvable_direct_skills` over `items` (the sorted items):
   * each item is resolved on its own; a failure that says a release is
   * unavailable is recorded, any other failure is raised.
   */
  function FindUnresolvable(items: Direct, resolve: Resolution): (r: Result<seq<Failure>, Error>)
    ensures r.Ok? ==> forall f | f in r.value ::
      (f.key, f.requirement) in items && resolve([(f.key, f.requirement)]) == Err(f.reason)
      && IsReleaseUnavailable(f.reason)
    ensures r.Ok? ==> forall e | e in items && resolve([e]).Err? ::
      Failure(e.0, e.1, resolve([e]).error) in r.value
    ensures r.Err? ==> (!IsReleaseUnavailable(r.error)
      && exists e | e in items :: resolve([e]) == Err(r.error))
    decreases |items|
  {
    if |items| == 0 then Ok([])
    else
      var e := items[0];
      assert items == [e] + items[1..];
      var rest := FindUnresolvable(items[1..], resolve);
      match resolve([e])
      case Ok(_) => rest
      case Err(err) =>
        if IsSkilldockError(err) && IsReleaseUnavailable(err) then
          (match rest
           case Err(x) => Err(x)
           case Ok(fs) => Ok([Failure(e.0, e.1, err)] + fs))
        else Err(err)
  }

  /** The keys of the failures. */
  function FailedKeys(fails: seq<Failure>): (r: set<string>)
    ensures forall f | f in fails :: f.key in r
  {
    set f | f in fails :: f.key
  }

  /** `Skipping unresolved direct skill` for each failure, in order. */
  function UnresolvedWarnings(fails: seq<Failure>): (r: seq<Warning>)
    ensures |r| == |fails| && forall i | 0 <= i < |fails| :: r[i] == SkippedUnresolved(fails[i].key, fails[i].reason)
  {
    seq(|fails|, i requires 0 <= i < |fails| => SkippedUnresolved(fails[i].key, fails[i].reason))
  }

  /** The warnings' keys. */
  function WarnedKeys(ws: seq<Warning>): set<string> {
    set w | w in ws :: w.key
  }

  /**
   * One pass of the settling loop drops something: `next` is a strict
   * part of `eff`, every dropped entry's key is warned about, and every
   * warned key was in `eff` and is gone from `next`.
   */
  predicate Dropped(eff: Direct, next: Direct, ws: seq<Warning>) {
    && |next| < |eff|
    && (forall x | x in next :: x in eff)
    && ws != []
    && (forall x | x in eff && x !in next :: x.0 in WarnedKeys(ws))
    && (forall k | k in WarnedKeys(ws) :: HasKey(eff, k) && !HasKey(next, k))
  }

  /** Dropping the skill a failure names. */
  lemma DropMissing(eff: Direct, k: string)
    requires HasKey(eff, k)
    ensures Dropped(eff, Remove(eff, k), [SkippedMissing(k)])
  {
    var i :| 0 <= i < |eff| && eff[i].0 == k;
    FilterShrinks((x: (string, string)) => x.0 != k, eff, eff[i]);
    RemoveFacts(eff, k);
    assert WarnedKeys([SkippedMissing(k)]) == {k};
  }

  /** Dropping the skills that do not resolve on their own. */
  lemma DropUnresolved(eff: Direct, fails: seq<Failure>)
    requires fails != [] && forall f | f in fails :: (f.key, f.requirement) in eff
    ensures Dropped(eff, Without(eff, FailedKeys(fails)), UnresolvedWarnings(fails))
  {
    var keys := FailedKeys(fails);
    var ws := UnresolvedWarnings(fails);
    var f := fails[0];
    WithoutFacts(eff, keys);
    FilterShrinks((x: (string, string)) => x.0 !in keys, eff, (f.key, f.requirement));
    assert WarnedKeys(ws) == keys by {
      forall k | k in keys ensures k in WarnedKeys(ws) {
        var g :| g in fails && g.key == k;
        var j :| 0 <= j < |fails| && fails[j] == g;
        assert ws[j].key == k;
      }
    }
    forall k | k in keys ensures HasKey(eff, k) {
      var g :| g in fails && g.key == k;
      EntryKey(eff, (g.key, g.requirement));
    }
  }

  /**
   * The `except SkilldockError` handler of the settling loop after a
   * failed resolution of `eff`: the next effective requirements and the
   * warnings to add, or the error to re-raise. A failure that is not a
   * `SkilldockError` is not caught.
   */
  function Retry(eff: Direct, e: Error, resolve: Resolution): (r: Result<(Direct, seq<Warning>), Error>)
    ensures r.Ok? ==> Dropped(eff, r.value.0, r.value.1)
    ensures r.Ok? && DistinctKeys(eff) ==> DistinctKeys(r.value.0)
    ensures r.Err? ==> r.error == e || exists x | x in eff :: resolve([x]) == Err(r.error)
    ensures !IsSkilldockError(e) ==> r == Err(e)
  {
    if !IsSkilldockError(e) then Err(e)
    else
      var missing := AttributedKey(e);
      if missing.Some? && HasKey(eff, missing.value) then
        DropMissing(eff, missing.value);
        FilterDistinctIf((x: (string, string)) => x.0 != missing.value, eff);
        Ok((Remove(eff, missing.value), [SkippedMissing(missing.value)]))
      else
        match FindUnresolvable(SortedItems(eff), resolve)
        case Err(x) =>
          var w :| w in SortedItems(eff) && resolve([w]) == Err(x);
          SortedItemsMembers(eff, w);
          Err(x)
        case Ok(fails) =>
          if |fails| == 0 then Err(e)
          else
            forall f | f in fails ensures (f.key, f.requirement) in eff {
              SortedItemsMembers(eff, (f.key, f.requirement));
            }
            DropUnresolved(eff, fails);
            FilterDistinctIf((x: (string, string)) => x.0 !in FailedKeys(fails), eff);
            Ok((Without(eff, FailedKeys(fails)), UnresolvedWarnings(fails)))
  }

  lemma FilterDistinctIf(p: ((string, string)) -> bool, d: Direct)
    ensures DistinctKeys(d) ==> DistinctKeys(Filter(p, d))
  {
    if DistinctKeys(d) {
      FilterDistinct(p, d);
    }
  }

  /** The entries whose key is not in `keys`. */
  function Without(d: Direct, keys: set<string>): Direct {
    Filter((x: (string, string)) => x.0 !in keys, d)
  }

  lemma WithoutFacts(d: Direct, keys: set<string>)
    ensures forall x | x in Without(d, keys) :: x in d && x.0 !in keys
    ensures forall x | x in d && x.0 !in keys :: x in Without(d, keys)
    ensures forall k | k in keys :: !HasKey(Without(d, keys), k)
  {
    var p := (x: (string, string)) => x.0 !in keys;
    forall x | x in Without(d, keys) ensures x in d && x.0 !in keys {
      FilterMembers(p, d, x);
    }
    forall x | x in d && x.0 !in keys ensures x in Without(d, keys) {
      FilterMembers(p, d, x);
    }
  }

  lemma RemoveFacts(d: Direct, k: string)
    ensures forall x | x in Remove(d, k) :: x in d && x.0 != k
    ensures forall x | x in d && x.0 != k :: x in Remove(d, k)
  {
    var p := (e: (string, string)) => e.0 != k;
    forall x | x in Remove(d, k) ensures x in d && x.0 != k {
      FilterMembers(p, d, x);
    }
    forall x | x in d && x.0 != k ensures x in Remove(d, k) {
      FilterMembers(p, d, x);
    }
  }

  /** `resolve_dependency_graph` against `repo`, with recursion limit `fuel`. */
  function ResolveWith(repo: Repo, fuel: nat): Resolution {
    (d: Direct) => Resolve(d, repo, fuel)
  }

  /** Where the settling loop ends: the effective requirements, what they resolve to, and the warnings. */
  datatype Settled = Settled(effective: Direct, resolved: Selection, warnings: seq<Warning>)

  /** The settled requirements resolve to the selection, or are empty and select nothing. */
  predicate ResolvesTo(s: Settled, resolve: Resolution) {
    if s.effective == [] then s.resolved == []
    else resolve(s.effective).Ok? && s.resolved == resolve(s.effective).value.0
  }

  /**
   * The `while True` loop of `_reconcile`: resolve the effective
   * requirements; on a failure, drop the skills `Retry` blames and try
   * again.
   */
  function Settle(eff: Direct, resolve: Resolution): (r: Result<Settled, Error>)
    ensures r.Ok? ==> ResolvesTo(r.value, resolve)
    ensures r.Ok? ==> forall x | x in r.value.effective :: x in eff
    ensures r.Ok? && DistinctKeys(eff) ==> DistinctKeys(r.value.effective)
    ensures r.Ok? ==> forall x | x in eff && x !in r.value.effective :: x.0 in WarnedKeys(r.value.warnings)
    ensures r.Ok? ==> forall k | k in WarnedKeys(r.value.warnings) :: HasKey(eff, k) && !HasKey(r.value.effective, k)
    ensures r.Err? ==> exists d :: resolve(d) == Err(r.error)
    ensures |eff| > 0 && resolve(eff).Err? && !IsSkilldockError(resolve(eff).error) ==> r == Err(resolve(eff).error)
    decreases |eff|
  {
    if |eff| == 0 then Ok(Settled([], [], []))
    else
      match resolve(eff)
      case Ok(res) => Ok(Settled(eff, res.0, []))
      case Err(e) =>
        match Retry(eff, e, resolve)
        case Err(x) =>
          assert resolve(eff) == Err(e);
          Err(x)
        case Ok(next) =>
          match Settle(next.0, resolve)
          case Err(x) => Err(x)
          case Ok(s) =>
            var ws := next.1 + s.warnings;
            assert WarnedKeys(ws) == WarnedKeys(next.1) + WarnedKeys(s.warnings);
            forall k | k in WarnedKeys(s.warnings) ensures HasKey(eff, k) {
              var i :| 0 <= i < |next.0| && next.0[i].0 == k;
              EntryKey(eff, next.0[i]);
            }
            forall k | k in WarnedKeys(next.1) ensures !HasKey(s.effective, k) {
              KeyAbsentBelow(s.effective, next.0, k);
            }
            Ok(Settled(s.effective, s.resolved, ws))
  }

  // ---------------------------------------------------------------------
  // One resolved skill
  // ---------------------------------------------------------------------

  /** The metadata file's version: `None` when there is no such file or it does not parse as the metadata object. */
  function MetaVersion(fs: FS, dir: Path): (r: Option<string>)
    ensures r.Some? ==> dir + [MetaName] in fs
  {
    var p := dir + [MetaName];
    if p in fs && fs[p].File? && fs[p].content.InstallMeta? then Json.NonBlank(fs[p].content.version) else None
  }

  /** The installed version the reconciler believes in: the metadata file's, else the lock's; blank counts as none. */
  function CurrentVersion(fs: FS, dir: Path, locked: Option<string>): (r: Option<string>)
    ensures r.Some? ==> r.value != [] && (r == MetaVersion(fs, dir) || (locked.Some? && r == Json.NonBlank(locked.value)))
    ensures MetaVersion(fs, dir).Some? ==> r == MetaVersion(fs, dir)
  {
    match MetaVersion(fs, dir)
    case Some(v) => Some(v)
    case None => if locked.Some? then Json.NonBlank(locked.value) else None
  }

  /** The lock's version for `key`. */
  function Locked(lock: Lock, key: string): Option<string> {
    match Get(lock, key)
    case Some(v) => v
    case None => None
  }

  /** The skill needs nothing: its directory exists and the believed version compares equal to the selected one. */
  predicate UpToDate(fs: FS, skills: Path, rel: Release, locked: Option<string>) {
    var dir := SkillDir(skills, rel.ref);
    var cur := CurrentVersion(fs, dir, locked);
    Exists(fs, dir) && cur.Some? && CompareVersions(cur.value, rel.version) == 0
  }

  /**
   * One iteration of the loop over the resolved skills: nothing when it
   * is up to date; otherwise download and install, or skip a release
   * without a download URL. Whether the skill counts as updated or newly
   * installed is decided before the install.
   */
  function ReconcileKey(fs: FS, skills: Path, key: string, rel: Release, locked: Option<string>, env: Env)
    : (r: (FS, Result<Action, Error>))
    ensures r.1 == Ok(Unchanged) <==> UpToDate(fs, skills, rel, locked)
    ensures r.1 == Ok(Unchanged) ==> r.0 == fs
    ensures r.1.Ok? && r.1.value.SkipNoUrl? ==> (r.0 == fs && env.download(rel).Err?
      && ParseMissingUrl(env.download(rel).error) == Some((r.1.value.key, r.1.value.version)))
    ensures r.1.Ok? && (r.1.value.InstallNew? || r.1.value.Update?) ==> (env.download(rel).Ok?
      && (r.1.value.Update? <==> Exists(fs, SkillDir(skills, rel.ref)) || CurrentVersion(fs, SkillDir(skills, rel.ref), locked).Some?))
    ensures r.1.Err? && env.download(rel).Err? ==> r.0 == fs && ParseMissingUrl(r.1.error).None?
  {
    if UpToDate(fs, skills, rel, locked) then (fs, Ok(Unchanged))
    else
      var dir := SkillDir(skills, rel.ref);
      match env.download(rel)
      case Err(e) =>
        (match ParseMissingUrl(e)
         case Some(kv) => (fs, Ok(SkipNoUrl(kv.0, kv.1)))
         case None => (fs, Err(e)))
      case Ok(entries) =>
        var existed := Exists(fs, dir) || CurrentVersion(fs, dir, locked).Some?;
        var inst := InstallArchive(fs, skills, rel.ref, rel.version, rel.sha256, entries, env.tmpName(key), env.fault(key));
        match inst.1
        case Some(e) => (inst.0, Err(e))
        case None => (inst.0, Ok(if existed then Update else InstallNew))
  }

  /** The loop over `sorted(resolved)`: one action per key, in order; the first error stops it. */
  function InstallAll(fs: FS, skills: Path, items: Selection, lock: Lock, env: Env)
    : (r: (FS, Result<seq<(string, Action)>, Error>))
    ensures r.1.Ok? ==> Keys(r.1.value) == Keys(items)
    decreases |items|
  {
    if |items| == 0 then (fs, Ok([]))
    else
      var key := items[0].0;
      var step := ReconcileKey(fs, skills, key, items[0].1, Locked(lock, key), env);
      match step.1
      case Err(e) => (step.0, Err(e))
      case Ok(a) =>
        var rest := InstallAll(step.0, skills, items[1..], lock, env);
        match rest.1
        case Err(e) => (rest.0, Err(e))
        case Ok(acts) =>
          KeysCons((key, a), acts, items);
          (rest.0, Ok([(key, a)] + acts))
  }

  /** The keys whose action is `a`, in order. */
  function KeysWith(acts: seq<(string, Action)>, a: Action): seq<string> {
    Keys(Filter((x: (string, Action)) => x.1 == a, acts))
  }

  /** `Skipping release without download URL` for each skipped key, in order. */
  function NoUrlWarnings(acts: seq<(string, Action)>): (r: seq<Warning>)
    ensures forall w | w in r :: w.SkippedNoUrl?
    decreases |acts|
  {
    if |acts| == 0 then []
    else
      var w := if acts[0].1.SkipNoUrl? then [SkippedNoUrl(acts[0].1.key, acts[0].1.version)] else [];
      w + NoUrlWarnings(acts[1..])
  }

  // ---------------------------------------------------------------------
  // Removing stale skills
  // ---------------------------------------------------------------------

  /**
   * The loop over the sorted lock keys: every key that is not resolved is
   * parsed (a bad one raises) and its skill removed.
   */
  function RemoveStale(fs: FS, skills: Path, keys: seq<string>, resolved: Selection): (r: (FS, Result<seq<string>, Error>))
    ensures forall q | q in r.0 :: q in fs && r.0[q] == fs[q]
    ensures r.1.Ok? ==> r.1.value == Filter((k: string) => !HasKey(resolved, k), keys)
    ensures r.1.Ok? ==> forall i | 0 <= i < |keys| && !HasKey(resolved, keys[i]) ::
      ParseSkillRef(keys[i]).Ok? && Cleared(r.0, SkillDir(skills, ParseSkillRef(keys[i]).value))
    ensures r.1.Err? ==> r.1.error.InvalidRef?
    decreases |keys|
  {
    if |keys| == 0 then (fs, Ok([]))
    else if HasKey(resolved, keys[0]) then
      var rest := RemoveStale(fs, skills, keys[1..], resolved);
      StaleShift(keys, resolved, rest.1);
      rest
    else
      match ParseSkillRef(keys[0])
      case Err(e) => (fs, Err(e))
      case Ok(ref) =>
        var fs1 := RemoveSkill(fs, skills, ref);
        var rest := RemoveStale(fs1, skills, keys[1..], resolved);
        match rest.1
        case Err(e) => (rest.0, Err(e))
        case Ok(removed) =>
          StaleShift(keys, resolved, rest.1);
          ClearedStays(fs1, rest.0, SkillDir(skills, ref));
          (rest.0, Ok([keys[0]] + removed))
  }

  /** The quantifier over `keys` restricted to its tail. */
  lemma StaleShift(keys: seq<string>, resolved: Selection, rest: Result<seq<string>, Error>)
    requires |keys| > 0
    ensures forall i | 1 <= i < |keys| :: keys[i] == keys[1..][i - 1]
  {
  }

  /** Removing entries never brings back a path, nor anything below a plain file. */
  lemma ClearedStays(a: FS, b: FS, p: Path)
    requires forall q | q in b :: q in a && b[q] == a[q]
    requires Cleared(a, p)
    ensures Cleared(b, p)
  {
    if Exists(b, p) {
      var q :| q in b && p <= q;
      assert PlainFile(a, p);
      assert q == p;
    }
  }

  // ---------------------------------------------------------------------
  // The whole run
  // ---------------------------------------------------------------------

  /**
   * `_reconcile`: the file system afterwards and the report, or the error
   * that stopped the run (with the changes made up to that point).
   */
  function Run(fs: FS, skills: Path, direct: Direct, lock: Lock, repo: Repo, fuel: nat, env: Env)
    : (r: (FS, Result<Report, Error>))
  {
    match EnsureSkillsDir(fs, skills)
    case Err(e) => (fs, Err(e))
    case Ok(fs1) =>
      match CleanDirect(direct, [])
      case Err(e) => (fs1, Err(e))
      case Ok(cleaned) =>
        match Settle(cleaned, ResolveWith(repo, fuel))
        case Err(e) => (fs1, Err(e))
        case Ok(st) =>
          var inst := InstallAll(fs1, skills, SortedItems(st.resolved), lock, env);
          match inst.1
          case Err(e) => (inst.0, Err(e))
          case Ok(acts) =>
            var rem := RemoveStale(inst.0, skills, Keys(SortedItems(lock)), st.resolved);
            match rem.1
            case Err(e) => (rem.0, Err(e))
            case Ok(removed) =>
              (rem.0, Ok(Report(
                KeysWith(acts, InstallNew),
                KeysWith(acts, Update),
                removed,
                KeysWith(acts, Unchanged),
                st.warnings + NoUrlWarnings(acts),
                SortedItems(st.effective),
                SortedItems(st.resolved))))
  }

  // ---------------------------------------------------------------------
  // install / uninstall
  // ---------------------------------------------------------------------

  /**
   * The direct requirements `install` reconciles: the manifest's, with
   * the skill's canonical key bound to its normalized requirement.
   */
  function InstallRequest(manifest: Direct, skill: string, requirement: Option<string>): (r: Result<Direct, Error>)
    ensures r.Ok? ==> (SplitInstallSkill(skill, requirement).Ok?
      && var ref := ParseSkillRef(SplitInstallSkill(skill, requirement).value.0);
      ref.Ok? && Get(r.value, ref.value.Key()) == Some(NormalizeRequirement(SplitInstallSkill(skill, requirement).value.1)))
    ensures r.Ok? ==> forall e | e in manifest && e.0 != ParseSkillRef(SplitInstallSkill(skill, requirement).value.0).value.Key() :: e in r.value
    ensures r.Err? ==> r.error.InvalidRef? || r.error.BothVersionForms?
  {
    var split :- SplitInstallSkill(skill, requirement);
    var ref :- ParseSkillRef(split.0);
    var d := Put(manifest, ref.Key(), NormalizeRequirement(split.1));
    PutGet(manifest, ref.Key(), NormalizeRequirement(split.1));
    Ok(d)
  }

  /** `Put` binds its key to exactly the given value. */
  lemma {:induction false} PutGet<V>(d: seq<(string, V)>, k: string, v: V)
    ensures Get(Put(d, k, v), k) == Some(v)
    decreases |d|
  {
    if |d| > 0 && d[0].0 != k {
      var rest := Put(d[1..], k, v);
      PutGet(d[1..], k, v);
      assert ([d[0]] + rest)[1..] == rest;
    }
  }

  /** The direct requirements `uninstall` reconciles: the manifest's without the skill's canonical key. */
  function UninstallRequest(manifest: Direct, skill: string): (r: Result<Direct, Error>)
    ensures r.Ok? ==> ParseSkillRef(skill).Ok? && !HasKey(r.value, ParseSkillRef(skill).value.Key())
    ensures r.Ok? ==> forall e | e in manifest && e.0 != ParseSkillRef(skill).value.Key() :: e in r.value
    ensures r.Err? ==> ParseSkillRef(skill).Err?
  {
    var ref :- ParseSkillRef(skill);
    RemoveFacts(manifest, ref.Key());
    Ok(Remove(manifest, ref.Key()))
  }
}
