/**
 * Candidate selection for one skill: `_version_satisfies_all`,
 * `_has_download_url`, `_hydrate_release_from_version_lookup` and
 * `_candidate_releases` (local_skills.py:294-376), over a release
 * repository given as two pure functions.
 */
module Candidates {
  import opened Wrappers
  import opened Strs
  import opened Errors
  import opened Refs
  import opened Versions
  import opened Specifiers
  import opened Releases
  import opened Sorting

  /** `Requirement`: a specifier and where it came from (`direct` or `<key>@<version>`). */
  datatype Requirement = Requirement(specifier: string, source: string)

  /**
   * `ReleaseRepository`: listing the releases of a skill (which fails,
   * for instance, with `NotFound` when the skill is not visible) and
   * looking up one version (`None` when the repository answers 404).
   */
  datatype Repo = Repo(
    list: SkillRef -> Result<seq<Release>, Error>,
    get: (SkillRef, string) -> Result<Option<Release>, Error>)

  /**
   * `_version_satisfies_all`: `all(...)` over the requirements in order,
   * which stops at the first one that does not hold; a requirement that
   * raises before that raises.
   */
  function SatisfiesAll(version: string, reqs: seq<Requirement>): (r: Result<bool, Error>)
    ensures r.Err? ==> r.error.InvalidRequirement?
    decreases |reqs|
  {
    if |reqs| == 0 then Ok(true)
    else
      var b :- VersionSatisfies(version, reqs[0].specifier);
      if !b then Ok(false) else SatisfiesAll(version, reqs[1..])
  }

  lemma SatisfiesAllCons(version: string, reqs: seq<Requirement>)
    requires |reqs| > 0
    ensures SatisfiesAll(version, reqs) == Ok(true)
      <==> VersionSatisfies(version, reqs[0].specifier) == Ok(true) && SatisfiesAll(version, reqs[1..]) == Ok(true)
  {
  }

  /** The single requirement `q` holds for `version`. */
  function Meets(version: string): Requirement -> bool {
    (q: Requirement) => VersionSatisfies(version, q.specifier) == Ok(true)
  }

  /** Every single requirement holds. */
  predicate EveryHolds(version: string, reqs: seq<Requirement>) {
    forall i | 0 <= i < |reqs| :: Meets(version)(reqs[i])
  }

  /** `SatisfiesAll` holds exactly when every single requirement holds. */
  lemma {:induction false} SatisfiesAllEvery(version: string, reqs: seq<Requirement>)
    ensures SatisfiesAll(version, reqs) == Ok(true) <==> EveryHolds(version, reqs)
    decreases |reqs|
  {
    if |reqs| > 0 {
      SatisfiesAllCons(version, reqs);
      SatisfiesAllEvery(version, reqs[1..]);
      AllCons(Meets(version), reqs);
    }
  }

  // ---------------------------------------------------------------------
  // Exact pins
  // ---------------------------------------------------------------------

  /** The exact version one requirement pins, if any; a bad specifier raises. */
  function RequirementPin(q: Requirement): Result<Option<string>, Error> {
    ExtractExactVersion(q.specifier)
  }

  /** The exact versions the requirements pin, in order; a bad specifier raises. */
  function ExactVersions(reqs: seq<Requirement>): (r: Result<seq<string>, Error>) {
    CollectPins(reqs, RequirementPin)
  }

  /** The loop collecting the pins of `xs` in order; the first raising pin stops it. */
  function CollectPins<T>(xs: seq<T>, pin: T -> Result<Option<string>, Error>): (r: Result<seq<string>, Error>)
    decreases |xs|
  {
    if |xs| == 0 then Ok([])
    else
      var p :- pin(xs[0]);
      var rest :- CollectPins(xs[1..], pin);
      Ok(PinList(p) + rest)
  }

  /** One pin as a list of zero or one versions. */
  function PinList(pin: Option<string>): (r: seq<string>)
    ensures forall v :: v in r <==> pin == Some(v)
  {
    if pin.Some? then [pin.value] else []
  }

  /** The versions pinned are exactly the exact versions of the single requirements. */
  lemma {:induction false} ExactVersionsMembers(reqs: seq<Requirement>, v: string)
    requires ExactVersions(reqs).Ok?
    ensures v in ExactVersions(reqs).value
      <==> exists i | 0 <= i < |reqs| :: ExtractExactVersion(reqs[i].specifier) == Ok(Some(v))
  {
    if v in ExactVersions(reqs).value {
      var i := ExactVersionsSound(reqs, v);
    }
    forall i | 0 <= i < |reqs| && ExtractExactVersion(reqs[i].specifier) == Ok(Some(v))
      ensures v in ExactVersions(reqs).value
    {
      ExactVersionsComplete(reqs, i, v);
    }
  }

  /** A pinned version comes from one of the requirements: the `i`th. */
  lemma ExactVersionsSound(reqs: seq<Requirement>, v: string) returns (i: nat)
    requires ExactVersions(reqs).Ok? && v in ExactVersions(reqs).value
    ensures i < |reqs| && ExtractExactVersion(reqs[i].specifier) == Ok(Some(v))
  {
    i := CollectedFrom(reqs, RequirementPin, v);
  }

  /** Every requirement's pinned version is collected. */
  lemma ExactVersionsComplete(reqs: seq<Requirement>, i: nat, v: string)
    requires ExactVersions(reqs).Ok? && i < |reqs| && ExtractExactVersion(reqs[i].specifier) == Ok(Some(v))
    ensures v in ExactVersions(reqs).value
  {
    CollectedAll(reqs, RequirementPin, i, v);
  }

  /** A collected version is the pin of some element: the `i`th. */
  lemma {:induction false} CollectedFrom<T>(xs: seq<T>, pin: T -> Result<Option<string>, Error>, v: string) returns (i: nat)
    requires CollectPins(xs, pin).Ok? && v in CollectPins(xs, pin).value
    ensures i < |xs| && pin(xs[i]) == Ok(Some(v))
    decreases |xs|
  {
    var t := xs[1..];
    assert CollectPins(xs, pin).value == PinList(pin(xs[0]).value) + CollectPins(t, pin).value;
    if v in PinList(pin(xs[0]).value) {
      i := 0;
    } else {
      var j := CollectedFrom(t, pin, v);
      assert xs[j + 1] == t[j];
      i := j + 1;
    }
  }

  /** The pin of every element is collected. */
  lemma {:induction false} CollectedAll<T>(xs: seq<T>, pin: T -> Result<Option<string>, Error>, i: nat, v: string)
    requires CollectPins(xs, pin).Ok? && i < |xs| && pin(xs[i]) == Ok(Some(v))
    ensures v in CollectPins(xs, pin).value
    decreases |xs|
  {
    var t := xs[1..];
    assert CollectPins(xs, pin).value == PinList(pin(xs[0]).value) + CollectPins(t, pin).value;
    if i > 0 {
      assert t[i - 1] == xs[i];
      CollectedAll(t, pin, i - 1, v);
    }
  }

  /** The distinct elements, in order of first occurrence (a Python set used only for its size and member). */
  function Distinct(xs: seq<string>): (r: seq<string>)
    ensures forall x :: x in r <==> x in xs
    ensures forall i, j | 0 <= i < j < |r| :: r[i] != r[j]
    decreases |xs|
  {
    if |xs| == 0 then []
    else
      var rest := Distinct(xs[..|xs| - 1]);
      assert forall x :: x in xs <==> x in xs[..|xs| - 1] || x == xs[|xs| - 1] by {
        assert xs == xs[..|xs| - 1] + [xs[|xs| - 1]];
      }
      if xs[|xs| - 1] in rest then rest else rest + [xs[|xs| - 1]]
  }

  // ---------------------------------------------------------------------
  // Hydration and candidate selection
  // ---------------------------------------------------------------------

  /**
   * `_hydrate_release_from_version_lookup`: a release without a download
   * URL is replaced by the per-version lookup when that names the same
   * skill and a version that compares equal.
   */
  function Hydrate(rel: Release, repo: Repo): (r: Result<Release, Error>)
    ensures HasDownloadUrl(rel) ==> r == Ok(rel)
    ensures r.Ok? ==> r.value == rel || (r.value.ref.Key() == rel.ref.Key() && CompareVersions(r.value.version, rel.version) == 0)
  {
    if HasDownloadUrl(rel) then Ok(rel)
    else
      var found :- repo.get(rel.ref, rel.version);
      match found
      case None => Ok(rel)
      case Some(h) =>
        if h.ref.Key() != rel.ref.Key() then Ok(rel)
        else if CompareVersions(h.version, rel.version) != 0 then Ok(rel)
        else Ok(h)
  }

  /** Hydrates every release in order; the first failing lookup raises. */
  function HydrateAll(rels: seq<Release>, repo: Repo): (r: Result<seq<Release>, Error>)
    ensures r.Ok? ==> |r.value| == |rels| && forall i | 0 <= i < |rels| :: Hydrate(rels[i], repo) == Ok(r.value[i])
    decreases |rels|
  {
    if |rels| == 0 then Ok([])
    else
      var h :- Hydrate(rels[0], repo);
      var rest :- HydrateAll(rels[1..], repo);
      Ok([h] + rest)
  }

  /** The listed releases that satisfy every requirement, in order; a raising requirement raises. */
  function Matching(rels: seq<Release>, reqs: seq<Requirement>): (r: Result<seq<Release>, Error>)
    ensures r.Ok? ==> r.value == Filter((x: Release) => SatisfiesAll(x.version, reqs) == Ok(true), rels)
    decreases |rels|
  {
    if |rels| == 0 then Ok([])
    else
      var ok :- SatisfiesAll(rels[0].version, reqs);
      var rest :- Matching(rels[1..], reqs);
      Ok((if ok then [rels[0]] else []) + rest)
  }

  /** The release order: `compare_versions` on the version strings. */
  function CompareReleases(a: Release, b: Release): int {
    CompareVersions(a.version, b.version)
  }

  /**
   * The fast path for a single pinned version: the per-version lookup,
   * when it satisfies every requirement and has a download URL.
   */
  function FastPath(ref: SkillRef, reqs: seq<Requirement>, repo: Repo, pins: seq<string>): (r: Result<Option<Release>, Error>)
    ensures r.Ok? && r.value.Some? ==> SatisfiesAll(r.value.value.version, reqs) == Ok(true) && HasDownloadUrl(r.value.value)
  {
    if |pins| != 1 then Ok(None)
    else
      var found :- repo.get(ref, pins[0]);
      match found
      case None => Ok(None)
      case Some(rel) =>
        var ok :- SatisfiesAll(rel.version, reqs);
        if ok && HasDownloadUrl(rel) then Ok(Some(rel)) else Ok(None)
  }

  /**
   * What survives hydration: a download URL, and when `recheck` is set,
   * a version that still satisfies every requirement.
   */
  function Usable(reqs: seq<Requirement>, recheck: bool): Release -> bool {
    (x: Release) => HasDownloadUrl(x) && (recheck ==> SatisfiesAll(x.version, reqs) == Ok(true))
  }

  /**
   * The selection procedure: conflicting pins raise; a usable single pin
   * is taken directly; otherwise the listed releases, newest first, that
   * satisfy the requirements, hydrated, and usable after hydration. The
   * source does not recheck (`recheck == false`).
   */
  function Select(ref: SkillRef, reqs: seq<Requirement>, repo: Repo, recheck: bool): (r: Result<seq<Release>, Error>)
    ensures r.Ok? ==> r.value != [] && forall i | 0 <= i < |r.value| :: HasDownloadUrl(r.value[i])
    ensures r.Ok? ==> ExactVersions(reqs).Ok? && |Distinct(ExactVersions(reqs).value)| <= 1
    ensures ExactVersions(reqs).Ok? && |Distinct(ExactVersions(reqs).value)| > 1 ==>
      r == Err(Conflict(ref.Key(), set v | v in ExactVersions(reqs).value))
  {
    var exact :- ExactVersions(reqs);
    var pins := Distinct(exact);
    if |pins| > 1 then Err(Conflict(ref.Key(), set v | v in exact))
    else
      var fast :- FastPath(ref, reqs, repo, pins);
      if fast.Some? then Ok([fast.value])
      else
        var listed :- repo.list(ref);
        var matched :- Matching(SortDesc(CompareReleases, listed), reqs);
        var hydrated :- HydrateAll(matched, repo);
        var usable := Filter(Usable(reqs, recheck), hydrated);
        if usable != [] then Ok(usable)
        else if matched != [] then Err(NoDownloadable(ref.Key()))
        else Err(NoRelease(ref.Key()))
  }

  /**
   * `_candidate_releases` as written: a non-empty list of releases with
   * download URLs, or an error; more than one distinct pinned version is
   * a conflict.
   */
  function CandidateReleases(ref: SkillRef, reqs: seq<Requirement>, repo: Repo): (r: Result<seq<Release>, Error>)
    ensures r.Ok? ==> r.value != [] && forall i | 0 <= i < |r.value| :: HasDownloadUrl(r.value[i])
    ensures r.Ok? ==> ExactVersions(reqs).Ok? && |Distinct(ExactVersions(reqs).value)| <= 1
    ensures ExactVersions(reqs).Ok? && |Distinct(ExactVersions(reqs).value)| > 1 ==>
      r == Err(Conflict(ref.Key(), set v | v in ExactVersions(reqs).value))
  {
    Select(ref, reqs, repo, false)
  }

  /**
   * Candidate selection with the hydrated release checked again: every
   * candidate satisfies every requirement. The resolver uses this one.
   */
  function CheckedCandidates(ref: SkillRef, reqs: seq<Requirement>, repo: Repo): (r: Result<seq<Release>, Error>)
    ensures r.Ok? ==> r.value != [] && forall i | 0 <= i < |r.value| :: HasDownloadUrl(r.value[i])
    ensures r.Ok? ==> forall i | 0 <= i < |r.value| :: SatisfiesAll(r.value[i].version, reqs) == Ok(true)
    ensures r.Ok? ==> ExactVersions(reqs).Ok? && |Distinct(ExactVersions(reqs).value)| <= 1
    ensures ExactVersions(reqs).Ok? && |Distinct(ExactVersions(reqs).value)| > 1 ==>
      r == Err(Conflict(ref.Key(), set v | v in ExactVersions(reqs).value))
  {
    CheckedSatisfies(ref, reqs, repo);
    Select(ref, reqs, repo, true)
  }

  /** With the recheck, every candidate satisfies the requirements, on the fast path and the listed one. */
  lemma CheckedSatisfies(ref: SkillRef, reqs: seq<Requirement>, repo: Repo)
    ensures Select(ref, reqs, repo, true).Ok? ==> forall i | 0 <= i < |Select(ref, reqs, repo, true).value| ::
      SatisfiesAll(Select(ref, reqs, repo, true).value[i].version, reqs) == Ok(true)
  {
    if Select(ref, reqs, repo, true).Err? {
      return;
    }
    var r := Select(ref, reqs, repo, true).value;
    var pins := Distinct(ExactVersions(reqs).value);
    var fast := FastPath(ref, reqs, repo, pins).value;
    if fast.None? {
      var matched := Matching(SortDesc(CompareReleases, repo.list(ref).value), reqs).value;
      var hydrated := HydrateAll(matched, repo).value;
      assert r == Filter(Usable(reqs, true), hydrated);
      forall i | 0 <= i < |r| ensures SatisfiesAll(r[i].version, reqs) == Ok(true) {
        assert Usable(reqs, true)(r[i]);
      }
    }
  }

  // ---------------------------------------------------------------------
  // Order of the candidates
  // ---------------------------------------------------------------------

  predicate AllParse(rels: seq<Release>) {
    forall i | 0 <= i < |rels| :: Parses(rels[i].version)
  }

  /** On parseable versions the release order is a total preorder. */
  lemma ReleaseOrder(s: set<Release>)
    requires forall x | x in s :: Parses(x.version)
    ensures TotalPreorder(CompareReleases, s)
  {
    forall a, b | a in s && b in s
      ensures -1 <= CompareReleases(a, b) <= 1 && CompareReleases(a, b) == -CompareReleases(b, a)
    {
      CompareVersionsAntisymmetric(a.version, b.version);
    }
    forall a, b, c | a in s && b in s && c in s && CompareReleases(a, b) >= 0 && CompareReleases(b, c) >= 0
      ensures CompareReleases(a, c) >= 0
    {
      CompareVersionsAntisymmetric(a.version, b.version);
      CompareVersionsAntisymmetric(b.version, c.version);
      CompareVersionsAntisymmetric(a.version, c.version);
      CompareVersionsTransitive(c.version, b.version, a.version);
    }
  }

  /** A hydrated release compares equal to the one it replaces, and parses when that one does. */
  lemma HydratedEquivalent(m: Release, repo: Repo)
    requires Hydrate(m, repo).Ok? && Parses(m.version)
    ensures Parses(Hydrate(m, repo).value.version)
    ensures CompareVersions(Hydrate(m, repo).value.version, m.version) == 0
    ensures CompareVersions(m.version, Hydrate(m, repo).value.version) == 0
  {
    var h := Hydrate(m, repo).value;
    CompareVersionsReflexive(m.version);
    CompareVersionsAntisymmetric(h.version, m.version);
  }

  /** Hydration keeps a descending order. */
  lemma HydratedSorted(ms: seq<Release>, repo: Repo)
    requires HydrateAll(ms, repo).Ok? && AllParse(ms) && SortedDesc(CompareReleases, ms)
    ensures AllParse(HydrateAll(ms, repo).value)
    ensures SortedDesc(CompareReleases, HydrateAll(ms, repo).value)
  {
    var hs := HydrateAll(ms, repo).value;
    forall i | 0 <= i < |hs| ensures Parses(hs[i].version) {
      HydratedEquivalent(ms[i], repo);
    }
    forall i, j | 0 <= i < j < |hs| ensures CompareReleases(hs[i], hs[j]) >= 0 {
      HydratedEquivalent(ms[i], repo);
      HydratedEquivalent(ms[j], repo);
      var hi, hj, mi, mj := hs[i].version, hs[j].version, ms[i].version, ms[j].version;
      assert CompareVersions(mi, mj) >= 0;
      CompareVersionsAntisymmetric(mi, mj);
      CompareVersionsTransitive(hj, mj, mi);
      CompareVersionsTransitive(hj, mi, hi);
      CompareVersionsAntisymmetric(hj, hi);
    }
  }

  /** Sorting the listing gives a descending order when every listed version parses. */
  lemma ListingSorted(listed: seq<Release>)
    requires AllParse(listed)
    ensures AllParse(SortDesc(CompareReleases, listed))
    ensures SortedDesc(CompareReleases, SortDesc(CompareReleases, listed))
  {
    var s := set x | x in listed;
    ReleaseOrder(s);
    SortDescSorted(CompareReleases, listed, s);
    var sorted := SortDesc(CompareReleases, listed);
    forall i | 0 <= i < |sorted| ensures Parses(sorted[i].version) {
      assert sorted[i] in multiset(sorted);
      assert sorted[i] in multiset(listed);
    }
  }

  /**
   * When every listed version parses, the candidates come newest first:
   * the listing is sorted, and filtering and hydration keep the order.
   */
  lemma SelectSorted(ref: SkillRef, reqs: seq<Requirement>, repo: Repo, recheck: bool)
    requires repo.list(ref).Ok? ==> AllParse(repo.list(ref).value)
    ensures Select(ref, reqs, repo, recheck).Ok? ==> SortedDesc(CompareReleases, Select(ref, reqs, repo, recheck).value)
  {
    var r := Select(ref, reqs, repo, recheck);
    if r.Ok? {
      var pins := Distinct(ExactVersions(reqs).value);
      var fast := FastPath(ref, reqs, repo, pins).value;
      if fast.None? {
        UsableSorted(repo.list(ref).value, reqs, repo, recheck);
      }
    }
  }

  /** The listed path: sorted, filtered, hydrated and filtered again, the order is descending. */
  lemma UsableSorted(listed: seq<Release>, reqs: seq<Requirement>, repo: Repo, recheck: bool)
    requires AllParse(listed)
    requires Matching(SortDesc(CompareReleases, listed), reqs).Ok?
    requires HydrateAll(Matching(SortDesc(CompareReleases, listed), reqs).value, repo).Ok?
    ensures SortedDesc(CompareReleases,
      Filter(Usable(reqs, recheck), HydrateAll(Matching(SortDesc(CompareReleases, listed), reqs).value, repo).value))
  {
    var sorted := SortDesc(CompareReleases, listed);
    ListingSorted(listed);
    var p := (x: Release) => SatisfiesAll(x.version, reqs) == Ok(true);
    var matched := Matching(sorted, reqs).value;
    assert matched == Filter(p, sorted);
    FilterSorted(CompareReleases, p, sorted);
    forall i | 0 <= i < |matched| ensures Parses(matched[i].version) {
      FilterMembers(p, sorted, matched[i]);
    }
    HydratedSorted(matched, repo);
    FilterSorted(CompareReleases, Usable(reqs, recheck), HydrateAll(matched, repo).value);
  }

  lemma CandidatesSorted(ref: SkillRef, reqs: seq<Requirement>, repo: Repo)
    requires repo.list(ref).Ok? ==> AllParse(repo.list(ref).value)
    ensures CandidateReleases(ref, reqs, repo).Ok? ==> SortedDesc(CompareReleases, CandidateReleases(ref, reqs, repo).value)
    ensures CheckedCandidates(ref, reqs, repo).Ok? ==> SortedDesc(CompareReleases, CheckedCandidates(ref, reqs, repo).value)
  {
    SelectSorted(ref, reqs, repo, false);
    SelectSorted(ref, reqs, repo, true);
  }

  // ---------------------------------------------------------------------
  // A hydrated candidate that fails the requirements
  // ---------------------------------------------------------------------

  /** `1.0`, listed without a download URL. */
  function ListedRelease(ref: SkillRef): Release {
    Release(ref, "1.0", [], None, None)
  }

  /** `1.0.0`, what the per-version lookup of `1.0` returns, with a URL. */
  function LookedUpRelease(ref: SkillRef): Release {
    Release(ref, "1.0.0", [], None, Some("https://x"))
  }

  /** `<1.0.-`: the right-hand side does not parse, so it is compared as text. */
  function ExampleReqs(): seq<Requirement> {
    [Requirement(OpText(Lt) + "1.0.-", "direct")]
  }

  lemma OddRhs()
    ensures IsRhs("1.0.-") && !Parses("1.0.-")
  {
    OddIsRhs();
    OddDoesNotParse();
  }

  lemma OddIsRhs()
    ensures IsRhs("1.0.-")
  {
    var s := "1.0.-";
    assert forall i | 0 <= i < |s| :: RhsChar(s[i]);
  }

  lemma OddDoesNotParse()
    ensures !Parses("1.0.-")
  {
    OddStrip();
    OddNoBuild();
  }

  lemma OddStrip()
    ensures Before(Strip("1.0.-"), '+') == "1.0.-"
  {
    StripNoop("1.0.-");
    assert Before("1.0.-", '+') == "1.0.-";
  }

  lemma OddNoBuild()
    ensures ParseNoBuild("1.0.-") == None
  {
    var s := "1.0.-";
    assert '-' in s by { assert s[4] == '-'; }
    assert Before(s, '-') == "1.0.";
    OddCore();
  }

  lemma OddCore()
    ensures ParseCore("1.0.") == None
  {
    assert Split(".", '.') == [[], []] by {
      assert "."[1..] == "";
    }
    assert Split("0.", '.') == ["0", []] by {
      assert "0."[1..] == ".";
      var rest := Split(".", '.');
      assert ['0'] + rest[0] == "0" && rest[1..] == [[]];
    }
    assert Split(".0.", '.') == [[], "0", []] by {
      assert ".0."[1..] == "0.";
    }
    assert Split("1.0.", '.') == ["1", "0", []] by {
      assert "1.0."[1..] == ".0.";
      var rest := Split(".0.", '.');
      assert ['1'] + rest[0] == "1" && rest[1..] == ["0", []];
    }
    assert !AllDigits(Split("1.0.", '.')[2]);
  }

  lemma OddComparisons()
    ensures CompareVersions("1.0", "1.0.-") == -1
    ensures CompareVersions("1.0.0", "1.0.-") == 1
  {
    OddRhs();
    assert LexCompare("1.0", "1.0.-") == -1 by {
      assert "1.0"[1..] == ".0" && "1.0.-"[1..] == ".0.-";
      assert ".0"[1..] == "0" && ".0.-"[1..] == "0.-";
      assert "0"[1..] == "" && "0.-"[1..] == ".-";
    }
    assert LexCompare("1.0.0", "1.0.-") == 1 by {
      assert "1.0.0"[1..] == ".0.0" && "1.0.-"[1..] == ".0.-";
      assert ".0.0"[1..] == "0.0" && ".0.-"[1..] == "0.-";
      assert "0.0"[1..] == ".0" && "0.-"[1..] == ".-";
      assert ".0"[1..] == "0" && ".-"[1..] == "-";
    }
  }

  lemma RenderOneZero()
    ensures Render(Version([1, 0, 0], None)) == "1.0.0"
    ensures Render(Version([1, 0], None)) == "1.0"
  {
    assert NatToString(1) == "1" && NatToString(0) == "0";
    var n3 := NumStrings([1, 0, 0]);
    assert n3 == ["1", "0", "0"];
    assert n3[1..] == ["0", "0"];
    assert n3[1..][1..] == ["0"];
    var n2 := NumStrings([1, 0]);
    assert n2 == ["1", "0"];
    assert n2[1..] == ["0"];
  }

  lemma ThreeParts()
    ensures SplitVersion("1.0.0") == Some(Version([1, 0, 0], None))
  {
    RenderOneZero();
    ParseRender(Version([1, 0, 0], None));
    assert Pad([1, 0, 0]) == [1, 0, 0];
  }

  lemma TwoParts()
    ensures SplitVersion("1.0") == Some(Version([1, 0, 0], None))
  {
    RenderOneZero();
    ParseRender(Version([1, 0], None));
    assert Pad([1, 0]) == [1, 0, 0];
  }

  lemma OneZeroParses()
    ensures SplitVersion("1.0.0") == Some(Version([1, 0, 0], None))
    ensures SplitVersion("1.0") == Some(Version([1, 0, 0], None))
  {
    ThreeParts();
    TwoParts();
  }

  lemma OneZeroEquivalent()
    ensures CompareVersions("1.0.0", "1.0") == 0
  {
    OneZeroParses();
    CompareVersionsReflexive("1.0.0");
  }

  lemma ExactVersionsSingle(q: Requirement)
    ensures ExactVersions([q]) == match ExtractExactVersion(q.specifier)
      case Err(e) => Err(e)
      case Ok(p) => Ok(if p.Some? then [p.value] else [])
  {
    assert [q][1..] == [];
    assert ExactVersions([]) == Ok([]);
    if ExtractExactVersion(q.specifier).Ok? {
      var p := ExtractExactVersion(q.specifier).value;
      var head: seq<string> := if p.Some? then [p.value] else [];
      assert head + [] == head;
    }
  }

  lemma ExampleExact()
    ensures ExactVersions(ExampleReqs()) == Ok([])
  {
    var q := ExampleReqs()[0];
    OddIsRhs();
    ExactPinOfOp(Lt, "1.0.-");
    assert ExtractExactVersion(q.specifier) == Ok(None);
    ExactVersionsSingle(q);
    assert ExampleReqs() == [q];
  }

  lemma ExampleHolds(version: string)
    requires version == "1.0" || version == "1.0.0"
    ensures SatisfiesAll(version, ExampleReqs()) == Ok(version == "1.0")
  {
    OddRhs();
    OddComparisons();
    SatisfiesOp(version, Lt, "1.0.-");
    assert ExampleReqs()[1..] == [];
  }

  lemma MatchingSingle(x: Release, reqs: seq<Requirement>)
    requires SatisfiesAll(x.version, reqs).Ok?
    ensures Matching([x], reqs) == Ok(if SatisfiesAll(x.version, reqs).value then [x] else [])
  {
    assert [x][1..] == [];
    assert Matching([], reqs) == Ok([]);
    assert [x] + [] == [x];
  }

  lemma SortSingle(x: Release)
    ensures SortDesc(CompareReleases, [x]) == [x]
  {
    assert [x][..0] == [];
    assert SortDesc(CompareReleases, []) == [];
    assert InsertDesc(CompareReleases, x, []) == [x];
  }

  lemma HydrateReplaces(l: Release, h: Release, repo: Repo)
    requires !HasDownloadUrl(l) && repo.get(l.ref, l.version) == Ok(Some(h))
    requires h.ref.Key() == l.ref.Key() && CompareVersions(h.version, l.version) == 0
    ensures HydrateAll([l], repo) == Ok([h])
  {
    assert Hydrate(l, repo) == Ok(h);
    assert [l][1..] == [];
    assert HydrateAll([], repo) == Ok([]);
    assert [h] + [] == [h];
  }

  lemma ExampleMatched(ref: SkillRef, reqs: seq<Requirement>)
    requires reqs == ExampleReqs()
    ensures Matching(SortDesc(CompareReleases, [ListedRelease(ref)]), reqs) == Ok([ListedRelease(ref)])
  {
    SortSingle(ListedRelease(ref));
    ExampleHolds("1.0");
    MatchingSingle(ListedRelease(ref), reqs);
  }

  lemma ExampleHydrated(ref: SkillRef, repo: Repo)
    requires repo.get(ref, "1.0") == Ok(Some(LookedUpRelease(ref)))
    ensures HydrateAll([ListedRelease(ref)], repo) == Ok([LookedUpRelease(ref)])
  {
    OneZeroEquivalent();
    HydrateReplaces(ListedRelease(ref), LookedUpRelease(ref), repo);
  }

  lemma ExampleUsable(ref: SkillRef, reqs: seq<Requirement>, recheck: bool)
    requires reqs == ExampleReqs()
    ensures Filter(Usable(reqs, recheck), [LookedUpRelease(ref)]) == if recheck then [] else [LookedUpRelease(ref)]
  {
    ExampleHolds("1.0.0");
    assert HasDownloadUrl(LookedUpRelease(ref)) by {
      assert !IsSpace("https://x"[0]);
    }
    assert [LookedUpRelease(ref)][1..] == [];
  }

  lemma SelectUnpinned(ref: SkillRef, reqs: seq<Requirement>, repo: Repo, recheck: bool,
                        listed: seq<Release>, matched: seq<Release>, hydrated: seq<Release>)
    requires ExactVersions(reqs) == Ok([]) && repo.list(ref) == Ok(listed)
    requires Matching(SortDesc(CompareReleases, listed), reqs) == Ok(matched)
    requires HydrateAll(matched, repo) == Ok(hydrated)
    ensures var usable := Filter(Usable(reqs, recheck), hydrated);
      Select(ref, reqs, repo, recheck)
        == if usable != [] then Ok(usable)
           else if matched != [] then Err(NoDownloadable(ref.Key()))
           else Err(NoRelease(ref.Key()))
  {
    assert Distinct([]) == [];
    assert FastPath(ref, reqs, repo, []) == Ok(None);
  }

  lemma ExampleSelection(ref: SkillRef, reqs: seq<Requirement>, repo: Repo, recheck: bool)
    requires reqs == ExampleReqs()
    requires repo.list(ref) == Ok([ListedRelease(ref)])
    requires repo.get(ref, "1.0") == Ok(Some(LookedUpRelease(ref)))
    ensures Select(ref, reqs, repo, recheck)
      == if recheck then Err(NoDownloadable(ref.Key())) else Ok([LookedUpRelease(ref)])
  {
    ExampleExact();
    ExampleMatched(ref, reqs);
    ExampleHydrated(ref, repo);
    ExampleUsable(ref, reqs, recheck);
    SelectUnpinned(ref, reqs, repo, recheck, [ListedRelease(ref)], [ListedRelease(ref)], [LookedUpRelease(ref)]);
  }

  /**
   * As written, for any skill whose only listed release is `1.0` without
   * a download URL and whose per-version lookup answers `1.0.0` with one,
   * the requirement `<1.0.-` (which `1.0` satisfies and `1.0.0` does not)
   * yields `1.0.0` as the candidate; with the recheck there is none.
   */
  lemma HydratedCandidateFails(ref: SkillRef, reqs: seq<Requirement>, repo: Repo)
    requires reqs == ExampleReqs()
    requires repo.list(ref) == Ok([ListedRelease(ref)])
    requires repo.get(ref, "1.0") == Ok(Some(LookedUpRelease(ref)))
    ensures CandidateReleases(ref, reqs, repo) == Ok([LookedUpRelease(ref)])
    ensures SatisfiesAll(LookedUpRelease(ref).version, reqs) == Ok(false)
    ensures CheckedCandidates(ref, reqs, repo) == Err(NoDownloadable(ref.Key()))
  {
    ExampleSelection(ref, reqs, repo, false);
    ExampleSelection(ref, reqs, repo, true);
    ExampleHolds("1.0.0");
  }
}
