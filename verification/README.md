# skilldock core, modelled in Dafny

This project models the pure core of the skilldock Python client: the
local skill dependency engine, OpenAPI spec digestion, request routing in
the API client, and the layout rules of the skill packager. It proves
properties of the model.

- **Versions and requirements** (`versions.dfy`, `specifiers.dfy`):
  - `_split_version` and `compare_versions`, with the fallback to plain
    string order when either side does not parse;
  - caret and tilde expansion, `_split_specifier`, `version_satisfies`,
    `_extract_exact_version` and `normalize_requirement`.
- **Parsers** (`refs.dfy`, `releases.dfy`, over the small JSON datatype in
  `json.dfy`):
  - `parse_skill_ref` and `_split_install_skill_and_requirement`;
  - `_parse_dependency_entry` and `_parse_release_obj`.
- **Resolution** (`candidates.dfy`, `resolver.dfy`, `resolver_soundness.dfy`):
  - `_candidate_releases` and the version lookup that fills in a missing
    download URL;
  - the backtracking `resolve_dependency_graph`, over a release repository
    given as two pure functions (list by key, get by key and version).
- **Install and reconcile** (`files.dfy`, `install_facts.dfy`,
  `reconcile.dfy`, `reconcile_facts.dfy`). These are transitions over an
  abstract filesystem, a map from component paths to nodes:
  - `_safe_extract_zip`;
  - `LocalSkillManager._install_archive` with staging, backup, move,
    rollback and backup cleanup;
  - `_remove_skill`, `_find_unresolvable_direct_skills` and `_reconcile`,
    with `install` and `uninstall`;
  - the resolver errors whose messages the source matches with regular
    expressions, modelled as the structured variants in `errors.dfy`.
- **OpenAPI digestion** (`identifiers.dfy`, `openapi.dfy`). These are pure
  functions over a JSON value:
  - identifier sanitising;
  - unique operation-id and python-name assignment;
  - `security` inheritance, as in section 4.7.10 of OpenAPI 3.0.3;
  - server-variable substitution, as in sections 4.7.5 and 4.7.6 of
    OpenAPI 3.0.3;
  - `derive_base_url` and auth-strategy detection;
  - operation enumeration and `extract_first_url`.
- **Client** (`quoting.dfy`, `client.dfy`):
  - `_apply_auth`;
  - the part of `SkilldockClient.request` before the network call, which
    builds the URL and headers;
  - `request_operation` parameter routing, where path values are
    percent-encoded as in section 2.1 of RFC 3986;
  - `base_url`;
  - the keyword-argument rule of `OperationsProxy`.
- **Packaging** (`package.dfy`):
  - the exclusion predicate;
  - the `SKILL.md` check;
  - top-level folder validation;
  - file ordering and arcname mapping;
  - the size warning of `package_skill`.

Shared helpers live in `wrappers.dfy` (`Option`, `Result`), `strs.dfy`
(Python's `strip`, `split`, `join`, `lower`, `rfind` and string order),
`sorting.dfy` (the stable sort used for `sorted(..., key=cmp_to_key(...))`)
and `dicts.dfy` (insertion-ordered dictionaries as key/value sequences).

Errors are values: every operation that raises in the source returns a
`Result`. The variant tells which exception the source raises and why.

## Model

| member | source | states |
|---|---|---|
| Versions.Pad | src/skilldock/local_skills.py:129-131 | the padded core has at least three numbers, begins with the parsed numbers, and holds only zeros after them |
| Versions.ParseCore | src/skilldock/local_skills.py:126-131 | the core parses exactly when every `.`-separated part is a non-empty run of digits, and then it is those numbers padded to three |
| Versions.SplitVersion | src/skilldock/local_skills.py:113-132 | a parsed version has at least three core numbers and no empty prerelease identifier; blank input never parses |
| Versions.CompareCore | src/skilldock/local_skills.py:145-148 | tuple comparison of cores gives -1, 0 or 1, and 0 exactly when the cores are equal |
| Versions.CompareId | src/skilldock/local_skills.py:162-181 | a numeric identifier ranks below an alphanumeric one and the other way round |
| Versions.ComparePre | src/skilldock/local_skills.py:150-155 | a version without a prerelease ranks above one with a prerelease |
| Versions.CompareParsed | src/skilldock/local_skills.py:145-182 | different cores decide by the core; equal cores decide by the prerelease |
| Versions.CompareVersions | src/skilldock/local_skills.py:135-182 | when both sides parse, the parsed comparison decides; when either side does not parse, plain string order decides |
| Versions.CompareVersionsReflexive | src/skilldock/local_skills.py:135-182 | every string compares equal to itself, whether or not it parses |
| Versions.CompareVersionsAntisymmetric | src/skilldock/local_skills.py:135-182 | swapping the arguments negates the result for all inputs |
| Versions.CompareVersionsTransitive | src/skilldock/local_skills.py:135-182 | the order is transitive, strictly where a step is strict, among strings that all parse and among strings none of which parses |
| Versions.MixedOrderCycles | src/skilldock/local_skills.py:135-144 | across parsed and unparsed strings the order cycles: 10.0.0 < 1x < 9.0.0 < 10.0.0 |
| Versions.CompareIdsTransitive | src/skilldock/local_skills.py:157-182 | the identifier-by-identifier prerelease comparison is transitive |
| Versions.CompareIdsAntisymmetric | src/skilldock/local_skills.py:157-182 | the prerelease comparison is antisymmetric |
| Versions.ParseRender | src/skilldock/local_skills.py:113-132 | parsing the canonical text of a version gives back that version with its core padded to three numbers |
| Versions.SplitVersionSurrounding | src/skilldock/local_skills.py:116 | surrounding whitespace does not change the parse |
| Versions.SplitVersionBuild | src/skilldock/local_skills.py:119 | a `+build` suffix does not change the parse |
| Versions.PaddingIgnored | src/skilldock/local_skills.py:130-131 | a short core compares equal to the same core with a zero appended, so "1.2" equals "1.2.0" |
| Versions.ReleaseAbovePrerelease | src/skilldock/local_skills.py:150-155 | with equal cores, the release ranks above every prerelease |
| Versions.NumericIdentifiers | src/skilldock/local_skills.py:164-177 | numeric prerelease identifiers compare as numbers, and rank below alphanumeric ones |
| Versions.PrefixPrereleaseLower | src/skilldock/local_skills.py:157-161 | a prerelease that is a proper prefix of another ranks lower |
| Specifiers.NormalizeRequirement | src/skilldock/local_skills.py:108-110 | the result is the stripped text, or "latest" for None or blank text; it is never empty and is already stripped |
| Specifiers.NormalizeIdempotent | src/skilldock/local_skills.py:108-110 | normalising twice is normalising once |
| Specifiers.MatchComparatorShaped | src/skilldock/local_skills.py:232-247 | a match splits the token into the operator, whitespace and a version that fits the pattern's version group |
| Specifiers.MatchComparatorOp | src/skilldock/local_skills.py:232 | an operator, whitespace and a version are matched back to that operator and version |
| Specifiers.MatchComparatorBare | src/skilldock/local_skills.py:232 | whitespace and a version match with the operator group absent |
| Specifiers.BaseCore | src/skilldock/local_skills.py:185-227 | the base of a caret or tilde token gives three numbers, or the InvalidRequirement error naming the token |
| Specifiers.ExpandCaret | src/skilldock/local_skills.py:185-195 | the caret expansion fails exactly when its base does not parse, and then with InvalidRequirement |
| Specifiers.ExpandTilde | src/skilldock/local_skills.py:198-203 | the tilde expansion fails exactly when its base does not parse, and then with InvalidRequirement |
| Specifiers.ExpandToken | src/skilldock/local_skills.py:215-228 | a token without a leading `^` or `~` is kept as it is; an expansion is never empty |
| Specifiers.ExpandTokensPlain | src/skilldock/local_skills.py:215-228 | a token list without carets or tildes passes through unchanged |
| Specifiers.ExpandTokensConcat | src/skilldock/local_skills.py:215-228 | expanding two token lists one after the other expands each, and the first failure wins |
| Specifiers.SplitSpecifier | src/skilldock/local_skills.py:206-229 | the token list is never empty; the only error is InvalidRequirement |
| Specifiers.SplitSpecifierWords | src/skilldock/local_skills.py:207-213 | the token list depends only on the whitespace-separated words once commas become spaces, and no words give `["latest"]` |
| Specifiers.CommasAreWhitespace | src/skilldock/local_skills.py:210 | a comma separates tokens exactly as a space does |
| Specifiers.CaretTokens | src/skilldock/local_skills.py:185-195 | `^M.m.p` expands to `>=M.m.p` and `<` the caret bound: the next major if M>0, else the next minor if m>0, else the next patch |
| Specifiers.TildeTokens | src/skilldock/local_skills.py:198-203 | `~M.m.p` expands to `>=M.m.p` and `<M.(m+1).0` |
| Specifiers.PrereleaseBaseDropped | src/skilldock/local_skills.py:185-203 | a prerelease on the base of `^` or `~` does not change the expansion |
| Specifiers.BadBaseRaises | src/skilldock/local_skills.py:216-227 | a caret or tilde whose base does not parse raises InvalidRequirement naming the token, in both matching and pin extraction |
| Specifiers.VersionSatisfies | src/skilldock/local_skills.py:236-271 | matching fails exactly when splitting the specifier fails, and then with an invalid-requirement error |
| Specifiers.VersionSatisfiesMeaning | src/skilldock/local_skills.py:236-271 | when the specifier splits, the version satisfies it exactly when every expanded token holds |
| Specifiers.SatisfiesConjunction | src/skilldock/local_skills.py:236-271 | joining two specifiers with a space gives their conjunction, and an error in the first, then in the second, takes precedence |
| Specifiers.WildcardAcceptsAll | src/skilldock/local_skills.py:238-240 | `latest` and `*`, in any letter case and with surrounding whitespace, accept every version |
| Specifiers.UnmatchedTokenFails | src/skilldock/local_skills.py:242-244 | a token the comparator pattern rejects makes the specifier false |
| Specifiers.MissingOperatorIsEquals | src/skilldock/local_skills.py:246-253 | a bare version, like `=v`, holds exactly when the versions compare equal |
| Specifiers.SatisfiesOp | src/skilldock/local_skills.py:246-270 | `OP v` as a whole specifier is the comparison of the version with v under OP |
| Specifiers.CaretRange | src/skilldock/local_skills.py:189-194 | caret compatibility, stated independently, is the range from the base up to but not including the caret bound |
| Specifiers.TildeRange | src/skilldock/local_skills.py:202 | tilde compatibility, stated independently, is the range from the base up to but not including the tilde bound |
| Specifiers.CaretMeaning | src/skilldock/local_skills.py:185-195 | `^b` admits exactly the three-number releases that are caret-compatible with b |
| Specifiers.TildeMeaning | src/skilldock/local_skills.py:198-203 | `~b` admits exactly the three-number releases that are tilde-compatible with b |
| Specifiers.ExtractExactVersion | src/skilldock/local_skills.py:274-291 | pin extraction fails exactly when splitting fails, and a pinned version fits the pattern's version group |
| Specifiers.ExactPinMeaning | src/skilldock/local_skills.py:274-291 | whenever an exact version v is extracted, the specifier holds for x exactly when x compares equal to v |
| Specifiers.ExactPinOfOp | src/skilldock/local_skills.py:281-291 | `=v` and `==v` pin v; `>`, `>=`, `<` and `<=` pin nothing |
| Specifiers.ExactPinBare | src/skilldock/local_skills.py:284-290 | a bare version pins itself |
| Specifiers.NoPinForSeveral | src/skilldock/local_skills.py:275-277 | a specifier of more than one token pins nothing |
| Refs.ParseSkillRef | src/skilldock/local_skills.py:79-88 | a parsed reference has a non-empty trimmed namespace without `/` and a non-empty trimmed slug; a failure is InvalidRef naming the input |
| Refs.ParseKey | src/skilldock/local_skills.py:79-88 | every well-formed reference is read back from its `namespace/slug` key |
| Refs.ParseCanonical | src/skilldock/local_skills.py:79-88 | the key of a parsed reference parses to the same reference |
| Refs.NoSlashRejected | src/skilldock/local_skills.py:81-82 | text without a `/` is always rejected |
| Refs.SplitInstallSkill | src/skilldock/local_skills.py:91-105 | the skill returned is non-empty and trimmed; the only errors are the blank skill and the shorthand combined with a separately given requirement |
| Refs.Shorthand | src/skilldock/local_skills.py:96-100 | a shorthand split gives a trimmed skill containing `/` and a non-empty requirement |
| Refs.ShorthandSplit | src/skilldock/local_skills.py:96-103 | `<key>@<req>` splits into the key and the requirement, and is refused exactly when a requirement was also given |
| Refs.NoShorthand | src/skilldock/local_skills.py:92-105 | without `@` the skill is only stripped and the requirement passes through |
| Releases.DictRef | src/skilldock/local_skills.py:503-508 | an object's reference fails only when it comes from a `skill` string, and then names that string |
| Releases.ParseDependencyEntry | src/skilldock/local_skills.py:487-514 | a parsed dependency has clean optional texts; the string form gives a well-formed reference and no release version; values that are neither strings nor objects are skipped; the only error is InvalidRef |
| Releases.ParseDependencies | src/skilldock/local_skills.py:544-550 | the dependency list holds at most one entry per item, every one clean; the only error is InvalidRef |
| Releases.DependencyRoundTrip | src/skilldock/local_skills.py:500-514 | a dependency written in the object form reads back as the same dependency |
| Releases.ShorthandDependency | src/skilldock/local_skills.py:488-496 | the `<key>@<requirement>` string reads back as a requirement on that skill |
| Releases.KeyDependency | src/skilldock/local_skills.py:497-498 | the bare key string reads back as an unconstrained dependency |
| Releases.DependenciesRoundTrip | src/skilldock/local_skills.py:544-550 | a list of dependency objects reads back as the same dependencies in order |
| Releases.FirstWanted | src/skilldock/local_skills.py:560-570 | the index found holds a wanted entry and no earlier entry is wanted; none found means no entry is wanted |
| Releases.ChosenFile | src/skilldock/local_skills.py:557-570 | the chosen file is the first eligible entry of a preferred kind, else the first eligible entry, else none |
| Releases.FieldOf | src/skilldock/local_skills.py:572-591 | a field taken from the chosen file or the record is absent or stripped and non-empty |
| Releases.ParseReleaseObj | src/skilldock/local_skills.py:531-593 | no release exactly when the input is not an object or has no non-blank string version; a release carries the reference given, the stripped version and clean checksum, URL and dependencies |
| Releases.ParsedUrlUsable | src/skilldock/local_skills.py:303-304 | a parsed release with a URL counts as having a download URL |
| Releases.ReleaseRoundTrip | src/skilldock/local_skills.py:531-593 | every release written in the record form is read back unchanged |
| Candidates.SatisfiesAll | src/skilldock/local_skills.py:294-295 | checking all requirements can only fail with InvalidRequirement |
| Candidates.SatisfiesAllEvery | src/skilldock/local_skills.py:294-295 | all requirements are satisfied exactly when each single requirement is |
| Candidates.ExactVersionsMembers | src/skilldock/local_skills.py:338 | the pinned versions collected are exactly those some single requirement pins |
| Candidates.ExactVersionsSound | src/skilldock/local_skills.py:338 | every collected pin comes from some requirement that pins it |
| Candidates.ExactVersionsComplete | src/skilldock/local_skills.py:338 | every requirement's pin is collected |
| Candidates.Distinct | src/skilldock/local_skills.py:338-339 | the set of pinned versions holds the same members as the list, each once |
| Candidates.Hydrate | src/skilldock/local_skills.py:314-324 | a release with a download URL is kept; a replacement always names the same skill and a version that compares equal |
| Candidates.HydrateAll | src/skilldock/local_skills.py:361 | hydration maps the matched releases one for one, in order |
| Candidates.Matching | src/skilldock/local_skills.py:360 | the matched releases are exactly the listed ones that satisfy every requirement, in order |
| Candidates.FastPath | src/skilldock/local_skills.py:348-352 | the single-pin fast path returns only a release that satisfies every requirement and has a download URL |
| Candidates.CandidateReleases | src/skilldock/local_skills.py:337-376 | the candidates are never empty and all have download URLs; more than one distinct pinned version is a Conflict naming the key and the versions |
| Candidates.SelectUnpinned | src/skilldock/local_skills.py:354-376 | without pins, the result is the usable hydrated matches, else "no downloadable release" if anything matched, else "no release found" |
| Candidates.CandidatesSorted | src/skilldock/local_skills.py:354-364 | when every listed version parses, the candidates come in descending version order |
| Candidates.ListingSorted | src/skilldock/local_skills.py:354-359 | when every listed version parses, the sorted listing is in descending version order |
| Candidates.Select | src/skilldock/local_skills.py:337-376 | the selection procedure, with or without the recheck of hydrated releases: candidates are non-empty with download URLs, and more than one distinct pin is a conflict |
| Candidates.SelectSorted | src/skilldock/local_skills.py:354-364 | with or without the recheck, candidates from the listing come newest first |
| Candidates.HydratedEquivalent | src/skilldock/local_skills.py:320-324 | a hydrated release compares equal to the one it replaces, in both directions, and parses when that one does |
| Candidates.HydratedCandidateFails | src/skilldock/local_skills.py:351-364 | as written, a hydrated release is returned without being checked against the requirements, so a candidate can fail them |
| Candidates.ExampleSelection | src/skilldock/local_skills.py:351-364 | for the concrete listing behind the hydration finding, the source returns the looked-up release, while the recheck reports that nothing downloadable satisfies the requirement |
| Candidates.CheckedCandidates | src/skilldock/local_skills.py:337-376 | candidate selection with the hydrated release checked again: every candidate satisfies every requirement, is non-empty and has a download URL, and conflicting pins raise |
| Candidates.CheckedSatisfies | src/skilldock/local_skills.py:348-364 | with the recheck, candidates from both the fast path and the listing satisfy every requirement |
| Resolver.DepSpecs | src/skilldock/local_skills.py:432-441 | a dependency contributes `=release_version` first when it names a release, its version requirement when it has one, and only `latest` when it has neither |
| Resolver.Tagged | src/skilldock/local_skills.py:442-445 | each specifier becomes one requirement whose source is the selecting `key@version` |
| Resolver.Recheck | src/skilldock/local_skills.py:403-410 | the recheck keeps exactly the selected entries that still satisfy their key's requirements, in order |
| Resolver.Unseat | src/skilldock/local_skills.py:447-450 | a dependency's selected release is kept only if it satisfies the grown requirements, otherwise it alone is dropped |
| Resolver.Seed | src/skilldock/local_skills.py:388-392 | seeding fails only on a bad reference |
| Resolver.AddDeps | src/skilldock/local_skills.py:432-452 | adding a candidate's dependencies fails only on a requirement that cannot be parsed |
| Resolver.SearchCandidates | src/skilldock/local_skills.py:415-425 | candidates come from `_candidate_releases` as written; a failed candidate lookup backtracks; only a bad reference or requirement propagates |
| Resolver.TryCandidates | src/skilldock/local_skills.py:426-457 | the candidate loop propagates only a bad reference or requirement |
| Resolver.Search | src/skilldock/local_skills.py:394-457 | the search only propagates a bad reference or a raising requirement; candidate failures backtrack; a sub-search that hits the recursion limit ends the whole search |
| Resolver.Resolve | src/skilldock/local_skills.py:379-464 | a resolution fails only with a bad reference, a bad requirement, an unresolvable graph or the recursion limit |
| ResolverLimit.SearchLoops | src/skilldock/local_skills.py:394-457 | on the hydrated-candidate input, the recheck drops the selected `1.0.0` and puts its key back, so every search from the seeded state runs out of fuel |
| ResolverLimit.ResolveHitsLimit | src/skilldock/local_skills.py:379-464 | on the hydrated-candidate input, the resolution fails with the recursion limit whatever the limit, as the source raises `RecursionError` |
| Specifiers.NormalizeKeeps | src/skilldock/local_skills.py:108-110 | a requirement with no surrounding whitespace is kept as it is |
| ResolverSoundness.RecheckFacts | src/skilldock/local_skills.py:403-410 | the recheck keeps every pending key and puts every dropped key back in the pending list |
| ResolverSoundness.RecheckKeeps | src/skilldock/local_skills.py:400-413 | the recheck keeps the search invariant, and when nothing is pending the selection is a solution |
| ResolverSoundness.AddDepsFacts | src/skilldock/local_skills.py:432-452 | the dependency loop only grows the constraints, records every dependency specifier with its source, only shrinks the selection, and keeps every constrained key selected or pending |
| ResolverSoundness.PlaceCandidate | src/skilldock/local_skills.py:426-452 | placing a downloadable candidate and running its dependency loop keeps the search invariant |
| ResolverSoundness.SearchSound | src/skilldock/local_skills.py:394-457 | a solution found by the search is consistent and extends the constraints it started from |
| ResolverSoundness.TryCandidatesSound | src/skilldock/local_skills.py:426-457 | every solution found through the candidate loop selects releases that satisfy the requirements gathered for them |
| ResolverSoundness.ConstraintHolds | src/skilldock/local_skills.py:404-413 | under a solution, every recorded requirement holds for the release selected for its key |
| ResolverSoundness.SeedFacts | src/skilldock/local_skills.py:388-392 | seeding records every direct requirement, normalized and with source "direct", under its parsed key, which is pending |
| ResolverSoundness.ConsistentSound | src/skilldock/local_skills.py:388-413 | a consistent selection that extends the seeded requirements satisfies every direct requirement |
| ResolverSoundness.SeededSound | src/skilldock/local_skills.py:394-459 | a search started from the seeded requirements only ever returns a sound selection |
| ResolverSoundness.ResolveSound | src/skilldock/local_skills.py:379-464 | a successful resolution selects one downloadable release per key; every direct requirement holds for the release selected for its key, and every specifier of every dependency of a selected release holds for the release selected for that dependency |
| ResolverSoundness.ResolveBadKey | src/skilldock/local_skills.py:388-389 | a direct requirement whose key does not parse makes the resolution fail with an invalid reference |
| ResolverSoundness.ResolveNothing | src/skilldock/local_skills.py:412-413 | without direct requirements the resolution selects nothing |
| Errors.KeyRun | src/skilldock/local_skills.py:947 | the greedy run of `[A-Za-z0-9._-]` characters is as long as possible: every character in it is a key character and the next one is not |
| Errors.CaptureIsPlain | src/skilldock/local_skills.py:947-954 | whatever the key pattern captures is a plain `<namespace>/<slug>` key |
| Errors.NotFoundPlain | src/skilldock/local_skills.py:947-948 | a plain key is recovered from a "not found" failure |
| Errors.NoReleasePlain | src/skilldock/local_skills.py:949-954 | a key is recovered from a "no release found" failure exactly when it is a plain key |
| Errors.MissingUrlPlain | src/skilldock/local_skills.py:307-334 | a missing-download-URL failure for a plain key and a version without whitespace gives back that key and version, and counts as an unavailable release |
| Reconcile.CleanDirect | src/skilldock/local_skills.py:931-934 | cleaning succeeds exactly when every direct key parses; otherwise it raises InvalidRef |
| Reconcile.CleanDirectCanonical | src/skilldock/local_skills.py:931-934 | every cleaned key is its own canonical `namespace/slug` form |
| Reconcile.CleanDirectDistinct | src/skilldock/local_skills.py:931-934 | the cleaned requirements have distinct keys |
| Reconcile.CleanDirectCovers | src/skilldock/local_skills.py:931-934 | every input key is present in its canonical form |
| Reconcile.FindUnresolvable | src/skilldock/local_skills.py:912-922 | each recorded failure is a direct item that fails alone with an unavailable-release error, every failing item is recorded, and any other failure is raised |
| Reconcile.UnresolvedWarnings | src/skilldock/local_skills.py:961-962 | one "skipping unresolved" warning per failure, in order, with its key and reason |
| Reconcile.DropMissing | src/skilldock/local_skills.py:955-958 | dropping the missing key is a strict shrink of the effective requirements, and the warning names it |
| Reconcile.DropUnresolved | src/skilldock/local_skills.py:959-964 | dropping the unresolvable keys is a strict shrink, and the warnings name exactly the dropped keys |
| Reconcile.Retry | src/skilldock/local_skills.py:945-965 | a handled failure strictly shrinks the effective requirements and warns about each dropped key; a failure that is not a SkilldockError is re-raised |
| Reconcile.Settle | src/skilldock/local_skills.py:937-965 | the settled requirements are part of the cleaned ones and resolve to the selection; a cleaned requirement is missing exactly when a warning names its key; a resolver failure that is not a SkilldockError, such as the recursion limit, is raised unchanged |
| Reconcile.CurrentVersion | src/skilldock/local_skills.py:976-982 | the believed version is the metadata file's when there is one, else the lock's; a blank version counts as none |
| Reconcile.ReconcileKey | src/skilldock/local_skills.py:972-1003 | a key is unchanged exactly when its directory exists and its believed version compares equal; a missing download URL skips it without touching files; updated means the directory or a version existed |
| Reconcile.InstallAll | src/skilldock/local_skills.py:972-1003 | one action per resolved key, for exactly the resolved keys |
| Reconcile.RemoveStale | src/skilldock/local_skills.py:1005-1010 | the removed keys are exactly the lock keys that were not resolved, in order; each one's path is cleared, so it is gone or was a plain file that `rmtree` left; nothing else is created or changed |
| Reconcile.InstallRequest | src/skilldock/local_skills.py:738-744 | `install` binds the skill's canonical key to its normalized requirement and keeps every other manifest entry |
| Reconcile.UninstallRequest | src/skilldock/local_skills.py:746-751 | `uninstall` removes the skill's canonical key and keeps every other manifest entry |
| ReconcileFacts.KeyInstalls | src/skilldock/local_skills.py:988-1003 | a skill that was installed or updated holds `SKILL.md` and the metadata of the selected release |
| ReconcileFacts.InstalledUpToDate | src/skilldock/local_skills.py:984-986 | a skill directory holding the metadata of a release is up to date for that release |
| ReconcileFacts.KeyIdempotent | src/skilldock/local_skills.py:972-1003 | reconciling a skill again after installing it finds it unchanged and touches nothing |
| ReconcileFacts.KeyFailureKeepsDir | src/skilldock/local_skills.py:984-996 | a skill that is unchanged, skipped or failed keeps its directory's contents exactly |
| ReconcileFacts.RerunUnchanged | src/skilldock/local_skills.py:972-986 | when every resolved skill is up to date, every key is reported unchanged and nothing is touched |
| ReconcileFacts.TraceOf | src/skilldock/local_skills.py:924-1023 | a successful run's report is the settled requirements, the sorted selection, the per-key actions and the warnings, in that relation |
| ReconcileFacts.ReportPartition | src/skilldock/local_skills.py:967-1003 | installed, updated and unchanged keys are pairwise disjoint, and each is a key of the saved lock |
| ReconcileFacts.ReportRemoved | src/skilldock/local_skills.py:1005-1010 | the removed keys are exactly the old lock keys, sorted, that the saved lock does not contain |
| ReconcileFacts.ReportManifest | src/skilldock/local_skills.py:931-965 | the saved manifest holds only cleaned requirements with distinct canonical keys, and a cleaned requirement is missing from it only when a warning names its key |
| Files.RemoveTree | src/skilldock/local_skills.py:904 | a plain file is left in place, since `rmtree` raises on it and the error is ignored; otherwise the paths at or below it go; every other path keeps its contents |
| Files.Subtree | src/skilldock/local_skills.py:859-899 | the subtree at p holds exactly the paths below p, relative to p, with their contents |
| Files.SubtreeMoved | src/skilldock/local_skills.py:886-889 | moving a tree to a free place puts exactly that tree there |
| Files.MkdirAll | src/skilldock/local_skills.py:708 | `mkdir(parents=True, exist_ok=True)` fails exactly when a file lies on the way; otherwise every directory on the way exists, nothing is lost, and only those directories are added |
| Files.WriteFile | src/skilldock/local_skills.py:725-727 | a successful write stores exactly the content at the target |
| Files.Rejected | src/skilldock/local_skills.py:714-719 | a name is rejected only as an absolute or an invalid path entry, and an accepted non-empty name resolves at or below the unpack root |
| Files.ResolveStaysBelow | src/skilldock/local_skills.py:716-718 | a name without `..` components never leaves the directory it starts from |
| Files.NoParentAccepted | src/skilldock/local_skills.py:714-719 | a relative name without `..` components is never rejected |
| Files.ParentEscapes | src/skilldock/local_skills.py:716-719 | `../x` is rejected as an invalid path entry unless x names the unpack root itself |
| Files.ExtractEntries | src/skilldock/local_skills.py:710-727 | a successful extraction accepted every name; a failure is a file-system error or the rejection of some entry |
| Files.ExtractEntriesInside | src/skilldock/local_skills.py:710-727 | the extraction loop changes nothing outside the unpack root |
| Files.SafeExtract | src/skilldock/local_skills.py:707-727 | `_safe_extract_zip` succeeds only when every entry name is accepted; otherwise it raises the first rejection or a file-system error |
| Files.SafeExtractInside | src/skilldock/local_skills.py:707-727 | a successful extraction changes nothing outside the destination, apart from creating its missing ancestors |
| Files.UnsafeNotExtracted | src/skilldock/local_skills.py:714-719 | an archive holding an absolute or escaping entry is never extracted successfully |
| Files.SourceRoot | src/skilldock/local_skills.py:871-879 | the source root is the unpack root when it holds a SKILL.md file, else its only child when that is a directory holding SKILL.md, else none |
| Files.BackupDisjoint | src/skilldock/local_skills.py:881 | the backup path is neither at nor below the destination, nor the other way round |
| Files.EnsureSkillsDir | src/skilldock/local_skills.py:753-759 | the skills directory exists afterwards, or the manager refuses with an unusable-directory error |
| Files.Swap | src/skilldock/local_skills.py:881-899 | after the swap the backup path is cleared, so it is gone or holds a plain file that `rmtree` left; the swap raises exactly when the move or the metadata write fails, or when a plain file at the backup path blocks the rename of an existing directory, which leaves everything untouched |
| Files.RemoveSkill | src/skilldock/local_skills.py:901-910 | the skill's directory is gone, unless a plain file sits at its path, which stays and leaves everything unchanged; nothing is created or changed, and nothing outside it except the namespace directory is removed |
| Files.RemoveSkillNamespace | src/skilldock/local_skills.py:905-910 | the namespace directory is removed exactly when it was a directory, the skill's path held no plain file, and nothing lay below it outside the skill directory |
| InstallFacts.StashFacts | src/skilldock/local_skills.py:881-886 | when the rename is not blocked, the stash leaves the destination empty and its old tree at the backup |
| InstallFacts.SwapRollback | src/skilldock/local_skills.py:888-899 | when the move or the metadata write raises, the destination holds exactly what it held before, whether or not the rename was blocked |
| InstallFacts.SwapInstalls | src/skilldock/local_skills.py:888-890 | on success, which rules out a blocked rename, the destination holds the source root's tree with the metadata file written into it |
| InstallFacts.StagedKeepsDest | src/skilldock/local_skills.py:867-879 | a failure before the swap leaves the destination untouched |
| InstallFacts.InstallFailureKeepsDest | src/skilldock/local_skills.py:859-899 | whenever `_install_archive` raises, the skill's directory holds exactly what it held before the call |
| InstallFacts.InstallRemovesTmp | src/skilldock/local_skills.py:867-899 | the temporary directory is gone afterwards, whatever happened |
| InstallFacts.InstallSuccess | src/skilldock/local_skills.py:859-899 | on success the skill's directory holds SKILL.md and the metadata naming the release, and the backup path is cleared: gone, or a plain file that `rmtree` left |
| Identifiers.SubNonWord | src/skilldock/openapi.py:17 | replacing runs of non-word characters leaves only `[0-9A-Za-z_]` |
| Identifiers.Collapse | src/skilldock/openapi.py:18 | collapsing underscore runs leaves no `__` and adds no character |
| Identifiers.Sanitize | src/skilldock/openapi.py:15-23 | the result is always a non-empty `[0-9A-Za-z_]` name with no leading, trailing or doubled underscore and no leading digit |
| Identifiers.SanitizeAlnums | src/skilldock/openapi.py:15-23 | sanitizing keeps every letter and digit in order, adding `op` in front exactly when there are none or the first is a digit |
| Identifiers.SanitizeFixed | src/skilldock/openapi.py:15-23 | a string is left unchanged exactly when it already has the identifier shape |
| Identifiers.SanitizeIdempotent | src/skilldock/openapi.py:15-23 | sanitizing twice is sanitizing once |
| Identifiers.LowerIdentifier | src/skilldock/openapi.py:169 | lower-casing keeps a sanitized name an identifier |
| Identifiers.SuffixedInjective | src/skilldock/openapi.py:165 | different counters give different suffixed names |
| Identifiers.Probe | src/skilldock/openapi.py:164-166 | the suffix probe ends on a name not yet used |
| Identifiers.FreshName | src/skilldock/openapi.py:162-167 | the chosen name is not yet used |
| Identifiers.FreshNameFirstFree | src/skilldock/openapi.py:162-167 | a free name is kept, and otherwise the name is the first free `base_k` for k = 2, 3, ... |
| Identifiers.FreshIdentifier | src/skilldock/openapi.py:169-175 | a fresh name for an identifier is an identifier |
| OpenApi.Placeholder | src/skilldock/openapi.py:40 | the placeholder for a variable is `{name}` |
| OpenApi.SubstituteServerVariables | src/skilldock/openapi.py:31-41 | a missing or falsy `variables` leaves the URL as it is; only a truthy value that is not a dict raises |
| OpenApi.SubstituteIgnoresNoDefault | src/skilldock/openapi.py:34-39 | variables with no usable `default` (not a dict, no key, or `null`) have no effect on the URL |
| OpenApi.SubstituteNoDefaults | src/skilldock/openapi.py:31-41 | with no usable default the URL comes back unchanged |
| OpenApi.SubstituteSingle | src/skilldock/openapi.py:40 | one variable replaces every `{name}` by `str(default)` and keeps the text between occurrences |
| OpenApi.RStripSlash | src/skilldock/openapi.py:52-55 | `rstrip("/")` removes exactly the trailing run of `/` |
| OpenApi.DeriveBaseUrl | src/skilldock/openapi.py:44-55 | the base URL never ends in `/`; it fails only when the first server's `variables` is a truthy non-dict |
| OpenApi.DeriveBaseUrlSource | src/skilldock/openapi.py:44-55 | a server URL starting with `/` is appended to the origin, one with `://` is used alone, anything else or no usable first server falls back to the origin |
| OpenApi.ScanBearer | src/skilldock/openapi.py:86-91 | the bearer loop succeeds exactly when some scheme is an `http` scheme whose scheme lowercases to `bearer` |
| OpenApi.ScanApiKey | src/skilldock/openapi.py:93-98 | the apiKey loop returns the name of the first header apiKey scheme, and nothing exactly when there is none |
| OpenApi.ChooseAuth | src/skilldock/openapi.py:86-100 | bearer wins over apiKey-header, which wins over the unknown fallback, and each kind is chosen exactly when the schemes call for it |
| OpenApi.DetectAuthStrategy | src/skilldock/openapi.py:81-100 | a truthy non-dict `components` raises; otherwise the strategy is chosen from `securitySchemes`, a non-dict counting as empty |
| OpenApi.OpsOfItem | src/skilldock/openapi.py:138-143 | a path item yields exactly its members whose key lowercases to an HTTP method and whose value is a dict |
| OpenApi.OpsOfPaths | src/skilldock/openapi.py:135-143 | every operation comes from a dict path item, and every such path item's operations are yielded |
| OpenApi.IterOperationsMembers | src/skilldock/openapi.py:128-143 | an operation is enumerated if and only if its path item is a dict under `paths`, its key lowercases to one of the methods in line 12, and its value is a dict |
| OpenApi.Parameters | src/skilldock/openapi.py:180-182 | only dict parameters are kept |
| OpenApi.MakeOperation | src/skilldock/openapi.py:192-203 | the operation record carries the settled id and Python name, and the enumerated method and path |
| OpenApi.PythonBase | src/skilldock/openapi.py:169 | the requested Python name is always an identifier |
| OpenApi.AssignNames | src/skilldock/openapi.py:161-175 | one name per request, none of them already used |
| OpenApi.AssignNamesDistinct | src/skilldock/openapi.py:161-175 | no name is handed out twice |
| OpenApi.AssignNamesEach | src/skilldock/openapi.py:161-175 | each name is the fresh choice against every earlier name |
| OpenApi.AssignNamesIdentifiers | src/skilldock/openapi.py:169-175 | numbered variants of identifiers are identifiers |
| OpenApi.BaseIds | src/skilldock/openapi.py:155-159 | the requested id of each enumerated operation, in order |
| OpenApi.PythonBases | src/skilldock/openapi.py:169 | the requested Python name of each settled id, in order |
| OpenApi.Build | src/skilldock/openapi.py:155-203 | one operation per enumerated operation |
| OpenApi.BuildLists | src/skilldock/openapi.py:155-175 | the ids and Python names of the table are the two uniqueness passes |
| OpenApi.ParseSpec | src/skilldock/openapi.py:146-205 | the spec fails exactly when the base URL or auth detection fails; it has one operation per enumerated operation, with its method, path and dict parameters, and `requires_auth` is the truth of the operation's own `security` when the key is present (even empty) and of the document's otherwise |
| OpenApi.BaseIdChoice | src/skilldock/openapi.py:156-159 | a non-blank string `operationId` is used stripped; otherwise `{method}_{path}` stripped |
| OpenApi.BuildIds | src/skilldock/openapi.py:155-167 | operation ids are pairwise distinct; each is the requested id when free, else its first free `_2`, `_3`, ... variant |
| OpenApi.BuildPythonNames | src/skilldock/openapi.py:169-175 | Python names are pairwise distinct; each is the lowercased sanitized id when free, else its first free numbered variant |
| OpenApi.BuildPythonIdentifiers | src/skilldock/openapi.py:169-175 | every Python name is an identifier |
| OpenApi.FindOperation | src/skilldock/openapi.py:124-125 | the lookup returns an operation with the asked id, and nothing exactly when no operation has it |
| OpenApi.FindOwnOperation | src/skilldock/openapi.py:124-125 | with distinct ids, every operation is found under its own id |
| OpenApi.KeyIndex | src/skilldock/openapi.py:255-256 | the position of a key agrees with dict lookup |
| OpenApi.OccursHasUrl | src/skilldock/openapi.py:241-265 | a value in which an http(s) string occurs holds a URL |
| OpenApi.ExtractFirstUrlFinds | src/skilldock/openapi.py:241-265 | a URL is found exactly when some string in the value starts with `http://` or `https://`, and what is returned is such a string from the value |
| OpenApi.FirstPreferredSound | src/skilldock/openapi.py:254-258 | a URL found under a preferred key occurs in one of the dict's values |
| OpenApi.ExtractPrefersKeys | src/skilldock/openapi.py:252-258 | in a dict, the earliest preferred key holding a URL supplies the result, ahead of every other member |
| OpenApi.PreferredSkips | src/skilldock/openapi.py:254-258 | preferred keys holding no URL are passed over |
| OpenApi.ExtractFirstItem | src/skilldock/openapi.py:246-251 | in a list, the first item holding a URL supplies the result |
| OpenApi.ItemsSkip | src/skilldock/openapi.py:247-250 | list items holding no URL are passed over |
| Quoting.Utf8 | src/skilldock/client.py:278 | UTF-8 encodes a character in one to four bytes, one exactly for ASCII |
| Quoting.HexRoundTrip | src/skilldock/client.py:277 | reading back a written hex digit gives its value |
| Quoting.Escape | src/skilldock/client.py:277 | a byte is written as `%` and two hex digits |
| Quoting.EscapeAll | src/skilldock/client.py:277 | escaping bytes gives three characters per byte, only hex digits and `%` |
| Quoting.QuoteChar | src/skilldock/client.py:277 | a character stays as it is exactly when it is unreserved |
| Quoting.Quote | src/skilldock/client.py:277 | `quote(s, safe="")` output holds only unreserved characters and `%`, so never a `/` |
| Quoting.UnquoteEscapes | src/skilldock/client.py:277 | unquoting escaped bytes gives the bytes back |
| Quoting.QuoteRoundTrip | src/skilldock/client.py:277 | unquoting a quoted string gives exactly its UTF-8 bytes |
| Quoting.QuoteFixed | src/skilldock/client.py:277 | quoting leaves a string alone exactly when every character is unreserved |
| Client.Or | src/skilldock/client.py:164 | `s or fallback` is `s` exactly when `s` is a non-empty string |
| Client.LoadSpec | src/skilldock/client.py:146-154 | the spec is the cached one when present, else the fetched one, which is then cached; a failed load is wrapped as a load failure naming the URL and caches nothing |
| Client.LoadSpecCached | src/skilldock/client.py:146-154 | once loaded, asking again gives the same spec without another fetch |
| Client.BaseUrl | src/skilldock/client.py:162-164 | a non-empty override wins without loading the spec; otherwise the spec's base URL; either way with trailing `/` removed |
| Client.Rooted | src/skilldock/client.py:193-194 | a path gets exactly one leading `/` added when it has none |
| Client.BuildUrl | src/skilldock/client.py:190-195 | an http(s) path is used as given without touching the client; otherwise the URL is the slash-stripped base URL followed by the rooted path |
| Client.UpdateGet | src/skilldock/client.py:197-199 | after `update`, a key reads the new value when the update has one, else the old one |
| Client.AuthValue | src/skilldock/client.py:36-42 | a header apiKey gets the bare token; otherwise `scheme token` with `Bearer` when the scheme is missing or empty |
| Client.OverrideValue | src/skilldock/client.py:203-206 | a configured header gets `scheme token`, or the stripped token when no scheme is configured |
| Client.AuthEntry | src/skilldock/client.py:201-209 | an auth header is set exactly when auth is asked for and a token is set; a configured header wins, then the loaded spec's strategy, then `Authorization: Bearer` |
| Client.HeaderPrecedence | src/skilldock/client.py:197-209 | the auth header overrides the caller's headers, which override the default headers |
| Client.Request | src/skilldock/client.py:175-213 | `content` with any other body raises the conflict error, the only failures being that and a failed spec load; the prepared request carries the upper-cased method, the query and body as given, the built URL and the merged headers |
| Client.SpecParamNamesFirstLoc | src/skilldock/client.py:256-262 | a name is a spec parameter name exactly when some declaration with a string name and location carries it |
| Client.Place | src/skilldock/client.py:276-281 | a popped value changes only the part of the request its location names |
| Client.Route | src/skilldock/client.py:264-281 | routing fails only with a missing path parameter |
| Client.PathSubstitution | src/skilldock/client.py:276-277 | every `{name}` in the path becomes the quoted value, which holds no `/`, `{` or `}`; the rest of the path is kept |
| Client.RouteGets | src/skilldock/client.py:264-281 | each parameter goes where its first declaration sends it: the query, the headers as a string, or nowhere; an undeclared one stays for the leftover loop |
| Client.RouteFailsIff | src/skilldock/client.py:264-273 | with tolerant routing, the loop raises exactly when a required path parameter was not passed |
| Client.LeftoversGet | src/skilldock/client.py:283-287 | every leftover param not named in the spec lands in the query unchanged, and nothing else changes |
| Client.RouteOperation | src/skilldock/client.py:251-290 | routing an operation fails exactly when the parameter loop fails, and only with a missing path parameter |
| Client.RoutingSound | src/skilldock/client.py:251-290 | query-declared and undeclared params reach the query with their value; header-declared ones reach the headers as strings over the caller's; path-declared ones never reach the query |
| Client.RouteRemainingDistinct | src/skilldock/client.py:275 | popping params keeps their keys distinct |
| Client.RoutedHeadersDistinct | src/skilldock/client.py:281 | assigning header params keeps header keys distinct |
| Client.MissingPathIff | src/skilldock/client.py:264-273 | with tolerant routing, a missing path param is raised exactly when the caller left out a required path parameter |
| Client.RouteAgrees | src/skilldock/client.py:264-281 | when no name is declared twice, tolerant routing is routing as written |
| Client.DuplicatePathParam | src/skilldock/client.py:264-281 | as written, a required path parameter declared on both the path item and the operation is reported missing although it was passed |
| Client.SecondFindsItMissing | src/skilldock/client.py:271-275 | the second declaration of a popped required path name raises |
| Client.RequestOperation | src/skilldock/client.py:230-302 | an unknown id raises not-found; a protected operation with auth asked for and no token raises auth-required before any request; otherwise the params and headers, routed as written (so a path parameter declared twice is reported missing), go to `request` with the operation's method |
| Client.FindByPythonName | src/skilldock/client.py:57-70 | the name mapping returns an operation with that Python name, and nothing exactly when none has it |
| Client.FindOwnPythonName | src/skilldock/client.py:57-70 | with distinct Python names, every operation is reached under its own name |
| Client.ProxyCall | src/skilldock/client.py:69-102 | an unknown name raises `AttributeError`; `params=` together with keyword params raises `TypeError`; keyword params alone stand in for `params` |
| Package.RelativeTo | src/skilldock/skill_package.py:48-51 | `relative_to` succeeds exactly when the root is a prefix of the path, and gives the rest |
| Package.ExcludeByName | src/skilldock/skill_package.py:47-56 | a path below the root is excluded exactly when one of its components after the root is one of the names in lines 14-30 |
| Package.ExcludeInherited | src/skilldock/skill_package.py:53-55 | everything below an excluded path is excluded too |
| Package.Collect | src/skilldock/skill_package.py:77-85 | the walk keeps at most one file per walked path |
| Package.CollectMembers | src/skilldock/skill_package.py:77-85 | a relative path is collected exactly when a walked entry there is not excluded, not a link and a regular file |
| Package.ByLowerPathOrder | src/skilldock/skill_package.py:87 | ordering by lower-cased relative path is a total preorder |
| Package.OrderedSorted | src/skilldock/skill_package.py:87 | the sort is a permutation into ascending order of lower-cased relative paths |
| Package.ArchiveRoot | src/skilldock/skill_package.py:89-95 | the folder name is the stripped explicit name, else the stripped root name; a blank one is the empty-name error, and `.`, `..` or a name containing `/` or `\` the single-folder error |
| Package.Arcname | src/skilldock/skill_package.py:102 | every archive name starts with the top folder followed by `/` |
| Package.ArcnameComponents | src/skilldock/skill_package.py:102 | splitting an archive name at `/` gives the top folder followed by the relative path's components |
| Package.Members | src/skilldock/skill_package.py:100-104 | one zip entry per file, in order, named `top/rel` |
| Package.PackedFilesContents | src/skilldock/skill_package.py:77-87 | the packed files are exactly the kept ones, as often as the walk reports them, in ascending order of lower-cased relative path |
| Package.PackageSkill | src/skilldock/skill_package.py:59-121 | a missing root, a root that is not a directory, a missing or non-file `SKILL.md` and a bad folder name are errors, each its own, and nothing else is; the file count is the number of entries written, one per packed file under the top folder; exactly one warning appears, and only when the zip exceeds the limit |
| Package.SizeNeverFails | src/skilldock/skill_package.py:110-112 | the upload limit and archive size never decide success |
| Package.SkillMdKept | src/skilldock/skill_package.py:77-85 | a regular, unlinked `SKILL.md` at the root is among the packed files |
| Package.SkillMdPacked | src/skilldock/skill_package.py:71-104 | in a successful package, a regular, unlinked `SKILL.md` is written as `top/SKILL.md` |
| Package.PackedMember | src/skilldock/skill_package.py:100-104 | every packed file has its entry under the top folder |
| Package.ArcnameSingle | src/skilldock/skill_package.py:102 | a file at the root is named `top/name` |
| Package.LinkedSkillMdDropped | src/skilldock/skill_package.py:71-85 | the `SKILL.md` check follows links but the walk skips them, so a linked `SKILL.md` passes the check and is left out of the zip |

## Left out

- Network and file I/O: the httpx call and response handling in `request` (src/skilldock/client.py:211-228), `call_operation`'s response decoding, and `load_openapi` (src/skilldock/openapi.py:58-71). The fetched spec is a field of the client record, and a failed load is one error value.
- `ApiReleaseRepository` (HTTP pagination, auth-origin checks, memo caches): the release repository is two pure functions, one listing releases by key and one looking up a release by key and version.
- Manifest and lock persistence, `_write_json_atomic` and timestamps: a run reports the manifest and lock contents it saves. The two saves are separate writes in the source. A failure between them is not modelled.
- Archive bytes: zip encoding and decoding and sha256 are not modelled. An archive is its list of entries, the packaged zip's size is a parameter, and the checksum is carried as an opaque string.
- `urlsplit`/`urlunsplit`: the origin of the OpenAPI URL (`_extract_origin`) is a parameter of `DeriveBaseUrl` and `ParseSpec`.
- `pathlib` and `rglob`: paths are lists of components with `/` as the only separator, the resolved root is given, and the directory walk is a given list of entries, each with its link and file flags.
- Unicode: `lower`, `upper`, `isdigit` and `\w` are ASCII-only. White space is Python's full `str.isspace` set. `str()` and `repr()` of JSON values do not escape quotes inside strings.
- JSON numbers are integers. A float in a spec or release record is not representable, so `str(1.5)` in server-variable substitution and the truthiness of `0.0` are not modelled.
- Sorting.SortDesc: the order is the one of a stable descending sort only when the comparison is a total preorder on the elements. For a listing that mixes versions that parse with versions that do not, the comparison can cycle, and CPython's timsort may order the candidates differently from the model.
- `OperationsProxy.__dir__` and the docstring set on the generated callable carry no behaviour and are not modelled. `guess_google_auth_url_operation` is a scoring heuristic outside the modelled core.
- src/skilldock/cli.py, src/skilldock/config.py and the MCP server and client are not part of this model.
- Error messages that the source matches with regular expressions are structured error variants. The model keeps the key-capture conditions of those patterns, not the message text.
- Resolver.Search: Python's recursion limit is a `fuel` bound, so the depth at which the source raises `RecursionError` is not modelled, only that it raises. Running out is a distinct error that is not a `SkilldockError`. ResolverSoundness.ResolveSound is partial correctness: it speaks only of resolutions that succeed.
- Resolver.SearchCandidates: candidates come from `_candidate_releases` as written, without the recheck of hydrated releases, so the resolver reproduces the hydration defect listed under Findings. Candidates.CheckedCandidates, the corrected selection, is proved separately and is not what the resolver calls.
- Files.Swap: the rename of the old directory to its backup fails only when `rmtree` left a plain file at the backup path. Other rename failures, such as permissions, are not modelled. Faults cover the move of the staged directory and the metadata write.
- Versions.CompareVersionsTransitive: transitivity is proved only among strings that all parse or that all fail to parse. Across the two kinds the order can cycle (Versions.MixedOrderCycles), so no ordering is promised for mixed listings.
- Candidates.CandidatesSorted: descending order is proved only when every listed version parses, for the same reason.
- Client.UpdateGet, Client.HeaderPrecedence, Client.LeftoversGet and Client.RoutingSound: these assume the dictionaries passed in have distinct keys, as Python dictionaries always do.
- Client.RequestOperation: parameters are routed as written, so a required path parameter declared on both the path item and the operation is reported missing, as listed under Findings. Tolerant routing (Client.MissingPathIff) is proved separately and is not what `request_operation` uses.
- Client.AuthValue, Client.OverrideValue and Client.AuthEntry: the exact header value is stated only when the scheme and token carry no surrounding whitespace. With whitespace, `strip` can also remove part of the token.
- Package.SizeNeverFails: the size warning's message text is not modelled, only its presence.

## Findings

| source | as written | input that shows it | evidently intended | confidence | as-written member | corrected member |
|---|---|---|---|---|---|---|
| src/skilldock/local_skills.py:351-364 | a release whose download URL is filled in by the per-version lookup is returned without checking the looked-up version against the requirements again | only listed release `1.0` has no download URL; the lookup of `1.0` answers `1.0.0` with one; the requirement is `<1.0.-` (`1.0` satisfies it, `1.0.0` does not) | every candidate satisfies every requirement | not executed | Candidates.HydratedCandidateFails | Candidates.CheckedCandidates |
| src/skilldock/client.py:264-281 | a path parameter declared on both the path item and the operation is popped at its first declaration, and the second declaration then reports it missing | path `/items/{id}` whose path item and operation both declare the required path parameter `id`, called with `id` given | a passed parameter is substituted once and never reported missing | not executed | Client.DuplicatePathParam | Client.MissingPathIff |
