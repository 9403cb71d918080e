/**
 * Releases as the repository reports them, and the two parsers that
 * read them from a decoded JSON payload: `_parse_dependency_entry` and
 * `_parse_release_obj` (local_skills.py:35-48, 487-593).
 */
module Releases {
  import opened Wrappers
  import opened Strs
  import opened Errors
  import opened Refs
  import opened Json

  /** `DependencySpec`: the skill depended on, and optionally a requirement and a pinned release. */
  datatype DependencySpec = DependencySpec(ref: SkillRef, versionRequirement: Option<string>, releaseVersion: Option<string>)

  /** `SkillRelease`. */
  datatype Release = Release(
    ref: SkillRef,
    version: string,
    dependencies: seq<DependencySpec>,
    sha256: Option<string>,
    downloadUrl: Option<string>)

  /** An optional text as the parsers leave it: absent, or stripped and non-empty. */
  predicate Clean(o: Option<string>) {
    o.Some? ==> o.value != [] && Strip(o.value) == o.value
  }

  predicate CleanDependency(d: DependencySpec) {
    Clean(d.versionRequirement) && Clean(d.releaseVersion)
  }

  /** `_has_download_url`: the URL is a string with something besides whitespace. */
  predicate HasDownloadUrl(r: Release) {
    r.downloadUrl.Some? && !AllSpace(r.downloadUrl.value)
  }

  // ---------------------------------------------------------------------
  // `_parse_dependency_entry`
  // ---------------------------------------------------------------------

  /**
   * The reference of a dependency object: `namespace` and `slug` strings
   * (stripped, not validated), else a `skill` string that must parse,
   * else none.
   */
  function DictRef(raw: Json): (r: Result<Option<SkillRef>, Error>)
    ensures r.Err? ==> StrField(raw, "skill").Some? && r.error == InvalidRef(StrField(raw, "skill").value)
  {
    match (StrField(raw, "namespace"), StrField(raw, "slug"))
    case (Some(ns), Some(slug)) => Ok(Some(SkillRef(Strip(ns), Strip(slug))))
    case _ =>
      match StrField(raw, "skill")
      case Some(skill) =>
        var ref :- ParseSkillRef(skill);
        Ok(Some(ref))
      case None => Ok(None)
  }

  /**
   * `_parse_dependency_entry`: a `<ns>/<slug>[@<requirement>]` string, or
   * an object with a reference and the optional `version_requirement` and
   * `release_version`; anything else is skipped (`None`). A reference
   * that does not parse raises.
   */
  function ParseDependencyEntry(raw: Json): (r: Result<Option<DependencySpec>, Error>)
    ensures r.Ok? && r.value.Some? ==> CleanDependency(r.value.value)
    ensures r.Ok? && r.value.Some? && raw.JStr? ==> WellFormed(r.value.value.ref) && r.value.value.releaseVersion.None?
    ensures r.Err? ==> r.error.InvalidRef?
    ensures !raw.JStr? && !raw.JObj? ==> r == Ok(None)
  {
    match raw
    case JStr(s) => ParseDependencyText(Strip(s))
    case JObj(_) =>
      var ref :- DictRef(raw);
      if ref.None? then Ok(None)
      else Ok(Some(DependencySpec(ref.value, CleanField(raw, "version_requirement"), CleanField(raw, "release_version"))))
    case _ => Ok(None)
  }

  /** The string form, already stripped: `<ns>/<slug>`, optionally followed by `@<requirement>`. */
  function ParseDependencyText(spec: string): (r: Result<Option<DependencySpec>, Error>)
    ensures r.Ok? && r.value.Some? ==> CleanDependency(r.value.value)
    ensures r.Ok? && r.value.Some? ==> WellFormed(r.value.value.ref) && r.value.value.releaseVersion.None?
    ensures r.Err? ==> r.error.InvalidRef?
  {
    if spec == [] then Ok(None)
    else if '@' in spec then
      var ref :- ParseSkillRef(Before(spec, '@'));
      Ok(Some(DependencySpec(ref, NonBlank(After(spec, '@')), None)))
    else
      var ref :- ParseSkillRef(spec);
      Ok(Some(DependencySpec(ref, None, None)))
  }

  /** The dependency list: the entries that parse, in order; the first bad reference raises. */
  function ParseDependencies(items: seq<Json>): (r: Result<seq<DependencySpec>, Error>)
    ensures r.Ok? ==> |r.value| <= |items| && forall i | 0 <= i < |r.value| :: CleanDependency(r.value[i])
    ensures r.Err? ==> r.error.InvalidRef?
    decreases |items|
  {
    if |items| == 0 then Ok([])
    else
      var d :- ParseDependencyEntry(items[0]);
      var rest :- ParseDependencies(items[1..]);
      var head := if d.Some? then [d.value] else [];
      Ok(head + rest)
  }

  // ---------------------------------------------------------------------
  // `_parse_release_obj`
  // ---------------------------------------------------------------------

  /** The release record: a nested `release` object if there is one, else the object itself. */
  function ReleaseData(obj: Json): Json {
    match Get(obj, "release")
    case Some(JObj(fields)) => JObj(fields)
    case _ => obj
  }

  /** A file entry the loop considers: an object with a string `download_url`. */
  predicate Eligible(f: Json) {
    f.JObj? && StrField(f, "download_url").Some?
  }

  /** `str(f.get("kind", "")).strip().lower()` is one of the preferred archive kinds. */
  predicate PreferredKind(f: Json) {
    match Get(f, "kind")
    case Some(JStr(k)) => Lower(Strip(k)) in {"archive", "source", "zip"}
    case _ => false
  }

  /**
   * The file-selection loop: an eligible entry of a preferred kind is
   * taken at once; otherwise the first eligible entry is remembered.
   */
  function ChooseFile(files: seq<Json>, chosen: Option<Json>): Option<Json>
    decreases |files|
  {
    if |files| == 0 then chosen
    else
      var f := files[0];
      if !Eligible(f) then ChooseFile(files[1..], chosen)
      else if PreferredKind(f) then Some(f)
      else ChooseFile(files[1..], if chosen.None? then Some(f) else chosen)
  }

  /** An eligible entry, of a preferred kind when `preferred` is set. */
  predicate Wanted(f: Json, preferred: bool) {
    Eligible(f) && (preferred ==> PreferredKind(f))
  }

  /** The index of the first wanted entry, if any. */
  function FirstWanted(files: seq<Json>, preferred: bool): (r: Option<nat>)
    ensures r.Some? ==> r.value < |files| && Wanted(files[r.value], preferred)
    ensures r.Some? ==> forall j | 0 <= j < r.value :: !Wanted(files[j], preferred)
    ensures r.None? ==> forall j | 0 <= j < |files| :: !Wanted(files[j], preferred)
    decreases |files|
  {
    if |files| == 0 then None
    else if Wanted(files[0], preferred) then Some(0)
    else
      match FirstWanted(files[1..], preferred)
      case None => None
      case Some(i) => Some(i + 1)
  }

  /** Text from the chosen file, else from the release record itself. */
  function FieldOf(chosen: Option<Json>, data: Json, key: string): (r: Option<string>)
    ensures Clean(r)
  {
    var fromFile := if chosen.Some? then CleanField(chosen.value, key) else None;
    if fromFile.Some? then fromFile else CleanField(data, key)
  }

  /**
   * `_parse_release_obj`: `None` unless the record has a non-blank string
   * `version`; the download URL and checksum come from the chosen file
   * entry when it has them, else from the record.
   */
  function ParseReleaseObj(obj: Json, ref: SkillRef): (r: Result<Option<Release>, Error>)
    ensures r == Ok(None) <==> !obj.JObj? || CleanField(ReleaseData(obj), "version").None?
    ensures r.Ok? && r.value.Some? ==>
      var rel := r.value.value;
      rel.ref == ref && rel.version == CleanField(ReleaseData(obj), "version").value
      && Clean(rel.sha256) && Clean(rel.downloadUrl)
      && forall i | 0 <= i < |rel.dependencies| :: CleanDependency(rel.dependencies[i])
    ensures r.Err? ==> r.error.InvalidRef?
  {
    if !obj.JObj? then Ok(None)
    else
      var data := ReleaseData(obj);
      match CleanField(data, "version")
      case None => Ok(None)
      case Some(version) =>
        var deps :- match Get(data, "dependencies")
          case Some(JArr(items)) => ParseDependencies(items)
          case _ => Ok([]);
        var files := match Get(data, "files") case Some(JArr(items)) => items case _ => [];
        var chosen := ChooseFile(files, None);
        Ok(Some(Release(ref, version, deps, FieldOf(chosen, data, "sha256"), FieldOf(chosen, data, "download_url"))))
  }

  // ---------------------------------------------------------------------
  // Properties
  // ---------------------------------------------------------------------

  /** After an eligible entry has been remembered, the loop ends on a preferred entry or that one. */
  lemma {:induction false} ChooseFileFallback(files: seq<Json>, f: Json)
    ensures ChooseFile(files, Some(f))
      == match FirstWanted(files, true) case Some(i) => Some(files[i]) case None => Some(f)
    decreases |files|
  {
    if |files| > 0 {
      ChooseFileFallback(files[1..], f);
    }
  }

  /**
   * The chosen file is the first eligible entry of a preferred kind, else
   * the first eligible entry, else none.
   */
  lemma {:induction false} ChosenFile(files: seq<Json>)
    ensures ChooseFile(files, None)
      == match FirstWanted(files, true)
         case Some(i) => Some(files[i])
         case None => match FirstWanted(files, false) case Some(i) => Some(files[i]) case None => None
    decreases |files|
  {
    if |files| > 0 {
      if !Eligible(files[0]) {
        ChosenFile(files[1..]);
      } else if !PreferredKind(files[0]) {
        ChooseFileFallback(files[1..], files[0]);
      }
    }
  }

  /** A parsed release that has a URL has a download URL in the sense of `_has_download_url`. */
  lemma ParsedUrlUsable(r: Release)
    requires Clean(r.downloadUrl) && r.downloadUrl.Some?
    ensures HasDownloadUrl(r)
  {
    StripEmpty(r.downloadUrl.value);
  }

  // The object form of a dependency, as the lock file writes it
  // (local_skills.py:820-826), reads back as the same dependency.

  function OptField(key: string, o: Option<string>): seq<(string, Json)> {
    if o.Some? then [(key, JStr(o.value))] else []
  }

  function DependencyJson(d: DependencySpec): Json {
    JObj([("namespace", JStr(d.ref.namespace))] + ([("slug", JStr(d.ref.slug))] + OptionalFields(d)))
  }

  function OptionalFields(d: DependencySpec): seq<(string, Json)> {
    OptField("version_requirement", d.versionRequirement) + OptField("release_version", d.releaseVersion)
  }

  lemma OptFieldLookup(key: string, o: Option<string>, k: string)
    ensures Lookup(OptField(key, o), k) == if o.Some? && key == k then Some(JStr(o.value)) else None
  {
    if o.Some? {
      LookupCons(key, JStr(o.value), [], k);
    }
  }

  lemma OptionalLookup(d: DependencySpec, k: string)
    requires k == "version_requirement" || k == "release_version"
    ensures StrField(DependencyJson(d), k)
      == if k == "version_requirement" then d.versionRequirement else d.releaseVersion
  {
    var tail := OptionalFields(d);
    LookupCons("namespace", JStr(d.ref.namespace), [("slug", JStr(d.ref.slug))] + tail, k);
    LookupCons("slug", JStr(d.ref.slug), tail, k);
    LookupAppend(OptField("version_requirement", d.versionRequirement), OptField("release_version", d.releaseVersion), k);
    OptFieldLookup("version_requirement", d.versionRequirement, k);
    OptFieldLookup("release_version", d.releaseVersion, k);
  }

  lemma RefLookup(d: DependencySpec)
    ensures StrField(DependencyJson(d), "namespace") == Some(d.ref.namespace)
    ensures StrField(DependencyJson(d), "slug") == Some(d.ref.slug)
  {
    var tail := OptionalFields(d);
    LookupCons("namespace", JStr(d.ref.namespace), [("slug", JStr(d.ref.slug))] + tail, "namespace");
    LookupCons("namespace", JStr(d.ref.namespace), [("slug", JStr(d.ref.slug))] + tail, "slug");
    LookupCons("slug", JStr(d.ref.slug), tail, "slug");
  }

  lemma DependencyFields(d: DependencySpec)
    ensures StrField(DependencyJson(d), "namespace") == Some(d.ref.namespace)
    ensures StrField(DependencyJson(d), "slug") == Some(d.ref.slug)
    ensures StrField(DependencyJson(d), "version_requirement") == d.versionRequirement
    ensures StrField(DependencyJson(d), "release_version") == d.releaseVersion
  {
    RefLookup(d);
    OptionalLookup(d, "version_requirement");
    OptionalLookup(d, "release_version");
  }

  lemma CleanNonBlank(o: Option<string>)
    requires Clean(o) && o.Some?
    ensures NonBlank(o.value) == o
  {
    StripEmpty(o.value);
  }

  lemma DictRefOf(d: DependencySpec)
    ensures DictRef(DependencyJson(d)) == Ok(Some(SkillRef(Strip(d.ref.namespace), Strip(d.ref.slug))))
  {
    RefLookup(d);
  }

  lemma CleanFieldsOf(d: DependencySpec)
    requires CleanDependency(d)
    ensures CleanField(DependencyJson(d), "version_requirement") == d.versionRequirement
    ensures CleanField(DependencyJson(d), "release_version") == d.releaseVersion
  {
    OptionalLookup(d, "version_requirement");
    OptionalLookup(d, "release_version");
    if d.versionRequirement.Some? {
      CleanNonBlank(d.versionRequirement);
    }
    if d.releaseVersion.Some? {
      CleanNonBlank(d.releaseVersion);
    }
  }

  lemma DependencyRoundTrip(d: DependencySpec)
    requires Strip(d.ref.namespace) == d.ref.namespace && Strip(d.ref.slug) == d.ref.slug
    requires CleanDependency(d)
    ensures ParseDependencyEntry(DependencyJson(d)) == Ok(Some(d))
  {
    DictRefOf(d);
    CleanFieldsOf(d);
  }

  /** The `<key>@<requirement>` string form reads back as a requirement on that skill. */
  lemma ShorthandDependency(ref: SkillRef, req: string)
    requires WellFormed(ref) && '@' !in ref.Key() && Trimmed(req)
    ensures ParseDependencyEntry(JStr(ref.Key() + "@" + req)) == Ok(Some(DependencySpec(ref, Some(req), None)))
  {
    var k := ref.Key();
    var s := k + "@" + req;
    assert k[0] == ref.namespace[0];
    ShorthandText(k, req);
    ParseKey(ref);
    ShorthandParsed(s, ref);
    NonBlankTrimmed(req);
  }

  lemma NonBlankTrimmed(s: string)
    requires Trimmed(s)
    ensures NonBlank(s) == Some(s)
  {
    TrimmedStrip(s);
    StripEmpty(s);
  }

  /** A string entry is read as its stripped text. */
  lemma StrippedEntry(s: string)
    ensures ParseDependencyEntry(JStr(s)) == ParseDependencyText(Strip(s))
  {
  }

  lemma ShorthandParsed(s: string, ref: SkillRef)
    requires s != [] && '@' in s && ParseSkillRef(Before(s, '@')) == Ok(ref)
    ensures ParseDependencyText(s) == Ok(Some(DependencySpec(ref, NonBlank(After(s, '@')), None)))
  {
  }

  /** `<key>@<req>` with both parts trimmed is already stripped and splits at its only `@`. */
  lemma ShorthandText(k: string, req: string)
    requires |k| > 0 && !IsSpace(k[0]) && '@' !in k && Trimmed(req)
    ensures var s := k + "@" + req;
      ParseDependencyEntry(JStr(s)) == ParseDependencyText(s) && '@' in s && Before(s, '@') == k && After(s, '@') == req
  {
    var s := k + "@" + req;
    assert s[0] == k[0] && s[|s| - 1] == req[|req| - 1];
    TrimmedStrip(s);
    assert s == k + ['@'] + req;
    assert s[|k|] == '@';
    BeforeAfterJoin(k, '@', req);
    StrippedEntry(s);
  }

  /** The bare key form reads back as an unconstrained dependency. */
  lemma KeyDependency(ref: SkillRef)
    requires WellFormed(ref) && '@' !in ref.Key()
    ensures ParseDependencyEntry(JStr(ref.Key())) == Ok(Some(DependencySpec(ref, None, None)))
  {
    var k := ref.Key();
    assert k[0] == ref.namespace[0] && k[|k| - 1] == ref.slug[|ref.slug| - 1];
    TrimmedStrip(k);
    ParseKey(ref);
  }

  /** A dependency the object form carries exactly: stripped reference parts, clean optional texts. */
  predicate Writable(d: DependencySpec) {
    Strip(d.ref.namespace) == d.ref.namespace && Strip(d.ref.slug) == d.ref.slug && CleanDependency(d)
  }

  lemma UnfoldDependencies(items: seq<Json>, d: DependencySpec, rest: seq<DependencySpec>)
    requires |items| > 0
    requires ParseDependencyEntry(items[0]) == Ok(Some(d))
    requires ParseDependencies(items[1..]) == Ok(rest)
    ensures ParseDependencies(items) == Ok([d] + rest)
  {
  }

  /** Entries that each read as a dependency read, as a list, as those dependencies in order. */
  lemma {:induction false} AllEntriesParse(items: seq<Json>, ds: seq<DependencySpec>)
    requires |items| == |ds|
    requires forall i | 0 <= i < |ds| :: ParseDependencyEntry(items[i]) == Ok(Some(ds[i]))
    ensures ParseDependencies(items) == Ok(ds)
    decreases |ds|
  {
    if |ds| > 0 {
      var ts, ti := ds[1..], items[1..];
      forall i | 0 <= i < |ts| ensures ParseDependencyEntry(ti[i]) == Ok(Some(ts[i])) {
        assert ti[i] == items[i + 1] && ts[i] == ds[i + 1];
      }
      AllEntriesParse(ti, ts);
      UnfoldDependencies(items, ds[0], ts);
      assert ds == [ds[0]] + ts;
    }
  }

  /** A list of dependency objects reads back as the same dependencies, in order. */
  lemma DependenciesRoundTrip(ds: seq<DependencySpec>, items: seq<Json>)
    requires |items| == |ds|
    requires forall i | 0 <= i < |ds| :: Writable(ds[i]) && items[i] == DependencyJson(ds[i])
    ensures ParseDependencies(items) == Ok(ds)
  {
    forall i | 0 <= i < |ds| ensures ParseDependencyEntry(items[i]) == Ok(Some(ds[i])) {
      DependencyRoundTrip(ds[i]);
    }
    AllEntriesParse(items, ds);
  }

  // A release record with object-form dependencies and record-level URL
  // and checksum reads back as the same release.

  function DependencyItems(ds: seq<DependencySpec>): (items: seq<Json>)
    ensures |items| == |ds| && forall i | 0 <= i < |ds| :: items[i] == DependencyJson(ds[i])
  {
    seq(|ds|, i requires 0 <= i < |ds| => DependencyJson(ds[i]))
  }

  function ReleaseFields(rel: Release): seq<(string, Json)> {
    OptField("sha256", rel.sha256) + OptField("download_url", rel.downloadUrl)
  }

  function ReleaseJson(rel: Release): Json {
    JObj([("version", JStr(rel.version))]
      + ([("dependencies", JArr(DependencyItems(rel.dependencies)))] + ReleaseFields(rel)))
  }

  lemma ReleaseLookup(rel: Release, k: string)
    requires k in {"release", "files", "version", "dependencies", "sha256", "download_url"}
    ensures Get(ReleaseJson(rel), k)
      == if k == "version" then Some(JStr(rel.version))
         else if k == "dependencies" then Some(JArr(DependencyItems(rel.dependencies)))
         else if k == "sha256" && rel.sha256.Some? then Some(JStr(rel.sha256.value))
         else if k == "download_url" && rel.downloadUrl.Some? then Some(JStr(rel.downloadUrl.value))
         else None
  {
    var tail := ReleaseFields(rel);
    LookupCons("version", JStr(rel.version), [("dependencies", JArr(DependencyItems(rel.dependencies)))] + tail, k);
    LookupCons("dependencies", JArr(DependencyItems(rel.dependencies)), tail, k);
    LookupAppend(OptField("sha256", rel.sha256), OptField("download_url", rel.downloadUrl), k);
    OptFieldLookup("sha256", rel.sha256, k);
    OptFieldLookup("download_url", rel.downloadUrl, k);
  }

  lemma ReleaseShape(rel: Release)
    ensures ReleaseData(ReleaseJson(rel)) == ReleaseJson(rel)
    ensures Get(ReleaseJson(rel), "files") == None
    ensures StrField(ReleaseJson(rel), "version") == Some(rel.version)
  {
    ReleaseLookup(rel, "release");
    ReleaseLookup(rel, "files");
    ReleaseLookup(rel, "version");
  }

  lemma ReleaseOptional(rel: Release, k: string)
    requires k == "sha256" || k == "download_url"
    requires Clean(if k == "sha256" then rel.sha256 else rel.downloadUrl)
    ensures CleanField(ReleaseJson(rel), k) == if k == "sha256" then rel.sha256 else rel.downloadUrl
  {
    var o := if k == "sha256" then rel.sha256 else rel.downloadUrl;
    assert StrField(ReleaseJson(rel), k) == o by {
      ReleaseLookup(rel, k);
    }
    if o.Some? {
      CleanNonBlank(o);
    }
  }

  lemma ReleaseVersion(rel: Release)
    requires rel.version != [] && Strip(rel.version) == rel.version
    ensures CleanField(ReleaseJson(rel), "version") == Some(rel.version)
  {
    ReleaseShape(rel);
    CleanNonBlank(Some(rel.version));
  }

  /** `_parse_release_obj` reads back every release written in the record form. */
  lemma ReleaseRoundTrip(rel: Release)
    requires Clean(rel.sha256) && Clean(rel.downloadUrl)
    requires rel.version != [] && Strip(rel.version) == rel.version
    requires forall i | 0 <= i < |rel.dependencies| :: Writable(rel.dependencies[i])
    ensures ParseReleaseObj(ReleaseJson(rel), rel.ref) == Ok(Some(rel))
  {
    ReleaseShape(rel);
    ReleaseVersion(rel);
    ReleaseOptional(rel, "sha256");
    ReleaseOptional(rel, "download_url");
    ReleaseLookup(rel, "dependencies");
    DependenciesRoundTrip(rel.dependencies, DependencyItems(rel.dependencies));
  }
}
