/**
 * `package_skill`: which files of a skill folder go into the upload zip,
 * in what order and under what names. The folder is given as what a
 * recursive walk reports (each path with whether it is a symbolic link
 * and whether it is a regular file) together with what the root and its
 * `SKILL.md` are; the compressed archive itself is left abstract, so its
 * length is a parameter. Paths are lists of components, as `Path.parts`.
 */
module Package {
  import opened Wrappers
  import opened Strs
  import opened Sorting

  type Path = seq<string>

  /** `DEFAULT_MAX_UPLOAD_BYTES`: 10 MiB. */
  const DefaultMaxUploadBytes: int := 10 * 1024 * 1024

  /** `DEFAULT_EXCLUDE_NAMES`: skipped wherever they occur below the root. */
  const ExcludeNames: set<string> := {
    ".git", ".hg", ".svn", ".DS_Store", "__pycache__", ".pytest_cache", ".mypy_cache",
    ".ruff_cache", ".venv", "venv", "node_modules", "dist", "build", ".idea", ".vscode"
  }

  /** What a path is, following symbolic links (`exists()`, `is_dir()`, `is_file()`). */
  datatype Kind = Absent | Directory | RegularFile | OtherKind

  /** One path the walk yields, with `is_symlink()` and `is_file()`. */
  datatype Entry = Entry(path: Path, link: bool, file: bool)

  datatype Failure =
    | PathMissing
    | NotADirectory
    | MissingSkillMd
    | SkillMdNotFile
    | EmptyTopLevel
    | NotSingleFolder

  /** The size warning. */
  datatype Warning = Oversize(size: nat, limit: int)

  /** One zip entry: the file it was written from (relative to the root) and its name in the archive. */
  datatype Member = Member(rel: Path, arcname: string)

  /** `SkillPackage`, with the zip described by its entries in writing order. */
  datatype SkillPackage = SkillPackage(root: Path, members: seq<Member>, sizeBytes: nat, fileCount: nat, warnings: seq<Warning>)

  // ---------------------------------------------------------------------
  // _should_exclude
  // ---------------------------------------------------------------------

  /** `path.relative_to(root)`: the components after `root`, when `root` is a prefix. */
  function RelativeTo(path: Path, root: Path): (r: Option<Path>)
    ensures r.Some? <==> |root| <= |path| && path[..|root|] == root
    ensures r.Some? ==> root + r.value == path
  {
    if |root| <= |path| && path[..|root|] == root then
      assert path == path[..|root|] + path[|root|..];
      Some(path[|root|..])
    else None
  }

  /** `_should_exclude(path, root)`. */
  predicate ShouldExclude(path: Path, root: Path) {
    match RelativeTo(path, root)
    case None => true
    case Some(rel) => exists i | 0 <= i < |rel| :: rel[i] in ExcludeNames
  }

  /** Below the root, only the components after the root decide; the root's own names never do. */
  lemma ExcludeByName(root: Path, rel: Path)
    ensures ShouldExclude(root + rel, root) <==> exists i | 0 <= i < |rel| :: rel[i] in ExcludeNames
  {
    assert (root + rel)[..|root|] == root;
    assert (root + rel)[|root|..] == rel;
  }

  /** Everything below an excluded path is excluded too. */
  lemma ExcludeInherited(root: Path, rel: Path, below: Path)
    requires ShouldExclude(root + rel, root)
    ensures ShouldExclude(root + rel + below, root)
  {
    ExcludeByName(root, rel);
    assert root + rel + below == root + (rel + below);
    ExcludeByName(root, rel + below);
    var i :| 0 <= i < |rel| && rel[i] in ExcludeNames;
    assert (rel + below)[i] == rel[i];
  }

  // ---------------------------------------------------------------------
  // The walk and the ordering
  // ---------------------------------------------------------------------

  /** A walked path that goes into the zip: not excluded, not a link, a regular file. */
  predicate Keep(e: Entry, root: Path) {
    !ShouldExclude(e.path, root) && !e.link && e.file
  }

  /** The walk loop: the kept files, as paths relative to the root, in walk order. */
  function Collect(entries: seq<Entry>, root: Path): (r: seq<Path>)
    ensures |r| <= |entries|
    decreases |entries|
  {
    if |entries| == 0 then []
    else if Keep(entries[0], root) then [RelativeTo(entries[0].path, root).value] + Collect(entries[1..], root)
    else Collect(entries[1..], root)
  }

  /** A relative path is collected exactly when some kept entry lies there. */
  lemma {:induction false} CollectMembers(entries: seq<Entry>, root: Path, rel: Path)
    ensures rel in Collect(entries, root) <==> exists i | 0 <= i < |entries| :: Keep(entries[i], root) && entries[i].path == root + rel
    decreases |entries|
  {
    if |entries| > 0 {
      var t := entries[1..];
      CollectMembers(t, root, rel);
      assert forall i | 0 <= i < |t| :: t[i] == entries[i + 1];
      if Keep(entries[0], root) {
        var r0 := RelativeTo(entries[0].path, root).value;
        assert root + r0 == entries[0].path;
        assert entries[0].path == root + rel ==> r0 == rel by {
          if entries[0].path == root + rel {
            assert root + r0 == root + rel;
            assert r0 == (root + r0)[|root|..];
            assert rel == (root + rel)[|root|..];
          }
        }
      }
    }
  }

  /** `str(rel).lower()`: the sort key, with `/` between components. */
  function SortKey(rel: Path): string {
    Lower(Join(rel, "/"))
  }

  /** The comparison that makes the stable descending sort put keys in ascending order. */
  function ByLowerPath(a: Path, b: Path): int {
    LexCompare(SortKey(b), SortKey(a))
  }

  lemma ByLowerPathOrder(s: set<Path>)
    ensures TotalPreorder(ByLowerPath, s)
  {
    forall a, b | a in s && b in s
      ensures -1 <= ByLowerPath(a, b) <= 1 && ByLowerPath(a, b) == -ByLowerPath(b, a)
    {
      LexCompareAntisymmetric(SortKey(a), SortKey(b));
    }
    forall a, b, c | a in s && b in s && c in s && ByLowerPath(a, b) >= 0 && ByLowerPath(b, c) >= 0
      ensures ByLowerPath(a, c) >= 0
    {
      LexCompareAntisymmetric(SortKey(a), SortKey(b));
      LexCompareAntisymmetric(SortKey(b), SortKey(c));
      LexCompareAntisymmetric(SortKey(a), SortKey(c));
      LexCompareTransitive(SortKey(a), SortKey(b), SortKey(c));
    }
  }

  /** `files.sort(key=lambda p: str(p.relative_to(root)).lower())`, stable. */
  function Ordered(files: seq<Path>): seq<Path> {
    SortDesc(ByLowerPath, files)
  }

  /** The sort permutes the files into ascending order of their lower-cased relative paths. */
  lemma OrderedSorted(files: seq<Path>)
    ensures multiset(Ordered(files)) == multiset(files)
    ensures forall i, j | 0 <= i < j < |Ordered(files)| ::
      LexCompare(SortKey(Ordered(files)[i]), SortKey(Ordered(files)[j])) <= 0
  {
    var s := set i | 0 <= i < |files| :: files[i];
    ByLowerPathOrder(s);
    SortDescSorted(ByLowerPath, files, s);
    var r := Ordered(files);
    forall i, j | 0 <= i < j < |r| ensures LexCompare(SortKey(r[i]), SortKey(r[j])) <= 0 {
      LexCompareAntisymmetric(SortKey(r[i]), SortKey(r[j]));
    }
  }

  // ---------------------------------------------------------------------
  // The top-level folder and the archive names
  // ---------------------------------------------------------------------

  /** `root.name`: the last component, empty for the file-system root. */
  function RootName(root: Path): string {
    if |root| == 0 then "" else root[|root| - 1]
  }

  /** A name that can stand as the single top-level folder. */
  predicate SingleFolder(name: string) {
    name != [] && name != "." && name != ".." && '/' !in name && '\\' !in name
  }

  /**
   * `archive_root`: the stripped explicit name, else the stripped root
   * name; empty is one error, `.`, `..` or a separator another.
   */
  function ArchiveRoot(topLevel: Option<string>, root: Path): (r: Result<string, Failure>)
    ensures r.Ok? <==> SingleFolder(Strip(topLevel.GetOr(RootName(root))))
    ensures r.Ok? ==> r.value == Strip(topLevel.GetOr(RootName(root))) && SingleFolder(r.value)
    ensures r == Err(EmptyTopLevel) <==> AllSpace(topLevel.GetOr(RootName(root)))
  {
    var name := Strip(if topLevel.Some? then topLevel.value else RootName(root));
    StripEmpty(if topLevel.Some? then topLevel.value else RootName(root));
    if name == [] then Err(EmptyTopLevel)
    else if name == "." || name == ".." || '/' in name || '\\' in name then Err(NotSingleFolder)
    else Ok(name)
  }

  /** `f"{archive_root}/{rel}"` with the components joined by `/`. */
  function Arcname(top: string, rel: Path): (a: string)
    ensures |a| > |top| && a[..|top|] == top && a[|top|] == '/'
  {
    var a := top + "/" + Join(rel, "/");
    assert a[..|top|] == top;
    a
  }

  /** Reading an archive name back as a path gives the top folder followed by the relative path. */
  lemma ArcnameComponents(top: string, rel: Path)
    requires '/' !in top && |rel| >= 1
    requires forall k | 0 <= k < |rel| :: '/' !in rel[k]
    ensures Split(Arcname(top, rel), '/') == [top] + rel
  {
    var parts := [top] + rel;
    JoinCons(top, rel, "/");
    assert parts[1..] == rel;
    assert forall k | 0 <= k < |parts| :: '/' !in parts[k] by {
      forall k | 0 <= k < |parts| ensures '/' !in parts[k] {
        if k > 0 {
          assert parts[k] == rel[k - 1];
        }
      }
    }
    SplitJoin(parts, '/');
  }

  /** The zip entries, one per file in order. */
  function Members(top: string, files: seq<Path>): (ms: seq<Member>)
    ensures |ms| == |files|
    ensures forall i | 0 <= i < |ms| :: ms[i].rel == files[i] && ms[i].arcname == Arcname(top, files[i])
  {
    seq(|files|, i requires 0 <= i < |files| => Member(files[i], Arcname(top, files[i])))
  }

  // ---------------------------------------------------------------------
  // package_skill
  // ---------------------------------------------------------------------

  /** `members` holds one entry per file, in order, each named under `top`. */
  predicate Lists(members: seq<Member>, files: seq<Path>, top: string) {
    && |members| == |files|
    && forall i | 0 <= i < |members| :: members[i] == Member(files[i], Arcname(top, files[i]))
  }

  /** The files that go into the zip, in the order they are written. */
  function PackedFiles(entries: seq<Entry>, root: Path): seq<Path> {
    Ordered(Collect(entries, root))
  }

  /**
   * The packed files are exactly the kept ones, each once per walk report,
   * in ascending order of lower-cased relative path.
   */
  lemma PackedFilesContents(entries: seq<Entry>, root: Path)
    ensures multiset(PackedFiles(entries, root)) == multiset(Collect(entries, root))
    ensures forall rel :: rel in PackedFiles(entries, root) <==>
      exists i | 0 <= i < |entries| :: Keep(entries[i], root) && entries[i].path == root + rel
    ensures forall i, j | 0 <= i < j < |PackedFiles(entries, root)| ::
      LexCompare(SortKey(PackedFiles(entries, root)[i]), SortKey(PackedFiles(entries, root)[j])) <= 0
  {
    var files := PackedFiles(entries, root);
    OrderedSorted(Collect(entries, root));
    forall rel ensures rel in files <==> exists i | 0 <= i < |entries| :: Keep(entries[i], root) && entries[i].path == root + rel {
      CollectMembers(entries, root, rel);
      assert rel in files <==> rel in multiset(files);
      assert rel in Collect(entries, root) <==> rel in multiset(Collect(entries, root));
    }
  }

  /**
   * `package_skill(root, top_level_dir=topLevel, max_upload_bytes=maxUpload)`
   * for a resolved root; `zipSize` is the length of the archive written.
   */
  function PackageSkill(
    root: Path, rootKind: Kind, skillMd: Kind, entries: seq<Entry>,
    topLevel: Option<string>, maxUpload: int, zipSize: nat): (r: Result<SkillPackage, Failure>)
    ensures r.Ok? <==> rootKind == Directory && skillMd == RegularFile && ArchiveRoot(topLevel, root).Ok?
    ensures rootKind == Absent ==> r == Err(PathMissing)
    ensures rootKind != Absent && rootKind != Directory ==> r == Err(NotADirectory)
    ensures rootKind == Directory && skillMd == Absent ==> r == Err(MissingSkillMd)
    ensures rootKind == Directory && skillMd != Absent && skillMd != RegularFile ==> r == Err(SkillMdNotFile)
    ensures r.Ok? ==>
      && r.value.fileCount == |r.value.members| == |PackedFiles(entries, root)|
      && |r.value.warnings| <= 1
      && (r.value.warnings != [] <==> zipSize > maxUpload)
      && Lists(r.value.members, PackedFiles(entries, root), ArchiveRoot(topLevel, root).value)
  {
    if rootKind == Absent then Err(PathMissing)
    else if rootKind != Directory then Err(NotADirectory)
    else if skillMd == Absent then Err(MissingSkillMd)
    else if skillMd != RegularFile then Err(SkillMdNotFile)
    else
      var files := PackedFiles(entries, root);
      var top :- ArchiveRoot(topLevel, root);
      var members := Members(top, files);
      var warnings := if zipSize > maxUpload then [Oversize(zipSize, maxUpload)] else [];
      Ok(SkillPackage(root, members, zipSize, |members|, warnings))
  }

  /** The archive size only ever adds a warning: success does not depend on it. */
  lemma SizeNeverFails(
    root: Path, rootKind: Kind, skillMd: Kind, entries: seq<Entry>,
    topLevel: Option<string>, max1: int, size1: nat, max2: int, size2: nat)
    ensures PackageSkill(root, rootKind, skillMd, entries, topLevel, max1, size1).Ok?
      == PackageSkill(root, rootKind, skillMd, entries, topLevel, max2, size2).Ok?
  {
  }

  lemma SkillMdKept(entries: seq<Entry>, root: Path, k: nat)
    requires k < |entries| && entries[k] == Entry(root + ["SKILL.md"], false, true)
    ensures ["SKILL.md"] in PackedFiles(entries, root)
  {
    ExcludeByName(root, ["SKILL.md"]);
    assert Keep(entries[k], root);
    PackedFilesContents(entries, root);
  }

  /** A regular, unlinked `SKILL.md` at the root is always packed as `<top>/SKILL.md`. */
  lemma SkillMdPacked(
    root: Path, rootKind: Kind, skillMd: Kind, entries: seq<Entry>,
    topLevel: Option<string>, maxUpload: int, zipSize: nat, k: nat)
    requires PackageSkill(root, rootKind, skillMd, entries, topLevel, maxUpload, zipSize).Ok?
    requires k < |entries| && entries[k] == Entry(root + ["SKILL.md"], false, true)
    ensures Member(["SKILL.md"], ArchiveRoot(topLevel, root).value + "/SKILL.md")
      in PackageSkill(root, rootKind, skillMd, entries, topLevel, maxUpload, zipSize).value.members
  {
    var members := PackageSkill(root, rootKind, skillMd, entries, topLevel, maxUpload, zipSize).value.members;
    var files := PackedFiles(entries, root);
    var top := ArchiveRoot(topLevel, root).value;
    SkillMdKept(entries, root, k);
    SkillMdArcname(top);
    PackedAt(members, files, top, "SKILL.md", top + "/SKILL.md");
  }

  lemma SkillMdArcname(top: string)
    ensures top + "/SKILL.md" == top + "/" + "SKILL.md"
  {
  }

  lemma PackedAt(members: seq<Member>, files: seq<Path>, top: string, name: string, arc: string)
    requires Lists(members, files, top)
    requires [name] in files && arc == top + "/" + name
    ensures Member([name], arc) in members
  {
    PackedMember(members, files, top, [name]);
    ArcnameSingle(top, name);
  }

  lemma PackedMember(members: seq<Member>, files: seq<Path>, top: string, rel: Path)
    requires Lists(members, files, top)
    requires rel in files
    ensures Member(rel, Arcname(top, rel)) in members
  {
    var i :| 0 <= i < |files| && files[i] == rel;
    assert members[i] == Member(rel, Arcname(top, rel));
  }

  lemma ArcnameSingle(top: string, name: string)
    ensures Arcname(top, [name]) == top + "/" + name
  {
  }

  /**
   * The `SKILL.md` check follows links but the walk skips them: a linked
   * `SKILL.md` passes the check and is left out of the zip.
   */
  lemma LinkedSkillMdDropped(root: Path, topLevel: Option<string>, maxUpload: int, zipSize: nat)
    requires ArchiveRoot(topLevel, root).Ok?
    ensures var entries := [Entry(root + ["SKILL.md"], true, true)];
      var r := PackageSkill(root, Directory, RegularFile, entries, topLevel, maxUpload, zipSize);
      r.Ok? && r.value.members == []
  {
    var entries := [Entry(root + ["SKILL.md"], true, true)];
    assert !Keep(entries[0], root);
    assert Collect(entries, root) == [];
  }
}
