/**
 * The archive installer of the local skill manager over an abstract file
 * system: `_safe_extract_zip` (local_skills.py:707-728),
 * `_install_archive` (859-899) and `_remove_skill` (901-910).
 *
 * The file system is a map from absolute paths, written as sequences of
 * components (the root `/` is the empty sequence and is never a key), to
 * nodes. A path "exists" when something is stored at it or below it.
 * Failures of the operating system that the code does not catch become
 * the `FileSystem` error; the two failures the installer rolls back from
 * (the move of the unpacked tree and the metadata write) are chosen by a
 * `Fault` parameter.
 */
module Files {
  import opened Wrappers
  import opened Strs
  import opened Errors
  import opened Refs

  type Path = seq<string>

  /** File contents: opaque bytes, or the `.skilldock-meta.json` the installer writes. */
  datatype Content =
    | Blob(data: string)
    | InstallMeta(namespace: string, slug: string, version: string, sha256: Option<string>)

  datatype Node = Dir | File(content: Content)

  type FS = map<Path, Node>

  const SkillMd := "SKILL.md"
  const MetaName := ".skilldock-meta.json"
  const BackupSuffix := ".skilldock-backup"
  const TmpName := ".tmp"
  const UnpackedName := "unpacked"

  /** `p.exists()`. */
  predicate Exists(fs: FS, p: Path) {
    exists q | q in fs :: p <= q
  }

  predicate IsFile(fs: FS, p: Path) {
    p in fs && fs[p].File?
  }

  predicate IsDir(fs: FS, p: Path) {
    p in fs && fs[p].Dir?
  }

  /** Neither path lies at or below the other. */
  predicate Disjoint(p: Path, q: Path) {
    !(p <= q) && !(q <= p)
  }

  /** Two prefixes of one path are prefixes of each other. */
  lemma PrefixesComparable(p: Path, q: Path, x: Path)
    requires p <= x && q <= x
    ensures p <= q || q <= p
  {
    if |p| <= |q| {
      assert p == x[..|p|] && q == x[..|q|];
      assert q[..|p|] == p;
    } else {
      assert p == x[..|p|] && q == x[..|q|];
      assert p[..|q|] == q;
    }
  }

  // ---------------------------------------------------------------------
  // Whole-tree operations
  // ---------------------------------------------------------------------

  /** Everything at or below `p` is gone: the source side of a rename, or a directory removed in full. */
  function RemoveAll(fs: FS, p: Path): (r: FS)
    ensures forall q :: q in r <==> q in fs && !(p <= q)
    ensures forall q | q in r :: r[q] == fs[q]
    ensures !Exists(r, p)
  {
    map q | q in fs && !(p <= q) :: fs[q]
  }

  /** A regular file with nothing recorded below it. */
  predicate PlainFile(fs: FS, p: Path) {
    IsFile(fs, p) && forall q | q in fs :: !(p < q)
  }

  /** What `rmtree` can leave at `p`: nothing, or a plain file. */
  predicate Cleared(fs: FS, p: Path) {
    Exists(fs, p) ==> PlainFile(fs, p)
  }

  /**
   * `shutil.rmtree(p, ignore_errors=True)`: a directory goes with
   * everything below it; on a plain file `rmtree` raises, the error is
   * ignored and the file stays.
   */
  function RemoveTree(fs: FS, p: Path): (r: FS)
    ensures PlainFile(fs, p) ==> r == fs
    ensures !PlainFile(fs, p) ==> !Exists(r, p)
    ensures forall q | q in r :: q in fs && r[q] == fs[q]
    ensures forall q | q in fs && !(p <= q) :: q in r
    ensures Cleared(r, p)
  {
    if PlainFile(fs, p) then fs else RemoveAll(fs, p)
  }

  /** What is stored at or below `p`, keyed by the path relative to `p`. */
  function Subtree(fs: FS, p: Path): (r: FS)
    ensures forall x :: x in r <==> p + x in fs
    ensures forall x | x in r :: r[x] == fs[p + x]
  {
    var keys := set q | q in fs && p <= q :: q[|p|..];
    assert forall x | x in keys :: p + x in fs by {
      forall x | x in keys ensures p + x in fs {
        var q :| q in fs && p <= q && x == q[|p|..];
        assert p + x == q;
      }
    }
    assert forall x | p + x in fs :: x in keys by {
      forall x | p + x in fs ensures x in keys {
        assert (p + x)[|p|..] == x;
      }
    }
    map x | x in keys :: fs[p + x]
  }

  /** The tree `t` placed at `p`, over whatever is there. */
  function Graft(fs: FS, p: Path, t: FS): (r: FS)
    ensures forall x :: p + x in r <==> p + x in fs || x in t
    ensures forall x | x in t :: r[p + x] == t[x]
    ensures forall x | p + x in fs && x !in t :: r[p + x] == fs[p + x]
    ensures forall q | !(p <= q) :: (q in r <==> q in fs) && (q in r ==> r[q] == fs[q])
  {
    var keys := set x | x in t :: p + x;
    assert forall q | q in keys :: p <= q && q[|p|..] in t by {
      forall q | q in keys ensures p <= q && q[|p|..] in t {
        var x :| x in t && q == p + x;
        assert q[|p|..] == x;
      }
    }
    var g := map q | q in keys :: t[q[|p|..]];
    assert forall x :: p + x in g <==> x in t by {
      forall x ensures p + x in g <==> x in t {
        assert (p + x)[|p|..] == x;
      }
    }
    assert forall x | x in t :: g[p + x] == t[x] by {
      forall x | x in t ensures g[p + x] == t[x] {
        assert (p + x)[|p|..] == x;
      }
    }
    fs + g
  }

  /** `os.rename` / `shutil.move` of a whole tree. */
  function Move(fs: FS, from: Path, to: Path): FS {
    Graft(RemoveAll(fs, from), to, Subtree(fs, from))
  }

  /** Removing a tree disjoint from `p` leaves what is below `p` alone. */
  lemma SubtreeRemoveTreeDisjoint(fs: FS, p: Path, q: Path)
    requires Disjoint(p, q)
    ensures Subtree(RemoveTree(fs, q), p) == Subtree(fs, p)
  {
    if !PlainFile(fs, q) {
      SubtreeRemoveDisjoint(fs, p, q);
    }
  }

  lemma SubtreeRemoveDisjoint(fs: FS, p: Path, q: Path)
    requires Disjoint(p, q)
    ensures Subtree(RemoveAll(fs, q), p) == Subtree(fs, p)
  {
    forall x | p + x in fs ensures !(q <= p + x) {
      if q <= p + x {
        PrefixesComparable(p, q, p + x);
      }
    }
  }

  lemma SubtreeGraftDisjoint(fs: FS, p: Path, q: Path, t: FS)
    requires Disjoint(p, q)
    ensures Subtree(Graft(fs, q, t), p) == Subtree(fs, p)
  {
    forall x ensures !(q <= p + x) {
      if q <= p + x {
        PrefixesComparable(p, q, p + x);
      }
    }
  }

  /** Moving a tree away and back gives the same tree; moving it to `to` puts it there. */
  lemma SubtreeMoved(fs: FS, from: Path, to: Path)
    requires !Exists(fs, to)
    ensures Subtree(Move(fs, from, to), to) == Subtree(fs, from)
  {
    var r := Move(fs, from, to);
    forall x ensures (to + x in r <==> from + x in fs) && (to + x in r ==> r[to + x] == fs[from + x]) {
      MovedAt(fs, from, to, x);
    }
    SubtreeEq(r, to, fs, from);
  }

  /** A plain file renamed onto a plain file replaces it. */
  lemma SubtreeMovedOver(fs: FS, from: Path, to: Path)
    requires PlainFile(fs, from) && PlainFile(fs, to)
    ensures Subtree(Move(fs, from, to), to) == Subtree(fs, from)
  {
    var r := Move(fs, from, to);
    forall x ensures (to + x in r <==> from + x in fs) && (to + x in r ==> r[to + x] == fs[from + x]) {
      MovedOverAt(fs, from, to, x);
    }
    SubtreeEq(r, to, fs, from);
  }

  lemma MovedOverAt(fs: FS, from: Path, to: Path, x: Path)
    requires PlainFile(fs, from) && PlainFile(fs, to)
    ensures var r := Move(fs, from, to);
      (to + x in r <==> from + x in fs) && (to + x in r ==> r[to + x] == fs[from + x])
  {
    assert from + [] == from && to + [] == to;
  }

  /** Two subtrees are equal when they agree path by path. */
  lemma SubtreeEq(a: FS, p: Path, b: FS, q: Path)
    requires forall x :: (p + x in a <==> q + x in b) && (p + x in a ==> a[p + x] == b[q + x])
    ensures Subtree(a, p) == Subtree(b, q)
  {
  }

  lemma MovedAt(fs: FS, from: Path, to: Path, x: Path)
    requires !Exists(fs, to)
    ensures var r := Move(fs, from, to);
      (to + x in r <==> from + x in fs) && (from + x in fs ==> r[to + x] == fs[from + x])
  {
    assert to <= to + x;
  }

  /** After a move nothing is left at the old place. */
  lemma MoveVacates(fs: FS, from: Path, to: Path)
    requires Disjoint(from, to)
    ensures !Exists(Move(fs, from, to), from)
  {
    var r := Move(fs, from, to);
    forall q | q in r ensures !(from <= q) {
      if from <= q && to <= q {
        PrefixesComparable(from, to, q);
      }
    }
  }

  lemma SubtreeMovedAway(fs: FS, from: Path, to: Path, p: Path)
    requires Disjoint(from, to) && Disjoint(p, from) && Disjoint(p, to)
    ensures Subtree(Move(fs, from, to), p) == Subtree(fs, p)
  {
    SubtreeRemoveDisjoint(fs, p, from);
    SubtreeGraftDisjoint(RemoveAll(fs, from), p, to, Subtree(fs, from));
  }

  lemma StrictlyBelow(a: FS, b: FS, p: Path, q: Path)
    requires Subtree(a, p) == Subtree(b, p) && q in b && p < q
    ensures p + q[|p|..] in a && p < p + q[|p|..]
  {
    assert p + q[|p|..] == q;
  }

  /** Whether `p` is cleared depends only on what lies at or below `p`. */
  lemma ClearedSubtree(a: FS, b: FS, p: Path)
    requires Subtree(a, p) == Subtree(b, p) && Cleared(a, p)
    ensures Cleared(b, p)
  {
    assert p + [] == p;
    if Exists(b, p) {
      var q :| q in b && p <= q;
      assert p + q[|p|..] == q;
      assert q[|p|..] in Subtree(a, p);
      forall q' | q' in b ensures !(p < q') {
        if p < q' {
          StrictlyBelow(a, b, p, q');
        }
      }
    }
  }

  /** Nothing is stored at or below a path exactly when its subtree is empty. */
  lemma SubtreeEmpty(fs: FS, p: Path)
    ensures !Exists(fs, p) <==> Subtree(fs, p) == map[]
  {
    if Exists(fs, p) {
      var q :| q in fs && p <= q;
      assert p + q[|p|..] == q;
      assert q[|p|..] in Subtree(fs, p);
    }
  }

  // ---------------------------------------------------------------------
  // mkdir(parents=True, exist_ok=True) and writing a file
  // ---------------------------------------------------------------------

  /** The non-root ancestors of `p`, and `p` itself. */
  function Prefixes(p: Path): set<Path> {
    set i | 1 <= i <= |p| :: p[..i]
  }

  /**
   * `p.mkdir(parents=True, exist_ok=True)`: every missing directory on
   * the way is created; a file anywhere on the way, `p` included, makes
   * it fail.
   */
  function MkdirAll(fs: FS, p: Path): (r: Result<FS, Error>)
    ensures r.Err? <==> exists q | q in Prefixes(p) :: IsFile(fs, q)
    ensures r.Err? ==> r.error == FileSystem
    ensures r.Ok? ==> forall q | q in Prefixes(p) :: IsDir(r.value, q)
    ensures r.Ok? ==> forall q | q in fs :: q in r.value && r.value[q] == fs[q]
    ensures r.Ok? ==> forall q | q in r.value :: q in fs || q in Prefixes(p)
  {
    if exists q | q in Prefixes(p) :: IsFile(fs, q) then Err(FileSystem)
    else Ok(fs + map q | q in Prefixes(p) :: Dir)
  }

  /** `p.parent.mkdir(parents=True, exist_ok=True)` then `p.open("wb")`: a directory at `p` cannot be opened. */
  function WriteFile(fs: FS, p: Path, c: Content): (r: Result<FS, Error>)
    ensures r.Ok? ==> p in r.value && r.value[p] == File(c)
    ensures r.Err? ==> r.error == FileSystem
  {
    if |p| == 0 then Err(FileSystem)
    else
      match MkdirAll(fs, p[..|p| - 1])
      case Err(e) => Err(e)
      case Ok(fs1) => if IsDir(fs1, p) then Err(FileSystem) else Ok(fs1[p := File(c)])
  }

  // ---------------------------------------------------------------------
  // Entry names
  // ---------------------------------------------------------------------

  /**
   * `(base / name).resolve()` for a relative name split at `/`: empty
   * and `.` components are dropped, `..` goes up one level (and stays at
   * the root), anything else goes down.
   */
  function ResolvePath(base: Path, comps: seq<string>): (r: Path)
    decreases |comps|
  {
    if |comps| == 0 then base
    else
      var c := comps[0];
      var next :=
        if c == "" || c == "." then base
        else if c == ".." then (if |base| == 0 then base else base[..|base| - 1])
        else base + [c];
      ResolvePath(next, comps[1..])
  }

  function Target(base: Path, name: string): Path {
    ResolvePath(base, Split(name, '/'))
  }

  /**
   * The two guards of the extraction loop: a name starting with `/` is
   * an absolute path entry; a name whose target is neither the unpack
   * root nor below it is an invalid path entry.
   */
  function Rejected(base: Path, name: string): (r: Option<Error>)
    ensures r.Some? ==> r.value == ArchiveAbsolute(name) || r.value == ArchiveInvalid(name)
    ensures r.None? && name != "" ==> base <= Target(base, name)
  {
    if name == "" then None
    else if StartsWith(name, "/") then Some(ArchiveAbsolute(name))
    else if !(base <= Target(base, name)) then Some(ArchiveInvalid(name))
    else None
  }

  /** Without `..` components a name cannot leave the directory it starts from. */
  lemma {:induction false} ResolveStaysBelow(base: Path, comps: seq<string>)
    requires ".." !in comps
    ensures base <= ResolvePath(base, comps)
    decreases |comps|
  {
    if |comps| > 0 {
      var c := comps[0];
      assert c != "..";
      var next := if c == "" || c == "." then base else base + [c];
      assert ".." !in comps[1..] by {
        forall k | 0 <= k < |comps| - 1 ensures comps[1..][k] != ".." {
          assert comps[1..][k] == comps[k + 1];
        }
      }
      ResolveStaysBelow(next, comps[1..]);
    }
  }

  /** A relative name with no `..` component is never rejected. */
  lemma NoParentAccepted(base: Path, name: string)
    requires !StartsWith(name, "/") && ".." !in Split(name, '/')
    ensures Rejected(base, name) == None
  {
    ResolveStaysBelow(base, Split(name, '/'));
  }

  /** `../x` leaves the unpack root unless `x` names the unpack root itself. */
  lemma ParentEscapes(base: Path, x: string)
    requires |base| > 0 && x != base[|base| - 1]
    requires x != "" && x != "." && x != ".." && '/' !in x
    ensures Rejected(base, "../" + x) == Some(ArchiveInvalid("../" + x))
  {
    var name := "../" + x;
    assert name == ".." + ("/" + x);
    SplitPrefix("..", "/" + x, '/');
    assert ("/" + x)[1..] == x;
    SplitPrefix(x, [], '/');
    assert x + [] == x;
    assert Split(x, '/') == [x];
    assert Split("/" + x, '/') == [[]] + [x];
    assert ".." + [] == "..";
    assert Split(name, '/') == ["..", x];
    var up := base[..|base| - 1];
    assert ResolvePath(base, ["..", x]) == ResolvePath(up, [x]);
    assert ResolvePath(up, [x]) == ResolvePath(up + [x], []);
  }

  // ---------------------------------------------------------------------
  // _safe_extract_zip
  // ---------------------------------------------------------------------

  /** A zip entry; a name ending with `/` is a directory (`ZipInfo.is_dir`). */
  datatype Entry = Entry(name: string, data: string)

  /** `b` differs from `a` outside `p` only by directories created on the way to `p`. */
  predicate OnlyInside(a: FS, b: FS, p: Path) {
    (forall q | q in a && !(p <= q) :: q in b && b[q] == a[q])
    && (forall q | q in b && !(p <= q) && q !in a :: q < p && b[q] == Dir)
  }

  /** Every directory on the way to `p`, `p` included, is a directory. */
  predicate Anchored(fs: FS, p: Path) {
    forall q | q in Prefixes(p) :: IsDir(fs, q)
  }

  /** Creating directories below an anchored `base` changes nothing outside it. */
  lemma MkdirInside(fs: FS, base: Path, t: Path)
    requires Anchored(fs, base) && base <= t && MkdirAll(fs, t).Ok?
    ensures OnlyInside(fs, MkdirAll(fs, t).value, base) && Anchored(MkdirAll(fs, t).value, base)
  {
  }

  /** One entry of the loop: a directory is created, a file is written. */
  function ExtractOne(fs: FS, target: Path, e: Entry): (r: Result<FS, Error>)
    ensures r.Err? ==> r.error == FileSystem
  {
    if EndsWith(e.name, "/") then MkdirAll(fs, target) else WriteFile(fs, target, Blob(e.data))
  }

  lemma ExtractOneInside(fs: FS, base: Path, target: Path, e: Entry)
    requires Anchored(fs, base) && base <= target && ExtractOne(fs, target, e).Ok?
    ensures OnlyInside(fs, ExtractOne(fs, target, e).value, base)
    ensures Anchored(ExtractOne(fs, target, e).value, base)
  {
    if EndsWith(e.name, "/") {
      MkdirInside(fs, base, target);
    } else if |base| > 0 {
      assert IsDir(fs, base) by {
        assert base == base[..|base|];
      }
      if target == base {
        assert IsDir(MkdirAll(fs, target[..|target| - 1]).value, base);
      } else {
        var parent := target[..|target| - 1];
        assert base <= parent;
        MkdirInside(fs, base, parent);
      }
    }
  }

  /**
   * The loop over the entries after the root is created: an empty name is
   * skipped, a rejected name aborts, everything else is extracted.
   */
  function ExtractEntries(fs: FS, base: Path, entries: seq<Entry>): (r: Result<FS, Error>)
    ensures r.Ok? ==> forall e | e in entries :: Rejected(base, e.name) == None
    ensures r.Err? ==> r.error == FileSystem || exists e | e in entries :: Rejected(base, e.name) == Some(r.error)
    decreases |entries|
  {
    if |entries| == 0 then Ok(fs)
    else
      var e := entries[0];
      assert forall x | x in entries[1..] :: x in entries;
      assert forall x | x in entries :: x == e || x in entries[1..];
      match Rejected(base, e.name)
      case Some(err) => Err(err)
      case None =>
        if e.name == "" then ExtractEntries(fs, base, entries[1..])
        else
          var fs' :- ExtractOne(fs, Target(base, e.name), e);
          ExtractEntries(fs', base, entries[1..])
  }

  /** The extraction never touches anything outside the unpack root. */
  lemma {:induction false} ExtractEntriesInside(fs: FS, base: Path, entries: seq<Entry>)
    requires Anchored(fs, base) && ExtractEntries(fs, base, entries).Ok?
    ensures OnlyInside(fs, ExtractEntries(fs, base, entries).value, base)
    ensures Anchored(ExtractEntries(fs, base, entries).value, base)
    decreases |entries|
  {
    if |entries| > 0 {
      var e := entries[0];
      if e.name != "" {
        var t := Target(base, e.name);
        ExtractOneInside(fs, base, t, e);
        var fs' := ExtractOne(fs, t, e).value;
        ExtractEntriesInside(fs', base, entries[1..]);
        OnlyInsideTrans(fs, fs', ExtractEntries(fs', base, entries[1..]).value, base);
      } else {
        ExtractEntriesInside(fs, base, entries[1..]);
      }
    } else {
      assert ExtractEntries(fs, base, entries).value == fs;
    }
  }

  lemma OnlyInsideTrans(a: FS, b: FS, c: FS, p: Path)
    requires OnlyInside(a, b, p) && OnlyInside(b, c, p)
    ensures OnlyInside(a, c, p)
  {
  }

  /** `_safe_extract_zip(zip_bytes, dest)`: create `dest`, then run the loop. */
  function SafeExtract(fs: FS, dest: Path, entries: seq<Entry>): (r: Result<FS, Error>)
    ensures r.Ok? ==> forall e | e in entries :: Rejected(dest, e.name) == None
    ensures r.Err? ==> r.error == FileSystem || exists e | e in entries :: Rejected(dest, e.name) == Some(r.error)
  {
    var fs1 :- MkdirAll(fs, dest);
    ExtractEntries(fs1, dest, entries)
  }

  /**
   * Archive safety: a successful extraction changes nothing outside
   * `dest` except for creating `dest`'s missing ancestors, and an archive
   * holding an absolute or escaping entry is never extracted.
   */
  lemma SafeExtractInside(fs: FS, dest: Path, entries: seq<Entry>)
    requires SafeExtract(fs, dest, entries).Ok?
    ensures OnlyInside(fs, SafeExtract(fs, dest, entries).value, dest)
  {
    var fs1 := MkdirAll(fs, dest).value;
    assert OnlyInside(fs, fs1, dest) by {
      forall q | q in fs1 && !(dest <= q) && q !in fs ensures q < dest {
        var i :| 1 <= i <= |dest| && q == dest[..i];
      }
    }
    ExtractEntriesInside(fs1, dest, entries);
    OnlyInsideTrans(fs, fs1, SafeExtract(fs, dest, entries).value, dest);
  }

  lemma UnsafeNotExtracted(fs: FS, dest: Path, entries: seq<Entry>, i: nat)
    requires i < |entries| && Rejected(dest, entries[i].name).Some?
    ensures SafeExtract(fs, dest, entries).Err?
  {
    assert entries[i] in entries;
  }

  // ---------------------------------------------------------------------
  // The source root
  // ---------------------------------------------------------------------

  /** `p.iterdir()`. */
  function Children(fs: FS, p: Path): set<Path> {
    set q | q in fs && |q| == |p| + 1 && p <= q
  }

  lemma SingletonMember<T>(s: set<T>, a: T, b: T)
    requires |s| == 1 && a in s && b in s
    ensures a == b
  {
    if a != b {
      SubsetCard({a, b}, s);
    }
  }

  lemma SubsetCard<T>(a: set<T>, b: set<T>)
    requires a <= b
    ensures |a| <= |b|
  {
    assert b == a + (b - a);
  }

  /** The one element of a singleton set. */
  function Only<T>(s: set<T>): (r: T)
    requires |s| == 1
    ensures r in s
  {
    assert forall a, b | a in s && b in s :: a == b by {
      forall a, b | a in s && b in s ensures a == b {
        SingletonMember(s, a, b);
      }
    }
    var x :| x in s; x
  }

  /**
   * The directory whose contents are installed: the unpack root when it
   * holds a SKILL.md file, else its only child when that is a directory
   * holding a SKILL.md file, else none.
   */
  function SourceRoot(fs: FS, root: Path): (r: Option<Path>)
    ensures r.Some? ==> IsFile(fs, r.value + [SkillMd]) && root <= r.value && |r.value| <= |root| + 1
    ensures IsFile(fs, root + [SkillMd]) ==> r == Some(root)
    ensures r.Some? && r.value != root ==> Children(fs, root) == {r.value} && IsDir(fs, r.value)
  {
    if IsFile(fs, root + [SkillMd]) then Some(root)
    else
      var kids := Children(fs, root);
      if |kids| == 1 then
        var c := Only(kids);
        assert kids == {c} by {
          forall k | k in kids ensures k == c {
            SingletonMember(kids, k, c);
          }
        }
        if IsDir(fs, c) && IsFile(fs, c + [SkillMd]) then Some(c) else None
      else None
  }

  // ---------------------------------------------------------------------
  // _install_archive
  // ---------------------------------------------------------------------

  /** `_skill_dir`: `<skills_dir>/<namespace>/<slug>`. */
  function SkillDir(skills: Path, ref: SkillRef): Path {
    skills + [ref.namespace, ref.slug]
  }

  /** `dest.with_name(dest.name + ".skilldock-backup")`. */
  function BackupOf(dest: Path): Path
    requires |dest| > 0
  {
    dest[..|dest| - 1] + [dest[|dest| - 1] + BackupSuffix]
  }

  lemma BackupDisjoint(dest: Path)
    requires |dest| > 0
    ensures Disjoint(dest, BackupOf(dest))
  {
    var b := BackupOf(dest);
    assert b[|dest| - 1] == dest[|dest| - 1] + BackupSuffix;
  }

  /** Which of the two guarded steps raises: the move of the unpacked tree, or the metadata write. */
  datatype Fault = NoFault | MoveFails | MetaFails

  /** `_ensure_skills_dir`: the skills directory is created; failing that, the manager refuses to go on. */
  function EnsureSkillsDir(fs: FS, skills: Path): (r: Result<FS, Error>)
    ensures r.Ok? ==> IsDir(r.value, skills) || |skills| == 0
    ensures r.Err? ==> r.error == SkillsDirUnusable
  {
    match MkdirAll(fs, skills)
    case Err(_) => Err(SkillsDirUnusable)
    case Ok(fs1) =>
      assert |skills| > 0 ==> skills == skills[..|skills|] && skills[..|skills|] in Prefixes(skills);
      Ok(fs1)
  }

  /**
   * `dest.rename(backup)` raises when the stale backup is a plain file
   * that `rmtree` left and the destination is a directory: a directory is
   * not renamed onto a file.
   */
  predicate RenameBlocked(fs: FS, dest: Path)
    requires |dest| > 0
  {
    PlainFile(fs, BackupOf(dest)) && Exists(fs, dest) && !PlainFile(fs, dest)
  }

  /** Before the swap: a stale backup is removed and an existing destination renamed to the backup. */
  function Stash(fs: FS, dest: Path): FS
    requires |dest| > 0
  {
    var fs1 := RemoveTree(fs, BackupOf(dest));
    if Exists(fs, dest) then Move(fs1, dest, BackupOf(dest)) else fs1
  }

  /** The guarded steps: move the source root to the destination, then write the metadata; `fault` says which raises. */
  function Place(fs: FS, src: Path, dest: Path, meta: Content, fault: Fault): FS {
    match fault
    case MoveFails => fs
    case MetaFails => Move(fs, src, dest)
    case NoFault => Move(fs, src, dest)[dest + [MetaName] := File(meta)]
  }

  /** The exception handler: the destination is removed and, if there was one, the backup moved back. */
  function Restore(fs: FS, dest: Path, hadExisting: bool): FS
    requires |dest| > 0
  {
    var cleared := RemoveTree(fs, dest);
    if hadExisting && Exists(cleared, BackupOf(dest)) then Move(cleared, BackupOf(dest), dest) else cleared
  }

  /**
   * The guarded part of `_install_archive`: stash the old destination,
   * place the new one, restore on failure, and remove the backup in the
   * `finally` clause.
   */
  function Swap(fs: FS, src: Path, dest: Path, meta: Content, fault: Fault): (r: (FS, Option<Error>))
    requires |dest| > 0
    ensures Cleared(r.0, BackupOf(dest))
    ensures r.1.Some? <==> fault != NoFault || RenameBlocked(fs, dest)
    ensures RenameBlocked(fs, dest) ==> r.0 == fs
  {
    if RenameBlocked(fs, dest) then (fs, Some(FileSystem))
    else
      var placed := Place(Stash(fs, dest), src, dest, meta, fault);
      var settled := if fault == NoFault then placed else Restore(placed, dest, Exists(fs, dest));
      (RemoveTree(settled, BackupOf(dest)), if fault == NoFault then None else Some(FileSystem))
  }

  /** The metadata file `_write_installed_meta` writes. */
  function MetaOf(ref: SkillRef, version: string, sha256: Option<string>): Content {
    InstallMeta(ref.namespace, ref.slug, version, sha256)
  }

  /**
   * Inside the temporary directory `tmp`: extract, find the source root,
   * swap. An error before the swap leaves everything outside `tmp` as it
   * was, since the partial extraction lies below `tmp`.
   */
  function Staged(fs: FS, tmp: Path, dest: Path, ref: SkillRef, version: string, sha256: Option<string>,
                  entries: seq<Entry>, fault: Fault): (r: (FS, Option<Error>))
    requires |dest| > 0
  {
    var unpack := tmp + [UnpackedName];
    match SafeExtract(fs, unpack, entries)
    case Err(e) => (fs, Some(e))
    case Ok(fs1) =>
      match SourceRoot(fs1, unpack)
      case None => (fs1, Some(NoSkillMd(ref.Key(), version)))
      case Some(src) => Swap(fs1, src, dest, MetaOf(ref, version, sha256), fault)
  }

  /** The temporary directory `TemporaryDirectory(prefix="skilldock-", dir=<skills>/.tmp)` creates. */
  function TmpDir(skills: Path, td: string): Path {
    skills + [TmpName, td]
  }

  /**
   * What the environment guarantees of the temporary directory's random
   * name: nothing is stored there yet, and it is neither the destination
   * nor its backup.
   */
  predicate FreshTmp(fs: FS, skills: Path, ref: SkillRef, td: string) {
    !Exists(fs, TmpDir(skills, td))
    && TmpDir(skills, td) != SkillDir(skills, ref)
    && TmpDir(skills, td) != BackupOf(SkillDir(skills, ref))
  }

  /**
   * `_install_archive`: the file system afterwards, and the error raised,
   * if any. The temporary directory is removed on every path.
   */
  function InstallArchive(fs: FS, skills: Path, ref: SkillRef, version: string, sha256: Option<string>,
                          entries: seq<Entry>, td: string, fault: Fault): (r: (FS, Option<Error>))
  {
    match EnsureSkillsDir(fs, skills)
    case Err(e) => (fs, Some(e))
    case Ok(fs1) =>
      var dest := SkillDir(skills, ref);
      match MkdirAll(fs1, dest[..|dest| - 1])
      case Err(e) => (fs1, Some(e))
      case Ok(fs2) =>
        match MkdirAll(fs2, skills + [TmpName])
        case Err(e) => (fs2, Some(e))
        case Ok(fs3) =>
          var tmp := TmpDir(skills, td);
          var staged := Staged(fs3[tmp := Dir], tmp, dest, ref, version, sha256, entries, fault);
          (RemoveAll(staged.0, tmp), staged.1)
  }

  // ---------------------------------------------------------------------
  // Removal
  // ---------------------------------------------------------------------

  /** The namespace directory that holds a skill's directory. */
  function NamespaceDir(skills: Path, ref: SkillRef): Path {
    skills + [ref.namespace]
  }

  /** Nothing is stored strictly below `p`. */
  predicate Empty(fs: FS, p: Path) {
    forall q | q in fs :: !(p < q)
  }

  /**
   * `_remove_skill`: the skill's directory is removed, and then its
   * namespace directory as well when that is a directory with nothing
   * left in it. Directories are the entries the map records as `Dir`. A
   * plain file at the skill's path survives `rmtree`, and then nothing
   * changes.
   */
  function RemoveSkill(fs: FS, skills: Path, ref: SkillRef): (r: FS)
    ensures !PlainFile(fs, SkillDir(skills, ref)) ==> !Exists(r, SkillDir(skills, ref))
    ensures PlainFile(fs, SkillDir(skills, ref)) ==> r == fs
    ensures forall q | q in r :: q in fs && r[q] == fs[q]
    ensures forall q | q in fs && !(SkillDir(skills, ref) <= q) && q != NamespaceDir(skills, ref) :: q in r
  {
    var fs1 := RemoveTree(fs, SkillDir(skills, ref));
    var ns := NamespaceDir(skills, ref);
    if IsDir(fs1, ns) && Empty(fs1, ns) then fs1 - {ns} else fs1
  }

  /**
   * The namespace directory goes exactly when it was a directory, the
   * skill's path held no plain file, and everything strictly below it lay
   * inside the removed skill directory.
   */
  lemma RemoveSkillNamespace(fs: FS, skills: Path, ref: SkillRef)
    ensures var ns := NamespaceDir(skills, ref);
      ns !in RemoveSkill(fs, skills, ref) <==>
        (ns !in fs
         || (IsDir(fs, ns) && !PlainFile(fs, SkillDir(skills, ref))
             && forall q | q in fs && ns < q :: SkillDir(skills, ref) <= q))
  {
    var dir := SkillDir(skills, ref);
    var ns := NamespaceDir(skills, ref);
    assert ns < dir;
    assert !(dir <= ns);
    if PlainFile(fs, dir) {
      return;
    }
    var fs1 := RemoveAll(fs, dir);
    if IsDir(fs, ns) && forall q | q in fs && ns < q :: dir <= q {
      assert Empty(fs1, ns);
    }
    if IsDir(fs1, ns) && Empty(fs1, ns) {
      forall q | q in fs && ns < q ensures dir <= q {
        assert q !in fs1;
      }
    }
  }
}
