/**
 * What `_install_archive` (local_skills.py:859-899) promises about the
 * destination directory and its backup: a failed move or metadata write
 * puts the previous installation back, a success leaves the source root's
 * contents plus the metadata file at the destination, and neither the
 * backup nor the temporary directory survives.
 */
module InstallFacts {
  import opened Wrappers
  import opened Errors
  import opened Refs
  import opened Files

  // ---------------------------------------------------------------------
  // Small facts about disjoint trees
  // ---------------------------------------------------------------------

  lemma SameLengthDisjoint(p: Path, q: Path)
    requires |p| == |q| && p != q
    ensures Disjoint(p, q)
  {
  }

  /** Whatever lies below `t` is disjoint from what `t` is disjoint from. */
  lemma BelowDisjoint(t: Path, s: Path, d: Path)
    requires t <= s && Disjoint(t, d)
    ensures Disjoint(s, d)
  {
    if d <= s {
      PrefixesComparable(t, d, s);
    }
  }

  /** Changes confined to `p` (and `p`'s ancestors) leave a tree disjoint from `p` alone. */
  lemma OnlyInsideSubtree(a: FS, b: FS, p: Path, d: Path)
    requires OnlyInside(a, b, p) && Disjoint(d, p)
    ensures Subtree(b, d) == Subtree(a, d)
  {
    forall x ensures !(p <= d + x) && !(d + x < p) {
      if p <= d + x {
        PrefixesComparable(p, d, d + x);
      }
    }
  }

  /** Creating the directories on the way to `p` leaves a tree alone unless `p` lies in it. */
  lemma MkdirSubtree(fs: FS, p: Path, d: Path)
    requires MkdirAll(fs, p).Ok? && !(d <= p)
    ensures Subtree(MkdirAll(fs, p).value, d) == Subtree(fs, d)
  {
  }

  lemma UpdateSubtreeAway(fs: FS, q: Path, n: Node, d: Path)
    requires !(d <= q)
    ensures Subtree(fs[q := n], d) == Subtree(fs, d)
  {
    forall x ensures d + x != q {
      assert d <= d + x;
    }
  }

  lemma UpdateSubtreeBelow(fs: FS, d: Path, x: Path, n: Node)
    ensures Subtree(fs[d + x := n], d) == Subtree(fs, d)[x := n]
  {
    forall y ensures d + y == d + x <==> y == x {
      if d + y == d + x {
        assert y == (d + y)[|d|..];
      }
    }
  }

  // ---------------------------------------------------------------------
  // The guarded swap
  // ---------------------------------------------------------------------

  /** Where the swap takes its source from: away from the destination and its backup. */
  predicate Apart(src: Path, dest: Path)
    requires |dest| > 0
  {
    Disjoint(src, dest) && Disjoint(src, BackupOf(dest))
  }

  /**
   * The stash empties the destination and keeps its old tree at the
   * backup, whenever the rename goes through.
   */
  lemma StashFacts(fs: FS, dest: Path)
    requires |dest| > 0 && !RenameBlocked(fs, dest)
    ensures !Exists(Stash(fs, dest), dest)
    ensures Exists(fs, dest) ==> Subtree(Stash(fs, dest), BackupOf(dest)) == Subtree(fs, dest)
  {
    var backup := BackupOf(dest);
    BackupDisjoint(dest);
    var fs1 := RemoveTree(fs, backup);
    SubtreeRemoveTreeDisjoint(fs, dest, backup);
    if Exists(fs, dest) {
      if PlainFile(fs, backup) {
        SubtreeMovedOver(fs1, dest, backup);
      } else {
        SubtreeMoved(fs1, dest, backup);
      }
      MoveVacates(fs1, dest, backup);
    } else {
      SubtreeEmpty(fs, dest);
      SubtreeEmpty(fs1, dest);
    }
  }

  /** The stash leaves trees away from the destination and the backup alone. */
  lemma StashAway(fs: FS, dest: Path, p: Path)
    requires |dest| > 0 && Disjoint(p, dest) && Disjoint(p, BackupOf(dest))
    ensures Subtree(Stash(fs, dest), p) == Subtree(fs, p)
  {
    var backup := BackupOf(dest);
    BackupDisjoint(dest);
    var fs1 := RemoveTree(fs, backup);
    SubtreeRemoveTreeDisjoint(fs, p, backup);
    if Exists(fs, dest) {
      SubtreeMovedAway(fs1, dest, backup, p);
    }
  }

  /** A tree holding `SKILL.md` is no plain file, wherever it is moved. */
  lemma MovedNotPlain(fs: FS, src: Path, dest: Path)
    requires !Exists(fs, dest) && src + [SkillMd] in fs
    ensures !PlainFile(Move(fs, src, dest), dest)
  {
    MovedAt(fs, src, dest, [SkillMd]);
    assert dest < dest + [SkillMd];
  }

  /** The guarded steps under a fault: the backup is untouched and the destination is no plain file. */
  lemma PlaceFaulty(stashed: FS, src: Path, dest: Path, meta: Content, fault: Fault)
    requires |dest| > 0 && Apart(src, dest) && fault != NoFault
    requires !Exists(stashed, dest) && src + [SkillMd] in stashed
    ensures var placed := Place(stashed, src, dest, meta, fault);
      Subtree(placed, BackupOf(dest)) == Subtree(stashed, BackupOf(dest)) && !PlainFile(placed, dest)
  {
    if fault == MetaFails {
      BackupDisjoint(dest);
      SubtreeMovedAway(stashed, src, dest, BackupOf(dest));
      MovedNotPlain(stashed, src, dest);
    }
  }

  /**
   * The exception handler and the `finally` clause: the destination is
   * cleared and, when there was one, the old tree `t` moved back from the
   * backup.
   */
  lemma RestoreRecovers(placed: FS, dest: Path, t: FS, hadExisting: bool)
    requires |dest| > 0 && !PlainFile(placed, dest)
    requires hadExisting <==> t != map[]
    requires hadExisting ==> Subtree(placed, BackupOf(dest)) == t
    ensures Subtree(RemoveTree(Restore(placed, dest, hadExisting), BackupOf(dest)), dest) == t
  {
    var backup := BackupOf(dest);
    BackupDisjoint(dest);
    var cleared := RemoveTree(placed, dest);
    SubtreeRemoveTreeDisjoint(placed, backup, dest);
    var restored := Restore(placed, dest, hadExisting);
    SubtreeRemoveTreeDisjoint(restored, dest, backup);
    if hadExisting {
      SubtreeEmpty(cleared, backup);
      SubtreeMoved(cleared, backup, dest);
    } else {
      SubtreeEmpty(restored, dest);
    }
  }

  /**
   * Rollback: when the move or the metadata write raises, the destination
   * holds what it held before. The source root holds `SKILL.md`, as the
   * installer checks before the swap.
   */
  lemma SwapRollback(fs: FS, src: Path, dest: Path, meta: Content, fault: Fault)
    requires |dest| > 0 && Apart(src, dest) && fault != NoFault && IsFile(fs, src + [SkillMd])
    ensures Subtree(Swap(fs, src, dest, meta, fault).0, dest) == Subtree(fs, dest)
  {
    if RenameBlocked(fs, dest) {
      return;
    }
    var hadExisting := Exists(fs, dest);
    var stashed := Stash(fs, dest);
    StashFacts(fs, dest);
    StashAway(fs, dest, src);
    assert [SkillMd] in Subtree(fs, src);
    PlaceFaulty(stashed, src, dest, meta, fault);
    var placed := Place(stashed, src, dest, meta, fault);
    SubtreeEmpty(fs, dest);
    RestoreRecovers(placed, dest, Subtree(fs, dest), hadExisting);
    assert Swap(fs, src, dest, meta, fault).0 == RemoveTree(Restore(placed, dest, hadExisting), BackupOf(dest));
  }

  /** Success: the destination holds the source root's tree with the metadata file written into it. */
  lemma SwapInstalls(fs: FS, src: Path, dest: Path, meta: Content)
    requires |dest| > 0 && Apart(src, dest) && Swap(fs, src, dest, meta, NoFault).1.None?
    ensures Subtree(Swap(fs, src, dest, meta, NoFault).0, dest) == Subtree(fs, src)[[MetaName] := File(meta)]
  {
    var backup := BackupOf(dest);
    BackupDisjoint(dest);
    assert !RenameBlocked(fs, dest);
    var stashed := Stash(fs, dest);
    StashFacts(fs, dest);
    StashAway(fs, dest, src);
    var moved := Move(stashed, src, dest);
    SubtreeMoved(stashed, src, dest);
    var placed := moved[dest + [MetaName] := File(meta)];
    UpdateSubtreeBelow(moved, dest, [MetaName], File(meta));
    SubtreeRemoveTreeDisjoint(placed, dest, backup);
  }

  // ---------------------------------------------------------------------
  // _install_archive
  // ---------------------------------------------------------------------

  /** The three directories the installer creates before unpacking. */
  predicate SetupOk(fs: FS, skills: Path, ref: SkillRef) {
    && EnsureSkillsDir(fs, skills).Ok?
    && var fs1 := EnsureSkillsDir(fs, skills).value;
    && var dest := SkillDir(skills, ref);
    && MkdirAll(fs1, dest[..|dest| - 1]).Ok?
    && MkdirAll(MkdirAll(fs1, dest[..|dest| - 1]).value, skills + [TmpName]).Ok?
  }

  /** The layout facts every stage relies on. */
  lemma Layout(skills: Path, ref: SkillRef, td: string)
    requires TmpDir(skills, td) != SkillDir(skills, ref) && TmpDir(skills, td) != BackupOf(SkillDir(skills, ref))
    ensures Disjoint(TmpDir(skills, td), SkillDir(skills, ref))
    ensures Disjoint(TmpDir(skills, td), BackupOf(SkillDir(skills, ref)))
    ensures !(SkillDir(skills, ref) <= skills) && !(SkillDir(skills, ref) <= skills + [TmpName])
    ensures !(SkillDir(skills, ref) <= skills + [ref.namespace])
    ensures !(SkillDir(skills, ref) <= TmpDir(skills, td))
  {
    var dest := SkillDir(skills, ref);
    SameLengthDisjoint(TmpDir(skills, td), dest);
    SameLengthDisjoint(TmpDir(skills, td), BackupOf(dest));
  }

  /** Everything the staged part does before the swap stays below the temporary directory. */
  lemma StagedKeepsDest(fs: FS, tmp: Path, dest: Path, ref: SkillRef, version: string, sha256: Option<string>,
                        entries: seq<Entry>, fault: Fault)
    requires |dest| > 0 && Disjoint(tmp, dest) && Disjoint(tmp, BackupOf(dest))
    requires Staged(fs, tmp, dest, ref, version, sha256, entries, fault).1.Some?
    ensures Subtree(Staged(fs, tmp, dest, ref, version, sha256, entries, fault).0, dest) == Subtree(fs, dest)
  {
    var unpack := tmp + [UnpackedName];
    BelowDisjoint(tmp, unpack, dest);
    if SafeExtract(fs, unpack, entries).Ok? {
      var fs1 := SafeExtract(fs, unpack, entries).value;
      SafeExtractInside(fs, unpack, entries);
      OnlyInsideSubtree(fs, fs1, unpack, dest);
      match SourceRoot(fs1, unpack)
      case None =>
      case Some(src) =>
        BelowTmp(tmp, unpack, src, dest);
        if fault != NoFault {
          SwapRollback(fs1, src, dest, MetaOf(ref, version, sha256), fault);
        }
    }
  }

  /**
   * Install atomicity: whenever `_install_archive` raises, the skill's
   * directory holds exactly what it held before the call.
   */
  lemma InstallFailureKeepsDest(fs: FS, skills: Path, ref: SkillRef, version: string, sha256: Option<string>,
                                entries: seq<Entry>, td: string, fault: Fault)
    requires FreshTmp(fs, skills, ref, td)
    requires InstallArchive(fs, skills, ref, version, sha256, entries, td, fault).1.Some?
    ensures Subtree(InstallArchive(fs, skills, ref, version, sha256, entries, td, fault).0, SkillDir(skills, ref))
         == Subtree(fs, SkillDir(skills, ref))
  {
    var dest := SkillDir(skills, ref);
    var tmp := TmpDir(skills, td);
    Layout(skills, ref, td);
    if EnsureSkillsDir(fs, skills).Ok? {
      var fs1 := EnsureSkillsDir(fs, skills).value;
      MkdirSubtree(fs, skills, dest);
      assert dest[..|dest| - 1] == skills + [ref.namespace];
      if MkdirAll(fs1, dest[..|dest| - 1]).Ok? {
        var fs2 := MkdirAll(fs1, dest[..|dest| - 1]).value;
        MkdirSubtree(fs1, dest[..|dest| - 1], dest);
        if MkdirAll(fs2, skills + [TmpName]).Ok? {
          var fs3 := MkdirAll(fs2, skills + [TmpName]).value;
          MkdirSubtree(fs2, skills + [TmpName], dest);
          UpdateSubtreeAway(fs3, tmp, Dir, dest);
          var staged := Staged(fs3[tmp := Dir], tmp, dest, ref, version, sha256, entries, fault);
          StagedKeepsDest(fs3[tmp := Dir], tmp, dest, ref, version, sha256, entries, fault);
          SubtreeRemoveDisjoint(staged.0, dest, tmp);
        }
      }
    }
  }

  /** Once the directories exist, the temporary directory is gone afterwards, whatever happened. */
  lemma InstallRemovesTmp(fs: FS, skills: Path, ref: SkillRef, version: string, sha256: Option<string>,
                          entries: seq<Entry>, td: string, fault: Fault)
    requires SetupOk(fs, skills, ref)
    ensures !Exists(InstallArchive(fs, skills, ref, version, sha256, entries, td, fault).0, TmpDir(skills, td))
  {
  }

  /** A skill directory's tree as a finished installation leaves it. */
  predicate Installed(t: FS, meta: Content) {
    IsFile(t, [SkillMd]) && [MetaName] in t && t[[MetaName]] == File(meta)
  }

  /** Writing the metadata keeps SKILL.md, since the two names differ. */
  lemma InstalledFrom(t: FS, u: FS, meta: Content)
    requires IsFile(t, [SkillMd]) && u == t[[MetaName] := File(meta)]
    ensures Installed(u, meta)
  {
    assert |SkillMd| != |MetaName|;
    assert [SkillMd] != [MetaName];
  }

  lemma InstalledAfterMeta(x: FS, src: Path, meta: Content, u: FS)
    requires IsFile(x, src + [SkillMd]) && u == Subtree(x, src)[[MetaName] := File(meta)]
    ensures Installed(u, meta)
  {
    var t := Subtree(x, src);
    assert [SkillMd] in t;
    InstalledFrom(t, u, meta);
  }

  /** A successful swap from a source root holding SKILL.md leaves a finished installation. */
  lemma SwapSuccess(x: FS, src: Path, dest: Path, meta: Content)
    requires |dest| > 0 && Apart(src, dest) && IsFile(x, src + [SkillMd]) && Swap(x, src, dest, meta, NoFault).1.None?
    ensures Installed(Subtree(Swap(x, src, dest, meta, NoFault).0, dest), meta)
  {
    SwapInstalls(x, src, dest, meta);
    InstalledAfterMeta(x, src, meta, Subtree(Swap(x, src, dest, meta, NoFault).0, dest));
  }

  /** A source root below the unpack directory is apart from the destination and its backup. */
  lemma BelowTmp(tmp: Path, unpack: Path, src: Path, dest: Path)
    requires |dest| > 0 && Disjoint(tmp, dest) && Disjoint(tmp, BackupOf(dest))
    requires unpack == tmp + [UnpackedName] && unpack <= src
    ensures Apart(src, dest)
  {
    assert tmp <= src by {
      assert src[..|tmp|] == unpack[..|tmp|];
    }
    BelowDisjoint(tmp, src, dest);
    BelowDisjoint(tmp, src, BackupOf(dest));
  }

  lemma SwapOkNoFault(x: FS, src: Path, dest: Path, meta: Content, fault: Fault)
    requires |dest| > 0 && Swap(x, src, dest, meta, fault).1.None?
    ensures fault == NoFault
  {
  }

  lemma StagedSuccess(fs: FS, tmp: Path, dest: Path, ref: SkillRef, version: string, sha256: Option<string>,
                      entries: seq<Entry>, fault: Fault)
    requires |dest| > 0 && Disjoint(tmp, dest) && Disjoint(tmp, BackupOf(dest))
    requires Staged(fs, tmp, dest, ref, version, sha256, entries, fault).1.None?
    ensures var r := Staged(fs, tmp, dest, ref, version, sha256, entries, fault).0;
      Installed(Subtree(r, dest), MetaOf(ref, version, sha256)) && Cleared(r, BackupOf(dest))
  {
    var meta := MetaOf(ref, version, sha256);
    var unpack := tmp + [UnpackedName];
    var ex := SafeExtract(fs, unpack, entries);
    assert ex.Ok?;
    var sr := SourceRoot(ex.value, unpack);
    assert sr.Some?;
    assert unpack <= sr.value && IsFile(ex.value, sr.value + [SkillMd]);
    var staged := Swap(ex.value, sr.value, dest, meta, fault);
    assert Staged(fs, tmp, dest, ref, version, sha256, entries, fault) == staged;
    assert staged.1.None?;
    SwapOkNoFault(ex.value, sr.value, dest, meta, fault);
    BelowTmp(tmp, unpack, sr.value, dest);
    SwapSuccess(ex.value, sr.value, dest, meta);
  }

  /**
   * Success: the skill's directory holds a SKILL.md file and the
   * metadata naming the release, and no backup directory is left behind:
   * whatever remains at the backup path is a plain file, which `rmtree`
   * cannot remove.
   */
  lemma InstallSuccess(fs: FS, skills: Path, ref: SkillRef, version: string, sha256: Option<string>,
                       entries: seq<Entry>, td: string, fault: Fault)
    requires FreshTmp(fs, skills, ref, td)
    requires InstallArchive(fs, skills, ref, version, sha256, entries, td, fault).1.None?
    ensures var r := InstallArchive(fs, skills, ref, version, sha256, entries, td, fault).0;
      Installed(Subtree(r, SkillDir(skills, ref)), MetaOf(ref, version, sha256))
      && Cleared(r, BackupOf(SkillDir(skills, ref)))
  {
    var dest := SkillDir(skills, ref);
    var tmp := TmpDir(skills, td);
    Layout(skills, ref, td);
    var fs1 := EnsureSkillsDir(fs, skills).value;
    var fs2 := MkdirAll(fs1, dest[..|dest| - 1]).value;
    var fs3 := MkdirAll(fs2, skills + [TmpName]).value;
    var staged := Staged(fs3[tmp := Dir], tmp, dest, ref, version, sha256, entries, fault);
    StagedSuccess(fs3[tmp := Dir], tmp, dest, ref, version, sha256, entries, fault);
    SubtreeRemoveDisjoint(staged.0, dest, tmp);
    SubtreeRemoveDisjoint(staged.0, BackupOf(dest), tmp);
    ClearedSubtree(staged.0, RemoveAll(staged.0, tmp), BackupOf(dest));
  }
}
