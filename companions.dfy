/** Companion dotfiles (index.js, lines 60-74): for every candidate the
    script deletes "<dir>.<base>" and the macOS resource file
    "<dir>._<base>" when they exist. The filesystem is the set of paths
    that exist. */
module Companions {
  import opened Text
  import opened NodePath
  import opened Candidates

  /** `${dir}.${base}`, line 64. */
  function DotCompanion(fn: Path): Path {
    DirPrefix(fn) + "." + Basename(fn)
  }

  /** `${dir}._${base}`, line 65. */
  function MacCompanion(fn: Path): Path {
    DirPrefix(fn) + "._" + Basename(fn)
  }

  /** Both companion names of one file. */
  function CompanionsOf(fn: Path): set<Path> {
    {DotCompanion(fn), MacCompanion(fn)}
  }

  /** Every companion name of the files in `files`. */
  function CompanionSet(files: seq<Path>): set<Path> {
    if files == [] then {} else CompanionSet(files[..|files| - 1]) + CompanionsOf(files[|files| - 1])
  }

  /** Every member of CompanionSet is a companion of one of the files. */
  lemma {:induction false} CompanionSetMember(files: seq<Path>, p: Path)
    requires p in CompanionSet(files)
    ensures exists fn :: fn in files && p in CompanionsOf(fn)
  {
    var init := files[..|files| - 1];
    var last := files[|files| - 1];
    if p in CompanionsOf(last) {
      assert last in files;
    } else {
      CompanionSetMember(init, p);
      var fn :| fn in init && p in CompanionsOf(fn);
      assert fn in files;
    }
  }

  /** Each listed file's two companions are in the set. */
  lemma {:induction false} CompanionSetHas(files: seq<Path>, i: int)
    requires 0 <= i < |files|
    ensures CompanionsOf(files[i]) <= CompanionSet(files)
    decreases |files|
  {
    if i < |files| - 1 {
      var init := files[..|files| - 1];
      assert init[i] == files[i];
      CompanionSetHas(init, i);
    }
  }

  /** A path made of a directory prefix and a name `x` that starts with a
      dot is a dotfile in that directory. */
  lemma DotNameInDir(d: string, x: string)
    requires IsDirPrefix(d) && x != [] && x[0] == '.' && '/' !in x
    ensures Basename(d + x) == x && DirPrefix(d + x) == d && IsDotfile(d + x)
  {
    var p := d + x;
    BasenameAfterDir(d, x);
    SplitPath(p);
    assert DirPrefix(p) == p[..|d|] == d;
  }

  /** Both companion names live in the file's own directory, have the
      file's basename behind "." or "._", are dotfiles, and differ from the
      file itself. */
  lemma DotCompanionShape(fn: Path)
    ensures DirPrefix(DotCompanion(fn)) == DirPrefix(fn) && Basename(DotCompanion(fn)) == "." + Basename(fn)
    ensures IsDotfile(DotCompanion(fn)) && DotCompanion(fn) != fn
  {
    var d, b := DirPrefix(fn), Basename(fn);
    DirPrefixShape(fn);
    assert DotCompanion(fn) == d + ("." + b);
    DotNameInDir(d, "." + b);
  }

  lemma MacCompanionShape(fn: Path)
    ensures DirPrefix(MacCompanion(fn)) == DirPrefix(fn) && Basename(MacCompanion(fn)) == "._" + Basename(fn)
    ensures IsDotfile(MacCompanion(fn)) && MacCompanion(fn) != fn
  {
    var d, b := DirPrefix(fn), Basename(fn);
    DirPrefixShape(fn);
    assert MacCompanion(fn) == d + ("._" + b);
    DotNameInDir(d, "._" + b);
  }

  lemma CompanionIsDotfile(fn: Path, p: Path)
    requires p in CompanionsOf(fn)
    ensures IsDotfile(p)
  {
    if p == DotCompanion(fn) {
      DotCompanionShape(fn);
    } else {
      MacCompanionShape(fn);
    }
  }

  /** Every companion is a dotfile; so deleting companions never deletes
      a candidate, since the filter of line 47 drops dotfiles. */
  lemma CompanionsAreDotfiles(files: seq<Path>, p: Path)
    requires p in CompanionSet(files)
    ensures IsDotfile(p) && !IsCandidate(p)
  {
    CompanionSetMember(files, p);
    var fn :| fn in files && p in CompanionsOf(fn);
    CompanionIsDotfile(fn, p);
  }

  /** One more file adds its two companions. */
  lemma CompanionSetStep(files: seq<Path>, i: int)
    requires 0 <= i < |files|
    ensures CompanionSet(files[..i + 1]) == CompanionSet(files[..i]) + CompanionsOf(files[i])
  {
    var s := files[..i + 1];
    assert s[..|s| - 1] == files[..i];
    assert s[|s| - 1] == files[i];
  }

  /** `if (fs.existsSync(p)) fs.unlinkSync(p)`, lines 66-71. */
  method DeleteIfExists(fs: set<Path>, p: Path) returns (left: set<Path>)
    ensures left == fs - {p}
  {
    left := fs;
    if p in fs {
      left := fs - {p};
    }
  }

  /** The loop of lines 61-74: afterwards exactly the companions of the
      candidates are gone, and nothing else. */
  method DeleteCompanions(fs: set<Path>, files: seq<Path>) returns (left: set<Path>)
    ensures left == fs - CompanionSet(files)
  {
    left := fs;
    var i := 0;
    while i < |files|
      invariant 0 <= i <= |files|
      invariant left == fs - CompanionSet(files[..i])
    {
      var fn := files[i];
      var dotFn := DotCompanion(fn);
      var macFn := MacCompanion(fn);
      left := DeleteIfExists(left, dotFn);
      left := DeleteIfExists(left, macFn);
      assert left == fs - (CompanionSet(files[..i]) + {dotFn, macFn});
      CompanionSetStep(files, i);
      i := i + 1;
    }
    assert files[..i] == files;
  }
}
