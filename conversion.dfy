/** The conversion loop of index.js, lines 78-99: for each high-bit-rate
    candidate, skip it when its target exists, otherwise run ffmpeg and,
    on success and without --keep, delete the original. The filesystem is
    the set of paths that exist; ffmpeg's outcome per file is a parameter,
    and so is the naming function (getTargetName, lines 34-40, which the
    script module supplies).
    `fs.unlinkSync` of a path that no longer exists throws; nothing inside
    main catches it, so it ends the loop (the `catch` of line 104 swallows
    it). */
module Conversion {
  import opened Text

  /** What running ffmpeg on one file did: succeeded (the target now
      exists), or threw, possibly leaving a partial target behind. */
  datatype Outcome = Converted | Failed(partialTarget: bool)

  /** The files that exist, and whether an exception has ended the loop. */
  datatype Progress = Progress(fs: set<Path>, halted: bool)

  /** One iteration of lines 79-98 for the file `fn`. */
  function ConvertOne(fs: set<Path>, fn: Path, outcome: Outcome, keep: bool, targetOf: Path -> Path): (r: Progress)
    // only the original can disappear and only the target can appear
    ensures fs - {fn} <= r.fs && r.fs <= fs + {targetOf(fn)}
    // an existing target means the file is skipped: nothing changes
    ensures targetOf(fn) in fs ==> r == Progress(fs, false)
    // a failed conversion never deletes the original and never throws; it
    // leaves a new target behind exactly when ffmpeg wrote part of one
    ensures outcome.Failed? ==> !r.halted && (fn in fs ==> fn in r.fs)
    ensures outcome.Failed? && targetOf(fn) !in fs ==> (targetOf(fn) in r.fs <==> outcome.partialTarget)
    // a conversion that ran and succeeded leaves the target behind (unless
    // the target is the original itself, which the unlink then removes)
    ensures targetOf(fn) !in fs && outcome == Converted && (keep || targetOf(fn) != fn) ==> targetOf(fn) in r.fs
    // without --keep, a successful conversion removes the original
    ensures targetOf(fn) !in fs && outcome == Converted && !keep ==> fn !in r.fs
    // the original goes only after its own successful conversion, without --keep
    ensures fn in fs && fn !in r.fs ==> targetOf(fn) !in fs && outcome == Converted && !keep
    // with --keep nothing is ever deleted
    ensures keep ==> fs <= r.fs
    // the loop stops exactly when the original to delete was already gone:
    // the unlinkSync of line 97 throws
    ensures r.halted ==> fn !in fs && outcome == Converted && !keep
    ensures targetOf(fn) !in fs && outcome == Converted && !keep && fn !in fs && targetOf(fn) != fn ==> r.halted
  {
    var target := targetOf(fn);
    if target in fs then Progress(fs, false)
    else
      var written := if outcome == Converted || outcome.partialTarget then fs + {target} else fs;
      if outcome.Failed? || keep then Progress(written, false)
      else if fn in written then Progress(written - {fn}, false)
      else Progress(written, true)
  }

  /** The state after the loop has run over `files`, one iteration per file
      in order, stopping at the first exception. */
  function RunConversions(fs: set<Path>, files: seq<Path>, convert: Path -> Outcome, keep: bool, targetOf: Path -> Path): Progress
    decreases |files|
  {
    if files == [] then Progress(fs, false)
    else
      var p := RunConversions(fs, files[..|files| - 1], convert, keep, targetOf);
      var fn := files[|files| - 1];
      if p.halted then p else ConvertOne(p.fs, fn, convert(fn), keep, targetOf)
  }

  /** Lines 78-99. */
  method ConvertFiles(fs0: set<Path>, files: seq<Path>, convert: Path -> Outcome, keep: bool, targetOf: Path -> Path)
    returns (fs: set<Path>, halted: bool)
    ensures Progress(fs, halted) == RunConversions(fs0, files, convert, keep, targetOf)
  {
    fs, halted := fs0, false;
    var i := 0;
    while i < |files| && !halted
      invariant 0 <= i <= |files|
      invariant Progress(fs, halted) == RunConversions(fs0, files[..i], convert, keep, targetOf)
    {
      var fn := files[i];
      var target := targetOf(fn);
      if target !in fs {
        var outcome := convert(fn);
        if outcome == Converted || outcome.partialTarget {
          fs := fs + {target};
        }
        if outcome == Converted && !keep {
          if fn in fs {
            fs := fs - {fn};
          } else {
            halted := true;
          }
        }
      }
      assert files[..i + 1][..i] == files[..i];
      i := i + 1;
    }
    if halted {
      HaltedStaysHalted(fs0, files, i, convert, keep, targetOf);
    } else {
      assert files[..i] == files;
    }
  }

  // ----- properties ------------------------------------------------------

  /** Once an exception has ended the loop, the remaining files change
      nothing. */
  lemma {:induction false} HaltedStaysHalted(fs0: set<Path>, files: seq<Path>, i: int, convert: Path -> Outcome, keep: bool, targetOf: Path -> Path)
    requires 0 <= i <= |files|
    requires RunConversions(fs0, files[..i], convert, keep, targetOf).halted
    ensures RunConversions(fs0, files, convert, keep, targetOf) == RunConversions(fs0, files[..i], convert, keep, targetOf)
    decreases |files|
  {
    if i < |files| {
      var init := files[..|files| - 1];
      assert init[..i] == files[..i];
      HaltedStaysHalted(fs0, init, i, convert, keep, targetOf);
    } else {
      assert files[..i] == files;
    }
  }

  /** Frame: a path that no file from position `i` on has as its original
      or as its target exists at the end exactly when it existed after the
      first `i` files. */
  lemma {:induction false} Untouched(fs0: set<Path>, files: seq<Path>, i: int, convert: Path -> Outcome, keep: bool, targetOf: Path -> Path, p: Path)
    requires 0 <= i <= |files|
    requires forall j :: i <= j < |files| ==> files[j] != p && targetOf(files[j]) != p
    ensures p in RunConversions(fs0, files, convert, keep, targetOf).fs <==> p in RunConversions(fs0, files[..i], convert, keep, targetOf).fs
    decreases |files|
  {
    if i < |files| {
      var init := files[..|files| - 1];
      assert init[..i] == files[..i];
      Untouched(fs0, init, i, convert, keep, targetOf, p);
    } else {
      assert files[..i] == files;
    }
  }

  /** A path that is not the original of any file from position `i` on is
      never deleted by those files. */
  lemma {:induction false} NotDeleted(fs0: set<Path>, files: seq<Path>, i: int, convert: Path -> Outcome, keep: bool, targetOf: Path -> Path, p: Path)
    requires 0 <= i <= |files|
    requires forall j :: i <= j < |files| ==> files[j] != p
    requires p in RunConversions(fs0, files[..i], convert, keep, targetOf).fs
    ensures p in RunConversions(fs0, files, convert, keep, targetOf).fs
    decreases |files|
  {
    if i < |files| {
      var init := files[..|files| - 1];
      assert init[..i] == files[..i];
      NotDeleted(fs0, init, i, convert, keep, targetOf, p);
    } else {
      assert files[..i] == files;
    }
  }

  /** Only originals whose own conversion succeeded are deleted, and none
      at all with --keep. */
  lemma {:induction false} OnlyConvertedDeleted(fs0: set<Path>, files: seq<Path>, convert: Path -> Outcome, keep: bool, targetOf: Path -> Path, p: Path)
    requires p in fs0 && p !in RunConversions(fs0, files, convert, keep, targetOf).fs
    ensures p in files && convert(p) == Converted && !keep
    decreases |files|
  {
    var init := files[..|files| - 1];
    var fn := files[|files| - 1];
    var q := RunConversions(fs0, init, convert, keep, targetOf);
    if p !in q.fs {
      OnlyConvertedDeleted(fs0, init, convert, keep, targetOf, p);
    } else {
      assert p == fn;
    }
  }

  /** Only targets of the files appear. */
  lemma {:induction false} OnlyTargetsCreated(fs0: set<Path>, files: seq<Path>, convert: Path -> Outcome, keep: bool, targetOf: Path -> Path, p: Path)
    requires p !in fs0 && p in RunConversions(fs0, files, convert, keep, targetOf).fs
    ensures exists fn :: fn in files && p == targetOf(fn)
    decreases |files|
  {
    var init := files[..|files| - 1];
    var fn := files[|files| - 1];
    var q := RunConversions(fs0, init, convert, keep, targetOf);
    if p in q.fs {
      OnlyTargetsCreated(fs0, init, convert, keep, targetOf, p);
      var g :| g in init && p == targetOf(g);
      assert g in files;
    } else {
      assert p == targetOf(fn);
    }
  }

  /** With --keep every file that existed still exists. */
  lemma {:induction false} KeepNeverDeletes(fs0: set<Path>, files: seq<Path>, convert: Path -> Outcome, targetOf: Path -> Path)
    ensures fs0 <= RunConversions(fs0, files, convert, true, targetOf).fs
    decreases |files|
  {
    if files != [] {
      KeepNeverDeletes(fs0, files[..|files| - 1], convert, targetOf);
    }
  }

  /** When the files are distinct and all exist at the start, no unlink
      ever throws, so every file gets its turn. */
  lemma {:induction false} NeverHalts(fs0: set<Path>, files: seq<Path>, convert: Path -> Outcome, keep: bool, targetOf: Path -> Path)
    requires Distinct(files) && forall fn :: fn in files ==> fn in fs0
    ensures !RunConversions(fs0, files, convert, keep, targetOf).halted
    decreases |files|
  {
    if files != [] {
      var init := files[..|files| - 1];
      var fn := files[|files| - 1];
      assert Distinct(init);
      NeverHalts(fs0, init, convert, keep, targetOf);
      NotDeleted(fs0, init, 0, convert, keep, targetOf, fn);
    }
  }

  /** A file whose conversion fails keeps its original. */
  lemma FailedKeepsOriginal(fs0: set<Path>, files: seq<Path>, convert: Path -> Outcome, keep: bool, targetOf: Path -> Path, fn: Path)
    requires fn in fs0 && convert(fn).Failed?
    ensures fn in RunConversions(fs0, files, convert, keep, targetOf).fs
  {
    if fn !in RunConversions(fs0, files, convert, keep, targetOf).fs {
      OnlyConvertedDeleted(fs0, files, convert, keep, targetOf, fn);
    }
  }

  /** No file of the run is the target of a file of the run. */
  predicate TargetsAreNew(files: seq<Path>, targetOf: Path -> Path) {
    forall i, j :: 0 <= i < |files| && 0 <= j < |files| ==> targetOf(files[i]) != files[j]
  }

  /** The state after the first `i + 1` files is one iteration on from
      the state after the first `i`. */
  lemma StepAt(fs0: set<Path>, files: seq<Path>, convert: Path -> Outcome, keep: bool, targetOf: Path -> Path, i: int)
    requires 0 <= i < |files|
    ensures var q := RunConversions(fs0, files[..i], convert, keep, targetOf);
      RunConversions(fs0, files[..i + 1], convert, keep, targetOf) ==
        if q.halted then q else ConvertOne(q.fs, files[i], convert(files[i]), keep, targetOf)
  {
    assert files[..i + 1][..i] == files[..i];
  }

  /** A file whose target already exists is skipped and keeps its
      original, when the files are distinct and no target is one of them. */
  lemma ExistingTargetSparesOriginal(fs0: set<Path>, files: seq<Path>, convert: Path -> Outcome, keep: bool, targetOf: Path -> Path, i: int)
    requires 0 <= i < |files| && Distinct(files) && TargetsAreNew(files, targetOf)
    requires files[i] in fs0 && targetOf(files[i]) in fs0
    ensures files[i] in RunConversions(fs0, files, convert, keep, targetOf).fs
  {
    var fn := files[i];
    var t := targetOf(fn);
    var pre := files[..i];
    var q := RunConversions(fs0, pre, convert, keep, targetOf);
    assert fn in q.fs && t in q.fs by {
      assert forall j :: 0 <= j < i ==> pre[j] == files[j];
      Untouched(fs0, pre, 0, convert, keep, targetOf, fn);
      NotDeleted(fs0, pre, 0, convert, keep, targetOf, t);
    }
    StepAt(fs0, files, convert, keep, targetOf, i);
    assert fn in RunConversions(fs0, files[..i + 1], convert, keep, targetOf).fs;
    Untouched(fs0, files, i + 1, convert, keep, targetOf, fn);
  }

  /** The intended effect: in a run of distinct, existing files none of
      which is a target, a file whose target did not exist, is the target of
      no other file, and whose conversion succeeds ends with its target
      created, and its original deleted exactly when --keep is absent. */
  lemma ConvertedReplacesOriginal(fs0: set<Path>, files: seq<Path>, convert: Path -> Outcome, keep: bool, targetOf: Path -> Path, i: int)
    requires 0 <= i < |files| && Distinct(files) && TargetsAreNew(files, targetOf)
    requires forall j :: 0 <= j < |files| && j != i ==> targetOf(files[j]) != targetOf(files[i])
    requires forall fn :: fn in files ==> fn in fs0
    requires targetOf(files[i]) !in fs0 && convert(files[i]) == Converted
    ensures targetOf(files[i]) in RunConversions(fs0, files, convert, keep, targetOf).fs
    ensures files[i] in RunConversions(fs0, files, convert, keep, targetOf).fs <==> keep
  {
    var fn := files[i];
    var t := targetOf(fn);
    var pre := files[..i];
    var q := RunConversions(fs0, pre, convert, keep, targetOf);
    assert !q.halted by {
      NeverHalts(fs0, files, convert, keep, targetOf);
      if q.halted {
        HaltedStaysHalted(fs0, files, i, convert, keep, targetOf);
      }
    }
    assert fn in q.fs && t !in q.fs by {
      assert forall j :: 0 <= j < i ==> pre[j] == files[j];
      Untouched(fs0, pre, 0, convert, keep, targetOf, fn);
      Untouched(fs0, pre, 0, convert, keep, targetOf, t);
    }
    var r := RunConversions(fs0, files[..i + 1], convert, keep, targetOf);
    assert t in r.fs && (fn in r.fs <==> keep) by {
      StepAt(fs0, files, convert, keep, targetOf, i);
      assert r == ConvertOne(q.fs, fn, Converted, keep, targetOf);
    }
    Untouched(fs0, files, i + 1, convert, keep, targetOf, fn);
    Untouched(fs0, files, i + 1, convert, keep, targetOf, t);
  }

  /** A file whose target exists when the loop reaches it is skipped and
      keeps its original, when the files are distinct and no target is one
      of them. */
  lemma PresentTargetSparesOriginal(fs0: set<Path>, files: seq<Path>, convert: Path -> Outcome, keep: bool, targetOf: Path -> Path, j: int)
    requires 0 <= j < |files| && Distinct(files) && TargetsAreNew(files, targetOf)
    requires files[j] in fs0 && targetOf(files[j]) in RunConversions(fs0, files[..j], convert, keep, targetOf).fs
    ensures files[j] in RunConversions(fs0, files, convert, keep, targetOf).fs
  {
    var pre := files[..j];
    assert files[j] in RunConversions(fs0, pre, convert, keep, targetOf).fs by {
      assert forall k :: 0 <= k < j ==> pre[k] == files[k];
      assert pre[..0] == [];
      Untouched(fs0, pre, 0, convert, keep, targetOf, files[j]);
    }
    StepAt(fs0, files, convert, keep, targetOf, j);
    Untouched(fs0, files, j + 1, convert, keep, targetOf, files[j]);
  }

  /** A successful conversion of an existing file whose target is not
      that file itself leaves the target behind. */
  lemma ConvertedTargetPresent(fs0: set<Path>, files: seq<Path>, convert: Path -> Outcome, keep: bool, targetOf: Path -> Path, i: int)
    requires 0 <= i < |files| && Distinct(files) && forall fn :: fn in files ==> fn in fs0
    requires convert(files[i]) == Converted && targetOf(files[i]) != files[i]
    ensures targetOf(files[i]) in RunConversions(fs0, files[..i + 1], convert, keep, targetOf).fs
  {
    var q := RunConversions(fs0, files[..i], convert, keep, targetOf);
    assert !q.halted by {
      NeverHalts(fs0, files, convert, keep, targetOf);
      if q.halted {
        HaltedStaysHalted(fs0, files, i, convert, keep, targetOf);
      }
    }
    StepAt(fs0, files, convert, keep, targetOf, i);
  }

  /** Order decides a clash: when an earlier file converts successfully to
      the target a later file also maps to, the target exists at the end and
      the later file is skipped and keeps its original. */
  lemma SharedTargetSparesLater(fs0: set<Path>, files: seq<Path>, convert: Path -> Outcome, keep: bool, targetOf: Path -> Path, i: int, j: int)
    requires 0 <= i < j < |files| && Distinct(files) && TargetsAreNew(files, targetOf)
    requires forall fn :: fn in files ==> fn in fs0
    requires targetOf(files[i]) == targetOf(files[j]) && convert(files[i]) == Converted
    ensures targetOf(files[j]) in RunConversions(fs0, files, convert, keep, targetOf).fs
    ensures files[j] in RunConversions(fs0, files, convert, keep, targetOf).fs
  {
    var t := targetOf(files[i]);
    ConvertedTargetPresent(fs0, files, convert, keep, targetOf, i);
    NotDeleted(fs0, files, i + 1, convert, keep, targetOf, t);
    var pre := files[..j];
    assert t in RunConversions(fs0, pre, convert, keep, targetOf).fs by {
      assert pre[..i + 1] == files[..i + 1];
      NotDeleted(fs0, pre, i + 1, convert, keep, targetOf, t);
    }
    PresentTargetSparesOriginal(fs0, files, convert, keep, targetOf, j);
  }
}
