/** Which discovered files the script works on (index.js, lines 45-47): a
    recognised extension, matched case-sensitively on the whole path; not
    already carrying the "128" marker; not a dotfile. */
module Candidates {
  import opened Text
  import opened NodePath
  import opened TargetNames

  /** `fn.split('.').slice(-2)[0]`: the second-to-last dot-separated
      segment, or the whole name when it has no dot. */
  function SecondToLastSegment(fn: Path): string {
    var parts := Split(fn, '.');
    if |parts| >= 2 then parts[|parts| - 2] else parts[0]
  }

  /** Line 46: a "foo.128.mp3" name, the output of an earlier run. */
  predicate IsMarked(fn: Path) {
    SecondToLastSegment(fn) == "128"
  }

  /** Line 47: the basename matches /^\./. */
  predicate IsDotfile(fn: Path) {
    var b := Basename(fn);
    b != [] && b[0] == '.'
  }

  /** The three filters together. */
  predicate IsCandidate(fn: Path) {
    HasAudioExt(fn) && !IsMarked(fn) && !IsDotfile(fn)
  }

  /** `fileNames` after line 47: the discovered paths that pass the regular
      expression of line 45 (applied by findInDir), then the filters of
      lines 46 and 47, in discovery order. */
  function CandidateFiles(found: seq<Path>): (r: seq<Path>)
    ensures |r| <= |found|
    ensures forall fn :: fn in r <==> fn in found && IsCandidate(fn)
    ensures Distinct(found) ==> Distinct(r)
  {
    Filter(Filter(Filter(found, HasAudioExt), fn => !IsMarked(fn)), fn => !IsDotfile(fn))
  }

  // ----- properties ------------------------------------------------------

  /** The filters keep the discovery order: candidates of `a + b` are those
      of `a` followed by those of `b`. */
  lemma CandidateFilesAppend(a: seq<Path>, b: seq<Path>)
    ensures CandidateFiles(a + b) == CandidateFiles(a) + CandidateFiles(b)
  {
    var a1, b1 := Filter(a, HasAudioExt), Filter(b, HasAudioExt);
    FilterAppend(a, b, HasAudioExt);
    var a2, b2 := Filter(a1, fn => !IsMarked(fn)), Filter(b1, fn => !IsMarked(fn));
    FilterAppend(a1, b1, fn => !IsMarked(fn));
    FilterAppend(a2, b2, fn => !IsDotfile(fn));
  }

  /** One discovered path is kept exactly when it is a candidate. */
  lemma CandidateFilesSingleton(fn: Path)
    ensures CandidateFiles([fn]) == if IsCandidate(fn) then [fn] else []
  {
    FilterSingleton(fn, HasAudioExt);
    FilterSingleton(fn, fn => !IsMarked(fn));
    FilterSingleton(fn, fn => !IsDotfile(fn));
    assert Filter([], (fn: Path) => !IsMarked(fn)) == [];
    assert Filter([], (fn: Path) => !IsDotfile(fn)) == [];
  }

  /** Line 46 splits the whole path, not the basename. A top-level file
      named "128.<ext>", such as "128.mp3", has "128" as its second-to-last
      segment and is taken for an earlier run's output. */
  lemma TopLevelMarkerName(e: string)
    requires e in Extensions
    ensures IsMarked("128." + e) && !IsCandidate("128." + e)
  {
    ExtensionSeparators(e);
    assert "128." + e == "128" + ['.'] + e;
    SplitAppend("128", '.', e);
    SplitNoSeparator("128", '.');
    SplitNoSeparator(e, '.');
  }

  /** The same name inside a directory without dots, such as
      "Rock/128.mp3", has second-to-last segment "Rock/128" and is a
      candidate. */
  lemma NestedMarkerName(d: string, e: string)
    requires IsDirPrefix(d) && d != [] && '.' !in d && e in Extensions
    ensures IsCandidate(d + ("128." + e))
  {
    var x := "128." + e;
    var p := d + x;
    ExtensionSeparators(e);
    assert !IsMarked(p) by {
      assert '.' !in d + "128";
      assert p == (d + "128") + ['.'] + e;
      SplitAppend(d + "128", '.', e);
      SplitNoSeparator(d + "128", '.');
      SplitNoSeparator(e, '.');
      assert |d + "128"| != |"128"|;
    }
    assert HasAudioExt(p) by {
      assert p[|p| - |e| - 1..] == "." + e;
      assert EndsWithExt(p, e);
    }
    assert !IsDotfile(p) by {
      assert '/' !in x;
      BasenameAfterDir(d, x);
      assert x[0] == '1';
    }
  }

  /** A name ending in ".128.<ext>" has "128" as its second-to-last segment. */
  lemma MarkerIsSecondToLast(t: string, d: string, stem: string, e: string)
    requires '.' !in e && t == d + (stem + ".128." + e)
    ensures IsMarked(t)
  {
    var p := d + stem;
    assert t == p + ['.'] + ("128" + ['.'] + e);
    SplitAppend(p, '.', "128" + ['.'] + e);
    SplitAppend("128", '.', e);
    SplitNoSeparator("128", '.');
    SplitNoSeparator(e, '.');
  }

  /** The extension of a path is the extension of its last segment. */
  lemma AudioExtInLastSegment(d: string, x: string)
    requires IsDirPrefix(d) && '/' !in x
    ensures HasAudioExt(d + x) ==> AudioExt(x) == AudioExt(d + x)
  {
    if HasAudioExt(d + x) {
      var e := AudioExt(d + x).value;
      assert '/' !in "." + e by {
        ExtensionSeparators(e);
      }
      SuffixAfterDir(d, x, "." + e);
      assert EndsWithExt(x, e);
    }
  }

  /** The target of a "<digits>.<ext>" file has no recognised extension. */
  lemma BareTargetHasNoExt(d: string, b: string, e: string)
    requires IsDirPrefix(d) && b != [] && '/' !in b
    requires e in Extensions && EndsWithExt(b, e) && BareTrackNumber(b, e)
    ensures !HasAudioExt(TargetName(d + b))
  {
    TargetNameInDir(d, b);
    NewNameOfAudioFile(b, e);
    NewNameNoSlash(b);
    AudioExtInLastSegment(d, NewName(b));
    AudioExtHasDot(NewName(b));
  }

  /** The target of any other audio file carries the "128" marker. */
  lemma OtherTargetIsMarked(d: string, b: string, e: string)
    requires IsDirPrefix(d) && b != [] && '/' !in b
    requires e in Extensions && EndsWithExt(b, e) && !BareTrackNumber(b, e)
    ensures IsMarked(TargetName(d + b))
  {
    var t := TargetName(d + b);
    var stem := MarkedTargetShape(d, b, e);
    MarkerIsSecondToLast(t, d, stem, e);
  }

  /** No re-admission: the target of a candidate is never a candidate
      itself. Either it carries the "128" marker and the filter of line 46
      drops it, or (for "<digits>.<ext>") it lost its extension dot and the
      filter of line 45 drops it. So a second run never converts its own
      output again. */
  lemma TargetNeverCandidate(fn: Path)
    requires IsCandidate(fn)
    ensures !IsCandidate(TargetName(fn))
  {
    var e := AudioExt(fn).value;
    AudioPathNotDir(fn);
    SplitPath(fn);
    var d, b := DirPrefix(fn), Basename(fn);
    AudioExtInLastSegment(d, b);
    if BareTrackNumber(b, e) {
      BareTargetHasNoExt(d, b, e);
    } else {
      OtherTargetIsMarked(d, b, e);
    }
  }

  /** The target of a candidate is not a dotfile either, so deleting
      companion dotfiles never deletes an existing target. */
  lemma TargetNeverDotfile(fn: Path)
    requires IsCandidate(fn)
    ensures !IsDotfile(TargetName(fn))
  {
    var e := AudioExt(fn).value;
    AudioPathNotDir(fn);
    SplitPath(fn);
    var d, b := DirPrefix(fn), Basename(fn);
    TargetNameInDir(d, b);
    NewNameNoSlash(b);
    NewNameNoLeadingDot(b);
    BasenameAfterDir(d, NewName(b));
  }

  /** Worked example: "album/03.track.128.flac" is not a candidate. */
  lemma MarkedExample(p: string)
    requires p == "album/03.track.128.flac"
    ensures !IsCandidate(p)
  {
    assert p == "album/" + ("03.track" + ".128." + "flac");
    MarkerIsSecondToLast(p, "album/", "03.track", "flac");
  }
}
