/** The script's `main` (index.js, lines 44-100) over an abstract
    filesystem: the set of paths that exist. The directory walk, the
    confirmation prompt, ffprobe and ffmpeg are parameters: `found` is what
    findInDir returned, `response` is the answer typed at the prompt,
    `probe` and `convert` say what ffprobe and ffmpeg do for each path. */
module Script {
  import opened Text
  import opened TargetNames
  import opened Candidates
  import opened Companions
  import opened BitRate
  import opened Conversion

  /** Line 6: `--keep` anywhere among the arguments. */
  predicate KeepFlag(args: seq<string>) {
    "--keep" in args
  }

  /** Line 56: `/^(y|yes)$/i.test(response)`. */
  predicate IsYes(response: string) {
    var r := Lower(response);
    r == "y" || r == "yes"
  }

  /** How main ends: no candidates (line 51), the prompt declined (line
      57), the loop finished, or an unlink threw and stopped it. */
  datatype Exit = NoFiles | Declined | Finished | Stopped

  datatype Ending = Ending(exit: Exit, fs: set<Path>)

  /** The effect of one run of main. */
  function RunScript(args: seq<string>, found: seq<Path>, fs0: set<Path>, response: string,
                     probe: Path -> Probe, convert: Path -> Outcome): Ending
  {
    var files := CandidateFiles(found);
    if files == [] then Ending(NoFiles, fs0)
    else if !IsYes(response) then Ending(Declined, fs0)
    else
      var fs1 := fs0 - CompanionSet(files);
      var p := RunConversions(fs1, HighBitRateFiles(files, probe), convert, KeepFlag(args), TargetName);
      Ending(if p.halted then Stopped else Finished, p.fs)
  }

  /** main, lines 44-100. */
  method Run(args: seq<string>, found: seq<Path>, fs0: set<Path>, response: string,
             probe: Path -> Probe, convert: Path -> Outcome)
    returns (exit: Exit, fs: set<Path>)
    ensures Ending(exit, fs) == RunScript(args, found, fs0, response, probe, convert)
  {
    var keep := KeepFlag(args);
    var files := CandidateFiles(found);
    if files == [] {
      return NoFiles, fs0;
    }
    if !IsYes(response) {
      return Declined, fs0;
    }
    fs := DeleteCompanions(fs0, files);
    files := HighBitRateFiles(files, probe);
    var halted;
    fs, halted := ConvertFiles(fs, files, convert, keep, TargetName);
    exit := if halted then Stopped else Finished;
  }

  // ----- properties ------------------------------------------------------

  /** The answers that confirm: "y" or "yes" in any mix of cases, and
      nothing else. */
  lemma IsYesIff(response: string)
    ensures IsYes(response) <==>
      (|response| == 1 && response[0] in "yY") ||
      (|response| == 3 && response[0] in "yY" && response[1] in "eE" && response[2] in "sS")
  {
    var r := Lower(response);
    forall i | 0 <= i < |response|
      ensures r[i] == LowerChar(response[i])
    {
      LowerAt(response, i);
    }
    if |response| == 1 {
      assert r == "y" <==> r[0] == 'y';
    } else if |response| == 3 {
      assert r == "yes" <==> r[0] == 'y' && r[1] == 'e' && r[2] == 's';
    }
  }

  /** The high-bit-rate candidates, on which the conversion loop runs. */
  function Converting(found: seq<Path>, probe: Path -> Probe): (r: seq<Path>)
    ensures forall fn :: fn in r <==> fn in found && IsCandidate(fn) && HighBitRate(probe(fn))
    ensures Distinct(found) ==> Distinct(r)
  {
    HighBitRateFiles(CandidateFiles(found), probe)
  }

  /** The loop meets the files in discovery order: the files converted for
      `a + b` are those for `a` followed by those for `b`. */
  lemma ConvertingAppend(a: seq<Path>, b: seq<Path>, probe: Path -> Probe)
    ensures Converting(a + b, probe) == Converting(a, probe) + Converting(b, probe)
  {
    CandidateFilesAppend(a, b);
    HighBitRateFilesAppend(CandidateFiles(a), CandidateFiles(b), probe);
  }

  /** The conversion loop sees distinct existing files none of which is
      another's target, once companions are gone. */
  lemma LoopPreconditions(found: seq<Path>, fs0: set<Path>, probe: Path -> Probe)
    requires Distinct(found) && forall fn :: fn in found ==> fn in fs0
    ensures Distinct(Converting(found, probe))
    ensures forall fn :: fn in Converting(found, probe) ==> fn in fs0 - CompanionSet(CandidateFiles(found))
    ensures TargetsAreNew(Converting(found, probe), TargetName)
  {
    var files := CandidateFiles(found);
    var high := Converting(found, probe);
    forall fn | fn in high
      ensures fn !in CompanionSet(files)
    {
      if fn in CompanionSet(files) {
        CompanionsAreDotfiles(files, fn);
      }
    }
    forall i, j | 0 <= i < |high| && 0 <= j < |high|
      ensures TargetName(high[i]) != high[j]
    {
      TargetNeverCandidate(high[i]);
    }
  }

  /** A confirmed run removes both companion dotfiles of every candidate,
      and the conversion loop never brings one back. */
  lemma CompanionsDeleted(args: seq<string>, found: seq<Path>, fs0: set<Path>, response: string,
                          probe: Path -> Probe, convert: Path -> Outcome, fn: Path, p: Path)
    requires IsYes(response) && fn in CandidateFiles(found) && p in CompanionsOf(fn)
    ensures p !in RunScript(args, found, fs0, response, probe, convert).fs
  {
    var files := CandidateFiles(found);
    var fs1 := fs0 - CompanionSet(files);
    var i :| 0 <= i < |files| && files[i] == fn;
    CompanionSetHas(files, i);
    assert p !in fs1;
    if p in RunScript(args, found, fs0, response, probe, convert).fs {
      OnlyTargetsCreated(fs1, Converting(found, probe), convert, KeepFlag(args), TargetName, p);
      var g :| g in Converting(found, probe) && p == TargetName(g);
      TargetNeverDotfile(g);
      CompanionIsDotfile(fn, p);
      assert false;
    }
  }

  /** Every path main deletes is a companion dotfile of a candidate, or a
      high-bit-rate candidate whose conversion succeeded, run without
      --keep. */
  lemma DeletesOnly(args: seq<string>, found: seq<Path>, fs0: set<Path>, response: string,
                    probe: Path -> Probe, convert: Path -> Outcome, p: Path)
    requires p in fs0 && p !in RunScript(args, found, fs0, response, probe, convert).fs
    ensures p in CompanionSet(CandidateFiles(found)) ||
      (p in Converting(found, probe) && convert(p) == Converted && !KeepFlag(args))
  {
    var files := CandidateFiles(found);
    var fs1 := fs0 - CompanionSet(files);
    if p in fs1 {
      OnlyConvertedDeleted(fs1, Converting(found, probe), convert, KeepFlag(args), TargetName, p);
    }
  }

  /** Every path main creates is the target of a high-bit-rate candidate. */
  lemma CreatesOnlyTargets(args: seq<string>, found: seq<Path>, fs0: set<Path>, response: string,
                           probe: Path -> Probe, convert: Path -> Outcome, p: Path)
    requires p !in fs0 && p in RunScript(args, found, fs0, response, probe, convert).fs
    ensures exists fn :: fn in Converting(found, probe) && p == TargetName(fn)
  {
    var files := CandidateFiles(found);
    var fs1 := fs0 - CompanionSet(files);
    OnlyTargetsCreated(fs1, Converting(found, probe), convert, KeepFlag(args), TargetName, p);
  }

  /** A candidate at or below 128 kbit/s (or one ffprobe cannot read) is
      never deleted. */
  lemma LowBitRateKept(args: seq<string>, found: seq<Path>, fs0: set<Path>, response: string,
                       probe: Path -> Probe, convert: Path -> Outcome, fn: Path)
    requires fn in fs0 && IsCandidate(fn) && !HighBitRate(probe(fn))
    ensures fn in RunScript(args, found, fs0, response, probe, convert).fs
  {
    if fn !in RunScript(args, found, fs0, response, probe, convert).fs {
      DeletesOnly(args, found, fs0, response, probe, convert, fn);
      if fn in CompanionSet(CandidateFiles(found)) {
        CompanionsAreDotfiles(CandidateFiles(found), fn);
      }
    }
  }

  /** With --keep, only companion dotfiles are deleted. */
  lemma KeepDeletesOnlyCompanions(args: seq<string>, found: seq<Path>, fs0: set<Path>, response: string,
                                  probe: Path -> Probe, convert: Path -> Outcome)
    requires KeepFlag(args)
    ensures fs0 - CompanionSet(CandidateFiles(found)) <= RunScript(args, found, fs0, response, probe, convert).fs
  {
    var files := CandidateFiles(found);
    if files != [] && IsYes(response) {
      KeepNeverDeletes(fs0 - CompanionSet(files), Converting(found, probe), convert, TargetName);
    }
  }

  /** When findInDir reports each existing file once, no unlink throws and
      main never stops early. */
  lemma NeverStops(args: seq<string>, found: seq<Path>, fs0: set<Path>, response: string,
                   probe: Path -> Probe, convert: Path -> Outcome)
    requires Distinct(found) && forall fn :: fn in found ==> fn in fs0
    ensures RunScript(args, found, fs0, response, probe, convert).exit != Stopped
  {
    var files := CandidateFiles(found);
    if files != [] && IsYes(response) {
      LoopPreconditions(found, fs0, probe);
      NeverHalts(fs0 - CompanionSet(files), Converting(found, probe), convert, KeepFlag(args), TargetName);
    }
  }

  /** A candidate whose target already exists keeps its original. */
  lemma ExistingTargetKept(args: seq<string>, found: seq<Path>, fs0: set<Path>, response: string,
                           probe: Path -> Probe, convert: Path -> Outcome, fn: Path)
    requires Distinct(found) && forall g :: g in found ==> g in fs0
    requires fn in found && IsCandidate(fn) && TargetName(fn) in fs0
    ensures fn in RunScript(args, found, fs0, response, probe, convert).fs
  {
    var files := CandidateFiles(found);
    var high := Converting(found, probe);
    var fs1 := fs0 - CompanionSet(files);
    if IsYes(response) {
      if fn in high {
        LoopPreconditions(found, fs0, probe);
        var i :| 0 <= i < |high| && high[i] == fn;
        assert TargetName(fn) in fs1 by {
          TargetNeverDotfile(fn);
          if TargetName(fn) in CompanionSet(files) {
            CompanionsAreDotfiles(files, TargetName(fn));
          }
        }
        ExistingTargetSparesOriginal(fs1, high, convert, KeepFlag(args), TargetName, i);
      } else {
        LowBitRateKept(args, found, fs0, response, probe, convert, fn);
      }
    }
  }

  /** The intended effect: a confirmed run over distinct existing files
      converts a high-bit-rate candidate whose new target is the target of
      no other high-bit-rate candidate, it creates the target, and it
      deletes the original exactly when --keep is absent. */
  lemma ConvertsAndReplaces(args: seq<string>, found: seq<Path>, fs0: set<Path>, response: string,
                            probe: Path -> Probe, convert: Path -> Outcome, fn: Path)
    requires Distinct(found) && forall g :: g in found ==> g in fs0
    requires IsYes(response)
    requires fn in Converting(found, probe) && TargetName(fn) !in fs0 && convert(fn) == Converted
    requires forall g :: g in Converting(found, probe) && g != fn ==> TargetName(g) != TargetName(fn)
    ensures TargetName(fn) in RunScript(args, found, fs0, response, probe, convert).fs
    ensures fn in RunScript(args, found, fs0, response, probe, convert).fs <==> KeepFlag(args)
  {
    var files := CandidateFiles(found);
    var high := Converting(found, probe);
    LoopPreconditions(found, fs0, probe);
    var i :| 0 <= i < |high| && high[i] == fn;
    forall j | 0 <= j < |high| && j != i
      ensures TargetName(high[j]) != TargetName(high[i])
    {
      assert high[j] in high && high[j] != fn;
    }
    ConvertedReplacesOriginal(fs0 - CompanionSet(files), high, convert, KeepFlag(args), TargetName, i);
  }

  /** Two high-bit-rate candidates with the same target, such as
      `Rock/Foo.mp3` and `Rock/foo.mp3`: when the one the loop reaches first
      converts successfully, the target exists at the end and the other one
      is skipped and kept. */
  lemma SharedTargetKeepsLater(args: seq<string>, found: seq<Path>, fs0: set<Path>, response: string,
                               probe: Path -> Probe, convert: Path -> Outcome, i: int, j: int)
    requires Distinct(found) && forall g :: g in found ==> g in fs0
    requires IsYes(response) && 0 <= i < j < |Converting(found, probe)|
    requires TargetName(Converting(found, probe)[i]) == TargetName(Converting(found, probe)[j])
    requires convert(Converting(found, probe)[i]) == Converted
    ensures TargetName(Converting(found, probe)[j]) in RunScript(args, found, fs0, response, probe, convert).fs
    ensures Converting(found, probe)[j] in RunScript(args, found, fs0, response, probe, convert).fs
  {
    var files := CandidateFiles(found);
    LoopPreconditions(found, fs0, probe);
    SharedTargetSparesLater(fs0 - CompanionSet(files), Converting(found, probe), convert, KeepFlag(args), TargetName, i, j);
  }
}
