# 128ify, modelled in Dafny

128ify is a Node.js script (`index.js`). It walks the current directory for
music files (`.mp3`, `.flac`, `.mpc`, `.ogg`) and keeps the candidates: not
already carrying the `128` marker, not dotfiles. It asks for confirmation.
It then deletes the `.name` and `._name` dotfile companions of every
candidate. Finally it re-encodes each candidate of 129 kbit/s or more (the
bit rate in whole kbit/s must be above 128) to 128 kbit/s next to the
original, under a rewritten name such as `03.Track.flac` →
`03track.128.flac`, unless that target already exists. The original is
deleted unless `--keep` is given.

This project models:

- the name rewriting (`getTargetName`);
- the three filters that choose which files take part;
- the companion names and their deletion;
- the bit-rate decision;
- the convert/skip/delete loop over an abstract filesystem: the set of
  paths that exist.

ffprobe, ffmpeg, the directory walk and the prompt are parameters.

Modules, one file each:

- `Text` (`text.dfy`): the JavaScript string and array primitives the
  script relies on. `filter`, ASCII `toLowerCase`, `lastIndexOf` and
  `split('.')`.
- `NodePath` (`nodepath.dfy`): POSIX `path.basename`, and the directory
  prefix that `fn.substr(0, fn.lastIndexOf(base))` cuts off.
- `TargetNames` (`targetnames.dfy`): `getTargetName`. The two regular
  expression replacements are explicit functions. The order of the two
  steps is kept: `01.mp3` becomes `01mp3`, because the track rule takes
  the extension's dot and the marker rule then no longer applies.
- `Candidates` (`candidates.dfy`): the filters of lines 45-47, and the
  no-re-admission property. A target name is never a candidate. Either
  the `128` filter drops it, or, for `<digits>.<ext>`, the extension
  filter does. So a second run never converts its own output.
- `Companions` (`companions.dfy`): the companion names and the deletion
  loop of lines 61-74.
- `BitRate` (`bitrate.dfy`): `Math.floor(bit_rate / 1000)` with its
  defaults (0 when probing fails or `format` is missing, NaN when
  `bit_rate` is), and the `> 128` filter.
- `Conversion` (`conversion.dfy`): the loop of lines 78-99, as a function
  over the filesystem (`RunConversions`) and as a method with a `while`
  loop proved equal to it (`ConvertFiles`).
- `Script` (`script.dfy`): `main` end to end (`Run`, specified by
  `RunScript`), with the properties of a whole run.

The loop is parameterised by the naming function, and `Script` supplies
`getTargetName`. An `unlinkSync` of an original that no longer exists
throws. Nothing inside `main` catches it, so the loop ends there, and the
`.catch` of line 104 swallows the error. The model records this as
`halted` / `Stopped`. It cannot happen when the walk reports every
existing file once (`Script.NeverStops`).

`index.js` processes the files one at a time, in a `forEach` with a
blocking `execSync`. A file at or below 128 kbit/s is only filtered out, at
line 76, and never renamed. A file whose target already exists is skipped,
at lines 80-83, and its original is kept.

## Model

| member | source | states |
|---|---|---|
| Text.Filter | index.js:46-47 | `Array.prototype.filter`: the result holds exactly the elements that satisfy the predicate; it is no longer than the input; it keeps distinctness. Order and multiplicity are fixed by `Text.FilterAppend` and `Text.FilterSingleton` |
| Text.FilterAppend | index.js:46-47 | filtering `a + b` gives the filtered `a` followed by the filtered `b`, so the input order is kept |
| Text.FilterSingleton | index.js:46-47 | a single element is kept exactly when it satisfies the predicate; with `FilterAppend` this gives each element's multiplicity and position |
| Text.Lower | index.js:36 | `toLowerCase` keeps the length |
| Text.LowerChar | index.js:36 | an ASCII upper-case letter maps to the lower-case letter 32 code points up; every other character is kept |
| Text.LowerKeeps | index.js:36 | a character that is not an upper-case letter survives lower-casing |
| Text.LowerAt | index.js:36 | lower-casing works character by character |
| Text.LastIndexOf | index.js:39 | the result is -1 or a position where the needle occurs, and the needle occurs at no later position |
| Text.Split | index.js:46 | `split('.')` yields at least one part, and no part contains the separator |
| Text.Join | index.js:46 | the inverse of `split`: parts joined with the separator; `JoinSplit` proves the two are a round trip |
| Text.JoinSplit | index.js:46 | joining the parts of `split` with the separator gives back the string |
| Text.SplitNoSeparator | index.js:46 | a string without the separator splits into itself alone |
| Text.SplitAppend | index.js:46 | splitting `a + sep + b` is splitting `a` followed by splitting `b` |
| NodePath.TrimTrailingSlashes | index.js:35 | `path.basename` first drops the trailing separators: the result is a prefix, does not end in '/', and only separators were dropped |
| NodePath.LastSegment | index.js:35 | the characters after the last '/': they contain no '/', form a suffix, and what precedes them is empty or ends in '/' |
| NodePath.Basename | index.js:35 | the basename never contains '/' |
| NodePath.DirPrefix | index.js:39 | the directory prefix is a prefix of the path |
| NodePath.BasenameAfterDir | index.js:35 | a non-empty name without '/' after a directory prefix is that path's basename |
| NodePath.DirPrefixOfSlashes | index.js:35-39 | a path with an empty basename consists of separators only and is its own prefix |
| NodePath.DirPrefixOfNamed | index.js:35-39 | the prefix is empty or ends in '/', and prefix plus basename is the path without its trailing separators |
| NodePath.DirPrefixShape | index.js:35-39 | both cases of how any path falls apart into prefix and basename |
| NodePath.SplitPath | index.js:62-63 | a path that does not end in '/' is exactly its directory prefix followed by its non-empty basename |
| NodePath.SuffixAfterDir | index.js:35 | a suffix without '/' of a path lies within its last segment |
| TargetNames.AudioExt | index.js:45 | the extension regular expression of lines 38 and 45, case-sensitive: a reported extension is one of the four and ends the string after a dot, and any such extension is the one reported |
| TargetNames.AudioExtHasDot | index.js:45 | a name without a dot has no recognised extension |
| TargetNames.AudioPathNotDir | index.js:45 | a path with a recognised extension does not end in '/' |
| TargetNames.ExtensionChars | index.js:38 | the extensions consist of lower-case letters and '3' |
| TargetNames.ExtensionSeparators | index.js:38 | no extension contains '.' or '/' |
| TargetNames.LeadingDigits | index.js:37 | the length of the leading run of ASCII digits |
| TargetNames.StripTrackDot | index.js:37 | `replace(/^(\d+)\./, '$1')`: when the name starts with digits and a dot, exactly that dot is removed; otherwise the name is unchanged |
| TargetNames.AddMarker | index.js:38 | the marker replacement: a recognised extension `.e` becomes `.128.e`; a name without one is unchanged |
| TargetNames.NewName | index.js:36-38 | the new basename: lower-case, then the track rule, then the marker rule. Its meaning is given by `NewNameBare`, `NewNameMarked`, `NewNameOfAudioFile`, `NewNameNoSlash` and `NewNameNoLeadingDot` |
| TargetNames.TargetName | index.js:34-40 | `getTargetName`: the directory prefix followed by the new basename. Its meaning is given by `TargetNameKeepsDirectory`, `TargetNameInDir`, `MarkedTargetShape` and `Candidates.TargetNeverCandidate` |
| TargetNames.TargetNameKeepsDirectory | index.js:35-39 | `getTargetName` keeps everything before the basename as it is, not lower-cased, and appends the new basename |
| TargetNames.LowerKeepsExt | index.js:36-38 | lower-casing keeps a recognised extension |
| TargetNames.DropKeepsSuffix | index.js:37 | removing the track dot shifts the rest of the name by one |
| TargetNames.StripKeepsExt | index.js:37-38 | the track rule keeps the extension unless it removes the extension's own dot |
| TargetNames.LowerTrackPrefix | index.js:36-37 | lower-casing neither creates nor destroys a leading `<digits>.` |
| TargetNames.NewNameBare | index.js:36-38 | `<digits>.<ext>` becomes `<digits><ext>`, with no dot and no marker |
| TargetNames.NewNameMarked | index.js:36-38 | any other name with a recognised extension ends in `.128.` plus the same extension |
| TargetNames.NewNameOfAudioFile | index.js:36-38 | both cases of the new basename of an audio file |
| TargetNames.LowerNoSlash | index.js:36 | lower-casing never produces '/' |
| TargetNames.StripNoSlash | index.js:37 | the track rule never produces '/' |
| TargetNames.AddMarkerNoSlash | index.js:38 | the marker rule never produces '/' |
| TargetNames.NewNameNoSlash | index.js:36-39 | the new name contains no '/', so the target stays in the original's directory |
| TargetNames.NewNameNoLeadingDot | index.js:36-38 | a name that does not start with '.' gets a new name that does not either |
| TargetNames.TargetNameInDir | index.js:34-40 | the target of `dir + name` is `dir + newName(name)` |
| TargetNames.CaseOnlyClash | index.js:34-40 | two names in one directory that differ only in case, such as `Foo.mp3` and `foo.mp3`, get the same target |
| TargetNames.MarkedTargetShape | index.js:38-39 | the target of an audio file other than `<digits>.<ext>` is, in the same directory, a stem, `.128.` and the same extension |
| TargetNames.LowerExample | index.js:36 | `03.Track.flac` lower-cases to `03.track.flac` |
| TargetNames.StripTrackDotExample | index.js:37 | `03.track.flac` becomes `03track.flac` |
| TargetNames.NewNameExampleMarked | index.js:36-38 | `03.Track.flac` is renamed `03track.128.flac` |
| TargetNames.NewNameExampleBare | index.js:37-38 | `01.mp3` is renamed `01mp3`, without a marker |
| TargetNames.TargetNameExample | index.js:34-40 | `03.Track.flac` in any directory, e.g. `Rock/`, becomes `03track.128.flac` in that directory, whose name keeps its case |
| Candidates.SecondToLastSegment | index.js:46 | `fn.split('.').slice(-2)[0]` on the whole path: the second-to-last part, or the only part. `MarkerIsSecondToLast`, `TopLevelMarkerName` and `NestedMarkerName` pin it down |
| Candidates.IsMarked | index.js:46 | the second-to-last part is `128`; `MarkerIsSecondToLast` and `OtherTargetIsMarked` show it holds of every marked target |
| Candidates.IsDotfile | index.js:47 | the basename starts with '.'; `Companions.CompanionIsDotfile` and `TargetNeverDotfile` show what it catches and what it does not |
| Candidates.IsCandidate | index.js:45-47 | the three filters together; `TargetNeverCandidate` and `CompanionsAreDotfiles` show that neither targets nor companions pass |
| Candidates.CandidateFiles | index.js:45-47 | a discovered path remains exactly when it has a recognised extension, its second-to-last dot segment is not `128`, and its basename does not start with '.'; distinctness is kept. Discovery order is kept by `CandidateFilesAppend` |
| Candidates.CandidateFilesAppend | index.js:45-47 | the candidates of `a + b` are those of `a` followed by those of `b`: discovery order is kept |
| Candidates.CandidateFilesSingleton | index.js:45-47 | one discovered path remains exactly when it is a candidate |
| Candidates.TopLevelMarkerName | index.js:46 | because the whole path is split, a top-level `128.<ext>` such as `128.mp3` counts as marked and is never a candidate |
| Candidates.NestedMarkerName | index.js:45-47 | the same name under a directory without dots, such as `Rock/128.mp3`, is a candidate |
| Candidates.MarkerIsSecondToLast | index.js:46 | a name ending in `.128.<ext>` has `128` as its second-to-last segment |
| Candidates.AudioExtInLastSegment | index.js:45 | the extension of a path is the extension of its last segment |
| Candidates.BareTargetHasNoExt | index.js:37-45 | the target of `<digits>.<ext>` has no recognised extension, so the filter of line 45 drops it |
| Candidates.OtherTargetIsMarked | index.js:38-46 | the target of any other audio file has `128` as its second-to-last segment, so the filter of line 46 drops it |
| Candidates.TargetNeverCandidate | index.js:34-47 | no re-admission: the target of a candidate is never a candidate |
| Candidates.TargetNeverDotfile | index.js:34-47 | the target of a candidate is not a dotfile |
| Candidates.MarkedExample | index.js:46 | `album/03.track.128.flac` is not a candidate |
| Companions.DotCompanion | index.js:62-64 | `${dir}.${base}`; `DotCompanionShape` proves it lies in the file's directory, is named `.base`, is a dotfile and differs from the file |
| Companions.MacCompanion | index.js:62-65 | `${dir}._${base}`; `MacCompanionShape` proves it lies in the file's directory, is named `._base`, is a dotfile and differs from the file |
| Companions.CompanionSet | index.js:61-65 | the companions of all candidates: `CompanionSetHas` puts each listed file's two companions in it, `CompanionSetMember` admits nothing else, `CompanionSetStep` adds one file at a time, and `CompanionsAreDotfiles` shows it holds no candidate |
| Companions.DotNameInDir | index.js:62-65 | a dot-name after a directory prefix is a dotfile in that directory |
| Companions.DotCompanionShape | index.js:62-64 | `dir + "." + base` lies in the file's directory, has basename `.base`, is a dotfile, and differs from the file |
| Companions.MacCompanionShape | index.js:62-65 | `dir + "._" + base` lies in the file's directory, has basename `._base`, is a dotfile, and differs from the file |
| Companions.CompanionIsDotfile | index.js:64-65 | each of a file's two companions is a dotfile |
| Companions.CompanionSetMember | index.js:61-65 | every companion in the set belongs to one of the files |
| Companions.CompanionSetHas | index.js:61-65 | both companions of every listed file are in the set |
| Companions.CompanionsAreDotfiles | index.js:61-74 | every companion is a dotfile, so deleting companions never deletes a candidate (line 47 drops dotfiles) |
| Companions.CompanionSetStep | index.js:61-65 | one more file adds its two companions |
| Companions.DeleteIfExists | index.js:66-73 | `existsSync` then `unlinkSync`: the path is gone and nothing else changes |
| Companions.DeleteCompanions | index.js:61-74 | afterwards the filesystem is the old one minus exactly the companions of the candidates |
| BitRate.Kbps | index.js:22-31 | 0 when probing or parsing failed or `format` is missing; NaN when `bit_rate` is missing; otherwise the whole number `k` with `1000k <= bit_rate < 1000(k+1)` |
| BitRate.HighBitRate | index.js:76 | `getBitRate(fn) > 128`, false for NaN; `HighBitRateIff` gives the exact bit-rate bound |
| BitRate.HighBitRateIff | index.js:76 | a file passes `getBitRate(fn) > 128` exactly when ffprobe reported a numeric bit rate of at least 129000 bit/s; an unprobeable file never passes |
| BitRate.HighBitRateFiles | index.js:76 | a file remains exactly when it passes the bit-rate test; distinctness is kept |
| BitRate.HighBitRateFilesAppend | index.js:76 | the bit-rate filter keeps the candidates' order |
| Conversion.ConvertOne | index.js:79-98 | one iteration. Only the original can disappear and only the target can appear. An existing target changes nothing. A failure never deletes or throws, and leaves a new target exactly when ffmpeg wrote part of one. A success creates the target and, without `--keep`, removes the original. The original goes only in that case. `--keep` never deletes. The loop stops exactly when a successful conversion without `--keep` finds the original already gone |
| Conversion.RunConversions | index.js:78-99 | the loop as a function: one `ConvertOne` per file, in order, stopping at the first throw. Its meaning is given by `OnlyConvertedDeleted`, `OnlyTargetsCreated`, `KeepNeverDeletes`, `NeverHalts`, `ExistingTargetSparesOriginal`, `ConvertedReplacesOriginal` and `SharedTargetSparesLater` |
| Conversion.ConvertFiles | index.js:78-99 | the loop's final filesystem and stop flag are those of `RunConversions` for the same files |
| Conversion.HaltedStaysHalted | index.js:95-99 | after `unlinkSync` throws, the `forEach` is abandoned: the remaining files change nothing |
| Conversion.Untouched | index.js:78-99 | a path that is neither the original nor the target of any later file keeps its existence |
| Conversion.NotDeleted | index.js:95-98 | a path that is not the original of any later file is never deleted by them |
| Conversion.OnlyConvertedDeleted | index.js:89-98 | a deleted path is a file of the loop whose own conversion succeeded, without `--keep` |
| Conversion.OnlyTargetsCreated | index.js:85-90 | a created path is the target of a file of the loop |
| Conversion.KeepNeverDeletes | index.js:95-98 | with `--keep` (line 6) every existing path survives the loop |
| Conversion.NeverHalts | index.js:95-98 | distinct files that all exist never make `unlinkSync` throw |
| Conversion.FailedKeepsOriginal | index.js:89-98 | a file whose conversion fails keeps its original |
| Conversion.StepAt | index.js:78-99 | the state after `i + 1` files is one iteration on from the state after `i` |
| Conversion.ExistingTargetSparesOriginal | index.js:80-83 | a file whose target already exists keeps its original |
| Conversion.ConvertedReplacesOriginal | index.js:79-98 | in a run of distinct existing files none of which is a target, a successful conversion whose target is new and is no other file's target ends with the target present, and with the original present exactly when `--keep` is given |
| Conversion.PresentTargetSparesOriginal | index.js:80-83 | a file whose target exists when the loop reaches it is skipped and keeps its original |
| Conversion.ConvertedTargetPresent | index.js:85-90 | a successful conversion of an existing file leaves its target behind |
| Conversion.SharedTargetSparesLater | index.js:78-99 | when two files share a target and the earlier one converts, the target exists at the end and the later file is skipped and kept: order decides |
| Script.KeepFlag | index.js:6 | `args.includes('--keep')`; `KeepDeletesOnlyCompanions` and `ConvertsAndReplaces` state its effect |
| Script.IsYes | index.js:56 | the confirmation pattern of line 56, case-insensitive, on the typed answer; `IsYesIff` gives the accepted answers exactly |
| Script.RunScript | index.js:44-100 | main as a function of the walk, the filesystem, the answer and the tools. Its meaning is given by the `Script` lemmas below: `CompanionsDeleted` for lines 61-74, and `DeletesOnly`, `CreatesOnlyTargets`, `ConvertsAndReplaces`, `ExistingTargetKept` and `LowBitRateKept` for the loop |
| Script.Run | index.js:44-100 | main's exit reason and final filesystem are those of `RunScript` |
| Script.IsYesIff | index.js:56 | the confirmation pattern accepts exactly `y` and `yes` in any mix of cases |
| Script.Converting | index.js:76 | the loop runs exactly on the candidates of lines 45-47 that pass the bit-rate test, each once |
| Script.ConvertingAppend | index.js:45-76 | the loop meets the files in discovery order |
| Script.LoopPreconditions | index.js:61-76 | the loop sees distinct, existing files, none of which is another's target |
| Script.CompanionsDeleted | index.js:60-74 | after a confirmed run, both companion dotfiles of every candidate are gone, and the loop never recreates one |
| Script.DeletesOnly | index.js:61-98 | every deleted path is a companion of a candidate, or a converted high-bit-rate candidate run without `--keep` |
| Script.CreatesOnlyTargets | index.js:85-90 | every created path is the target of a high-bit-rate candidate |
| Script.LowBitRateKept | index.js:76 | a candidate at or below 128 kbit/s, or one ffprobe cannot read, is never deleted |
| Script.KeepDeletesOnlyCompanions | index.js:95-98 | with `--keep` (line 6) only companion dotfiles are deleted |
| Script.NeverStops | index.js:95-99 | when the walk reports each existing file once, main never stops early |
| Script.ExistingTargetKept | index.js:80-83 | a found candidate whose target already exists keeps its original |
| Script.ConvertsAndReplaces | index.js:78-98 | a confirmed run converts a high-bit-rate candidate whose target is new and is the target of no other high-bit-rate candidate: the target appears, and the original is deleted exactly when `--keep` is absent |
| Script.SharedTargetKeepsLater | index.js:78-99 | of two high-bit-rate candidates with the same target, such as `Rock/Foo.mp3` and `Rock/foo.mp3`, when the first converts, the target exists at the end and the second is kept |

## Left out

- `findInDir` (index.js:8-20) walks the real directory tree. It becomes the parameter `found`. It is assumed to report each existing file once, in some order; the properties that need this say so.
- `fs.existsSync` and `fs.unlinkSync` work on the real filesystem. They become membership in, and removal from, a set of paths. Directories, symbolic links, permissions and concurrent changes are not modelled.
- The ffprobe and ffmpeg runs through `childProcess.execSync`, `JSON.parse` and the shell quoting of file names (index.js:25-27, 85-90) are external programs and a library parser. They become the parameters `probe` and `convert`. A partial output file after a failed ffmpeg run is modelled only as far as `Failed(partialTarget)` says.
- `BitRate.Kbps`: `bit_rate` is a non-negative whole number or absent. JavaScript's conversion of other strings to numbers (fractions, exponents, blanks) is not modelled. A missing or non-numeric `bit_rate` gives NaN, as in JavaScript. Values that JavaScript divides to 0 (`null`, `false`, `[]`) are modelled as absent too, so the model gives NaN where line 31 gives 0; both fail the `> 128` test of line 76, so which files are converted is unaffected.
- The `just-ask` prompt (index.js:55) is interactive I/O. Its answer becomes the parameter `response`.
- Console output: the `INF` / `WARN` / `DEL` / `ERR` messages and `src/utils.js`, whose chalk colouring and `sleep` carry no logic. The return values of `main` (0 or undefined) are replaced by the `Exit` reason.
- `toLowerCase`, `\d` and the `i` flag of line 56 are modelled for ASCII only. Unicode case mapping is not modelled.
- `path.basename` is modelled for POSIX paths; Windows separators are not.
- `Conversion.ConvertOne`: the promise that a successful conversion leaves its target behind is stated only when `--keep` is given or the target differs from the original. When they coincide, the script's `unlinkSync` removes the new file. This cannot happen for the script's own names (`Candidates.TargetNeverCandidate`).
- No parallel scheduler, progress counters, renaming of low-bit-rate files or deletion of an original whose target exists is modelled. `index.js` has none of them.
