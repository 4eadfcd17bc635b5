/** getTargetName (index.js, lines 34-40): the name of the converted file.
    The basename is lower-cased, a leading "<digits>." loses its dot, and a
    trailing recognised extension gets the ".128." marker; the directory
    prefix is kept as it is. */
module TargetNames {
  import opened Text
  import opened NodePath

  /** The extensions of the regular expression (mp3|flac|mpc|ogg). */
  const Extensions: seq<string> := ["mp3", "flac", "mpc", "ogg"]

  /** `s` ends in '.' followed by `e`. */
  predicate EndsWithExt(s: string, e: string) {
    |s| > |e| && s[|s| - |e| - 1..] == "." + e
  }

  /** The regular expression /\.(mp3|flac|mpc|ogg)$/: the recognised
      extension `s` ends with, if any. The match is case-sensitive and at
      most one extension can match. */
  function AudioExt(s: string): (r: Option<string>)
    ensures r.Some? ==> r.value in Extensions && EndsWithExt(s, r.value)
    ensures forall e :: e in Extensions && EndsWithExt(s, e) ==> r == Some(e)
  {
    ExtTails(s);
    if EndsWithExt(s, "mp3") then Some("mp3")
    else if EndsWithExt(s, "flac") then Some("flac")
    else if EndsWithExt(s, "mpc") then Some("mpc")
    else if EndsWithExt(s, "ogg") then Some("ogg")
    else None
  }

  /** A name ending in ".e" ends in the last two characters of `e`. */
  lemma EndsWithExtTail(s: string, e: string)
    requires |e| >= 2 && EndsWithExt(s, e)
    ensures s[|s| - 1] == e[|e| - 1] && s[|s| - 2] == e[|e| - 2]
  {
    var t := s[|s| - |e| - 1..];
    assert t == "." + e;
    assert s[|s| - 1] == t[|t| - 1] && s[|s| - 2] == t[|t| - 2];
  }

  /** The four extensions end in four different character pairs ("p3",
      "ac", "pc", "gg"), so a name ends in at most one of them. */
  lemma ExtTails(s: string)
    ensures forall e :: e in Extensions && EndsWithExt(s, e) ==> s[|s| - 1] == e[|e| - 1] && s[|s| - 2] == e[|e| - 2]
  {
    forall e | e in Extensions && EndsWithExt(s, e)
      ensures s[|s| - 1] == e[|e| - 1] && s[|s| - 2] == e[|e| - 2]
    {
      EndsWithExtTail(s, e);
    }
  }

  predicate HasAudioExt(s: string) {
    AudioExt(s).Some?
  }

  /** A recognised extension brings its dot: a name without any dot has none. */
  lemma AudioExtHasDot(s: string)
    ensures HasAudioExt(s) ==> '.' in s
  {
    if HasAudioExt(s) {
      var e := AudioExt(s).value;
      assert s[|s| - |e| - 1] == s[|s| - |e| - 1..][0] == '.';
    }
  }

  /** The length of the run of ASCII digits that `s` starts with. */
  function LeadingDigits(s: string): (k: nat)
    ensures k <= |s|
    ensures forall i :: 0 <= i < k ==> IsDigit(s[i])
    ensures k < |s| ==> !IsDigit(s[k])
  {
    if s != [] && IsDigit(s[0]) then 1 + LeadingDigits(s[1..]) else 0
  }

  /** The regular expression /^(\d+)\./ matches `s`, with `s[..k]` as the digit group. */
  predicate TrackPrefixAt(s: string, k: int) {
    0 < k < |s| && (forall i :: 0 <= i < k ==> IsDigit(s[i])) && s[k] == '.'
  }

  /** `.replace(/^(\d+)\./, '$1')`: the dot after a leading track number is
      dropped; at most one dot goes, and nothing else changes. */
  function StripTrackDot(s: string): (r: string)
    ensures forall k :: TrackPrefixAt(s, k) ==> r == s[..k] + s[k + 1..]
    ensures (forall k :: !TrackPrefixAt(s, k)) ==> r == s
  {
    var k := LeadingDigits(s);
    if 0 < k < |s| && s[k] == '.' then
      assert TrackPrefixAt(s, k);
      s[..k] + s[k + 1..]
    else s
  }

  /** `.replace(/\.(mp3|flac|mpc|ogg)$/, '.128.$1')`: the "128" marker goes
      between the final dot and the recognised extension. */
  function AddMarker(s: string): (r: string)
    ensures forall e :: e in Extensions && EndsWithExt(s, e) ==> r == s[..|s| - |e| - 1] + ".128." + e
    ensures !HasAudioExt(s) ==> r == s
  {
    match AudioExt(s)
    case Some(e) => s[..|s| - |e| - 1] + ".128." + e
    case None => s
  }

  /** The new basename, line 36-38: lower-case, then the track rule, then the marker rule. */
  function NewName(base: string): string {
    AddMarker(StripTrackDot(Lower(base)))
  }

  /** getTargetName(fn). */
  function TargetName(fn: Path): Path {
    DirPrefix(fn) + NewName(Basename(fn))
  }

  // ----- properties ------------------------------------------------------

  /** Everything before the basename is kept character for character (it is
      not lower-cased); the basename alone is rewritten. */
  lemma TargetNameKeepsDirectory(fn: Path)
    requires fn != [] && fn[|fn| - 1] != '/'
    ensures var b := Basename(fn); var n := |fn| - |b|;
      b != [] && '/' !in b && IsDirPrefix(fn[..n]) && fn == fn[..n] + b &&
      TargetName(fn) == fn[..n] + NewName(b)
  {
    SplitPath(fn);
  }

  /** "<digits>.<ext>" and nothing else: the only audio basename whose
      extension dot is the one the track rule removes. */
  predicate BareTrackNumber(b: string, e: string) {
    TrackPrefixAt(b, |b| - |e| - 1)
  }

  lemma ExtensionChars(e: string)
    requires e in Extensions
    ensures forall c :: c in e ==> 'a' <= c <= 'z' || c == '3'
  {
    if e == "mp3" {
      assert forall c :: c in e ==> c == 'm' || c == 'p' || c == '3';
    } else if e == "flac" {
      assert forall c :: c in e ==> c == 'f' || c == 'l' || c == 'a' || c == 'c';
    } else if e == "mpc" {
      assert forall c :: c in e ==> c == 'm' || c == 'p' || c == 'c';
    } else {
      assert forall c :: c in e ==> c == 'o' || c == 'g';
    }
  }

  /** An extension holds neither of the two separators, so a recognised
      extension lies within the basename and after its last dot. */
  lemma ExtensionSeparators(e: string)
    requires e in Extensions
    ensures e != [] && '.' !in e && '/' !in e
  {
    ExtensionChars(e);
  }

  /** A path with a recognised extension does not end in '/'. */
  lemma AudioPathNotDir(s: string)
    requires HasAudioExt(s)
    ensures s != [] && s[|s| - 1] != '/'
  {
    var e := AudioExt(s).value;
    ExtensionSeparators(e);
    assert s[|s| - 1] == s[|s| - |e| - 1..][|e|] == e[|e| - 1];
    assert e[|e| - 1] in e;
  }

  /** Lower-casing keeps a recognised extension. */
  lemma LowerKeepsExt(b: string, e: string)
    requires e in Extensions && EndsWithExt(b, e)
    ensures EndsWithExt(Lower(b), e)
  {
    var s := Lower(b);
    var n := |b| - |e| - 1;
    var x := "." + e;
    ExtensionChars(e);
    forall i | 0 <= i < |x|
      ensures s[n..][i] == x[i]
    {
      assert b[n..][i] == x[i];
      assert i > 0 ==> x[i] == e[i - 1] && e[i - 1] in e;
      LowerKeeps(b, n + i);
    }
    assert s[n..] == x;
  }

  /** Removing one character before position `n` shifts the suffix from `n` by one. */
  lemma DropKeepsSuffix(s: string, k: int, n: int)
    requires 0 <= k < n <= |s|
    ensures (s[..k] + s[k + 1..])[n - 1..] == s[n..]
  {
    var m := s[..k] + s[k + 1..];
    assert forall i :: n - 1 <= i < |m| ==> m[i] == s[i + 1];
  }

  /** The track rule keeps the extension unless it removes the extension's own dot. */
  lemma StripKeepsExt(s: string, e: string)
    requires EndsWithExt(s, e)
    requires !TrackPrefixAt(s, |s| - |e| - 1)
    ensures EndsWithExt(StripTrackDot(s), e)
  {
    var k := LeadingDigits(s);
    var n := |s| - |e| - 1;
    assert s[n] == s[n..][0] == '.';
    if 0 < k < |s| && s[k] == '.' {
      assert k <= n;
      assert k != n;
      assert TrackPrefixAt(s, k);
      DropKeepsSuffix(s, k, n);
    }
  }

  /** Lower-casing neither creates nor destroys a leading "<digits>.". */
  lemma LowerTrackPrefix(b: string, k: int)
    ensures TrackPrefixAt(Lower(b), k) <==> TrackPrefixAt(b, k)
  {
    var s := Lower(b);
    if 0 < k < |b| {
      forall i | 0 <= i <= k
        ensures (IsDigit(s[i]) <==> IsDigit(b[i])) && (s[i] == '.' <==> b[i] == '.')
      {
        LowerAt(b, i);
      }
    }
  }

  /** "<digits>.<ext>" loses its only dot and gets no marker. */
  lemma NewNameBare(b: string, e: string)
    requires e in Extensions && EndsWithExt(b, e) && BareTrackNumber(b, e)
    ensures NewName(b) == b[..|b| - |e| - 1] + e && '.' !in NewName(b)
  {
    var s := Lower(b);
    var k := |b| - |e| - 1;
    LowerKeepsExt(b, e);
    LowerTrackPrefix(b, k);
    var m := s[..k] + s[k + 1..];
    assert StripTrackDot(s) == m;
    assert s[k + 1..] == s[k..][1..] == e;
    assert s[..k] == b[..k] by {
      forall i | 0 <= i < k
        ensures s[i] == b[i]
      {
        LowerKeeps(b, i);
      }
    }
    assert '.' !in m by {
      ExtensionSeparators(e);
      assert forall c :: c in b[..k] ==> IsDigit(c);
    }
    AudioExtHasDot(m);
  }

  /** Any other name with a recognised extension ends in ".128.<ext>". */
  lemma NewNameMarked(b: string, e: string)
    requires e in Extensions && EndsWithExt(b, e) && !BareTrackNumber(b, e)
    ensures var m := StripTrackDot(Lower(b));
      EndsWithExt(m, e) && NewName(b) == m[..|m| - |e| - 1] + ".128." + e
  {
    var s := Lower(b);
    LowerKeepsExt(b, e);
    LowerTrackPrefix(b, |b| - |e| - 1);
    StripKeepsExt(s, e);
  }

  /** What the new basename of a file with a recognised extension looks
      like: "<digits>.<ext>" loses its only dot and so gets no marker
      ("01.mp3" becomes "01mp3"); every other name ends in ".128.<ext>"
      with the same extension. */
  lemma NewNameOfAudioFile(b: string, e: string)
    requires e in Extensions && EndsWithExt(b, e)
    ensures BareTrackNumber(b, e) ==>
      NewName(b) == b[..|b| - |e| - 1] + e && '.' !in NewName(b)
    ensures !BareTrackNumber(b, e) ==>
      var m := StripTrackDot(Lower(b));
      EndsWithExt(m, e) && NewName(b) == m[..|m| - |e| - 1] + ".128." + e
  {
    if BareTrackNumber(b, e) {
      NewNameBare(b, e);
    } else {
      NewNameMarked(b, e);
    }
  }

  /** Lower-casing never produces a '/'. */
  lemma LowerNoSlash(b: string)
    requires '/' !in b
    ensures '/' !in Lower(b)
  {
    var s := Lower(b);
    forall i | 0 <= i < |s|
      ensures s[i] != '/'
    {
      assert b[i] in b;
      LowerAt(b, i);
    }
  }

  /** The track rule only removes a character. */
  lemma StripNoSlash(s: string)
    requires '/' !in s
    ensures '/' !in StripTrackDot(s)
  {
    var k := LeadingDigits(s);
    if 0 < k < |s| && s[k] == '.' {
      assert TrackPrefixAt(s, k);
      var m := s[..k] + s[k + 1..];
      assert forall c :: c in m ==> c in s;
    }
  }

  /** The marker rule only adds ".128.". */
  lemma AddMarkerNoSlash(m: string)
    requires '/' !in m
    ensures '/' !in AddMarker(m)
  {
    match AudioExt(m)
    case None =>
    case Some(e) =>
      var pre := m[..|m| - |e| - 1];
      ExtensionSeparators(e);
      assert '/' !in pre by {
        assert forall c :: c in pre ==> c in m;
      }
      assert '/' !in pre + ".128." + e;
  }

  /** The new name never contains a separator, so the target stays in the
      source's directory. */
  lemma NewNameNoSlash(b: string)
    requires '/' !in b
    ensures '/' !in NewName(b)
  {
    LowerNoSlash(b);
    StripNoSlash(Lower(b));
    AddMarkerNoSlash(StripTrackDot(Lower(b)));
  }

  /** Renaming keeps the first character's place: a name that does not
      start with a dot gets a new name that does not either. */
  lemma NewNameNoLeadingDot(b: string)
    requires b != [] && b[0] != '.'
    ensures NewName(b) != [] && NewName(b)[0] != '.'
  {
    var s := Lower(b);
    LowerAt(b, 0);
    assert s[0] != '.';
    var m := StripTrackDot(s);
    assert m != [] && m[0] == s[0] by {
      var k := LeadingDigits(s);
      if 0 < k < |s| && s[k] == '.' {
        assert m == s[..k] + s[k + 1..];
        assert m[0] == s[..k][0];
      }
    }
    if HasAudioExt(m) {
      var e := AudioExt(m).value;
      var n := |m| - |e| - 1;
      assert m[n] == m[n..][0] == '.';
      assert n > 0;
      assert NewName(b)[0] == m[..n][0];
    }
  }

  /** The target of a file `b` in directory `d` is the new name in the same directory. */
  lemma TargetNameInDir(d: string, b: string)
    requires IsDirPrefix(d) && b != [] && '/' !in b
    ensures TargetName(d + b) == d + NewName(b)
  {
    var p := d + b;
    BasenameAfterDir(d, b);
    SplitPath(p);
    assert DirPrefix(p) + b == d + b;
  }

  /** Names in one directory that differ only in case, such as "Foo.mp3"
      and "foo.mp3", share their target. */
  lemma CaseOnlyClash(d: string, x: string, y: string)
    requires IsDirPrefix(d) && x != [] && '/' !in x && y != [] && '/' !in y
    requires Lower(x) == Lower(y)
    ensures TargetName(d + x) == TargetName(d + y)
  {
    TargetNameInDir(d, x);
    TargetNameInDir(d, y);
  }

  /** The target of an audio file that is not "<digits>.<ext>" is, in the
      same directory, a stem followed by ".128." and the same extension. */
  lemma MarkedTargetShape(d: string, b: string, e: string) returns (stem: string)
    requires IsDirPrefix(d) && b != [] && '/' !in b
    requires e in Extensions && EndsWithExt(b, e) && !BareTrackNumber(b, e)
    ensures TargetName(d + b) == d + (stem + ".128." + e) && '.' !in e
  {
    ExtensionSeparators(e);
    var m := StripTrackDot(Lower(b));
    stem := m[..|m| - |e| - 1];
    TargetNameInDir(d, b);
    NewNameOfAudioFile(b, e);
  }

  // ----- worked examples -------------------------------------------------

  lemma LowerExample()
    ensures Lower("03.Track.flac") == "03.track.flac"
  {
  }

  lemma StripTrackDotExample()
    ensures StripTrackDot("03.track.flac") == "03track.flac"
  {
    assert TrackPrefixAt("03.track.flac", 2);
  }

  /** "03.Track.flac" is renamed "03track.128.flac". */
  lemma NewNameExampleMarked()
    ensures NewName("03.Track.flac") == "03track.128.flac"
  {
    var b := "03.Track.flac";
    var m := "03track.flac";
    assert m[..7] + ".128." + "flac" == "03track.128.flac" by {
      assert m[..7] == "03track";
    }
    assert EndsWithExt(b, "flac") && !BareTrackNumber(b, "flac") by {
      assert b[8..] == ".flac";
      assert !IsDigit(b[2]);
    }
    assert StripTrackDot(Lower(b)) == m by {
      LowerExample();
      StripTrackDotExample();
    }
    NewNameOfAudioFile(b, "flac");
  }

  /** "01.mp3" is renamed "01mp3": the track rule runs first and takes the
      extension's dot, so the marker rule no longer applies. */
  lemma NewNameExampleBare()
    ensures NewName("01.mp3") == "01mp3"
  {
    var b := "01.mp3";
    assert Lower(b) == b;
    assert TrackPrefixAt(b, 2);
    var m := StripTrackDot(b);
    assert m == "01mp3";
    assert '.' !in m;
    AudioExtHasDot(m);
  }

  /** "03.Track.flac" in any directory, "Rock/" say, becomes
      "03track.128.flac" in that same directory, whose name keeps its case. */
  lemma TargetNameExample(dir: string, file: string)
    requires IsDirPrefix(dir) && file == "03.Track.flac"
    ensures TargetName(dir + file) == dir + "03track.128.flac"
  {
    assert '/' !in file by {
      assert forall c :: c in file ==> c != '/';
    }
    TargetNameInDir(dir, file);
    NewNameExampleMarked();
  }
}
