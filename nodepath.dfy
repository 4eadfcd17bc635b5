/** Node's path.basename (POSIX flavour) and the directory prefix that the
    script cuts off with `fn.substr(0, fn.lastIndexOf(base))`. */
module NodePath {
  import opened Text

  /** All characters of `s` are '/'. */
  predicate AllSlashes(s: string) {
    forall i :: 0 <= i < |s| ==> s[i] == '/'
  }

  /** A directory prefix as the script builds it: empty, or ending in '/'. */
  predicate IsDirPrefix(d: string) {
    d == [] || d[|d| - 1] == '/'
  }

  /** `p` without its trailing separators. */
  function TrimTrailingSlashes(p: string): (r: string)
    ensures r <= p
    ensures r == [] || r[|r| - 1] != '/'
    ensures AllSlashes(p[|r|..])
  {
    if p != [] && p[|p| - 1] == '/' then TrimTrailingSlashes(p[..|p| - 1]) else p
  }

  /** The characters after the last '/' of `p`. */
  function LastSegment(p: string): (r: string)
    ensures '/' !in r
    ensures |r| <= |p| && p[|p| - |r|..] == r
    ensures IsDirPrefix(p[..|p| - |r|])
  {
    if p == [] || p[|p| - 1] == '/' then []
    else
      var r := LastSegment(p[..|p| - 1]) + [p[|p| - 1]];
      assert p[..|p| - 1][..|p| - |r|] == p[..|p| - |r|];
      r
  }

  /** path.basename(p): the last segment once trailing separators are dropped. */
  function Basename(p: string): (r: string)
    ensures '/' !in r
  {
    LastSegment(TrimTrailingSlashes(p))
  }

  /** `fn.substr(0, fn.lastIndexOf(path.basename(fn)))`, lines 39 and 63 of the script. */
  function DirPrefix(p: string): (d: string)
    ensures d <= p
  {
    var k := LastIndexOf(p, Basename(p));
    if k < 0 then [] else p[..k]
  }

  /** `x` appended to a directory prefix is that path's basename. */
  lemma {:induction false} BasenameAfterDir(d: string, x: string)
    requires IsDirPrefix(d) && x != [] && '/' !in x
    ensures Basename(d + x) == x
  {
    assert (d + x)[|d + x| - 1] == x[|x| - 1];
    assert TrimTrailingSlashes(d + x) == d + x;
    LastSegmentAfterDir(d, x);
  }

  lemma {:induction false} LastSegmentAfterDir(d: string, x: string)
    requires IsDirPrefix(d) && '/' !in x
    ensures LastSegment(d + x) == x
    decreases |x|
  {
    if x == [] {
      assert d + x == d;
    } else {
      var p := d + x;
      var c := x[|x| - 1];
      var x' := x[..|x| - 1];
      assert c in x;
      assert p[|p| - 1] == c;
      assert p[..|p| - 1] == d + x';
      assert LastSegment(p) == LastSegment(d + x') + [c];
      LastSegmentAfterDir(d, x');
      assert x' + [c] == x;
    }
  }

  /** A segment without '/' that ends just before a run of trailing
      separators is found there by lastIndexOf. */
  lemma LastOccurrenceBeforeSlashes(p: string, d: string, b: string)
    requires d + b <= p && AllSlashes(p[|d + b|..])
    requires b != [] && '/' !in b
    ensures LastIndexOf(p, b) == |d|
  {
    var t := d + b;
    assert OccursAt(p, b, |d|) by {
      assert p[|d|..|d| + |b|] == t[|d|..];
    }
    forall j | |d| < j
      ensures !OccursAt(p, b, j)
    {
      if 0 <= j && j + |b| <= |p| {
        var last := j + |b| - 1;
        assert p[last] == p[|t|..][last - |t|] == '/';
        assert b[|b| - 1] in b;
        assert p[j..j + |b|][|b| - 1] != b[|b| - 1];
      }
    }
  }

  /** A path of separators only has an empty basename and is its own prefix. */
  lemma DirPrefixOfSlashes(p: string)
    requires Basename(p) == []
    ensures DirPrefix(p) == p && AllSlashes(p)
  {
    var t := TrimTrailingSlashes(p);
    assert t == [];
    assert p[|t|..] == p;
    assert OccursAt(p, [], |p|) by {
      assert p[|p|..|p|] == [];
    }
    assert p[..|p|] == p;
  }

  /** Otherwise the basename follows the prefix directly (only trailing
      separators come after it), and the prefix is empty or ends in '/'. */
  lemma DirPrefixOfNamed(p: string)
    requires Basename(p) != []
    ensures IsDirPrefix(DirPrefix(p)) && TrimTrailingSlashes(p) == DirPrefix(p) + Basename(p)
  {
    var t := TrimTrailingSlashes(p);
    var b := LastSegment(t);
    var d := t[..|t| - |b|];
    assert t == d + b && IsDirPrefix(d);
    assert d + b <= p && AllSlashes(p[|d + b|..]);
    LastOccurrenceBeforeSlashes(p, d, b);
    assert DirPrefix(p) == p[..|d|];
    assert p[..|d|] == d;
  }

  /** How a path falls apart into directory prefix and basename. */
  lemma DirPrefixShape(p: string)
    ensures IsDirPrefix(DirPrefix(p))
    ensures Basename(p) != [] ==> TrimTrailingSlashes(p) == DirPrefix(p) + Basename(p)
    ensures Basename(p) == [] ==> DirPrefix(p) == p && AllSlashes(p)
  {
    if Basename(p) == [] {
      DirPrefixOfSlashes(p);
    } else {
      DirPrefixOfNamed(p);
    }
  }

  /** A suffix without separators of a path in directory `d` lies within
      the part after `d`. */
  lemma SuffixAfterDir(d: string, x: string, u: string)
    requires IsDirPrefix(d) && '/' !in u
    requires |u| <= |d + x| && (d + x)[|d + x| - |u|..] == u
    ensures |u| <= |x| && x[|x| - |u|..] == u
  {
    var y := d + x;
    var n := |y| - |u|;
    assert forall j :: n <= j < |y| ==> y[j] == u[j - n];
    if d != [] {
      assert y[|d| - 1] == '/';
    }
    assert x[|x| - |u|..] == y[n..];
  }

  /** For a path that does not end in '/', the path is exactly its
      directory prefix followed by its basename. */
  lemma SplitPath(p: string)
    requires p != [] && p[|p| - 1] != '/'
    ensures p == DirPrefix(p) + Basename(p)
    ensures IsDirPrefix(DirPrefix(p)) && Basename(p) != []
  {
    DirPrefixShape(p);
    assert TrimTrailingSlashes(p) == p;
  }
}
