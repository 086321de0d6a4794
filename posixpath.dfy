/**
  The parts of Python's `os.path` (POSIX flavour) that the pipeline uses to
  find a file's extension: `str.rfind`, `basename` and `splitext`.
*/
module PosixPath {

  /** The index of the last occurrence of `c` among the first `n` characters
      of `s`, or -1. */
  function LastIndexBefore(s: string, c: char, n: nat): (i: int)
    requires n <= |s|
    ensures -1 <= i < n
    ensures 0 <= i ==> s[i] == c
    ensures forall j :: i < j < n ==> s[j] != c
  {
    if n == 0 then -1
    else if s[n - 1] == c then n - 1
    else LastIndexBefore(s, c, n - 1)
  }

  /** `s.rfind(c)`: the index of the last occurrence of `c`, or -1. */
  function LastIndexOf(s: string, c: char): (i: int)
    ensures -1 <= i < |s|
    ensures 0 <= i ==> s[i] == c
    ensures forall j :: i < j < |s| ==> s[j] != c
  {
    LastIndexBefore(s, c, |s|)
  }

  /** The three properties of `LastIndexOf` determine it. */
  lemma LastIndexOfUnique(s: string, c: char, i: int)
    requires -1 <= i < |s|
    requires 0 <= i ==> s[i] == c
    requires forall j :: i < j < |s| ==> s[j] != c
    ensures i == LastIndexOf(s, c)
  {
  }

  /** `os.path.basename`: what follows the last '/'. */
  function BaseName(p: string): (b: string)
    ensures |b| <= |p| && b == p[|p| - |b|..]
    ensures forall k :: 0 <= k < |b| ==> b[k] != '/'
    ensures |b| < |p| ==> p[|p| - |b| - 1] == '/'
  {
    p[LastIndexOf(p, '/') + 1..]
  }

  /** Every character of `p` from `lo` up to `hi` is a dot. */
  predicate AllDotsIn(p: string, lo: int, hi: int)
    requires 0 <= lo && hi <= |p|
  {
    forall i :: lo <= i < hi ==> p[i] == '.'
  }

  /** From index `start` on, every dot of `p` is preceded only by dots. */
  predicate DotsLeadFrom(p: string, start: nat)
    requires start <= |p|
  {
    forall i, j :: start <= j < i < |p| && p[i] == '.' ==> p[j] == '.'
  }

  /** Every dot of `name` is preceded only by dots, as in "README", ".bashrc" or "..". */
  predicate OnlyLeadingDots(name: string) {
    DotsLeadFrom(name, 0)
  }

  /** `os.path.splitext`, as CPython's `genericpath._splitext` computes it
      for POSIX paths: split at the last dot when it lies after the last '/'
      and some character between the two is not a dot. */
  function SplitExt(p: string): (string, string) {
    var sep := LastIndexOf(p, '/');
    var dot := LastIndexOf(p, '.');
    if dot > sep && !AllDotsIn(p, sep + 1, dot) then (p[..dot], p[dot..]) else (p, "")
  }

  /** The root and the extension rebuild the path; the extension runs from
      the last dot of the final path component to the end, and is empty
      exactly when that component has no dot or only leading dots. */
  lemma SplitExtSpec(p: string)
    ensures SplitExt(p).0 + SplitExt(p).1 == p
    ensures SplitExt(p).1 == "" <==> OnlyLeadingDots(BaseName(p))
    ensures var e := SplitExt(p).1;
      e != "" ==> e[0] == '.' && forall k :: 1 <= k < |e| ==> e[k] != '.' && e[k] != '/'
  {
    var sep := LastIndexOf(p, '/');
    var dot := LastIndexOf(p, '.');
    BaseNameDots(p);
    if dot <= sep {
      assert SplitExt(p) == (p, "");
      assert DotsLeadFrom(p, sep + 1);
    } else if AllDotsIn(p, sep + 1, dot) {
      assert SplitExt(p) == (p, "");
      assert DotsLeadFrom(p, sep + 1);
    } else {
      InnerDot(p);
    }
  }

  /** The dots of the final component, seen from the whole path. */
  lemma BaseNameDots(p: string)
    ensures OnlyLeadingDots(BaseName(p)) <==> DotsLeadFrom(p, LastIndexOf(p, '/') + 1)
  {
    var start := LastIndexOf(p, '/') + 1;
    var b := BaseName(p);
    assert b == p[start..];
    if OnlyLeadingDots(b) {
      forall i, j | start <= j < i < |p| && p[i] == '.' ensures p[j] == '.' {
        assert b[i - start] == p[i] && b[j - start] == p[j];
      }
    }
    if DotsLeadFrom(p, start) {
      forall i, j | 0 <= j < i < |b| && b[i] == '.' ensures b[j] == '.' {
        assert b[i] == p[start + i] && b[j] == p[start + j];
      }
    }
  }

  /** A non-dot between the last '/' and the last dot: the split happens there. */
  lemma InnerDot(p: string)
    requires LastIndexOf(p, '/') < LastIndexOf(p, '.')
    requires !AllDotsIn(p, LastIndexOf(p, '/') + 1, LastIndexOf(p, '.'))
    ensures var dot := LastIndexOf(p, '.');
      SplitExt(p) == (p[..dot], p[dot..]) && p[..dot] + p[dot..] == p
    ensures !DotsLeadFrom(p, LastIndexOf(p, '/') + 1)
    ensures var e := SplitExt(p).1;
      e != "" && e[0] == '.' && forall k :: 1 <= k < |e| ==> e[k] != '.' && e[k] != '/'
  {
    var sep := LastIndexOf(p, '/');
    var dot := LastIndexOf(p, '.');
    var k :| sep + 1 <= k < dot && p[k] != '.';
    var e := p[dot..];
    assert p[..dot] + e == p;
    forall k | 1 <= k < |e| ensures e[k] != '.' && e[k] != '/' {
      assert e[k] == p[dot + k];
    }
  }

  /** The last dot of the final component is the last dot of the path,
      counted from the component's start, when it lies after the last '/'. */
  lemma LastDotOfBaseName(p: string)
    ensures var sep := LastIndexOf(p, '/');
      var dot := LastIndexOf(p, '.');
      LastIndexOf(p[sep + 1..], '.') == if dot > sep then dot - sep - 1 else -1
  {
    var sep := LastIndexOf(p, '/');
    var dot := LastIndexOf(p, '.');
    var b := p[sep + 1..];
    var i := if dot > sep then dot - sep - 1 else -1;
    forall j | i < j < |b| ensures b[j] != '.' {
      assert b[j] == p[sep + 1 + j];
    }
    if 0 <= i {
      assert b[i] == p[dot];
    }
    LastIndexOfUnique(b, '.', i);
  }

  /** Dots of a suffix of `p` are dots of `p`, shifted by where the suffix starts. */
  lemma AllDotsInSuffix(p: string, start: nat, lo: nat, hi: nat)
    requires start <= |p| && lo <= hi <= |p| - start
    ensures AllDotsIn(p[start..], lo, hi) <==> AllDotsIn(p, start + lo, start + hi)
  {
    var b := p[start..];
    if AllDotsIn(p, start + lo, start + hi) {
      forall i | lo <= i < hi ensures b[i] == '.' {
        assert b[i] == p[start + i];
      }
    }
    if AllDotsIn(b, lo, hi) {
      forall i | start + lo <= i < start + hi ensures p[i] == '.' {
        assert b[i - start] == p[i];
      }
    }
  }

  /** The extension is a property of the final path component alone. */
  lemma SplitExtOfBaseName(p: string)
    ensures SplitExt(BaseName(p)).1 == SplitExt(p).1
  {
    var sep := LastIndexOf(p, '/');
    var dot := LastIndexOf(p, '.');
    var b := BaseName(p);
    assert b == p[sep + 1..];
    LastIndexOfUnique(b, '/', -1);
    LastDotOfBaseName(p);
    if dot > sep {
      var i := dot - sep - 1;
      AllDotsInSuffix(p, sep + 1, 0, i);
      assert b[i..] == p[dot..];
    }
  }
}
