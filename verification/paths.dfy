/** Relative directory paths as the generator sees them: the separator, the
    segments of a path, the normal form `os.path.normpath` leaves a relative
    path in, and separator-terminated prefixes. */
module Paths {

  /** `os.path.sep`, fixed to the POSIX separator. */
  const SEP: char := '/'

  /** The pieces of `q` between separators, as `q.split(SEP)` returns them. */
  function Segments(q: string): (r: seq<string>)
    ensures |r| >= 1
    ensures (r[|r| - 1] == []) <==> (q == [] || q[|q| - 1] == SEP)
    decreases |q|
  {
    if q == [] then [[]]
    else
      var init := Segments(q[..|q| - 1]);
      var c := q[|q| - 1];
      if c == SEP then init + [[]]
      else init[..|init| - 1] + [init[|init| - 1] + [c]]
  }

  /** No segment contains the separator. */
  lemma {:induction false} SegmentsHaveNoSep(q: string)
    ensures forall s :: s in Segments(q) ==> SEP !in s
    decreases |q|
  {
    if q != [] {
      SegmentsHaveNoSep(q[..|q| - 1]);
      var init := Segments(q[..|q| - 1]);
      if q[|q| - 1] != SEP {
        assert init[|init| - 1] in init;
        forall s | s in init[..|init| - 1]
          ensures s in init
        {
        }
      }
    }
  }

  /** A piece without a separator is a single segment. */
  lemma {:induction false} SegmentsOfPlain(s: string)
    requires SEP !in s
    ensures Segments(s) == [s]
    decreases |s|
  {
    if s != [] {
      SegmentsOfPlain(s[..|s| - 1]);
      assert s[..|s| - 1] + [s[|s| - 1]] == s;
    }
  }

  /** Appending a separator and a piece without one adds that piece as the
      last segment. */
  lemma {:induction false} SegmentsAfterSep(q: string, s: string)
    requires SEP !in s
    ensures Segments(q + [SEP] + s) == Segments(q) + [s]
    decreases |s|
  {
    var t := q + [SEP] + s;
    if s == [] {
      assert t[..|t| - 1] == q;
    } else {
      var s' := s[..|s| - 1];
      assert t[..|t| - 1] == q + [SEP] + s';
      SegmentsAfterSep(q, s');
      assert s' + [s[|s| - 1]] == s;
    }
  }

  /** A segment `normpath` keeps: not empty, not `.` and not `..`. */
  predicate IsKeptSegment(s: string)
  {
    s != [] && s != "." && s != ".."
  }

  /** Every segment in `segs` is one `normpath` keeps. */
  predicate AllKept(segs: seq<string>)
    decreases |segs|
  {
    segs == [] || (IsKeptSegment(segs[0]) && AllKept(segs[1..]))
  }

  /** The last of a list of kept segments is kept. */
  lemma {:induction false} LastKept(segs: seq<string>)
    requires segs != [] && AllKept(segs)
    ensures IsKeptSegment(segs[|segs| - 1])
    decreases |segs|
  {
    if |segs| > 1 {
      LastKept(segs[1..]);
      assert segs[1..][|segs| - 2] == segs[|segs| - 1];
    }
  }

  /** `q` is a relative path that `os.path.normpath` leaves unchanged and that
      has at least one segment: it is not empty and has no empty, `.` or `..`
      segment (so no leading, trailing or doubled separator). */
  predicate IsNormal(q: string)
  {
    q != [] && AllKept(Segments(q))
  }

  /** The paths whose normalisation this model covers: a normal path, possibly
      followed by one separator (as in `test/`). */
  predicate WellFormedPath(p: string)
  {
    IsNormal(if |p| > 0 && p[|p| - 1] == SEP then p[..|p| - 1] else p)
  }

  /** `os.path.normpath` on a well-formed path: it drops the trailing separator. */
  function NormPath(p: string): (q: string)
    requires WellFormedPath(p)
    ensures IsNormal(q) && q[|q| - 1] != SEP
    ensures p == q || p == q + [SEP]
  {
    var q := if p[|p| - 1] == SEP then p[..|p| - 1] else p;
    LastKept(Segments(q));
    q
  }

  /** `p` ends with the separator. */
  predicate EndsWithSep(p: string)
  {
    |p| > 0 && p[|p| - 1] == SEP
  }

  /** `k` is a prefix of `s` that ends with the separator. */
  predicate IsSepPrefix(k: string, s: string)
  {
    0 < |k| <= |s| && k == s[..|k|] && k[|k| - 1] == SEP
  }

  /** A path ending with the separator is a separator-terminated prefix of
      itself. */
  lemma {:induction false} SelfPrefix(s: string)
    requires EndsWithSep(s)
    ensures IsSepPrefix(s, s)
  {
    assert s[..|s|] == s;
  }

  /** The separator-terminated prefixes of `s`, shortest first. */
  function SepPrefixes(s: string): (r: seq<string>)
    ensures forall k :: k in r <==> IsSepPrefix(k, s)
    decreases |s|
  {
    if s == [] then []
    else
      var init := SepPrefixes(s[..|s| - 1]);
      assert forall k :: IsSepPrefix(k, s) && |k| < |s| ==> IsSepPrefix(k, s[..|s| - 1]);
      assert forall k :: IsSepPrefix(k, s[..|s| - 1]) ==> IsSepPrefix(k, s);
      assert s[..|s|] == s;
      if s[|s| - 1] == SEP then init + [s] else init
  }
}
