/** The parts of Python's `posixpath` (`os.path` on POSIX systems) that the
    core calls: `splitext` and two-argument `join`. */
module OsPath {
  import opened Text

  /** Some character of `p[lo..hi]` is not a '.'. */
  predicate HasNonDot(p: string, lo: int, hi: int)
    requires 0 <= lo && hi <= |p|
  {
    exists k :: lo <= k < hi && p[k] != '.'
  }

  /** `os.path.splitext`: the extension is the text from the last '.' of the
      base name on, unless everything in the base name before that dot is
      itself a dot (".png", "..gz"), in which case there is no extension. */
  function SplitExt(p: string): (r: (string, string))
    ensures r.0 + r.1 == p
    ensures r.1 != [] ==> r.1[0] == '.' && |r.0| == LastIndexOf(p, '.')
    ensures forall k :: 0 <= k < |r.1| ==> r.1[k] != '/'
    ensures forall k :: 1 <= k < |r.1| ==> r.1[k] != '.'
  {
    var sepIndex := LastIndexOf(p, '/');
    var dotIndex := LastIndexOf(p, '.');
    if dotIndex > sepIndex && HasNonDot(p, sepIndex + 1, dotIndex) then
      (p[..dotIndex], p[dotIndex..])
    else
      (p, [])
  }

  /** The extension that `os.path.splitext` splits off: a suffix of the
      path that is empty or starts at the path's last '.'. */
  function Ext(p: string): (e: string)
    ensures EndsWith(p, e)
    ensures e != [] ==> e[0] == '.' && |p| - |e| == LastIndexOf(p, '.')
  {
    SplitExt(p).1
  }

  /** After the last '/' of `p`, some character other than '.' is followed,
      somewhere later, by a '.'. */
  predicate DotAfterStem(p: string)
  {
    exists i, j :: LastIndexOf(p, '/') < i < j < |p| && p[i] != '.' && p[j] == '.'
  }

  /** A path has an extension exactly when its base name holds a '.' that has
      a character other than '.' somewhere before it. */
  lemma ExtNonEmptyIff(p: string)
    ensures Ext(p) != [] <==> DotAfterStem(p)
  {
    if Ext(p) != [] {
      ExtHasStem(p);
    }
    if DotAfterStem(p) {
      StemHasExt(p);
    }
  }

  /** The forward direction of `ExtNonEmptyIff`. */
  lemma ExtHasStem(p: string)
    requires Ext(p) != []
    ensures DotAfterStem(p)
  {
    var s := LastIndexOf(p, '/') + 1;
    var dotIndex := LastIndexOf(p, '.');
    assert dotIndex >= s && HasNonDot(p, s, dotIndex);
    var k :| s <= k < dotIndex && p[k] != '.';
    assert p[dotIndex] == '.';
  }

  /** The backward direction of `ExtNonEmptyIff`. */
  lemma StemHasExt(p: string)
    requires DotAfterStem(p)
    ensures Ext(p) != []
  {
    var s := LastIndexOf(p, '/') + 1;
    var dotIndex := LastIndexOf(p, '.');
    var i, j :| s <= i < j < |p| && p[i] != '.' && p[j] == '.';
    assert j <= dotIndex;
    assert HasNonDot(p, s, dotIndex);
    assert SplitExt(p).1 == p[dotIndex..];
  }

  /** A name with no '.' at all has no extension. */
  lemma NoDotNoExt(p: string)
    requires forall k :: 0 <= k < |p| ==> p[k] != '.'
    ensures Ext(p) == []
  {
  }

  /** Lowering keeps every '.' and every non-'.' where it was. */
  lemma HasNonDotToLower(p: string, lo: nat, hi: nat)
    requires lo <= hi <= |p|
    ensures HasNonDot(ToLower(p), lo, hi) <==> HasNonDot(p, lo, hi)
  {
    var q := ToLower(p);
    if HasNonDot(p, lo, hi) {
      var k :| lo <= k < hi && p[k] != '.';
      assert q[k] != '.';
    }
    if HasNonDot(q, lo, hi) {
      var k :| lo <= k < hi && q[k] != '.';
      assert p[k] != '.';
    }
  }

  /** `os.path.splitext` commutes with `str.lower`, because lowering moves no
      '.' and no '/'. */
  lemma ExtToLower(p: string)
    ensures Ext(ToLower(p)) == ToLower(Ext(p))
  {
    var q := ToLower(p);
    LastIndexOfToLower(p, '/');
    LastIndexOfToLower(p, '.');
    var s := LastIndexOf(p, '/') + 1;
    var dotIndex := LastIndexOf(p, '.');
    if dotIndex >= s {
      HasNonDotToLower(p, s, dotIndex);
      if HasNonDot(p, s, dotIndex) {
        ToLowerSuffix(p, dotIndex);
        assert SplitExt(q) == (q[..dotIndex], q[dotIndex..]);
        assert SplitExt(p) == (p[..dotIndex], p[dotIndex..]);
      } else {
        assert SplitExt(q) == (q, []);
        assert SplitExt(p) == (p, []);
      }
    } else {
      assert SplitExt(q) == (q, []);
      assert SplitExt(p) == (p, []);
    }
  }

  /** Two-argument `os.path.join`: an absolute second part replaces the
      first; otherwise a '/' is inserted unless the first part is empty or
      already ends with one. */
  function Join(a: string, b: string): (r: string)
    ensures EndsWith(r, b)
    ensures |b| > 0 && b[0] == '/' ==> r == b
    ensures !(|b| > 0 && b[0] == '/') ==> |a| <= |r| && r[..|a|] == a
    ensures !(|b| > 0 && b[0] == '/') ==>
      (|r| == |a| + |b| <==> a == [] || a[|a| - 1] == '/')
    ensures !(|b| > 0 && b[0] == '/') && |r| != |a| + |b| ==>
      |r| == |a| + 1 + |b| && r[|a|] == '/'
  {
    if |b| > 0 && b[0] == '/' then b
    else if a == [] || a[|a| - 1] == '/' then a + b
    else a + "/" + b
  }
}
