/**
  The two `os.path` functions the modelled code calls, with the POSIX
  semantics of CPython's `posixpath` module: `split` (of which only the
  tail is used) and `splitext`.
 */
module PosixPath {
  import opened PyStr

  /** Some character of `p[lo..hi]` is not a dot. */
  predicate HasNonDot(p: string, lo: int, hi: int) {
    exists i :: lo <= i < hi && 0 <= i < |p| && p[i] != '.'
  }

  /**
    `os.path.splitext(p)`: the extension starts at the last dot of the last
    path component, unless everything before that dot in the component is a
    dot (".bashrc", "..x" have no extension).
   */
  function SplitExt(p: string): (r: (string, string))
    ensures r.0 + r.1 == p
    ensures r.1 == [] || (r.1[0] == '.' && '.' !in r.1[1..] && '/' !in r.1[1..])
    ensures r.1 != [] ==> HasNonDot(p, RFind(p, '/') + 1, |r.0|)
    ensures r.1 == [] ==>
              RFind(p, '.') < RFind(p, '/')
              || RFind(p, '.') == -1
              || !HasNonDot(p, RFind(p, '/') + 1, RFind(p, '.'))
  {
    var sep := RFind(p, '/');
    var dot := RFind(p, '.');
    if dot > sep && HasNonDot(p, sep + 1, dot) then
      assert p[dot..][1..] == p[dot + 1..];
      (p[..dot], p[dot..])
    else (p, "")
  }

  /** `splitext` cuts at the last dot when it follows the last slash and a non-dot precedes it in that component. */
  lemma SplitExtAt(p: string, dot: int)
    requires dot == RFind(p, '.') && RFind(p, '/') < dot
    requires HasNonDot(p, RFind(p, '/') + 1, dot)
    ensures SplitExt(p) == (p[..dot], p[dot..])
  {
  }

  /**
    The scan CPython performs: walk from the start of the last component to
    the last dot and split at the first non-dot character found.
   */
  method SplitExtScan(p: string) returns (root: string, ext: string)
    ensures (root, ext) == SplitExt(p)
    ensures root + ext == p
  {
    var sep := RFind(p, '/');
    var dot := RFind(p, '.');
    if dot > sep {
      var i := sep + 1;
      while i < dot
        invariant sep + 1 <= i <= dot
        invariant forall j :: sep + 1 <= j < i ==> p[j] == '.'
      {
        if p[i] != '.' {
          return p[..dot], p[dot..];
        }
        i := i + 1;
      }
    }
    return p, "";
  }

  /** `os.path.split(p)[1]`: the text after the last slash. */
  function Basename(p: string): (r: string)
    ensures '/' !in r
    ensures |r| <= |p| && r == p[|p| - |r|..]
    ensures |r| < |p| ==> p[|p| - |r| - 1] == '/'
  {
    p[RFind(p, '/') + 1..]
  }
}
