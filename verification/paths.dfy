/**
 * POSIX `os.path.split`, `os.path.dirname` and two-argument `os.path.join`,
 * and the chain of directories met when walking upward with `split` until
 * its tail comes back empty (the root, or the empty relative path).
 */
module Paths {

  const Sep: char := '/'

  /** Whether `s` consists of separators only. */
  predicate AllSep(s: string) {
    forall i :: 0 <= i < |s| ==> s[i] == Sep
  }

  /** `s.rstrip("/")`. */
  function RStripSep(s: string): (r: string)
    ensures |r| <= |s| && r == s[..|r|]
    ensures r == [] || r[|r| - 1] != Sep
    ensures AllSep(s[|r|..])
  {
    if s == [] || s[|s| - 1] != Sep then s
    else
      var r := RStripSep(s[..|s| - 1]);
      assert s[|r|..] == s[..|s| - 1][|r|..] + [Sep];
      r
  }

  /**
   * `os.path.split(p)`: the tail is everything after the last separator and
   * holds none; the head is what precedes it, with trailing separators removed
   * unless it consists of separators only. Defined by recursion on the
   * characters after the last separator.
   */
  function Split(p: string): (r: (string, string))
    ensures Sep !in r.1
    ensures |r.0| + |r.1| <= |p|
    ensures r.1 != [] ==> |r.0| < |p|
    decreases |p|
  {
    if p == [] then ([], [])
    else if p[|p| - 1] == Sep then
      (if AllSep(p) then p else RStripSep(p), [])
    else
      var r := Split(p[..|p| - 1]);
      (r.0, r.1 + [p[|p| - 1]])
  }

  /** `os.path.dirname(p)`, which is the head of `os.path.split(p)`. */
  function Dirname(p: string): string {
    Split(p).0
  }

  /** The tail (last component) of `os.path.split(p)`. */
  function Basename(p: string): string {
    Split(p).1
  }

  /** Two-argument `os.path.join(a, b)`. */
  function Join(a: string, b: string): string
  {
    if |b| > 0 && b[0] == Sep then b
    else if a == [] || a[|a| - 1] == Sep then a + b
    else a + [Sep] + b
  }

  /**
   * The directories visited when starting at `dir` and repeatedly replacing
   * it by the head of its split, stopping at the first directory whose split
   * has an empty tail (which is itself visited).
   */
  function Ancestors(dir: string): (r: seq<string>)
    ensures |r| >= 1 && r[0] == dir
    ensures Split(r[|r| - 1]).1 == []
    decreases |dir|
  {
    var s := Split(dir);
    if s.1 == [] then [dir] else [dir] + Ancestors(s.0)
  }

  /** Each directory of the chain after the first is the head of the split of the one before. */
  lemma {:induction false} AncestorsStep(dir: string, i: nat)
    requires i < |Ancestors(dir)| - 1
    ensures Split(Ancestors(dir)[i]).1 != []
    ensures Ancestors(dir)[i + 1] == Split(Ancestors(dir)[i]).0
    decreases |dir|
  {
    var s := Split(dir);
    if i > 0 {
      AncestorsStep(s.0, i - 1);
    }
  }

  /** `os.path.isabs`. */
  predicate IsAbs(p: string) {
    |p| > 0 && p[0] == Sep
  }

  /**
   * The operating-system services the helper uses to canonicalise paths:
   * `os.path.expanduser`, `os.path.realpath` and `os.path.abspath`. They
   * depend on the home directory, symbolic links and the working directory,
   * none of which the model sees.
   */
  datatype Os = Os(expandUser: string -> string, realpath: string -> string, abspath: string -> string)

  /**
   * `expand_relative(path, basepath)`: the canonical absolute form of `path`
   * read relative to `basepath`, which is first made absolute itself.
   */
  function ExpandRelative(path: string, basepath: string, os: Os): (r: string)
    ensures exists q :: r == os.realpath(q)
    ensures IsAbs(os.expandUser(path)) ==> r == os.realpath(os.expandUser(path))
  {
    var p := os.expandUser(path);
    if IsAbs(p) then os.realpath(p)
    else
      var base := if IsAbs(basepath) then basepath else os.realpath(os.abspath(basepath));
      os.realpath(os.abspath(Join(base, p)))
  }

  /** `p` is a canonical path: what `os.path.realpath` returns for some input. */
  ghost predicate IsCanonical(p: string, os: Os) {
    exists q :: p == os.realpath(q)
  }

  /**
   * The services behave as on a real system: canonical paths are absolute,
   * canonicalising twice is canonicalising once, and a canonical path has no
   * `~` to expand.
   */
  ghost predicate Canonicalising(os: Os) {
    forall q :: IsAbs(os.realpath(q)) && os.realpath(os.realpath(q)) == os.realpath(q)
                && os.expandUser(os.realpath(q)) == os.realpath(q)
  }

  /** Expanding a path already expanded changes nothing, whatever it is read against. */
  lemma ExpandRelativeIdempotent(path: string, basepath: string, basepath': string, os: Os)
    requires Canonicalising(os)
    ensures ExpandRelative(ExpandRelative(path, basepath, os), basepath', os) == ExpandRelative(path, basepath, os)
  {
    var r := ExpandRelative(path, basepath, os);
    var q :| r == os.realpath(q);
    assert os.expandUser(r) == r && IsAbs(r) && os.realpath(r) == r;
  }

  /**
   * Reading against a relative base is reading against its canonical
   * absolute form (an absolute base is used as given).
   */
  lemma ExpandRelativeBase(path: string, basepath: string, os: Os)
    requires Canonicalising(os)
    requires !IsAbs(basepath)
    ensures ExpandRelative(path, basepath, os) == ExpandRelative(path, os.realpath(os.abspath(basepath)), os)
  {
    assert IsAbs(os.realpath(os.abspath(basepath)));
  }
}
