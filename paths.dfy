/**
 * POSIX `os.path.split` and `os.path.basename`, on which the path helpers of
 * the metadata checks are built.
 */
module Paths {

  predicate HasNoSlash(s: string) {
    forall i :: 0 <= i < |s| ==> s[i] != '/'
  }

  predicate AllSlashes(s: string) {
    forall i :: 0 <= i < |s| ==> s[i] == '/'
  }

  /** Index of the last '/' in `p`, or -1 when there is none: `p.rfind('/')`. */
  function LastSlash(p: string): (i: int)
    ensures -1 <= i < |p|
    ensures i >= 0 ==> p[i] == '/'
    ensures forall j :: i < j < |p| ==> p[j] != '/'
  {
    if p == [] then -1
    else if p[|p| - 1] == '/' then |p| - 1
    else LastSlash(p[..|p| - 1])
  }

  /** `s.rstrip('/')` */
  function RStripSlashes(s: string): (r: string)
    ensures r <= s
    ensures r == [] || r[|r| - 1] != '/'
    ensures AllSlashes(s[|r|..])
  {
    if s != [] && s[|s| - 1] == '/' then RStripSlashes(s[..|s| - 1]) else s
  }

  /** `os.path.split(p)` for POSIX: the head up to the last '/', with trailing
      slashes removed unless the head consists of slashes only (exactly the
      case in which stripping leaves nothing), and the tail after it. */
  function Split(p: string): (r: (string, string))
    ensures HasNoSlash(r.1)
    ensures r.0 <= p && |r.0| + |r.1| <= |p|
    ensures r.1 == p[|p| - |r.1|..]
    ensures |r.1| == |p| - LastSlash(p) - 1
  {
    var i := LastSlash(p) + 1;
    var head, tail := p[..i], p[i..];
    var stripped := RStripSlashes(head);
    (if stripped == [] then head else stripped, tail)
  }

  /** Stripping leaves nothing exactly when the head is all slashes, so the
      head is kept as it is in that case and only then. */
  lemma SplitKeepsSlashOnlyHead(p: string)
    ensures var head := p[..LastSlash(p) + 1];
            Split(p).0 == if AllSlashes(head) then head else RStripSlashes(head)
  {
  }


  /** `os.path.basename(p)`: the longest suffix of `p` without a slash. */
  function Basename(p: string): (r: string)
    ensures HasNoSlash(r) && |r| <= |p| && r == p[|p| - |r|..]
    ensures |r| < |p| ==> p[|p| - |r| - 1] == '/'
  {
    assert Split(p).1 == p[LastSlash(p) + 1..];
    Split(p).1
  }

  /** The basename of `dir/name` is `name` whenever `name` holds no slash. */
  lemma BasenameOfJoin(dir: string, name: string)
    requires HasNoSlash(name)
    ensures Basename(dir + "/" + name) == name
  {
    var p := dir + "/" + name;
    var i := LastSlash(p);
    assert p[|dir|] == '/';
    assert i == |dir|;
    assert p[i + 1..] == name;
  }
}
