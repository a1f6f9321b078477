/**
 * Path strings with `os.path`/`pathlib` semantics. Directories handled by the
 * extension system are resolved absolute paths without a trailing '/', so
 * joining is `dir + "/" + name`.
 */
module Paths {

  /** `os.path.join(dir, name)` / `Path(dir) / name` for a directory without trailing '/'. */
  function Join(dir: string, name: string): string {
    dir + "/" + name
  }

  /** Index of the last '/' in `p`, or -1. */
  function LastSlash(p: string): (r: int)
    ensures -1 <= r < |p|
    ensures r >= 0 ==> p[r] == '/'
    ensures forall k :: r < k < |p| ==> p[k] != '/'
  {
    LastSlashBefore(p, |p|)
  }

  /** Index of the last '/' among the first `n` characters of `p`, or -1. */
  function LastSlashBefore(p: string, n: nat): (r: int)
    requires n <= |p|
    ensures -1 <= r < n
    ensures r >= 0 ==> p[r] == '/'
    ensures forall k :: r < k < n ==> p[k] != '/'
  {
    if n == 0 then -1 else if p[n - 1] == '/' then n - 1 else LastSlashBefore(p, n - 1)
  }

  predicate AllSlashes(s: string) {
    forall k :: 0 <= k < |s| ==> s[k] == '/'
  }

  function TrimSlashes(s: string): string {
    if s != [] && s[|s| - 1] == '/' then TrimSlashes(s[..|s| - 1]) else s
  }

  /** `os.path.basename(p)`. */
  function BaseName(p: string): string {
    p[LastSlash(p) + 1..]
  }

  /** `os.path.dirname(p)`. */
  function DirName(p: string): string {
    var head := p[..LastSlash(p) + 1];
    if AllSlashes(head) then head else TrimSlashes(head)
  }

  /** Index of the last '.' in `s`, or -1. */
  function LastDot(s: string): (r: int)
    ensures -1 <= r < |s|
  {
    if s == [] then -1 else if s[|s| - 1] == '.' then |s| - 1 else LastDot(s[..|s| - 1])
  }

  /** `Path(p).stem`: the final component without its last suffix. */
  function Stem(p: string): string {
    var name := BaseName(p);
    var i := LastDot(name);
    if 0 < i < |name| - 1 then name[..i] else name
  }

  /** Directories whose names start with '.' are hidden. */
  predicate IsHidden(name: string) {
    name != [] && name[0] == '.'
  }

  /** The final component of a joined path is the name that was joined. */
  lemma {:induction false} BaseNameOfJoin(dir: string, name: string)
    requires forall k :: 0 <= k < |name| ==> name[k] != '/'
    ensures BaseName(Join(dir, name)) == name
  {
    var p := Join(dir, name);
    assert p[|dir|] == '/';
    var r := LastSlash(p);
    assert forall k :: |dir| < k < |p| ==> p[k] == name[k - |dir| - 1];
    assert r >= |dir|;
    assert r == |dir|;
  }

  /** The directory of a joined path is the directory that was joined. */
  lemma {:induction false} DirNameOfJoin(dir: string, name: string)
    requires dir != [] && dir[|dir| - 1] != '/'
    requires forall k :: 0 <= k < |name| ==> name[k] != '/'
    ensures DirName(Join(dir, name)) == dir
  {
    var p := Join(dir, name);
    assert p[|dir|] == '/';
    var r := LastSlash(p);
    assert forall k :: |dir| < k < |p| ==> p[k] == name[k - |dir| - 1];
    assert r >= |dir|;
    assert r == |dir|;
    var head := p[..r + 1];
    assert head == dir + "/";
    assert !AllSlashes(head) by { assert head[|dir| - 1] != '/'; }
    assert head[..|head| - 1] == dir;
    assert TrimSlashes(dir) == dir;
    assert TrimSlashes(head) == TrimSlashes(dir);
  }
}
