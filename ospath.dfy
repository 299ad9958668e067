/** The POSIX `os.path` functions the scripts use to build and take apart paths. */
module OsPath {

  /** What `os.path.join(dir, name)` puts in front of a relative `name`:
      `dir` itself when it is empty or already ends in a slash, else `dir + "/"`. */
  function Sep(dir: string): string
  {
    if dir == [] || dir[|dir| - 1] == '/' then dir else dir + "/"
  }

  /** `os.path.join(dir, name)`: an absolute `name` discards `dir`. */
  function Join(dir: string, name: string): string
  {
    if name != [] && name[0] == '/' then name else Sep(dir) + name
  }

  /** `p.rfind('/') + 1`: the index just after the last slash, 0 when there is none. */
  function SlashEnd(p: string): (i: nat)
    ensures i <= |p|
    ensures '/' !in p[i..]
    ensures i > 0 ==> p[i - 1] == '/'
  {
    if p == [] then 0
    else if p[|p| - 1] == '/' then |p|
    else
      var i := SlashEnd(p[..|p| - 1]);
      assert p[i..] == p[..|p| - 1][i..] + [p[|p| - 1]];
      i
  }

  /** `os.path.basename(p)`: everything after the last slash. */
  function Basename(p: string): (b: string)
    ensures '/' !in b
  {
    p[SlashEnd(p)..]
  }

  function RStripSlashes(h: string): string
  {
    if h != [] && h[|h| - 1] == '/' then RStripSlashes(h[..|h| - 1]) else h
  }

  predicate AllSlashes(h: string)
  {
    forall i :: 0 <= i < |h| ==> h[i] == '/'
  }

  /** `os.path.dirname(p)`: everything up to the last slash, with the trailing
      slashes removed unless nothing but slashes is left. */
  function Dirname(p: string): string
  {
    var head := p[..SlashEnd(p)];
    if head != [] && !AllSlashes(head) then RStripSlashes(head) else head
  }

  lemma {:induction false} SlashEndAfter(q: string, n: string)
    requires q == [] || q[|q| - 1] == '/'
    requires '/' !in n
    ensures SlashEnd(q + n) == |q|
    decreases |n|
  {
    if n != [] {
      assert (q + n)[..|q + n| - 1] == q + n[..|n| - 1];
      SlashEndAfter(q, n[..|n| - 1]);
    } else {
      assert q + n == q;
    }
  }

  /** The base name of a file joined onto a directory is the file's own name. */
  lemma BasenameOfJoin(dir: string, n: string)
    requires '/' !in n
    ensures Basename(Join(dir, n)) == n
  {
    assert n != [] ==> n[0] != '/';
    assert Join(dir, n) == Sep(dir) + n;
    if dir != [] && dir[|dir| - 1] != '/' {
      assert (dir + "/")[|dir|] == '/';
    }
    SlashEndAfter(Sep(dir), n);
    assert (Sep(dir) + n)[|Sep(dir)|..] == n;
  }

  /** The directory of a file joined onto `dir` is `dir` again, when `dir`
      does not end in a slash. */
  lemma DirnameOfJoin(dir: string, n: string)
    requires dir != [] && dir[|dir| - 1] != '/'
    requires '/' !in n
    ensures Dirname(Join(dir, n)) == dir
  {
    var p := dir + "/" + n;
    assert n != [] ==> n[0] != '/';
    assert Join(dir, n) == p;
    assert (dir + "/")[|dir|] == '/';
    SlashEndAfter(dir + "/", n);
    assert p[..|dir| + 1] == dir + "/";
    assert !AllSlashes(dir + "/") by {
      assert (dir + "/")[|dir| - 1] == dir[|dir| - 1];
    }
    assert (dir + "/")[..|dir + "/"| - 1] == dir;
    assert RStripSlashes(dir + "/") == RStripSlashes(dir) == dir;
  }

  /** A sibling named from another file's directory lands in the same directory. */
  lemma SiblingOfJoin(dir: string, n: string, m: string)
    requires dir != [] && dir[|dir| - 1] != '/'
    requires '/' !in n && '/' !in m
    ensures Join(Dirname(Join(dir, n)), m) == Join(dir, m)
  {
    DirnameOfJoin(dir, n);
  }
}
