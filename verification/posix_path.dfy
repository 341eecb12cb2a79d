/** `os.path.basename` on POSIX: the text after the last `/`. */
module PosixPath {

  /** Index just past the last `/` of `p`, or 0 when `p` has none. */
  function LastSlashEnd(p: string): (k: nat)
    ensures k <= |p|
    ensures k > 0 ==> p[k - 1] == '/'
    ensures '/' !in p[k..]
  {
    if p == [] then 0
    else if p[|p| - 1] == '/' then |p|
    else
      var k := LastSlashEnd(p[..|p| - 1]);
      assert p[k..] == p[..|p| - 1][k..] + [p[|p| - 1]];
      k
  }

  /** The final component of `p`. */
  function Basename(p: string): (name: string)
    ensures '/' !in name
  {
    p[LastSlashEnd(p)..]
  }

  /** `p` ends with a `/`-free `name` that is all of `p` or follows a `/`. */
  predicate IsLastComponent(name: string, p: string)
  {
    && |name| <= |p|
    && name == p[|p| - |name|..]
    && '/' !in name
    && (|name| == |p| || p[|p| - |name| - 1] == '/')
  }

  /** The basename is the last component, and no other string is. */
  lemma BasenameIsLastComponent(p: string, name: string)
    ensures IsLastComponent(Basename(p), p)
    ensures IsLastComponent(name, p) ==> name == Basename(p)
  {
    var b := Basename(p);
    assert |b| == |p| - LastSlashEnd(p);
  }

  /** A name appended to a directory with `/` is that name's basename. */
  lemma BasenameOfJoin(dir: string, name: string)
    requires '/' !in name
    ensures Basename(dir + "/" + name) == name
  {
    var p := dir + "/" + name;
    assert p[|dir|] == '/';
    assert p[|dir| + 1..] == name;
    BasenameIsLastComponent(p, name);
  }

  /** The basename of a basename is itself. */
  lemma BasenameIdempotent(p: string)
    ensures Basename(Basename(p)) == Basename(p)
  {
    var b := Basename(p);
    assert b[|b| - |b|..] == b;
    BasenameIsLastComponent(b, b);
  }
}
