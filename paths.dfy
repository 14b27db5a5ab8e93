/** POSIX path helpers used by the duplicate finder: the parts of
    `str.endswith`, `os.path.join` and `os.path.basename` that it relies on. */
module Paths {

  /** `s.endswith(suffix)` */
  predicate EndsWith(s: string, suffix: string)
  {
    |suffix| <= |s| && s[|s| - |suffix|..] == suffix
  }

  /** `os.path.join(a, b)` for two components: an absolute `b` replaces `a`;
      otherwise a '/' is inserted unless `a` is empty or already ends with one. */
  function Join(a: string, b: string): string
  {
    if |b| > 0 && b[0] == '/' then b
    else if a == "" || a[|a| - 1] == '/' then a + b
    else a + "/" + b
  }

  /** `os.path.basename(p)`: everything after the last '/'. */
  function Basename(p: string): string
  {
    if p == [] then []
    else if p[|p| - 1] == '/' then []
    else Basename(p[..|p| - 1]) + [p[|p| - 1]]
  }

  /** The joined path ends with `b`, right after a '/' or at its very start. */
  lemma JoinEndsWithName(a: string, b: string)
    ensures exists k :: (0 <= k <= |Join(a, b)| && Join(a, b) == Join(a, b)[..k] + b &&
      (k == 0 || Join(a, b)[k - 1] == '/'))
  {
    var r := Join(a, b);
    if |b| > 0 && b[0] == '/' {
      assert r == r[..0] + b;
    } else if a == "" || a[|a| - 1] == '/' {
      assert r == r[..|a|] + b;
    } else {
      assert r == r[..|a| + 1] + b;
    }
  }

  /** `Basename(p)` holds no '/'. */
  lemma {:induction false} BasenameHasNoSlash(p: string)
    ensures forall k :: 0 <= k < |Basename(p)| ==> Basename(p)[k] != '/'
  {
    if p != [] && p[|p| - 1] != '/' {
      BasenameHasNoSlash(p[..|p| - 1]);
    }
  }

  /** `Basename(p)` is the last component of `p`: a suffix of `p` that is
      either all of it or starts right after a '/'. */
  lemma {:induction false} BasenameIsLastComponent(p: string) returns (k: nat)
    ensures k <= |p| && Basename(p) == p[k..]
    ensures k > 0 ==> p[k - 1] == '/'
  {
    if p == [] || p[|p| - 1] == '/' {
      k := |p|;
    } else {
      var init := p[..|p| - 1];
      k := BasenameIsLastComponent(init);
      assert p[k..] == init[k..] + [p[|p| - 1]];
    }
  }

  /** A name without '/' appended after a directory prefix is recovered by `Basename`. */
  lemma {:induction false} BasenameAfterSlash(prefix: string, name: string)
    requires prefix == [] || prefix[|prefix| - 1] == '/'
    requires '/' !in name
    ensures Basename(prefix + name) == name
  {
    if name == [] {
      assert prefix + name == prefix;
    } else {
      var init := name[..|name| - 1];
      assert (prefix + name)[..|prefix + name| - 1] == prefix + init;
      assert '/' !in init by {
        forall i | 0 <= i < |init| ensures init[i] != '/' { assert init[i] == name[i]; }
      }
      BasenameAfterSlash(prefix, init);
      assert name == init + [name[|name| - 1]];
    }
  }

  /** `basename(join(dir, name)) == name` for every file name that `os.walk` can
      report (a name never holds a '/'). */
  lemma BasenameOfJoin(dir: string, name: string)
    requires '/' !in name
    ensures Basename(Join(dir, name)) == name
  {
    JoinEndsWithName(dir, name);
    var r := Join(dir, name);
    var k :| 0 <= k <= |r| && r == r[..k] + name && (k == 0 || r[k - 1] == '/');
    BasenameAfterSlash(r[..k], name);
  }

  /** The suffix test survives the join: a path built from a name ending in
      `suffix` ends in `suffix`. */
  lemma EndsWithJoin(dir: string, name: string, suffix: string)
    requires EndsWith(name, suffix)
    ensures EndsWith(Join(dir, name), suffix)
  {
    JoinEndsWithName(dir, name);
    var r := Join(dir, name);
    var k :| 0 <= k <= |r| && r == r[..k] + name && (k == 0 || r[k - 1] == '/');
    assert r[|r| - |suffix|..] == name[|name| - |suffix|..];
  }
}
