/** Python's `posixpath` functions used by the session builder: `basename`,
    `dirname` and two-argument `join`, with their exact behaviour on repeated,
    leading and trailing slashes. */
module PosixPath {
  import opened PyString

  /** The index just after the last '/' of `p`, or 0 when `p` has none
      (`p.rfind('/') + 1`). */
  function LastSlashEnd(p: string): (i: nat)
    ensures i <= |p|
    decreases |p|
  {
    if p == [] then 0
    else if p[|p| - 1] == '/' then |p|
    else LastSlashEnd(p[..|p| - 1])
  }

  /** The position found is just after a '/', or 0, and no '/' follows it. */
  lemma {:induction false} LastSlashEndSpec(p: string)
    ensures var i := LastSlashEnd(p);
      && (i == 0 || p[i - 1] == '/')
      && forall k :: i <= k < |p| ==> p[k] != '/'
    decreases |p|
  {
    if p != [] && p[|p| - 1] != '/' {
      LastSlashEndSpec(p[..|p| - 1]);
    }
  }

  /** `os.path.basename(p)`: the final component, everything after the last '/'. */
  function Basename(p: string): (b: string)
    ensures |b| <= |p|
  {
    p[LastSlashEnd(p)..]
  }

  /** The basename holds no '/', ends `p`, and what precedes it is empty or ends
      in '/'. */
  lemma BasenameSpec(p: string)
    ensures var b := Basename(p);
      && '/' !in b
      && p[|p| - |b|..] == b
      && (|b| == |p| || p[|p| - |b| - 1] == '/')
  {
    LastSlashEndSpec(p);
  }

  predicate AllSlashes(s: string)
  {
    forall k :: 0 <= k < |s| ==> s[k] == '/'
  }

  /** `os.path.dirname(p)`: everything up to the last '/', with trailing slashes
      removed unless the head consists of slashes only. */
  function Dirname(p: string): (d: string)
    ensures |d| <= |p|
  {
    var head := p[..LastSlashEnd(p)];
    if head != [] && !AllSlashes(head) then RStrip(head, {'/'}) else head
  }

  /** The dirname is a prefix of `p`, empty when `p` has no '/', and, when it ends
      in a name, followed by a '/' in `p`. */
  lemma DirnameSpec(p: string)
    ensures var d := Dirname(p);
      && p[..|d|] == d
      && ('/' !in p ==> d == [])
      && (d != [] && d[|d| - 1] != '/' ==> |d| < |p| && p[|d|] == '/')
  {
    LastSlashEndSpec(p);
    var head := p[..LastSlashEnd(p)];
    if head != [] && !AllSlashes(head) {
      RStripSpec(head, {'/'});
    }
  }

  /** Dirname is determined by a split of `p` into the directory `d`, the run of
      slashes `s` that ends it, and a slash-free final component: either `d` ends
      in a name and at least one slash follows it, or `d` consists of slashes only
      (the root, or nothing) and is followed directly by the final component. */
  lemma DirnameUnique(p: string, d: string, s: string, tail: string)
    requires p == d + s + tail
    requires AllSlashes(s) && '/' !in tail
    requires (d != [] && d[|d| - 1] != '/' && s != []) || (AllSlashes(d) && s == [])
    ensures Dirname(p) == d
  {
    var n := |d| + |s|;
    LastSlashEndSpec(p);
    assert forall k :: n <= k < |p| ==> p[k] == tail[k - n];
    if n > 0 {
      assert p[n - 1] == '/';
    }
    assert LastSlashEnd(p) == n;
    var head := d + s;
    assert p[..n] == head;
    if s != [] {
      assert !AllSlashes(head) by { assert head[|d| - 1] == d[|d| - 1]; }
      assert head[..|d|] == d;
      assert forall k :: |d| <= k < |head| ==> head[k] == s[k - |d|];
      RStripUnique(head, {'/'}, d);
    } else {
      assert head == d;
    }
  }

  /** `os.path.join(a, b)`: an absolute `b` discards `a`; otherwise a single '/'
      is inserted unless `a` is empty or already ends in '/'. */
  function Join(a: string, b: string): (p: string)
  {
    if StartsWith(b, "/") then b
    else if a == [] || a[|a| - 1] == '/' then a + b
    else a + "/" + b
  }

  /** A grandparent directory that is a plain name (not empty, not ending in '/')
      is followed by a '/' at the start of the path. */
  lemma GrandparentPrefix(p: string, name: string)
    requires Dirname(Dirname(p)) == name
    requires name != [] && name[|name| - 1] != '/'
    ensures StartsWith(p, name + "/")
  {
    var d := Dirname(p);
    DirnameSpec(p);
    DirnameSpec(d);
    assert d[..|name|] == name && d[|name|] == '/';
    assert p[..|name| + 1] == d[..|name| + 1] == name + "/";
  }

  /** Joining a relative path under a directory name that does not end in '/'
      inserts exactly one '/'. */
  lemma JoinRelative(a: string, b: string)
    requires a != [] && a[|a| - 1] != '/' && !StartsWith(b, "/")
    ensures Join(a, b) == a + "/" + b
  {
  }

  /** Basename is determined by its contract: any split of `p` into a head that is
      empty or ends in '/' and a slash-free tail has that tail as its basename. */
  lemma BasenameUnique(p: string, head: string, tail: string)
    requires p == head + tail
    requires '/' !in tail
    requires head == [] || head[|head| - 1] == '/'
    ensures Basename(p) == tail
  {
    var i := LastSlashEnd(p);
    LastSlashEndSpec(p);
    if head != [] {
      assert p[|head| - 1] == '/';
    }
  }

  /** The final component of `dir/name` is `name`. */
  lemma BasenameOfChild(dir: string, name: string)
    requires '/' !in name
    ensures Basename(dir + "/" + name) == name
  {
    BasenameUnique(dir + "/" + name, dir + "/", name);
  }

  /** The directory of `a/b` is `a`, for a plain name `b` and an `a` that does
      not end in '/'. */
  lemma DirnameOfChild(a: string, b: string)
    requires a != [] && a[|a| - 1] != '/' && '/' !in b
    ensures Dirname(a + "/" + b) == a
  {
    var p := a + "/" + b;
    var i := LastSlashEnd(p);
    LastSlashEndSpec(p);
    assert p[|a|] == '/';
    assert forall k :: |a| + 1 <= k < |p| ==> p[k] == b[k - |a| - 1];
    assert i == |a| + 1;
    var head := p[..i];
    assert head == a + "/";
    assert !AllSlashes(head) by { assert head[|a| - 1] == a[|a| - 1]; }
    RStripUnique(head, {'/'}, a);
  }

  /** Joining never changes the final component: the basename of `join(a, b)`
      is the basename of `b`. */
  lemma BasenameOfJoin(a: string, b: string)
    ensures Basename(Join(a, b)) == Basename(b)
  {
    if !StartsWith(b, "/") {
      var tail := Basename(b);
      BasenameSpec(b);
      var q := b[..|b| - |tail|];
      assert b == q + tail;
      assert q == [] || q[|q| - 1] == '/';
      var head;
      if a == [] || a[|a| - 1] == '/' {
        head := a + q;
        assert Join(a, b) == a + b;
      } else {
        head := a + "/" + q;
        assert Join(a, b) == (a + "/") + b;
      }
      assert Join(a, b) == head + tail;
      assert head == [] || head[|head| - 1] == '/' by {
        if q != [] {
          assert head[|head| - 1] == q[|q| - 1];
        }
      }
      BasenameUnique(Join(a, b), head, tail);
    }
  }
}
