/** The `os.path` functions the modelled code relies on, for POSIX paths ('/' separator). */
module PyPath {

  /** `os.path.basename(p)`: everything after the last '/'. */
  function Basename(p: string): (r: string)
    ensures |r| <= |p|
    ensures '/' !in r
    decreases |p|
  {
    if |p| == 0 then ""
    else if p[|p| - 1] == '/' then ""
    else Basename(p[..|p| - 1]) + [p[|p| - 1]]
  }

  /** The base name is the longest '/'-free suffix: it is a suffix, holds no '/', and is preceded by one when shorter. */
  lemma BasenameSpec(p: string)
    ensures '/' !in Basename(p)
    ensures Basename(p) == p[|p| - |Basename(p)|..]
    ensures |Basename(p)| < |p| ==> p[|p| - |Basename(p)| - 1] == '/'
  {
    BasenameNoSlash(p);
    BasenameSuffix(p);
  }

  lemma {:induction false} BasenameNoSlash(p: string)
    ensures '/' !in Basename(p)
    decreases |p|
  {
    if |p| > 0 && p[|p| - 1] != '/' {
      BasenameNoSlash(p[..|p| - 1]);
    }
  }

  lemma {:induction false} BasenameSuffix(p: string)
    ensures Basename(p) == p[|p| - |Basename(p)|..]
    ensures |Basename(p)| < |p| ==> p[|p| - |Basename(p)| - 1] == '/'
    decreases |p|
  {
    if |p| > 0 && p[|p| - 1] != '/' {
      var init := p[..|p| - 1];
      BasenameSuffix(init);
      var b := Basename(init);
      assert Basename(p) == b + [p[|p| - 1]];
      assert p[|p| - |b| - 1..] == init[|init| - |b|..] + [p[|p| - 1]];
      if |b| < |init| {
        assert init[|init| - |b| - 1] == p[|p| - |b| - 2];
      }
    }
  }

  /** A '/'-free name after a directory prefix ending in '/' (or after nothing) is its own base name. */
  lemma {:induction false} BasenameAfterDir(dir: string, name: string)
    requires dir == [] || dir[|dir| - 1] == '/'
    requires '/' !in name
    ensures Basename(dir + name) == name
    decreases |name|
  {
    if |name| == 0 {
      assert dir + name == dir;
    } else {
      var init := name[..|name| - 1];
      BasenameAfterDir(dir, init);
      assert (dir + name)[..|dir + name| - 1] == dir + init;
      assert name == init + [name[|name| - 1]];
    }
  }

  /** Index of the last '.' in `s`, or -1 when there is none. */
  function LastDot(s: string): (d: int)
    ensures -1 <= d < |s|
    ensures d >= 0 ==> s[d] == '.'
    ensures forall k :: d < k < |s| ==> s[k] != '.'
    decreases |s|
  {
    if |s| == 0 then -1
    else if s[|s| - 1] == '.' then |s| - 1
    else LastDot(s[..|s| - 1])
  }

  predicate AllDots(s: string)
  {
    forall k :: 0 <= k < |s| ==> s[k] == '.'
  }

  /**
   * `os.path.splitext(name)[0]` for a name without '/': the last extension
   * is cut off at the last '.', unless only dots precede that dot (leading
   * dots, as in ".bashrc", do not start an extension).
   */
  function SplitExtRoot(name: string): (root: string)
    requires '/' !in name
    ensures |root| <= |name| && root == name[..|root|]
    ensures |root| < |name| ==> name[|root|] == '.' && '.' !in name[|root| + 1..] && !AllDots(root)
    ensures |root| == |name| ==>
              forall d :: 0 <= d < |name| && name[d] == '.' && '.' !in name[d + 1..] ==> AllDots(name[..d])
  {
    var d := LastDot(name);
    if d >= 0 && !AllDots(name[..d]) then name[..d] else name
  }

  /** A name of the form stem.ext, with a dot-free extension and a stem that is not all dots, has root stem. */
  lemma SplitExtOfExtension(stem: string, ext: string)
    requires '.' !in ext && !AllDots(stem)
    requires '/' !in stem + "." + ext
    ensures SplitExtRoot(stem + "." + ext) == stem
  {
    var name := stem + "." + ext;
    var root := SplitExtRoot(name);
    assert name[|stem|] == '.';
    assert name[|stem| + 1..] == ext;
    assert name[..|stem|] == stem;
  }

  /** `os.path.join(a, b)`: `b` alone when it is absolute, appended directly when `a` is empty or ends in '/', otherwise joined with one '/'. */
  function JoinPath(a: string, b: string): (r: string)
    ensures |b| > 0 && b[0] == '/' ==> r == b
    ensures (|b| == 0 || b[0] != '/') && (|a| == 0 || a[|a| - 1] == '/') ==> r == a + b
    ensures (|b| == 0 || b[0] != '/') && |a| > 0 && a[|a| - 1] != '/' ==> r == a + "/" + b
  {
    if |b| > 0 && b[0] == '/' then b
    else if |a| == 0 || a[|a| - 1] == '/' then a + b
    else a + "/" + b
  }
}
