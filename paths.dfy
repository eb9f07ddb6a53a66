/** POSIX path handling (`posixpath`): `os.path.join` and `os.path.basename`,
    and the default output directory of the tool. */
module Paths {
  import opened Text
  import opened Wrappers

  /** `os.path.join(a, b)`: an absolute `b` replaces `a`; otherwise `b` is
      appended, with a `/` in between unless `a` is empty or already ends in
      one. */
  function PathJoin(a: string, b: string): (r: string)
    ensures |b| <= |r| && r[|r| - |b|..] == b
    ensures |b| > 0 && b[0] == '/' ==> r == b
    ensures !(|b| > 0 && b[0] == '/') ==> |a| <= |r| && r[..|a|] == a
    ensures r == b || r == a + b || r == a + "/" + b
  {
    if |b| > 0 && b[0] == '/' then b
    else if a == "" || a[|a| - 1] == '/' then a + b
    else a + "/" + b
  }

  /** Where the last component of `p[..hi]` starts: just after the last `/`
      before `hi`, or at 0. */
  function ComponentStart(p: string, hi: nat): (k: nat)
    requires hi <= |p|
    ensures k <= hi
    ensures forall m :: k <= m < hi ==> p[m] != '/'
    ensures k == 0 || p[k - 1] == '/'
    decreases hi
  {
    if hi > 0 && p[hi - 1] != '/' then ComponentStart(p, hi - 1) else hi
  }

  lemma {:induction false} ComponentStartAt(p: string, hi: nat, k: nat)
    requires k <= hi <= |p|
    requires forall m :: k <= m < hi ==> p[m] != '/'
    requires k == 0 || p[k - 1] == '/'
    ensures ComponentStart(p, hi) == k
    decreases hi
  {
    if hi > k {
      ComponentStartAt(p, hi - 1, k);
    }
  }

  /** `os.path.basename(p)`: what follows the last `/`. */
  function BaseName(p: string): (r: string)
    ensures '/' !in r
    ensures |r| <= |p| && r == p[|p| - |r|..]
    ensures |r| < |p| ==> p[|p| - |r| - 1] == '/'
  {
    var k := ComponentStart(p, |p|);
    assert forall m :: 0 <= m < |p| - k ==> p[k..][m] == p[k + m];
    p[k..]
  }

  /** A name without a `/` is its own base name, behind a `/`. */
  lemma BaseNameAfterSlash(a: string, b: string)
    requires '/' !in b && (a == [] || a[|a| - 1] == '/')
    ensures BaseName(a + b) == b
  {
    var p := a + b;
    forall m | |a| <= m < |p| ensures p[m] != '/' {
      assert p[m] == b[m - |a|];
    }
    ComponentStartAt(p, |p|, |a|);
    assert p[|a|..] == b;
  }

  /** Joining a relative name without a `/` onto a directory: the base name of
      the result is that name again. */
  lemma BaseNameOfJoin(a: string, b: string)
    requires '/' !in b
    ensures BaseName(PathJoin(a, b)) == b
  {
    assert !(|b| > 0 && b[0] == '/') by {
      if |b| > 0 {
        assert b[0] in b;
      }
    }
    if a == "" || a[|a| - 1] == '/' {
      BaseNameAfterSlash(a, b);
    } else {
      var a' := a + "/";
      assert a + "/" + b == a' + b;
      BaseNameAfterSlash(a', b);
    }
  }

  /** The directory the cut-out fragments go to: the `-o` value when one was
      given and it is not empty, else `ObjectCutter_output` under the working
      directory. */
  function OutputDir(output: Option<string>, cwd: string): (d: string)
    ensures output.Some? && output.value != "" ==> d == output.value
    ensures !(output.Some? && output.value != "") ==>
      d == PathJoin(cwd, "ObjectCutter_output")
  {
    if output.Some? && output.value != "" then output.value
    else PathJoin(cwd, "ObjectCutter_output")
  }

  /** Without an `-o` value the output directory is `ObjectCutter_output` inside
      the working directory. */
  lemma DefaultOutputDir(output: Option<string>, cwd: string)
    requires output == None || output == Some("")
    ensures BaseName(OutputDir(output, cwd)) == "ObjectCutter_output"
    ensures |cwd| <= |OutputDir(output, cwd)| && OutputDir(output, cwd)[..|cwd|] == cwd
    ensures cwd != "" && cwd[|cwd| - 1] != '/' ==> OutputDir(output, cwd) == cwd + "/ObjectCutter_output"
    ensures cwd == "" || cwd[|cwd| - 1] == '/' ==> OutputDir(output, cwd) == cwd + "ObjectCutter_output"
  {
    BaseNameOfJoin(cwd, "ObjectCutter_output");
  }
}
