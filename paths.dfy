/**
 * The file names of a project directory and the path normalisation used to
 * match repositories. A project directory holds meta.json, log.md for the
 * main dimension and log--<slug>.md for every other dimension.
 */
module Paths {

  const MainLog: string := "log.md"

  /** logPathForDimension, as the file name inside the project directory. */
  function LogFileName(dimension: string): (r: string)
    ensures r == MainLog <==> dimension == "main"
    ensures dimension != "main" ==>
      |r| == |dimension| + 8 && r[..5] == "log--" && r[|r| - 3..] == ".md" && r[5..|r| - 3] == dimension
  {
    var f := if dimension == "main" then MainLog else "log--" + dimension + ".md";
    assert dimension != "main" ==> |f| >= 8 && f != MainLog;
    f
  }

  /** Different dimensions never share a log file. */
  lemma LogFileNameInjective(a: string, b: string)
    requires LogFileName(a) == LogFileName(b)
    ensures a == b
  {
    if a != "main" && b != "main" {
      var fa := "log--" + a + ".md";
      var fb := "log--" + b + ".md";
      assert |a| == |b|;
      forall i | 0 <= i < |a| ensures a[i] == b[i] {
        assert fa[i + 5] == a[i] && fb[i + 5] == b[i];
      }
    }
  }

  /** The replacement of /\/+$/ by "": every trailing slash is dropped. */
  function StripTrailingSlashes(s: string): (r: string)
    ensures |r| <= |s| && r == s[..|r|]
    ensures r == [] || r[|r| - 1] != '/'
    ensures forall i :: |r| <= i < |s| ==> s[i] == '/'
  {
    if s != [] && s[|s| - 1] == '/' then StripTrailingSlashes(s[..|s| - 1]) else s
  }

  lemma StripTrailingSlashesIdempotent(s: string)
    ensures StripTrailingSlashes(StripTrailingSlashes(s)) == StripTrailingSlashes(s)
  {
  }

  /** Two paths are matched by findProjectByRepoPath when they differ only in trailing slashes. */
  lemma {:induction false} StripSlashAppended(s: string)
    ensures StripTrailingSlashes(s + "/") == StripTrailingSlashes(s)
  {
    assert (s + "/")[..|s|] == s;
  }

  /** The characters after the last slash. */
  function LastSegment(s: string): (r: string)
    ensures |r| <= |s| && r == s[|s| - |r|..]
    ensures '/' !in r
    ensures |r| < |s| ==> s[|s| - |r| - 1] == '/'
  {
    if s == [] || s[|s| - 1] == '/' then []
    else LastSegment(s[..|s| - 1]) + [s[|s| - 1]]
  }

  /** path.basename on POSIX paths: trailing slashes are ignored, then the last segment. */
  function Basename(p: string): (r: string)
    ensures '/' !in r
  {
    LastSegment(StripTrailingSlashes(p))
  }

  /** A name without slashes is its own base name. */
  lemma {:induction false} LastSegmentOfPlain(s: string)
    requires '/' !in s
    ensures LastSegment(s) == s
  {
    if s != [] {
      assert '/' !in s[..|s| - 1];
      LastSegmentOfPlain(s[..|s| - 1]);
    }
  }

  lemma {:induction false} LastSegmentAfterSlash(dir: string, name: string)
    requires '/' !in name
    ensures LastSegment(dir + "/" + name) == name
  {
    var p := dir + "/" + name;
    if name != [] {
      var init := name[..|name| - 1];
      assert p[..|p| - 1] == dir + "/" + init;
      assert '/' !in init;
      LastSegmentAfterSlash(dir, init);
      assert name == init + [name[|name| - 1]];
    }
  }

  /** The base name of dir/name is name. */
  lemma BasenameOfJoin(dir: string, name: string)
    requires '/' !in name && name != []
    ensures Basename(dir + "/" + name) == name
  {
    var p := dir + "/" + name;
    assert p[|p| - 1] == name[|name| - 1];
    assert StripTrailingSlashes(p) == p;
    LastSegmentAfterSlash(dir, name);
  }
}
