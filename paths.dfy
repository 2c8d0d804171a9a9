/** The child-path expression `rtrim($path, '/') . '/' . $t` that
    `DiskQuota::get_used` builds for every entry it visits. */
module Paths {

  /** PHP's `rtrim($s, '/')`: `s` without its trailing run of '/'. */
  function TrimTrailingSlashes(s: string): (r: string)
    ensures r <= s
    ensures r == [] || r[|r| - 1] != '/'
    ensures forall i :: |r| <= i < |s| ==> s[i] == '/'
  {
    if s != [] && s[|s| - 1] == '/' then TrimTrailingSlashes(s[..|s| - 1]) else s
  }

  /** The path of entry `name` of the directory at `path`: the directory's
      path up to its trailing slashes, exactly one '/', then the name. */
  function Join(path: string, name: string): (r: string)
    ensures |r| > |name| && r[|r| - |name|..] == name && r[|r| - |name| - 1] == '/'
    ensures var head := r[..|r| - |name| - 1];
      head <= path && (head == [] || head[|head| - 1] != '/') &&
      forall i :: |head| <= i < |path| ==> path[i] == '/'
  {
    TrimTrailingSlashes(path) + "/" + name
  }

  predicate AllSlashes(s: string) {
    forall i :: 0 <= i < |s| ==> s[i] == '/'
  }

  predicate HasDoubleSlash(s: string) {
    exists i :: 0 <= i < |s| - 1 && s[i] == '/' && s[i + 1] == '/'
  }

  /** Trailing slashes added to a path are all trimmed away again. */
  lemma {:induction false} TrimIgnoresTrailingSlashes(s: string, slashes: string)
    requires AllSlashes(slashes)
    ensures TrimTrailingSlashes(s + slashes) == TrimTrailingSlashes(s)
    decreases |slashes|
  {
    if slashes == [] {
      assert s + slashes == s;
    } else {
      var n := |slashes| - 1;
      assert (s + slashes)[..|s + slashes| - 1] == s + slashes[..n];
      TrimIgnoresTrailingSlashes(s, slashes[..n]);
    }
  }

  /** A directory path written with extra trailing slashes names the same
      children. */
  lemma JoinIgnoresTrailingSlashes(path: string, slashes: string, name: string)
    requires AllSlashes(slashes)
    ensures Join(path + slashes, name) == Join(path, name)
  {
    TrimIgnoresTrailingSlashes(path, slashes);
  }

  /** The root directory joined with `x` is "/x", not "//x". */
  lemma JoinRoot(name: string)
    ensures Join("/", name) == "/" + name
  {
    TrimIgnoresTrailingSlashes("", "/");
    assert "" + "/" == "/";
  }

  /** Joining adds no "//": a path free of "//" and a name free of '/' give
      a child path free of "//". */
  lemma JoinNoDoubleSlash(path: string, name: string)
    requires !HasDoubleSlash(path) && '/' !in name
    ensures !HasDoubleSlash(Join(path, name))
  {
    var head := TrimTrailingSlashes(path);
    var r := Join(path, name);
    assert r == head + "/" + name;
    forall i | 0 <= i < |r| - 1
      ensures !(r[i] == '/' && r[i + 1] == '/')
    {
      if i < |head| - 1 {
        assert r[i] == path[i] && r[i + 1] == path[i + 1];
      } else if i == |head| - 1 {
        assert r[i] == head[i];
      } else {
        assert r[i + 1] == name[i - |head|];
      }
    }
  }
}
