/** `base_path`: the last part of a slash-separated path, used as the window title. */
module Paths {
  import opened Optional

  /** `string::rfind('/')`: the index of the last slash, or None for `npos`. */
  function LastSlash(p: string): (r: Option<nat>)
    ensures r.None? <==> '/' !in p
    ensures r.Some? ==> r.value < |p| && p[r.value] == '/' && '/' !in p[r.value + 1..]
  {
    if |p| == 0 then None
    else if p[|p| - 1] == '/' then Some(|p| - 1)
    else
      var r := LastSlash(p[..|p| - 1]);
      assert r.Some? ==> p[r.value + 1..] == p[..|p| - 1][r.value + 1..] + [p[|p| - 1]];
      assert p == p[..|p| - 1] + [p[|p| - 1]];
      r
  }

  /**
   * The path unchanged when it holds no slash, otherwise everything after its last
   * slash: a slash-free suffix of `p` that `p` reaches through a slash.
   */
  function BasePath(p: string): (r: string)
    ensures '/' !in r
    ensures |r| <= |p| && r == p[|p| - |r|..]
    ensures '/' !in p ==> r == p
    ensures '/' in p ==> |r| < |p| && p[|p| - |r| - 1] == '/'
  {
    match LastSlash(p)
    case None => p
    case Some(k) => p[k + 1..]
  }

  /** Taking the base path twice changes nothing. */
  lemma BasePathIdempotent(p: string)
    ensures BasePath(BasePath(p)) == BasePath(p)
  {
  }

  /** The base path of `dir/name` is `name`, whatever the directory part. */
  lemma BasePathOfJoin(dir: string, name: string)
    requires '/' !in name
    ensures BasePath(dir + "/" + name) == name
  {
    var p := dir + "/" + name;
    assert p[|dir|] == '/';
    assert p[|p| - |name|..] == name;
  }
}
