/** Page identity: the page name is the last `/`-separated segment of the
    location's path, `index.html` when that segment is empty. */
module Paths {

  /** What `pathname.split('/').pop()` yields: the text after the last `/`
      (the whole path when it has none). */
  function LastSegment(path: string): (seg: string)
    ensures '/' !in seg
    ensures |seg| <= |path| && path[|path| - |seg|..] == seg
    ensures |seg| == |path| || path[|path| - |seg| - 1] == '/'
  {
    if path == [] then []
    else if path[|path| - 1] == '/' then []
    else LastSegment(path[..|path| - 1]) + [path[|path| - 1]]
  }

  /** The page a bare directory path stands for. */
  const Home: string := "index.html"

  lemma HomeHasNoSlash()
    ensures '/' !in Home && Home != []
  {
    assert Home == ['i', 'n', 'd', 'e', 'x', '.', 'h', 't', 'm', 'l'];
  }

  /** `App.utils.getCurrentPage`. */
  function CurrentPage(path: string): (page: string)
    ensures '/' !in page && page != []
    ensures page == Home || page == LastSegment(path)
    ensures LastSegment(path) != [] ==> page == LastSegment(path)
  {
    var seg := LastSegment(path);
    if seg == [] then HomeHasNoSlash(); Home else seg
  }

  /** A page file served from any directory is recognised by its own name. */
  lemma {:induction false} CurrentPageOfFile(dir: string, name: string)
    requires name != [] && '/' !in name
    ensures CurrentPage(dir + "/" + name) == name
  {
    SegmentAfterSlash(dir + "/", name);
  }

  lemma {:induction false} SegmentAfterSlash(prefix: string, name: string)
    requires prefix != [] && prefix[|prefix| - 1] == '/'
    requires '/' !in name
    ensures LastSegment(prefix + name) == name
  {
    if name == [] {
      assert prefix + name == prefix;
    } else {
      var p := prefix + name;
      assert p[..|p| - 1] == prefix + name[..|name| - 1];
      SegmentAfterSlash(prefix, name[..|name| - 1]);
    }
  }

  /** A directory path (ending in `/`) or an empty path is the home page. */
  lemma DirectoryIsHome(path: string)
    requires path == [] || path[|path| - 1] == '/'
    ensures CurrentPage(path) == Home
  {
  }
}
