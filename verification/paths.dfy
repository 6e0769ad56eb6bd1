/** Path helpers of the client: the parent path, the last segment, the
    depth as a count of '/', the dirname/basename pair used by move, and the
    prefix:local split of a node name. */
module Paths {
  import opened Wrappers
  import opened Text

  /** getParentPath: implode the pieces of explode('/') without the last
      one; an empty (or otherwise falsy) result means the root "/". */
  function ParentPath(path: string): string
  {
    var parts := Split(path, '/');
    var parent := Join(parts[..|parts| - 1], '/');
    if PhpTruthy(parent) then parent else "/"
  }

  /** The last piece of explode('/'), as getJcrName and getNodeData take it. */
  function LastSegment(path: string): string
  {
    var parts := Split(path, '/');
    parts[|parts| - 1]
  }

  /** The stored depth of a path: the number of '/' it contains. */
  function Depth(path: string): nat
  {
    CountChar(path, '/')
  }

  /** dirname: trailing slashes are ignored, the last component is dropped
      together with the slashes before it; no slash gives ".". */
  function Dirname(path: string): string
  {
    if |path| == 0 then ""
    else
      var t := TrimRight(path, '/');
      if |t| == 0 then "/"
      else if '/' !in t then "."
      else
        var b := TrimRight(BeforeLast(t, '/'), '/');
        if |b| == 0 then "/" else b
  }

  /** basename: the component after the last slash, trailing slashes ignored. */
  function Basename(path: string): string
  {
    AfterLast(TrimRight(path, '/'), '/')
  }

  /** The namespace alias and local name of the last segment: without ':' the
      alias is empty; otherwise the first two pieces of explode(':') are
      taken and any further piece is dropped. */
  function SplitJcrName(path: string): (string, string)
  {
    var name := LastSegment(path);
    if ':' !in name then ("", name)
    else
      var pieces := Split(name, ':');
      SplitWithoutSeparatorCount(name);
      (pieces[0], pieces[1])
  }

  /* ---------------------------------------------------------------------
     Lemmas
     --------------------------------------------------------------------- */

  lemma SplitWithoutSeparatorCount(name: string)
    requires ':' in name
    ensures |Split(name, ':')| >= 2
  {
    AroundLast(name, ':');
    var b, a := BeforeLast(name, ':'), AfterLast(name, ':');
    SplitAroundSeparator(b, a, ':');
  }

  /** The last separator of `a + [c] + b` is the one between them when `b`
      holds none. */
  lemma SplitAtLast(a: string, b: string, c: char)
    requires c !in b
    ensures BeforeLast(a + [c] + b, c) == a
    ensures AfterLast(a + [c] + b, c) == b
  {
    var s := a + [c] + b;
    assert s[|a|] == c;
    assert forall j :: |a| < j < |s| ==> s[j] == b[j - |a| - 1];
    assert s[..|a|] == a;
    assert s[|a| + 1..] == b;
  }

  /** The parent path is the text before the last '/', with a falsy
      remainder ("" or "0") read as the root. */
  lemma ParentPathIsBeforeLastSlash(path: string)
    ensures ParentPath(path) ==
      (var b := BeforeLast(path, '/'); if PhpTruthy(b) then b else "/")
  {
    SplitLastPiece(path, '/');
  }

  lemma LastSegmentIsAfterLastSlash(path: string)
    ensures LastSegment(path) == AfterLast(path, '/')
    ensures '/' !in LastSegment(path)
  {
    SplitLastPiece(path, '/');
  }

  /** A child `parent/name` has parent `parent`, last segment `name` and
      one more '/' than its parent. */
  lemma ChildPath(parent: string, name: string)
    requires '/' !in name
    requires PhpTruthy(parent)
    ensures ParentPath(parent + "/" + name) == parent
    ensures LastSegment(parent + "/" + name) == name
    ensures Depth(parent + "/" + name) == Depth(parent) + 1
  {
    var p := parent + "/" + name;
    assert p == parent + ['/'] + name;
    SplitAtLast(parent, name, '/');
    ParentPathIsBeforeLastSlash(p);
    LastSegmentIsAfterLastSlash(p);
    assert p == parent + ("/" + name);
    CountCharAppend(parent, "/" + name, '/');
    CountCharAppend("/", name, '/');
    CountCharAbsent(name, '/');
    assert CountChar("/", '/') == 1 by { assert "/"[1..] == ""; }
  }

  /** A top-level node `/name` has the root as parent and depth 1. */
  lemma TopLevelPath(name: string)
    requires '/' !in name
    ensures ParentPath("/" + name) == "/"
    ensures LastSegment("/" + name) == name
    ensures Depth("/" + name) == 1
  {
    var p := "/" + name;
    assert p == "" + ['/'] + name;
    SplitAtLast("", name, '/');
    ParentPathIsBeforeLastSlash(p);
    LastSegmentIsAfterLastSlash(p);
    CountCharAppend("/", name, '/');
    CountCharAbsent(name, '/');
    assert CountChar("/", '/') == 1 by { assert "/"[1..] == ""; }
  }

  /** The root path counts one '/' and is its own parent under
      getParentPath, while its stored row has depth 0 and parent "". */
  lemma RootPathHelpers()
    ensures Depth("/") == 1
    ensures ParentPath("/") == "/"
  {
    assert "/" == "" + ['/'] + "";
    SplitAtLast("", "", '/');
    ParentPathIsBeforeLastSlash("/");
    assert CountChar("/", '/') == 1 by { assert "/"[1..] == ""; }
  }

  /** A relative path whose first segment is "0" gets the root as parent,
      because "0" is falsy. */
  lemma ParentPathOfZeroSegment()
    ensures ParentPath("0/x") == "/"
  {
    assert "0/x" == "0" + ['/'] + "x";
    SplitAtLast("0", "x", '/');
    ParentPathIsBeforeLastSlash("0/x");
  }

  /** On `parent/name` without stray slashes, dirname agrees with the parent
      path and basename with the last segment. */
  lemma DirnameOfChild(parent: string, name: string)
    requires '/' !in name && |name| > 0
    requires |parent| == 0 || parent[|parent| - 1] != '/'
    ensures Dirname(parent + "/" + name) == (if |parent| == 0 then "/" else parent)
    ensures Basename(parent + "/" + name) == name
  {
    var p := parent + "/" + name;
    assert p == parent + ['/'] + name;
    assert p[|p| - 1] == name[|name| - 1];
    assert TrimRight(p, '/') == p;
    assert '/' in p by { assert p[|parent|] == '/'; }
    SplitAtLast(parent, name, '/');
    assert TrimRight(parent, '/') == parent;
  }

  lemma DirnameAgreesWithParentPath(parent: string, name: string)
    requires '/' !in name && |name| > 0
    requires |parent| > 0 && parent[|parent| - 1] != '/' && parent != "0"
    ensures Dirname(parent + "/" + name) == ParentPath(parent + "/" + name)
  {
    DirnameOfChild(parent, name);
    ChildPath(parent, name);
  }

  /** `alias:local` splits into its two halves. */
  lemma SplitJcrNamePrefixed(parent: string, alias: string, local: string)
    requires '/' !in alias && '/' !in local && ':' !in alias && ':' !in local
    requires PhpTruthy(parent)
    ensures SplitJcrName(parent + "/" + alias + ":" + local) == (alias, local)
  {
    var name := alias + ":" + local;
    assert '/' !in name;
    assert parent + "/" + alias + ":" + local == parent + "/" + name;
    ChildPath(parent, name);
    assert name == alias + [':'] + local;
    assert name[|alias|] == ':';
    SplitAroundSeparator(alias, local, ':');
    SplitWithoutSeparator(alias, ':');
    SplitWithoutSeparator(local, ':');
  }

  /** A second ':' in the name is lost together with everything after it. */
  lemma SplitJcrNameDropsThirdPiece(parent: string, a: string, b: string, c: string)
    requires '/' !in a + b + c && ':' !in a && ':' !in b
    requires PhpTruthy(parent)
    ensures SplitJcrName(parent + "/" + a + ":" + b + ":" + c) == (a, b)
  {
    var name := a + ":" + b + ":" + c;
    assert '/' !in name by {
      assert forall i :: 0 <= i < |name| ==> name[i] in a + b + c || name[i] == ':';
    }
    assert parent + "/" + a + ":" + b + ":" + c == parent + "/" + name;
    ChildPath(parent, name);
    assert name == a + [':'] + (b + ":" + c);
    assert name[|a|] == ':';
    SplitAroundSeparator(a, b + ":" + c, ':');
    assert b + ":" + c == b + [':'] + c;
    SplitAroundSeparator(b, c, ':');
    SplitWithoutSeparator(a, ':');
    SplitWithoutSeparator(b, ':');
  }
}
