/**
 * Remote path arithmetic of the client: child paths, the breadcrumb's
 * cumulative paths, and absolute paths built from their segments.
 */
module Paths {
  import opened Text
  import opened Sorting

  /** `dir === "/" ? "/" + name : dir + "/" + name`, the join used throughout the browser. */
  function JoinChild(dir: string, name: string): (r: string)
    ensures |r| == |dir| + |name| + (if dir == "/" then 0 else 1)
  {
    if dir == "/" then "/" + name else dir + "/" + name
  }

  /** The name of a child is recovered as the last segment of its path. */
  lemma {:induction false} ChildLastSegment(dir: string, name: string)
    requires '/' !in name
    ensures LastSegment(JoinChild(dir, name)) == name
  {
    if dir == "/" {
      LastSegmentOfChild("", name);
      assert "" + "/" + name == "/" + name;
    } else {
      LastSegmentOfChild(dir, name);
    }
  }

  /**
   * `posixpath.join(a, b)` on the server: an absolute `b` replaces `a`, and
   * a separator is added unless `a` is empty or already ends with one.
   */
  function PosixJoin(a: string, b: string): string {
    if |b| > 0 && b[0] == '/' then b
    else if a == "" || a[|a| - 1] == '/' then a + b
    else a + "/" + b
  }

  /**
   * The server joins a normalised directory (no trailing `/` except the
   * root) and a relative name to the same path the client does.
   */
  lemma {:induction false} PosixJoinIsJoinChild(dir: string, name: string)
    requires dir != "" && (dir == "/" || dir[|dir| - 1] != '/')
    requires name == "" || name[0] != '/'
    ensures PosixJoin(dir, name) == JoinChild(dir, name)
  {
  }

  /** A name without `/` is the last segment of the server's join. */
  lemma {:induction false} PosixJoinLastSegment(dir: string, name: string)
    requires '/' !in name && name != ""
    ensures LastSegment(PosixJoin(dir, name)) == name
  {
    if dir == "" {
      NoSeparatorSplit(name, '/');
      assert PosixJoin(dir, name) == name;
    } else if dir[|dir| - 1] == '/' {
      var d := dir[..|dir| - 1];
      assert PosixJoin(dir, name) == d + "/" + name;
      LastSegmentOfChild(d, name);
    } else {
      LastSegmentOfChild(dir, name);
    }
  }

  predicate IsSegment(s: string) {
    s != ""
  }

  /** `path.split("/").filter(Boolean)`: the non-empty segments of a path. */
  function Segments(path: string): (parts: seq<string>)
    ensures forall k :: 0 <= k < |parts| ==> parts[k] != "" && '/' !in parts[k]
  {
    FilterMembers(SplitOn(path, '/'), IsSegment);
    Filter(SplitOn(path, '/'), IsSegment)
  }

  /** A segment list that names a directory: non-empty names without `/`. */
  predicate ValidSegments(parts: seq<string>) {
    forall k :: 0 <= k < |parts| ==> parts[k] != "" && '/' !in parts[k]
  }

  /** The canonical absolute path with the given segments. */
  function AbsPath(parts: seq<string>): (p: string)
    ensures |p| >= 1 && p[0] == '/'
  {
    if parts == [] then "/" else "/" + JoinWith(parts, "/")
  }

  /**
   * The paths the breadcrumb's items navigate to, built as the source does by
   * appending "/" + segment to the path so far.
   */
  function CrumbPaths(prefix: string, parts: seq<string>): (r: seq<string>)
    ensures |r| == |parts|
    decreases parts
  {
    if parts == [] then [] else [prefix + "/" + parts[0]] + CrumbPaths(prefix + "/" + parts[0], parts[1..])
  }

  /** The breadcrumb of a path: the root item "/" followed by one cumulative path per segment. */
  function Breadcrumb(path: string): (r: seq<string>)
    ensures |r| == |Segments(path)| + 1 && r[0] == "/"
  {
    ["/"] + CrumbPaths("", Segments(path))
  }

  lemma {:induction false} JoinWithSnoc(parts: seq<string>, last: string, d: string)
    requires parts != []
    ensures JoinWith(parts + [last], d) == JoinWith(parts, d) + d + last
  {
    if |parts| == 1 {
      assert parts + [last] == [parts[0], last];
      assert [parts[0], last][1..] == [last];
    } else {
      JoinWithSnoc(parts[1..], last, d);
      assert (parts + [last])[1..] == parts[1..] + [last];
    }
  }

  /** Appending a segment to an absolute path is the browser's child join. */
  lemma {:induction false} AbsPathChild(parts: seq<string>, name: string)
    requires ValidSegments(parts)
    ensures AbsPath(parts + [name]) == JoinChild(AbsPath(parts), name)
  {
    if parts == [] {
      assert [] + [name] == [name];
    } else {
      JoinWithSnoc(parts, name, "/");
      JoinWithLength(parts, "/");
    }
  }

  lemma {:induction false} JoinWithLength(parts: seq<string>, d: string)
    requires parts != []
    ensures |JoinWith(parts, d)| >= |parts[0]|
  {
  }

  /**
   * Each breadcrumb item below the root is the absolute path of the segments up
   * to and including its own: the cumulative path equals the reference one.
   */
  lemma {:induction false} CrumbPathsAreAbsolute(done: seq<string>, prefix: string, parts: seq<string>)
    requires ValidSegments(done + parts)
    requires prefix == if done == [] then "" else AbsPath(done)
    ensures forall k :: 0 <= k < |parts| ==> CrumbPaths(prefix, parts)[k] == AbsPath(done + parts[..k + 1])
    decreases parts
  {
    if parts != [] {
      var next := prefix + "/" + parts[0];
      assert done + [parts[0]] == (done + parts)[..|done| + 1];
      assert forall k :: 0 <= k < |done| ==> done[k] == (done + parts)[k];
      assert next == AbsPath(done + [parts[0]]) by {
        AbsPathChild(done, parts[0]);
        if done == [] {
          assert AbsPath([parts[0]]) == "/" + parts[0];
        }
      }
      assert done + [parts[0]] + parts[1..] == done + parts;
      CrumbPathsAreAbsolute(done + [parts[0]], next, parts[1..]);
      forall k | 0 <= k < |parts|
        ensures CrumbPaths(prefix, parts)[k] == AbsPath(done + parts[..k + 1])
      {
        if k > 0 {
          assert done + [parts[0]] + parts[1..][..k] == done + parts[..k + 1];
        } else {
          assert done + parts[..1] == done + [parts[0]];
        }
      }
    }
  }

  /** The segments of an absolute path built from valid segments are those segments. */
  lemma {:induction false} SegmentsOfAbsPath(parts: seq<string>)
    requires ValidSegments(parts)
    ensures Segments(AbsPath(parts)) == parts
  {
    if parts == [] {
      assert SplitOn("/", '/') == [""] + SplitOn("", '/');
    } else {
      SplitJoin(parts, '/');
      SplitAround("", JoinWith(parts, "/"), '/');
      assert "" + ['/'] + JoinWith(parts, "/") == AbsPath(parts);
      assert ([""] + parts)[1..] == parts;
      FilterAll(parts, IsSegment);
    }
  }

  /**
   * The breadcrumb of a canonical directory path ends at that path, and each
   * item is the child join of the one before it with its segment, so every
   * item names a directory on the way from the root.
   */
  lemma {:induction false} BreadcrumbRoundTrip(parts: seq<string>)
    requires ValidSegments(parts)
    ensures |Breadcrumb(AbsPath(parts))| == |parts| + 1
    ensures Breadcrumb(AbsPath(parts))[|parts|] == AbsPath(parts)
    ensures forall k :: 1 <= k <= |parts| ==>
      Breadcrumb(AbsPath(parts))[k] == JoinChild(Breadcrumb(AbsPath(parts))[k - 1], parts[k - 1])
  {
    CrumbIsAbsPath(parts, |parts|);
    assert parts[..|parts|] == parts;
    forall k | 1 <= k <= |parts|
      ensures Breadcrumb(AbsPath(parts))[k] == JoinChild(Breadcrumb(AbsPath(parts))[k - 1], parts[k - 1])
    {
      CrumbStep(parts, k);
    }
  }

  lemma {:induction false} CrumbStep(parts: seq<string>, k: int)
    requires ValidSegments(parts) && 1 <= k <= |parts|
    ensures |Breadcrumb(AbsPath(parts))| == |parts| + 1
    ensures Breadcrumb(AbsPath(parts))[k] == JoinChild(Breadcrumb(AbsPath(parts))[k - 1], parts[k - 1])
  {
    CrumbIsAbsPath(parts, k);
    CrumbIsAbsPath(parts, k - 1);
    var before := parts[..k - 1];
    PrefixSnoc(parts, k);
    AbsPathChild(before, parts[k - 1]);
  }

  lemma {:induction false} PrefixSnoc(parts: seq<string>, k: int)
    requires ValidSegments(parts) && 1 <= k <= |parts|
    ensures ValidSegments(parts[..k - 1]) && parts[..k - 1] + [parts[k - 1]] == parts[..k]
  {
  }

  /** Breadcrumb item `k` of a canonical path is the absolute path of its first `k` segments. */
  lemma {:induction false} CrumbIsAbsPath(parts: seq<string>, k: int)
    requires ValidSegments(parts) && 0 <= k <= |parts|
    ensures |Breadcrumb(AbsPath(parts))| == |parts| + 1
    ensures Breadcrumb(AbsPath(parts))[k] == AbsPath(parts[..k])
  {
    SegmentsOfAbsPath(parts);
    if k > 0 {
      CrumbPathsAreAbsolute([], "", parts);
      assert [] + parts == parts;
      assert [] + parts[..k] == parts[..k];
    } else {
      assert parts[..0] == [];
    }
  }
}
