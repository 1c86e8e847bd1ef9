/** Go's `path/filepath` helpers on slash-separated paths, as the engines use
    them.  `Ext` and `Base` follow Go on every input; `Dir` and `Join` follow
    Go only on clean paths (no empty, "." or ".." element, no trailing
    separator): Go cleans the result, which these do not, so for instance
    `Dir("./sub/dir/example.json")` is "./sub/dir" here and "sub/dir" in Go. */
module Paths {
  import opened Strings

  /** Index of the last `c` in `s`, or -1. */
  function LastIndexOf(s: string, c: char): (i: int)
    ensures -1 <= i < |s|
    ensures i >= 0 ==> s[i] == c
    ensures i < 0 ==> c !in s
    ensures forall j :: i < j < |s| ==> s[j] != c
  {
    if s == [] then -1
    else if s[|s| - 1] == c then |s| - 1
    else LastIndexOf(s[..|s| - 1], c)
  }

  /** `filepath.Ext`: the suffix from the last dot of the final element. */
  function Ext(p: string): (e: string)
    ensures HasSuffix(p, e)
    ensures e == "" || (e[0] == '.' && '/' !in e && '.' !in e[1..])
    ensures e == "" <==> forall j :: LastIndexOf(p, '/') < j < |p| ==> p[j] != '.'
    ensures e != "" ==> e == p[LastIndexOf(p, '.')..]
  {
    var dot := LastIndexOf(p, '.');
    if dot > LastIndexOf(p, '/') then
      assert forall j :: dot < j < |p| ==> p[j] != '/' && p[j] != '.';
      assert p[dot..][1..] == p[dot + 1..];
      p[dot..]
    else ""
  }

  function TrimTrailingSlashes(p: string): (q: string)
    ensures q <= p
    ensures q != "" ==> q[|q| - 1] != '/'
  {
    if p != [] && p[|p| - 1] == '/' then TrimTrailingSlashes(p[..|p| - 1]) else p
  }

  /** `filepath.Base`: the last element, "." for the empty path. */
  function Base(p: string): (b: string)
    ensures b != ""
  {
    if p == "" then "."
    else
      var q := TrimTrailingSlashes(p);
      if q == "" then "/" else q[LastIndexOf(q, '/') + 1..]
  }

  /** `filepath.Dir` of a clean path: all but the last element. */
  function Dir(p: string): (d: string)
    ensures d != ""
  {
    var i := LastIndexOf(p, '/');
    if i < 0 then "." else if i == 0 then "/" else p[..i]
  }

  /** `filepath.Join` of two clean paths: "." and "" elements vanish and a
      single separator is placed between the two. */
  function Join(a: string, b: string): (j: string)
  {
    if a == "" || a == "." then b
    else if b == "" || b == "." then a
    else if a[|a| - 1] == '/' then a + b
    else a + "/" + b
  }

  /** A path as `filepath.Clean` leaves it with respect to separators: not
      empty, no two adjacent separators, no trailing separator unless it is
      the root. */
  predicate IsClean(p: string) {
    && p != ""
    && (forall i :: 0 <= i < |p| - 1 ==> !(p[i] == '/' && p[i + 1] == '/'))
    && (p[|p| - 1] == '/' ==> p == "/")
  }

  /** The base name of a clean path other than the root is its final
      element: non-empty and free of separators. */
  lemma BaseOfClean(p: string)
    requires IsClean(p) && p != "/"
    ensures Base(p) == p[LastIndexOf(p, '/') + 1..]
    ensures Base(p) != "" && '/' !in Base(p)
  {
    assert TrimTrailingSlashes(p) == p;
  }

  /** A clean path's directory never ends in a separator, except the root. */
  lemma DirOfClean(p: string)
    requires IsClean(p)
    ensures Dir(p)[|Dir(p)| - 1] == '/' ==> Dir(p) == "/"
  {
    var i := LastIndexOf(p, '/');
    if i > 0 {
      assert p[i] == '/';
      assert p[i - 1] != '/';
    }
  }

  /** Renaming a blob after a local file, `Join(Dir(blobName), Base(file))`,
      keeps the blob's directory and takes the file's name. */
  lemma {:induction false} JoinDirBase(blobName: string, file: string)
    requires IsClean(blobName) && IsClean(file) && file != "/" && Base(file) != "."
    ensures Dir(Join(Dir(blobName), Base(file))) == Dir(blobName)
    ensures Base(Join(Dir(blobName), Base(file))) == Base(file)
  {
    BaseOfClean(file);
    DirOfClean(blobName);
    var d, b := Dir(blobName), Base(file);
    var j := Join(d, b);
    assert forall k :: 0 <= k < |b| ==> b[k] != '/';
    if d == "." {
      assert j == b;
      assert LastIndexOf(j, '/') == -1;
      assert TrimTrailingSlashes(j) == j;
    } else if d == "/" {
      assert j == "/" + b;
      assert LastIndexOf(j, '/') == 0;
      assert TrimTrailingSlashes(j) == j;
      assert j[1..] == b;
    } else {
      assert d[|d| - 1] != '/';
      assert j == d + "/" + b;
      assert j[|d|] == '/';
      assert LastIndexOf(j, '/') == |d|;
      assert TrimTrailingSlashes(j) == j;
      assert j[..|d|] == d;
      assert j[|d| + 1..] == b;
    }
  }
}
