/**
 * The recursive directory listing: a depth-first walk of the pages
 * directory that collects the path of every non-directory entry.
 * The directory tree is given in memory; a path is its list of names
 * below the walked root.
 */
module Walk {
  import opened Strings
  import opened Links

  type Path = seq<string>

  /** One entry of a directory listing, in the order the listing returns it. */
  datatype Entry = File(name: string) | Dir(name: string, entries: seq<Entry>)

  /** The files below `dir`, each subdirectory's files spliced in at the directory's place. */
  function Flatten(entries: seq<Entry>, dir: Path): seq<Path>
    decreases entries, 1
  {
    if entries == [] then []
    else EntryFiles(entries[0], dir) + Flatten(entries[1..], dir)
  }

  /** The files one entry of the directory `dir` contributes: itself, or everything below it. */
  function EntryFiles(e: Entry, dir: Path): seq<Path>
    decreases e, 0
  {
    match e
    case File(name) => [dir + [name]]
    case Dir(name, children) => Flatten(children, dir + [name])
  }

  lemma {:induction false} FlattenAppend(a: seq<Entry>, b: seq<Entry>, dir: Path)
    ensures Flatten(a + b, dir) == Flatten(a, dir) + Flatten(b, dir)
    decreases a
  {
    if a != [] {
      assert (a + b)[0] == a[0];
      assert (a + b)[1..] == a[1..] + b;
      FlattenAppend(a[1..], b, dir);
    } else {
      assert a + b == b;
    }
  }

  /**
   * walk(dir, fileList): lists `entries` in order, recursing into each
   * directory with the accumulated list and appending each other entry.
   */
  method Walk(entries: seq<Entry>, dir: Path, fileList: seq<Path>) returns (result: seq<Path>)
    ensures result == fileList + Flatten(entries, dir)
    decreases entries
  {
    result := fileList;
    var i := 0;
    while i < |entries|
      invariant 0 <= i <= |entries|
      invariant result == fileList + Flatten(entries[..i], dir)
    {
      var entry := entries[i];
      FlattenAppend(entries[..i], [entry], dir);
      assert entries[..i + 1] == entries[..i] + [entry];
      match entry {
        case Dir(name, children) =>
          result := Walk(children, dir + [name], result);
        case File(name) =>
          result := result + [dir + [name]];
      }
      i := i + 1;
    }
    assert entries[..i] == entries;
  }

  /** `p` names a file (not a directory) in the tree `entries`. */
  ghost predicate FileAt(entries: seq<Entry>, p: Path)
    decreases |p|
  {
    && |p| > 0
    && exists k :: 0 <= k < |entries| && entries[k].name == p[0] &&
         if |p| == 1 then entries[k].File?
         else entries[k].Dir? && FileAt(entries[k].entries, p[1..])
  }

  /** `p` names a directory in the tree `entries`. */
  ghost predicate DirAt(entries: seq<Entry>, p: Path)
    decreases |p|
  {
    && |p| > 0
    && exists k :: 0 <= k < |entries| && entries[k].name == p[0] && entries[k].Dir? &&
         (|p| == 1 || DirAt(entries[k].entries, p[1..]))
  }

  /** A file or directory name: non-empty and without '/'. */
  predicate ValidName(name: string) {
    name != [] && '/' !in name
  }

  /** What a file system guarantees of a listing: valid names, unique within each directory. */
  predicate WellFormed(entries: seq<Entry>)
    decreases entries
  {
    && (forall k :: 0 <= k < |entries| ==> ValidName(entries[k].name))
    && (forall k, l :: 0 <= k < l < |entries| ==> entries[k].name != entries[l].name)
    && (forall k :: 0 <= k < |entries| ==> entries[k].Dir? ==> WellFormed(entries[k].entries))
  }

  /** Every walked path is `dir` followed by the path of a file of the tree. */
  lemma {:induction false} FlattenSound(entries: seq<Entry>, dir: Path, q: Path)
    requires q in Flatten(entries, dir)
    ensures |q| > |dir| && q[..|dir|] == dir
    ensures exists k :: 0 <= k < |entries| && entries[k].name == q[|dir|]
    ensures FileAt(entries, q[|dir|..])
    decreases entries
  {
    var e := entries[0];
    var files := EntryFiles(e, dir);
    if q in files {
      match e {
        case File(name) =>
          assert q == dir + [name];
          assert q[|dir|..] == [name];
        case Dir(name, children) =>
          FlattenSound(children, dir + [name], q);
          assert q[..|dir|] == (dir + [name])[..|dir|];
          assert q[|dir|..][1..] == q[|dir| + 1..];
      }
    } else {
      FlattenSound(entries[1..], dir, q);
      var k :| 0 <= k < |entries[1..]| && entries[1..][k].name == q[|dir|];
      assert entries[k + 1].name == q[|dir|];
      var r := q[|dir|..];
      var j :| 0 <= j < |entries[1..]| && entries[1..][j].name == r[0] &&
        if |r| == 1 then entries[1..][j].File?
        else entries[1..][j].Dir? && FileAt(entries[1..][j].entries, r[1..]);
      assert entries[j + 1] == entries[1..][j];
    }
  }

  /** Every file of the tree is walked, under `dir`. */
  lemma {:induction false} FlattenComplete(entries: seq<Entry>, dir: Path, p: Path)
    requires FileAt(entries, p)
    ensures dir + p in Flatten(entries, dir)
    decreases entries
  {
    var k :| 0 <= k < |entries| && entries[k].name == p[0] &&
      if |p| == 1 then entries[k].File?
      else entries[k].Dir? && FileAt(entries[k].entries, p[1..]);
    FlattenAppend(entries[..k], entries[k..], dir);
    assert entries == entries[..k] + entries[k..];
    var e := entries[k];
    assert entries[k..][0] == e;
    if |p| == 1 {
      assert p == [e.name];
    } else {
      FlattenComplete(e.entries, dir + [e.name], p[1..]);
      assert dir + [e.name] + p[1..] == dir + p;
    }
  }

  /** No path occurs twice. */
  predicate Distinct<T(==)>(s: seq<T>) {
    forall i, j :: 0 <= i < j < |s| ==> s[i] != s[j]
  }

  /** In a well-formed tree each file is walked exactly once. */
  lemma {:induction false} FlattenDistinct(entries: seq<Entry>, dir: Path)
    requires WellFormed(entries)
    ensures Distinct(Flatten(entries, dir))
    decreases entries
  {
    if entries != [] {
      var e := entries[0];
      var files := EntryFiles(e, dir);
      var rest := Flatten(entries[1..], dir);
      if e.Dir? {
        FlattenDistinct(e.entries, dir + [e.name]);
      }
      assert WellFormed(entries[1..]);
      FlattenDistinct(entries[1..], dir);
      forall x | x in files
        ensures |x| > |dir| && x[|dir|] == e.name
      {
        if e.Dir? {
          FlattenSound(e.entries, dir + [e.name], x);
          assert x[|dir|] == x[..|dir| + 1][|dir|];
        }
      }
      forall y | y in rest
        ensures |y| > |dir| && y[|dir|] != e.name
      {
        FlattenSound(entries[1..], dir, y);
        var k :| 0 <= k < |entries[1..]| && entries[1..][k].name == y[|dir|];
        assert entries[k + 1].name == y[|dir|];
      }
      DistinctConcat(files, rest);
    }
  }

  lemma DistinctConcat<T>(a: seq<T>, b: seq<T>)
    requires Distinct(a) && Distinct(b)
    requires forall x, y :: x in a && y in b ==> x != y
    ensures Distinct(a + b)
  {
    var s := a + b;
    forall i, j | 0 <= i < j < |s|
      ensures s[i] != s[j]
    {
      if j < |a| {
        assert s[i] == a[i] && s[j] == a[j];
      } else if i < |a| {
        assert s[i] == a[i] && s[j] == b[j - |a|];
        assert a[i] in a && b[j - |a|] in b;
      } else {
        assert s[i] == b[i - |a|] && s[j] == b[j - |a|];
      }
    }
  }

  /** In a well-formed tree no path names both a file and a directory: the walk returns no directory. */
  lemma {:induction false} FileIsNotDir(entries: seq<Entry>, p: Path)
    requires WellFormed(entries) && FileAt(entries, p)
    ensures !DirAt(entries, p)
    decreases |p|
  {
    if DirAt(entries, p) {
      var k :| 0 <= k < |entries| && entries[k].name == p[0] &&
        if |p| == 1 then entries[k].File?
        else entries[k].Dir? && FileAt(entries[k].entries, p[1..]);
      var l :| 0 <= l < |entries| && entries[l].name == p[0] && entries[l].Dir? &&
        (|p| == 1 || DirAt(entries[l].entries, p[1..]));
      assert k == l;
      FileIsNotDir(entries[k].entries, p[1..]);
    }
  }

  /** path.join of the names of a walked path, with '/' between them. */
  function JoinPath(p: Path): string
    decreases |p|
  {
    if p == [] then ""
    else if |p| == 1 then p[0]
    else p[0] + "/" + JoinPath(p[1..])
  }

  /** Every name of a walked path is a valid name. */
  predicate ValidPath(p: Path) {
    p != [] && forall i :: 0 <= i < |p| ==> ValidName(p[i])
  }

  /** The joined path has no empty segment; it contains '/' exactly when it has several names. */
  lemma {:induction false} JoinPathSegments(p: Path)
    requires ValidPath(p)
    ensures NoEmptySegment(JoinPath(p))
    ensures |p| == 1 <==> '/' !in JoinPath(p)
    decreases |p|
  {
    if |p| > 1 {
      var head, tail := p[0], JoinPath(p[1..]);
      JoinPathSegments(p[1..]);
      var s := head + "/" + tail;
      assert s[|head|] == '/';
      forall i | 0 <= i < |s| - 1
        ensures s[i] != '/' || s[i + 1] != '/'
      {
        if i + 1 < |head| {
          assert s[i] == head[i];
        } else if i + 1 == |head| {
          assert s[i] == head[i];
        } else if i == |head| {
          assert s[i + 1] == tail[0];
        } else {
          assert s[i] == tail[i - |head| - 1] && s[i + 1] == tail[i - |head|];
        }
      }
      assert s[|s| - 1] == tail[|tail| - 1];
    }
  }

  /** In a name followed by '/', that '/' is the first one. */
  lemma SlashAfterName(name: string, rest: string)
    requires '/' !in name
    ensures FirstOccurrence(name + "/" + rest, "/", |name|)
  {
    var s := name + "/" + rest;
    assert s[|name|..|name| + 1] == "/";
    forall j | 0 <= j < |name|
      ensures !OccursAt(s, "/", j)
    {
      assert s[j] == name[j];
      assert s[j..j + 1] == [name[j]];
    }
  }

  /** Different walked paths join to different strings. */
  lemma {:induction false} JoinPathInjective(p: Path, q: Path)
    requires ValidPath(p) && ValidPath(q) && JoinPath(p) == JoinPath(q)
    ensures p == q
    decreases |p|
  {
    JoinPathSegments(p);
    JoinPathSegments(q);
    if |p| > 1 && |q| > 1 {
      var a, b := p[0], q[0];
      var s := JoinPath(p);
      SlashAfterName(a, JoinPath(p[1..]));
      SlashAfterName(b, JoinPath(q[1..]));
      FirstOccurrenceUnique(s, "/", |a|, |b|);
      assert a == s[..|a|] == b;
      assert JoinPath(p[1..]) == s[|a| + 1..] == JoinPath(q[1..]);
      JoinPathInjective(p[1..], q[1..]);
      assert p == [a] + p[1..] && q == [b] + q[1..];
    }
  }

  /** In a well-formed tree every walked path is a valid path. */
  lemma {:induction false} FlattenValid(entries: seq<Entry>, dir: Path, q: Path)
    requires WellFormed(entries) && q in Flatten(entries, dir)
    requires forall i :: 0 <= i < |dir| ==> ValidName(dir[i])
    ensures ValidPath(q)
    decreases entries
  {
    var e := entries[0];
    var files := EntryFiles(e, dir);
    if q in files {
      if e.Dir? {
        FlattenValid(e.entries, dir + [e.name], q);
      }
    } else {
      assert WellFormed(entries[1..]);
      FlattenValid(entries[1..], dir, q);
    }
  }
}
