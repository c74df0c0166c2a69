/**
 * The local filesystem as the sync command sees it: a finite map from paths
 * to files (with their bytes) or directories. The operations are the os
 * package calls the command makes (Stat, MkdirAll, Create/OpenFile with
 * truncation, Remove, RemoveAll), each as a pure function from one snapshot
 * to the next. Paths are joined with a single '/' and are not cleaned.
 */
module FileSystem {
  import opened Outcomes

  type Bytes = seq<bv8>

  datatype Node = File(data: Bytes) | Directory

  /** A snapshot: every existing path mapped to what it names. */
  type FS = map<string, Node>

  datatype FsError =
    | NotADirectory(path: string)   // a path component that should be a directory is a file
    | IsADirectory(path: string)    // a file was to be written where a directory stands
    | NoParent(path: string)        // the directory that should hold a new file is missing

  /** filepath.Join of two elements, without lexical cleaning of ".", ".." or empty elements. */
  function Join(dir: string, name: string): string {
    dir + "/" + name
  }

  /** `p` lies strictly inside the directory `root`. */
  predicate Under(p: string, root: string) {
    |root| < |p| && p[..|root| + 1] == root + "/"
  }

  predicate IsDir(fs: FS, p: string) {
    p in fs && fs[p].Directory?
  }

  predicate IsFile(fs: FS, p: string) {
    p in fs && fs[p].File?
  }

  predicate NoSlash(s: string) {
    forall i :: 0 <= i < |s| ==> s[i] != '/'
  }

  /** Position of the last '/' in `p`, if any. */
  function LastSlash(p: string): (r: Option<nat>)
    ensures r.Some? ==> r.value < |p| && p[r.value] == '/' && NoSlash(p[r.value + 1..])
    ensures r.None? ==> NoSlash(p)
  {
    if |p| == 0 then None
    else if p[|p| - 1] == '/' then Some(|p| - 1)
    else
      var r := LastSlash(p[..|p| - 1]);
      assert r.Some? ==> p[r.value + 1..] == p[..|p| - 1][r.value + 1..] + [p[|p| - 1]];
      r
  }

  /**
   * filepath.Dir without cleaning: everything before the last '/', "/" when
   * that '/' is the first character, and "." when there is none.
   */
  function Parent(p: string): string {
    match LastSlash(p)
    case None => "."
    case Some(i) => if i == 0 then "/" else p[..i]
  }

  /** The last '/' of `dir + "/" + name` is the joining one when `name` has none. */
  lemma {:induction false} LastSlashOfJoin(dir: string, name: string)
    requires NoSlash(name)
    ensures LastSlash(Join(dir, name)) == Some(|dir|)
    decreases |name|
  {
    if |name| > 0 {
      var shorter := name[..|name| - 1];
      assert Join(dir, name)[..|Join(dir, name)| - 1] == Join(dir, shorter);
      LastSlashOfJoin(dir, shorter);
    }
  }

  /** A path joined below `dir` lies inside it, whatever the name holds. */
  lemma {:induction false} JoinUnder(dir: string, name: string)
    ensures Under(Join(dir, name), dir)
  {
    assert Join(dir, name)[..|dir| + 1] == dir + "/";
  }

  /** Joining a slash-free name to a non-empty directory gives a path inside it whose parent is that directory. */
  lemma {:induction false} ParentOfJoin(dir: string, name: string)
    requires |dir| > 0 && NoSlash(name)
    ensures Parent(Join(dir, name)) == dir
    ensures Under(Join(dir, name), dir)
  {
    LastSlashOfJoin(dir, name);
    assert Join(dir, name)[..|dir|] == dir;
    JoinUnder(dir, name);
  }

  /** Appending slash-free text does not move the last '/'. */
  lemma {:induction false} LastSlashAppend(p: string, s: string)
    requires NoSlash(s)
    ensures LastSlash(p + s) == LastSlash(p)
    decreases |s|
  {
    if |s| > 0 {
      var shorter := s[..|s| - 1];
      assert (p + s)[..|p + s| - 1] == p + shorter;
      LastSlashAppend(p, shorter);
    } else {
      assert p + s == p;
    }
  }

  /** Appending slash-free text to a path keeps its parent. */
  lemma {:induction false} ParentAppend(p: string, s: string)
    requires NoSlash(s)
    ensures Parent(p + s) == Parent(p)
  {
    LastSlashAppend(p, s);
    if LastSlash(p).Some? {
      var i := LastSlash(p).value;
      assert (p + s)[..i] == p[..i];
    }
  }

  /** The parent of a path with a '/' is shorter than the path, once the path has two characters. */
  lemma {:induction false} ParentShorter(p: string)
    requires |p| >= 2
    ensures |Parent(p)| < |p|
  {
  }

  /** A path inside `root` is not `root` with a suffix that starts with anything but '/' (the album's archive, say). */
  lemma {:induction false} UnderNotSibling(q: string, root: string, suffix: string)
    requires Under(q, root) && |suffix| > 0 && suffix[0] != '/'
    ensures q != root + suffix
  {
    assert q[|root|] == (root + "/")[|root|];
    assert (root + suffix)[|root|] == suffix[0];
  }

  /** The directories os.MkdirAll(p) makes sure of: `p` itself and each prefix that ends just before a '/'. */
  function Ancestry(p: string): set<string> {
    {p} + set i | 0 < i < |p| && p[i] == '/' :: p[..i]
  }

  /** The directories MkdirAll(p) may create are no longer than `p`. */
  lemma {:induction false} AncestryNoLonger(p: string)
    ensures forall q :: q in Ancestry(p) ==> |q| <= |p|
  {
    forall q | q in Ancestry(p) ensures |q| <= |p| {
      if q != p {
        var i :| 0 < i < |p| && p[i] == '/' && q == p[..i];
      }
    }
  }

  /**
   * os.MkdirAll: fails when `p` or one of its ancestors is a file; otherwise
   * adds the missing directories and leaves everything else as it was.
   */
  function MkdirAll(fs: FS, p: string): (r: Result<FS, FsError>)
    ensures r.Ok? <==> forall q :: q in Ancestry(p) ==> !IsFile(fs, q)
    ensures r.Ok? ==> IsDir(r.value, p)
    ensures r.Ok? ==> forall q :: q in Ancestry(p) ==> IsDir(r.value, q)
    ensures r.Ok? ==> forall q :: q in fs ==> q in r.value && r.value[q] == fs[q]
    ensures r.Ok? ==> forall q :: q in r.value ==> q in fs || q in Ancestry(p)
  {
    if exists q :: q in Ancestry(p) && IsFile(fs, q) then Err(NotADirectory(p))
    else Ok(fs + map q | q in Ancestry(p) && q !in fs :: Directory)
  }

  /** The directory that is to hold a new file at `p` exists (the working and root directories always do). */
  predicate ParentExists(fs: FS, p: string) {
    var d := Parent(p);
    d == "." || d == "/" || IsDir(fs, d)
  }

  /**
   * os.Create / os.OpenFile with O_CREATE|O_TRUNC followed by a full write:
   * fails on a directory or a missing parent; otherwise `p` holds exactly
   * `data` and nothing else changes.
   */
  function WriteFile(fs: FS, p: string, data: Bytes): (r: Result<FS, FsError>)
    ensures r.Ok? <==> !IsDir(fs, p) && ParentExists(fs, p)
    ensures r.Ok? ==> r.value.Keys == fs.Keys + {p} && r.value[p] == File(data)
    ensures r.Ok? ==> forall q :: q in fs && q != p ==> r.value[q] == fs[q]
  {
    if IsDir(fs, p) then Err(IsADirectory(p))
    else if !ParentExists(fs, p) then Err(NoParent(p))
    else Ok(fs[p := File(data)])
  }

  /** os.RemoveAll: `p` and everything under it disappear; every other path is kept as it was. */
  function RemoveAll(fs: FS, p: string): (r: FS)
    ensures p !in r
    ensures forall q :: q in r <==> q in fs && q != p && !Under(q, p)
    ensures forall q :: q in r ==> r[q] == fs[q]
  {
    map q | q in fs && q != p && !Under(q, p) :: fs[q]
  }

  /**
   * os.Remove with its error ignored: a file or an empty directory at `p`
   * disappears; a missing path or a non-empty directory is left alone.
   */
  function Remove(fs: FS, p: string): (r: FS)
    ensures IsFile(fs, p) ==> r == fs - {p}
    ensures p !in fs ==> r == fs
    ensures forall q :: q != p ==> (q in r <==> q in fs)
    ensures forall q :: q in r ==> r[q] == fs[q]
  {
    if p !in fs then fs
    else if fs[p].File? || !exists q :: q in fs && Under(q, p) then fs - {p}
    else fs
  }
}
