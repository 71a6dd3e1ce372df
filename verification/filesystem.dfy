/**
  The project directory as an immutable value, and the operations of
  Laravel's `File` facade that the conversion commands call, each as a pure
  function from one tree to the next.

  A path is the list of segments below the project's base path (the base
  itself is the empty path and is not an entry of the tree). A facade call
  that would raise in PHP (reading something that is not a file, writing onto
  a directory or into a missing directory) returns `None`.
 */
module FileSystem {
  import opened Text

  type Path = seq<string>

  datatype Node = File(content: string) | Dir

  type Tree = map<Path, Node>

  datatype Option<T> = None | Some(value: T) {
    predicate IsFailure() { None? }

    function PropagateFailure<U>(): Option<U>
      requires None?
    {
      None
    }

    function Extract(): T
      requires Some?
    {
      value
    }
  }

  /** `File::exists`: a file or a directory is there. */
  predicate Exists(t: Tree, p: Path) {
    p in t
  }

  /** `File::missing`. */
  predicate Missing(t: Tree, p: Path) {
    p !in t
  }

  /** `File::isFile`. */
  predicate IsFile(t: Tree, p: Path) {
    p in t && t[p].File?
  }

  /** `File::isDirectory`. */
  predicate IsDirectory(t: Tree, p: Path) {
    p in t && t[p].Dir?
  }

  /** `q` lies strictly below the directory `p`. */
  predicate Under(q: Path, p: Path) {
    |p| < |q| && q[..|p|] == p
  }

  /** `q` is none of `ps` and lies below none of them. */
  predicate Untouched(q: Path, ps: seq<Path>) {
    forall i :: 0 <= i < |ps| ==> q != ps[i] && !Under(q, ps[i])
  }

  /** The directory a new file at `p` is written into exists. */
  predicate ParentIsDirectory(t: Tree, p: Path) {
    |p| > 0 && (|p| == 1 || IsDirectory(t, p[..|p| - 1]))
  }

  /** Every ancestor of an entry is a directory of the tree. */
  predicate WellFormed(t: Tree) {
    forall q, k :: q in t && 0 < k < |q| ==> IsDirectory(t, q[..k])
  }

  /** `t` and `u` agree about `q`. */
  predicate SameAt(t: Tree, u: Tree, q: Path) {
    (q in t <==> q in u) && (q in t ==> t[q] == u[q])
  }

  /** Every entry of `u` is an entry of `t` with the same node: `u` was
      obtained from `t` by removing entries only. */
  predicate Shrunk(t: Tree, u: Tree) {
    forall q :: q in u ==> q in t && u[q] == t[q]
  }

  /** The content of a file, or the empty text when there is none. */
  function ContentOr(t: Tree, p: Path): string {
    if IsFile(t, p) then t[p].content else ""
  }

  /** `File::get`: raises unless `p` is a file. */
  function Get(t: Tree, p: Path): (r: Option<string>)
    ensures r.Some? <==> IsFile(t, p)
    ensures r.Some? ==> t[p] == File(r.value)
  {
    if IsFile(t, p) then Some(t[p].content) else None
  }

  /** `File::delete`: unlinks a file; a directory or a missing path is left
      alone. */
  function DeleteFile(t: Tree, p: Path): (u: Tree)
    ensures !IsFile(u, p)
    ensures Shrunk(t, u)
    ensures forall q :: q != p ==> SameAt(t, u, q)
    ensures IsFile(t, p) ==> p !in u
    ensures !IsFile(t, p) ==> u == t
  {
    if IsFile(t, p) then t - {p} else t
  }

  /** `File::deleteDirectory`: removes a directory and everything below it;
      anything that is not a directory is left alone. */
  function DeleteDirectory(t: Tree, p: Path): (u: Tree)
    ensures !IsDirectory(u, p)
    ensures Shrunk(t, u)
    ensures forall q :: q != p && !Under(q, p) ==> SameAt(t, u, q)
    ensures IsDirectory(t, p) ==> p !in u && forall q :: Under(q, p) ==> q !in u
    ensures !IsDirectory(t, p) ==> u == t
  {
    if IsDirectory(t, p) then map q | q in t && q != p && !Under(q, p) :: t[q] else t
  }

  /** `File::replaceInFile`: `str_replace` over the content of an existing
      file; raises when `p` is not a file. */
  function ReplaceInFile(t: Tree, p: Path, searches: seq<string>, replace: Replacement): (r: Option<Tree>)
    ensures r.Some? <==> IsFile(t, p)
    ensures r.Some? ==> r.value.Keys == t.Keys
    ensures r.Some? ==> r.value[p] == File(StrReplace(searches, replace, t[p].content))
    ensures r.Some? ==> forall q :: q != p ==> SameAt(t, r.value, q)
  {
    if IsFile(t, p) then Some(t[p := File(StrReplace(searches, replace, t[p].content))]) else None
  }

  /** `File::replace` and `File::copy`: the file at `p` holds exactly
      `content` afterwards, whether or not it existed; raises when `p` is a
      directory or its directory does not exist. */
  function Put(t: Tree, p: Path, content: string): (r: Option<Tree>)
    ensures r.Some? <==> !IsDirectory(t, p) && ParentIsDirectory(t, p)
    ensures r.Some? ==> r.value.Keys == t.Keys + {p}
    ensures r.Some? ==> r.value[p] == File(content)
    ensures r.Some? ==> forall q :: q != p ==> SameAt(t, r.value, q)
  {
    if !IsDirectory(t, p) && ParentIsDirectory(t, p) then Some(t[p := File(content)]) else None
  }

  /** `File::append`: `data` is added at the end of the file, which is
      created when missing; raises when `p` is a directory or its directory
      does not exist. */
  function Append(t: Tree, p: Path, data: string): (r: Option<Tree>)
    ensures r.Some? <==> !IsDirectory(t, p) && ParentIsDirectory(t, p)
    ensures r.Some? ==> r.value.Keys == t.Keys + {p}
    ensures r.Some? ==> r.value[p] == File(ContentOr(t, p) + data)
    ensures r.Some? && IsFile(t, p) ==> r.value[p].content[..|t[p].content|] == t[p].content
    ensures r.Some? ==> forall q :: q != p ==> SameAt(t, r.value, q)
  {
    Put(t, p, ContentOr(t, p) + data)
  }

  // ---------------------------------------------------------------------
  // Well-formedness

  /** Whatever lies below an ancestor of `q` that is `p` or below `p` lies
      below `p` itself. */
  lemma AncestorBelow(q: Path, k: nat, p: Path)
    requires k < |q|
    ensures q[..k] == p || Under(q[..k], p) ==> Under(q, p)
  {
    if Under(q[..k], p) {
      assert q[..k][..|p|] == q[..|p|];
    }
  }

  /** Removing a directory with everything below it keeps every remaining
      entry's ancestors. */
  lemma DeleteDirectoryKeepsWellFormed(t: Tree, p: Path)
    requires WellFormed(t)
    ensures WellFormed(DeleteDirectory(t, p))
  {
    var u := DeleteDirectory(t, p);
    if IsDirectory(t, p) {
      forall q, k | q in u && 0 < k < |q|
        ensures IsDirectory(u, q[..k])
      {
        assert IsDirectory(t, q[..k]);
        AncestorBelow(q, k, p);
      }
    }
  }

  /** A well-formed tree has nothing below a file, so unlinking one keeps
      it well-formed. */
  lemma DeleteFileKeepsWellFormed(t: Tree, p: Path)
    requires WellFormed(t)
    ensures WellFormed(DeleteFile(t, p))
  {
    var u := DeleteFile(t, p);
    if IsFile(t, p) {
      forall q, k | q in u && 0 < k < |q|
        ensures IsDirectory(u, q[..k])
      {
        assert IsDirectory(t, q[..k]);
        assert q[..k] != p;
      }
    }
  }

  /** Writing a file into an existing directory, over a file or at a fresh
      name, keeps the tree well-formed. */
  lemma PutKeepsWellFormed(t: Tree, p: Path, content: string)
    requires WellFormed(t)
    requires Put(t, p, content).Some?
    ensures WellFormed(Put(t, p, content).value)
  {
    var u := Put(t, p, content).value;
    forall q, k | q in u && 0 < k < |q|
      ensures IsDirectory(u, q[..k])
    {
      if q == p {
        if k < |p| - 1 {
          assert q[..k] == q[..|p| - 1][..k];
          assert IsDirectory(t, q[..k]);
        }
        assert IsDirectory(t, q[..k]);
      } else {
        assert IsDirectory(t, q[..k]);
      }
      assert q[..k] != p;
    }
  }

  /** Rewriting an existing file's content keeps the tree well-formed. */
  lemma ReplaceInFileKeepsWellFormed(t: Tree, p: Path, searches: seq<string>, replace: Replacement)
    requires WellFormed(t)
    requires ReplaceInFile(t, p, searches, replace).Some?
    ensures WellFormed(ReplaceInFile(t, p, searches, replace).value)
  {
    var u := ReplaceInFile(t, p, searches, replace).value;
    forall q, k | q in u && 0 < k < |q|
      ensures IsDirectory(u, q[..k])
    {
      assert IsDirectory(t, q[..k]);
      assert q[..k] != p;
    }
  }
}
