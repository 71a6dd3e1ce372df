/**
  `WithDelete::delete`: remove a path whatever it is (a directory with
  everything below it, or a single file), skip it silently when it is not
  there, and report each real deletion with one `Deleted <path>` line.
 */
module WithDelete {
  import opened Text
  import opened FileSystem
  import opened Paths
  import opened Runs

  /** The reported line: the absolute path with every occurrence of the base
      path and its trailing slash taken out (`Str::remove`), after the word
      `Deleted` (the terminal colour tags are not modelled). */
  function DeletedLine(base: string, p: Path): (line: string)
    ensures "Deleted " <= line
    ensures |line| <= |"Deleted "| + |Absolute(base, p)|
  {
    "Deleted " + Remove(Absolute(base, p), base + "/")
  }

  /** `WithDelete::delete`. */
  function Delete(base: string, t: Tree, p: Path): (d: Outcome)
    ensures Missing(t, p) ==> d == Outcome(t, [])
    ensures Exists(t, p) ==> d.output == [DeletedLine(base, p)]
    ensures Missing(d.tree, p)
    ensures Shrunk(t, d.tree)
    ensures forall q :: q != p && !Under(q, p) ==> SameAt(t, d.tree, q)
    ensures IsDirectory(t, p) ==> forall q :: Under(q, p) ==> Missing(d.tree, q)
    ensures IsFile(t, p) ==> d.tree == t - {p}
  {
    if Missing(t, p) then Outcome(t, [])
    else if IsDirectory(t, p) then Outcome(DeleteDirectory(t, p), [DeletedLine(base, p)])
    else Outcome(DeleteFile(t, p), [DeletedLine(base, p)])
  }

  /** Deleting a second time changes nothing and reports nothing. */
  lemma DeleteTwice(base: string, t: Tree, p: Path)
    ensures Delete(base, Delete(base, t, p).tree, p) == Outcome(Delete(base, t, p).tree, [])
  {
  }

  /** In a well-formed tree the path and everything below it are gone
      afterwards, whether it was a file or a directory, and the tree stays
      well-formed. */
  lemma DeleteRemovesSubtree(base: string, t: Tree, p: Path)
    requires WellFormed(t) && |p| > 0
    ensures forall q :: q == p || Under(q, p) ==> Missing(Delete(base, t, p).tree, q)
    ensures WellFormed(Delete(base, t, p).tree)
  {
    var u := Delete(base, t, p).tree;
    forall q | Under(q, p) ensures Missing(u, q) {
      assert q in t ==> IsDirectory(t, q[..|p|]);
    }
    if IsDirectory(t, p) {
      DeleteDirectoryKeepsWellFormed(t, p);
    } else {
      DeleteFileKeepsWellFormed(t, p);
    }
  }

  /** Whatever the path, deleting it keeps a well-formed tree well-formed. */
  lemma DeleteKeepsWellFormed(base: string, t: Tree, p: Path)
    requires WellFormed(t)
    ensures WellFormed(Delete(base, t, p).tree)
  {
    if IsDirectory(t, p) {
      DeleteDirectoryKeepsWellFormed(t, p);
    } else {
      DeleteFileKeepsWellFormed(t, p);
    }
  }

  lemma {:induction false} DeleteAllKeepsWellFormed(base: string, t: Tree, ps: seq<Path>)
    requires WellFormed(t)
    ensures WellFormed(DeleteAll(base, t, ps).tree)
    decreases |ps|
  {
    if |ps| > 0 {
      DeleteKeepsWellFormed(base, t, ps[0]);
      DeleteAllKeepsWellFormed(base, Delete(base, t, ps[0]).tree, ps[1..]);
    }
  }

  /** `delete` applied to each path in turn, the reported lines in order. */
  function DeleteAll(base: string, t: Tree, ps: seq<Path>): (d: Outcome)
    ensures forall i :: 0 <= i < |ps| ==> Missing(d.tree, ps[i])
    ensures Shrunk(t, d.tree)
    ensures forall q :: Untouched(q, ps) ==> SameAt(t, d.tree, q)
    ensures |d.output| <= |ps|
    ensures forall k :: 0 <= k < |d.output| ==> exists i :: 0 <= i < |ps| && d.output[k] == DeletedLine(base, ps[i])
    decreases |ps|
  {
    if |ps| == 0 then Outcome(t, [])
    else
      var first := Delete(base, t, ps[0]);
      var rest := DeleteAll(base, first.tree, ps[1..]);
      assert forall i :: 1 <= i < |ps| ==> ps[i] == ps[1..][i - 1];
      assert forall q :: Untouched(q, ps) ==> Untouched(q, ps[1..]);
      var d := Outcome(rest.tree, first.output + rest.output);
      assert forall k :: |first.output| <= k < |d.output| ==> d.output[k] == rest.output[k - |first.output|];
      d
  }

  /** A first target that exists is reported first, and every target that
      is still there when its turn comes, because no earlier target was it
      or lay above it, is reported. */
  lemma {:induction false} DeleteAllReportsPresent(base: string, t: Tree, ps: seq<Path>)
    ensures |ps| > 0 && Exists(t, ps[0]) ==>
      |DeleteAll(base, t, ps).output| > 0 && DeleteAll(base, t, ps).output[0] == DeletedLine(base, ps[0])
    ensures forall i :: 0 <= i < |ps| && Exists(t, ps[i]) && Untouched(ps[i], ps[..i]) ==>
      DeletedLine(base, ps[i]) in DeleteAll(base, t, ps).output
    decreases |ps|
  {
    if |ps| > 0 {
      var first := Delete(base, t, ps[0]);
      var rest := DeleteAll(base, first.tree, ps[1..]);
      assert DeleteAll(base, t, ps).output == first.output + rest.output;
      DeleteAllReportsPresent(base, first.tree, ps[1..]);
      forall i | 0 <= i < |ps| && Exists(t, ps[i]) && Untouched(ps[i], ps[..i])
        ensures DeletedLine(base, ps[i]) in first.output + rest.output
      {
        if i > 0 {
          UntouchedInTail(ps, i);
          assert Exists(first.tree, ps[i]);
        }
      }
    }
  }

  /** `idx` picks, for each reported line in turn, the target it names:
      the picks rise strictly, so the lines come in target order, and each
      picked target was there to begin with. */
  ghost predicate ReportedTargets(base: string, t: Tree, ps: seq<Path>, output: seq<string>, idx: seq<nat>) {
    && |idx| == |output|
    && (forall k :: 0 <= k < |idx| ==> idx[k] < |ps| && Exists(t, ps[idx[k]]) && output[k] == DeletedLine(base, ps[idx[k]]))
    && (forall k :: 0 < k < |idx| ==> idx[k - 1] < idx[k])
  }

  /** The reported lines follow the order of the targets, each target
      reported at most once and only if it existed. */
  lemma {:induction false} DeleteAllReportsInOrder(base: string, t: Tree, ps: seq<Path>)
    ensures exists idx :: ReportedTargets(base, t, ps, DeleteAll(base, t, ps).output, idx)
    decreases |ps|
  {
    if |ps| == 0 {
      assert ReportedTargets(base, t, ps, DeleteAll(base, t, ps).output, []);
    } else {
      var first := Delete(base, t, ps[0]);
      var rest := DeleteAll(base, first.tree, ps[1..]);
      assert DeleteAll(base, t, ps).output == first.output + rest.output;
      DeleteAllReportsInOrder(base, first.tree, ps[1..]);
      var later :| ReportedTargets(base, first.tree, ps[1..], rest.output, later);
      var shifted := ShiftIndexes(later);
      ShiftedReported(base, t, first.tree, ps, rest.output, later, shifted);
      if Missing(t, ps[0]) {
        assert first.output + rest.output == rest.output;
        assert ReportedTargets(base, t, ps, DeleteAll(base, t, ps).output, shifted);
      } else {
        var idx := [0] + shifted;
        PrependFirst(base, t, ps, rest.output, shifted);
        assert ReportedTargets(base, t, ps, DeleteAll(base, t, ps).output, idx);
      }
    }
  }

  /** Indexes into a tail, as indexes into the whole sequence. */
  function ShiftIndexes(idx: seq<nat>): (shifted: seq<nat>)
    ensures |shifted| == |idx|
    ensures forall k :: 0 <= k < |idx| ==> shifted[k] == idx[k] + 1
  {
    seq(|idx|, k requires 0 <= k < |idx| => idx[k] + 1)
  }

  lemma ShiftedReported(base: string, t: Tree, t1: Tree, ps: seq<Path>, output: seq<string>, idx: seq<nat>, shifted: seq<nat>)
    requires |ps| > 0 && Shrunk(t, t1)
    requires ReportedTargets(base, t1, ps[1..], output, idx)
    requires |shifted| == |idx| && forall k :: 0 <= k < |idx| ==> shifted[k] == idx[k] + 1
    ensures ReportedTargets(base, t, ps, output, shifted)
    ensures forall k :: 0 <= k < |shifted| ==> 0 < shifted[k]
  {
    forall k | 0 <= k < |idx|
      ensures shifted[k] < |ps| && Exists(t, ps[shifted[k]]) && output[k] == DeletedLine(base, ps[shifted[k]])
    {
      assert ps[1..][idx[k]] == ps[shifted[k]];
    }
  }

  lemma PrependFirst(base: string, t: Tree, ps: seq<Path>, output: seq<string>, shifted: seq<nat>)
    requires |ps| > 0 && Exists(t, ps[0])
    requires ReportedTargets(base, t, ps, output, shifted)
    requires forall k :: 0 <= k < |shifted| ==> 0 < shifted[k]
    ensures ReportedTargets(base, t, ps, [DeletedLine(base, ps[0])] + output, [0] + shifted)
  {
    var idx, out := [0] + shifted, [DeletedLine(base, ps[0])] + output;
    assert forall k :: 0 < k < |idx| ==> idx[k] == shifted[k - 1] && out[k] == output[k - 1];
  }

  /** A target untouched by the ones before it is not the first one, is not
      below it, and is untouched by the others before it. */
  lemma UntouchedInTail(ps: seq<Path>, i: nat)
    requires 0 < i < |ps| && Untouched(ps[i], ps[..i])
    ensures ps[i] != ps[0] && !Under(ps[i], ps[0])
    ensures ps[1..][i - 1] == ps[i] && Untouched(ps[1..][i - 1], ps[1..][..i - 1])
  {
    assert ps[..i][0] == ps[0];
    var before, others := ps[..i], ps[1..][..i - 1];
    assert forall j :: 0 <= j < |others| ==> others[j] == before[j + 1];
  }

  /** Deleting paths that are all absent changes nothing and reports
      nothing. */
  lemma {:induction false} DeleteAllOfAbsent(base: string, t: Tree, ps: seq<Path>)
    requires forall i :: 0 <= i < |ps| ==> Missing(t, ps[i])
    ensures DeleteAll(base, t, ps) == Outcome(t, [])
    decreases |ps|
  {
    if |ps| > 0 {
      assert Missing(t, ps[0]);
      assert forall i :: 0 <= i < |ps[1..]| ==> ps[1..][i] == ps[i + 1];
      DeleteAllOfAbsent(base, t, ps[1..]);
    }
  }

  /** Running the same deletions twice leaves the tree of the first run and
      reports nothing the second time. */
  lemma DeleteAllTwice(base: string, t: Tree, ps: seq<Path>)
    ensures DeleteAll(base, DeleteAll(base, t, ps).tree, ps) == Outcome(DeleteAll(base, t, ps).tree, [])
  {
    DeleteAllOfAbsent(base, DeleteAll(base, t, ps).tree, ps);
  }

  /** When the relative path does not itself contain the base path and a
      slash, the line shows exactly the path relative to the project. */
  lemma DeletedLineShowsRelativePath(base: string, p: Path)
    requires !Contains(Join(p, "/"), base + "/")
    ensures DeletedLine(base, p) == "Deleted " + Join(p, "/")
  {
    var m := base + "/";
    var rel := Join(p, "/");
    var s := Absolute(base, p);
    assert s == m + rel;
    assert s[..|m|] == m;
    assert s[|m|..] == rel;
    ReplaceAllWithoutMatch(rel, m, "");
  }

  /** `Str::remove` strips every occurrence, not only the leading one: for a
      project at the filesystem root the base path is empty, and both
      slashes of a two-segment path disappear from the line. */
  lemma DeletedLineAtFilesystemRoot(dir: string, name: string)
    requires forall i :: 0 <= i < |dir| ==> dir[i] != '/'
    requires forall i :: 0 <= i < |name| ==> name[i] != '/'
    ensures DeletedLine("", [dir, name]) == "Deleted " + dir + name
  {
    var s := Absolute("", [dir, name]);
    assert [dir, name][1..] == [name];
    assert Join([dir, name], "/") == dir + "/" + name;
    assert s == "/" + (dir + "/" + name);
    assert s[..1] == "/";
    assert s[1..] == dir + "/" + name;
    RemoveAround(dir, name);
    RemoveSlashes(name);
  }

  /** The web routes file of a project at the filesystem root is reported
      as `Deleted routesweb.php`. */
  lemma WebRoutesLineAtFilesystemRoot()
    ensures DeletedLine("", WebRoutes) == "Deleted routesweb.php"
  {
    DeletedLineAtFilesystemRoot("routes", "web.php");
  }

  lemma {:induction false} RemoveSlashes(s: string)
    requires forall i :: 0 <= i < |s| ==> s[i] != '/'
    ensures Remove(s, "/") == s
  {
    forall i | 0 <= i <= |s| - 1 ensures !OccursAt(s, "/", i) {
      assert s[i..i + 1][0] == s[i];
    }
    ReplaceAllWithoutMatch(s, "/", "");
  }

  lemma {:induction false} RemoveAround(a: string, b: string)
    requires forall i :: 0 <= i < |a| ==> a[i] != '/'
    ensures Remove(a + "/" + b, "/") == a + Remove(b, "/")
    decreases |a|
  {
    var s := a + "/" + b;
    if |a| == 0 {
      assert s[..1] == "/";
      assert s[1..] == b;
    } else {
      assert s[..1] != "/" by { assert s[..1][0] == a[0]; }
      assert s[1..] == a[1..] + "/" + b;
      RemoveAround(a[1..], b);
      assert [s[0]] + (a[1..] + Remove(b, "/")) == a + Remove(b, "/");
    }
  }
}
