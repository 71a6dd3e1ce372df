/**
  `slim:console` (`SlimConsoleCommand`): turn a fresh Laravel 11 skeleton
  into a console-only project. It checks its own, narrower gate; then removes
  the HTTP layer, the models, the database, the front end and the
  configuration a console application does not need; then patches
  `bootstrap/app.php` and the example feature test.
 */
module SlimConsoleCommand {
  import opened Text
  import opened FileSystem
  import opened Paths
  import opened Preconditions
  import opened Runs

  const BootstrapProviders: Path := ["bootstrap", "providers.php"]
  const BootstrapApp: Path := ["bootstrap", "app.php"]
  const DatabaseDir: Path := ["database"]

  // ---------------------------------------------------------------------
  // The gate

  /** The rules of `SlimConsoleCommand::check`, in the order it checks
      them. */
  function ConsoleRules(l: Layout): seq<Rule> {
    [ MustExist(BootstrapProviders),
      MustMention(ConfigureMarker),
      MustBeMissing(AuthServiceProviderFile(l)),
      MustExist(WebRoutes),
      MustExist(DatabaseDir),
      MustExist(l.public),
      MustExist(l.resources) ]
  }

  /** The project is a fresh skeleton, as the console conversion
      understands it. */
  predicate ConsoleEligible(l: Layout, t: Tree) {
    && Exists(t, BootstrapProviders)
    && IsFile(t, BootstrapApp)
    && Contains(t[BootstrapApp].content, ConfigureMarker)
    && Missing(t, AuthServiceProviderFile(l))
    && Exists(t, WebRoutes)
    && Exists(t, DatabaseDir)
    && Exists(t, l.public)
    && Exists(t, l.resources)
  }

  /** `SlimConsoleCommand::check`: `Some(true)` exactly for a project the
      console conversion accepts; it raises only when the providers file
      exists but `bootstrap/app.php` is not a file. */
  function ConsoleCheck(l: Layout, t: Tree): (r: Option<bool>)
    ensures r == Some(true) <==> ConsoleEligible(l, t)
    ensures r.None? <==> Exists(t, BootstrapProviders) && !IsFile(t, BootstrapApp)
    ensures Missing(t, BootstrapProviders) ==> r == Some(false)
  {
    var rules := ConsoleRules(l);
    var bootstrap := Get(t, BootstrapApp);
    if bootstrap.Some? then
      EvaluateIsConjunction(rules, t, bootstrap.value);
      ConsoleRulesMeanEligible(l, t);
      Evaluate(rules, t, bootstrap)
    else
      var tail := rules[1..];
      assert |tail| > 0 && tail[0] == MustMention(ConfigureMarker);
      assert Evaluate(tail, t, bootstrap) == None;
      Evaluate(rules, t, bootstrap)
  }

  /** The seven rules say, one by one, what `ConsoleEligible` says. */
  lemma ConsoleRulesMeanEligible(l: Layout, t: Tree)
    requires IsFile(t, BootstrapApp)
    ensures AllHold(ConsoleRules(l), t, t[BootstrapApp].content) <==> ConsoleEligible(l, t)
  {
    var rs := ConsoleRules(l);
    var s := t[BootstrapApp].content;
    if ConsoleEligible(l, t) {
      forall i | 0 <= i < |rs| ensures Holds(rs[i], t, s) {
        assert i in {0, 1, 2, 3, 4, 5, 6};
      }
    }
    if AllHold(rs, t, s) {
      assert Holds(rs[0], t, s) && Holds(rs[1], t, s) && Holds(rs[2], t, s);
      assert Holds(rs[3], t, s) && Holds(rs[4], t, s) && Holds(rs[5], t, s);
      assert Holds(rs[6], t, s);
    }
  }

  /** Every console rule is one of the API gate's rules once the bootstrap
      directory and `databasePath()` are in their default places, so a
      project the API gate accepts passes the console gate too. */
  lemma ApiGateImpliesConsoleGate(l: Layout, t: Tree)
    requires l.bootstrap == ["bootstrap"] && l.database == DatabaseDir
    ensures Check(l, t) == Some(true) ==> ConsoleCheck(l, t) == Some(true)
  {
    var api := ApiRules(l);
    var console := ConsoleRules(l);
    assert AppFile(l) == BootstrapApp && ProvidersFile(l) == BootstrapProviders;
    assert console[0] == api[0] && console[1] == api[1] && console[2] == api[5];
    assert console[3] == api[6] && console[4] == api[10] && console[5] == api[11];
    assert console[6] == api[12];
    forall r | r in console ensures r in api {
      var i :| 0 <= i < |console| && console[i] == r;
      assert i in {0, 1, 2, 3, 4, 5, 6};
    }
    if Check(l, t) == Some(true) {
      var s := t[AppFile(l)].content;
      ApiRulesMeanEligible(l, t);
      HoldsForMembers(api, console, t, s);
      ConsoleRulesMeanEligible(l, t);
    }
  }

  /** A skeleton that has already been through `install:api`: every
      console condition holds, and `routes/api.php` exists. */
  const ApiInstalled: Tree := map[
    BootstrapProviders := File(""),
    BootstrapApp := File(ConfigureMarker),
    WebRoutes := File(""),
    ApiRoutes := File(""),
    DatabaseDir := Dir,
    ["public"] := Dir,
    ["resources"] := Dir]

  lemma ApiInstalledPassesConsoleGate()
    ensures ConsoleCheck(Laravel11, ApiInstalled) == Some(true)
  {
    var t := ApiInstalled;
    assert OccursAt(ConfigureMarker, ConfigureMarker, 0);
    assert |AuthServiceProviderFile(Laravel11)| == 3;
    assert ConsoleEligible(Laravel11, t);
  }

  lemma ApiInstalledFailsSharedGate()
    ensures Check(Laravel11, ApiInstalled) == Some(false)
  {
    var t := ApiInstalled;
    assert AppFile(Laravel11) == BootstrapApp;
    assert Exists(t, ApiRoutes) && IsFile(t, BootstrapApp);
    var c := Check(Laravel11, t);
    assert c.Some? && c != Some(true);
    assert !c.value && c == Some(c.value);
  }

  /** The converse fails: the console gate lets through a project that
      already has `routes/api.php`, which the shared gate rejects. */
  lemma ConsoleGateIsNarrower()
    ensures exists t :: ConsoleCheck(Laravel11, t) == Some(true) && Check(Laravel11, t) == Some(false)
  {
    ApiInstalledPassesConsoleGate();
    ApiInstalledFailsSharedGate();
  }

  // ---------------------------------------------------------------------
  // Deletions

  /** Removed with `File::deleteDirectory`, in this order. */
  function DirectoryTargets(l: Layout): seq<Path> {
    [l.app + ["Http"], l.app + ["Models"], DatabaseDir, l.public, l.resources, NodeModules]
  }

  /** Removed with `File::delete`, in this order. */
  function FileTargets(l: Layout): seq<Path> {
    [ ConfigFile(l, "auth.php"), ConfigFile(l, "database.php"), ConfigFile(l, "mail.php"),
      ConfigFile(l, "queue.php"), ConfigFile(l, "session.php"),
      WebRoutes, PackageJson, ViteConfig ]
  }

  /** `File::deleteDirectory` on each path in turn. */
  function DeleteDirectories(t: Tree, ps: seq<Path>): (u: Tree)
    ensures forall i :: 0 <= i < |ps| ==> !IsDirectory(u, ps[i])
    ensures Shrunk(t, u)
    ensures forall q :: Untouched(q, ps) ==> SameAt(t, u, q)
    decreases |ps|
  {
    if |ps| == 0 then t
    else
      var first := DeleteDirectory(t, ps[0]);
      assert forall i :: 1 <= i < |ps| ==> ps[i] == ps[1..][i - 1];
      assert forall q :: Untouched(q, ps) ==> Untouched(q, ps[1..]);
      DeleteDirectories(first, ps[1..])
  }

  /** `File::delete` on each path in turn. */
  function DeleteFiles(t: Tree, ps: seq<Path>): (u: Tree)
    ensures forall i :: 0 <= i < |ps| ==> !IsFile(u, ps[i])
    ensures Shrunk(t, u)
    ensures forall q :: q !in ps ==> SameAt(t, u, q)
    decreases |ps|
  {
    if |ps| == 0 then t
    else
      var first := DeleteFile(t, ps[0]);
      assert forall i :: 1 <= i < |ps| ==> ps[i] == ps[1..][i - 1];
      assert forall q :: q in ps[1..] ==> q in ps;
      DeleteFiles(first, ps[1..])
  }

  /** Lines 40-55 of the command: the directories, then the files. */
  function RemoveScaffolding(l: Layout, t: Tree): (u: Tree)
    ensures forall i :: 0 <= i < |DirectoryTargets(l)| ==> !IsDirectory(u, DirectoryTargets(l)[i])
    ensures forall i :: 0 <= i < |FileTargets(l)| ==> !IsFile(u, FileTargets(l)[i])
    ensures Shrunk(t, u)
    ensures forall q :: Untouched(q, DirectoryTargets(l)) && q !in FileTargets(l) ==> SameAt(t, u, q)
  {
    DeleteFiles(DeleteDirectories(t, DirectoryTargets(l)), FileTargets(l))
  }

  lemma {:induction false} DeleteDirectoriesKeepsWellFormed(t: Tree, ps: seq<Path>)
    requires WellFormed(t)
    ensures WellFormed(DeleteDirectories(t, ps))
    decreases |ps|
  {
    if |ps| > 0 {
      DeleteDirectoryKeepsWellFormed(t, ps[0]);
      DeleteDirectoriesKeepsWellFormed(DeleteDirectory(t, ps[0]), ps[1..]);
    }
  }

  lemma {:induction false} DeleteFilesKeepsWellFormed(t: Tree, ps: seq<Path>)
    requires WellFormed(t)
    ensures WellFormed(DeleteFiles(t, ps))
    decreases |ps|
  {
    if |ps| > 0 {
      DeleteFileKeepsWellFormed(t, ps[0]);
      DeleteFilesKeepsWellFormed(DeleteFile(t, ps[0]), ps[1..]);
    }
  }

  // ---------------------------------------------------------------------
  // Patches

  /** The lines `replaceBootstrap` takes out of `bootstrap/app.php`: the
      middleware import, the web and health routes, and the empty
      middleware block. */
  const BootstrapRemovals: seq<string> := [
    "use Illuminate\\Foundation\\Configuration\\Middleware;" + Eol,
    WebRoutesLine,
    "        health: '/up'," + Eol,
    "    ->withMiddleware(function (Middleware $middleware) {\n        //\n    })" + Eol
  ]

  /** `replaceBootstrap`: the four lines are removed one after another, each
      from the result of the previous removal. */
  function ReplaceBootstrap(t: Tree): (r: Option<Tree>)
    ensures r.Some? <==> IsFile(t, BootstrapApp)
    ensures r.Some? ==> r.value.Keys == t.Keys
    ensures r.Some? ==> forall q :: q != BootstrapApp ==> SameAt(t, r.value, q)
    ensures r.Some? ==>
      var s := t[BootstrapApp].content;
      var s1 := Remove(s, BootstrapRemovals[0]);
      var s2 := Remove(s1, BootstrapRemovals[1]);
      var s3 := Remove(s2, BootstrapRemovals[2]);
      r.value[BootstrapApp] == File(Remove(s3, BootstrapRemovals[3]))
    ensures r.Some? ==> |r.value[BootstrapApp].content| <= |t[BootstrapApp].content|
  {
    var r := ReplaceInFile(t, BootstrapApp, BootstrapRemovals, Single(""));
    if r.Some? then
      var s := t[BootstrapApp].content;
      var ss := BootstrapRemovals;
      assert ss[..4] == ss;
      StrReplacePrefix(ss, Single(""), s, 4);
      StrReplacePrefix(ss, Single(""), s, 3);
      StrReplacePrefix(ss, Single(""), s, 2);
      StrReplacePrefix(ss, Single(""), s, 1);
      r
    else r
  }

  /** Each of the four removals acts on the result of the previous ones:
      where its line does not occur the text is unchanged, otherwise it
      shrinks by the line's length once per non-overlapping occurrence. */
  lemma BootstrapRemovalSteps(s: string)
    ensures forall n :: 0 <= n < |BootstrapRemovals| ==>
      var before := StrReplace(BootstrapRemovals[..n], Single(""), s);
      var after := StrReplace(BootstrapRemovals[..n + 1], Single(""), s);
      && |after| == |before| - |BootstrapRemovals[n]| * Count(before, BootstrapRemovals[n])
      && (after == before <==> !Contains(before, BootstrapRemovals[n]))
  {
    forall n | 0 <= n < |BootstrapRemovals|
      ensures var before := StrReplace(BootstrapRemovals[..n], Single(""), s);
        var after := StrReplace(BootstrapRemovals[..n + 1], Single(""), s);
        && |after| == |before| - |BootstrapRemovals[n]| * Count(before, BootstrapRemovals[n])
        && (after == before <==> !Contains(before, BootstrapRemovals[n]))
    {
      RemovalStep(BootstrapRemovals, s, n);
    }
  }

  /** The patch of the example feature test: the request to `/` becomes
      the `inspire` command, the status assertion becomes `assertOk()`. */
  const TestSearches: seq<string> := ["get('/')", "assertStatus(200)"]
  const TestReplacements: seq<string> := ["artisan('inspire')", "assertOk()"]

  /** `replaceExampleTest`: the two replacements are paired by position and
      applied in order. */
  function ReplaceExampleTest(t: Tree): (r: Option<Tree>)
    ensures r.Some? <==> IsFile(t, ExampleTest)
    ensures r.Some? ==> r.value.Keys == t.Keys
    ensures r.Some? ==> forall q :: q != ExampleTest ==> SameAt(t, r.value, q)
    ensures r.Some? ==>
      var s := t[ExampleTest].content;
      r.value[ExampleTest] == File(ReplaceAll(ReplaceAll(s, TestSearches[0], TestReplacements[0]), TestSearches[1], TestReplacements[1]))
  {
    var r := ReplaceInFile(t, ExampleTest, TestSearches, Each(TestReplacements));
    if r.Some? then
      var s := t[ExampleTest].content;
      assert TestSearches[..2] == TestSearches;
      StrReplacePrefix(TestSearches, Each(TestReplacements), s, 2);
      StrReplacePrefix(TestSearches, Each(TestReplacements), s, 1);
      r
    else r
  }

  /** The example test patch, described without `str_replace`: the text is
      cut at every request to `/` and glued back with the `inspire`
      command, then cut at every status assertion and glued back with
      `assertOk()`. */
  lemma ExampleTestPatch(s: string)
    ensures var s1 := Join(Split(s, TestSearches[0]), TestReplacements[0]);
      StrReplace(TestSearches, Each(TestReplacements), s) == Join(Split(s1, TestSearches[1]), TestReplacements[1])
  {
    var s1 := ReplaceAll(s, TestSearches[0], TestReplacements[0]);
    TestPatchInOrder(s);
    ReplaceAllIsJoinOfSplit(s, TestSearches[0], TestReplacements[0]);
    ReplaceAllIsJoinOfSplit(s1, TestSearches[1], TestReplacements[1]);
  }

  /** Each request to `/` grows the example test by ten characters, and
      each status assertion left after that shrinks it by seven. */
  lemma ExampleTestPatchLength(s: string)
    ensures var s1 := ReplaceAll(s, TestSearches[0], TestReplacements[0]);
      && |s1| == |s| + 10 * Count(s, TestSearches[0])
      && |StrReplace(TestSearches, Each(TestReplacements), s)| == |s1| - 7 * Count(s1, TestSearches[1])
  {
    var s1 := ReplaceAll(s, TestSearches[0], TestReplacements[0]);
    TestPatchInOrder(s);
    var c0 := Count(s, TestSearches[0]);
    var c1 := Count(s1, TestSearches[1]);
    assert |s1| == |s| + c0 * (|TestReplacements[0]| - |TestSearches[0]|) by {
      ReplaceAllLength(s, TestSearches[0], TestReplacements[0]);
    }
    assert |ReplaceAll(s1, TestSearches[1], TestReplacements[1])| == |s1| + c1 * (|TestReplacements[1]| - |TestSearches[1]|) by {
      ReplaceAllLength(s1, TestSearches[1], TestReplacements[1]);
    }
    assert |TestReplacements[0]| - |TestSearches[0]| == 10;
    assert |TestReplacements[1]| - |TestSearches[1]| == -7;
  }

  lemma TestPatchInOrder(s: string)
    ensures StrReplace(TestSearches, Each(TestReplacements), s)
         == ReplaceAll(ReplaceAll(s, TestSearches[0], TestReplacements[0]), TestSearches[1], TestReplacements[1])
  {
    assert TestSearches[..2] == TestSearches;
    StrReplacePrefix(TestSearches, Each(TestReplacements), s, 2);
    StrReplacePrefix(TestSearches, Each(TestReplacements), s, 1);
  }

  // ---------------------------------------------------------------------
  // The command

  /** `u` is `s` with `bootstrap/app.php` and the example test, both files
      in `s`, rewritten by the two `str_replace` calls, and nothing else
      changed. */
  ghost predicate Patched(s: Tree, u: Tree) {
    && IsFile(s, BootstrapApp) && IsFile(s, ExampleTest)
    && u.Keys == s.Keys
    && (forall q :: q != BootstrapApp && q != ExampleTest ==> SameAt(s, u, q))
    && u[BootstrapApp] == File(StrReplace(BootstrapRemovals, Single(""), s[BootstrapApp].content))
    && u[ExampleTest] == File(StrReplace(TestSearches, Each(TestReplacements), s[ExampleTest].content))
  }

  /** Everything after the gate: deletions, then the two patches. It fails
      exactly when one of the two patched files is not a file once the
      deletions are done. */
  function Convert(l: Layout, t: Tree): (r: Option<Tree>)
    ensures r.Some? <==> IsFile(RemoveScaffolding(l, t), BootstrapApp) && IsFile(RemoveScaffolding(l, t), ExampleTest)
    ensures r.Some? ==> Patched(RemoveScaffolding(l, t), r.value)
  {
    var t1 := RemoveScaffolding(l, t);
    var t2 :- ReplaceBootstrap(t1);
    ReplaceExampleTest(t2)
  }

  /** Nothing the conversion deletes is left as what it deleted: no
      directory at a directory target, no file at a file target. */
  predicate Removed(l: Layout, u: Tree) {
    && (forall i :: 0 <= i < |DirectoryTargets(l)| ==> !IsDirectory(u, DirectoryTargets(l)[i]))
    && (forall i :: 0 <= i < |FileTargets(l)| ==> !IsFile(u, FileTargets(l)[i]))
  }

  /** `u` arises from `t` by deletions and by rewriting `bootstrap/app.php`
      and the example test, which are still files. */
  predicate OnlyPatched(t: Tree, u: Tree) {
    && (forall q :: q in u ==> q in t)
    && (forall q :: q in u && q != BootstrapApp && q != ExampleTest ==> u[q] == t[q])
    && IsFile(u, BootstrapApp) && IsFile(u, ExampleTest)
  }

  /** Every path the conversion neither deletes nor patches is as it was. */
  ghost predicate Kept(l: Layout, t: Tree, u: Tree) {
    forall q :: Untouched(q, DirectoryTargets(l)) && q !in FileTargets(l) && q != BootstrapApp && q != ExampleTest
      ==> SameAt(t, u, q)
  }

  /** `SlimConsoleCommand::handle`. An accepted project is converted
      successfully exactly when both patched files survive the deletions. */
  function Handle(l: Layout, t: Tree): (r: Run)
    ensures ConsoleCheck(l, t) == Some(false) ==> r == Exit(1, t, [Rejected])
    ensures ConsoleCheck(l, t).None? ==> r == Crashed
    ensures r.Exit? && r.code == 1 ==> r == Exit(1, t, [Rejected]) && ConsoleCheck(l, t) == Some(false)
    ensures ConsoleCheck(l, t) == Some(true) ==>
      (r.Exit? && r.code == 0 <==> IsFile(RemoveScaffolding(l, t), BootstrapApp) && IsFile(RemoveScaffolding(l, t), ExampleTest))
    ensures r.Exit? ==> r.code == 0 || r.code == 1
    ensures r.Exit? && r.code == 0 ==> ConsoleEligible(l, t) && Removed(l, r.tree) && OnlyPatched(t, r.tree)
    ensures r.Exit? && r.code == 0 ==> Kept(l, t, r.tree) && Patched(RemoveScaffolding(l, t), r.tree)
    ensures r.Exit? && r.code == 0 ==> r.output == [Succeeded]
  {
    match ConsoleCheck(l, t)
    case None => Crashed
    case Some(ok) =>
      if !ok then Exit(1, t, [Rejected])
      else
        match Convert(l, t)
        case None => Crashed
        case Some(u) =>
          ConvertKeepsRemovals(l, t);
          Exit(0, u, [Succeeded])
  }

  lemma ConvertKeepsRemovals(l: Layout, t: Tree)
    requires Convert(l, t).Some?
    ensures Removed(l, Convert(l, t).value) && OnlyPatched(t, Convert(l, t).value)
    ensures Kept(l, t, Convert(l, t).value)
  {
    var t1 := RemoveScaffolding(l, t);
    var u := Convert(l, t).value;
    assert Patched(t1, u);
    forall i | 0 <= i < |DirectoryTargets(l)| ensures !IsDirectory(u, DirectoryTargets(l)[i]) {
      var p := DirectoryTargets(l)[i];
      assert !IsDirectory(t1, p);
      assert p == BootstrapApp || p == ExampleTest || SameAt(t1, u, p);
    }
    forall i | 0 <= i < |FileTargets(l)| ensures !IsFile(u, FileTargets(l)[i]) {
      var p := FileTargets(l)[i];
      assert !IsFile(t1, p);
      assert p != BootstrapApp && p != ExampleTest;
      assert SameAt(t1, u, p);
    }
  }

  // ---------------------------------------------------------------------
  // Properties of whole runs

  /** A converted project is rejected by a second run: one of the paths the
      console gate requires is gone, and `bootstrap/app.php` is still a
      readable file, so the gate answers `false` rather than raising. The
      web routes file is gone when it was a file, as in the skeleton; the
      database, public and resources paths are gone when they were
      directories. */
  lemma RerunRejected(l: Layout, t: Tree)
    requires Handle(l, t).Exit? && Handle(l, t).code == 0
    requires !IsDirectory(t, WebRoutes) || IsDirectory(t, DatabaseDir) || IsDirectory(t, l.public) || IsDirectory(t, l.resources)
    ensures ConsoleCheck(l, Handle(l, t).tree) == Some(false)
    ensures Handle(l, Handle(l, t).tree) == Exit(1, Handle(l, t).tree, [Rejected])
  {
    var u := Handle(l, t).tree;
    assert OnlyPatched(t, u);
    if !IsDirectory(t, WebRoutes) {
      assert FileTargets(l)[5] == WebRoutes;
      assert !IsFile(u, WebRoutes);
      assert Missing(u, WebRoutes);
    } else if IsDirectory(t, DatabaseDir) {
      assert DirectoryTargets(l)[2] == DatabaseDir;
      assert Missing(u, DatabaseDir);
    } else if IsDirectory(t, l.public) {
      assert DirectoryTargets(l)[3] == l.public;
      assert Missing(u, l.public);
    } else {
      assert DirectoryTargets(l)[4] == l.resources;
      assert Missing(u, l.resources);
    }
    assert IsFile(u, BootstrapApp) && !ConsoleEligible(l, u);
    var c := ConsoleCheck(l, u);
    assert c.Some? && c != Some(true);
    assert !c.value && c == Some(c.value);
  }

  /** In the default layout neither patched file is a deletion target or
      lies below one. */
  lemma PatchedFilesSurviveDeletions(t: Tree)
    ensures SameAt(t, RemoveScaffolding(Laravel11, t), BootstrapApp)
    ensures SameAt(t, RemoveScaffolding(Laravel11, t), ExampleTest)
  {
    var dirs := DirectoryTargets(Laravel11);
    var files := FileTargets(Laravel11);
    assert "bootstrap"[0] != "resources"[0];
    forall i | 0 <= i < |dirs| ensures BootstrapApp != dirs[i] && !Under(BootstrapApp, dirs[i]) {
      assert BootstrapApp[0] != dirs[i][0];
    }
    forall i | 0 <= i < |dirs| ensures ExampleTest != dirs[i] && !Under(ExampleTest, dirs[i]) {
      assert ExampleTest[0] != dirs[i][0];
    }
    forall i | 0 <= i < |files| ensures BootstrapApp != files[i] && ExampleTest != files[i] {
      assert BootstrapApp[0] != files[i][0] && ExampleTest[0] != files[i][0];
    }
  }

  /** The skeleton run: a project the gate accepts, in the default layout
      and with the example test in place, is converted successfully, and
      its public and resources directories and web routes file are gone. */
  lemma SkeletonConverts(t: Tree)
    requires ConsoleEligible(Laravel11, t) && IsFile(t, ExampleTest)
    requires IsDirectory(t, ["public"]) && IsDirectory(t, ["resources"]) && IsFile(t, WebRoutes)
    ensures Handle(Laravel11, t).Exit? && Handle(Laravel11, t).code == 0
    ensures Missing(Handle(Laravel11, t).tree, ["public"]) && Missing(Handle(Laravel11, t).tree, ["resources"])
    ensures Missing(Handle(Laravel11, t).tree, WebRoutes)
  {
    PatchedFilesSurviveDeletions(t);
    var u := Handle(Laravel11, t).tree;
    assert DirectoryTargets(Laravel11)[3] == ["public"] && DirectoryTargets(Laravel11)[4] == ["resources"];
    assert FileTargets(Laravel11)[5] == WebRoutes;
    assert OnlyPatched(t, u);
  }

  /** A conversion keeps a well-formed project well-formed. */
  lemma ConversionKeepsWellFormed(l: Layout, t: Tree)
    requires WellFormed(t)
    requires Handle(l, t).Exit?
    ensures WellFormed(Handle(l, t).tree)
  {
    if Handle(l, t).code == 0 {
      var t0 := DeleteDirectories(t, DirectoryTargets(l));
      DeleteDirectoriesKeepsWellFormed(t, DirectoryTargets(l));
      DeleteFilesKeepsWellFormed(t0, FileTargets(l));
      var t1 := RemoveScaffolding(l, t);
      var t2 := ReplaceBootstrap(t1).value;
      ReplaceInFileKeepsWellFormed(t1, BootstrapApp, BootstrapRemovals, Single(""));
      ReplaceInFileKeepsWellFormed(t2, ExampleTest, TestSearches, Each(TestReplacements));
    }
  }

  /** In a well-formed skeleton whose directory targets are not files and
      whose file targets are not directories, a successful conversion leaves
      every target absent and nothing below a directory target. */
  lemma ConversionRemovesTargets(l: Layout, t: Tree)
    requires WellFormed(t) && |l.public| > 0 && |l.resources| > 0
    requires forall i :: 0 <= i < |DirectoryTargets(l)| ==> !IsFile(t, DirectoryTargets(l)[i])
    requires forall i :: 0 <= i < |FileTargets(l)| ==> !IsDirectory(t, FileTargets(l)[i])
    requires Handle(l, t).Exit? && Handle(l, t).code == 0
    ensures forall i :: 0 <= i < |DirectoryTargets(l)| ==> Missing(Handle(l, t).tree, DirectoryTargets(l)[i])
    ensures forall i :: 0 <= i < |FileTargets(l)| ==> Missing(Handle(l, t).tree, FileTargets(l)[i])
    ensures forall i, q :: 0 <= i < |DirectoryTargets(l)| && Under(q, DirectoryTargets(l)[i]) ==> Missing(Handle(l, t).tree, q)
  {
    var u := Handle(l, t).tree;
    ConversionKeepsWellFormed(l, t);
    forall i | 0 <= i < |DirectoryTargets(l)| ensures Missing(u, DirectoryTargets(l)[i]) {
      var p := DirectoryTargets(l)[i];
    }
    forall i | 0 <= i < |FileTargets(l)| ensures Missing(u, FileTargets(l)[i]) {
      var p := FileTargets(l)[i];
    }
    forall i, q | 0 <= i < |DirectoryTargets(l)| && Under(q, DirectoryTargets(l)[i])
      ensures Missing(u, q)
    {
      var p := DirectoryTargets(l)[i];
      assert |p| > 0;
      assert q[..|p|] == p;
    }
  }
}
