/**
  `slim:api` (`SlimApiCommand`): turn a fresh Laravel 11 skeleton into an
  API-only project. After the shared gate it lets `install:api` and
  `migrate` run, deletes the front end, gives the user model Sanctum's
  tokens, drops the web routes from `bootstrap/app.php`, swaps in an API
  example test (unless the project uses Pest) and installs the
  authentication routes.
 */
module SlimApiCommand {
  import opened Text
  import opened FileSystem
  import opened Paths
  import opened Preconditions
  import opened WithDelete
  import opened Runs

  /** The two files the package ships: `stubs/api/auth.php` and
      `stubs/api/ExampleTest.php`. */
  datatype Stubs = Stubs(authRoutes: string, exampleTest: string)

  /** Removed with `delete`, in this order. */
  function DeletionTargets(l: Layout): seq<Path> {
    [l.resources, NodeModules, WebRoutes, PackageJson, PackageLock, ViteConfig]
  }

  // ---------------------------------------------------------------------
  // The user model

  const NotifiableImport := "use Illuminate\\Notifications\\Notifiable;" + Eol
  const TokensImport := "use Laravel\\Sanctum\\HasApiTokens;" + Eol
  const FactoryTraits := "use HasFactory, Notifiable;" + Eol
  const TokenTraits := "use HasApiTokens, HasFactory, Notifiable;" + Eol

  /** What `TokenTraits` adds to `FactoryTraits`. */
  const TokensTrait := "HasApiTokens, "

  const UserSearches: seq<string> := [NotifiableImport, FactoryTraits]
  const UserReplacements: seq<string> := [NotifiableImport + TokensImport, TokenTraits]

  /** `replaceUser`: the Sanctum import is put after every Notifiable
      import, then every trait line gains `HasApiTokens`. */
  function ReplaceUser(l: Layout, t: Tree): (r: Option<Tree>)
    ensures r.Some? <==> IsFile(t, UserModel(l))
    ensures r.Some? ==> r.value.Keys == t.Keys
    ensures r.Some? ==> forall q :: q != UserModel(l) ==> SameAt(t, r.value, q)
    ensures r.Some? ==> r.value[UserModel(l)] == File(PatchUser(t[UserModel(l)].content))
  {
    var r := ReplaceInFile(t, UserModel(l), UserSearches, Each(UserReplacements));
    if r.Some? then
      var s := t[UserModel(l)].content;
      assert UserSearches[..2] == UserSearches;
      StrReplacePrefix(UserSearches, Each(UserReplacements), s, 2);
      StrReplacePrefix(UserSearches, Each(UserReplacements), s, 1);
      r
    else r
  }

  /** The two replacements of `replaceUser`, paired by position and made
      one after the other. */
  function PatchUser(s: string): string {
    ReplaceAll(ReplaceAll(s, NotifiableImport, NotifiableImport + TokensImport), FactoryTraits, TokenTraits)
  }

  /** What the patch does, stated without `str_replace`: the text is cut at
      every Notifiable import, which is put back followed by the Sanctum
      import; the result is cut at every trait line, which is put back with
      the extra trait. The file grows by one Sanctum import per Notifiable
      import and by `HasApiTokens, ` per trait line, and a file with
      neither line is left as it was. */
  lemma PatchUserInserts(s: string)
    ensures var s1 := Join(Split(s, NotifiableImport), NotifiableImport + TokensImport);
      PatchUser(s) == Join(Split(s1, FactoryTraits), TokenTraits)
    ensures var s1 := ReplaceAll(s, NotifiableImport, NotifiableImport + TokensImport);
      |PatchUser(s)| == |s| + Count(s, NotifiableImport) * |TokensImport| + Count(s1, FactoryTraits) * |TokensTrait|
    ensures !Contains(s, NotifiableImport) && !Contains(s, FactoryTraits) ==> PatchUser(s) == s
  {
    var s1 := ReplaceAll(s, NotifiableImport, NotifiableImport + TokensImport);
    InsertAfterEach(s, NotifiableImport, TokensImport);
    ReplaceAllIsJoinOfSplit(s1, FactoryTraits, TokenTraits);
    ReplaceAllLength(s1, FactoryTraits, TokenTraits);
    assert |TokenTraits| - |FactoryTraits| == |TokensTrait|;
    ReplaceAllWithoutMatch(s, NotifiableImport, NotifiableImport + TokensImport);
    ReplaceAllWithoutMatch(s1, FactoryTraits, TokenTraits);
  }

  // ---------------------------------------------------------------------
  // The bootstrap file


  /** `replaceBootstrap`: every web routes line is taken out of
      `bootstrap/app.php`; the file shrinks by one line length per
      occurrence and is unchanged exactly when it has none. */
  function ReplaceBootstrap(l: Layout, t: Tree): (r: Option<Tree>)
    ensures r.Some? <==> IsFile(t, AppFile(l))
    ensures r.Some? ==> r.value.Keys == t.Keys
    ensures r.Some? ==> forall q :: q != AppFile(l) ==> SameAt(t, r.value, q)
    ensures r.Some? ==> IsFile(r.value, AppFile(l))
    ensures r.Some? ==>
      var s := t[AppFile(l)].content;
      var s' := r.value[AppFile(l)].content;
      && s' == Remove(s, WebRoutesLine)
      && |s'| == |s| - |WebRoutesLine| * Count(s, WebRoutesLine)
      && (s' == s <==> !Contains(s, WebRoutesLine))
  {
    var r := ReplaceInFile(t, AppFile(l), [WebRoutesLine], Single(""));
    if r.Some? then
      var s := t[AppFile(l)].content;
      StrReplacePrefix([WebRoutesLine], Single(""), s, 1);
      assert [WebRoutesLine][..0] == [];
      RemoveLength(s, WebRoutesLine);
      r
    else r
  }

  // ---------------------------------------------------------------------
  // The example test

  /** Printed instead of replacing the test in a Pest project. */
  const SkipPest := "SKIP : Using Pest"

  /** `replaceExampleTest`: a Pest project keeps its test; otherwise the
      example feature test is overwritten with the stub. */
  function ReplaceExampleTest(t: Tree, stub: string): (r: Option<Tree>)
    ensures Exists(t, PestConfig) ==> r == Some(t)
    ensures Missing(t, PestConfig) ==>
      (r.Some? <==> !IsDirectory(t, ExampleTest) && IsDirectory(t, ExampleTest[..2]))
    ensures r.Some? ==> r.value.Keys <= t.Keys + {ExampleTest}
    ensures r.Some? ==> forall q :: q != ExampleTest ==> SameAt(t, r.value, q)
    ensures r.Some? && Missing(t, PestConfig) ==> IsFile(r.value, ExampleTest) && r.value[ExampleTest] == File(stub)
  {
    if Exists(t, PestConfig) then Some(t)
    else Put(t, ExampleTest, stub)
  }

  // ---------------------------------------------------------------------
  // Authentication routes

  /** What `auth` appends to `routes/api.php`. */
  const RequireAuth := Eol + "require __DIR__.'/auth.php';" + Eol

  const RoutesDir: Path := ["routes"]

  /** `auth`: the stub becomes `routes/auth.php`, and `routes/api.php`
      (created when missing) ends by requiring it; both raise unless the
      `routes` directory exists and neither path is a directory. */
  function Auth(t: Tree, stub: string): (r: Option<Tree>)
    ensures r.Some? <==> IsDirectory(t, RoutesDir) && !IsDirectory(t, AuthRoutes) && !IsDirectory(t, ApiRoutes)
    ensures r.Some? ==> r.value.Keys == t.Keys + {AuthRoutes, ApiRoutes}
    ensures r.Some? ==> forall q :: q != AuthRoutes && q != ApiRoutes ==> SameAt(t, r.value, q)
    ensures r.Some? ==> r.value[AuthRoutes] == File(stub)
    ensures r.Some? ==> r.value[ApiRoutes] == File(ContentOr(t, ApiRoutes) + RequireAuth)
    ensures r.Some? ==> EndsWith(r.value[ApiRoutes].content, RequireAuth)
  {
    FixedPathsDistinct();
    assert AuthRoutes[..1] == RoutesDir && ApiRoutes[..1] == RoutesDir;
    var t1 :- Put(t, AuthRoutes, stub);
    assert ContentOr(t1, ApiRoutes) == ContentOr(t, ApiRoutes);
    Append(t1, ApiRoutes, RequireAuth)
  }

  // ---------------------------------------------------------------------
  // The command

  /** The lines printed before each patch. */
  const ReplaceUserLine := "Replace app/Models/User.php"
  const ReplaceBootstrapLine := "Replace bootstrap/app.php"
  const ReplaceTestLine := "Replace tests/Feature/ExampleTest.php"

  /** The tree a successful conversion leaves: the authentication routes
      in place and required from the API routes, the bootstrap file still
      readable, and the deleted files of the front end gone. */
  predicate Converted(l: Layout, stubs: Stubs, u: Tree) {
    && IsFile(u, AuthRoutes) && u[AuthRoutes].content == stubs.authRoutes
    && IsFile(u, ApiRoutes) && EndsWith(u[ApiRoutes].content, RequireAuth)
    && IsFile(u, AppFile(l))
    && (forall i :: 1 <= i < |DeletionTargets(l)| ==> Missing(u, DeletionTargets(l)[i]))
    && (l.resources != ExampleTest && l.resources != AuthRoutes && l.resources != ApiRoutes ==> Missing(u, l.resources))
  }

  /** A path one of the four patches writes. */
  predicate Written(l: Layout, q: Path) {
    q == UserModel(l) || q == AppFile(l) || q == ExampleTest || q == AuthRoutes || q == ApiRoutes
  }

  /** None of the four patches raises: the user model and the bootstrap
      file are files, the example test can be written (its directory exists
      and it is not a directory) unless Pest is in use, the `routes`
      directory exists, and neither route file is a directory. */
  predicate Patchable(l: Layout, t: Tree) {
    && IsFile(t, UserModel(l)) && IsFile(t, AppFile(l))
    && (Missing(t, PestConfig) ==> !IsDirectory(t, ExampleTest) && IsDirectory(t, ExampleTest[..2]))
    && IsDirectory(t, RoutesDir) && !IsDirectory(t, AuthRoutes) && !IsDirectory(t, ApiRoutes)
  }

  /** `u` is `t` after the four patches: the user model and the bootstrap
      file patched, the example test replaced by the stub unless Pest is in
      use (and left alone otherwise), the authentication routes written and
      required at the end of the API routes, and every other path as it
      was. */
  ghost predicate PatchedFrom(l: Layout, stubs: Stubs, t: Tree, u: Tree) {
    && t.Keys <= u.Keys <= t.Keys + {ExampleTest, AuthRoutes, ApiRoutes}
    && (forall q :: !Written(l, q) ==> SameAt(t, u, q))
    && IsFile(t, UserModel(l)) && UserModel(l) in u
    && u[UserModel(l)] == File(PatchUser(t[UserModel(l)].content))
    && IsFile(t, AppFile(l)) && AppFile(l) in u
    && u[AppFile(l)] == File(Remove(t[AppFile(l)].content, WebRoutesLine))
    && (Exists(t, PestConfig) ==> SameAt(t, u, ExampleTest))
    && (Missing(t, PestConfig) ==> ExampleTest in u && u[ExampleTest] == File(stubs.exampleTest))
    && AuthRoutes in u && u[AuthRoutes] == File(stubs.authRoutes)
    && ApiRoutes in u && u[ApiRoutes] == File(ContentOr(t, ApiRoutes) + RequireAuth)
  }

  /** The four patches, in order: `replaceUser`, `replaceBootstrap`,
      `replaceExampleTest`, `auth`. */
  function Patch(l: Layout, t: Tree, stubs: Stubs): (r: Option<Tree>)
    ensures r.Some? <==> Patchable(l, t)
    ensures r.Some? ==> PatchedFrom(l, stubs, t, r.value)
  {
    FixedPathsDistinct();
    AppFileIsNotWritten(l);
    UserModelIsNotWritten(l);
    var t1 :- ReplaceUser(l, t);
    RewriteKeepsKinds(t, t1, UserModel(l));
    PatchableKeptByKinds(l, t, t1);
    var t2 :- ReplaceBootstrap(l, t1);
    RewriteKeepsKinds(t1, t2, AppFile(l));
    PatchableKeptByKinds(l, t1, t2);
    var t3 :- ReplaceExampleTest(t2, stubs.exampleTest);
    assert RoutesDir != ExampleTest;
    var u :- Auth(t3, stubs.authRoutes);
    PatchSteps(l, stubs, t, t1, t2, t3, u);
    Some(u)
  }

  /** Every path holds the same kind of node in both trees. */
  ghost predicate SameKinds(t: Tree, u: Tree) {
    t.Keys == u.Keys && forall q :: q in t ==> (t[q].Dir? <==> u[q].Dir?)
  }

  /** Rewriting one file's content changes no path's kind. */
  lemma RewriteKeepsKinds(t: Tree, u: Tree, p: Path)
    requires u.Keys == t.Keys && IsFile(t, p) && p in u && u[p].File?
    requires forall q :: q != p ==> SameAt(t, u, q)
    ensures SameKinds(t, u)
  {
    forall q | q in t ensures t[q].Dir? <==> u[q].Dir? {
      if q != p {
        assert SameAt(t, u, q);
      }
    }
  }

  /** Whether the patches can run depends only on the kinds of nodes. */
  lemma PatchableKeptByKinds(l: Layout, t: Tree, u: Tree)
    requires SameKinds(t, u)
    ensures Patchable(l, t) <==> Patchable(l, u)
  {
    forall q ensures (IsFile(t, q) <==> IsFile(u, q)) && (IsDirectory(t, q) <==> IsDirectory(u, q)) {
      if q in t {
        assert t[q].Dir? <==> u[q].Dir?;
      }
    }
  }

  /** What the four steps together do. */
  lemma PatchSteps(l: Layout, stubs: Stubs, t: Tree, t1: Tree, t2: Tree, t3: Tree, u: Tree)
    requires ReplaceUser(l, t) == Some(t1)
    requires ReplaceBootstrap(l, t1) == Some(t2)
    requires ReplaceExampleTest(t2, stubs.exampleTest) == Some(t3)
    requires Auth(t3, stubs.authRoutes) == Some(u)
    ensures PatchedFrom(l, stubs, t, u)
  {
    RewriteSteps(l, t, t1, t2);
    WriteSteps(stubs, t2, t3, u);
    ComposeSteps(l, stubs, t, t2, u);
  }

  /** Two rewrites followed by three writes to other paths. */
  lemma ComposeSteps(l: Layout, stubs: Stubs, t: Tree, t2: Tree, u: Tree)
    requires t2.Keys == t.Keys
    requires forall q :: q != UserModel(l) && q != AppFile(l) ==> SameAt(t, t2, q)
    requires IsFile(t, UserModel(l)) && t2[UserModel(l)] == File(PatchUser(t[UserModel(l)].content))
    requires IsFile(t, AppFile(l)) && t2[AppFile(l)] == File(Remove(t[AppFile(l)].content, WebRoutesLine))
    requires t2.Keys <= u.Keys <= t2.Keys + {ExampleTest, AuthRoutes, ApiRoutes}
    requires forall q :: q != ExampleTest && q != AuthRoutes && q != ApiRoutes ==> SameAt(t2, u, q)
    requires Exists(t2, PestConfig) ==> SameAt(t2, u, ExampleTest)
    requires Missing(t2, PestConfig) ==> ExampleTest in u && u[ExampleTest] == File(stubs.exampleTest)
    requires AuthRoutes in u && u[AuthRoutes] == File(stubs.authRoutes)
    requires ApiRoutes in u && u[ApiRoutes] == File(ContentOr(t2, ApiRoutes) + RequireAuth)
    ensures PatchedFrom(l, stubs, t, u)
  {
    FixedPathsDistinct();
    AppFileIsNotWritten(l);
    UserModelIsNotWritten(l);
    PestConfigIsNotPatched(l);
    assert SameAt(t2, u, UserModel(l)) && SameAt(t2, u, AppFile(l));
    assert SameAt(t, t2, ApiRoutes) && SameAt(t, t2, PestConfig) && SameAt(t, t2, ExampleTest);
    assert t.Keys <= u.Keys <= t.Keys + {ExampleTest, AuthRoutes, ApiRoutes};
    forall q | !Written(l, q) ensures SameAt(t, u, q) {
      assert SameAt(t, t2, q) && SameAt(t2, u, q);
    }
    assert u[UserModel(l)] == File(PatchUser(t[UserModel(l)].content));
    assert u[AppFile(l)] == File(Remove(t[AppFile(l)].content, WebRoutesLine));
    assert Exists(t, PestConfig) ==> SameAt(t, u, ExampleTest);
    assert Missing(t, PestConfig) ==> ExampleTest in u && u[ExampleTest] == File(stubs.exampleTest);
    assert u[ApiRoutes] == File(ContentOr(t, ApiRoutes) + RequireAuth);
  }

  /** The two rewrites: the user model and the bootstrap file patched in
      place, nothing else changed. */
  lemma RewriteSteps(l: Layout, t: Tree, t1: Tree, t2: Tree)
    requires ReplaceUser(l, t) == Some(t1)
    requires ReplaceBootstrap(l, t1) == Some(t2)
    ensures t2.Keys == t.Keys
    ensures forall q :: q != UserModel(l) && q != AppFile(l) ==> SameAt(t, t2, q)
    ensures IsFile(t, UserModel(l)) && t2[UserModel(l)] == File(PatchUser(t[UserModel(l)].content))
    ensures IsFile(t, AppFile(l)) && t2[AppFile(l)] == File(Remove(t[AppFile(l)].content, WebRoutesLine))
  {
    UserModelIsNotWritten(l);
    assert SameAt(t1, t2, UserModel(l));
    assert SameAt(t, t1, AppFile(l));
  }

  /** The three writes: the example test unless Pest is in use, then the
      authentication routes and the line requiring them. */
  lemma WriteSteps(stubs: Stubs, t2: Tree, t3: Tree, u: Tree)
    requires ReplaceExampleTest(t2, stubs.exampleTest) == Some(t3)
    requires Auth(t3, stubs.authRoutes) == Some(u)
    ensures t2.Keys <= u.Keys <= t2.Keys + {ExampleTest, AuthRoutes, ApiRoutes}
    ensures forall q :: q != ExampleTest && q != AuthRoutes && q != ApiRoutes ==> SameAt(t2, u, q)
    ensures Exists(t2, PestConfig) ==> SameAt(t2, u, ExampleTest)
    ensures Missing(t2, PestConfig) ==> ExampleTest in u && u[ExampleTest] == File(stubs.exampleTest)
    ensures AuthRoutes in u && u[AuthRoutes] == File(stubs.authRoutes)
    ensures ApiRoutes in u && u[ApiRoutes] == File(ContentOr(t2, ApiRoutes) + RequireAuth)
  {
    FixedPathsDistinct();
    assert SameAt(t3, u, ExampleTest);
    assert ContentOr(t3, ApiRoutes) == ContentOr(t2, ApiRoutes) by {
      assert SameAt(t2, t3, ApiRoutes);
    }
  }

  /** What a successful conversion of `t` (the tree `install:api` and
      `migrate` leave) does: the deletions, then the four patches on what
      the deletions leave; every path neither deleted nor written is as it
      was in `t`; the output reports each deletion, each patch, the Pest
      skip exactly when Pest is in use, and success. */
  ghost predicate Conversion(l: Layout, base: string, t: Tree, stubs: Stubs, o: Outcome) {
    var d := DeleteAll(base, t, DeletionTargets(l));
    && PatchedFrom(l, stubs, d.tree, o.tree)
    && (forall q :: Untouched(q, DeletionTargets(l)) && !Written(l, q) ==> SameAt(t, o.tree, q))
    && o.output == d.output + [ReplaceUserLine, ReplaceBootstrapLine, ReplaceTestLine]
                 + (if Exists(d.tree, PestConfig) then [SkipPest] else []) + [Succeeded]
  }

  /** Everything after `install:api` and `migrate`, applied to the tree they
      leave. It fails exactly when a patch raises on what the deletions
      leave. */
  function Convert(l: Layout, base: string, t: Tree, stubs: Stubs): (r: Option<Outcome>)
    ensures r.Some? <==> Patchable(l, DeleteAll(base, t, DeletionTargets(l)).tree)
    ensures r.Some? ==> Converted(l, stubs, r.value.tree)
    ensures r.Some? ==> Conversion(l, base, t, stubs, r.value)
  {
    var d := DeleteAll(base, t, DeletionTargets(l));
    var u :- Patch(l, d.tree, stubs);
    var skip := if Exists(d.tree, PestConfig) then [SkipPest] else [];
    PatchConverts(l, stubs, d.tree, u);
    Some(Outcome(u, d.output + [ReplaceUserLine, ReplaceBootstrapLine, ReplaceTestLine] + skip + [Succeeded]))
  }

  /** Patching a tree from which every deletion target is gone gives a
      converted tree: the patches write none of the targets except, in an
      unusual layout, the resources directory. */
  lemma PatchConverts(l: Layout, stubs: Stubs, t: Tree, u: Tree)
    requires forall i :: 0 <= i < |DeletionTargets(l)| ==> Missing(t, DeletionTargets(l)[i])
    requires PatchedFrom(l, stubs, t, u)
    ensures Converted(l, stubs, u)
  {
    FixedPathsDistinct();
    var c := ContentOr(t, ApiRoutes);
    assert u[ApiRoutes].content == c + RequireAuth;
    assert (c + RequireAuth)[|c|..] == RequireAuth;
    forall i | 1 <= i < |DeletionTargets(l)| ensures Missing(u, DeletionTargets(l)[i]) {
      var p := DeletionTargets(l)[i];
      assert p != ExampleTest && p != AuthRoutes && p != ApiRoutes;
    }
    assert Missing(t, DeletionTargets(l)[0]);
  }

  /** `SlimApiCommand::handle`. `install:api` and `migrate` are the
      `external` step: whatever they do to the project is taken as given.
      The gate runs before them, so a rejected project is left untouched. */
  function Handle(l: Layout, base: string, t: Tree, external: Tree -> Tree, stubs: Stubs): (r: Run)
    ensures Check(l, t) == Some(false) ==> r == Exit(1, t, [Rejected])
    ensures Check(l, t).None? ==> r == Crashed
    ensures r.Exit? && r.code == 1 ==> r == Exit(1, t, [Rejected]) && Check(l, t) == Some(false)
    ensures Check(l, t) == Some(true) ==>
      (r.Exit? && r.code == 0 <==> Patchable(l, DeleteAll(base, external(t), DeletionTargets(l)).tree))
    ensures r.Exit? ==> r.code == 0 || r.code == 1
    ensures r.Exit? && r.code == 0 ==> Eligible(l, t) && Converted(l, stubs, r.tree)
    ensures r.Exit? && r.code == 0 ==> Conversion(l, base, external(t), stubs, Outcome(r.tree, r.output))
    ensures r.Exit? && r.code == 0 ==> |r.output| > 0 && r.output[|r.output| - 1] == Succeeded
  {
    match Check(l, t)
    case None => Crashed
    case Some(ok) =>
      if !ok then Exit(1, t, [Rejected])
      else
        match Convert(l, base, external(t), stubs)
        case None => Crashed
        case Some(o) => Exit(0, o.tree, o.output)
  }

  // ---------------------------------------------------------------------
  // Properties of whole runs

  /** A converted project (what every successful run leaves, by `Handle`)
      is rejected by a second run, whatever `install:api` would do then:
      `routes/api.php` now exists, and the bootstrap file is still a
      readable file, so the gate answers `false` rather than raising,
      before anything else happens. */
  lemma RerunRejected(l: Layout, stubs: Stubs, u: Tree, base: string, external: Tree -> Tree, stubs': Stubs)
    requires Converted(l, stubs, u)
    ensures Check(l, u) == Some(false)
    ensures Handle(l, base, u, external, stubs') == Exit(1, u, [Rejected])
  {
    assert !Eligible(l, u);
    var c := Check(l, u);
    assert c.Some? && c != Some(true);
    assert !c.value && c == Some(c.value);
  }

  /** Starting from a well-formed tree (after `install:api` and `migrate`),
      the conversion keeps it well-formed. */
  lemma ConvertKeepsWellFormed(l: Layout, base: string, t: Tree, stubs: Stubs)
    requires WellFormed(t)
    ensures Convert(l, base, t, stubs).Some? ==> WellFormed(Convert(l, base, t, stubs).value.tree)
  {
    var d := DeleteAll(base, t, DeletionTargets(l));
    DeleteAllKeepsWellFormed(base, t, DeletionTargets(l));
    PatchKeepsWellFormed(l, d.tree, stubs);
  }

  lemma PatchKeepsWellFormed(l: Layout, t: Tree, stubs: Stubs)
    requires WellFormed(t)
    ensures Patch(l, t, stubs).Some? ==> WellFormed(Patch(l, t, stubs).value)
  {
    if Patch(l, t, stubs).None? {
      return;
    }
    var t1 := ReplaceUser(l, t).value;
    ReplaceInFileKeepsWellFormed(t, UserModel(l), UserSearches, Each(UserReplacements));
    var t2 := ReplaceBootstrap(l, t1).value;
    ReplaceInFileKeepsWellFormed(t1, AppFile(l), [WebRoutesLine], Single(""));
    var t3 := ReplaceExampleTest(t2, stubs.exampleTest).value;
    if Missing(t2, PestConfig) {
      PutKeepsWellFormed(t2, ExampleTest, stubs.exampleTest);
    }
    var t4 := Put(t3, AuthRoutes, stubs.authRoutes).value;
    PutKeepsWellFormed(t3, AuthRoutes, stubs.authRoutes);
    PutKeepsWellFormed(t4, ApiRoutes, ContentOr(t4, ApiRoutes) + RequireAuth);
  }

  /** When the project's resources directory is none of the files
      the conversion writes, nothing below it survives either. */
  lemma ResourcesGone(l: Layout, base: string, t: Tree, stubs: Stubs)
    requires WellFormed(t) && |l.resources| > 0
    requires l.resources != ExampleTest && l.resources != AuthRoutes && l.resources != ApiRoutes
    ensures Convert(l, base, t, stubs).Some? ==>
      forall q :: Under(q, l.resources) ==> Missing(Convert(l, base, t, stubs).value.tree, q)
  {
    if Convert(l, base, t, stubs).None? {
      return;
    }
    var u := Convert(l, base, t, stubs).value.tree;
    ConvertKeepsWellFormed(l, base, t, stubs);
    forall q | Under(q, l.resources) ensures Missing(u, q) {
      assert q[..|l.resources|] == l.resources;
    }
  }
}
