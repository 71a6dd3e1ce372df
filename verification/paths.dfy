/**
  The well-known locations of a Laravel 11 project, as paths below the base
  path. The helpers the commands call (`app_path`, `bootstrapPath`,
  `config_path`, `databasePath`, `public_path`, `resource_path`) answer from
  the application's layout, which a project may relocate; `base_path(...)`
  literals do not move with it.
 */
module Paths {
  import opened FileSystem
  import Text

  /** Where the application's layout helpers point. */
  datatype Layout = Layout(
    app: Path,
    bootstrap: Path,
    config: Path,
    database: Path,
    public: Path,
    resources: Path)

  /** The layout of a freshly generated Laravel 11 project. */
  const Laravel11 := Layout(["app"], ["bootstrap"], ["config"], ["database"], ["public"], ["resources"])

  /** `app()->getBootstrapProvidersPath()`. */
  function ProvidersFile(l: Layout): Path { l.bootstrap + ["providers.php"] }

  /** `app()->bootstrapPath('app.php')`. */
  function AppFile(l: Layout): Path { l.bootstrap + ["app.php"] }

  /** `app_path('Providers/AuthServiceProvider.php')`. */
  function AuthServiceProviderFile(l: Layout): Path { l.app + ["Providers", "AuthServiceProvider.php"] }

  /** `config_path(name)`. */
  function ConfigFile(l: Layout, name: string): Path { l.config + [name] }

  /** `app()->path('Models/User.php')`. */
  function UserModel(l: Layout): Path { l.app + ["Models", "User.php"] }

  const WebRoutes: Path := ["routes", "web.php"]
  /** The line of `bootstrap/app.php` that registers the web routes file;
      both commands take it out. */
  const WebRoutesLine := "        web: __DIR__.'/../routes/web.php'," + Text.Eol
  const ApiRoutes: Path := ["routes", "api.php"]
  const ChannelRoutes: Path := ["routes", "channels.php"]
  const AuthRoutes: Path := ["routes", "auth.php"]
  const ExampleTest: Path := ["tests", "Feature", "ExampleTest.php"]
  const PestConfig: Path := ["tests", "Pest.php"]
  const NodeModules: Path := ["node_modules"]
  const PackageJson: Path := ["package.json"]
  const PackageLock: Path := ["package-lock.json"]
  const ViteConfig: Path := ["vite.config.js"]

  /** The absolute path PHP sees: the base path, a slash, the segments
      joined by slashes. */
  function Absolute(base: string, p: Path): string {
    base + "/" + Text.Join(p, "/")
  }

  /** The fixed paths differ from one another. */
  lemma FixedPathsDistinct()
    ensures WebRoutes != ApiRoutes && WebRoutes != AuthRoutes && ApiRoutes != AuthRoutes
    ensures ExampleTest != AuthRoutes && ExampleTest != ApiRoutes && ExampleTest != WebRoutes
  {
    assert WebRoutes[1][1] != ApiRoutes[1][1];
    assert WebRoutes[1][0] != AuthRoutes[1][0];
    assert ApiRoutes[1][1] != AuthRoutes[1][1];
  }

  /** A path ending in `app.php` is none of the files the API conversion
      writes. */
  lemma AppFileIsNotWritten(l: Layout)
    ensures AppFile(l) != AuthRoutes && AppFile(l) != ApiRoutes && AppFile(l) != ExampleTest
    ensures AppFile(l) != WebRoutes
  {
    var a := AppFile(l);
    assert a[|a| - 1] == "app.php";
    assert "app.php"[1] != "auth.php"[1];
    assert "app.php"[2] != "api.php"[2];
    assert "app.php"[0] != "ExampleTest.php"[0];
    assert "app.php"[0] != "web.php"[0];
  }

  /** The user model is none of the other files the API conversion
      writes. */
  lemma UserModelIsNotWritten(l: Layout)
    ensures UserModel(l) != AppFile(l) && UserModel(l) != AuthRoutes && UserModel(l) != ApiRoutes
    ensures UserModel(l) != ExampleTest
  {
    var u := UserModel(l);
    var a := AppFile(l);
    assert u[|u| - 1] == "User.php" && a[|a| - 1] == "app.php";
    assert "User.php"[0] != "app.php"[0];
    assert "User.php"[0] != "auth.php"[0];
    assert "User.php"[0] != "api.php"[0];
    assert "User.php"[0] != "ExampleTest.php"[0];
  }

  /** The Pest configuration file is neither of the files patched in
      place. */
  lemma PestConfigIsNotPatched(l: Layout)
    ensures PestConfig != AppFile(l) && PestConfig != UserModel(l)
  {
    var u := UserModel(l);
    var a := AppFile(l);
    assert u[|u| - 1] == "User.php" && a[|a| - 1] == "app.php";
    assert "Pest.php"[0] != "User.php"[0];
    assert "Pest.php"[0] != "app.php"[0];
  }
}
