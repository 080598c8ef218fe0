/**
 * App definitions (src/app.rs): the definition record, the runner chain that turns
 * an `@name` binary into the parts of the app it runs on, the app name derived
 * from a definition's path, and the quoting of arguments for display.
 */
module Apps {
  import opened Wrappers
  import opened Strings
  import opened Errors
  import opened Utils
  import opened Launch

  datatype Meta = Meta(name: Option<string>, description: Option<string>, version: Option<string>)

  datatype Exec = Exec(bin: string, args: seq<string>)

  datatype App = App(meta: Option<Meta>, exec: Exec, env: Option<map<string, string>>)

  /** What a runner lookup depends on besides the app: the launcher, the terminal,
      the reading and parsing of a definition file (an arrow from a path to the
      app it holds or the error reading it gives), and the alias-step bound of the
      finder. */
  datatype Context = Context(launcher: Launcher, term: Terminal, load: string -> Result<App>, aliasFuel: nat)

  /** `load_app`: find the query's definition file, then read it. */
  ghost function LoadApp(ctx: Context, query: string): Outcome<App> {
    match FindApp(ctx.launcher, ctx.term, query, ctx.aliasFuel)
    case Success(path) => (match ctx.load(path) case Ok(app) => Success(app) case Err(e) => Failure(e))
    case Failure(e) => Failure(e)
    case OutOfFuel => OutOfFuel
  }

  /** The binary names another app to run on. */
  predicate IsRunnerBin(bin: string) {
    StartsWith(bin, "@")
  }

  /** The runner's resolved parts, with this app's layer on top. */
  function Layer(parts: ResolvedParts, app: App): ResolvedParts {
    ResolvedParts(
      parts.bin,
      if parts.args != [] then Sandwich(parts.args, app.exec.args) else app.exec.args,
      parts.env + app.env.GetOr(map[]))
  }

  /** The second half of `resolve_recursive`, on the `parts` it holds: the
      arguments are replaced, then the environment is extended in place. */
  method LayerParts(parts: ResolvedParts, app: App) returns (r: ResolvedParts)
    ensures r == Layer(parts, app)
  {
    r := parts;
    if r.args != [] {
      var merged := SandwichArgs(r.args, app.exec.args);
      r := r.(args := merged);
    } else {
      r := r.(args := app.exec.args);
    }
    if app.env.Some? {
      r := r.(env := r.env + app.env.value);
    }
  }

  /** `resolve_recursive`, with the lookup of a runner by name given as
      `loadApp` (`ResolveApp` passes `LoadApp`). `fuel` bounds the number of
      runners followed: the source recurses without bound, and an app can be its
      own runner. */
  ghost function ResolveRecursive(app: App, loadApp: string -> Outcome<App>, fuel: nat): Outcome<ResolvedParts>
    decreases fuel
  {
    var bin := app.exec.bin;
    var base :=
      if !IsRunnerBin(bin) then Success(ResolvedParts(bin, [], map[]))
      else if |bin| < 2 then Failure(InvalidApp("", Some("app name cannot be empty!")))
      else if fuel == 0 then OutOfFuel
      else match loadApp(bin[1..])
        case Success(runner) => ResolveRecursive(runner, loadApp, fuel - 1)
        case Failure(e) => Failure(e)
        case OutOfFuel => OutOfFuel;
    LayerOutcome(base, app)
  }

  /** The app's own arguments and environment laid over a resolved base; failures
      pass through. */
  function LayerOutcome(base: Outcome<ResolvedParts>, app: App): (r: Outcome<ResolvedParts>)
    ensures r.OutOfFuel? <==> base.OutOfFuel?
    ensures r.Failure? <==> base.Failure?
    ensures r.Failure? ==> r.error == base.error
    ensures r.Success? ==> r.value.bin == base.value.bin
  {
    match base
    case Success(parts) => Success(Layer(parts, app))
    case Failure(e) => Failure(e)
    case OutOfFuel => OutOfFuel
  }

  /** One step of the runner chain: the app layered over its runner's resolution. */
  lemma RunnerStep(app: App, loadApp: string -> Outcome<App>, fuel: nat)
    requires IsRunnerBin(app.exec.bin) && |app.exec.bin| >= 2 && fuel > 0
    requires loadApp(app.exec.bin[1..]).Success?
    ensures ResolveRecursive(app, loadApp, fuel)
      == LayerOutcome(ResolveRecursive(loadApp(app.exec.bin[1..]).value, loadApp, fuel - 1), app)
  {
  }

  /** The resolution `launch_app` asks for: runners are found by `load_app`. */
  ghost function ResolveApp(app: App, ctx: Context, fuel: nat): Outcome<ResolvedParts> {
    ResolveRecursive(app, q => LoadApp(ctx, q), fuel)
  }

  /** A loaded app is the content of the definition file of an app the finder
      reports; loading fails only as finding or reading fails. */
  lemma LoadAppOutcomes(ctx: Context, query: string)
    ensures LoadApp(ctx, query).Success? ==>
      exists n :: n in ctx.launcher.apps && ctx.load(ctx.launcher.apps[n]) == Ok(LoadApp(ctx, query).value)
    ensures LoadApp(ctx, query).Failure? ==>
      var found := FindApp(ctx.launcher, ctx.term, query, ctx.aliasFuel);
      (found.Failure? && LoadApp(ctx, query).error == found.error)
      || (found.Success? && ctx.load(found.value) == Err(LoadApp(ctx, query).error))
    ensures LoadApp(ctx, query).OutOfFuel? <==> FindApp(ctx.launcher, ctx.term, query, ctx.aliasFuel).OutOfFuel?
  {
    FindAppOutcomes(ctx.launcher, ctx.term, Normalise, query, [], ctx.aliasFuel);
  }

  /** Either branch of the argument rule is the merge: merging into no arguments
      gives the child's arguments as they are. */
  lemma LayerArgs(parts: ResolvedParts, app: App)
    ensures Layer(parts, app).args == Sandwich(parts.args, app.exec.args)
    ensures parts.args == [] ==> Layer(parts, app).args == app.exec.args
  {
    if parts.args == [] {
      SandwichWithoutMarker(parts.args, app.exec.args);
    }
  }

  /** The app's own variables win over the runner's; the runner's other variables
      survive; nothing else appears. */
  lemma LayerEnv(parts: ResolvedParts, app: App)
    ensures Layer(parts, app).env.Keys == parts.env.Keys + app.env.GetOr(map[]).Keys
    ensures forall k :: k in app.env.GetOr(map[]) ==> Layer(parts, app).env[k] == app.env.GetOr(map[])[k]
    ensures forall k :: k in parts.env && k !in app.env.GetOr(map[]) ==> Layer(parts, app).env[k] == parts.env[k]
    ensures Layer(parts, app).bin == parts.bin
  {
  }

  /** A binary without `@` is the base case: that binary, the app's own arguments
      and the app's own variables (none when it has no table). */
  lemma LiteralBin(app: App, loadApp: string -> Outcome<App>, fuel: nat)
    requires !IsRunnerBin(app.exec.bin)
    ensures ResolveRecursive(app, loadApp, fuel)
      == Success(ResolvedParts(app.exec.bin, app.exec.args, app.env.GetOr(map[])))
  {
    assert map[] + app.env.GetOr(map[]) == app.env.GetOr(map[]);
  }

  /** The binary `@` alone names no app. */
  lemma EmptyRunnerName(app: App, loadApp: string -> Outcome<App>, fuel: nat)
    requires app.exec.bin == "@"
    ensures ResolveRecursive(app, loadApp, fuel) == Failure(InvalidApp("", Some("app name cannot be empty!")))
  {
    assert IsRunnerBin(app.exec.bin);
  }

  /** `@name` resolves the app `name` finds (aliases included) and layers this app
      on it; a failure to find, read or resolve the runner is returned as it is. */
  lemma RunnerBin(app: App, loadApp: string -> Outcome<App>, fuel: nat)
    requires IsRunnerBin(app.exec.bin) && |app.exec.bin| >= 2 && fuel > 0
    ensures var loaded := loadApp(app.exec.bin[1..]);
      && (loaded.Failure? ==> ResolveRecursive(app, loadApp, fuel) == Failure(loaded.error))
      && (loaded.OutOfFuel? ==> ResolveRecursive(app, loadApp, fuel) == OutOfFuel)
      && (loaded.Success? ==>
            var inner := ResolveRecursive(loaded.value, loadApp, fuel - 1);
            && (inner.Success? ==> ResolveRecursive(app, loadApp, fuel) == Success(Layer(inner.value, app)))
            && (inner.Failure? ==> ResolveRecursive(app, loadApp, fuel) == Failure(inner.error))
            && (inner.OutOfFuel? ==> ResolveRecursive(app, loadApp, fuel) == OutOfFuel))
  {
  }

  /** The last app of the runner chain from `app`: the first app reached whose
      binary is not a runner, or none when a runner name is empty, a runner
      cannot be loaded, or the bound runs out first. */
  ghost function ChainEnd(app: App, loadApp: string -> Outcome<App>, fuel: nat): Option<App>
    decreases fuel
  {
    var bin := app.exec.bin;
    if !IsRunnerBin(bin) then Some(app)
    else if |bin| < 2 || fuel == 0 then None
    else match loadApp(bin[1..])
      case Success(runner) => ChainEnd(runner, loadApp, fuel - 1)
      case _ => None
  }

  /** A chain resolves exactly when it reaches an app that is not a runner, and
      the resolved binary is that app's binary, which does not start with `@`. */
  lemma {:induction false} ResolvedBinIsLiteral(app: App, loadApp: string -> Outcome<App>, fuel: nat)
    ensures ResolveRecursive(app, loadApp, fuel).Success? <==> ChainEnd(app, loadApp, fuel).Some?
    ensures ResolveRecursive(app, loadApp, fuel).Success? ==>
      && ResolveRecursive(app, loadApp, fuel).value.bin == ChainEnd(app, loadApp, fuel).value.exec.bin
      && !IsRunnerBin(ResolveRecursive(app, loadApp, fuel).value.bin)
    decreases fuel
  {
    var bin := app.exec.bin;
    if !IsRunnerBin(bin) {
      LiteralBin(app, loadApp, fuel);
    } else if |bin| >= 2 && fuel > 0 && loadApp(bin[1..]).Success? {
      var runner := loadApp(bin[1..]).value;
      RunnerStep(app, loadApp, fuel);
      ResolvedBinIsLiteral(runner, loadApp, fuel - 1);
    }
  }

  /** Two runners deep: an app on `@b` whose runner runs on `@c`, a literal app.
      The binary is `c`'s, the arguments are `c`'s with `b`'s merged in and then
      this app's merged into that, and the variables of the nearer app win. */
  lemma TwoRunners(app: App, b: App, c: App, loadApp: string -> Outcome<App>, fuel: nat)
    requires IsRunnerBin(app.exec.bin) && |app.exec.bin| >= 2 && loadApp(app.exec.bin[1..]) == Success(b)
    requires IsRunnerBin(b.exec.bin) && |b.exec.bin| >= 2 && loadApp(b.exec.bin[1..]) == Success(c)
    requires !IsRunnerBin(c.exec.bin) && fuel >= 2
    ensures ResolveRecursive(app, loadApp, fuel) == Success(ResolvedParts(
      c.exec.bin,
      Sandwich(Sandwich(c.exec.args, b.exec.args), app.exec.args),
      c.env.GetOr(map[]) + b.env.GetOr(map[]) + app.env.GetOr(map[])))
  {
    LiteralBin(c, loadApp, fuel - 2);
    RunnerStep(b, loadApp, fuel - 1);
    RunnerStep(app, loadApp, fuel);
    var pc := ResolvedParts(c.exec.bin, c.exec.args, c.env.GetOr(map[]));
    LayerArgs(pc, b);
    LayerArgs(Layer(pc, b), app);
  }

  /** More fuel changes nothing once the chain has been resolved. */
  lemma {:induction false} ResolveFuel(app: App, loadApp: string -> Outcome<App>, fuel: nat, more: nat)
    requires fuel <= more
    requires ResolveRecursive(app, loadApp, fuel) != OutOfFuel
    ensures ResolveRecursive(app, loadApp, more) == ResolveRecursive(app, loadApp, fuel)
    decreases fuel, 1
  {
    var bin := app.exec.bin;
    if IsRunnerBin(bin) && |bin| >= 2 && fuel > 0 && loadApp(bin[1..]).Success? {
      RunnerFuel(app, loadApp(bin[1..]).value, loadApp, fuel, more);
    } else {
      FuelUnused(app, loadApp, fuel, more);
    }
  }

  /** The inductive step of `ResolveFuel`: the runner keeps its resolution with more
      fuel, and so does the app layered over it. */
  lemma {:induction false} RunnerFuel(app: App, runner: App, loadApp: string -> Outcome<App>, fuel: nat, more: nat)
    requires fuel <= more
    requires IsRunnerBin(app.exec.bin) && |app.exec.bin| >= 2 && fuel > 0 && loadApp(app.exec.bin[1..]) == Success(runner)
    requires ResolveRecursive(app, loadApp, fuel) != OutOfFuel
    ensures ResolveRecursive(app, loadApp, more) == ResolveRecursive(app, loadApp, fuel)
    decreases fuel, 0
  {
    RunnerFuelled(app, runner, loadApp, fuel);
    ResolveFuel(runner, loadApp, fuel - 1, more - 1);
    FuelStep(app, runner, loadApp, fuel, more);
  }

  /** A chain that does not run out past a runner step does not run out at the
      runner either. */
  lemma RunnerFuelled(app: App, runner: App, loadApp: string -> Outcome<App>, fuel: nat)
    requires IsRunnerBin(app.exec.bin) && |app.exec.bin| >= 2 && fuel > 0 && loadApp(app.exec.bin[1..]) == Success(runner)
    requires ResolveRecursive(app, loadApp, fuel) != OutOfFuel
    ensures ResolveRecursive(runner, loadApp, fuel - 1) != OutOfFuel
  {
    RunnerStep(app, loadApp, fuel);
  }

  /** A runner step with more fuel gives the same result when the runner's own
      resolution does. */
  lemma FuelStep(app: App, runner: App, loadApp: string -> Outcome<App>, fuel: nat, more: nat)
    requires fuel <= more
    requires IsRunnerBin(app.exec.bin) && |app.exec.bin| >= 2 && fuel > 0 && loadApp(app.exec.bin[1..]) == Success(runner)
    requires ResolveRecursive(runner, loadApp, more - 1) == ResolveRecursive(runner, loadApp, fuel - 1)
    ensures ResolveRecursive(app, loadApp, more) == ResolveRecursive(app, loadApp, fuel)
  {
    RunnerStep(app, loadApp, fuel);
    RunnerStep(app, loadApp, more);
  }

  /** Where no runner is loaded, the bound plays no part beyond being used up. */
  lemma FuelUnused(app: App, loadApp: string -> Outcome<App>, fuel: nat, more: nat)
    requires fuel <= more
    requires ResolveRecursive(app, loadApp, fuel) != OutOfFuel
    requires !(IsRunnerBin(app.exec.bin) && |app.exec.bin| >= 2 && fuel > 0 && loadApp(app.exec.bin[1..]).Success?)
    ensures ResolveRecursive(app, loadApp, more) == ResolveRecursive(app, loadApp, fuel)
  {
  }

  /** An app whose runner name finds the app itself never resolves: every fuel runs
      out. */
  lemma {:induction false} SelfRunner(app: App, loadApp: string -> Outcome<App>, fuel: nat)
    requires IsRunnerBin(app.exec.bin) && |app.exec.bin| >= 2
    requires loadApp(app.exec.bin[1..]) == Success(app)
    ensures ResolveRecursive(app, loadApp, fuel) == OutOfFuel
    decreases fuel
  {
    if fuel > 0 {
      SelfRunner(app, loadApp, fuel - 1);
    }
  }

  /** A runner whose arguments carry `%!` takes the app's arguments there: a runner
      `bin = "x"`, `args = ["-a", "%!", "-z"]` under an app with arguments `own`
      gives `x` with `-a`, `own`, `-z`. */
  lemma RunnerWithMarker(app: App, runner: App, loadApp: string -> Outcome<App>, fuel: nat, own: seq<string>)
    requires IsRunnerBin(app.exec.bin) && |app.exec.bin| >= 2 && fuel > 0
    requires loadApp(app.exec.bin[1..]) == Success(runner)
    requires !IsRunnerBin(runner.exec.bin) && runner.exec.args == ["-a", Marker, "-z"]
    requires app.exec.args == own
    ensures ResolveRecursive(app, loadApp, fuel).Success?
    ensures ResolveRecursive(app, loadApp, fuel).value.bin == runner.exec.bin
    ensures ResolveRecursive(app, loadApp, fuel).value.args == ["-a"] + own + ["-z"]
  {
    LiteralBin(runner, loadApp, fuel - 1);
    var inner := ResolvedParts(runner.exec.bin, runner.exec.args, runner.env.GetOr(map[]));
    SandwichAtMarker(inner.args, own, 1);
    assert inner.args[..1] == ["-a"] && inner.args[2..] == ["-z"];
  }

  // ---------------------------------------------------------------------------
  // App names

  /** The name of the definition at a path relative to the apps directory: one
      trailing `.toml` cut, `\` turned into `/`, and `/` trimmed at both ends. */
  function AppName(relative: string): (r: string)
    ensures '\\' !in r
    ensures r == [] || (r[0] != '/' && r[|r| - 1] != '/')
  {
    var name := if EndsWith(relative, ".toml") then relative[..|relative| - 5] else relative;
    var slashed := Replace(name, '\\', "/");
    TrimByShape(slashed, x => x == '/');
    var r := TrimMatches(slashed, '/');
    r
  }

  /** A clean name is the name of its own definition file. */
  lemma AppNameRoundTrip(name: string)
    requires '\\' !in name
    requires name == [] || (name[0] != '/' && name[|name| - 1] != '/')
    ensures AppName(name + ".toml") == name
  {
    var rel := name + ".toml";
    assert rel[|rel| - 5..] == ".toml";
    assert rel[..|rel| - 5] == name;
    TrimByKeeps(name, x => x == '/');
  }

  /** The registry of the files, each entered under the name `nameOf` gives it;
      a later file with the same name replaces an earlier one. */
  function IndexBy(files: seq<string>, nameOf: string -> string): map<string, string>
    decreases |files|
  {
    if files == [] then map[]
    else
      var last := files[|files| - 1];
      IndexBy(files[..|files| - 1], nameOf)[nameOf(last) := last]
  }

  /** `find_all` over the definition files found, given by their paths relative to
      the apps directory. */
  function Registry(files: seq<string>): map<string, string> {
    IndexBy(files, AppName)
  }

  method FindAll(files: seq<string>) returns (apps: map<string, string>)
    ensures apps == Registry(files)
  {
    apps := map[];
    for i := 0 to |files|
      invariant apps == IndexBy(files[..i], AppName)
    {
      assert files[..i + 1][..i] == files[..i];
      var name := files[i];
      if EndsWith(name, ".toml") {
        name := name[..|name| - 5];
      }
      name := TrimMatches(Replace(name, '\\', "/"), '/');
      apps := apps[name := files[i]];
    }
    assert files[..|files|] == files;
  }

  /** The registry holds exactly the names of the files, and each name maps to the
      last file with that name. */
  lemma RegistryEntries(files: seq<string>)
    ensures forall n :: n in Registry(files) <==> exists i :: 0 <= i < |files| && AppName(files[i]) == n
    ensures forall n :: n in Registry(files) ==>
      exists i :: 0 <= i < |files| && Registry(files)[n] == files[i] && AppName(files[i]) == n
        && forall j :: i < j < |files| ==> AppName(files[j]) != n
  {
    IndexEntries(files, AppName);
  }

  lemma IndexEntries(files: seq<string>, nameOf: string -> string)
    ensures forall n :: n in IndexBy(files, nameOf) <==> exists i :: 0 <= i < |files| && nameOf(files[i]) == n
    ensures forall n :: n in IndexBy(files, nameOf) ==>
      exists i :: 0 <= i < |files| && IndexBy(files, nameOf)[n] == files[i] && nameOf(files[i]) == n
        && forall j :: i < j < |files| ==> nameOf(files[j]) != n
  {
    IndexKeys(files, nameOf);
    IndexValues(files, nameOf);
  }

  lemma {:induction false} IndexKeys(files: seq<string>, nameOf: string -> string)
    ensures forall n :: n in IndexBy(files, nameOf) <==> exists i :: 0 <= i < |files| && nameOf(files[i]) == n
    decreases |files|
  {
    if files != [] {
      var init := files[..|files| - 1];
      var last := files[|files| - 1];
      var m := IndexBy(files, nameOf);
      IndexKeys(init, nameOf);
      assert m == IndexBy(init, nameOf)[nameOf(last) := last];
      forall n ensures n in m <==> exists i :: 0 <= i < |files| && nameOf(files[i]) == n {
        if n in IndexBy(init, nameOf) {
          var i :| 0 <= i < |init| && nameOf(init[i]) == n;
          assert files[i] == init[i];
        }
        if exists i :: 0 <= i < |files| && nameOf(files[i]) == n {
          var i :| 0 <= i < |files| && nameOf(files[i]) == n;
          if i < |init| {
            assert init[i] == files[i];
          }
        }
      }
    }
  }

  lemma {:induction false} IndexValues(files: seq<string>, nameOf: string -> string)
    ensures forall n :: n in IndexBy(files, nameOf) ==>
      exists i :: 0 <= i < |files| && IndexBy(files, nameOf)[n] == files[i] && nameOf(files[i]) == n
        && forall j :: i < j < |files| ==> nameOf(files[j]) != n
    decreases |files|
  {
    if files != [] {
      var init := files[..|files| - 1];
      var last := files[|files| - 1];
      var m := IndexBy(files, nameOf);
      IndexValues(init, nameOf);
      assert m == IndexBy(init, nameOf)[nameOf(last) := last];
      forall n | n in m ensures
        exists i :: 0 <= i < |files| && m[n] == files[i] && nameOf(files[i]) == n
          && forall j :: i < j < |files| ==> nameOf(files[j]) != n
      {
        if n == nameOf(last) {
          assert m[n] == files[|files| - 1];
        } else {
          var i :| 0 <= i < |init| && IndexBy(init, nameOf)[n] == init[i] && nameOf(init[i]) == n
            && forall j :: i < j < |init| ==> nameOf(init[j]) != n;
          assert files[i] == init[i];
          forall j | i < j < |files| ensures nameOf(files[j]) != n {
            if j < |init| {
              assert files[j] == init[j];
            }
          }
        }
      }
    }
  }

  // ---------------------------------------------------------------------------
  // Displayed arguments

  /** An argument with a space or a double quote is shown in double quotes, with
      each double quote escaped by a backslash. */
  function QuoteArg(a: string): string {
    if ' ' in a || '"' in a then "\"" + Replace(a, '"', "\\\"") + "\"" else a
  }

  /** The arguments as the app's information box shows them. */
  function DisplayArgs(args: seq<string>): string {
    Join(seq(|args|, i requires 0 <= i < |args| => QuoteArg(args[i])), " ")
  }

  /** Reading an escaped text back: `\"` is a double quote, everything else is as
      it stands. */
  function Unescape(s: string): string
    decreases |s|
  {
    if |s| >= 2 && s[0] == '\\' && s[1] == '"' then "\"" + Unescape(s[2..])
    else if s == [] then []
    else [s[0]] + Unescape(s[1..])
  }

  /** Reading a shown argument back. */
  function UnquoteArg(s: string): string {
    if |s| >= 2 && s[0] == '"' && s[|s| - 1] == '"' then Unescape(s[1..|s| - 1]) else s
  }

  /** Escaping never yields a double quote at the start. */
  lemma EscapedHead(a: string)
    requires a != []
    ensures Replace(a, '"', "\\\"")[0] != '"'
  {
  }

  lemma {:induction false} UnescapeEscaped(a: string)
    ensures Unescape(Replace(a, '"', "\\\"")) == a
    decreases |a|
  {
    if a != [] {
      var rest := Replace(a[1..], '"', "\\\"");
      UnescapeEscaped(a[1..]);
      if a[0] == '"' {
        assert Replace(a, '"', "\\\"") == "\\\"" + rest;
        assert ("\\\"" + rest)[2..] == rest;
      } else {
        assert Replace(a, '"', "\\\"") == [a[0]] + rest;
        if a[0] == '\\' && rest != [] {
          EscapedHead(a[1..]);
        }
        assert ([a[0]] + rest)[1..] == rest;
      }
    }
  }

  /** Showing an argument loses nothing: it can be read back. */
  lemma QuoteRoundTrip(a: string)
    ensures UnquoteArg(QuoteArg(a)) == a
  {
    if ' ' in a || '"' in a {
      var e := Replace(a, '"', "\\\"");
      var shown := "\"" + e + "\"";
      assert shown[1..|shown| - 1] == e;
      UnescapeEscaped(a);
    }
  }

  /** Arguments with no space and no double quote are shown as they are, one space
      apart. */
  lemma PlainArgs(args: seq<string>)
    requires forall i :: 0 <= i < |args| ==> ' ' !in args[i] && '"' !in args[i]
    ensures DisplayArgs(args) == Join(args, " ")
  {
    assert seq(|args|, i requires 0 <= i < |args| => QuoteArg(args[i])) == args;
  }

  /** A quoted argument starts and ends with a double quote and has no double quote
      inside that is not escaped. */
  lemma QuotedShape(a: string)
    requires ' ' in a || '"' in a
    ensures var s := QuoteArg(a);
      |s| >= 2 && s[0] == '"' && s[|s| - 1] == '"'
      && forall k :: 1 <= k < |s| - 1 && s[k] == '"' ==> s[k - 1] == '\\'
  {
    var e := Replace(a, '"', "\\\"");
    var s := "\"" + e + "\"";
    assert QuoteArg(a) == s;
    forall k | 1 <= k < |s| - 1 && s[k] == '"' ensures s[k - 1] == '\\' {
      assert s[k] == e[k - 1];
      EscapedQuote(a, k - 1);
      assert s[k - 1] == e[k - 2];
    }
  }

  /** In an escaped text every double quote follows a backslash. */
  lemma {:induction false} EscapedQuote(a: string, k: nat)
    requires k < |Replace(a, '"', "\\\"")| && Replace(a, '"', "\\\"")[k] == '"'
    ensures k >= 1 && Replace(a, '"', "\\\"")[k - 1] == '\\'
    decreases |a|
  {
    var rest := Replace(a[1..], '"', "\\\"");
    var head := if a[0] == '"' then "\\\"" else [a[0]];
    assert Replace(a, '"', "\\\"") == head + rest;
    if k >= |head| {
      var m := k - |head|;
      assert rest[m] == '"';
      EscapedQuote(a[1..], m);
      assert (head + rest)[k - 1] == rest[m - 1];
    }
  }
}
