/**
 * The launcher (src/launcher.rs): the registry of apps and the configuration, the
 * alias-chain walk, the app finder with alias precedence, and the part of a launch
 * that computes the final binary, arguments and environment.
 */
module Launch {
  import opened Wrappers
  import opened Seqs
  import opened Strings
  import opened Errors
  import opened Configs
  import opened Utils
  import opened Expand

  /** `apps` maps an app name (its path below the apps directory, without `.toml`)
      to the path of its definition file. */
  datatype Launcher = Launcher(apps: map<string, string>, config: Config)

  /** What an app definition resolves to after its runner chain is followed. */
  datatype ResolvedParts = ResolvedParts(bin: string, args: seq<string>, env: map<string, string>)

  // ---------------------------------------------------------------------------
  // Alias chains

  /** Each element but the last is an alias whose target is the next element. */
  ghost predicate IsAliasPath(alias: map<string, string>, chain: seq<string>) {
    |chain| >= 1 &&
    forall i :: 0 <= i < |chain| - 1 ==> chain[i] in alias && alias[chain[i]] == chain[i + 1]
  }

  /** A complete chain from `start`: no repeats, and it ends at a name that is not
      an alias. */
  ghost predicate IsFullChain(alias: map<string, string>, start: string, chain: seq<string>) {
    IsAliasPath(alias, chain) && chain[0] == start && chain[|chain| - 1] !in alias && Distinct(chain)
  }

  /** A cycle report from `start`: a repeat-free path closed by the first name that
      repeats. */
  ghost predicate IsCycleReport(alias: map<string, string>, start: string, chain: seq<string>) {
    |chain| >= 2 && IsAliasPath(alias, chain) && chain[0] == start
    && Distinct(chain[..|chain| - 1]) && chain[|chain| - 1] in chain[..|chain| - 1]
  }

  /** `resolve_alias_chain`: follow `alias` from `start`, recording every name, and
      stop with `CircularAlias` (the chain closed by the repeated name) as soon as a
      target is already on the chain. */
  method ResolveAliasChain(alias: map<string, string>, start: string) returns (r: Result<seq<string>>)
    ensures r.Ok? ==> IsFullChain(alias, start, r.value) && |r.value| <= |alias.Keys| + 1
    ensures r.Err? ==> r.error.CircularAlias? && IsCycleReport(alias, start, r.error.chain)
  {
    var chain := [start];
    var current := start;
    while current in alias
      invariant IsAliasPath(alias, chain) && chain[0] == start && Distinct(chain)
      invariant current == chain[|chain| - 1]
      invariant |chain| - 1 <= |alias.Keys|
      decreases |alias.Keys| - (|chain| - 1)
    {
      var next := alias[current];
      forall i | 0 <= i < |chain| ensures chain[i] in alias.Keys {
        if i < |chain| - 1 {
          assert chain[i] in alias;
        }
      }
      DistinctBound(chain, alias.Keys);
      if next in chain {
        var closed := chain + [next];
        assert closed[..|closed| - 1] == chain;
        return Err(CircularAlias(closed));
      }
      chain := chain + [next];
      current := next;
    }
    assert |chain| <= |alias.Keys| + 1;
    return Ok(chain);
  }

  /** Two alias paths from the same name agree as far as both go. */
  lemma {:induction false} PathsAgree(alias: map<string, string>, c1: seq<string>, c2: seq<string>, i: nat)
    requires IsAliasPath(alias, c1) && IsAliasPath(alias, c2) && c1[0] == c2[0]
    requires i < |c1| && i < |c2|
    ensures c1[i] == c2[i]
    decreases i
  {
    if i > 0 {
      PathsAgree(alias, c1, c2, i - 1);
    }
  }

  /** There is at most one complete chain from a name. */
  lemma FullChainUnique(alias: map<string, string>, start: string, c1: seq<string>, c2: seq<string>)
    requires IsFullChain(alias, start, c1) && IsFullChain(alias, start, c2)
    ensures c1 == c2
  {
    if |c1| < |c2| {
      PathsAgree(alias, c1, c2, |c1| - 1);
    } else if |c2| < |c1| {
      PathsAgree(alias, c1, c2, |c2| - 1);
    } else {
      forall i | 0 <= i < |c1| ensures c1[i] == c2[i] {
        PathsAgree(alias, c1, c2, i);
      }
    }
  }

  /** A cycle report on a path that continues past it repeats a name on that path. */
  lemma CycleInsidePath(alias: map<string, string>, c: seq<string>, d: seq<string>)
    requires IsAliasPath(alias, c) && IsAliasPath(alias, d) && c[0] == d[0]
    requires |c| >= 2 && c[|c| - 1] in c[..|c| - 1] && |c| <= |d|
    ensures !Distinct(d)
  {
    var k := |c| - 1;
    var j :| 0 <= j < k && c[..k][j] == c[k];
    PathsAgree(alias, c, d, j);
    PathsAgree(alias, c, d, k);
    assert d[j] == d[k];
  }

  /** There is at most one cycle report from a name. */
  lemma CycleReportUnique(alias: map<string, string>, start: string, c1: seq<string>, c2: seq<string>)
    requires IsCycleReport(alias, start, c1) && IsCycleReport(alias, start, c2)
    ensures c1 == c2
  {
    if |c1| < |c2| {
      CycleInsidePath(alias, c1, c2[..|c2| - 1]);
      assert false;
    } else if |c2| < |c1| {
      CycleInsidePath(alias, c2, c1[..|c1| - 1]);
      assert false;
    } else {
      forall i | 0 <= i < |c1| ensures c1[i] == c2[i] {
        PathsAgree(alias, c1, c2, i);
      }
    }
  }

  /** A name has a complete chain or a cycle report, never both: together with the
      two uniqueness lemmas, the result of `ResolveAliasChain` is determined. */
  lemma FullChainExcludesCycle(alias: map<string, string>, start: string, c1: seq<string>, c2: seq<string>)
    requires IsFullChain(alias, start, c1)
    ensures !IsCycleReport(alias, start, c2)
  {
    if IsCycleReport(alias, start, c2) {
      if |c2| <= |c1| {
        CycleInsidePath(alias, c2, c1);
      } else {
        PathsAgree(alias, c1, c2, |c1| - 1);
        assert false;
      }
    }
  }

  /** `a -> b`, `b -> a`: the walk from `a` reports `[a, b, a]`. */
  lemma TwoAliasCycle(a: string, b: string)
    requires a != b
    ensures IsCycleReport(map[a := b, b := a], a, [a, b, a])
    ensures forall c :: IsCycleReport(map[a := b, b := a], a, c) ==> c == [a, b, a]
    ensures forall c :: !IsFullChain(map[a := b, b := a], a, c)
  {
    var alias := map[a := b, b := a];
    assert [a, b, a][..2] == [a, b];
    assert IsCycleReport(alias, a, [a, b, a]);
    forall c | IsCycleReport(alias, a, c) ensures c == [a, b, a] {
      CycleReportUnique(alias, a, c, [a, b, a]);
    }
    forall c ensures !IsFullChain(alias, a, c) {
      if IsFullChain(alias, a, c) {
        FullChainExcludesCycle(alias, a, c, [a, b, a]);
      }
    }
  }

  /** `a -> a`: the walk from `a` reports `[a, a]`. */
  lemma SelfAlias(a: string)
    ensures IsCycleReport(map[a := a], a, [a, a])
    ensures forall c :: IsCycleReport(map[a := a], a, c) ==> c == [a, a]
    ensures forall c :: !IsFullChain(map[a := a], a, c)
  {
    var alias := map[a := a];
    assert [a, a][..1] == [a];
    assert IsCycleReport(alias, a, [a, a]);
    forall c | IsCycleReport(alias, a, c) ensures c == [a, a] {
      CycleReportUnique(alias, a, c, [a, a]);
    }
    forall c ensures !IsFullChain(alias, a, c) {
      if IsFullChain(alias, a, c) {
        FullChainExcludesCycle(alias, a, c, [a, a]);
      }
    }
  }

  // ---------------------------------------------------------------------------
  // Finding an app

  /** The last `/`-separated segment of an app name. */
  function Leaf(name: string): string {
    var parts := Split(name, '/');
    parts[|parts| - 1]
  }

  /** The query as the finder compares it: whitespace trimmed, then `/` trimmed. */
  function Normalise(query: string): string {
    TrimMatches(Trim(query), '/')
  }

  /** The names whose full name or leaf equals the query. */
  ghost function MatchingNames(apps: map<string, string>, q: string): set<string> {
    set n | n in apps.Keys && (n == q || Leaf(n) == q)
  }

  /** The paths of the given names, in the order of the names. */
  function PathsOf(apps: map<string, string>, names: seq<string>): (r: seq<string>)
    requires forall i :: 0 <= i < |names| ==> names[i] in apps
    ensures |r| == |names| && forall i :: 0 <= i < |names| ==> r[i] == apps[names[i]]
  {
    seq(|names|, i requires 0 <= i < |names| => apps[names[i]])
  }

  /** The paths of the matching names, in an unspecified order (the registry is a
      hash map). */
  ghost function MatchingPaths(apps: map<string, string>, q: string): (r: seq<string>)
    ensures |r| == |MatchingNames(apps, q)|
    ensures forall p :: p in r <==> exists n :: n in MatchingNames(apps, q) && apps[n] == p
  {
    var names := MatchingNames(apps, q);
    var listed := Enumerate(names);
    assert forall i :: 0 <= i < |listed| ==> listed[i] in names;
    var r := PathsOf(apps, listed);
    assert forall n :: n in names ==> apps[n] in r by {
      forall n | n in names ensures apps[n] in r {
        var i :| 0 <= i < |listed| && listed[i] == n;
        assert r[i] == apps[n];
      }
    }
    r
  }

  /** What the terminal contributes to a lookup: whether standard output is a
      terminal, and the answer the selection prompt would give (the index of the
      chosen item, or `None` when the prompt is cancelled). */
  datatype Terminal = Terminal(isTty: bool, answer: Option<nat>)

  /** Choosing among the matches: the match count of `find_app_inner`, then
      `app_resolver` for two or more. */
  ghost function SelectApp(l: Launcher, term: Terminal, q: string): Outcome<string> {
    var paths := MatchingPaths(l.apps, q);
    if |paths| == 0 then Failure(AppNotFound(q))
    else if |paths| == 1 then Success(paths[0])
    else if !(l.config.interactive && term.isTty) then Failure(AmbiguousQuery(q, paths))
    else match term.answer
      case None => Failure(Other("cancelled."))
      case Some(i) => Success(paths[i % |paths|])
  }

  /** No match is `AppNotFound`; one match is its path; several are
      `AmbiguousQuery` listing every matching path once (in an unspecified order),
      unless both the configuration and the terminal allow the prompt, which then
      gives one of the matching paths or `cancelled.`. */
  lemma SelectAppOutcomes(l: Launcher, term: Terminal, q: string)
    ensures |MatchingNames(l.apps, q)| == 0 <==> SelectApp(l, term, q) == Failure(AppNotFound(q))
    ensures |MatchingNames(l.apps, q)| == 1 ==>
      forall n :: n in MatchingNames(l.apps, q) ==> SelectApp(l, term, q) == Success(l.apps[n])
    ensures |MatchingNames(l.apps, q)| >= 2 && !(l.config.interactive && term.isTty) ==>
      var r := SelectApp(l, term, q);
      r.Failure? && r.error.AmbiguousQuery? && r.error.query == q
      && |r.error.matches| == |MatchingNames(l.apps, q)|
      && forall p :: p in r.error.matches <==> exists n :: n in MatchingNames(l.apps, q) && l.apps[n] == p
    ensures |MatchingNames(l.apps, q)| >= 2 && l.config.interactive && term.isTty && term.answer.None? ==>
      SelectApp(l, term, q) == Failure(Other("cancelled."))
    ensures SelectApp(l, term, q).Success? ==>
      exists n :: n in MatchingNames(l.apps, q) && l.apps[n] == SelectApp(l, term, q).value
    ensures SelectApp(l, term, q).Failure? ==>
      var e := SelectApp(l, term, q).error;
      e == AppNotFound(q) || (e.AmbiguousQuery? && e.query == q) || e == Other("cancelled.")
  {
    var names := MatchingNames(l.apps, q);
    var paths := MatchingPaths(l.apps, q);
    if |paths| >= 1 {
      var k := if |paths| == 1 then 0 else if term.answer.Some? then term.answer.value % |paths| else 0;
      assert paths[k] in paths;
    }
    if |names| == 1 {
      forall n | n in names ensures SelectApp(l, term, q) == Success(l.apps[n]) {
        assert paths[0] in paths;
        var m :| m in names && l.apps[m] == paths[0];
        assert names - {n} == {} by {
          assert |names - {n}| == 0;
        }
      }
    }
  }

  /** One call of `find_app_inner` up to its recursive call: either an outcome, or
      the alias target to look up next with the stack it is looked up with. */
  datatype Step = Done(outcome: Outcome<string>) | Follow(target: string, stack: seq<string>)

  /** The raw query is checked against the stack; the query is normalised by
      `norm`; an alias is followed with the normalised query pushed; otherwise the
      matches decide. The normalisation is a parameter so that the recursion can be
      reasoned about without unfolding the trimming; `FindApp` passes `Normalise`. */
  ghost function FindStep(l: Launcher, term: Terminal, norm: string -> string, query: string, stack: seq<string>): Step {
    if query in stack then Done(Failure(CircularAlias(stack + [query])))
    else
      var q := norm(query);
      if q == [] then Done(Failure(AppNotFound(q)))
      else if q in l.config.alias then Follow(l.config.alias[q], stack + [q])
      else Done(SelectApp(l, term, q))
  }

  /** `find_app_inner`. `fuel` bounds the number of alias steps: the source
      recurses without bound. */
  ghost function FindAppInner(l: Launcher, term: Terminal, norm: string -> string, query: string, stack: seq<string>, fuel: nat): Outcome<string>
    decreases fuel
  {
    match FindStep(l, term, norm, query, stack)
    case Done(o) => o
    case Follow(target, next) => if fuel == 0 then OutOfFuel else FindAppInner(l, term, norm, target, next, fuel - 1)
  }

  /** `find_app`: the finder with an empty stack. */
  ghost function FindApp(l: Launcher, term: Terminal, query: string, fuel: nat): Outcome<string> {
    FindAppInner(l, term, Normalise, query, [], fuel)
  }

  lemma StepDone(l: Launcher, term: Terminal, norm: string -> string, query: string, stack: seq<string>, fuel: nat)
    requires FindStep(l, term, norm, query, stack).Done?
    ensures FindAppInner(l, term, norm, query, stack, fuel) == FindStep(l, term, norm, query, stack).outcome
  {
  }

  lemma StepFollow(l: Launcher, term: Terminal, norm: string -> string, query: string, stack: seq<string>, fuel: nat)
    requires FindStep(l, term, norm, query, stack).Follow?
    ensures fuel == 0 ==> FindAppInner(l, term, norm, query, stack, fuel) == OutOfFuel
    ensures fuel > 0 ==>
      FindAppInner(l, term, norm, query, stack, fuel)
      == FindAppInner(l, term, norm, FindStep(l, term, norm, query, stack).target, FindStep(l, term, norm, query, stack).stack, fuel - 1)
  {
  }

  /** A path that is found belongs to an app matching some normalised query; a
      failure is a missing app, an ambiguous query, a cancelled prompt or an alias
      cycle. */
  lemma {:induction false} FindAppOutcomes(l: Launcher, term: Terminal, norm: string -> string, query: string, stack: seq<string>, fuel: nat)
    ensures FindAppInner(l, term, norm, query, stack, fuel).Success? ==>
      exists n :: n in l.apps && l.apps[n] == FindAppInner(l, term, norm, query, stack, fuel).value
    ensures FindAppInner(l, term, norm, query, stack, fuel).Failure? ==>
      var e := FindAppInner(l, term, norm, query, stack, fuel).error;
      e.AppNotFound? || e.AmbiguousQuery? || e.CircularAlias? || e == Other("cancelled.")
    decreases fuel
  {
    var step := FindStep(l, term, norm, query, stack);
    if step.Follow? {
      StepFollow(l, term, norm, query, stack, fuel);
      if fuel > 0 {
        FindAppOutcomes(l, term, norm, step.target, step.stack, fuel - 1);
      }
    } else {
      StepDone(l, term, norm, query, stack, fuel);
      if query !in stack && norm(query) != [] && norm(query) !in l.config.alias {
        var q := norm(query);
        SelectAppOutcomes(l, term, q);
        var o := SelectApp(l, term, q);
        assert step.outcome == o;
        if o.Success? {
          var n :| n in MatchingNames(l.apps, q) && l.apps[n] == o.value;
          assert n in l.apps;
        }
      }
    }
  }

  /** More fuel changes nothing once the search has finished. */
  lemma {:induction false} FindAppFuel(l: Launcher, term: Terminal, norm: string -> string, query: string, stack: seq<string>, fuel: nat, more: nat)
    requires fuel <= more
    requires FindAppInner(l, term, norm, query, stack, fuel) != OutOfFuel
    ensures FindAppInner(l, term, norm, query, stack, more) == FindAppInner(l, term, norm, query, stack, fuel)
    decreases fuel
  {
    var step := FindStep(l, term, norm, query, stack);
    if step.Follow? {
      StepFollow(l, term, norm, query, stack, fuel);
      FindAppFuel(l, term, norm, step.target, step.stack, fuel - 1, more - 1);
      StepFollow(l, term, norm, query, stack, more);
    } else {
      StepDone(l, term, norm, query, stack, fuel);
      StepDone(l, term, norm, query, stack, more);
    }
  }

  /** A query that is empty once trimmed is not found, whatever apps exist. */
  lemma EmptyQuery(l: Launcher, term: Terminal, query: string, stack: seq<string>, fuel: nat)
    requires query !in stack && Normalise(query) == []
    ensures FindAppInner(l, term, Normalise, query, stack, fuel) == Failure(AppNotFound(""))
  {
    StepDone(l, term, Normalise, query, stack, fuel);
  }

  /** A query made only of `/` (such as `"///"`, or the empty query) is empty once
      trimmed; a `/` with anything else between (such as `"/ /"`) is not. */
  lemma SlashesOnly(s: string)
    requires forall i :: 0 <= i < |s| ==> s[i] == '/'
    ensures Normalise(s) == []
  {
    TrimByKeeps(s, IsWhitespace);
    TrimStartByShape(s, x => x == '/');
  }

  /** An alias wins over an app of the same name: its target is looked up with the
      alias pushed on the stack. */
  lemma AliasFirst(l: Launcher, term: Terminal, query: string, stack: seq<string>, fuel: nat)
    requires query !in stack && fuel > 0
    requires Normalise(query) != [] && Normalise(query) in l.config.alias
    ensures FindAppInner(l, term, Normalise, query, stack, fuel)
      == FindAppInner(l, term, Normalise, l.config.alias[Normalise(query)], stack + [Normalise(query)], fuel - 1)
  {
    StepFollow(l, term, Normalise, query, stack, fuel);
  }

  /** A raw query already on the stack closes the cycle. */
  lemma QueryOnStack(l: Launcher, term: Terminal, norm: string -> string, query: string, stack: seq<string>, fuel: nat)
    requires query in stack
    ensures FindAppInner(l, term, norm, query, stack, fuel) == Failure(CircularAlias(stack + [query]))
  {
    StepDone(l, term, norm, query, stack, fuel);
  }

  /** A query that is not an alias goes straight to the matching of names. */
  lemma PlainQuery(l: Launcher, term: Terminal, query: string, stack: seq<string>, fuel: nat)
    requires query !in stack && Normalise(query) != [] && Normalise(query) !in l.config.alias
    ensures FindAppInner(l, term, Normalise, query, stack, fuel) == SelectApp(l, term, Normalise(query))
  {
    StepDone(l, term, Normalise, query, stack, fuel);
  }

  /** `a -> b`, `b -> a`, with names that trimming leaves alone: looking up `a`
      reports the cycle `[a, b, a]`. */
  lemma FindAppCycle(l: Launcher, term: Terminal, a: string, b: string, fuel: nat)
    requires a != b && Normalise(a) == a && Normalise(b) == b && a != [] && b != []
    requires l.config.alias == map[a := b, b := a]
    requires fuel >= 2
    ensures FindApp(l, term, a, fuel) == Failure(CircularAlias([a, b, a]))
  {
    TwoAliasLookup(l, term, Normalise, a, b, fuel);
  }

  lemma TwoAliasLookup(l: Launcher, term: Terminal, norm: string -> string, a: string, b: string, fuel: nat)
    requires a != b && norm(a) == a && norm(b) == b && a != [] && b != []
    requires l.config.alias == map[a := b, b := a]
    requires fuel >= 2
    ensures FindAppInner(l, term, norm, a, [], fuel) == Failure(CircularAlias([a, b, a]))
  {
    assert FindStep(l, term, norm, a, []) == Follow(b, [a]);
    StepFollow(l, term, norm, a, [], fuel);
    assert [a] + [b] == [a, b];
    assert FindStep(l, term, norm, b, [a]) == Follow(a, [a, b]);
    StepFollow(l, term, norm, b, [a], fuel - 1);
    assert [a, b] + [a] == [a, b, a];
    QueryOnStack(l, term, norm, a, [a, b], fuel - 2);
  }

  /** The stack records the trimmed query but is checked against the raw one, so an
      alias `a -> "/a"` is never caught as a cycle: every fuel runs out. */
  lemma SlashAliasNeverEnds(l: Launcher, term: Terminal, a: string, fuel: nat)
    requires Normalise(a) == a && a != [] && Normalise("/" + a) == a
    requires a in l.config.alias && l.config.alias[a] == "/" + a
    ensures FindApp(l, term, a, fuel) == OutOfFuel
  {
    SlashAliasStart(l, term, Normalise, a, fuel);
  }

  lemma SlashAliasStart(l: Launcher, term: Terminal, norm: string -> string, a: string, fuel: nat)
    requires norm(a) == a && a != [] && norm("/" + a) == a
    requires a in l.config.alias && l.config.alias[a] == "/" + a
    ensures FindAppInner(l, term, norm, a, [], fuel) == OutOfFuel
  {
    assert FindStep(l, term, norm, a, []) == Follow("/" + a, [a]);
    StepFollow(l, term, norm, a, [], fuel);
    if fuel > 0 {
      SlashAliasLoops(l, term, norm, a, [a], fuel - 1);
    }
  }

  /** From the first push on, the raw query is `/a` while the stack holds only `a`. */
  lemma {:induction false} SlashAliasLoops(l: Launcher, term: Terminal, norm: string -> string, a: string, stack: seq<string>, fuel: nat)
    requires norm(a) == a && a != [] && norm("/" + a) == a
    requires a in l.config.alias && l.config.alias[a] == "/" + a
    requires forall i :: 0 <= i < |stack| ==> stack[i] == a
    ensures FindAppInner(l, term, norm, "/" + a, stack, fuel) == OutOfFuel
    decreases fuel
  {
    assert |"/" + a| != |a|;
    assert "/" + a !in stack;
    StepFollow(l, term, norm, "/" + a, stack, fuel);
    if fuel > 0 {
      SlashAliasLoops(l, term, norm, a, stack + [a], fuel - 1);
    }
  }

  /** A name with no padding and no `/` at its ends is its own normal form, and so
      is the same name behind one `/`. */
  lemma NormaliseLeadingSlash(a: string)
    requires a != [] && a[0] != '/' && a[|a| - 1] != '/'
    requires !IsWhitespace(a[0]) && !IsWhitespace(a[|a| - 1])
    ensures Normalise(a) == a && Normalise("/" + a) == a
  {
    NormalName(a);
    var s := "/" + a;
    assert s[|s| - 1] == a[|a| - 1];
    TrimByKeeps(s, IsWhitespace);
    StripOneSlash(s, a);
  }

  lemma NormalName(a: string)
    requires a != [] && a[0] != '/' && a[|a| - 1] != '/'
    requires !IsWhitespace(a[0]) && !IsWhitespace(a[|a| - 1])
    ensures Normalise(a) == a
  {
    TrimByKeeps(a, IsWhitespace);
    TrimByKeeps(a, x => x == '/');
  }

  lemma StripOneSlash(s: string, a: string)
    requires s == "/" + a && a != [] && a[0] != '/' && a[|a| - 1] != '/'
    ensures TrimMatches(s, '/') == a
  {
    assert s[1..] == a;
    assert TrimStartBy(s, x => x == '/') == a;
  }

  // ---------------------------------------------------------------------------
  // Launch assembly

  /** The environment layers of `launch_app`: the command line's, overridden by the
      configuration's, overridden by the resolved app's. */
  function LayeredEnv(cliEnv: map<string, string>, cfgEnv: map<string, string>, appEnv: map<string, string>): (r: map<string, string>)
    ensures r.Keys == cliEnv.Keys + cfgEnv.Keys + appEnv.Keys
  {
    cliEnv + cfgEnv + appEnv
  }

  /** Per key, the app's value wins, then the configuration's, then the command
      line's. */
  lemma EnvPrecedence(cliEnv: map<string, string>, cfgEnv: map<string, string>, appEnv: map<string, string>, k: string)
    requires k in cliEnv || k in cfgEnv || k in appEnv
    ensures k in appEnv ==> LayeredEnv(cliEnv, cfgEnv, appEnv)[k] == appEnv[k]
    ensures k !in appEnv && k in cfgEnv ==> LayeredEnv(cliEnv, cfgEnv, appEnv)[k] == cfgEnv[k]
    ensures k !in appEnv && k !in cfgEnv ==> LayeredEnv(cliEnv, cfgEnv, appEnv)[k] == cliEnv[k]
  {
  }

  /** Each argument expanded on its own. */
  function ExpandAll(args: seq<string>, cfg: Config): (r: seq<string>)
    ensures |r| == |args| && forall i :: 0 <= i < |args| ==> r[i] == Expanded(args[i], cfg, EditorVariant)
  {
    seq(|args|, i requires 0 <= i < |args| => Expanded(args[i], cfg, EditorVariant))
  }

  /** `into_iter().map(expand_vars).collect()` over the arguments. */
  method ExpandArgs(args: seq<string>, cfg: Config) returns (r: seq<string>)
    ensures r == ExpandAll(args, cfg)
  {
    r := [];
    for i := 0 to |args|
      invariant |r| == i
      invariant forall j :: 0 <= j < i ==> r[j] == Expanded(args[j], cfg, EditorVariant)
    {
      var a := ExpandVars(args[i], cfg, EditorVariant);
      r := r + [a];
    }
  }

  /** The same over the values of an environment; the keys are kept as they are. */
  method ExpandEnv(env: map<string, string>, cfg: Config) returns (r: map<string, string>)
    ensures r.Keys == env.Keys
    ensures forall k :: k in r ==> r[k] == Expanded(env[k], cfg, EditorVariant)
  {
    r := map[];
    var todo := env.Keys;
    while todo != {}
      invariant todo <= env.Keys
      invariant r.Keys == env.Keys - todo
      invariant forall k :: k in r ==> r[k] == Expanded(env[k], cfg, EditorVariant)
      decreases |todo|
    {
      var k :| k in todo;
      var v := ExpandVars(env[k], cfg, EditorVariant);
      r := r[k := v];
      todo := todo - {k};
    }
  }

  /** The computation of `launch_app` between resolving the app and spawning it:
      the command-line arguments go into the resolved arguments at their `%!`, the
      environments are layered, and the binary, every argument and every
      environment value (not the keys) are expanded. */
  method AssembleLaunch(l: Launcher, parts: ResolvedParts, cliArgs: seq<string>, cliEnv: map<string, string>)
    returns (bin: string, args: seq<string>, env: map<string, string>)
    ensures bin == Expanded(parts.bin, l.config, EditorVariant)
    ensures args == ExpandAll(Sandwich(parts.args, cliArgs), l.config)
    ensures env.Keys == LayeredEnv(cliEnv, l.config.env, parts.env).Keys
    ensures forall k :: k in env ==> env[k] == Expanded(LayeredEnv(cliEnv, l.config.env, parts.env)[k], l.config, EditorVariant)
  {
    var intermediate := SandwichArgs(parts.args, cliArgs);
    var layered := cliEnv;
    layered := layered + l.config.env;
    layered := layered + parts.env;
    assert layered == LayeredEnv(cliEnv, l.config.env, parts.env);
    bin := ExpandVars(parts.bin, l.config, EditorVariant);
    args := ExpandArgs(intermediate, l.config);
    env := ExpandEnv(layered, l.config);
  }
}
