/**
 * Placeholder expansion (`expand_vars`, src/utils.rs and its variant in src/helpers.rs).
 * A placeholder is `%key%` with a non-empty key free of `%`; the key is split on `.`
 * and looked up in the configuration; a key that does not resolve is put back as it
 * was. A pass replaces every placeholder once, scanning left to right without
 * overlaps; passes repeat until one changes nothing, at most five times.
 */
module Expand {
  import opened Wrappers
  import opened Seqs
  import opened Strings
  import opened Configs

  /** The preference that the `config` namespace exposes: src/utils.rs reads the
      optional `editor`; src/helpers.rs reads a `terminal_runner` string instead. */
  datatype Variant = EditorVariant | TerminalRunnerVariant(terminalRunner: string)

  /** The bound on the number of passes. */
  const MaxPasses: nat := 5

  /** A two-segment `config.<name>` key: a preference. */
  function ResolveSetting(name: string, cfg: Config, variant: Variant): Option<string> {
    if name == "interactive" then Some(BoolText(cfg.interactive))
    else if name == "editor" && variant.EditorVariant? then cfg.editor
    else if name == "terminal_runner" && variant.TerminalRunnerVariant? then Some(variant.terminalRunner)
    else None
  }

  /** A three-segment `config.<namespace>.<k>` key: an entry of one of the maps. */
  function ResolveEntry(namespace: string, k: string, cfg: Config): Option<string> {
    if namespace == "alias" then Lookup(cfg.alias, k)
    else if namespace == "vars" then Lookup(cfg.vars, k)
    else if namespace == "env" then Lookup(cfg.env, k)
    else None
  }

  /** The namespace lookup, by the shape of the key's `.`-separated segments; a
      bare key reads `vars`. */
  function ResolveSegments(parts: seq<string>, cfg: Config, variant: Variant): Option<string> {
    if |parts| == 1 then Lookup(cfg.vars, parts[0])
    else if |parts| == 2 && parts[0] == "config" then ResolveSetting(parts[1], cfg, variant)
    else if |parts| == 3 && parts[0] == "config" then ResolveEntry(parts[1], parts[2], cfg)
    else None
  }

  function Resolve(key: string, cfg: Config, variant: Variant): Option<string> {
    ResolveSegments(Split(key, '.'), cfg, variant)
  }

  /** What one placeholder is replaced by: its value, or the placeholder itself. */
  function Substitute(key: string, cfg: Config, variant: Variant): string {
    match Resolve(key, cfg, variant)
    case Some(v) => v
    case None => "%" + key + "%"
  }

  /** The replacement closure that `expand_vars` hands to `replace_all`. */
  function Substitution(cfg: Config, variant: Variant): string -> string {
    key => Substitute(key, cfg, variant)
  }

  /** One `replace_all` pass of the pattern `%([^%]+)%` with the replacement `subst`.
      At a `%`, the next `%` closes a placeholder unless it follows at once; with no
      next `%` or an empty key, the first `%` is kept and the scan goes on from the
      character after it. */
  function Pass(s: string, subst: string -> string): string
    decreases |s|
  {
    if s == [] then []
    else if s[0] != '%' then [s[0]] + Pass(s[1..], subst)
    else
      var j := IndexOf(s[1..], '%');
      if j.Some? && j.value > 0 then
        subst(s[1..j.value + 1]) + Pass(s[j.value + 2..], subst)
      else
        "%" + Pass(s[1..], subst)
  }

  /** At most `passes` further passes, stopping at the first that changes nothing. */
  function ExpandFrom(text: string, subst: string -> string, passes: nat): string
    decreases passes
  {
    if passes == 0 then text
    else
      var next := Pass(text, subst);
      if next == text then text else ExpandFrom(next, subst, passes - 1)
  }

  function Expanded(text: string, cfg: Config, variant: Variant): string {
    ExpandFrom(text, Substitution(cfg, variant), MaxPasses)
  }

  /** `expand_vars`: the five-pass loop over `current_text`, breaking on a pass that
      changes nothing. */
  method ExpandVars(text: string, cfg: Config, variant: Variant) returns (r: string)
    ensures r == Expanded(text, cfg, variant)
  {
    var subst := Substitution(cfg, variant);
    var current := text;
    for i := 0 to MaxPasses
      invariant ExpandFrom(current, subst, MaxPasses - i) == Expanded(text, cfg, variant)
    {
      var newText := Pass(current, subst);
      if newText == current {
        break;
      }
      current := newText;
    }
    r := current;
  }

  /** `k` passes applied one after the other, with no early stop. */
  function Iterate(text: string, subst: string -> string, k: nat): string
    decreases k
  {
    if k == 0 then text else Pass(Iterate(text, subst, k - 1), subst)
  }

  lemma {:induction false} IterateShift(text: string, subst: string -> string, k: nat)
    ensures Iterate(Pass(text, subst), subst, k) == Iterate(text, subst, k + 1)
    decreases k
  {
    if k > 0 {
      IterateShift(text, subst, k - 1);
    }
  }

  /** The expansion is the text after some number `k` of passes, at most the bound;
      each of those passes changed the text, and when `k` is below the bound the
      next pass would change nothing. */
  lemma {:induction false} ExpandFromStopsAtFirstFixpoint(text: string, subst: string -> string, passes: nat)
    returns (k: nat)
    ensures k <= passes
    ensures ExpandFrom(text, subst, passes) == Iterate(text, subst, k)
    ensures k < passes ==> Pass(Iterate(text, subst, k), subst) == Iterate(text, subst, k)
    ensures forall j :: 0 <= j < k ==> Iterate(text, subst, j + 1) != Iterate(text, subst, j)
    decreases passes
  {
    if passes == 0 || Pass(text, subst) == text {
      k := 0;
    } else {
      var next := Pass(text, subst);
      var m := ExpandFromStopsAtFirstFixpoint(next, subst, passes - 1);
      k := m + 1;
      IterateShift(text, subst, m);
      forall j | 0 <= j < k
        ensures Iterate(text, subst, j + 1) != Iterate(text, subst, j)
      {
        if j > 0 {
          IterateShift(text, subst, j);
          IterateShift(text, subst, j - 1);
        }
      }
    }
  }

  /** Once a pass changes nothing, expansion returns the text as it is. */
  lemma StableText(text: string, subst: string -> string, passes: nat)
    requires Pass(text, subst) == text
    ensures ExpandFrom(text, subst, passes) == text
  {
  }

  /** A pass that changes the text uses up one of the passes. */
  lemma PassChanges(text: string, subst: string -> string, passes: nat)
    requires passes > 0 && Pass(text, subst) != text
    ensures ExpandFrom(text, subst, passes) == ExpandFrom(Pass(text, subst), subst, passes - 1)
  {
  }

  /** Text without `%` passes through unchanged. */
  lemma {:induction false} PassPlain(s: string, subst: string -> string)
    requires '%' !in s
    ensures Pass(s, subst) == s
    decreases |s|
  {
    if s != [] {
      assert s[0] in s;
      PassPlain(s[1..], subst);
      assert s == [s[0]] + s[1..];
    }
  }

  /** A `%`-free prefix is copied and the scan resumes after it. */
  lemma {:induction false} PassPlainPrefix(a: string, b: string, subst: string -> string)
    requires '%' !in a
    ensures Pass(a + b, subst) == a + Pass(b, subst)
    decreases |a|
  {
    if a == [] {
      assert a + b == b;
    } else {
      assert a[0] in a;
      var s := a + b;
      assert s != [] && s[0] == a[0] && s[1..] == a[1..] + b;
      assert Pass(s, subst) == [a[0]] + Pass(a[1..] + b, subst);
      PassPlainPrefix(a[1..], b, subst);
      assert [a[0]] + (a[1..] + Pass(b, subst)) == a + Pass(b, subst);
    }
  }

  /** A placeholder at the front is substituted and the scan resumes after its
      closing `%`: what the substitution produced is not scanned again in this pass. */
  lemma PassSpan(key: string, rest: string, subst: string -> string)
    requires key != [] && '%' !in key
    ensures Pass("%" + key + "%" + rest, subst) == subst(key) + Pass(rest, subst)
  {
    var s := "%" + key + "%" + rest;
    var tail := s[1..];
    assert tail == key + "%" + rest;
    assert tail[|key|] == '%' && tail[..|key|] == key;
    FirstIndexAt(tail, '%', |key|);
    PassClosed(s, |key|, subst);
    assert s[1..|key| + 1] == key;
    assert s[|key| + 2..] == rest;
  }

  /** The pass at a `%` whose closing `%` is `j` characters further on. */
  lemma PassClosed(s: string, j: nat, subst: string -> string)
    requires s != [] && s[0] == '%' && j > 0 && IndexOf(s[1..], '%') == Some(j)
    ensures Pass(s, subst) == subst(s[1..j + 1]) + Pass(s[j + 2..], subst)
  {
  }

  /** `%%`: no placeholder starts at the first `%`, which is kept; the scan goes on
      from the second. */
  lemma PassDoublePercent(rest: string, subst: string -> string)
    ensures Pass("%%" + rest, subst) == "%" + Pass("%" + rest, subst)
  {
    var s := "%%" + rest;
    assert s[1..] == "%" + rest;
    FirstIndexAt(s[1..], '%', 0);
  }

  /** A `%` with no closing `%` after it is kept, with everything after it. */
  lemma PassUnclosed(rest: string, subst: string -> string)
    requires '%' !in rest
    ensures Pass("%" + rest, subst) == "%" + rest
  {
    var s := "%" + rest;
    assert s[1..] == rest;
    PassPlain(rest, subst);
  }

  /** `"%%a%"` becomes `%` followed by what `a` stands for. */
  lemma PassAfterEmptySpan(key: string, subst: string -> string)
    requires key != [] && '%' !in key
    ensures Pass("%%" + key + "%", subst) == "%" + subst(key)
  {
    var t := key + "%";
    assert "%%" + key + "%" == "%%" + t;
    PassDoublePercent(t, subst);
    assert "%" + t == "%" + key + "%";
    PassSingle(key, subst);
  }

  /** In `"%a%b%c%"` the keys are `a` and `c`: `b` sits between the closing `%` of one
      placeholder and the opening `%` of the next and is copied as it is. */
  lemma PassAlternates(a: string, b: string, c: string, subst: string -> string)
    requires a != [] && c != [] && '%' !in a && '%' !in b && '%' !in c
    ensures Pass("%" + a + "%" + b + "%" + c + "%", subst) == subst(a) + b + subst(c)
  {
    var x := "%" + c + "%";
    var tail := b + x;
    assert "%" + a + "%" + b + "%" + c + "%" == "%" + a + "%" + tail;
    PassSpan(a, tail, subst);
    PassPlainPrefix(b, x, subst);
    PassSingle(c, subst);
    assert subst(a) + (b + subst(c)) == subst(a) + b + subst(c);
  }

  /** A lone placeholder: the pass gives exactly what the key is replaced by. */
  lemma PassSingle(key: string, subst: string -> string)
    requires key != [] && '%' !in key
    ensures Pass("%" + key + "%", subst) == subst(key)
  {
    assert "%" + key + "%" == "%" + key + "%" + "";
    PassSpan(key, "", subst);
    assert subst(key) + "" == subst(key);
  }

  /** A key that does not resolve is left in place, `%` signs included. */
  lemma UnresolvedStaysVerbatim(key: string, cfg: Config, variant: Variant)
    requires key != [] && '%' !in key
    requires Resolve(key, cfg, variant).None?
    ensures Pass("%" + key + "%", Substitution(cfg, variant)) == "%" + key + "%"
    ensures Expanded("%" + key + "%", cfg, variant) == "%" + key + "%"
  {
    PassSingle(key, Substitution(cfg, variant));
  }

  /** A key that resolves is replaced by its value; a value free of `%` is final. */
  lemma ResolvedSpan(key: string, v: string, cfg: Config, variant: Variant)
    requires key != [] && '%' !in key
    requires Resolve(key, cfg, variant) == Some(v)
    ensures Pass("%" + key + "%", Substitution(cfg, variant)) == v
    ensures '%' !in v ==> Expanded("%" + key + "%", cfg, variant) == v
  {
    var subst := Substitution(cfg, variant);
    PassSingle(key, subst);
    if '%' !in v {
      var t := "%" + key + "%";
      PassPlain(v, subst);
      assert t[0] == '%' && v != t;
      PassChanges(t, subst, MaxPasses);
      StableText(v, subst, MaxPasses - 1);
    }
  }

  /** Splitting `p.q.k` for a dot-free `k`. */
  lemma SplitThree(p: string, q: string, k: string)
    requires '.' !in p && '.' !in q && '.' !in k
    ensures Split(p + "." + q + "." + k, '.') == [p, q, k]
  {
    assert p + "." + q + "." + k == p + ['.'] + (q + ['.'] + k);
    SplitPrefix(p, '.', q + ['.'] + k);
    SplitPrefix(q, '.', k);
    SplitWithout(k, '.');
  }

  lemma SplitTwo(key: string, p: string, q: string)
    requires '.' !in p && '.' !in q && key == p + "." + q
    ensures Split(key, '.') == [p, q]
  {
    assert key == p + ['.'] + q;
    SplitPrefix(p, '.', q);
    SplitWithout(q, '.');
  }

  /** `%k%` reads `vars[k]`. */
  lemma ResolveBare(k: string, cfg: Config, variant: Variant)
    requires '.' !in k
    ensures Resolve(k, cfg, variant) == Lookup(cfg.vars, k)
  {
    SplitWithout(k, '.');
  }

  /** `%config.vars.k%` also reads `vars[k]`. */
  lemma ResolveVars(k: string, cfg: Config, variant: Variant)
    requires '.' !in k
    ensures Resolve("config.vars." + k, cfg, variant) == Lookup(cfg.vars, k)
  {
    ResolveEntryKey("vars", k, cfg, variant);
    assert "config.vars." + k == "config." + "vars" + "." + k;
  }

  /** `%config.alias.k%` reads the alias map. */
  lemma ResolveAlias(k: string, cfg: Config, variant: Variant)
    requires '.' !in k
    ensures Resolve("config.alias." + k, cfg, variant) == Lookup(cfg.alias, k)
  {
    ResolveEntryKey("alias", k, cfg, variant);
    assert "config.alias." + k == "config." + "alias" + "." + k;
  }

  /** `%config.env.k%` reads the environment map. */
  lemma ResolveEnv(k: string, cfg: Config, variant: Variant)
    requires '.' !in k
    ensures Resolve("config.env." + k, cfg, variant) == Lookup(cfg.env, k)
  {
    ResolveEntryKey("env", k, cfg, variant);
    assert "config.env." + k == "config." + "env" + "." + k;
  }

  /** A three-segment `config` key reads the namespace named by its middle segment. */
  lemma ResolveEntryKey(namespace: string, k: string, cfg: Config, variant: Variant)
    requires '.' !in namespace && '.' !in k
    ensures Resolve("config." + namespace + "." + k, cfg, variant) == ResolveEntry(namespace, k, cfg)
  {
    assert "config." + namespace + "." + k == "config" + "." + namespace + "." + k;
    SplitThree("config", namespace, k);
  }

  /** `%config.interactive%` is `true` or `false` in both variants. */
  lemma ResolveInteractive(key: string, cfg: Config, variant: Variant)
    requires key == "config.interactive"
    ensures Resolve(key, cfg, variant) == Some(BoolText(cfg.interactive))
  {
    InteractiveKeySplits(key);
  }

  lemma InteractiveKeySplits(key: string)
    requires key == "config.interactive"
    ensures Split(key, '.') == ["config", "interactive"]
  {
    SplitTwo(key, "config", "interactive");
  }

  lemma EditorKeySplits(key: string)
    requires key == "config.editor"
    ensures Split(key, '.') == ["config", "editor"]
  {
    SplitTwo(key, "config", "editor");
  }

  lemma TerminalRunnerKeySplits(key: string)
    requires key == "config.terminal_runner"
    ensures Split(key, '.') == ["config", "terminal_runner"]
  {
    SplitTwo(key, "config", "terminal_runner");
  }

  /** `%config.editor%` is the editor; when none is set the key does not resolve,
      and `UnresolvedStaysVerbatim` keeps it in the text as it is. */
  lemma ResolveEditor(key: string, cfg: Config)
    requires key == "config.editor"
    ensures Resolve(key, cfg, EditorVariant) == cfg.editor
  {
    EditorKeySplits(key);
  }

  /** Namespaces other than `config` are not looked up: `%vars.k%` (two segments)
      stays verbatim, as does any key of four or more segments. */
  lemma OtherShapesUnresolved(k: string, key: string, cfg: Config, variant: Variant)
    requires '.' !in k
    ensures Resolve("vars." + k, cfg, variant).None?
    ensures |Split(key, '.')| >= 4 ==> Resolve(key, cfg, variant).None?
  {
    SplitTwo("vars." + k, "vars", k);
  }

  /** A variable whose value is a placeholder for a second variable is resolved in
      two passes: `a = "%b%"`, `b = "final"` turn `%a%` into `final`. */
  lemma TwoLevelIndirection(a: string, b: string, v: string, cfg: Config, variant: Variant)
    requires a != [] && b != [] && '%' !in a && '.' !in a && '%' !in b && '.' !in b && '%' !in v
    requires a in cfg.vars && cfg.vars[a] == "%" + b + "%"
    requires b in cfg.vars && cfg.vars[b] == v
    ensures Pass("%" + a + "%", Substitution(cfg, variant)) == "%" + b + "%"
    ensures Expanded("%" + a + "%", cfg, variant) == v
  {
    var subst := Substitution(cfg, variant);
    var t0, t1 := "%" + a + "%", "%" + b + "%";
    ResolveBare(a, cfg, variant);
    ResolveBare(b, cfg, variant);
    PassSingle(a, subst);
    PassSingle(b, subst);
    PassPlain(v, subst);
    assert t1[0] == '%';
    assert Pass(t1, subst) == v && v != t1;
    PassChanges(t0, subst, MaxPasses);
    PassChanges(t1, subst, MaxPasses - 1);
    StableText(v, subst, MaxPasses - 2);
  }

  /** A variable that refers to itself is a fixed point at once: `a = "%a%"` leaves
      `%a%` as it is. */
  lemma SelfReference(a: string, cfg: Config, variant: Variant)
    requires a != [] && '%' !in a && '.' !in a
    requires a in cfg.vars && cfg.vars[a] == "%" + a + "%"
    ensures Expanded("%" + a + "%", cfg, variant) == "%" + a + "%"
  {
    ResolveBare(a, cfg, variant);
    PassSingle(a, Substitution(cfg, variant));
  }

  /** Text with no `%` is returned as it is. */
  lemma NoPlaceholder(text: string, cfg: Config, variant: Variant)
    requires '%' !in text
    ensures Expanded(text, cfg, variant) == text
  {
    PassPlain(text, Substitution(cfg, variant));
  }
}
