/**
 * The variant of placeholder expansion in src/helpers.rs, whose `config` namespace
 * offers `terminal_runner` where src/utils.rs offers `editor`. Its sandwich,
 * sanitising and boolean parsing are the same code as in src/utils.rs and are
 * modelled once, in `Utils`; its pass loop is `Expand.ExpandVars` with the
 * `TerminalRunnerVariant`.
 */
module Helpers {
  import opened Wrappers
  import opened Strings
  import opened Configs
  import opened Expand

  /** `%config.terminal_runner%` always resolves, to the runner string, whatever the
      rest of the configuration holds (`Expand.TerminalRunnerKeySplits` shows that
      the text `config.terminal_runner` has these segments). */
  lemma TerminalRunnerResolves(key: string, cfg: Config, runner: string)
    requires Split(key, '.') == ["config", "terminal_runner"]
    ensures Resolve(key, cfg, TerminalRunnerVariant(runner)) == Some(runner)
  {
    RunnerSegments(Split(key, '.'), cfg, runner);
  }

  lemma RunnerSegments(parts: seq<string>, cfg: Config, runner: string)
    requires parts == ["config", "terminal_runner"]
    ensures ResolveSegments(parts, cfg, TerminalRunnerVariant(runner)) == Some(runner)
    ensures ResolveSegments(parts, cfg, EditorVariant).None?
  {
  }

  /** `%config.editor%` is not a shape this variant knows, and in the other variant
      `%config.terminal_runner%` is not; by `Expand.UnresolvedStaysVerbatim` each
      stays in the text as it is. */
  lemma EachVariantLacksTheOtherKey(editorKey: string, runnerKey: string, cfg: Config, runner: string)
    requires Split(editorKey, '.') == ["config", "editor"]
    requires Split(runnerKey, '.') == ["config", "terminal_runner"]
    ensures Resolve(editorKey, cfg, TerminalRunnerVariant(runner)).None?
    ensures Resolve(runnerKey, cfg, EditorVariant).None?
  {
    EditorSegments(Split(editorKey, '.'), cfg, runner);
    RunnerSegments(Split(runnerKey, '.'), cfg, runner);
  }

  lemma EditorSegments(parts: seq<string>, cfg: Config, runner: string)
    requires parts == ["config", "editor"]
    ensures ResolveSegments(parts, cfg, EditorVariant) == cfg.editor
    ensures ResolveSegments(parts, cfg, TerminalRunnerVariant(runner)).None?
  {
  }

  /** The two resolvers agree on every key other than their one differing slot:
      `interactive`, the three maps and bare keys resolve the same way in both. */
  lemma VariantsAgreeElsewhere(key: string, cfg: Config, runner: string)
    requires Split(key, '.') != ["config", "editor"]
    requires Split(key, '.') != ["config", "terminal_runner"]
    ensures Resolve(key, cfg, EditorVariant) == Resolve(key, cfg, TerminalRunnerVariant(runner))
  {
    var parts := Split(key, '.');
    if |parts| == 2 && parts[0] == "config" {
      assert parts == [parts[0], parts[1]];
      SettingsAgreeElsewhere(parts[1], cfg, runner);
    }
  }

  lemma SettingsAgreeElsewhere(name: string, cfg: Config, runner: string)
    requires name != "editor" && name != "terminal_runner"
    ensures ResolveSetting(name, cfg, EditorVariant) == ResolveSetting(name, cfg, TerminalRunnerVariant(runner))
  {
  }
}
