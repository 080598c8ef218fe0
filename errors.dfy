/**
 * The launcher's error type and its messages (src/error.rs). The variants that wrap
 * an error of another crate (I/O, the prompt library, TOML reading and writing) are
 * opaque here: each carries the text that the foreign error displays as.
 */
module Errors {
  import opened Wrappers
  import opened Strings

  datatype LauncherError =
    | InvalidAlias(alias: string, target: string)
    | InvalidConfig(reason: Option<string>)
    | InvalidApp(path: string, reason: Option<string>)
    | ConfigNotFound(path: string)
    | AppNotFound(name: string)
    | AliasNotFound(name: string)
    | CircularAlias(chain: seq<string>)
    | IoError(detail: string)
    | DialoguerError(detail: string)
    | ParseError(detail: string)
    | SerializationError(detail: string)
    | AmbiguousQuery(query: string, matches: seq<string>)
    | NoCommandGiven
    | Other(message: string)

  /** Rust's `Result<T, LauncherError>`. */
  datatype Result<T> = Ok(value: T) | Err(error: LauncherError)

  /** The result of a computation that the source runs by unbounded recursion:
      `OutOfFuel` means the model's step bound ran out before the source would
      have returned. */
  datatype Outcome<T> = Success(value: T) | Failure(error: LauncherError) | OutOfFuel

  /** ` -- reason` when there is a reason, nothing otherwise. */
  function ReasonSuffix(reason: Option<string>): string {
    match reason
    case Some(r) => " -- " + r
    case None => ""
  }

  /** The `Display` text of an error. */
  function Render(e: LauncherError): string {
    match e
    case InvalidAlias(alias, target) => "invalid alias " + alias + " -> " + target
    case InvalidConfig(reason) => "invalid config" + ReasonSuffix(reason)
    case InvalidApp(path, reason) => "invalid app definition in " + path + ReasonSuffix(reason)
    case ConfigNotFound(path) => "config file not found in " + path
    case AppNotFound(name) => "app definition not found for " + name
    case AliasNotFound(name) => "alias \"" + name + "\" was not found"
    case CircularAlias(chain) => "infinite recursion in alias expansion: " + Join(chain, " -> ")
    case IoError(detail) => "io error: " + detail
    case DialoguerError(detail) => "dialoguer error: " + detail
    case ParseError(detail) => "parse error: " + detail
    case SerializationError(detail) => "serialization error: " + detail
    case AmbiguousQuery(q, m) => "multiple results for query \"" + q + "\": " + Join(m, ", ")
    case NoCommandGiven => "no command was supplied"
    case Other(message) => message
  }

  /** An `InvalidApp` or `InvalidConfig` message is the bare message followed by
      ` -- reason` exactly when a reason is given, and the bare message otherwise. */
  lemma RenderReason(path: string, reason: Option<string>)
    ensures Render(InvalidApp(path, reason)) == "invalid app definition in " + path + ReasonSuffix(reason)
    ensures Render(InvalidConfig(reason)) == "invalid config" + ReasonSuffix(reason)
    ensures reason.None? <==> Render(InvalidApp(path, reason)) == "invalid app definition in " + path
    ensures reason.None? <==> Render(InvalidConfig(reason)) == "invalid config"
  {
    SuffixIff("invalid app definition in " + path, reason);
    SuffixIff("invalid config", reason);
  }

  lemma SuffixIff(base: string, reason: Option<string>)
    ensures reason.None? <==> base + ReasonSuffix(reason) == base
  {
    if reason.None? {
      assert base + "" == base;
    } else {
      assert |base + ReasonSuffix(reason)| > |base|;
    }
  }

  /** The alias chain of a cycle is listed with ` -> ` between the names. */
  lemma RenderCycle(a: string, b: string)
    ensures Render(CircularAlias([a, b, a])) == "infinite recursion in alias expansion: " + (a + " -> " + (b + " -> " + a))
    ensures Render(CircularAlias([a, a])) == "infinite recursion in alias expansion: " + (a + " -> " + a)
  {
    assert [a, b, a][1..] == [b, a];
    assert [b, a][1..] == [a];
    assert [a, a][1..] == [a];
    assert Join([b, a], " -> ") == b + " -> " + a;
    assert Join([a, b, a], " -> ") == a + " -> " + (b + " -> " + a);
    assert Join([a, a], " -> ") == a + " -> " + a;
  }

  /** The candidates of an ambiguous query are listed with `, ` between them. */
  lemma RenderAmbiguous(q: string, p1: string, p2: string)
    ensures Render(AmbiguousQuery(q, [p1, p2])) == "multiple results for query \"" + q + "\": " + (p1 + ", " + p2)
  {
    assert [p1, p2][1..] == [p2];
    assert Join([p1, p2], ", ") == p1 + ", " + p2;
  }

  /** The message names what it is about: the text of a not-found error gives back
      the name or path it was raised for. */
  lemma RenderNamesRecoverable(a: string, b: string)
    ensures Render(AppNotFound(a)) == Render(AppNotFound(b)) ==> a == b
    ensures Render(ConfigNotFound(a)) == Render(ConfigNotFound(b)) ==> a == b
    ensures Render(AliasNotFound(a)) == Render(AliasNotFound(b)) ==> a == b
  {
    AfterPrefix("app definition not found for ", a, b, "");
    AfterPrefix("config file not found in ", a, b, "");
    AfterPrefix("alias \"", a, b, "\" was not found");
  }

  lemma AfterPrefix(p: string, a: string, b: string, q: string)
    ensures p + a + q == p + b + q ==> a == b
  {
    if p + a + q == p + b + q {
      assert |a| == |b|;
      assert a == (p + a + q)[|p|..|p| + |a|];
      assert b == (p + b + q)[|p|..|p| + |b|];
    }
  }

  /** Messages of different kinds never coincide. */
  lemma RenderKindsDiffer(a: string, b: string)
    ensures Render(AppNotFound(a)) != Render(AliasNotFound(b))
    ensures Render(AppNotFound(a)) != Render(ConfigNotFound(b))
    ensures Render(AliasNotFound(a)) != Render(ConfigNotFound(b))
  {
    assert Render(AppNotFound(a))[1] == 'p';
    assert Render(AliasNotFound(b))[1] == 'l';
    assert Render(ConfigNotFound(b))[0] == 'c';
    assert Render(AliasNotFound(a))[0] == 'a';
  }
}
