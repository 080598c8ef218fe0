/**
 * The configuration commands of src/main.rs on an in-memory configuration:
 * `config get|set|unset KEY`, `alias get|set|unset` and `var get|set|unset`.
 * Writing the configuration file is a change of the stored configuration; a
 * command that fails writes nothing.
 */
module Commands {
  import opened Wrappers
  import opened Strings
  import opened Errors
  import opened Configs
  import opened Utils
  import opened Expand
  import opened Launch

  /** The keys `config get|set|unset` accept, after splitting at `.`. */
  datatype ConfigKey = InteractiveKey | EditorKey | AliasKey(name: string) | VarsKey(name: string) | EnvKey(name: string)

  /** The dispatch on the key's segments. */
  function ParseKey(key: string): Option<ConfigKey> {
    var parts := Split(key, '.');
    if |parts| == 1 && parts[0] == "interactive" then Some(InteractiveKey)
    else if |parts| == 1 && parts[0] == "editor" then Some(EditorKey)
    else if |parts| == 2 && parts[0] == "alias" then Some(AliasKey(parts[1]))
    else if |parts| == 2 && parts[0] == "vars" then Some(VarsKey(parts[1]))
    else if |parts| == 2 && parts[0] == "env" then Some(EnvKey(parts[1]))
    else None
  }

  /** The text of a key. */
  function KeyName(k: ConfigKey): string {
    match k
    case InteractiveKey => "interactive"
    case EditorKey => "editor"
    case AliasKey(n) => "alias." + n
    case VarsKey(n) => "vars." + n
    case EnvKey(n) => "env." + n
  }

  /** A key whose entry name has no `.` in it: only such keys can be written. */
  predicate WellFormedKey(k: ConfigKey) {
    !k.InteractiveKey? && !k.EditorKey? ==> '.' !in k.name
  }

  /** Every key that can be written is read back as itself. */
  lemma KeyRoundTrip(k: ConfigKey)
    requires WellFormedKey(k)
    ensures ParseKey(KeyName(k)) == Some(k)
  {
    if k.InteractiveKey? || k.EditorKey? {
      FlagKeySplits(k);
    } else {
      EntryKeySplits(k);
    }
  }

  lemma FlagKeySplits(k: ConfigKey)
    requires k.InteractiveKey? || k.EditorKey?
    ensures Split(KeyName(k), '.') == [KeyName(k)]
  {
    assert '.' !in KeyName(k);
    SplitWithout(KeyName(k), '.');
  }

  /** The section an entry key names. */
  function Section(k: ConfigKey): string
    requires !k.InteractiveKey? && !k.EditorKey?
  {
    if k.AliasKey? then "alias" else if k.VarsKey? then "vars" else "env"
  }

  lemma EntryKeySplits(k: ConfigKey)
    requires !k.InteractiveKey? && !k.EditorKey? && '.' !in k.name
    ensures Split(KeyName(k), '.') == [Section(k), k.name]
  {
    assert '.' !in Section(k);
    SplitTwo(KeyName(k), Section(k), k.name);
  }

  /** A text that is read as a key is the text of that key, so a key has one
      spelling. */
  lemma KeyTextUnique(key: string)
    requires ParseKey(key).Some?
    ensures KeyName(ParseKey(key).value) == key && WellFormedKey(ParseKey(key).value)
  {
    var parts := Split(key, '.');
    if |parts| == 2 {
      assert Join(parts, ".") == parts[0] + "." + parts[1];
      assert '.' !in parts[1];
    } else {
      assert Join(parts, ".") == parts[0];
    }
  }

  /** Three or more segments, or a first segment that is not a known section, is
      not a key: `vars.a.b` and `config.vars.a` are both refused. */
  lemma UnknownShapes(key: string)
    requires |Split(key, '.')| >= 3 || Split(key, '.')[0] == "config"
    ensures ParseKey(key).None?
  {
  }

  function InvalidKey(key: string): LauncherError {
    Other("invalid key \"" + key + "\"")
  }

  /** `config get KEY`. */
  function GetValue(c: Config, key: string): Result<string> {
    match ParseKey(key)
    case None => Err(InvalidKey(key))
    case Some(InteractiveKey) => Ok(BoolText(c.interactive))
    case Some(EditorKey) => Ok(c.editor.GetOr("not specified"))
    case Some(AliasKey(k)) => if k in c.alias then Ok(c.alias[k]) else Err(AliasNotFound(k))
    case Some(VarsKey(k)) => VarGet(c, k)
    case Some(EnvKey(k)) =>
      if k in c.env then Ok(c.env[k]) else Err(Other("environment variable \"" + k + "\" is not defined in config.env"))
  }

  /** `var get KEY`, and `config get vars.KEY`. */
  function VarGet(c: Config, k: string): Result<string> {
    if k in c.vars then Ok(c.vars[k]) else Err(Other("custom variable \"" + k + "\" is not defined"))
  }

  /** What `config get` reads: the flag as `true`/`false`, the editor or
      `not specified`, an entry of a map or the error for a missing one. */
  lemma GetValueMeaning(c: Config, key: string)
    ensures ParseKey(key).None? <==> GetValue(c, key) == Err(InvalidKey(key))
    ensures ParseKey(key) == Some(InteractiveKey) ==>
      GetValue(c, key) == Ok(if c.interactive then "true" else "false")
      && ParseBool(GetValue(c, key).value) == Some(c.interactive)
    ensures ParseKey(key) == Some(EditorKey) ==>
      GetValue(c, key) == Ok(if c.editor.Some? then c.editor.value else "not specified")
    ensures forall k :: ParseKey(key) == Some(AliasKey(k)) ==>
      (GetValue(c, key).Ok? <==> k in c.alias) && (k in c.alias ==> GetValue(c, key).value == c.alias[k])
      && (k !in c.alias ==> GetValue(c, key) == Err(AliasNotFound(k)))
    ensures forall k :: ParseKey(key) == Some(VarsKey(k)) ==>
      (GetValue(c, key).Ok? <==> k in c.vars) && (k in c.vars ==> GetValue(c, key).value == c.vars[k])
      && (k !in c.vars ==> GetValue(c, key) == Err(Other("custom variable \"" + k + "\" is not defined")))
    ensures forall k :: ParseKey(key) == Some(EnvKey(k)) ==>
      (GetValue(c, key).Ok? <==> k in c.env) && (k in c.env ==> GetValue(c, key).value == c.env[k])
      && (k !in c.env ==> GetValue(c, key) == Err(Other("environment variable \"" + k + "\" is not defined in config.env")))
  {
    if ParseKey(key) == Some(InteractiveKey) {
      ParseBoolText(c.interactive);
    }
    if ParseKey(key).Some? {
      var k := ParseKey(key).value;
      var e := InvalidKey(key).message;
      assert e[0] == 'i';
      if k.VarsKey? && k.name !in c.vars {
        assert GetValue(c, key).error.message[0] == 'c';
      }
      if k.EnvKey? && k.name !in c.env {
        assert GetValue(c, key).error.message[0] == 'e';
      }
    }
  }

  /** `config set KEY VALUE` as the code does it: a map entry is set with `insert`,
      whose result (the previous value) is required to be present, so setting an
      entry that does not exist yet fails and nothing is written. */
  function SetValue(c: Config, key: string, value: string): Result<Config> {
    match ParseKey(key)
    case None => Err(InvalidKey(key))
    case Some(InteractiveKey) => SetInteractive(c, value)
    case Some(EditorKey) => Ok(c.(editor := Some(value)))
    case Some(AliasKey(k)) =>
      if k in c.alias then Ok(c.(alias := c.alias[k := value])) else Err(CouldNotSet("alias", k, value))
    case Some(VarsKey(k)) =>
      if k in c.vars then Ok(c.(vars := c.vars[k := value])) else Err(CouldNotSet("vars", k, value))
    case Some(EnvKey(k)) =>
      if k in c.env then Ok(c.(env := c.env[k := value])) else Err(CouldNotSet("env", k, value))
  }

  function CouldNotSet(section: string, k: string, value: string): LauncherError {
    Other("could not set " + section + "." + k + " to \"" + value + "\"")
  }

  function SetInteractive(c: Config, value: string): Result<Config> {
    match ParseBool(value)
    case Some(b) => Ok(c.(interactive := b))
    case None => Err(Other("parse error: \"" + value + "\" is not a boolean"))
  }

  /** `config set KEY VALUE` as evidently intended: a map entry is set whether or
      not it was there before, as `alias set` and `var set` do. */
  function SetValueIntended(c: Config, key: string, value: string): Result<Config> {
    match ParseKey(key)
    case None => Err(InvalidKey(key))
    case Some(InteractiveKey) => SetInteractive(c, value)
    case Some(EditorKey) => Ok(c.(editor := Some(value)))
    case Some(AliasKey(k)) => Ok(c.(alias := c.alias[k := value]))
    case Some(VarsKey(k)) => Ok(c.(vars := c.vars[k := value]))
    case Some(EnvKey(k)) => Ok(c.(env := c.env[k := value]))
  }

  /** The table an entry key names. */
  function Entries(c: Config, k: ConfigKey): map<string, string>
    requires !k.InteractiveKey? && !k.EditorKey?
  {
    if k.AliasKey? then c.alias else if k.VarsKey? then c.vars else c.env
  }

  /** As written, `config set alias.k v` (or `vars.k`, `env.k`) for a new `k`
      fails, although the same command for an existing `k`, and `alias set k v`
      or `var set k v` for any `k`, succeed. */
  lemma SetNewEntryFails(c: Config, k: ConfigKey, value: string)
    requires !k.InteractiveKey? && !k.EditorKey? && '.' !in k.name && k.name !in Entries(c, k)
    ensures SetValue(c, KeyName(k), value) == Err(CouldNotSet(Section(k), k.name, value))
    ensures SetValueIntended(c, KeyName(k), value).Ok?
    ensures Entries(SetValueIntended(c, KeyName(k), value).value, k) == Entries(c, k)[k.name := value]
  {
    KeyRoundTrip(k);
  }

  /** The two agree everywhere except on entries that do not exist yet. */
  lemma SetAgreesOnExisting(c: Config, key: string, value: string)
    requires ParseKey(key).Some? && !ParseKey(key).value.InteractiveKey? && !ParseKey(key).value.EditorKey? ==>
      var k := ParseKey(key).value;
      (k.AliasKey? ==> k.name in c.alias) && (k.VarsKey? ==> k.name in c.vars) && (k.EnvKey? ==> k.name in c.env)
    ensures SetValue(c, key, value) == SetValueIntended(c, key, value)
  {
  }

  /** Reading a key after setting it gives the value set (for the flag, the value
      as parsed); every other field is as before. */
  lemma GetAfterSet(c: Config, key: string, value: string)
    requires SetValueIntended(c, key, value).Ok?
    ensures var d := SetValueIntended(c, key, value).value;
      match ParseKey(key).value
      case InteractiveKey => ParseBool(value) == Some(d.interactive) && d == c.(interactive := d.interactive)
      case EditorKey => GetValue(d, key) == Ok(value) && d == c.(editor := Some(value))
      case AliasKey(k) => GetValue(d, key) == Ok(value) && d == c.(alias := d.alias) && d.alias - {k} == c.alias - {k}
      case VarsKey(k) => GetValue(d, key) == Ok(value) && d == c.(vars := d.vars) && d.vars - {k} == c.vars - {k}
      case EnvKey(k) => GetValue(d, key) == Ok(value) && d == c.(env := d.env) && d.env - {k} == c.env - {k}
  {
  }

  /** A flag value that does not parse is refused and nothing is written. */
  lemma SetInteractiveRefuses(c: Config, key: string, value: string)
    requires ParseKey(key) == Some(InteractiveKey) && ParseBool(value).None?
    ensures SetValue(c, key, value) == Err(Other("parse error: \"" + value + "\" is not a boolean"))
    ensures SetValueIntended(c, key, value) == SetValue(c, key, value)
  {
  }

  /** `config unset KEY`: the flag becomes whether standard output is a terminal,
      the editor is removed, a map entry is removed. */
  function UnsetValue(c: Config, key: string, isTty: bool): Result<Config> {
    match ParseKey(key)
    case None => Err(InvalidKey(key))
    case Some(InteractiveKey) => Ok(c.(interactive := isTty))
    case Some(EditorKey) => Ok(c.(editor := None))
    case Some(AliasKey(k)) => Ok(c.(alias := c.alias - {k}))
    case Some(VarsKey(k)) => Ok(c.(vars := c.vars - {k}))
    case Some(EnvKey(k)) => Ok(c.(env := c.env - {k}))
  }

  /** After unsetting, the key reads as missing; every other field and entry is as
      before. */
  lemma GetAfterUnset(c: Config, key: string, isTty: bool)
    requires ParseKey(key).Some?
    ensures UnsetValue(c, key, isTty).Ok?
    ensures var d := UnsetValue(c, key, isTty).value;
      match ParseKey(key).value
      case InteractiveKey => d == c.(interactive := isTty)
      case EditorKey => GetValue(d, key) == Ok("not specified") && d == c.(editor := None)
      case AliasKey(k) => (GetValue(d, key) == Err(AliasNotFound(k)) && d == c.(alias := d.alias)
        && forall j :: j != k ==> (j in d.alias <==> j in c.alias) && (j in d.alias ==> d.alias[j] == c.alias[j]))
      case VarsKey(k) => (GetValue(d, key).Err? && d == c.(vars := d.vars)
        && forall j :: j != k ==> (j in d.vars <==> j in c.vars) && (j in d.vars ==> d.vars[j] == c.vars[j]))
      case EnvKey(k) => (GetValue(d, key).Err? && d == c.(env := d.env)
        && forall j :: j != k ==> (j in d.env <==> j in c.env) && (j in d.env ==> d.env[j] == c.env[j]))
  {
  }

  /** A key of any other shape is refused alike by `get`, `set` and `unset`. */
  lemma InvalidKeyEverywhere(c: Config, key: string, value: string, isTty: bool)
    requires ParseKey(key).None?
    ensures GetValue(c, key) == Err(InvalidKey(key))
    ensures SetValue(c, key, value) == Err(InvalidKey(key))
    ensures SetValueIntended(c, key, value) == Err(InvalidKey(key))
    ensures UnsetValue(c, key, isTty) == Err(InvalidKey(key))
  {
  }

  /** `var get KEY` is `config get vars.KEY`. */
  lemma VarGetIsConfigGet(c: Config, k: string)
    requires '.' !in k
    ensures VarGet(c, k) == GetValue(c, "vars." + k)
  {
    KeyRoundTrip(VarsKey(k));
  }

  /** The outcome of a command that writes the configuration. */
  datatype Status = Written | Failed(error: LauncherError)

  /** The configuration file, as the commands read and write it. */
  class ConfigStore {
    var stored: Config

    constructor (c: Config)
      ensures stored == c
    {
      stored := c;
    }

    /** `config set KEY VALUE`, with the intended meaning of setting an entry. */
    method Set(key: string, value: string) returns (s: Status)
      modifies this
      ensures SetValueIntended(old(stored), key, value).Ok? ==>
        s == Written && stored == SetValueIntended(old(stored), key, value).value
      ensures SetValueIntended(old(stored), key, value).Err? ==>
        s == Failed(SetValueIntended(old(stored), key, value).error) && stored == old(stored)
    {
      var c := stored;
      match ParseKey(key) {
        case None => return Failed(InvalidKey(key));
        case Some(InteractiveKey) =>
          var b := ParseBool(value);
          if b.None? {
            return Failed(Other("parse error: \"" + value + "\" is not a boolean"));
          }
          c := c.(interactive := b.value);
        case Some(EditorKey) => c := c.(editor := Some(value));
        case Some(AliasKey(k)) => c := c.(alias := c.alias[k := value]);
        case Some(VarsKey(k)) => c := c.(vars := c.vars[k := value]);
        case Some(EnvKey(k)) => c := c.(env := c.env[k := value]);
      }
      stored := c;
      return Written;
    }

    /** `config unset KEY`. */
    method Unset(key: string, isTty: bool) returns (s: Status)
      modifies this
      ensures UnsetValue(old(stored), key, isTty).Ok? ==>
        s == Written && stored == UnsetValue(old(stored), key, isTty).value
      ensures UnsetValue(old(stored), key, isTty).Err? ==>
        s == Failed(UnsetValue(old(stored), key, isTty).error) && stored == old(stored)
    {
      var c := stored;
      match ParseKey(key) {
        case None => return Failed(InvalidKey(key));
        case Some(InteractiveKey) => c := c.(interactive := isTty);
        case Some(EditorKey) => c := c.(editor := None);
        case Some(AliasKey(k)) => c := c.(alias := c.alias - {k});
        case Some(VarsKey(k)) => c := c.(vars := c.vars - {k});
        case Some(EnvKey(k)) => c := c.(env := c.env - {k});
      }
      stored := c;
      return Written;
    }

    /** `alias set NAME VALUE`: inserted whether or not it was there. */
    method SetAlias(name: string, value: string)
      modifies this
      ensures stored == old(stored).(alias := old(stored).alias[name := value])
    {
      var c := stored;
      c := c.(alias := c.alias[name := value]);
      stored := c;
    }

    /** `alias unset NAME`: removed if it was there. */
    method UnsetAlias(name: string)
      modifies this
      ensures stored == old(stored).(alias := old(stored).alias - {name})
    {
      var c := stored;
      c := c.(alias := c.alias - {name});
      stored := c;
    }

    /** `var set KEY VALUE` */
    method SetVar(key: string, value: string)
      modifies this
      ensures stored == old(stored).(vars := old(stored).vars[key := value])
    {
      var c := stored;
      c := c.(vars := c.vars[key := value]);
      stored := c;
    }

    /** `var unset KEY` */
    method UnsetVar(key: string)
      modifies this
      ensures stored == old(stored).(vars := old(stored).vars - {key})
    {
      var c := stored;
      c := c.(vars := c.vars - {key});
      stored := c;
    }

    /** `alias get NAME`: the alias chain from `name`, joined by ` -> ` and trimmed,
        or the cycle it runs into. */
    method AliasGet(name: string) returns (r: Result<string>)
      ensures r.Ok? ==> exists chain :: IsFullChain(stored.alias, name, chain) && r.value == Trim(Join(chain, " -> "))
      ensures r.Err? ==> r.error.CircularAlias? && IsCycleReport(stored.alias, name, r.error.chain)
    {
      var chain := ResolveAliasChain(stored.alias, name);
      match chain
      case Ok(names) => r := Ok(Trim(Join(names, " -> ")));
      case Err(e) => r := Err(e);
    }
  }

  /** A setting reads back through the store: `alias set` then `config get alias.k`
      gives the value, and `alias unset` then `config get alias.k` is
      `AliasNotFound`. */
  lemma AliasSetThenGet(c: Config, k: string, value: string)
    requires '.' !in k
    ensures GetValue(c.(alias := c.alias[k := value]), "alias." + k) == Ok(value)
    ensures GetValue(c.(alias := c.alias - {k}), "alias." + k) == Err(AliasNotFound(k))
  {
    KeyRoundTrip(AliasKey(k));
  }
}
