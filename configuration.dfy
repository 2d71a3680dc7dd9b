/**
 * The shared configuration library: the database connection type, the
 * deployment environment and the `.env` file that a local run loads into
 * the process environment.
 */
module Configuration {
  import opened Wrappers
  import opened Strings

  /** `DatabaseConnectionType`: an in-memory database or a file path. */
  datatype DatabaseConnectionType = Memory | Path(path: string)

  /** `DatabaseConnectionType::as_str`: the SQLite connection string. */
  function ConnectionString(c: DatabaseConnectionType): (s: string)
    ensures c.Memory? ==> s == ":memory:"
    ensures c.Path? ==> s == c.path
  {
    match c
    case Memory => ":memory:"
    case Path(path) => path
  }

  datatype Environment = Local | Production

  /** `Environment::as_str`. */
  function AsStr(e: Environment): (s: string)
    ensures ToLower(s) == s
  {
    match e
    case Local => "local"
    case Production => "production"
  }

  /** `Display for Environment` writes `as_str`. */
  function Display(e: Environment): (s: string)
    ensures s == AsStr(e)
  {
    AsStr(e)
  }

  /** `Environment::try_from`: `local` or `production` in any letter case. */
  function TryFrom(value: string): (r: Result<Environment, string>)
    ensures r == Ok(Local) <==> ToLower(value) == "local"
    ensures r == Ok(Production) <==> ToLower(value) == "production"
    ensures r.Err? ==> r.error == "Couldn't parse environment from '" + value + "'"
  {
    match ToLower(value)
    case "local" => Ok(Local)
    case "production" => Ok(Production)
    case _ => Err("Couldn't parse environment from '" + value + "'")
  }

  /** Printing an environment and parsing it back gives the same environment. */
  lemma TryFromAsStr(e: Environment)
    ensures TryFrom(AsStr(e)) == Ok(e)
    ensures TryFrom(Display(e)) == Ok(e)
  {
  }

  /** Letter case does not matter to `try_from`. */
  lemma TryFromIgnoresCase(value: string)
    ensures TryFrom(ToLower(value)).Ok? <==> TryFrom(value).Ok?
    ensures TryFrom(value).Ok? ==> TryFrom(ToLower(value)) == TryFrom(value)
  {
    ToLowerIdempotent(value);
  }

  /**
   * The environment `read_configuration` runs in, read from the variable
   * (`None` when it is unset, which means `local`), and whether it loads the
   * `.env` file.
   */
  function StartupEnvironment(variable: Option<string>): (r: Result<(Environment, bool), string>)
    ensures variable.None? ==> r == Ok((Local, true))
    ensures r.Ok? ==> (r.value.1 <==> r.value.0 == Local)
    ensures r.Ok? <==> TryFrom(variable.GetOr("local")).Ok?
  {
    match TryFrom(variable.GetOr("local"))
    case Ok(e) => Ok((e, e == Local))
    case Err(message) => Err("Failed to parse environment variable: " + message)
  }

  /**
   * What `load_env_file` does to the variables for one line of the file: an
   * empty line is skipped; otherwise the text before the first `=` is the
   * key and the text between the first and second `=` the value. A line
   * without `=` panics, and so does `set_var` for an empty key or a NUL
   * character.
   */
  function ApplyLine(vars: map<string, string>, line: string): (r: Outcome<map<string, string>>)
    ensures line == [] ==> r == Done(vars)
    ensures line != [] && '=' !in line ==> r.Panic?
    ensures r.Done? && line != [] ==> var parts := Split(line, "=");
      |parts| >= 2 && parts[0] != [] && r.value == vars[parts[0] := parts[1]]
  {
    SplitCharCount(line, '=');
    if line == [] then Done(vars)
    else
      var parts := Split(line, "=");
      if |parts| < 2 then Panic("called `Option::unwrap()` on a `None` value")
      else if parts[0] == [] || '\0' in parts[0] || '\0' in parts[1] then
        Panic("failed to set environment variable")
      else Done(vars[parts[0] := parts[1]])
  }

  /** The lines of the file applied in order. */
  function ApplyLines(vars: map<string, string>, lines: seq<string>): (r: Outcome<map<string, string>>)
    decreases |lines|
  {
    if lines == [] then Done(vars)
    else
      match ApplyLine(vars, lines[0])
      case Panic(m) => Panic(m)
      case Done(next) => ApplyLines(next, lines[1..])
  }

  /** The variables of the running process (`std::env`). */
  class ProcessEnvironment {
    var vars: map<string, string>

    constructor (initial: map<string, string>)
      ensures vars == initial
    {
      vars := initial;
    }

    /** The loop of `load_env_file` over the lines of the file's text. */
    method LoadEnvFile(text: string) returns (r: Outcome<()>)
      modifies this
      ensures r.Done? <==> ApplyLines(old(vars), Split(text, "\n")).Done?
      ensures r.Done? ==> vars == ApplyLines(old(vars), Split(text, "\n")).value
    {
      var lines := Split(text, "\n");
      for i := 0 to |lines|
        invariant ApplyLines(old(vars), lines) == ApplyLines(vars, lines[i..])
      {
        assert lines[i..][1..] == lines[i + 1..];
        var line := lines[i];
        if |line| == 0 {
          continue;
        }
        var parts := Split(line, "=");
        if |parts| < 2 {
          return Panic("called `Option::unwrap()` on a `None` value");
        }
        if parts[0] == [] || '\0' in parts[0] || '\0' in parts[1] {
          return Panic("failed to set environment variable");
        }
        vars := vars[parts[0] := parts[1]];
      }
      return Done(());
    }
  }

  /** A line `key=value` sets `key` to `value`. */
  lemma KeyValueLine(vars: map<string, string>, key: string, value: string)
    requires key != [] && '=' !in key && '=' !in value
    requires '\0' !in key && '\0' !in value
    ensures ApplyLine(vars, key + "=" + value) == Done(vars[key := value])
  {
    SplitCharAt(key, '=', value);
    SplitCharNone(value, '=');
  }

  /** In `key=value=rest` the text after the second `=` is ignored. */
  lemma ExtraEqualsIgnored(vars: map<string, string>, key: string, value: string, rest: string)
    requires key != [] && '=' !in key && '=' !in value
    requires '\0' !in key && '\0' !in value
    ensures ApplyLine(vars, key + "=" + value + "=" + rest) == Done(vars[key := value])
  {
    assert key + "=" + value + "=" + rest == key + "=" + (value + "=" + rest);
    SplitCharAt(key, '=', value + "=" + rest);
    SplitCharAt(value, '=', rest);
  }

  /** A later line for the same key overrides an earlier one. */
  lemma LaterLineWins(vars: map<string, string>, key: string, first: string, second: string)
    requires key != [] && '=' !in key && '=' !in first && '=' !in second
    requires '\0' !in key && '\0' !in first && '\0' !in second
    ensures ApplyLines(vars, [key + "=" + first, key + "=" + second]) == Done(vars[key := second])
  {
    var lines := [key + "=" + first, key + "=" + second];
    KeyValueLine(vars, key, first);
    KeyValueLine(vars[key := first], key, second);
    assert lines[1..] == [key + "=" + second];
    assert ApplyLines(vars, lines) == ApplyLines(vars[key := first], lines[1..]);
    assert ApplyLines(vars[key := first], lines[1..]) == ApplyLines(vars[key := first][key := second], []);
    assert vars[key := first][key := second] == vars[key := second];
  }
}
