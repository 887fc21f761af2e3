// The luainstaller exception hierarchy as one datatype, one constructor per
// exception class, with the message, details and fields each class computes
// in its constructor. Errors travel as `Result` values instead of exceptions.

module Errors {
  import opened Text

  /** A dependency chain of a circular-dependency error: it is indexed at 0, so never empty. */
  type Chain = c: seq<string> | |c| > 0 witness [""]

  /** The limit `DependencyLimitExceededError` reports when none is given. */
  const DefaultLimit: int := 99

  const DetailsSeparator := "\nDetails: "

  datatype Error =
    | BinaryNotFound(binaryName: string, availableBinaries: Option<seq<string>>)
    | ScriptNotFound(scriptPath: string)
    | DependencyAnalysis(scriptPath: string, reason: string)
    | CircularDependency(dependencyChain: Chain)
    | Compilation(command: string, returnCode: int, stderr: Option<string>)
    | InvalidConfiguration(parameter: string, value: string, reason: string)
    | PlatformNotSupported(platform: string, architecture: string)
    | LuaRocks(moduleName: string, reason: string)
    | DynamicRequire(scriptPath: string, lineNumber: int, statement: string)
    | DependencyLimitExceeded(currentCount: int, limit: int := DefaultLimit)
    | ModuleNotFound(moduleName: string, scriptPath: string, searchedPaths: seq<string>)
    | CModuleNotSupported(moduleName: string, modulePath: string)
  {
    /** The subclasses of `DependencyAnalysisError` (including that class itself). */
    predicate IsAnalysisError() {
      DependencyAnalysis? || CircularDependency? || DynamicRequire? || DependencyLimitExceeded?
      || ModuleNotFound? || CModuleNotSupported?
    }

    /** The `script_path` that a dependency-analysis error passes to its base class. */
    function ScriptPath(): string
      requires IsAnalysisError()
    {
      match this
      case DependencyAnalysis(p, _) => p
      case CircularDependency(chain) => chain[0]
      case DynamicRequire(p, _, _) => p
      case DependencyLimitExceeded(_, _) => "<multiple>"
      case ModuleNotFound(_, p, _) => p
      case CModuleNotSupported(_, p) => p
    }

    /** The `reason` that a dependency-analysis error passes to its base class. */
    function Reason(): string
      requires IsAnalysisError()
    {
      match this
      case DependencyAnalysis(_, r) => r
      case CircularDependency(chain) =>
        "Circular dependency detected: " + Join(chain, " -> ")
      case DynamicRequire(_, line, statement) =>
        "Dynamic require" + " detected at line " + IntToString(line) + ": " + statement + "\n"
        + "Only static require statements can be analyzed. "
        + "Use require('module_name') with a literal string."
      case DependencyLimitExceeded(count, limit) =>
        "Total dependency count (" + IntToString(count) + ") exceeds limit (" + IntToString(limit) + "). "
        + "This may indicate circular dependencies or an overly complex project."
      case ModuleNotFound(name, _, searched) =>
        "Cannot resolve module '" + name + "'.\n"
        + "Searched in:\n  - " + Join(searched, "\n  - ") + "\n"
        + "Check if the module name is correct or if it needs to be installed via LuaRocks."
      case CModuleNotSupported(name, path) =>
        "C module '" + name + "' detected at '" + path + "'.\n"
        + "C modules (.so, .dll, .dylib) are not supported by automatic dependency analysis.\n"
        + "You may need to compile them manually or use --manual mode."
    }

    /** The `message` each constructor passes to `LuaInstallerException`. */
    function Message(): string {
      if IsAnalysisError() then "Dependency analysis failed for '" + ScriptPath() + "'"
      else match this
        case BinaryNotFound(name, _) => "Binary '" + name + "' not found"
        case ScriptNotFound(p) => "Lua script not found: " + p
        case Compilation(_, _, _) => "Compilation failed"
        case InvalidConfiguration(parameter, value, _) =>
          "Invalid configuration for parameter '" + parameter + "': " + value
        case PlatformNotSupported(platform, arch) =>
          "Platform not supported: " + platform + " " + arch + "-bit"
        case LuaRocks(name, _) => "LuaRocks module '" + name + "' error"
    }

    /** The `details` each constructor passes to `LuaInstallerException` (None for Python's None). */
    function Details(): Option<string> {
      if IsAnalysisError() then Some(Reason())
      else match this
        case BinaryNotFound(_, available) =>
          if available.Some? && |available.value| > 0
          then Some("Available binaries: " + Join(available.value, ", "))
          else None
        case ScriptNotFound(_) => None
        case Compilation(command, code, stderr) =>
          Some("Command: " + command + "\nReturn code: " + IntToString(code)
               + if stderr.Some? && stderr.value != "" then "\nStderr: " + stderr.value else "")
        case InvalidConfiguration(_, _, reason) => Some(reason)
        case PlatformNotSupported(_, _) =>
          Some("Please compile luastatic manually for your platform or use a supported platform")
        case LuaRocks(_, reason) => Some(reason)
    }

    /** `str(exception)`: the message, followed by the details when there are any. */
    function ToString(): (s: string)
      ensures StartsWith(s, Message())
    {
      FormatMessage(Message(), Details())
    }
  }

  /** `LuaInstallerException._format_message`: details that are None or empty are left out. */
  function FormatMessage(message: string, details: Option<string>): (s: string)
    ensures StartsWith(s, message)
    ensures s == message <==> details == None || details == Some("")
    ensures details.Some? && details.value != "" ==>
              |s| == |message| + |DetailsSeparator| + |details.value|
              && s[|message|..|message| + |DetailsSeparator|] == DetailsSeparator
              && s[|message| + |DetailsSeparator|..] == details.value
  {
    if details.Some? && details.value != "" then message + DetailsSeparator + details.value
    else message
  }

  datatype Result<+T> = Ok(value: T) | Err(error: Error)

  /** The outcome of a check that either passes or raises. */
  datatype Outcome = Pass | Fail(error: Error)

  // ---------------------------------------------------------------------
  // What the rendered messages are promised to mention. The proofs follow the
  // left-nested shape of each `+` chain, one piece at a time.

  /** Whatever the details mention, the rendered error mentions too. */
  lemma DetailsAppearInString(e: Error, t: string)
    requires e.Details().Some? && Contains(e.Details().value, t)
    ensures Contains(e.ToString(), t)
  {
    var m, d := e.Message(), e.Details().value;
    if d != "" {
      ContainsPrepend(m + DetailsSeparator, d, t);
    } else {
      assert OccursAt(e.ToString(), t, 0);
    }
  }

  /** The script path of an analysis error appears in its rendered message. */
  lemma ScriptPathAppearsInString(e: Error)
    requires e.IsAnalysisError()
    ensures Contains(e.ToString(), e.ScriptPath())
  {
    var p := e.ScriptPath();
    var m := e.Message();
    ContainsSelf(p);
    ContainsPrepend("Dependency analysis failed for '", p, p);
    ContainsAppend("Dependency analysis failed for '" + p, "'", p);
    if e.Reason() != "" {
      ContainsAppend(m, DetailsSeparator, p);
      ContainsAppend(m + DetailsSeparator, e.Reason(), p);
    }
  }

  /** Every file of a cycle is named in the rendered error, and the error's script is the chain's head. */
  lemma CircularDependencyMentionsChain(chain: Chain, k: int)
    requires 0 <= k < |chain|
    ensures CircularDependency(chain).ScriptPath() == chain[0]
    ensures Contains(CircularDependency(chain).ToString(), chain[k])
  {
    var e := CircularDependency(chain);
    JoinContainsPart(chain, " -> ", k);
    ContainsPrepend("Circular dependency detected: ", Join(chain, " -> "), chain[k]);
    DetailsAppearInString(e, chain[k]);
  }

  /** A module-not-found error names the module, the requiring script and every searched path. */
  lemma ModuleNotFoundMentions(name: string, script: string, searched: seq<string>, k: int)
    requires 0 <= k < |searched|
    ensures var s := ModuleNotFound(name, script, searched).ToString();
      Contains(s, name) && Contains(s, script) && Contains(s, searched[k])
  {
    var e := ModuleNotFound(name, script, searched);
    ScriptPathAppearsInString(e);
    var j := Join(searched, "\n  - ");
    var a := "Cannot resolve module '";
    var b := "'.\n";
    var c := "Searched in:\n  - ";
    var d := "\n";
    var f := "Check if the module name is correct or if it needs to be installed via LuaRocks.";
    assert e.Reason() == a + name + b + c + j + d + f;
    // the module name
    ContainsSelf(name);
    ContainsPrepend(a, name, name);
    ContainsAppend(a + name, b, name);
    ContainsAppend(a + name + b, c, name);
    ContainsAppend(a + name + b + c, j, name);
    ContainsAppend(a + name + b + c + j, d, name);
    ContainsAppend(a + name + b + c + j + d, f, name);
    DetailsAppearInString(e, name);
    // the k-th searched path
    JoinContainsPart(searched, "\n  - ", k);
    ContainsPrepend(a + name + b + c, j, searched[k]);
    ContainsAppend(a + name + b + c + j, d, searched[k]);
    ContainsAppend(a + name + b + c + j + d, f, searched[k]);
    DetailsAppearInString(e, searched[k]);
  }

  /** A limit error names both the count found and the limit. */
  lemma DependencyLimitMentionsNumbers(count: int, limit: int)
    ensures var e := DependencyLimitExceeded(count, limit);
      e.ScriptPath() == "<multiple>"
      && Contains(e.ToString(), IntToString(count)) && Contains(e.ToString(), IntToString(limit))
  {
    var e := DependencyLimitExceeded(count, limit);
    var n, l := IntToString(count), IntToString(limit);
    var a := "Total dependency count (";
    var b := ") exceeds limit (";
    var c := "). ";
    var d := "This may indicate circular dependencies or an overly complex project.";
    assert e.Reason() == a + n + b + l + c + d;
    ContainsSelf(n);
    ContainsPrepend(a, n, n);
    ContainsAppend(a + n, b, n);
    ContainsAppend(a + n + b, l, n);
    ContainsAppend(a + n + b + l, c, n);
    ContainsAppend(a + n + b + l + c, d, n);
    DetailsAppearInString(e, n);
    ContainsSelf(l);
    ContainsPrepend(a + n + b, l, l);
    ContainsAppend(a + n + b + l, c, l);
    ContainsAppend(a + n + b + l + c, d, l);
    DetailsAppearInString(e, l);
  }

  /** A dynamic-require error names its statement and says that it is a dynamic require. */
  lemma DynamicRequireMentionsStatement(script: string, line: int, statement: string)
    ensures var e := DynamicRequire(script, line, statement);
      e.ScriptPath() == script
      && Contains(e.ToString(), statement) && Contains(e.ToString(), "Dynamic require")
  {
    var e := DynamicRequire(script, line, statement);
    var n := IntToString(line);
    var dr := "Dynamic require";
    var a := " detected at line ";
    var b := ": ";
    var c := "\n";
    var d := "Only static require statements can be analyzed. ";
    var f := "Use require('module_name') with a literal string.";
    assert e.Reason() == dr + a + n + b + statement + c + d + f;
    ContainsSelf(statement);
    ContainsPrepend(dr + a + n + b, statement, statement);
    ContainsAppend(dr + a + n + b + statement, c, statement);
    ContainsAppend(dr + a + n + b + statement + c, d, statement);
    ContainsAppend(dr + a + n + b + statement + c + d, f, statement);
    DetailsAppearInString(e, statement);
    ContainsSelf(dr);
    ContainsAppend(dr, a, dr);
    ContainsAppend(dr + a, n, dr);
    ContainsAppend(dr + a + n, b, dr);
    ContainsAppend(dr + a + n + b, statement, dr);
    ContainsAppend(dr + a + n + b + statement, c, dr);
    ContainsAppend(dr + a + n + b + statement + c, d, dr);
    ContainsAppend(dr + a + n + b + statement + c + d, f, dr);
    DetailsAppearInString(e, dr);
  }

  /** Compilation details always carry the command and the return code; stderr only when non-empty. */
  lemma CompilationDetails(command: string, code: int, stderr: Option<string>)
    ensures var d := Compilation(command, code, stderr).Details();
      var base := "Command: " + command + "\nReturn code: " + IntToString(code);
      d.Some? && StartsWith(d.value, base)
      && (d.value == base <==> stderr.None? || stderr.value == "")
      && (stderr.Some? && stderr.value != "" ==> EndsWith(d.value, "\nStderr: " + stderr.value))
  {
  }

  /** A missing binary reports details exactly when some binaries are available. */
  lemma BinaryNotFoundDetails(name: string, available: Option<seq<string>>)
    ensures var e := BinaryNotFound(name, available);
      (e.Details().None? <==> available.None? || available.value == [])
      && e.ToString() == if available.Some? && available.value != []
                         then e.Message() + DetailsSeparator + "Available binaries: " + Join(available.value, ", ")
                         else e.Message()
  {
  }
}
