# luainstaller dependency analysis, modelled in Dafny

This project models the static dependency analysis of luainstaller, a tool that
bundles a Lua program into one executable. Given an entry script, the analyser
finds every `require` with a literal argument, resolves each module name to a
file, walks the resulting graph depth first with cycle detection and a
dependency limit, and emits a manifest in dependency order. The exception
hierarchy that reports its failures is modelled too.

The model has these modules:

- `Text` (`text.dfy`) holds the string helpers the source relies on:
  `startswith`, `strip` (with Python's whitespace set, ASCII and Unicode), `join`, and the decimal rendering that f-strings use
  for ints. Rendering is proved invertible.
- `Errors` (`errors.dfy`) turns the exception hierarchy into one `Error`
  datatype with a constructor per class. Each class's `message`, `details` and
  fields become functions, and `_format_message` becomes `FormatMessage`.
  Errors travel as `Result`/`Outcome` values. Lemmas prove what each rendered
  message is promised to mention.
- `Paths` (`paths.dfy`) models absolute POSIX paths as sequences of segments.
  It covers `pathlib` joining and `Path.resolve()` as lexical removal of `.`
  and `..`. The file system is a set `fs` of resolved paths that exist, for
  files and directories alike.
- `LexerSpec` (`lexer_spec.dfy`) describes the lexer as functions of the
  source text. It has the six states, one step of the state machine
  (`NextState`), the parse of one `require` (`ParseRequire`, `QuotedLiteral`,
  `LongLiteral`, `ConcatCheck`) and the whole scan (`Scan`,
  `ExtractRequires`). Lemmas prove what the scan finds and what it skips.
- `Lexer` (`lexer.dfy`) is the `LuaLexer` class. Its fields are `source`,
  `pos`, `line`, `state` and `longBracketLevel`, and its methods use the
  source's loops. Each method is proved to compute the matching `LexerSpec`
  function. `str.isalnum` is the abstract predicate `isAlnum`, passed in by
  the caller.
- `Resolver` (`resolver.dfy`) is the `ModuleResolver` class. It builds the
  search directories and implements `resolve` and `_resolve_relative`. The
  functions `Search`, `LookupRelative` and `Resolution` state what resolution
  must find.
- `Graph` (`graph.dfy`) covers the recorded dependency tree, first-seen
  de-duplication, and the post-order `visit` of `_generate_manifest`. A ghost
  rank witnesses that the tree has no cycle. The manifest is proved to be a
  topological order without repetitions.
- `Analyzer` (`analyzer.dfy`) is the `DependencyAnalyzer` class, plus
  `NewAnalyzer` (the existence check in `__init__`) and `AnalyzeDependencies`.
  The class keeps the fields `visited`, `visiting`, `stack` and
  `dependencyTree`, and a ghost invariant `WalkInv` that every method
  preserves. The file contents are an abstract function from path to text.
  `Reaches` describes the chains of require edges from the entry, and
  `WalkFailure` the causes of failure met along them (a require back into a
  chain without repeated files, a scan error, a resolution error); `Analyzable` says that no reachable file has one.
  Each walk method's failures are tied to such a cause.

The model follows the code as written, including these quirks:

- After `_parse_require` returns, the main loop still steps over one more
  character, the one after the literal. That character causes no state update
  and no line count. `NewlineAfterLiteralUncounted` shows the consequence:
  with a newline right after the first literal, the next line's `require` is
  recorded on the line before.
- The line recorded for a require is the line reached after parsing it. Inside
  a quoted literal newlines are not counted. Inside a long-bracket literal they
  are.
- Outside a `require`, the main loop never fails on an unterminated string or
  comment: it just reaches the end of the text (`InertToEnd`). An unterminated
  literal in a `require` is reported as a dynamic-require error, not as a
  separate malformed-source error.
- The C-module check runs per search directory, right after that directory's
  two `.lua` candidates. A C module in an early directory therefore wins over a
  Lua module in a later one.
- `C_EXTENSIONS` is a set, so the order in which extensions are tried is
  unspecified. `Resolve` promises that its result is one of the allowed
  outcomes (`Outcomes`). When several C modules exist, the error may name any
  one of them.

## Model

| member | source | states |
|---|---|---|
| `Lexer.LuaLexer.constructor` | luainstaller/source/dependency_analyzer.py:50-62 | a new lexer stands at position 0, line 1, in normal code, at bracket level 0 |
| `Lexer.LuaLexer.ExtractRequires` | luainstaller/source/dependency_analyzer.py:64-92 | the loop returns exactly the scan of the text from the lexer's state: the requires in order, or the first dynamic-require error |
| `Lexer.LuaLexer.Advance` | luainstaller/source/dependency_analyzer.py:73-90 | one pass of the loop moves forward and splits the scan into what it found here and the scan from the new state |
| `Lexer.LuaLexer.RequireAtKeyword` | luainstaller/source/dependency_analyzer.py:79-85 | at a keyword in normal code, a non-empty literal is recorded with the line reached after parsing; the scan resumes one character past the parse |
| `Lexer.LuaLexer.MatchKeyword` | luainstaller/source/dependency_analyzer.py:107-133 | true exactly when the keyword starts here, is not preceded by an alphanumeric, `_`, `.` or `:`, and is not followed by an alphanumeric or `_` |
| `Lexer.LuaLexer.UpdateState` | luainstaller/source/dependency_analyzer.py:135-180 | the new state and bracket level are the state machine's step on the current character; position and line are unchanged |
| `Lexer.LuaLexer.IsNotEscaped` | luainstaller/source/dependency_analyzer.py:182-195 | true exactly when an even number of backslashes stands just before the position |
| `Lexer.LuaLexer.CountBracketLevel` | luainstaller/source/dependency_analyzer.py:197-218 | the number of `=` of an opening long bracket `[=*[` at the offset, or -1 when there is none |
| `Lexer.LuaLexer.CheckClosingBracket` | luainstaller/source/dependency_analyzer.py:220-235 | true exactly when a closing bracket `]=*]` with the expected number of `=` starts here |
| `Lexer.LuaLexer.SkipWhitespace` | luainstaller/source/dependency_analyzer.py:251-255 | skips spaces, tabs, CR and LF and counts the newlines passed |
| `Lexer.LuaLexer.SkipToArgument` | luainstaller/source/dependency_analyzer.py:251-269 | skips blanks, one optional `(`, and blanks again |
| `Lexer.LuaLexer.ParseRequire` | luainstaller/source/dependency_analyzer.py:237-291 | returns the literal's name and leaves the cursor where the parse ends, or returns the dynamic-require error of the parse |
| `Lexer.LuaLexer.DynamicStatement` | luainstaller/source/dependency_analyzer.py:279-291 | the error carries the start line and the stripped text from `require` to the next `\n` or `;` |
| `Lexer.LuaLexer.ExtractStringLiteral` | luainstaller/source/dependency_analyzer.py:293-331 | the name is the raw text up to the first unescaped matching quote, and the line does not move; an unterminated literal is a dynamic-require error |
| `Lexer.LuaLexer.CloseQuotedLiteral` | luainstaller/source/dependency_analyzer.py:309-313 | steps past the closing quote and fails only if `..` follows |
| `Lexer.LuaLexer.ExtractLongStringLiteral` | luainstaller/source/dependency_analyzer.py:333-364 | the name is the raw text up to the first closing bracket of the same level, and the newlines in it are counted |
| `Lexer.LuaLexer.CloseLongLiteral` | luainstaller/source/dependency_analyzer.py:347-352 | steps past the closing bracket and fails only if `..` follows |
| `Lexer.LuaLexer.CheckNoConcatenation` | luainstaller/source/dependency_analyzer.py:366-388 | fails exactly when `..` follows after blanks; on success the position is back where it was |
| `LexerSpec.CharAt` | luainstaller/source/dependency_analyzer.py:94-105 | the character at a position, or the empty string outside the text |
| `LexerSpec.TextAtStartsWith` | luainstaller/source/dependency_analyzer.py:116-117 | the character-by-character keyword test is `source[pos:].startswith(keyword)` |
| `LexerSpec.LongBracketLevel` | luainstaller/source/dependency_analyzer.py:197-218 | a non-negative level means an opening long bracket of exactly that level stands there |
| `LexerSpec.LongBracketLevelUnique` | luainstaller/source/dependency_analyzer.py:197-218 | an opening long bracket has no other level than the one counted |
| `LexerSpec.IsClosingMeans` | luainstaller/source/dependency_analyzer.py:220-235 | the closing check accepts exactly `]` followed by as many `=` as expected and `]` |
| `LexerSpec.BackslashRunFacts` | luainstaller/source/dependency_analyzer.py:187-195 | the backslash count is the maximal run of backslashes just before the position |
| `LexerSpec.EqRunEndFacts` | luainstaller/source/dependency_analyzer.py:211-213 | the level loop stops at the end of the maximal run of `=` |
| `LexerSpec.SkipBlanksFacts` | luainstaller/source/dependency_analyzer.py:251-255 | the skip stops at the first non-blank character and adds the newlines passed to the line |
| `LexerSpec.StatementEndFacts` | luainstaller/source/dependency_analyzer.py:281-283 | the quoted statement ends at the first `\n` or `;`, or at the end of the text |
| `LexerSpec.QuoteScanFindsFirstUnescaped` | luainstaller/source/dependency_analyzer.py:306-324 | the literal loop stops at the first matching quote with an even run of backslashes before it, or finds none when there is none |
| `LexerSpec.QuotedLiteralFacts` | luainstaller/source/dependency_analyzer.py:293-331 | a quoted literal is the raw text up to the first unescaped matching quote, with no `..` after it; without such a quote it is unterminated |
| `LexerSpec.LongEndFacts` | luainstaller/source/dependency_analyzer.py:346-357 | the long-literal loop finds the first closing bracket of the level; brackets of other levels do not close it |
| `LexerSpec.LongLiteralFacts` | luainstaller/source/dependency_analyzer.py:333-364 | a long literal is the text up to the first closing bracket of its level, and the line advances by its newlines |
| `LexerSpec.ConcatCheck` | luainstaller/source/dependency_analyzer.py:366-388 | fails exactly when two dots stand after nothing but blanks from the position, and then with the dynamic-require error `require('<name>' .. ...) - String concatenation not supported` |
| `LexerSpec.ConcatFollowsMeans` | luainstaller/source/dependency_analyzer.py:366-388 | the look-ahead past blanks sees `..` exactly when two dots stand in the text after nothing but blanks |
| `LexerSpec.ParseRequire` | luainstaller/source/dependency_analyzer.py:237-291 | a parse ends past the keyword; every failure is a dynamic-require error for this file at the keyword's line |
| `LexerSpec.ArgumentStartFacts` | luainstaller/source/dependency_analyzer.py:251-269 | the argument starts at the first character that is neither blank nor the one optional `(`; a `(` is skipped only after nothing but blanks, and the line advances by the newlines skipped |
| `LexerSpec.ParseRequireQuotedName` | luainstaller/source/dependency_analyzer.py:251-331 | a quoted argument stands after blanks and at most one `(`; its name is the raw text up to the first matching quote not escaped by a backslash, and no `..` follows it |
| `LexerSpec.ParseRequireLongName` | luainstaller/source/dependency_analyzer.py:251-364 | a long-bracket argument `[=*[` stands after blanks and at most one `(`; its name is the text up to the first closing bracket of the same level, the line advances by the newlines before and inside it, and no `..` follows it |
| `LexerSpec.ParseRequireDynamicText` | luainstaller/source/dependency_analyzer.py:279-291 | an argument that starts with neither a quote nor a long bracket is a dynamic require at the keyword's line, reported with the stripped text from `require` to the first `\n` or `;` after the argument start |
| `LexerSpec.ExtractRequires` | luainstaller/source/dependency_analyzer.py:64-92 | names are non-empty, lines are at least 1 and never decrease, and the only failure is a dynamic-require error for this file |
| `LexerSpec.ScanFacts` | luainstaller/source/dependency_analyzer.py:64-92 | from any state, the scan's lines start at the current line and never decrease, and it fails only with a dynamic require |
| `LexerSpec.NoKeywordNoRequires` | luainstaller/source/dependency_analyzer.py:79-84 | where no keyword stands at an identifier boundary (`is_required`, `obj.require`, `obj:require`), nothing is found and nothing fails |
| `LexerSpec.ScanInert` | luainstaller/source/dependency_analyzer.py:162-180 | inside a string or comment the scan looks at no keyword and only counts newlines |
| `LexerSpec.InertToEnd` | luainstaller/source/dependency_analyzer.py:73-92 | an unterminated string or comment is not an error: the scan ends with nothing more found |
| `LexerSpec.LineCommentSkipped` | luainstaller/source/dependency_analyzer.py:138-149 | `--` without a long bracket skips to the next newline and resumes in normal code after it |
| `LexerSpec.BlockCommentSkipped` | luainstaller/source/dependency_analyzer.py:140-147 | `--[=*[` opens a block comment that only a closing bracket of the same level ends |
| `LexerSpec.LongStringSkipped` | luainstaller/source/dependency_analyzer.py:156-172 | `[=*[` in normal code opens a long string that only a closing bracket of the same level ends |
| `LexerSpec.QuotedStringSkipped` | luainstaller/source/dependency_analyzer.py:152-168 | a quote opens a string that ends at the next quote of its kind not escaped by a backslash |
| `LexerSpec.NewlineAfterLiteralUncounted` | luainstaller/source/dependency_analyzer.py:82-90 | in `require'a'`, newline, `require'b'`, both names are found and both are recorded at line 1 |
| `Resolver.DotsToSlashes` | luainstaller/source/dependency_analyzer.py:518 | every `.` becomes `/` and every other character is kept |
| `Resolver.FirstExisting` | luainstaller/source/dependency_analyzer.py:527-529 | the first candidate that exists, and none exactly when no candidate exists |
| `Resolver.LookupMeaning` | luainstaller/source/dependency_analyzer.py:521-538 | a Lua file is the first existing Lua candidate; C modules count only when no Lua candidate exists |
| `Resolver.SearchMeaning` | luainstaller/source/dependency_analyzer.py:520-545 | the result is that of the first search directory where something is found, and nothing is found only if no directory has a hit |
| `Resolver.Resolution` | luainstaller/source/dependency_analyzer.py:501-545 | a found module is an existing resolved path |
| `Resolver.NotFound` | luainstaller/source/dependency_analyzer.py:540-545 | a relative name lists only the requiring script's directory; any other name lists every search directory |
| `Resolver.OutcomeMeaning` | luainstaller/source/dependency_analyzer.py:531-538 | the result is a path exactly for a Lua hit; otherwise it is the not-found error or a C-module error for an existing C file |
| `Resolver.SearchPathsShape` | luainstaller/source/dependency_analyzer.py:474-499 | the base directory comes first, then the existing ones of `lua_modules`, `lib` and `src` in that order, then the LuaRocks directories |
| `Resolver.ExistingDirsMembers` | luainstaller/source/dependency_analyzer.py:491-493 | a local directory is listed exactly when it exists |
| `Resolver.PlainNameFoundInFirstDir` | luainstaller/source/dependency_analyzer.py:521-529 | `require("utils")` finds `utils.lua` in the first search directory |
| `Resolver.RelativeSameDir` | luainstaller/source/dependency_analyzer.py:547-576 | `require("./utils")` finds `utils.lua` next to the requiring script |
| `Resolver.RelativeParentDir` | luainstaller/source/dependency_analyzer.py:547-576 | `require("../config")` finds `config.lua` in the parent of the script's directory |
| `Resolver.ModuleResolver.constructor` | luainstaller/source/dependency_analyzer.py:410-417 | the base path is resolved and the search directories are built from it |
| `Resolver.ModuleResolver.BuildSearchPaths` | luainstaller/source/dependency_analyzer.py:474-499 | the loop builds exactly the ordered search directories |
| `Resolver.ModuleResolver.Resolve` | luainstaller/source/dependency_analyzer.py:501-545 | the result is an allowed outcome of the resolution, and a returned path exists and is resolved |
| `Resolver.ModuleResolver.ResolveRelative` | luainstaller/source/dependency_analyzer.py:547-592 | tries `x.lua` if already named so, otherwise `x.lua` then `x/init.lua`, then C modules; if nothing matches, the not-found error lists only the script's directory |
| `Resolver.ModuleResolver.TryCandidates` | luainstaller/source/dependency_analyzer.py:521-538 | looks no further exactly when nothing exists; otherwise it returns the first Lua hit or some existing C module |
| `Paths.Normalize` | luainstaller/source/dependency_analyzer.py:561 | a resolved path has no empty, `.` or `..` segment |
| `Paths.NormalizeIdempotent` | luainstaller/source/dependency_analyzer.py:511 | resolving a resolved path changes nothing |
| `Paths.JoinCurrentDir` | luainstaller/source/dependency_analyzer.py:558-561 | `dir / "./name"` resolves to `name` inside `dir` |
| `Paths.JoinParentDir` | luainstaller/source/dependency_analyzer.py:558-561 | `dir / "../name"` resolves to `name` inside the parent of `dir` |
| `Graph.IndexOf` | luainstaller/source/dependency_analyzer.py:660 | `list.index`: the first position holding the element |
| `Graph.DedupFacts` | luainstaller/source/dependency_analyzer.py:691-698 | the dependency list keeps every resolved file, adds none and repeats none |
| `Graph.DedupFirstSeen` | luainstaller/source/dependency_analyzer.py:691-698 | the dependency list keeps the order of first occurrence |
| `Graph.VisitFacts` | luainstaller/source/dependency_analyzer.py:721-730 | `visit` appends exactly what is reachable and not yet listed, after the old listing, keeping it sorted and free of repeats |
| `Graph.RemoveFirst` | luainstaller/source/dependency_analyzer.py:736-737 | `list.remove` deletes exactly the first occurrence, keeping the elements before and after it in order, and changes nothing when there is none |
| `Graph.WalkEndsWithEntry` | luainstaller/source/dependency_analyzer.py:733-737 | the walk from the entry lists the entry last, so removing it removes the last element |
| `Graph.ManifestFacts` | luainstaller/source/dependency_analyzer.py:709-739 | the manifest lists each file reachable from the entry, except the entry, exactly once and after all of its dependencies |
| `Graph.NoDupCardinality` | luainstaller/source/dependency_analyzer.py:644 | a list without repeats is as long as its set |
| `Analyzer.CycleChainEnds` | luainstaller/source/dependency_analyzer.py:658-662 | the cycle chain starts and ends with the file reached twice and runs over the stack from its position |
| `Analyzer.SelfRequireChain` | luainstaller/source/dependency_analyzer.py:658-662 | a script that requires itself yields the chain `[s, s]` |
| `Analyzer.PushKeeps` | luainstaller/source/dependency_analyzer.py:686-688 | pushing an existing file that is neither visited nor on the stack keeps `visiting` equal to the stack's elements, the stack free of repeats and disjoint from `visited` |
| `Analyzer.FinishKeeps` | luainstaller/source/dependency_analyzer.py:701-707 | recording the top file with finished dependencies, popping it and marking it visited keeps the invariant and the tree acyclic |
| `Analyzer.WalkTreeClosed` | luainstaller/source/dependency_analyzer.py:690-702 | every recorded dependency list has no repeats, and each file in it is itself a key of the tree |
| `Analyzer.WalkManifest` | luainstaller/source/dependency_analyzer.py:709-739 | after a walk, the manifest is as long as the visited files minus the entry, and lists them in dependency order |
| `Analyzer.WalkFailureKinds` | luainstaller/source/dependency_analyzer.py:630-640 | a failure cause of the walk is a circular-dependency, dynamic-require, module-not-found or C-module error, so an analysis error |
| `Analyzer.AnalyzableNoFailure` | luainstaller/source/dependency_analyzer.py:651-707 | when every file reachable from the entry scans, every require in it resolves to a Lua file and none requires a file on its own chain, the walk has no failure cause |
| `Analyzer.ResolveOnChain` | luainstaller/source/dependency_analyzer.py:693-699 | resolving a require of the last file of a reachable chain either yields a failure cause of the walk or extends the chain by the file it resolves to |
| `Analyzer.ReachesStep` | luainstaller/source/dependency_analyzer.py:693-699 | a chain from the entry followed by a require edge out of its last file is again a chain from the entry |
| `Analyzer.ReachesPrefix` | luainstaller/source/dependency_analyzer.py:658-662 | dropping the last file of a chain from the entry leaves a chain from the entry whose last file requires the dropped one |
| `Analyzer.DependencyAnalyzer.constructor` | luainstaller/source/dependency_analyzer.py:610-628 | empty traversal state, the resolved entry, and a resolver based at the entry's directory |
| `Analyzer.DependencyAnalyzer.Analyze` | luainstaller/source/dependency_analyzer.py:630-649 | after a walk that passes, fails with the limit error `(|visited| - 1, max)` exactly when that count exceeds the limit, and otherwise returns the manifest of the visited files other than the entry, each once, dependencies first; every other failure has a reachable cause (`WalkFailure`): the cycle chain of a require back into a chain from the entry that repeats no file, the scan error of a reachable file, or the resolution error of one of its requires; when no reachable file has such a cause (`Analyzable`), only the limit can fail; every failure is an analysis error |
| `Analyzer.DependencyAnalyzer.AnalyzeRecursive` | luainstaller/source/dependency_analyzer.py:651-707 | a file on the stack raises the cycle chain; a visited file is skipped; a missing file raises script-not-found; otherwise the file and all it reaches are visited and the stack is restored; any failure is a cause reachable from the entry or script-not-found for a missing file |
| `Analyzer.DependencyAnalyzer.AnalyzeFile` | luainstaller/source/dependency_analyzer.py:668-707 | scans the file, walks its requires, and records it with what it reaches; a failure is the scan error of this reachable file or a cause met further down the walk |
| `Analyzer.DependencyAnalyzer.Push` | luainstaller/source/dependency_analyzer.py:686-688 | adds the file to `visiting` and pushes it on the stack |
| `Analyzer.DependencyAnalyzer.Finish` | luainstaller/source/dependency_analyzer.py:701-707 | records the dependency list, pops the stack and moves the file from `visiting` to `visited` |
| `Analyzer.DependencyAnalyzer.AnalyzeRequires` | luainstaller/source/dependency_analyzer.py:690-699 | resolves each require in order and recurses into each new file once; the list is the de-duplicated resolutions; a failure is the resolution error of a require of this reachable file or a cause met below a dependency |
| `Analyzer.DependencyAnalyzer.AnalyzeDependency` | luainstaller/source/dependency_analyzer.py:693-699 | the recursive call on a newly seen dependency: on success the file and all it reaches are visited and join what the earlier dependencies reach; a failure is a cause reachable from the entry |
| `Analyzer.DependencyAnalyzer.GenerateManifest` | luainstaller/source/dependency_analyzer.py:709-739 | computes the post-order walk from the entry without the entry |
| `Analyzer.DependencyAnalyzer.VisitNode` | luainstaller/source/dependency_analyzer.py:721-730 | the recursive `visit` computes the functional walk with the seen set and listing threaded through |
| `Analyzer.NewAnalyzer` | luainstaller/source/dependency_analyzer.py:610-628 | fails with script-not-found exactly when the entry does not exist; otherwise the analyzer starts empty, at the resolved entry, with the limit given (36 by default) and the search directories of the entry's directory |
| `Analyzer.AnalyzeDependencies` | luainstaller/source/dependency_analyzer.py:771-803 | manual mode (off by default) returns `[]`; a missing entry fails with script-not-found; otherwise a failure is a cause reachable from the entry or the limit error with a count above `max` (36 by default), and without a reachable cause only the limit can fail; a manifest has no repeats, holds at most `max` existing files, and excludes the entry |
| `Errors.FormatMessage` | luainstaller/source/exceptions.py:32-36 | the message alone when details are None or empty, otherwise message, `"\nDetails: "` and details |
| `Errors.DetailsAppearInString` | luainstaller/source/exceptions.py:28-36 | whatever the details mention, the rendered error mentions |
| `Errors.ScriptPathAppearsInString` | luainstaller/source/exceptions.py:91-103 | a dependency-analysis error names its script path in `Dependency analysis failed for '<path>'` |
| `Errors.CircularDependencyMentionsChain` | luainstaller/source/exceptions.py:114-125 | the script path is the chain's first file, and every file of the chain appears in the message |
| `Errors.ModuleNotFoundMentions` | luainstaller/source/exceptions.py:284-300 | the message names the module, the requiring script and every searched path |
| `Errors.DependencyLimitMentionsNumbers` | luainstaller/source/exceptions.py:261-274 | the script path is `<multiple>`, and both the count and the limit appear in the message |
| `Errors.DynamicRequireMentionsStatement` | luainstaller/source/exceptions.py:235-250 | the message names the statement and says it is a dynamic require |
| `Errors.CompilationDetails` | luainstaller/source/exceptions.py:136-153 | the details start with the command and the rendered return code, are exactly that when stderr is absent or empty, and otherwise end with the stderr |
| `Errors.BinaryNotFoundDetails` | luainstaller/source/exceptions.py:47-62 | the details are None exactly when the available list is None or empty; otherwise the rendering appends the list joined with `, ` |
| `Text.IntToStringRoundTrip` | luainstaller/source/exceptions.py:144 | the decimal rendering of an int reads back as the same int |
| `Text.JoinContainsPart` | luainstaller/source/exceptions.py:120 | every part of a `join` occurs in the joined string |
| `Text.StripLeft` | luainstaller/source/dependency_analyzer.py:285 | `lstrip` drops exactly the leading characters that Python counts as whitespace, ASCII and Unicode alike |
| `Text.StripRight` | luainstaller/source/dependency_analyzer.py:285 | `rstrip` drops exactly the trailing characters that Python counts as whitespace, ASCII and Unicode alike |

## Left out

- LuaRocks detection (`_detect_luarocks`) is left out: the subprocess call, `os.linesep`/`os.name` handling and the per-entry cleaning of its output. Its directories are an input sequence `luarocks` of the resolver.
- File reading and the utf-8, gbk, latin-1 fallback are left out. The contents of each file are an abstract function `contents` from path to text, so a read error is not modelled.
- `Path.resolve()` follows no symbolic links here: it only removes `.` and empty segments and lets `..` drop a segment. Paths are POSIX only, and Windows drive letters and separators are not modelled.
- `str.isalnum` is the abstract predicate `isAlnum`; its Unicode tables are not modelled.
- Python's iteration order over `C_EXTENSIONS` is left out. When several C modules exist in one place, any one of them may be reported.
- `Resolver.ModuleResolver.Resolve`, `Analyzer.NewAnalyzer` and `Analyzer.AnalyzeDependencies`: the requiring script and the entry script are taken as absolute `Path` values, not as the caller's strings. The working directory that a relative entry is resolved against and the raw spelling the caller used are not modelled, so script-not-found and module-not-found render the path with `PathToString` where the source reports `str(...)` of what it was given.
- `Analyzer.DependencyAnalyzer.GenerateManifest`: the manifest holds paths rather than `str(path)`, and `remove` compares paths rather than their strings.
- `Analyzer.DependencyAnalyzer.AnalyzeRecursive`: on failure the contract states the cause and the invariant. It does not say how far the partial traversal state got before the error.
- `Analyzer.DependencyAnalyzer.Analyze` and `Analyzer.AnalyzeDependencies`: when several causes are reachable, which one is reported (the first met depth first) is not stated, and that a reachable cause always makes the analysis fail is not proved; the contracts state that every failure has a reachable cause and that without one only the limit can fail. On success `AnalyzeDependencies` states no repeats, the limit, existence and exclusion of the entry; the ordering and completeness of the manifest are stated on `Analyze`.
- `print_tree` and `print_dependency_tree` write to the console, and are left out.
- `luainstaller/source/engine.py` runs `luastatic` and probes tools; it is OS plumbing and is not part of this model. Of the exception classes, only those defined in `exceptions.py` appear.
- Recursion depth and Python's recursion limit are not modelled; the walk terminates because each nested call pushes an existing file that is not yet on the stack.
