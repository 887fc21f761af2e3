// The behaviour of the require-extracting Lua lexer, as functions of the
// source text: the six-state machine, one step of it per character, the
// parsing of one `require` statement, and the whole scan. The class in
// lexer.dfy is proved to compute exactly these functions; the lemmas here
// say what the scan finds and what it skips.

module LexerSpec {
  import opened Text
  import opened Errors

  datatype LexerState =
    | Normal
    | InStringSingle
    | InStringDouble
    | InLongString
    | InLineComment
    | InBlockComment

  /** A static require found by the lexer: the module name and the line it was recorded at. */
  datatype Require = Require(name: string, line: int)

  /** Where the lexer stands: a position and the current line number. */
  datatype Cursor = Cursor(pos: nat, line: int)

  /** The outcome of parsing one require statement: the name, and where the lexer stands after it. */
  datatype Parsed = Parsed(name: string, pos: nat, line: int)

  const Keyword := "require"

  /** `_current_char` / `_peek_char`: the character at p, or "" past the end. */
  function CharAt(src: string, p: int): (s: string)
    ensures |s| <= 1
    ensures |s| == 1 <==> 0 <= p < |src|
    ensures |s| == 1 ==> s[0] == src[p]
  {
    if 0 <= p < |src| then [src[p]] else ""
  }

  /** The number of '\n' characters in s. */
  function Newlines(s: string): nat {
    if s == [] then 0 else (if s[0] == '\n' then 1 else 0) + Newlines(s[1..])
  }

  lemma {:induction false} NewlinesAppend(s: string, c: char)
    ensures Newlines(s + [c]) == Newlines(s) + (if c == '\n' then 1 else 0)
  {
    if s == [] {
      assert (s + [c])[1..] == [];
    } else {
      assert (s + [c])[1..] == s[1..] + [c];
      NewlinesAppend(s[1..], c);
    }
  }

  lemma {:induction false} NewlinesConcat(s: string, t: string)
    ensures Newlines(s + t) == Newlines(s) + Newlines(t)
  {
    if s == [] {
      assert s + t == t;
    } else {
      assert (s + t)[1..] == s[1..] + t;
      NewlinesConcat(s[1..], t);
    }
  }

  // ---------------------------------------------------------------------
  // The character-level tests of the lexer.

  /** The character at p is ch (false past either end). */
  predicate CharIs(src: string, p: int, ch: char) {
    0 <= p < |src| && src[p] == ch
  }

  /** kw occurs in src at pos, compared character by character. */
  predicate TextAt(src: string, pos: nat, kw: string)
    decreases |kw|
  {
    kw == [] || (pos < |src| && src[pos] == kw[0] && TextAt(src, pos + 1, kw[1..]))
  }

  /** The character comparison is `src[pos:].startswith(kw)`. */
  lemma {:induction false} TextAtStartsWith(src: string, pos: nat, kw: string)
    requires pos <= |src|
    ensures TextAt(src, pos, kw) <==> StartsWith(src[pos..], kw)
    decreases |kw|
  {
    if kw != [] && pos < |src| {
      TextAtStartsWith(src, pos + 1, kw[1..]);
      if |kw| <= |src| - pos {
        assert src[pos..][..|kw|] == [src[pos]] + src[pos + 1..][..|kw| - 1];
      }
    }
  }

  lemma {:induction false} TextAtEnd(src: string, pos: nat, kw: string)
    requires pos <= |src| && TextAt(src, pos, kw)
    ensures pos + |kw| <= |src|
    decreases |kw|
  {
    if kw != [] {
      TextAtEnd(src, pos + 1, kw[1..]);
    }
  }

  /** A character that may not touch the keyword on its left: an identifier character, '.' or ':'. */
  predicate JoinsBefore(c: char, isAlnum: char -> bool) {
    isAlnum(c) || c == '_' || c == '.' || c == ':'
  }

  /** A character that may not follow the keyword: an identifier character. */
  predicate JoinsAfter(c: char, isAlnum: char -> bool) {
    isAlnum(c) || c == '_'
  }

  /** `_match_keyword`: kw starts at pos, not after an identifier character, '.' or ':', and not before one. */
  predicate MatchKeyword(src: string, pos: nat, kw: string, isAlnum: char -> bool)
    requires pos <= |src|
  {
    TextAt(src, pos, kw)
    && !(pos >= 1 && JoinsBefore(src[pos - 1], isAlnum))
    && !(pos + |kw| < |src| && JoinsAfter(src[pos + |kw|], isAlnum))
  }

  lemma MatchKeywordAtR(src: string, pos: nat, isAlnum: char -> bool)
    requires pos <= |src| && MatchKeyword(src, pos, Keyword, isAlnum)
    ensures pos + |Keyword| <= |src| && src[pos] == 'r'
  {
    TextAtEnd(src, pos, Keyword);
  }

  /** The end of the run of '=' that starts at q. */
  function EqRunEnd(src: string, q: nat): (e: nat)
    requires q <= |src|
    ensures q <= e <= |src|
    decreases |src| - q
  {
    if q < |src| && src[q] == '=' then EqRunEnd(src, q + 1) else q
  }

  /** The run is maximal: all '=' up to its end, and no '=' at its end. */
  lemma {:induction false} EqRunEndFacts(src: string, q: nat)
    requires q <= |src|
    ensures var e := EqRunEnd(src, q);
      (forall k | q <= k < e :: src[k] == '=') && (e < |src| ==> src[e] != '=')
    decreases |src| - q
  {
    if q < |src| && src[q] == '=' {
      EqRunEndFacts(src, q + 1);
    }
  }

  /** A long bracket of level n made of the character b at p: `[==[` or `]==]` for n = 2. */
  predicate IsLongBracket(src: string, p: int, n: nat, b: char) {
    0 <= p && p + n + 1 < |src| && src[p] == b && src[p + n + 1] == b
    && forall k | p < k < p + n + 1 :: src[k] == '='
  }

  /** The run of '=' after a bracket at p is the only level a long bracket at p can have. */
  lemma LongBracketUnique(src: string, p: int, n: nat, b: char)
    requires IsLongBracket(src, p, n, b) && b != '='
    ensures EqRunEnd(src, p + 1) == p + n + 1
  {
    EqRunEndFacts(src, p + 1);
  }

  /** `_count_bracket_level`: the level of an opening long bracket at p, or -1 when there is none. */
  function LongBracketLevel(src: string, p: int): (r: int)
    ensures r >= -1
    ensures r >= 0 ==> IsLongBracket(src, p, r, '[')
  {
    if !(0 <= p < |src| && src[p] == '[') then
      -1
    else
      var e := EqRunEnd(src, p + 1);
      EqRunEndFacts(src, p + 1);
      if e < |src| && src[e] == '[' then e - p - 1 else -1
  }

  /** An opening long bracket at p has no other level than the one counted. */
  lemma LongBracketLevelUnique(src: string, p: int)
    ensures forall n: nat :: IsLongBracket(src, p, n, '[') ==> n == LongBracketLevel(src, p)
  {
    if 0 <= p < |src| && src[p] == '[' {
      LongBracketUniqueAll(src, p, '[');
    }
  }

  lemma LongBracketUniqueAll(src: string, p: int, b: char)
    requires 0 <= p < |src| && b != '='
    ensures forall n: nat :: IsLongBracket(src, p, n, b) ==> EqRunEnd(src, p + 1) == p + n + 1
  {
    forall n: nat | IsLongBracket(src, p, n, b) {
      LongBracketUnique(src, p, n, b);
    }
  }

  /** `_check_closing_bracket`: a closing long bracket of exactly the expected level starts at p. */
  predicate IsClosing(src: string, p: int, expected: int) {
    CharIs(src, p, ']')
    && var e := EqRunEnd(src, p + 1);
       e < |src| && src[e] == ']' && e - p - 1 == expected
  }

  /** The check accepts exactly a closing bracket `]=*]` with as many '=' as expected. */
  lemma IsClosingMeans(src: string, p: int, expected: int)
    ensures IsClosing(src, p, expected) <==> expected >= 0 && IsLongBracket(src, p, expected, ']')
  {
    if 0 <= p < |src| {
      LongBracketUniqueAll(src, p, ']');
      EqRunEndFacts(src, p + 1);
    }
  }

  /** The number of consecutive backslashes just before p. */
  function BackslashRun(src: string, p: nat): (r: nat)
    requires p <= |src|
    ensures r <= p
  {
    if p == 0 || src[p - 1] != '\\' then 0 else 1 + BackslashRun(src, p - 1)
  }

  /** The run is maximal: backslashes just before p, and none before the run. */
  lemma {:induction false} BackslashRunFacts(src: string, p: nat)
    requires p <= |src|
    ensures var r := BackslashRun(src, p);
      (forall k | p - r <= k < p :: src[k] == '\\') && (r < p ==> src[p - r - 1] != '\\')
  {
    if p > 0 && src[p - 1] == '\\' {
      BackslashRunFacts(src, p - 1);
    }
  }

  /** `_is_not_escaped`: an even number of backslashes precedes p. */
  predicate NotEscaped(src: string, p: nat)
    requires p <= |src|
  {
    p == 0 || BackslashRun(src, p) % 2 == 0
  }

  /** `_update_state`: the state and bracket level after looking at the character at pos. */
  function NextState(src: string, pos: nat, st: LexerState, lvl: int): (LexerState, int)
    requires pos < |src|
  {
    var c := src[pos];
    match st
    case Normal =>
      if c == '-' && CharIs(src, pos + 1, '-') then
        if CharIs(src, pos + 2, '[') && LongBracketLevel(src, pos + 2) >= 0 then
          (InBlockComment, LongBracketLevel(src, pos + 2))
        else
          (InLineComment, lvl)
      else if c == '\'' then (InStringSingle, lvl)
      else if c == '"' then (InStringDouble, lvl)
      else if c == '[' && LongBracketLevel(src, pos) >= 0 then (InLongString, LongBracketLevel(src, pos))
      else (Normal, lvl)
    case InStringSingle => if c == '\'' && NotEscaped(src, pos) then (Normal, lvl) else (st, lvl)
    case InStringDouble => if c == '"' && NotEscaped(src, pos) then (Normal, lvl) else (st, lvl)
    case InLongString => if c == ']' && IsClosing(src, pos, lvl) then (Normal, lvl) else (st, lvl)
    case InLineComment => if c == '\n' then (Normal, lvl) else (st, lvl)
    case InBlockComment => if c == ']' && IsClosing(src, pos, lvl) then (Normal, lvl) else (st, lvl)
  }

  // ---------------------------------------------------------------------
  // Parsing one require statement.

  predicate IsBlank(c: char) {
    c == ' ' || c == '\t' || c == '\n' || c == '\r'
  }

  /** The whitespace-skipping loop of `_parse_require`, counting the newlines it passes. */
  function SkipBlanks(src: string, p: nat, line: int): (c: Cursor)
    requires p <= |src|
    ensures p <= c.pos <= |src| && c.line >= line
    decreases |src| - p
  {
    if p < |src| && IsBlank(src[p]) then
      SkipBlanks(src, p + 1, if src[p] == '\n' then line + 1 else line)
    else
      Cursor(p, line)
  }

  /** The loop stops at the first character that is not a blank and counts the newlines it passed. */
  lemma {:induction false} SkipBlanksFacts(src: string, p: nat, line: int)
    requires p <= |src|
    ensures var c := SkipBlanks(src, p, line);
      (forall k | p <= k < c.pos :: IsBlank(src[k]))
      && (c.pos < |src| ==> !IsBlank(src[c.pos]))
      && c.line == line + Newlines(src[p..c.pos])
    decreases |src| - p
  {
    if p < |src| && IsBlank(src[p]) {
      var c := SkipBlanks(src, p + 1, if src[p] == '\n' then line + 1 else line);
      SkipBlanksFacts(src, p + 1, if src[p] == '\n' then line + 1 else line);
      assert src[p..c.pos][1..] == src[p + 1..c.pos];
    }
  }

  /** Where the blanks end does not depend on the line count carried along. */
  lemma SkipBlanksPos(src: string, p: nat, l1: int, l2: int)
    requires p <= |src|
    ensures SkipBlanks(src, p, l1).pos == SkipBlanks(src, p, l2).pos
    decreases |src| - p
  {
    if p < |src| && IsBlank(src[p]) {
      SkipBlanksPos(src, p + 1, if src[p] == '\n' then l1 + 1 else l1, if src[p] == '\n' then l2 + 1 else l2);
    }
  }

  /** Where the argument of a require starts: after blanks, an optional '(' and more blanks. */
  function ArgumentStart(src: string, p: nat, line: int): (c: Cursor)
    requires p <= |src|
    ensures p <= c.pos <= |src| && c.line >= line
  {
    var c1 := SkipBlanks(src, p, line);
    if CharIs(src, c1.pos, '(') then SkipBlanks(src, c1.pos + 1, c1.line) else c1
  }

  /**
   * The argument starts at the first character that is neither blank nor
   * the one optional `(`; a `(` is skipped only when nothing but blanks
   * precede it.
   */
  lemma ArgumentStartFacts(src: string, p: nat, line: int)
    requires p <= |src|
    ensures var a := ArgumentStart(src, p, line).pos;
      (forall k | p <= k < a :: IsBlank(src[k]) || src[k] == '(')
      && (forall k, j | p <= k < j < a :: !(src[k] == '(' && src[j] == '('))
      && (a < |src| ==> !IsBlank(src[a]))
      && ((forall k | p <= k < a :: IsBlank(src[k])) ==> !CharIs(src, a, '('))
      && ArgumentStart(src, p, line).line == line + Newlines(src[p..a])
  {
    var c1 := SkipBlanks(src, p, line);
    SkipBlanksFacts(src, p, line);
    if CharIs(src, c1.pos, '(') {
      var a := SkipBlanks(src, c1.pos + 1, c1.line).pos;
      SkipBlanksFacts(src, c1.pos + 1, c1.line);
      assert !IsBlank(src[c1.pos]);
      assert src[p..a] == src[p..c1.pos] + ([src[c1.pos]] + src[c1.pos + 1..a]);
      NewlinesConcat(src[p..c1.pos], [src[c1.pos]] + src[c1.pos + 1..a]);
      NewlinesConcat([src[c1.pos]], src[c1.pos + 1..a]);
    }
  }

  /** The end of the statement quoted by a dynamic-require error: the next '\n' or ';', or the end. */
  function StatementEnd(src: string, p: nat): (e: nat)
    requires p <= |src|
    ensures p <= e <= |src|
    decreases |src| - p
  {
    if p < |src| && src[p] != '\n' && src[p] != ';' then StatementEnd(src, p + 1) else p
  }

  /** The statement ends at the first '\n' or ';' from p, or at the end of the source. */
  lemma {:induction false} StatementEndFacts(src: string, p: nat)
    requires p <= |src|
    ensures var e := StatementEnd(src, p);
      (forall k | p <= k < e :: src[k] != '\n' && src[k] != ';') && (e < |src| ==> src[e] == '\n' || src[e] == ';')
    decreases |src| - p
  {
    if p < |src| && src[p] != '\n' && src[p] != ';' {
      StatementEndFacts(src, p + 1);
    }
  }

  /** The scan of `_extract_string_literal` from i: a backslash carries the next character with it. */
  function QuoteScan(src: string, i: nat, qc: char): (r: Option<nat>)
    ensures r.Some? ==> i <= r.value < |src| && src[r.value] == qc && NotEscaped(src, r.value)
    decreases |src| + 1 - i
  {
    if i >= |src| then None
    else if src[i] == qc && NotEscaped(src, i) then Some(i)
    else if src[i] == '\\' then QuoteScan(src, i + 2, qc)
    else QuoteScan(src, i + 1, qc)
  }

  /** A quote character qc at k with an even number of backslashes before it. */
  predicate IsUnescapedQuote(src: string, k: int, qc: char) {
    0 <= k < |src| && src[k] == qc && BackslashRun(src, k) % 2 == 0
  }

  /** The literal scan stops at the first quote preceded by an even run of backslashes. */
  lemma {:induction false} QuoteScanFindsFirstUnescaped(src: string, i: nat, qc: char)
    requires qc != '\\' && i <= |src| && BackslashRun(src, i) % 2 == 0
    ensures QuoteScan(src, i, qc).Some? ==> FirstUnescapedFrom(src, i, QuoteScan(src, i, qc).value, qc)
    ensures QuoteScan(src, i, qc).None? ==> NoUnescapedFrom(src, i, qc)
    decreases |src| - i
  {
    if i < |src| {
      if src[i] == qc && NotEscaped(src, i) {
        assert FirstUnescapedFrom(src, i, i, qc);
      } else if src[i] == '\\' {
        assert !IsUnescapedQuote(src, i, qc);
        if i + 1 < |src| {
          assert BackslashRun(src, i + 1) == 1 + BackslashRun(src, i);
          assert !IsUnescapedQuote(src, i + 1, qc);
          assert BackslashRun(src, i + 2) % 2 == 0 by {
            if src[i + 1] == '\\' {
              assert BackslashRun(src, i + 2) == 1 + BackslashRun(src, i + 1);
            }
          }
          QuoteScanFindsFirstUnescaped(src, i + 2, qc);
          UnescapedSkipTwo(src, i, qc);
        } else {
          assert QuoteScan(src, i, qc) == None;
        }
      } else {
        assert !IsUnescapedQuote(src, i, qc);
        assert BackslashRun(src, i + 1) == 0;
        QuoteScanFindsFirstUnescaped(src, i + 1, qc);
        UnescapedSkipOne(src, i, qc);
      }
    }
  }

  /** e is the first unescaped qc at or after i. */
  predicate FirstUnescapedFrom(src: string, i: int, e: int, qc: char) {
    i <= e && IsUnescapedQuote(src, e, qc) && forall k | i <= k < e :: !IsUnescapedQuote(src, k, qc)
  }

  /** No unescaped qc at or after i. */
  predicate NoUnescapedFrom(src: string, i: int, qc: char) {
    forall k | i <= k < |src| :: !IsUnescapedQuote(src, k, qc)
  }

  lemma UnescapedSkipOne(src: string, i: nat, qc: char)
    requires i < |src| && !IsUnescapedQuote(src, i, qc)
    ensures forall e :: FirstUnescapedFrom(src, i + 1, e, qc) ==> FirstUnescapedFrom(src, i, e, qc)
    ensures NoUnescapedFrom(src, i + 1, qc) ==> NoUnescapedFrom(src, i, qc)
  {
  }

  lemma UnescapedSkipTwo(src: string, i: nat, qc: char)
    requires i + 1 < |src| && !IsUnescapedQuote(src, i, qc) && !IsUnescapedQuote(src, i + 1, qc)
    ensures forall e :: FirstUnescapedFrom(src, i + 2, e, qc) ==> FirstUnescapedFrom(src, i, e, qc)
    ensures NoUnescapedFrom(src, i + 2, qc) ==> NoUnescapedFrom(src, i, qc)
  {
  }

  /** The loop of `_extract_long_string_literal`: the first closing bracket of the level from i on. */
  function LongEnd(src: string, i: nat, level: nat): (r: Option<nat>)
    ensures r.Some? ==> i <= r.value < |src|
    decreases |src| - i
  {
    if i >= |src| then None
    else if src[i] == ']' && IsClosing(src, i, level) then Some(i)
    else LongEnd(src, i + 1, level)
  }

  /** The loop finds the first closing bracket of the level, and with none it finds nothing. */
  lemma {:induction false} LongEndFacts(src: string, i: nat, level: nat)
    ensures var r := LongEnd(src, i, level);
      (r.Some? ==> IsLongBracket(src, r.value, level, ']') && forall k | i <= k < r.value :: !IsLongBracket(src, k, level, ']'))
      && (r.None? ==> forall k | i <= k < |src| :: !IsLongBracket(src, k, level, ']'))
    decreases |src| - i
  {
    if i < |src| {
      IsClosingMeans(src, i, level);
      if !(src[i] == ']' && IsClosing(src, i, level)) {
        LongEndFacts(src, i + 1, level);
      }
    }
  }

  /** `_check_no_concatenation`'s test: after blanks, `..` follows p. */
  predicate ConcatFollows(src: string, p: nat)
    requires p <= |src|
  {
    var q := SkipBlanks(src, p, 0).pos;
    CharIs(src, q, '.') && CharIs(src, q + 1, '.')
  }

  function ConcatError(path: string, startLine: int, name: string): Error {
    DynamicRequire(path, startLine, "require('" + name + "' .. ...) - String concatenation not supported")
  }

  /** `_check_no_concatenation`: fails exactly when `..` follows the literal. */
  function ConcatCheck(src: string, path: string, p: nat, startLine: int, name: string): (o: Outcome)
    requires p <= |src|
    ensures o.Fail? <==> ConcatFollows(src, p)
    ensures o.Fail? <==> exists q :: DotsAfterBlanks(src, p, q)
    ensures o.Fail? ==> o.error == ConcatError(path, startLine, name)
  {
    ConcatFollowsMeans(src, p);
    if ConcatFollows(src, p) then Fail(ConcatError(path, startLine, name)) else Pass
  }

  /** Two dots stand at q, after nothing but blanks from p. */
  predicate DotsAfterBlanks(src: string, p: nat, q: nat) {
    p <= q && q + 1 < |src| && src[q] == '.' && src[q + 1] == '.' && forall k | p <= k < q :: IsBlank(src[k])
  }

  /** `..` follows p exactly when two dots stand in the text after nothing but blanks. */
  lemma ConcatFollowsMeans(src: string, p: nat)
    requires p <= |src|
    ensures ConcatFollows(src, p) <==> exists q :: DotsAfterBlanks(src, p, q)
  {
    var c := SkipBlanks(src, p, 0).pos;
    SkipBlanksFacts(src, p, 0);
    forall q | DotsAfterBlanks(src, p, q)
      ensures q == c
    {
      if q < c {
        assert false;
      } else if c < q {
        assert false;
      }
    }
    if ConcatFollows(src, p) {
      assert DotsAfterBlanks(src, p, c);
    }
  }

  const UnterminatedString := "Unterminated string in require statement"
  const UnterminatedLongString := "Unterminated long string in require statement"

  /** `_extract_string_literal` for the quote at q (the class's loop is proved to compute this). */
  function QuotedLiteral(src: string, path: string, q: nat, line: int, startLine: int): (r: Result<Parsed>)
    requires q < |src| && (src[q] == '"' || src[q] == '\'')
    ensures r.Ok? ==> q + 1 < r.value.pos <= |src| && r.value.line == line
    ensures r.Err? ==> r.error.DynamicRequire? && r.error.scriptPath == path && r.error.lineNumber == startLine
  {
    match QuoteScan(src, q + 1, src[q])
    case None => Err(DynamicRequire(path, startLine, UnterminatedString))
    case Some(e) =>
      var name := src[q + 1..e];
      match ConcatCheck(src, path, e + 1, startLine, name)
      case Fail(err) => Err(err)
      case Pass => Ok(Parsed(name, e + 1, line))
  }

  /** The three outcomes of a quoted literal, one lemma each, for the class's return paths. */
  lemma QuotedLiteralEnds(src: string, path: string, q: nat, line: int, startLine: int, e: nat)
    requires q < |src| && (src[q] == '"' || src[q] == '\'') && QuoteScan(src, q + 1, src[q]) == Some(e)
    ensures QuotedLiteral(src, path, q, line, startLine)
         == match ConcatCheck(src, path, e + 1, startLine, src[q + 1..e])
            case Fail(err) => Err(err)
            case Pass => Ok(Parsed(src[q + 1..e], e + 1, line))
  {
  }

  lemma QuotedLiteralUnterminated(src: string, path: string, q: nat, line: int, startLine: int)
    requires q < |src| && (src[q] == '"' || src[q] == '\'') && QuoteScan(src, q + 1, src[q]) == None
    ensures QuotedLiteral(src, path, q, line, startLine) == Err(DynamicRequire(path, startLine, UnterminatedString))
  {
  }

  /**
   * A quoted require literal is the raw text up to the first matching quote
   * preceded by an even number of backslashes; without one, the literal is
   * unterminated; a `..` after it is a concatenation error.
   */
  lemma QuotedLiteralFacts(src: string, path: string, q: nat, line: int, startLine: int)
    requires q < |src| && (src[q] == '"' || src[q] == '\'')
    ensures var r := QuotedLiteral(src, path, q, line, startLine);
      r.Ok? ==>
        var e := r.value.pos - 1;
        FirstUnescapedFrom(src, q + 1, e, src[q]) && r.value.name == src[q + 1..e]
        && !ConcatFollows(src, r.value.pos)
    ensures NoUnescapedFrom(src, q + 1, src[q]) ==>
      QuotedLiteral(src, path, q, line, startLine) == Err(DynamicRequire(path, startLine, UnterminatedString))
  {
    assert BackslashRun(src, q + 1) == 0;
    QuoteScanFindsFirstUnescaped(src, q + 1, src[q]);
  }

  /** `_extract_long_string_literal` for an opening bracket of the level at p. */
  function LongLiteral(src: string, path: string, p: nat, level: nat, line: int, startLine: int): (r: Result<Parsed>)
    requires IsLongBracket(src, p, level, '[')
    ensures r.Ok? ==> p + 2 + level < r.value.pos <= |src| && r.value.line >= line
    ensures r.Err? ==> r.error.DynamicRequire? && r.error.scriptPath == path && r.error.lineNumber == startLine
  {
    var start := p + 2 + level;
    LongEndFacts(src, start, level);
    match LongEnd(src, start, level)
    case None => Err(DynamicRequire(path, startLine, UnterminatedLongString))
    case Some(e) =>
      var name := src[start..e];
      match ConcatCheck(src, path, e + 2 + level, startLine, name)
      case Fail(err) => Err(err)
      case Pass => Ok(Parsed(name, e + 2 + level, line + Newlines(name)))
  }

  /** The two outcomes of a long-bracket literal, one lemma each, for the class's return paths. */
  lemma LongLiteralEnds(src: string, path: string, p: nat, level: nat, line: int, startLine: int, e: nat)
    requires IsLongBracket(src, p, level, '[') && LongEnd(src, p + 2 + level, level) == Some(e)
    ensures e + 2 + level <= |src|
    ensures LongLiteral(src, path, p, level, line, startLine)
         == match ConcatCheck(src, path, e + 2 + level, startLine, src[p + 2 + level..e])
            case Fail(err) => Err(err)
            case Pass => Ok(Parsed(src[p + 2 + level..e], e + 2 + level, line + Newlines(src[p + 2 + level..e])))
  {
    LongEndFacts(src, p + 2 + level, level);
  }

  lemma LongLiteralUnterminated(src: string, path: string, p: nat, level: nat, line: int, startLine: int)
    requires IsLongBracket(src, p, level, '[') && LongEnd(src, p + 2 + level, level) == None
    ensures LongLiteral(src, path, p, level, line, startLine) == Err(DynamicRequire(path, startLine, UnterminatedLongString))
  {
  }

  /**
   * A long-bracket require literal is the raw text up to the first closing
   * bracket of the same level, and the newlines in it are counted.
   */
  lemma LongLiteralFacts(src: string, path: string, p: nat, level: nat, line: int, startLine: int)
    requires IsLongBracket(src, p, level, '[')
    ensures var r := LongLiteral(src, path, p, level, line, startLine);
      r.Ok? ==>
        var start := p + 2 + level;
        var e := r.value.pos - 2 - level;
        IsLongBracket(src, e, level, ']') && start <= e && r.value.name == src[start..e]
        && (forall k | start <= k < e :: !IsLongBracket(src, k, level, ']'))
        && r.value.line == line + Newlines(r.value.name)
        && !ConcatFollows(src, r.value.pos)
    ensures (forall k | p + 2 + level <= k < |src| :: !IsLongBracket(src, k, level, ']')) ==>
      LongLiteral(src, path, p, level, line, startLine) == Err(DynamicRequire(path, startLine, UnterminatedLongString))
  {
    LongEndFacts(src, p + 2 + level, level);
  }

  /** `_parse_require` at a matched keyword: a literal argument, or a dynamic-require error. */
  function ParseRequire(src: string, path: string, pos: nat, line: int): (r: Result<Parsed>)
    requires pos + |Keyword| <= |src|
    ensures r.Ok? ==> pos + |Keyword| < r.value.pos <= |src| && r.value.line >= line
    ensures r.Err? ==> r.error.DynamicRequire? && r.error.scriptPath == path && r.error.lineNumber == line
  {
    var a := ArgumentStart(src, pos + |Keyword|, line);
    if CharIs(src, a.pos, '"') || CharIs(src, a.pos, '\'') then
      QuotedLiteral(src, path, a.pos, a.line, line)
    else if CharIs(src, a.pos, '[') && LongBracketLevel(src, a.pos) >= 0 then
      LongLiteral(src, path, a.pos, LongBracketLevel(src, a.pos), a.line, line)
    else
      Err(DynamicRequire(path, line, Strip(src[pos..StatementEnd(src, a.pos)])))
  }

  /** The argument is a quoted literal. */
  lemma ParseRequireQuoted(src: string, path: string, pos: nat, line: int)
    requires pos + |Keyword| <= |src|
    requires var a := ArgumentStart(src, pos + |Keyword|, line); CharIs(src, a.pos, '"') || CharIs(src, a.pos, '\'')
    ensures var a := ArgumentStart(src, pos + |Keyword|, line);
      a.pos < |src| && ParseRequire(src, path, pos, line) == QuotedLiteral(src, path, a.pos, a.line, line)
  {
  }

  /** Any other argument is a dynamic require, reported with the statement's text up to its end. */
  lemma ParseRequireDynamic(src: string, path: string, pos: nat, line: int)
    requires pos + |Keyword| <= |src|
    requires var a := ArgumentStart(src, pos + |Keyword|, line);
      !CharIs(src, a.pos, '"') && !CharIs(src, a.pos, '\'') && !(CharIs(src, a.pos, '[') && LongBracketLevel(src, a.pos) >= 0)
    ensures var a := ArgumentStart(src, pos + |Keyword|, line);
      ParseRequire(src, path, pos, line) == Err(DynamicRequire(path, line, Strip(src[pos..StatementEnd(src, a.pos)])))
  {
  }

  /**
   * A require whose argument is a quoted literal: the quote stands after
   * blanks and at most one `(`, and the name is the raw text up to the first
   * matching quote not escaped by a backslash, with no `..` after it.
   */
  lemma ParseRequireQuotedName(src: string, path: string, pos: nat, line: int)
    requires pos + |Keyword| <= |src|
    requires var q := ArgumentStart(src, pos + |Keyword|, line).pos; CharIs(src, q, '"') || CharIs(src, q, '\'')
    requires ParseRequire(src, path, pos, line).Ok?
    ensures var q := ArgumentStart(src, pos + |Keyword|, line).pos;
      var r := ParseRequire(src, path, pos, line).value;
      (forall k | pos + |Keyword| <= k < q :: IsBlank(src[k]) || src[k] == '(')
      && (forall k, j | pos + |Keyword| <= k < j < q :: !(src[k] == '(' && src[j] == '('))
      && FirstUnescapedFrom(src, q + 1, r.pos - 1, src[q]) && r.name == src[q + 1..r.pos - 1]
      && !exists d :: DotsAfterBlanks(src, r.pos, d)
  {
    var a := ArgumentStart(src, pos + |Keyword|, line);
    ArgumentStartFacts(src, pos + |Keyword|, line);
    ParseRequireQuoted(src, path, pos, line);
    QuotedLiteralFacts(src, path, a.pos, a.line, line);
    ConcatFollowsMeans(src, ParseRequire(src, path, pos, line).value.pos);
  }

  /**
   * A require whose argument is a long-bracket literal `[=*[` of some level:
   * the name is the text up to the first closing bracket of the same level,
   * the line advances by the newlines before the literal and inside it, and
   * no `..` follows.
   */
  lemma ParseRequireLongName(src: string, path: string, pos: nat, line: int, level: nat)
    requires pos + |Keyword| <= |src|
    requires IsLongBracket(src, ArgumentStart(src, pos + |Keyword|, line).pos, level, '[')
    requires ParseRequire(src, path, pos, line).Ok?
    ensures var q := ArgumentStart(src, pos + |Keyword|, line).pos;
      var r := ParseRequire(src, path, pos, line).value;
      var e := r.pos - 2 - level;
      (forall k | pos + |Keyword| <= k < q :: IsBlank(src[k]) || src[k] == '(')
      && q + 2 + level <= e && IsLongBracket(src, e, level, ']') && r.name == src[q + 2 + level..e]
      && (forall k | q + 2 + level <= k < e :: !IsLongBracket(src, k, level, ']'))
      && r.line == line + Newlines(src[pos + |Keyword|..q]) + Newlines(r.name)
      && !exists d :: DotsAfterBlanks(src, r.pos, d)
  {
    var a := ArgumentStart(src, pos + |Keyword|, line);
    ArgumentStartFacts(src, pos + |Keyword|, line);
    LongBracketLevelUnique(src, a.pos);
    ParseRequireLong(src, path, pos, line);
    LongLiteralFacts(src, path, a.pos, level, a.line, line);
    ConcatFollowsMeans(src, ParseRequire(src, path, pos, line).value.pos);
  }

  /**
   * A require whose argument starts with neither a quote nor a long bracket
   * is dynamic: the error is reported at the keyword's line with the stripped
   * text from the keyword to the first `\n` or `;` after the argument start.
   */
  lemma ParseRequireDynamicText(src: string, path: string, pos: nat, line: int)
    requires pos + |Keyword| <= |src|
    requires var q := ArgumentStart(src, pos + |Keyword|, line).pos;
      !CharIs(src, q, '"') && !CharIs(src, q, '\'') && forall n: nat :: !IsLongBracket(src, q, n, '[')
    ensures var q := ArgumentStart(src, pos + |Keyword|, line).pos;
      exists e | q <= e <= |src| ::
        && (forall k | q <= k < e :: src[k] != '\n' && src[k] != ';')
        && (e < |src| ==> src[e] == '\n' || src[e] == ';')
        && ParseRequire(src, path, pos, line) == Err(DynamicRequire(path, line, Strip(src[pos..e])))
  {
    var a := ArgumentStart(src, pos + |Keyword|, line);
    var e := StatementEnd(src, a.pos);
    StatementEndFacts(src, a.pos);
    ParseRequireDynamic(src, path, pos, line);
  }

  /** The argument is a long-bracket literal. */
  lemma ParseRequireLong(src: string, path: string, pos: nat, line: int)
    requires pos + |Keyword| <= |src|
    requires var a := ArgumentStart(src, pos + |Keyword|, line); CharIs(src, a.pos, '[') && LongBracketLevel(src, a.pos) >= 0
    ensures var a := ArgumentStart(src, pos + |Keyword|, line);
      ParseRequire(src, path, pos, line) == LongLiteral(src, path, a.pos, LongBracketLevel(src, a.pos), a.line, line)
  {
  }

  // ---------------------------------------------------------------------
  // The whole scan.

  /** The name a parse yields, as the class's methods return it. */
  function NameOf(r: Result<Parsed>): Result<string> {
    match r
    case Ok(p) => Ok(p.name)
    case Err(e) => Err(e)
  }

  /** Prefixes the requires found so far to the outcome of the rest of the scan. */
  function Prepend(found: seq<Require>, rest: Result<seq<Require>>): Result<seq<Require>> {
    match rest
    case Ok(rs) => Ok(found + rs)
    case Err(e) => Err(e)
  }

  lemma PrependPrepend(a: seq<Require>, b: seq<Require>, rest: Result<seq<Require>>)
    ensures Prepend(a, Prepend(b, rest)) == Prepend(a + b, rest)
  {
    if rest.Ok? {
      assert a + (b + rest.value) == (a + b) + rest.value;
    }
  }

  /** `extract_requires` run from the given lexer state to the end of the source. */
  function Scan(src: string, path: string, isAlnum: char -> bool, pos: nat, line: int, st: LexerState, lvl: int)
    : Result<seq<Require>>
    decreases |src| + 1 - pos, 3
  {
    if pos >= |src| then Ok([]) else ScanChar(src, path, isAlnum, pos, line, st, lvl)
  }

  /** One pass of the loop: step the state machine on the character at pos, then look for the keyword. */
  function ScanChar(src: string, path: string, isAlnum: char -> bool, pos: nat, line: int, st: LexerState, lvl: int)
    : Result<seq<Require>>
    requires pos < |src|
    decreases |src| + 1 - pos, 2
  {
    var next := NextState(src, pos, st, lvl);
    if next.0 == Normal && MatchKeyword(src, pos, Keyword, isAlnum) then
      ScanRequire(src, path, isAlnum, pos, line, next.1)
    else
      Scan(src, path, isAlnum, pos + 1, if src[pos] == '\n' then line + 1 else line, next.0, next.1)
  }

  /** The scan at a keyword in normal code: parse the statement, then go on after it. */
  function ScanRequire(src: string, path: string, isAlnum: char -> bool, pos: nat, line: int, lvl: int)
    : Result<seq<Require>>
    requires pos < |src| && MatchKeyword(src, pos, Keyword, isAlnum)
    decreases |src| + 1 - pos, 1
  {
    MatchKeywordAtR(src, pos, isAlnum);
    AfterParse(src, path, isAlnum, pos, ParseRequire(src, path, pos, line), lvl)
  }

  /**
   * What follows the parse of a statement at pos: a failed parse ends the
   * scan; otherwise a non-empty name is recorded at the line the parse ends
   * on, and the scan goes on one character past where the parse stopped, in
   * normal code. (The line count is not bumped there: the character the loop
   * looked at before parsing is the keyword's 'r'.)
   */
  function AfterParse(src: string, path: string, isAlnum: char -> bool, pos: nat, p: Result<Parsed>, lvl: int)
    : Result<seq<Require>>
    requires p.Ok? ==> pos < p.value.pos <= |src|
    decreases |src| + 1 - pos, 0
  {
    match p
    case Err(e) => Err(e)
    case Ok(pr) =>
      var found := if pr.name != "" then [Require(pr.name, pr.line)] else [];
      Prepend(found, Scan(src, path, isAlnum, pr.pos + 1, pr.line, Normal, lvl))
  }

  /** One step of the scan at a keyword in normal code, where the state machine has gone to lvl. */
  lemma ScanAtKeyword(src: string, path: string, isAlnum: char -> bool, pos: nat, line: int, st: LexerState, lvl: int, lvl': int)
    requires pos < |src| && NextState(src, pos, st, lvl) == (Normal, lvl') && MatchKeyword(src, pos, Keyword, isAlnum)
    ensures Scan(src, path, isAlnum, pos, line, st, lvl) == ScanRequire(src, path, isAlnum, pos, line, lvl')
  {
  }

  /** One step of the scan anywhere else, where the state machine has gone to (st', lvl') and the line to line'. */
  lemma ScanElsewhere(src: string, path: string, isAlnum: char -> bool, pos: nat, line: int, st: LexerState, lvl: int,
                      st': LexerState, lvl': int, line': int)
    requires pos < |src| && NextState(src, pos, st, lvl) == (st', lvl')
    requires !(st' == Normal && MatchKeyword(src, pos, Keyword, isAlnum))
    requires line' == if src[pos] == '\n' then line + 1 else line
    ensures Scan(src, path, isAlnum, pos, line, st, lvl) == Prepend([], Scan(src, path, isAlnum, pos + 1, line', st', lvl'))
  {
    var rest := Scan(src, path, isAlnum, pos + 1, line', st', lvl');
    if rest.Ok? {
      assert [] + rest.value == rest.value;
    }
  }

  /** `LuaLexer(source, file_path).extract_requires()`. */
  function ExtractRequires(src: string, path: string, isAlnum: char -> bool): (r: Result<seq<Require>>)
    ensures r.Ok? ==> forall i | 0 <= i < |r.value| :: r.value[i].line >= 1 && r.value[i].name != ""
    ensures r.Ok? ==> forall i, j | 0 <= i < j < |r.value| :: r.value[i].line <= r.value[j].line
    ensures r.Err? ==> r.error.DynamicRequire? && r.error.scriptPath == path && r.error.lineNumber >= 1
  {
    ScanFacts(src, path, isAlnum, 0, 1, Normal, 0);
    Scan(src, path, isAlnum, 0, 1, Normal, 0)
  }

  /** Names are non-empty and lines start at `line` and never decrease. */
  predicate LinesFrom(rs: seq<Require>, line: int) {
    (forall i | 0 <= i < |rs| :: rs[i].line >= line && rs[i].name != "")
    && (forall i, j | 0 <= i < j < |rs| :: rs[i].line <= rs[j].line)
  }

  /** The facts every scan from `line` on satisfies. */
  predicate ScanSound(r: Result<seq<Require>>, path: string, line: int) {
    match r
    case Ok(rs) => LinesFrom(rs, line)
    case Err(e) => e.DynamicRequire? && e.scriptPath == path && e.lineNumber >= line
  }

  lemma ScanSoundWeaken(r: Result<seq<Require>>, path: string, line: int, line2: int)
    requires ScanSound(r, path, line2) && line <= line2
    ensures ScanSound(r, path, line)
  {
  }

  lemma ScanSoundPrepend(name: string, path: string, line: int, l: int, rest: Result<seq<Require>>)
    requires line <= l && ScanSound(rest, path, l)
    ensures ScanSound(Prepend(if name != "" then [Require(name, l)] else [], rest), path, line)
  {
    if rest.Ok? && name != "" {
      var rs := [Require(name, l)] + rest.value;
      assert forall i | 1 <= i < |rs| :: rs[i] == rest.value[i - 1];
    }
  }

  /**
   * Every name found is non-empty, the lines recorded start at the current
   * line and never decrease, and the only failure is a dynamic require.
   */
  lemma {:induction false} ScanFacts(src: string, path: string, isAlnum: char -> bool, pos: nat, line: int, st: LexerState, lvl: int)
    ensures ScanSound(Scan(src, path, isAlnum, pos, line, st, lvl), path, line)
    decreases |src| + 1 - pos, 1
  {
    if pos < |src| {
      var next := NextState(src, pos, st, lvl);
      assert Scan(src, path, isAlnum, pos, line, st, lvl) == ScanChar(src, path, isAlnum, pos, line, st, lvl);
      if next.0 == Normal && MatchKeyword(src, pos, Keyword, isAlnum) {
        MatchKeywordAtR(src, pos, isAlnum);
        assert ScanRequire(src, path, isAlnum, pos, line, next.1)
            == AfterParse(src, path, isAlnum, pos, ParseRequire(src, path, pos, line), next.1);
        AfterParseFacts(src, path, isAlnum, pos, line, ParseRequire(src, path, pos, line), next.1);
      } else {
        var line2 := if src[pos] == '\n' then line + 1 else line;
        ScanFacts(src, path, isAlnum, pos + 1, line2, next.0, next.1);
        ScanSoundWeaken(Scan(src, path, isAlnum, pos + 1, line2, next.0, next.1), path, line, line2);
      }
    }
  }

  lemma {:induction false} AfterParseFacts(src: string, path: string, isAlnum: char -> bool, pos: nat, line: int, p: Result<Parsed>, lvl: int)
    requires p.Ok? ==> pos < p.value.pos <= |src| && p.value.line >= line
    requires p.Err? ==> p.error.DynamicRequire? && p.error.scriptPath == path && p.error.lineNumber == line
    ensures ScanSound(AfterParse(src, path, isAlnum, pos, p, lvl), path, line)
    decreases |src| + 1 - pos, 0
  {
    if p.Ok? {
      var pr := p.value;
      ScanFacts(src, path, isAlnum, pr.pos + 1, pr.line, Normal, lvl);
      ScanSoundPrepend(pr.name, path, line, pr.line, Scan(src, path, isAlnum, pr.pos + 1, pr.line, Normal, lvl));
    }
  }

  /** Where no keyword stands at an identifier boundary, nothing is extracted and nothing fails. */
  lemma {:induction false} NoKeywordNoRequires(src: string, path: string, isAlnum: char -> bool, pos: nat, line: int, st: LexerState, lvl: int)
    requires forall p | pos <= p < |src| :: !MatchKeyword(src, p, Keyword, isAlnum)
    ensures Scan(src, path, isAlnum, pos, line, st, lvl) == Ok([])
    decreases |src| + 1 - pos
  {
    if pos < |src| {
      var next := NextState(src, pos, st, lvl);
      NoKeywordNoRequires(src, path, isAlnum, pos + 1, if src[pos] == '\n' then line + 1 else line, next.0, next.1);
    }
  }

  // ---------------------------------------------------------------------
  // Strings and comments are inert: the scan passes over them without
  // looking for the keyword, and comes out in normal code where they end.

  /** Characters that keep a string or comment state open are passed over, counting newlines. */
  lemma {:induction false} ScanInert(src: string, path: string, isAlnum: char -> bool, pos: nat, j: nat, line: int, st: LexerState, lvl: int)
    requires st != Normal && pos <= j <= |src|
    requires forall k | pos <= k < j :: NextState(src, k, st, lvl) == (st, lvl)
    ensures Scan(src, path, isAlnum, pos, line, st, lvl)
         == Scan(src, path, isAlnum, j, line + Newlines(src[pos..j]), st, lvl)
    decreases j - pos
  {
    if pos < j {
      assert NextState(src, pos, st, lvl) == (st, lvl);
      assert src[pos..j][1..] == src[pos + 1..j];
      ScanInert(src, path, isAlnum, pos + 1, j, line + (if src[pos] == '\n' then 1 else 0), st, lvl);
    }
  }

  /** A string or comment state that runs to the end of the source yields nothing. */
  lemma InertToEnd(src: string, path: string, isAlnum: char -> bool, pos: nat, line: int, st: LexerState, lvl: int)
    requires st != Normal && pos <= |src|
    requires forall k | pos <= k < |src| :: NextState(src, k, st, lvl) == (st, lvl)
    ensures Scan(src, path, isAlnum, pos, line, st, lvl) == Ok([])
  {
    ScanInert(src, path, isAlnum, pos, |src|, line, st, lvl);
  }

  /** The character that closes a string or comment returns the scan to normal code just after it. */
  lemma ScanLeaves(src: string, path: string, isAlnum: char -> bool, pos: nat, e: nat, line: int, st: LexerState, lvl: int)
    requires st != Normal && pos <= e < |src| && src[e] != 'r'
    requires forall k | pos <= k < e :: NextState(src, k, st, lvl) == (st, lvl)
    requires NextState(src, e, st, lvl) == (Normal, lvl)
    ensures Scan(src, path, isAlnum, pos, line, st, lvl)
         == Scan(src, path, isAlnum, e + 1, line + Newlines(src[pos..e + 1]), Normal, lvl)
  {
    ScanInert(src, path, isAlnum, pos, e, line, st, lvl);
    if MatchKeyword(src, e, Keyword, isAlnum) {
      MatchKeywordAtR(src, e, isAlnum);
    }
    assert src[pos..e + 1] == src[pos..e] + [src[e]];
    NewlinesAppend(src[pos..e], src[e]);
  }

  /**
   * `--` not followed by a long bracket opens a line comment: nothing up to
   * the next newline is looked at, and the scan resumes after that newline.
   */
  lemma LineCommentSkipped(src: string, path: string, isAlnum: char -> bool, pos: nat, j: nat, line: int, lvl: int)
    requires pos + 1 < |src| && src[pos] == '-' && src[pos + 1] == '-' && LongBracketLevel(src, pos + 2) < 0
    requires pos + 1 < j <= |src| && (j < |src| ==> src[j] == '\n')
    requires forall k | pos + 1 <= k < j :: src[k] != '\n'
    ensures Scan(src, path, isAlnum, pos, line, Normal, lvl)
         == if j < |src| then Scan(src, path, isAlnum, j + 1, line + 1, Normal, lvl) else Ok([])
  {
    assert NextState(src, pos, Normal, lvl) == (InLineComment, lvl);
    assert Scan(src, path, isAlnum, pos, line, Normal, lvl) == Scan(src, path, isAlnum, pos + 1, line, InLineComment, lvl);
    if j < |src| {
      ScanLeaves(src, path, isAlnum, pos + 1, j, line, InLineComment, lvl);
      NewlinesNone(src, pos + 1, j);
      assert src[pos + 1..j + 1] == src[pos + 1..j] + [src[j]];
      NewlinesAppend(src[pos + 1..j], src[j]);
    } else {
      InertToEnd(src, path, isAlnum, pos + 1, line, InLineComment, lvl);
    }
  }

  lemma {:induction false} NewlinesNone(src: string, i: nat, j: nat)
    requires i <= j <= |src| && forall k | i <= k < j :: src[k] != '\n'
    ensures Newlines(src[i..j]) == 0
    decreases j - i
  {
    if i < j {
      assert src[i..j][1..] == src[i + 1..j];
      NewlinesNone(src, i + 1, j);
    }
  }

  /**
   * `--` followed by a long bracket of level L opens a block comment that only a
   * closing bracket of level L ends; the scan resumes in normal code after its first ']'.
   */
  lemma BlockCommentSkipped(src: string, path: string, isAlnum: char -> bool, pos: nat, e: nat, line: int, lvl: int, level: int)
    requires pos + 1 < |src| && src[pos] == '-' && src[pos + 1] == '-'
    requires level == LongBracketLevel(src, pos + 2) && level >= 0
    requires pos + 1 <= e <= |src|
    requires forall k | pos + 1 <= k < e :: !IsClosing(src, k, level)
    requires e < |src| ==> IsClosing(src, e, level)
    ensures Scan(src, path, isAlnum, pos, line, Normal, lvl)
         == if e < |src| then Scan(src, path, isAlnum, e + 1, line + Newlines(src[pos + 1..e]), Normal, level) else Ok([])
  {
    assert NextState(src, pos, Normal, lvl) == (InBlockComment, level);
    assert Scan(src, path, isAlnum, pos, line, Normal, lvl) == Scan(src, path, isAlnum, pos + 1, line, InBlockComment, level);
    RegionSkipped(src, path, isAlnum, pos + 1, e, line, InBlockComment, level);
  }

  /** An opening `[=*[` in normal code starts a long string that only a closer of its level ends. */
  lemma LongStringSkipped(src: string, path: string, isAlnum: char -> bool, pos: nat, e: nat, line: int, lvl: int, level: int)
    requires pos < |src| && src[pos] == '[' && level == LongBracketLevel(src, pos) && level >= 0
    requires pos + 1 <= e <= |src|
    requires forall k | pos + 1 <= k < e :: !IsClosing(src, k, level)
    requires e < |src| ==> IsClosing(src, e, level)
    ensures Scan(src, path, isAlnum, pos, line, Normal, lvl)
         == if e < |src| then Scan(src, path, isAlnum, e + 1, line + Newlines(src[pos + 1..e]), Normal, level) else Ok([])
  {
    assert NextState(src, pos, Normal, lvl) == (InLongString, level);
    assert Scan(src, path, isAlnum, pos, line, Normal, lvl) == Scan(src, path, isAlnum, pos + 1, line, InLongString, level);
    RegionSkipped(src, path, isAlnum, pos + 1, e, line, InLongString, level);
  }

  /** A quote in normal code starts a string that ends at the next quote of its kind not escaped by a backslash. */
  lemma QuotedStringSkipped(src: string, path: string, isAlnum: char -> bool, pos: nat, e: nat, line: int, lvl: int)
    requires pos < |src| && (src[pos] == '"' || src[pos] == '\'')
    requires pos + 1 <= e <= |src|
    requires forall k | pos + 1 <= k < e :: !(src[k] == src[pos] && NotEscaped(src, k))
    requires e < |src| ==> src[e] == src[pos] && NotEscaped(src, e)
    ensures Scan(src, path, isAlnum, pos, line, Normal, lvl)
         == if e < |src| then Scan(src, path, isAlnum, e + 1, line + Newlines(src[pos + 1..e]), Normal, lvl) else Ok([])
  {
    var st := if src[pos] == '"' then InStringDouble else InStringSingle;
    assert NextState(src, pos, Normal, lvl) == (st, lvl);
    assert Scan(src, path, isAlnum, pos, line, Normal, lvl) == Scan(src, path, isAlnum, pos + 1, line, st, lvl);
    RegionSkipped(src, path, isAlnum, pos + 1, e, line, st, lvl);
  }

  /** The common part of the three lemmas above, from the character after the opener. */
  lemma RegionSkipped(src: string, path: string, isAlnum: char -> bool, i: nat, e: nat, line: int, st: LexerState, lvl: int)
    requires st != Normal && i <= e <= |src|
    requires forall k | i <= k < e :: NextState(src, k, st, lvl) == (st, lvl)
    requires e < |src| ==> NextState(src, e, st, lvl) == (Normal, lvl) && src[e] != 'r' && src[e] != '\n'
    ensures Scan(src, path, isAlnum, i, line, st, lvl)
         == if e < |src| then Scan(src, path, isAlnum, e + 1, line + Newlines(src[i..e]), Normal, lvl) else Ok([])
  {
    if e < |src| {
      ScanLeaves(src, path, isAlnum, i, e, line, st, lvl);
      assert src[i..e + 1] == src[i..e] + [src[e]];
      NewlinesAppend(src[i..e], src[e]);
    } else {
      InertToEnd(src, path, isAlnum, i, line, st, lvl);
    }
  }

  // ---------------------------------------------------------------------
  // The character after a require literal. The loop of `extract_requires`
  // steps one character past where `_parse_require` stopped, without looking
  // at it: a newline there is not counted, so a require on the next line is
  // recorded one line too early.

  const TwoLines := "require'a'\nrequire'b'"

  lemma ParseTwoLinesFirst(path: string)
    ensures ParseRequire(TwoLines, path, 0, 1) == Ok(Parsed("a", 10, 1))
  {
    assert |TwoLines| == 21 && TwoLines[7] == '\'' && TwoLines[8] == 'a' && TwoLines[9] == '\'';
    assert TwoLines[10] == '\n' && TwoLines[11] == 'r';
    assert ArgumentStart(TwoLines, 7, 1) == Cursor(7, 1);
    assert BackslashRun(TwoLines, 9) == 0;
    assert QuoteScan(TwoLines, 9, '\'') == Some(9);
    assert QuoteScan(TwoLines, 8, '\'') == Some(9);
    assert TwoLines[8..9] == "a";
    assert SkipBlanks(TwoLines, 11, 1) == Cursor(11, 1);
    assert SkipBlanks(TwoLines, 10, 0).pos == 11;
    assert ConcatCheck(TwoLines, path, 10, 1, "a") == Pass;
    assert QuotedLiteral(TwoLines, path, 7, 1, 1) == Ok(Parsed("a", 10, 1));
  }

  lemma ParseTwoLinesSecond(path: string)
    ensures ParseRequire(TwoLines, path, 11, 1) == Ok(Parsed("b", 21, 1))
  {
    assert |TwoLines| == 21 && TwoLines[18] == '\'' && TwoLines[19] == 'b' && TwoLines[20] == '\'';
    assert ArgumentStart(TwoLines, 18, 1) == Cursor(18, 1);
    assert BackslashRun(TwoLines, 20) == 0;
    assert QuoteScan(TwoLines, 20, '\'') == Some(20);
    assert QuoteScan(TwoLines, 19, '\'') == Some(20);
    assert TwoLines[19..20] == "b";
    assert ConcatCheck(TwoLines, path, 21, 1, "b") == Pass;
    assert QuotedLiteral(TwoLines, path, 18, 1, 1) == Ok(Parsed("b", 21, 1));
  }

  lemma KeywordInTwoLines(isAlnum: char -> bool, p: nat)
    requires !isAlnum('\'') && !isAlnum('\n') && (p == 0 || p == 11)
    ensures MatchKeyword(TwoLines, p, Keyword, isAlnum) && NextState(TwoLines, p, Normal, 0) == (Normal, 0)
  {
    TextAtStartsWith(TwoLines, p, Keyword);
    assert TwoLines[p..][..7] == Keyword;
    assert p + 7 < |TwoLines| ==> TwoLines[p + 7] == '\'';
    assert p > 0 ==> TwoLines[p - 1] == '\n';
  }

  lemma ScanTwoLinesSecond(path: string, isAlnum: char -> bool)
    requires !isAlnum('\'') && !isAlnum('\n')
    ensures Scan(TwoLines, path, isAlnum, 11, 1, Normal, 0) == Ok([Require("b", 1)])
  {
    KeywordInTwoLines(isAlnum, 11);
    ParseTwoLinesSecond(path);
    ScanAtKeyword(TwoLines, path, isAlnum, 11, 1, Normal, 0, 0);
    assert Scan(TwoLines, path, isAlnum, 22, 1, Normal, 0) == Ok([]);
    assert AfterParse(TwoLines, path, isAlnum, 11, Ok(Parsed("b", 21, 1)), 0)
        == Prepend([Require("b", 1)], Scan(TwoLines, path, isAlnum, 22, 1, Normal, 0));
    assert [Require("b", 1)] + [] == [Require("b", 1)];
  }

  lemma ScanTwoLines(path: string, isAlnum: char -> bool)
    requires !isAlnum('\'') && !isAlnum('\n')
    ensures Scan(TwoLines, path, isAlnum, 0, 1, Normal, 0) == Ok([Require("a", 1), Require("b", 1)])
  {
    KeywordInTwoLines(isAlnum, 0);
    ParseTwoLinesFirst(path);
    ScanTwoLinesSecond(path, isAlnum);
    ScanAtKeyword(TwoLines, path, isAlnum, 0, 1, Normal, 0, 0);
    assert AfterParse(TwoLines, path, isAlnum, 0, Ok(Parsed("a", 10, 1)), 0)
        == Prepend([Require("a", 1)], Scan(TwoLines, path, isAlnum, 11, 1, Normal, 0));
    assert [Require("a", 1)] + [Require("b", 1)] == [Require("a", 1), Require("b", 1)];
  }

  /**
   * `require'a'` followed by a newline and `require'b'`: both are found, and
   * both are recorded at line 1, because the newline right after the first
   * literal is stepped over without being counted.
   */
  lemma NewlineAfterLiteralUncounted(path: string, isAlnum: char -> bool)
    requires !isAlnum('\'') && !isAlnum('\n')
    ensures ExtractRequires(TwoLines, path, isAlnum) == Ok([Require("a", 1), Require("b", 1)])
  {
    ScanTwoLines(path, isAlnum);
  }
}
