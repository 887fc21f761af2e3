// The require-extracting Lua lexer as the class it is in the source: a
// cursor (`pos`, `line`) and a state machine (`state`, `longBracketLevel`)
// that the methods advance in place. Each method is proved to do what the
// corresponding function of LexerSpec describes.

module Lexer {
  import opened Text
  import opened Errors
  import opened LexerSpec

  class LuaLexer {
    const source: string
    const filePath: string
    /** `str.isalnum` on one character. */
    const isAlnum: char -> bool
    var pos: nat
    var line: int
    var state: LexerState
    var longBracketLevel: int

    constructor(source: string, filePath: string, isAlnum: char -> bool)
      ensures this.source == source && this.filePath == filePath && this.isAlnum == isAlnum
      ensures pos == 0 && line == 1 && state == Normal && longBracketLevel == 0
    {
      this.source := source;
      this.filePath := filePath;
      this.isAlnum := isAlnum;
      pos := 0;
      line := 1;
      state := Normal;
      longBracketLevel := 0;
    }

    /** `extract_requires`: scans from the current state to the end of the source. */
    method ExtractRequires() returns (r: Result<seq<Require>>)
      modifies this
      ensures r == Scan(source, filePath, isAlnum, old(pos), old(line), old(state), old(longBracketLevel))
    {
      var found: seq<Require> := [];
      ghost var total := Scan(source, filePath, isAlnum, pos, line, state, longBracketLevel);
      assert Prepend([], total) == total by {
        if total.Ok? {
          assert [] + total.value == total.value;
        }
      }
      while pos < |source|
        invariant total == Prepend(found, Scan(source, filePath, isAlnum, pos, line, state, longBracketLevel))
        decreases |source| + 1 - pos
      {
        ghost var before := Scan(source, filePath, isAlnum, pos, line, state, longBracketLevel);
        var added := Advance();
        if added.Err? {
          return Err(added.error);
        }
        PrependPrepend(found, added.value, Scan(source, filePath, isAlnum, pos, line, state, longBracketLevel));
        found := found + added.value;
      }
      assert found + [] == found;
      return Ok(found);
    }

    /**
     * One pass of the loop of `extract_requires`: step the state machine on
     * the current character, parse a require that starts there in normal
     * code, count a newline, and move on one character.
     */
    method Advance() returns (added: Result<seq<Require>>)
      requires pos < |source|
      modifies this
      ensures added.Err? ==> Scan(source, filePath, isAlnum, old(pos), old(line), old(state), old(longBracketLevel)) == Err(added.error)
      ensures added.Ok? ==> old(pos) < pos
      ensures added.Ok? ==>
        Scan(source, filePath, isAlnum, old(pos), old(line), old(state), old(longBracketLevel))
        == Prepend(added.value, Scan(source, filePath, isAlnum, pos, line, state, longBracketLevel))
    {
      var c := source[pos];
      ghost var pos0, line0, st0, lvl0 := pos, line, state, longBracketLevel;
      UpdateState(c);
      var atKeyword := false;
      if state == Normal {
        atKeyword := MatchKeyword(Keyword);
      }
      if atKeyword {
        MatchKeywordAtR(source, pos, isAlnum);
        added := RequireAtKeyword(st0, lvl0);
        if added.Err? {
          return;
        }
      } else {
        added := Ok([]);
      }
      if c == '\n' {
        line := line + 1;
      }
      if !atKeyword {
        ScanElsewhere(source, filePath, isAlnum, pos0, line0, st0, lvl0, state, longBracketLevel, line);
      }
      pos := pos + 1;
    }

    /** The keyword branch of `extract_requires`: parse the statement and record a non-empty name. */
    method RequireAtKeyword(ghost st0: LexerState, ghost lvl0: int) returns (r: Result<seq<Require>>)
      requires pos < |source| && NextState(source, pos, st0, lvl0) == (Normal, longBracketLevel)
      requires LexerSpec.MatchKeyword(source, pos, Keyword, isAlnum)
      modifies this
      ensures r.Err? ==> Scan(source, filePath, isAlnum, old(pos), old(line), st0, lvl0) == Err(r.error)
      ensures r.Ok? ==> old(pos) < pos <= |source|
      ensures r.Ok? ==>
        Scan(source, filePath, isAlnum, old(pos), old(line), st0, lvl0)
        == Prepend(r.value, Scan(source, filePath, isAlnum, pos + 1, line, Normal, longBracketLevel))
      ensures state == old(state) && longBracketLevel == old(longBracketLevel)
    {
      MatchKeywordAtR(source, pos, isAlnum);
      ScanAtKeyword(source, filePath, isAlnum, pos, line, st0, lvl0, longBracketLevel);
      ghost var spec := LexerSpec.ParseRequire(source, filePath, pos, line);
      ghost var after := ScanRequire(source, filePath, isAlnum, pos, line, longBracketLevel);
      assert after == AfterParse(source, filePath, isAlnum, pos, spec, longBracketLevel);
      var moduleName := ParseRequire();
      if moduleName.Err? {
        return Err(moduleName.error);
      }
      if moduleName.value != "" {
        r := Ok([Require(moduleName.value, line)]);
      } else {
        r := Ok([]);
      }
    }

    /** `_match_keyword`: the keyword starts at `pos` and is not part of a longer name or a member access. */
    method MatchKeyword(keyword: string) returns (b: bool)
      requires pos <= |source|
      ensures b == LexerSpec.MatchKeyword(source, pos, keyword, isAlnum)
    {
      TextAtStartsWith(source, pos, keyword);
      if !StartsWith(source[pos..], keyword) {
        return false;
      }
      var prevPos := pos - 1;
      if prevPos >= 0 {
        var prevChar := source[prevPos];
        if isAlnum(prevChar) || prevChar in "_.:" {
          return false;
        }
      }
      var nextPos := pos + |keyword|;
      if nextPos < |source| {
        var nextChar := source[nextPos];
        if isAlnum(nextChar) || nextChar == '_' {
          return false;
        }
      }
      return true;
    }

    /** `_update_state`: one step of the state machine on the current character. */
    method UpdateState(c: char)
      requires pos < |source| && c == source[pos]
      modifies this
      ensures pos == old(pos) && line == old(line)
      ensures (state, longBracketLevel) == NextState(source, pos, old(state), old(longBracketLevel))
    {
      if state == Normal {
        if c == '-' && CharAt(source, pos + 1) == "-" {
          if CharAt(source, pos + 2) == "[" {
            var level := CountBracketLevel(2);
            if level >= 0 {
              state := InBlockComment;
              longBracketLevel := level;
              return;
            }
          }
          state := InLineComment;
        } else if c == '\'' {
          state := InStringSingle;
        } else if c == '"' {
          state := InStringDouble;
        } else if c == '[' {
          var level := CountBracketLevel(0);
          if level >= 0 {
            state := InLongString;
            longBracketLevel := level;
          }
        }
      } else if state == InStringSingle {
        if c == '\'' {
          var notEscaped := IsNotEscaped();
          if notEscaped {
            state := Normal;
          }
        }
      } else if state == InStringDouble {
        if c == '"' {
          var notEscaped := IsNotEscaped();
          if notEscaped {
            state := Normal;
          }
        }
      } else if state == InLongString || state == InBlockComment {
        if c == ']' {
          var closing := CheckClosingBracket(longBracketLevel);
          if closing {
            state := Normal;
          }
        }
      } else if c == '\n' {
        state := Normal;
      }
    }

    /** `_is_not_escaped`: counts the backslashes just before `pos`. */
    method IsNotEscaped() returns (b: bool)
      requires pos <= |source|
      ensures b == NotEscaped(source, pos)
    {
      if pos == 0 {
        return true;
      }
      var backslashCount := 0;
      var checkPos: int := pos - 1;
      while checkPos >= 0 && source[checkPos] == '\\'
        invariant -1 <= checkPos < pos
        invariant backslashCount == pos - 1 - checkPos
        invariant BackslashRun(source, pos) == backslashCount + BackslashRun(source, checkPos + 1)
      {
        backslashCount := backslashCount + 1;
        checkPos := checkPos - 1;
      }
      return backslashCount % 2 == 0;
    }

    /** `_count_bracket_level`: the level of an opening long bracket `startOffset` characters ahead. */
    method CountBracketLevel(startOffset: nat) returns (level: int)
      ensures level == LongBracketLevel(source, pos + startOffset)
    {
      var p := pos + startOffset;
      if p >= |source| || source[p] != '[' {
        return -1;
      }
      p := p + 1;
      level := 0;
      while p < |source| && source[p] == '='
        invariant pos + startOffset + 1 <= p <= |source|
        invariant level == p - (pos + startOffset + 1)
        invariant EqRunEnd(source, pos + startOffset + 1) == EqRunEnd(source, p)
      {
        level := level + 1;
        p := p + 1;
      }
      if p < |source| && source[p] == '[' {
        return level;
      }
      return -1;
    }

    /** `_check_closing_bracket`: a closing long bracket of the expected level starts at `pos`. */
    method CheckClosingBracket(expectedLevel: int) returns (b: bool)
      ensures b == IsClosing(source, pos, expectedLevel)
    {
      if CharAt(source, pos) != "]" {
        return false;
      }
      var p := pos + 1;
      var level := 0;
      while p < |source| && source[p] == '='
        invariant pos + 1 <= p <= |source|
        invariant level == p - pos - 1
        invariant EqRunEnd(source, pos + 1) == EqRunEnd(source, p)
      {
        level := level + 1;
        p := p + 1;
      }
      return p < |source| && source[p] == ']' && level == expectedLevel;
    }

    /** The whitespace-skipping loop of `_parse_require`. */
    method SkipWhitespace()
      requires pos <= |source|
      modifies this
      ensures Cursor(pos, line) == SkipBlanks(source, old(pos), old(line))
      ensures state == old(state) && longBracketLevel == old(longBracketLevel)
    {
      while pos < |source| && IsBlank(source[pos])
        invariant old(pos) <= pos <= |source|
        invariant SkipBlanks(source, old(pos), old(line)) == SkipBlanks(source, pos, line)
        invariant state == old(state) && longBracketLevel == old(longBracketLevel)
      {
        if source[pos] == '\n' {
          line := line + 1;
        }
        pos := pos + 1;
      }
    }

    /** `_parse_require` at a matched keyword. */
    method ParseRequire() returns (r: Result<string>)
      requires pos + |Keyword| <= |source|
      modifies this
      ensures var spec := LexerSpec.ParseRequire(source, filePath, old(pos), old(line));
        r == NameOf(spec) && (spec.Ok? ==> pos == spec.value.pos && line == spec.value.line)
      ensures state == old(state) && longBracketLevel == old(longBracketLevel)
    {
      var startPos := pos;
      var startLine := line;
      pos := pos + |Keyword|;
      SkipToArgument();
      var c := CharAt(source, pos);
      if c == "\"" || c == "'" {
        ParseRequireQuoted(source, filePath, startPos, startLine);
        r := ExtractStringLiteral(startLine);
        return;
      } else if c == "[" {
        var level := CountBracketLevel(0);
        if level >= 0 {
          ParseRequireLong(source, filePath, startPos, startLine);
          r := ExtractLongStringLiteral(level, startLine);
          return;
        }
      }
      ParseRequireDynamic(source, filePath, startPos, startLine);
      r := DynamicStatement(startPos, startLine);
    }

    /** The blanks, optional '(' and blanks that `_parse_require` skips before the argument. */
    method SkipToArgument()
      requires pos <= |source|
      modifies this
      ensures Cursor(pos, line) == ArgumentStart(source, old(pos), old(line))
      ensures state == old(state) && longBracketLevel == old(longBracketLevel)
    {
      SkipWhitespace();
      if CharAt(source, pos) == "(" {
        pos := pos + 1;
        SkipWhitespace();
      }
    }

    /** The dynamic-require error of `_parse_require`: the statement from its start to the next '\n' or ';'. */
    method DynamicStatement(startPos: nat, startLine: int) returns (r: Result<string>)
      requires startPos <= pos <= |source|
      ensures r == Err(DynamicRequire(filePath, startLine, Strip(source[startPos..StatementEnd(source, pos)])))
    {
      var endPos := pos;
      while endPos < |source| && source[endPos] != '\n' && source[endPos] != ';'
        invariant pos <= endPos <= |source|
        invariant StatementEnd(source, endPos) == StatementEnd(source, pos)
      {
        endPos := endPos + 1;
      }
      r := Err(DynamicRequire(filePath, startLine, Strip(source[startPos..endPos])));
    }

    /** `_extract_string_literal` at the opening quote. */
    method ExtractStringLiteral(startLine: int) returns (r: Result<string>)
      requires pos < |source| && (source[pos] == '"' || source[pos] == '\'')
      modifies this
      ensures var spec := QuotedLiteral(source, filePath, old(pos), old(line), startLine);
        r == NameOf(spec) && (spec.Ok? ==> pos == spec.value.pos && line == spec.value.line)
      ensures state == old(state) && longBracketLevel == old(longBracketLevel)
    {
      var quoteChar := source[pos];
      ghost var q := pos;
      pos := pos + 1;
      var result: string := "";
      while pos < |source|
        invariant q + 1 <= pos <= |source| + 1
        invariant line == old(line) && state == old(state) && longBracketLevel == old(longBracketLevel)
        invariant QuoteScan(source, q + 1, quoteChar) == QuoteScan(source, pos, quoteChar)
        invariant pos <= |source| ==> result == source[q + 1..pos]
        decreases |source| + 1 - pos
      {
        var c := source[pos];
        if c == quoteChar {
          var notEscaped := IsNotEscaped();
          if notEscaped {
            r := CloseQuotedLiteral(q, startLine, result);
            return;
          }
        }
        if c == '\\' {
          result := result + [c];
          pos := pos + 1;
          if pos < |source| {
            assert source[q + 1..pos + 1] == result + [source[pos]];
            result := result + [source[pos]];
          }
        } else {
          assert source[q + 1..pos + 1] == result + [c];
          result := result + [c];
        }
        pos := pos + 1;
      }
      QuotedLiteralUnterminated(source, filePath, q, old(line), startLine);
      r := Err(DynamicRequire(filePath, startLine, UnterminatedString));
    }

    /** The closing-quote branch of `_extract_string_literal`: step past the quote, then check for `..`. */
    method CloseQuotedLiteral(ghost q: nat, startLine: int, result: string) returns (r: Result<string>)
      requires q < pos < |source| && (source[q] == '"' || source[q] == '\'')
      requires QuoteScan(source, q + 1, source[q]) == Some(pos) && result == source[q + 1..pos]
      modifies this
      ensures var spec := QuotedLiteral(source, filePath, q, old(line), startLine);
        r == NameOf(spec) && (spec.Ok? ==> pos == spec.value.pos && line == spec.value.line)
      ensures state == old(state) && longBracketLevel == old(longBracketLevel)
    {
      QuotedLiteralEnds(source, filePath, q, line, startLine, pos);
      pos := pos + 1;
      var o := CheckNoConcatenation(startLine, result);
      if o.Fail? {
        return Err(o.error);
      }
      return Ok(result);
    }

    /** `_extract_long_string_literal` at an opening long bracket of the given level. */
    method ExtractLongStringLiteral(level: nat, startLine: int) returns (r: Result<string>)
      requires IsLongBracket(source, pos, level, '[')
      modifies this
      ensures var spec := LongLiteral(source, filePath, old(pos), level, old(line), startLine);
        r == NameOf(spec) && (spec.Ok? ==> pos == spec.value.pos && line == spec.value.line)
      ensures state == old(state) && longBracketLevel == old(longBracketLevel)
    {
      ghost var p := pos;
      pos := pos + 2 + level;
      ghost var start := pos;
      var result: string := "";
      while pos < |source|
        invariant start <= pos <= |source|
        invariant result == source[start..pos]
        invariant line == old(line) + Newlines(result)
        invariant LongEnd(source, start, level) == LongEnd(source, pos, level)
        invariant state == old(state) && longBracketLevel == old(longBracketLevel)
      {
        if source[pos] == ']' {
          var closing := CheckClosingBracket(level);
          if closing {
            r := CloseLongLiteral(p, old(line), level, startLine, result);
            return;
          }
        }
        NewlinesAppend(result, source[pos]);
        assert source[start..pos + 1] == result + [source[pos]];
        result := result + [source[pos]];
        if source[pos] == '\n' {
          line := line + 1;
        }
        pos := pos + 1;
      }
      LongLiteralUnterminated(source, filePath, p, level, old(line), startLine);
      r := Err(DynamicRequire(filePath, startLine, UnterminatedLongString));
    }

    /** The closing-bracket branch of `_extract_long_string_literal`: step past the bracket, then check for `..`. */
    method CloseLongLiteral(ghost p: nat, ghost line0: int, level: nat, startLine: int, result: string) returns (r: Result<string>)
      requires IsLongBracket(source, p, level, '[') && LongEnd(source, p + 2 + level, level) == Some(pos)
      requires result == source[p + 2 + level..pos] && line == line0 + Newlines(result)
      modifies this
      ensures var spec := LongLiteral(source, filePath, p, level, line0, startLine);
        r == NameOf(spec) && (spec.Ok? ==> pos == spec.value.pos && line == spec.value.line)
      ensures state == old(state) && longBracketLevel == old(longBracketLevel)
    {
      LongLiteralEnds(source, filePath, p, level, line0, startLine, pos);
      pos := pos + 2 + level;
      var o := CheckNoConcatenation(startLine, result);
      if o.Fail? {
        return Err(o.error);
      }
      return Ok(result);
    }

    /** `_check_no_concatenation`: fails if `..` follows; otherwise `pos` is left where it was. */
    method CheckNoConcatenation(startLine: int, moduleName: string) returns (o: Outcome)
      requires pos <= |source|
      modifies this
      ensures o == ConcatCheck(source, filePath, old(pos), startLine, moduleName)
      ensures o.Pass? ==> pos == old(pos)
      ensures line == old(line) && state == old(state) && longBracketLevel == old(longBracketLevel)
    {
      var savedPos := pos;
      while pos < |source| && IsBlank(source[pos])
        invariant savedPos <= pos <= |source|
        invariant SkipBlanks(source, savedPos, 0).pos == SkipBlanks(source, pos, 0).pos
        invariant line == old(line) && state == old(state) && longBracketLevel == old(longBracketLevel)
      {
        SkipBlanksPos(source, pos + 1, 0, if source[pos] == '\n' then 1 else 0);
        pos := pos + 1;
      }
      if pos + 2 <= |source| && source[pos..pos + 2] == ".." {
        return Fail(ConcatError(filePath, startLine, moduleName));
      }
      pos := savedPos;
      return Pass;
    }
  }
}
