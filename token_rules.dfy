/** The rules of the `LuaToken` table, stated on `Scanner.Scan`, which
    `Scanner.ScanIsLongestMatch` proves equal to logos's matching step
    `LuaToken.Step`. Each lemma describes the input at a position
    independently of how the scanner measures it, and says what is yielded
    there. */
module TokenRules {
  import opened Wrappers
  import opened LuaToken
  import opened Scanner

  // Words: keywords and identifiers.

  /** A maximal identifier-shaped word lexes as its keyword if it is reserved,
      and as an `Identifier` carrying the word otherwise. */
  lemma WordLexes(s: string, i: nat, j: nat)
    requires i < j <= |s| && Matches(Regex(IdentifierRe), s[i..j])
    requires j == |s| || !IsIdentChar(s[j])
    ensures KeywordToken(s[i..j]).Some? ==> Scan(s, i) == Emitted(KeywordToken(s[i..j]).value, j - i)
    ensures KeywordToken(s[i..j]).None? ==> Scan(s, i) == Emitted(Identifier(s[i..j]), j - i)
  {
    var w := s[i..j];
    assert w[0] == s[i];
    forall k | i + 1 <= k < j
      ensures IsIdentChar(s[k])
    {
      assert s[k] == w[k - i];
    }
    RunLenExact(s, i + 1, IsIdentChar, j - i - 1);
    assert Scan(s, i) == ScanWord(s, i);
  }

  /** A reserved word followed by a non-word character lexes as its keyword,
      although the identifier regex matches it just as long. */
  lemma KeywordBeatsIdentifier(s: string, i: nat, w: string)
    requires KeywordToken(w).Some? && StartsAt(w, s, i)
    requires i + |w| == |s| || !IsIdentChar(s[i + |w|])
    ensures MatchLen(Regex(IdentifierRe), s, i) == |w|
    ensures Scan(s, i) == Emitted(KeywordToken(w).value, |w|)
  {
    KeywordShape(w);
    assert s[i..i + |w|] == w;
    WordLexes(s, i, i + |w|);
    forall k | i + 1 <= k < i + |w|
      ensures IsIdentChar(s[k])
    {
      assert s[k] == w[k - i];
    }
    RunLenExact(s, i + 1, IsIdentChar, |w| - 1);
  }

  /** Longest match: a word that merely begins with a keyword is one identifier. */
  lemma AndroidIsIdentifier()
    ensures StartsAt("and", "android", 0)
    ensures Scan("android", 0) == Emitted(Identifier("android"), 7)
  {
    var s := "android";
    assert s[0..7] == s;
    WordLexes(s, 0, 7);
  }

  /** An emitted identifier is the maximal identifier-shaped word at `i`, it is
      the lexeme itself, and it is never a reserved word. */
  lemma IdentifierIsWord(s: string, i: nat)
    requires i < |s| && Scan(s, i).Emitted? && Scan(s, i).tok.Identifier?
    ensures var x := Scan(s, i).tok.text;
      Scan(s, i).len == |x| && StartsAt(x, s, i) &&
      Matches(Regex(IdentifierRe), x) && KeywordToken(x).None? &&
      (i + |x| == |s| || !IsIdentChar(s[i + |x|]))
  {
    if IsIdentStart(s[i]) && !StartsAt("--", s, i) {
      LongestMatches(Regex(IdentifierRe), s, i);
      RunLenIsRun(s, i + 1, IsIdentChar);
    }
  }

  /** The payload of a regex token is exactly its lexeme. */
  lemma PayloadIsLexeme(s: string, i: nat)
    requires i < |s|
    ensures Scan(s, i).Emitted? && HasPayload(Scan(s, i).tok) ==>
      Scan(s, i).tok.text == s[i..i + Scan(s, i).len]
  {
  }

  // Whitespace.

  /** A maximal run of space, tab, newline and form feed is skipped whole. */
  lemma WhitespaceSkipped(s: string, i: nat, j: nat)
    requires i < j <= |s|
    requires forall k :: i <= k < j ==> IsWhitespace(s[k])
    requires j == |s| || !IsWhitespace(s[j])
    ensures Scan(s, i) == Skipped(j - i)
  {
    RunLenExact(s, i, IsWhitespace, j - i);
  }

  // Strings.

  /** A quote closed by the same quote on the same line lexes as a string
      token whose payload is the whole lexeme, both quotes included. */
  lemma StringLexes(s: string, i: nat, j: nat)
    requires i < j <= |s| && (s[i] == '"' || s[i] == '\'')
    requires IsQuoted(s[i..j], s[i])
    ensures s[i] == '"' ==> Scan(s, i) == Emitted(DoubleQuoteString(s[i..j]), j - i)
    ensures s[i] == '\'' ==> Scan(s, i) == Emitted(SingleQuoteString(s[i..j]), j - i)
  {
    var q := s[i];
    var w := s[i..j];
    forall k | i + 1 <= k < j - 1
      ensures Interior(q)(s[k])
    {
      assert s[k] == w[k - i];
    }
    assert s[j - 1] == w[j - i - 1];
    RunLenExact(s, i + 1, Interior(q), j - i - 2);
    assert QuotedLen(s, i, q) == j - i;
    assert Scan(s, i) == ScanString(s, i);
  }

  /** An emitted string token is a quoted lexeme starting at `i`, and its
      variant is the one of its quote. */
  lemma StringIsQuoted(s: string, i: nat)
    requires i < |s| && Scan(s, i).Emitted?
    requires Scan(s, i).tok.DoubleQuoteString? || Scan(s, i).tok.SingleQuoteString?
    ensures var x := Scan(s, i).tok.text;
      Scan(s, i).len == |x| && StartsAt(x, s, i) && IsQuoted(x, s[i]) &&
      (Scan(s, i).tok.DoubleQuoteString? <==> s[i] == '"')
  {
    if s[i] == '"' || s[i] == '\'' {
      QuotedMatches(s, i, s[i]);
    }
  }

  /** A quote whose line, or the input, ends before a matching quote is an error. */
  lemma UnclosedStringIsError(s: string, i: nat, j: nat)
    requires i < j <= |s| && (s[i] == '"' || s[i] == '\'')
    requires forall k :: i < k < j ==> InQuote(s[i], s[k])
    requires j == |s| || s[j] == '\n'
    ensures Scan(s, i) == NoMatch
  {
    RunLenExact(s, i + 1, Interior(s[i]), j - i - 1);
  }

  // Operators.

  /** A two-character operator wins over its one-character prefix. */
  lemma TwoCharOperatorWins(s: string, i: nat, w: string)
    requires |w| == 2 && OperatorToken(w).Some? && StartsAt(w, s, i)
    ensures OperatorToken(w[..1]).Some? ==> MatchLen(Exact(w[..1], OperatorToken(w[..1]).value), s, i) == 1
    ensures Scan(s, i) == Emitted(OperatorToken(w).value, 2)
  {
    OperatorShape(w);
    assert s[i] == w[0];
    assert s[i..i + 1] == w[..1];
  }

  /** A one-character operator not followed by a character that extends it to
      a two-character operator or a comment lexes alone. */
  lemma OneCharOperator(s: string, i: nat)
    requires i < |s| && OperatorToken(s[i..i + 1]).Some? && !StartsAt("--", s, i)
    requires i + 2 <= |s| ==> OperatorToken(s[i..i + 2]).None?
    ensures Scan(s, i) == Emitted(OperatorToken(s[i..i + 1]).value, 1)
  {
    OperatorShape(s[i..i + 1]);
  }

  /** `~` and `.` are operators only as `~=` and `..`; alone they are errors. */
  lemma LoneTildeOrDotIsError(s: string, i: nat)
    requires i < |s| && (s[i] == '~' || s[i] == '.')
    requires !StartsAt("~=", s, i) && !StartsAt("..", s, i)
    ensures Scan(s, i) == NoMatch
  {
    assert s[i..i + 1] == [s[i]];
    if i + 2 <= |s| {
      assert s[i..i + 2] == [s[i], s[i + 1]];
    }
  }

  // Comments and minus.

  /** `--` skips to the end of its line (the newline stays), except when the
      block form `--[[?--]]` encloses a newline, which it alone can span. */
  lemma LineCommentSkipped(s: string, i: nat, j: nat)
    requires StartsAt("--", s, i) && i + 2 <= j <= |s|
    requires forall k :: i + 2 <= k < j ==> s[k] != '\n'
    requires j == |s| || s[j] == '\n'
    requires !BlockCommentAt(s, i) || s[i + 4] != '\n'
    ensures Scan(s, i) == Skipped(j - i)
  {
    assert s[i] == s[i..i + 2][0];
    RunLenExact(s, i + 2, NotNewline, j - i - 2);
    if BlockCommentAt(s, i) {
      BlockCommentLine(s, i);
    }
  }

  /** Inside the block form the line comment reaches past the closing `--]]`
      unless the enclosed character is a newline. */
  lemma BlockCommentLine(s: string, i: nat)
    requires BlockCommentAt(s, i) && s[i + 4] != '\n'
    ensures forall k :: i + 2 <= k < i + 9 ==> s[k] != '\n'
  {
    assert s[i + 2] == s[i..i + 4][2] && s[i + 3] == s[i..i + 4][3];
    forall k | i + 5 <= k < i + 9
      ensures s[k] != '\n'
    {
      assert s[k] == s[i + 5..i + 9][k - i - 5];
    }
  }

  /** The block form `--[[?--]]` around a newline is skipped as one span. */
  lemma BlockCommentSkipped(s: string, i: nat)
    requires BlockCommentAt(s, i) && s[i + 4] == '\n'
    ensures Scan(s, i) == Skipped(9)
  {
    assert s[i..i + 2] == s[i..i + 4][..2];
    assert s[i + 2] == s[i..i + 4][2] && s[i + 3] == s[i..i + 4][3];
    RunLenExact(s, i + 2, NotNewline, 2);
  }

  /** A `-` not followed by another `-` is the minus operator. */
  lemma MinusAlone(s: string, i: nat)
    requires i < |s| && s[i] == '-' && !StartsAt("--", s, i)
    ensures Scan(s, i) == Emitted(Minus, 1)
  {
    assert s[i..i + 1] == "-";
    if i + 2 <= |s| {
      assert s[i..i + 2] == ['-', s[i + 1]];
    }
    OneCharOperator(s, i);
  }

  // Numbers.

  /** A maximal run of digits and underscores led by a digit is an `Integer`
      carrying the run, unless it starts a hexadecimal literal. */
  lemma IntegerLexes(s: string, i: nat, j: nat)
    requires i < j <= |s| && Matches(Regex(IntegerRe), s[i..j]) && !HexAt(s, i)
    requires j == |s| || !IsDigitOrUnderscore(s[j])
    ensures Scan(s, i) == Emitted(Integer(s[i..j]), j - i)
  {
    var w := s[i..j];
    assert w[0] == s[i];
    forall k | i + 1 <= k < j
      ensures IsDigitOrUnderscore(s[k])
    {
      assert s[k] == w[k - i];
    }
    RunLenExact(s, i + 1, IsDigitOrUnderscore, j - i - 1);
  }

  /** `0x` and one hex digit is a `HexInteger` of exactly three characters: it
      beats the integer `0`, and the digits after it start the next token. */
  lemma HexBeatsInteger(s: string, i: nat)
    requires HexAt(s, i)
    ensures MatchLen(Regex(IntegerRe), s, i) == 1
    ensures Scan(s, i) == Emitted(HexInteger(s[i..i + 3]), 3)
  {
    RunLenExact(s, i + 1, IsDigitOrUnderscore, 0);
  }

  // Errors.

  /** The positions where no pattern matches, described by the input alone. */
  predicate Unrecognized(s: string, i: nat)
    requires i < |s|
  {
    var c := s[i];
    if c == '"' || c == '\'' then forall j :: i < j <= |s| ==> !IsQuoted(s[i..j], c)
    else if c == '~' then !StartsAt("~=", s, i)
    else if c == '.' then !StartsAt("..", s, i)
    else !IsWhitespace(c) && !IsIdentStart(c) && !IsDigit(c) && !IsOperatorStart(c)
  }

  /** Logos reports an error exactly at an unclosed quote, at a `~` or `.` that
      does not start an operator, and at a character that starts no pattern. */
  lemma NoMatchIff(s: string, i: nat)
    requires i < |s|
    ensures Scan(s, i) == NoMatch <==> Unrecognized(s, i)
  {
    var c := s[i];
    if c == '"' || c == '\'' {
      QuotedIff(s, i, c);
    } else if c == '~' || c == '.' {
      OperatorBranch(s, i);
      TildeOrDot(s, i);
    } else if c == '-' {
      if !StartsAt("--", s, i) {
        MinusAlone(s, i);
      }
    } else if !IsWhitespace(c) && !IsIdentStart(c) && !IsDigit(c) {
      OperatorBranch(s, i);
      OtherChar(s, i);
    }
  }

  /** A character that starts no word, number, string, comment or whitespace
      is left to the operator branch of the scanner. */
  lemma OperatorBranch(s: string, i: nat)
    requires i < |s| && !IsWhitespace(s[i]) && !IsIdentStart(s[i]) && !IsDigit(s[i])
    requires s[i] != '"' && s[i] != '\'' && s[i] != '-'
    ensures Scan(s, i) == ScanOperator(s, i)
  {
    if i + 2 <= |s| {
      assert s[i..i + 2][0] == s[i];
    }
  }

  /** A quoted string starts at `i` exactly when `QuotedLen` finds one. */
  lemma QuotedIff(s: string, i: nat, q: char)
    requires i < |s| && s[i] == q
    ensures QuotedLen(s, i, q) == 0 <==> forall j :: i < j <= |s| ==> !IsQuoted(s[i..j], q)
  {
    var n := QuotedLen(s, i, q);
    if n > 0 {
      QuotedMatches(s, i, q);
    } else {
      forall j | i < j <= |s|
        ensures !IsQuoted(s[i..j], q)
      {
        NoLongerQuoted(s, i, q, j - i);
      }
    }
  }

  lemma TildeOrDot(s: string, i: nat)
    requires i < |s| && (s[i] == '~' || s[i] == '.')
    ensures ScanOperator(s, i) == NoMatch <==> (if s[i] == '~' then !StartsAt("~=", s, i) else !StartsAt("..", s, i))
  {
    assert s[i..i + 1] == [s[i]];
    if i + 2 <= |s| {
      assert s[i..i + 2] == [s[i], s[i + 1]];
    }
  }

  lemma OtherChar(s: string, i: nat)
    requires i < |s| && s[i] != '~' && s[i] != '.' && s[i] != '-'
    ensures ScanOperator(s, i) == NoMatch <==> !IsOperatorStart(s[i])
  {
    assert s[i..i + 1] == [s[i]];
    if i + 2 <= |s| {
      assert s[i..i + 2] == [s[i], s[i + 1]];
    }
  }
}
