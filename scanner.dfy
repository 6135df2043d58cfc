/** A hand-written scanner for the `LuaToken` table: it looks at the character
    under the cursor and measures only the patterns that can start there.
    `ScanIsLongestMatch` proves that it makes the same choice as the logos
    rules of `LuaToken.Step` at every position of every input. */
module Scanner {
  import opened Wrappers
  import opened LuaToken

  /** What the scanner finds at position `i`: it dispatches on the character there. */
  function Scan(s: string, i: nat): (o: Outcome)
    requires i < |s|
    ensures (o.Skipped? || o.Emitted?) ==> 0 < o.len && i + o.len <= |s|
  {
    var c := s[i];
    if IsWhitespace(c) then Skipped(RunLen(s, i, IsWhitespace))
    else if StartsAt("--", s, i) then ScanComment(s, i)
    else if IsIdentStart(c) then ScanWord(s, i)
    else if IsDigit(c) then ScanNumber(s, i)
    else if c == '"' || c == '\'' then ScanString(s, i)
    else ScanOperator(s, i)
  }

  /** `--` starts the line comment, unless the restricted block form is longer. */
  function ScanComment(s: string, i: nat): (o: Outcome)
    requires StartsAt("--", s, i)
    ensures o.Skipped? && 2 <= o.len && i + o.len <= |s|
  {
    var line := 2 + RunLen(s, i + 2, NotNewline);
    Skipped(if BlockCommentAt(s, i) && line < 9 then 9 else line)
  }

  /** An identifier-shaped word, which is a keyword if the lookup knows it. */
  function ScanWord(s: string, i: nat): (o: Outcome)
    requires i < |s|
    ensures o.Emitted? && 0 < o.len && i + o.len <= |s|
  {
    var n := 1 + RunLen(s, i + 1, IsIdentChar);
    var w := s[i..i + n];
    Emitted(if KeywordToken(w).Some? then KeywordToken(w).value else Identifier(w), n)
  }

  /** `0x` and one hex digit, else a decimal run. */
  function ScanNumber(s: string, i: nat): (o: Outcome)
    requires i < |s|
    ensures o.Emitted? && 0 < o.len && i + o.len <= |s|
  {
    if HexAt(s, i) then
      Emitted(HexInteger(s[i..i + 3]), 3)
    else
      var n := 1 + RunLen(s, i + 1, IsDigitOrUnderscore);
      Emitted(Integer(s[i..i + n]), n)
  }

  /** A string closed on the same line by the quote at `i`, or nothing. */
  function ScanString(s: string, i: nat): (o: Outcome)
    requires i < |s|
    ensures (o.Skipped? || o.Emitted?) ==> 0 < o.len && i + o.len <= |s|
  {
    var n := QuotedLen(s, i, s[i]);
    if n == 0 then NoMatch
    else if s[i] == '"' then Emitted(DoubleQuoteString(s[i..i + n]), n)
    else Emitted(SingleQuoteString(s[i..i + n]), n)
  }

  /** The two-character operator at `i` if there is one, else the one-character one. */
  function ScanOperator(s: string, i: nat): (o: Outcome)
    requires i < |s|
    ensures (o.Skipped? || o.Emitted?) ==> 0 < o.len && i + o.len <= |s|
  {
    if i + 2 <= |s| && OperatorToken(s[i..i + 2]).Some? then
      Emitted(OperatorToken(s[i..i + 2]).value, 2)
    else if OperatorToken(s[i..i + 1]).Some? then
      Emitted(OperatorToken(s[i..i + 1]).value, 1)
    else
      NoMatch
  }

  /** Which patterns can match at `i`, judged by the input at `i` alone. */
  predicate CanStartAt(q: Pattern, s: string, i: nat)
    requires i < |s|
  {
    match q
    case Skip(Whitespace) => IsWhitespace(s[i])
    case Skip(_) => StartsAt("--", s, i)
    case Exact(t, _) => |t| > 0 && t[0] == s[i]
    case Regex(IdentifierRe) => IsIdentStart(s[i])
    case Regex(DoubleQuoteRe) => s[i] == '"'
    case Regex(SingleQuoteRe) => s[i] == '\''
    case Regex(IntegerRe) => IsDigit(s[i])
    case Regex(HexIntegerRe) => s[i] == '0'
  }

  /** A pattern that matches at `i` can start there. */
  lemma FirstChar(q: Pattern, s: string, i: nat)
    requires i <= |s|
    ensures MatchLen(q, s, i) > 0 ==> i < |s| && CanStartAt(q, s, i)
  {
    if MatchLen(q, s, i) > 0 {
      match q
      case Skip(BlockComment) =>
        assert s[i..i + 2] == s[i..i + 4][..2];
      case Exact(t, _) =>
        assert s[i..i + |t|][0] == s[i];
      case _ =>
    }
  }

  /** What the scanner relies on about an entry of the table: an exact text is
      a keyword (an identifier-shaped word) or an operator of one or two
      characters, and the lookups give it the table's token. */
  predicate IsTableEntry(q: Pattern)
  {
    q.Exact? ==>
      |q.text| > 0 &&
      (IsIdentStart(q.text[0]) ==>
        KeywordToken(q.text) == Some(q.tok) && forall k :: 0 <= k < |q.text| ==> IsIdentChar(q.text[k])) &&
      (!IsIdentStart(q.text[0]) ==>
        OperatorToken(q.text) == Some(q.tok) && |q.text| <= 2 && IsOperatorStart(q.text[0]))
  }

  lemma TableEntry(q: Pattern)
    requires q in Patterns
    ensures IsTableEntry(q)
  {
    if q.Exact? {
      ExactEntry(q);
      LookupShape(q.text, q.tok);
    }
  }

  lemma LookupShape(w: string, t: Token)
    requires KeywordToken(w) == Some(t) || OperatorToken(w) == Some(t)
    ensures IsTableEntry(Exact(w, t))
  {
    if KeywordToken(w) == Some(t) {
      KeywordShape(w);
    } else {
      OperatorShape(w);
    }
  }

  /** `q` does not displace `p` as logos's choice at `i`. */
  predicate Loses(q: Pattern, p: Pattern, s: string, i: nat)
    requires i <= |s|
  {
    Better(p, q, s, i) || OutcomeOf(q, s, i) == OutcomeOf(p, s, i)
  }

  /** `Step` yields what `p` yields when every well-formed entry loses to `p`. */
  lemma ChosenIs(s: string, i: nat, p: Pattern)
    requires i <= |s| && (p.Exact? ==> p in Patterns)
    requires forall q :: IsTableEntry(q) ==> Loses(q, p, s, i)
    ensures Step(s, i) == OutcomeOf(p, s, i)
  {
    if p.Skip? {
      SkipAndRegexInTable(p.rule, IdentifierRe);
    } else if p.Regex? {
      SkipAndRegexInTable(Whitespace, p.re);
    }
    forall q | q in Patterns
      ensures Loses(q, p, s, i)
    {
      TableEntry(q);
    }
    StepIs(s, i, p);
  }

  /** `RunLen` equals the length of a run that is known to end. */
  lemma {:induction false} RunLenExact(s: string, i: nat, p: char -> bool, m: nat)
    requires i + m <= |s|
    requires forall k :: i <= k < i + m ==> p(s[k])
    requires i + m == |s| || !p(s[i + m])
    ensures RunLen(s, i, p) == m
    decreases m
  {
    if m > 0 {
      assert p(s[i]);
      RunLenExact(s, i + 1, p, m - 1);
    }
  }

  // One lemma per branch of `Scan`: the pattern the branch picks, and why
  // every entry of the table loses to it.

  lemma WhitespaceLoses(q: Pattern, s: string, i: nat)
    requires i < |s| && IsWhitespace(s[i]) && IsTableEntry(q)
    ensures Loses(q, Skip(Whitespace), s, i)
  {
    FirstChar(q, s, i);
  }

  function CommentPattern(s: string, i: nat): Pattern
    requires i <= |s|
  {
    if MatchLen(Skip(BlockComment), s, i) > MatchLen(Skip(LineComment), s, i)
    then Skip(BlockComment) else Skip(LineComment)
  }

  lemma CommentLoses(q: Pattern, s: string, i: nat)
    requires i < |s| && !IsWhitespace(s[i]) && StartsAt("--", s, i) && IsTableEntry(q)
    ensures Loses(q, CommentPattern(s, i), s, i)
  {
    assert s[i] == '-';
    FirstChar(q, s, i);
    if q.Exact? && MatchLen(q, s, i) > 0 {
      OperatorShape(q.text);
    }
  }

  function WordPattern(s: string, i: nat): Pattern
    requires i < |s|
  {
    var w := s[i..i + 1 + RunLen(s, i + 1, IsIdentChar)];
    if KeywordToken(w).Some? then Exact(w, KeywordToken(w).value) else Regex(IdentifierRe)
  }

  lemma IdentifierLoses(q: Pattern, s: string, i: nat)
    requires i < |s| && IsIdentStart(s[i]) && IsTableEntry(q)
    ensures Loses(q, WordPattern(s, i), s, i)
  {
    FirstChar(q, s, i);
    WordPatternLength(s, i);
    if q.Exact? && MatchLen(q, s, i) > 0 {
      KeywordLoses(q, s, i);
    }
  }

  lemma KeywordLoses(q: Pattern, s: string, i: nat)
    requires i < |s| && q.Exact? && StartsAt(q.text, s, i) && |q.text| > 0
    requires KeywordToken(q.text) == Some(q.tok)
    requires forall k :: 0 <= k < |q.text| ==> IsIdentChar(q.text[k])
    ensures Loses(q, WordPattern(s, i), s, i)
  {
    var n := 1 + RunLen(s, i + 1, IsIdentChar);
    KeywordWithinWord(q.text, s, i);
    if |q.text| == n {
      WholeWordKeyword(q, s, i);
    } else {
      WordPatternLength(s, i);
      assert MatchLen(q, s, i) == |q.text| < n;
      ShorterLoses(q, WordPattern(s, i), s, i);
    }
  }

  /** A pattern that does not match at `i` loses to any other. */
  lemma UnmatchedLoses(q: Pattern, p: Pattern, s: string, i: nat)
    requires i <= |s| && MatchLen(q, s, i) == 0
    ensures Loses(q, p, s, i)
  {
  }

  lemma ShorterLoses(q: Pattern, p: Pattern, s: string, i: nat)
    requires i <= |s| && MatchLen(q, s, i) < MatchLen(p, s, i)
    ensures Loses(q, p, s, i)
  {
  }

  /** A keyword that is the whole word at `i` is the pattern the scanner picks. */
  lemma WholeWordKeyword(q: Pattern, s: string, i: nat)
    requires i < |s| && q.Exact? && KeywordToken(q.text) == Some(q.tok)
    requires q.text == s[i..i + 1 + RunLen(s, i + 1, IsIdentChar)]
    ensures WordPattern(s, i) == q
  {
  }

  /** The pattern the scanner picks for a word matches the whole word. */
  lemma WordPatternLength(s: string, i: nat)
    requires i < |s| && IsIdentStart(s[i])
    ensures MatchLen(WordPattern(s, i), s, i) == 1 + RunLen(s, i + 1, IsIdentChar)
  {
  }

  /** A keyword occurring at `i` is no longer than the identifier-shaped word
      there, and as long only when it is that word. */
  lemma KeywordWithinWord(t: string, s: string, i: nat)
    requires StartsAt(t, s, i) && |t| > 0
    requires forall k :: 0 <= k < |t| ==> IsIdentChar(t[k])
    ensures |t| <= 1 + RunLen(s, i + 1, IsIdentChar)
    ensures |t| == 1 + RunLen(s, i + 1, IsIdentChar) ==> t == s[i..i + |t|]
  {
    forall k | i + 1 <= k < i + |t|
      ensures IsIdentChar(s[k])
    {
      assert s[k] == t[k - i];
    }
    RunLenIsMaximal(s, i + 1, IsIdentChar, |t| - 1);
  }

  lemma NumberLoses(q: Pattern, s: string, i: nat)
    requires i < |s| && IsDigit(s[i]) && IsTableEntry(q)
    ensures Loses(q, if HexAt(s, i) then Regex(HexIntegerRe) else Regex(IntegerRe), s, i)
  {
    var p := if HexAt(s, i) then Regex(HexIntegerRe) else Regex(IntegerRe);
    if q == Regex(IntegerRe) && HexAt(s, i) {
      // the integer pattern stops at the `x`
      RunLenExact(s, i + 1, IsDigitOrUnderscore, 0);
      ShorterLoses(q, p, s, i);
    } else if q != p {
      FirstChar(q, s, i);
      if q.Exact? {
        assert !IsOperatorStart(s[i]);
        NoExactAt(q, s, i);
      }
      assert MatchLen(q, s, i) == 0;
      UnmatchedLoses(q, p, s, i);
    }
  }

  /** No keyword or operator starts with a character that starts neither a
      word nor an operator. */
  lemma NoExactAt(q: Pattern, s: string, i: nat)
    requires i < |s| && !IsIdentStart(s[i]) && !IsOperatorStart(s[i])
    requires IsTableEntry(q) && q.Exact?
    ensures MatchLen(q, s, i) == 0
  {
    FirstChar(q, s, i);
  }

  lemma StringLoses(q: Pattern, s: string, i: nat)
    requires i < |s| && (s[i] == '"' || s[i] == '\'') && IsTableEntry(q)
    ensures Loses(q, if s[i] == '"' then Regex(DoubleQuoteRe) else Regex(SingleQuoteRe), s, i)
  {
    var p := if s[i] == '"' then Regex(DoubleQuoteRe) else Regex(SingleQuoteRe);
    if q != p {
      FirstChar(q, s, i);
      if q.Exact? {
        assert !IsOperatorStart(s[i]);
        NoExactAt(q, s, i);
      }
      assert MatchLen(q, s, i) == 0;
      UnmatchedLoses(q, p, s, i);
    }
  }

  /** The operator the scanner picks at `i`: the two-character one if there is
      one, else the one-character one; `Regex(IntegerRe)`, which cannot match
      here, stands for "none". */
  function OperatorPattern(s: string, i: nat): Pattern
    requires i < |s|
  {
    if i + 2 <= |s| && OperatorToken(s[i..i + 2]).Some? then Exact(s[i..i + 2], OperatorToken(s[i..i + 2]).value)
    else if OperatorToken(s[i..i + 1]).Some? then Exact(s[i..i + 1], OperatorToken(s[i..i + 1]).value)
    else Regex(IntegerRe)
  }

  lemma OperatorLoses(q: Pattern, s: string, i: nat)
    requires i < |s| && !IsWhitespace(s[i]) && !StartsAt("--", s, i)
    requires !IsIdentStart(s[i]) && !IsDigit(s[i]) && s[i] != '"' && s[i] != '\''
    requires IsTableEntry(q)
    ensures Loses(q, OperatorPattern(s, i), s, i)
  {
    FirstChar(q, s, i);
    if q.Exact? && MatchLen(q, s, i) > 0 {
      OperatorEntryLoses(q, s, i);
    } else {
      assert MatchLen(q, s, i) == 0;
      OperatorPatternLength(s, i);
    }
  }

  /** An operator occurring at `i` loses to the one the scanner picks: it is
      that one, or a one-character prefix of a two-character operator. */
  lemma OperatorEntryLoses(q: Pattern, s: string, i: nat)
    requires i < |s| && !IsIdentStart(s[i]) && IsTableEntry(q)
    requires q.Exact? && StartsAt(q.text, s, i) && q.text[0] == s[i]
    ensures Loses(q, OperatorPattern(s, i), s, i)
  {
    if |q.text| == 2 {
      assert q.text == s[i..i + 2];
    } else {
      assert q.text == s[i..i + 1];
    }
  }

  /** The operator the scanner picks, if any, matches at `i`. */
  lemma OperatorPatternLength(s: string, i: nat)
    requires i < |s| && !IsDigit(s[i])
    ensures OperatorPattern(s, i).Exact? ==> MatchLen(OperatorPattern(s, i), s, i) > 0
    ensures !OperatorPattern(s, i).Exact? ==> MatchLen(OperatorPattern(s, i), s, i) == 0
  {
  }

  /** The pattern whose outcome the scanner returns at `i`. */
  function Chosen(s: string, i: nat): Pattern
    requires i < |s|
  {
    var c := s[i];
    if IsWhitespace(c) then Skip(Whitespace)
    else if StartsAt("--", s, i) then CommentPattern(s, i)
    else if IsIdentStart(c) then WordPattern(s, i)
    else if IsDigit(c) then (if HexAt(s, i) then Regex(HexIntegerRe) else Regex(IntegerRe))
    else if c == '"' then Regex(DoubleQuoteRe)
    else if c == '\'' then Regex(SingleQuoteRe)
    else OperatorPattern(s, i)
  }

  /** Every well-formed entry loses to the pattern the scanner picks. */
  lemma ChosenWins(q: Pattern, s: string, i: nat)
    requires i < |s| && IsTableEntry(q)
    ensures Loses(q, Chosen(s, i), s, i)
  {
    var c := s[i];
    if IsWhitespace(c) {
      WhitespaceLoses(q, s, i);
    } else if StartsAt("--", s, i) {
      CommentLoses(q, s, i);
    } else if IsIdentStart(c) {
      IdentifierLoses(q, s, i);
    } else if IsDigit(c) {
      NumberLoses(q, s, i);
    } else if c == '"' || c == '\'' {
      StringLoses(q, s, i);
    } else {
      OperatorLoses(q, s, i);
    }
  }

  /** The scanner returns what its chosen pattern yields, and an exact chosen
      pattern is an entry of the table. */
  lemma ChosenYields(s: string, i: nat)
    requires i < |s|
    ensures OutcomeOf(Chosen(s, i), s, i) == Scan(s, i)
    ensures Chosen(s, i).Exact? ==> Chosen(s, i) in Patterns
  {
    var c := s[i];
    if IsWhitespace(c) {
    } else if StartsAt("--", s, i) {
    } else if IsIdentStart(c) {
      WordYields(s, i);
    } else if IsDigit(c) {
    } else if c == '"' || c == '\'' {
    } else {
      OperatorYields(s, i);
    }
  }

  lemma WordYields(s: string, i: nat)
    requires i < |s| && IsIdentStart(s[i])
    ensures OutcomeOf(WordPattern(s, i), s, i) == ScanWord(s, i)
    ensures WordPattern(s, i).Exact? ==> WordPattern(s, i) in Patterns
  {
    var w := s[i..i + 1 + RunLen(s, i + 1, IsIdentChar)];
    if KeywordToken(w).Some? {
      KeywordInTable(w);
    }
  }

  lemma OperatorYields(s: string, i: nat)
    requires i < |s| && !IsDigit(s[i])
    ensures OutcomeOf(OperatorPattern(s, i), s, i) == ScanOperator(s, i)
    ensures OperatorPattern(s, i).Exact? ==> OperatorPattern(s, i) in Patterns
  {
    if i + 2 <= |s| && OperatorToken(s[i..i + 2]).Some? {
      OperatorInTable(s[i..i + 2]);
    } else if OperatorToken(s[i..i + 1]).Some? {
      OperatorInTable(s[i..i + 1]);
    }
  }

  /** The scanner implements the logos rules: at every position it yields
      what the longest match over the whole table, with exact tokens
      preferred at equal length, yields. */
  lemma ScanIsLongestMatch(s: string, i: nat)
    requires i < |s|
    ensures Scan(s, i) == Step(s, i)
  {
    var p := Chosen(s, i);
    forall q | IsTableEntry(q)
      ensures Loses(q, p, s, i)
    {
      ChosenWins(q, s, i);
    }
    ChosenYields(s, i);
    ChosenIs(s, i, p);
  }
}
