/** The `LuaToken` pattern table and the matching rules the logos derive gives it.

    Each entry of `Patterns` is one line of the table: a skip pattern, an exact
    `#[token]` text, or a `#[regex]`. `Matches` is the language each pattern
    denotes, `MatchLen` the length of the longest match of a pattern at a
    position, and `Step` the choice logos makes among all patterns at a
    position: the longest match wins, and at equal length an exact token beats
    a regex. */
module LuaToken {
  import opened Wrappers

  /** The variants of `LuaToken`. Regex variants carry the matched slice. */
  datatype Token =
    // keywords
    | And | Break | Continue | Do | Else | Elseif | End | False | For | Function
    | Goto | If | In | Local | Nil | Not | Or | Repeat | Return | Then | True
    | Until | While
    // operators
    | Plus | Minus | Multiply | Divide | Modulus | Exponent | DoubleEqual | Equal
    | NotEqual | Greater | Less | GreaterEqual | LessEqual | Concatenate | Length
    // regex tokens, whose payload is the lexeme itself
    | Identifier(text: string)
    | DoubleQuoteString(text: string)
    | SingleQuoteString(text: string)
    | Integer(text: string)
    | HexInteger(text: string)

  /** The three `#[logos(skip ...)]` patterns. */
  datatype SkipRule = Whitespace | LineComment | BlockComment

  /** The five `#[regex]` token patterns that are modelled. */
  datatype RegexRule = IdentifierRe | DoubleQuoteRe | SingleQuoteRe | IntegerRe | HexIntegerRe

  datatype Pattern =
    | Skip(rule: SkipRule)
    | Exact(text: string, tok: Token)
    | Regex(re: RegexRule)

  /** What one position of the input yields: a skipped span, a token with the
      length of its lexeme, or nothing matched at all. */
  datatype Outcome = Skipped(len: nat) | Emitted(tok: Token, len: nat) | NoMatch

  /** The pattern table of `LuaToken`, in declaration order: the skip
      patterns, the keywords, the operators and the regexes. */
  const Patterns: seq<Pattern> := SkipPatterns + KeywordPatterns + OperatorPatterns + RegexPatterns

  const SkipPatterns: seq<Pattern> := [Skip(Whitespace), Skip(LineComment), Skip(BlockComment)]

  const KeywordPatterns: seq<Pattern> := [
    Exact("and", And), Exact("break", Break), Exact("continue", Continue),
    Exact("do", Do), Exact("else", Else), Exact("elseif", Elseif),
    Exact("end", End), Exact("false", False), Exact("for", For),
    Exact("function", Function), Exact("goto", Goto), Exact("if", If),
    Exact("in", In), Exact("local", Local), Exact("nil", Nil),
    Exact("not", Not), Exact("or", Or), Exact("repeat", Repeat),
    Exact("return", Return), Exact("then", Then), Exact("true", True),
    Exact("until", Until), Exact("while", While)
  ]

  const OperatorPatterns: seq<Pattern> := [
    Exact("+", Plus), Exact("-", Minus), Exact("*", Multiply),
    Exact("/", Divide), Exact("%", Modulus), Exact("^", Exponent),
    Exact("==", DoubleEqual), Exact("=", Equal), Exact("~=", NotEqual),
    Exact(">", Greater), Exact("<", Less), Exact(">=", GreaterEqual),
    Exact("<=", LessEqual), Exact("..", Concatenate), Exact("#", Length)
  ]

  const RegexPatterns: seq<Pattern> := [
    Regex(IdentifierRe), Regex(DoubleQuoteRe), Regex(SingleQuoteRe),
    Regex(IntegerRe), Regex(HexIntegerRe)
  ]

  // Character classes of the regexes (ASCII only, as written in the table).

  /** `[ \t\n\f]`; a carriage return is not in the class. */
  predicate IsWhitespace(c: char) { c == ' ' || c == '\t' || c == '\n' || c == '\U{000C}' }

  predicate IsLetter(c: char) { 'a' <= c <= 'z' || 'A' <= c <= 'Z' }

  predicate IsDigit(c: char) { '0' <= c <= '9' }

  /** `[a-zA-Z_]` */
  predicate IsIdentStart(c: char) { IsLetter(c) || c == '_' }

  /** `[a-zA-Z_0-9]` */
  predicate IsIdentChar(c: char) { IsIdentStart(c) || IsDigit(c) }

  /** `[0-9_]` */
  predicate IsDigitOrUnderscore(c: char) { IsDigit(c) || c == '_' }

  /** `[0-9a-fA-F]` */
  predicate IsHexDigit(c: char) { IsDigit(c) || 'a' <= c <= 'f' || 'A' <= c <= 'F' }

  /** `[^\n]` */
  predicate NotNewline(c: char) { c != '\n' }

  /** The interior class of a string quoted by `q`: `[^"\n]` or `[^'\n]`. */
  predicate InQuote(q: char, c: char) { c != q && c != '\n' }

  /** The interior class as a value, so that every use names the same function. */
  function Interior(q: char): char -> bool
  {
    c => InQuote(q, c)
  }

  /** The first character of every operator text. */
  predicate IsOperatorStart(c: char) {
    c in ['+', '-', '*', '/', '%', '^', '=', '~', '>', '<', '.', '#']
  }

  /** The variants built by a regex; they carry their lexeme. */
  predicate HasPayload(t: Token)
  {
    t.Identifier? || t.DoubleQuoteString? || t.SingleQuoteString? || t.Integer? || t.HexInteger?
  }

  /** The keyword texts of the table, case-sensitive. */
  function KeywordToken(w: string): (r: Option<Token>)
  {
    match w
    case "and" => Some(And)
    case "break" => Some(Break)
    case "continue" => Some(Continue)
    case "do" => Some(Do)
    case "else" => Some(Else)
    case "elseif" => Some(Elseif)
    case "end" => Some(End)
    case "false" => Some(False)
    case "for" => Some(For)
    case "function" => Some(Function)
    case "goto" => Some(Goto)
    case "if" => Some(If)
    case "in" => Some(In)
    case "local" => Some(Local)
    case "nil" => Some(Nil)
    case "not" => Some(Not)
    case "or" => Some(Or)
    case "repeat" => Some(Repeat)
    case "return" => Some(Return)
    case "then" => Some(Then)
    case "true" => Some(True)
    case "until" => Some(Until)
    case "while" => Some(While)
    case _ => None
  }

  /** The operator texts of the table. */
  function OperatorToken(w: string): (r: Option<Token>)
  {
    match w
    case "+" => Some(Plus)
    case "-" => Some(Minus)
    case "*" => Some(Multiply)
    case "/" => Some(Divide)
    case "%" => Some(Modulus)
    case "^" => Some(Exponent)
    case "==" => Some(DoubleEqual)
    case "=" => Some(Equal)
    case "~=" => Some(NotEqual)
    case ">" => Some(Greater)
    case "<" => Some(Less)
    case ">=" => Some(GreaterEqual)
    case "<=" => Some(LessEqual)
    case ".." => Some(Concatenate)
    case "#" => Some(Length)
    case _ => None
  }

  /** Keywords and operators carry no payload. */
  lemma LookupsHaveNoPayload(w: string)
    ensures KeywordToken(w).Some? ==> !HasPayload(KeywordToken(w).value)
    ensures OperatorToken(w).Some? ==> !HasPayload(OperatorToken(w).value)
  {
  }

  /** Every keyword is a word of the identifier regex. */
  lemma KeywordShape(w: string)
    requires KeywordToken(w).Some?
    ensures |w| >= 2 && IsIdentStart(w[0]) && forall k :: 0 <= k < |w| ==> IsIdentChar(w[k])
  {
  }

  /** Every operator is one or two characters and starts with an operator character. */
  lemma OperatorShape(w: string)
    requires OperatorToken(w).Some?
    ensures 1 <= |w| <= 2 && IsOperatorStart(w[0])
    ensures w[0] == '-' ==> w == "-"
  {
  }

  /** The exact entries of the table are the keywords and the operators. */
  lemma ExactEntry(q: Pattern)
    requires q in Patterns && q.Exact?
    ensures KeywordToken(q.text) == Some(q.tok) || OperatorToken(q.text) == Some(q.tok)
  {
    if q in KeywordPatterns {
      KeywordEntry(q);
    } else {
      OperatorEntry(q);
    }
  }

  /** The scanner's keyword lookup gives every keyword entry the token the table gives it. */
  lemma KeywordEntry(q: Pattern)
    requires q in KeywordPatterns
    ensures KeywordToken(q.text) == Some(q.tok)
  {
    KeywordLookupAToF();
    KeywordLookupGToW();
  }

  lemma KeywordLookupAToF()
    ensures KeywordToken("and") == Some(And)
    ensures KeywordToken("break") == Some(Break)
    ensures KeywordToken("continue") == Some(Continue)
    ensures KeywordToken("do") == Some(Do)
    ensures KeywordToken("else") == Some(Else)
    ensures KeywordToken("elseif") == Some(Elseif)
    ensures KeywordToken("end") == Some(End)
    ensures KeywordToken("false") == Some(False)
    ensures KeywordToken("for") == Some(For)
    ensures KeywordToken("function") == Some(Function)
  {
  }

  lemma KeywordLookupGToW()
    ensures KeywordToken("goto") == Some(Goto)
    ensures KeywordToken("if") == Some(If)
    ensures KeywordToken("in") == Some(In)
    ensures KeywordToken("local") == Some(Local)
    ensures KeywordToken("nil") == Some(Nil)
    ensures KeywordToken("not") == Some(Not)
    ensures KeywordToken("or") == Some(Or)
    ensures KeywordToken("repeat") == Some(Repeat)
    ensures KeywordToken("return") == Some(Return)
    ensures KeywordToken("then") == Some(Then)
    ensures KeywordToken("true") == Some(True)
    ensures KeywordToken("until") == Some(Until)
    ensures KeywordToken("while") == Some(While)
  {
  }

  /** The scanner's operator lookup gives every operator entry the token the table gives it. */
  lemma OperatorEntry(q: Pattern)
    requires q in OperatorPatterns
    ensures OperatorToken(q.text) == Some(q.tok)
  {
    OperatorLookup();
  }

  lemma OperatorLookup()
    ensures OperatorToken("+") == Some(Plus)
    ensures OperatorToken("-") == Some(Minus)
    ensures OperatorToken("*") == Some(Multiply)
    ensures OperatorToken("/") == Some(Divide)
    ensures OperatorToken("%") == Some(Modulus)
    ensures OperatorToken("^") == Some(Exponent)
    ensures OperatorToken("==") == Some(DoubleEqual)
    ensures OperatorToken("=") == Some(Equal)
    ensures OperatorToken("~=") == Some(NotEqual)
    ensures OperatorToken(">") == Some(Greater)
    ensures OperatorToken("<") == Some(Less)
    ensures OperatorToken(">=") == Some(GreaterEqual)
    ensures OperatorToken("<=") == Some(LessEqual)
    ensures OperatorToken("..") == Some(Concatenate)
    ensures OperatorToken("#") == Some(Length)
  {
  }

  /** Every skip rule and every regex rule has its entry in the table. */
  lemma SkipAndRegexInTable(k: SkipRule, r: RegexRule)
    ensures Skip(k) in Patterns && Regex(r) in Patterns
  {
    assert Skip(k) in SkipPatterns;
    assert Regex(r) in RegexPatterns;
  }

  lemma KeywordInTable(w: string)
    requires KeywordToken(w).Some?
    ensures Exact(w, KeywordToken(w).value) in Patterns
  {
  }

  lemma OperatorInTable(w: string)
    requires OperatorToken(w).Some?
    ensures Exact(w, OperatorToken(w).value) in Patterns
  {
  }

  /** The token built from a regex match whose lexeme is `w`. */
  function RegexToken(r: RegexRule, w: string): Token
  {
    match r
    case IdentifierRe => Identifier(w)
    case DoubleQuoteRe => DoubleQuoteString(w)
    case SingleQuoteRe => SingleQuoteString(w)
    case IntegerRe => Integer(w)
    case HexIntegerRe => HexInteger(w)
  }

  /** The language of each pattern: does the whole word `w` match it? */
  predicate Matches(p: Pattern, w: string)
  {
    match p
    case Skip(Whitespace) =>
      |w| >= 1 && forall k :: 0 <= k < |w| ==> IsWhitespace(w[k])
    case Skip(LineComment) =>
      |w| >= 2 && w[..2] == "--" && forall k :: 2 <= k < |w| ==> NotNewline(w[k])
    case Skip(BlockComment) =>
      // `--\[\[(.|\n)--\]\]`: exactly one arbitrary character between the delimiters
      |w| == 9 && w[..4] == "--[[" && w[5..] == "--]]"
    case Exact(t, _) =>
      w == t
    case Regex(IdentifierRe) =>
      |w| >= 1 && IsIdentStart(w[0]) && forall k :: 1 <= k < |w| ==> IsIdentChar(w[k])
    case Regex(DoubleQuoteRe) =>
      IsQuoted(w, '"')
    case Regex(SingleQuoteRe) =>
      IsQuoted(w, '\'')
    case Regex(IntegerRe) =>
      |w| >= 1 && IsDigit(w[0]) && forall k :: 1 <= k < |w| ==> IsDigitOrUnderscore(w[k])
    case Regex(HexIntegerRe) =>
      |w| == 3 && w[0] == '0' && w[1] == 'x' && IsHexDigit(w[2])
  }

  /** `q([^q\n]*)q` */
  predicate IsQuoted(w: string, q: char)
  {
    |w| >= 2 && w[0] == q && w[|w| - 1] == q &&
    forall k :: 0 < k < |w| - 1 ==> InQuote(q, w[k])
  }

  /** Does `w` occur in `s` at position `i`? */
  predicate StartsAt(w: string, s: string, i: nat)
  {
    i + |w| <= |s| && s[i..i + |w|] == w
  }

  /** The length of the longest run of characters of class `p` from position `i`. */
  function RunLen(s: string, i: nat, p: char -> bool): (n: nat)
    requires i <= |s|
    ensures i + n <= |s|
    decreases |s| - i
  {
    if i < |s| && p(s[i]) then 1 + RunLen(s, i + 1, p) else 0
  }

  /** `RunLen` measures a run: every character it covers is of class `p`, and
      the character after it, if any, is not. */
  lemma {:induction false} RunLenIsRun(s: string, i: nat, p: char -> bool)
    requires i <= |s|
    ensures forall k :: i <= k < i + RunLen(s, i, p) ==> p(s[k])
    ensures i + RunLen(s, i, p) == |s| || !p(s[i + RunLen(s, i, p)])
    decreases |s| - i
  {
    if i < |s| && p(s[i]) {
      RunLenIsRun(s, i + 1, p);
    }
  }

  /** The length of the quoted string starting at `i`, or 0 if there is none. */
  function QuotedLen(s: string, i: nat, q: char): (n: nat)
    requires i <= |s|
    ensures n == 0 || (n >= 2 && i + n <= |s|)
  {
    if i < |s| && s[i] == q then
      var k := RunLen(s, i + 1, Interior(q));
      if i + 1 + k < |s| && s[i + 1 + k] == q then k + 2 else 0
    else 0
  }

  /** Does the restricted block comment `--[[?--]]` start at `i`? */
  predicate BlockCommentAt(s: string, i: nat)
  {
    i + 9 <= |s| && s[i..i + 4] == "--[[" && s[i + 5..i + 9] == "--]]"
  }

  /** Does `0x` followed by one hex digit start at `i`? */
  predicate HexAt(s: string, i: nat)
  {
    i + 3 <= |s| && s[i] == '0' && s[i + 1] == 'x' && IsHexDigit(s[i + 2])
  }

  /** The length of the longest match of `p` at position `i`; 0 when none. */
  function MatchLen(p: Pattern, s: string, i: nat): (n: nat)
    requires i <= |s|
    ensures i + n <= |s|
  {
    match p
    case Skip(Whitespace) => RunLen(s, i, IsWhitespace)
    case Skip(LineComment) => if StartsAt("--", s, i) then 2 + RunLen(s, i + 2, NotNewline) else 0
    case Skip(BlockComment) => if BlockCommentAt(s, i) then 9 else 0
    case Exact(t, _) => if StartsAt(t, s, i) then |t| else 0
    case Regex(IdentifierRe) =>
      if i < |s| && IsIdentStart(s[i]) then 1 + RunLen(s, i + 1, IsIdentChar) else 0
    case Regex(DoubleQuoteRe) => QuotedLen(s, i, '"')
    case Regex(SingleQuoteRe) => QuotedLen(s, i, '\'')
    case Regex(IntegerRe) =>
      if i < |s| && IsDigit(s[i]) then 1 + RunLen(s, i + 1, IsDigitOrUnderscore) else 0
    case Regex(HexIntegerRe) => if HexAt(s, i) then 3 else 0
  }

  /** A run of class `p` from `i` covering `m` characters is no longer than `RunLen`. */
  lemma {:induction false} RunLenIsMaximal(s: string, i: nat, p: char -> bool, m: nat)
    requires i + m <= |s|
    requires forall k :: i <= k < i + m ==> p(s[k])
    ensures m <= RunLen(s, i, p)
    decreases m
  {
    if m > 0 {
      assert p(s[i]);
      RunLenIsMaximal(s, i + 1, p, m - 1);
    }
  }

  /** No pattern matches the empty word, so every match consumes a character. */
  lemma NothingMatchesEmpty(p: Pattern)
    requires p in Patterns
    ensures !Matches(p, "")
  {
    if p.Exact? {
      ExactEntry(p);
    }
  }

  /** `MatchLen` is the longest-match function of the pattern's language: the
      word it measures matches, and no longer word at `i` does. */
  lemma MatchLenIsLongest(p: Pattern, s: string, i: nat)
    requires i <= |s|
    ensures MatchLen(p, s, i) > 0 ==> Matches(p, s[i..i + MatchLen(p, s, i)])
    ensures forall j :: i + MatchLen(p, s, i) < j <= |s| ==> !Matches(p, s[i..j])
  {
    var n := MatchLen(p, s, i);
    if n > 0 {
      LongestMatches(p, s, i);
    }
    forall j | i + n < j <= |s|
      ensures !Matches(p, s[i..j])
    {
      NoLongerMatch(p, s, i, j - i);
    }
  }

  lemma LongestMatches(p: Pattern, s: string, i: nat)
    requires i <= |s| && MatchLen(p, s, i) > 0
    ensures Matches(p, s[i..i + MatchLen(p, s, i)])
  {
    match p
    case Skip(k) => LongestSkipMatches(k, s, i);
    case Regex(r) => LongestRegexMatches(r, s, i);
    case Exact(_, _) =>
  }

  lemma LongestSkipMatches(k: SkipRule, s: string, i: nat)
    requires i <= |s| && MatchLen(Skip(k), s, i) > 0
    ensures Matches(Skip(k), s[i..i + MatchLen(Skip(k), s, i)])
  {
    var w := s[i..i + MatchLen(Skip(k), s, i)];
    match k
    case Whitespace =>
      RunLenIsRun(s, i, IsWhitespace);
    case LineComment =>
      RunLenIsRun(s, i + 2, NotNewline);
      assert w[..2] == s[i..i + 2];
    case BlockComment =>
      assert w[..4] == s[i..i + 4];
      assert w[5..] == s[i + 5..i + 9];
  }

  lemma LongestRegexMatches(r: RegexRule, s: string, i: nat)
    requires i <= |s| && MatchLen(Regex(r), s, i) > 0
    ensures Matches(Regex(r), s[i..i + MatchLen(Regex(r), s, i)])
  {
    match r
    case IdentifierRe =>
      RunLenIsRun(s, i + 1, IsIdentChar);
    case DoubleQuoteRe =>
      QuotedMatches(s, i, '"');
    case SingleQuoteRe =>
      QuotedMatches(s, i, '\'');
    case IntegerRe =>
      RunLenIsRun(s, i + 1, IsDigitOrUnderscore);
    case HexIntegerRe =>
  }

  lemma QuotedMatches(s: string, i: nat, q: char)
    requires i <= |s| && QuotedLen(s, i, q) > 0
    ensures IsQuoted(s[i..i + QuotedLen(s, i, q)], q)
  {
    var k := RunLen(s, i + 1, Interior(q));
    RunLenIsRun(s, i + 1, Interior(q));
    var w := s[i..i + QuotedLen(s, i, q)];
    assert |w| == k + 2;
    forall j | 0 < j < |w| - 1
      ensures InQuote(q, w[j])
    {
      assert w[j] == s[i + j];
    }
  }

  lemma NoLongerMatch(p: Pattern, s: string, i: nat, m: nat)
    requires i + m <= |s| && MatchLen(p, s, i) < m
    ensures !Matches(p, s[i..i + m])
  {
    match p
    case Skip(k) => NoLongerSkip(k, s, i, m);
    case Regex(r) => NoLongerRegex(r, s, i, m);
    case Exact(_, _) =>
  }

  lemma NoLongerSkip(k: SkipRule, s: string, i: nat, m: nat)
    requires i + m <= |s| && MatchLen(Skip(k), s, i) < m
    ensures !Matches(Skip(k), s[i..i + m])
  {
    var n := MatchLen(Skip(k), s, i);
    var w := s[i..i + m];
    assert w[0] == s[i] && w[n] == s[i + n];
    match k
    case Whitespace =>
      RunLenIsRun(s, i, IsWhitespace);
    case LineComment =>
      if m >= 2 {
        RunLenIsRun(s, i + 2, NotNewline);
        assert w[..2] == s[i..i + 2];
      }
    case BlockComment =>
      if m == 9 {
        assert w[..4] == s[i..i + 4];
        assert w[5..] == s[i + 5..i + 9];
      }
  }

  lemma NoLongerRegex(r: RegexRule, s: string, i: nat, m: nat)
    requires i + m <= |s| && MatchLen(Regex(r), s, i) < m
    ensures !Matches(Regex(r), s[i..i + m])
  {
    var n := MatchLen(Regex(r), s, i);
    var w := s[i..i + m];
    assert w[0] == s[i] && w[n] == s[i + n];
    match r
    case DoubleQuoteRe =>
      NoLongerQuoted(s, i, '"', m);
    case SingleQuoteRe =>
      NoLongerQuoted(s, i, '\'', m);
    case HexIntegerRe =>
      if m == 3 {
        assert w[1] == s[i + 1] && w[2] == s[i + 2];
      }
    case IdentifierRe =>
      RunLenIsRun(s, i + 1, IsIdentChar);
    case IntegerRe =>
      RunLenIsRun(s, i + 1, IsDigitOrUnderscore);
  }

  lemma NoLongerQuoted(s: string, i: nat, q: char, m: nat)
    requires i + m <= |s| && QuotedLen(s, i, q) < m
    ensures !IsQuoted(s[i..i + m], q)
  {
    var w := s[i..i + m];
    assert w[0] == s[i];
    if s[i] == q && m >= 2 {
      var k := RunLen(s, i + 1, Interior(q));
      RunLenIsRun(s, i + 1, Interior(q));
      var close := i + 1 + k;
      if close < i + m - 1 {
        // the run stops inside w at a closing quote or a newline
        assert w[1 + k] == s[close];
      } else {
        // the last character of w lies in the run or is the newline that ends it
        assert w[m - 1] == s[i + m - 1];
      }
    }
  }

  /** The tie-breaking order of logos: `a` is strictly preferred to `b` at `i`
      when it matches more, or as much and it is an exact token and `b` is not. */
  predicate Better(a: Pattern, b: Pattern, s: string, i: nat)
    requires i <= |s|
  {
    MatchLen(a, s, i) > MatchLen(b, s, i) ||
    (MatchLen(a, s, i) == MatchLen(b, s, i) && a.Exact? && !b.Exact?)
  }

  /** The index of the pattern logos picks among `ps`: none is preferred to
      it, and it comes first among those as good as it. */
  function Winner(ps: seq<Pattern>, s: string, i: nat): (k: nat)
    requires |ps| > 0 && i <= |s|
    ensures k < |ps|
    ensures forall j :: 0 <= j < |ps| ==> !Better(ps[j], ps[k], s, i)
    ensures forall j :: 0 <= j < k ==> Better(ps[k], ps[j], s, i)
    decreases |ps|
  {
    if |ps| == 1 then 0
    else
      var k := Winner(ps[1..], s, i) + 1;
      assert ps[k] == ps[1..][k - 1];
      if Better(ps[k], ps[0], s, i) then k else 0
  }

  /** What pattern `p` yields at `i` if it is the one picked. */
  function OutcomeOf(p: Pattern, s: string, i: nat): Outcome
    requires i <= |s|
  {
    var n := MatchLen(p, s, i);
    if n == 0 then NoMatch
    else match p
      case Skip(_) => Skipped(n)
      case Exact(_, t) => Emitted(t, n)
      case Regex(r) => Emitted(RegexToken(r, s[i..i + n]), n)
  }

  /** The matching step of logos at position `i`. */
  function Step(s: string, i: nat): Outcome
    requires i <= |s|
  {
    OutcomeOf(Patterns[Winner(Patterns, s, i)], s, i)
  }

  /** The pattern logos picks has a longest match: no pattern of `ps` matches a
      longer word at `i`, and no exact pattern matches the same word when the
      pick is a regex or a skip. */
  lemma WinnerIsLongest(ps: seq<Pattern>, s: string, i: nat)
    requires |ps| > 0 && i <= |s|
    ensures var w := ps[Winner(ps, s, i)];
      var n := MatchLen(w, s, i);
      (n > 0 ==> Matches(w, s[i..i + n])) &&
      (forall p, j :: p in ps && i + n < j <= |s| ==> !Matches(p, s[i..j])) &&
      (!w.Exact? && n > 0 ==> forall p :: p in ps && p.Exact? ==> !Matches(p, s[i..i + n]))
  {
    var w := ps[Winner(ps, s, i)];
    var n := MatchLen(w, s, i);
    MatchLenIsLongest(w, s, i);
    forall p, j | p in ps && i + n < j <= |s|
      ensures !Matches(p, s[i..j])
    {
      MatchLenIsLongest(p, s, i);
    }
  }

  /** Is `o` a longest-match outcome of `ps` at `i`, stated on the languages
      of the patterns? A span is skipped or a token emitted for a word that a
      pattern of `ps` matches, and no pattern of `ps` matches a longer word;
      `NoMatch` only when no pattern of `ps` matches any word at `i`. */
  predicate LongestOutcome(ps: seq<Pattern>, s: string, i: nat, o: Outcome)
    requires i <= |s|
  {
    match o
    case Skipped(n) =>
      i + n <= |s| &&
      (exists p :: p in ps && p.Skip? && Matches(p, s[i..i + n])) &&
      forall p, j :: p in ps && i + n < j <= |s| ==> !Matches(p, s[i..j])
    case Emitted(_, n) =>
      i + n <= |s| &&
      (exists p :: p in ps && !p.Skip? && Matches(p, s[i..i + n])) &&
      forall p, j :: p in ps && i + n < j <= |s| ==> !Matches(p, s[i..j])
    case NoMatch =>
      forall p, j :: p in ps && i < j <= |s| ==> !Matches(p, s[i..j])
  }

  /** What the pick among `ps` yields is a longest-match outcome of `ps`. */
  lemma OutcomeIsLongest(ps: seq<Pattern>, s: string, i: nat)
    requires |ps| > 0 && i <= |s|
    ensures LongestOutcome(ps, s, i, OutcomeOf(ps[Winner(ps, s, i)], s, i))
  {
    var w := ps[Winner(ps, s, i)];
    WinnerIsLongest(ps, s, i);
    assert w in ps;
  }

  /** The matching step of logos yields a longest-match outcome of the whole
      table: what it skips or emits is a word some pattern of the table
      matches, no pattern matches a longer word, and `NoMatch` comes only when
      no pattern matches any word at `i`. */
  lemma StepIsLongest(s: string, i: nat)
    requires i <= |s|
    ensures LongestOutcome(Patterns, s, i, Step(s, i))
  {
    OutcomeIsLongest(Patterns, s, i);
  }

  /** Logos's choice is `p` up to outcome when every other pattern is either
      strictly worse than `p` or yields the same. */
  lemma WinnerIs(ps: seq<Pattern>, s: string, i: nat, p: Pattern)
    requires i <= |s| && p in ps
    requires forall q :: q in ps ==> Better(p, q, s, i) || OutcomeOf(q, s, i) == OutcomeOf(p, s, i)
    ensures OutcomeOf(ps[Winner(ps, s, i)], s, i) == OutcomeOf(p, s, i)
  {
    var k := Winner(ps, s, i);
    var j :| 0 <= j < |ps| && ps[j] == p;
    assert !Better(ps[j], ps[k], s, i);
  }

  /** `Step` yields what `p` yields whenever every other pattern of the table is
      either strictly worse than `p` or yields the same. */
  lemma StepIs(s: string, i: nat, p: Pattern)
    requires i <= |s| && p in Patterns
    requires forall q :: q in Patterns ==> Better(p, q, s, i) || OutcomeOf(q, s, i) == OutcomeOf(p, s, i)
    ensures Step(s, i) == OutcomeOf(p, s, i)
  {
    WinnerIs(Patterns, s, i, p);
  }
}
