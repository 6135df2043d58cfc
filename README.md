# LuaToken: a verified model of the Lua tokenizer

This project models `src/lex.rs`: the `LuaToken` enum and the lexer that the
`logos` derive generates for it. The lexer turns Lua source text into a
stream of tokens. The stream holds 23 keywords, 15 operators, identifiers,
single- and double-quoted strings, decimal integers and one-digit hexadecimal
integers. Whitespace, line comments and one restricted block-comment form are
skipped.

The model has four layers, one module each:

- `LuaToken` (`lua_token.dfy`) is the pattern table exactly as declared.
  - `Patterns` lists 3 skip patterns, 23 keyword texts, 15 operator texts and 5 regexes.
  - `Matches` gives the language of every pattern.
  - `MatchLen` gives the longest match of a pattern at a position.
  - `Step` is the choice logos makes at a position. The longest match over all patterns wins. At equal length an exact `#[token]` beats a `#[regex]`.
- `Scanner` (`scanner.dfy`) is a scanner that dispatches on the character under the cursor. `ScanIsLongestMatch` proves that it agrees with `Step` at every position of every input. Every later property is stated on this scanner.
- `TokenRules` (`token_rules.dfy`) holds the lexical rules of the table as lemmas:
  - keyword against identifier;
  - strings and unclosed strings;
  - one- and two-character operators;
  - comments;
  - integers and hexadecimal integers;
  - an exact description of the positions where no pattern matches.
- `Lexer` (`lexer.dfy`) is the logos lexer.
  - `NextToken` is the pure specification of one `next()` call. It skips skipped spans, then yields a token, an error, or the end.
  - `Tokenize` is the whole stream, and it is proved to be the unique tiling of the input.
  - The class `Lexer` is the stateful cursor (`source`, `start`, `pos`). Its `Next` method loops over skipped spans and is proved against `NextToken`. Its `Slice` returns the lexeme of the last item.

Facts of `src/lex.rs` that the model keeps as written:

- The table has 23 keywords, `continue` and `goto` among them.
- The operators are the 15 of lines 66-95; `[` and `]` are not tokens.
- String payloads are the raw lexeme, quotes included, with nothing trimmed or decoded.
- Integer payloads are the raw lexeme; they are not converted to numbers.
- A hexadecimal literal is a lowercase `0x` and exactly one hex digit. After it, further hex digits start the next token.
- The skip patterns are whitespace, the line comment and the block comment. No other skip pattern exists.
- A carriage return is not whitespace.
- The block comment is exactly `--[[`, one character, `--]]`.
- After an error the lexer resumes at the next position.
- `HexInteger` has no callback. For a one-field `&str` variant without one, logos fills the field with the slice, so the model gives `HexInteger` its lexeme as payload.

`LexerExamples` (`lexer_examples.dfy`) restates the three unit tests of
`src/lex.rs` on both the pure and the stateful lexer.

## Model

| member | source | states |
|---|---|---|
| LuaToken.KeywordLookupAToF | src/lex.rs:17-36 | The reserved words `and` … `function` map to their variants. |
| LuaToken.KeywordLookupGToW | src/lex.rs:37-62 | The reserved words `goto` … `while` map to their variants. |
| LuaToken.KeywordShape | src/lex.rs:17-62 | Every keyword has at least two characters and is a word of the identifier regex `[a-zA-Z_][a-zA-Z_0-9]*`. |
| LuaToken.KeywordInTable | src/lex.rs:17-62 | Every known keyword is an exact entry of the pattern table. |
| LuaToken.OperatorLookup | src/lex.rs:66-95 | The 15 operator texts map to their variants. |
| LuaToken.OperatorShape | src/lex.rs:66-95 | Every operator is one or two characters and starts with an operator character. The only operator starting with `-` is `-` itself. |
| LuaToken.OperatorInTable | src/lex.rs:66-95 | Every known operator is an exact entry of the pattern table. |
| LuaToken.ExactEntry | src/lex.rs:17-95 | Every exact entry of the table is found by the keyword or the operator lookup with its own variant. |
| LuaToken.LookupsHaveNoPayload | src/lex.rs:17-95 | Keywords and operators carry no payload. |
| LuaToken.NothingMatchesEmpty | src/lex.rs:10-118 | No pattern of the table matches the empty word, so every match makes progress. |
| LuaToken.RunLenIsRun | src/lex.rs:10-11 | A run measured for a `+` or `*` class covers only characters of the class and stops at the end or at a character outside it. |
| LuaToken.RunLenIsMaximal | src/lex.rs:10-11 | Every run of class characters from a position is no longer than the measured run. |
| LuaToken.MatchLenIsLongest | src/lex.rs:10-118 | The measured length of a pattern is a match, and no longer word at that position matches. |
| LuaToken.Winner | src/lex.rs:9 | The chosen index is preferred to no other entry: nothing matches longer, and nothing exact matches as long when the choice is a regex. It is also the first entry among equals. |
| LuaToken.WinnerIsLongest | src/lex.rs:9 | The chosen pattern's match is a word of its language. No pattern matches a longer word. No exact pattern matches the same word when a regex or skip is chosen. |
| LuaToken.OutcomeIsLongest | src/lex.rs:9 | For any pattern list, the pick yields a longest-match outcome of that list. A skip or token is a word some pattern matches, and nothing matches longer. `NoMatch` means nothing matches at all. |
| LuaToken.StepIsLongest | src/lex.rs:9-118 | A skipped span or emitted token is a word some table pattern matches, and no pattern matches longer. `NoMatch` means no pattern matches any word at the position. |
| LuaToken.StepIs | src/lex.rs:9 | The step yields what a pattern yields whenever every other pattern is strictly worse or yields the same. |
| Scanner.Scan | src/lex.rs:9-118 | Every skipped span or token is non-empty and lies inside the input. |
| Scanner.ScanIsLongestMatch | src/lex.rs:9-118 | At every position of every input, the scanner yields exactly what the logos longest-match rule with exact-token priority yields over the whole table. |
| TokenRules.WordLexes | src/lex.rs:17-62 | A maximal identifier-shaped word lexes as its keyword when it is reserved. Otherwise it lexes as `Identifier` carrying the word, with the word's length. |
| TokenRules.KeywordBeatsIdentifier | src/lex.rs:17-62 | A reserved word followed by a non-word character is as long a match for the identifier regex, yet lexes as the keyword. |
| TokenRules.AndroidIsIdentifier | src/lex.rs:99-100 | `android` starts with the keyword `and` but lexes as one identifier of seven characters. |
| TokenRules.IdentifierIsWord | src/lex.rs:99-100 | An emitted identifier is the maximal identifier-shaped word at the position. Its payload is the lexeme. It is never a reserved word. |
| TokenRules.PayloadIsLexeme | src/lex.rs:99-118 | Every token that carries a payload carries exactly its lexeme. |
| TokenRules.WhitespaceSkipped | src/lex.rs:10 | A maximal run of space, tab, newline and form feed is skipped as one span. |
| TokenRules.StringLexes | src/lex.rs:104-107 | A quote closed by the same quote on the same line lexes as the string variant of that quote. The payload includes both quotes. |
| TokenRules.StringIsQuoted | src/lex.rs:104-107 | An emitted string token is a quoted lexeme at the position, and its variant matches its opening quote. |
| TokenRules.UnclosedStringIsError | src/lex.rs:104-107 | A quote whose line or input ends before the closing quote is an error. |
| TokenRules.TwoCharOperatorWins | src/lex.rs:78-93 | `==`, `~=`, `>=`, `<=` and `..` win over their one-character prefixes, although the prefix matches. |
| TokenRules.OneCharOperator | src/lex.rs:66-95 | A one-character operator lexes alone when no two-character operator or comment starts there. |
| TokenRules.LoneTildeOrDotIsError | src/lex.rs:82-93 | `~` without `=` and `.` without `.` are errors, since neither is an operator on its own. |
| TokenRules.MinusAlone | src/lex.rs:68-69 | A `-` not followed by `-` is the minus operator. |
| TokenRules.LineCommentSkipped | src/lex.rs:11-12 | `--` skips to the end of its line, leaving the newline. The one exception is the block form around a newline. |
| TokenRules.BlockCommentLine | src/lex.rs:11-12 | Inside the block form with a non-newline character, the line comment reaches at least past the closing `--]]`. |
| TokenRules.BlockCommentSkipped | src/lex.rs:12 | `--[[`, a newline, `--]]` is skipped as one nine-character span. |
| TokenRules.IntegerLexes | src/lex.rs:115-116 | A maximal digit-and-underscore run led by a digit lexes as `Integer` carrying the run, unless it starts a hex literal. |
| TokenRules.HexBeatsInteger | src/lex.rs:115-118 | `0x` followed by one hex digit lexes as a three-character `HexInteger`, beating the one-character integer `0`. |
| TokenRules.NoMatchIff | src/lex.rs:9-118 | The scanner reports no match at a position if and only if one of these holds there: an unclosed quote; a `~` or `.` that starts no operator; a character that starts no pattern. |
| TokenRules.QuotedIff | src/lex.rs:104-107 | The string measure finds nothing if and only if no quoted word starts at the position. |
| TokenRules.TildeOrDot | src/lex.rs:82-93 | At `~` or `.`, the operator branch fails if and only if `~=` or `..` respectively does not start there. |
| Lexer.NextToken | src/lex.rs:9-13 | One `next()`: the item starts after skipped spans only. It is the end if and only if it starts at the end of the input. Otherwise it is a token, or an error consuming one character, as the scanner yields at its start. |
| Lexer.SkipsAreTransparent | src/lex.rs:10-12 | `next()` before a sequence of skipped spans returns the same item as after them. |
| Lexer.NextTokenNoneIff | src/lex.rs:10-12 | `next()` returns `None` if and only if only skipped spans remain. |
| Lexer.WhitespaceProducesNoToken | src/lex.rs:10 | A whitespace run before the cursor does not change the next item. |
| Lexer.NextTokenPayload | src/lex.rs:99-118 | The payload of a returned token is the text of its span. |
| Lexer.ScannedAtIsNext | src/lex.rs:9 | `next()` at the start of a scanned item returns that item. |
| Lexer.TokenizeTiles | src/lex.rs:9-13 | The token stream tiles the input: items in order, each scanned at its start, with only skipped spans in the gaps. |
| Lexer.TilesIsTokenize | src/lex.rs:9-13 | Any tiling of the input is the token stream, so the stream is the unique tiling. |
| Lexer.Lexer.constructor | src/lex.rs:130 | `LuaToken::lexer(source)` starts the cursor at the beginning. |
| Lexer.Lexer.Next | src/lex.rs:131 | Stateful `next()`: the returned item and the new span `start..pos` equal `NextToken` from the old `pos`. A payload equals `slice()`. |
| LexerExamples.SingleQuotedIsOneToken | src/lex.rs:129-133 | The single-quoted test input is one `SingleQuoteString` carrying the whole input, followed by the end. |
| LexerExamples.DoubleQuotedIsOneToken | src/lex.rs:134-139 | The double-quoted test input is one `DoubleQuoteString` carrying the whole input, followed by the end. |
| LexerExamples.FirstIdentifier | src/lex.rs:142-143 | The first `next()` on `id1 Id2 Id_3` gives `Identifier("id1")`. |
| LexerExamples.SecondIdentifier | src/lex.rs:144 | The second gives `Identifier("Id2")` at 4..7, after skipping the space. |
| LexerExamples.ThirdIdentifier | src/lex.rs:145 | The third gives `Identifier("Id_3")` at 8..12, and then the input is exhausted. |
| LexerExamples.IdsStream | src/lex.rs:140-146 | The whole stream of `id1 Id2 Id_3` is the three identifiers. |
| LexerExamples.LexSingleQuoteStr | src/lex.rs:129-133 | On the stateful lexer, `next()` returns the single-quoted string and `slice()` the whole input. |
| LexerExamples.LexDoubleQuoteStr | src/lex.rs:134-139 | On the stateful lexer, `next()` returns the double-quoted string and `slice()` the whole input. |
| LexerExamples.LexId | src/lex.rs:140-146 | On the stateful lexer, three calls give the three identifiers and a fourth gives `None`. |

## Left out

- The `Float` variant (`src/lex.rs:119-120`) is left out. Its regex `[0-9]*[0-9]*` can match the empty word, which is no token. Every non-empty word it matches is also a word of the `Integer` regex at the same length, and the `Integer` regex has the higher logos priority: it has one character class outside a repetition, and `Float` has none. So `Float` never wins.
- The commented-out multi-line string variant and its test (`src/lex.rs:108-111`, `147-156`) are left out because they are not compiled.
- Nested comments are left out; the source declares them unsupported (`src/lex.rs:6-8`).
- The error span is modelled as one character. Logos reports `Err(())` and resumes after an error span chosen by its generated automaton. The model always consumes exactly one character. The positions of errors are exact (`TokenRules.NoMatchIff`); where the next item after an error starts is a simplification.
- Logos's generated code, its DFA and the byte-level UTF-8 handling are not part of this model.
  - Characters are Dafny `char`s.
  - Every character class is the ASCII class written in the table.
  - `.` in the block-comment regex is any character except a newline, and `\n` is the newline.
- There is no line or column tracking. The source keeps only the span of the last item, and `Slice` models it.
