/** The unit tests of `src/lex.rs`, stated as facts about the model: the
    token each `next()` returns, and what `slice()` gives after it. */
module LexerExamples {
  import opened Wrappers
  import opened LuaToken
  import opened TokenRules
  import opened Lexer

  // The inputs of the tests, written in pieces of at most nine characters so
  // that the verifier can index into them.
  const SingleQuoted: string := "'This is " + "a single " + "line, sin" + "gle quote" + "d string'"
  const DoubleQuoted: string := "\"This is " + "a single " + "line, dou" + "ble quote" + "d string\""
  const Ids: string := "id1 Id2 " + "Id_3"

  /** `lex_single_quote_str`: the whole input is one single-quoted string. */
  lemma SingleQuotedIsOneToken()
    ensures NextToken(SingleQuoted, 0) == Lexeme(Some(Ok(SingleQuoteString(SingleQuoted))), 0, |SingleQuoted|)
    ensures NextToken(SingleQuoted, |SingleQuoted|).item == None
  {
    var s := SingleQuoted;
    assert |s| == 45 && IsQuoted(s, '\'');
    assert s[0..|s|] == s;
    StringLexes(s, 0, |s|);
  }

  /** `lex_double_quote_str`: the whole input is one double-quoted string. */
  lemma DoubleQuotedIsOneToken()
    ensures NextToken(DoubleQuoted, 0) == Lexeme(Some(Ok(DoubleQuoteString(DoubleQuoted))), 0, |DoubleQuoted|)
    ensures NextToken(DoubleQuoted, |DoubleQuoted|).item == None
  {
    var s := DoubleQuoted;
    assert |s| == 45 && IsQuoted(s, '"');
    assert s[0..|s|] == s;
    StringLexes(s, 0, |s|);
  }

  /** `lex_id`, first call: `id1`. */
  lemma FirstIdentifier()
    ensures NextToken(Ids, 0) == Lexeme(Some(Ok(Identifier("id1"))), 0, 3)
  {
    assert Ids[0..3] == "id1" && KeywordToken("id1") == None;
    WordLexes(Ids, 0, 3);
  }

  /** `lex_id`, second call: the space is skipped, then `Id2`. */
  lemma SecondIdentifier()
    ensures NextToken(Ids, 3) == Lexeme(Some(Ok(Identifier("Id2"))), 4, 7)
  {
    assert Ids[4..7] == "Id2" && KeywordToken("Id2") == None;
    WordLexes(Ids, 4, 7);
    WhitespaceProducesNoToken(Ids, 3, 4);
  }

  /** `lex_id`, third call: the space is skipped, then `Id_3`, which ends the input. */
  lemma ThirdIdentifier()
    ensures NextToken(Ids, 7) == Lexeme(Some(Ok(Identifier("Id_3"))), 8, 12)
    ensures NextToken(Ids, 12) == Lexeme(None, 12, 12)
  {
    assert Ids[8..12] == "Id_3" && KeywordToken("Id_3") == None;
    WordLexes(Ids, 8, 12);
    WhitespaceProducesNoToken(Ids, 7, 8);
  }

  /** The token stream of `lex_id`: three identifiers, the spaces skipped. */
  lemma IdsStream()
    ensures Tokenize(Ids, 0) == [
      Lexeme(Some(Ok(Identifier("id1"))), 0, 3),
      Lexeme(Some(Ok(Identifier("Id2"))), 4, 7),
      Lexeme(Some(Ok(Identifier("Id_3"))), 8, 12)]
  {
    FirstIdentifier();
    SecondIdentifier();
    ThirdIdentifier();
    assert Tokenize(Ids, 12) == [];
    assert Tokenize(Ids, 7) == [NextToken(Ids, 7)] + Tokenize(Ids, 12);
    assert Tokenize(Ids, 3) == [NextToken(Ids, 3)] + Tokenize(Ids, 7);
  }

  /** `lex_single_quote_str` on the stateful lexer. */
  method LexSingleQuoteStr() returns (item: Option<Result<Token, LexError>>, slice: string)
    ensures item == Some(Ok(SingleQuoteString(SingleQuoted)))
    ensures slice == SingleQuoted
  {
    var lex := new Lexer(SingleQuoted);
    SingleQuotedIsOneToken();
    item := lex.Next();
    slice := lex.Slice();
    assert SingleQuoted[0..|SingleQuoted|] == SingleQuoted;
  }

  /** `lex_double_quote_str` on the stateful lexer. */
  method LexDoubleQuoteStr() returns (item: Option<Result<Token, LexError>>, slice: string)
    ensures item == Some(Ok(DoubleQuoteString(DoubleQuoted)))
    ensures slice == DoubleQuoted
  {
    var lex := new Lexer(DoubleQuoted);
    DoubleQuotedIsOneToken();
    item := lex.Next();
    slice := lex.Slice();
    assert DoubleQuoted[0..|DoubleQuoted|] == DoubleQuoted;
  }

  /** `lex_id` on the stateful lexer: three calls of `next()`, then the end. */
  method LexId() returns (items: seq<Option<Result<Token, LexError>>>)
    ensures items == [Some(Ok(Identifier("id1"))), Some(Ok(Identifier("Id2"))), Some(Ok(Identifier("Id_3"))), None]
  {
    var lex := new Lexer(Ids);
    FirstIdentifier();
    SecondIdentifier();
    ThirdIdentifier();
    var a := lex.Next();
    var b := lex.Next();
    var c := lex.Next();
    var d := lex.Next();
    items := [a, b, c, d];
  }
}
