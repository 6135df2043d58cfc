/** The lexer logos derives for `LuaToken`: a cursor over the source that
    `next()` advances past skipped spans to the next token or error, and whose
    `slice()` is the lexeme of the last item. `NextToken` is the pure
    specification of one `next()` call, `Tokenize` the whole stream, and the
    class `Lexer` the stateful cursor, proved against `NextToken`. */
module Lexer {
  import opened Wrappers
  import opened LuaToken
  import opened Scanner
  import opened TokenRules

  /** The error of a position where no pattern matches; logos's `()`. */
  datatype LexError = NoPatternMatched

  /** One item of the stream with the span `[start, end)` of its lexeme. */
  datatype Lexeme = Lexeme(item: Option<Result<Token, LexError>>, start: nat, end: nat)

  /** `[i, j)` is covered by skipped spans that start at `i` and end at `j`. */
  predicate Skippable(s: string, i: nat, j: nat)
    requires i <= j <= |s|
    decreases j - i
  {
    i == j ||
    (Scan(s, i).Skipped? && i + Scan(s, i).len <= j && Skippable(s, i + Scan(s, i).len, j))
  }

  /** Is `x` what the scanner yields at its start? An error consumes one character. */
  predicate ScannedAt(s: string, x: Lexeme)
  {
    x.start < x.end <= |s| &&
    match x.item
    case None => false
    case Some(Ok(t)) => Scan(s, x.start) == Emitted(t, x.end - x.start)
    case Some(Err(_)) => Scan(s, x.start) == NoMatch && x.end == x.start + 1
  }

  /** One `next()` from position `i`: skip, then a token, an error, or the end. */
  function NextToken(s: string, i: nat): (r: Lexeme)
    requires i <= |s|
    ensures i <= r.start <= r.end <= |s|
    ensures Skippable(s, i, r.start)
    ensures r.item.None? <==> r.start == |s|
    ensures r.item.None? ==> r.end == r.start
    ensures r.item.Some? ==> ScannedAt(s, r)
    decreases |s| - i
  {
    if i == |s| then Lexeme(None, i, i)
    else match Scan(s, i)
      case Skipped(n) => NextToken(s, i + n)
      case Emitted(t, n) => Lexeme(Some(Ok(t)), i, i + n)
      case NoMatch => Lexeme(Some(Err(NoPatternMatched)), i, i + 1)
  }

  /** Skipped spans are invisible: `next()` from before them and from after
      them returns the same item. */
  lemma {:induction false} SkipsAreTransparent(s: string, i: nat, j: nat)
    requires i <= j <= |s| && Skippable(s, i, j)
    ensures NextToken(s, i) == NextToken(s, j)
    decreases j - i
  {
    if i < j {
      SkipsAreTransparent(s, i + Scan(s, i).len, j);
    }
  }

  /** `next()` returns `None` exactly when only skipped spans are left. */
  lemma NextTokenNoneIff(s: string, i: nat)
    requires i <= |s|
    ensures NextToken(s, i).item.None? <==> Skippable(s, i, |s|)
  {
    if Skippable(s, i, |s|) {
      SkipsAreTransparent(s, i, |s|);
    }
  }

  /** A whitespace run produces no token: the next token starts after it. */
  lemma WhitespaceProducesNoToken(s: string, i: nat, j: nat)
    requires i < j <= |s|
    requires forall k :: i <= k < j ==> IsWhitespace(s[k])
    requires j == |s| || !IsWhitespace(s[j])
    ensures NextToken(s, i) == NextToken(s, j)
  {
    WhitespaceSkipped(s, i, j);
    assert Skippable(s, j, j);
    SkipsAreTransparent(s, i, j);
  }

  /** A token's lexeme is its payload, for the variants that carry one. */
  lemma NextTokenPayload(s: string, i: nat)
    requires i <= |s|
    ensures var r := NextToken(s, i);
      r.item.Some? && r.item.value.Ok? && HasPayload(r.item.value.value) ==>
        r.item.value.value.text == s[r.start..r.end]
  {
    var r := NextToken(s, i);
    if r.start < |s| {
      PayloadIsLexeme(s, r.start);
    }
  }

  // The whole stream.

  /** Every item `next()` returns until it returns `None`. */
  function Tokenize(s: string, i: nat): seq<Lexeme>
    requires i <= |s|
    decreases |s| - i
  {
    var r := NextToken(s, i);
    if r.item.None? then [] else [r] + Tokenize(s, r.end)
  }

  /** `xs` tiles `[i, |s|)`: each item is scanned at its start, and the gaps
      before, between and after the items are skipped spans. */
  predicate Tiles(s: string, i: nat, xs: seq<Lexeme>)
    requires i <= |s|
    decreases |xs|
  {
    if xs == [] then Skippable(s, i, |s|)
    else
      i <= xs[0].start && ScannedAt(s, xs[0]) &&
      Skippable(s, i, xs[0].start) && Tiles(s, xs[0].end, xs[1..])
  }

  /** The stream tiles the input. */
  lemma {:induction false} TokenizeTiles(s: string, i: nat)
    requires i <= |s|
    ensures Tiles(s, i, Tokenize(s, i))
    decreases |s| - i
  {
    var r := NextToken(s, i);
    NextTokenNoneIff(s, i);
    if r.item.Some? {
      TokenizeTiles(s, r.end);
      assert ([r] + Tokenize(s, r.end))[1..] == Tokenize(s, r.end);
    }
  }

  /** And it is the only sequence of items that does: a tiling of the input is
      the token stream. */
  lemma {:induction false} TilesIsTokenize(s: string, i: nat, xs: seq<Lexeme>)
    requires i <= |s| && Tiles(s, i, xs)
    ensures xs == Tokenize(s, i)
    decreases |xs|
  {
    if xs == [] {
      NextTokenNoneIff(s, i);
    } else {
      var x := xs[0];
      SkipsAreTransparent(s, i, x.start);
      ScannedAtIsNext(s, x);
      TilesIsTokenize(s, x.end, xs[1..]);
    }
  }

  /** `next()` at the start of a scanned item returns that item. */
  lemma ScannedAtIsNext(s: string, x: Lexeme)
    requires ScannedAt(s, x)
    ensures NextToken(s, x.start) == x
  {
    match x.item
    case Some(Ok(t)) =>
    case Some(Err(e)) =>
      assert e == NoPatternMatched;
  }

  /** The stateful lexer: `start..pos` is the span of the last item, which
      `slice()` returns, and `pos` is where the next call resumes. */
  class Lexer {
    const source: string
    var start: nat
    var pos: nat

    ghost predicate Valid()
      reads this
    {
      start <= pos <= |source|
    }

    /** `LuaToken::lexer(source)`: the cursor at the beginning. */
    constructor (source: string)
      ensures Valid() && this.source == source && start == 0 && pos == 0
    {
      this.source := source;
      start, pos := 0, 0;
    }

    /** `slice()`: the lexeme of the last item. */
    function Slice(): string
      reads this
      requires Valid()
    {
      source[start..pos]
    }

    /** `next()`: skip the spans of the skip patterns, then yield the token or
        error at the cursor, or `None` at the end of the source. */
    method Next() returns (item: Option<Result<Token, LexError>>)
      requires Valid()
      modifies this
      ensures Valid()
      ensures Lexeme(item, start, pos) == NextToken(source, old(pos))
      ensures item.Some? && item.value.Ok? && HasPayload(item.value.value) ==>
        item.value.value.text == Slice()
    {
      var i := pos;
      while i < |source| && Scan(source, i).Skipped?
        invariant old(pos) <= i <= |source|
        invariant NextToken(source, i) == NextToken(source, old(pos))
        decreases |source| - i
      {
        i := i + Scan(source, i).len;
      }
      NextTokenPayload(source, i);
      if i == |source| {
        item := None;
        start, pos := i, i;
      } else {
        var o := Scan(source, i);
        assert NextToken(source, i).start == i;
        if o.Emitted? {
          item := Some(Ok(o.tok));
          start, pos := i, i + o.len;
        } else {
          item := Some(Err(NoPatternMatched));
          start, pos := i, i + 1;
        }
      }
    }
  }
}
