/** The lexer: a single left-to-right scan of the input with one character
    of lookahead, turning `![`, `][` and `]!` into control tokens and every
    other character into a Char token. */
module Lexer {
  import opened Strings
  import opened Tokens
  import opened Errors
  import opened Cursors

  /** The iteration ceiling guarding the scan. */
  const MaxIterations: nat := 100000

  /** Reference tokenisation, written directly on the string: the
      characters a token stands for are removed from the front, longest
      control sequence first. */
  function Tokenize(s: string): seq<Token>
    decreases |s|
  {
    if s == [] then []
    else if StartsWith(s, "![") then [BeginComponent] + Tokenize(s[2..])
    else if StartsWith(s, "][") then [NextArg] + Tokenize(s[2..])
    else if StartsWith(s, "]!") then [EndComponent] + Tokenize(s[2..])
    else [Char(s[0])] + Tokenize(s[1..])
  }

  /** Lexes one token at the cursor, consuming one character or, for a
      control sequence, two. */
  function LexOnce(str: Cursor<char>): (r: (Token, Cursor<char>))
    requires str.Valid() && str.HasNext()
    ensures r.1.items == str.items && r.1.Valid()
    ensures var rest := str.items[str.index..];
      && (r.0 == BeginComponent <==> StartsWith(rest, "!["))
      && (r.0 == NextArg <==> StartsWith(rest, "]["))
      && (r.0 == EndComponent <==> StartsWith(rest, "]!"))
      && (r.0.Char? ==> r.0.c == rest[0])
    ensures r.1.index == str.index + |TokenText(r.0)|
    ensures str.items[str.index..r.1.index] == TokenText(r.0)
    ensures Tokenize(str.items[str.index..]) == [r.0] + Tokenize(str.items[r.1.index..])
  {
    var (taken, str1) := str.Take(1).value;
    var ch := taken[0];
    var rest := str.items[str.index..];
    assert rest[1..] == str.items[str1.index..];
    assert str1.Peek(1) == "[" <==> |rest| >= 2 && rest[1] == '[';
    assert str1.Peek(1) == "!" <==> |rest| >= 2 && rest[1] == '!';
    if ch == '!' then
      if str1.Peek(1) == "[" then
        assert rest[2..] == str.items[str.index + 2..];
        (BeginComponent, str1.Take(1).value.1)
      else
        (Char(ch), str1)
    else if ch == ']' then
      if str1.Peek(1) == "[" then
        assert rest[2..] == str.items[str.index + 2..];
        (NextArg, str1.Take(1).value.1)
      else if str1.Peek(1) == "!" then
        assert rest[2..] == str.items[str.index + 2..];
        (EndComponent, str1.Take(1).value.1)
      else
        (Char(ch), str1)
    else
      (Char(ch), str1)
  }

  /** The scan loop: lexes tokens while characters remain, counting
      iterations and failing once the count passes the ceiling. */
  function LexLoop(str: Cursor<char>, finalLex: seq<Token>, counter: nat): (r: Result<seq<Token>>)
    requires str.Valid() && counter <= MaxIterations
    decreases |str.items| - str.index
    ensures r.Success? <==> counter + |Tokenize(str.items[str.index..])| <= MaxIterations
    ensures r.Success? ==> r.value == finalLex + Tokenize(str.items[str.index..])
    ensures r.Failure? ==> r.error == LoopLimit
  {
    if !str.HasNext() then
      Success(finalLex)
    else
      var (oneLex, str1) := LexOnce(str);
      if counter + 1 > MaxIterations then
        Failure(LoopLimit)
      else
        LexLoop(str1, finalLex + [oneLex], counter + 1)
  }

  /** Lexes a whole message. */
  function Lex(text: string): (r: Result<seq<Token>>)
    ensures r.Success? <==> |Tokenize(text)| <= MaxIterations
    ensures r.Success? ==> r.value == Tokenize(text)
    ensures r.Failure? ==> r.error == LoopLimit
  {
    assert text[0..] == text;
    LexLoop(Cursor(text, 0), [], 0)
  }

  /** Lexing is lossless: the tokens' texts, in order, spell the input. */
  lemma {:induction false} FlattenTokenize(s: string)
    ensures Flatten(Tokenize(s)) == s
    decreases |s|
  {
    if s != [] {
      var t := Tokenize(s);
      if StartsWith(s, "![") || StartsWith(s, "][") || StartsWith(s, "]!") {
        FlattenTokenize(s[2..]);
        assert t[1..] == Tokenize(s[2..]);
        assert s == s[..2] + s[2..];
      } else {
        FlattenTokenize(s[1..]);
        assert t[1..] == Tokenize(s[1..]);
        assert s == [s[0]] + s[1..];
      }
    }
  }

  /** Lexing never produces more tokens than there are characters. */
  lemma {:induction false} TokenizeLength(s: string)
    ensures |Tokenize(s)| <= |s|
    decreases |s|
  {
    if s != [] {
      if StartsWith(s, "![") || StartsWith(s, "][") || StartsWith(s, "]!") {
        TokenizeLength(s[2..]);
      } else {
        TokenizeLength(s[1..]);
      }
    }
  }

  /** `lex` succeeds on every input of at most 100,000 characters, and
      what it returns spells the input. */
  lemma LexLossless(text: string)
    ensures |text| <= MaxIterations ==> Lex(text).Success?
    ensures Lex(text).Success? ==> Flatten(Lex(text).value) == text
    ensures Lex(text).Success? ==> |Lex(text).value| <= |text|
  {
    FlattenTokenize(text);
    TokenizeLength(text);
  }

  /** The first character of a token's text. */
  function Lead(t: Token): char {
    TokenText(t)[0]
  }

  /** Two adjacent tokens whose texts would lex differently once written
      next to each other: a literal `!` or `]` that would join with what
      follows into a control sequence. */
  predicate Glues(a: Token, b: Token) {
    || (a == Char('!') && Lead(b) == '[')
    || (a == Char(']') && (Lead(b) == '[' || Lead(b) == '!'))
  }

  /** Token sequences the lexer can produce. */
  predicate Canonical(ts: seq<Token>) {
    forall i :: 0 <= i < |ts| - 1 ==> !Glues(ts[i], ts[i + 1])
  }

  lemma TokenizeLead(s: string)
    requires s != []
    ensures Tokenize(s) != [] && Lead(Tokenize(s)[0]) == s[0]
  {
  }

  lemma FlattenLead(ts: seq<Token>)
    requires ts != []
    ensures Flatten(ts) != [] && Flatten(ts)[0] == Lead(ts[0])
  {
  }

  /** Everything the lexer produces is canonical. */
  lemma {:induction false} CanonicalTokenize(s: string)
    ensures Canonical(Tokenize(s))
    decreases |s|
  {
    if s != [] {
      var t := Tokenize(s);
      var n := if StartsWith(s, "![") || StartsWith(s, "][") || StartsWith(s, "]!") then 2 else 1;
      var rest := Tokenize(s[n..]);
      assert t == [t[0]] + rest;
      CanonicalTokenize(s[n..]);
      if rest != [] {
        TokenizeLead(s[n..]);
        assert !Glues(t[0], rest[0]);
      }
      forall i | 0 <= i < |t| - 1
        ensures !Glues(t[i], t[i + 1])
      {
        if i > 0 {
          assert t[i] == rest[i - 1] && t[i + 1] == rest[i];
        }
      }
    }
  }

  /** On canonical token sequences lexing inverts flattening, so the lexer
      is a bijection between strings and canonical token sequences. */
  lemma {:induction false} TokenizeFlatten(ts: seq<Token>)
    requires Canonical(ts)
    ensures Tokenize(Flatten(ts)) == ts
    decreases |ts|
  {
    if ts != [] {
      var tail := ts[1..];
      assert Canonical(tail) by {
        forall i | 0 <= i < |tail| - 1
          ensures !Glues(tail[i], tail[i + 1])
        {
          assert tail[i] == ts[i + 1] && tail[i + 1] == ts[i + 2];
        }
      }
      TokenizeFlatten(tail);
      var s := Flatten(ts);
      var h := TokenText(ts[0]);
      assert s == h + Flatten(tail);
      assert s[|h|..] == Flatten(tail);
      if tail != [] {
        FlattenLead(tail);
        assert !Glues(ts[0], ts[1]);
      }
      if ts[0].Char? {
        assert s[0] == ts[0].c;
        assert |s| >= 2 ==> s[1] == Flatten(tail)[0];
      } else {
        assert s[..2] == h;
      }
      assert ts == [ts[0]] + tail;
    }
  }
}
