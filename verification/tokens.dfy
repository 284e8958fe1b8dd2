/** The lexer's output: one token per literal character or two-character
    control sequence. */
module Tokens {

  datatype Token =
    | Char(c: char)
    | BeginComponent
    | NextArg
    | EndComponent

  /** A separator or a close: the tokens a nested argument stops at. */
  predicate IsTerminator(t: Token) {
    t.NextArg? || t.EndComponent?
  }

  /** The source characters a token was lexed from. For `NextArg`,
      `EndComponent` and `Char` this is the token's `value`, which the
      parser copies into text when it meets a stray terminator. */
  function TokenText(t: Token): (r: string)
    ensures t.Char? ==> r == [t.c]
    ensures !t.Char? ==> |r| == 2
  {
    match t
    case Char(c) => [c]
    case BeginComponent => "!["
    case NextArg => "]["
    case EndComponent => "]!"
  }

  /** The source text of a token sequence, in order. */
  function Flatten(ts: seq<Token>): string {
    if ts == [] then "" else TokenText(ts[0]) + Flatten(ts[1..])
  }

  lemma {:induction false} FlattenAppend(a: seq<Token>, b: seq<Token>)
    ensures Flatten(a + b) == Flatten(a) + Flatten(b)
    decreases |a|
  {
    if a == [] {
      assert a + b == b;
    } else {
      assert (a + b)[1..] == a[1..] + b;
      FlattenAppend(a[1..], b);
    }
  }

  /** Char tokens spelling out `s`. */
  function CharTokens(s: string): (r: seq<Token>)
    ensures |r| == |s|
    ensures forall i {:trigger r[i]} :: 0 <= i < |s| ==> r[i] == Char(s[i])
  {
    seq(|s|, i requires 0 <= i < |s| => Char(s[i]))
  }

  predicate AllChars(ts: seq<Token>) {
    forall i :: 0 <= i < |ts| ==> ts[i].Char?
  }

  lemma {:induction false} FlattenCharTokens(s: string)
    ensures Flatten(CharTokens(s)) == s
    decreases |s|
  {
    if s != [] {
      assert CharTokens(s)[1..] == CharTokens(s[1..]);
      FlattenCharTokens(s[1..]);
      assert s == [s[0]] + s[1..];
    }
  }

  /** The tokens of a run of Char tokens are those of its flattening. */
  lemma {:induction false} CharTokensFlatten(ts: seq<Token>)
    requires AllChars(ts)
    ensures CharTokens(Flatten(ts)) == ts
    decreases |ts|
  {
    if ts != [] {
      CharTokensFlatten(ts[1..]);
      assert Flatten(ts) == [ts[0].c] + Flatten(ts[1..]);
      assert CharTokens(Flatten(ts))[1..] == CharTokens(Flatten(ts[1..]));
    }
  }
}
