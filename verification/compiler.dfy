/** The compile pipeline run on every outgoing message: lex, parse,
    transpile with a fresh CSS manager, and put the collected CSS in a style
    element before the HTML. */
module Compiler {
  import opened Strings
  import opened Tokens
  import opened Errors
  import opened Lexer
  import opened Registry
  import opened Parser
  import opened Css
  import opened Transpiler
  import opened ParserProperties
  import opened TranspilerProperties

  /** The first error ends the compile; each stage fails only with its own
      kind of error, so the error tells which stage refused the message. */
  function Compile(reg: Registry, ev: Evaluator, message: string): (r: Result<string>)
    ensures r.Failure? && r.error == LoopLimit <==> |Tokenize(message)| > MaxIterations
    ensures r.Failure? && IsParseError(r.error) <==>
      |Tokenize(message)| <= MaxIterations && Parse(reg, Tokenize(message)).Failure?
    ensures r.Failure? ==> r.error == LoopLimit || IsParseError(r.error) || IsTranspileError(r.error)
    ensures r.Success? ==> StartsWith(r.value, "<style>")
  {
    var tokens :- Lex(message);
    var ss :- Parse(reg, tokens);
    ParseRegistered(reg, tokens);
    var out :- TranspileStatements(reg, ev, ss, Empty());
    Success("<style>" + out.1.cssString + "</style>" + out.0)
  }

  /** What a successful compile produces: the styles of the components the
      message uses, each once, in the order they are first met (depth
      first, an invocation before its arguments), wrapped in a style
      element, then the HTML of the parsed statements. */
  lemma CompileOutput(reg: Registry, ev: Evaluator, message: string)
    requires Compile(reg, ev, message).Success?
    ensures var tokens := Tokenize(message);
      && |tokens| <= MaxIterations
      && Parse(reg, tokens).Success?
      && var ss := Parse(reg, tokens).value;
         && AllRegistered(reg, ss)
         && NamesIn(reg, FirstOccurrences({}, Names(ss)))
         && Html(TranspileStatements(reg, ev, ss, Empty())).Success?
         && Compile(reg, ev, message).value
            == "<style>" + Styles(reg, FirstOccurrences({}, Names(ss))) + "</style>"
               + Html(TranspileStatements(reg, ev, ss, Empty())).value
  {
    var ss, html, css := CompileParts(reg, ev, message);
    assert Html(TranspileStatements(reg, ev, ss, Empty())) == Success(html);
    assert css == IncludeAll(reg, Empty(), Names(ss));
    IncludeAllSpec(reg, Empty(), Names(ss));
    assert css.cssString == Styles(reg, FirstOccurrences({}, Names(ss)));
  }

  /** The intermediate results of a successful compile. */
  lemma CompileParts(reg: Registry, ev: Evaluator, message: string)
    returns (ss: seq<Statement>, html: string, css: CssManager)
    requires Compile(reg, ev, message).Success?
    ensures |Tokenize(message)| <= MaxIterations
    ensures Parse(reg, Tokenize(message)) == Success(ss) && AllRegistered(reg, ss)
    ensures TranspileStatements(reg, ev, ss, Empty()) == Success((html, css))
    ensures Compile(reg, ev, message).value == "<style>" + css.cssString + "</style>" + html
  {
    var tokens := Tokenize(message);
    assert Lex(message) == Success(tokens);
    ss := Parse(reg, tokens).value;
    ParseRegistered(reg, tokens);
    var t := TranspileStatements(reg, ev, ss, Empty());
    html, css := t.value.0, t.value.1;
    CompileSteps(reg, ev, message, tokens, ss, html, css);
  }

  /** Without a `![` the lexer yields no component opener. */
  lemma {:induction false} TokenizeNoBegin(s: string)
    requires !Contains(s, "![")
    ensures NoBegin(Tokenize(s))
    decreases |s|
  {
    if s != [] {
      assert !OccursAt(s, "![", 0);
      var n := if StartsWith(s, "][") || StartsWith(s, "]!") then 2 else 1;
      assert !StartsWith(s, "![") by {
        if |s| >= 2 {
          assert s[..2] == s[0..2];
        }
      }
      if Contains(s[n..], "![") {
        ContainsSuffix(s, "![", n);
      }
      TokenizeNoBegin(s[n..]);
      var t := Tokenize(s);
      assert t[1..] == Tokenize(s[n..]);
    }
  }

  /** A message without a component opener compiles to an empty style
      element followed by the message itself; stray separators and closes
      are text. */
  lemma CompilePlainText(reg: Registry, ev: Evaluator, message: string)
    requires !Contains(message, "![") && |Tokenize(message)| <= MaxIterations
    ensures Compile(reg, ev, message) == Success("<style></style>" + message)
  {
    var tokens := Tokenize(message);
    assert Lex(message) == Success(tokens);
    var ss := PlainParse(reg, message);
    TranspilePlainText(reg, ev, ss, Empty());
    CompileSteps(reg, ev, message, tokens, ss, message, Empty());
    EmptyStyle(Empty().cssString, message);
  }

  /** A message without an opener parses to text statements spelling it. */
  lemma PlainParse(reg: Registry, message: string) returns (ss: seq<Statement>)
    requires !Contains(message, "![")
    ensures Parse(reg, Tokenize(message)) == Success(ss)
    ensures AllStr(ss) && JoinStr(ss) == message
  {
    TokenizeNoBegin(message);
    FlattenTokenize(message);
    ParseStrayTerminators(reg, Tokenize(message));
    ss := Parse(reg, Tokenize(message)).value;
  }

  /** The compile of a message whose stages all succeed. */
  lemma CompileSteps(reg: Registry, ev: Evaluator, message: string, tokens: seq<Token>, ss: seq<Statement>,
                     html: string, css: CssManager)
    requires Lex(message) == Success(tokens) && Parse(reg, tokens) == Success(ss)
    requires AllRegistered(reg, ss) && TranspileStatements(reg, ev, ss, Empty()) == Success((html, css))
    ensures Compile(reg, ev, message) == Success("<style>" + css.cssString + "</style>" + html)
  {
  }

  lemma EmptyStyle(css: string, html: string)
    requires css == ""
    ensures "<style>" + css + "</style>" + html == "<style></style>" + html
  {
    assert "<style>" + css == "<style>";
  }
}
