/** Whole compiles of small messages against a one-component registry:
    `greet`, with one parameter `who`, the template `Hello ${who}!` and a
    style. */
module Scenarios {
  import opened Strings
  import opened Tokens
  import opened Errors
  import opened Lexer
  import opened Registry
  import opened Parser
  import opened Css
  import opened Transpiler
  import opened Printer
  import opened Compiler
  import opened TranspilerProperties
  import opened ParserProperties

  const Greet: Definition := Definition("![greet][who]!", [Parameter("who", [])], "Hello ${who}!", "b{}")

  const Reg: Registry := map["greet" := Greet]

  /** A text in which the first character of `x` never occurs holds no
      occurrence of `x`. */
  lemma AbsentLead(s: string, x: string)
    requires |x| > 0 && forall i :: 0 <= i < |s| ==> s[i] != x[0]
    ensures !Contains(s, x)
  {
    forall i: nat | i <= |s|
      ensures !OccursAt(s, x, i)
    {
      if i + |x| <= |s| {
        assert s[i..i + |x|][0] == s[i];
      }
    }
  }

  lemma GreetParts()
    ensures Greet.html == "Hello " + "${who}" + "!"
    ensures Placeholder("who") == "${who}"
  {
  }

  lemma GreetNoEarly()
    ensures forall i: nat :: i < 6 ==> !OccursAt("Hello " + "${who}", "${who}", i)
  {
    forall i: nat | i < 6
      ensures !OccursAt("Hello " + "${who}", "${who}", i)
    {
      assert ("Hello " + "${who}")[i] != '$';
    }
  }

  lemma GreetReplace(v: string)
    ensures ReplaceAll(Greet.html, "${who}", v) == "Hello " + v + "!"
  {
    GreetParts();
    GreetNoEarly();
    ReplaceAllJoin("Hello ", "${who}", "!", v);
    assert !OccursAt("!", "${who}", 0);
    ReplaceAllAbsent("!", "${who}", v);
  }

  /** The template with `who` bound to any value. */
  lemma GreetTemplate(v: string)
    ensures SubstituteAll(Greet.html, [("who", v)]) == "Hello " + v + "!"
  {
    GreetParts();
    GreetReplace(v);
    var vals := [("who", v)];
    assert vals[0].0 == "who" && vals[1..] == [];
    var h := ReplaceAll(Greet.html, Placeholder("who"), v);
    assert SubstituteAll(Greet.html, vals) == SubstituteAll(h, []);
  }

  /** The filled-in template holds no evaluated placeholder. */
  lemma GreetOutPlain(v: string)
    requires forall i :: 0 <= i < |v| ==> v[i] != '$'
    ensures !Contains("Hello " + v + "!", EvalOpen)
  {
    var out := "Hello " + v + "!";
    forall i | 0 <= i < |out|
      ensures out[i] != '$'
    {
      if 6 <= i < 6 + |v| {
        assert out[i] == v[i - 6];
      }
    }
    AbsentLead(out, EvalOpen);
  }

  /** The value `greet`'s one argument binds. */
  lemma GreetArgValues(ev: Evaluator, arg: seq<Statement>, v: string)
    requires AllRegistered(Reg, arg)
    requires Html(TranspileStatements(Reg, ev, arg, Empty())) == Success(v)
    ensures ArgsRegistered(Reg, [Argument(arg)])
    ensures ArgValues(Reg, ev, Greet.arguments, [Argument(arg)]) == Success([("who", v)])
  {
    var args := [Argument(arg)];
    assert args[0].statements == arg && args[1..] == [];
    assert Greet.arguments[0].name == "who" && Greet.arguments[1..] == [];
    assert ArgValues(Reg, ev, Greet.arguments[1..], args[1..]) == Success([]);
    assert [("who", v)] + [] == [("who", v)];
  }

  /** `greet` invoked with one argument whose HTML is `v`, when `v` holds
      no `$`: the template with `v` in place of `${who}`. */
  lemma GreetHtml(ev: Evaluator, arg: seq<Statement>, v: string, css: CssManager)
    requires AllRegistered(Reg, arg)
    requires forall i :: 0 <= i < |v| ==> v[i] != '$'
    requires Html(TranspileStatements(Reg, ev, arg, Empty())) == Success(v)
    ensures Html(TranspileOnce(Reg, ev, Component("greet", [Argument(arg)]), css)) == Success("Hello " + v + "!")
  {
    var args := [Argument(arg)];
    GreetArgValues(ev, arg, v);
    InvocationSpec(Reg, ev, "greet", args, css);
    GreetTemplate(v);
    GreetOutPlain(v);
    ExpandEvalsAbsent(ev, Bindings([("who", v)]), "Hello " + v + "!");
  }

  /** A one-statement sequence transpiles as its statement. */
  lemma Single(ev: Evaluator, st: Statement, css: CssManager)
    requires Registered(Reg, st)
    ensures AllRegistered(Reg, [st])
    ensures TranspileStatements(Reg, ev, [st], css) == TranspileOnce(Reg, ev, st, css)
  {
    assert [st][1..] == [];
    var r := TranspileOnce(Reg, ev, st, css);
    if r.Success? {
      assert r.value.0 + "" == r.value.0;
    }
  }

  /** A compile whose message is the printed text of a well-formed tree:
      the tree is what the transpiler sees. */
  lemma CompilePrinted(ev: Evaluator, ss: seq<Statement>, html: string, css: CssManager)
    requires WellFormed(Reg, ss) && Canonical(RenderStatements(ss))
    requires |RenderStatements(ss)| <= MaxIterations
    requires AllRegistered(Reg, ss) && TranspileStatements(Reg, ev, ss, Empty()) == Success((html, css))
    ensures Compile(Reg, ev, Print(ss)) == Success("<style>" + css.cssString + "</style>" + html)
  {
    LexParsePrint(Reg, ss);
    CompileSteps(Reg, ev, Print(ss), Lex(Print(ss)).value, ss, html, css);
  }

  /** Text that can stand as `greet`'s argument and come out of the
      compile as written: non-empty, and without `!` or `]`, which could
      join with a neighbour into a control sequence, or `$`, which could
      start a placeholder. */
  predicate Plain(w: string) {
    w != [] && forall i :: 0 <= i < |w| ==> w[i] != '!' && w[i] != ']' && w[i] != '$'
  }

  /** The tree of `![greet][w]!`. */
  function GreetCall(w: string): seq<Statement> {
    [Component("greet", [Argument([Str(w)])])]
  }

  lemma GreetTokens(w: string)
    ensures RenderStatements(GreetCall(w))
         == [BeginComponent] + CharTokens("greet") + [NextArg] + CharTokens(w) + [EndComponent]
  {
    var args := [Argument([Str(w)])];
    assert args[1..] == [] && [Str(w)][1..] == [];
    assert RenderStatements([Str(w)]) == CharTokens(w);
    assert RenderArgs(args) == [NextArg] + CharTokens(w) + [EndComponent];
    assert GreetCall(w)[1..] == [];
  }

  lemma FlattenOne(t: Token)
    ensures Flatten([t]) == TokenText(t)
  {
    assert [t][1..] == [];
  }

  lemma GreetHead()
    ensures Flatten([BeginComponent] + CharTokens("greet") + [NextArg]) == "![greet]["
  {
    FlattenAppend([BeginComponent] + CharTokens("greet"), [NextArg]);
    FlattenAppend([BeginComponent], CharTokens("greet"));
    FlattenCharTokens("greet");
    FlattenOne(BeginComponent);
    FlattenOne(NextArg);
  }

  lemma GreetTail(w: string)
    ensures Flatten(CharTokens(w) + [EndComponent]) == w + "]!"
  {
    FlattenAppend(CharTokens(w), [EndComponent]);
    FlattenCharTokens(w);
    FlattenOne(EndComponent);
  }

  lemma GreetPrint(w: string)
    ensures Print(GreetCall(w)) == "![greet][" + w + "]!"
  {
    GreetTokens(w);
    var a, b := [BeginComponent] + CharTokens("greet") + [NextArg], CharTokens(w) + [EndComponent];
    assert RenderStatements(GreetCall(w)) == a + b;
    FlattenAppend(a, b);
    GreetHead();
    GreetTail(w);
    assert "![greet][" + (w + "]!") == "![greet][" + w + "]!";
  }

  lemma GreetCanonical(w: string)
    requires Plain(w)
    ensures Canonical(RenderStatements(GreetCall(w)))
    ensures |RenderStatements(GreetCall(w))| == |w| + 8
  {
    GreetTokens(w);
    var ts := RenderStatements(GreetCall(w));
    forall i | 0 <= i < |ts| - 1
      ensures !Glues(ts[i], ts[i + 1])
    {
      assert ts[i] != Char('!') && ts[i] != Char(']');
    }
  }

  lemma GreetStyle(css: string, w: string)
    requires css == "b{}"
    ensures "<style>" + css + "</style>" + ("Hello " + w + "!") == "<style>b{}</style>Hello " + w + "!"
  {
    assert "<style>" + css + "</style>" == "<style>b{}</style>";
  }

  /** `![greet][w]!` compiles to the component's style followed by the
      template with `w` in place. */
  lemma GreetCompile(ev: Evaluator, w: string)
    requires Plain(w) && |w| + 8 <= MaxIterations
    ensures Compile(Reg, ev, "![greet][" + w + "]!") == Success("<style>b{}</style>Hello " + w + "!")
  {
    GreetPrint(w);
    GreetCompiled(ev, w);
  }

  lemma GreetCompiled(ev: Evaluator, w: string)
    requires Plain(w) && |w| + 8 <= MaxIterations
    ensures Compile(Reg, ev, Print(GreetCall(w))) == Success("<style>b{}</style>Hello " + w + "!")
  {
    var arg := [Str(w)];
    var c := Component("greet", [Argument(arg)]);
    var ss := GreetCall(w);
    assert ToLower("greet") == "greet";
    assert ValidName("greet");
    assert "greet" in Reg;
    assert WellFormed(Reg, arg);
    assert WellFormedStatement(Reg, c);
    assert ss == [c];
    assert WellFormed(Reg, ss);
    GreetCanonical(w);
    assert AllStr(arg);
    TranspilePlainText(Reg, ev, arg, Empty());
    assert JoinStr(arg) == w;
    GreetHtml(ev, arg, w, Empty());
    Single(ev, c, Empty());
    var r := TranspileStatements(Reg, ev, ss, Empty());
    assert r.value.0 == "Hello " + w + "!";
    assert Names(ss) == ["greet"];
    assert r.value.1 == IncludeAll(Reg, Empty(), ["greet"]);
    assert r.value.1.cssString == "b{}";
    CompilePrinted(ev, ss, r.value.0, r.value.1);
    GreetStyle(r.value.1.cssString, w);
  }
}
