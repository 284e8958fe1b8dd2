/** Properties of the transpiler: what an invocation's HTML is in terms of
    a reference definition, that the CSS collected so far never changes the
    HTML, the HTML of a sequence, plain text, the arity error, the order of
    substitution and the greedy evaluated placeholder. */
module TranspilerProperties {
  import opened Strings
  import opened Errors
  import opened Registry
  import opened Parser
  import opened Css
  import opened Transpiler
  import opened ParserProperties

  /** The HTML of a transpile result, its CSS dropped. */
  function Html(r: Result<(string, CssManager)>): Result<string> {
    match r
    case Success(v) => Success(v.0)
    case Failure(e) => Failure(e)
  }

  /** The template and argument values of an argument loop's result, its
      CSS dropped. */
  function Expanded(r: Result<(string, seq<(string, string)>, CssManager)>): Result<(string, seq<(string, string)>)> {
    match r
    case Success(v) => Success((v.0, v.1))
    case Failure(e) => Failure(e)
  }

  // ---------------------------------------------------------------------
  // The CSS manager only collects

  /** Whether a transpile succeeds, what it fails with and the HTML it
      produces do not depend on the CSS collected before it. */
  lemma {:induction false} StatementsCssIndependent(reg: Registry, ev: Evaluator, ss: seq<Statement>,
                                                     c1: CssManager, c2: CssManager)
    requires AllRegistered(reg, ss)
    ensures Html(TranspileStatements(reg, ev, ss, c1)) == Html(TranspileStatements(reg, ev, ss, c2))
    decreases ss, 1
  {
    if ss != [] {
      OnceCssIndependent(reg, ev, ss[0], c1, c2);
      var f1 := TranspileOnce(reg, ev, ss[0], c1);
      var f2 := TranspileOnce(reg, ev, ss[0], c2);
      if f1.Success? {
        StatementsCssIndependent(reg, ev, ss[1..], f1.value.1, f2.value.1);
      }
    }
  }

  lemma {:induction false} OnceCssIndependent(reg: Registry, ev: Evaluator, s: Statement,
                                               c1: CssManager, c2: CssManager)
    requires Registered(reg, s)
    ensures Html(TranspileOnce(reg, ev, s, c1)) == Html(TranspileOnce(reg, ev, s, c2))
    decreases s, 0
  {
    match s
    case Str(_) =>
    case Component(name, args) =>
      var def := reg[name];
      if |args| == |def.arguments| {
        ArgsCssIndependent(reg, ev, def.arguments, args, def.html,
                           IncludeCss(reg, c1, name), IncludeCss(reg, c2, name));
      }
  }

  lemma {:induction false} ArgsCssIndependent(reg: Registry, ev: Evaluator, params: seq<Parameter>,
                                               args: seq<Argument>, html: string,
                                               c1: CssManager, c2: CssManager)
    requires |params| == |args| && ArgsRegistered(reg, args)
    ensures Expanded(ExpandArgs(reg, ev, params, args, html, c1))
         == Expanded(ExpandArgs(reg, ev, params, args, html, c2))
    decreases args, 0
  {
    if args != [] {
      StatementsCssIndependent(reg, ev, args[0].statements, c1, c2);
      var v1 := TranspileStatements(reg, ev, args[0].statements, c1);
      var v2 := TranspileStatements(reg, ev, args[0].statements, c2);
      if v1.Success? {
        var html1 := ReplaceAll(html, Placeholder(params[0].name), v1.value.0);
        ArgsCssIndependent(reg, ev, params[1..], args[1..], html1, v1.value.1, v2.value.1);
      }
    }
  }

  /** The HTML of a statement sequence: the first statement's HTML
      followed by the rest's, each transpiled on its own; the first failure
      is the result. */
  lemma StatementsHtml(reg: Registry, ev: Evaluator, ss: seq<Statement>, css: CssManager)
    requires ss != [] && AllRegistered(reg, ss)
    ensures Registered(reg, ss[0]) && AllRegistered(reg, ss[1..])
    ensures Html(TranspileStatements(reg, ev, ss, css))
      == match Html(TranspileOnce(reg, ev, ss[0], Empty()))
         case Failure(e) => Failure(e)
         case Success(first) =>
           (match Html(TranspileStatements(reg, ev, ss[1..], Empty()))
            case Failure(e) => Failure(e)
            case Success(rest) => Success(first + rest))
  {
    OnceCssIndependent(reg, ev, ss[0], css, Empty());
    var f := TranspileOnce(reg, ev, ss[0], css);
    if f.Success? {
      StatementsCssIndependent(reg, ev, ss[1..], f.value.1, Empty());
    }
  }

  // ---------------------------------------------------------------------
  // Reference definition of an invocation

  /** The values an invocation binds: each argument transpiled on its own,
      in order, paired with its parameter's name; the first failure is the
      result. */
  function ArgValues(reg: Registry, ev: Evaluator, params: seq<Parameter>, args: seq<Argument>)
    : Result<seq<(string, string)>>
    requires |params| == |args| && ArgsRegistered(reg, args)
    decreases |args|
  {
    if args == [] then Success([])
    else
      var v :- Html(TranspileStatements(reg, ev, args[0].statements, Empty()));
      var rest :- ArgValues(reg, ev, params[1..], args[1..]);
      Success([(params[0].name, v)] + rest)
  }

  /** The argument loop computes the reference values, and its template is
      the declared template with the parameters substituted one after the
      other in declaration order. */
  lemma {:induction false} ExpandArgsSpec(reg: Registry, ev: Evaluator, params: seq<Parameter>,
                                           args: seq<Argument>, html: string, css: CssManager)
    requires |params| == |args| && ArgsRegistered(reg, args)
    ensures var a := ArgValues(reg, ev, params, args);
      Expanded(ExpandArgs(reg, ev, params, args, html, css))
      == (match a
          case Success(vals) => Success((SubstituteAll(html, vals), vals))
          case Failure(e) => Failure(e))
    decreases |args|
  {
    if args != [] {
      StatementsCssIndependent(reg, ev, args[0].statements, css, Empty());
      var v := TranspileStatements(reg, ev, args[0].statements, css);
      if v.Success? {
        var html1 := ReplaceAll(html, Placeholder(params[0].name), v.value.0);
        ExpandArgsSpec(reg, ev, params[1..], args[1..], html1, v.value.1);
        var rest := ArgValues(reg, ev, params[1..], args[1..]);
        if rest.Success? {
          var vals := [(params[0].name, v.value.0)] + rest.value;
          assert vals[0] == (params[0].name, v.value.0) && vals[1..] == rest.value;
        }
      }
    }
  }

  /** The HTML of an invocation: the arity error when the argument count
      is off; otherwise the first failing argument's error, or the declared
      template with every parameter substituted in declaration order and
      then its evaluated placeholders expanded with the arguments bound. */
  lemma InvocationSpec(reg: Registry, ev: Evaluator, name: string, args: seq<Argument>, css: CssManager)
    requires Registered(reg, Component(name, args))
    ensures var def := reg[name];
      Html(TranspileOnce(reg, ev, Component(name, args), css))
      == if |args| != |def.arguments| then Failure(ArityMismatch(name, def.usage, |def.arguments|, |args|))
         else match ArgValues(reg, ev, def.arguments, args)
              case Failure(e) => Failure(e)
              case Success(vals) => ExpandEvals(ev, Bindings(vals), SubstituteAll(def.html, vals))
  {
    var def := reg[name];
    if |args| == |def.arguments| {
      ExpandArgsSpec(reg, ev, def.arguments, args, def.html, IncludeCss(reg, css, name));
    }
  }

  /** A wrong argument count fails the invocation with an error whose
      message names the expected count, the count found, the component
      and its usage example. */
  lemma ArityFails(reg: Registry, ev: Evaluator, name: string, args: seq<Argument>, css: CssManager)
    requires Registered(reg, Component(name, args))
    requires |args| != |reg[name].arguments|
    ensures var def := reg[name];
      var r := TranspileOnce(reg, ev, Component(name, args), css);
      && r == Failure(ArityMismatch(name, def.usage, |def.arguments|, |args|))
      && Contains(Message(r.error), NatToString(|def.arguments|))
      && Contains(Message(r.error), NatToString(|args|))
      && Contains(Message(r.error), name)
      && Contains(Message(r.error), def.usage)
  {
    ArityMessageMentions(name, reg[name].usage, |reg[name].arguments|, |args|);
  }

  // ---------------------------------------------------------------------
  // Plain text

  /** Text statements transpile to their concatenated text and include no
      CSS. */
  lemma {:induction false} TranspilePlainText(reg: Registry, ev: Evaluator, ss: seq<Statement>, css: CssManager)
    requires AllStr(ss)
    ensures AllRegistered(reg, ss)
    ensures TranspileStatements(reg, ev, ss, css) == Success((JoinStr(ss), css))
    decreases |ss|
  {
    if ss != [] {
      TranspilePlainText(reg, ev, ss[1..], css);
    }
  }

  // ---------------------------------------------------------------------
  // Substitution

  /** A template without any of the parameters' placeholders comes out of
      substitution unchanged, whatever the values. */
  lemma {:induction false} SubstituteAbsent(html: string, vals: seq<(string, string)>)
    requires forall k :: 0 <= k < |vals| ==> !Contains(html, Placeholder(vals[k].0))
    ensures SubstituteAll(html, vals) == html
    decreases |vals|
  {
    if vals != [] {
      ReplaceAllAbsent(html, Placeholder(vals[0].0), vals[0].1);
      assert forall k :: 0 <= k < |vals[1..]| ==> vals[1..][k] == vals[k + 1];
      SubstituteAbsent(html, vals[1..]);
    }
  }

  /** Substitution follows declaration order, so a value substituted early
      is itself rewritten by a later parameter, and not the other way
      round. */
  lemma SubstitutionOrder()
    ensures SubstituteAll("${a}", [("a", "${b}"), ("b", "x")]) == "x"
    ensures SubstituteAll("${a}", [("b", "x"), ("a", "${b}")]) == "${b}"
  {
    ReplaceAllSelf("${a}", "${a}");
    assert ReplaceAll("${a}", "${a}", "${b}") == "${b}" by {
      assert "${a}"[..4] == "${a}" && "${a}"[4..] == "";
    }
    assert ReplaceAll("${b}", "${b}", "x") == "x" by {
      assert "${b}"[..4] == "${b}" && "${b}"[4..] == "";
    }
    assert ReplaceAll("${a}", "${b}", "x") == "${a}" by {
      assert !OccursAt("${a}", "${b}", 0);
      ReplaceAllAbsent("${a}", "${b}", "x");
    }
    assert [("a", "${b}"), ("b", "x")][1..] == [("b", "x")];
    assert [("b", "x"), ("a", "${b}")][1..] == [("a", "${b}")];
  }

  // ---------------------------------------------------------------------
  // Evaluated placeholders

  /** The placeholder pattern is greedy: two evaluated placeholders on one
      line form a single match, which ends at the second one's brace. */
  lemma GreedyMatch()
    ensures EvalMatchAt("${eval:1}${eval:2}") == Some(17)
  {
    var s := "${eval:1}${eval:2}";
    assert s[..7] == EvalOpen;
    assert forall j :: 7 <= j < 18 ==> !IsLineTerminator(s[j]);
  }

  /** So the evaluator sees the text from the first placeholder's code to
      the second one's as one piece of code, and its value replaces both
      placeholders. */
  lemma GreedyEval(ev: Evaluator, vars: string)
    ensures ExpandEvals(ev, vars, "${eval:1}${eval:2}")
      == match ev(vars + "1}${eval:2")
         case Threw(m) => Failure(EvalFailed(m))
         case Returned(v) => Success(v)
  {
    var s := "${eval:1}${eval:2}";
    GreedyMatch();
    assert s[|EvalOpen|..17] == "1}${eval:2";
    assert ExpandEvals(ev, vars, s[17 + 1..]) == Success("");
    match ev(vars + "1}${eval:2")
    case Threw(m) =>
    case Returned(v) =>
      assert v + "" == v;
  }
}
