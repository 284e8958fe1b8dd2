/** The transpiler: turns a parsed statement tree into HTML, resolving each
    invocation against the registry, checking its argument count,
    substituting `${param}` placeholders in declaration order and expanding
    `${eval:...}` placeholders through an evaluator, while the CSS manager
    collects the styles of the components used. */
module Transpiler {
  import opened Strings
  import opened Errors
  import opened Registry
  import opened Parser
  import opened Css
  import opened Json

  /** What evaluating a piece of template code gives: the string value of
      its completion, or the message of what it threw. */
  datatype Outcome = Returned(value: string) | Threw(message: string)

  /** The host's `eval`, taken as a parameter: the model fixes only that it
      maps the code it is given to an outcome. */
  type Evaluator = string -> Outcome

  // ---------------------------------------------------------------------
  // Placeholders for declared parameters

  /** The text a parameter's value replaces in the template. */
  function Placeholder(name: string): (r: string)
    ensures |r| == |name| + 3
  {
    "${" + name + "}"
  }

  /** The parameters' values substituted in the given order: each step
      replaces every placeholder of one parameter in the text as it stands
      after the earlier steps. */
  function SubstituteAll(html: string, argValues: seq<(string, string)>): string
    decreases |argValues|
  {
    if argValues == [] then html
    else SubstituteAll(ReplaceAll(html, Placeholder(argValues[0].0), argValues[0].1), argValues[1..])
  }

  // ---------------------------------------------------------------------
  // Evaluated placeholders

  /** The characters the `.` of a JavaScript regular expression does not
      match. */
  predicate IsLineTerminator(c: char) {
    c == '\n' || c == '\r' || c as int == 0x2028 || c as int == 0x2029
  }

  /** The literal start of an evaluated placeholder. */
  const EvalOpen: string := "${eval:"

  /** `/\${eval:(.+)}/` matches at the start of `s` with its closing brace
      at `k`: the code between is non-empty and holds no line terminator. */
  predicate EvalMatch(s: string, k: nat) {
    && StartsWith(s, EvalOpen)
    && |EvalOpen| < k < |s|
    && s[k] == '}'
    && forall j :: |EvalOpen| <= j < k ==> !IsLineTerminator(s[j])
  }

  /** Where the run of characters other than line terminators starting at
      `i` ends. */
  function LineEnd(s: string, i: nat): (e: nat)
    requires i <= |s|
    decreases |s| - i
    ensures i <= e <= |s|
    ensures forall j :: i <= j < e ==> !IsLineTerminator(s[j])
    ensures e < |s| ==> IsLineTerminator(s[e])
  {
    if i < |s| && !IsLineTerminator(s[i]) then LineEnd(s, i + 1) else i
  }

  /** The last closing brace in `s[lo..hi]`. */
  function LastBrace(s: string, lo: nat, hi: nat): (r: Option<nat>)
    requires hi <= |s|
    decreases hi
    ensures r.Some? ==> lo <= r.value < hi && s[r.value] == '}'
    ensures r.Some? ==> forall k :: r.value < k < hi ==> s[k] != '}'
    ensures r.None? ==> forall k :: lo <= k < hi ==> s[k] != '}'
  {
    if hi <= lo then None
    else if s[hi - 1] == '}' then Some(hi - 1)
    else LastBrace(s, lo, hi - 1)
  }

  /** The greedy match at the start of `s`: `.+` runs to the end of the
      line and backs off to the last closing brace, so the match ends at
      the largest brace that ends any match. */
  function EvalMatchAt(s: string): (r: Option<nat>)
    ensures r.Some? ==> EvalMatch(s, r.value)
    ensures r.Some? ==> forall k: nat :: EvalMatch(s, k) ==> k <= r.value
    ensures r.None? ==> forall k: nat :: !EvalMatch(s, k)
  {
    if StartsWith(s, EvalOpen) then LastBrace(s, |EvalOpen| + 1, LineEnd(s, |EvalOpen|)) else None
  }

  /** `html.replaceAll(/\${eval:(.+)}/g, ...)`: scans left to right; at a
      match the captured code, preceded by the argument declarations, is
      evaluated and its value replaces the whole match; the scan resumes
      after the match, and elsewhere moves on one character. The first
      evaluation that throws fails the compile. */
  function ExpandEvals(ev: Evaluator, vars: string, s: string): (r: Result<string>)
    decreases |s|
    ensures r.Failure? ==> r.error.EvalFailed?
  {
    if s == [] then Success("")
    else
      match EvalMatchAt(s)
      case Some(k) =>
        (match ev(vars + s[|EvalOpen|..k])
         case Threw(msg) => Failure(EvalFailed(msg))
         case Returned(v) =>
           var rest :- ExpandEvals(ev, vars, s[k + 1..]);
           Success(v + rest))
      case None =>
        var rest :- ExpandEvals(ev, vars, s[1..]);
        Success([s[0]] + rest)
  }

  /** Text without an evaluated placeholder comes through unchanged, and
      the evaluator is never consulted. */
  lemma {:induction false} ExpandEvalsAbsent(ev: Evaluator, vars: string, s: string)
    requires !Contains(s, EvalOpen)
    ensures ExpandEvals(ev, vars, s) == Success(s)
    decreases |s|
  {
    if s != [] {
      assert !OccursAt(s, EvalOpen, 0);
      assert |s| < |EvalOpen| || s[0..|EvalOpen|] == s[..|EvalOpen|];
      assert EvalMatchAt(s).None?;
      assert !Contains(s[1..], EvalOpen) by {
        forall i: nat | i <= |s[1..]| && OccursAt(s[1..], EvalOpen, i)
          ensures false
        {
          assert s[1..][i..i + |EvalOpen|] == s[i + 1..i + 1 + |EvalOpen|];
          assert OccursAt(s, EvalOpen, i + 1);
        }
      }
      ExpandEvalsAbsent(ev, vars, s[1..]);
      assert s == [s[0]] + s[1..];
    }
  }

  // ---------------------------------------------------------------------
  // Argument declarations for evaluated code

  /** The declaration the evaluated code sees for one argument. */
  function Binding(name: string, value: string): string {
    "\nconst " + name + " = " + JsonQuote(value) + ";"
  }

  /** The declarations of all arguments, in declaration order: nothing
      when there are no arguments, and otherwise a text that starts a new
      line. */
  function Bindings(argValues: seq<(string, string)>): (r: string)
    decreases |argValues|
    ensures r == [] <==> argValues == []
    ensures r != [] ==> r[0] == '\n'
  {
    if argValues == [] then "" else Binding(argValues[0].0, argValues[0].1) + Bindings(argValues[1..])
  }

  /** The declarations of two runs of arguments are those of the first
      followed by those of the second, as the `reduce` that builds them
      folds left to right. */
  lemma {:induction false} BindingsAppend(a: seq<(string, string)>, b: seq<(string, string)>)
    ensures Bindings(a + b) == Bindings(a) + Bindings(b)
    decreases |a|
  {
    if a == [] {
      assert a + b == b;
    } else {
      assert (a + b)[0] == a[0] && (a + b)[1..] == a[1..] + b;
      BindingsAppend(a[1..], b);
    }
  }

  /** Every argument is declared, under its name, with its value as a JSON
      string literal. */
  lemma {:induction false} BindingsDeclare(argValues: seq<(string, string)>)
    ensures forall k :: 0 <= k < |argValues| ==> Contains(Bindings(argValues), Binding(argValues[k].0, argValues[k].1))
    decreases |argValues|
  {
    if argValues != [] {
      var first := Binding(argValues[0].0, argValues[0].1);
      var rest := Bindings(argValues[1..]);
      BindingsDeclare(argValues[1..]);
      assert Bindings(argValues) == first + rest;
      ContainsHead(first, rest);
      forall k | 1 <= k < |argValues|
        ensures Contains(first + rest, Binding(argValues[k].0, argValues[k].1))
      {
        assert argValues[k] == argValues[1..][k - 1];
        ContainsAppend(first, rest, Binding(argValues[k].0, argValues[k].1));
      }
    }
  }

  // ---------------------------------------------------------------------
  // The transpiler proper

  /** The component names of a tree, depth first and left to right, each
      invocation's own name before those in its arguments: the order in
      which the transpiler includes their CSS. */
  function Names(ss: seq<Statement>): seq<string>
    decreases ss, 1
  {
    if ss == [] then [] else NamesOf(ss[0]) + Names(ss[1..])
  }

  function NamesOf(s: Statement): seq<string>
    decreases s, 0
  {
    match s
    case Str(_) => []
    case Component(name, args) => [name] + ArgNames(args)
  }

  function ArgNames(args: seq<Argument>): seq<string>
    decreases args, 1
  {
    if args == [] then [] else Names(args[0].statements) + ArgNames(args[1..])
  }

  predicate NamesIn(reg: Registry, names: seq<string>) {
    forall i :: 0 <= i < |names| ==> names[i] in reg
  }

  lemma NamesInAppend(reg: Registry, a: seq<string>, b: seq<string>)
    requires NamesIn(reg, a) && NamesIn(reg, b)
    ensures NamesIn(reg, a + b)
  {
    forall i | 0 <= i < |a + b|
      ensures (a + b)[i] in reg
    {
      if i >= |a| {
        assert (a + b)[i] == b[i - |a|];
      }
    }
  }

  /** Transpiles the statements in order and concatenates their HTML; the
      CSS manager is threaded through. */
  function TranspileStatements(reg: Registry, ev: Evaluator, ss: seq<Statement>, css: CssManager)
    : (r: Result<(string, CssManager)>)
    requires AllRegistered(reg, ss)
    decreases ss, 1
    ensures r.Success? ==> NamesIn(reg, Names(ss)) && r.value.1 == IncludeAll(reg, css, Names(ss))
    ensures r.Failure? ==> IsTranspileError(r.error)
  {
    if ss == [] then Success(("", css))
    else
      var first :- TranspileOnce(reg, ev, ss[0], css);
      var rest :- TranspileStatements(reg, ev, ss[1..], first.1);
      NamesInAppend(reg, NamesOf(ss[0]), Names(ss[1..]));
      IncludeAllAppend(reg, css, NamesOf(ss[0]), Names(ss[1..]));
      Success((first.0 + rest.0, rest.1))
  }

  /** One statement: text is copied; an invocation includes its
      component's CSS, checks the argument count, transpiles and
      substitutes the arguments, then expands evaluated placeholders. */
  function TranspileOnce(reg: Registry, ev: Evaluator, s: Statement, css: CssManager)
    : (r: Result<(string, CssManager)>)
    requires Registered(reg, s)
    decreases s, 0
    ensures r.Success? ==> NamesIn(reg, NamesOf(s)) && r.value.1 == IncludeAll(reg, css, NamesOf(s))
    ensures r.Failure? ==> IsTranspileError(r.error)
  {
    match s
    case Str(v) => Success((v, css))
    case Component(name, args) =>
      var css1 := IncludeCss(reg, css, name);
      var def := reg[name];
      if |args| != |def.arguments| then
        Failure(ArityMismatch(name, def.usage, |def.arguments|, |args|))
      else
        var e :- ExpandArgs(reg, ev, def.arguments, args, def.html, css1);
        var out :- ExpandEvals(ev, Bindings(e.1), e.0);
        assert ([name] + ArgNames(args))[0] == name && ([name] + ArgNames(args))[1..] == ArgNames(args);
        Success((out, e.2))
  }

  /** The loop over the declared parameters: each argument is transpiled
      in full, then every placeholder of its parameter in the template as
      it stands is replaced by the result; the names and values are kept
      for the evaluated code. */
  function ExpandArgs(reg: Registry, ev: Evaluator, params: seq<Parameter>, args: seq<Argument>, html: string,
                      css: CssManager)
    : (r: Result<(string, seq<(string, string)>, CssManager)>)
    requires |params| == |args| && ArgsRegistered(reg, args)
    decreases args, 0
    ensures r.Success? ==> NamesIn(reg, ArgNames(args)) && r.value.2 == IncludeAll(reg, css, ArgNames(args))
    ensures r.Success? ==> |r.value.1| == |params|
    ensures r.Failure? ==> IsTranspileError(r.error)
    ensures r.Success? ==> forall k :: 0 <= k < |params| ==> r.value.1[k].0 == params[k].name
  {
    if args == [] then Success((html, [], css))
    else
      var v :- TranspileStatements(reg, ev, args[0].statements, css);
      var html1 := ReplaceAll(html, Placeholder(params[0].name), v.0);
      var rest :- ExpandArgs(reg, ev, params[1..], args[1..], html1, v.1);
      NamesInAppend(reg, Names(args[0].statements), ArgNames(args[1..]));
      IncludeAllAppend(reg, css, Names(args[0].statements), ArgNames(args[1..]));
      Success((rest.0, [(params[0].name, v.0)] + rest.1, rest.2))
  }
}
