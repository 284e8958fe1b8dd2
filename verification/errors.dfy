/** The ways a compile can fail, the messages the source throws for them,
    the Result type every stage returns, and Option. */
module Errors {
  import opened Strings
  import opened Tokens

  datatype Error =
    /** The lexer's iteration ceiling was exceeded. */
    | LoopLimit
    /** A cursor was asked for more items than remain. */
    | UnexpectedEnd
    /** A component name holds a character outside `\w`. */
    | InvalidName(name: string)
    /** A component name is absent from the registry. */
    | UnknownComponent(name: string)
    /** After a component's name or argument came a token that is neither
        a separator nor a close. */
    | UnexpectedToken(name: string, token: Token)
    /** An invocation's argument count differs from the declared one. */
    | ArityMismatch(name: string, usage: string, expected: nat, found: nat)
    /** Evaluated template code threw. */
    | EvalFailed(message: string)

  /** The errors the parser raises. */
  predicate IsParseError(e: Error) {
    e.UnexpectedEnd? || e.InvalidName? || e.UnknownComponent? || e.UnexpectedToken?
  }

  /** The errors the transpiler raises. */
  predicate IsTranspileError(e: Error) {
    e.ArityMismatch? || e.EvalFailed?
  }

  datatype Option<+T> = None | Some(value: T)

  datatype Result<+T> = Success(value: T) | Failure(error: Error) {
    predicate IsFailure() {
      Failure?
    }

    function PropagateFailure<U>(): Result<U>
      requires Failure?
    {
      Failure(error)
    }

    function Extract(): T
      requires Success?
    {
      value
    }
  }

  /** `JSON.stringify` of the token object the lexer builds. The value of a
      Char token is written without JSON escaping. */
  function TokenJson(t: Token): string {
    match t
    case Char(c) => "{\"type\":\"char\",\"value\":\"" + [c] + "\"}"
    case BeginComponent => "{\"type\":\"begin_component\"}"
    case NextArg => "{\"type\":\"next_arg\",\"value\":\"][\"}"
    case EndComponent => "{\"type\":\"end_component\",\"value\":\"]!\"}"
  }

  /** The text of the exception the source throws for each error: the
      parser's errors carry a common prefix, and what evaluated code threw
      passes through unchanged. */
  function Message(e: Error): (r: string)
    ensures IsParseError(e) ==> StartsWith(r, "Parse Error: ")
    ensures e.LoopLimit? ==> StartsWith(r, "Lexing failed: ")
    ensures e.EvalFailed? ==> r == e.message
  {
    match e
    case LoopLimit =>
      StartsWithAppend("Lexing failed: ", "Looped too many times");
      "Lexing failed: " + "Looped too many times"
    case ArityMismatch(name, usage, expected, found) =>
      ArityText(name, usage, NatToString(expected), NatToString(found))
    case EvalFailed(message) => message
    case _ =>
      StartsWithAppend("Parse Error: ", ParseDetail(e));
      "Parse Error: " + ParseDetail(e)
  }

  /** What follows the prefix of a parser error's message. */
  function ParseDetail(e: Error): string
    requires IsParseError(e)
  {
    match e
    case UnexpectedEnd => "Expected more text"
    case InvalidName(name) => "Component name cannot include invalid characters: '" + name + "'"
    case UnknownComponent(name) => "Unknown component '" + name + "'"
    case UnexpectedToken(name, token) =>
      "Expected '][' or ']!' after component '" + name + "', found '" + TokenJson(token) + "'"
  }

  /** The parser's errors about a component name quote the name, which the
      parser has lower-cased by then. */
  lemma MessageNamesComponent(e: Error)
    requires e.InvalidName? || e.UnknownComponent? || e.UnexpectedToken?
    ensures Contains(Message(e), e.name)
  {
    var p, d := "Parse Error: ", ParseDetail(e);
    DetailNamesComponent(e);
    var m := Message(e);
    assert m == p + d;
    assert m[|p|..] == d;
    ContainsSuffix(m, e.name, |p|);
  }

  lemma DetailNamesComponent(e: Error)
    requires e.InvalidName? || e.UnknownComponent? || e.UnexpectedToken?
    ensures Contains(ParseDetail(e), e.name)
  {
    match e
    case InvalidName(name) =>
      ContainsMiddle("Component name cannot include invalid characters: '", name, "'");
    case UnknownComponent(name) =>
      ContainsMiddle("Unknown component '", name, "'");
    case UnexpectedToken(name, token) =>
      var a := "Expected '][' or ']!' after component '";
      var tail := "', found '" + TokenJson(token) + "'";
      ContainsMiddle(a, name, tail);
      assert ParseDetail(e) == a + name + tail;
  }

  function ArityText(name: string, usage: string, expected: string, found: string): string {
    "Expected " + expected + " arguments but only found " + found + " in the '"
    + name + "' component.\n\nExample usage: " + usage
  }

  /** The arity error tells the user the expected count, the count found,
      the component's name and its usage example. */
  lemma ArityMessageMentions(name: string, usage: string, expected: nat, found: nat)
    ensures var m := Message(ArityMismatch(name, usage, expected, found));
      && Contains(m, NatToString(expected))
      && Contains(m, NatToString(found))
      && Contains(m, name)
      && Contains(m, usage)
  {
    ArityTextMentions(name, usage, NatToString(expected), NatToString(found));
  }

  lemma ArityTextMentions(name: string, usage: string, e: string, f: string)
    ensures var m := ArityText(name, usage, e, f);
      Contains(m, e) && Contains(m, f) && Contains(m, name) && Contains(m, usage)
  {
    var a := "Expected ";
    var b := " arguments but only found ";
    var c := " in the '";
    var d := "' component.\n\nExample usage: ";
    var m := ArityText(name, usage, e, f);
    assert m == a + e + b + f + c + name + d + usage;
    ContainsMiddle(a, e, b + f + c + name + d + usage);
    assert m == a + e + (b + f + c + name + d + usage);
    ContainsMiddle(a + e + b, f, c + name + d + usage);
    assert m == (a + e + b) + f + (c + name + d + usage);
    ContainsMiddle(a + e + b + f + c, name, d + usage);
    assert m == (a + e + b + f + c) + name + (d + usage);
    ContainsMiddle(a + e + b + f + c + name + d, usage, "");
    assert m == (a + e + b + f + c + name + d) + usage + "";
  }
}
