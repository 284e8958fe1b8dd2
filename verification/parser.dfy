/** The recursive-descent parser: turns the token sequence into a tree of
    text and component statements, consulting the registry for component
    names as it goes. */
module Parser {
  import opened Strings
  import opened Tokens
  import opened Errors
  import opened Cursors
  import opened Registry

  datatype Statement =
    | Str(value: string)
    | Component(name: string, args: seq<Argument>)

  /** One argument of an invocation: itself a statement sequence. */
  datatype Argument = Argument(statements: seq<Statement>)

  /** A name the parser accepts: no character outside `\w`. */
  predicate ValidName(name: string) {
    forall i :: 0 <= i < |name| ==> IsWordChar(name[i])
  }

  /** Every invocation in the tree names a registered component by a valid,
      lower-case name. */
  predicate Registered(reg: Registry, s: Statement) {
    match s
    case Str(_) => true
    case Component(name, args) =>
      && name in reg && ValidName(name) && ToLower(name) == name
      && forall j :: 0 <= j < |args| ==> AllRegistered(reg, args[j].statements)
  }

  predicate AllRegistered(reg: Registry, ss: seq<Statement>) {
    forall i :: 0 <= i < |ss| ==> Registered(reg, ss[i])
  }

  predicate ArgsRegistered(reg: Registry, args: seq<Argument>) {
    forall j :: 0 <= j < |args| ==> AllRegistered(reg, args[j].statements)
  }

  /** The token at `j` is a Char. */
  predicate CharAt(ts: seq<Token>, j: nat)
    requires j < |ts|
  {
    ts[j].Char?
  }

  /** Where the run of Char tokens starting at `i` ends. */
  function RunEnd(ts: seq<Token>, i: nat): (k: nat)
    requires i <= |ts|
    decreases |ts| - i
    ensures i <= k <= |ts|
    ensures forall j :: i <= j < k ==> CharAt(ts, j)
    ensures k < |ts| ==> !ts[k].Char?
  {
    if i < |ts| && ts[i].Char? then RunEnd(ts, i + 1) else i
  }

  /** The run itself, as a slice, is all Chars. */
  lemma RunEndAllChars(ts: seq<Token>, i: nat)
    requires i <= |ts|
    ensures AllChars(ts[i..RunEnd(ts, i)])
  {
    var run := ts[i..RunEnd(ts, i)];
    forall k | 0 <= k < |run|
      ensures run[k].Char?
    {
      assert CharAt(ts, i + k);
    }
  }

  /** The text the tokens from `i` up to `k` spell. */
  function RunText(ts: seq<Token>, i: nat, k: nat): string
    requires i <= k <= |ts|
    decreases k - i
  {
    if i == k then "" else TokenText(ts[i]) + RunText(ts, i + 1, k)
  }

  lemma {:induction false} RunTextFlatten(ts: seq<Token>, i: nat, k: nat)
    requires i <= k <= |ts|
    ensures RunText(ts, i, k) == Flatten(ts[i..k])
    decreases k - i
  {
    if i < k {
      RunTextFlatten(ts, i + 1, k);
      assert ts[i..k] == [ts[i]] + ts[i + 1..k];
    }
  }

  /** Consumes the maximal run of Char tokens at the cursor and returns
      their characters. */
  function ParseStr(lex: Cursor<Token>): (r: (string, Cursor<Token>))
    requires lex.Valid()
    decreases |lex.items| - lex.index
    ensures r.1.items == lex.items && r.1.Valid() && lex.index <= r.1.index
    ensures forall k :: lex.index <= k < r.1.index ==> CharAt(lex.items, k)
    ensures r.1.HasNext() ==> !lex.items[r.1.index].Char?
    ensures r.1.index == RunEnd(lex.items, lex.index)
    ensures r.0 == RunText(lex.items, lex.index, r.1.index)
  {
    if lex.HasNext() && lex.Peek(1)[0].Char? then
      var (t, lex1) := lex.TakeOne().value;
      var (rest, lex2) := ParseStr(lex1);
      ([t.c] + rest, lex2)
    else
      ("", lex)
  }

  /** The statement loop, from the cursor on. At top level (`expectEnd`
      false) it runs to the end of the tokens and reads a stray separator
      or close as the start of a text; inside an argument it stops at the
      first separator or close and pushes it back, so the statements read
      so far are the result. */
  function ParseStmts(reg: Registry, lex: Cursor<Token>, expectEnd: bool)
    : (r: Result<(seq<Statement>, Cursor<Token>)>)
    requires lex.Valid()
    decreases |lex.items| - lex.index, 0
    ensures r.Success? ==>
      && r.value.1.items == lex.items && r.value.1.Valid() && lex.index <= r.value.1.index
    ensures r.Success? && !expectEnd ==> !r.value.1.HasNext()
    ensures r.Success? && expectEnd && r.value.1.HasNext() ==> IsTerminator(lex.items[r.value.1.index])
    ensures r.Failure? && r.error.UnexpectedToken? ==> r.error.token == BeginComponent
    ensures r.Failure? ==> IsParseError(r.error)
  {
    if !lex.HasNext() then
      Success(([], lex))
    else
      var nx := lex.TakeOne().value;
      var t := nx.0;
      if t.BeginComponent? then
        var p :- ParseComponent(reg, nx.1);
        var q :- ParseStmts(reg, p.1, expectEnd);
        Success(([p.0] + q.0, q.1))
      else if expectEnd && IsTerminator(t) then
        Success(([], nx.1.Unread()))
      else
        var run := ParseStr(nx.1);
        var q :- ParseStmts(reg, run.1, expectEnd);
        Success(([Str(TokenText(t) + run.0)] + q.0, q.1))
  }

  /** An invocation, after its `![`: the name is the Char run that follows,
      lower-cased; it must consist of word characters and be registered;
      then come the arguments and the close. */
  function ParseComponent(reg: Registry, lex: Cursor<Token>): (r: Result<(Statement, Cursor<Token>)>)
    requires lex.Valid()
    decreases |lex.items| - lex.index, 1
    ensures r.Success? ==>
      && r.value.1.items == lex.items && r.value.1.Valid() && lex.index < r.value.1.index
      && r.value.0.Component?
    ensures r.Failure? && r.error.UnexpectedToken? ==> r.error.token == BeginComponent
    ensures r.Failure? ==> IsParseError(r.error)
  {
    var (raw, lex1) := ParseStr(lex);
    var name := ToLower(raw);
    if !ValidName(name) then
      Failure(InvalidName(name))
    else if name !in reg then
      Failure(UnknownComponent(name))
    else
      var p :- ParseArgs(reg, lex1, name);
      var (args, lex2) := p;
      Success((Component(name, args), lex2))
  }

  /** The argument loop after a component's name: takes a token; a close
      ends the invocation, a separator starts one more argument, parsed
      as a nested statement sequence, and anything else is an error. It
      starts right after the name's Char run or right after a nested
      argument, so the token it takes first is never a Char. */
  function ParseArgs(reg: Registry, lex: Cursor<Token>, name: string)
    : (r: Result<(seq<Argument>, Cursor<Token>)>)
    requires lex.Valid()
    requires lex.HasNext() ==> !lex.items[lex.index].Char?
    decreases |lex.items| - lex.index, 0
    ensures r.Success? ==>
      && r.value.1.items == lex.items && r.value.1.Valid() && lex.index < r.value.1.index

    ensures r.Failure? && r.error.UnexpectedToken? ==> r.error.token == BeginComponent
    ensures r.Failure? ==> IsParseError(r.error)
  {
    var nx :- lex.TakeOne();
    var t := nx.0;
    if t.EndComponent? then
      Success(([], nx.1))
    else if t.NextArg? then
      var p :- ParseStmts(reg, nx.1, true);
      var q :- ParseArgs(reg, p.1, name);
      Success(([Argument(p.0)] + q.0, q.1))
    else
      Failure(UnexpectedToken(name, t))
  }

  /** Parses a whole token sequence at top level. */
  function Parse(reg: Registry, tokens: seq<Token>): (r: Result<seq<Statement>>)
    ensures r.Failure? && r.error.UnexpectedToken? ==> r.error.token == BeginComponent
    ensures r.Failure? ==> IsParseError(r.error)
  {
    var p :- ParseStmts(reg, Cursor(tokens, 0), false);
    Success(p.0)
  }
}
