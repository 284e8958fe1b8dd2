/** Printing a statement tree back to tokens and text, and the round trip:
    a well-formed tree printed and parsed again is the same tree. */
module Printer {
  import opened Strings
  import opened Tokens
  import opened Errors
  import opened Cursors
  import opened Registry
  import opened Parser
  import opened Lexer
  import ParserProperties

  /** The tokens of a statement: its text as Chars, or an invocation's open,
      name, arguments and close. */
  function RenderStatement(s: Statement): seq<Token>
    decreases s
  {
    match s
    case Str(v) => CharTokens(v)
    case Component(name, args) => [BeginComponent] + CharTokens(name) + RenderArgs(args)
  }

  function RenderStatements(ss: seq<Statement>): seq<Token>
    decreases ss
  {
    if ss == [] then [] else RenderStatement(ss[0]) + RenderStatements(ss[1..])
  }

  /** An invocation's arguments, each after a separator, and its close. */
  function RenderArgs(args: seq<Argument>): (r: seq<Token>)
    decreases args
    ensures r != [] && IsTerminator(r[0])
  {
    if args == [] then [EndComponent]
    else [NextArg] + RenderStatements(args[0].statements) + RenderArgs(args[1..])
  }

  /** The source text a tree prints as. */
  function Print(ss: seq<Statement>): string {
    Flatten(RenderStatements(ss))
  }

  /** Trees that print and parse back unchanged: texts are non-empty, two
      texts are never neighbours (printed next to each other they would be
      read as one), and every invocation names a registered component by a
      valid lower-case name. The parser also yields neighbouring texts, at
      top level, when a stray separator or close starts a new one; such
      trees are outside this set. */
  predicate WellFormedStatement(reg: Registry, s: Statement)
    decreases s
  {
    match s
    case Str(v) => v != []
    case Component(name, args) =>
      && name in reg && ValidName(name) && ToLower(name) == name
      && forall j :: 0 <= j < |args| ==> WellFormed(reg, args[j].statements)
  }

  predicate WellFormed(reg: Registry, ss: seq<Statement>)
    decreases ss
  {
    && (forall i :: 0 <= i < |ss| ==> WellFormedStatement(reg, ss[i]))
    && (forall i :: 0 <= i < |ss| - 1 ==> !(ss[i].Str? && ss[i + 1].Str?))
  }

  /** What may follow a statement sequence: a terminator when it is an
      argument, the end of the tokens at top level. */
  predicate Follows(items: seq<Token>, k: nat, expectEnd: bool) {
    if expectEnd then k < |items| && IsTerminator(items[k]) else k == |items|
  }

  /** `items` holds `part` from index `i` on. */
  ghost predicate At(items: seq<Token>, i: nat, part: seq<Token>) {
    i + |part| <= |items| && forall j {:trigger part[j]} :: 0 <= j < |part| ==> items[i + j] == part[j]
  }

  lemma AtSplit(items: seq<Token>, i: nat, a: seq<Token>, b: seq<Token>)
    requires At(items, i, a + b)
    ensures At(items, i, a) && At(items, i + |a|, b)
  {
    forall j | 0 <= j < |a|
      ensures items[i + j] == a[j]
    {
      assert (a + b)[j] == a[j];
    }
    forall j | 0 <= j < |b|
      ensures items[i + |a| + j] == b[j]
    {
      assert (a + b)[|a| + j] == b[j];
    }
  }

  /** Chars printed at `i` spell their text. */
  lemma {:induction false} RunTextChars(items: seq<Token>, i: nat, v: string)
    requires At(items, i, CharTokens(v))
    ensures RunText(items, i, i + |v|) == v
    decreases |v|
  {
    if v != [] {
      var tail := CharTokens(v[1..]);
      forall j | 0 <= j < |tail|
        ensures items[i + 1 + j] == tail[j]
      {
        assert items[i + (1 + j)] == CharTokens(v)[1 + j];
      }
      RunTextChars(items, i + 1, v[1..]);
      assert items[i + 0] == CharTokens(v)[0];
      assert [v[0]] + v[1..] == v;
    }
  }

  lemma {:induction false} RunEndAt(ts: seq<Token>, i: nat, k: nat)
    requires i <= k <= |ts|
    requires forall j :: i <= j < k ==> ts[j].Char?
    requires k < |ts| ==> !ts[k].Char?
    ensures RunEnd(ts, i) == k
    decreases k - i
  {
    if i < k {
      RunEndAt(ts, i + 1, k);
    }
  }

  lemma CharsAt(items: seq<Token>, i: nat, v: string)
    requires At(items, i, CharTokens(v))
    ensures forall j :: i <= j < i + |v| ==> items[j].Char?
  {
    forall j | i <= j < i + |v|
      ensures items[j].Char?
    {
      var k := j - i;
      assert items[i + k] == CharTokens(v)[k];
    }
  }

  /** Chars printed at the cursor, followed by a non-Char or the end, are
      read back as their text. */
  lemma ParseStrChars(items: seq<Token>, i: nat, v: string)
    requires At(items, i, CharTokens(v))
    requires i + |v| < |items| ==> !items[i + |v|].Char?
    ensures ParseStr(Cursor(items, i)) == (v, Cursor(items, i + |v|))
  {
    CharsAt(items, i, v);
    RunEndAt(items, i, i + |v|);
    RunTextChars(items, i, v);
  }

  // Single parse steps, stated on given results so that the round trip
  // below only chains them.

  lemma StmtsEmptyEq(reg: Registry, items: seq<Token>, i: nat, expectEnd: bool)
    requires Follows(items, i, expectEnd)
    ensures ParseStmts(reg, Cursor(items, i), expectEnd) == Success(([], Cursor(items, i)))
  {
  }

  lemma StmtsComponentEq(reg: Registry, lex: Cursor<Token>, expectEnd: bool, s: Statement, mid: Cursor<Token>,
                         ss: seq<Statement>, last: Cursor<Token>)
    requires lex.Valid() && lex.HasNext() && lex.items[lex.index] == BeginComponent
    requires ParseComponent(reg, Cursor(lex.items, lex.index + 1)) == Success((s, mid))
    requires mid.Valid() && ParseStmts(reg, mid, expectEnd) == Success((ss, last))
    ensures ParseStmts(reg, lex, expectEnd) == Success(([s] + ss, last))
  {
  }

  lemma StmtsTextEq(reg: Registry, lex: Cursor<Token>, expectEnd: bool, v: string, k: nat,
                    ss: seq<Statement>, last: Cursor<Token>)
    requires lex.Valid() && v != [] && lex.index < k <= |lex.items|
    requires lex.items[lex.index] == Char(v[0])
    requires ParseStr(Cursor(lex.items, lex.index + 1)) == (v[1..], Cursor(lex.items, k))
    requires ParseStmts(reg, Cursor(lex.items, k), expectEnd) == Success((ss, last))
    ensures ParseStmts(reg, lex, expectEnd) == Success(([Str(v)] + ss, last))
  {
    assert lex.TakeOne().value == (Char(v[0]), Cursor(lex.items, lex.index + 1));
    assert [v[0]] + v[1..] == v;
  }

  lemma ComponentArgsEq(reg: Registry, lex: Cursor<Token>, name: string, m: nat, args: seq<Argument>,
                        last: Cursor<Token>)
    requires lex.Valid() && RunEnd(lex.items, lex.index) == m
    requires RunText(lex.items, lex.index, m) == name
    requires name in reg && ValidName(name) && ToLower(name) == name
    requires ParseArgs(reg, Cursor(lex.items, m), name) == Success((args, last))
    ensures ParseComponent(reg, lex) == Success((Component(name, args), last))
  {
  }

  lemma ArgsNextEq(reg: Registry, items: seq<Token>, i: nat, k: nat, j: nat, name: string,
                   ss: seq<Statement>, args: seq<Argument>)
    requires i < |items| && items[i] == NextArg
    requires ParseStmts(reg, Cursor(items, i + 1), true) == Success((ss, Cursor(items, k)))
    requires ParseArgs(reg, Cursor(items, k), name) == Success((args, Cursor(items, j)))
    ensures ParseArgs(reg, Cursor(items, i), name) == Success(([Argument(ss)] + args, Cursor(items, j)))
  {
  }

  /** `ss` is well formed and printed from `i` up to `j`, and `j` is
      followed by what may follow it. */
  ghost predicate StmtsPrinted(reg: Registry, items: seq<Token>, i: nat, j: nat, ss: seq<Statement>, expectEnd: bool) {
    && WellFormed(reg, ss)
    && At(items, i, RenderStatements(ss))
    && j == i + |RenderStatements(ss)|
    && Follows(items, j, expectEnd)
  }

  /** Well-formed arguments and the close printed from `i` up to `j`. */
  ghost predicate ArgsPrinted(reg: Registry, items: seq<Token>, i: nat, j: nat, args: seq<Argument>) {
    && (forall a :: 0 <= a < |args| ==> WellFormed(reg, args[a].statements))
    && At(items, i, RenderArgs(args))
    && j == i + |RenderArgs(args)|
  }

  /** A well-formed invocation's name, arguments and close printed from `i`
      up to `j`, the name's Char run ending where the arguments begin. */
  ghost predicate InvocationPrinted(reg: Registry, items: seq<Token>, i: nat, j: nat, name: string, args: seq<Argument>) {
    && name in reg && ValidName(name) && ToLower(name) == name
    && i + |name| <= |items| && RunEnd(items, i) == i + |name| && RunText(items, i, i + |name|) == name
    && ArgsPrinted(reg, items, i + |name|, j, args)
  }

  /** A non-empty text printed from `i` up to `k`, not followed by a Char. */
  ghost predicate TextPrinted(items: seq<Token>, i: nat, k: nat, v: string) {
    && v != [] && k == i + |v| && At(items, i, CharTokens(v))
    && (k < |items| ==> !items[k].Char?)
  }

  lemma AtHead(items: seq<Token>, i: nat, part: seq<Token>)
    requires At(items, i, part) && part != []
    ensures i < |items| && items[i] == part[0]
  {
    assert items[i + 0] == part[0];
  }

  lemma ComponentFacts(reg: Registry, items: seq<Token>, i: nat, k: nat, name: string, args: seq<Argument>)
    requires WellFormedStatement(reg, Component(name, args))
    requires At(items, i, RenderStatement(Component(name, args)))
    requires k == i + |RenderStatement(Component(name, args))|
    ensures i < |items| && items[i] == BeginComponent
    ensures InvocationPrinted(reg, items, i + 1, k, name, args)
  {
    var cs := CharTokens(name);
    var ra := RenderArgs(args);
    assert RenderStatement(Component(name, args)) == [BeginComponent] + (cs + ra);
    AtSplit(items, i, [BeginComponent], cs + ra);
    AtHead(items, i, [BeginComponent]);
    var j := i + 1;
    AtSplit(items, j, cs, ra);
    AtHead(items, j + |name|, ra);
    CharsAt(items, j, name);
    RunEndAt(items, j, j + |name|);
    RunTextChars(items, j, name);
  }

  lemma WellFormedHead(reg: Registry, ss: seq<Statement>)
    requires ss != [] && WellFormed(reg, ss)
    ensures WellFormedStatement(reg, ss[0]) && WellFormed(reg, ss[1..])
    ensures ss[0].Str? && |ss| > 1 ==> ss[1].Component?
  {
    assert WellFormedStatement(reg, ss[0]);
  }

  lemma RenderHead(ss: seq<Statement>)
    requires ss != []
    ensures RenderStatements(ss) == RenderStatement(ss[0]) + RenderStatements(ss[1..])
  {
  }

  /** A statement sequence starting with an invocation prints starting with
      an open. */
  lemma RenderLeadsWithOpen(ss: seq<Statement>)
    requires ss != [] && ss[0].Component?
    ensures RenderStatements(ss) != [] && RenderStatements(ss)[0] == BeginComponent
  {
  }

  /** Splits a printed statement sequence into its first statement, printed
      from `i` up to `k`, and the rest. */
  lemma HeadFacts(reg: Registry, ss: seq<Statement>, items: seq<Token>, i: nat, j: nat, expectEnd: bool)
    returns (k: nat)
    requires ss != [] && StmtsPrinted(reg, items, i, j, ss, expectEnd)
    ensures StmtsPrinted(reg, items, k, j, ss[1..], expectEnd)
    ensures ss[0].Str? ==> TextPrinted(items, i, k, ss[0].value)
    ensures ss[0].Component? ==>
      i < |items| && items[i] == BeginComponent && InvocationPrinted(reg, items, i + 1, k, ss[0].name, ss[0].args)
  {
    WellFormedHead(reg, ss);
    var head := RenderStatement(ss[0]);
    var rest := RenderStatements(ss[1..]);
    RenderHead(ss);
    AtSplit(items, i, head, rest);
    k := i + |head|;
    match ss[0]
    case Str(v) =>
      if ss[1..] != [] {
        RenderLeadsWithOpen(ss[1..]);
        AtHead(items, k, rest);
      }
    case Component(name, args) =>
      ComponentFacts(reg, items, i, k, name, args);
  }

  lemma TextFacts(items: seq<Token>, i: nat, k: nat, v: string)
    requires TextPrinted(items, i, k, v)
    ensures i < k <= |items| && items[i] == Char(v[0])
    ensures ParseStr(Cursor(items, i + 1)) == (v[1..], Cursor(items, k))
  {
    assert CharTokens(v) == [Char(v[0])] + CharTokens(v[1..]);
    AtSplit(items, i, [Char(v[0])], CharTokens(v[1..]));
    AtHead(items, i, [Char(v[0])]);
    ParseStrChars(items, i + 1, v[1..]);
  }

  /** Splits printed arguments into the first one, printed after its
      separator up to `k`, and the rest; or finds the close. */
  lemma ArgFacts(reg: Registry, items: seq<Token>, i: nat, j: nat, args: seq<Argument>) returns (k: nat)
    requires ArgsPrinted(reg, items, i, j, args)
    ensures args == [] ==> i < |items| && items[i] == EndComponent && j == i + 1
    ensures args != [] ==>
      && i < |items| && items[i] == NextArg
      && StmtsPrinted(reg, items, i + 1, k, args[0].statements, true)
      && ArgsPrinted(reg, items, k, j, args[1..])
  {
    k := j;
    if args == [] {
      AtHead(items, i, RenderArgs(args));
    } else {
      var body := RenderStatements(args[0].statements);
      var rest := RenderArgs(args[1..]);
      assert RenderArgs(args) == [NextArg] + (body + rest);
      AtSplit(items, i, [NextArg], body + rest);
      AtSplit(items, i + 1, body, rest);
      AtHead(items, i, [NextArg]);
      k := i + 1 + |body|;
      AtHead(items, k, rest);
    }
  }

  /** A well-formed statement sequence, printed into the tokens and followed
      by what may follow it, parses back to itself and stops right after
      its own tokens. */
  lemma {:induction false} StmtsRoundTrip(reg: Registry, ss: seq<Statement>, items: seq<Token>, i: nat, j: nat,
                                          expectEnd: bool)
    requires StmtsPrinted(reg, items, i, j, ss, expectEnd)
    ensures ParseStmts(reg, Cursor(items, i), expectEnd) == Success((ss, Cursor(items, j)))
    decreases ss, 2
  {
    if ss == [] {
      StmtsEmptyEq(reg, items, i, expectEnd);
    } else {
      var k := HeadFacts(reg, ss, items, i, j, expectEnd);
      StmtsRoundTrip(reg, ss[1..], items, k, j, expectEnd);
      HeadRoundTrip(reg, ss[0], ss[1..], items, i, k, expectEnd, Cursor(items, j));
      assert [ss[0]] + ss[1..] == ss;
    }
  }

  /** One statement printed from `i` up to `k`, and the rest parsed from
      `k`: the statement is read back in front of the rest. */
  lemma {:induction false} HeadRoundTrip(reg: Registry, s: Statement, tail: seq<Statement>, items: seq<Token>,
                                         i: nat, k: nat, expectEnd: bool, last: Cursor<Token>)
    requires s.Str? ==> TextPrinted(items, i, k, s.value)
    requires s.Component? ==>
      i < |items| && items[i] == BeginComponent && InvocationPrinted(reg, items, i + 1, k, s.name, s.args)
    requires k <= |items| && ParseStmts(reg, Cursor(items, k), expectEnd) == Success((tail, last))
    ensures ParseStmts(reg, Cursor(items, i), expectEnd) == Success(([s] + tail, last))
    decreases s, 1
  {
    match s
    case Str(v) =>
      TextFacts(items, i, k, v);
      StmtsTextEq(reg, Cursor(items, i), expectEnd, v, k, tail, last);
    case Component(name, args) =>
      ComponentRoundTrip(reg, name, args, items, i + 1, k);
      StmtsComponentEq(reg, Cursor(items, i), expectEnd, s, Cursor(items, k), tail, last);
  }

  /** An invocation's name and arguments, printed after its open up to
      `j`, parse back to the invocation. */
  lemma {:induction false} ComponentRoundTrip(reg: Registry, name: string, args: seq<Argument>, items: seq<Token>,
                                              i: nat, j: nat)
    requires InvocationPrinted(reg, items, i, j, name, args)
    ensures j <= |items|
    ensures ParseComponent(reg, Cursor(items, i)) == Success((Component(name, args), Cursor(items, j)))
    decreases Component(name, args), 0
  {
    ArgsRoundTrip(reg, name, args, items, i + |name|, j);
    ComponentArgsEq(reg, Cursor(items, i), name, i + |name|, args, Cursor(items, j));
  }

  /** Printed arguments and close parse back to the arguments. */
  lemma {:induction false} ArgsRoundTrip(reg: Registry, name: string, args: seq<Argument>, items: seq<Token>,
                                         i: nat, j: nat)
    requires ArgsPrinted(reg, items, i, j, args)
    ensures j <= |items|
    ensures ParseArgs(reg, Cursor(items, i), name) == Success((args, Cursor(items, j)))
    decreases args, 0
  {
    var k := ArgFacts(reg, items, i, j, args);
    if args == [] {
      ParserProperties.ArgsAtClose(reg, Cursor(items, i), name);
    } else {
      StmtsRoundTrip(reg, args[0].statements, items, i + 1, k, true);
      ArgsRoundTrip(reg, name, args[1..], items, k, j);
      ArgsNextEq(reg, items, i, k, j, name, args[0].statements, args[1..]);
      assert [Argument(args[0].statements)] + args[1..] == args;
    }
  }

  /** The printed tokens of a well-formed tree parse back to the tree. */
  lemma ParseRender(reg: Registry, ss: seq<Statement>)
    requires WellFormed(reg, ss)
    ensures Parse(reg, RenderStatements(ss)) == Success(ss)
  {
    var ts := RenderStatements(ss);
    assert StmtsPrinted(reg, ts, 0, |ts|, ss, false);
    StmtsRoundTrip(reg, ss, ts, 0, |ts|, false);
  }

  /** The printed text of a well-formed tree lexes and parses back to the
      tree, as long as no two of its tokens run together in the text and
      the lexer's iteration ceiling is not reached. */
  lemma LexParsePrint(reg: Registry, ss: seq<Statement>)
    requires WellFormed(reg, ss)
    requires Canonical(RenderStatements(ss)) && |RenderStatements(ss)| <= MaxIterations
    ensures Lex(Print(ss)).Success?
    ensures Parse(reg, Lex(Print(ss)).value) == Success(ss)
  {
    TokenizeFlatten(RenderStatements(ss));
    ParseRender(reg, ss);
  }
}
