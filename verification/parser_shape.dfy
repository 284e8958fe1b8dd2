/** The nesting structure the parser imposes: an invocation's arguments are
    the separators at its own nesting level, and a successful parse never
    leaves an invocation unclosed. */
module ParserShape {
  import opened Tokens
  import opened Errors
  import opened Cursors
  import opened Strings
  import opened Registry
  import opened Parser
  import ParserProperties

  /** Occurrences of token `t` in `ts`. */
  function Count(ts: seq<Token>, t: Token): nat {
    if ts == [] then 0 else (if ts[0] == t then 1 else 0) + Count(ts[1..], t)
  }

  /** Opens minus closes. */
  function Net(ts: seq<Token>): int {
    Count(ts, BeginComponent) - Count(ts, EndComponent)
  }

  function Delta(t: Token): int {
    if t == BeginComponent then 1 else if t == EndComponent then -1 else 0
  }

  /** The separators met at nesting level zero when the scan starts at
      level `depth`: an open goes one level down, a close one level up. */
  function Separators(ts: seq<Token>, depth: int): nat {
    if ts == [] then 0
    else (if ts[0] == NextArg && depth == 0 then 1 else 0) + Separators(ts[1..], depth + Delta(ts[0]))
  }

  lemma {:induction false} CountAppend(a: seq<Token>, b: seq<Token>, t: Token)
    ensures Count(a + b, t) == Count(a, t) + Count(b, t)
    decreases |a|
  {
    if a == [] {
      assert a + b == b;
    } else {
      assert (a + b)[1..] == a[1..] + b;
      CountAppend(a[1..], b, t);
    }
  }

  lemma NetAppend(a: seq<Token>, b: seq<Token>)
    ensures Net(a + b) == Net(a) + Net(b)
  {
    CountAppend(a, b, BeginComponent);
    CountAppend(a, b, EndComponent);
  }

  lemma {:induction false} SeparatorsAppend(a: seq<Token>, b: seq<Token>, depth: int)
    ensures Separators(a + b, depth) == Separators(a, depth) + Separators(b, depth + Net(a))
    decreases |a|
  {
    if a == [] {
      assert a + b == b;
    } else {
      assert (a + b)[1..] == a[1..] + b;
      assert a == [a[0]] + a[1..];
      NetAppend([a[0]], a[1..]);
      SeparatorsAppend(a[1..], b, depth + Delta(a[0]));
    }
  }

  lemma {:induction false} CharsNeutral(ts: seq<Token>)
    requires AllChars(ts)
    ensures Net(ts) == 0
    ensures forall d :: Separators(ts, d) == 0
    decreases |ts|
  {
    if ts != [] {
      CharsNeutral(ts[1..]);
    }
  }

  lemma SliceSplit(s: seq<Token>, i: nat, j: nat, k: nat)
    requires i <= j <= k <= |s|
    ensures s[i..k] == s[i..j] + s[j..k]
  {
  }

  lemma StmtsComponentStep(reg: Registry, lex: Cursor<Token>, expectEnd: bool)
    requires lex.Valid() && lex.HasNext() && lex.items[lex.index] == BeginComponent
    ensures var p := ParseComponent(reg, Cursor(lex.items, lex.index + 1));
      ParseStmts(reg, lex, expectEnd).Success? ==>
        && p.Success?
        && ParseStmts(reg, p.value.1, expectEnd).Success?
        && ParseStmts(reg, lex, expectEnd).value
           == ([p.value.0] + ParseStmts(reg, p.value.1, expectEnd).value.0,
               ParseStmts(reg, p.value.1, expectEnd).value.1)
  {
  }

  lemma ArgsNextStep(reg: Registry, lex: Cursor<Token>, name: string)
    requires lex.Valid() && lex.HasNext() && lex.items[lex.index] == NextArg
    ensures var p := ParseStmts(reg, Cursor(lex.items, lex.index + 1), true);
      ParseArgs(reg, lex, name).Success? ==>
        && p.Success?
        && (p.value.1.HasNext() ==> !lex.items[p.value.1.index].Char?)
        && ParseArgs(reg, p.value.1, name).Success?
        && ParseArgs(reg, lex, name).value
           == ([Argument(p.value.0)] + ParseArgs(reg, p.value.1, name).value.0,
               ParseArgs(reg, p.value.1, name).value.1)
  {
  }

  lemma ComponentArgsStep(reg: Registry, lex: Cursor<Token>)
    requires lex.Valid() && ParseComponent(reg, lex).Success?
    ensures var raw := ParseStr(lex);
      && ParseArgs(reg, raw.1, ToLower(raw.0)).Success?
      && ParseComponent(reg, lex).value.1 == ParseArgs(reg, raw.1, ToLower(raw.0)).value.1
      && ParseComponent(reg, lex).value.0.args == ParseArgs(reg, raw.1, ToLower(raw.0)).value.0
  {
  }

  /** A token run that is closed at every level it opens and holds no
      separator at the level it starts on or any outer one. */
  ghost predicate Balanced(ts: seq<Token>) {
    Net(ts) == 0 && forall d :: d >= 0 ==> Separators(ts, d) == 0
  }

  /** A token run that closes one level more than it opens, with `n`
      separators at its starting level and none at an outer one. */
  ghost predicate Closing(ts: seq<Token>, n: nat) {
    Net(ts) == -1 && Separators(ts, 0) == n && forall d :: d >= 1 ==> Separators(ts, d) == 0
  }

  lemma CharsBalanced(ts: seq<Token>)
    requires AllChars(ts)
    ensures Balanced(ts)
  {
    CharsNeutral(ts);
  }

  lemma BalancedConcat(a: seq<Token>, b: seq<Token>)
    requires Balanced(a)
    ensures Net(a + b) == Net(b)
    ensures Balanced(b) ==> Balanced(a + b)
  {
    NetAppend(a, b);
    forall d | d >= 0
      ensures Separators(a + b, d) == Separators(b, d)
    {
      SeparatorsAppend(a, b, d);
    }
  }

  lemma OpenThenClosing(ts: seq<Token>, n: nat)
    requires Closing(ts, n)
    ensures Balanced([BeginComponent] + ts)
  {
    NetAppend([BeginComponent], ts);
    forall d | d >= 0
      ensures Separators([BeginComponent] + ts, d) == 0
    {
      SeparatorsAppend([BeginComponent], ts, d);
    }
  }

  lemma ClosingEnd()
    ensures Closing([EndComponent], 0)
  {
    assert [EndComponent][1..] == [];
  }

  lemma ArgThenClosing(a: seq<Token>, rest: seq<Token>, n: nat)
    requires Balanced(a) && Closing(rest, n)
    ensures Closing([NextArg] + a + rest, n + 1)
  {
    var head := [NextArg] + a;
    NetAppend([NextArg], a);
    NetAppend(head, rest);
    forall d
      ensures Separators(head + rest, d)
        == (if d == 0 then 1 else 0) + Separators(a, d) + Separators(rest, d)
    {
      SeparatorsAppend(head, rest, d);
      SeparatorsAppend([NextArg], a, d);
    }
  }

  lemma CharsThenClosing(c: seq<Token>, rest: seq<Token>, n: nat)
    requires AllChars(c) && Closing(rest, n)
    ensures Closing(c + rest, n)
  {
    CharsNeutral(c);
    NetAppend(c, rest);
    forall d
      ensures Separators(c + rest, d) == Separators(rest, d)
    {
      SeparatorsAppend(c, rest, d);
    }
  }

  /** What a statement sequence's tokens satisfy: balanced when nested,
      never more opens than closes at top level. */
  ghost predicate StmtsSegment(ts: seq<Token>, expectEnd: bool) {
    && (expectEnd ==> Balanced(ts))
    && (!expectEnd ==> Net(ts) <= 0)
  }

  lemma OpenPiece(items: seq<Token>, i: nat, m: nat, e: nat, n: nat, expectEnd: bool)
    requires i < m <= e <= |items| && items[i] == BeginComponent
    requires Closing(items[i + 1..m], n) && StmtsSegment(items[m..e], expectEnd)
    ensures StmtsSegment(items[i..e], expectEnd)
  {
    assert items[i..m] == [BeginComponent] + items[i + 1..m];
    OpenThenClosing(items[i + 1..m], n);
    SliceSplit(items, i, m, e);
    BalancedConcat(items[i..m], items[m..e]);
  }

  lemma TextPiece(items: seq<Token>, i: nat, j: nat, e: nat, expectEnd: bool)
    requires i < j <= e <= |items| && items[i] != BeginComponent
    requires forall k :: i < k < j ==> CharAt(items, k)
    requires expectEnd ==> items[i].Char?
    requires StmtsSegment(items[j..e], expectEnd)
    ensures StmtsSegment(items[i..e], expectEnd)
  {
    var t := items[i];
    var run := items[i + 1..j];
    assert items[i..j] == [t] + run;
    assert [t][1..] == [];
    assert Count([t], BeginComponent) == 0;
    assert Net([t]) <= 0;
    assert AllChars(run) by {
      forall k | 0 <= k < |run|
        ensures run[k].Char?
      {
        assert CharAt(items, i + 1 + k);
      }
    }
    CharsBalanced(run);
    NetAppend([t], run);
    SliceSplit(items, i, j, e);
    NetAppend(items[i..j], items[j..e]);
    if expectEnd {
      assert Balanced([t]);
      BalancedConcat([t], run);
      BalancedConcat(items[i..j], items[j..e]);
    }
  }

  lemma ArgPiece(items: seq<Token>, i: nat, j: nat, m: nat, n: nat)
    requires i < j <= m <= |items| && items[i] == NextArg
    requires Balanced(items[i + 1..j]) && Closing(items[j..m], n)
    ensures Closing(items[i..m], n + 1)
  {
    SliceSplit(items, i, j, m);
    SliceSplit(items, i, i + 1, j);
    assert items[i..m] == [NextArg] + items[i + 1..j] + items[j..m];
    ArgThenClosing(items[i + 1..j], items[j..m], n);
  }

  lemma EndPiece(items: seq<Token>, i: nat)
    requires i < |items| && items[i] == EndComponent
    ensures Closing(items[i..i + 1], 0)
  {
    assert items[i..i + 1] == [EndComponent];
    ClosingEnd();
  }

  lemma NamePiece(items: seq<Token>, i: nat, k: nat, m: nat, n: nat)
    requires i <= k <= m <= |items|
    requires forall j :: i <= j < k ==> CharAt(items, j)
    requires Closing(items[k..m], n)
    ensures Closing(items[i..m], n)
  {
    SliceSplit(items, i, k, m);
    assert AllChars(items[i..k]) by {
      forall j | 0 <= j < k - i
        ensures items[i..k][j].Char?
      {
        assert CharAt(items, i + j);
      }
    }
    CharsThenClosing(items[i..k], items[k..m], n);
  }

  /** Where a parse call ends. */
  function StmtsEnd(reg: Registry, lex: Cursor<Token>, expectEnd: bool): nat
    requires lex.Valid() && ParseStmts(reg, lex, expectEnd).Success?
  {
    ParseStmts(reg, lex, expectEnd).value.1.index
  }

  /** A nested statement sequence is balanced and holds no separator at
      its own level; a top-level one may hold stray closes but no
      unclosed open. */
  lemma {:induction false} StmtsShape(reg: Registry, lex: Cursor<Token>, expectEnd: bool)
    requires lex.Valid() && ParseStmts(reg, lex, expectEnd).Success?
    decreases |lex.items| - lex.index, 0
    ensures StmtsSegment(lex.items[lex.index..StmtsEnd(reg, lex, expectEnd)], expectEnd)
  {
    var items := lex.items;
    var i := lex.index;
    var e := StmtsEnd(reg, lex, expectEnd);
    if !lex.HasNext() || (expectEnd && IsTerminator(items[i])) {
      assert items[i..e] == [];
      assert Net([]) == 0;
    } else if items[i] == BeginComponent {
      var inner := Cursor(items, i + 1);
      StmtsComponentStep(reg, lex, expectEnd);
      var p := ParseComponent(reg, inner).value;
      ComponentShape(reg, inner);
      StmtsShape(reg, p.1, expectEnd);
      OpenPiece(items, i, p.1.index, e, |p.0.args|, expectEnd);
    } else {
      ParserProperties.StmtsTextStep(reg, lex, expectEnd);
      var run := ParseStr(Cursor(items, i + 1));
      StmtsShape(reg, run.1, expectEnd);
      TextPiece(items, i, run.1.index, e, expectEnd);
    }
  }

  function ComponentEnd(reg: Registry, lex: Cursor<Token>): nat
    requires lex.Valid() && ParseComponent(reg, lex).Success?
  {
    ParseComponent(reg, lex).value.1.index
  }

  /** An invocation's tokens after its open close one level, and the
      separators at its own level are as many as its arguments. */
  lemma {:induction false} ComponentShape(reg: Registry, lex: Cursor<Token>)
    requires lex.Valid() && ParseComponent(reg, lex).Success?
    decreases |lex.items| - lex.index, 1
    ensures Closing(lex.items[lex.index..ComponentEnd(reg, lex)], |ParseComponent(reg, lex).value.0.args|)
  {
    var raw := ParseStr(lex);
    ComponentArgsStep(reg, lex);
    ArgsShape(reg, raw.1, ToLower(raw.0));
    NamePiece(lex.items, lex.index, raw.1.index, ComponentEnd(reg, lex), |ParseComponent(reg, lex).value.0.args|);
  }

  function ArgsEnd(reg: Registry, lex: Cursor<Token>, name: string): nat
    requires lex.Valid() && (lex.HasNext() ==> !lex.items[lex.index].Char?)
    requires ParseArgs(reg, lex, name).Success?
  {
    ParseArgs(reg, lex, name).value.1.index
  }

  lemma {:induction false} ArgsShape(reg: Registry, lex: Cursor<Token>, name: string)
    requires lex.Valid() && (lex.HasNext() ==> !lex.items[lex.index].Char?)
    requires ParseArgs(reg, lex, name).Success?
    decreases |lex.items| - lex.index, 0
    ensures Closing(lex.items[lex.index..ArgsEnd(reg, lex, name)], |ParseArgs(reg, lex, name).value.0|)
  {
    var items := lex.items;
    var i := lex.index;
    if items[i] == EndComponent {
      ParserProperties.ArgsAtClose(reg, lex, name);
      EndPiece(items, i);
    } else {
      ArgsNextStep(reg, lex, name);
      var inner := Cursor(items, i + 1);
      var p := ParseStmts(reg, inner, true).value;
      StmtsShape(reg, inner, true);
      ArgsShape(reg, p.1, name);
      ArgPiece(items, i, p.1.index, ArgsEnd(reg, lex, name), |ParseArgs(reg, p.1, name).value.0|);
    }
  }

  /** An invocation has exactly as many arguments as there are separators
      at its own nesting level between its name and its close. */
  lemma ParseArgCount(reg: Registry, lex: Cursor<Token>)
    requires lex.Valid() && ParseComponent(reg, lex).Success?
    ensures |ParseComponent(reg, lex).value.0.args|
      == Separators(lex.items[lex.index..ParseComponent(reg, lex).value.1.index], 0)
  {
    ComponentShape(reg, lex);
  }

  /** A successful parse leaves no invocation open: there are at least as
      many closes as opens (stray closes at top level are text). */
  lemma ParseBalanced(reg: Registry, tokens: seq<Token>)
    requires Parse(reg, tokens).Success?
    ensures Count(tokens, BeginComponent) <= Count(tokens, EndComponent)
  {
    var lex := Cursor(tokens, 0);
    StmtsShape(reg, lex, false);
    assert StmtsEnd(reg, lex, false) == |tokens|;
    assert tokens[0..|tokens|] == tokens;
  }

  /** Running out of tokens inside an invocation is an error: with more
      opens than closes, parsing fails. */
  lemma UnclosedFails(reg: Registry, tokens: seq<Token>)
    requires Count(tokens, BeginComponent) > Count(tokens, EndComponent)
    ensures Parse(reg, tokens).Failure?
  {
    if Parse(reg, tokens).Success? {
      ParseBalanced(reg, tokens);
    }
  }
}
