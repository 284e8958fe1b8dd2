/** What the parser promises: every invocation it builds names a
    registered component, plain text passes through as one text statement,
    stray separators and closes at top level become text, and an argument
    stops at its terminator without consuming it. */
module ParserProperties {
  import opened Strings
  import opened Tokens
  import opened Errors
  import opened Cursors
  import opened Registry
  import opened Parser

  /** The argument loop at a close: no arguments, and the close is
      consumed. */
  lemma ArgsAtClose(reg: Registry, lex: Cursor<Token>, name: string)
    requires lex.Valid() && lex.HasNext() && lex.items[lex.index] == EndComponent
    ensures ParseArgs(reg, lex, name) == Success(([], Cursor(lex.items, lex.index + 1)))
  {
  }

  /** One pass of the statement loop over a text: a Char, or a separator
      or close that does not end the loop. */
  lemma StmtsTextStep(reg: Registry, lex: Cursor<Token>, expectEnd: bool)
    requires lex.Valid() && lex.HasNext()
    requires lex.items[lex.index] != BeginComponent
    requires !(expectEnd && IsTerminator(lex.items[lex.index]))
    ensures var run := ParseStr(Cursor(lex.items, lex.index + 1));
      var q := ParseStmts(reg, run.1, expectEnd);
      ParseStmts(reg, lex, expectEnd) ==
        if q.Failure? then Failure(q.error)
        else Success(([Str(TokenText(lex.items[lex.index]) + run.0)] + q.value.0, q.value.1))
  {
  }

  lemma {:induction false} StmtsRegistered(reg: Registry, lex: Cursor<Token>, expectEnd: bool)
    requires lex.Valid() && ParseStmts(reg, lex, expectEnd).Success?
    ensures AllRegistered(reg, ParseStmts(reg, lex, expectEnd).value.0)
    decreases |lex.items| - lex.index, 0
  {
    if lex.HasNext() {
      var nx := lex.TakeOne().value;
      if nx.0.BeginComponent? {
        var p := ParseComponent(reg, nx.1).value;
        ComponentRegistered(reg, nx.1);
        StmtsRegistered(reg, p.1, expectEnd);
      } else if !(expectEnd && IsTerminator(nx.0)) {
        StmtsRegistered(reg, ParseStr(nx.1).1, expectEnd);
      }
    }
  }

  lemma {:induction false} ComponentRegistered(reg: Registry, lex: Cursor<Token>)
    requires lex.Valid() && ParseComponent(reg, lex).Success?
    ensures Registered(reg, ParseComponent(reg, lex).value.0)
    decreases |lex.items| - lex.index, 1
  {
    var raw := ParseStr(lex);
    ToLowerIdempotent(raw.0);
    ParsedArgsRegistered(reg, raw.1, ToLower(raw.0));
  }

  lemma {:induction false} ParsedArgsRegistered(reg: Registry, lex: Cursor<Token>, name: string)
    requires lex.Valid() && (lex.HasNext() ==> !lex.items[lex.index].Char?)
    requires ParseArgs(reg, lex, name).Success?
    ensures ArgsRegistered(reg, ParseArgs(reg, lex, name).value.0)
    decreases |lex.items| - lex.index, 0
  {
    var nx := lex.TakeOne().value;
    if nx.0.NextArg? {
      var p := ParseStmts(reg, nx.1, true).value;
      StmtsRegistered(reg, nx.1, true);
      ParsedArgsRegistered(reg, p.1, name);
    }
  }

  /** The registry is consulted while parsing: every invocation in a parse
      result names a registered component by a valid lower-case name. */
  lemma ParseRegistered(reg: Registry, tokens: seq<Token>)
    requires Parse(reg, tokens).Success?
    ensures AllRegistered(reg, Parse(reg, tokens).value)
  {
    StmtsRegistered(reg, Cursor(tokens, 0), false);
  }

  /** An invocation's name is the Char run after its open, lower-cased: a
      name with a non-word character is rejected as invalid, an unknown
      one as unknown, and a successful parse carries the name. */
  lemma ComponentName(reg: Registry, lex: Cursor<Token>)
    requires lex.Valid()
    ensures var name := ToLower(RunText(lex.items, lex.index, RunEnd(lex.items, lex.index)));
      var r := ParseComponent(reg, lex);
      && (!ValidName(name) ==> r == Failure(InvalidName(name)))
      && (ValidName(name) && name !in reg ==> r == Failure(UnknownComponent(name)))
      && (r.Success? ==> r.value.0.name == name && name in reg && ValidName(name))
  {
  }

  /** A token sequence of Chars only parses to one text statement holding
      all of it, or to nothing when it is empty. */
  lemma ParsePlainText(reg: Registry, tokens: seq<Token>)
    requires AllChars(tokens)
    ensures Parse(reg, tokens) == Success(if tokens == [] then [] else [Str(Flatten(tokens))])
  {
    if tokens != [] {
      var lex := Cursor(tokens, 0);
      StmtsTextStep(reg, lex, false);
      var run := ParseStr(Cursor(tokens, 1));
      assert run.1.index == |tokens|;
      assert ParseStmts(reg, run.1, false) == Success(([], run.1));
      assert tokens[1..|tokens|] == tokens[1..];
      assert Flatten(tokens) == TokenText(tokens[0]) + Flatten(tokens[1..]);
      RunTextFlatten(tokens, 1, |tokens|);
      assert run.0 == Flatten(tokens[1..]);
      var head := Str(TokenText(tokens[0]) + run.0);
      assert head == Str(Flatten(tokens));
      assert [head] + [] == [head];
      assert ParseStmts(reg, lex, false) == Success(([head], run.1));
    }
  }

  /** Inside an argument, a separator or close ends the statement
      sequence: it is pushed back, so the cursor returned is the one the
      loop started from, and nothing has been accumulated. */
  lemma NestedStopsAtTerminator(reg: Registry, lex: Cursor<Token>)
    requires lex.Valid() && lex.HasNext() && IsTerminator(lex.items[lex.index])
    ensures ParseStmts(reg, lex, true) == Success(([], lex))
  {
  }

  /** After a component's name or one of its arguments, running out of
      tokens is an error, and so is the start of another invocation. */
  lemma ArgsRejects(reg: Registry, lex: Cursor<Token>, name: string)
    requires lex.Valid() && (lex.HasNext() ==> !lex.items[lex.index].Char?)
    ensures !lex.HasNext() ==> ParseArgs(reg, lex, name) == Failure(UnexpectedEnd)
    ensures lex.HasNext() && lex.items[lex.index] == BeginComponent ==>
      ParseArgs(reg, lex, name) == Failure(UnexpectedToken(name, BeginComponent))
  {
  }

  predicate AllStr(ss: seq<Statement>) {
    forall k :: 0 <= k < |ss| ==> ss[k].Str?
  }

  /** The text of a sequence of text statements. */
  function JoinStr(ss: seq<Statement>): string
    requires AllStr(ss)
  {
    if ss == [] then "" else ss[0].value + JoinStr(ss[1..])
  }

  predicate NoBegin(ts: seq<Token>) {
    forall k :: 0 <= k < |ts| ==> ts[k] != BeginComponent
  }

  /** Number of separator and close tokens. */
  function Terminators(ts: seq<Token>): nat {
    if ts == [] then 0 else (if IsTerminator(ts[0]) then 1 else 0) + Terminators(ts[1..])
  }

  lemma {:induction false} TerminatorsChars(ts: seq<Token>)
    requires AllChars(ts)
    ensures Terminators(ts) == 0
    decreases |ts|
  {
    if ts != [] {
      TerminatorsChars(ts[1..]);
    }
  }

  lemma {:induction false} TerminatorsAppend(a: seq<Token>, b: seq<Token>)
    ensures Terminators(a + b) == Terminators(a) + Terminators(b)
    decreases |a|
  {
    if a == [] {
      assert a + b == b;
    } else {
      assert (a + b)[1..] == a[1..] + b;
      TerminatorsAppend(a[1..], b);
    }
  }

  /** Reference reading of invocation-free tokens at top level: each
      token from position `i` on starts a text that runs on through the
      Chars after it. */
  function TextStatements(items: seq<Token>, i: nat): seq<Statement>
    requires i <= |items|
    decreases |items| - i
  {
    if i == |items| then []
    else
      var k := RunEnd(items, i + 1);
      [Str(TokenText(items[i]) + RunText(items, i + 1, k))] + TextStatements(items, k)
  }

  /** At top level, without invocations, the parser reads exactly the
      reference texts and consumes every token. */
  lemma {:induction false} TopLevelText(reg: Registry, lex: Cursor<Token>)
    requires lex.Valid() && NoBegin(lex.items[lex.index..])
    decreases |lex.items| - lex.index
    ensures ParseStmts(reg, lex, false)
      == Success((TextStatements(lex.items, lex.index), Cursor(lex.items, |lex.items|)))
  {
    if lex.HasNext() {
      var rest := lex.items[lex.index..];
      assert lex.items[lex.index] == rest[0];
      StmtsTextStep(reg, lex, false);
      var run := ParseStr(Cursor(lex.items, lex.index + 1));
      var j := run.1.index;
      assert NoBegin(lex.items[j..]) by {
        forall k | 0 <= k < |lex.items[j..]|
          ensures lex.items[j..][k] != BeginComponent
        {
          assert lex.items[j..][k] == rest[j - lex.index + k];
        }
      }
      TopLevelText(reg, run.1);
    }
  }

  /** What the reference texts are: text statements spelling the tokens,
      one per separator or close plus one for a leading Char, the first
      starting with the first token's text and every later one with `][`
      or `]!`. */
  lemma {:induction false} TextStatementsShape(items: seq<Token>, i: nat)
    requires i <= |items| && NoBegin(items[i..])
    decreases |items| - i
    ensures var ss := TextStatements(items, i);
      && AllStr(ss)
      && JoinStr(ss) == Flatten(items[i..])
      && |ss| == Terminators(items[i..]) + (if i < |items| && items[i].Char? then 1 else 0)
      && (i < |items| ==> StartsWith(ss[0].value, TokenText(items[i])))
      && (forall k :: 0 < k < |ss| ==> StartsWith(ss[k].value, "][") || StartsWith(ss[k].value, "]!"))
  {
    if i < |items| {
      var rest := items[i..];
      var j := RunEnd(items, i + 1);
      assert NoBegin(items[j..]) by {
        forall k | 0 <= k < |items[j..]|
          ensures items[j..][k] != BeginComponent
        {
          assert items[j..][k] == rest[j - i + k];
        }
      }
      TextStatementsShape(items, j);
      var q := TextStatements(items, j);
      var head := Str(TokenText(items[i]) + RunText(items, i + 1, j));
      RunTextFlatten(items, i + 1, j);
      var ss := [head] + q;
      assert TextStatements(items, i) == ss;
      RunEndAllChars(items, i + 1);
      TextSegment(items, i, j);
      assert ss[1..] == q;
      assert JoinStr(ss) == head.value + JoinStr(q);
      assert items[i] == rest[0];
      if j < |items| {
        var u := items[j];
        assert u == rest[j - i];
        assert TokenText(u) == "][" || TokenText(u) == "]!";
      }
      forall k | 0 < k < |ss|
        ensures StartsWith(ss[k].value, "][") || StartsWith(ss[k].value, "]!")
      {
        assert ss[k] == q[k - 1];
      }
    }
  }

  /** A token followed by a run of Chars, then the rest. */
  lemma TextSegment(items: seq<Token>, i: nat, j: nat)
    requires i < j <= |items| && AllChars(items[i + 1..j])
    ensures Flatten(items[i..]) == TokenText(items[i]) + Flatten(items[i + 1..j]) + Flatten(items[j..])
    ensures Terminators(items[i..]) == (if IsTerminator(items[i]) then 1 else 0) + Terminators(items[j..])
  {
    var t := items[i];
    var chars := items[i + 1..j];
    assert items[i..] == [t] + chars + items[j..];
    FlattenAppend([t] + chars, items[j..]);
    FlattenAppend([t], chars);
    assert Flatten([t]) == TokenText(t);
    TerminatorsAppend([t] + chars, items[j..]);
    TerminatorsAppend([t], chars);
    TerminatorsChars(chars);
  }

  /** Top-level text with stray separators and closes: parsing succeeds
      and spells the tokens in text statements, the first starting with
      the first token's text and every later one with `][` or `]!`. */
  lemma ParseStrayTerminators(reg: Registry, tokens: seq<Token>)
    requires NoBegin(tokens)
    ensures var r := Parse(reg, tokens);
      && r.Success?
      && AllStr(r.value)
      && JoinStr(r.value) == Flatten(tokens)
      && |r.value| == Terminators(tokens) + (if tokens != [] && tokens[0].Char? then 1 else 0)
      && (tokens != [] ==> StartsWith(r.value[0].value, TokenText(tokens[0])))
      && (forall k :: 0 < k < |r.value| ==>
            StartsWith(r.value[k].value, "][") || StartsWith(r.value[k].value, "]!"))
  {
    assert tokens[0..] == tokens;
    TopLevelText(reg, Cursor(tokens, 0));
    TextStatementsShape(tokens, 0);
  }
}
