# CanvasComponents markup compiler, modelled in Dafny

CanvasComponents rewrites each outgoing chat message before the page sends
it. Markup such as `![greet][World]!` invokes a component from a registry.
The compiler in `canvascomponents.js` turns the message into HTML, preceded
by a `<style>` element holding the CSS of the components used. It runs in
four stages:

- **lex**: one scan with one character of lookahead. `![` becomes
  BeginComponent, `][` becomes NextArg, `]!` becomes EndComponent, and every
  other character becomes Char. An iteration ceiling of 100,000 stops the
  scan.
- **parse**: recursive descent over the tokens, using a cursor with
  one-token pushback. It builds a tree of text and component statements. A
  component name is the run of Chars after `![`, lower-cased. It must consist
  of word characters and be registered.
- **transpile**: each invocation includes its component's CSS and checks its
  argument count. It transpiles each argument in full, then replaces
  `${param}` placeholders in the template in declaration order. Finally it
  expands `${eval:code}` placeholders through the host's `eval`, with the
  arguments bound as `const` declarations.
- **CssManager**: collects each component's style once, in the order the
  components are first met.

The model is purely functional:

- The registry is an immutable map passed as a parameter.
- The cursor is a value.
- The CSS manager is threaded through the transpiler.
- Every thrown error is a `Failure` of a `Result`.
- `eval` is a function parameter (`Evaluator`) mapping code to a returned
  string or a thrown message.

Modules:

| module | file | what |
|---|---|---|
| `Strings` | strings.dfy | prefixes, occurrences, `\w`, lower-casing, count rendering, literal `replaceAll` |
| `Tokens` | tokens.dfy | the token type and the text each token stands for |
| `Errors` | errors.dfy | the error kinds, their messages, `Result` and `Option` |
| `Cursors` | cursors.dfy | `Stack` / `Str` / `WrappedLex` as one generic cursor |
| `Lexer` | lexer.dfy | `lexOnce`, `lex`, a reference tokenisation, losslessness |
| `Registry` | registry.dfy | component definitions |
| `Parser` | parser.dfy | `parse` (statement loop, invocation, argument loop) and `parseStr` |
| `ParserProperties` | parser_props.dfy | plain text, stray terminators, names, errors |
| `ParserShape` | parser_shape.dfy | argument count and balance of a parse |
| `Printer` | printer.dfy | rendering a tree back to tokens and text; parse inverts it |
| `Css` | css.dfy | `CssManager` |
| `Json` | json.dfy | `JSON.stringify` of a string, and reading it back |
| `Transpiler` | transpiler.dfy | `transpileStatements`, `transpileOnce`, the eval expansion |
| `TranspilerProperties` | transpiler_props.dfy | reference definition of an invocation, CSS independence, substitution order |
| `Compiler` | compiler.dfy | the pipeline of the message handler |
| `Scenarios` | scenarios.dfy | whole compiles against a one-component registry |

Behaviours of the code that a reader might not expect, all kept in the model:

- An invocation has exactly as many arguments as NextArg tokens at its
  level. `![greet]!` has none, not one. See `ParserShape.ParseArgCount`.
- The code does not reject an empty component name. `![]!` fails only
  because the empty name is not registered.
- A message that contains no `![` and lexes to at most 100,000 tokens
  compiles to an empty style element followed by the message itself
  (`Compiler.CompilePlainText`). A message that lexes to more tokens fails
  in the lexer. Stray `][` and `]!` are text at top level.
- The eval pattern `/\${eval:(.+)}/g` is greedy. Two evaluated placeholders
  on one line form one match, so they are not expanded independently. See
  `TranspilerProperties.GreedyEval`.

## Model

| member | source | states |
|---|---|---|
| Lexer.LexOnce | canvascomponents.js:256-282 | `![`, `][` and `]!` at the cursor give BeginComponent, NextArg and EndComponent, each if and only if the text starts with that sequence; otherwise a Char of the next character. The token's text is exactly what is consumed: two characters for a control sequence, one for a Char. |
| Lexer.LexLoop | canvascomponents.js:238-248 | the loop succeeds exactly when the count so far plus the tokens still to come is at most 100,000, and then returns the tokens so far followed by the rest's tokens; otherwise it fails with the loop-limit error |
| Lexer.Lex | canvascomponents.js:234-251 | lexing fails, with the loop-limit error, exactly when more than 100,000 tokens would be produced; otherwise it returns the reference tokenisation |
| Lexer.FlattenTokenize | canvascomponents.js:256-282 | concatenating the tokens' texts reproduces the input |
| Lexer.TokenizeLength | canvascomponents.js:256-282 | there are never more tokens than characters |
| Lexer.LexLossless | canvascomponents.js:234-251 | every input of at most 100,000 characters lexes, and the result spells the input |
| Lexer.CanonicalTokenize | canvascomponents.js:256-282 | the lexer never emits a literal `!` or `]` directly before a token its character would have joined with |
| Lexer.TokenizeFlatten | canvascomponents.js:256-282 | on such canonical sequences, lexing inverts concatenation, so lexing is a bijection onto them |
| Cursors.Cursor.Peek | canvascomponents.js:289-291 | returns the items from the index on, as many as asked for or as remain; the cursor is unchanged |
| Cursors.Cursor.Take | canvascomponents.js:292-299 | fails with "Expected more text" exactly when index + n exceeds the length; otherwise returns the items in [index, index + n) and advances by exactly n |
| Cursors.Cursor.TakeOne | canvascomponents.js:170 | `take()[0]` succeeds exactly when an item remains and returns the item at the index |
| Cursors.Cursor.Unread | canvascomponents.js:200-203 | the pushback steps back exactly one position |
| Cursors.HasNextTake | canvascomponents.js:300-302 | `hasNext` holds exactly when a one-item `take` succeeds, and then `take` returns what `peek` shows |
| Cursors.TakeUnread | canvascomponents.js:200-203 | taking one item and pushing it back restores the cursor |
| Parser.ParseStr | canvascomponents.js:218-224 | consumes the maximal run of Char tokens: it stops at the end or at a non-Char, and returns exactly those tokens' characters |
| Parser.ParseStmts | canvascomponents.js:167-213 | at top level the loop consumes every token; nested, it stops only at the end or at a separator or close, which is left unread; an unexpected-token error can only name an opener |
| Parser.ParseComponent | canvascomponents.js:172-196 | a successful invocation consumes at least one token and yields a component statement; failures are parse errors |
| Parser.ParseArgs | canvascomponents.js:180-194 | the argument loop consumes at least its close; failures are parse errors |
| Parser.Parse | canvascomponents.js:167-213 | every failure is a parse error, and the only token an unexpected-token error can report is an opener, since the argument loop always starts after a non-Char |
| ParserProperties.ComponentName | canvascomponents.js:172-179 | the name is the lower-cased Char run after the opener; a non-word character fails with InvalidName of it, an unregistered valid name with UnknownComponent of it, and a success carries it |
| ParserProperties.ParseRegistered | canvascomponents.js:172-196 | every invocation in a parsed tree names a registered component by a valid lower-case name |
| ParserProperties.ParsePlainText | canvascomponents.js:206-207 | Char tokens alone parse to one text statement holding the whole input, or to nothing for no tokens |
| ParserProperties.NestedStopsAtTerminator | canvascomponents.js:198-204 | nested, a separator or close first returns no statements and leaves the cursor where it was |
| ParserProperties.ArgsRejects | canvascomponents.js:181-194 | running out of tokens before the close fails with UnexpectedEnd; an opener where a separator or close is due fails with UnexpectedToken |
| ParserProperties.TopLevelText | canvascomponents.js:198-209 | at top level, tokens without an opener parse to text statements, consuming all of them |
| ParserProperties.ParseStrayTerminators | canvascomponents.js:198-209 | without an opener the parse succeeds with text statements that spell the input. There is one per stray separator or close, plus one for a leading Char run, and each after the first starts with `][` or `]!` |
| ParserShape.ParseArgCount | canvascomponents.js:180-194 | an invocation has exactly as many arguments as separators at its own nesting level |
| ParserShape.ParseBalanced | canvascomponents.js:167-213 | a successful parse has at least as many closes as openers |
| ParserShape.UnclosedFails | canvascomponents.js:181-186 | with more openers than closes, the parse fails |
| Printer.ParseRender | canvascomponents.js:167-213 | parsing the rendered tokens of a well-formed tree gives back the tree |
| Printer.LexParsePrint | canvascomponents.js:167-251 | the printed text of a well-formed tree lexes and parses back to the tree, when no tokens run together and the ceiling is not reached |
| Css.Empty | canvascomponents.js:140-143 | a new manager has nothing included and no CSS |
| Css.IncludeCss | canvascomponents.js:147-153 | the name is included afterwards; a name already included leaves the manager unchanged; a new name appends its component's style |
| Css.IncludeCssIdempotent | canvascomponents.js:147-153 | including a name twice is including it once |
| Css.IncludeAllSpec | canvascomponents.js:147-153 | a run of inclusions includes every name. The CSS grows by the styles of the names not seen before, in first-occurrence order |
| Css.FirstOccurrencesDistinct | canvascomponents.js:149-151 | the styles appended are those of new, pairwise distinct names, so each style appears once |
| Css.IncludeAllRepeat | canvascomponents.js:149 | names already included change nothing |
| Transpiler.EvalMatchAt | canvascomponents.js:117 | finds where `/\${eval:(.+)}/` matches at a position. The code is non-empty and crosses no line terminator. The match ends at the last closing brace that ends any match; none is reported only when no match exists |
| Transpiler.ExpandEvals | canvascomponents.js:124-130 | the only failure is an evaluation that threw |
| Transpiler.ExpandEvalsAbsent | canvascomponents.js:124-130 | a template without `${eval:` is unchanged, and the evaluator is not consulted |
| Transpiler.TranspileStatements | canvascomponents.js:68-74 | on success every component name in the tree is registered. The CSS manager has included all of them, depth first and left to right, each invocation before its arguments. The only failures are arity and evaluation errors |
| Transpiler.TranspileOnce | canvascomponents.js:82-137 | on success the manager has included the invocation's name, then the names in its arguments; the only failures are arity and evaluation errors |
| Transpiler.ExpandArgs | canvascomponents.js:98-114 | binds one value per declared parameter, under the parameter's name, in declaration order; the arguments' CSS is included in order |
| TranspilerProperties.InvocationSpec | canvascomponents.js:90-131 | an invocation's HTML is the arity error when the count is off. Otherwise it is the first failing argument's error, or the template with each parameter substituted in order and the evaluated placeholders expanded with the argument values bound |
| TranspilerProperties.ExpandArgsSpec | canvascomponents.js:98-114 | the loop's values are each argument transpiled on its own, and its template is the declared one with the parameters substituted in declaration order |
| TranspilerProperties.StatementsCssIndependent | canvascomponents.js:68-74 | the HTML, and whether and how the transpile fails, do not depend on the CSS collected before |
| TranspilerProperties.StatementsHtml | canvascomponents.js:68-74 | a sequence's HTML is the first statement's HTML followed by the rest's, each transpiled on its own; the first failure is the result. With `InvocationSpec` this defines the HTML of a whole tree |
| TranspilerProperties.ArityFails | canvascomponents.js:91-97 | a wrong argument count fails the invocation; the message contains the expected count, the count found, the name and the usage example |
| TranspilerProperties.TranspilePlainText | canvascomponents.js:86-88 | text statements transpile to their concatenation and include no CSS |
| TranspilerProperties.SubstituteAbsent | canvascomponents.js:108-112 | a template without the parameters' placeholders comes through unchanged |
| TranspilerProperties.SubstitutionOrder | canvascomponents.js:98-114 | an example of substitution in declaration order: in `${a}`, binding `a := ${b}` then `b := x` gives `x`, while the reverse order leaves `${b}`. The general order is stated by `ExpandArgsSpec` |
| TranspilerProperties.GreedyMatch | canvascomponents.js:117 | in `${eval:1}${eval:2}` the single match ends at the second closing brace |
| TranspilerProperties.GreedyEval | canvascomponents.js:117-130 | the evaluator sees `1}${eval:2` as one piece of code, and its value replaces both placeholders |
| Json.JsonEscapeRoundTrip | canvascomponents.js:119-122 | the escaped argument value reads back as exactly the value |
| Json.JsonQuoteShape | canvascomponents.js:119-122 | the quoted value is delimited by its quotes, and its inside reads back as the value |
| Errors.ArityMessageMentions | canvascomponents.js:93-97 | the arity message contains both counts, the component's name and its usage |
| Errors.Message | canvascomponents.js:172-192 | the parser's error messages start with `Parse Error: `, as at lines 175, 179, 188-192 and 294. The lexer's starts with `Lexing failed: ` (line 246). What evaluated code threw passes through unchanged |
| Errors.MessageNamesComponent | canvascomponents.js:172-192 | the invalid-name, unknown-component and unexpected-token messages quote the lower-cased component name |
| Transpiler.Bindings | canvascomponents.js:118-122 | the declarations are empty exactly when there are no arguments, and otherwise start on a new line |
| Transpiler.BindingsAppend | canvascomponents.js:118-122 | the declarations of two runs of arguments are concatenated in order, as the left-to-right `reduce` builds them |
| Transpiler.BindingsDeclare | canvascomponents.js:118-122 | every argument is declared as `const`, under its name, with its value as a JSON string literal (which reads back as the value, `Json.JsonQuoteShape`) |
| Strings.ToLowerIdempotent | canvascomponents.js:173 | lower-casing a lower-cased name changes nothing |
| Strings.ReplaceAllJoin | canvascomponents.js:108-112 | occurrences are replaced left to right, each replaced text skipped |
| Compiler.Compile | canvascomponents.js:27-34 | the compile fails with the loop-limit error exactly when lexing would exceed the ceiling. It fails with a parse error exactly when lexing succeeds and parsing fails. Every failure is a lex, parse or transpile error, and a success starts with `<style>` |
| Compiler.CompileOutput | canvascomponents.js:27-34 | a successful compile is a style element, then the HTML of the parsed statements. The element holds the styles of the components used, each once, in first-use order |
| Compiler.CompilePlainText | canvascomponents.js:27-34 | a message without `![`, within the ceiling, compiles to an empty style element followed by the message itself |
| Scenarios.GreetTemplate | canvascomponents.js:108-112 | for a component `greet` with template `Hello ${who}!`, binding `who` to any value gives `Hello `, the value, then `!` |
| Scenarios.GreetHtml | canvascomponents.js:82-131 | `greet` invoked with one argument whose HTML holds no `$` produces its template with that HTML in place |
| Scenarios.GreetPrint | canvascomponents.js:256-282 | the tree of `greet` with one text argument is written, in the markers the lexer recognises, as `![greet][`, the text, then `]!` |
| Scenarios.CompilePrinted | canvascomponents.js:27-34 | compiling the printed text of a well-formed tree gives the style element and HTML of transpiling that tree |
| Scenarios.GreetCompile | canvascomponents.js:27-34 | `![greet][w]!`, for non-empty text `w` without `!`, `]` or `$` and within the ceiling, compiles to `<style>` + the component's style + `</style>Hello `, then `w`, then `!` |

## Left out

- The message handler's plumbing is not modelled: logging, `window.prompt`
  on failure, the `json.message` truthiness test, and returning the JSON.
  `Compile` is the body of its `try` block.
- Logging inside the core is not modelled either: the
  `console.log(codeWithVariables)` in the eval replacer of `transpileOnce`
  (canvascomponents.js:127) has no effect on the output.
- Errors.TokenJson: the value of a Char token is written without JSON
  escaping. This case never arises: `Parser.Parse` ensures that an
  unexpected-token error only ever carries an opener (`BeginComponent`),
  whose text needs no escaping.
- Transpiler.Bindings: the contract states when the declarations are empty
  and that they start a new line. `Transpiler.BindingsAppend` and
  `Transpiler.BindingsDeclare` state their content.
- The fetch/XHR patching, `debugHttpRequest`, `displayLoadedAnimation` and
  the load guard are not modelled. They are host I/O.
- `Str.isNextNumber`, `Str.takeFollowingNumber` and the empty `parseArgs`
  are not modelled. They are never called.
- `scripts/build.js` is not part of this model. It produces the registry,
  which the model takes as a parameter.
- `window.eval` is a parameter (`Evaluator`). The model fixes only that the
  code it receives is the argument declarations followed by the captured
  code. Its effects on shared state are out of scope, and so is the
  conversion of its completion value to a string.
- Strings.ReplaceAll: the replacement is inserted literally. JavaScript's
  `replaceAll` with a string replacement also interprets `$$`, `$&`, `` $` ``
  and `$'` in it (ECMA-262, 13th edition, sections 22.1.3.19 and 22.1.3.18.1,
  GetSubstitution). The model agrees with the source whenever argument values
  contain no `$`.
- Strings.ToLower: ASCII only. `toLowerCase` maps all of Unicode; for
  example it maps the Kelvin sign to `k`, which then passes the `\W` test.
- Lexer.Lex: the 100,000 ceiling counts Unicode scalar values (Dafny
  `char`s), while the source's `Str` counts UTF-16 code units
  (canvascomponents.js:326-331). A character outside the Basic Multilingual
  Plane is one iteration here and two in the source. So a message of
  50,001 such characters fails in the source and lexes here.
- Lexer.LexLossless: the "at most 100,000 characters" bound is counted in
  Unicode scalar values, as for `Lexer.Lex`.
- Parser.ParseStmts: the contract states where the loop stops and the
  error kinds, not the statements it returns. These are stated by
  `Printer.ParseRender`, `ParserProperties.TopLevelText` and
  `ParserProperties.StmtsTextStep`.
- Parser.Parse: the contract states the error kinds, not the tree. The tree
  is stated by `Printer.ParseRender`, `ParserProperties.ParsePlainText`,
  `ParserProperties.TopLevelText` and `ParserShape.ParseArgCount`.
- Transpiler.TranspileOnce: the contract states the CSS and the error
  kinds, not the HTML. `TranspilerProperties.InvocationSpec` states the
  HTML.
- Transpiler.ExpandArgs: the contract states the bound names and the CSS,
  not the values or the substituted template.
  `TranspilerProperties.ExpandArgsSpec` states them.
- Transpiler.TranspileStatements: the contract states the CSS and the
  error kinds. The HTML is stated by `TranspilerProperties.StatementsHtml`
  and `TranspilerProperties.TranspilePlainText`. It also requires every
  invocation to be registered. The parser guarantees this
  (`ParserProperties.ParseRegistered`); the source would instead crash
  reading an unregistered definition.
- Compiler.Compile: the contract classifies the failures and says a
  success starts with `<style>`. The whole output is stated by
  `Compiler.CompileOutput`.
- Json.JsonChar: strings are sequences of Unicode scalar values, not UTF-16
  code units. Lone surrogates, which `JSON.stringify` escapes, cannot occur.
- Transpiler.ExpandEvals: the contract states only that an evaluation
  that threw is the one failure. What the expansion produces is stated by
  `Transpiler.EvalMatchAt`, `Transpiler.ExpandEvalsAbsent` and
  `TranspilerProperties.GreedyEval`.
- Parser.ParseComponent: the contract states progress and the error kinds.
  The tree it yields is stated by `ParserProperties.ComponentName`,
  `ParserShape.ParseArgCount` and `Printer.ParseRender`.
- Parser.ParseArgs: as for `ParseComponent`. Its result is stated through
  the same lemmas.
- Registry: a map, so names like `constructor`, which a JavaScript object
  inherits from its prototype, are not registered unless listed.
- Stack exhaustion on deeply nested input is not modelled. Recursion depth
  is unbounded in the model.
