# async/await to std::future rewriter, modelled in Dafny

The repository rewrites a C++ dialect that uses `async` functions and `await` expressions into
standard C++ built on `std::future` and `std::async`. Its `Converter` works in two phases, each
one a grammar built from parser combinators followed by a generator over the parse tree:

1. **Async functions.** `async R name(T1 a, T2 b) { body }` becomes
   `std::future<R> name(T1 a, T2 b) { return std::async([=](){\nbody\n}); }` plus a newline.
   All other text is copied.
2. **Await calls.** This phase runs over the output of phase 1.
   - `await expr)` becomes `expr).get()`.
   - The inline lambda `await async R(T a) { body } (args)` becomes
     `(std::async([](T a)[=](){\nbody\n}(args)).get()`.
   - All other text is copied.

`main.py` holds an earlier single-function draft. `define_grammar` reads one async function at
the start of the input. `generate_code` rewrites each `await X;` of its body with one
regular-expression substitution and wraps the body the same way phase 1 does.

The model is split into six modules:

- `Lexer` (lexer.dfy) holds the token scanners both grammars share:
  - whitespace, identifiers, parameter types and the return type;
  - keywords with a word boundary, and the lazy scan to the next keyword;
  - punctuation, the parameter list and the brace body;
  - Python's `str.join`.
- `Tiling` (tiling.dfy) states once, for both grammars, how `many(seq(<text up to the
  keyword>, <record>))` followed by the remainder cuts a text into pieces.
- `AsyncFuncs` (async_funcs.dfy) holds phase 1: the grammar as a function from text to a
  segment sequence, and `generate_async_func` as a method with a `for` loop, proved against
  the rendering function.
- `AwaitCalls` (await_calls.dfy) holds phase 2 in the same form.
- `Converter` (converter.dfy) holds `convert`, the properties of the whole pipeline, and the
  three sample pairs of `run_tests`.
- `Draft` (draft.dfy) holds the grammar and the generator of `main.py`. This includes a model
  of `re.sub(r'\bawait\s*(.+?);', r'\1.get();', body, flags=re.DOTALL)` as Python's
  backtracking engine runs it.

The grammars are modelled with PEG semantics over a text and a position:

- `seq` chains `Option` results, and `alt` is ordered choice.
- `many` repeats until its first failed round and keeps what came before.
- `list_of(x, d)` is `x (d x)*`, so it needs at least one item.
- `push` and `group` become the fields of the result records.
- `\b` looks at the characters on both sides of the position in the whole text.

The main results:

- **What any parse is made of.** For every text, each phase's tree is literals and records
  in turn, starting and ending with a literal (`AsyncFuncs.ParseTiles`, `AwaitCalls.ParseTiles`).
  - Each literal but the last is the text up to the next keyword word.
  - Each record is what the record grammar reads at that keyword, from where it starts to
    where it ends.
  - The last literal is the rest of the text, at a place where the repetition stops.
  - The pieces, in order, make up the whole text.
- **Round trips.** Each phase parses the written form of every printable tree back into that
  tree (`AsyncFuncs.ParsePrint`, `AwaitCalls.ParsePrint`). A printable tree is written in the
  canonical layout, its records have identifier return types, and its literals hold no keyword
  word. Under "Left out" are the trees a phase produces that are not printable.
- **Read-back lemmas.** Every token, parameter list, body, argument list, function and await
  written in the canonical layout is read back from its written form. A return type is read
  back when it is an identifier.
- **Generators.** Each generator loop computes the rendering of the tree.
- **Text without keywords.** Text with no `async` and no `await` word passes through
  unchanged.
- **Functions with awaits.** A lone function whose body is written awaits and literals
  converts to its declaration with every await of the body rewritten.
- **Inline lambdas.** An inline `await async` lambda passes through phase 1 untouched.
- **Samples.** The three built-in sample conversions hold.
- **The draft.**
  - Its grammar reads what phase 1 reads.
  - Its generator writes the phase-1 declaration of the function with the body rewritten.
  - Its substitution turns `await X;` into `X.get();`, keeps everything else, and matches
    exactly when `\bawait` is followed by a `;` at least one character later.

## Model

| member | source | states |
|---|---|---|
| Lexer.SkipSpaceSpec | aw_as_mgi.py:30 | `space` skips all of the whitespace at the position and stops at the first non-whitespace character |
| Lexer.RunEndMaximal | aw_as_mgi.py:30-44 | the greedy character-class runs of the grammars are maximal: every character taken is in the class, the next one is not |
| Lexer.KeywordTokenIs | aw_as_mgi.py:35 | a keyword after whitespace and before a non-word character is the `tok(r'async\b')` token, ending right after the keyword |
| Lexer.NextKeywordSpec | aw_as_mgi.py:57 | the lazy scan `[\s\S]*?(?=\basync\b)` stops at the first whole-word occurrence, and fails exactly when there is none |
| Lexer.NoKeywordWithin | aw_as_mgi.py:57 | a stretch with no keyword word of its own, bounded by non-word characters, holds no keyword word inside the larger text |
| Lexer.IdentAtSpec | aw_as_mgi.py:37 | `[a-zA-Z_][a-zA-Z0-9_]*` matches exactly when the character can start an identifier; the match is the longest identifier there |
| Lexer.TypeTokenSpec | aw_as_mgi.py:39 | the parameter-type token exists exactly when an identifier start follows the whitespace, and it is the longest `[a-zA-Z0-9_:*]` run |
| Lexer.CloseAngleSpec | aw_as_mgi.py:36 | `std::future<.*?>` ends at the first `>`, and fails when a newline or the end of the text comes first |
| Lexer.ReturnTypeTokenIdent | aw_as_mgi.py:36 | an identifier return type (not followed by `:`) is read as itself |
| Lexer.RunTokenSpec | aw_as_mgi.py:44 | `tok(r'[^...]*')` and the `+` form skip whitespace and take everything up to the first excluded character; the `+` form fails on an empty run |
| Lexer.Punct | aw_as_mgi.py:33 | `skip(c)` ends right after a `c` |
| Lexer.ParamsAt | aw_as_mgi.py:41-42 | a parameter list holds at least one parameter |
| Lexer.ParamAtIs | aw_as_mgi.py:39-41 | a written parameter `T n` is read back as itself, ending after the name |
| Lexer.ParamsAtIs | aw_as_mgi.py:39-42 | a written list `(T1 n1, T2 n2)` is read back as its parameters, ending after the `)` |
| Lexer.BodyAt | aw_as_mgi.py:44 | a body ends in its closing `}` |
| Lexer.BodyAtSpec | aw_as_mgi.py:44 | the body starts after the whitespace that follows `{`, holds no `}`, and is missing exactly when no `{` or no later `}` is there |
| Lexer.BodyAtIs | aw_as_mgi.py:44 | a written body `{<ws>B}` is read back as `B` |
| Lexer.ParamTexts | aw_as_mgi.py:107 | `f"{t} {n}" for t, n in params` gives one text per parameter, in order |
| Lexer.NoKeywordConcat | aw_as_mgi.py:57 | two texts without a keyword word, joined where no word character meets another, hold none either |
| Lexer.JoinFirst | aw_as_mgi.py:107 | `sep.join(items)` is the first item followed by `sep` and each later item |
| Tiling.TiledCons | aw_as_mgi.py:58 | one round of the repetition (the text up to the keyword, then a record the grammar reads there) in front of a cut of the rest is a cut of the whole |
| Tiling.RecordAt | aw_as_mgi.py:58 | in a cut, the segment at every odd place is the record the grammar reads from its start to its end |
| Tiling.TiledCovers | aw_as_mgi.py:58 | the slices between the positions of a cut make up the text from its first position on |
| AsyncFuncs.AsyncFuncAt | aw_as_mgi.py:47-55 | a function match consumes more than the keyword and stays inside the text |
| AsyncFuncs.AsyncFuncAtIs | aw_as_mgi.py:35-55 | a well-formed function written after whitespace is read back as its record and consumed exactly |
| AsyncFuncs.FunctionRead | aw_as_mgi.py:47-55 | a function written with one space after `{` is read back where it starts |
| AsyncFuncs.ParseFrom | aw_as_mgi.py:57-58 | `many(seq(btw_async, async_func))` then the remainder, from `pos`: each round is the literal up to the next `\basync\b` word followed by the function record the grammar reads there; the first round that fails (no `async` word left, or no function at it) ends the repetition, and the text from that round's start is the one final literal; `ParseFromTiled` proves this shape of every result |
| AsyncFuncs.Parse | aw_as_mgi.py:17 | `parse(source_code, self.parser_async_func).stack[0]`: `ParseFrom` from the start of the text; `ParseTiles` proves its pieces tile the whole text |
| AsyncFuncs.ParseFromPrint | aw_as_mgi.py:57-58 | from any position where a written printable tree runs to the end of the text, the repetition reads that tree back |
| AsyncFuncs.ParsePrint | aw_as_mgi.py:17 | parsing the written form of a printable tree (canonical layout, identifier return types, literals without the word `async`) gives that tree back |
| AsyncFuncs.ParseFromTiled | aw_as_mgi.py:57-58 | from any position of any text, the repetition and the remainder cut it as `Tiling.Tiled` says, at the positions `Bounds` lists |
| AsyncFuncs.ParseTiles | aw_as_mgi.py:17 | for every text, the phase-1 tree is literals and functions in turn, ending in a literal: each literal but the last runs up to the next `async` word, each function is what the function grammar reads there, from its start to its end, the repetition stops at the last literal, and the pieces make up the text |
| AsyncFuncs.NoAsyncUnchanged | aw_as_mgi.py:57-58 | text without the word `async` is one literal, and phase 1 gives it back unchanged |
| AsyncFuncs.RenderFunc | aw_as_mgi.py:106-110 | one record as `DeclarationHead`, i.e. `std::future<R> N(t1 n1, t2 n2) `, followed by `DeclarationBody`, i.e. `{ return std::async([=](){\nB\n}); }` and a newline |
| AsyncFuncs.RenderSegment | aw_as_mgi.py:105-112 | a literal is copied as it is and a record is written by `RenderFunc`, chosen by segment kind (the corrected test of "Findings") |
| AsyncFuncs.Render | aw_as_mgi.py:102-113 | the text phase 1 generates: every segment of the tree rendered, in order; `GenerateAsyncFunc` is proved to compute it |
| AsyncFuncs.GenerateAsyncFunc | aw_as_mgi.py:102-113 | the generator loop builds the rendering of the whole tree: literals as they are, records as `std::future` declarations |
| AsyncFuncs.RenderConcat | aw_as_mgi.py:102-113 | generation distributes over concatenated trees |
| AsyncFuncs.RenderNodeAsWritten | aw_as_mgi.py:104-112 | the dispatch on the first field fails exactly for a literal `async`, and otherwise gives the segment's rendering |
| AsyncFuncs.RenderAsWrittenFails | aw_as_mgi.py:102-113 | the generator as written fails exactly on trees holding a literal `async`, and otherwise agrees with the rendering |
| AsyncFuncs.LoneAsyncKeyword | aw_as_mgi.py:17-18 | the input `async` parses to the single literal `async`, on which the generator as written fails |
| AwaitCalls.AwaitLambdaAt | aw_as_mgi.py:80-89 | a lambda match is a lambda record and consumes text |
| AwaitCalls.PlainAwaitAt | aw_as_mgi.py:92-97 | a plain match is a plain-await record and consumes text |
| AwaitCalls.AwaitAt | aw_as_mgi.py:100 | the alternative always gives a record, never a literal |
| AwaitCalls.ParseFrom | aw_as_mgi.py:99-100 | the phase-2 tree is never empty, since it ends in the remainder |
| AwaitCalls.Parse | aw_as_mgi.py:22 | `parse(flat_code, self.parser_await_call).stack[0]`: `ParseFrom` from the start of phase 1's output; `ParseTiles` proves its pieces tile the whole text |
| AwaitCalls.ArgsAtIs | aw_as_mgi.py:75 | a written argument list `(a1, a2)` is read back as its arguments |
| AwaitCalls.LambdaAtIs | aw_as_mgi.py:66-89 | a well-formed inline lambda is read back with its return type, parameters, body and arguments, and consumed exactly |
| AwaitCalls.PlainAtIs | aw_as_mgi.py:92-97 | `await e)` with a well-formed expression is read back as the plain await of `e`, ending after the `)` |
| AwaitCalls.AwaitAtIs | aw_as_mgi.py:100 | either form, written out, is read back by the ordered choice |
| AwaitCalls.ParsePrint | aw_as_mgi.py:22 | parsing the written form of a printable tree (canonical layout, identifier return types, literals without the word `await`, plain awaits not starting with the word `async`) gives that tree back |
| AwaitCalls.ParseFromTiled | aw_as_mgi.py:99-100 | from any position of any text, the repetition and the remainder cut it as `Tiling.Tiled` says, at the positions `Bounds` lists |
| AwaitCalls.ParseTiles | aw_as_mgi.py:22 | for every text, the phase-2 tree is literals and awaits in turn, ending in a literal: each literal but the last runs up to the next `await` word, each await is what the ordered choice reads there, from its start to its end, the repetition stops at the last literal, and the pieces make up the text |
| AwaitCalls.FramedConverts | aw_as_mgi.py:99-131 | phase 2 over a written printable tree with text around it that holds no `await` word and does not glue onto the tree gives that text around the generated tree |
| AwaitCalls.NoAwaitUnchanged | aw_as_mgi.py:99-100 | text without the word `await` is one literal, and phase 2 gives it back unchanged |
| AwaitCalls.RenderSegment | aw_as_mgi.py:117-130 | a literal is copied; the plain await of `e` becomes `e).get()`; a lambda becomes `(std::async([](<params>)[=](){\nB\n}(<args>)).get()`, its return type dropped; `DispatchAsWrittenAgrees` proves it agrees with the source's dispatch on every tree |
| AwaitCalls.Render | aw_as_mgi.py:115-131 | the text phase 2 generates: every segment rendered, in order; `GenerateAwaitCalls` is proved to compute it |
| AwaitCalls.GenerateAwaitCalls | aw_as_mgi.py:115-131 | the generator loop builds the rendering: plain awaits as `expr).get()`, lambdas as a waited `std::async` call on the closure |
| AwaitCalls.RenderConcat | aw_as_mgi.py:115-131 | generation distributes over concatenated trees |
| AwaitCalls.DispatchAsWrittenAgrees | aw_as_mgi.py:117-130 | on every tree the grammar produces, the dispatch on the first field as written agrees with the rendering by segment kind |
| Converter.ConvertText | aw_as_mgi.py:16-26 | the text `convert` returns: phase 1's rendering of phase 1's parse of the source, then phase 2's rendering of phase 2's parse of that text; `Convert` is proved to compute it, and the lemmas below state what it gives |
| Converter.Convert | aw_as_mgi.py:10-27 | `convert` is phase 1 parsed and generated, then phase 2 parsed and generated on that output; phase 1 uses the corrected generator of "Findings", so the text `async` converts to itself, where `convert` as written raises |
| Converter.KeywordFreeUnchanged | aw_as_mgi.py:10-27 | text with neither an `async` nor an `await` word converts to itself |
| Converter.IncludeLineUnchanged | aw_as_mgi.py:10-27 | the header line `#include <async_await>` converts to itself |
| Converter.LoneFunctionConverts | aw_as_mgi.py:10-27 | a lone well-formed async function whose declaration holds no `await` word converts to exactly its `std::future` declaration |
| Converter.AwaitingFunctionConverts | aw_as_mgi.py:10-27 | a lone well-formed async function whose body is the written form of a printable phase-2 tree, and whose head holds no `await` word, converts to its `std::future` declaration with the body generated by phase 2 |
| Converter.NoFunctionAtLambda | aw_as_mgi.py:47-55 | at the `async` of an inline lambda the function grammar of phase 1 fails |
| Converter.LambdaSurvivesPhase1 | aw_as_mgi.py:17-18 | a text whose first `async` word belongs to an inline lambda passes phase 1 unchanged |
| Converter.PrintedLambdaSurvivesPhase1 | aw_as_mgi.py:17-18 | written phase-2 trees whose first await is a lambda pass phase 1 unchanged |
| Converter.AwaitSample | aw_as_mgi.py:144-145 | `await dl(u);` converts to `dl(u).get();` |
| Converter.FooSample | aw_as_mgi.py:142-143 | `async int foo(int num) { return 1; }` converts to the expected declaration and its newline |
| Converter.LambdaSample | aw_as_mgi.py:140-141 | `int var = await async int(int num) { return 1; } (2);` converts to the expected waited `std::async` call |
| Draft.AsyncText | main.py:13 | the draft keyword token pushes `async` and ends at least five characters on |
| Draft.Rest | main.py:14-24 | return type, name, parameter list and body read one after the other with the shared scanners, failing when any of them fails; a match consumes text and stays inside it |
| Draft.DraftFuncAt | main.py:27-35 | a draft match is a record whose keyword field is `async` |
| Draft.ParseDraft | main.py:27-35 | a parsed record always carries the keyword `async` |
| Draft.DraftAcceptsPhase1 | main.py:13-35 | wherever phase 1 reads a function, the draft reads the same fields and ends at the same place |
| Draft.ParseDraftReads | main.py:5-35 | after leading whitespace, a function in canonical layout is read as its record |
| Draft.FirstSemicolon | main.py:43 | the first `;` at or after a position, or none when there is no `;` |
| Draft.MatchAt | main.py:43 | a match covers at least `await`, one group character and the `;`, and its group is non-empty |
| Draft.MatchAtExists | main.py:43 | the pattern matches at `m` exactly when `\bawait` is there and a `;` comes at least six characters on |
| Draft.MatchAtShape | main.py:43 | a match is `await`, whitespace, a group whose only `;` is its first character (if any), then `;` |
| Draft.RewriteFrom | main.py:43 | `re.sub` from `pos` on, in left-to-right rounds: where the pattern matches, the match is replaced by its group and `.get();` and the scan goes on after it; elsewhere one character is copied; `RewriteFromCopies` and `RewriteFromShift` state it |
| Draft.RewriteAwaits | main.py:43 | `transformed_body`: `RewriteFrom` from the start of the body; `NoAwaitUnchanged` and `OneAwaitLine` state what it gives |
| Draft.StepAt | main.py:43 | each round of the substitution advances |
| Draft.RewriteFromCopies | main.py:43 | characters where no match starts are copied as they are |
| Draft.NoAwaitUnchanged | main.py:43 | a body with no `\bawait` is unchanged by the substitution |
| Draft.RewriteFromShift | main.py:43 | the substitution from a word boundary inside a longer text gives the same result as on that suffix alone |
| Draft.RewriteStatement | main.py:43 | after text without an await, `await X;` becomes `X.get();` and the rest is rewritten on its own |
| Draft.OneAwaitLine | main.py:43 | a text with one `await X;` and no other `w` changes only in that statement |
| Draft.GenerateCode | main.py:38-48 | the generator gives a declaration exactly for a record tagged `async` |
| Draft.GenerateCodeAsPhase1 | main.py:38-47 | the draft writes the phase-1 declaration of the same function with its body rewritten |
| Draft.NoAwaitAsPhase1 | main.py:38-47 | for a body without awaits, the draft and phase 1 write the same declaration |
| Draft.DraftConverts | main.py:5-47 | reading a canonical function and generating from it gives its phase-1 declaration with the body rewritten |
| Draft.DemoBodyRewrite | main.py:55 | the demo body's `Data data = await download(url);` becomes `Data data = download(url).get();`, and everything else is kept |
| Draft.DemoGenerate | main.py:52-64 | the demo record generates the declaration of `fetchData(int q, string url)` with the rewritten body |

## Left out

- The command-line front end (aw_as_mgi.py:158-193), file reading and writing, and exit codes are not modelled. They are I/O around `convert`.
- The verbose dump of the phase-2 tree (aw_as_mgi.py:24-25) and the printing in
  `run_tests` and `main` are not modelled; they are output only. The sample pairs are proved as lemmas. `run_tests` checks
  that the expected text is contained in the output; the lemmas state the whole output.
- The parser-combinator library `peco` is not part of this model. Its combinators are modelled by the PEG semantics
  given above.
- Word characters for `\b` are ASCII `[A-Za-z0-9_]`. Python's `\w` also takes non-ASCII letters and digits.
- Neither phase can fail: `many` stops at the first round that does not match, and the remainder `[\s\S]*` takes the
  rest as a literal, so both parses are total.
- AsyncFuncs.ParsePrint, AwaitCalls.ParsePrint: the round trips are stated for printable trees only. Every parse is
  described by `ParseTiles` instead. Trees a phase produces that are not printable:
  - a layout other than the canonical one (one space between tokens, one space after `{`);
  - a final literal that holds the keyword word, such as the tree of the text `async`, of `x async y`, or of a text
    whose last `await` is not followed by an await the grammar reads;
  - a record with a `std::future<...>` return type, since only identifier return types are read back (`std::future<...>`
    is still parsed, by `Lexer.CloseAngleSpec`);
  - in phase 2, a plain await whose expression starts with the word `async`.
- Converter.AwaitingFunctionConverts: it needs the declaration head to hold no `await` word. A function or parameter
  named `await` would be rewritten by phase 2.
- `convert` is not idempotent, and the model does not claim it is. A lambda body is emitted as written, so an `await`
  inside an inline lambda survives one conversion, as in `int x = await async int(int b) { return await h(b); } (1);`.
- Draft.GenerateCode: the `str(ast_node)` fallback for a record not tagged `async` gives `None`. Python's tuple
  printing is not modelled. The draft grammar only produces records tagged `async`, so the fallback is never reached from
  a parse.
- Draft.ParseDraftReads: the demo text in `main` puts a newline before `{`, which is not the canonical layout. Its parse is not
  proved; the demo record the parse builds is written out in `DemoNode`, and its generation is proved.
- Draft.ParseDraft: `parse` reports success when a prefix matches, so the text after the closing brace is ignored, as in the source.
- The meaning of the generated C++ (threads, futures, blocking on `.get()`) is not modelled. The model is a text-to-text
  rewriter only.
- The long sample texts are written in the lemmas as concatenations of pieces split at token boundaries. They are the same strings.

## Findings

| source | as written | input that shows it | evidently intended | confidence | as-written member | corrected member |
|---|---|---|---|---|---|---|
| aw_as_mgi.py:105-106 | `generate_async_func` tells records from literals by `ast_node[0] == 'async'`. The remainder literal is the one-field group `('async',)` when the remaining text is exactly `async`, so it is unpacked as a four-field record and raises | the source text `async` | literals are copied whatever their text | not executed | AsyncFuncs.LoneAsyncKeyword | AsyncFuncs.GenerateAsyncFunc |
