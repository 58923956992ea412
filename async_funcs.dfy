/** Phase 1 of `Converter.convert`: the async-function grammar, which splits the input into
    literal text and async-function records, and the generator that turns every record
    into a `std::future` declaration whose body is a `std::async` closure. */
module AsyncFuncs {
  import opened Lexer
  import Tiling

  /** `async <returnType> <name>(<params>) { <body> }` as the grammar captures it. */
  datatype AsyncFunction = AsyncFunction(returnType: string, name: string, params: seq<Param>, body: string)

  /** One element of the phase-1 parse tree. */
  datatype Segment = Literal(text: string) | AsyncFunc(fn: AsyncFunction)

  // ---------------------------------------------------------------- grammar

  /** `async_func = seq(async_kw, return_type, func_name, params, body, to(...))` at `pos`. */
  function AsyncFuncAt(s: string, pos: nat): (r: Option<Parsed<AsyncFunction>>)
    requires pos <= |s|
    ensures r.Some? ==> pos + 5 < r.value.end <= |s|
  {
    var k :- KeywordToken(s, pos, "async");
    var rt :- ReturnTypeToken(s, k);
    var n :- IdentToken(s, rt.end);
    var ps :- ParamsAt(s, n.end);
    var b :- BodyAt(s, ps.end);
    Some(Parsed(AsyncFunction(rt.value, n.value, ps.value, b.value), b.end))
  }

  /** `many(seq(btw_async, async_func))` followed by the remainder `[\s\S]*`, from `pos`.
      Each round takes the text up to the next `async` word as a literal and then needs a
      whole async function there; the first round that fails ends the repetition, and
      everything from the start of that round on is the final literal. */
  function ParseFrom(s: string, pos: nat): (segs: seq<Segment>)
    requires pos <= |s|
    decreases |s| - pos
  {
    match NextKeyword(s, pos, "async")
    case None => [Literal(s[pos..])]
    case Some(q) =>
      match AsyncFuncAt(s, q)
      case None => [Literal(s[pos..])]
      case Some(f) => [Literal(s[pos..q]), AsyncFunc(f.value)] + ParseFrom(s, f.end)
  }

  /** `parse(source_code, self.parser_async_func).stack[0]` */
  function Parse(s: string): seq<Segment> {
    ParseFrom(s, 0)
  }

  // ---------------------------------------------------------------- reading a function back

  /** `async R N(t1 n1, t2 n2) {<ws>B}`: an async function as it is written, one space between
      the words and before the body, and `ws` after the `{`. */
  function AsyncSource(fn: AsyncFunction, ws: string): string {
    "async " + fn.returnType + " " + fn.name + ParamsSource(fn.params) + " " + BodySource(ws, fn.body)
  }

  /** A record the grammar can read back: identifier return type and name, at least one
      well-formed parameter, and a body without `}` that does not start with whitespace. */
  predicate WellFormedFunc(fn: AsyncFunction) {
    IsIdentifier(fn.returnType) && IsIdentifier(fn.name)
    && |fn.params| >= 1 && WellFormedParams(fn.params) && WellFormedBody(fn.body)
  }

  /** Where the pieces of a written function start: `r` the space before the name, `n` the
      parameter list, `p` the space before the body, `z` the end of the text. */
  predicate Positions(a: nat, fn: AsyncFunction, ws: string, r: nat, n: nat, p: nat, z: nat) {
    r == a + 5 + 1 + |fn.returnType| && n == r + 1 + |fn.name|
    && p == n + |ParamsSource(fn.params)| && z == p + 1 + |BodySource(ws, fn.body)|
  }

  /** `async R N` written from `a`, followed by `(` at `n`. */
  predicate HeadLaidOut(s: string, a: nat, rt: string, name: string, r: nat, n: nat) {
    TextAt(s, a, "async") && a + 5 < |s| && s[a + 5] == ' '
    && TextAt(s, a + 5 + 1, rt) && IsIdentifier(rt) && r == a + 5 + 1 + |rt| && r < |s| && s[r] == ' '
    && TextAt(s, r + 1, name) && IsIdentifier(name) && n == r + 1 + |name| && n < |s| && s[n] == '('
  }

  /** `(t1 n1, ...) {<ws>B}` written from `n`, the space before the body at `p`, ending at `z`. */
  predicate TailLaidOut(s: string, n: nat, ps: seq<Param>, ws: string, body: string, p: nat, z: nat) {
    TextAt(s, n, ParamsSource(ps)) && |ps| >= 1 && WellFormedParams(ps)
    && p == n + |ParamsSource(ps)| && p + 1 < |s| && s[p] == ' ' && s[p + 1] == '{'
    && TextAt(s, p + 1, BodySource(ws, body)) && IsBlank(ws) && WellFormedBody(body)
    && z == p + 1 + |BodySource(ws, body)|
  }

  /** The positions of the pieces follow from where the text starts and ends. */
  lemma {:induction false} PositionsOf(a: nat, fn: AsyncFunction, ws: string, r: nat, n: nat, p: nat, z: nat)
    requires r == a + 5 + 1 + |fn.returnType| && n == r + 1 + |fn.name| && p == n + |ParamsSource(fn.params)|
    requires z == a + |AsyncSource(fn, ws)|
    ensures Positions(a, fn, ws, r, n, p, z)
  {
  }

  /** A written function is its head `async R N` followed by its tail from `n`. */
  lemma {:induction false} AsyncSourceHalves(s: string, a: nat, fn: AsyncFunction, ws: string, n: nat)
    requires TextAt(s, a, AsyncSource(fn, ws))
    requires n == a + 5 + 1 + |fn.returnType| + 1 + |fn.name|
    ensures TextAt(s, a, "async " + fn.returnType + " " + fn.name)
    ensures TextAt(s, n, ParamsSource(fn.params) + " " + BodySource(ws, fn.body))
  {
    var head := "async " + fn.returnType + " " + fn.name;
    var tail := ParamsSource(fn.params) + " " + BodySource(ws, fn.body);
    assert AsyncSource(fn, ws) == head + tail;
    TextAtAppend(s, a, head, tail);
  }

  /** The head `async R N` of a written function, split into its words. */
  lemma {:induction false} HeadSplit(s: string, a: nat, rt: string, name: string, r: nat)
    requires TextAt(s, a, "async " + rt + " " + name) && r == a + 5 + 1 + |rt|
    ensures TextAt(s, a, "async") && s[a + 5] == ' ' && TextAt(s, a + 5 + 1, rt)
    ensures s[r] == ' ' && TextAt(s, r + 1, name)
  {
    TextAtAppend(s, a, "async " + rt + " ", name);
    TextAtAppend(s, a, "async " + rt, " ");
    TextAtAppend(s, a, "async ", rt);
    assert "async " == "async" + " ";
    TextAtAppend(s, a, "async", " ");
    TextAtChar(s, a + 5, " ", 0);
    TextAtChar(s, r, " ", 0);
  }

  /** The tail of a written function, split into the parameter list, a space and the body. */
  lemma {:induction false} TailSplit(s: string, n: nat, ps: seq<Param>, ws: string, body: string, p: nat)
    requires TextAt(s, n, ParamsSource(ps) + " " + BodySource(ws, body)) && p == n + |ParamsSource(ps)|
    ensures TextAt(s, n, ParamsSource(ps)) && s[p] == ' ' && TextAt(s, p + 1, BodySource(ws, body))
    ensures s[n] == '(' && s[p + 1] == '{'
  {
    TextAtAppend(s, n, ParamsSource(ps) + " ", BodySource(ws, body));
    TextAtAppend(s, n, ParamsSource(ps), " ");
    TextAtChar(s, p, " ", 0);
    TextAtChar(s, n, ParamsSource(ps), 0);
    TextAtChar(s, p + 1, BodySource(ws, body), 0);
  }

  /** The head of a written function, laid out word by word. */
  lemma {:induction false} AsyncSourceHead(s: string, a: nat, fn: AsyncFunction, ws: string,
                                           r: nat, n: nat, p: nat, z: nat)
    requires TextAt(s, a, AsyncSource(fn, ws)) && WellFormedFunc(fn) && Positions(a, fn, ws, r, n, p, z)
    ensures HeadLaidOut(s, a, fn.returnType, fn.name, r, n)
  {
    AsyncSourceHalves(s, a, fn, ws, n);
    HeadSplit(s, a, fn.returnType, fn.name, r);
    TailSplit(s, n, fn.params, ws, fn.body, p);
  }

  /** The tail of a written function, laid out piece by piece. */
  lemma {:induction false} AsyncSourceTail(s: string, a: nat, fn: AsyncFunction, ws: string,
                                           r: nat, n: nat, p: nat, z: nat)
    requires TextAt(s, a, AsyncSource(fn, ws)) && WellFormedFunc(fn) && IsBlank(ws)
    requires Positions(a, fn, ws, r, n, p, z)
    ensures TailLaidOut(s, n, fn.params, ws, fn.body, p, z)
  {
    AsyncSourceHalves(s, a, fn, ws, n);
    TailSplit(s, n, fn.params, ws, fn.body, p);
  }

  /** `async` followed by a space, where the whitespace ends, is the keyword token. */
  lemma {:induction false} AsyncKeywordIs(s: string, pos: nat, a: nat)
    requires pos <= |s| && SkipSpace(s, pos) == a && TextAt(s, a, "async") && a + 5 < |s| && s[a + 5] == ' '
    ensures KeywordToken(s, pos, "async") == Some(a + 5)
  {
    TextAtChar(s, a, "async", 4);
  }

  /** The return type after `async `, directly followed by a space at `r`. */
  lemma {:induction false} ReturnTypeIs(s: string, a: nat, rt: string, r: nat)
    requires a + 5 < |s| && s[a + 5] == ' ' && TextAt(s, a + 5 + 1, rt) && IsIdentifier(rt)
    requires r == a + 5 + 1 + |rt| && r < |s| && s[r] == ' '
    ensures ReturnTypeToken(s, a + 5) == Some(Parsed(rt, r))
  {
    TextAtChar(s, a + 5 + 1, rt, 0);
    OneSkip(s, a + 5);
    ReturnTypeTokenIdent(s, a + 5, a + 5 + 1, rt);
  }

  /** A name after one space, directly followed by `(` at `n`, is the name token. */
  lemma {:induction false} NameTokenIs(s: string, r: nat, name: string, n: nat)
    requires r < |s| && s[r] == ' ' && TextAt(s, r + 1, name) && IsIdentifier(name)
    requires n == r + 1 + |name| && n < |s| && s[n] == '('
    ensures IdentToken(s, r) == Some(Parsed(name, n))
  {
    TextAtChar(s, r + 1, name, 0);
    OneSkip(s, r);
    IdentAtIs(s, r + 1, name);
  }

  /** The parameter list at the start of the tail. */
  lemma {:induction false} TailParamsIs(s: string, n: nat, ps: seq<Param>, ws: string, body: string, p: nat, z: nat)
    requires TailLaidOut(s, n, ps, ws, body, p, z)
    ensures ParamsAt(s, n) == Some(Parsed(ps, p))
  {
    TextAtChar(s, n, ParamsSource(ps), 0);
    NoSkip(s, n);
    ParamsAtIs(s, n, n, ps, p);
  }

  /** The body after the parameter list and one space. */
  lemma {:induction false} TailBodyIs(s: string, n: nat, ps: seq<Param>, ws: string, body: string, p: nat, z: nat)
    requires TailLaidOut(s, n, ps, ws, body, p, z)
    ensures BodyAt(s, p) == Some(Parsed(body, z))
  {
    OneSkip(s, p);
    BodyAtIs(s, p, p + 1, ws, body);
  }

  /** The keyword of a written function. */
  lemma {:induction false} KeywordFromSource(s: string, pos: nat, a: nat, fn: AsyncFunction, ws: string,
                                             r: nat, n: nat, p: nat, z: nat)
    requires pos <= |s| && SkipSpace(s, pos) == a
    requires TextAt(s, a, AsyncSource(fn, ws)) && WellFormedFunc(fn) && Positions(a, fn, ws, r, n, p, z)
    ensures KeywordToken(s, pos, "async") == Some(a + 5)
  {
    AsyncSourceHead(s, a, fn, ws, r, n, p, z);
    AsyncKeywordIs(s, pos, a);
  }

  /** The return type of a written function. */
  lemma {:induction false} ReturnTypeFromSource(s: string, a: nat, fn: AsyncFunction, ws: string,
                                                r: nat, n: nat, p: nat, z: nat)
    requires TextAt(s, a, AsyncSource(fn, ws)) && WellFormedFunc(fn) && Positions(a, fn, ws, r, n, p, z)
    ensures ReturnTypeToken(s, a + 5) == Some(Parsed(fn.returnType, r))
  {
    AsyncSourceHead(s, a, fn, ws, r, n, p, z);
    ReturnTypeIs(s, a, fn.returnType, r);
  }

  /** The name of a written function. */
  lemma {:induction false} NameFromSource(s: string, a: nat, fn: AsyncFunction, ws: string,
                                          r: nat, n: nat, p: nat, z: nat)
    requires TextAt(s, a, AsyncSource(fn, ws)) && WellFormedFunc(fn) && Positions(a, fn, ws, r, n, p, z)
    ensures IdentToken(s, r) == Some(Parsed(fn.name, n))
  {
    AsyncSourceHead(s, a, fn, ws, r, n, p, z);
    NameTokenIs(s, r, fn.name, n);
  }

  /** The parameter list of a written function. */
  lemma {:induction false} ParamsFromSource(s: string, a: nat, fn: AsyncFunction, ws: string,
                                            r: nat, n: nat, p: nat, z: nat)
    requires TextAt(s, a, AsyncSource(fn, ws)) && WellFormedFunc(fn) && IsBlank(ws)
    requires Positions(a, fn, ws, r, n, p, z)
    ensures ParamsAt(s, n) == Some(Parsed(fn.params, p))
  {
    AsyncSourceTail(s, a, fn, ws, r, n, p, z);
    TailParamsIs(s, n, fn.params, ws, fn.body, p, z);
  }

  /** The body of a written function, which ends where its text ends. */
  lemma {:induction false} BodyFromSource(s: string, a: nat, fn: AsyncFunction, ws: string,
                                          r: nat, n: nat, p: nat, z: nat)
    requires TextAt(s, a, AsyncSource(fn, ws)) && WellFormedFunc(fn) && IsBlank(ws)
    requires Positions(a, fn, ws, r, n, p, z)
    ensures BodyAt(s, p) == Some(Parsed(fn.body, z))
  {
    AsyncSourceTail(s, a, fn, ws, r, n, p, z);
    TailBodyIs(s, n, fn.params, ws, fn.body, p, z);
  }

  /** `async_func` is the keyword, the return type, the name, the parameters and the body. */
  lemma {:induction false} AsyncFuncAtStep(s: string, pos: nat, k: nat, r: nat, n: nat, p: nat, z: nat,
                                           fn: AsyncFunction)
    requires pos <= |s| && KeywordToken(s, pos, "async") == Some(k)
    requires ReturnTypeToken(s, k) == Some(Parsed(fn.returnType, r))
    requires IdentToken(s, r) == Some(Parsed(fn.name, n))
    requires ParamsAt(s, n) == Some(Parsed(fn.params, p))
    requires BodyAt(s, p) == Some(Parsed(fn.body, z))
    ensures AsyncFuncAt(s, pos) == Some(Parsed(fn, z))
  {
  }

  /** An async function written where the whitespace ends is read back as itself, and the
      grammar consumes exactly its text, up to `z`. */
  lemma {:induction false} AsyncFuncAtIs(s: string, pos: nat, a: nat, fn: AsyncFunction, ws: string, z: nat)
    requires pos <= |s| && SkipSpace(s, pos) == a
    requires TextAt(s, a, AsyncSource(fn, ws)) && WellFormedFunc(fn) && IsBlank(ws)
    requires z == a + |AsyncSource(fn, ws)|
    ensures AsyncFuncAt(s, pos) == Some(Parsed(fn, z))
  {
    var r := a + 5 + 1 + |fn.returnType|;
    var n := r + 1 + |fn.name|;
    var p := n + |ParamsSource(fn.params)|;
    PositionsOf(a, fn, ws, r, n, p, z);
    KeywordFromSource(s, pos, a, fn, ws, r, n, p, z);
    ReturnTypeFromSource(s, a, fn, ws, r, n, p, z);
    NameFromSource(s, a, fn, ws, r, n, p, z);
    ParamsFromSource(s, a, fn, ws, r, n, p, z);
    BodyFromSource(s, a, fn, ws, r, n, p, z);
    AsyncFuncAtStep(s, pos, a + 5, r, n, p, z, fn);
  }

  // ---------------------------------------------------------------- reading a whole text back

  /** A segment as it is written, every function with one space after its `{`. */
  function PrintSegment(seg: Segment): string {
    match seg
    case Literal(text) => text
    case AsyncFunc(fn) => AsyncSource(fn, " ")
  }

  /** The text a parse tree is read from: its segments written one after the other. */
  function Print(ast: seq<Segment>): string
    decreases |ast|
  {
    if ast == [] then "" else PrintSegment(ast[0]) + Print(ast[1..])
  }

  /** A literal before a function: no `async` word, and no word character at its end that
      would glue onto the keyword after it. */
  predicate LeadingLiteral(text: string) {
    NoKeyword(text, "async") && (text == [] || !IsIdentChar(text[|text| - 1]))
  }

  /** The trees phase 1 reads back from their canonical written form: literals and
      well-formed functions in turn, starting and ending with a literal, none of the literals
      holding an `async` word. */
  predicate Printable(ast: seq<Segment>)
    decreases |ast|
  {
    if |ast| == 1 then ast[0].Literal? && NoKeyword(ast[0].text, "async")
    else
      |ast| >= 3 && ast[0].Literal? && ast[1].AsyncFunc?
      && LeadingLiteral(ast[0].text) && WellFormedFunc(ast[1].fn) && Printable(ast[2..])
  }

  /** The written text of a tree with two or more segments, split into its first literal,
      its first function (from `q`) and the rest (from `z`). */
  lemma {:induction false} PrintSplit(s: string, pos: nat, ast: seq<Segment>, q: nat, z: nat)
    requires |ast| >= 3 && ast[0].Literal? && ast[1].AsyncFunc? && TextAt(s, pos, Print(ast))
    requires q == pos + |ast[0].text| && z == q + |AsyncSource(ast[1].fn, " ")|
    ensures TextAt(s, pos, ast[0].text) && TextAt(s, q, AsyncSource(ast[1].fn, " "))
    ensures TextAt(s, z, Print(ast[2..]))
    ensures z + |Print(ast[2..])| == pos + |Print(ast)|
  {
    assert ast[1..][0] == ast[1] && ast[1..][1..] == ast[2..];
    assert Print(ast) == ast[0].text + (AsyncSource(ast[1].fn, " ") + Print(ast[2..]));
    TextAtAppend(s, pos, ast[0].text, AsyncSource(ast[1].fn, " ") + Print(ast[2..]));
    TextAtAppend(s, q, AsyncSource(ast[1].fn, " "), Print(ast[2..]));
  }

  /** A written function starts with the whole word `async` when no word character is
      right before it. */
  lemma {:induction false} FunctionKeyword(s: string, q: nat, fn: AsyncFunction)
    requires TextAt(s, q, AsyncSource(fn, " ")) && (q == 0 || !IsIdentChar(s[q - 1]))
    ensures KeywordAt(s, q, "async")
  {
    AsyncSourceHalves(s, q, fn, " ", q + 5 + 1 + |fn.returnType| + 1 + |fn.name|);
    HeadSplit(s, q, fn.returnType, fn.name, q + 5 + 1 + |fn.returnType|);
    TextAtChar(s, q, "async", 0);
    TextAtChar(s, q, "async", 4);
  }

  /** The first `async` word from `pos` is where the first function of a written tree starts. */
  lemma {:induction false} FirstKeywordIs(s: string, pos: nat, text: string, q: nat, fn: AsyncFunction)
    requires TextAt(s, pos, text) && LeadingLiteral(text) && q == pos + |text|
    requires pos == 0 || !IsIdentChar(s[pos - 1])
    requires TextAt(s, q, AsyncSource(fn, " "))
    ensures NextKeyword(s, pos, "async") == Some(q)
  {
    KeywordsAreWords();
    if text != [] {
      TextAtChar(s, pos, text, |text| - 1);
    }
    FunctionKeyword(s, q, fn);
    NextKeywordAfter(s, pos, text, q, "async");
  }

  /** A function's text ends with the `}` of its body. */
  lemma {:induction false} FunctionEndsInBrace(s: string, q: nat, fn: AsyncFunction, z: nat)
    requires TextAt(s, q, AsyncSource(fn, " ")) && z == q + |AsyncSource(fn, " ")|
    ensures 0 < z <= |s| && !IsIdentChar(s[z - 1])
  {
    TextAtChar(s, q, AsyncSource(fn, " "), |AsyncSource(fn, " ")| - 1);
  }

  /** One round of `many(seq(btw_async, async_func))` that finds a whole function. */
  lemma {:induction false} ParseFromStep(s: string, pos: nat, q: nat, fn: AsyncFunction, z: nat,
                                         rest: seq<Segment>)
    requires pos <= |s| && NextKeyword(s, pos, "async") == Some(q)
    requires AsyncFuncAt(s, q) == Some(Parsed(fn, z)) && ParseFrom(s, z) == rest
    ensures ParseFrom(s, pos) == [Literal(s[pos..q]), AsyncFunc(fn)] + rest
  {
  }

  /** A tree of two or more segments is its first literal, its first function and the rest. */
  lemma {:induction false} TreeShape(s: string, pos: nat, q: nat, ast: seq<Segment>)
    requires |ast| >= 3 && ast[0].Literal? && ast[1].AsyncFunc?
    requires TextAt(s, pos, ast[0].text) && q == pos + |ast[0].text|
    ensures q <= |s| && [Literal(s[pos..q]), AsyncFunc(ast[1].fn)] + ast[2..] == ast
  {
    TextAtSlice(s, pos, ast[0].text);
    assert ast == [ast[0], ast[1]] + ast[2..];
  }

  /** A function of the tree, written at `q`, is read back with its text. */
  lemma {:induction false} FunctionRead(s: string, q: nat, fn: AsyncFunction, z: nat)
    requires TextAt(s, q, AsyncSource(fn, " ")) && WellFormedFunc(fn) && z == q + |AsyncSource(fn, " ")|
    ensures AsyncFuncAt(s, q) == Some(Parsed(fn, z))
  {
    TextAtChar(s, q, AsyncSource(fn, " "), 0);
    NoSkip(s, q);
    OneSpaceIsBlank();
    AsyncFuncAtIs(s, q, q, fn, " ", z);
  }

  /** Phase 1 reads a written tree back, from any position where its text runs to the end. */
  lemma {:induction false} ParseFromPrint(s: string, pos: nat, ast: seq<Segment>)
    requires Printable(ast) && TextAt(s, pos, Print(ast)) && pos + |Print(ast)| == |s|
    requires pos == 0 || !IsIdentChar(s[pos - 1])
    ensures ParseFrom(s, pos) == ast
    decreases |ast|
  {
    if |ast| == 1 {
      ParseFromLast(s, pos, ast);
    } else {
      var q := pos + |ast[0].text|;
      var z := q + |AsyncSource(ast[1].fn, " ")|;
      PrintSplit(s, pos, ast, q, z);
      FirstKeywordIs(s, pos, ast[0].text, q, ast[1].fn);
      FunctionRead(s, q, ast[1].fn, z);
      FunctionEndsInBrace(s, q, ast[1].fn, z);
      ParseFromPrint(s, z, ast[2..]);
      ParseFromStep(s, pos, q, ast[1].fn, z, ast[2..]);
      TreeShape(s, pos, q, ast);
    }
  }

  /** The final literal of a written tree is read back as the remainder. */
  lemma {:induction false} ParseFromLast(s: string, pos: nat, ast: seq<Segment>)
    requires |ast| == 1 && Printable(ast) && TextAt(s, pos, Print(ast)) && pos + |Print(ast)| == |s|
    requires pos == 0 || !IsIdentChar(s[pos - 1])
    ensures ParseFrom(s, pos) == ast
  {
    assert Print(ast) == ast[0].text + Print([]);
    assert Print(ast) == ast[0].text;
    KeywordsAreWords();
    NoKeywordToEnd(s, pos, ast[0].text, "async");
    TextAtSlice(s, pos, ast[0].text);
    assert s[pos..] == s[pos..pos + |ast[0].text|];
    assert ast == [Literal(ast[0].text)];
  }

  /** Phase 1 reads a tree back from its own text: parsing the written form gives the tree. */
  lemma {:induction false} ParsePrint(ast: seq<Segment>)
    requires Printable(ast)
    ensures Parse(Print(ast)) == ast
  {
    TextAtSlice(Print(ast), 0, Print(ast));
    ParseFromPrint(Print(ast), 0, ast);
  }

  // ---------------------------------------------------------------- what any parse is made of

  function LiteralOf(text: string): Segment {
    Literal(text)
  }

  /** The function grammar at any position of any text, as a record of the parse tree. */
  function FunctionSegmentAt(s: string, pos: nat): Option<Parsed<Segment>> {
    if pos > |s| then None
    else
      match AsyncFuncAt(s, pos)
      case None => None
      case Some(f) => Some(Parsed(AsyncFunc(f.value), f.end))
  }

  /** Where the segments of `ParseFrom(s, pos)` begin and end: `pos`, then the start and the
      end of each function in turn, and finally the end of the text. */
  function Bounds(s: string, pos: nat): seq<nat>
    requires pos <= |s|
    decreases |s| - pos
  {
    match NextKeyword(s, pos, "async")
    case None => [pos, |s|]
    case Some(q) =>
      match AsyncFuncAt(s, q)
      case None => [pos, |s|]
      case Some(f) => [pos, q] + Bounds(s, f.end)
  }

  /** Every segment at an odd place is the function the grammar reads between its positions. */
  predicate FunctionsAt(s: string, segs: seq<Segment>, b: seq<nat>)
    requires |b| == |segs| + 1
  {
    forall i :: 0 <= i < |segs| && i % 2 == 1 ==>
      segs[i].AsyncFunc? && b[i] <= |s| && AsyncFuncAt(s, b[i]) == Some(Parsed(segs[i].fn, b[i + 1]))
  }

  /** `segs` cuts `s` at the positions `b`: literals and functions in turn, starting and ending
      with a literal; each literal but the last is the text up to the next `async` word, each
      function is what the function grammar reads there, and the last literal is the rest of
      the text, where the repetition stops. */
  predicate Tiles(s: string, segs: seq<Segment>, b: seq<nat>) {
    Tiling.Cut(s, segs, b, "async", LiteralOf) && FunctionsAt(s, segs, b)
    && Tiling.Stops(s, b[|segs| - 1], "async", FunctionSegmentAt)
  }

  /** Phase 1 cuts the text from `pos` on as the repetition and the remainder do. */
  lemma {:induction false} ParseFromTiled(s: string, pos: nat)
    requires pos <= |s|
    ensures Tiling.Tiled(s, ParseFrom(s, pos), Bounds(s, pos), "async", LiteralOf, FunctionSegmentAt)
    ensures Bounds(s, pos)[0] == pos
    decreases |s| - pos
  {
    match NextKeyword(s, pos, "async")
    case None =>
      Tiling.TiledEnd(s, pos, "async", LiteralOf, FunctionSegmentAt);
    case Some(q) =>
      match AsyncFuncAt(s, q)
      case None =>
        Tiling.TiledEnd(s, pos, "async", LiteralOf, FunctionSegmentAt);
      case Some(f) =>
        ParseFromTiled(s, f.end);
        Tiling.TiledCons(s, pos, q, AsyncFunc(f.value), f.end, "async", LiteralOf, FunctionSegmentAt,
                         ParseFrom(s, f.end), Bounds(s, f.end), ParseFrom(s, pos), Bounds(s, pos));
  }

  /** Phase 1 cuts every text into literals and functions, each literal the text up to the
      next `async` word and each function the text the function grammar reads there, and the
      pieces make up the whole text, in order. */
  lemma {:induction false} ParseTiles(s: string)
    ensures Tiles(s, Parse(s), Bounds(s, 0)) && Bounds(s, 0)[0] == 0
    ensures Tiling.Spanned(s, Bounds(s, 0)) == s
  {
    ParseFromTiled(s, 0);
    TiledTiles(s, Parse(s), Bounds(s, 0));
    Tiling.TiledCovers(s, Parse(s), Bounds(s, 0), "async", LiteralOf);
    assert s[0..] == s;
  }

  /** A tiling by the function grammar, with each function read stated at its own place. */
  lemma {:induction false} TiledTiles(s: string, segs: seq<Segment>, b: seq<nat>)
    requires Tiling.Tiled(s, segs, b, "async", LiteralOf, FunctionSegmentAt)
    ensures Tiles(s, segs, b)
  {
    forall i | 0 <= i < |segs| && i % 2 == 1
      ensures segs[i].AsyncFunc? && b[i] <= |s| && AsyncFuncAt(s, b[i]) == Some(Parsed(segs[i].fn, b[i + 1]))
    {
      Tiling.RecordAt(s, segs, b, FunctionSegmentAt, i);
    }
  }

  // ---------------------------------------------------------------- generator

  /** `[=](){ <body> }`: the value-capturing closure around a body, on lines of its own. */
  function LambdaBody(body: string): string {
    "[=](){\n" + body + "\n}"
  }

  /** The declaration that replaces one async function: its head, then its body. */
  function RenderFunc(fn: AsyncFunction): string {
    DeclarationHead(fn) + DeclarationBody(fn)
  }

  /** `std::future<R> N(t1 n1, t2 n2) `: the future type, the name and the joined parameters. */
  function DeclarationHead(fn: AsyncFunction): string {
    "std::future<" + fn.returnType + "> " + fn.name + "(" + JoinParams(fn.params) + ") "
  }

  /** `{ return std::async([=](){\nB\n}); }` and the newline after the declaration. */
  function DeclarationBody(fn: AsyncFunction): string {
    "{ return std::async(" + LambdaBody(fn.body) + "); }\n"
  }

  function RenderSegment(seg: Segment): string {
    match seg
    case Literal(text) => text
    case AsyncFunc(fn) => RenderFunc(fn)
  }

  /** The text `generate_async_func` builds: every segment rendered, in order. */
  function Render(ast: seq<Segment>): string
    decreases |ast|
  {
    if ast == [] then "" else RenderSegment(ast[0]) + Render(ast[1..])
  }

  /** `generate_async_func`: one pass over the parse tree that appends each literal as it is
      and each record as its `std::future` declaration. */
  method GenerateAsyncFunc(ast: seq<Segment>) returns (code: string)
    ensures code == Render(ast)
  {
    code := "";
    for i := 0 to |ast|
      invariant code == Render(ast[..i])
    {
      var piece: string;
      match ast[i] {
        case AsyncFunc(fn) =>
          var paramStr := JoinParams(fn.params);
          var lambdaBody := LambdaBody(fn.body);
          piece := "std::future<" + fn.returnType + "> " + fn.name + "(" + paramStr + ") "
                   + "{ return std::async(" + lambdaBody + "); }\n";
        case Literal(text) =>
          piece := text;
      }
      assert piece == RenderSegment(ast[i]);
      RenderPrefixStep(ast, i);
      code := code + piece;
    }
    assert ast[..|ast|] == ast;
  }

  // ---------------------------------------------------------------- properties

  /** Rendering distributes over concatenation of parse trees. */
  lemma {:induction false} RenderConcat(a: seq<Segment>, b: seq<Segment>)
    ensures Render(a + b) == Render(a) + Render(b)
    decreases |a|
  {
    if a == [] {
      assert a + b == b;
    } else {
      assert (a + b)[0] == a[0] && (a + b)[1..] == a[1..] + b;
      RenderConcat(a[1..], b);
      AppendAssoc(RenderSegment(a[0]), Render(a[1..]), Render(b));
    }
  }

  /** Appending one segment appends its rendering. */
  lemma {:induction false} RenderSnoc(a: seq<Segment>, seg: Segment)
    ensures Render(a + [seg]) == Render(a) + RenderSegment(seg)
  {
    RenderConcat(a, [seg]);
    assert [seg][1..] == [];
  }

  /** The rendering of a longer prefix adds the rendering of the next segment. */
  lemma {:induction false} RenderPrefixStep(ast: seq<Segment>, i: nat)
    requires i < |ast|
    ensures Render(ast[..i + 1]) == Render(ast[..i]) + RenderSegment(ast[i])
  {
    RenderSnoc(ast[..i], ast[i]);
    assert ast[..i + 1] == ast[..i] + [ast[i]];
  }

  /** Text without an `async` word is one literal, and phase 1 gives it back unchanged. */
  lemma {:induction false} NoAsyncUnchanged(s: string)
    requires NoKeyword(s, "async")
    ensures Parse(s) == [Literal(s)]
    ensures Render(Parse(s)) == s
  {
    NextKeywordSpec(s, 0, "async");
    assert s[0..] == s;
    assert Render([Literal(s)]) == s + Render([]);
  }

  // ---------------------------------------------------------------- dispatch on the first field

  /** The first field of the tuple a segment is in the parse tree: the text of a literal
      group, and the tag `'async'` of a function record. */
  function HeadField(seg: Segment): string {
    match seg
    case Literal(text) => text
    case AsyncFunc(_) => "async"
  }

  /** One round of `generate_async_func` as written: a node whose first field is `'async'` is
      unpacked as a record, which fails (`None`) for the one-field group of a literal whose
      text is `async`; any other node contributes its first field. */
  function RenderNodeAsWritten(seg: Segment): (r: Option<string>)
    ensures r.None? <==> seg == Literal("async")
    ensures r.Some? ==> r.value == RenderSegment(seg)
  {
    if HeadField(seg) == "async" then
      match seg
      case AsyncFunc(fn) => Some(RenderFunc(fn))
      case Literal(_) => None
    else Some(HeadField(seg))
  }

  /** `generate_async_func` as written, over the whole tree; `None` when a round fails. */
  function RenderAsWritten(ast: seq<Segment>): Option<string>
    decreases |ast|
  {
    if ast == [] then Some("")
    else
      var head :- RenderNodeAsWritten(ast[0]);
      var tail :- RenderAsWritten(ast[1..]);
      Some(head + tail)
  }

  /** The generator as written fails exactly on trees with a literal `async`, and elsewhere
      produces the rendering. */
  lemma {:induction false} RenderAsWrittenFails(ast: seq<Segment>)
    ensures RenderAsWritten(ast).None? <==> Literal("async") in ast
    ensures RenderAsWritten(ast).Some? ==> RenderAsWritten(ast).value == Render(ast)
    decreases |ast|
  {
    if ast != [] {
      RenderAsWrittenFails(ast[1..]);
      assert ast == [ast[0]] + ast[1..];
    }
  }

  /** The text `async` on its own: the scan finds the word, no function follows, and the
      whole text is the remainder literal, whose group the generator as written unpacks as
      a record; the rendering the model uses gives the text back. */
  lemma {:induction false} LoneAsyncKeyword()
    ensures Parse("async") == [Literal("async")]
    ensures RenderAsWritten(Parse("async")) == None
    ensures Render(Parse("async")) == "async"
  {
    var s := "async";
    assert KeywordAt(s, 0, "async");
    assert NextKeyword(s, 0, "async") == Some(0);
    assert KeywordToken(s, 0, "async") == Some(5);
    assert SkipSpace(s, 5) == 5;
    assert ReturnTypeToken(s, 5) == None;
    assert AsyncFuncAt(s, 0) == None;
    assert s[0..] == s;
    assert Render([Literal(s)]) == s + Render([]);
  }
}
