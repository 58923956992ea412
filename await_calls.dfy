/** Phase 2 of `Converter.convert`: the await grammar, run over the output of phase 1, which
    splits it into literal text, plain awaits and inline `await async` lambdas, and the
    generator that turns every await into a blocking `.get()` on a future. */
module AwaitCalls {
  import opened Lexer
  import Tiling
  import AsyncFuncs

  /** One element of the phase-2 parse tree: literal text, `await <expr>)` with the
      expression as captured (without the `)`), or `await async R(params) {body} (args)`. */
  datatype Segment =
    | Literal(text: string)
    | PlainAwait(expr: string)
    | AwaitLambda(returnType: string, params: seq<Param>, body: string, args: seq<string>)

  // ---------------------------------------------------------------- grammar

  /** `tok(r'[^,()]+')`: one call argument, the longest non-empty run without `,`, `(`, `)`. */
  function ArgAt(s: string, pos: nat): (r: Option<Parsed<string>>)
    requires pos <= |s|
    ensures r.Some? ==> pos < r.value.end <= |s|
  {
    RunToken(s, pos, ",()", true)
  }

  /** `seq(skip(','), tok(r'[^,()]+'))`: one round of the repetition below. */
  function CommaArg(s: string, pos: nat): (r: Option<Parsed<string>>)
    requires pos <= |s|
    ensures r.Some? ==> pos < r.value.end <= |s|
  {
    var c :- Punct(s, pos, ',');
    ArgAt(s, c)
  }

  /** The repetition of `, <arg>` inside `list_of`; it stops at the first round that fails. */
  function MoreArgs(s: string, pos: nat): (r: Parsed<seq<string>>)
    requires pos <= |s|
    ensures pos <= r.end <= |s|
    decreases |s| - pos
  {
    match CommaArg(s, pos)
    case None => Parsed([], pos)
    case Some(a) =>
      var rest := MoreArgs(s, a.end);
      Parsed([a.value] + rest.value, rest.end)
  }

  /** `list_of(tok(r'[^,()]+'), skip(','))`: one argument, then `MoreArgs`. */
  function ArgListAt(s: string, pos: nat): (r: Option<Parsed<seq<string>>>)
    requires pos <= |s|
    ensures r.Some? ==> pos < r.value.end <= |s| && |r.value.value| >= 1
  {
    match ArgAt(s, pos)
    case None => None
    case Some(first) =>
      var rest := MoreArgs(s, first.end);
      Some(Parsed([first.value] + rest.value, rest.end))
  }

  /** `args = seq(skip('\('), group(list_of(...)), skip('\)'))`: at least one argument,
      comma separated, in parentheses. */
  function ArgsAt(s: string, pos: nat): (r: Option<Parsed<seq<string>>>)
    requires pos <= |s|
    ensures r.Some? ==> pos < r.value.end <= |s|
  {
    var o :- Punct(s, pos, '(');
    var args :- ArgListAt(s, o);
    var c :- Punct(s, args.end, ')');
    Some(Parsed(args.value, c))
  }

  /** `await_async_lambda = seq(await_kw, async_kw, return_type, params, body, args, to(...))` */
  function AwaitLambdaAt(s: string, pos: nat): (r: Option<Parsed<Segment>>)
    requires pos <= |s|
    ensures r.Some? ==> pos < r.value.end <= |s| && r.value.value.AwaitLambda?
  {
    var k :- KeywordToken(s, pos, "await");
    var a :- KeywordToken(s, k, "async");
    var rt :- ReturnTypeToken(s, a);
    var ps :- ParamsAt(s, rt.end);
    var b :- BodyAt(s, ps.end);
    var args :- ArgsAt(s, b.end);
    Some(Parsed(AwaitLambda(rt.value, ps.value, b.value, args.value), args.end))
  }

  /** `await_expr = seq(await_kw, tok(r'[^)]+'), skip('\)'), to(...))` */
  function PlainAwaitAt(s: string, pos: nat): (r: Option<Parsed<Segment>>)
    requires pos <= |s|
    ensures r.Some? ==> pos < r.value.end <= |s| && r.value.value.PlainAwait?
  {
    var k :- KeywordToken(s, pos, "await");
    var e :- RunToken(s, k, ")", true);
    var c :- Punct(s, e.end, ')');
    Some(Parsed(PlainAwait(e.value), c))
  }

  /** `alt(await_async_lambda, await_expr)`: the lambda form is tried first. */
  function AwaitAt(s: string, pos: nat): (r: Option<Parsed<Segment>>)
    requires pos <= |s|
    ensures r.Some? ==> pos < r.value.end <= |s| && !r.value.value.Literal?
  {
    match AwaitLambdaAt(s, pos)
    case Some(l) => Some(l)
    case None => PlainAwaitAt(s, pos)
  }

  /** `many(seq(btw_await, alt(...)))` followed by the remainder `[\s\S]*`, from `pos`. */
  function ParseFrom(s: string, pos: nat): (segs: seq<Segment>)
    requires pos <= |s|
    ensures |segs| >= 1
    decreases |s| - pos
  {
    match NextKeyword(s, pos, "await")
    case None => [Literal(s[pos..])]
    case Some(q) =>
      match AwaitAt(s, q)
      case None => [Literal(s[pos..])]
      case Some(w) => [Literal(s[pos..q]), w.value] + ParseFrom(s, w.end)
  }

  /** `parse(flat_code, self.parser_await_call).stack[0]` */
  function Parse(s: string): seq<Segment> {
    ParseFrom(s, 0)
  }

  // ---------------------------------------------------------------- what any parse is made of

  function LiteralOf(text: string): Segment {
    Literal(text)
  }

  /** The await grammar at any position of any text. */
  function AwaitSegmentAt(s: string, pos: nat): Option<Parsed<Segment>> {
    if pos > |s| then None else AwaitAt(s, pos)
  }

  /** Where the segments of `ParseFrom(s, pos)` begin and end: `pos`, then the start and the
      end of each await in turn, and finally the end of the text. */
  function Bounds(s: string, pos: nat): seq<nat>
    requires pos <= |s|
    decreases |s| - pos
  {
    match NextKeyword(s, pos, "await")
    case None => [pos, |s|]
    case Some(q) =>
      match AwaitAt(s, q)
      case None => [pos, |s|]
      case Some(w) => [pos, q] + Bounds(s, w.end)
  }

  /** Every segment at an odd place is the await the grammar reads between its positions. */
  predicate AwaitsAt(s: string, segs: seq<Segment>, b: seq<nat>)
    requires |b| == |segs| + 1
  {
    forall i :: 0 <= i < |segs| && i % 2 == 1 ==>
      !segs[i].Literal? && b[i] <= |s| && AwaitAt(s, b[i]) == Some(Parsed(segs[i], b[i + 1]))
  }

  /** `segs` cuts `s` at the positions `b`: literals and awaits in turn, starting and ending
      with a literal; each literal but the last is the text up to the next `await` word, each
      await is what the await grammar reads there, and the last literal is the rest of the
      text, where the repetition stops. */
  predicate Tiles(s: string, segs: seq<Segment>, b: seq<nat>) {
    Tiling.Cut(s, segs, b, "await", LiteralOf) && AwaitsAt(s, segs, b)
    && Tiling.Stops(s, b[|segs| - 1], "await", AwaitSegmentAt)
  }

  /** Phase 2 cuts the text from `pos` on as the repetition and the remainder do. */
  lemma {:induction false} ParseFromTiled(s: string, pos: nat)
    requires pos <= |s|
    ensures Tiling.Tiled(s, ParseFrom(s, pos), Bounds(s, pos), "await", LiteralOf, AwaitSegmentAt)
    ensures Bounds(s, pos)[0] == pos
    decreases |s| - pos
  {
    match NextKeyword(s, pos, "await")
    case None =>
      Tiling.TiledEnd(s, pos, "await", LiteralOf, AwaitSegmentAt);
    case Some(q) =>
      match AwaitAt(s, q)
      case None =>
        Tiling.TiledEnd(s, pos, "await", LiteralOf, AwaitSegmentAt);
      case Some(w) =>
        ParseFromTiled(s, w.end);
        Tiling.TiledCons(s, pos, q, w.value, w.end, "await", LiteralOf, AwaitSegmentAt,
                         ParseFrom(s, w.end), Bounds(s, w.end), ParseFrom(s, pos), Bounds(s, pos));
  }

  /** A tiling by the await grammar, with each await read stated at its own place. */
  lemma {:induction false} TiledTiles(s: string, segs: seq<Segment>, b: seq<nat>)
    requires Tiling.Tiled(s, segs, b, "await", LiteralOf, AwaitSegmentAt)
    ensures Tiles(s, segs, b)
  {
    forall i | 0 <= i < |segs| && i % 2 == 1
      ensures !segs[i].Literal? && b[i] <= |s| && AwaitAt(s, b[i]) == Some(Parsed(segs[i], b[i + 1]))
    {
      Tiling.RecordAt(s, segs, b, AwaitSegmentAt, i);
    }
  }

  /** Phase 2 cuts every text into literals and awaits, each literal the text up to the next
      `await` word and each await the text the await grammar reads there, and the pieces make
      up the whole text, in order. */
  lemma {:induction false} ParseTiles(s: string)
    ensures Tiles(s, Parse(s), Bounds(s, 0)) && Bounds(s, 0)[0] == 0
    ensures Tiling.Spanned(s, Bounds(s, 0)) == s
  {
    ParseFromTiled(s, 0);
    TiledTiles(s, Parse(s), Bounds(s, 0));
    Tiling.TiledCovers(s, Parse(s), Bounds(s, 0), "await", LiteralOf);
    assert s[0..] == s;
  }

  // ---------------------------------------------------------------- generator

  function RenderSegment(seg: Segment): string {
    match seg
    case Literal(text) => text
    case PlainAwait(expr) => expr + ").get()"
    case AwaitLambda(_, params, body, args) =>
      "(std::async([](" + JoinParams(params) + ")" + AsyncFuncs.LambdaBody(body)
      + "(" + Join(args, ", ") + ")).get()"
  }

  /** The text `generate_await_calls` builds: every segment rendered, in order. */
  function Render(ast: seq<Segment>): string
    decreases |ast|
  {
    if ast == [] then "" else RenderSegment(ast[0]) + Render(ast[1..])
  }

  /** `generate_await_calls`: one pass over the parse tree that appends each literal as it is,
      each plain await as its expression and `).get()`, and each lambda as a `std::async`
      call on the closure with the captured arguments, whose future is waited for. */
  method GenerateAwaitCalls(ast: seq<Segment>) returns (code: string)
    ensures code == Render(ast)
  {
    code := "";
    for i := 0 to |ast|
      invariant code == Render(ast[..i])
    {
      var piece: string;
      match ast[i] {
        case Literal(text) =>
          piece := text;
        case AwaitLambda(_, params, body, args) =>
          var paramStr := JoinParams(params);
          var argStr := Join(args, ", ");
          var lambdaBody := AsyncFuncs.LambdaBody(body);
          piece := "(std::async([](" + paramStr + ")" + lambdaBody + "(" + argStr + ")).get()";
        case PlainAwait(expr) =>
          piece := expr + ").get()";
      }
      assert piece == RenderSegment(ast[i]);
      RenderPrefixStep(ast, i);
      code := code + piece;
    }
    assert ast[..|ast|] == ast;
  }

  /** Rendering distributes over concatenation of parse trees. */
  lemma {:induction false} RenderConcat(a: seq<Segment>, b: seq<Segment>)
    ensures Render(a + b) == Render(a) + Render(b)
    decreases |a|
  {
    if a == [] {
      assert a + b == b;
    } else {
      assert (a + b)[0] == a[0] && (a + b)[1..] == a[1..] + b;
      RenderConcat(a[1..], b);
      AppendAssoc(RenderSegment(a[0]), Render(a[1..]), Render(b));
    }
  }

  /** The rendering of a longer prefix adds the rendering of the next segment. */
  lemma {:induction false} RenderPrefixStep(ast: seq<Segment>, i: nat)
    requires i < |ast|
    ensures Render(ast[..i + 1]) == Render(ast[..i]) + RenderSegment(ast[i])
  {
    RenderConcat(ast[..i], [ast[i]]);
    assert [ast[i]][1..] == [];
    assert ast[..i + 1] == ast[..i] + [ast[i]];
  }

  /** Text without an `await` word is one literal, and phase 2 gives it back unchanged. */
  lemma {:induction false} NoAwaitUnchanged(s: string)
    requires NoKeyword(s, "await")
    ensures Parse(s) == [Literal(s)]
    ensures Render(Parse(s)) == s
  {
    NextKeywordSpec(s, 0, "await");
    assert s[0..] == s;
    assert Render([Literal(s)]) == s + Render([]);
  }

  // ---------------------------------------------------------------- dispatch on the first field

  /** The first field of the node a segment is in the parse tree: the text of a literal
      group, and the tags `'await'` and `'await async'` of the records. */
  function HeadField(seg: Segment): string {
    match seg
    case Literal(text) => text
    case PlainAwait(_) => "await"
    case AwaitLambda(_, _, _, _) => "await async"
  }

  /** One round of `generate_await_calls` as written: the remainder is a plain string and
      is appended; any other node is dispatched on its first field, and a literal group
      whose text is one of the tags would be unpacked as a record, which fails (`None`). */
  function RenderNodeAsWritten(seg: Segment, isString: bool): Option<string> {
    if isString && seg.Literal? then Some(seg.text)
    else if HeadField(seg) == "await async" then
      if seg.AwaitLambda? then Some(RenderSegment(seg)) else None
    else if HeadField(seg) == "await" then
      if seg.PlainAwait? then Some(RenderSegment(seg)) else None
    else Some(HeadField(seg))
  }

  /** `generate_await_calls` as written, over a tree whose last node is the remainder string. */
  function RenderAsWritten(ast: seq<Segment>): Option<string>
    decreases |ast|
  {
    if ast == [] then Some("")
    else
      var head :- RenderNodeAsWritten(ast[0], |ast| == 1);
      var tail :- RenderAsWritten(ast[1..]);
      Some(head + tail)
  }

  /** A literal that the scan skips before an `await` word ends in a non-word character,
      so it is neither tag, and the dispatch as written appends it. */
  lemma {:induction false} SkippedLiteralIsText(s: string, pos: nat, q: nat)
    requires pos <= |s| && NextKeyword(s, pos, "await") == Some(q)
    ensures RenderNodeAsWritten(Literal(s[pos..q]), false) == Some(s[pos..q])
  {
    KeywordsAreWords();
    SkippedEndsInNonWord(s, pos, "await");
    var t := s[pos..q];
    assert !EndsInWord(t) by {
      if q > pos {
        assert t[|t| - 1] == s[q - 1];
      }
    }
    assert EndsInWord("await") && EndsInWord("await async");
  }

  /** `t` ends in a word character. */
  predicate EndsInWord(t: string) {
    |t| > 0 && IsIdentChar(t[|t| - 1])
  }

  /** On every tree the grammar produces, the dispatch on first fields as written agrees
      with the rendering by segment kind: it never mistakes a literal for a record. */
  lemma {:induction false} DispatchAsWrittenAgrees(s: string, pos: nat)
    requires pos <= |s|
    ensures RenderAsWritten(ParseFrom(s, pos)) == Some(Render(ParseFrom(s, pos)))
    decreases |s| - pos
  {
    var segs := ParseFrom(s, pos);
    match NextKeyword(s, pos, "await")
    case None =>
      assert Render(segs) == s[pos..] + Render([]);
    case Some(q) =>
      match AwaitAt(s, q)
      case None =>
        assert Render(segs) == s[pos..] + Render([]);
      case Some(w) =>
        var rest := ParseFrom(s, w.end);
        DispatchAsWrittenAgrees(s, w.end);
        SkippedLiteralIsText(s, pos, q);
        DispatchRound(Literal(s[pos..q]), w.value, rest);
  }

  /** A tree made of a skipped literal, a record and a further tree is dispatched as its
      rendering when its parts are. */
  lemma {:induction false} DispatchRound(lit: Segment, rec: Segment, rest: seq<Segment>)
    requires lit.Literal? && RenderNodeAsWritten(lit, false) == Some(lit.text) && !rec.Literal?
    requires |rest| >= 1 && RenderAsWritten(rest) == Some(Render(rest))
    ensures RenderAsWritten([lit, rec] + rest) == Some(Render([lit, rec] + rest))
  {
    var ast := [lit, rec] + rest;
    assert ast[1..] == [rec] + rest && ast[1..][1..] == rest;
    AppendAssoc(RenderSegment(lit), RenderSegment(rec), Render(rest));
  }

  // ---------------------------------------------------------------- reading arguments back

  /** No character of `t` is one of `excluded`. */
  predicate NoneIn(t: string, excluded: string) {
    forall i :: 0 <= i < |t| ==> t[i] !in excluded
  }

  /** An argument the grammar can read back: non-empty, no `,`, `(` or `)`, and not starting
      with whitespace (the token skips that). */
  predicate WellFormedArg(t: string) {
    |t| > 0 && !IsSpace(t[0]) && NoneIn(t, ",()")
  }

  /** Every argument of the list is well formed. */
  predicate WellFormedArgs(args: seq<string>)
    decreases |args|
  {
    args == [] || (WellFormedArg(args[0]) && WellFormedArgs(args[1..]))
  }

  /** `(a1, a2)`: an argument list as it is written. */
  function ArgsSource(args: seq<string>): string {
    "(" + Join(args, ", ") + ")"
  }

  /** The arguments `args` written one after the other from `a` to `e`, each after `, `. */
  predicate ArgsTailAt(s: string, a: nat, args: seq<string>, e: nat)
    decreases |args|
  {
    if args == [] then a == e
    else TextAt(s, a, ", " + args[0]) && WellFormedArg(args[0])
         && ArgsTailAt(s, a + 2 + |args[0]|, args[1..], e)
  }

  /** The written tail of well-formed arguments is such a sequence of written arguments. */
  lemma {:induction false} PrefixedArgsAt(s: string, a: nat, args: seq<string>)
    requires TextAt(s, a, Prefixed(args, ", ")) && WellFormedArgs(args)
    ensures ArgsTailAt(s, a, args, a + |Prefixed(args, ", ")|)
    decreases |args|
  {
    if args != [] {
      var first := ", " + args[0];
      var rest := Prefixed(args[1..], ", ");
      assert Prefixed(args, ", ") == first + rest;
      TextAtAppend(s, a, first, rest);
      PrefixedArgsAt(s, a + |first|, args[1..]);
    }
  }

  /** One round of the repetition reads `, <arg>`, up to a `,` or `)`. */
  lemma {:induction false} CommaArgIs(s: string, a: nat, t: string, e: nat)
    requires TextAt(s, a, ", " + t) && WellFormedArg(t) && e == a + 2 + |t|
    requires e < |s| && s[e] in ",()"
    ensures CommaArg(s, a) == Some(Parsed(t, e))
  {
    TextAtAppend(s, a, ", ", t);
    TextAtChar(s, a, ", ", 0);
    TextAtChar(s, a, ", ", 1);
    NoSkip(s, a);
    PunctIs(s, a, a, ',');
    TextAtChar(s, a + 2, t, 0);
    OneSkip(s, a + 1);
    RunTokenIs(s, a + 1, a + 2, t, ",()", true);
  }

  /** The first written argument of a tail that ends at a `)` is read by one round. */
  lemma {:induction false} CommaArgFirst(s: string, a: nat, args: seq<string>, e: nat)
    requires args != [] && ArgsTailAt(s, a, args, e) && e < |s| && s[e] == ')'
    ensures var m := a + 2 + |args[0]|;
            CommaArg(s, a) == Some(Parsed(args[0], m)) && ArgsTailAt(s, m, args[1..], e)
  {
    var m := a + 2 + |args[0]|;
    if args[1..] != [] {
      TextAtChar(s, m, ", " + args[1..][0], 0);
    }
    CommaArgIs(s, a, args[0], m);
  }

  /** A round that reads the first argument, followed by repetitions that read the rest. */
  lemma {:induction false} MoreArgsStep(s: string, a: nat, m: nat, args: seq<string>, e: nat)
    requires a <= |s| && args != [] && CommaArg(s, a) == Some(Parsed(args[0], m))
    requires MoreArgs(s, m) == Parsed(args[1..], e)
    ensures MoreArgs(s, a) == Parsed(args, e)
  {
    assert [args[0]] + args[1..] == args;
  }

  /** Arguments written after `, ` each, up to the `)` at `e`, are read back by the repetition. */
  lemma {:induction false} MoreArgsIs(s: string, a: nat, args: seq<string>, e: nat)
    requires ArgsTailAt(s, a, args, e) && e < |s| && s[e] == ')'
    ensures MoreArgs(s, a) == Parsed(args, e)
    decreases |args|, 1
  {
    if args == [] {
      NoSkip(s, a);
    } else {
      MoreArgsCons(s, a, args, e);
    }
  }

  /** The non-empty case of `MoreArgsIs`: one round, then the rest. */
  lemma {:induction false} MoreArgsCons(s: string, a: nat, args: seq<string>, e: nat)
    requires args != [] && ArgsTailAt(s, a, args, e) && e < |s| && s[e] == ')'
    ensures MoreArgs(s, a) == Parsed(args, e)
    decreases |args|, 0
  {
    var m := a + 2 + |args[0]|;
    CommaArgFirst(s, a, args, e);
    MoreArgsIs(s, m, args[1..], e);
    MoreArgsStep(s, a, m, args, e);
  }

  /** The first written argument of a list that ends at a `)` is read whole. */
  lemma {:induction false} FirstArgIs(s: string, a: nat, args: seq<string>, e: nat)
    requires |args| >= 1 && WellFormedArg(args[0]) && TextAt(s, a, args[0])
    requires ArgsTailAt(s, a + |args[0]|, args[1..], e) && e < |s| && s[e] == ')'
    ensures ArgAt(s, a) == Some(Parsed(args[0], a + |args[0]|))
  {
    var m := a + |args[0]|;
    if args[1..] != [] {
      TextAtChar(s, m, ", " + args[1..][0], 0);
    }
    TextAtChar(s, a, args[0], 0);
    NoSkip(s, a);
    RunTokenIs(s, a, a, args[0], ",()", true);
  }

  /** `list_of` is one argument and then the repetition. */
  lemma {:induction false} ArgListAtStep(s: string, a: nat, args: seq<string>, m: nat, e: nat)
    requires a <= |s| && |args| >= 1
    requires ArgAt(s, a) == Some(Parsed(args[0], m)) && MoreArgs(s, m) == Parsed(args[1..], e)
    ensures ArgListAt(s, a) == Some(Parsed(args, e))
  {
    assert [args[0]] + args[1..] == args;
  }

  /** Arguments written `a1, a2` up to a `)` are read back as themselves. */
  lemma {:induction false} ArgListAtIs(s: string, a: nat, args: seq<string>, e: nat)
    requires |args| >= 1 && WellFormedArg(args[0]) && TextAt(s, a, args[0])
    requires ArgsTailAt(s, a + |args[0]|, args[1..], e) && e < |s| && s[e] == ')'
    ensures ArgListAt(s, a) == Some(Parsed(args, e))
  {
    var m := a + |args[0]|;
    FirstArgIs(s, a, args, e);
    MoreArgsIs(s, m, args[1..], e);
    ArgListAtStep(s, a, args, m, e);
  }

  /** `(`, well-formed arguments written one after the other, and the `)` at `e`. */
  predicate ArgsLaidOut(s: string, a: nat, args: seq<string>, e: nat) {
    a < |s| && s[a] == '(' && |args| >= 1 && WellFormedArg(args[0]) && TextAt(s, a + 1, args[0])
    && ArgsTailAt(s, a + 1 + |args[0]|, args[1..], e) && e < |s| && s[e] == ')'
  }

  /** A written argument list is laid out as `(`, the first argument, the tail and `)`. */
  lemma {:induction false} ArgsSourceSplit(s: string, a: nat, args: seq<string>, z: nat)
    requires TextAt(s, a, ArgsSource(args)) && |args| >= 1 && WellFormedArgs(args)
    requires z == a + |ArgsSource(args)|
    ensures ArgsLaidOut(s, a, args, z - 1)
  {
    var first := args[0];
    var rest := Prefixed(args[1..], ", ");
    JoinFirst(args, ", ");
    assert ArgsSource(args) == "(" + first + rest + ")";
    TextAtChar(s, a, ArgsSource(args), 0);
    TextAtChar(s, a, ArgsSource(args), 1 + |first| + |rest|);
    TextAtAppend(s, a, "(" + first + rest, ")");
    TextAtAppend(s, a, "(" + first, rest);
    TextAtAppend(s, a, "(", first);
    PrefixedArgsAt(s, a + 1 + |first|, args[1..]);
  }

  /** `args` is `(`, the argument list and `)`. */
  lemma {:induction false} ArgsAtStep(s: string, pos: nat, o: nat, args: seq<string>, z: nat)
    requires pos <= o <= |s| && 0 < z <= |s| && Punct(s, pos, '(') == Some(o)
    requires ArgListAt(s, o) == Some(Parsed(args, z - 1)) && Punct(s, z - 1, ')') == Some(z)
    ensures ArgsAt(s, pos) == Some(Parsed(args, z))
  {
  }

  /** The `(` where the whitespace ends, then the list and the `)` that ends at `z`. */
  lemma {:induction false} ArgsAtOpen(s: string, pos: nat, a: nat, args: seq<string>, z: nat)
    requires pos <= |s| && SkipSpace(s, pos) == a && a < |s| && s[a] == '(' && 0 < z <= |s|
    requires ArgListAt(s, a + 1) == Some(Parsed(args, z - 1)) && Punct(s, z - 1, ')') == Some(z)
    ensures ArgsAt(s, pos) == Some(Parsed(args, z))
  {
    PunctIs(s, pos, a, '(');
    ArgsAtStep(s, pos, a + 1, args, z);
  }

  /** Inside laid-out parentheses, the list is read up to the `)`, which is then taken. */
  lemma {:induction false} ArgsInnerIs(s: string, a: nat, args: seq<string>, z: nat)
    requires 0 < z && ArgsLaidOut(s, a, args, z - 1)
    ensures ArgListAt(s, a + 1) == Some(Parsed(args, z - 1)) && Punct(s, z - 1, ')') == Some(z)
  {
    ArgListAtIs(s, a + 1, args, z - 1);
    CloseParenIs(s, z);
  }

  /** A written argument list where the whitespace ends is read back as itself. */
  lemma {:induction false} ArgsAtIs(s: string, pos: nat, a: nat, args: seq<string>, z: nat)
    requires pos <= |s| && SkipSpace(s, pos) == a
    requires TextAt(s, a, ArgsSource(args)) && |args| >= 1 && WellFormedArgs(args)
    requires z == a + |ArgsSource(args)|
    ensures ArgsAt(s, pos) == Some(Parsed(args, z))
  {
    ArgsSourceSplit(s, a, args, z);
    ArgsInnerIs(s, a, args, z);
    ArgsAtOpen(s, pos, a, args, z);
  }

  // ---------------------------------------------------------------- reading an await back

  /** `await async R(t1 n1) { body} (a1, a2)`: an inline lambda as it is written, with one
      space between its pieces and after the `{`. */
  function LambdaSource(rt: string, ps: seq<Param>, b: string, args: seq<string>): string {
    "await" + (" " + ("async" + (" " + (rt + LambdaTail(ps, b, args)))))
  }

  /** The part of a written lambda from its parameter list on. */
  function LambdaTail(ps: seq<Param>, b: string, args: seq<string>): string {
    ParamsSource(ps) + (" " + (BodySource(" ", b) + (" " + ArgsSource(args))))
  }

  /** `await <expr>)`: a plain await as it is written. */
  function PlainSource(e: string): string {
    "await" + (" " + (e + ")"))
  }

  /** `e` starts with the whole word `async`. */
  predicate StartsWithAsyncWord(e: string) {
    |e| >= 5 && TextAt(e, 0, "async") && (|e| == 5 || !IsIdentChar(e[5]))
  }

  /** An awaited expression the plain form reads back: non-empty, not starting with a space
      (the token skips those), without `)`, and not starting with the word `async`, which
      would make the lambda form be tried on it. */
  predicate WellFormedExpr(e: string) {
    |e| > 0 && !IsSpace(e[0]) && NoneIn(e, ")") && !StartsWithAsyncWord(e)
  }

  /** A lambda the lambda form reads back. */
  predicate WellFormedLambda(rt: string, ps: seq<Param>, b: string, args: seq<string>) {
    IsIdentifier(rt) && |ps| >= 1 && WellFormedParams(ps) && WellFormedBody(b)
    && |args| >= 1 && WellFormedArgs(args)
  }

  /** Where the pieces of a lambda written at `q` and ending at `z` start. */
  predicate LambdaPositions(q: nat, rt: string, ps: seq<Param>, b: string, args: seq<string>,
                            r: nat, p: nat, t: nat, z: nat) {
    r == q + 12 + |rt| && p == r + |ParamsSource(ps)| && t == p + 1 + |BodySource(" ", b)|
    && z == t + 1 + |ArgsSource(args)|
  }

  lemma {:induction false} LambdaPositionsOf(q: nat, rt: string, ps: seq<Param>, b: string,
                                             args: seq<string>, r: nat, p: nat, t: nat, z: nat)
    requires r == q + 12 + |rt| && p == r + |ParamsSource(ps)| && t == p + 1 + |BodySource(" ", b)|
    requires z == q + |LambdaSource(rt, ps, b, args)|
    ensures LambdaPositions(q, rt, ps, b, args, r, p, t, z)
  {
  }

  /** The keywords and return type of a lambda written at `q`, laid out character by character. */
  predicate LambdaHeadLaidOut(s: string, q: nat, rt: string, r: nat) {
    TextAt(s, q, "await") && q + 11 < |s| && s[q + 5] == ' ' && TextAt(s, q + 6, "async")
    && s[q + 11] == ' ' && TextAt(s, q + 12, rt) && IsIdentifier(rt)
    && r == q + 12 + |rt| && r < |s| && s[r] == '('
  }

  /** Parameters, body and arguments of a lambda, from `r`, laid out. */
  predicate LambdaTailLaidOut(s: string, r: nat, ps: seq<Param>, b: string, args: seq<string>,
                              p: nat, t: nat, z: nat) {
    TextAt(s, r, ParamsSource(ps)) && |ps| >= 1 && WellFormedParams(ps)
    && p == r + |ParamsSource(ps)| && p + 1 < |s| && s[p] == ' ' && s[p + 1] == '{'
    && TextAt(s, p + 1, BodySource(" ", b)) && WellFormedBody(b)
    && t == p + 1 + |BodySource(" ", b)| && t + 1 < |s| && s[t] == ' ' && s[t + 1] == '('
    && TextAt(s, t + 1, ArgsSource(args)) && |args| >= 1 && WellFormedArgs(args)
    && z == t + 1 + |ArgsSource(args)|
  }

  lemma {:induction false} LambdaHalves(s: string, q: nat, rt: string, ps: seq<Param>, b: string,
                                        args: seq<string>, r: nat)
    requires TextAt(s, q, LambdaSource(rt, ps, b, args)) && r == q + 12 + |rt|
    ensures TextAt(s, q, "await") && s[q + 5] == ' ' && TextAt(s, q + 6, "async")
    ensures s[q + 11] == ' ' && TextAt(s, q + 12, rt) && TextAt(s, r, LambdaTail(ps, b, args))
  {
    var tail := rt + LambdaTail(ps, b, args);
    TextAtAppend(s, q, "await", " " + ("async" + (" " + tail)));
    TextAtAppend(s, q + 5, " ", "async" + (" " + tail));
    TextAtAppend(s, q + 6, "async", " " + tail);
    TextAtAppend(s, q + 11, " ", tail);
    TextAtAppend(s, q + 12, rt, LambdaTail(ps, b, args));
    TextAtChar(s, q + 5, " ", 0);
    TextAtChar(s, q + 11, " ", 0);
  }

  lemma {:induction false} LambdaTailSplit(s: string, r: nat, ps: seq<Param>, b: string,
                                           args: seq<string>, p: nat, t: nat)
    requires TextAt(s, r, LambdaTail(ps, b, args))
    requires p == r + |ParamsSource(ps)| && t == p + 1 + |BodySource(" ", b)|
    ensures TextAt(s, r, ParamsSource(ps)) && s[p] == ' ' && TextAt(s, p + 1, BodySource(" ", b))
    ensures s[t] == ' ' && TextAt(s, t + 1, ArgsSource(args))
  {
    var rest := BodySource(" ", b) + (" " + ArgsSource(args));
    TextAtAppend(s, r, ParamsSource(ps), " " + rest);
    TextAtAppend(s, p, " ", rest);
    TextAtAppend(s, p + 1, BodySource(" ", b), " " + ArgsSource(args));
    TextAtAppend(s, t, " ", ArgsSource(args));
    TextAtChar(s, p, " ", 0);
    TextAtChar(s, t, " ", 0);
  }

  lemma {:induction false} LambdaSourceHead(s: string, q: nat, rt: string, ps: seq<Param>, b: string,
                                            args: seq<string>, r: nat, p: nat, t: nat, z: nat)
    requires TextAt(s, q, LambdaSource(rt, ps, b, args)) && WellFormedLambda(rt, ps, b, args)
    requires LambdaPositions(q, rt, ps, b, args, r, p, t, z)
    ensures LambdaHeadLaidOut(s, q, rt, r)
  {
    LambdaHalves(s, q, rt, ps, b, args, r);
    TextAtChar(s, r, LambdaTail(ps, b, args), 0);
  }

  lemma {:induction false} LambdaSourceTail(s: string, q: nat, rt: string, ps: seq<Param>, b: string,
                                            args: seq<string>, r: nat, p: nat, t: nat, z: nat)
    requires TextAt(s, q, LambdaSource(rt, ps, b, args)) && WellFormedLambda(rt, ps, b, args)
    requires LambdaPositions(q, rt, ps, b, args, r, p, t, z)
    ensures LambdaTailLaidOut(s, r, ps, b, args, p, t, z)
  {
    LambdaHalves(s, q, rt, ps, b, args, r);
    LambdaTailSplit(s, r, ps, b, args, p, t);
    TextAtChar(s, p + 1, BodySource(" ", b), 0);
    TextAtChar(s, t + 1, ArgsSource(args), 0);
  }

  lemma {:induction false} AwaitKeywordIs(s: string, q: nat)
    requires TextAt(s, q, "await") && q + 5 < |s| && s[q + 5] == ' '
    ensures KeywordToken(s, q, "await") == Some(q + 5)
  {
    KeywordsAreWords();
    TextAtChar(s, q, "await", 0);
    NoSkip(s, q);
    KeywordTokenIs(s, q, q, "await");
  }

  lemma {:induction false} LambdaAsyncIs(s: string, q: nat)
    requires q + 11 < |s| && s[q + 5] == ' ' && TextAt(s, q + 6, "async") && s[q + 11] == ' '
    ensures KeywordToken(s, q + 5, "async") == Some(q + 11)
  {
    KeywordsAreWords();
    TextAtChar(s, q + 6, "async", 0);
    OneSkip(s, q + 5);
    KeywordTokenIs(s, q + 5, q + 6, "async");
  }

  lemma {:induction false} LambdaReturnTypeIs(s: string, q: nat, rt: string, r: nat)
    requires q + 11 < |s| && s[q + 11] == ' ' && TextAt(s, q + 12, rt) && IsIdentifier(rt)
    requires r == q + 12 + |rt| && r < |s| && s[r] == '('
    ensures ReturnTypeToken(s, q + 11) == Some(Parsed(rt, r))
  {
    TextAtChar(s, q + 12, rt, 0);
    OneSkip(s, q + 11);
    ReturnTypeTokenIdent(s, q + 11, q + 12, rt);
  }

  lemma {:induction false} LambdaParamsIs(s: string, r: nat, ps: seq<Param>, b: string,
                                          args: seq<string>, p: nat, t: nat, z: nat)
    requires LambdaTailLaidOut(s, r, ps, b, args, p, t, z)
    ensures ParamsAt(s, r) == Some(Parsed(ps, p))
  {
    TextAtChar(s, r, ParamsSource(ps), 0);
    NoSkip(s, r);
    ParamsAtIs(s, r, r, ps, p);
  }

  lemma {:induction false} LambdaBodyIs(s: string, r: nat, ps: seq<Param>, b: string,
                                        args: seq<string>, p: nat, t: nat, z: nat)
    requires LambdaTailLaidOut(s, r, ps, b, args, p, t, z)
    ensures BodyAt(s, p) == Some(Parsed(b, t))
  {
    OneSkip(s, p);
    OneSpaceIsBlank();
    BodyAtIs(s, p, p + 1, " ", b);
  }

  lemma {:induction false} LambdaArgsIs(s: string, r: nat, ps: seq<Param>, b: string,
                                        args: seq<string>, p: nat, t: nat, z: nat)
    requires LambdaTailLaidOut(s, r, ps, b, args, p, t, z)
    ensures ArgsAt(s, t) == Some(Parsed(args, z))
  {
    OneSkip(s, t);
    ArgsAtIs(s, t, t + 1, args, z);
  }

  /** `alt` takes the lambda form once all its pieces have been read. */
  lemma {:induction false} LambdaAtStep(s: string, q: nat, rt: string, ps: seq<Param>, b: string,
                                        args: seq<string>, r: nat, p: nat, t: nat, z: nat)
    requires q + 11 <= |s| && KeywordToken(s, q, "await") == Some(q + 5)
    requires KeywordToken(s, q + 5, "async") == Some(q + 11)
    requires ReturnTypeToken(s, q + 11) == Some(Parsed(rt, r)) && ParamsAt(s, r) == Some(Parsed(ps, p))
    requires BodyAt(s, p) == Some(Parsed(b, t)) && ArgsAt(s, t) == Some(Parsed(args, z))
    ensures AwaitAt(s, q) == Some(Parsed(AwaitLambda(rt, ps, b, args), z))
  {
  }

  /** Phase 2 reads a written lambda back, with its pieces and its end. */
  lemma {:induction false} LambdaAtIs(s: string, q: nat, rt: string, ps: seq<Param>, b: string,
                                      args: seq<string>, z: nat)
    requires TextAt(s, q, LambdaSource(rt, ps, b, args)) && WellFormedLambda(rt, ps, b, args)
    requires z == q + |LambdaSource(rt, ps, b, args)|
    ensures AwaitAt(s, q) == Some(Parsed(AwaitLambda(rt, ps, b, args), z))
  {
    var r := q + 12 + |rt|;
    var p := r + |ParamsSource(ps)|;
    var t := p + 1 + |BodySource(" ", b)|;
    LambdaPositionsOf(q, rt, ps, b, args, r, p, t, z);
    LambdaSourceHead(s, q, rt, ps, b, args, r, p, t, z);
    LambdaSourceTail(s, q, rt, ps, b, args, r, p, t, z);
    AwaitKeywordIs(s, q);
    LambdaAsyncIs(s, q);
    LambdaReturnTypeIs(s, q, rt, r);
    LambdaParamsIs(s, r, ps, b, args, p, t, z);
    LambdaBodyIs(s, r, ps, b, args, p, t, z);
    LambdaArgsIs(s, r, ps, b, args, p, t, z);
    LambdaAtStep(s, q, rt, ps, b, args, r, p, t, z);
  }

  /** A plain await written at `q`, its expression ending at `c` and its `)` ending at `z`. */
  predicate PlainLaidOut(s: string, q: nat, e: string, c: nat, z: nat) {
    TextAt(s, q, "await") && q + 5 < |s| && s[q + 5] == ' ' && TextAt(s, q + 6, e)
    && WellFormedExpr(e) && c == q + 6 + |e| && c < |s| && s[c] == ')' && z == c + 1
  }

  lemma {:induction false} PlainSourceSplit(s: string, q: nat, e: string, c: nat, z: nat)
    requires TextAt(s, q, PlainSource(e)) && WellFormedExpr(e)
    requires c == q + 6 + |e| && z == q + |PlainSource(e)|
    ensures PlainLaidOut(s, q, e, c, z)
  {
    TextAtAppend(s, q, "await", " " + (e + ")"));
    TextAtAppend(s, q + 5, " ", e + ")");
    TextAtChar(s, q + 5, " ", 0);
    TextAtAppend(s, q + 6, e, ")");
    TextAtChar(s, c, ")", 0);
  }

  lemma {:induction false} PlainExprIs(s: string, q: nat, e: string, c: nat, z: nat)
    requires PlainLaidOut(s, q, e, c, z)
    ensures RunToken(s, q + 5, ")", true) == Some(Parsed(e, c))
  {
    TextAtChar(s, q + 6, e, 0);
    OneSkip(s, q + 5);
    RunTokenIs(s, q + 5, q + 6, e, ")", true);
  }

  lemma {:induction false} PlainCloseIs(s: string, c: nat, z: nat)
    requires c < |s| && s[c] == ')' && z == c + 1
    ensures Punct(s, c, ')') == Some(z)
  {
    NoSkip(s, c);
    PunctIs(s, c, c, ')');
  }

  /** If the word `async` follows `await ` in a written plain await, the expression starts
      with it. */
  lemma {:induction false} AsyncWordStart(s: string, q: nat, e: string, c: nat, z: nat)
    requires TextAt(s, q + 6, e) && c == q + 6 + |e| && c < |s| && s[c] == ')'
    requires TextAt(s, q + 6, "async") && Boundary(s, q + 11)
    ensures StartsWithAsyncWord(e)
  {
    if |e| < 5 {
      TextAtChar(s, q + 6, "async", |e|);
      assert false;
    }
    TextAtInside(s, q + 6, e, q + 6, "async");
    TextAtChar(s, q + 6, "async", 4);
    if |e| > 5 {
      TextAtChar(s, q + 6, e, 5);
    }
  }

  /** The lambda form fails on a written plain await: no `async` word follows `await`. */
  lemma {:induction false} NotLambdaAfter(s: string, q: nat, e: string, c: nat, z: nat)
    requires PlainLaidOut(s, q, e, c, z)
    ensures KeywordToken(s, q + 5, "async") == None
  {
    TextAtChar(s, q + 6, e, 0);
    OneSkip(s, q + 5);
    if TextAt(s, q + 6, "async") && Boundary(s, q + 11) {
      AsyncWordStart(s, q, e, c, z);
    }
  }

  /** `alt` falls back to the plain form when the lambda form fails at its `async`. */
  lemma {:induction false} PlainAtStep(s: string, q: nat, e: string, c: nat, z: nat)
    requires q + 5 <= |s| && KeywordToken(s, q, "await") == Some(q + 5)
    requires KeywordToken(s, q + 5, "async") == None
    requires RunToken(s, q + 5, ")", true) == Some(Parsed(e, c)) && Punct(s, c, ')') == Some(z)
    ensures AwaitAt(s, q) == Some(Parsed(PlainAwait(e), z))
  {
  }

  /** Phase 2 reads a written plain await back, with its expression and its end. */
  lemma {:induction false} PlainAtIs(s: string, q: nat, e: string, z: nat)
    requires TextAt(s, q, PlainSource(e)) && WellFormedExpr(e) && z == q + |PlainSource(e)|
    ensures AwaitAt(s, q) == Some(Parsed(PlainAwait(e), z))
  {
    var c := q + 6 + |e|;
    PlainSourceSplit(s, q, e, c, z);
    AwaitKeywordIs(s, q);
    NotLambdaAfter(s, q, e, c, z);
    PlainExprIs(s, q, e, c, z);
    PlainCloseIs(s, c, z);
    PlainAtStep(s, q, e, c, z);
  }

  // ---------------------------------------------------------------- reading a whole text back

  /** A segment as it is written. */
  function PrintSegment(seg: Segment): string {
    match seg
    case Literal(text) => text
    case PlainAwait(e) => PlainSource(e)
    case AwaitLambda(rt, ps, b, args) => LambdaSource(rt, ps, b, args)
  }

  /** The text a parse tree is read from: its segments written one after the other. */
  function Print(ast: seq<Segment>): string
    decreases |ast|
  {
    if ast == [] then "" else PrintSegment(ast[0]) + Print(ast[1..])
  }

  /** An await the grammar reads back from its written form. */
  predicate WellFormedAwait(seg: Segment) {
    match seg
    case Literal(_) => false
    case PlainAwait(e) => WellFormedExpr(e)
    case AwaitLambda(rt, ps, b, args) => WellFormedLambda(rt, ps, b, args)
  }

  /** A literal before an await: no `await` word, and no word character at its end that
      would glue onto the keyword after it. */
  predicate LeadingLiteral(text: string) {
    NoKeyword(text, "await") && (text == [] || !IsIdentChar(text[|text| - 1]))
  }

  /** The trees phase 2 reads back from their canonical written form: literals and
      well-formed awaits in turn, starting and ending with a literal, none of the literals
      holding an `await` word. */
  predicate Printable(ast: seq<Segment>)
    decreases |ast|
  {
    if |ast| == 1 then ast[0].Literal? && NoKeyword(ast[0].text, "await")
    else
      |ast| >= 3 && ast[0].Literal? && LeadingLiteral(ast[0].text)
      && WellFormedAwait(ast[1]) && Printable(ast[2..])
  }

  /** Phase 2 reads a written await back, whichever form it has. */
  lemma {:induction false} AwaitAtIs(s: string, q: nat, seg: Segment, z: nat)
    requires WellFormedAwait(seg) && TextAt(s, q, PrintSegment(seg)) && z == q + |PrintSegment(seg)|
    ensures AwaitAt(s, q) == Some(Parsed(seg, z))
  {
    match seg {
      case PlainAwait(e) => PlainAtIs(s, q, e, z);
      case AwaitLambda(rt, ps, b, args) => LambdaAtIs(s, q, rt, ps, b, args, z);
    }
  }

  /** `await` followed by a space, with no word character before it, is the whole word. */
  lemma {:induction false} AwaitWordAt(s: string, q: nat)
    requires TextAt(s, q, "await") && q + 5 < |s| && s[q + 5] == ' '
    requires q == 0 || !IsIdentChar(s[q - 1])
    ensures KeywordAt(s, q, "await")
  {
    TextAtChar(s, q, "await", 0);
    TextAtChar(s, q, "await", 4);
  }

  /** A written lambda ends with the `)` of its argument list. */
  lemma {:induction false} LambdaEndsInParen(s: string, r: nat, ps: seq<Param>, b: string,
                                             args: seq<string>, p: nat, t: nat, z: nat)
    requires LambdaTailLaidOut(s, r, ps, b, args, p, t, z)
    ensures 0 < z <= |s| && s[z - 1] == ')'
  {
    TextAtChar(s, t + 1, ArgsSource(args), |ArgsSource(args)| - 1);
  }

  /** A written lambda starts with the whole word `await` and ends with a `)`. */
  lemma {:induction false} LambdaEdges(s: string, q: nat, rt: string, ps: seq<Param>, b: string,
                                       args: seq<string>, z: nat)
    requires TextAt(s, q, LambdaSource(rt, ps, b, args)) && WellFormedLambda(rt, ps, b, args)
    requires z == q + |LambdaSource(rt, ps, b, args)| && (q == 0 || !IsIdentChar(s[q - 1]))
    ensures KeywordAt(s, q, "await") && 0 < z <= |s| && s[z - 1] == ')'
  {
    var r := q + 12 + |rt|;
    var p := r + |ParamsSource(ps)|;
    var t := p + 1 + |BodySource(" ", b)|;
    LambdaPositionsOf(q, rt, ps, b, args, r, p, t, z);
    LambdaSourceHead(s, q, rt, ps, b, args, r, p, t, z);
    LambdaSourceTail(s, q, rt, ps, b, args, r, p, t, z);
    AwaitWordAt(s, q);
    LambdaEndsInParen(s, r, ps, b, args, p, t, z);
  }

  /** A written await starts with the whole word `await` when no word character is right
      before it, and ends with a `)`. */
  lemma {:induction false} AwaitEdges(s: string, q: nat, seg: Segment, z: nat)
    requires WellFormedAwait(seg) && TextAt(s, q, PrintSegment(seg)) && z == q + |PrintSegment(seg)|
    requires q == 0 || !IsIdentChar(s[q - 1])
    ensures KeywordAt(s, q, "await") && 0 < z <= |s| && s[z - 1] == ')'
  {
    match seg {
      case PlainAwait(e) =>
        PlainSourceSplit(s, q, e, q + 6 + |e|, z);
        AwaitWordAt(s, q);
      case AwaitLambda(rt, ps, b, args) =>
        LambdaEdges(s, q, rt, ps, b, args, z);
    }
  }

  /** The written text of a tree with two or more segments, split into its first literal,
      its first await (from `q`) and the rest (from `z`). */
  lemma {:induction false} PrintSplit(s: string, pos: nat, ast: seq<Segment>, q: nat, z: nat)
    requires |ast| >= 3 && ast[0].Literal? && TextAt(s, pos, Print(ast))
    requires q == pos + |ast[0].text| && z == q + |PrintSegment(ast[1])|
    ensures TextAt(s, pos, ast[0].text) && TextAt(s, q, PrintSegment(ast[1]))
    ensures TextAt(s, z, Print(ast[2..]))
    ensures z + |Print(ast[2..])| == pos + |Print(ast)|
  {
    assert ast[1..][0] == ast[1] && ast[1..][1..] == ast[2..];
    assert Print(ast) == ast[0].text + (PrintSegment(ast[1]) + Print(ast[2..]));
    TextAtAppend(s, pos, ast[0].text, PrintSegment(ast[1]) + Print(ast[2..]));
    TextAtAppend(s, q, PrintSegment(ast[1]), Print(ast[2..]));
  }

  /** The first `await` word from `pos` is where the first await of a written tree starts. */
  lemma {:induction false} FirstKeywordIs(s: string, pos: nat, text: string, q: nat, seg: Segment, z: nat)
    requires TextAt(s, pos, text) && LeadingLiteral(text) && q == pos + |text|
    requires pos == 0 || !IsIdentChar(s[pos - 1])
    requires WellFormedAwait(seg) && TextAt(s, q, PrintSegment(seg)) && z == q + |PrintSegment(seg)|
    ensures NextKeyword(s, pos, "await") == Some(q)
    ensures 0 < z <= |s| && !IsIdentChar(s[z - 1])
  {
    KeywordsAreWords();
    if text != [] {
      TextAtChar(s, pos, text, |text| - 1);
    }
    AwaitEdges(s, q, seg, z);
    NextKeywordAfter(s, pos, text, q, "await");
  }

  /** One round of `many(seq(btw_await, alt(...)))` that finds a whole await. */
  lemma {:induction false} ParseFromStep(s: string, pos: nat, q: nat, seg: Segment, z: nat,
                                         rest: seq<Segment>)
    requires pos <= |s| && NextKeyword(s, pos, "await") == Some(q)
    requires AwaitAt(s, q) == Some(Parsed(seg, z)) && ParseFrom(s, z) == rest
    ensures ParseFrom(s, pos) == [Literal(s[pos..q]), seg] + rest
  {
  }

  /** A tree of two or more segments is its first literal, its first await and the rest. */
  lemma {:induction false} TreeShape(s: string, pos: nat, q: nat, ast: seq<Segment>)
    requires |ast| >= 3 && ast[0].Literal?
    requires TextAt(s, pos, ast[0].text) && q == pos + |ast[0].text|
    ensures q <= |s| && [Literal(s[pos..q]), ast[1]] + ast[2..] == ast
  {
    TextAtSlice(s, pos, ast[0].text);
    assert ast == [ast[0], ast[1]] + ast[2..];
  }

  /** Phase 2 reads a written tree back, from any position where its text runs to the end. */
  lemma {:induction false} ParseFromPrint(s: string, pos: nat, ast: seq<Segment>)
    requires Printable(ast) && TextAt(s, pos, Print(ast)) && pos + |Print(ast)| == |s|
    requires pos == 0 || !IsIdentChar(s[pos - 1])
    ensures ParseFrom(s, pos) == ast
    decreases |ast|
  {
    if |ast| == 1 {
      ParseFromLast(s, pos, ast);
    } else {
      var q := pos + |ast[0].text|;
      var z := q + |PrintSegment(ast[1])|;
      PrintSplit(s, pos, ast, q, z);
      FirstKeywordIs(s, pos, ast[0].text, q, ast[1], z);
      AwaitAtIs(s, q, ast[1], z);
      ParseFromPrint(s, z, ast[2..]);
      ParseFromStep(s, pos, q, ast[1], z, ast[2..]);
      TreeShape(s, pos, q, ast);
    }
  }

  /** The final literal of a written tree is read back as the remainder. */
  lemma {:induction false} ParseFromLast(s: string, pos: nat, ast: seq<Segment>)
    requires |ast| == 1 && Printable(ast) && TextAt(s, pos, Print(ast)) && pos + |Print(ast)| == |s|
    requires pos == 0 || !IsIdentChar(s[pos - 1])
    ensures ParseFrom(s, pos) == ast
  {
    assert Print(ast) == ast[0].text + Print([]);
    assert Print(ast) == ast[0].text;
    KeywordsAreWords();
    NoKeywordToEnd(s, pos, ast[0].text, "await");
    TextAtSlice(s, pos, ast[0].text);
    assert s[pos..] == s[pos..pos + |ast[0].text|];
    assert ast == [Literal(ast[0].text)];
  }

  /** Phase 2 parses the written text of any printable tree back into that tree. */
  lemma {:induction false} ParsePrint(ast: seq<Segment>)
    requires Printable(ast)
    ensures Parse(Print(ast)) == ast
  {
    TextAtSlice(Print(ast), 0, Print(ast));
    ParseFromPrint(Print(ast), 0, ast);
  }

  // ---------------------------------------------------------------- a tree inside a larger text

  /** Writing preserves concatenation of parse trees. */
  lemma {:induction false} PrintConcat(a: seq<Segment>, b: seq<Segment>)
    ensures Print(a + b) == Print(a) + Print(b)
    decreases |a|
  {
    if a == [] {
      assert a + b == b;
    } else {
      assert (a + b)[0] == a[0] && (a + b)[1..] == a[1..] + b;
      PrintConcat(a[1..], b);
      AppendAssoc(PrintSegment(a[0]), Print(a[1..]), Print(b));
    }
  }

  /** `t` with the text `h` in front of its first literal. */
  function WithPrefix(h: string, t: seq<Segment>): seq<Segment> {
    if t == [] || !t[0].Literal? then t else [Literal(h + t[0].text)] + t[1..]
  }

  /** `t` with the text `tl` after its last literal. */
  function WithSuffix(t: seq<Segment>, tl: string): seq<Segment> {
    if t == [] || !t[|t| - 1].Literal? then t else t[..|t| - 1] + [Literal(t[|t| - 1].text + tl)]
  }

  /** A tree phase 2 reads back starts and ends with a literal. */
  lemma {:induction false} PrintableEnds(t: seq<Segment>)
    requires Printable(t)
    ensures |t| >= 1 && t[0].Literal? && t[|t| - 1].Literal?
    decreases |t|
  {
    if |t| > 1 {
      PrintableEnds(t[2..]);
    }
  }

  lemma {:induction false} PrintSnoc(init: seq<Segment>, x: string)
    ensures Print(init + [Literal(x)]) == Print(init) + x
    ensures Render(init + [Literal(x)]) == Render(init) + x
  {
    PrintConcat(init, [Literal(x)]);
    RenderConcat(init, [Literal(x)]);
    assert [Literal(x)][1..] == [];
  }

  /** Text in front of the first literal is text in front of the written and the generated
      tree. */
  lemma {:induction false} WithPrefixText(h: string, t: seq<Segment>)
    requires |t| >= 1 && t[0].Literal?
    ensures Print(WithPrefix(h, t)) == h + Print(t)
    ensures Render(WithPrefix(h, t)) == h + Render(t)
  {
    var w := WithPrefix(h, t);
    assert w[1..] == t[1..];
    AppendAssoc(h, t[0].text, Print(t[1..]));
    AppendAssoc(h, t[0].text, Render(t[1..]));
  }

  /** Text after the last literal is text after the written and the generated tree. */
  lemma {:induction false} WithSuffixText(t: seq<Segment>, tl: string)
    requires |t| >= 1 && t[|t| - 1].Literal?
    ensures Print(WithSuffix(t, tl)) == Print(t) + tl
    ensures Render(WithSuffix(t, tl)) == Render(t) + tl
  {
    var init, x := t[..|t| - 1], t[|t| - 1].text;
    assert t == init + [Literal(x)];
    PrintSnoc(init, x);
    PrintSnoc(init, x + tl);
    AppendAssoc(Print(init), x, tl);
    AppendAssoc(Render(init), x, tl);
  }

  lemma {:induction false} WithSuffixShape(t: seq<Segment>, tl: string)
    requires |t| >= 3 && t[|t| - 1].Literal?
    ensures |WithSuffix(t, tl)| == |t| && WithSuffix(t, tl)[0] == t[0] && WithSuffix(t, tl)[1] == t[1]
    ensures WithSuffix(t, tl)[2..] == WithSuffix(t[2..], tl)
  {
    assert t[2..][..|t| - 3] == t[..|t| - 1][2..];
  }

  /** Text in front that holds no `await` word and does not end in a word character keeps a
      tree one phase 2 reads back. */
  lemma {:induction false} PrintableWithPrefix(h: string, t: seq<Segment>)
    requires Printable(t) && NoKeyword(h, "await") && (h == [] || !IsIdentChar(h[|h| - 1]))
    ensures Printable(WithPrefix(h, t))
  {
    var w := WithPrefix(h, t);
    KeywordsAreWords();
    NoKeywordConcat(h, t[0].text, "await");
    if |t| > 1 {
      assert w[2..] == t[2..];
      assert h + t[0].text == [] || !IsIdentChar((h + t[0].text)[|h + t[0].text| - 1]) by {
        if t[0].text != [] {
          assert (h + t[0].text)[|h + t[0].text| - 1] == t[0].text[|t[0].text| - 1];
        }
      }
    }
  }

  /** Text after that holds no `await` word and does not start with a word character keeps a
      tree one phase 2 reads back. */
  lemma {:induction false} PrintableWithSuffix(t: seq<Segment>, tl: string)
    requires Printable(t) && NoKeyword(tl, "await") && (tl == [] || !IsIdentChar(tl[0]))
    ensures Printable(WithSuffix(t, tl))
    decreases |t|
  {
    PrintableEnds(t);
    if |t| == 1 {
      KeywordsAreWords();
      NoKeywordConcat(t[0].text, tl, "await");
      assert WithSuffix(t, tl) == [Literal(t[0].text + tl)];
    } else {
      WithSuffixShape(t, tl);
      PrintableWithSuffix(t[2..], tl);
    }
  }

  /** Phase 2 run over a written tree with text around it that holds no `await` word and does
      not glue onto the tree gives that text around the generated tree. */
  lemma {:induction false} FramedConverts(h: string, t: seq<Segment>, tl: string)
    requires Printable(t)
    requires NoKeyword(h, "await") && (h == [] || !IsIdentChar(h[|h| - 1]))
    requires NoKeyword(tl, "await") && (tl == [] || !IsIdentChar(tl[0]))
    ensures Render(Parse(h + (Print(t) + tl))) == h + (Render(t) + tl)
  {
    PrintableEnds(t);
    var u := WithSuffix(t, tl);
    PrintableWithSuffix(t, tl);
    WithSuffixText(t, tl);
    PrintableEnds(u);
    var w := WithPrefix(h, u);
    PrintableWithPrefix(h, u);
    WithPrefixText(h, u);
    ParsePrint(w);
  }
}
