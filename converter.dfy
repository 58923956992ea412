/** `Converter.convert`: phase 1 over the source text, phase 2 over its output, and the
    built-in sample pairs as properties of the whole pipeline. */
module Converter {
  import opened Lexer
  import AsyncFuncs
  import AwaitCalls

  /** The text `convert` returns for `source`. */
  function ConvertText(source: string): string {
    AwaitCalls.Render(AwaitCalls.Parse(AsyncFuncs.Render(AsyncFuncs.Parse(source))))
  }

  /** `convert`: parse and generate phase 1, then parse and generate phase 2 on its output. */
  method Convert(source: string) returns (finalCode: string)
    ensures finalCode == ConvertText(source)
  {
    var ast := AsyncFuncs.Parse(source);
    var code := AsyncFuncs.GenerateAsyncFunc(ast);
    var awaitAst := AwaitCalls.Parse(code);
    finalCode := AwaitCalls.GenerateAwaitCalls(awaitAst);
  }

  /** Text with neither an `async` nor an `await` word converts to itself. */
  lemma {:induction false} KeywordFreeUnchanged(source: string)
    requires NoKeyword(source, "async") && NoKeyword(source, "await")
    ensures ConvertText(source) == source
  {
    AsyncFuncs.NoAsyncUnchanged(source);
    AwaitCalls.NoAwaitUnchanged(source);
  }

  /** The keywords inside `async_await` are not words of their own, so the header line
      passes both phases untouched. */
  lemma {:induction false} IncludeLineUnchanged()
    ensures ConvertText("#include <async_await>") == "#include <async_await>"
  {
    IncludeHasNoAsync();
    IncludeHasNoAwait();
    KeywordFreeUnchanged("#include <async_await>");
  }

  lemma {:induction false} IncludeHasNoAsync()
    ensures NoKeyword("#include <async_await>", "async")
  {
  }

  lemma {:induction false} IncludeHasNoAwait()
    ensures NoKeyword("#include <async_await>", "await")
  {
  }

  // ---------------------------------------------------------------- the sample `await dl(u);`

  /** The tree phase 2 gives `await dl(u);`. */
  function AwaitSampleTree(): seq<AwaitCalls.Segment> {
    [AwaitCalls.Literal(""), AwaitCalls.PlainAwait("dl(u"), AwaitCalls.Literal(";")]
  }

  lemma {:induction false} AwaitSampleWritten()
    ensures AwaitCalls.Print(AwaitSampleTree()) == "await dl(u);"
    ensures AwaitCalls.Render(AwaitSampleTree()) == "dl(u).get();"
  {
    var ast := AwaitSampleTree();
    assert ast[1..][1..] == [AwaitCalls.Literal(";")] && ast[1..][1..][1..] == [];
  }

  lemma {:induction false} AwaitSamplePrintable()
    ensures AwaitCalls.Printable(AwaitSampleTree())
  {
    var ast := AwaitSampleTree();
    assert ast[2..] == [AwaitCalls.Literal(";")];
    NoKeywordByLetter(";", "await", 0);
    assert AwaitCalls.NoneIn("dl(u", ")");
  }

  /** `await dl(u);` converts to `dl(u).get();`. */
  lemma {:induction false} AwaitSample()
    ensures ConvertText("await dl(u);") == "dl(u).get();"
  {
    NoKeywordByLetter("await dl(u);", "async", 2);
    AsyncFuncs.NoAsyncUnchanged("await dl(u);");
    AwaitSampleWritten();
    AwaitSamplePrintable();
    AwaitCalls.ParsePrint(AwaitSampleTree());
  }

  // ---------------------------------------------------------------- a lone async function

  /** A source that is one well-formed async function, written with one space after its `{`,
      converts to exactly its `std::future` declaration, provided that declaration holds no
      `await` word for phase 2 to rewrite. */
  lemma {:induction false} LoneFunctionConverts(fn: AsyncFuncs.AsyncFunction)
    requires AsyncFuncs.WellFormedFunc(fn) && NoKeyword(AsyncFuncs.RenderFunc(fn), "await")
    ensures ConvertText(AsyncFuncs.AsyncSource(fn, " ")) == AsyncFuncs.RenderFunc(fn)
  {
    LonePhase1(fn);
    AwaitCalls.NoAwaitUnchanged(AsyncFuncs.RenderFunc(fn));
  }

  /** A source that is one well-formed async function, written with one space after its `{`,
      whose body is the written form of awaits and literals that phase 2 reads back, converts
      to its `std::future` declaration with every await of the body rewritten, provided the
      declaration head holds no `await` word of its own. */
  lemma {:induction false} AwaitingFunctionConverts(fn: AsyncFuncs.AsyncFunction, t: seq<AwaitCalls.Segment>)
    requires AsyncFuncs.WellFormedFunc(fn) && AwaitCalls.Printable(t) && fn.body == AwaitCalls.Print(t)
    requires NoKeyword(AsyncFuncs.DeclarationHead(fn), "await")
    ensures ConvertText(AsyncFuncs.AsyncSource(fn, " "))
         == AsyncFuncs.RenderFunc(fn.(body := AwaitCalls.Render(t)))
  {
    LonePhase1(fn);
    DeclarationFrame(fn);
    DeclarationFrame(fn.(body := AwaitCalls.Render(t)));
    OpeningHasNoAwait(fn);
    ClosingHasNoAwait();
    AwaitCalls.FramedConverts(Opening(fn), t, Closing());
  }

  /** Phase 1 turns a lone well-formed function into its declaration. */
  lemma {:induction false} LonePhase1(fn: AsyncFuncs.AsyncFunction)
    requires AsyncFuncs.WellFormedFunc(fn)
    ensures AsyncFuncs.Render(AsyncFuncs.Parse(AsyncFuncs.AsyncSource(fn, " "))) == AsyncFuncs.RenderFunc(fn)
  {
    LoneFunctionTree(fn);
    AsyncFuncs.ParsePrint(LoneFunction(fn));
  }

  /** The declaration up to the first line of the closure body. */
  function Opening(fn: AsyncFuncs.AsyncFunction): string {
    AsyncFuncs.DeclarationHead(fn) + "{ return std::async([=](){\n"
  }

  /** The declaration after the last line of the closure body. */
  function Closing(): string {
    "\n}); }\n"
  }

  lemma {:induction false} ClosingHasNoAwait()
    ensures NoKeyword(Closing(), "await") && !IsIdentChar(Closing()[0])
  {
    NoKeywordByLetter(Closing(), "await", 1);
  }

  /** A declaration is its opening, the body, and the closing lines, whatever the body. */
  lemma {:induction false} DeclarationFrame(fn: AsyncFuncs.AsyncFunction)
    ensures AsyncFuncs.RenderFunc(fn) == Opening(fn) + (fn.body + Closing())
  {
    var hd := AsyncFuncs.DeclarationHead(fn);
    assert AsyncFuncs.DeclarationBody(fn)
        == "{ return std::async(" + ("[=](){\n" + fn.body + "\n}") + "); }\n";
    assert AsyncFuncs.DeclarationBody(fn)
        == "{ return std::async([=](){\n" + (fn.body + "\n}); }\n");
    AppendAssoc(hd, "{ return std::async([=](){\n", fn.body + "\n}); }\n");
  }

  /** The opening is free of `await` words when the head is, and ends in a newline. */
  lemma {:induction false} OpeningHasNoAwait(fn: AsyncFuncs.AsyncFunction)
    requires NoKeyword(AsyncFuncs.DeclarationHead(fn), "await")
    ensures NoKeyword(Opening(fn), "await")
    ensures |Opening(fn)| > 0 && Opening(fn)[|Opening(fn)| - 1] == '\n'
  {
    var hd := AsyncFuncs.DeclarationHead(fn);
    KeywordsAreWords();
    NoKeywordByLetter("{ return std::async([=](){\n", "await", 1);
    assert hd[|hd| - 1] == ' ';
    NoKeywordConcat(hd, "{ return std::async([=](){\n", "await");
  }

  /** The phase-1 tree of a lone function: the function between two empty literals. */
  function LoneFunction(fn: AsyncFuncs.AsyncFunction): seq<AsyncFuncs.Segment> {
    [AsyncFuncs.Literal(""), AsyncFuncs.AsyncFunc(fn), AsyncFuncs.Literal("")]
  }

  lemma {:induction false} LoneFunctionTree(fn: AsyncFuncs.AsyncFunction)
    requires AsyncFuncs.WellFormedFunc(fn)
    ensures AsyncFuncs.Printable(LoneFunction(fn))
    ensures AsyncFuncs.Print(LoneFunction(fn)) == AsyncFuncs.AsyncSource(fn, " ")
    ensures AsyncFuncs.Render(LoneFunction(fn)) == AsyncFuncs.RenderFunc(fn)
  {
    var ast := LoneFunction(fn);
    var last := [AsyncFuncs.Literal("")];
    assert ast[1..][1..] == ast[2..] == last && last[1..] == [];
    assert AsyncFuncs.Print(last) == "" && AsyncFuncs.Render(last) == "";
    assert AsyncFuncs.Print(ast[1..]) == AsyncFuncs.AsyncSource(fn, " ") + "";
    assert AsyncFuncs.Render(ast[1..]) == AsyncFuncs.RenderFunc(fn) + "";
  }

  // ---------------------------------------------------------------- the sample `async int foo`

  /** The function of the sample `async int foo(int num) { return 1; }`. */
  function FooFunction(): AsyncFuncs.AsyncFunction {
    AsyncFuncs.AsyncFunction("int", "foo", [Param("int", "num")], "return 1; ")
  }

  /** `(int num)`: the sample's one parameter, as written and as joined. */
  lemma {:induction false} FooParams()
    ensures JoinParams([Param("int", "num")]) == "int num"
    ensures ParamsSource([Param("int", "num")]) == "(int num)"
  {
    assert ParamTexts([Param("int", "num")]) == [ParamText(Param("int", "num"))] + ParamTexts([]);
  }

  lemma {:induction false} FooWritten()
    ensures AsyncFuncs.AsyncSource(FooFunction(), " ") == "async int foo(int num) { return 1; }"
  {
    FooParams();
  }

  lemma {:induction false} FooWellFormed()
    ensures AsyncFuncs.WellFormedFunc(FooFunction())
  {
    assert WellFormedParams([Param("int", "num")][1..]);
  }

  lemma {:induction false} FooDeclarationHead()
    ensures AsyncFuncs.DeclarationHead(FooFunction()) == "std::future<int> foo(int num) "
  {
    FooParams();
  }

  lemma {:induction false} FooDeclarationBody()
    ensures AsyncFuncs.DeclarationBody(FooFunction()) == "{ return std::async([=](){\nreturn 1; \n}); }" + "\n"
  {
  }

  lemma {:induction false} FooDeclaration()
    ensures AsyncFuncs.RenderFunc(FooFunction())
            == "std::future<int> foo(int num) " + "{ return std::async([=](){\nreturn 1; \n}); }" + "\n"
  {
    FooDeclarationHead();
    FooDeclarationBody();
    AppendAssoc("std::future<int> foo(int num) ", "{ return std::async([=](){\nreturn 1; \n}); }", "\n");
  }

  lemma {:induction false} FooDeclarationHasNoAwait()
    ensures NoKeyword("std::future<int> foo(int num) " + "{ return std::async([=](){\nreturn 1; \n}); }" + "\n", "await")
  {
    FooHeadHasNoW();
    FooBodyHasNoW();
    NoKeywordByLetter("std::future<int> foo(int num) " + "{ return std::async([=](){\nreturn 1; \n}); }" + "\n", "await", 1);
  }

  lemma {:induction false} FooHeadHasNoW()
    ensures 'w' !in "std::future<int> foo(int num) "
  {
  }

  lemma {:induction false} FooBodyHasNoW()
    ensures 'w' !in "{ return std::async([=](){\nreturn 1; \n}); }"
  {
  }

  /** `async int foo(int num) { return 1; }` converts to the expected declaration, followed
      by the newline the generator writes after every function. */
  lemma {:induction false} FooSample()
    ensures ConvertText("async int foo(int num) { return 1; }")
            == "std::future<int> foo(int num) " + "{ return std::async([=](){\nreturn 1; \n}); }" + "\n"
  {
    FooWritten();
    FooWellFormed();
    FooDeclaration();
    FooDeclarationHasNoAwait();
    LoneFunctionConverts(FooFunction());
  }

  // ---------------------------------------------------------------- an inline lambda in phase 1

  /** Right after `await `, the scan of phase 1 finds the `async` of an inline lambda. */
  lemma {:induction false} AsyncAfterAwait(s: string, q: nat, rt: string, r: nat)
    requires AwaitCalls.LambdaHeadLaidOut(s, q, rt, r)
    ensures NextKeyword(s, q, "async") == Some(q + 6)
  {
    forall i | q <= i < q + 6 ensures !KeywordAt(s, i, "async") {
      if TextAt(s, i, "async") {
        TextAtChar(s, i, "async", 1);
        if i + 1 < q + 5 {
          TextAtChar(s, q, "await", i + 1 - q);
        }
      }
    }
    NextKeywordPast(s, q, q + 6, "async");
    TextAtChar(s, q + 6, "async", 0);
    TextAtChar(s, q + 6, "async", 4);
  }

  /** An inline lambda has no function name after its return type, so the function
      grammar of phase 1 fails at its `async`. */
  lemma {:induction false} NoFunctionAtLambda(s: string, q: nat, rt: string, r: nat)
    requires AwaitCalls.LambdaHeadLaidOut(s, q, rt, r)
    ensures AsyncFuncs.AsyncFuncAt(s, q + 6) == None
  {
    TextAtChar(s, q + 6, "async", 0);
    NoSkip(s, q + 6);
    AsyncFuncs.AsyncKeywordIs(s, q + 6, q + 6);
    AwaitCalls.LambdaReturnTypeIs(s, q, rt, r);
    NoSkip(s, r);
    assert IdentToken(s, r) == None;
  }

  /** A text whose first `async` word is the one of an inline `await async` lambda, after a
      literal with no such word, passes phase 1 unchanged: the function grammar fails there,
      the repetition ends, and the whole text is the remainder literal. */
  lemma {:induction false} LambdaSurvivesPhase1(s: string, pre: string, rt: string, ps: seq<Param>,
                                                b: string, args: seq<string>)
    requires TextAt(s, 0, pre) && NoKeyword(pre, "async") && (pre == [] || !IsIdentChar(pre[|pre| - 1]))
    requires TextAt(s, |pre|, AwaitCalls.LambdaSource(rt, ps, b, args))
    requires AwaitCalls.WellFormedLambda(rt, ps, b, args)
    ensures AsyncFuncs.Parse(s) == [AsyncFuncs.Literal(s)]
    ensures AsyncFuncs.Render(AsyncFuncs.Parse(s)) == s
  {
    var q := |pre|;
    var r := q + 12 + |rt|;
    var p := r + |ParamsSource(ps)|;
    var t := p + 1 + |BodySource(" ", b)|;
    var z := q + |AwaitCalls.LambdaSource(rt, ps, b, args)|;
    AwaitCalls.LambdaPositionsOf(q, rt, ps, b, args, r, p, t, z);
    AwaitCalls.LambdaSourceHead(s, q, rt, ps, b, args, r, p, t, z);
    PastLeadingLiteral(s, pre);
    AsyncAfterAwait(s, q, rt, r);
    NoFunctionAtLambda(s, q, rt, r);
    RemainderOnly(s);
  }

  /** The scan of phase 1 passes over a leading literal with no `async` word. */
  lemma {:induction false} PastLeadingLiteral(s: string, pre: string)
    requires TextAt(s, 0, pre) && NoKeyword(pre, "async") && (pre == [] || !IsIdentChar(pre[|pre| - 1]))
    ensures NextKeyword(s, 0, "async") == NextKeyword(s, |pre|, "async")
  {
    KeywordsAreWords();
    NoKeywordWithin(s, 0, pre, "async");
    NextKeywordPast(s, 0, |pre|, "async");
  }

  /** When the first round of phase 1 fails, the tree is the whole text and the output is it. */
  lemma {:induction false} RemainderOnly(s: string)
    requires NextKeyword(s, 0, "async").Some?
    requires AsyncFuncs.AsyncFuncAt(s, NextKeyword(s, 0, "async").value) == None
    ensures AsyncFuncs.Parse(s) == [AsyncFuncs.Literal(s)]
    ensures AsyncFuncs.Render(AsyncFuncs.Parse(s)) == s
  {
    assert s[0..] == s;
    assert AsyncFuncs.Render([AsyncFuncs.Literal(s)]) == s + AsyncFuncs.Render([]);
  }

  /** Printed phase-2 trees whose first await is an inline lambda, after a literal with no
      `async` word, pass phase 1 unchanged. */
  lemma {:induction false} PrintedLambdaSurvivesPhase1(ast: seq<AwaitCalls.Segment>)
    requires AwaitCalls.Printable(ast) && |ast| >= 3 && ast[1].AwaitLambda?
    requires NoKeyword(ast[0].text, "async")
    ensures AsyncFuncs.Render(AsyncFuncs.Parse(AwaitCalls.Print(ast))) == AwaitCalls.Print(ast)
  {
    var s := AwaitCalls.Print(ast);
    var q := |ast[0].text|;
    TextAtSlice(s, 0, s);
    AwaitCalls.PrintSplit(s, 0, ast, q, q + |AwaitCalls.PrintSegment(ast[1])|);
    LambdaSurvivesPhase1(s, ast[0].text, ast[1].returnType, ast[1].params, ast[1].body, ast[1].args);
  }

  // ---------------------------------------------------------------- the sample `await async int`

  /** The tree phase 2 gives `int var = await async int(int num) { return 1; } (2);`. */
  function LambdaSampleTree(): seq<AwaitCalls.Segment> {
    [AwaitCalls.Literal("int var = "),
     AwaitCalls.AwaitLambda("int", [Param("int", "num")], "return 1; ", ["2"]),
     AwaitCalls.Literal(";")]
  }

  lemma {:induction false} LambdaSampleTail()
    ensures AwaitCalls.LambdaTail([Param("int", "num")], "return 1; ", ["2"])
            == "(int num)" + (" " + ("{ return 1; }" + (" " + "(2)")))
  {
    FooParams();
    assert AwaitCalls.ArgsSource(["2"]) == "(2)";
    assert BodySource(" ", "return 1; ") == "{ return 1; }";
  }

  lemma {:induction false} LambdaSampleHead(t: string)
    ensures "await" + (" " + ("async" + (" " + ("int" + t)))) == "await async int" + t
  {
    AppendAssoc("await", " ", "async" + (" " + ("int" + t)));
    AppendAssoc("await" + " ", "async", " " + ("int" + t));
    AppendAssoc("await" + " " + "async", " ", "int" + t);
    AppendAssoc("await" + " " + "async" + " ", "int", t);
    assert "await" + " " + "async" + " " + "int" == "await async int";
  }

  lemma {:induction false} LambdaSampleWritten()
    ensures AwaitCalls.Print(LambdaSampleTree())
            == "int var = " + "await async int" + "(int num)" + " { return 1; }" + " (2);"
  {
    var ast := LambdaSampleTree();
    var t := "(int num)" + (" " + ("{ return 1; }" + (" " + "(2)")));
    LambdaSampleTail();
    LambdaSampleHead(t);
    assert ast[1..][1..] == [AwaitCalls.Literal(";")] && ast[1..][1..][1..] == [];
    assert AwaitCalls.Print(ast) == "int var = " + (("await async int" + t) + (";" + ""));
    LambdaSampleRegroup("{ return 1; }");
  }

  lemma {:induction false} LambdaSampleRegroup(bs: string)
    requires bs == "{ return 1; }"
    ensures "int var = " + (("await async int" + ("(int num)" + (" " + (bs + (" " + "(2)"))))) + (";" + ""))
            == "int var = " + "await async int" + "(int num)" + " { return 1; }" + " (2);"
  {
  }

  lemma {:induction false} LambdaSamplePrintable()
    ensures AwaitCalls.Printable(LambdaSampleTree())
  {
    var ast := LambdaSampleTree();
    assert ast[2..] == [AwaitCalls.Literal(";")];
    NoKeywordByLetter("int var = ", "await", 1);
    NoKeywordByLetter(";", "await", 0);
    LambdaSampleWellFormed();
  }

  lemma {:induction false} LambdaSampleWellFormed()
    ensures AwaitCalls.WellFormedLambda("int", [Param("int", "num")], "return 1; ", ["2"])
  {
    FooWellFormed();
    assert AwaitCalls.WellFormedArgs(["2"][1..]);
    assert AwaitCalls.NoneIn("2", ",()");
  }

  lemma {:induction false} LambdaSampleCall()
    ensures AwaitCalls.RenderSegment(LambdaSampleTree()[1])
            == "(std::async([](int num)" + "[=](){\nreturn 1; \n}" + "(2)).get()"
  {
    FooParams();
    assert "(std::async([](" + "int num" + ")" == "(std::async([](int num)";
    assert AsyncFuncs.LambdaBody("return 1; ") == "[=](){\nreturn 1; \n}";
    assert Join(["2"], ", ") == "2";
    var x := "(std::async([](int num)" + "[=](){\nreturn 1; \n}";
    AppendAssoc(x + "(", "2", ")).get()");
    AppendAssoc(x, "(", "2" + ")).get()");
  }

  lemma {:induction false} LambdaSampleRendered()
    ensures AwaitCalls.Render(LambdaSampleTree())
            == "int var = " + "(std::async([](int num)" + "[=](){\nreturn 1; \n}" + "(2)).get()" + ";"
  {
    var ast := LambdaSampleTree();
    LambdaSampleCall();
    assert ast[1..][1..] == [AwaitCalls.Literal(";")] && ast[1..][1..][1..] == [];
    assert AwaitCalls.Render(ast[1..][1..]) == ";" + "";
  }

  /** `int var = await async int(int num) { return 1; } (2);` converts to the `std::async`
      call on the closure with the argument `2`, waited for with `.get()`. The texts are
      written in pieces split at token boundaries. */
  lemma {:induction false} LambdaSample()
    ensures ConvertText("int var = " + "await async int" + "(int num)" + " { return 1; }" + " (2);")
            == "int var = " + "(std::async([](int num)" + "[=](){\nreturn 1; \n}" + "(2)).get()" + ";"
  {
    LambdaSampleWritten();
    LambdaSamplePrintable();
    NoKeywordByLetter("int var = ", "async", 2);
    PrintedLambdaSurvivesPhase1(LambdaSampleTree());
    AwaitCalls.ParsePrint(LambdaSampleTree());
    LambdaSampleRendered();
  }
}
