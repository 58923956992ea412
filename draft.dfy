/** The single-function draft of the converter in main.py: a grammar that reads one async
    function at the start of the input (`define_grammar`) and a generator (`generate_code`)
    that rewrites every `await X;` of the body with one regular-expression substitution and
    wraps the body in `std::async`. */
module Draft {
  import opened Lexer
  import AsyncFuncs

  /** The tuple `to(...)` builds: the keyword text, the return type, the name, the parameter
      pairs and the body. */
  datatype DraftNode = DraftNode(keyword: string, returnType: string, name: string,
                                 params: seq<Param>, body: string)

  // ---------------------------------------------------------------- grammar

  /** `tok(r'async')`: optional whitespace, then the five letters. There is no `\b` in this
      pattern, so `asyncint` passes. The token pushes the text it matched. */
  function AsyncText(s: string, pos: nat): (r: Option<Parsed<string>>)
    requires pos <= |s|
    ensures r.Some? ==> r.value.value == "async" && pos + 5 <= r.value.end <= |s|
  {
    var a := SkipSpace(s, pos);
    if TextAt(s, a, "async") then TextAtSlice(s, a, "async"); Some(Parsed(s[a..a + 5], a + 5))
    else None
  }

  /** `return_type, func_name, params, body` from `pos`: the part of the sequence after the
      keyword, which the converter's phase-1 grammar has too. */
  function Rest(s: string, pos: nat): (r: Option<Parsed<AsyncFuncs.AsyncFunction>>)
    requires pos <= |s|
    ensures r.Some? ==> pos < r.value.end <= |s|
  {
    var rt :- ReturnTypeToken(s, pos);
    var n :- IdentToken(s, rt.end);
    var ps :- ParamsAt(s, n.end);
    var b :- BodyAt(s, ps.end);
    Some(Parsed(AsyncFuncs.AsyncFunction(rt.value, n.value, ps.value, b.value), b.end))
  }

  /** `seq(async_kw, return_type, func_name, params, body, to(...))` at `pos`. */
  function DraftFuncAt(s: string, pos: nat): (r: Option<Parsed<DraftNode>>)
    requires pos <= |s|
    ensures r.Some? ==> r.value.value.keyword == "async" && pos + 5 < r.value.end <= |s|
  {
    var k :- AsyncText(s, pos);
    var f :- Rest(s, k.end);
    Some(Parsed(DraftNode(k.value, f.value.returnType, f.value.name, f.value.params, f.value.body), f.end))
  }

  /** The converter's phase-1 grammar is its `\b` keyword token followed by `Rest`. */
  lemma {:induction false} Phase1AsRest(s: string, pos: nat)
    requires pos <= |s| && KeywordToken(s, pos, "async").Some?
    ensures KeywordToken(s, pos, "async").value <= |s|
    ensures AsyncFuncs.AsyncFuncAt(s, pos) == Rest(s, KeywordToken(s, pos, "async").value)
  {
    var k := KeywordToken(s, pos, "async").value;
    match ReturnTypeToken(s, k)
    case None =>
    case Some(rt) =>
      match IdentToken(s, rt.end)
      case None =>
      case Some(n) =>
        match ParamsAt(s, n.end)
        case None =>
        case Some(ps) =>
          match BodyAt(s, ps.end)
          case None =>
          case Some(b) =>
  }

  /** `parse(src, define_grammar()).stack[0]`: the record read at the start of `src`, when the
      grammar matches there. Whatever follows the closing brace is not looked at. */
  function ParseDraft(src: string): (r: Option<DraftNode>)
    ensures r.Some? ==> r.value.keyword == "async"
  {
    match DraftFuncAt(src, 0)
    case None => None
    case Some(p) => Some(p.value)
  }

  /** Wherever the converter's own phase-1 grammar reads a function, the draft grammar reads
      the same fields and stops at the same place: the two differ only in the `\b` after
      `async`, which the draft does not ask for. */
  lemma {:induction false} DraftAcceptsPhase1(s: string, pos: nat, fn: AsyncFuncs.AsyncFunction, z: nat)
    requires pos <= |s| && AsyncFuncs.AsyncFuncAt(s, pos) == Some(Parsed(fn, z))
    ensures DraftFuncAt(s, pos)
            == Some(Parsed(DraftNode("async", fn.returnType, fn.name, fn.params, fn.body), z))
  {
    assert KeywordToken(s, pos, "async").Some?;
    Phase1AsRest(s, pos);
    AsyncTextOfKeyword(s, pos);
  }

  /** Where the `\b` keyword token matches, the draft's token matches too. */
  lemma {:induction false} AsyncTextOfKeyword(s: string, pos: nat)
    requires pos <= |s| && KeywordToken(s, pos, "async").Some?
    ensures AsyncText(s, pos) == Some(Parsed("async", KeywordToken(s, pos, "async").value))
  {
  }

  /** The draft reads back a function written in the converter's canonical layout, after any
      leading whitespace. */
  lemma {:induction false} ParseDraftReads(lead: string, fn: AsyncFuncs.AsyncFunction, ws: string)
    requires IsBlank(lead) && AsyncFuncs.WellFormedFunc(fn) && IsBlank(ws)
    ensures ParseDraft(lead + AsyncFuncs.AsyncSource(fn, ws))
            == Some(DraftNode("async", fn.returnType, fn.name, fn.params, fn.body))
  {
    var src := AsyncFuncs.AsyncSource(fn, ws);
    var s := lead + src;
    var z := |lead| + |src|;
    SourceAfterLead(lead, src);
    AsyncFuncs.AsyncFuncAtIs(s, 0, |lead|, fn, ws, z);
    DraftAcceptsPhase1(s, 0, fn, z);
  }

  /** The layout facts `ParseDraftReads` needs about `lead + src`. */
  lemma {:induction false} SourceAfterLead(lead: string, src: string)
    requires IsBlank(lead) && |src| > 0 && src[0] == 'a'
    ensures TextAt(lead + src, |lead|, src) && SkipSpace(lead + src, 0) == |lead|
  {
    var s := lead + src;
    TextAtSlice(s, 0, lead);
    assert s[0..|lead|] == lead;
    TextAtSlice(s, |lead|, src);
    assert s[|lead|..|lead| + |src|] == src;
    BlankSkip(s, 0, lead);
  }

  // ---------------------------------------------------------------- re.sub(r'\bawait\s*(.+?);', r'\1.get();', body, flags=re.DOTALL)

  /** `\bawait` at `m`: a word boundary, then the five letters. The pattern has no boundary
      after the word, so `awaited` starts a match too. */
  predicate AwaitStart(b: string, m: nat) {
    TextAt(b, m, "await") && Boundary(b, m)
  }

  /** No position of `b` starts a match. */
  predicate NoAwaitStart(b: string) {
    forall m :: 0 <= m <= |b| ==> !AwaitStart(b, m)
  }

  /** The first `;` at or after `from`. */
  function FirstSemicolon(b: string, from: nat): (r: Option<nat>)
    requires from <= |b|
    ensures r.Some? ==> from <= r.value < |b| && b[r.value] == ';'
                        && forall k :: from <= k < r.value ==> b[k] != ';'
    ensures r.None? ==> forall k :: from <= k < |b| ==> b[k] != ';'
    decreases |b| - from
  {
    if from == |b| then None
    else if b[from] == ';' then Some(from)
    else FirstSemicolon(b, from + 1)
  }

  /** A match: the text of group 1 and the position after the `;`. */
  datatype AwaitMatch = AwaitMatch(expr: string, end: nat)

  /** One attempt of the pattern at `m`, as the backtracking engine runs it (DOTALL: `.`
      takes any character). `\s*` first takes the whole whitespace run; `(.+?)` then takes
      one character and grows until a `;` follows. When no `;` comes after that first
      character, `\s*` gives back its last character, which becomes the group if a `;` comes
      right after it; giving back more cannot help, since the given-back characters are
      whitespace. */
  function MatchAt(b: string, m: nat): (r: Option<AwaitMatch>)
    requires m <= |b|
    ensures r.Some? ==> m + 7 <= r.value.end <= |b| && r.value.expr != []
  {
    if !AwaitStart(b, m) then None else GroupAt(b, m + 5, SkipSpace(b, m + 5))
  }

  /** The group and the `;` after a whitespace run from `a` to `w`. */
  function GroupAt(b: string, a: nat, w: nat): (r: Option<AwaitMatch>)
    requires a <= w <= |b|
    ensures r.Some? ==> a + 2 <= r.value.end <= |b| && r.value.expr != []
  {
    if w == |b| then None
    else
      match FirstSemicolon(b, w + 1)
      case Some(j) => Some(AwaitMatch(b[w..j], j + 1))
      case None => if w > a && b[w] == ';' then Some(AwaitMatch(b[w - 1..w], w + 1)) else None
  }

  /** One round of `re.sub` at `pos`: what it emits and where it goes on. */
  datatype Step = Step(piece: string, next: nat)

  /** Where a match starts, emit `\1.get();` and go on after the match; elsewhere keep the
      character and try the next position. */
  function StepAt(b: string, pos: nat): (st: Step)
    requires pos < |b|
    ensures pos < st.next <= |b|
  {
    match MatchAt(b, pos)
    case Some(mt) => Step(mt.expr + ".get();", mt.end)
    case None => Step([b[pos]], pos + 1)
  }

  /** `re.sub` from `pos` on, one round after another. */
  function RewriteFrom(b: string, pos: nat): string
    requires pos <= |b|
    decreases |b| - pos
  {
    if pos == |b| then ""
    else
      var st := StepAt(b, pos);
      st.piece + RewriteFrom(b, st.next)
  }

  /** `transformed_body` */
  function RewriteAwaits(body: string): string {
    RewriteFrom(body, 0)
  }

  // ---------------------------------------------------------------- what one match is

  /** The pattern matches at `m` exactly when `await` starts a word there and a `;` comes
      somewhere after the next character: `\s*` may match nothing and `.` takes anything. */
  lemma {:induction false} MatchAtExists(b: string, m: nat)
    requires m <= |b|
    ensures MatchAt(b, m).Some? <==> AwaitStart(b, m) && exists j :: m + 6 <= j < |b| && b[j] == ';'
  {
    if AwaitStart(b, m) {
      var w := SkipSpace(b, m + 5);
      SkipSpaceSpec(b, m + 5);
      if MatchAt(b, m).Some? {
        if w < |b| && FirstSemicolon(b, w + 1).Some? {
          var j := FirstSemicolon(b, w + 1).value;
          assert m + 6 <= j < |b| && b[j] == ';';
        } else {
          assert m + 6 <= w < |b| && b[w] == ';';
        }
      } else {
        forall j | m + 6 <= j < |b| ensures b[j] != ';' {
          if j < w {
            assert IsSpace(b[j]);
          }
        }
      }
    }
  }

  /** What a match covers, in order: `await` at a word start; whitespace; group 1 (one
      character or more, with no `;` after its first); the closing `;`. Group 1 starts where
      the whitespace run after `await` ends, or one character earlier when no `;` comes after
      that end. */
  lemma {:induction false} MatchAtShape(b: string, m: nat)
    requires m <= |b| && MatchAt(b, m).Some?
    ensures var x := MatchAt(b, m).value.expr;
            var e := MatchAt(b, m).value.end;
            var g := e - 1 - |x|;
            var w := SkipSpace(b, m + 5);
            AwaitStart(b, m) && m + 5 <= g && |x| >= 1
            && (forall k :: m + 5 <= k < g ==> IsSpace(b[k]))
            && b[g..e - 1] == x && b[e - 1] == ';'
            && (forall k :: g + 1 <= k < e - 1 ==> b[k] != ';')
            && (g == w || (g + 1 == w && forall k :: w < k < |b| ==> b[k] != ';'))
  {
    SkipSpaceSpec(b, m + 5);
  }

  // ---------------------------------------------------------------- the substitution

  /** Where no match starts, the character is kept. */
  lemma {:induction false} CopyStep(b: string, pos: nat, next: nat)
    requires pos < |b| && !AwaitStart(b, pos) && next == pos + 1
    ensures RewriteFrom(b, pos) == [b[pos]] + RewriteFrom(b, next)
  {
  }

  /** A slice is its first character and the rest. */
  lemma {:induction false} SliceCons(b: string, pos: nat, e: nat)
    requires pos < e <= |b|
    ensures b[pos..e] == [b[pos]] + b[pos + 1..e]
  {
  }

  /** Characters at which no match starts are copied. */
  lemma {:induction false} RewriteFromCopies(b: string, pos: nat, e: nat)
    requires pos <= e <= |b|
    requires forall m :: pos <= m < e ==> !AwaitStart(b, m)
    ensures RewriteFrom(b, pos) == b[pos..e] + RewriteFrom(b, e)
    decreases e - pos
  {
    if pos < e {
      CopyStep(b, pos, pos + 1);
      RewriteFromCopies(b, pos + 1, e);
      SliceCons(b, pos, e);
      AppendAssoc([b[pos]], b[pos + 1..e], RewriteFrom(b, e));
    }
  }

  /** A body in which no `\bawait` occurs is embedded unchanged. */
  lemma {:induction false} NoAwaitUnchanged(body: string)
    requires NoAwaitStart(body)
    ensures RewriteAwaits(body) == body
  {
    RewriteFromCopies(body, 0, |body|);
    assert body[0..|body|] == body;
  }

  /** Without a `w` there is no `await`. */
  lemma {:induction false} NoAwaitByLetter(b: string)
    requires 'w' !in b
    ensures NoAwaitStart(b)
  {
    forall m | 0 <= m <= |b| && TextAt(b, m, "await") ensures false {
      TextAtChar(b, m, "await", 1);
    }
  }

  // ---- the substitution only looks at the text from one character before where it is

  /** `b` holds `v` from position `d` to its end. */
  predicate Shifted(b: string, d: nat, v: string) {
    |b| == d + |v| && forall i :: 0 <= i < |v| ==> b[d + i] == v[i]
  }

  /** The `\b` test at `d + m` of `b` sees what it sees at `m` of `v`. */
  predicate SameBoundary(b: string, d: nat, m: nat) {
    m > 0 || d == 0 || (d <= |b| && !IsIdentChar(b[d - 1]))
  }

  // Each lemma below names the position in `b` as `p`, with `p == d + m`.

  lemma {:induction false} TextAtShift(b: string, d: nat, v: string, m: nat, p: nat, kw: string)
    requires Shifted(b, d, v) && p == d + m
    ensures TextAt(b, p, kw) == TextAt(v, m, kw)
    decreases |kw|
  {
    if kw != [] && m < |v| {
      assert b[p] == v[m];
      TextAtShift(b, d, v, m + 1, p + 1, kw[1..]);
    }
  }

  lemma {:induction false} SkipSpaceShift(b: string, d: nat, v: string, m: nat, p: nat)
    requires Shifted(b, d, v) && m <= |v| && p == d + m
    ensures SkipSpace(b, p) == d + SkipSpace(v, m)
    decreases |v| - m
  {
    if m < |v| {
      assert b[p] == v[m];
      SkipSpaceShift(b, d, v, m + 1, p + 1);
    }
  }

  lemma {:induction false} FirstSemicolonShift(b: string, d: nat, v: string, m: nat, p: nat)
    requires Shifted(b, d, v) && m <= |v| && p == d + m
    ensures FirstSemicolon(v, m).None? ==> FirstSemicolon(b, p).None?
    ensures FirstSemicolon(v, m).Some? ==> FirstSemicolon(b, p) == Some(d + FirstSemicolon(v, m).value)
    decreases |v| - m
  {
    if m < |v| {
      assert b[p] == v[m];
      FirstSemicolonShift(b, d, v, m + 1, p + 1);
    }
  }

  lemma {:induction false} AwaitStartShift(b: string, d: nat, v: string, m: nat, p: nat)
    requires Shifted(b, d, v) && m <= |v| && SameBoundary(b, d, m) && p == d + m
    ensures AwaitStart(b, p) == AwaitStart(v, m)
  {
    TextAtShift(b, d, v, m, p, "await");
    if m < |v| {
      assert b[p] == v[m];
    }
    if m > 0 {
      assert b[d + (m - 1)] == v[m - 1];
    }
  }

  lemma {:induction false} GroupAtShift(b: string, d: nat, v: string, a: nat, w: nat, pa: nat, pw: nat)
    requires Shifted(b, d, v) && a <= w <= |v| && pa == d + a && pw == d + w
    ensures GroupAt(v, a, w).None? ==> GroupAt(b, pa, pw).None?
    ensures GroupAt(v, a, w).Some? ==>
              GroupAt(b, pa, pw) == Some(AwaitMatch(GroupAt(v, a, w).value.expr, d + GroupAt(v, a, w).value.end))
  {
    if w < |v| {
      FirstSemicolonShift(b, d, v, w + 1, pw + 1);
      assert b[pw] == v[w];
      match FirstSemicolon(v, w + 1)
      case Some(j) =>
        assert b[pw..d + j] == v[w..j];
      case None =>
        if w > a {
          assert b[pw - 1] == v[w - 1];
          assert b[pw - 1..pw] == v[w - 1..w];
        }
    }
  }

  /** An attempt at `d + m` of `b` is the attempt at `m` of `v`, moved by `d`. */
  lemma {:induction false} MatchAtShift(b: string, d: nat, v: string, m: nat, p: nat)
    requires Shifted(b, d, v) && m <= |v| && SameBoundary(b, d, m) && p == d + m
    ensures MatchAt(v, m).None? ==> MatchAt(b, p).None?
    ensures MatchAt(v, m).Some? ==>
              MatchAt(b, p) == Some(AwaitMatch(MatchAt(v, m).value.expr, d + MatchAt(v, m).value.end))
  {
    AwaitStartShift(b, d, v, m, p);
    if AwaitStart(v, m) {
      SkipSpaceShift(b, d, v, m + 5, p + 5);
      GroupAtShift(b, d, v, m + 5, SkipSpace(v, m + 5), p + 5, SkipSpace(b, p + 5));
    }
  }

  /** One round emits the same piece on both sides and goes on at corresponding places. */
  lemma {:induction false} StepAtShift(b: string, d: nat, v: string, m: nat, p: nat)
    requires Shifted(b, d, v) && m < |v| && SameBoundary(b, d, m) && p == d + m
    ensures StepAt(b, p) == Step(StepAt(v, m).piece, d + StepAt(v, m).next)
  {
    MatchAtShift(b, d, v, m, p);
    assert b[p] == v[m];
  }

  /** The substitution from `d + m` of `b` is the substitution from `m` of `v`. */
  lemma {:induction false} RewriteFromShift(b: string, d: nat, v: string, m: nat, p: nat)
    requires Shifted(b, d, v) && m <= |v| && SameBoundary(b, d, m) && p == d + m
    ensures RewriteFrom(b, p) == RewriteFrom(v, m)
    decreases |v| - m
  {
    if m < |v| {
      var st := StepAt(v, m);
      StepAtShift(b, d, v, m, p);
      RewriteFromShift(b, d, v, st.next, d + st.next);
      UnfoldRewrite(v, m, st);
      UnfoldRewrite(b, p, Step(st.piece, d + st.next));
    } else {
      ShiftEnd(b, v, m, p);
    }
  }

  /** One round of the substitution, unfolded. */
  lemma {:induction false} UnfoldRewrite(b: string, pos: nat, st: Step)
    requires pos < |b| && StepAt(b, pos) == st
    ensures st.next <= |b| && RewriteFrom(b, pos) == st.piece + RewriteFrom(b, st.next)
  {
  }

  lemma {:induction false} ShiftEnd(b: string, v: string, m: nat, p: nat)
    requires m == |v| && p == |b|
    ensures RewriteFrom(b, p) == RewriteFrom(v, m) == ""
  {
  }

  /** `u + v` holds `v` after `u`. */
  lemma {:induction false} AppendShifted(u: string, v: string)
    ensures Shifted(u + v, |u|, v)
  {
  }

  // ---- one statement

  /** `await X;` written at `q` of `b`, with `e` the position of its `;`. */
  predicate StatementLaidOut(b: string, q: nat, x: string, e: nat) {
    TextAt(b, q, "await") && q + 5 < |b| && b[q + 5] == ' ' && TextAt(b, q + 6, x)
    && e == q + 6 + |x| && e < |b| && b[e] == ';'
  }

  /** An expression the rewrite gives back whole: it is not empty, does not start with
      whitespace and holds no `;`. */
  predicate PlainExpr(x: string) {
    |x| >= 1 && !IsSpace(x[0]) && ';' !in x
  }

  lemma {:induction false} StatementMatch(b: string, q: nat, x: string, e: nat)
    requires StatementLaidOut(b, q, x, e) && Boundary(b, q) && PlainExpr(x)
    ensures MatchAt(b, q) == Some(AwaitMatch(x, e + 1))
  {
    TextAtChar(b, q + 6, x, 0);
    OneSkip(b, q + 5);
    forall k | q + 7 <= k < e ensures b[k] != ';' {
      TextAtChar(b, q + 6, x, k - q - 6);
    }
    assert FirstSemicolon(b, q + 7) == Some(e);
    TextAtSlice(b, q + 6, x);
  }

  /** Every letter of `await` is a word character. */
  lemma {:induction false} AwaitLetter(i: nat)
    requires i < 5
    ensures IsIdentChar("await"[i])
  {
    assert "await" == ['a', 'w', 'a', 'i', 't'];
  }

  /** A match inside the text before a statement would be one of that text alone. */
  lemma {:induction false} InsidePrefix(b: string, pre: string, m: nat)
    requires TextAt(b, 0, pre) && NoAwaitStart(pre) && m + 5 <= |pre|
    ensures !AwaitStart(b, m)
  {
    if TextAt(b, m, "await") {
      TextAtInside(b, 0, pre, m, "await");
      TextAtChar(b, 0, pre, m);
      if m > 0 {
        TextAtChar(b, 0, pre, m - 1);
      }
      NoAwaitAt(pre, m);
    }
  }

  lemma {:induction false} NoAwaitAt(b: string, m: nat)
    requires NoAwaitStart(b) && m <= |b|
    ensures !AwaitStart(b, m)
  {
  }

  /** A match cannot run from the text before a statement into the statement, since that
      text ends in a character that is not a word character. */
  lemma {:induction false} StraddlePrefix(b: string, pre: string, m: nat)
    requires TextAt(b, 0, pre) && |pre| > 0 && !IsIdentChar(pre[|pre| - 1]) && m < |pre| < m + 5
    ensures !AwaitStart(b, m)
  {
    if TextAt(b, m, "await") {
      TextAtChar(b, m, "await", |pre| - 1 - m);
      TextAtChar(b, 0, pre, |pre| - 1);
      AwaitLetter(|pre| - 1 - m);
      assert false;
    }
  }

  /** The text before a statement starts no match, also not one that runs into the
      statement. */
  lemma {:induction false} PrefixNoMatch(b: string, pre: string)
    requires TextAt(b, 0, pre) && NoAwaitStart(pre) && (pre == [] || !IsIdentChar(pre[|pre| - 1]))
    ensures forall m :: 0 <= m < |pre| ==> !AwaitStart(b, m)
  {
    forall m | 0 <= m < |pre| ensures !AwaitStart(b, m) {
      if m + 5 <= |pre| {
        InsidePrefix(b, pre, m);
      } else {
        StraddlePrefix(b, pre, m);
      }
    }
  }

  /** How `pre + "await " + x + ";" + post` is laid out. */
  lemma {:induction false} StatementSplit(pre: string, x: string, post: string)
    ensures var b := pre + ("await " + (x + (";" + post)));
            var u := pre + ("await " + (x + ";"));
            TextAt(b, 0, pre) && StatementLaidOut(b, |pre|, x, |pre| + 6 + |x|)
            && b == u + post && |u| == |pre| + 6 + |x| + 1 && u[|u| - 1] == ';'
  {
    var b := pre + ("await " + (x + (";" + post)));
    StatementText(pre, x, post, b);
    StatementRegroup(pre, x, post);
    StatementEnd(pre, x);
  }

  lemma {:induction false} StatementText(pre: string, x: string, post: string, b: string)
    requires b == pre + ("await " + (x + (";" + post)))
    ensures TextAt(b, 0, pre) && StatementLaidOut(b, |pre|, x, |pre| + 6 + |x|)
  {
    TextAtSlice(b, 0, pre);
    assert b[0..|pre|] == pre;
    TextAtSlice(b, |pre|, "await");
    assert b[|pre|..|pre| + 5] == "await";
    TextAtSlice(b, |pre| + 6, x);
    assert b[|pre| + 6..|pre| + 6 + |x|] == x;
    assert b[|pre| + 5] == ' ' && b[|pre| + 6 + |x|] == ';';
  }

  lemma {:induction false} StatementRegroup(pre: string, x: string, post: string)
    ensures pre + ("await " + (x + (";" + post))) == (pre + ("await " + (x + ";"))) + post
  {
    AppendAssoc(x, ";", post);
    AppendAssoc("await ", x + ";", post);
    AppendAssoc(pre, "await " + (x + ";"), post);
  }

  lemma {:induction false} StatementEnd(pre: string, x: string)
    ensures var u := pre + ("await " + (x + ";"));
            |u| == |pre| + 6 + |x| + 1 && u[|u| - 1] == ';'
  {
  }

  /** The text before the statement is copied. */
  lemma {:induction false} StatementPrefixCopied(b: string, pre: string)
    requires TextAt(b, 0, pre) && NoAwaitStart(pre) && (pre == [] || !IsIdentChar(pre[|pre| - 1]))
    ensures RewriteFrom(b, 0) == pre + RewriteFrom(b, |pre|)
  {
    PrefixNoMatch(b, pre);
    RewriteFromCopies(b, 0, |pre|);
    TextAtSlice(b, 0, pre);
  }

  /** The statement itself becomes `X.get();`. */
  lemma {:induction false} StatementRewritten(b: string, q: nat, x: string, e: nat, after: nat)
    requires StatementLaidOut(b, q, x, e) && Boundary(b, q) && PlainExpr(x) && after == e + 1
    ensures RewriteFrom(b, q) == x + (".get();" + RewriteFrom(b, after))
  {
    StatementMatch(b, q, x, e);
    UnfoldRewrite(b, q, Step(x + ".get();", after));
    AppendAssoc(x, ".get();", RewriteFrom(b, after));
  }

  /** After a word that is not a word character, the statement's `await` is at a word start. */
  lemma {:induction false} StatementBoundary(b: string, pre: string)
    requires TextAt(b, 0, pre) && (pre == [] || !IsIdentChar(pre[|pre| - 1]))
    requires TextAt(b, |pre|, "await")
    ensures Boundary(b, |pre|)
  {
    if pre != [] {
      TextAtChar(b, 0, pre, |pre| - 1);
    }
    TextAtChar(b, |pre|, "await", 0);
  }

  /** The text before the statement is copied and the statement becomes `X.get();`. */
  lemma {:induction false} StatementHead(pre: string, x: string, post: string)
    requires NoAwaitStart(pre) && (pre == [] || !IsIdentChar(pre[|pre| - 1])) && PlainExpr(x)
    ensures var b := pre + ("await " + (x + (";" + post)));
            var u := pre + ("await " + (x + ";"));
            |u| <= |b| && RewriteFrom(b, 0) == pre + (x + (".get();" + RewriteFrom(b, |u|)))
  {
    var b := pre + ("await " + (x + (";" + post)));
    var u := pre + ("await " + (x + ";"));
    StatementSplit(pre, x, post);
    StatementPrefixCopied(b, pre);
    StatementBoundary(b, pre);
    StatementRewritten(b, |pre|, x, |pre| + 6 + |x|, |u|);
  }

  /** After the statement's `;` the rewrite goes on as it would on the rest alone. */
  lemma {:induction false} StatementTail(pre: string, x: string, post: string)
    ensures var b := pre + ("await " + (x + (";" + post)));
            var u := pre + ("await " + (x + ";"));
            |u| <= |b| && RewriteFrom(b, |u|) == RewriteFrom(post, 0)
  {
    var b := pre + ("await " + (x + (";" + post)));
    var u := pre + ("await " + (x + ";"));
    StatementSplit(pre, x, post);
    AppendShifted(u, post);
    RewriteFromShift(b, |u|, post, 0, |u|);
  }

  /** A statement `await X;` after text without an await: the text is copied, the
      statement becomes `X.get();`, and the rewrite goes on in what follows exactly as it
      would on that text alone. */
  lemma {:induction false} RewriteStatement(pre: string, x: string, post: string)
    requires NoAwaitStart(pre) && (pre == [] || !IsIdentChar(pre[|pre| - 1])) && PlainExpr(x)
    ensures RewriteAwaits(pre + ("await " + (x + (";" + post))))
            == pre + (x + (".get();" + RewriteAwaits(post)))
  {
    StatementHead(pre, x, post);
    StatementTail(pre, x, post);
  }

  /** A line holding one `await X;` and no other `w`: only the statement changes. */
  lemma {:induction false} OneAwaitLine(pre: string, x: string, rest: string)
    requires 'w' !in pre && 'w' !in rest && (pre == [] || !IsIdentChar(pre[|pre| - 1])) && PlainExpr(x)
    ensures RewriteAwaits(pre + ("await " + (x + (";" + rest)))) == pre + (x + (".get();" + rest))
  {
    NoAwaitByLetter(pre);
    NoAwaitByLetter(rest);
    NoAwaitUnchanged(rest);
    RewriteStatement(pre, x, rest);
  }

  // ---------------------------------------------------------------- generate_code

  /** `generate_code(ast_node)` for a record tagged `async`: the parameters joined by `, `, the
      rewritten body inside `[=](){ ... }`, and the declaration around it. The `str(ast_node)`
      fallback for other records is not modelled and gives `None`. */
  function GenerateCode(node: DraftNode): (r: Option<string>)
    ensures r.Some? <==> node.keyword == "async"
  {
    if node.keyword == "async" then
      var paramStr := Join(ParamTexts(node.params), ", ");
      var transformed := RewriteAwaits(node.body);
      var lambda := "[=](){\n" + transformed + "\n}";
      Some("std::future<" + node.returnType + "> " + node.name + "(" + paramStr + ") "
           + "{ return std::async(" + lambda + "); }\n")
    else None
  }

  /** The draft writes the declaration the converter's phase 1 writes for the same record,
      with the body already rewritten as phase 2 would not need to. */
  lemma {:induction false} GenerateCodeAsPhase1(node: DraftNode)
    requires node.keyword == "async"
    ensures GenerateCode(node) == Some(AsyncFuncs.RenderFunc(
              AsyncFuncs.AsyncFunction(node.returnType, node.name, node.params, RewriteAwaits(node.body))))
  {
    var fn := AsyncFuncs.AsyncFunction(node.returnType, node.name, node.params, RewriteAwaits(node.body));
    var head := AsyncFuncs.DeclarationHead(fn);
    var lambda := AsyncFuncs.LambdaBody(fn.body);
    AppendAssoc(head + "{ return std::async(", lambda, "); }\n");
    AppendAssoc(head, "{ return std::async(", lambda);
    AppendAssoc(head, "{ return std::async(" + lambda, "); }\n");
  }

  /** For a body without awaits the draft and the converter's phase 1 agree exactly. */
  lemma {:induction false} NoAwaitAsPhase1(node: DraftNode)
    requires node.keyword == "async" && NoAwaitStart(node.body)
    ensures GenerateCode(node) == Some(AsyncFuncs.RenderFunc(
              AsyncFuncs.AsyncFunction(node.returnType, node.name, node.params, node.body)))
  {
    NoAwaitUnchanged(node.body);
    GenerateCodeAsPhase1(node);
  }

  /** Reading a function in canonical layout and generating from it gives the phase-1
      declaration of the same function with its body rewritten. */
  lemma {:induction false} DraftConverts(lead: string, fn: AsyncFuncs.AsyncFunction, ws: string)
    requires IsBlank(lead) && AsyncFuncs.WellFormedFunc(fn) && IsBlank(ws)
    ensures ParseDraft(lead + AsyncFuncs.AsyncSource(fn, ws)).Some?
    ensures GenerateCode(ParseDraft(lead + AsyncFuncs.AsyncSource(fn, ws)).value)
            == Some(AsyncFuncs.RenderFunc(
                 AsyncFuncs.AsyncFunction(fn.returnType, fn.name, fn.params, RewriteAwaits(fn.body))))
  {
    ParseDraftReads(lead, fn, ws);
    GenerateCodeAsPhase1(DraftNode("async", fn.returnType, fn.name, fn.params, fn.body));
  }

  // ---------------------------------------------------------------- the demo in main()

  /** The body the demo's grammar captures: the text after `{` and its whitespace, up to `}`. */
  function DemoBody(): string {
    "Data data = " + ("await " + ("download(url)" + (";" + DemoRest())))
  }

  /** The demo body after its await statement. */
  function DemoRest(): string {
    " \n       return " + "process(data);\n    "
  }

  /** The demo's `Data data = await download(url);` becomes `Data data = download(url).get();`
      and the rest of the body is kept. */
  lemma {:induction false} DemoBodyRewrite()
    ensures RewriteAwaits(DemoBody()) == "Data data = " + ("download(url)" + (".get();" + DemoRest()))
  {
    assert 'w' !in " \n       return " && 'w' !in "process(data);\n    ";
    OneAwaitLine("Data data = ", "download(url)", DemoRest());
  }

  /** The record the demo's grammar builds from `async int fetchData(int q, string url) {...}`. */
  function DemoNode(): DraftNode {
    DraftNode("async", "int", "fetchData", [Param("int", "q"), Param("string", "url")], DemoBody())
  }

  lemma {:induction false} DemoParams()
    ensures Join(ParamTexts([Param("int", "q"), Param("string", "url")]), ", ") == "int q, string url"
  {
    var ps := [Param("int", "q"), Param("string", "url")];
    assert ps[1..] == [Param("string", "url")];
    assert ParamTexts(ps[1..]) == [ParamText(Param("string", "url"))] + ParamTexts([]);
    assert ParamTexts(ps) == [ParamText(ps[0])] + ParamTexts(ps[1..]);
    assert ParamText(ps[0]) == "int q" by {
      assert "int" + " " + "q" == "int q";
    }
    assert ParamText(Param("string", "url")) == "string url" by {
      assert "string" + " " + "url" == "string url";
    }
    assert ParamTexts(ps) == ["int q", "string url"];
    assert ["int q", "string url"][1..] == ["string url"];
  }

  /** What the demo prints as the generated code. */
  lemma {:induction false} DemoGenerate()
    ensures GenerateCode(DemoNode())
            == Some("std::future<" + "int" + "> " + "fetchData" + "(" + "int q, string url" + ") "
                    + "{ return std::async("
                    + ("[=](){\n" + ("Data data = " + ("download(url)" + (".get();" + DemoRest()))) + "\n}")
                    + "); }\n")
  {
    DemoParams();
    DemoBodyRewrite();
  }
}
