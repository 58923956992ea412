/** Character classes, tokens and the sub-grammars shared by the two rewriting grammars
    (whitespace skip, keyword at a word boundary, identifiers, parameter lists, bodies).

    Every scanner works on the whole input `s` and a position `pos` in it, as a PEG
    parser does: it either fails (`None`) or captures a value and reports the position
    just after the text it consumed. Sequencing is `:-` on `Option`, and a failed
    sequence leaves nothing behind, which is PEG backtracking. */
module Lexer {

  datatype Option<+T> = None | Some(value: T) {
    predicate IsFailure() { None? }
    function PropagateFailure<U>(): Option<U> requires None? { None }
    function Extract(): T requires Some? { value }
  }

  /** What a scanner captured, and the position just after the text it consumed. */
  datatype Parsed<+T> = Parsed(value: T, end: nat)

  /** One `(type, name)` pair of a parameter list. */
  datatype Param = Param(typ: string, name: string)

  // ---------------------------------------------------------------- character classes

  /** Python's `\s` on text: the characters for which `str.isspace` holds. */
  predicate IsSpace(c: char) {
    c == ' ' || c == '\t' || c == '\n' || c == '\r' || c == '\U{B}' || c == '\U{C}'
    || ('\U{1C}' <= c <= '\U{1F}') || c == '\U{85}' || c == '\U{A0}' || c == '\U{1680}'
    || ('\U{2000}' <= c <= '\U{200A}') || c == '\U{2028}' || c == '\U{2029}'
    || c == '\U{202F}' || c == '\U{205F}' || c == '\U{3000}'
  }

  predicate IsLetter(c: char) { ('a' <= c <= 'z') || ('A' <= c <= 'Z') }

  predicate IsDigit(c: char) { '0' <= c <= '9' }

  /** `[a-zA-Z_]` */
  predicate IsIdentStart(c: char) { IsLetter(c) || c == '_' }

  /** `[a-zA-Z0-9_]`; also the word characters that `\b` looks at. */
  predicate IsIdentChar(c: char) { IsIdentStart(c) || IsDigit(c) }

  /** `[a-zA-Z0-9_:*]`, the tail of a parameter type. */
  predicate IsTypeChar(c: char) { IsIdentChar(c) || c == ':' || c == '*' }

  /** The character classes that the grammars repeat with `*` or `+`. */
  datatype CharClass = Whitespace | IdentChars | TypeChars | NoneOf(excluded: string)

  predicate InClass(c: char, cls: CharClass) {
    match cls
    case Whitespace => IsSpace(c)
    case IdentChars => IsIdentChar(c)
    case TypeChars => IsTypeChar(c)
    case NoneOf(excluded) => c !in excluded
  }

  /** The end of the longest run of `cls` characters that starts at `pos`: a greedy `[...]*`. */
  function RunEnd(s: string, pos: nat, cls: CharClass): (e: nat)
    requires pos <= |s|
    ensures pos <= e <= |s|
    decreases |s| - pos
  {
    if pos < |s| && InClass(s[pos], cls) then RunEnd(s, pos + 1, cls) else pos
  }

  /** The run is maximal: every character in it is in the class, the one after it is not. */
  lemma {:induction false} RunEndMaximal(s: string, pos: nat, cls: CharClass)
    requires pos <= |s|
    ensures forall i :: pos <= i < RunEnd(s, pos, cls) ==> InClass(s[i], cls)
    ensures RunEnd(s, pos, cls) < |s| ==> !InClass(s[RunEnd(s, pos, cls)], cls)
    decreases |s| - pos
  {
    if pos < |s| && InClass(s[pos], cls) {
      RunEndMaximal(s, pos + 1, cls);
    }
  }

  /** Conversely, a maximal run that starts at `pos` is the one `RunEnd` finds. */
  lemma {:induction false} RunEndIs(s: string, pos: nat, e: nat, cls: CharClass)
    requires pos <= e <= |s|
    requires forall i :: pos <= i < e ==> InClass(s[i], cls)
    requires e < |s| ==> !InClass(s[e], cls)
    ensures RunEnd(s, pos, cls) == e
  {
    RunEndMaximal(s, pos, cls);
  }

  /** `space = eat(r'[\s\n]*')`: the position after the whitespace that starts at `pos`. */
  function SkipSpace(s: string, pos: nat): (e: nat)
    requires pos <= |s|
    ensures pos <= e <= |s|
  {
    RunEnd(s, pos, Whitespace)
  }

  /** What `SkipSpace` skips: all of the whitespace at `pos`, and nothing else. */
  lemma {:induction false} SkipSpaceSpec(s: string, pos: nat)
    requires pos <= |s|
    ensures forall i :: pos <= i < SkipSpace(s, pos) ==> IsSpace(s[i])
    ensures SkipSpace(s, pos) < |s| ==> !IsSpace(s[SkipSpace(s, pos)])
  {
    RunEndMaximal(s, pos, Whitespace);
  }

  /** Skipping whitespace that is directly followed by something else. */
  lemma {:induction false} SkipSpaceIs(s: string, pos: nat, e: nat)
    requires pos <= e <= |s|
    requires forall i :: pos <= i < e ==> IsSpace(s[i])
    requires e < |s| ==> !IsSpace(s[e])
    ensures SkipSpace(s, pos) == e
  {
    RunEndIs(s, pos, e, Whitespace);
  }

  /** Nothing is skipped before a non-space. */
  lemma {:induction false} NoSkip(s: string, pos: nat)
    requires pos < |s| && !IsSpace(s[pos])
    ensures SkipSpace(s, pos) == pos
  {
    SkipSpaceIs(s, pos, pos);
  }

  /** One space before a non-space is skipped. */
  lemma {:induction false} OneSkip(s: string, pos: nat)
    requires pos + 1 < |s| && IsSpace(s[pos]) && !IsSpace(s[pos + 1])
    ensures SkipSpace(s, pos) == pos + 1
  {
    SkipSpaceIs(s, pos, pos + 1);
  }

  // ---------------------------------------------------------------- word boundaries

  /** `s[i]` exists and is a word character. */
  predicate IsWordAt(s: string, i: int) { 0 <= i < |s| && IsIdentChar(s[i]) }

  /** `\b` at position `p`: exactly one of the characters around `p` is a word character. */
  predicate Boundary(s: string, p: nat) { IsWordAt(s, p - 1) != IsWordAt(s, p) }

  /** `kw` occurs at `q`, character by character. */
  predicate TextAt(s: string, q: nat, kw: string)
    decreases |kw|
  {
    q + |kw| <= |s| && (kw == [] || (s[q] == kw[0] && TextAt(s, q + 1, kw[1..])))
  }

  /** `kw` occurs at `q` exactly when the slice of `s` there is `kw`. */
  lemma {:induction false} TextAtSlice(s: string, q: nat, kw: string)
    ensures TextAt(s, q, kw) <==> q + |kw| <= |s| && s[q..q + |kw|] == kw
    decreases |kw|
  {
    if kw != [] && q + |kw| <= |s| {
      TextAtSlice(s, q + 1, kw[1..]);
      assert s[q..q + |kw|] == [s[q]] + s[q + 1..q + |kw|];
      assert kw == [kw[0]] + kw[1..];
    }
  }

  /** `\bkw\b` matches at `q`: `kw` occurs there as a whole word. */
  predicate KeywordAt(s: string, q: nat, kw: string) {
    TextAt(s, q, kw) && Boundary(s, q) && Boundary(s, q + |kw|)
  }

  /** No position of `s` starts the word `kw`. */
  predicate NoKeyword(s: string, kw: string) {
    forall q :: 0 <= q <= |s| ==> !KeywordAt(s, q, kw)
  }

  /** `eat(r'[\s\S]*?(?=\bkw\b)')`: the lazy scan to the nearest position at or after `pos`
      where the whole word `kw` begins, or `None` when there is none (the eat fails). */
  function NextKeyword(s: string, pos: nat, kw: string): (r: Option<nat>)
    requires pos <= |s|
    ensures r.Some? ==> pos <= r.value <= |s|
    decreases |s| - pos
  {
    if KeywordAt(s, pos, kw) then Some(pos)
    else if pos == |s| then None
    else NextKeyword(s, pos + 1, kw)
  }

  /** The scan stops at the first occurrence of the word, and fails only when there is none. */
  lemma {:induction false} NextKeywordSpec(s: string, pos: nat, kw: string)
    requires pos <= |s|
    ensures NextKeyword(s, pos, kw).Some? ==> KeywordAt(s, NextKeyword(s, pos, kw).value, kw)
    ensures NextKeyword(s, pos, kw).Some? ==>
              forall q :: pos <= q < NextKeyword(s, pos, kw).value ==> !KeywordAt(s, q, kw)
    ensures NextKeyword(s, pos, kw).None? <==> forall q :: pos <= q <= |s| ==> !KeywordAt(s, q, kw)
    decreases |s| - pos
  {
    if !KeywordAt(s, pos, kw) && pos < |s| {
      NextKeywordSpec(s, pos + 1, kw);
    }
  }

  /** The first word occurrence at or after `pos` is the one the scan finds. */
  lemma {:induction false} NextKeywordIs(s: string, pos: nat, q: nat, kw: string)
    requires pos <= q <= |s| && KeywordAt(s, q, kw)
    requires forall i :: pos <= i < q ==> !KeywordAt(s, i, kw)
    ensures NextKeyword(s, pos, kw) == Some(q)
  {
    NextKeywordSpec(s, pos, kw);
  }

  /** `kw` is made of word characters only, as `async` and `await` are. */
  predicate IsWord(kw: string) {
    |kw| > 0 && forall i :: 0 <= i < |kw| ==> IsIdentChar(kw[i])
  }

  /** The two keywords of the rewriter are words, so `\b` can stand on either side. */
  lemma {:induction false} KeywordsAreWords()
    ensures IsWord("await") && IsWord("async")
  {
    assert forall i :: 0 <= i < 5 ==> IsIdentChar("await"[i]);
    assert forall i :: 0 <= i < 5 ==> IsIdentChar("async"[i]);
  }

  /** A stretch `L` of `s` that has no `kw` word of its own has none inside `s` either, when
      it starts after a non-word character and ends in one. */
  lemma {:induction false} NoKeywordWithin(s: string, pos: nat, l: string, kw: string)
    requires TextAt(s, pos, l) && NoKeyword(l, kw) && IsWord(kw)
    requires pos == 0 || !IsIdentChar(s[pos - 1])
    requires l == [] || !IsIdentChar(l[|l| - 1])
    ensures forall q :: pos <= q < pos + |l| ==> !KeywordAt(s, q, kw)
  {
    forall q | pos <= q < pos + |l| ensures !KeywordAt(s, q, kw) {
      var e := pos + |l|;
      if KeywordAt(s, q, kw) {
        if q + |kw| >= e {
          TextAtChar(s, q, kw, e - 1 - q);
          TextAtChar(s, pos, l, |l| - 1);
          assert false;
        } else {
          var j := q - pos;
          TextAtInside(s, pos, l, q, kw);
          TextAtChar(s, pos, l, j + |kw|);
          TextAtChar(s, pos, l, j + |kw| - 1);
          TextAtChar(s, q, kw, |kw| - 1);
          TextAtChar(s, pos, l, j);
          TextAtChar(s, q, kw, 0);
          if j > 0 {
            TextAtChar(s, pos, l, j - 1);
          }
          assert KeywordAt(l, j, kw);
          assert false;
        }
      }
    }
  }

  /** A literal with no `kw` word of its own, running to the end of `s`, leaves none in `s`
      when no word character is right before it: the scan from its start fails. */
  lemma {:induction false} NoKeywordToEnd(s: string, pos: nat, text: string, kw: string)
    requires TextAt(s, pos, text) && pos + |text| == |s| && NoKeyword(text, kw) && IsWord(kw)
    requires pos == 0 || !IsIdentChar(s[pos - 1])
    ensures NextKeyword(s, pos, kw) == None
  {
    forall q | pos <= q <= |s| ensures !KeywordAt(s, q, kw) {
      if KeywordAt(s, q, kw) {
        TextAtInside(s, pos, text, q, kw);
        if q > pos {
          TextAtChar(s, pos, text, q - pos - 1);
        }
        TextAtChar(s, pos, text, q - pos);
        TextAtChar(s, pos, text, q - pos + |kw| - 1);
        TextAtChar(s, q, kw, 0);
        TextAtChar(s, q, kw, |kw| - 1);
        if q + |kw| < |s| {
          TextAtChar(s, pos, text, q - pos + |kw|);
        }
        assert KeywordAt(text, q - pos, kw);
        assert false;
      }
    }
    NextKeywordSpec(s, pos, kw);
  }

  /** After a literal with no `kw` word that ends in a non-word character (or is empty after
      one), the scan finds the `kw` word written right after the literal. */
  lemma {:induction false} NextKeywordAfter(s: string, pos: nat, text: string, q: nat, kw: string)
    requires TextAt(s, pos, text) && NoKeyword(text, kw) && IsWord(kw) && q == pos + |text|
    requires text == [] || !IsIdentChar(text[|text| - 1])
    requires pos == 0 || !IsIdentChar(s[pos - 1])
    requires KeywordAt(s, q, kw)
    ensures NextKeyword(s, pos, kw) == Some(q)
  {
    NoKeywordWithin(s, pos, text, kw);
    NextKeywordIs(s, pos, q, kw);
  }

  /** The scan passes over a stretch with no `kw` word starting in it. */
  lemma {:induction false} NextKeywordPast(s: string, pos: nat, e: nat, kw: string)
    requires pos <= e <= |s| && forall q :: pos <= q < e ==> !KeywordAt(s, q, kw)
    ensures NextKeyword(s, pos, kw) == NextKeyword(s, e, kw)
    decreases e - pos
  {
    if pos < e {
      NextKeywordPast(s, pos + 1, e, kw);
    }
  }

  /** The text the scan skips before a `kw` word is empty or ends in a non-word character. */
  lemma {:induction false} SkippedEndsInNonWord(s: string, pos: nat, kw: string)
    requires pos <= |s| && IsWord(kw) && NextKeyword(s, pos, kw).Some?
    ensures var q := NextKeyword(s, pos, kw).value;
            q == pos || !IsIdentChar(s[q - 1])
  {
    var q := NextKeyword(s, pos, kw).value;
    NextKeywordSpec(s, pos, kw);
    TextAtChar(s, q, kw, 0);
  }

  /** A keyword written where the whitespace ends, followed by a non-word character, is the
      keyword token. */
  lemma {:induction false} KeywordTokenIs(s: string, pos: nat, a: nat, kw: string)
    requires pos <= |s| && SkipSpace(s, pos) == a && TextAt(s, a, kw) && IsWord(kw)
    requires a + |kw| < |s| && !IsIdentChar(s[a + |kw|])
    ensures KeywordToken(s, pos, kw) == Some(a + |kw|)
  {
    TextAtChar(s, a, kw, |kw| - 1);
  }

  /** A text found inside a text found in `s` is found inside the latter. */
  lemma {:induction false} TextAtInside(s: string, pos: nat, l: string, q: nat, kw: string)
    requires TextAt(s, pos, l) && TextAt(s, q, kw) && pos <= q && q + |kw| <= pos + |l|
    ensures TextAt(l, q - pos, kw)
    decreases |kw|
  {
    if kw != [] {
      TextAtChar(s, pos, l, q - pos);
      TextAtInside(s, pos, l, q + 1, kw[1..]);
    }
  }

  /** A `kw` word of `a + b` that lies inside `a` is a `kw` word of `a`. */
  lemma {:induction false} KeywordInLeft(a: string, b: string, q: nat, kw: string)
    requires IsWord(kw) && KeywordAt(a + b, q, kw) && q + |kw| <= |a|
    ensures KeywordAt(a, q, kw)
  {
    var s := a + b;
    TextAtSlice(s, 0, a);
    assert s[0..|a|] == a;
    TextAtInside(s, 0, a, q, kw);
    TextAtChar(s, q, kw, |kw| - 1);
  }

  /** A `kw` word of `a + b` that starts inside `b` is a `kw` word of `b`. */
  lemma {:induction false} KeywordInRight(a: string, b: string, q: nat, kw: string)
    requires IsWord(kw) && KeywordAt(a + b, q, kw) && |a| <= q
    ensures KeywordAt(b, q - |a|, kw)
  {
    var s := a + b;
    TextAtSlice(s, |a|, b);
    assert s[|a|..|a| + |b|] == b;
    TextAtInside(s, |a|, b, q, kw);
    TextAtChar(s, q, kw, 0);
  }

  /** Two texts without a `kw` word have none when joined, provided a non-word character
      sits on one side of the seam. */
  lemma {:induction false} NoKeywordConcat(a: string, b: string, kw: string)
    requires NoKeyword(a, kw) && NoKeyword(b, kw) && IsWord(kw)
    requires a == [] || b == [] || !IsIdentChar(a[|a| - 1]) || !IsIdentChar(b[0])
    ensures NoKeyword(a + b, kw)
  {
    forall q | 0 <= q <= |a + b| ensures !KeywordAt(a + b, q, kw) {
      if KeywordAt(a + b, q, kw) {
        if q + |kw| <= |a| {
          KeywordInLeft(a, b, q, kw);
          assert false;
        } else if |a| <= q {
          KeywordInRight(a, b, q, kw);
          assert false;
        } else {
          TextAtChar(a + b, q, kw, |a| - 1 - q);
          TextAtChar(a + b, q, kw, |a| - q);
          assert false;
        }
      }
    }
  }

  /** A text has no `kw` word when one letter of `kw` does not occur in it at all. */
  lemma {:induction false} NoKeywordByLetter(s: string, kw: string, k: nat)
    requires k < |kw| && kw[k] !in s
    ensures NoKeyword(s, kw)
  {
    forall q | 0 <= q <= |s| && TextAt(s, q, kw) ensures false {
      TextAtChar(s, q, kw, k);
    }
  }

  /** Concatenation of texts is associative. */
  lemma {:induction false} AppendAssoc(x: string, y: string, z: string)
    ensures x + (y + z) == (x + y) + z
  {
  }

  /** `TextAt` of a concatenation is `TextAt` of both parts, one after the other. */
  lemma {:induction false} TextAtAppend(s: string, a: nat, x: string, y: string)
    requires TextAt(s, a, x + y)
    ensures TextAt(s, a, x) && TextAt(s, a + |x|, y)
    decreases |x|
  {
    if x == [] {
      assert x + y == y;
    } else {
      assert (x + y)[0] == x[0] && (x + y)[1..] == x[1..] + y;
      TextAtAppend(s, a + 1, x[1..], y);
    }
  }

  /** Characters of a text found at `a`. */
  lemma {:induction false} TextAtChar(s: string, a: nat, x: string, i: nat)
    requires TextAt(s, a, x) && i < |x|
    ensures s[a + i] == x[i]
    decreases i
  {
    if i > 0 {
      TextAtChar(s, a + 1, x[1..], i - 1);
    }
  }

  // ---------------------------------------------------------------- tokens

  /** `tok(r'kw\b')`: optional whitespace, then `kw` followed by a word boundary.
      The keyword text it pushes is always `kw`, so only the end position is kept. */
  function KeywordToken(s: string, pos: nat, kw: string): (r: Option<nat>)
    requires pos <= |s|
    ensures r.Some? ==> pos + |kw| <= r.value <= |s|
  {
    var a := SkipSpace(s, pos);
    if TextAt(s, a, kw) && Boundary(s, a + |kw|) then Some(a + |kw|) else None
  }

  /** `skip(c)` for a one-character pattern: optional whitespace, then `c`. */
  function Punct(s: string, pos: nat, c: char): (r: Option<nat>)
    requires pos <= |s|
    ensures r.Some? ==> pos < r.value <= |s| && s[r.value - 1] == c
  {
    var a := SkipSpace(s, pos);
    if a < |s| && s[a] == c then Some(a + 1) else None
  }

  /** Where the whitespace from `pos` ends at a `c`, `skip(c)` takes both. */
  lemma {:induction false} PunctIs(s: string, pos: nat, a: nat, c: char)
    requires pos <= |s| && a < |s| && SkipSpace(s, pos) == a && s[a] == c
    ensures Punct(s, pos, c) == Some(a + 1)
  {
  }

  /** Every character of `t` is in `cls`. */
  predicate AllIn(t: string, cls: CharClass)
    decreases |t|
  {
    t == [] || (InClass(t[0], cls) && AllIn(t[1..], cls))
  }

  /** The characters of a text whose characters are all in `cls`. */
  lemma {:induction false} AllInChar(t: string, cls: CharClass, i: nat)
    requires AllIn(t, cls) && i < |t|
    ensures InClass(t[i], cls)
    decreases i
  {
    if i > 0 {
      AllInChar(t[1..], cls, i - 1);
    }
  }

  /** A stretch of `s` whose characters are all in `cls`. */
  lemma {:induction false} AllInRun(s: string, a: nat, e: nat, cls: CharClass)
    requires a <= e <= |s| && forall i :: a <= i < e ==> InClass(s[i], cls)
    ensures AllIn(s[a..e], cls)
    decreases e - a
  {
    if a < e {
      assert s[a..e][1..] == s[a + 1..e];
      AllInRun(s, a + 1, e, cls);
    }
  }

  /** `[a-zA-Z_][a-zA-Z0-9_]*` */
  predicate IsIdentifier(t: string) {
    |t| > 0 && IsIdentStart(t[0]) && AllIn(t[1..], IdentChars)
  }

  /** `[a-zA-Z_][a-zA-Z0-9_:*]*` */
  predicate IsTypeName(t: string) {
    |t| > 0 && IsIdentStart(t[0]) && AllIn(t[1..], TypeChars)
  }

  /** `[a-zA-Z_][a-zA-Z0-9_]*` matched at `a` (no whitespace skip). */
  function IdentAt(s: string, a: nat): (r: Option<Parsed<string>>)
    requires a <= |s|
    ensures r.Some? ==> a < r.value.end <= |s|
  {
    if a < |s| && IsIdentStart(s[a]) then
      var e := RunEnd(s, a + 1, IdentChars);
      Some(Parsed(s[a..e], e))
    else None
  }

  /** The match is the longest identifier at `a`, and there is one exactly when `s[a]` can start it. */
  lemma {:induction false} IdentAtSpec(s: string, a: nat)
    requires a <= |s|
    ensures IdentAt(s, a).Some? <==> a < |s| && IsIdentStart(s[a])
    ensures IdentAt(s, a).Some? ==> IdentAt(s, a).value.value == s[a..IdentAt(s, a).value.end]
    ensures IdentAt(s, a).Some? ==> IsIdentifier(IdentAt(s, a).value.value)
    ensures IdentAt(s, a).Some? && IdentAt(s, a).value.end < |s| ==> !IsIdentChar(s[IdentAt(s, a).value.end])
  {
    if a < |s| && IsIdentStart(s[a]) {
      var e := RunEnd(s, a + 1, IdentChars);
      RunEndMaximal(s, a + 1, IdentChars);
      AllInRun(s, a + 1, e, IdentChars);
      assert s[a..e][1..] == s[a + 1..e];
    }
  }

  /** An identifier that is not followed by an identifier character is read whole. */
  lemma {:induction false} IdentAtIs(s: string, a: nat, id: string)
    requires TextAt(s, a, id) && IsIdentifier(id)
    requires a + |id| < |s| ==> !IsIdentChar(s[a + |id|])
    ensures IdentAt(s, a) == Some(Parsed(id, a + |id|))
  {
    TextAtChar(s, a, id, 0);
    forall i | a + 1 <= i < a + |id| ensures InClass(s[i], IdentChars) {
      TextAtChar(s, a, id, i - a);
      AllInChar(id[1..], IdentChars, i - a - 1);
    }
    RunEndIs(s, a + 1, a + |id|, IdentChars);
    TextAtSlice(s, a, id);
  }

  /** `tok(r'[a-zA-Z_][a-zA-Z0-9_]*')`: whitespace, then the longest identifier. */
  function IdentToken(s: string, pos: nat): (r: Option<Parsed<string>>)
    requires pos <= |s|
    ensures r.Some? ==> pos < r.value.end <= |s|
  {
    IdentAt(s, SkipSpace(s, pos))
  }

  /** `tok(r'[a-zA-Z_][a-zA-Z0-9_:*]*')`: whitespace, then the longest parameter type. */
  function TypeToken(s: string, pos: nat): (r: Option<Parsed<string>>)
    requires pos <= |s|
    ensures r.Some? ==> pos < r.value.end <= |s|
  {
    var a := SkipSpace(s, pos);
    if a < |s| && IsIdentStart(s[a]) then
      var e := RunEnd(s, a + 1, TypeChars);
      Some(Parsed(s[a..e], e))
    else None
  }

  /** The token is the longest type name after the whitespace. */
  lemma {:induction false} TypeTokenSpec(s: string, pos: nat)
    requires pos <= |s|
    ensures TypeToken(s, pos).Some? <==> SkipSpace(s, pos) < |s| && IsIdentStart(s[SkipSpace(s, pos)])
    ensures TypeToken(s, pos).Some? ==>
              TypeToken(s, pos).value.value == s[SkipSpace(s, pos)..TypeToken(s, pos).value.end]
    ensures TypeToken(s, pos).Some? ==> IsTypeName(TypeToken(s, pos).value.value)
    ensures TypeToken(s, pos).Some? && TypeToken(s, pos).value.end < |s| ==>
              !IsTypeChar(s[TypeToken(s, pos).value.end])
  {
    var a := SkipSpace(s, pos);
    if a < |s| && IsIdentStart(s[a]) {
      var e := RunEnd(s, a + 1, TypeChars);
      RunEndMaximal(s, a + 1, TypeChars);
      AllInRun(s, a + 1, e, TypeChars);
      assert s[a..e][1..] == s[a + 1..e];
    }
  }

  /** A type name where the whitespace ends, not followed by a type character, is read whole. */
  lemma {:induction false} TypeTokenIs(s: string, pos: nat, a: nat, t: string)
    requires pos <= |s| && SkipSpace(s, pos) == a && TextAt(s, a, t) && IsTypeName(t)
    requires a + |t| < |s| ==> !IsTypeChar(s[a + |t|])
    ensures TypeToken(s, pos) == Some(Parsed(t, a + |t|))
  {
    TextAtChar(s, a, t, 0);
    forall i | a + 1 <= i < a + |t| ensures InClass(s[i], TypeChars) {
      TextAtChar(s, a, t, i - a);
      AllInChar(t[1..], TypeChars, i - a - 1);
    }
    RunEndIs(s, a + 1, a + |t|, TypeChars);
    TextAtSlice(s, a, t);
  }

  /** `.*?>` from `j`: the position after the first `>`, provided no newline comes before it
      (`.` does not match a newline). */
  function CloseAngle(s: string, j: nat): (r: Option<nat>)
    requires j <= |s|
    ensures r.Some? ==> j < r.value <= |s| && s[r.value - 1] == '>'
    decreases |s| - j
  {
    if j == |s| || s[j] == '\n' then None
    else if s[j] == '>' then Some(j + 1)
    else CloseAngle(s, j + 1)
  }

  /** The lazy match stops at the first `>`; it fails exactly when a newline or the end of the
      text comes first. */
  lemma {:induction false} CloseAngleSpec(s: string, j: nat)
    requires j <= |s|
    ensures CloseAngle(s, j).Some? ==>
              forall i :: j <= i < CloseAngle(s, j).value - 1 ==> s[i] != '>' && s[i] != '\n'
    ensures CloseAngle(s, j).None? ==>
              forall k :: j <= k < |s| && s[k] == '>' ==> exists i :: j <= i < k && s[i] == '\n'
    decreases |s| - j
  {
    if j < |s| && s[j] != '\n' && s[j] != '>' {
      CloseAngleSpec(s, j + 1);
    }
  }

  /** The spelling that opens a future return type. */
  const FuturePrefix: string := "std::future<"

  /** `tok(r'(?:std::future<.*?>|[a-zA-Z_][a-zA-Z0-9_]*)')`: whitespace, then either a
      `std::future<...>` spelling closed by its first `>` on the same line, or else an
      identifier. */
  function ReturnTypeToken(s: string, pos: nat): (r: Option<Parsed<string>>)
    requires pos <= |s|
    ensures r.Some? ==> pos < r.value.end <= |s|
  {
    var a := SkipSpace(s, pos);
    var future := if TextAt(s, a, FuturePrefix) then CloseAngle(s, a + |FuturePrefix|) else None;
    match future
    case Some(e) => Some(Parsed(s[a..e], e))
    case None => IdentAt(s, a)
  }

  /** A text does not occur where one of its characters is missing. */
  lemma {:induction false} TextAtMismatch(s: string, a: nat, x: string, k: nat)
    requires k < |x| && (a + k < |s| ==> s[a + k] != x[k])
    ensures !TextAt(s, a, x)
  {
    if TextAt(s, a, x) {
      TextAtChar(s, a, x, k);
    }
  }

  /** A whole identifier is not the start of `std::future<`, whose fourth character is `:`. */
  lemma {:induction false} NotFuture(s: string, a: nat, id: string)
    requires TextAt(s, a, id) && IsIdentifier(id)
    requires a + |id| < |s| && !IsIdentChar(s[a + |id|]) && s[a + |id|] != ':'
    ensures !TextAt(s, a, FuturePrefix)
  {
    if |id| > 3 {
      TextAtChar(s, a, id, 3);
      AllInChar(id[1..], IdentChars, 2);
      TextAtMismatch(s, a, FuturePrefix, 3);
    } else {
      TextAtMismatch(s, a, FuturePrefix, |id|);
    }
  }

  /** An identifier return type: the text there does not start with `std::future<`. */
  lemma {:induction false} ReturnTypeTokenIdent(s: string, pos: nat, a: nat, id: string)
    requires pos <= |s| && SkipSpace(s, pos) == a && TextAt(s, a, id) && IsIdentifier(id)
    requires a + |id| < |s| && !IsIdentChar(s[a + |id|]) && s[a + |id|] != ':'
    ensures ReturnTypeToken(s, pos) == Some(Parsed(id, a + |id|))
  {
    NotFuture(s, a, id);
    IdentAtIs(s, a, id);
  }

  /** `tok(r'[^...]*')` and, when `nonEmpty`, `tok(r'[^...]+')`: whitespace, then the longest
      run of characters that are not in `excluded`. */
  function RunToken(s: string, pos: nat, excluded: string, nonEmpty: bool): (r: Option<Parsed<string>>)
    requires pos <= |s|
    ensures r.Some? ==> SkipSpace(s, pos) <= r.value.end <= |s|
    ensures nonEmpty && r.Some? ==> pos < r.value.end
    ensures !nonEmpty ==> r.Some?
  {
    var a := SkipSpace(s, pos);
    var e := RunEnd(s, a, NoneOf(excluded));
    if nonEmpty && e == a then None else Some(Parsed(s[a..e], e))
  }

  /** The token skips the leading whitespace and then takes every character up to the first
      excluded one (or the end of the text); with `nonEmpty` it fails when that run is empty. */
  lemma {:induction false} RunTokenSpec(s: string, pos: nat, excluded: string, nonEmpty: bool)
    requires pos <= |s|
    ensures RunToken(s, pos, excluded, nonEmpty).Some? <==>
              !nonEmpty || (SkipSpace(s, pos) < |s| && s[SkipSpace(s, pos)] !in excluded)
    ensures RunToken(s, pos, excluded, nonEmpty).Some? ==>
              var t := RunToken(s, pos, excluded, nonEmpty).value;
              t.value == s[SkipSpace(s, pos)..t.end]
              && (forall i :: 0 <= i < |t.value| ==> t.value[i] !in excluded)
              && (t.end < |s| ==> s[t.end] in excluded)
  {
    RunEndMaximal(s, SkipSpace(s, pos), NoneOf(excluded));
  }

  /** A run of non-excluded characters that starts where the whitespace ends and stops at an
      excluded character is the token. */
  lemma {:induction false} RunTokenIs(s: string, pos: nat, a: nat, t: string, excluded: string, nonEmpty: bool)
    requires pos <= |s| && SkipSpace(s, pos) == a && TextAt(s, a, t)
    requires a + |t| < |s| && s[a + |t|] in excluded
    requires forall i :: 0 <= i < |t| ==> t[i] !in excluded
    requires nonEmpty ==> |t| > 0
    ensures RunToken(s, pos, excluded, nonEmpty) == Some(Parsed(t, a + |t|))
  {
    forall i | a <= i < a + |t| ensures InClass(s[i], NoneOf(excluded)) {
      TextAtChar(s, a, t, i - a);
    }
    RunEndIs(s, a, a + |t|, NoneOf(excluded));
    TextAtSlice(s, a, t);
  }

  // ---------------------------------------------------------------- shared sub-grammars

  /** `param = group(seq(param_type, space, param_name))` */
  function ParamAt(s: string, pos: nat): (r: Option<Parsed<Param>>)
    requires pos <= |s|
    ensures r.Some? ==> pos < r.value.end <= |s|
  {
    var t :- TypeToken(s, pos);
    var n :- IdentToken(s, SkipSpace(s, t.end));
    Some(Parsed(Param(t.value, n.value), n.end))
  }

  /** `seq(skip(','), param)`: one round of the repetition below. */
  function CommaParam(s: string, pos: nat): (r: Option<Parsed<Param>>)
    requires pos <= |s|
    ensures r.Some? ==> pos < r.value.end <= |s|
  {
    var c :- Punct(s, pos, ',');
    ParamAt(s, c)
  }

  /** `many(seq(skip(','), param))`: further parameters, each after a comma; the repetition
      stops, without consuming the comma, at the first one that does not parse. */
  function MoreParams(s: string, pos: nat): (r: Parsed<seq<Param>>)
    requires pos <= |s|
    ensures pos <= r.end <= |s|
    decreases |s| - pos
  {
    match CommaParam(s, pos)
    case None => Parsed([], pos)
    case Some(p) =>
      var rest := MoreParams(s, p.end);
      Parsed([p.value] + rest.value, rest.end)
  }

  /** `list_of(param, skip(','))`: one parameter, then `MoreParams`. */
  function ParamListAt(s: string, pos: nat): (r: Option<Parsed<seq<Param>>>)
    requires pos <= |s|
    ensures r.Some? ==> pos < r.value.end <= |s| && |r.value.value| >= 1
  {
    match ParamAt(s, pos)
    case None => None
    case Some(first) =>
      var rest := MoreParams(s, first.end);
      Some(Parsed([first.value] + rest.value, rest.end))
  }

  /** `params = seq(skip('\('), group(list_of(param, skip(','))), skip('\)'))`:
      at least one parameter, comma separated, in parentheses. */
  function ParamsAt(s: string, pos: nat): (r: Option<Parsed<seq<Param>>>)
    requires pos <= |s|
    ensures r.Some? ==> pos < r.value.end <= |s|
    ensures r.Some? ==> |r.value.value| >= 1
  {
    var o :- Punct(s, pos, '(');
    var ps :- ParamListAt(s, o);
    var c :- Punct(s, ps.end, ')');
    Some(Parsed(ps.value, c))
  }

  /** `body = seq(skip('{'), tok(r'[^}]*'), skip('}'))`: after `{` and whitespace, everything
      up to the first `}`; there is no brace counting. */
  function BodyAt(s: string, pos: nat): (r: Option<Parsed<string>>)
    requires pos <= |s|
    ensures r.Some? ==> pos < r.value.end <= |s| && s[r.value.end - 1] == '}'
  {
    var o :- Punct(s, pos, '{');
    var b := RunToken(s, o, "}", false).value;
    var c :- Punct(s, b.end, '}');
    Some(Parsed(b.value, c))
  }

  /** The captured body: it starts after the whitespace that follows `{`, holds no `}`, and is
      directly followed by the first `}`; so a nested `}` ends the body early. The body is
      missing only when there is no `{` or no `}` after it. */
  lemma {:induction false} BodyAtSpec(s: string, pos: nat)
    requires pos <= |s|
    ensures BodyAt(s, pos).Some? <==>
              Punct(s, pos, '{').Some? && '}' in s[Punct(s, pos, '{').value..]
    ensures BodyAt(s, pos).Some? ==>
              var b := BodyAt(s, pos).value;
              var a := SkipSpace(s, Punct(s, pos, '{').value);
              b.value == s[a..b.end - 1] && '}' !in b.value
  {
    var o := Punct(s, pos, '{');
    if o.Some? {
      var a := SkipSpace(s, o.value);
      RunTokenSpec(s, o.value, "}", false);
      var b := RunToken(s, o.value, "}", false).value;
      SkipSpaceSpec(s, o.value);
      if b.end < |s| {
        assert SkipSpace(s, b.end) == b.end;
        assert s[b.end] == '}';
        assert s[o.value..][b.end - o.value] == '}';
      } else {
        assert forall i :: o.value <= i < a ==> s[i] != '}';
        assert forall i :: a <= i < |s| ==> s[i] == s[a..b.end][i - a];
        assert forall i :: o.value <= i < |s| ==> s[i] != '}';
        assert '}' !in s[o.value..];
      }
    }
  }

  // ---------------------------------------------------------------- joining

  /** Python's `sep.join(items)`. */
  function Join(items: seq<string>, sep: string): (r: string)
    decreases |items|
  {
    if |items| == 0 then ""
    else if |items| == 1 then items[0]
    else items[0] + sep + Join(items[1..], sep)
  }

  /** `f"{t} {n}"` for one parameter. */
  function ParamText(p: Param): string {
    p.typ + " " + p.name
  }

  function ParamTexts(ps: seq<Param>): (r: seq<string>)
    ensures |r| == |ps|
    ensures forall i :: 0 <= i < |ps| ==> r[i] == ParamText(ps[i])
  {
    if ps == [] then [] else [ParamText(ps[0])] + ParamTexts(ps[1..])
  }

  /** `', '.join(f"{t} {n}" for t, n in params)` */
  function JoinParams(ps: seq<Param>): string {
    Join(ParamTexts(ps), ", ")
  }

  /** What follows the first item of `sep.join(items)`: `sep` and an item, for every later item. */
  function Prefixed(items: seq<string>, sep: string): string
    decreases |items|
  {
    if items == [] then "" else sep + items[0] + Prefixed(items[1..], sep)
  }

  /** A join of at least one item is that item followed by the separated rest. */
  lemma {:induction false} JoinFirst(items: seq<string>, sep: string)
    requires |items| >= 1
    ensures Join(items, sep) == items[0] + Prefixed(items[1..], sep)
    decreases |items|
  {
    if |items| == 1 {
      assert items[1..] == [];
    } else {
      JoinFirst(items[1..], sep);
      assert items[1..][1..] == items[2..];
    }
  }

  // ---------------------------------------------------------------- source shapes

  /** A parameter the grammar can read back: a type name and an identifier. */
  predicate WellFormedParam(p: Param) {
    IsTypeName(p.typ) && IsIdentifier(p.name)
  }

  /** Every parameter of the list is well formed. */
  predicate WellFormedParams(ps: seq<Param>)
    decreases |ps|
  {
    ps == [] || (WellFormedParam(ps[0]) && WellFormedParams(ps[1..]))
  }

  /** A text made of whitespace only (possibly empty). */
  predicate IsBlank(ws: string) {
    AllIn(ws, Whitespace)
  }

  /** A single space is blank. */
  lemma {:induction false} OneSpaceIsBlank()
    ensures IsBlank(" ")
  {
    assert AllIn(" "[1..], Whitespace);
  }

  /** Written whitespace that is followed by something else is what `space` skips. */
  lemma {:induction false} BlankSkip(s: string, p: nat, ws: string)
    requires TextAt(s, p, ws) && IsBlank(ws) && p + |ws| < |s| && !IsSpace(s[p + |ws|])
    ensures SkipSpace(s, p) == p + |ws|
  {
    forall i | p <= i < p + |ws| ensures IsSpace(s[i]) {
      TextAtChar(s, p, ws, i - p);
      AllInChar(ws, Whitespace, i - p);
    }
    SkipSpaceIs(s, p, p + |ws|);
  }

  /** A body the grammar can read back: it holds no `}` and does not start with whitespace
      (the token skips that). */
  predicate WellFormedBody(b: string) {
    '}' !in b && (b == [] || !IsSpace(b[0]))
  }

  /** `(t1 n1, t2 n2)`: a parameter list as it is written. */
  function ParamsSource(ps: seq<Param>): string {
    "(" + JoinParams(ps) + ")"
  }

  /** `{<ws><body>}`: a body as it is written, with the whitespace the token skips. */
  function BodySource(ws: string, body: string): string {
    "{" + ws + body + "}"
  }

  /** A written parameter: its type, one space, its name. */
  lemma {:induction false} ParamTextSplit(s: string, a: nat, p: Param)
    requires TextAt(s, a, ParamText(p))
    ensures TextAt(s, a, p.typ) && s[a + |p.typ|] == ' ' && TextAt(s, a + |p.typ| + 1, p.name)
    ensures a + |ParamText(p)| == a + |p.typ| + 1 + |p.name|
  {
    TextAtAppend(s, a, p.typ + " ", p.name);
    TextAtAppend(s, a, p.typ, " ");
    TextAtChar(s, a + |p.typ|, " ", 0);
  }

  /** `param` is the type token, the whitespace and the name token. */
  lemma {:induction false} ParamAtStep(s: string, pos: nat, p: Param, m: nat, e: nat)
    requires pos <= |s| && m < |s| && TypeToken(s, pos) == Some(Parsed(p.typ, m))
    requires SkipSpace(s, m) == m + 1 && SkipSpace(s, m + 1) == m + 1
    requires IdentAt(s, m + 1) == Some(Parsed(p.name, e))
    ensures ParamAt(s, pos) == Some(Parsed(p, e))
  {
  }

  /** One written parameter is read back as itself. */
  lemma {:induction false} ParamAtIs(s: string, pos: nat, a: nat, p: Param)
    requires pos <= |s| && SkipSpace(s, pos) == a
    requires TextAt(s, a, ParamText(p)) && WellFormedParam(p)
    requires a + |ParamText(p)| < |s| ==> !IsIdentChar(s[a + |ParamText(p)|])
    ensures ParamAt(s, pos) == Some(Parsed(p, a + |ParamText(p)|))
  {
    var m := a + |p.typ|;
    ParamTextSplit(s, a, p);
    TypeTokenIs(s, pos, a, p.typ);
    TextAtChar(s, m + 1, p.name, 0);
    OneSkip(s, m);
    NoSkip(s, m + 1);
    IdentAtIs(s, m + 1, p.name);
    ParamAtStep(s, pos, p, m, m + 1 + |p.name|);
  }

  /** The repetition of `, param` stops at a `)`. */
  lemma {:induction false} MoreParamsAtClose(s: string, a: nat)
    requires a < |s| && s[a] == ')'
    ensures MoreParams(s, a) == Parsed([], a)
  {
    NoSkip(s, a);
  }

  /** A separated tail starts with the separator. */
  lemma {:induction false} PrefixedStart(items: seq<string>, sep: string)
    requires items != [] && sep != []
    ensures Prefixed(items, sep)[0] == sep[0]
  {
  }

  /** `, t2 n2, t3 n3`: the parameters after the first, as they are written. */
  function MoreParamsSource(ps: seq<Param>): string
    decreases |ps|
  {
    if ps == [] then "" else ", " + ParamText(ps[0]) + MoreParamsSource(ps[1..])
  }

  /** The written parameter tail is the tail of the join. */
  lemma {:induction false} MoreParamsSourceIsTail(ps: seq<Param>)
    ensures MoreParamsSource(ps) == Prefixed(ParamTexts(ps), ", ")
    decreases |ps|
  {
    if ps != [] {
      assert ParamTexts(ps)[1..] == ParamTexts(ps[1..]);
      MoreParamsSourceIsTail(ps[1..]);
    }
  }

  /** `, <param>` written at `a`, for a well-formed parameter. */
  predicate CommaParamAt(s: string, a: nat, p: Param) {
    TextAt(s, a, ", " + ParamText(p)) && WellFormedParam(p)
  }

  /** The parameters `ps` written one after the other from `a` to `e`, each after `, `. */
  predicate ParamsTailAt(s: string, a: nat, ps: seq<Param>, e: nat)
    decreases |ps|
  {
    if ps == [] then a == e
    else CommaParamAt(s, a, ps[0]) && ParamsTailAt(s, a + 2 + |ParamText(ps[0])|, ps[1..], e)
  }

  /** The written tail of well-formed parameters is such a sequence of written parameters. */
  lemma {:induction false} MoreParamsSourceAt(s: string, a: nat, ps: seq<Param>)
    requires TextAt(s, a, MoreParamsSource(ps)) && WellFormedParams(ps)
    ensures ParamsTailAt(s, a, ps, a + |MoreParamsSource(ps)|)
    decreases |ps|
  {
    if ps != [] {
      var first := ", " + ParamText(ps[0]);
      var rest := MoreParamsSource(ps[1..]);
      assert MoreParamsSource(ps) == first + rest;
      TextAtAppend(s, a, first, rest);
      MoreParamsSourceAt(s, a + |first|, ps[1..]);
    }
  }

  /** One round of the repetition reads `, <param>`, up to a non-word character. */
  lemma {:induction false} CommaParamIs(s: string, a: nat, p: Param)
    requires CommaParamAt(s, a, p)
    requires a + 2 + |ParamText(p)| < |s| && !IsIdentChar(s[a + 2 + |ParamText(p)|])
    ensures CommaParam(s, a) == Some(Parsed(p, a + 2 + |ParamText(p)|))
  {
    var first := ParamText(p);
    TextAtAppend(s, a, ", ", first);
    TextAtChar(s, a, ", ", 0);
    TextAtChar(s, a, ", ", 1);
    NoSkip(s, a);
    PunctIs(s, a, a, ',');
    TextAtChar(s, a + 2, first, 0);
    OneSkip(s, a + 1);
    ParamAtIs(s, a + 1, a + 2, p);
  }

  /** The first written parameter of a tail that ends at a `)` is read by one round. */
  lemma {:induction false} CommaParamFirst(s: string, a: nat, ps: seq<Param>, e: nat)
    requires ps != [] && ParamsTailAt(s, a, ps, e) && e < |s| && s[e] == ')'
    ensures var m := a + 2 + |ParamText(ps[0])|;
            CommaParam(s, a) == Some(Parsed(ps[0], m)) && ParamsTailAt(s, m, ps[1..], e)
  {
    var m := a + 2 + |ParamText(ps[0])|;
    if ps[1..] != [] {
      TextAtChar(s, m, ", " + ParamText(ps[1..][0]), 0);
    }
    CommaParamIs(s, a, ps[0]);
  }

  /** A round that reads the first parameter, followed by repetitions that read the rest. */
  lemma {:induction false} MoreParamsStep(s: string, a: nat, m: nat, ps: seq<Param>, e: nat)
    requires a <= |s| && ps != [] && CommaParam(s, a) == Some(Parsed(ps[0], m))
    requires MoreParams(s, m) == Parsed(ps[1..], e)
    ensures MoreParams(s, a) == Parsed(ps, e)
  {
    assert [ps[0]] + ps[1..] == ps;
  }

  /** Parameters written after `, ` each, up to the `)` at `e`, are read back by the repetition. */
  lemma {:induction false} MoreParamsIs(s: string, a: nat, ps: seq<Param>, e: nat)
    requires ParamsTailAt(s, a, ps, e) && e < |s| && s[e] == ')'
    ensures MoreParams(s, a) == Parsed(ps, e)
    decreases |ps|, 1
  {
    if ps == [] {
      MoreParamsAtClose(s, a);
    } else {
      MoreParamsCons(s, a, ps, e);
    }
  }

  /** The non-empty case of `MoreParamsIs`: one round, then the rest. */
  lemma {:induction false} MoreParamsCons(s: string, a: nat, ps: seq<Param>, e: nat)
    requires ps != [] && ParamsTailAt(s, a, ps, e) && e < |s| && s[e] == ')'
    ensures MoreParams(s, a) == Parsed(ps, e)
    decreases |ps|, 0
  {
    var m := a + 2 + |ParamText(ps[0])|;
    CommaParamFirst(s, a, ps, e);
    MoreParamsIs(s, m, ps[1..], e);
    MoreParamsStep(s, a, m, ps, e);
  }

  /** A joined parameter list is its first parameter followed by the written tail. */
  lemma {:induction false} JoinParamsFirst(ps: seq<Param>)
    requires |ps| >= 1
    ensures JoinParams(ps) == ParamText(ps[0]) + MoreParamsSource(ps[1..])
  {
    JoinFirst(ParamTexts(ps), ", ");
    assert ParamTexts(ps)[1..] == ParamTexts(ps[1..]);
    MoreParamsSourceIsTail(ps[1..]);
  }

  /** `list_of(param, skip(','))` is one parameter and then the repetition. */
  lemma {:induction false} ParamListAtStep(s: string, a: nat, ps: seq<Param>, m: nat, e: nat)
    requires a <= |s| && |ps| >= 1
    requires ParamAt(s, a) == Some(Parsed(ps[0], m)) && MoreParams(s, m) == Parsed(ps[1..], e)
    ensures ParamListAt(s, a) == Some(Parsed(ps, e))
  {
    assert [ps[0]] + ps[1..] == ps;
  }

  /** Parameters written `t1 n1, t2 n2` up to a `)` are read back as themselves. */
  lemma {:induction false} ParamListAtIs(s: string, a: nat, ps: seq<Param>, e: nat)
    requires |ps| >= 1 && WellFormedParam(ps[0]) && TextAt(s, a, ParamText(ps[0]))
    requires ParamsTailAt(s, a + |ParamText(ps[0])|, ps[1..], e) && e < |s| && s[e] == ')'
    ensures ParamListAt(s, a) == Some(Parsed(ps, e))
  {
    var m := a + |ParamText(ps[0])|;
    FirstParamIs(s, a, ps, e);
    MoreParamsIs(s, m, ps[1..], e);
    ParamListAtStep(s, a, ps, m, e);
  }

  /** The first written parameter of a list that ends at a `)` is read whole. */
  lemma {:induction false} FirstParamIs(s: string, a: nat, ps: seq<Param>, e: nat)
    requires |ps| >= 1 && WellFormedParam(ps[0]) && TextAt(s, a, ParamText(ps[0]))
    requires ParamsTailAt(s, a + |ParamText(ps[0])|, ps[1..], e) && e < |s| && s[e] == ')'
    ensures ParamAt(s, a) == Some(Parsed(ps[0], a + |ParamText(ps[0])|))
  {
    var m := a + |ParamText(ps[0])|;
    if ps[1..] != [] {
      TextAtChar(s, m, ", " + ParamText(ps[1..][0]), 0);
    }
    TextAtChar(s, a, ParamText(ps[0]), 0);
    NoSkip(s, a);
    ParamAtIs(s, a, a, ps[0]);
  }

  /** `(`, well-formed parameters written one after the other, and the `)` at `e`. */
  predicate ParamsLaidOut(s: string, a: nat, ps: seq<Param>, e: nat) {
    a < |s| && s[a] == '(' && |ps| >= 1 && WellFormedParam(ps[0]) && TextAt(s, a + 1, ParamText(ps[0]))
    && ParamsTailAt(s, a + 1 + |ParamText(ps[0])|, ps[1..], e) && e < |s| && s[e] == ')'
  }

  /** A written parameter list is laid out as `(`, the first parameter, the tail and `)`. */
  lemma {:induction false} ParamsSourceSplit(s: string, a: nat, ps: seq<Param>, z: nat)
    requires TextAt(s, a, ParamsSource(ps)) && |ps| >= 1 && WellFormedParams(ps) && z == a + |ParamsSource(ps)|
    ensures ParamsLaidOut(s, a, ps, z - 1)
  {
    var first := ParamText(ps[0]);
    var rest := MoreParamsSource(ps[1..]);
    JoinParamsFirst(ps);
    assert ParamsSource(ps) == "(" + first + rest + ")";
    TextAtChar(s, a, ParamsSource(ps), 0);
    TextAtChar(s, a, ParamsSource(ps), 1 + |first| + |rest|);
    TextAtAppend(s, a, "(" + first + rest, ")");
    TextAtAppend(s, a, "(" + first, rest);
    TextAtAppend(s, a, "(", first);
    MoreParamsSourceAt(s, a + 1 + |first|, ps[1..]);
  }

  /** `params` is `(`, the parameter list and `)`. */
  lemma {:induction false} ParamsAtStep(s: string, pos: nat, o: nat, ps: seq<Param>, z: nat)
    requires pos <= o <= |s| && 0 < z <= |s| && Punct(s, pos, '(') == Some(o)
    requires ParamListAt(s, o) == Some(Parsed(ps, z - 1)) && Punct(s, z - 1, ')') == Some(z)
    ensures ParamsAt(s, pos) == Some(Parsed(ps, z))
  {
  }

  /** The `(` where the whitespace ends, then the list and the `)` that ends at `z`. */
  lemma {:induction false} ParamsAtOpen(s: string, pos: nat, a: nat, ps: seq<Param>, z: nat)
    requires pos <= |s| && SkipSpace(s, pos) == a && a < |s| && s[a] == '(' && 0 < z <= |s|
    requires ParamListAt(s, a + 1) == Some(Parsed(ps, z - 1)) && Punct(s, z - 1, ')') == Some(z)
    ensures ParamsAt(s, pos) == Some(Parsed(ps, z))
  {
    PunctIs(s, pos, a, '(');
    ParamsAtStep(s, pos, a + 1, ps, z);
  }

  /** A `)` just before `z` is taken by `skip('\)')` from `z - 1`. */
  lemma {:induction false} CloseParenIs(s: string, z: nat)
    requires 0 < z <= |s| && s[z - 1] == ')'
    ensures Punct(s, z - 1, ')') == Some(z)
  {
    NoSkip(s, z - 1);
    PunctIs(s, z - 1, z - 1, ')');
  }

  /** Inside laid-out parentheses, the list is read up to the `)`, which is then taken. */
  lemma {:induction false} ParamsInnerIs(s: string, a: nat, ps: seq<Param>, z: nat)
    requires 0 < z && ParamsLaidOut(s, a, ps, z - 1)
    ensures ParamListAt(s, a + 1) == Some(Parsed(ps, z - 1)) && Punct(s, z - 1, ')') == Some(z)
  {
    ParamListAtIs(s, a + 1, ps, z - 1);
    CloseParenIs(s, z);
  }

  /** `(`, parameters and `)` laid out where the whitespace ends are read back by `params`. */
  lemma {:induction false} ParamsAtFrom(s: string, pos: nat, a: nat, ps: seq<Param>, z: nat)
    requires pos <= |s| && SkipSpace(s, pos) == a && 0 < z && ParamsLaidOut(s, a, ps, z - 1)
    ensures ParamsAt(s, pos) == Some(Parsed(ps, z))
  {
    ParamsInnerIs(s, a, ps, z);
    ParamsAtOpen(s, pos, a, ps, z);
  }

  /** A written parameter list is read back as itself. */
  lemma {:induction false} ParamsAtIs(s: string, pos: nat, a: nat, ps: seq<Param>, z: nat)
    requires pos <= |s| && SkipSpace(s, pos) == a
    requires TextAt(s, a, ParamsSource(ps))
    requires |ps| >= 1 && WellFormedParams(ps) && z == a + |ParamsSource(ps)|
    ensures ParamsAt(s, pos) == Some(Parsed(ps, z))
  {
    ParamsSourceSplit(s, a, ps, z);
    ParamsAtFrom(s, pos, a, ps, z);
  }

  /** `{`, whitespace, a well-formed body and the `}` after it, from `a`. */
  predicate BodyLaidOut(s: string, a: nat, ws: string, b: string) {
    a < |s| && s[a] == '{' && TextAt(s, a + 1, ws) && IsBlank(ws)
    && TextAt(s, a + 1 + |ws|, b) && WellFormedBody(b)
    && a + 1 + |ws| + |b| < |s| && s[a + 1 + |ws| + |b|] == '}'
  }

  /** A written body is laid out as `{`, the whitespace, the body and `}`. */
  lemma {:induction false} BodySourceSplit(s: string, a: nat, ws: string, b: string)
    requires TextAt(s, a, BodySource(ws, b)) && IsBlank(ws) && WellFormedBody(b)
    ensures BodyLaidOut(s, a, ws, b) && |BodySource(ws, b)| == 1 + |ws| + |b| + 1
  {
    TextAtAppend(s, a, "{" + ws + b, "}");
    TextAtAppend(s, a, "{" + ws, b);
    TextAtAppend(s, a, "{", ws);
    TextAtChar(s, a, "{", 0);
    TextAtChar(s, a + 1 + |ws| + |b|, "}", 0);
  }

  /** The token after `{` skips the whitespace and takes the body. */
  lemma {:induction false} BodyRunIs(s: string, a: nat, ws: string, b: string)
    requires BodyLaidOut(s, a, ws, b)
    ensures RunToken(s, a + 1, "}", false) == Some(Parsed(b, a + 1 + |ws| + |b|))
  {
    var c := a + 1 + |ws|;
    if b != [] {
      TextAtChar(s, c, b, 0);
    }
    BlankSkip(s, a + 1, ws);
    RunTokenIs(s, a + 1, c, b, "}", false);
  }

  /** `body` is `{`, the token and `}`. */
  lemma {:induction false} BodyAtStep(s: string, pos: nat, o: nat, b: string, c: nat)
    requires pos <= o <= |s| && Punct(s, pos, '{') == Some(o)
    requires RunToken(s, o, "}", false) == Some(Parsed(b, c)) && Punct(s, c, '}') == Some(c + 1)
    ensures BodyAt(s, pos) == Some(Parsed(b, c + 1))
  {
  }

  /** A body laid out where the whitespace ends is read back by `body`. */
  lemma {:induction false} BodyAtFrom(s: string, pos: nat, a: nat, ws: string, b: string)
    requires pos <= |s| && SkipSpace(s, pos) == a && BodyLaidOut(s, a, ws, b)
    ensures BodyAt(s, pos) == Some(Parsed(b, a + 1 + |ws| + |b| + 1))
  {
    var c := a + 1 + |ws| + |b|;
    PunctIs(s, pos, a, '{');
    BodyRunIs(s, a, ws, b);
    NoSkip(s, c);
    PunctIs(s, c, c, '}');
    BodyAtStep(s, pos, a + 1, b, c);
  }

  /** A written body is read back as itself. */
  lemma {:induction false} BodyAtIs(s: string, pos: nat, a: nat, ws: string, b: string)
    requires pos <= |s| && SkipSpace(s, pos) == a
    requires TextAt(s, a, BodySource(ws, b)) && IsBlank(ws) && WellFormedBody(b)
    ensures BodyAt(s, pos) == Some(Parsed(b, a + |BodySource(ws, b)|))
  {
    BodySourceSplit(s, a, ws, b);
    BodyAtFrom(s, pos, a, ws, b);
  }
}
