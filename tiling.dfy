/** How a rewriting grammar cuts its input: `many(seq(<text up to the keyword>, <record>))`
    followed by the remainder. A cut is described by its positions `b` = [pos, q1, e1, q2, e2,
    ..., |s|]: the literal at an even place `i` is the text between `b[i]` and `b[i + 1]`, and
    the record at an odd place is what the record grammar reads from `b[i]` to `b[i + 1]`.

    Both phases share this shape, so it is stated once, for any segment type `T`, a keyword
    `kw`, the constructor `lit` of literal segments and the record grammar `at`. */
module Tiling {
  import opened Lexer

  /** Positions of `s` in increasing order. */
  predicate Ascending(s: string, b: seq<nat>)
    decreases |b|
  {
    |b| > 0 ==> b[0] <= |s| && (|b| > 1 ==> b[0] <= b[1] && Ascending(s, b[1..]))
  }

  /** The slices of `s` between consecutive positions of `b`, one after the other. */
  function Spanned(s: string, b: seq<nat>): string
    decreases |b|
  {
    if |b| < 2 || !(b[0] <= b[1] <= |s|) then "" else s[b[0]..b[1]] + Spanned(s, b[1..])
  }

  /** The slices between increasing positions make up the text from the first to the last. */
  lemma {:induction false} SpannedCovers(s: string, b: seq<nat>)
    requires |b| >= 1 && Ascending(s, b)
    ensures b[0] <= b[|b| - 1] <= |s|
    ensures Spanned(s, b) == s[b[0]..b[|b| - 1]]
    decreases |b|
  {
    if |b| > 1 {
      var t := b[1..];
      SpannedCovers(s, t);
      assert t[|t| - 1] == b[|b| - 1];
      assert s[b[0]..b[|b| - 1]] == s[b[0]..b[1]] + s[b[1]..b[|b| - 1]];
    }
  }

  /** Every segment at an even place is the literal between its positions. */
  predicate LiteralsAt<T(==)>(s: string, segs: seq<T>, b: seq<nat>, lit: string -> T)
    requires |b| == |segs| + 1
  {
    forall i :: 0 <= i < |segs| && i % 2 == 0 ==>
      b[i] <= b[i + 1] <= |s| && segs[i] == lit(s[b[i]..b[i + 1]])
  }

  /** Every literal but the last runs up to the next keyword. */
  predicate ScansAt(s: string, b: seq<nat>, kw: string) {
    forall i :: 0 <= i < |b| - 2 && i % 2 == 0 ==>
      b[i] <= |s| && NextKeyword(s, b[i], kw) == Some(b[i + 1])
  }

  /** Every segment at an odd place is the record `at` reads between its positions, stated one
      round at a time. */
  predicate RecordsRead<T(==)>(s: string, segs: seq<T>, b: seq<nat>,
                               at: (string, nat) -> Option<Parsed<T>>)
    requires |b| == |segs| + 1
    decreases |segs|
  {
    |segs| >= 3 ==>
      at(s, b[1]) == Some(Parsed(segs[1], b[2])) && RecordsRead(s, segs[2..], b[2..], at)
  }

  /** The repetition ends at `p`: no keyword follows, or no record is written there. */
  predicate Stops<T>(s: string, p: nat, kw: string, at: (string, nat) -> Option<Parsed<T>>) {
    p <= |s| &&
    match NextKeyword(s, p, kw)
    case None => true
    case Some(q) => at(s, q).None?
  }

  /** The positions, the literals and the scans of a cut. */
  predicate Cut<T(==)>(s: string, segs: seq<T>, b: seq<nat>, kw: string, lit: string -> T) {
    |b| == |segs| + 1 && |segs| % 2 == 1 && b[|segs|] == |s| && Ascending(s, b)
    && LiteralsAt(s, segs, b, lit) && ScansAt(s, b, kw)
  }

  /** `segs` is what the repetition and the remainder make of `s` from `b[0]` on. */
  predicate Tiled<T(==)>(s: string, segs: seq<T>, b: seq<nat>, kw: string, lit: string -> T,
                         at: (string, nat) -> Option<Parsed<T>>) {
    Cut(s, segs, b, kw, lit) && RecordsRead(s, segs, b, at) && Stops(s, b[|segs| - 1], kw, at)
  }

  lemma {:induction false} OddPlusTwo(n: nat)
    requires n % 2 == 1
    ensures (n + 2) % 2 == 1
  {
  }

  lemma {:induction false} OddCases(n: nat)
    requires n % 2 == 1
    ensures n == 1 || (n >= 3 && (n - 2) % 2 == 1)
  {
  }

  /** The remainder alone, where the repetition stops at once, is a cut of one literal. */
  lemma {:induction false} TiledEnd<T>(s: string, pos: nat, kw: string, lit: string -> T,
                                           at: (string, nat) -> Option<Parsed<T>>)
    requires Stops(s, pos, kw, at)
    ensures Tiled(s, [lit(s[pos..])], [pos, |s|], kw, lit, at)
  {
    var b := [pos, |s|];
    assert b[1..] == [|s|];
    assert s[pos..] == s[b[0]..b[1]];
  }

  /** A round in front of a cut gives a cut, with the tail two places on. */
  lemma {:induction false} CutCons<T>(s: string, pos: nat, q: nat, rec: T, e: nat, kw: string,
                                         lit: string -> T, tail: seq<T>, bt: seq<nat>,
                                         segs: seq<T>, b: seq<nat>)
    requires pos <= q <= e <= |s| && NextKeyword(s, pos, kw) == Some(q)
    requires Cut(s, tail, bt, kw, lit) && bt[0] == e
    requires segs == [lit(s[pos..q]), rec] + tail && b == [pos, q] + bt
    ensures Cut(s, segs, b, kw, lit) && b[|segs| - 1] == bt[|tail| - 1]
    ensures b[1] == q && b[2] == e && segs[1] == rec && segs[2..] == tail && b[2..] == bt
  {
    assert b[1..][1..] == bt;
    assert segs[2..] == tail && b[2..] == bt;
    forall i | 0 <= i < |segs| && i % 2 == 0
      ensures b[i] <= b[i + 1] <= |s| && segs[i] == lit(s[b[i]..b[i + 1]])
    {
      if i >= 2 {
        assert segs[i] == tail[i - 2] && b[i] == bt[i - 2] && b[i + 1] == bt[i - 1];
      }
    }
    forall i | 0 <= i < |b| - 2 && i % 2 == 0
      ensures b[i] <= |s| && NextKeyword(s, b[i], kw) == Some(b[i + 1])
    {
      if i >= 2 {
        assert b[i] == bt[i - 2] && b[i + 1] == bt[i - 1];
      }
    }
    assert b[|segs| - 1] == bt[|tail| - 1] && b[|segs|] == bt[|tail|];
    OddPlusTwo(|tail|);
  }

  /** A round of the repetition in front of a tiling gives a tiling. */
  lemma {:induction false} TiledCons<T>(s: string, pos: nat, q: nat, rec: T, e: nat, kw: string,
                                           lit: string -> T, at: (string, nat) -> Option<Parsed<T>>,
                                           tail: seq<T>, bt: seq<nat>, segs: seq<T>, b: seq<nat>)
    requires pos <= q <= e <= |s| && NextKeyword(s, pos, kw) == Some(q)
    requires at(s, q) == Some(Parsed(rec, e))
    requires Tiled(s, tail, bt, kw, lit, at) && bt[0] == e
    requires segs == [lit(s[pos..q]), rec] + tail && b == [pos, q] + bt
    ensures Tiled(s, segs, b, kw, lit, at)
  {
    CutCons(s, pos, q, rec, e, kw, lit, tail, bt, segs, b);
  }

  /** The record at any odd place is what `at` reads between its positions. */
  lemma {:induction false} RecordAt<T>(s: string, segs: seq<T>, b: seq<nat>,
                                          at: (string, nat) -> Option<Parsed<T>>, i: nat)
    requires |b| == |segs| + 1 && |segs| % 2 == 1 && RecordsRead(s, segs, b, at)
    requires i < |segs| && i % 2 == 1
    ensures at(s, b[i]) == Some(Parsed(segs[i], b[i + 1]))
    decreases i
  {
    OddCases(i);
    OddCases(|segs|);
    if i >= 2 {
      RecordAt(s, segs[2..], b[2..], at, i - 2);
      assert segs[2..][i - 2] == segs[i] && b[2..][i - 2] == b[i] && b[2..][i - 1] == b[i + 1];
    }
  }

  /** A tiling covers its text: the slices between its positions make up `s` from `b[0]` on. */
  lemma {:induction false} TiledCovers<T>(s: string, segs: seq<T>, b: seq<nat>, kw: string,
                                             lit: string -> T)
    requires Cut(s, segs, b, kw, lit)
    ensures b[0] <= |s| && Spanned(s, b) == s[b[0]..]
  {
    SpannedCovers(s, b);
  }
}
