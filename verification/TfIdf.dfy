/** The TF-IDF vectors of `_build_tfidf` in `backend/entity_linker.py`, over exact reals. The logarithm and the
    square root are parameters of which only their defining laws are used. */
module TfIdf {
  import opened RealSums

  type Token = string

  type Document = seq<Token>

  // ── What the vectors are ────────────────────────────────────────────────

  function Words(doc: Document): set<Token> {
    set t | t in doc
  }

  function Vocabulary(docs: seq<Document>): set<Token> {
    if docs == [] then {} else Vocabulary(docs[..|docs| - 1]) + Words(docs[|docs| - 1])
  }

  /** The number of documents that contain `t`. */
  function DocFreq(docs: seq<Document>, t: Token): nat {
    if docs == [] then 0 else DocFreq(docs[..|docs| - 1], t) + (if t in docs[|docs| - 1] then 1 else 0)
  }

  function Idf(log: real -> real, n: nat, df: nat): real {
    log(Part((n + 1) as real, df + 1)) + 1.0
  }

  function Frequency(doc: Document, t: Token): real {
    Part(multiset(doc)[t] as real, |doc|)
  }

  function Weights(log: real -> real, docs: seq<Document>, doc: Document): Token -> real {
    t => Times(Frequency(doc, t), Idf(log, |docs|, DocFreq(docs, t)))
  }

  function Product(u: Token -> real, v: Token -> real): Token -> real {
    t => Times(u(t), v(t))
  }

  ghost function Dot(s: set<Token>, u: Token -> real, v: Token -> real): real {
    SumSet(s, Product(u, v))
  }

  function Quotient(a: real, n: real): real
    requires n != 0.0
  {
    a / n
  }

  function Divisor(norm: real): (n: real)
    ensures n != 0.0
  {
    if norm == 0.0 then 1.0 else norm
  }

  function Scaled(w: Token -> real, norm: real): Token -> real {
    t => Quotient(w(t), Divisor(norm))
  }

  ghost function Norm(sqrt: real -> real, s: set<Token>, w: Token -> real): real {
    sqrt(Dot(s, w, w))
  }

  /** Row `doc` of the matrix, as a function of the token whose column is read. */
  ghost function Row(log: real -> real, sqrt: real -> real, docs: seq<Document>, doc: Document): Token -> real {
    var w := Weights(log, docs, doc);
    Scaled(w, Norm(sqrt, Vocabulary(docs), w))
  }

  ghost function Similarity(log: real -> real, sqrt: real -> real, docs: seq<Document>, a: Document, b: Document): real {
    Dot(Vocabulary(docs), Row(log, sqrt, docs, a), Row(log, sqrt, docs, b))
  }

  ghost predicate IsLog(log: real -> real) {
    log(1.0) == 0.0 && forall x, y :: 0.0 < x <= y ==> log(x) <= log(y)
  }

  ghost predicate IsSqrt(sqrt: real -> real) {
    forall x :: x >= 0.0 ==> sqrt(x) >= 0.0 && Times(sqrt(x), sqrt(x)) == x
  }

  // ── Inverse document frequencies ────────────────────────────────────────

  lemma {:induction false} DocFreqBounds(docs: seq<Document>, t: Token)
    ensures DocFreq(docs, t) <= |docs|
    ensures DocFreq(docs, t) > 0 <==> t in Vocabulary(docs)
  {
    if docs != [] {
      DocFreqBounds(docs[..|docs| - 1], t);
    }
  }

  lemma {:induction false} VocabularyHolds(docs: seq<Document>, doc: Document)
    requires doc in docs
    ensures Words(doc) <= Vocabulary(docs)
  {
    if doc != docs[|docs| - 1] {
      var i :| 0 <= i < |docs| && docs[i] == doc;
      assert docs[..|docs| - 1][i] == doc;
      VocabularyHolds(docs[..|docs| - 1], doc);
    }
  }

  /** No token is weighed down: its inverse document frequency is at least 1. */
  lemma IdfAtLeastOne(log: real -> real, docs: seq<Document>, t: Token)
    requires IsLog(log)
    ensures Idf(log, |docs|, DocFreq(docs, t)) >= 1.0
  {
    DocFreqBounds(docs, t);
    var n, k := (|docs| + 1) as real, DocFreq(docs, t) + 1;
    RatioAtLeastOne(n, k as real);
    assert Part(n, k) >= 1.0;
  }

  lemma RatioAtLeastOne(n: real, k: real)
    requires 0.0 < k <= n
    ensures n / k >= 1.0
  {
    QuotientLaws(n, k, k);
    QuotientLaws(n - k, k, k);
  }

  // ── Sums of terms that are not negative ─────────────────────────────────

  lemma TermWithinSum(s: set<Token>, x: Token, f: Token -> real)
    requires forall y :: y in s ==> f(y) >= 0.0
    ensures SumSet(s, f) >= 0.0
    ensures x in s ==> f(x) <= SumSet(s, f)
  {
    var zero := (_: Token) => 0.0;
    SumSetConst(s, 0.0, zero);
    SumSetMono(s, zero, f);
    if x in s {
      SumSetRemove(s, x, f);
      SumSetConst(s - {x}, 0.0, zero);
      SumSetMono(s - {x}, zero, f);
    }
  }

  lemma SquareSign(a: real)
    ensures Times(a, a) >= 0.0
    ensures Times(a, a) == 0.0 <==> a == 0.0
  {
    if a > 0.0 {
      StrictProduct(a, a);
    } else if a < 0.0 {
      StrictProduct(-a, -a);
      assert Times(a, a) == Times(-a, -a);
    }
  }

  lemma StrictProduct(a: real, b: real)
    requires a > 0.0 && b > 0.0
    ensures Times(a, b) > 0.0
  {}

  lemma ProductSign(a: real, b: real)
    requires a >= 0.0 && b >= 0.0
    ensures Times(a, b) >= 0.0
    ensures Times(a, b) > 0.0 <==> a > 0.0 && b > 0.0
  {}

  // ── Weights ─────────────────────────────────────────────────────────────

  lemma FrequencySign(doc: Document, t: Token)
    ensures Frequency(doc, t) >= 0.0
    ensures Frequency(doc, t) > 0.0 <==> t in doc
  {
    PartLaws(multiset(doc)[t] as real, 0.0, |doc|);
    assert t in doc <==> t in multiset(doc);
  }

  lemma WeightSign(log: real -> real, docs: seq<Document>, doc: Document, t: Token)
    requires IsLog(log)
    ensures Weights(log, docs, doc)(t) >= 0.0
    ensures Weights(log, docs, doc)(t) > 0.0 <==> t in doc
  {
    FrequencySign(doc, t);
    IdfAtLeastOne(log, docs, t);
    ProductSign(Frequency(doc, t), Idf(log, |docs|, DocFreq(docs, t)));
  }

  lemma DotOfSquares(s: set<Token>, w: Token -> real)
    ensures Dot(s, w, w) >= 0.0
    ensures Dot(s, w, w) == 0.0 ==> forall t :: t in s ==> w(t) == 0.0
  {
    forall t ensures Product(w, w)(t) >= 0.0 && (Product(w, w)(t) == 0.0 <==> w(t) == 0.0) {
      SquareSign(w(t));
    }
    TermWithinSum(s, "", Product(w, w));
    forall t | t in s && Dot(s, w, w) == 0.0 ensures w(t) == 0.0 {
      TermWithinSum(s, t, Product(w, w));
    }
  }

  /** A document with at least one token has a row that is not zero, so it is divided by its own norm. */
  lemma NonEmptyRowHasNorm(log: real -> real, sqrt: real -> real, docs: seq<Document>, doc: Document)
    requires IsLog(log) && IsSqrt(sqrt) && doc in docs && doc != []
    ensures Norm(sqrt, Vocabulary(docs), Weights(log, docs, doc)) > 0.0
  {
    var s, w := Vocabulary(docs), Weights(log, docs, doc);
    VocabularyHolds(docs, doc);
    WeightSign(log, docs, doc, doc[0]);
    assert doc[0] in Words(doc);
    DotOfSquares(s, w);
    var n := Norm(sqrt, s, w);
    SquareSign(n);
  }

  // ── Unit rows ───────────────────────────────────────────────────────────

  lemma QuotientProduct(a: real, b: real, m: real, n: real)
    requires m > 0.0 && n > 0.0
    ensures Times(Quotient(a, m), Quotient(b, n)) == Quotient(Times(a, b), Times(m, n))
    ensures Times(m, n) > 0.0
  {
    var x, y := a / m, b / n;
    assert m * x == a && n * y == b;
    assert (x * y) * (m * n) == (m * x) * (n * y);
  }

  lemma QuotientTimes(a: real, n: real)
    requires n != 0.0
    ensures Quotient(a, n) == Times(Quotient(1.0, n), a)
  {}

  lemma UnitRow(log: real -> real, sqrt: real -> real, docs: seq<Document>, doc: Document)
    requires IsLog(log) && IsSqrt(sqrt) && doc in docs && doc != []
    ensures Dot(Vocabulary(docs), Row(log, sqrt, docs, doc), Row(log, sqrt, docs, doc)) == 1.0
  {
    var s, w, u := Vocabulary(docs), Weights(log, docs, doc), Row(log, sqrt, docs, doc);
    NonEmptyRowHasNorm(log, sqrt, docs, doc);
    DotOfSquares(s, w);
    var n := Norm(sqrt, s, w);
    var square := Dot(s, w, w);
    assert Times(n, n) == square;
    SquareSign(n);
    var k := Quotient(1.0, square);
    hide Times, Quotient;
    forall t ensures Product(u, u)(t) == Times(k, Product(w, w)(t)) {
      QuotientProduct(w(t), w(t), n, n);
      QuotientTimes(Times(w(t), w(t)), square);
    }
    SumSetTimes(s, k, Product(w, w), Product(u, u));
    QuotientTimes(square, square);
    SelfQuotient(square);
  }

  lemma SelfQuotient(a: real)
    requires a != 0.0
    ensures Quotient(a, a) == 1.0
  {}

  function Gap(u: Token -> real, v: Token -> real): Token -> real {
    t => u(t) - v(t)
  }

  lemma SquareOfDifference(a: real, b: real)
    ensures Times(a, a) + Times(b, b) == Times(a - b, a - b) + (Times(a, b) + Times(a, b))
  {}

  lemma DotOfGap(s: set<Token>, u: Token -> real, v: Token -> real)
    ensures Dot(s, u, u) + Dot(s, v, v) == Dot(s, Gap(u, v), Gap(u, v)) + 2.0 * Dot(s, u, v)
  {
    hide Times;
    var uv, gap := Product(u, v), Product(Gap(u, v), Gap(u, v));
    var twice := (t: Token) => uv(t) + uv(t);
    var all := (t: Token) => gap(t) + twice(t);
    forall t ensures all(t) == Product(u, u)(t) + Product(v, v)(t) {
      SquareOfDifference(u(t), v(t));
    }
    SumSetAdd(s, uv, uv, twice);
    SumSetAdd(s, gap, twice, all);
    SumSetAdd(s, Product(u, u), Product(v, v), all);
  }

  lemma RowSign(log: real -> real, sqrt: real -> real, docs: seq<Document>, doc: Document, t: Token)
    requires IsLog(log) && IsSqrt(sqrt) && doc in docs && doc != []
    ensures Row(log, sqrt, docs, doc)(t) >= 0.0
    ensures Row(log, sqrt, docs, doc)(t) > 0.0 <==> t in doc
  {
    WeightSign(log, docs, doc, t);
    NonEmptyRowHasNorm(log, sqrt, docs, doc);
    QuotientSign(Weights(log, docs, doc)(t), Norm(sqrt, Vocabulary(docs), Weights(log, docs, doc)));
  }

  lemma QuotientSign(a: real, n: real)
    requires a >= 0.0 && n > 0.0
    ensures Quotient(a, n) >= 0.0
    ensures Quotient(a, n) > 0.0 <==> a > 0.0
  {}

  // ── Similarity ──────────────────────────────────────────────────────────

  lemma SimilarityIsSymmetric(log: real -> real, sqrt: real -> real, docs: seq<Document>, a: Document, b: Document)
    ensures Similarity(log, sqrt, docs, a, b) == Similarity(log, sqrt, docs, b, a)
  {
    var u, v := Row(log, sqrt, docs, a), Row(log, sqrt, docs, b);
    SumSetCong(Vocabulary(docs), Product(u, v), Product(v, u));
  }

  /** Cosine similarity lies between 0 and 1; it is 0 exactly for documents without a common token. */
  lemma SimilarityRange(
      log: real -> real, sqrt: real -> real, docs: seq<Document>, a: Document, b: Document)
    requires IsLog(log) && IsSqrt(sqrt) && a in docs && b in docs && a != [] && b != []
    ensures 0.0 <= Similarity(log, sqrt, docs, a, b) <= 1.0
    ensures Similarity(log, sqrt, docs, a, b) == 0.0 <==> Words(a) !! Words(b)
  {
    var s, u, v := Vocabulary(docs), Row(log, sqrt, docs, a), Row(log, sqrt, docs, b);
    UnitRow(log, sqrt, docs, a);
    UnitRow(log, sqrt, docs, b);
    DotOfGap(s, u, v);
    DotOfSquares(s, Gap(u, v));
    forall t ensures Product(u, v)(t) >= 0.0 && (Product(u, v)(t) > 0.0 <==> t in a && t in b) {
      RowSign(log, sqrt, docs, a, t);
      RowSign(log, sqrt, docs, b, t);
      ProductSign(u(t), v(t));
    }
    hide Times, Row;
    TermWithinSum(s, "", Product(u, v));
    if t :| t in Words(a) && t in Words(b) {
      VocabularyHolds(docs, a);
      TermWithinSum(s, t, Product(u, v));
    } else {
      forall t ensures !(t in a && t in b) {
        assert t in Words(a) && t in Words(b) <==> t in a && t in b;
      }
      SumSetConst(s, 0.0, Product(u, v));
    }
  }

  // ── When the similarity is 1 ────────────────────────────────────────────

  lemma {:induction false} CountsAddUp(s: set<Token>, doc: Document, count: Token -> real)
    requires Words(doc) <= s && forall t :: count(t) == multiset(doc)[t] as real
    ensures SumSet(s, count) == |doc| as real
  {
    if doc == [] {
      SumSetConst(s, 0.0, count);
    } else {
      var before, x := doc[..|doc| - 1], doc[|doc| - 1];
      assert doc == before + [x];
      var fewer := (t: Token) => multiset(before)[t] as real;
      assert forall t :: t in Words(before) ==> t in Words(doc);
      assert x in Words(doc);
      CountsAddUp(s, before, fewer);
      SumSetRemove(s, x, count);
      SumSetRemove(s, x, fewer);
      SumSetCong(s - {x}, count, fewer);
    }
  }

  lemma FrequenciesAddUp(s: set<Token>, doc: Document, f: Token -> real)
    requires doc != [] && Words(doc) <= s && forall t :: f(t) == Frequency(doc, t)
    ensures SumSet(s, f) == 1.0
  {
    var count := (t: Token) => multiset(doc)[t] as real;
    CountsAddUp(s, doc, count);
    var n := |doc| as real;
    forall t ensures f(t) == Times(Quotient(1.0, n), count(t)) {
      QuotientTimes(count(t), n);
    }
    SumSetTimes(s, Quotient(1.0, n), count, f);
    QuotientTimes(n, n);
    SelfQuotient(n);
  }

  ghost predicate SameFrequencies(a: Document, b: Document) {
    forall t: Token :: multiset(a)[t] * |b| == multiset(b)[t] * |a|
  }

  lemma CrossProduct(p: nat, q: nat, m: nat, n: nat)
    requires m > 0 && n > 0
    ensures Part(p as real, m) == Part(q as real, n) <==> p * n == q * m
  {
    var x, y := p as real / m as real, q as real / n as real;
    assert x * m as real == p as real && y * n as real == q as real;
    if x == y {
      assert p as real * n as real == x * m as real * n as real == q as real * m as real;
      assert (p * n) as real == (q * m) as real;
    }
    if p * n == q * m {
      assert (p * n) as real == (q * m) as real;
      assert x * (m as real * n as real) == y * (m as real * n as real);
    }
  }

  /** If two quotients agree, cross-multiplying keeps the agreement and a common positive factor cancels. */
  lemma Cancel(p: real, q: real, idf: real, m: real, n: real)
    requires idf > 0.0 && m > 0.0 && n > 0.0
    requires Quotient(Times(p, idf), m) == Quotient(Times(q, idf), n)
    ensures Times(n, p) == Times(m, q)
  {
    var x := p * idf / m;
    assert m * x == p * idf && n * x == q * idf;
    assert (n * p) * idf == n * (m * x) == m * (n * x) == (m * q) * idf;
  }

  lemma EqualRowsShareFrequencies(
      log: real -> real, sqrt: real -> real, docs: seq<Document>, a: Document, b: Document)
    requires IsLog(log) && IsSqrt(sqrt) && a in docs && b in docs && a != [] && b != []
    requires forall t :: t in Vocabulary(docs) ==> Row(log, sqrt, docs, a)(t) == Row(log, sqrt, docs, b)(t)
    ensures SameFrequencies(a, b)
  {
    var s := Vocabulary(docs);
    var m, n := Norm(sqrt, s, Weights(log, docs, a)), Norm(sqrt, s, Weights(log, docs, b));
    NonEmptyRowHasNorm(log, sqrt, docs, a);
    NonEmptyRowHasNorm(log, sqrt, docs, b);
    var f, g := (t: Token) => Frequency(a, t), (t: Token) => Frequency(b, t);
    forall t | t in s ensures Times(n, f(t)) == Times(m, g(t)) {
      IdfAtLeastOne(log, docs, t);
      Cancel(f(t), g(t), Idf(log, |docs|, DocFreq(docs, t)), m, n);
    }
    hide Times, Row, Norm;
    VocabularyHolds(docs, a);
    VocabularyHolds(docs, b);
    FrequenciesAddUp(s, a, f);
    FrequenciesAddUp(s, b, g);
    var both := (t: Token) => Times(n, f(t));
    SumSetTimes(s, n, f, both);
    SumSetTimes(s, m, g, both);
    assert m == n by {
      TimesUnit(m);
      TimesUnit(n);
    }
    forall t: Token ensures multiset(a)[t] * |b| == multiset(b)[t] * |a| {
      if t in s {
        TimesCancel(n, f(t), g(t));
      } else {
        assert t !in Words(a) && t !in Words(b);
      }
      CrossProduct(multiset(a)[t], multiset(b)[t], |a|, |b|);
    }
  }

  lemma TimesUnit(a: real)
    ensures Times(a, 1.0) == a
  {}

  lemma TimesCancel(a: real, p: real, q: real)
    requires a != 0.0 && Times(a, p) == Times(a, q)
    ensures p == q
  {}

  /** Similarity 1 means equal relative frequencies of every token, and nothing else. */
  lemma SimilarityOneExactly(
      log: real -> real, sqrt: real -> real, docs: seq<Document>, a: Document, b: Document)
    requires IsLog(log) && IsSqrt(sqrt) && a in docs && b in docs && a != [] && b != []
    ensures Similarity(log, sqrt, docs, a, b) == 1.0 <==> SameFrequencies(a, b)
  {
    var s, u, v := Vocabulary(docs), Row(log, sqrt, docs, a), Row(log, sqrt, docs, b);
    UnitRow(log, sqrt, docs, a);
    UnitRow(log, sqrt, docs, b);
    DotOfGap(s, u, v);
    if Similarity(log, sqrt, docs, a, b) == 1.0 {
      DotOfSquares(s, Gap(u, v));
      forall t | t in s ensures u(t) == v(t) {
        assert Gap(u, v)(t) == 0.0;
      }
      EqualRowsShareFrequencies(log, sqrt, docs, a, b);
    }
    if SameFrequencies(a, b) {
      EqualFrequenciesShareRows(log, sqrt, docs, a, b);
      SumSetCong(s, Product(u, v), Product(u, u));
    }
  }

  lemma EqualFrequenciesShareRows(
      log: real -> real, sqrt: real -> real, docs: seq<Document>, a: Document, b: Document)
    requires a != [] && b != [] && SameFrequencies(a, b)
    ensures forall t :: Row(log, sqrt, docs, a)(t) == Row(log, sqrt, docs, b)(t)
  {
    var w, x := Weights(log, docs, a), Weights(log, docs, b);
    forall t: Token ensures w(t) == x(t) {
      CrossProduct(multiset(a)[t], multiset(b)[t], |a|, |b|);
    }
    SumSetCong(Vocabulary(docs), Product(w, w), Product(x, x));
  }

  /** In particular for documents with the same tokens, however they are ordered. */
  lemma EqualTokensGiveOne(
      log: real -> real, sqrt: real -> real, docs: seq<Document>, a: Document, b: Document)
    requires IsLog(log) && IsSqrt(sqrt) && a in docs && b in docs && a != []
    requires multiset(a) == multiset(b)
    ensures Similarity(log, sqrt, docs, a, b) == 1.0
  {
    assert |a| == |multiset(a)| == |multiset(b)| == |b|;
    SimilarityOneExactly(log, sqrt, docs, a, b);
  }

  // ── What rarity is worth ────────────────────────────────────────────────

  function Positions(docs: seq<Document>, t: Token): set<nat> {
    set i: nat | i < |docs| && t in docs[i]
  }

  /** The document frequency counts the documents that contain the token, however often they do. */
  lemma {:induction false} DocFreqExactly(docs: seq<Document>, t: Token)
    ensures DocFreq(docs, t) == |Positions(docs, t)|
  {
    if docs != [] {
      var before, last := docs[..|docs| - 1], |docs| - 1;
      DocFreqExactly(before, t);
      assert Positions(docs, t) == Positions(before, t) + (if t in docs[last] then {last} else {});
    }
  }

  /** A logarithm: products become sums, and it is strictly increasing. */
  ghost predicate IsLogarithm(log: real -> real) {
    && (forall x, y :: x > 0.0 && y > 0.0 ==> log(Times(x, y)) == log(x) + log(y))
    && (forall x, y :: 0.0 < x < y ==> log(x) < log(y))
  }

  lemma LogLaws(log: real -> real)
    requires IsLogarithm(log)
    ensures log(1.0) == 0.0 && IsLog(log)
  {
    assert Times(1.0, 1.0) == 1.0;
  }

  lemma LogOfQuotient(log: real -> real, a: real, b: real)
    requires IsLogarithm(log) && a > 0.0 && b > 0.0
    ensures a / b > 0.0 && log(a / b) == log(a) - log(b)
  {
    QuotientLaws(a, a, b);
    assert Times(b, a / b) == a;
  }

  /** A token that every document has counts once. */
  lemma CommonIdfIsOne(log: real -> real, n: nat)
    requires IsLogarithm(log)
    ensures Idf(log, n, n) == 1.0
  {
    LogLaws(log);
    QuotientLaws((n + 1) as real, 0.0, (n + 1) as real);
    RatioOfEquals((n + 1) as real);
  }

  lemma RatioOfEquals(a: real)
    requires a != 0.0
    ensures a / a == 1.0
  {}

  /** Two tokens differ by the logarithm of the quotient of their document frequencies, smoothed by one. */
  lemma IdfDifference(log: real -> real, n: nat, df1: nat, df2: nat)
    requires IsLogarithm(log)
    ensures Idf(log, n, df1) - Idf(log, n, df2) == log((df2 + 1) as real / (df1 + 1) as real)
  {
    var a, x, y := (n + 1) as real, (df1 + 1) as real, (df2 + 1) as real;
    LogOfQuotient(log, a, x);
    LogOfQuotient(log, a, y);
    LogOfQuotient(log, y, x);
    hide IsLogarithm;
    assert Idf(log, n, df1) == log(a / x) + 1.0 && Idf(log, n, df2) == log(a / y) + 1.0;
  }

  /** So the rarer token is worth strictly more. */
  lemma RarerIsWorthMore(log: real -> real, n: nat, df1: nat, df2: nat)
    requires IsLogarithm(log)
    ensures df1 < df2 <==> Idf(log, n, df1) > Idf(log, n, df2)
  {
    LogLaws(log);
    IdfDifference(log, n, df1, df2);
    IdfDifference(log, n, df2, df1);
    if df1 < df2 {
      AboveOne((df2 + 1) as real, (df1 + 1) as real);
    } else if df2 < df1 {
      AboveOne((df1 + 1) as real, (df2 + 1) as real);
    }
  }

  lemma AboveOne(a: real, b: real)
    requires 0.0 < b < a
    ensures a / b > 1.0
  {
    QuotientLaws(a - b, b, b);
    RatioOfEquals(b);
  }

  /** An entry before normalisation: the share of the token in the document times what its rarity is worth. */
  lemma WeightExactly(log: real -> real, docs: seq<Document>, doc: Document, t: Token)
    requires doc != []
    ensures Weights(log, docs, doc)(t)
            == (multiset(doc)[t] as real / |doc| as real)
               * (log((|docs| + 1) as real / (|Positions(docs, t)| + 1) as real) + 1.0)
  {
    DocFreqExactly(docs, t);
  }

  /** In a row the entries of two tokens that the document has equally often are in the ratio of their rarities. */
  lemma EntriesInRatio(log: real -> real, sqrt: real -> real, docs: seq<Document>, doc: Document, t: Token, u: Token)
    requires multiset(doc)[t] == multiset(doc)[u]
    ensures Times(Row(log, sqrt, docs, doc)(t), Idf(log, |docs|, |Positions(docs, u)|))
            == Times(Row(log, sqrt, docs, doc)(u), Idf(log, |docs|, |Positions(docs, t)|))
  {
    DocFreqExactly(docs, t);
    DocFreqExactly(docs, u);
    var w := Weights(log, docs, doc);
    var norm := Norm(sqrt, Vocabulary(docs), w);
    RatiosSwap(Frequency(doc, t), Idf(log, |docs|, DocFreq(docs, t)), Idf(log, |docs|, DocFreq(docs, u)), Divisor(norm));
  }

  lemma RatiosSwap(f: real, a: real, b: real, n: real)
    requires n != 0.0
    ensures Times(Quotient(Times(f, a), n), b) == Times(Quotient(Times(f, b), n), a)
  {
    var x, y := f * a / n, f * b / n;
    assert n * x == f * a && n * y == f * b;
    assert n * (x * b) == n * (y * a);
  }

  /** And similarity is the cosine of the weights: their product, over the lengths of both. */
  lemma SimilarityIsCosine(log: real -> real, sqrt: real -> real, docs: seq<Document>, a: Document, b: Document)
    requires IsLog(log) && IsSqrt(sqrt) && a in docs && b in docs && a != [] && b != []
    ensures var s, u, v := Vocabulary(docs), Weights(log, docs, a), Weights(log, docs, b);
            && Norm(sqrt, s, u) > 0.0 && Norm(sqrt, s, v) > 0.0
            && Times(Similarity(log, sqrt, docs, a, b), Times(Norm(sqrt, s, u), Norm(sqrt, s, v))) == Dot(s, u, v)
  {
    var s, u, v := Vocabulary(docs), Weights(log, docs, a), Weights(log, docs, b);
    var m, n := Norm(sqrt, s, u), Norm(sqrt, s, v);
    NonEmptyRowHasNorm(log, sqrt, docs, a);
    NonEmptyRowHasNorm(log, sqrt, docs, b);
    var x, y := Row(log, sqrt, docs, a), Row(log, sqrt, docs, b);
    forall t | t in s ensures Product(u, v)(t) == Times(Times(m, n), Product(x, y)(t)) {
      ProductOfQuotients(u(t), v(t), m, n);
    }
    hide Times, Row, Norm, Weights;
    SumSetTimes(s, Times(m, n), Product(x, y), Product(u, v));
    TimesCommutes(Dot(s, x, y), Times(m, n));
  }

  lemma ProductOfQuotients(a: real, b: real, m: real, n: real)
    requires m > 0.0 && n > 0.0
    ensures Times(a, b) == Times(Times(m, n), Times(Quotient(a, m), Quotient(b, n)))
  {
    var x, y := a / m, b / n;
    assert m * x == a && n * y == b;
    assert (m * n) * (x * y) == (m * x) * (n * y);
  }

  lemma TimesCommutes(a: real, b: real)
    ensures Times(a, b) == Times(b, a)
  {}
}
