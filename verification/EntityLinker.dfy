/** The matrix loops of `_build_tfidf` and the pair scan of `find_candidates` in `backend/entity_linker.py`,
    proved against the vectors of `TfIdf`. */
module EntityLinker {
  import opened RealSums
  import opened TfIdf

  // ── Building the matrix ─────────────────────────────────────────────────

  /** `vocab` numbers the tokens by their first appearance: `columns[j]` is the token of column `j`. */
  ghost predicate Numbers(vocab: map<Token, nat>, columns: seq<Token>) {
    && |vocab| == |columns|
    && (forall t :: t in vocab <==> t in columns)
    && (forall j :: 0 <= j < |columns| ==> columns[j] in vocab && vocab[columns[j]] == j)
  }

  method CountDocuments(docs: seq<Document>)
    returns (vocab: map<Token, nat>, df: map<Token, nat>, ghost columns: seq<Token>)
    ensures Numbers(vocab, columns)
    ensures forall t :: t in vocab <==> t in Vocabulary(docs)
    ensures forall t :: t in vocab ==> t in df && df[t] == DocFreq(docs, t)
  {
    vocab, df, columns := map[], map[], [];
    for i := 0 to |docs|
      invariant Numbers(vocab, columns)
      invariant forall t :: t in vocab <==> t in Vocabulary(docs[..i])
      invariant forall t :: t in vocab <==> t in df
      invariant forall t :: t in vocab ==> df[t] == DocFreq(docs[..i], t)
    {
      assert docs[..i + 1][..i] == docs[..i];
      var doc := docs[i];
      var rest := Words(doc);
      while rest != {}
        invariant rest <= Words(doc)
        invariant Numbers(vocab, columns)
        invariant forall t :: t in vocab <==> t in Vocabulary(docs[..i]) || (t in doc && t !in rest)
        invariant forall t :: t in vocab <==> t in df
        invariant forall t :: t in vocab ==> df[t] == DocFreq(docs[..i], t) + (if t in doc && t !in rest then 1 else 0)
        decreases rest
      {
        var t :| t in rest;
        DocFreqBounds(docs[..i], t);
        if t !in vocab {
          assert t !in columns;
          vocab, columns := vocab[t := |vocab|], columns + [t];
        }
        df := df[t := (if t in df then df[t] else 0) + 1];
        rest := rest - {t};
      }
    }
    assert docs[..|docs|] == docs;
  }

  /** Row `i` holds the values of `f`, each in the column of its token. */
  ghost predicate RowIs(matrix: array2<real>, i: nat, columns: seq<Token>, f: Token -> real)
    requires i < matrix.Length0 && matrix.Length1 == |columns|
    reads matrix
  {
    forall j :: 0 <= j < |columns| ==> matrix[i, j] == f(columns[j])
  }

  function Zero(): Token -> real {
    _ => 0.0
  }

  method Weight(log: real -> real, docs: seq<Document>, doc: Document, t: Token, df: nat) returns (x: real)
    requires df == DocFreq(docs, t)
    ensures x == Weights(log, docs, doc)(t)
  {
    var idf := log(Part((|docs| + 1) as real, df + 1)) + 1.0;
    x := Times(Part(multiset(doc)[t] as real, |doc|), idf);
  }

  /** One pass over `tf.items()`; the row starts out as zeros. */
  method FillRow(matrix: array2<real>, i: nat, docs: seq<Document>, vocab: map<Token, nat>, df: map<Token, nat>,
                 ghost columns: seq<Token>, log: real -> real)
    requires i < |docs| == matrix.Length0 && matrix.Length1 == |columns| && Numbers(vocab, columns)
    requires Words(docs[i]) <= vocab.Keys
    requires forall t :: t in vocab ==> t in df && df[t] == DocFreq(docs, t)
    requires RowIs(matrix, i, columns, Zero())
    modifies matrix
    ensures forall r, j :: 0 <= r < |docs| && 0 <= j < |columns| && r != i ==> matrix[r, j] == old(matrix[r, j])
    ensures RowIs(matrix, i, columns, Weights(log, docs, docs[i]))
  {
    hide Weights, DocFreq;
    var doc := docs[i];
    ghost var w := Weights(log, docs, doc);
    var rest := Words(doc);
    while rest != {}
      invariant rest <= Words(doc)
      invariant forall r, j :: 0 <= r < |docs| && 0 <= j < |columns| && r != i ==> matrix[r, j] == old(matrix[r, j])
      invariant forall j :: 0 <= j < |columns| ==>
                  matrix[i, j] == if columns[j] in doc && columns[j] !in rest then w(columns[j]) else 0.0
      decreases rest
    {
      var t :| t in rest;
      assert t in Words(doc);
      var j := vocab[t];
      assert t in columns && j < |columns| && columns[j] == t;
      var x := Weight(log, docs, doc, t, df[t]);
      matrix[i, j] := x;
      rest := rest - {t};
    }
    forall j | 0 <= j < |columns| ensures matrix[i, j] == w(columns[j]) {
      if columns[j] !in doc {
        AbsentWeight(log, docs, doc, columns[j]);
      }
    }
  }

  lemma AbsentWeight(log: real -> real, docs: seq<Document>, doc: Document, t: Token)
    requires t !in doc
    ensures Weights(log, docs, doc)(t) == 0.0
  {
    PartLaws(0.0, 0.0, |doc|);
  }

  lemma {:induction false} ColumnSum(columns: seq<Token>, s: set<Token>, f: Token -> real)
    requires forall i, j :: 0 <= i < j < |columns| ==> columns[i] != columns[j]
    requires forall t :: t in s <==> t in columns
    ensures SumSet(s, f) == SumSeq(columns, f)
  {
    if columns == [] {
      assert s == {};
    } else {
      var before, last := columns[..|columns| - 1], columns[|columns| - 1];
      assert columns == before + [last];
      assert last in columns;
      SumSetRemove(s, last, f);
      ColumnSum(before, s - {last}, f);
    }
  }

  lemma ColumnsGiveDot(columns: seq<Token>, vocab: map<Token, nat>, docs: seq<Document>, u: Token -> real, v: Token -> real)
    requires Numbers(vocab, columns) && forall t :: t in vocab <==> t in Vocabulary(docs)
    ensures SumSeq(columns, Product(u, v)) == Dot(Vocabulary(docs), u, v)
  {
    ColumnSum(columns, Vocabulary(docs), Product(u, v));
  }

  /** The sum of products of two rows, column by column: an entry of `matrix @ matrix.T`. */
  method RowProduct(matrix: array2<real>, i: nat, k: nat, ghost columns: seq<Token>,
                    ghost u: Token -> real, ghost v: Token -> real) returns (sum: real)
    requires i < matrix.Length0 && k < matrix.Length0 && matrix.Length1 == |columns|
    requires forall j :: 0 <= j < |columns| ==> matrix[i, j] == u(columns[j]) && matrix[k, j] == v(columns[j])
    ensures sum == SumSeq(columns, Product(u, v))
  {
    sum := 0.0;
    for j := 0 to matrix.Length1
      invariant sum == SumSeq(columns[..j], Product(u, v))
    {
      assert columns[..j + 1][..j] == columns[..j];
      sum := sum + Times(matrix[i, j], matrix[k, j]);
    }
    assert columns[..|columns|] == columns;
  }

  /** One row of `matrix / norms`. */
  method NormaliseRow(matrix: array2<real>, rows: array2<real>, i: nat, ghost columns: seq<Token>,
                      ghost vocab: map<Token, nat>, ghost docs: seq<Document>, ghost w: Token -> real, sqrt: real -> real)
    requires matrix != rows && i < matrix.Length0 == rows.Length0 && matrix.Length1 == rows.Length1 == |columns|
    requires Numbers(vocab, columns) && forall t :: t in vocab <==> t in Vocabulary(docs)
    requires RowIs(matrix, i, columns, w)
    modifies rows
    ensures forall r, j :: 0 <= r < rows.Length0 && 0 <= j < |columns| && r != i ==> rows[r, j] == old(rows[r, j])
    ensures RowIs(rows, i, columns, Scaled(w, Norm(sqrt, Vocabulary(docs), w)))
  {
    var square := RowProduct(matrix, i, i, columns, w, w);
    ColumnsGiveDot(columns, vocab, docs, w, w);
    var norm := sqrt(square);
    for j := 0 to matrix.Length1
      invariant forall r, c :: 0 <= r < rows.Length0 && 0 <= c < |columns| && r != i ==> rows[r, c] == old(rows[r, c])
      invariant forall c :: 0 <= c < j ==> rows[i, c] == Quotient(w(columns[c]), Divisor(norm))
    {
      rows[i, j] := Quotient(matrix[i, j], Divisor(norm));
    }
  }

  method FillMatrix(docs: seq<Document>, vocab: map<Token, nat>, df: map<Token, nat>, ghost columns: seq<Token>,
                    log: real -> real) returns (matrix: array2<real>)
    requires Numbers(vocab, columns) && forall t :: t in vocab <==> t in Vocabulary(docs)
    requires forall t :: t in vocab ==> t in df && df[t] == DocFreq(docs, t)
    ensures fresh(matrix) && matrix.Length0 == |docs| && matrix.Length1 == |columns|
    ensures forall r :: 0 <= r < |docs| ==> RowIs(matrix, r, columns, Weights(log, docs, docs[r]))
  {
    hide Weights, DocFreq;
    matrix := new real[|docs|, |vocab|]((_, _) => 0.0);
    for i := 0 to |docs|
      invariant forall r :: 0 <= r < i ==> RowIs(matrix, r, columns, Weights(log, docs, docs[r]))
      invariant forall r, j :: i <= r < |docs| && 0 <= j < |columns| ==> matrix[r, j] == 0.0
    {
      VocabularyHolds(docs, docs[i]);
      label before:
      FillRow(matrix, i, docs, vocab, df, columns, log);
      forall r | 0 <= r < i ensures RowIs(matrix, r, columns, Weights(log, docs, docs[r])) {
        assert old@before(RowIs(matrix, r, columns, Weights(log, docs, docs[r])));
      }
    }
  }

  /** `_build_tfidf`: row `i` of the matrix is the unit vector of document `i`. */
  method BuildTfidf(docs: seq<Document>, log: real -> real, sqrt: real -> real)
    returns (rows: array2<real>, ghost columns: seq<Token>, ghost vocab: map<Token, nat>)
    ensures rows.Length0 == |docs| && rows.Length1 == |columns|
    ensures Numbers(vocab, columns) && forall t :: t in vocab <==> t in Vocabulary(docs)
    ensures forall i :: 0 <= i < |docs| ==> RowIs(rows, i, columns, Row(log, sqrt, docs, docs[i]))
  {
    hide Weights, Norm, Scaled, DocFreq, Vocabulary;
    var numbers, df;
    numbers, df, columns := CountDocuments(docs);
    vocab := numbers;
    var matrix := FillMatrix(docs, numbers, df, columns, log);
    rows := new real[|docs|, |numbers|];
    for i := 0 to |docs|
      invariant forall r :: 0 <= r < |docs| ==> RowIs(matrix, r, columns, Weights(log, docs, docs[r]))
      invariant forall r :: 0 <= r < i ==> RowIs(rows, r, columns, Row(log, sqrt, docs, docs[r]))
    {
      label before:
      NormaliseRow(matrix, rows, i, columns, vocab, docs, Weights(log, docs, docs[i]), sqrt);
      forall r | 0 <= r < i ensures RowIs(rows, r, columns, Row(log, sqrt, docs, docs[r])) {
        assert old@before(RowIs(rows, r, columns, Row(log, sqrt, docs, docs[r])));
      }
    }
  }

  // ── The tokens two entities share ───────────────────────────────────────

  /** The order of strings: by the first characters that differ, a prefix first. */
  predicate Less(s: Token, t: Token) {
    t != "" && (s == "" || s[0] < t[0] || (s[0] == t[0] && Less(s[1..], t[1..])))
  }

  /** The strings agree before position `k`, where `s` ends or goes on with a smaller character. */
  ghost predicate Decides(s: Token, t: Token, k: int) {
    0 <= k <= |s| && k < |t| && s[..k] == t[..k] && (k < |s| ==> s[k] < t[k])
  }

  /** Where two strings first differ the smaller character decides; a proper prefix comes first. */
  lemma {:induction false} LessExactly(s: Token, t: Token)
    ensures Less(s, t) <==> exists k :: Decides(s, t, k)
  {
    if s != "" && t != "" && s[0] == t[0] {
      LessExactly(s[1..], t[1..]);
      forall k ensures Decides(s, t, k) <==> Decides(s[1..], t[1..], k - 1) {
        DecidesNext(s, t, k);
      }
      if Less(s, t) {
        var k :| Decides(s[1..], t[1..], k);
        DecidesNext(s, t, k + 1);
        assert Decides(s, t, k + 1);
      }
    } else {
      forall k ensures Decides(s, t, k) ==> k == 0 {
        if Decides(s, t, k) {
          DecidesStarts(s, t, k);
        }
      }
      assert Less(s, t) <==> Decides(s, t, 0);
    }
  }

  lemma DecidesStarts(s: Token, t: Token, k: int)
    requires Decides(s, t, k)
    ensures k > 0 ==> s != "" && t != "" && s[0] == t[0]
  {
    if k > 0 {
      assert s[..k][0] == s[0] && t[..k][0] == t[0];
    }
  }

  lemma DecidesNext(s: Token, t: Token, k: int)
    requires s != "" && t != "" && s[0] == t[0]
    ensures Decides(s, t, k) <==> Decides(s[1..], t[1..], k - 1)
  {
    if 0 < k <= |s| && k < |t| {
      assert s[..k] == [s[0]] + s[1..][..k - 1] && t[..k] == [t[0]] + t[1..][..k - 1];
      assert s[1..][..k - 1] == s[..k][1..] && t[1..][..k - 1] == t[..k][1..];
    }
  }

  lemma {:induction false} LessIsTotal(s: Token, t: Token)
    ensures Less(s, t) || s == t || Less(t, s)
    ensures !(Less(s, t) && Less(t, s)) && (Less(s, t) ==> s != t)
  {
    if s != "" && t != "" && s[0] == t[0] {
      LessIsTotal(s[1..], t[1..]);
      assert s == [s[0]] + s[1..] && t == [t[0]] + t[1..];
    }
  }

  lemma {:induction false} LessIsTransitive(s: Token, t: Token, u: Token)
    requires Less(s, t) && Less(t, u)
    ensures Less(s, u)
  {
    if s != "" && s[0] == t[0] == u[0] {
      LessIsTransitive(s[1..], t[1..], u[1..]);
    }
  }

  ghost predicate IsFirst(some: set<Token>, t: Token) {
    t in some && forall u :: u in some && u != t ==> Less(t, u)
  }

  method FindFirst(some: set<Token>) returns (first: Token)
    requires some != {}
    ensures IsFirst(some, first)
  {
    first :| first in some;
    var rest := some - {first};
    while rest != {}
      invariant first in some && rest <= some && first !in rest
      invariant forall u :: u in some && u !in rest && u != first ==> Less(first, u)
      decreases rest
    {
      var t :| t in rest;
      LessIsTotal(first, t);
      if Less(t, first) {
        forall u | u in some && u !in rest && u != first ensures Less(t, u) {
          LessIsTransitive(t, first, u);
        }
        first := t;
      }
      rest := rest - {t};
    }
  }

  lemma {:induction false} FirstExists(some: set<Token>)
    requires some != {}
    ensures exists t :: IsFirst(some, t)
  {
    var t :| t in some;
    if some == {t} {
      assert IsFirst(some, t);
    } else {
      FirstExists(some - {t});
      var u :| IsFirst(some - {t}, u);
      LessIsTotal(t, u);
      if Less(t, u) {
        forall v | v in some && v != t ensures Less(t, v) {
          if v != u {
            LessIsTransitive(t, u, v);
          }
        }
        assert IsFirst(some, t);
      } else {
        assert IsFirst(some, u);
      }
    }
  }

  /** `sorted(some)[:k]`. */
  ghost function FirstTokens(some: set<Token>, k: nat): seq<Token> {
    if some == {} || k == 0 then []
    else
      FirstExists(some);
      var t :| IsFirst(some, t);
      [t] + FirstTokens(some - {t}, k - 1)
  }

  lemma FirstIsUnique(some: set<Token>, t: Token, u: Token)
    requires IsFirst(some, t) && IsFirst(some, u)
    ensures t == u
  {
    LessIsTotal(t, u);
  }

  /** It lists the first `k` tokens in strict order: whatever it leaves out comes after all of them. */
  lemma {:induction false} FirstTokensAreFirst(some: set<Token>, k: nat)
    ensures var list := FirstTokens(some, k);
            && |list| <= k && (forall t :: t in list ==> t in some)
            && (forall i, j :: 0 <= i < j < |list| ==> Less(list[i], list[j]))
            && (forall t :: t in some && t !in list ==> |list| == k && forall i :: 0 <= i < k ==> Less(list[i], t))
  {
    if some != {} && k > 0 {
      var list := FirstTokens(some, k);
      var t, tail := list[0], list[1..];
      FirstTokensAreFirst(some - {t}, k - 1);
      assert list == [t] + tail && tail == FirstTokens(some - {t}, k - 1) && IsFirst(some, t);
      forall i, j | 0 <= i < j < |list| ensures Less(list[i], list[j]) {
        assert list[j] == tail[j - 1] && tail[j - 1] in tail;
      }
      forall u | u in some && u !in list ensures |list| == k && forall i :: 0 <= i < k ==> Less(list[i], u) {
        assert u != t && u !in tail && u in some - {t};
      }
    }
  }

  const SHOWN_TOKENS := 12

  ghost function Common(a: Document, b: Document): seq<Token> {
    FirstTokens(Words(a) * Words(b), SHOWN_TOKENS)
  }

  method CommonTokens(a: Document, b: Document) returns (common: seq<Token>)
    ensures common == Common(a, b)
    ensures |common| <= 12 && forall t :: t in common ==> t in a && t in b
    ensures forall t :: t in a && t in b && t !in common ==> |common| == 12 && forall i :: 0 <= i < 12 ==> Less(common[i], t)
  {
    hide FirstTokens, IsFirst;
    var rest := Words(a) * Words(b);
    common := [];
    while rest != {} && |common| < SHOWN_TOKENS
      invariant |common| <= SHOWN_TOKENS
      invariant common + FirstTokens(rest, SHOWN_TOKENS - |common|) == Common(a, b)
      decreases rest
    {
      var t := FindFirst(rest);
      FirstTokensNext(rest, SHOWN_TOKENS - |common|, t);
      common, rest := common + [t], rest - {t};
    }
    FirstTokensDone(rest, SHOWN_TOKENS - |common|);
    FirstTokensAreFirst(Words(a) * Words(b), SHOWN_TOKENS);
    assert forall t :: t in Words(a) * Words(b) <==> t in a && t in b;
  }

  lemma FirstTokensDone(some: set<Token>, k: nat)
    requires some == {} || k == 0
    ensures FirstTokens(some, k) == []
  {}

  lemma FirstTokensNext(some: set<Token>, k: nat, t: Token)
    requires IsFirst(some, t) && k > 0
    ensures FirstTokens(some, k) == [t] + FirstTokens(some - {t}, k - 1)
  {
    FirstExists(some);
    var u :| IsFirst(some, u) && FirstTokens(some, k) == [u] + FirstTokens(some - {u}, k - 1);
    FirstIsUnique(some, t, u);
  }

  // ── Scanning the pairs ──────────────────────────────────────────────────

  const MAX_RESULTS := 200

  /** An entity with the tokens of its text fields. */
  datatype Entity = Entity(id: int, tokens: Document)

  /** A pair of positions in the list of entities that have tokens, with its rounded similarity and what it shares. */
  datatype Candidate = Candidate(i: nat, j: nat, similarity: real, common: seq<Token>)

  datatype Settings = Settings(threshold: real, limit: nat, dismissed: set<(int, int)>,
                               log: real -> real, sqrt: real -> real, round: real -> real)

  function WithTokens(entities: seq<Entity>): seq<Entity> {
    if entities == [] then []
    else
      var last := entities[|entities| - 1];
      WithTokens(entities[..|entities| - 1]) + (if last.tokens == [] then [] else [last])
  }

  function Documents(entities: seq<Entity>): (docs: seq<Document>)
    ensures |docs| == |entities| && forall i :: 0 <= i < |docs| ==> docs[i] == entities[i].tokens
  {
    seq(|entities|, i requires 0 <= i < |entities| => entities[i].tokens)
  }

  function Pair(a: int, b: int): (int, int) {
    if a <= b then (a, b) else (b, a)
  }

  ghost function PairSimilarity(valid: seq<Entity>, o: Settings, i: nat, j: nat): real
    requires i < |valid| && j < |valid|
  {
    Similarity(o.log, o.sqrt, Documents(valid), valid[i].tokens, valid[j].tokens)
  }

  /** Positions `i < j` of similar enough entities whose pair nobody dismissed. */
  ghost predicate IsCandidate(valid: seq<Entity>, o: Settings, c: Candidate) {
    && c.i < c.j < |valid|
    && PairSimilarity(valid, o, c.i, c.j) >= o.threshold
    && (if valid[c.i].id <= valid[c.j].id then (valid[c.i].id, valid[c.j].id) else (valid[c.j].id, valid[c.i].id))
         !in o.dismissed
    && c.similarity == o.round(PairSimilarity(valid, o, c.i, c.j))
    && c.common == Common(valid[c.i].tokens, valid[c.j].tokens)
  }

  predicate Earlier(c: Candidate, i: nat, j: nat) {
    c.i < i || (c.i == i && c.j < j)
  }

  /** The order of the result: higher similarity first, then the order of the scan. */
  predicate Before(c: Candidate, d: Candidate) {
    c.similarity > d.similarity || (c.similarity == d.similarity && Earlier(c, d.i, d.j))
  }

  ghost predicate ScanOrder(found: seq<Candidate>) {
    forall p, q :: 0 <= p < q < |found| ==> Earlier(found[p], found[q].i, found[q].j)
  }

  ghost predicate Ranked(found: seq<Candidate>) {
    forall p, q :: 0 <= p < q < |found| ==> Before(found[p], found[q])
  }

  /** The two nested loops: every candidate, in the order of the scan. */
  method ScanPairs(valid: seq<Entity>, o: Settings) returns (found: seq<Candidate>)
    ensures ScanOrder(found)
    ensures forall c :: c in found <==> IsCandidate(valid, o, c)
  {
    ghost var docs := Documents(valid);
    ghost var columns, vocab;
    var rows;
    rows, columns, vocab := BuildTfidf(Documents(valid), o.log, o.sqrt);
    found := [];
    var n := |valid|;
    hide Numbers, Row, Vocabulary;
    for i := 0 to n
      invariant ScanOrder(found)
      invariant forall c :: c in found <==> IsCandidate(valid, o, c) && c.i < i
      invariant forall r :: 0 <= r < n ==> RowIs(rows, r, columns, Row(o.log, o.sqrt, docs, docs[r]))
    {
      for j := i + 1 to n
        invariant ScanOrder(found)
        invariant forall c :: c in found <==> IsCandidate(valid, o, c) && Earlier(c, i, j)
        invariant forall r :: 0 <= r < n ==> RowIs(rows, r, columns, Row(o.log, o.sqrt, docs, docs[r]))
      {
        ghost var u, v := Row(o.log, o.sqrt, docs, docs[i]), Row(o.log, o.sqrt, docs, docs[j]);
        assert RowIs(rows, i, columns, u) && RowIs(rows, j, columns, v);
        var sim := RowProduct(rows, i, j, columns, u, v);
        ColumnsGiveDot(columns, vocab, docs, u, v);
        assert sim == PairSimilarity(valid, o, i, j);
        if sim >= o.threshold && Pair(valid[i].id, valid[j].id) !in o.dismissed {
          found := Append(valid, o, found, i, j, sim);
        } else {
          SkipPair(valid, o, found, i, j);
        }
      }
    }
  }

  method Append(valid: seq<Entity>, o: Settings, found: seq<Candidate>, i: nat, j: nat, sim: real)
    returns (more: seq<Candidate>)
    requires i < j < |valid| && sim == PairSimilarity(valid, o, i, j)
    requires sim >= o.threshold && Pair(valid[i].id, valid[j].id) !in o.dismissed
    requires ScanOrder(found) && forall c :: c in found <==> IsCandidate(valid, o, c) && Earlier(c, i, j)
    ensures ScanOrder(more) && forall c :: c in more <==> IsCandidate(valid, o, c) && Earlier(c, i, j + 1)
  {
    hide PairSimilarity;
    var common := CommonTokens(valid[i].tokens, valid[j].tokens);
    hide Common;
    var last := Candidate(i, j, o.round(sim), common);
    more := found + [last];
    assert IsCandidate(valid, o, last);
    forall c ensures c in more <==> IsCandidate(valid, o, c) && Earlier(c, i, j + 1) {
      assert c in more <==> c in found || c == last;
    }
    forall p, q | 0 <= p < q < |more| ensures Earlier(more[p], more[q].i, more[q].j) {
      assert found[p] in found;
    }
  }

  lemma SkipPair(valid: seq<Entity>, o: Settings, found: seq<Candidate>, i: nat, j: nat)
    requires i < j < |valid|
    requires PairSimilarity(valid, o, i, j) < o.threshold || Pair(valid[i].id, valid[j].id) in o.dismissed
    requires forall c :: c in found <==> IsCandidate(valid, o, c) && Earlier(c, i, j)
    ensures forall c :: c in found <==> IsCandidate(valid, o, c) && Earlier(c, i, j + 1)
  {}

  /** `candidates.sort(key=similarity, reverse=True)`, which keeps the order of equal keys. */
  method SortBySimilarity(found: seq<Candidate>) returns (ranked: seq<Candidate>)
    requires ScanOrder(found)
    ensures Ranked(ranked) && forall c :: c in ranked <==> c in found
  {
    ranked := [];
    for k := 0 to |found|
      invariant Ranked(ranked) && forall c :: c in ranked <==> c in found[..k]
    {
      var c := found[k];
      var p := 0;
      while p < |ranked| && ranked[p].similarity >= c.similarity
        invariant 0 <= p <= |ranked|
        invariant forall q :: 0 <= q < p ==> ranked[q].similarity >= c.similarity
      {
        p := p + 1;
      }
      forall q | 0 <= q < |ranked| ensures Earlier(ranked[q], c.i, c.j) {
        assert ranked[q] in found[..k];
      }
      assert found[..k + 1] == found[..k] + [c];
      ranked := InsertAt(ranked, p, c);
    }
    assert found[..|found|] == found;
  }

  method InsertAt(ranked: seq<Candidate>, p: nat, c: Candidate) returns (more: seq<Candidate>)
    requires Ranked(ranked) && p <= |ranked|
    requires forall q :: 0 <= q < p ==> Before(ranked[q], c)
    requires p < |ranked| ==> Before(c, ranked[p])
    ensures Ranked(more) && forall d :: d in more <==> d == c || d in ranked
  {
    more := ranked[..p] + [c] + ranked[p..];
    assert ranked == ranked[..p] + ranked[p..];
    forall q | p <= q < |ranked| ensures Before(c, ranked[q]) {
      assert q > p ==> Before(ranked[p], ranked[q]);
    }
  }

  function Limited(rows: seq<Entity>, limit: nat): seq<Entity> {
    if |rows| <= limit then rows else rows[..limit]
  }

  /** `find_candidates`: of all candidates among the rows the query returns, the 200 first in ranking order, or all of
      them if they are fewer. */
  method FindCandidates(rows: seq<Entity>, o: Settings) returns (top: seq<Candidate>)
    ensures Ranked(top) && |top| <= 200
    ensures var valid := WithTokens(if |rows| <= o.limit then rows else rows[..o.limit]);
            && (forall c :: c in top ==> IsCandidate(valid, o, c))
            && (forall c :: IsCandidate(valid, o, c) ==>
                  c in top || (|top| == 200 && forall d :: d in top ==> Before(d, c)))
  {
    var entities := Limited(rows, o.limit);
    var valid := WithTokens(entities);
    WithTokensShorter(entities);
    if |entities| < 2 || |valid| < 2 {
      return [];
    }
    var found := ScanPairs(valid, o);
    var ranked := SortBySimilarity(found);
    if |ranked| <= MAX_RESULTS {
      return ranked;
    }
    top := ranked[..MAX_RESULTS];
    forall q | 0 <= q < MAX_RESULTS ensures ranked[q] in top {
      assert top[q] == ranked[q];
    }
    forall c | c in ranked && c !in top ensures forall d :: d in top ==> Before(d, c) {
      var q :| 0 <= q < |ranked| && ranked[q] == c;
    }
  }

  /** Of the rows exactly those with tokens are kept, in their order. */
  lemma {:induction false} WithTokensInOrder(a: seq<Entity>, b: seq<Entity>, e: Entity)
    ensures WithTokens(a + b) == WithTokens(a) + WithTokens(b)
    ensures WithTokens([e]) == if |e.tokens| > 0 then [e] else []
  {
    assert [e][..0] == [];
    if b == [] {
      assert a + b == a;
    } else {
      WithTokensInOrder(a, b[..|b| - 1], e);
      assert (a + b)[..|a + b| - 1] == a + b[..|b| - 1];
    }
  }

  lemma {:induction false} WithTokensShorter(entities: seq<Entity>)
    ensures |WithTokens(entities)| <= |entities|
    ensures forall e :: e in WithTokens(entities) <==> e in entities && e.tokens != []
  {
    if entities != [] {
      WithTokensShorter(entities[..|entities| - 1]);
      assert entities == entities[..|entities| - 1] + [entities[|entities| - 1]];
    }
  }
}
