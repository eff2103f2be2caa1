/** The retrieval step of the demo: take the first `search_depth` articles,
    score each by the raw dot product of its embedding with the query's,
    and keep the `num_results` best. The embedding model is a parameter:
    a function from text to vector. */
module Retrieval {
  import opened Corpus
  import opened Ranking

  type Vector = seq<real>

  /** `np.dot` raises when the vector shapes do not line up. */
  datatype Error = DimensionMismatch

  datatype Result<T> = Ok(value: T) | Err(error: Error)

  /** One row shown to the reader: its window index, the article and its score. */
  datatype Hit = Hit(index: nat, article: Article, score: real)

  /** What the page shows: the prompt to type a topic, the ranked hits, or
      nothing because the embedding shapes clash. */
  datatype Outcome = Prompt | Ranked(hits: seq<Hit>) | Failed(error: Error)

  /** The values of the "Results to Analyze" slider. */
  predicate ValidNumResults(k: nat)
  {
    1 <= k <= 10
  }

  /** The values of the "Search Depth" slider. */
  predicate ValidSearchDepth(d: nat)
  {
    d == 100 || d == 200 || d == 300 || d == 500
  }

  function Dot(u: Vector, v: Vector): real
    requires |u| == |v|
    decreases |u|
  {
    if |u| == 0 then 0.0 else u[0] * v[0] + Dot(u[1..], v[1..])
  }

  /** `c * v`, element by element. */
  function Scale(c: real, v: Vector): (r: Vector)
    ensures |r| == |v| && forall i :: 0 <= i < |v| ==> r[i] == c * v[i]
  {
    seq(|v|, i requires 0 <= i < |v| => c * v[i])
  }

  /** The score does not depend on which vector is the query. */
  lemma {:induction false} DotSymmetric(u: Vector, v: Vector)
    requires |u| == |v|
    ensures Dot(u, v) == Dot(v, u)
    decreases |u|
  {
    if |u| > 0 {
      DotSymmetric(u[1..], v[1..]);
    }
  }

  /** The score is the raw dot product, not the cosine: stretching an
      article's vector by `c` multiplies its score by `c`. */
  lemma {:induction false} DotScale(c: real, u: Vector, v: Vector)
    requires |u| == |v|
    ensures Dot(Scale(c, u), v) == c * Dot(u, v)
    decreases |u|
  {
    if |u| > 0 {
      assert forall i :: 0 <= i < |u| - 1 ==> Scale(c, u)[1..][i] == c * u[1..][i];
      assert Scale(c, u)[1..] == Scale(c, u[1..]);
      DotScale(c, u[1..], v[1..]);
    }
  }

  /** Every article vector has the query's dimension. */
  ghost predicate Aligned(vecs: seq<Vector>, q: Vector)
  {
    forall i :: 0 <= i < |vecs| ==> |vecs[i]| == |q|
  }

  /** `np.dot(content_vecs, query_vec.T).flatten()`: one score per article
      vector, in the order of the vectors, or an error if a dimension
      differs from the query's. */
  function Scores(vecs: seq<Vector>, q: Vector): (r: Result<seq<real>>)
    ensures r.Ok? <==> Aligned(vecs, q)
    ensures r.Ok? ==> |r.value| == |vecs|
    ensures r.Ok? ==> forall i :: 0 <= i < |vecs| ==> r.value[i] == Dot(vecs[i], q)
    decreases |vecs|
  {
    if vecs == [] then Ok([])
    else if |vecs[0]| != |q| then Err(DimensionMismatch)
    else
      match Scores(vecs[1..], q)
      case Err(e) => Err(e)
      case Ok(s) =>
        assert forall i :: 1 <= i < |vecs| ==> vecs[i] == vecs[1..][i - 1];
        Ok([Dot(vecs[0], q)] + s)
  }

  /** `df.iloc[:search_depth]`: the first `depth` articles, or all of them. */
  function Window(articles: seq<Article>, depth: nat): (w: seq<Article>)
    ensures |w| == Min(depth, |articles|) && w <= articles
  {
    Take(articles, depth)
  }

  /** `model.encode(texts)`: one vector per text (see EncodeInOrder). */
  function Encode(embed: string -> Vector, texts: seq<string>): (vs: seq<Vector>)
    ensures |vs| == |texts|
    decreases |texts|
  {
    if texts == [] then [] else [embed(texts[0])] + Encode(embed, texts[1..])
  }

  /** Encoding a batch never reorders it: entry `i` is the vector of text `i`. */
  lemma {:induction false} EncodeInOrder(embed: string -> Vector, texts: seq<string>, i: nat)
    requires i < |texts|
    ensures Encode(embed, texts)[i] == embed(texts[i])
    decreases |texts|
  {
    if i > 0 {
      EncodeInOrder(embed, texts[1..], i - 1);
    }
  }

  /** `sub_df['description'].fillna("").tolist()`: the description texts of
      the window, a missing one as "" (see DescriptionsInOrder). */
  function Descriptions(w: seq<Article>): (ts: seq<string>)
    ensures |ts| == |w|
    decreases |w|
  {
    if w == [] then [] else [FillNa(w[0].description)] + Descriptions(w[1..])
  }

  lemma {:induction false} DescriptionsInOrder(w: seq<Article>, i: nat)
    requires i < |w|
    ensures Descriptions(w)[i] == FillNa(w[i].description)
    decreases |w|
  {
    if i > 0 {
      DescriptionsInOrder(w[1..], i - 1);
    }
  }

  /** Scores, argsort, reversal and the first `k` indices. The result is a
      correct top-`k` of the scores, and whatever order NumPy gives equal
      scores, its scores are the ones this ranking shows. */
  function Rank(vecs: seq<Vector>, q: Vector, k: nat): (r: Result<seq<nat>>)
    ensures r.Ok? <==> Aligned(vecs, q)
    ensures r.Ok? ==> Scores(vecs, q).Ok? && IsTopK(Scores(vecs, q).value, r.value, k)
    ensures r.Ok? ==> forall p :: IsArgsort(Scores(vecs, q).value, p) ==>
      ScoresAt(Scores(vecs, q).value, TopIndices(p, k)) == ScoresAt(Scores(vecs, q).value, r.value)
  {
    match Scores(vecs, q)
    case Err(e) => Err(e)
    case Ok(s) =>
      var order := ArgSort(s);
      ArgsortTopK(s, order, k);
      AnyArgsortSameScores(s, order, k);
      Ok(TopIndices(order, k))
  }

  lemma AnyArgsortSameScores(s: seq<real>, order: seq<nat>, k: nat)
    requires IsArgsort(s, order)
    ensures forall p :: IsArgsort(s, p) ==>
      ScoresAt(s, TopIndices(p, k)) == ScoresAt(s, TopIndices(order, k))
  {
    forall p | IsArgsort(s, p)
      ensures ScoresAt(s, TopIndices(p, k)) == ScoresAt(s, TopIndices(order, k))
    {
      TopScoresIgnoreTies(s, p, order, k);
    }
  }

  /** The hits shown for the ranked window indices `t`. */
  function Hits(w: seq<Article>, s: seq<real>, t: seq<nat>): (hs: seq<Hit>)
    requires |s| == |w| && InRange(t, |w|)
    ensures Indices(hs) == t
    ensures forall i :: 0 <= i < |hs| ==> hs[i].index < |w| && hs[i].article == w[hs[i].index] && hs[i].score == s[hs[i].index]
  {
    seq(|t|, i requires 0 <= i < |t| => Hit(t[i], w[t[i]], s[t[i]]))
  }

  /** The window indices of the hits, in the order shown. */
  function Indices(hs: seq<Hit>): (t: seq<nat>)
    ensures |t| == |hs|
  {
    seq(|hs|, i requires 0 <= i < |hs| => hs[i].index)
  }

  /** `hs` are the `k` best articles of window `w` for query vector `q`:
      min(k, |w|) distinct window articles with their own scores, scores
      non-increasing, and no article left out scoring above one shown. */
  ghost predicate ShowsTopK(w: seq<Article>, vecs: seq<Vector>, q: Vector, hs: seq<Hit>, k: nat)
    requires |vecs| == |w| && Aligned(vecs, q)
  {
    && |hs| == Min(k, |w|)
    && (forall i :: 0 <= i < |hs| ==>
          hs[i].index < |w| && hs[i].article == w[hs[i].index] &&
          hs[i].score == Dot(vecs[hs[i].index], q))
    && Distinct(Indices(hs))
    && (forall i, j :: 0 <= i < j < |hs| ==> hs[i].score >= hs[j].score)
    && (forall i, j :: 0 <= i < |hs| && 0 <= j < |w| && j !in Indices(hs) ==>
          hs[i].score >= Dot(vecs[j], q))
  }

  lemma HitsShowTopK(w: seq<Article>, vecs: seq<Vector>, q: Vector, t: seq<nat>, k: nat)
    requires |vecs| == |w| && Scores(vecs, q).Ok?
    requires IsTopK(Scores(vecs, q).value, t, k)
    ensures Aligned(vecs, q)
    ensures ShowsTopK(w, vecs, q, Hits(w, Scores(vecs, q).value, t), k)
  {
    var hs := Hits(w, Scores(vecs, q).value, t);
    assert Indices(hs) == t;
  }

  /** Ranks the window `w`, whose embeddings are `vecs`, against the query
      vector `q` and pairs each chosen index with its article and score. */
  function RankWindow(w: seq<Article>, vecs: seq<Vector>, q: Vector, k: nat): (o: Outcome)
    requires |vecs| == |w|
    ensures o.Prompt? == false
    ensures o.Failed? <==> !Aligned(vecs, q)
    ensures o.Ranked? ==> Aligned(vecs, q) && ShowsTopK(w, vecs, q, o.hits, k)
    ensures o.Ranked? ==> |o.hits| == Min(k, |w|)
  {
    match Rank(vecs, q, k)
    case Err(e) => Failed(e)
    case Ok(t) =>
      HitsShowTopK(w, vecs, q, t, k);
      Ranked(Hits(w, Scores(vecs, q).value, t))
  }

  /** The embeddings of the window's descriptions, in window order. */
  function WindowVectors(articles: seq<Article>, embed: string -> Vector, depth: nat): (vs: seq<Vector>)
    ensures |vs| == |Window(articles, depth)|
  {
    Encode(embed, Descriptions(Window(articles, depth)))
  }

  /** Vector `i` of the window is the embedding of article `i`'s description,
      a missing one read as "". */
  lemma WindowVectorsInOrder(articles: seq<Article>, embed: string -> Vector, depth: nat, i: nat)
    requires i < Min(depth, |articles|)
    ensures WindowVectors(articles, embed, depth)[i] == embed(FillNa(articles[i].description))
  {
    var w := Window(articles, depth);
    DescriptionsInOrder(w, i);
    EncodeInOrder(embed, Descriptions(w), i);
  }

  /** The whole retrieval path of the page for one query: no search for an
      empty query or an empty table, an error when the embedding shapes
      clash, otherwise at least one and at most `k` hits that are the best
      of the window. */
  function Search(articles: seq<Article>, embed: string -> Vector, query: string,
                  depth: nat, k: nat): (o: Outcome)
    requires ValidSearchDepth(depth) && ValidNumResults(k)
    ensures o.Prompt? <==> query == [] || articles == []
    ensures o.Failed? <==>
      query != [] && articles != [] && !Aligned(WindowVectors(articles, embed, depth), embed(query))
    ensures o.Ranked? ==> Aligned(WindowVectors(articles, embed, depth), embed(query))
    ensures o.Ranked? ==>
      ShowsTopK(Window(articles, depth), WindowVectors(articles, embed, depth), embed(query), o.hits, k)
    ensures o.Ranked? ==> |o.hits| >= 1
  {
    if query == [] || articles == [] then Prompt
    else
      assert Min(k, |Window(articles, depth)|) >= 1;
      RankWindow(Window(articles, depth), WindowVectors(articles, embed, depth), embed(query), k)
  }
}
