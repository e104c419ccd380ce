/**
  The index and the retriever. The embedding service and the similarity of a
  query to an indexed vector are parameters: `embed` stands for one call of
  the embedding service per text (followed by normalisation), and
  `similarity` for the dot product of an indexed vector with the normalised
  query vector. The order `np.argsort` gives the scores is a parameter too:
  any valid argsort, since the sort leaves the order of equal scores open.
 */
module Retrieval {
  import opened Strings
  import opened Chunker
  import opened Ranking

  /** What `build_index` returns: the chunks, and parallel to them one
      embedding per chunk. */
  datatype Index<E> = Index(chunks: seq<Chunk>, embeddings: seq<E>) {
    predicate Valid() {
      |chunks| == |embeddings|
    }
  }

  datatype Option<T> = None | Some(value: T)

  /** One retrieved passage and its similarity score. */
  datatype RetrievalResult = RetrievalResult(text: string, score: real)

  /** `[c["text"] for c in chunks]` */
  function Texts(chunks: seq<Chunk>): (texts: seq<string>)
    ensures |texts| == |chunks|
    ensures forall i :: 0 <= i < |chunks| ==> texts[i] == chunks[i].text
  {
    seq(|chunks|, i requires 0 <= i < |chunks| => chunks[i].text)
  }

  /** The embedding service's answer: one vector per text, in order. */
  function EmbedAll<E>(texts: seq<string>, embed: string -> E): (embs: seq<E>)
    ensures |embs| == |texts|
    ensures forall i :: 0 <= i < |texts| ==> embs[i] == embed(texts[i])
  {
    seq(|texts|, i requires 0 <= i < |texts| => embed(texts[i]))
  }

  /** `build_index`. An empty chunk list has no index: the embedding request
      with no input fails, and so would normalising a one-dimensional empty
      array along `axis=1`. Otherwise the chunks are kept as they are, and
      the i-th embedding is the embedding of the i-th chunk's text. */
  function BuildIndex<E>(chunks: seq<Chunk>, embed: string -> E): (r: Option<Index<E>>)
    ensures r.None? <==> chunks == []
    ensures r.Some? ==>
      && r.value.Valid()
      && r.value.chunks == chunks
      && forall i :: 0 <= i < |chunks| ==> r.value.embeddings[i] == embed(chunks[i].text)
  {
    if chunks == [] then None
    else Some(Index(chunks, EmbedAll(Texts(chunks), embed)))
  }

  /** The chunks loaded from a text (as many as its paragraphs) can be
      indexed exactly when the text is not blank. */
  lemma BuildIndexFailsOnBlankText<E>(text: string, chunks: seq<Chunk>, embed: string -> E)
    requires |chunks| == |Paragraphs(text)|
    ensures BuildIndex(chunks, embed).None? <==> AllSpace(text)
  {
    NoParagraphsIffBlank(text);
  }

  /** `np.dot(index["embeddings"], q_emb)`: one score per indexed vector. */
  function Scores<E>(index: Index<E>, similarity: E -> real): (scores: seq<real>)
    ensures |scores| == |index.embeddings|
    ensures forall i :: 0 <= i < |index.embeddings| ==> scores[i] == similarity(index.embeddings[i])
  {
    seq(|index.embeddings|, i requires 0 <= i < |index.embeddings| => similarity(index.embeddings[i]))
  }

  /** `results` holds, rank by rank, the text and score of the chunks at the
      positions `top`. */
  predicate Reports<E>(index: Index<E>, scores: seq<real>, top: seq<nat>,
                       results: seq<RetrievalResult>)
  {
    && |results| == |top|
    && forall i :: 0 <= i < |results| ==>
         top[i] < |index.chunks| && top[i] < |scores|
         && results[i] == RetrievalResult(index.chunks[top[i]].text, scores[top[i]])
  }

  /** For any valid argsort of the scores, the positions `[-k:][::-1]` are a
      top selection, as many as the slice keeps. */
  lemma SelectedIsTop<E>(index: Index<E>, similarity: E -> real, order: seq<nat>, k: int)
    requires index.Valid() && IsArgSort(Scores(index, similarity), order)
    ensures var scores, top := Scores(index, similarity), TopPositions(order, k);
            && |scores| == |index.chunks|
            && IsTopSelection(scores, top)
            && |top| == ResultCount(|index.chunks|, k)
  {
    TopPositionsAreTop(Scores(index, similarity), order, k);
  }

  /** Results that report the selected positions are as many as `[-k:]`
      keeps, best first, and no chunk left out scores above one reported. */
  lemma RetrievedAreTop<E>(index: Index<E>, similarity: E -> real, order: seq<nat>, k: int,
                           results: seq<RetrievalResult>)
    requires index.Valid() && IsArgSort(Scores(index, similarity), order)
    requires Reports(index, Scores(index, similarity), TopPositions(order, k), results)
    ensures |results| == ResultCount(|index.chunks|, k)
    ensures k >= 1 ==> |results| == if k < |index.chunks| then k else |index.chunks|
    ensures k == 0 ==> |results| == |index.chunks|
    ensures Distinct(TopPositions(order, k))
    ensures forall i, j :: 0 <= i < j < |results| ==> results[i].score >= results[j].score
    ensures forall i, p ::
              (0 <= i < |results| && 0 <= p < |index.chunks| && p !in TopPositions(order, k)) ==>
              Scores(index, similarity)[p] <= results[i].score
  {
    var scores := Scores(index, similarity);
    var top := TopPositions(order, k);
    SelectedIsTop(index, similarity, order, k);
    assert forall i :: 0 <= i < |results| ==> results[i].score == scores[top[i]];
  }

  /** Two runs that break ties differently report the same scores, rank by
      rank; only which of several equally scored chunks is reported differs. */
  lemma ResultsIgnoreTies<E>(index: Index<E>, similarity: E -> real, o1: seq<nat>, o2: seq<nat>,
                             k: int, r1: seq<RetrievalResult>, r2: seq<RetrievalResult>)
    requires index.Valid()
    requires IsArgSort(Scores(index, similarity), o1) && IsArgSort(Scores(index, similarity), o2)
    requires Reports(index, Scores(index, similarity), TopPositions(o1, k), r1)
    requires Reports(index, Scores(index, similarity), TopPositions(o2, k), r2)
    ensures |r1| == |r2|
    ensures forall i :: 0 <= i < |r1| ==> r1[i].score == r2[i].score
  {
    var scores := Scores(index, similarity);
    TopScoresIgnoreTies(scores, o1, o2, k);
    var t1, t2 := TopPositions(o1, k), TopPositions(o2, k);
    assert forall i :: 0 <= i < |r1| ==> r1[i].score == scores[t1[i]] && r2[i].score == scores[t2[i]];
  }

  /** Every selected position names an indexed chunk and its score. */
  lemma SelectedInRange<E>(index: Index<E>, similarity: E -> real, order: seq<nat>, k: int)
    requires index.Valid() && IsArgSort(Scores(index, similarity), order)
    ensures |Scores(index, similarity)| == |index.chunks|
    ensures InRange(TopPositions(order, k), |index.chunks|)
  {
    var top := TopPositions(order, k);
    assert forall i :: 0 <= i < |top| ==> top[i] == order[|order| - 1 - i];
  }

  /** `retrieve_similar` once the scores and their argsort `order` are known:
      one result per selected position, carrying that chunk's text and score. */
  method RetrieveSimilar<E>(index: Index<E>, similarity: E -> real, order: seq<nat>, k: int)
    returns (results: seq<RetrievalResult>)
    requires index.Valid() && IsArgSort(Scores(index, similarity), order)
    ensures Reports(index, Scores(index, similarity), TopPositions(order, k), results)
    ensures |results| == ResultCount(|index.chunks|, k)
    ensures k >= 1 ==> |results| == if k < |index.chunks| then k else |index.chunks|
    ensures k == 0 ==> |results| == |index.chunks|
    ensures Distinct(TopPositions(order, k))
    ensures forall i, j :: 0 <= i < j < |results| ==> results[i].score >= results[j].score
    ensures forall i, p ::
              (0 <= i < |results| && 0 <= p < |index.chunks| && p !in TopPositions(order, k)) ==>
              Scores(index, similarity)[p] <= results[i].score
  {
    var scores := Scores(index, similarity);
    var top := TopPositions(order, k);
    SelectedInRange(index, similarity, order, k);
    results := [];
    for t := 0 to |top|
      invariant |results| == t
      invariant forall i :: 0 <= i < t ==>
        results[i] == RetrievalResult(index.chunks[top[i]].text, scores[top[i]])
    {
      var idx := top[t];
      results := results + [RetrievalResult(index.chunks[idx].text, scores[idx])];
    }
    RetrievedAreTop(index, similarity, order, k, results);
  }
}
