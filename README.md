# policy_rag_bot: chunking and top-k retrieval, modelled in Dafny

The policy bot answers questions from a policy document. It cuts the document
into paragraphs (`load_policy_chunks`), gives every paragraph an embedding
(`build_index`), and, for a question, returns the `k` paragraphs whose
embeddings score highest against the question's embedding
(`retrieve_similar`). This project models those three functions of
`rag_utils.py` and proves what they promise.

- `strings.dfy` (module `Strings`): Python's `str.strip()` and
  `str.split(sep)`. Each is specified independently of its definition
  (`IsStripOf`, the round trip through `Join`, `CutAtLeftmostMatches`), and
  each is proved to be the only function meeting that specification.
- `chunker.dfy` (module `Chunker`): the list comprehension that splits on a
  blank line, strips and drops blank pieces (`Paragraphs`), and the
  numbering loop (`LoadPolicyChunks`, a method with loop invariants).
- `ranking.dfy` (module `Ranking`): `np.argsort` as a specification
  (`IsArgSort`: a permutation listing the positions by ascending score, ties
  in any order), one concrete argsort, Python's slice `[-k:]` with its index
  rules, `[::-1]`, and the top-k properties. Every top-k lemma holds for
  every valid argsort, not only the concrete one.
- `retrieval.dfy` (module `Retrieval`): the index as two parallel sequences
  (`BuildIndex`, which has no result for an empty chunk list) and the loop
  that turns the selected positions into results (`RetrieveSimilar`, a
  method with loop invariants).

The embedding service and the numerics around it are parameters:
- `embed: string -> E` stands for one embedding per text, already normalised;
- `similarity: E -> real` stands for the dot product of an indexed vector
  with the normalised query vector.

The scores are thus `similarity` applied to each indexed embedding, in index
order. The argsort of the scores is a parameter `order` of the retriever,
constrained only by `IsArgSort`: how `np.argsort` orders equal scores is not
modelled, so everything proved about the results holds for every valid order.
`Ranking.ArgSort` shows that such an order always exists.

A caller might expect `k = 0` to give no results; the code returns every
chunk, because `[-0:]` is the whole array. The model follows the code:
`ResultCount(n, 0) == n`, and `Ranking.TopPositionsAreTop` and
`Retrieval.RetrieveSimilar` state that case separately. A negative `k` is modelled by Python's slice rules too: it keeps
all but the `-k` lowest positions. That set is still a top selection, of
`max(n + k, 0)` positions.

## Model

| member | source | states |
|---|---|---|
| Strings.Join | rag_utils.py:17 | `sep.join(pieces)`: the empty list joins to `""` and the first piece begins the result; `SplitJoin` and `SplitUnique` tie it to `Split` |
| Strings.Split | rag_utils.py:17 | `text.split(sep)` always has at least one piece; `SplitJoin`, `SplitCutsAtLeftmostMatches` and `SplitUnique` characterise it completely |
| Strings.Strip | rag_utils.py:17 | the result is the string with its leading and trailing whitespace removed (`IsStripOf`), and neither of its ends is whitespace |
| Strings.StripOfUnique | rag_utils.py:17 | any two results meeting the strip specification for the same string are equal, so `Strip` is the only function meeting it |
| Strings.StripEmptyIffBlank | rag_utils.py:17 | stripping gives the empty string exactly when the string is all whitespace (the `if c.strip()` filter) |
| Strings.StripIdempotent | rag_utils.py:17 | stripping a stripped string changes nothing |
| Strings.SplitJoin | rag_utils.py:17 | joining the pieces of `s.split(sep)` with `sep` gives back `s` |
| Strings.SplitCutsAtLeftmostMatches | rag_utils.py:17 | the cuts fall on the leftmost non-overlapping matches: no piece but the last is followed by a match that starts inside it, and the last piece contains no match |
| Strings.SplitUnique | rag_utils.py:17 | any list of pieces that is cut at leftmost matches and joins back to `s` is `Split(s, sep)` |
| Strings.SplitNoMatch | rag_utils.py:17 | a string without the separator splits into itself alone |
| Strings.SplitAtFirstMatch | rag_utils.py:17 | the first piece ends at the first match, and the rest is the split of what follows the match |
| Strings.SplitBlank | rag_utils.py:17 | every piece of an all-whitespace string is all whitespace |
| Strings.JoinBlank | rag_utils.py:17 | joining blank pieces with a blank separator gives a blank string |
| Chunker.StripAll | rag_utils.py:17 | the i-th entry is the strip of the i-th piece (`IsStripOf`), with no whitespace at either end, one entry per piece |
| Chunker.DropEmpty | rag_utils.py:17 | every piece the filter keeps is non-empty |
| Chunker.KeptPositions | rag_utils.py:17 | the kept pieces are the pieces at strictly increasing positions, and every non-empty piece is among them: nothing is reordered, duplicated or lost |
| Chunker.Paragraphs | rag_utils.py:17 | every paragraph is non-empty and neither of its ends is whitespace |
| Chunker.ParagraphsInSourceOrder | rag_utils.py:17 | the i-th paragraph is the strip of the split piece at an increasing position, and a piece is left out exactly when it is all whitespace |
| Chunker.NoParagraphsIffBlankPieces | rag_utils.py:17 | there are no paragraphs exactly when every split piece is blank |
| Chunker.NoParagraphsIffBlank | rag_utils.py:17 | the text has no paragraphs exactly when it is empty or all whitespace |
| Chunker.SomePieceNonBlank | rag_utils.py:17 | text that is not all whitespace has a piece that is not all whitespace |
| Chunker.SingleParagraph | rag_utils.py:17 | non-blank text without a blank line is exactly one paragraph, the stripped text |
| Chunker.LoadPolicyChunks | rag_utils.py:17-21 | one chunk per paragraph, in order; the i-th chunk has id i and the i-th paragraph as its text, which is non-empty and not whitespace at either end |
| Retrieval.Texts | rag_utils.py:36 | one text per chunk, the i-th being the i-th chunk's text |
| Retrieval.EmbedAll | rag_utils.py:37 | one embedding per text, in order, the i-th being the embedding of the i-th text |
| Retrieval.BuildIndex | rag_utils.py:34-39 | no index exactly when the chunk list is empty; otherwise the chunks are returned unchanged, there is one embedding per chunk, and the i-th embedding is the embedding of the i-th chunk's text |
| Retrieval.BuildIndexFailsOnBlankText | rag_utils.py:34-39 | the chunks loaded from a text can be indexed exactly when the text is not empty or all whitespace |
| Retrieval.Scores | rag_utils.py:47 | one score per indexed embedding, the i-th being the similarity of the i-th embedding to the query |
| Ranking.Insert | rag_utils.py:48 | inserting a position into a list ascending by score keeps it ascending, adds exactly that position, and keeps positions distinct |
| Ranking.ArgSortPrefix | rag_utils.py:48 | the positions below n, each once, in ascending score order |
| Ranking.ArgSort | rag_utils.py:48 | the result is a valid `np.argsort` of the scores (`IsArgSort`) |
| Ranking.SliceFrom | rag_utils.py:48 | `a[start:]` is a suffix of `a`; for `start >= 0` it has `max(n - start, 0)` elements, for a negative start `min(-start, n)` |
| Ranking.ResultCount | rag_utils.py:48 | the number of positions `[-k:]` keeps is at most `n` |
| Ranking.SliceKeepsResultCount | rag_utils.py:48 | `a[-k:]` has exactly `ResultCount(n, k)` elements, `n` being the length of `a`: all of them for `k == 0` and for `k >= n` |
| Ranking.SliceStart | rag_utils.py:48 | the start of `a[start:]` under Python's rules lies within the sequence |
| Ranking.Reverse | rag_utils.py:48 | `a[::-1]` has the same length, and its i-th element is the i-th from the end |
| Ranking.TopPositions | rag_utils.py:48 | `argsort[-k:][::-1]` has `ResultCount` entries, the i-th being the i-th from the end of the argsort |
| Ranking.TopHoldsTail | rag_utils.py:48 | every one of the last `ResultCount` argsort entries is selected |
| Ranking.TopDistinctDescending | rag_utils.py:48 | for any valid argsort, the selected positions are in range, distinct, and in non-increasing score order |
| Ranking.TopDominates | rag_utils.py:48 | for any valid argsort, no position left out scores above a selected one |
| Ranking.TailDominates | rag_utils.py:48 | the last entries of a valid argsort, read backwards, are outscored by none of the others |
| Ranking.TopPositionsAreTop | rag_utils.py:48 | for any valid argsort the selection is a top selection; for `k >= 1` it has `min(k, n)` positions and for `k == 0` all `n` |
| Ranking.PrefixSetSize | rag_utils.py:48 | the first m entries of a sequence name at most m positions, and exactly m when they are distinct |
| Ranking.RankScoreBound | rag_utils.py:48 | for two valid argsorts, the score at rank q of the second is no greater than the score at rank q of the first |
| Ranking.ArgSortScoresAgree | rag_utils.py:48 | any two valid argsorts read off the same score at every rank |
| Ranking.TopScoresIgnoreTies | rag_utils.py:48 | the scores at the selected ranks are the same whichever valid argsort is used; only which of several equal-scoring positions is reported can differ |
| Retrieval.SelectedIsTop | rag_utils.py:47-48 | for any valid argsort of the scores, there is one score per chunk, and `argsort[-k:][::-1]` is a top selection of `ResultCount(n, k)` positions |
| Retrieval.SelectedInRange | rag_utils.py:47-48 | for any valid argsort, there is one score per chunk and every selected position names an indexed chunk |
| Retrieval.RetrievedAreTop | rag_utils.py:47-57 | results that carry the selected chunks' texts and scores rank by rank (`Reports`) are `min(k, n)` many for `k >= 1` and `n` for `k == 0`, come from distinct positions, are ordered by non-increasing score, and no chunk left out scores above a reported one |
| Retrieval.ResultsIgnoreTies | rag_utils.py:47-57 | two runs with different valid argsorts report equally many results with the same score at every rank |
| Retrieval.RetrieveSimilar | rag_utils.py:47-58 | for any valid argsort `order`, the i-th result is the text and score of the chunk at `order[-k:][::-1][i]`; the results have the count, distinctness, order and dominance properties of `RetrievedAreTop` |

## Left out

- Reading the file and decoding it as UTF-8 (rag_utils.py:14-15): the
  chunker starts from the text already read. The file is opened in text
  mode, which turns `"\r\n"` and `"\r"` into `"\n"`; the model's input is
  the text after that translation, so a file with Windows line endings
  splits into paragraphs as well.
- `get_embeddings` (rag_utils.py:24-31), a network call: it becomes the
  `embed` parameter, applied text by text. The model does not capture that
  it is one batched call, or that the call can fail.
- Retrieval.BuildIndex: on an empty chunk list (which blank text gives) the
  source raises: the embedding request is sent with no input, and even an
  empty answer would make `np.linalg.norm(..., axis=1)` at rag_utils.py:38
  fail on a one-dimensional array. The model returns `None` there and does
  not distinguish the two causes or carry an error message.
- The L2 normalisation (rag_utils.py:38, 45) and the dot product
  (rag_utils.py:47), which are floating point: they are folded into `embed`
  and `similarity`. No claim is made that norms are 1. The division by a
  zero norm, for an empty text or query, is not modelled.
- `float(scores[idx])` (rag_utils.py:55): scores are `real`, so the
  conversion is the identity.
- The order of equal scores: `np.argsort` uses an unstable sort by default.
  `IsArgSort` allows any order of ties, `RetrieveSimilar` takes the order as
  a parameter, and the top-k lemmas hold for every such order. `ArgSort` is
  one concrete valid choice (insertion order) and is not what the retriever
  is tied to.
- Strings.IsSpace: the whitespace set is the list of characters for which
  Python's `str.isspace()` holds, written out. It is an approximation,
  because that set depends on the Unicode version.
- The module-level set-up (rag_utils.py:1-9): the API key, `.env` loading and
  the model name have no behaviour to model.
- The default `k = 3` (rag_utils.py:42): `k` is always passed explicitly.
- policy_bot_app.py is not part of this model: the Streamlit interface, its
  resource caching and the chat-completion call are I/O.
