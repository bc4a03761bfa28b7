# RedundantFilterRetriever in Dafny

This project models the redundancy filter of the `RedundantFilterRetriever`
class (facts/redundant_filter_retriever.py). The retriever embeds the user's
query and asks a Chroma vector store for a Max-Marginal-Relevance (MMR)
ranked list of candidate documents. It then makes one greedy pass over the
candidates in MMR order:

- each candidate's text is embedded;
- the candidate is dropped if its cosine similarity with some embedding
  already kept is at least `threshold`;
- otherwise the document and its embedding are appended to two parallel
  lists.

It returns the kept documents.

The project has three modules:

- `Similarity` (similarity.dfy) covers `_similarity`: the dot product over
  `zip`, the Euclidean norms, and the zero-norm guard that returns `0.0`.
  Dafny has no square root on `real`, so `sqrt` is a parameter. Lemmas that
  need a true square root require `IsSqrt(sqrt)`.
- `Selection` (selection.dfy) states the greedy pass for any similarity
  function `sim`. It works on the candidates' embeddings.
  - `Select` gives the positions kept after each prefix of the candidates.
  - `IsGreedySelection` is an independent, declarative reading of the
    filter. A candidate is kept exactly when no earlier kept candidate is
    `threshold`-similar to it.
  - The two are proved to agree, and the greedy selection is proved unique.
- `RedundantFilterRetriever` (retriever.dfy) has the configuration, the two
  loops as methods and the two retrieval entry points.
  - `IsRedundant` is the inner loop with `break`.
  - `FilterRedundant` is the outer loop over the two parallel lists.
  - The methods are proved against the specification functions `Filtered`
    and `Retrieve`.
  - Lemmas state what the returned documents satisfy.

The embedding provider (`embed_query` / `aembed_query`) is a function
parameter `embed: string -> Embedding`. The same text always gets the same
embedding. The vector store's `max_marginal_relevance_search_by_vector` is a
function parameter `search`. It receives the query embedding, `k`, `fetch_k`
and `lambda_mult`.

## Model

| member | source | states |
|---|---|---|
| Similarity.Dot | facts/redundant_filter_retriever.py:29 | definition: the sum of the products of paired components over `zip(emb1, emb2)`, stopping at the shorter vector |
| Similarity.Norm | facts/redundant_filter_retriever.py:30-31 | definition: the square root of the sum of squares of all components |
| Similarity.Cosine | facts/redundant_filter_retriever.py:27-34 | definition: the dot product divided by the product of the two norms; `0.0`, with no division, when either norm is `0` |
| Similarity.SumSquares | facts/redundant_filter_retriever.py:30-31 | the sum of squares under the norm's `** 0.5` is never negative |
| Similarity.SumSquaresZero | facts/redundant_filter_retriever.py:30-32 | the sum of squares is zero exactly when every component is zero |
| Similarity.SqrtZero | facts/redundant_filter_retriever.py:30-32 | for a true square root, the root of a non-negative value is zero exactly when the value is zero |
| Similarity.ZeroNormIffZeroVector | facts/redundant_filter_retriever.py:30-32 | a norm is `0` (the guard's condition) exactly when the embedding is the zero vector |
| Similarity.DotZero | facts/redundant_filter_retriever.py:29 | a zero vector on either side makes the dot product zero |
| Similarity.DotSymmetric | facts/redundant_filter_retriever.py:29 | the dot product over `zip(emb1, emb2)` does not depend on the order of the arguments, even for vectors of different lengths |
| Similarity.DotSelf | facts/redundant_filter_retriever.py:29-30 | the dot product of a vector with itself is the sum of squares under its norm |
| Similarity.SimilaritySymmetric | facts/redundant_filter_retriever.py:27-34 | `_similarity(a, b) == _similarity(b, a)` for every `a`, `b` and every square-root function |
| Similarity.ZeroVectorSimilarity | facts/redundant_filter_retriever.py:29-34 | when either embedding is the zero vector the similarity is `0.0`, for every square-root function |
| Similarity.SelfSimilarity | facts/redundant_filter_retriever.py:27-34 | a non-zero embedding has similarity exactly `1.0` with itself |
| Selection.Pick | facts/redundant_filter_retriever.py:65-67 | the kept list holds, in order, the elements at the kept positions, unmodified |
| Selection.Redundant | facts/redundant_filter_retriever.py:59-63 | definition of the inner loop's verdict: some accepted embedding has similarity at least `threshold` with the new one, the new one as the first argument |
| Selection.Select | facts/redundant_filter_retriever.py:52-69 | the kept positions are strictly increasing, lie within the candidate list and are no more than the candidates |
| Selection.FirstAlwaysKept | facts/redundant_filter_retriever.py:52-67 | the result is empty exactly when there are no candidates; otherwise the first candidate is kept, since nothing has been kept before it |
| Selection.AcceptedNotRedundant | facts/redundant_filter_retriever.py:59-67 | every kept candidate has similarity below `threshold` with each candidate kept before it |
| Selection.RejectionJustified | facts/redundant_filter_retriever.py:59-63 | every dropped candidate has similarity at least `threshold` with some candidate kept before it |
| Selection.SelectStep | facts/redundant_filter_retriever.py:55-67 | examining candidate `n` keeps the positions kept so far and appends `n` exactly when the inner loop finds no redundancy with the accepted embeddings |
| Selection.NoRedundantPairStep | facts/redundant_filter_retriever.py:59-67 | one pass of the loop body keeps the kept candidates pairwise non-redundant |
| Selection.RejectionsStep | facts/redundant_filter_retriever.py:59-66 | one pass of the loop body keeps every rejection explained by an earlier kept candidate |
| Selection.SelectIsGreedy | facts/redundant_filter_retriever.py:52-69 | the loop's result meets the declarative reading: a candidate is kept if and only if no earlier kept candidate is `threshold`-similar to it |
| Selection.SelectionLength | facts/redundant_filter_retriever.py:52-69 | an increasing list of positions below `n` has at most `n` entries |
| Selection.GreedyPrefix | facts/redundant_filter_retriever.py:55-67 | a greedy selection without the last candidate is a greedy selection of the earlier candidates: the loop never revisits earlier decisions |
| Selection.RedundantAtLast | facts/redundant_filter_retriever.py:59-63 | for the candidate being examined, the inner loop's verdict against the kept embeddings is redundancy with an earlier kept candidate |
| Selection.GreedyIsSelect | facts/redundant_filter_retriever.py:52-69 | every list of positions meeting the declarative reading equals the loop's result, so the filter's outcome is uniquely determined |
| Selection.NoneSimilarKeepsAll | facts/redundant_filter_retriever.py:55-67 | when no candidate is `threshold`-similar to an earlier one, every candidate is kept, in order |
| Selection.SelectIdempotent | facts/redundant_filter_retriever.py:52-69 | running the filter on the embeddings it kept keeps every one of them |
| Selection.AllSimilarToFirstKeepsFirst | facts/redundant_filter_retriever.py:55-67 | when every later candidate is `threshold`-similar to the first, only the first is kept |
| Selection.PickIsSubsequence | facts/redundant_filter_retriever.py:55-69 | taking elements at increasing positions yields a subsequence, under an independent recursive definition of subsequence |
| RedundantFilterRetriever.Embeddings | facts/redundant_filter_retriever.py:55-56 | each candidate's embedding is the embedding of its page content, one per candidate, in order |
| RedundantFilterRetriever.KeptPositions | facts/redundant_filter_retriever.py:52-69 | the kept positions are strictly increasing and lie within the MMR results |
| RedundantFilterRetriever.Filtered | facts/redundant_filter_retriever.py:52-69 | the filtered list is no longer than the MMR results |
| RedundantFilterRetriever.IsRedundant | facts/redundant_filter_retriever.py:59-63 | the flag is set exactly when some kept embedding has similarity at least `threshold` with the new one (the body stops at the first such embedding) |
| RedundantFilterRetriever.FilterRedundant | facts/redundant_filter_retriever.py:52-69 | the loop returns exactly the filter's result `Filtered`; its invariants keep both parallel lists equal to the picks at the kept positions, of equal length, each embedding that of the document at its index |
| RedundantFilterRetriever.ParallelLists | facts/redundant_filter_retriever.py:52-67 | corollary of `Pick` and `Embeddings`, used for the loop invariant: `filtered_docs` and `filtered_embeddings` have equal length, and each kept embedding is the embedding of the kept document at the same index |
| RedundantFilterRetriever.Retrieve | facts/redundant_filter_retriever.py:41-69 | definition of a retrieval: the store's MMR search for the embedded query with `k`, `fetch_k` and `lambda_mult`, then the redundancy filter over its results |
| RedundantFilterRetriever.GetRelevantDocuments | facts/redundant_filter_retriever.py:36-69 | it returns the filtered MMR results for the embedded query (`Retrieve`) |
| RedundantFilterRetriever.AGetRelevantDocuments | facts/redundant_filter_retriever.py:71-101 | it returns `Retrieve` computed with the asynchronous embedding |
| RedundantFilterRetriever.FilteredIsSubsequence | facts/redundant_filter_retriever.py:55-69 | the result is a subsequence of the MMR results: same relative order, documents unmodified |
| RedundantFilterRetriever.FilteredLength | facts/redundant_filter_retriever.py:52-69 | the result is no longer than the MMR results (no cap at `k`); it is empty exactly when there were no candidates; it starts with the top MMR candidate |
| RedundantFilterRetriever.FilteredPairwiseDissimilar | facts/redundant_filter_retriever.py:59-67 | any two returned documents have similarity below `threshold`, in either order |
| RedundantFilterRetriever.DroppedHasSimilarKeptPredecessor | facts/redundant_filter_retriever.py:59-63 | every dropped candidate has similarity at least `threshold` with a candidate kept before it |
| RedundantFilterRetriever.ZeroEmbeddingKept | facts/redundant_filter_retriever.py:29-34 | with a positive threshold, a candidate with a zero embedding is always kept |
| RedundantFilterRetriever.DuplicatesNotBothKept | facts/redundant_filter_retriever.py:59-67 | with `threshold <= 1.0`, two candidates with the same non-zero embedding are never both returned |
| RedundantFilterRetriever.FilterIdempotent | facts/redundant_filter_retriever.py:52-69 | filtering the returned documents again returns them unchanged |
| RedundantFilterRetriever.SyncAsyncAgree | facts/redundant_filter_retriever.py:71-101 | the asynchronous retrieval returns the same documents as the synchronous one when both embedding calls agree on every text |

## Left out

- The embedding provider and the vector store are network services; they are
  function parameters. The MMR ranking itself is not modelled. The model
  assumes the provider gives the same text the same embedding every time.
- Floating-point arithmetic and `** 0.5` are not modelled. The model works
  over `real` with a square-root parameter. Rounding effects on the
  threshold comparison are not captured.
- `async`/`await` is not modelled. `AGetRelevantDocuments` runs the same
  steps in sequence with the asynchronous embedding. In the source each
  embedding call is awaited before the next step, and the MMR search is an
  ordinary synchronous call, so the order of the steps is the same.
- The Pydantic field declarations and `Config` (lines 17-25) become the
  `Retriever` datatype, whose constructor carries the fields' defaults
  (0.8, 5, 20, 0.5). No range is validated,
  because the source validates none. Nothing rejects a threshold outside
  [0, 1], `fetch_k < k` or a negative `k`.
- Document metadata is a `map<string, string>`. The filter never reads it.
- Similarity.Cosine: no lemma bounds the similarity to [-1, 1]. The
  Cauchy–Schwarz inequality is not proved, so nothing states that a threshold
  above 1.0 keeps every candidate.
- Propagation of errors raised by the provider or the store is not modelled,
  because those calls are total functions here.
- The rest of the repository is not part of this model: the chat loop, the
  agents and their tools, the command-line entry points, the prompt and
  loader wiring, and the console handler. None of it contains filtering logic.
- The result is not capped at `k`. The code has no cap and leaves the cut to
  the vector store, so the model has none either. A description of the
  system that promises `len(result) <= k` holds only when the store returns
  at most `k` candidates.
