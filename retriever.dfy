/**
  RedundantFilterRetriever: a retriever that asks a vector store for a
  Max-Marginal-Relevance (MMR) ranked list of candidate documents and then
  drops every candidate whose embedding is at least `threshold`-similar
  (cosine similarity) to a candidate it has already kept.

  The embedding provider and the vector store are remote services; here they
  are function parameters: `embed` maps a text to its embedding (the same
  text always gets the same embedding), and `search` is the store's MMR search
  by vector, given the query embedding, `k`, `fetch_k` and `lambda_mult`.
  The square root used by the similarity is the parameter `sqrt`.
 */
module RedundantFilterRetriever {
  import opened Similarity
  import opened Selection

  /** A retrieved document: its text and its metadata. */
  datatype Document = Document(pageContent: string, metadata: map<string, string>)

  /**
    The retriever's configuration, with the fields' defaults; no field is
    validated. The vector store and the provider are parameters.
   */
  datatype Retriever = Retriever(threshold: real := 0.8, k: int := 5, fetchK: int := 20, lambdaMult: real := 0.5)

  /** The store's MMR search by vector: query embedding, `k`, `fetch_k`, `lambda_mult`. */
  type Search = (Embedding, int, int, real) -> seq<Document>

  /** The similarity the retriever filters with. */
  function CosineSim(sqrt: real -> real): (Embedding, Embedding) -> real {
    (a, b) => Cosine(sqrt, a, b)
  }

  /** The embedding of every candidate's text, in order. */
  function Embeddings(embed: string -> Embedding, docs: seq<Document>): (r: seq<Embedding>)
    ensures |r| == |docs|
    ensures forall i :: 0 <= i < |docs| ==> r[i] == embed(docs[i].pageContent)
  {
    seq(|docs|, i requires 0 <= i < |docs| => embed(docs[i].pageContent))
  }

  /** The positions of the candidates the redundancy filter keeps. */
  function KeptPositions(sqrt: real -> real, threshold: real, candidates: seq<Document>, embed: string -> Embedding): (kept: seq<nat>)
    ensures Increasing(kept) && InRange(kept, |candidates|)
  {
    Select(CosineSim(sqrt), Embeddings(embed, candidates), threshold)
  }

  /** The documents the redundancy filter keeps, in their MMR order. */
  function Filtered(sqrt: real -> real, threshold: real, candidates: seq<Document>, embed: string -> Embedding): (r: seq<Document>)
    ensures |r| <= |candidates|
  {
    Pick(candidates, KeptPositions(sqrt, threshold, candidates, embed))
  }

  /** What a retrieval returns: the MMR candidates for the query, filtered. */
  function Retrieve(self: Retriever, sqrt: real -> real, query: string, embed: string -> Embedding, search: Search): seq<Document> {
    var candidates := search(embed(query), self.k, self.fetchK, self.lambdaMult);
    Filtered(sqrt, self.threshold, candidates, embed)
  }

  // ---------------------------------------------------------------------------
  // The retriever's operations
  // ---------------------------------------------------------------------------

  /**
    The inner loop: scans the kept embeddings in order and stops at the first
    one whose similarity with `docEmbedding` reaches the threshold.
   */
  method IsRedundant(sqrt: real -> real, docEmbedding: Embedding, filteredEmbeddings: seq<Embedding>, threshold: real)
    returns (isRedundant: bool)
    ensures isRedundant <==> Redundant(CosineSim(sqrt), docEmbedding, filteredEmbeddings, threshold)
  {
    isRedundant := false;
    for j := 0 to |filteredEmbeddings|
      invariant forall p :: 0 <= p < j ==> Cosine(sqrt, docEmbedding, filteredEmbeddings[p]) < threshold
    {
      if Cosine(sqrt, docEmbedding, filteredEmbeddings[j]) >= threshold {
        isRedundant := true;
        break;
      }
    }
  }

  /**
    The outer loop: embeds each candidate in turn and appends it, with its
    embedding, to the kept lists unless it is redundant with them.
   */
  method FilterRedundant(sqrt: real -> real, threshold: real, mmrResults: seq<Document>, embed: string -> Embedding)
    returns (filteredDocs: seq<Document>)
    ensures filteredDocs == Filtered(sqrt, threshold, mmrResults, embed)
  {
    ghost var embs := Embeddings(embed, mmrResults);
    ghost var kept: seq<nat> := [];
    filteredDocs := [];
    var filteredEmbeddings: seq<Embedding> := [];
    for i := 0 to |mmrResults|
      invariant kept == Select(CosineSim(sqrt), embs[..i], threshold)
      invariant InRange(kept, i)
      invariant filteredDocs == Pick(mmrResults, kept)
      invariant filteredEmbeddings == Pick(embs, kept)
      invariant InStep(embed, filteredDocs, filteredEmbeddings)
    {
      var doc := mmrResults[i];
      var docEmbedding := embed(doc.pageContent);
      var isRedundant := IsRedundant(sqrt, docEmbedding, filteredEmbeddings, threshold);
      SelectStep(CosineSim(sqrt), embs, threshold, i);
      if !isRedundant {
        filteredDocs := filteredDocs + [doc];
        filteredEmbeddings := filteredEmbeddings + [docEmbedding];
        PickAppend(mmrResults, kept, i);
        PickAppend(embs, kept, i);
        kept := kept + [i];
      }
      ParallelLists(embed, mmrResults, kept);
    }
    assert embs[..|mmrResults|] == embs;
  }

  /** Two parallel lists: equal lengths, and each embedding is that of the document at its index. */
  predicate InStep(embed: string -> Embedding, docs: seq<Document>, embs: seq<Embedding>) {
    |docs| == |embs| && forall j :: 0 <= j < |docs| ==> embs[j] == embed(docs[j].pageContent)
  }

  /**
    Corollary of `Pick` and `Embeddings`: the documents and the embeddings
    picked at the same positions have the same length and match entry by
    entry, which keeps the loop's two parallel lists in step.
   */
  lemma ParallelLists(embed: string -> Embedding, candidates: seq<Document>, kept: seq<nat>)
    requires InRange(kept, |candidates|)
    ensures InStep(embed, Pick(candidates, kept), Pick(Embeddings(embed, candidates), kept))
  {
  }

  /** `_get_relevant_documents`: embed the query, run the MMR search, filter the candidates. */
  method GetRelevantDocuments(self: Retriever, sqrt: real -> real, query: string, embed: string -> Embedding, search: Search)
    returns (docs: seq<Document>)
    ensures docs == Retrieve(self, sqrt, query, embed, search)
  {
    var queryVector := embed(query);
    var mmrResults := search(queryVector, self.k, self.fetchK, self.lambdaMult);
    docs := FilterRedundant(sqrt, self.threshold, mmrResults, embed);
  }

  /**
    `_aget_relevant_documents`: the same steps with the provider's asynchronous
    embedding `aembed`, each call awaited before the next.
   */
  method AGetRelevantDocuments(self: Retriever, sqrt: real -> real, query: string, aembed: string -> Embedding, search: Search)
    returns (docs: seq<Document>)
    ensures docs == Retrieve(self, sqrt, query, aembed, search)
  {
    var queryVector := aembed(query);
    var mmrResults := search(queryVector, self.k, self.fetchK, self.lambdaMult);
    docs := FilterRedundant(sqrt, self.threshold, mmrResults, aembed);
  }

  // ---------------------------------------------------------------------------
  // What the filter promises about the returned documents
  // ---------------------------------------------------------------------------

  /** The result keeps the MMR order and only drops candidates: it is a subsequence. */
  lemma FilteredIsSubsequence(sqrt: real -> real, threshold: real, candidates: seq<Document>, embed: string -> Embedding)
    ensures IsSubsequence(Filtered(sqrt, threshold, candidates, embed), candidates)
  {
    PickIsSubsequence(candidates, KeptPositions(sqrt, threshold, candidates, embed));
  }

  /**
    The result is never longer than the candidate list (the filter does not cap
    it at `k`), is empty only when there were no candidates, and always starts
    with the top MMR candidate.
   */
  lemma FilteredLength(sqrt: real -> real, threshold: real, candidates: seq<Document>, embed: string -> Embedding)
    ensures |Filtered(sqrt, threshold, candidates, embed)| <= |candidates|
    ensures Filtered(sqrt, threshold, candidates, embed) == [] <==> candidates == []
    ensures candidates != [] ==> Filtered(sqrt, threshold, candidates, embed)[0] == candidates[0]
  {
    FirstAlwaysKept(CosineSim(sqrt), Embeddings(embed, candidates), threshold);
  }

  /** Any two returned documents have similarity below the threshold, in either order. */
  lemma FilteredPairwiseDissimilar(sqrt: real -> real, threshold: real, candidates: seq<Document>, embed: string -> Embedding)
    ensures var r := Filtered(sqrt, threshold, candidates, embed);
      forall p, q :: 0 <= p < |r| && 0 <= q < |r| && p != q ==>
        Cosine(sqrt, embed(r[p].pageContent), embed(r[q].pageContent)) < threshold
  {
    var embs := Embeddings(embed, candidates);
    var kept := KeptPositions(sqrt, threshold, candidates, embed);
    var r := Filtered(sqrt, threshold, candidates, embed);
    AcceptedNotRedundant(CosineSim(sqrt), embs, threshold);
    forall p, q | 0 <= p < |r| && 0 <= q < |r| && p != q
      ensures Cosine(sqrt, embed(r[p].pageContent), embed(r[q].pageContent)) < threshold
    {
      var a, b := embed(r[p].pageContent), embed(r[q].pageContent);
      assert a == embs[kept[p]] && b == embs[kept[q]];
      if p < q {
        assert CosineSim(sqrt)(embs[kept[q]], embs[kept[p]]) < threshold;
        SimilaritySymmetric(sqrt, b, a);
      } else {
        assert CosineSim(sqrt)(embs[kept[p]], embs[kept[q]]) < threshold;
      }
    }
  }

  /**
    Every candidate left out is explained: a candidate kept before it has
    similarity at least `threshold` with it.
   */
  lemma DroppedHasSimilarKeptPredecessor(sqrt: real -> real, threshold: real, candidates: seq<Document>, embed: string -> Embedding, i: nat)
    requires i < |candidates|
    requires i !in KeptPositions(sqrt, threshold, candidates, embed)
    ensures var kept := KeptPositions(sqrt, threshold, candidates, embed);
      exists p :: 0 <= p < |kept| && kept[p] < i
        && Cosine(sqrt, embed(candidates[i].pageContent), embed(candidates[kept[p]].pageContent)) >= threshold
  {
    var embs := Embeddings(embed, candidates);
    var kept := KeptPositions(sqrt, threshold, candidates, embed);
    RejectionJustified(CosineSim(sqrt), embs, threshold);
    assert RedundantAt(CosineSim(sqrt), embs, threshold, kept, i);
    var p :| 0 <= p < |kept| && kept[p] < i && CosineSim(sqrt)(embs[i], embs[kept[p]]) >= threshold;
    assert embs[i] == embed(candidates[i].pageContent) && embs[kept[p]] == embed(candidates[kept[p]].pageContent);
  }

  /**
    With a positive threshold, a candidate whose embedding is the zero vector
    is always kept: the zero-norm guard gives it similarity 0.0 with everything.
   */
  lemma ZeroEmbeddingKept(sqrt: real -> real, threshold: real, candidates: seq<Document>, embed: string -> Embedding, i: nat)
    requires 0.0 < threshold
    requires i < |candidates| && IsZeroVector(embed(candidates[i].pageContent))
    ensures i in KeptPositions(sqrt, threshold, candidates, embed)
  {
    var kept := KeptPositions(sqrt, threshold, candidates, embed);
    if i !in kept {
      DroppedHasSimilarKeptPredecessor(sqrt, threshold, candidates, embed, i);
      var p :| 0 <= p < |kept| && kept[p] < i
        && Cosine(sqrt, embed(candidates[i].pageContent), embed(candidates[kept[p]].pageContent)) >= threshold;
      ZeroVectorSimilarity(sqrt, embed(candidates[i].pageContent), embed(candidates[kept[p]].pageContent));
    }
  }

  /**
    With a threshold of at most 1.0, two candidates with the same non-zero
    embedding (for instance the same text) are never both returned.
   */
  lemma DuplicatesNotBothKept(sqrt: real -> real, threshold: real, candidates: seq<Document>, embed: string -> Embedding, i: nat, j: nat)
    requires IsSqrt(sqrt)
    requires threshold <= 1.0
    requires i < j < |candidates|
    requires embed(candidates[i].pageContent) == embed(candidates[j].pageContent)
    requires !IsZeroVector(embed(candidates[i].pageContent))
    ensures !(i in KeptPositions(sqrt, threshold, candidates, embed) && j in KeptPositions(sqrt, threshold, candidates, embed))
  {
    var embs := Embeddings(embed, candidates);
    var kept := KeptPositions(sqrt, threshold, candidates, embed);
    if i in kept && j in kept {
      var p :| 0 <= p < |kept| && kept[p] == i;
      var q :| 0 <= q < |kept| && kept[q] == j;
      IncreasingOrder(kept, p, q);
      AcceptedNotRedundant(CosineSim(sqrt), embs, threshold);
      assert CosineSim(sqrt)(embs[kept[q]], embs[kept[p]]) < threshold;
      SelfSimilarity(sqrt, embs[i]);
    }
  }

  /** Filtering a filtered result again changes nothing. */
  lemma FilterIdempotent(sqrt: real -> real, threshold: real, candidates: seq<Document>, embed: string -> Embedding)
    ensures var r := Filtered(sqrt, threshold, candidates, embed);
      Filtered(sqrt, threshold, r, embed) == r
  {
    var embs := Embeddings(embed, candidates);
    var kept := KeptPositions(sqrt, threshold, candidates, embed);
    var r := Filtered(sqrt, threshold, candidates, embed);
    assert Embeddings(embed, r) == Pick(embs, kept);
    SelectIdempotent(CosineSim(sqrt), embs, threshold);
    assert Pick(r, seq(|r|, i => i)) == r;
  }

  /**
    The synchronous and asynchronous retrievals return the same documents when
    the two embedding calls agree on every text.
   */
  lemma SyncAsyncAgree(self: Retriever, sqrt: real -> real, query: string, embed: string -> Embedding, aembed: string -> Embedding, search: Search)
    requires forall t :: embed(t) == aembed(t)
    ensures Retrieve(self, sqrt, query, embed, search) == Retrieve(self, sqrt, query, aembed, search)
  {
    var candidates := search(embed(query), self.k, self.fetchK, self.lambdaMult);
    assert Embeddings(embed, candidates) == Embeddings(aembed, candidates);
  }
}
