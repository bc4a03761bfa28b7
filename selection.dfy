/**
  The greedy, order-preserving redundancy filter of RedundantFilterRetriever,
  stated on the candidates' embeddings alone and for any similarity function
  `sim` (the retriever uses cosine similarity, see module Similarity).

  `Select` gives the positions of the candidates the filter keeps. It follows
  the filtering loop one candidate at a time: a candidate is dropped when its
  similarity to some embedding accepted before it is at least the threshold,
  and kept otherwise. `IsGreedySelection` says the same thing declaratively,
  and the two are proved to agree.
 */
module Selection {
  import opened Similarity

  /** Positions listed in strictly increasing order. */
  predicate Increasing(idx: seq<nat>) {
    forall p, q :: 0 <= p < q < |idx| ==> idx[p] < idx[q]
  }

  /** Every position is below `n`. */
  predicate InRange(idx: seq<nat>, n: nat) {
    forall p :: 0 <= p < |idx| ==> idx[p] < n
  }

  /** The elements of `s` at the positions `idx`, in the order of `idx`. */
  function Pick<T>(s: seq<T>, idx: seq<nat>): (r: seq<T>)
    requires InRange(idx, |s|)
    ensures |r| == |idx|
    ensures forall j :: 0 <= j < |idx| ==> r[j] == s[idx[j]]
  {
    seq(|idx|, j requires 0 <= j < |idx| => s[idx[j]])
  }

  /** Appending a position appends the element at that position. */
  lemma PickAppend<T>(s: seq<T>, idx: seq<nat>, n: nat)
    requires InRange(idx, |s|) && n < |s|
    ensures Pick(s, idx + [n]) == Pick(s, idx) + [s[n]]
  {
  }

  /**
    The inner loop's verdict: some already accepted embedding has similarity
    at least `threshold` with `e` (the new embedding is the first argument of
    `sim`, as in the source).
   */
  predicate Redundant(sim: (Embedding, Embedding) -> real, e: Embedding, accepted: seq<Embedding>, threshold: real) {
    exists j :: 0 <= j < |accepted| && sim(e, accepted[j]) >= threshold
  }

  /** The positions the filtering loop keeps after examining all of `embs`. */
  function Select(sim: (Embedding, Embedding) -> real, embs: seq<Embedding>, threshold: real): (kept: seq<nat>)
    ensures Increasing(kept) && InRange(kept, |embs|)
    ensures |kept| <= |embs|
    decreases |embs|
  {
    if embs == [] then []
    else
      var n := |embs| - 1;
      var prev := Select(sim, embs[..n], threshold);
      if Redundant(sim, embs[n], Pick(embs, prev), threshold) then prev else prev + [n]
  }

  /** Candidate `i` is at least `threshold`-similar to a candidate kept before it. */
  ghost predicate RedundantAt(sim: (Embedding, Embedding) -> real, embs: seq<Embedding>, threshold: real, kept: seq<nat>, i: nat)
    requires InRange(kept, |embs|) && i < |embs|
  {
    exists p :: 0 <= p < |kept| && kept[p] < i && sim(embs[i], embs[kept[p]]) >= threshold
  }

  /** No kept candidate is at least `threshold`-similar to one kept before it. */
  ghost predicate NoRedundantPair(sim: (Embedding, Embedding) -> real, embs: seq<Embedding>, threshold: real, kept: seq<nat>)
    requires InRange(kept, |embs|)
  {
    forall p, q :: 0 <= p < q < |kept| ==> sim(embs[kept[q]], embs[kept[p]]) < threshold
  }

  /** Every candidate left out is explained by a candidate kept before it. */
  ghost predicate RejectionsJustified(sim: (Embedding, Embedding) -> real, embs: seq<Embedding>, threshold: real, kept: seq<nat>)
    requires InRange(kept, |embs|)
  {
    forall i :: 0 <= i < |embs| && i !in kept ==> RedundantAt(sim, embs, threshold, kept, i)
  }

  /**
    The declarative reading of the filter: `kept` lists positions in order, and
    a candidate is kept exactly when no earlier kept candidate is at least
    `threshold`-similar to it.
   */
  ghost predicate IsGreedySelection(sim: (Embedding, Embedding) -> real, embs: seq<Embedding>, threshold: real, kept: seq<nat>) {
    && Increasing(kept)
    && InRange(kept, |embs|)
    && forall i :: 0 <= i < |embs| ==> (i in kept <==> !RedundantAt(sim, embs, threshold, kept, i))
  }

  // ---------------------------------------------------------------------------
  // The properties the filtering loop promises
  // ---------------------------------------------------------------------------

  /** An empty candidate list gives an empty result; otherwise the first candidate is kept. */
  lemma {:induction false} FirstAlwaysKept(sim: (Embedding, Embedding) -> real, embs: seq<Embedding>, threshold: real)
    ensures Select(sim, embs, threshold) == [] <==> embs == []
    ensures embs != [] ==> Select(sim, embs, threshold)[0] == 0
  {
    if embs != [] {
      var n := |embs| - 1;
      if n != 0 {
        FirstAlwaysKept(sim, embs[..n], threshold);
      }
    }
  }

  /**
    The loop's step keeps the kept candidates pairwise non-redundant: the new
    candidate is appended only when it is not redundant with the accepted ones.
   */
  lemma NoRedundantPairStep(sim: (Embedding, Embedding) -> real, embs: seq<Embedding>, threshold: real, prev: seq<nat>, kept: seq<nat>)
    requires embs != [] && InRange(prev, |embs| - 1)
    requires NoRedundantPair(sim, embs[..|embs| - 1], threshold, prev)
    requires kept == prev
      || (kept == prev + [|embs| - 1] && !Redundant(sim, embs[|embs| - 1], Pick(embs, prev), threshold))
    ensures NoRedundantPair(sim, embs, threshold, kept)
  {
    var n := |embs| - 1;
    var prefix := embs[..n];
    forall p, q | 0 <= p < q < |kept|
      ensures sim(embs[kept[q]], embs[kept[p]]) < threshold
    {
      if q < |prev| {
        assert prefix[prev[q]] == embs[kept[q]] && prefix[prev[p]] == embs[kept[p]];
      } else {
        assert Pick(embs, prev)[p] == embs[kept[p]];
      }
    }
  }

  /** No accepted candidate is redundant with a candidate accepted before it. */
  lemma {:induction false} AcceptedNotRedundant(sim: (Embedding, Embedding) -> real, embs: seq<Embedding>, threshold: real)
    ensures NoRedundantPair(sim, embs, threshold, Select(sim, embs, threshold))
  {
    if embs != [] {
      var n := |embs| - 1;
      AcceptedNotRedundant(sim, embs[..n], threshold);
      NoRedundantPairStep(sim, embs, threshold, Select(sim, embs[..n], threshold), Select(sim, embs, threshold));
    }
  }

  /**
    The loop's step keeps every rejection explained: the new candidate is
    dropped only when it is redundant with the accepted ones.
   */
  lemma RejectionsStep(sim: (Embedding, Embedding) -> real, embs: seq<Embedding>, threshold: real, prev: seq<nat>, kept: seq<nat>)
    requires embs != [] && InRange(prev, |embs| - 1)
    requires RejectionsJustified(sim, embs[..|embs| - 1], threshold, prev)
    requires kept == prev + [|embs| - 1]
      || (kept == prev && Redundant(sim, embs[|embs| - 1], Pick(embs, prev), threshold))
    ensures RejectionsJustified(sim, embs, threshold, kept)
  {
    var n := |embs| - 1;
    var prefix := embs[..n];
    forall i | 0 <= i < |embs| && i !in kept
      ensures RedundantAt(sim, embs, threshold, kept, i)
    {
      if i < n {
        assert i !in prev;
        assert RedundantAt(sim, prefix, threshold, prev, i);
        var p :| 0 <= p < |prev| && prev[p] < i && sim(prefix[i], prefix[prev[p]]) >= threshold;
        assert kept[p] == prev[p] && prefix[i] == embs[i] && prefix[prev[p]] == embs[kept[p]];
      } else {
        var accepted := Pick(embs, prev);
        var j :| 0 <= j < |accepted| && sim(embs[n], accepted[j]) >= threshold;
        assert kept[j] == prev[j] && accepted[j] == embs[kept[j]];
      }
    }
  }

  /**
    Every dropped candidate is explained: some candidate accepted before it
    has similarity at least `threshold` with it.
   */
  lemma {:induction false} RejectionJustified(sim: (Embedding, Embedding) -> real, embs: seq<Embedding>, threshold: real)
    ensures RejectionsJustified(sim, embs, threshold, Select(sim, embs, threshold))
  {
    if embs != [] {
      var n := |embs| - 1;
      RejectionJustified(sim, embs[..n], threshold);
      RejectionsStep(sim, embs, threshold, Select(sim, embs[..n], threshold), Select(sim, embs, threshold));
    }
  }

  /** `Select` satisfies the declarative reading of the filter. */
  lemma SelectIsGreedy(sim: (Embedding, Embedding) -> real, embs: seq<Embedding>, threshold: real)
    ensures IsGreedySelection(sim, embs, threshold, Select(sim, embs, threshold))
  {
    var kept := Select(sim, embs, threshold);
    AcceptedNotRedundant(sim, embs, threshold);
    RejectionJustified(sim, embs, threshold);
    forall i | 0 <= i < |embs| && i in kept
      ensures !RedundantAt(sim, embs, threshold, kept, i)
    {
      var q :| 0 <= q < |kept| && kept[q] == i;
      forall p | 0 <= p < |kept| && kept[p] < i
        ensures sim(embs[i], embs[kept[p]]) < threshold
      {
        assert p < q;
      }
    }
  }

  /** One step of the filtering loop: examining candidate `n` after the first `n`. */
  lemma SelectStep(sim: (Embedding, Embedding) -> real, embs: seq<Embedding>, threshold: real, n: nat)
    requires n < |embs|
    ensures var prev := Select(sim, embs[..n], threshold);
      Select(sim, embs[..n + 1], threshold)
        == if Redundant(sim, embs[n], Pick(embs, prev), threshold) then prev else prev + [n]
  {
    var prev := Select(sim, embs[..n], threshold);
    assert embs[..n + 1][..n] == embs[..n];
    assert Pick(embs[..n + 1], prev) == Pick(embs, prev);
  }

  /** The positions of `kept` that lie below `n`: a prefix of `kept` when it is increasing. */
  function Below(kept: seq<nat>, n: nat): (r: seq<nat>)
    ensures |r| <= |kept|
    ensures r == kept[..|r|]
    ensures forall p :: 0 <= p < |r| ==> r[p] < n
    ensures |r| < |kept| ==> kept[|r|] >= n
  {
    if kept == [] || kept[0] >= n then [] else [kept[0]] + Below(kept[1..], n)
  }

  /** In an increasing list of positions, the entry at `p` is at least `p`. */
  lemma {:induction false} IncreasingAtLeastPosition(idx: seq<nat>, p: nat)
    requires Increasing(idx) && p < |idx|
    ensures p <= idx[p]
  {
    if p > 0 {
      IncreasingAtLeastPosition(idx, p - 1);
    }
  }

  /** In an increasing list, the order of entries is the order of their positions. */
  lemma IncreasingOrder(idx: seq<nat>, p: nat, q: nat)
    requires Increasing(idx) && p < |idx| && q < |idx|
    ensures idx[p] < idx[q] <==> p < q
  {
  }

  /** An increasing list of positions below `n` has at most `n` entries. */
  lemma SelectionLength(idx: seq<nat>, n: nat)
    requires Increasing(idx) && InRange(idx, n)
    ensures |idx| <= n
  {
    if idx != [] {
      IncreasingAtLeastPosition(idx, |idx| - 1);
    }
  }

  /** Below `n`, an increasing `kept` and its cut `Below(kept, n)` hold the same positions. */
  lemma BelowMembers(kept: seq<nat>, n: nat, i: nat)
    requires Increasing(kept) && i < n
    ensures i in Below(kept, n) <==> i in kept
  {
    var prev := Below(kept, n);
    if i in kept {
      var p :| 0 <= p < |kept| && kept[p] == i;
      if |prev| < |kept| {
        IncreasingOrder(kept, p, |prev|);
      }
      assert prev[p] == i;
    }
  }

  /** An increasing `kept` below `n + 1` is its cut below `n`, with or without `n` appended. */
  lemma BelowLast(kept: seq<nat>, n: nat)
    requires Increasing(kept) && InRange(kept, n + 1)
    ensures kept == Below(kept, n) || kept == Below(kept, n) + [n]
  {
    var prev := Below(kept, n);
    if |prev| < |kept| {
      assert kept[|prev|] == n;
      IncreasingOrder(kept, |prev|, |kept| - 1);
      assert kept == prev + [n];
    }
  }

  /**
    Before position `n`, redundancy with the kept candidates is the same as
    redundancy with the kept candidates below `n`, among the first `n`.
   */
  lemma RedundantAtBelow(sim: (Embedding, Embedding) -> real, embs: seq<Embedding>, threshold: real, kept: seq<nat>, n: nat, i: nat)
    requires Increasing(kept) && InRange(kept, |embs|)
    requires i < n <= |embs|
    ensures RedundantAt(sim, embs, threshold, kept, i) <==> RedundantAt(sim, embs[..n], threshold, Below(kept, n), i)
  {
    var prev := Below(kept, n);
    var prefix := embs[..n];
    if RedundantAt(sim, embs, threshold, kept, i) {
      var p :| 0 <= p < |kept| && kept[p] < i && sim(embs[i], embs[kept[p]]) >= threshold;
      if |prev| < |kept| {
        IncreasingOrder(kept, p, |prev|);
      }
      assert prefix[prev[p]] == embs[kept[p]] && prefix[i] == embs[i];
    }
    if RedundantAt(sim, prefix, threshold, prev, i) {
      var p :| 0 <= p < |prev| && prev[p] < i && sim(prefix[i], prefix[prev[p]]) >= threshold;
      assert kept[p] == prev[p] && prefix[prev[p]] == embs[kept[p]] && prefix[i] == embs[i];
    }
  }

  /** A greedy selection, cut below the last candidate, is a greedy selection of the other candidates. */
  lemma GreedyPrefix(sim: (Embedding, Embedding) -> real, embs: seq<Embedding>, threshold: real, kept: seq<nat>)
    requires embs != []
    requires IsGreedySelection(sim, embs, threshold, kept)
    ensures IsGreedySelection(sim, embs[..|embs| - 1], threshold, Below(kept, |embs| - 1))
  {
    var n := |embs| - 1;
    var prev := Below(kept, n);
    forall i | 0 <= i < n
      ensures i in prev <==> !RedundantAt(sim, embs[..n], threshold, prev, i)
    {
      BelowMembers(kept, n, i);
      RedundantAtBelow(sim, embs, threshold, kept, n, i);
    }
  }

  /**
    For the last candidate, being redundant with the earlier kept candidates is
    the inner loop's verdict against the accepted embeddings.
   */
  lemma RedundantAtLast(sim: (Embedding, Embedding) -> real, embs: seq<Embedding>, threshold: real, kept: seq<nat>)
    requires embs != []
    requires Increasing(kept) && InRange(kept, |embs|)
    ensures RedundantAt(sim, embs, threshold, kept, |embs| - 1)
        <==> Redundant(sim, embs[|embs| - 1], Pick(embs, Below(kept, |embs| - 1)), threshold)
  {
    var n := |embs| - 1;
    var prev := Below(kept, n);
    var accepted := Pick(embs, prev);
    if RedundantAt(sim, embs, threshold, kept, n) {
      var p :| 0 <= p < |kept| && kept[p] < n && sim(embs[n], embs[kept[p]]) >= threshold;
      if |prev| < |kept| {
        IncreasingOrder(kept, p, |prev|);
      }
      assert accepted[p] == embs[kept[p]];
    }
    if Redundant(sim, embs[n], accepted, threshold) {
      var p :| 0 <= p < |accepted| && sim(embs[n], accepted[p]) >= threshold;
      assert kept[p] == prev[p] && accepted[p] == embs[kept[p]];
    }
  }

  /** Conversely, every greedy selection is the one `Select` computes: the filter's result is unique. */
  lemma {:induction false} GreedyIsSelect(sim: (Embedding, Embedding) -> real, embs: seq<Embedding>, threshold: real, kept: seq<nat>)
    requires IsGreedySelection(sim, embs, threshold, kept)
    ensures kept == Select(sim, embs, threshold)
    decreases |embs|
  {
    if embs == [] {
      SelectionLength(kept, 0);
    } else {
      var n := |embs| - 1;
      var prev := Below(kept, n);
      BelowLast(kept, n);
      GreedyPrefix(sim, embs, threshold, kept);
      GreedyIsSelect(sim, embs[..n], threshold, prev);
      RedundantAtLast(sim, embs, threshold, kept);
      if n in kept {
        assert kept != prev;
      } else {
        assert kept != prev + [n];
      }
    }
  }

  // ---------------------------------------------------------------------------
  // Consequences
  // ---------------------------------------------------------------------------

  /** When no candidate is similar to an earlier one, every candidate is kept, in order. */
  lemma {:induction false} NoneSimilarKeepsAll(sim: (Embedding, Embedding) -> real, embs: seq<Embedding>, threshold: real)
    requires forall i, j :: 0 <= j < i < |embs| ==> sim(embs[i], embs[j]) < threshold
    ensures Select(sim, embs, threshold) == seq(|embs|, i => i)
  {
    if embs != [] {
      var n := |embs| - 1;
      var prefix := embs[..n];
      assert forall i, j :: 0 <= j < i < |prefix| ==> sim(prefix[i], prefix[j]) < threshold by {
        forall i, j | 0 <= j < i < |prefix|
          ensures sim(prefix[i], prefix[j]) < threshold
        {
          assert prefix[i] == embs[i] && prefix[j] == embs[j];
        }
      }
      NoneSimilarKeepsAll(sim, prefix, threshold);
      var prev := Select(sim, prefix, threshold);
      var accepted := Pick(embs, prev);
      assert !Redundant(sim, embs[n], accepted, threshold) by {
        forall j | 0 <= j < |accepted|
          ensures sim(embs[n], accepted[j]) < threshold
        {
          assert accepted[j] == embs[j];
        }
      }
      assert prev + [n] == seq(|embs|, i => i);
    }
  }

  /** Running the filter on the embeddings it kept keeps all of them. */
  lemma SelectIdempotent(sim: (Embedding, Embedding) -> real, embs: seq<Embedding>, threshold: real)
    ensures var kept := Select(sim, embs, threshold);
      Select(sim, Pick(embs, kept), threshold) == seq(|kept|, i => i)
  {
    var kept := Select(sim, embs, threshold);
    var accepted := Pick(embs, kept);
    AcceptedNotRedundant(sim, embs, threshold);
    forall i, j | 0 <= j < i < |accepted|
      ensures sim(accepted[i], accepted[j]) < threshold
    {
      assert accepted[i] == embs[kept[i]] && accepted[j] == embs[kept[j]];
    }
    NoneSimilarKeepsAll(sim, accepted, threshold);
  }

  /** When every later candidate is similar to the first, only the first is kept. */
  lemma {:induction false} AllSimilarToFirstKeepsFirst(sim: (Embedding, Embedding) -> real, embs: seq<Embedding>, threshold: real)
    requires embs != []
    requires forall i :: 0 < i < |embs| ==> sim(embs[i], embs[0]) >= threshold
    ensures Select(sim, embs, threshold) == [0]
  {
    var n := |embs| - 1;
    if n != 0 {
      AllSimilarToFirstKeepsFirst(sim, embs[..n], threshold);
      assert Pick(embs, [0])[0] == embs[0];
    }
  }

  // ---------------------------------------------------------------------------
  // Order preservation
  // ---------------------------------------------------------------------------

  /**
    `a` is obtained from `b` by deleting elements, without reordering: the
    last element of `b` is either matched by the last element of `a` or skipped.
   */
  predicate IsSubsequence<T(==)>(a: seq<T>, b: seq<T>)
    decreases |b|
  {
    if a == [] then true
    else if b == [] then false
    else
      (a[|a| - 1] == b[|b| - 1] && IsSubsequence(a[..|a| - 1], b[..|b| - 1]))
      || IsSubsequence(a, b[..|b| - 1])
  }

  /** Picking elements at increasing positions deletes elements without reordering. */
  lemma {:induction false} PickIsSubsequence<T>(s: seq<T>, idx: seq<nat>)
    requires Increasing(idx) && InRange(idx, |s|)
    ensures IsSubsequence(Pick(s, idx), s)
    decreases |s|
  {
    if idx != [] {
      var m := |s| - 1;
      var last := |idx| - 1;
      var init := idx[..last];
      if idx[last] == m {
        assert InRange(init, m) by {
          forall p | 0 <= p < |init|
            ensures init[p] < m
          {
            assert idx[p] < idx[last];
          }
        }
        PickIsSubsequence(s[..m], init);
        assert Pick(s, idx)[..last] == Pick(s[..m], init);
      } else {
        PickIsSubsequence(s[..m], idx);
        assert Pick(s, idx) == Pick(s[..m], idx);
      }
    }
  }
}
