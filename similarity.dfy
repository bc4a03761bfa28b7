/**
  Cosine similarity between two embeddings, as computed by
  RedundantFilterRetriever._similarity.

  The source works on Python floats and takes the square root with `** 0.5`.
  Dafny has no square root on `real`, so every member here is parameterised by
  a function `sqrt`; the lemmas that need it to behave as a square root say so
  with `IsSqrt(sqrt)`.
 */
module Similarity {

  /** An embedding: an ordered sequence of reals produced by the embedding provider. */
  type Embedding = seq<real>

  function Square(x: real): real {
    x * x
  }

  /** `sqrt` returns the non-negative square root of every non-negative real. */
  ghost predicate IsSqrt(sqrt: real -> real) {
    forall x: real :: 0.0 <= x ==> 0.0 <= sqrt(x) && Square(sqrt(x)) == x
  }

  /** The dot product over `zip(a, b)`: pairs past the shorter vector are ignored. */
  function Dot(a: Embedding, b: Embedding): real {
    if |a| == 0 || |b| == 0 then 0.0 else a[0] * b[0] + Dot(a[1..], b[1..])
  }

  /** The sum of the squares of all components (the squared Euclidean norm). */
  function SumSquares(a: Embedding): (r: real)
    ensures 0.0 <= r
  {
    if |a| == 0 then 0.0 else Square(a[0]) + SumSquares(a[1..])
  }

  /** The Euclidean norm, `sum(x * x for x in a) ** 0.5`. */
  function Norm(sqrt: real -> real, a: Embedding): real {
    sqrt(SumSquares(a))
  }

  /** Every component is zero. */
  predicate IsZeroVector(a: Embedding) {
    forall i :: 0 <= i < |a| ==> a[i] == 0.0
  }

  /**
    Cosine similarity: the dot product divided by the product of the norms,
    and 0.0 (without dividing) when either norm is zero.
   */
  function Cosine(sqrt: real -> real, a: Embedding, b: Embedding): real {
    var norm1 := Norm(sqrt, a);
    var norm2 := Norm(sqrt, b);
    if norm1 == 0.0 || norm2 == 0.0 then 0.0
    else Dot(a, b) / (norm1 * norm2)
  }

  // ---------------------------------------------------------------------------
  // Properties of the norm
  // ---------------------------------------------------------------------------

  /*
    The products below are kept inside `Square` and unfolded only in short
    `calc` steps: the solver's non-linear reasoning is fragile once products
    are in scope beside other facts.
   */

  /** The square of a non-zero real is positive. */
  lemma SquarePositive(x: real)
    requires x != 0.0
    ensures Square(x) > 0.0
  {
    if x > 0.0 {
      calc { Square(x); x * x; > 0.0; }
    } else {
      calc { Square(x); x * x; > 0.0; }
    }
  }

  /** The sum of squares vanishes exactly on the zero vector. */
  lemma {:induction false} SumSquaresZero(a: Embedding)
    ensures SumSquares(a) == 0.0 <==> IsZeroVector(a)
  {
    if |a| != 0 {
      var rest := a[1..];
      SumSquaresZero(rest);
      if a[0] != 0.0 {
        SquarePositive(a[0]);
      } else {
        assert forall i :: 1 <= i < |a| ==> a[i] == rest[i - 1];
      }
    }
  }

  /** A square root is zero exactly at zero. */
  lemma SqrtZero(sqrt: real -> real, s: real)
    requires IsSqrt(sqrt)
    requires 0.0 <= s
    ensures sqrt(s) == 0.0 <==> s == 0.0
  {
    assert Square(sqrt(s)) == s;
    if sqrt(s) != 0.0 {
      SquarePositive(sqrt(s));
    } else {
      assert Square(0.0) == 0.0;
    }
  }

  /** With a true square root, the norm is zero exactly on the zero vector. */
  lemma ZeroNormIffZeroVector(sqrt: real -> real, a: Embedding)
    requires IsSqrt(sqrt)
    ensures Norm(sqrt, a) == 0.0 <==> IsZeroVector(a)
  {
    SumSquaresZero(a);
    SqrtZero(sqrt, SumSquares(a));
  }

  // ---------------------------------------------------------------------------
  // Properties of the similarity
  // ---------------------------------------------------------------------------

  lemma {:induction false} DotSymmetric(a: Embedding, b: Embedding)
    ensures Dot(a, b) == Dot(b, a)
  {
    if |a| != 0 && |b| != 0 {
      DotSymmetric(a[1..], b[1..]);
    }
  }

  lemma {:induction false} DotSelf(a: Embedding)
    ensures Dot(a, a) == SumSquares(a)
  {
    if |a| != 0 {
      DotSelf(a[1..]);
    }
  }

  /** Cosine similarity is symmetric in its two arguments, whatever `sqrt` is. */
  lemma SimilaritySymmetric(sqrt: real -> real, a: Embedding, b: Embedding)
    ensures Cosine(sqrt, a, b) == Cosine(sqrt, b, a)
  {
    DotSymmetric(a, b);
    var n1, n2 := Norm(sqrt, a), Norm(sqrt, b);
    calc { n1 * n2; n2 * n1; }
  }

  /** A zero vector on either side makes the dot product zero. */
  lemma {:induction false} DotZero(a: Embedding, b: Embedding)
    requires IsZeroVector(a) || IsZeroVector(b)
    ensures Dot(a, b) == 0.0
  {
    if |a| != 0 && |b| != 0 {
      DotZero(a[1..], b[1..]);
    }
  }

  /**
    A zero vector on either side gives similarity 0.0, whatever `sqrt` is:
    either the zero-norm guard applies or the dot product is zero.
   */
  lemma ZeroVectorSimilarity(sqrt: real -> real, a: Embedding, b: Embedding)
    requires IsZeroVector(a) || IsZeroVector(b)
    ensures Cosine(sqrt, a, b) == 0.0
  {
    DotZero(a, b);
  }

  lemma DivSelf(x: real)
    requires x != 0.0
    ensures x / x == 1.0
  {
  }

  /** A non-zero vector has similarity exactly 1.0 with itself. */
  lemma SelfSimilarity(sqrt: real -> real, a: Embedding)
    requires IsSqrt(sqrt)
    requires !IsZeroVector(a)
    ensures Cosine(sqrt, a, a) == 1.0
  {
    var s := SumSquares(a);
    var n := Norm(sqrt, a);
    assert n != 0.0 by {
      ZeroNormIffZeroVector(sqrt, a);
    }
    assert s == Square(n) && s != 0.0 by {
      SqrtZero(sqrt, s);
    }
    assert Dot(a, a) == s by {
      DotSelf(a);
    }
    calc {
      Cosine(sqrt, a, a);
      Dot(a, a) / (n * n);
      { assert n * n == Square(n); }
      s / s;
      { DivSelf(s); }
      1.0;
    }
  }
}
