/**
 * The three lexical similarity measures `rankCandidates` combines
 * (`jaccardSimilarity`, `overlapScore`, `semanticOverlapScore` in
 * services/chat/respond.js), and the word-similarity lookup they consult.
 * Scores are exact reals instead of JavaScript doubles.
 */
module Scoring {
  import opened Strings

  /** The word-to-word similarity table, `SEMANTIC_SIM_MAP`: `sim[w1][w2]`. */
  type SimilarityTable = map<string, map<string, real>>

  /** Every similarity the table holds is at most 1. */
  predicate AtMostOne(sim: SimilarityTable) {
    forall w1, w2 :: w1 in sim && w2 in sim[w1] ==> sim[w1][w2] <= 1.0
  }

  // ------------------------------------------------------------ similarity lookup

  /** `getSemanticSimilarity(w1, w2)`: 0 for an empty word or a pair the table
      lacks. The lookup goes one way only: `sim[w1][w2]`, never `sim[w2][w1]`. */
  function Similarity(sim: SimilarityTable, w1: string, w2: string): (r: real)
    ensures w1 == "" || w2 == "" ==> r == 0.0
    ensures w1 != "" && w2 != "" && w1 in sim && w2 in sim[w1] ==> r == sim[w1][w2]
    ensures !(w1 in sim && w2 in sim[w1]) ==> r == 0.0
  {
    if w1 == "" || w2 == "" then 0.0
    else if w1 in sim && w2 in sim[w1] then sim[w1][w2]
    else 0.0
  }

  /** The lookup is not symmetric: entering a similarity for the pair
      (w1, w2) into any table gives that pair the new value and leaves the
      reverse pair (w2, w1) as it was. */
  lemma SimilarityOneWay(sim: SimilarityTable, w1: string, w2: string, v: real)
    requires w1 != "" && w2 != "" && w1 != w2
    ensures var row := if w1 in sim then sim[w1] else map[];
            var updated := sim[w1 := row[w2 := v]];
            && Similarity(updated, w1, w2) == v
            && Similarity(updated, w2, w1) == Similarity(sim, w2, w1)
  {
  }

  // ------------------------------------------------------------ semantic overlap

  /** The inner loop of `semanticOverlapScore`: starting from 0, the running
      maximum of the similarities of `q` to each target token. */
  function MaxSimilarity(sim: SimilarityTable, q: string, targets: seq<string>): (r: real)
    ensures r >= 0.0
    ensures forall k :: 0 <= k < |targets| ==> Similarity(sim, q, targets[k]) <= r
    ensures r == 0.0 || exists k :: 0 <= k < |targets| && r == Similarity(sim, q, targets[k])
    decreases |targets|
  {
    if |targets| == 0 then 0.0
    else
      var m := MaxSimilarity(sim, q, targets[..|targets| - 1]);
      var s := Similarity(sim, q, targets[|targets| - 1]);
      assert forall k :: 0 <= k < |targets| - 1 ==> targets[..|targets| - 1][k] == targets[k];
      if s > m then s else m
  }

  /** `semanticOverlapScore`: for every query token (with repetitions) its best
      similarity to a target token, summed. */
  function SemanticOverlap(sim: SimilarityTable, queries: seq<string>, targets: seq<string>): (r: real)
    ensures r >= 0.0
    ensures |targets| == 0 ==> r == 0.0
    decreases |queries|
  {
    if |queries| == 0 then 0.0
    else SemanticOverlap(sim, queries[..|queries| - 1], targets)
         + MaxSimilarity(sim, queries[|queries| - 1], targets)
  }

  /** With every similarity at most 1, no query token adds more than 1. */
  lemma {:induction false} SemanticOverlapBound(sim: SimilarityTable, queries: seq<string>, targets: seq<string>)
    requires AtMostOne(sim)
    ensures SemanticOverlap(sim, queries, targets) <= |queries| as real
    decreases |queries|
  {
    if |queries| > 0 {
      var q := queries[|queries| - 1];
      SemanticOverlapBound(sim, queries[..|queries| - 1], targets);
      var m := MaxSimilarity(sim, q, targets);
      if m != 0.0 {
        var k :| 0 <= k < |targets| && m == Similarity(sim, q, targets[k]);
      }
    }
  }

  // ------------------------------------------------------------ overlap count

  /** `overlapScore`: how many query tokens, counted with repetitions, occur
      among the target tokens. */
  function Overlap(queries: seq<string>, targets: seq<string>): (r: nat)
    ensures r <= |queries|
    ensures |targets| == 0 ==> r == 0
    decreases |queries|
  {
    if |queries| == 0 then 0
    else Overlap(queries[..|queries| - 1], targets) + (if queries[|queries| - 1] in targets then 1 else 0)
  }

  /** The count is additive over a split of the query. */
  lemma {:induction false} OverlapAppend(a: seq<string>, b: seq<string>, targets: seq<string>)
    ensures Overlap(a + b, targets) == Overlap(a, targets) + Overlap(b, targets)
    decreases |b|
  {
    if |b| > 0 {
      var ab := a + b;
      assert ab[..|ab| - 1] == a + b[..|b| - 1];
      OverlapAppend(a, b[..|b| - 1], targets);
    } else {
      assert a + b == a;
    }
  }

  /** The count is positive exactly when some query token occurs among the targets. */
  lemma {:induction false} OverlapPositive(queries: seq<string>, targets: seq<string>)
    ensures Overlap(queries, targets) > 0 <==> exists k :: 0 <= k < |queries| && queries[k] in targets
    decreases |queries|
  {
    if |queries| > 0 {
      var init := queries[..|queries| - 1];
      OverlapPositive(init, targets);
      assert forall k :: 0 <= k < |init| ==> init[k] == queries[k];
    }
  }

  /** The count reaches the query length exactly when every query token
      occurs among the targets. */
  lemma {:induction false} OverlapFull(queries: seq<string>, targets: seq<string>)
    ensures Overlap(queries, targets) == |queries| <==> forall k :: 0 <= k < |queries| ==> queries[k] in targets
    decreases |queries|
  {
    if |queries| > 0 {
      var init := queries[..|queries| - 1];
      OverlapFull(init, targets);
      assert forall k :: 0 <= k < |init| ==> init[k] == queries[k];
    }
  }

  // ------------------------------------------------------------ Jaccard index

  /** `jaccardSimilarity`: the size of the intersection of the two token sets
      over the size of their union, 0 when both are empty. */
  function Jaccard(a: seq<string>, b: seq<string>): (r: real)
    ensures 0.0 <= r <= 1.0
    ensures Elems(a) == {} && Elems(b) == {} ==> r == 0.0
  {
    var sa := Elems(a);
    var sb := Elems(b);
    var inter := |sa * sb|;
    var union := |sa| + |sb| - inter;
    UnionCard(sa, sb);
    if union == 0 then 0.0 else Ratio(inter, union)
  }

  /** `i / u` for `0 <= i <= u`, `u > 0`, which lies in [0, 1]. */
  function Ratio(i: nat, u: nat): (r: real)
    requires i <= u && u > 0
    ensures 0.0 <= r <= 1.0
    ensures r == 1.0 <==> i == u
    ensures r == 0.0 <==> i == 0
  {
    i as real / u as real
  }

  /** Inclusion-exclusion for two sets, and the intersection is no larger than the union. */
  lemma UnionCard<T>(x: set<T>, y: set<T>)
    ensures |x + y| == |x| + |y| - |x * y|
    ensures |x * y| <= |x + y|
  {
    SubsetCard(x * y, x + y);
  }

  lemma SubsetCard<T>(x: set<T>, y: set<T>)
    requires x <= y
    ensures |x| <= |y|
  {
    assert y == x + (y - x);
  }

  /** The index does not depend on the order of its arguments. */
  lemma JaccardSymmetric(a: seq<string>, b: seq<string>)
    ensures Jaccard(a, b) == Jaccard(b, a)
  {
    assert Elems(a) * Elems(b) == Elems(b) * Elems(a);
  }

  /** The index is 1 exactly for equal, non-empty token sets. */
  lemma JaccardOne(a: seq<string>, b: seq<string>)
    ensures Jaccard(a, b) == 1.0 <==> Elems(a) == Elems(b) && Elems(a) != {}
  {
    var sa := Elems(a);
    var sb := Elems(b);
    var inter := sa * sb;
    var union := sa + sb;
    assert |union| == |sa| + |sb| - |inter|;
    if Jaccard(a, b) == 1.0 {
      assert |inter| == |union|;
      assert union == inter + (union - inter);
      assert |union - inter| == 0;
      assert union - inter == {};
      forall x | x in sa ensures x in sb {
        assert x in union;
      }
      forall x | x in sb ensures x in sa {
        assert x in union;
      }
    }
    if sa == sb && sa != {} {
      assert inter == sa && union == sa;
    }
  }

  /** The index is 0 exactly when the token sets share nothing. */
  lemma JaccardZero(a: seq<string>, b: seq<string>)
    ensures Jaccard(a, b) == 0.0 <==> Elems(a) * Elems(b) == {}
  {
    var sa := Elems(a);
    var sb := Elems(b);
    var inter := sa * sb;
    if inter != {} {
      var x :| x in inter;
      assert x in sa + sb;
      assert |sa + sb| == |sa| + |sb| - |inter|;
      assert |inter| > 0;
    }
  }
}
