/**
 * Candidate ranking and the filters applied to the ranking before the answer
 * is built (`rankCandidates` and the post-ranking stage of the request
 * handler in services/chat/respond.js): every question-answer candidate gets
 * a weighted sum of six similarity components, the list is sorted best first,
 * weak candidates are cut when the best one is confident, the list is
 * narrowed to a specific term of the query when there is one, and at most
 * three survive.
 */
module Ranking {
  import opened Options
  import opened Strings
  import Sorting
  import Normalizer
  import opened Scoring

  /** A question-answer row with its keywords (`QuestionTitle`, `QuestionText`,
      `keywords`; an absent text or keyword list is the empty one). */
  datatype Candidate = Candidate(id: int, title: string, text: string, keywords: seq<string>)

  /** The six weighted components a candidate's score is the sum of. */
  datatype Components = Components(
    overlap: real,
    semantic: real,
    title: real,
    semanticKw: real,
    semanticText: real,
    semanticTitle: real)

  datatype Scored = Scored(item: Candidate, score: real, components: Components)

  function Total(c: Components): real {
    c.overlap + c.semantic + c.title + c.semanticKw + c.semanticText + c.semanticTitle
  }

  predicate NonNegative(c: Components) {
    && c.overlap >= 0.0 && c.semantic >= 0.0 && c.title >= 0.0
    && c.semanticKw >= 0.0 && c.semanticText >= 0.0 && c.semanticTitle >= 0.0
  }

  function ScoreKey(s: Scored): real {
    s.score
  }

  // ------------------------------------------------------------ scoring

  /** The token lists a candidate is matched through: its keywords joined by
      spaces, its question text and its title, each normalized. */
  function KeywordTokens(lex: Normalizer.Lexicon, c: Candidate): seq<string>
    requires Normalizer.WellFormed(lex.classes)
  {
    Normalizer.Normalize(lex, Join(c.keywords, " "))
  }

  function TextTokens(lex: Normalizer.Lexicon, c: Candidate): seq<string>
    requires Normalizer.WellFormed(lex.classes)
  {
    Normalizer.Normalize(lex, c.text)
  }

  function TitleTokens(lex: Normalizer.Lexicon, c: Candidate): seq<string>
    requires Normalizer.WellFormed(lex.classes)
  {
    Normalizer.Normalize(lex, c.title)
  }

  /** The scoring of one candidate inside `rankCandidates`: the query tokens
      against the normalized keywords, text and title, weighted 2 (keyword
      overlap), 2.5 (keyword similarity), 1 (text similarity), 2 (title
      similarity), 1 (text Jaccard) and 2 (title Jaccard). */
  function ScoreCandidate(lex: Normalizer.Lexicon, sim: SimilarityTable, query: seq<string>, c: Candidate): (r: Scored)
    requires Normalizer.WellFormed(lex.classes)
    ensures r.item == c
    ensures r.components.overlap == 2.0 * Overlap(query, KeywordTokens(lex, c)) as real
    ensures r.components.semantic == Jaccard(query, TextTokens(lex, c))
    ensures r.components.title == 2.0 * Jaccard(query, TitleTokens(lex, c))
    ensures r.components.semanticKw == 2.5 * SemanticOverlap(sim, query, KeywordTokens(lex, c))
    ensures r.components.semanticText == SemanticOverlap(sim, query, TextTokens(lex, c))
    ensures r.components.semanticTitle == 2.0 * SemanticOverlap(sim, query, TitleTokens(lex, c))
    ensures NonNegative(r.components) && r.score == Total(r.components)
    ensures r.score >= 0.0
  {
    var kwTokens := KeywordTokens(lex, c);
    var textTokens := TextTokens(lex, c);
    var titleTokens := TitleTokens(lex, c);
    var comps := Components(
      overlap := Overlap(query, kwTokens) as real * 2.0,
      semantic := Jaccard(query, textTokens),
      title := Jaccard(query, titleTokens) * 2.0,
      semanticKw := SemanticOverlap(sim, query, kwTokens) * 2.5,
      semanticText := SemanticOverlap(sim, query, textTokens) * 1.0,
      semanticTitle := SemanticOverlap(sim, query, titleTokens) * 2.0);
    Scored(c, Total(comps), comps)
  }

  /** The keyword-overlap component is positive exactly when some query token
      is one of the candidate's normalized keyword tokens. */
  lemma KeywordOverlapPositive(lex: Normalizer.Lexicon, sim: SimilarityTable, query: seq<string>, c: Candidate)
    requires Normalizer.WellFormed(lex.classes)
    ensures ScoreCandidate(lex, sim, query, c).components.overlap > 0.0 <==>
              exists k :: 0 <= k < |query| && query[k] in KeywordTokens(lex, c)
  {
    OverlapPositive(query, KeywordTokens(lex, c));
  }

  /** The title component reaches its full weight 2 exactly when the query's
      token set is the title's, and is not empty. */
  lemma TitleMatchesExactly(lex: Normalizer.Lexicon, sim: SimilarityTable, query: seq<string>, c: Candidate)
    requires Normalizer.WellFormed(lex.classes)
    ensures ScoreCandidate(lex, sim, query, c).components.title == 2.0 <==>
              Elems(query) == Elems(TitleTokens(lex, c)) && Elems(query) != {}
  {
    JaccardOne(query, TitleTokens(lex, c));
  }

  /** With similarities of at most 1, a candidate scores at most
      2 + 2.5 + 1 + 2 = 7.5 per query token, plus 1 + 2 for the two Jaccard
      terms. */
  lemma ScoreBound(lex: Normalizer.Lexicon, sim: SimilarityTable, query: seq<string>, c: Candidate)
    requires Normalizer.WellFormed(lex.classes)
    requires AtMostOne(sim)
    ensures ScoreCandidate(lex, sim, query, c).score <= 7.5 * |query| as real + 3.0
  {
    SemanticOverlapBound(sim, query, KeywordTokens(lex, c));
    SemanticOverlapBound(sim, query, TextTokens(lex, c));
    SemanticOverlapBound(sim, query, TitleTokens(lex, c));
  }

  /** A candidate whose keywords, text and title normalize to nothing scores 0,
      whatever the query. */
  lemma NothingToMatchScoresZero(lex: Normalizer.Lexicon, sim: SimilarityTable, query: seq<string>, c: Candidate)
    requires Normalizer.WellFormed(lex.classes)
    requires KeywordTokens(lex, c) == [] && TextTokens(lex, c) == [] && TitleTokens(lex, c) == []
    ensures ScoreCandidate(lex, sim, query, c).score == 0.0
  {
    JaccardZero(query, []);
  }

  function ScoreAll(lex: Normalizer.Lexicon, sim: SimilarityTable, query: seq<string>, cs: seq<Candidate>): (r: seq<Scored>)
    requires Normalizer.WellFormed(lex.classes)
    ensures |r| == |cs|
    ensures forall k :: 0 <= k < |r| ==> r[k] == ScoreCandidate(lex, sim, query, cs[k])
  {
    seq(|cs|, k requires 0 <= k < |cs| => ScoreCandidate(lex, sim, query, cs[k]))
  }

  /** `rankCandidates`: one scored entry per candidate, best first. */
  function Rank(lex: Normalizer.Lexicon, sim: SimilarityTable, query: seq<string>, cs: seq<Candidate>): (r: seq<Scored>)
    requires Normalizer.WellFormed(lex.classes)
    ensures |r| == |cs|
    ensures multiset(r) == multiset(ScoreAll(lex, sim, query, cs))
    ensures Sorting.SortedDesc(r, ScoreKey)
    ensures forall k :: 0 <= k < |r| ==> r[k].score >= 0.0
  {
    var scored := ScoreAll(lex, sim, query, cs);
    var r := Sorting.SortDesc(scored, ScoreKey);
    forall k | 0 <= k < |r|
      ensures r[k].score >= 0.0
    {
      assert r[k] in multiset(scored);
    }
    r
  }

  /** The handler sorts the ranking a second time; the sort being stable,
      that leaves it unchanged. */
  lemma ResortKeepsRanking(lex: Normalizer.Lexicon, sim: SimilarityTable, query: seq<string>, cs: seq<Candidate>)
    requires Normalizer.WellFormed(lex.classes)
    ensures Sorting.SortDesc(Rank(lex, sim, query, cs), ScoreKey) == Rank(lex, sim, query, cs)
  {
    Sorting.SortSorted(Rank(lex, sim, query, cs), ScoreKey);
  }

  // ------------------------------------------------------------ confidence cut

  /** Above this best score the ranking is considered confident. */
  const ConfidentScore: real := 5.0

  /** A confident ranking keeps only candidates scoring at least this share of the best. */
  const KeepShare: real := 0.7

  /** The 70%-of-best cut, applied only when the best score exceeds 5.0. */
  function ConfidenceCut(ranked: seq<Scored>): (r: seq<Scored>)
    ensures |ranked| == 0 ==> r == []
    ensures |ranked| > 0 && ranked[0].score <= ConfidentScore ==> r == ranked
    ensures |ranked| > 0 && ranked[0].score > ConfidentScore ==>
      && (forall k :: 0 <= k < |r| ==> r[k].score >= ranked[0].score * KeepShare)
      && (forall k :: 0 <= k < |ranked| && ranked[k].score >= ranked[0].score * KeepShare ==> ranked[k] in r)
    ensures forall k :: 0 <= k < |r| ==> r[k] in ranked
    ensures |ranked| > 0 && ranked[0].score >= 0.0 ==> |r| > 0 && r[0] == ranked[0]
  {
    if |ranked| == 0 || ranked[0].score <= ConfidentScore then ranked
    else
      Filter(ranked, ScoresAtLeast(ranked[0].score * KeepShare))
  }

  function ScoresAtLeast(floor: real): Scored -> bool {
    (s: Scored) => s.score >= floor
  }

  /** The cut keeps a sorted ranking sorted. */
  lemma ConfidenceCutSorted(ranked: seq<Scored>)
    requires Sorting.SortedDesc(ranked, ScoreKey)
    ensures Sorting.SortedDesc(ConfidenceCut(ranked), ScoreKey)
  {
    if |ranked| > 0 && ranked[0].score > ConfidentScore {
      Sorting.FilterSorted(ranked, ScoresAtLeast(ranked[0].score * KeepShare), ScoreKey);
    }
  }

  // ------------------------------------------------------------ specificity narrowing

  /** `s.toLowerCase().replace(/\s+/g, '')`. */
  function Squash(s: string): (r: string)
    ensures NoWhite(r)
  {
    RemoveWhite(Lower(s))
  }

  /** Keywords too common to narrow the answer by. */
  const GenericTerms: seq<string> := ["สมัครเรียน", "ข้อมูล", "ติดต่อ"]

  /** What makes a squashed keyword of the best candidate a specific term of
      the query: it occurs in the squashed query, is longer than four code
      points and is not generic. */
  predicate IsSpecific(rawQuery: string, k: string) {
    Contains(rawQuery, k) && |k| > 4 && k !in GenericTerms
  }

  function SquashAll(ks: seq<string>): (r: seq<string>)
    ensures |r| == |ks|
    ensures forall k :: 0 <= k < |r| ==> r[k] == Squash(ks[k])
  {
    seq(|ks|, k requires 0 <= k < |ks| => Squash(ks[k]))
  }

  /** The first squashed keyword that is specific to the query. */
  function FirstSpecific(rawQuery: string, ks: seq<string>): (r: Option<string>)
    ensures r.Some? ==> IsSpecific(rawQuery, r.value)
    ensures r.Some? ==> exists i :: 0 <= i < |ks| && ks[i] == r.value
                          && forall j :: 0 <= j < i ==> !IsSpecific(rawQuery, ks[j])
    ensures r.None? <==> forall k :: 0 <= k < |ks| ==> !IsSpecific(rawQuery, ks[k])
  {
    if |ks| == 0 then None
    else if IsSpecific(rawQuery, ks[0]) then Some(ks[0])
    else
      var r := FirstSpecific(rawQuery, ks[1..]);
      assert forall k :: 1 <= k < |ks| ==> ks[k] == ks[1..][k - 1];
      r
  }

  /** The specific term picked from the best candidate's keywords, if any. */
  function SpecificTerm(message: string, best: Candidate): (r: Option<string>)
    ensures r.Some? ==> IsSpecific(Squash(message), r.value)
    ensures r.Some? ==> exists i :: 0 <= i < |best.keywords| && Squash(best.keywords[i]) == r.value
    ensures r.None? <==> forall k :: 0 <= k < |best.keywords| ==> !IsSpecific(Squash(message), Squash(best.keywords[k]))
  {
    var squashed := SquashAll(best.keywords);
    FirstSpecific(Squash(message), squashed)
  }

  /** A candidate mentions the term in one of its squashed keywords or in its squashed title. */
  predicate Mentions(c: Candidate, term: string) {
    (exists k :: 0 <= k < |c.keywords| && Contains(Squash(c.keywords[k]), term))
    || Contains(Squash(c.title), term)
  }

  lemma ContainsSelf(s: string)
    ensures Contains(s, s)
  {
    ContainsSlice(s, 0, |s|);
    assert s[0..|s|] == s;
  }

  /** The best candidate mentions the term chosen from its own keywords. */
  lemma BestMentionsTerm(message: string, best: Candidate)
    requires SpecificTerm(message, best).Some?
    ensures Mentions(best, SpecificTerm(message, best).value)
  {
    var term := SpecificTerm(message, best).value;
    var i :| 0 <= i < |best.keywords| && Squash(best.keywords[i]) == term;
    ContainsSelf(term);
  }

  /** The specificity narrowing: the candidates that mention the term. */
  function Narrow(results: seq<Scored>, term: string): (r: seq<Scored>)
    ensures forall k :: 0 <= k < |r| ==> r[k] in results && Mentions(r[k].item, term)
    ensures forall k :: 0 <= k < |results| && Mentions(results[k].item, term) ==> results[k] in r
    ensures |results| > 0 && Mentions(results[0].item, term) ==> |r| > 0 && r[0] == results[0]
    ensures Sorting.SortedDesc(results, ScoreKey) ==> Sorting.SortedDesc(r, ScoreKey)
  {
    var r := Filter(results, MentionsTerm(term));
    if Sorting.SortedDesc(results, ScoreKey) then
      Sorting.FilterSorted(results, MentionsTerm(term), ScoreKey);
      r
    else r
  }

  /** Narrowing works entry by entry: narrowing a concatenation is narrowing
      each part, so the entries kept stay in their order. */
  lemma NarrowAppend(a: seq<Scored>, b: seq<Scored>, term: string)
    ensures Narrow(a + b, term) == Narrow(a, term) + Narrow(b, term)
  {
    FilterAppend(a, b, MentionsTerm(term));
  }

  /** Narrowing a single entry keeps it exactly when it mentions the term. */
  lemma NarrowOne(x: Scored, term: string)
    ensures Narrow([x], term) == if Mentions(x.item, term) then [x] else []
  {
    assert [x][1..] == [];
  }

  function MentionsTerm(term: string): Scored -> bool {
    (s: Scored) => Mentions(s.item, term)
  }

  // ------------------------------------------------------------ the whole stage

  /** The post-ranking stage: the confidence cut, then the narrowing to the
      specific term of the best candidate. */
  function PostFilter(message: string, ranked: seq<Scored>): (r: seq<Scored>)
    requires forall k :: 0 <= k < |ranked| ==> ranked[k].score >= 0.0
    ensures forall k :: 0 <= k < |r| ==> r[k] in ranked
    ensures |ranked| > 0 ==> |r| > 0 && r[0] == ranked[0]
    ensures |ranked| > 0 && ranked[0].score > ConfidentScore ==>
      forall k :: 0 <= k < |r| ==> r[k].score >= ranked[0].score * KeepShare
    ensures |ranked| > 0 && SpecificTerm(message, ranked[0].item).Some? ==>
      forall k :: 0 <= k < |r| ==> Mentions(r[k].item, SpecificTerm(message, ranked[0].item).value)
    ensures |ranked| > 0 && SpecificTerm(message, ranked[0].item).None? ==> r == ConfidenceCut(ranked)
  {
    if |ranked| == 0 then []
    else
      var cut := ConfidenceCut(ranked);
      match SpecificTerm(message, ranked[0].item)
      case None => cut
      case Some(term) =>
        BestMentionsTerm(message, ranked[0].item);
        Narrow(cut, term)
  }

  /** An entry passes the confidence cut of `ranked`. */
  predicate PassesCut(ranked: seq<Scored>, x: Scored)
    requires |ranked| > 0
  {
    ranked[0].score <= ConfidentScore || x.score >= ranked[0].score * KeepShare
  }

  /** Conversely, every ranked entry that passes the cut and mentions the
      specific term (when there is one) survives the post-ranking stage; with
      a term, the survivors are the narrowed cut, in order. */
  lemma PostFilterKeepsQualified(message: string, ranked: seq<Scored>)
    requires forall k :: 0 <= k < |ranked| ==> ranked[k].score >= 0.0
    requires |ranked| > 0
    ensures forall k :: 0 <= k < |ranked| && PassesCut(ranked, ranked[k])
                        && (SpecificTerm(message, ranked[0].item).None? || Mentions(ranked[k].item, SpecificTerm(message, ranked[0].item).value))
                        ==> ranked[k] in PostFilter(message, ranked)
    ensures SpecificTerm(message, ranked[0].item).Some? ==>
              PostFilter(message, ranked) == Narrow(ConfidenceCut(ranked), SpecificTerm(message, ranked[0].item).value)
  {
    var cut := ConfidenceCut(ranked);
    forall k | 0 <= k < |ranked| && PassesCut(ranked, ranked[k])
      ensures ranked[k] in cut
    {
    }
  }

  /** The post-ranking stage keeps a sorted ranking sorted. */
  lemma PostFilterSorted(message: string, ranked: seq<Scored>)
    requires forall k :: 0 <= k < |ranked| ==> ranked[k].score >= 0.0
    requires Sorting.SortedDesc(ranked, ScoreKey)
    ensures Sorting.SortedDesc(PostFilter(message, ranked), ScoreKey)
  {
    if |ranked| > 0 {
      var cut := ConfidenceCut(ranked);
      ConfidenceCutSorted(ranked);
      match SpecificTerm(message, ranked[0].item)
      case None =>
      case Some(term) =>
        Sorting.FilterSorted(cut, MentionsTerm(term), ScoreKey);
    }
  }

  /** At most this many results are answered. */
  const MaxResults: nat := 3

  /** `finalResults.slice(0, 3)`. */
  function Top(results: seq<Scored>): (r: seq<Scored>)
    ensures |r| <= MaxResults
    ensures |r| == if |results| < MaxResults then |results| else MaxResults
    ensures r == results[..|r|]
  {
    if |results| <= MaxResults then results else results[..MaxResults]
  }
}
