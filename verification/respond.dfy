/**
 * The chat request handler of services/chat/respond.js, from the request
 * body to the reply and the updated exclusion store. Data the handler
 * loads, and the calls it makes into code outside this model, are
 * `Services` fields: the lexicon, the similarity table, the negative-keyword
 * map, the negation analyser and the question list. The clock reading is
 * `now`.
 */
module Respond {
  import opened Options
  import opened Strings
  import Sorting
  import Normalizer
  import opened Scoring
  import opened Ranking
  import opened Negation
  import opened ExclusionStore

  /** The fields of the request body the handler reads; empty strings stand
      for absent or falsy values. */
  datatype Body = Body(resetConversation: bool, message: string, text: string, id: string)

  /** What the handler works with besides the request. `analyze` is
      `analyzeQueryNegation` applied to the message's own tokenization and
      its normalized tokens. */
  datatype Services = Services(
    lex: Normalizer.Lexicon,
    sim: SimilarityTable,
    negationKeys: seq<string>,
    analyze: (string, seq<string>) -> NegationAnalysis,
    candidates: seq<Candidate>)

  /** The replies the handler sends, by the branch that sends them. */
  datatype Response =
    | ResetAck
    | QuestionById(id: string)
    | InvalidPayload
    | NotUnderstood
    | AlreadyBlocked(keyword: string, blockedKeywords: seq<string>, blockedDomains: seq<string>)
    | NegationAck(display: seq<string>, blockedKeywords: seq<string>, blockedDomains: seq<string>)
    | DatabaseNotReady
    | NoMatch
    | Found(results: seq<Scored>, multipleResults: bool)

  datatype Outcome = Outcome(response: Response, store: Store)

  // ------------------------------------------------------------ stages

  /** `req.body.message || req.body.text || ''`. */
  function MessageOf(body: Body): (r: string)
    ensures r == "" <==> body.message == "" && body.text == ""
    ensures r == body.message || r == body.text
  {
    if body.message != "" then body.message else body.text
  }

  /** The store once a requested reset has cleared the session's lists. */
  function AfterReset(st: Store, body: Body): (r: Store)
    ensures r.blocks == st.blocks
    ensures body.resetConversation ==> Load(r.req, Keywords) == [] && Load(r.req, Domains) == []
    ensures !body.resetConversation ==> r == st
    ensures body.resetConversation && st.req.session.Some? ==>
              r.req.session == Some(st.req.session.value.(blockedKeywords := Arr([]), blockedDomains := Arr([])))
    ensures r.req.sessionID == st.req.sessionID && r.req.ip == st.req.ip
    ensures r.req.session.Some? <==> st.req.session.Some?
    ensures SessionKey(r.req) == SessionKey(st.req)
  {
    if body.resetConversation then Clear(st) else st
  }

  /** The loop over the session's blocked keywords: the first one equal to
      `m`, an empty one never counting as a match. */
  function FirstBlocked(blocked: seq<string>, m: string): (r: Option<string>)
    ensures r.Some? <==> m != "" && m in blocked
    ensures r.Some? ==> r.value == m
  {
    if |blocked| == 0 then None
    else if m == blocked[0] && blocked[0] != "" then Some(blocked[0])
    else FirstBlocked(blocked[1..], m)
  }

  /** The exact-match check against keywords blocked earlier: the message,
      lower-cased and trimmed, is one of them. */
  function BlockedMatch(req: Request, message: string): (r: Option<string>)
    ensures r.Some? <==> Trim(Lower(message)) != "" && Trim(Lower(message)) in Load(req, Keywords)
    ensures r.Some? ==> r.value == Trim(Lower(message))
  {
    var blocked := Load(req, Keywords);
    if |blocked| > 0 then FirstBlocked(blocked, Trim(Lower(message))) else None
  }

  /** The gate of the acknowledgement: a trigger fired and something was
      extracted to block. */
  predicate Acknowledges(f: Finding) {
    f.triggered && (|f.keywords| > 0 || |f.domains| > 0)
  }

  /** Persisting a finding: its keywords when there are any, then its
      domains when there are any. */
  function Block(st: Store, f: Finding, now: int): (r: Store)
    ensures |f.keywords| == 0 && |f.domains| == 0 ==> r == st
    ensures SessionKey(r.req) == SessionKey(st.req)
    ensures r.req.session.Some? <==> st.req.session.Some?
  {
    var st1 := if |f.keywords| > 0 then Persist(st, Keywords, Arr(f.keywords), now) else st;
    if |f.domains| > 0 then Persist(st1, Domains, Arr(f.domains), now) else st1
  }

  /** Everything a finding blocks lands in the session's lists (when there
      is a session) and in the process-wide entry of its session key, and
      nothing blocked before is lost. */
  lemma BlockRecords(st: Store, f: Finding, now: int)
    ensures var r := Block(st, f, now);
            var key := SessionKey(st.req);
            && (st.req.session.Some? ==>
                  && (forall w :: w in f.keywords ==> Lower(w) in Load(r.req, Keywords))
                  && (forall d :: d in f.domains ==> Lower(d) in Load(r.req, Domains)))
            && (|f.keywords| > 0 ==> key in r.blocks && forall w :: w in f.keywords ==> Lower(w) in r.blocks[key].blockedKeywords)
            && (|f.domains| > 0 ==> key in r.blocks && forall d :: d in f.domains ==> Lower(d) in r.blocks[key].blockedDomains)
            && Elems(Load(st.req, Keywords)) <= Elems(Load(r.req, Keywords))
            && Elems(Load(st.req, Domains)) <= Elems(Load(r.req, Domains))
  {
    var st1 := if |f.keywords| > 0 then Persist(st, Keywords, Arr(f.keywords), now) else st;
    if |f.keywords| > 0 {
      PersistUnites(st, Keywords, f.keywords, now);
      PersistKeepsOtherKind(st, Keywords, Arr(f.keywords), now, Domains);
      LoweredIn(f.keywords);
    }
    if |f.domains| > 0 {
      PersistUnites(st1, Domains, f.domains, now);
      PersistKeepsOtherKind(st1, Domains, Arr(f.domains), now, Keywords);
      LoweredIn(f.domains);
    }
  }

  lemma LoweredIn(items: seq<string>)
    ensures forall w :: w in items ==> Lower(w) in Elems(LowerAll(items))
  {
    forall w | w in items ensures Lower(w) in Elems(LowerAll(items)) {
      var k :| 0 <= k < |items| && items[k] == w;
      assert LowerAll(items)[k] == Lower(w);
    }
  }

  /** The confidence and topic filters and the cut to the first three,
      on a list ranked best first. */
  function Shortlist(message: string, ranked: seq<Scored>): (r: seq<Scored>)
    requires forall k :: 0 <= k < |ranked| ==> ranked[k].score >= 0.0
    requires Sorting.SortedDesc(ranked, ScoreKey)
    ensures |ranked| == 0 ==> r == []
    ensures |ranked| > 0 ==> 1 <= |r| <= MaxResults && r[0] == ranked[0]
    ensures forall k :: 0 <= k < |r| ==> r[k] in ranked
    ensures Sorting.SortedDesc(r, ScoreKey)
    ensures r == Top(PostFilter(message, ranked))
  {
    var filtered := PostFilter(message, ranked);
    PostFilterSorted(message, ranked);
    var top := Top(filtered);
    PrefixSorted(filtered, |top|);
    top
  }

  /** Ranking, then the shortlist: the reply when questions are available. */
  function Answer(sv: Services, query: seq<string>, message: string): (r: Response)
    requires Normalizer.WellFormed(sv.lex.classes)
    ensures r.NoMatch? || r.Found?
    ensures r.NoMatch? <==> |sv.candidates| == 0
    ensures r.Found? ==> 1 <= |r.results| <= MaxResults && (r.multipleResults <==> |r.results| > 1)
    ensures r.Found? ==>
              var ranked := Rank(sv.lex, sv.sim, query, sv.candidates);
              && r.results[0] == ranked[0]
              && (forall k :: 0 <= k < |r.results| ==> r.results[k] in ranked)
              && Sorting.SortedDesc(r.results, ScoreKey)
              && r.results == Top(PostFilter(message, ranked))
  {
    ResortKeepsRanking(sv.lex, sv.sim, query, sv.candidates);
    var ranked := Sorting.SortDesc(Rank(sv.lex, sv.sim, query, sv.candidates), ScoreKey);
    var top := Shortlist(message, ranked);
    if |top| == 0 then NoMatch else Found(top, |top| > 1)
  }

  lemma PrefixSorted(s: seq<Scored>, n: nat)
    requires n <= |s| && Sorting.SortedDesc(s, ScoreKey)
    ensures Sorting.SortedDesc(s[..n], ScoreKey)
  {
    assert forall k :: 0 <= k < n ==> s[..n][k] == s[k];
  }

  // ------------------------------------------------------------ the handler

  /** The handler: reset, question by id, payload check, then the rest. */
  function Handle(sv: Services, st0: Store, body: Body, now: int): (r: Outcome)
    requires Normalizer.WellFormed(sv.lex.classes)
    ensures r.response.ResetAck? <==> body.resetConversation && MessageOf(body) == "" && body.id == ""
    ensures r.response.QuestionById? <==> body.id != ""
    ensures r.response.InvalidPayload? <==> body.id == "" && MessageOf(body) == "" && !body.resetConversation
    ensures !r.response.NegationAck? ==> r.store == AfterReset(st0, body)
    ensures !r.response.NoMatch?
    ensures r.response.Found? ==> 1 <= |r.response.results| <= MaxResults
  {
    var st := AfterReset(st0, body);
    var message := MessageOf(body);
    if body.resetConversation && message == "" && body.id == "" then Outcome(ResetAck, st)
    else if body.id != "" then Outcome(QuestionById(body.id), st)
    else if message == "" then Outcome(InvalidPayload, st)
    else Understand(sv, st, message, now)
  }

  /** Normalization and the blocked-keyword check of a non-empty message. */
  function Understand(sv: Services, st: Store, message: string, now: int): (r: Outcome)
    requires Normalizer.WellFormed(sv.lex.classes)
    ensures r.response.NotUnderstood? <==> |Normalizer.Normalize(sv.lex, message)| == 0
    ensures r.response.AlreadyBlocked? ==> r.response.keyword == Trim(Lower(message)) && r.store == st
    ensures !r.response.NegationAck? ==> r.store == st
    ensures !r.response.NoMatch? && !r.response.ResetAck? && !r.response.QuestionById? && !r.response.InvalidPayload?
    ensures r.response.Found? ==> 1 <= |r.response.results| <= MaxResults
  {
    var query := Normalizer.Normalize(sv.lex, message);
    if |query| == 0 then Outcome(NotUnderstood, st)
    else
      match BlockedMatch(st.req, message)
      case Some(kw) => Outcome(AlreadyBlocked(kw, Load(st.req, Keywords), Load(st.req, Domains)), st)
      case None => Negotiate(sv, st, message, query, now)
  }

  /** The negation stage, then the search. */
  function Negotiate(sv: Services, st: Store, message: string, query: seq<string>, now: int): (r: Outcome)
    requires Normalizer.WellFormed(sv.lex.classes)
    ensures var f := Detect(sv.negationKeys, message, sv.analyze(message, query));
            && (r.response.NegationAck? <==> Acknowledges(f))
            && (r.response.NegationAck? ==> r.response.display == f.keywords && r.store == Block(st, f, now))
            && (!r.response.NegationAck? ==> r.store == st)
            && (r.response.DatabaseNotReady? <==> !Acknowledges(f) && |sv.candidates| == 0)
            && (r.response.Found? <==> !Acknowledges(f) && |sv.candidates| > 0)
            && (r.response.NegationAck? || r.response.DatabaseNotReady? || r.response.Found?)
    ensures r.response.Found? ==> 1 <= |r.response.results| <= MaxResults
  {
    var finding := Detect(sv.negationKeys, message, sv.analyze(message, query));
    if Acknowledges(finding) then
      var blocked := Block(st, finding, now);
      Outcome(NegationAck(finding.keywords, Load(blocked.req, Keywords), Load(blocked.req, Domains)), blocked)
    else if |sv.candidates| == 0 then Outcome(DatabaseNotReady, st)
    else Outcome(Answer(sv, query, message), st)
  }

  /** The point the negation stage is reached: no question id, and a
      non-empty message that normalizes to something and does not repeat a
      blocked keyword. */
  predicate ReachesNegation(sv: Services, st0: Store, body: Body)
    requires Normalizer.WellFormed(sv.lex.classes)
  {
    && body.id == ""
    && MessageOf(body) != ""
    && |Normalizer.Normalize(sv.lex, MessageOf(body))| > 0
    && BlockedMatch(AfterReset(st0, body).req, MessageOf(body)).None?
  }

  function FindingOf(sv: Services, body: Body): Finding
    requires Normalizer.WellFormed(sv.lex.classes)
  {
    var message := MessageOf(body);
    Detect(sv.negationKeys, message, sv.analyze(message, Normalizer.Normalize(sv.lex, message)))
  }

  /** Past the early exits, the handler is the negation stage and the search. */
  lemma HandleNegotiates(sv: Services, st0: Store, body: Body, now: int)
    requires Normalizer.WellFormed(sv.lex.classes)
    requires ReachesNegation(sv, st0, body)
    ensures Handle(sv, st0, body, now)
         == Negotiate(sv, AfterReset(st0, body), MessageOf(body), Normalizer.Normalize(sv.lex, MessageOf(body)), now)
  {
  }

  // ------------------------------------------------------------ properties

  /** A message equal, after lower-casing and trimming, to a keyword blocked
      earlier is answered with that keyword and changes nothing. */
  lemma BlockedShortCircuits(sv: Services, st0: Store, body: Body, now: int)
    requires Normalizer.WellFormed(sv.lex.classes)
    requires body.id == "" && MessageOf(body) != ""
    requires |Normalizer.Normalize(sv.lex, MessageOf(body))| > 0
    requires var m := Trim(Lower(MessageOf(body)));
             m != "" && m in Load(AfterReset(st0, body).req, Keywords)
    ensures var r := Handle(sv, st0, body, now);
            && r.response == AlreadyBlocked(Trim(Lower(MessageOf(body))),
                                            Load(AfterReset(st0, body).req, Keywords),
                                            Load(AfterReset(st0, body).req, Domains))
            && r.store == AfterReset(st0, body)
  {
  }

  /** Once the negation stage is reached, the handler acknowledges exactly
      when a trigger fired and something was extracted, and then every
      extracted keyword and domain is blocked in the session. */
  lemma NegationAcknowledged(sv: Services, st0: Store, body: Body, now: int)
    requires Normalizer.WellFormed(sv.lex.classes)
    requires ReachesNegation(sv, st0, body)
    ensures var r := Handle(sv, st0, body, now);
            var f := FindingOf(sv, body);
            && (r.response.NegationAck? <==> f.triggered && (|f.keywords| > 0 || |f.domains| > 0))
            && (r.response.NegationAck? ==>
                  && r.response.display == f.keywords
                  && (st0.req.session.Some? ==>
                        && (forall w :: w in f.keywords ==> Lower(w) in r.response.blockedKeywords)
                        && (forall d :: d in f.domains ==> Lower(d) in r.response.blockedDomains)))
  {
    HandleNegotiates(sv, st0, body, now);
    BlockRecords(AfterReset(st0, body), FindingOf(sv, body), now);
  }

  /** A negation word with nothing after it to block, and no domain named,
      does not stop the search: the handler goes on to rank the questions. */
  lemma BareTriggerFallsThrough(sv: Services, st0: Store, body: Body, now: int)
    requires Normalizer.WellFormed(sv.lex.classes)
    requires ReachesNegation(sv, st0, body)
    requires FindingOf(sv, body).triggered
    requires |FindingOf(sv, body).keywords| == 0 && |FindingOf(sv, body).domains| == 0
    requires |sv.candidates| > 0
    ensures Handle(sv, st0, body, now).response.Found?
    ensures Handle(sv, st0, body, now).store == AfterReset(st0, body)
  {
    HandleNegotiates(sv, st0, body, now);
  }

  /** With questions available and nothing blocked or negated, the reply is
      a non-empty list led by the best-ranked question. */
  lemma AnswersWithBest(sv: Services, st0: Store, body: Body, now: int)
    requires Normalizer.WellFormed(sv.lex.classes)
    requires ReachesNegation(sv, st0, body)
    requires !Acknowledges(FindingOf(sv, body))
    requires |sv.candidates| > 0
    ensures var r := Handle(sv, st0, body, now).response;
            var ranked := Rank(sv.lex, sv.sim, Normalizer.Normalize(sv.lex, MessageOf(body)), sv.candidates);
            && r.Found?
            && 1 <= |r.results| <= MaxResults
            && r.results[0] == ranked[0]
            && (forall k :: 0 <= k < |r.results| ==> r.results[k] in ranked)
  {
    HandleNegotiates(sv, st0, body, now);
  }
}
