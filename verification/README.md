# Chat answer handler — a Dafny model

This project models the core of `services/chat/respond.js`, the HTTP handler
that answers a student's chat message with the closest stored
question-answer pairs. It covers:

- the **session exclusion store**: the keywords and topic domains a user has
  asked not to hear about again. These live in the request's session and in
  the process-wide `NEGATION_BLOCKS` map;
- **text normalization**: cleaning, the tokenizer service or the local
  segmentation fallback, the `refineTokens` stopword-splitting work queue,
  and synonym resolution;
- the three **similarity measures** (Jaccard index, overlap count, semantic
  overlap) and **candidate ranking** with its six weighted components;
- the **negation stage** of the handler. A surface scan looks for the longest
  known negation word and takes the word after it. A structural pass filters
  the pairs an external negation analysis reports;
- the **post-ranking filters**: the 70 % confidence cut, the narrowing to a
  specific query term, and the cut to three results;
- the **handler** itself, branch by branch, from the request body to the reply
  and the updated store.

Modules: `Options`, `Strings` (trim, lower-case, split, dedup and filter
helpers), `Sorting` (the stable descending sort both sorts use),
`Normalizer`, `Scoring`, `Ranking`, `Negation`, `ExclusionStore`, `Respond`.

Whatever the handler loads from the database or receives from a service is
an input to the model:

- the stopword list;
- the synonym table;
- the similarity table;
- the negative-keyword map;
- the question list;
- the tokenizer service's answer;
- the negation analyser's answer;
- the Unicode character classes.

The clock reading `Date.now()` is a parameter `now`.

Behaviour of the code that the model keeps as written, although it may look
unintended:

- `clearBlockedDomains` empties the two session lists but leaves the
  process-wide `NEGATION_BLOCKS` entry as it was.
- The `refineTokens` guard `loopCount++ > 1000` lets 1001 queue items through,
  not 1000.
- `normalize` can return an empty list, for example for a message made only
  of stopwords or punctuation. The handler then replies that it did not
  understand.
- The blocked keywords and domains do not filter the ranking. Apart from
  being stored, they are used only by the exact-match short-circuit.
- In the structural negation pass the reported negation word is lower-cased
  but not trimmed. The known negation words are trimmed. A reported word
  with surrounding white space is therefore never accepted.
- The re-sort of the ranked list and the empty-result branch after the
  filters are both present in the code. Neither can change the outcome:
  `Ranking.ResortKeepsRanking` shows the re-sort is the identity.
  `Respond.Answer` shows the result is empty only when there are no
  candidates, and the handler has already returned before ranking in that
  case.

## Model

| member | source | states |
|---|---|---|
| ExclusionStore.SessionKey | services/chat/respond.js:12-20 | The key is never empty. It is the session id when set, else `req.sessionID` (consulted only when a session exists), else the ip, else "anonymous". |
| ExclusionStore.Load | services/chat/respond.js:22-34 | The loaded list has no duplicates and holds exactly the elements of the session's array. It is empty without a session or when the field is not an array. |
| ExclusionStore.LoadInFirstOrder | services/chat/respond.js:22-34 | The loaded list keeps the session array's elements in the order of their first occurrence, as a JavaScript `Set` iterates them. |
| ExclusionStore.Clear | services/chat/respond.js:36-43 | After clearing, both lists load empty. The session is kept with only its two arrays set to empty arrays, so the session id, the request's ids, the session key and the process-wide map are unchanged. Nothing changes without a session. |
| ExclusionStore.Persist | services/chat/respond.js:45-71 | An argument that is not an array changes nothing. Persisting keeps the presence of the session and the session key. |
| ExclusionStore.PersistUnites | services/chat/respond.js:45-71 | The session's list afterwards is exactly the old list united with the lower-cased arguments. The entry of the session key grows by the same union and is stamped `now`. |
| ExclusionStore.PersistKeepsOtherKind | services/chat/respond.js:45-71 | Persisting one kind leaves the other kind untouched, in the session and in every map entry. Entries of other session keys do not change. |
| ExclusionStore.PersistGrows | services/chat/respond.js:45-71 | Persisting never removes a blocked value, from the session or from any map entry. |
| ExclusionStore.PersistIdempotent | services/chat/respond.js:45-71 | Persisting the same values twice at the same clock reading equals persisting them once. |
| ExclusionStore.Combined | services/chat/respond.js:48-50 | The new session list has no duplicates and holds exactly the loaded values and the lower-cased arguments. |
| ExclusionStore.CombinedInFirstOrder | services/chat/respond.js:48-50 | The new session list has the loaded values first, then the lower-cased arguments, each at its first occurrence. |
| ExclusionStore.Stamp | services/chat/respond.js:52-54 | The entry's set of the persisted kind grows by the added values, the other set is kept, and the timestamp becomes `now`. |
| ExclusionStore.ClearKeepsProcessEntries | services/chat/respond.js:36-43 | A reset after a persist leaves the session list empty, while the process-wide map keeps what was persisted. |
| Normalizer.ResolveSynonyms | services/chat/respond.js:73-82 | Same length. A token whose lower-cased, trimmed key has a non-empty table entry becomes that entry; every other token is kept. |
| Normalizer.ResolveSynonymsIdempotent | services/chat/respond.js:73-82 | When every canonical keyword maps to itself, resolving twice equals resolving once. |
| Normalizer.Blank | services/chat/respond.js:123 | Same length. Every punctuation or symbol code point becomes a space, and every other code point is kept. |
| Normalizer.Clean | services/chat/respond.js:122-124 | The cleaned text has no letter directly followed by a number, no number directly followed by a letter, and no punctuation or symbol code point. Where the spaces go is fixed by `Normalizer.SpaceBetweenAppend`. |
| Normalizer.SpaceBetween | services/chat/respond.js:124 | After inserting spaces, no adjacent pair has its first code point in class P and its second in class Q. The text only grows and keeps its first code point. |
| Normalizer.SpaceBetweenAppend | services/chat/respond.js:124 | Separating a concatenation separates each part and inserts one space at the seam exactly when the left part ends in class P and the right part starts in class Q. With single code points unchanged, this fixes the result: with letters a, b and number 1, "ab1" becomes "ab 1". |
| Normalizer.SpaceBetweenOnlySpaces | services/chat/respond.js:124 | Only spaces are inserted. With spaces dropped, the result equals the input, and every code point of the result is a space or one of the input's. |
| Normalizer.SpaceBetweenIdentity | services/chat/respond.js:124 | A text with no P-Q pair comes back unchanged. |
| Normalizer.SpaceBetweenKeepsNoPair | services/chat/respond.js:124 | The second replacement, which separates numbers from following letters, creates no letter-number pair, so the first replacement's separation survives. |
| Normalizer.CleanOnlyAddsSpaces | services/chat/respond.js:122-124 | With spaces dropped, the cleaned text equals the lower-cased, trimmed text with punctuation and symbols blanked. |
| Normalizer.CleanIdentity | services/chat/respond.js:122-124 | A text in which, once lower-cased, trimmed and blanked, no letter touches a number in either order is cleaned to exactly that blanked text: no space is inserted. |
| Normalizer.Splitter | services/chat/respond.js:141-149 | The chosen stopword splits the token and is the first one in the given order that does. None means no stopword splits it. |
| Normalizer.SplitterIsLongest | services/chat/respond.js:127-149 | With stopwords sorted longest first, the splitter is at least as long as any other stopword that could split the token. |
| Normalizer.Pieces | services/chat/respond.js:144 | The pieces are the non-empty trimmed parts of splitting the token at the stopword. Every such part is a piece and every piece is such a part. Each piece occurs in the token and does not contain the stopword. |
| Strings.SplitJoin | services/chat/respond.js:144 | Joining the parts of a split with the separator gives the string back. |
| Strings.SplitNoSep | services/chat/respond.js:144 | No part of a split contains the separator. |
| Strings.WordsCover | services/chat/respond.js:163 | Concatenated, the white-space-separated words of a text are exactly the text without its white space, in order. |
| Strings.WordsJoin | services/chat/respond.js:163 | Splitting non-empty, white-free words joined by single spaces gives the same words back. |
| Strings.DedupInFirstOrder | services/chat/respond.js:49 | Removing duplicates keeps the first occurrence of each element, in the order those occurrences appear, as building a `Set` from an array does. |
| Normalizer.RefineLoop | services/chat/respond.js:129-153 | Each step keeps the invariant. Every emitted token is non-empty, not a stopword, contains no non-empty stopword, is a substring of an input token, and appears once. At most `fuel` tokens are added, and the tokens emitted before stay in front. |
| Normalizer.RefineTake | services/chat/respond.js:137-150 | One iteration on a trimmed token not seen before (a stopword is dropped, a split token is replaced by its pieces, any other token is emitted) keeps the invariant. It keeps the tokens already emitted as a prefix, and adds at most `fuel + 1` tokens. |
| Normalizer.Refine | services/chat/respond.js:129-153 | The refined tokens are non-empty, not stopwords, free of every stopword, substrings of the inputs and duplicate-free, and there are at most 1001 of them. |
| Normalizer.RefineKeepsCleanHead | services/chat/respond.js:129-153 | When the first input token, trimmed, is non-empty, not a stopword and contains no stopword, it is the first refined token. |
| Normalizer.LoopEmitsHead | services/chat/respond.js:134-150 | From an empty start, a first queued token that is non-empty, not a stopword and split by no stopword is emitted first. |
| Normalizer.ShortStopwords | services/chat/respond.js:126 | The split list holds exactly the non-empty stopwords of at most four code points: each of them is in it, and nothing else is. |
| Normalizer.SplitOnEach | services/chat/respond.js:162 | Replacing each short stopword by a space creates no new occurrence of any space-free pattern. When no separator contains a space, none of them occurs in the result. A text that contains no separator comes back unchanged. |
| Normalizer.SplitJoinSpaced | services/chat/respond.js:162 | One replacement creates no occurrence of a space-free pattern, and leaves no occurrence of a separator that contains no space. |
| Normalizer.StripPrefix | services/chat/respond.js:167-173 | With no stopword of at most two code points that is a proper prefix, the token is kept. Otherwise the result is the token without the first such stopword in iteration order. A non-empty token leaves a non-empty suffix. |
| Normalizer.KeepTokens | services/chat/respond.js:165-175 | Every kept token is what `KeepToken` keeps of some raw token, and whatever it keeps of a raw token is kept. Kept tokens are non-empty, not stopwords and free of white space. |
| Normalizer.KeepTokensAppend | services/chat/respond.js:165-175 | The loop works token by token: the tokens kept from a concatenation are those kept from each part, in order. |
| Normalizer.KeepToken | services/chat/respond.js:166-174 | A stopword keeps nothing. Otherwise the stripped token is kept exactly when it is not a stopword. What is kept is non-empty and free of white space. |
| Normalizer.FallbackWords | services/chat/respond.js:161-163 | The words of the fallback are non-empty and free of white space. Concatenated, they are the text with the short stopwords replaced by spaces and all white space removed. When the text contains no short stopword, they are exactly its white-space-separated words. |
| Normalizer.FallbackWordsOfJoin | services/chat/respond.js:161-163 | Non-empty, white-free words joined by single spaces, with no short stopword in the joined text, are exactly the fallback's words. |
| Normalizer.Segment | services/chat/respond.js:161-175 | The fallback keeps exactly what `KeepToken` keeps of each fallback word, that is, of each white-space-separated word once the short stopwords are spaces. Its tokens are non-empty, free of white space and not stopwords. |
| Normalizer.SegmentAvoidsShortStopwords | services/chat/respond.js:161-175 | When no short stopword contains a space, no fallback token contains a short stopword. |
| Normalizer.BaseTokens | services/chat/respond.js:155-163 | The token source is the tokenizer's answer when it is non-empty, and the local segmentation otherwise. |
| Normalizer.Normalize | services/chat/respond.js:120-181 | When the stopwords cannot be loaded the result is the trimmed raw text. Otherwise there are at most 1001 tokens. Each is the canonical keyword of a synonym, or a refined content token that occurs in a token of the source for the cleaned text. |
| Normalizer.NormalizeWithoutSynonyms | services/chat/respond.js:155-177 | Without synonyms, every normalized token is a clean content token and there are no duplicates. |
| Normalizer.NormalizeResolvesLast | services/chat/respond.js:155-177 | Normalizing equals normalizing without the synonym table and then resolving synonyms. |
| Scoring.Similarity | services/chat/respond.js:89-95 | 0 for an empty word or a pair the table lacks, otherwise the table's value for that direction. |
| Scoring.SimilarityOneWay | services/chat/respond.js:92 | For any table, entering a value for the pair (w1, w2) gives that pair the value and leaves the reverse pair (w2, w1) as it was. |
| Scoring.MaxSimilarity | services/chat/respond.js:201-205 | The running maximum is non-negative and bounds every similarity to a target. It is 0 or one of those similarities. |
| Scoring.SemanticOverlap | services/chat/respond.js:199-210 | The semantic overlap is non-negative and 0 against no targets. |
| Scoring.SemanticOverlapBound | services/chat/respond.js:199-210 | With similarities at most 1, the semantic overlap is at most the number of query tokens. |
| Scoring.Overlap | services/chat/respond.js:192-197 | The overlap count is between 0 and the number of query tokens, and 0 against no targets. |
| Scoring.OverlapAppend | services/chat/respond.js:192-197 | The count is additive over a split of the query. |
| Scoring.OverlapFull | services/chat/respond.js:192-197 | The count equals the query length exactly when every query token is a target. |
| Scoring.OverlapPositive | services/chat/respond.js:192-197 | The count is positive exactly when some query token is a target. |
| Scoring.Jaccard | services/chat/respond.js:183-190 | The index lies in [0, 1], and is 0 when both token sets are empty. |
| Scoring.JaccardSymmetric | services/chat/respond.js:183-190 | The index does not depend on argument order. |
| Scoring.JaccardOne | services/chat/respond.js:183-190 | The index is 1 exactly for equal, non-empty token sets. |
| Scoring.JaccardZero | services/chat/respond.js:183-190 | The index is 0 exactly when the token sets are disjoint. |
| Ranking.ScoreCandidate | services/chat/respond.js:249-261 | The entry holds the candidate. Against the normalized keywords (joined by spaces), text and title, the components are: 2 × the keyword overlap, the text Jaccard index, 2 × the title Jaccard index, 2.5 × the keyword semantic overlap, the text semantic overlap, and 2 × the title semantic overlap. The score is their sum, and each is non-negative. |
| Ranking.KeywordOverlapPositive | services/chat/respond.js:253 | The keyword-overlap component is positive exactly when some query token is a normalized keyword token. |
| Ranking.TitleMatchesExactly | services/chat/respond.js:258 | The title component is its full 2 exactly when the query's token set equals the title's and is not empty. |
| Ranking.ScoreBound | services/chat/respond.js:249-261 | With similarities at most 1, a score is at most 7.5 per query token plus 3. |
| Ranking.NothingToMatchScoresZero | services/chat/respond.js:249-261 | A candidate whose keywords, text and title normalize to nothing scores 0, whatever the query. |
| Ranking.Rank | services/chat/respond.js:247-263 | One entry per candidate, a permutation of the per-candidate scores, sorted best first, every score non-negative. |
| Sorting.SortDesc | services/chat/respond.js:262 | The sorted list is in descending key order, of the same length and a permutation of the input. |
| Ranking.ResortKeepsRanking | services/chat/respond.js:375 | Sorting the ranked list again changes nothing. |
| Ranking.ConfidenceCut | services/chat/respond.js:377-384 | Identity when the best score is at most 5. Otherwise it keeps exactly the entries scoring at least 70 % of the best, the best first. |
| Ranking.ConfidenceCutSorted | services/chat/respond.js:377-384 | The cut keeps the best-first order. |
| Ranking.FirstSpecific | services/chat/respond.js:387-388 | The term found is the first keyword that occurs in the squashed query, is longer than four code points and is not generic. None means no keyword qualifies. |
| Ranking.SpecificTerm | services/chat/respond.js:386-388 | The specific term is the squashed form of one of the best candidate's keywords and qualifies; None means none does. |
| Ranking.BestMentionsTerm | services/chat/respond.js:386-396 | The best candidate always mentions its own specific term, so narrowing never drops it. |
| Ranking.Narrow | services/chat/respond.js:390-395 | The narrowed list keeps exactly the entries that mention the term, and a best-first list stays best first. |
| Ranking.NarrowAppend | services/chat/respond.js:390-395 | Narrowing a concatenation narrows each part, so the kept entries keep their relative order. |
| Ranking.NarrowOne | services/chat/respond.js:391-395 | A single entry is kept exactly when it mentions the term. |
| Strings.FilterAppend | services/chat/respond.js:383 | Filtering distributes over concatenation, so survivors keep their order. |
| Ranking.PostFilter | services/chat/respond.js:377-397 | Every survivor is a ranked entry. A non-empty ranking keeps its best entry first. Above a best of 5, survivors score at least 70 % of it. With a specific term, survivors mention it; without one, the result is the confidence cut. |
| Ranking.PostFilterKeepsQualified | services/chat/respond.js:377-397 | Conversely, every ranked entry that passes the 70 % cut and mentions the specific term, when there is one, survives. With a term, the survivors are exactly the narrowed cut, in order. |
| Ranking.PostFilterSorted | services/chat/respond.js:377-397 | The filters keep the best-first order. |
| Ranking.Top | services/chat/respond.js:405 | The shown results are the first min(3, n) entries. |
| Negation.KnownForms | services/chat/respond.js:318-320 | Each known form is the non-empty trimmed, lower-cased form of some key, and every non-blank key's form is present. |
| Negation.NegationWords | services/chat/respond.js:318-320 | The negation-word set has no duplicates, holds no empty word and is exactly the forms of the non-blank keys. |
| Negation.FirstField | services/chat/respond.js:334 | The first field is the longest separator-free prefix of the text. |
| Negation.Trigger | services/chat/respond.js:327-330 | The trigger is the first word in the given order that occurs in the message; None means none occurs. |
| Negation.TriggerIsLongest | services/chat/respond.js:325-330 | With words sorted longest first, the trigger is at least as long as any negation word occurring in the message. |
| Negation.WordAfter | services/chat/respond.js:330-337 | There is a keyword exactly when the first field of the trimmed text after the first occurrence of the trigger has at least two code points, and the keyword is that field. It occurs in the message and contains no separator. |
| Negation.WordAt | services/chat/respond.js:332-337 | From a position, the keyword is the first field of the trimmed rest when that has at least two code points, and there is none otherwise. |
| Negation.TailStart | services/chat/respond.js:329-332 | The rest of the message starts right after the first occurrence of the trigger. |
| Negation.SurfaceScan | services/chat/respond.js:327-341 | The scan triggers exactly when some negation word occurs, and yields a keyword only when it triggers. |
| Negation.SurfaceScanFirstTrigger | services/chat/respond.js:328-342 | The scan triggers exactly when a first trigger is found, and its keyword is then the word after that trigger. |
| Negation.DomainsOf | services/chat/respond.js:355-356 | "dorm" is named iff the keyword contains หอ. "admissions" is named iff it contains รับสมัคร or สมัคร. Nothing else is named. |
| Negation.StructuralPass | services/chat/respond.js:344-358 | Every keyword has at least two code points, and every domain is dorm or admissions. |
| Negation.StructuralFires | services/chat/respond.js:344-358 | The pass triggers iff some pair has a known negation word. It names dorm or admissions iff some accepted pair's keyword names it. |
| Negation.StructuralKeywords | services/chat/respond.js:344-358 | A word is extracted iff it has at least two code points and is the lower-cased keyword of an accepted pair. |
| Negation.UnknownPairsAddNothing | services/chat/respond.js:346-348 | Pairs whose negation word is unknown contribute nothing: dropping them gives the same finding. |
| Negation.AdmissionsIsSamak | services/chat/respond.js:356 | The admissions test reduces to "contains สมัคร". |
| Negation.MergeKeywords | services/chat/respond.js:360 | The merged list has no duplicates, and holds exactly the collected words of at least two code points. |
| Negation.MergeKeywordsInFirstOrder | services/chat/respond.js:360 | The merged keywords come in the order they first occur among the collected words. |
| Negation.Merge | services/chat/respond.js:322-360 | Putting the two passes together gives duplicate-free keywords of at least two code points, exactly the surface keyword and the structural keywords; the trigger fires iff either pass fires; the domains are the structural pass's. |
| Negation.Collected | services/chat/respond.js:335-353 | The collected words are exactly the surface keyword, if any, and the structural keywords. |
| Negation.Detect | services/chat/respond.js:322-360 | The keywords are duplicate-free words of at least two code points, exactly the surface keyword and the structural keywords. The trigger fires iff either pass fires, and the domains are the structural pass's. |
| Respond.MessageOf | services/chat/respond.js:275 | The message is the body's message, else its text. It is empty only when both are. |
| Respond.AfterReset | services/chat/respond.js:266-267 | A reset empties both session lists and keeps the process-wide map. The session, with only its two arrays emptied, keeps its id, so the session key is the same. Without a reset nothing changes. |
| Respond.FirstBlocked | services/chat/respond.js:309-312 | A match is found exactly when the message is non-empty and among the blocked keywords, and it is the message itself. |
| Respond.BlockedMatch | services/chat/respond.js:307-313 | The short-circuit matches exactly when the lower-cased, trimmed message is a non-empty blocked keyword. |
| Respond.BlockRecords | services/chat/respond.js:363-365 | After the ack's persists, every extracted keyword and domain (lower-cased) is in the session lists and the key's entry, and nothing blocked before is lost. |
| Respond.Block | services/chat/respond.js:364-365 | An empty finding changes nothing. The session key and the presence of a session are kept. |
| Respond.Answer | services/chat/respond.js:374-405 | The reply has no match only when there are no candidates. A found reply is the first up to three entries of the filtered ranking: 1 to 3 results, sorted, all ranked, led by the best-ranked entry, and "multiple" iff more than one. |
| Respond.Shortlist | services/chat/respond.js:377-405 | The shortlist is the first up to three entries of the post-filtered ranking. It is empty only for an empty ranking, is led by the best entry, and is sorted and made of ranked entries. |
| Respond.Handle | services/chat/respond.js:265-405 | Reset-ack iff a reset with no message, text or id; question-by-id iff an id; invalid payload iff nothing to read. Only an ack changes the store beyond a reset. No reply is an empty match, and a found reply has at most 3 results. |
| Respond.Understand | services/chat/respond.js:292-316 | "Not understood" exactly when normalization yields nothing. A blocked match is answered with the lower-cased, trimmed message it matched, and changes nothing. |
| Respond.Negotiate | services/chat/respond.js:318-372 | Acknowledges iff a trigger fired and something was extracted, then persists the finding. Otherwise reports an empty database iff there are no candidates, else answers. |
| Respond.BlockedShortCircuits | services/chat/respond.js:307-316 | A message equal, once lower-cased and trimmed, to a blocked keyword is answered with that keyword, and the store is unchanged. |
| Respond.NegationAcknowledged | services/chat/respond.js:362-369 | Past the early exits, the handler acks exactly when a trigger fired and something was extracted. The ack lists what was extracted, and with a session every extracted keyword and domain is then blocked. |
| Respond.BareTriggerFallsThrough | services/chat/respond.js:362-374 | A trigger with nothing extracted does not stop the search. The handler goes on to answer from the candidates, leaving the store as it was. |
| Respond.AnswersWithBest | services/chat/respond.js:371-405 | With candidates and no ack, the reply is found, holds 1 to 3 ranked entries and is led by the best-ranked one. |

## Left out

- Database access is left out: the loaders (`loadSemanticData`, `loadSynonymsMapping`, `fetchQAWithKeywords`, the stopword and negative-keyword loaders), connection handling, the question-by-id query and its reply body, and the default and specific contact lookups. Their results are inputs or reply tags.
- `tokenizeWithPython` is an HTTP call. It is a function input answering `None` for any failure; its own clean-up of the reply is assumed done.
- `analyzeQueryNegation` and `simpleTokenize` live in another file. Their combined result is a function input.
- The Unicode property classes `\p{P}`, `\p{S}`, `\p{L}` and `\p{N}` are inputs. The model only requires that letters and numbers are disjoint and that a space is in neither.
- `toLowerCase` is modelled for ASCII only. Thai has no case, and full Unicode case mapping is out of scope.
- Lengths are counted in code points, where JavaScript counts UTF-16 code units. They differ for characters outside the Basic Multilingual Plane. For example, a one-emoji word after a negation word has JavaScript length 2 and becomes a keyword, while the model counts 1 and drops it. The stopword length tests (4 and 2) and the specific-term test (more than 4) differ in the same way. Thai and ASCII text count the same in both.
- The synonym and similarity tables are maps without inherited keys. In the code they are plain objects, so a token such as "constructor" finds the inherited `Object` function: `resolveSynonyms` replaces the token by that function, and the similarity lookup reads a property of it. The model keeps such a token unchanged and gives the pair similarity 0.
- Scores are exact reals rather than IEEE doubles.
- Concurrency between requests sharing `NEGATION_BLOCKS` is left out. So are the `try`/`catch` wrappers around code that cannot throw on the modelled inputs. The model takes the request as present, never null.
- The two `Date.now()` readings of one acknowledgement are one `now`.
- Non-string `message` payloads, falsy ids other than the empty string, and the JSON reply wording are left out. Replies are tagged by branch with the data they carry.
- Normalizer.Refine: states the bound of 1001 emitted tokens, and that a clean first token is emitted first (`Normalizer.RefineKeepsCleanHead`). It does not state in general which tokens are emitted, or which ones the iteration cap drops.
- Normalizer.Pieces: states which pieces come out, not their order.
- Normalizer.Normalize: a token replaced by a synonym is stated to be a value of the synonym table, not a content token, because the table's values are not cleaned.
- Ranking.Rank: ties keep input order because the sort is a stable insertion sort. Only `Ranking.ResortKeepsRanking` states a consequence of that.
- Respond.NegationAcknowledged: states that the lower-cased forms of the extracted keywords are blocked, without proving the keywords were already lower case.
