/**
 * Negation detection in the request handler of services/chat/respond.js:
 * deciding whether a message says "not X" and which keywords and topic
 * domains it rules out. Two passes contribute. A surface scan looks for the
 * longest known negation word in the lower-cased message and takes the word
 * right after it. A structural pass accepts the (negation word, keyword)
 * pairs an external analysis found, but only for known negation words.
 */
module Negation {
  import opened Options
  import opened Strings
  import Sorting
  import Normalizer

  /** One pair reported by the external negation analysis. */
  datatype NegatedPair = NegatedPair(negativeWord: string, keyword: string)

  /** The external analysis of a message (`analyzeQueryNegation`). */
  datatype NegationAnalysis = NegationAnalysis(hasNegation: bool, negatedKeywords: seq<NegatedPair>)

  /** What the handler concludes: whether a negation trigger fired, the
      keywords to block and the topic domains to block. */
  datatype Finding = Finding(triggered: bool, keywords: seq<string>, domains: seq<string>)

  /** The shortest keyword worth blocking. */
  const MinKeywordLength: nat := 2

  // ------------------------------------------------------------ known negation words

  /** `w` is the trimmed, lower-cased form of some non-blank key. */
  predicate IsFormOf(keys: seq<string>, w: string) {
    exists key :: key in keys && Trim(key) != "" && w == Lower(Trim(key))
  }

  /** The trimmed, lower-cased forms of the non-blank keys, in key order. */
  function KnownForms(keys: seq<string>): (r: seq<string>)
    ensures forall k :: 0 <= k < |r| ==> r[k] != ""
    ensures forall k :: 0 <= k < |r| ==> IsFormOf(keys, r[k])
    ensures forall j :: 0 <= j < |keys| && Trim(keys[j]) != "" ==> Lower(Trim(keys[j])) in r
  {
    var kept := Filter(keys, NotBlank());
    var forms := FormsOf(kept);
    FormsFromKeys(keys, kept, forms);
    KeptForms(keys, kept, forms);
    forms
  }

  /** Each form is the form of a non-blank key. */
  lemma FormsFromKeys(keys: seq<string>, kept: seq<string>, forms: seq<string>)
    requires kept == Filter(keys, NotBlank()) && forms == FormsOf(kept)
    ensures forall i :: 0 <= i < |forms| ==> forms[i] != "" && IsFormOf(keys, forms[i])
  {
    forall i | 0 <= i < |forms|
      ensures forms[i] != "" && IsFormOf(keys, forms[i])
    {
      assert NotBlank()(kept[i]);
      assert kept[i] in keys && forms[i] == Lower(Trim(kept[i]));
    }
  }

  function FormsOf(kept: seq<string>): (r: seq<string>)
    ensures |r| == |kept|
    ensures forall i :: 0 <= i < |r| ==> r[i] == Lower(Trim(kept[i]))
  {
    seq(|kept|, i requires 0 <= i < |kept| => Lower(Trim(kept[i])))
  }

  lemma KeptForms(keys: seq<string>, kept: seq<string>, r: seq<string>)
    requires kept == Filter(keys, NotBlank()) && r == FormsOf(kept)
    ensures forall j :: 0 <= j < |keys| && Trim(keys[j]) != "" ==> Lower(Trim(keys[j])) in r
  {
    forall j | 0 <= j < |keys| && Trim(keys[j]) != ""
      ensures Lower(Trim(keys[j])) in r
    {
      assert NotBlank()(keys[j]);
      var i :| 0 <= i < |kept| && kept[i] == keys[j];
      assert r[i] == Lower(Trim(keys[j]));
    }
  }

  function NotBlank(): string -> bool {
    (k: string) => Trim(k) != ""
  }

  /** `negationWordsSet`: the known negation words, each once. */
  function NegationWords(keys: seq<string>): (r: seq<string>)
    ensures NoDup(r)
    ensures forall k :: 0 <= k < |r| ==> r[k] != ""
    ensures forall k :: 0 <= k < |r| ==> IsFormOf(keys, r[k])
    ensures forall j :: 0 <= j < |keys| && Trim(keys[j]) != "" ==> Lower(Trim(keys[j])) in r
  {
    Dedup(KnownForms(keys))
  }

  // ------------------------------------------------------------ surface scan

  /** The separators of the first word after a trigger: `[\s,.:;!?]`. */
  predicate IsFieldSep(c: char) {
    IsWhite(c) || c == ',' || c == '.' || c == ':' || c == ';' || c == '!' || c == '?'
  }

  /** `s.split(/[\s,.:;!?]+/)[0]`: everything before the first separator. */
  function FirstField(s: string): (r: string)
    ensures |r| <= |s| && r == s[..|r|]
    ensures forall k :: 0 <= k < |r| ==> !IsFieldSep(r[k])
    ensures |r| < |s| ==> IsFieldSep(s[|r|])
  {
    if |s| == 0 || IsFieldSep(s[0]) then "" else [s[0]] + FirstField(s[1..])
  }

  /** The first negation word, in the given order, that occurs in the message. */
  function Trigger(prefixes: seq<string>, msg: string): (r: Option<string>)
    ensures r.Some? ==> Contains(msg, r.value)
    ensures r.Some? ==> exists i :: 0 <= i < |prefixes| && prefixes[i] == r.value
                          && forall j :: 0 <= j < i ==> !Contains(msg, prefixes[j])
    ensures r.None? <==> forall k :: 0 <= k < |prefixes| ==> !Contains(msg, prefixes[k])
  {
    if |prefixes| == 0 then None
    else if Contains(msg, prefixes[0]) then Some(prefixes[0])
    else
      var r := Trigger(prefixes[1..], msg);
      assert forall k :: 1 <= k < |prefixes| ==> prefixes[k] == prefixes[1..][k - 1];
      r
  }

  /** With the negation words sorted longest first, the trigger found is at
      least as long as every other negation word occurring in the message. */
  lemma {:induction false} TriggerIsLongest(prefixes: seq<string>, msg: string, p: string)
    requires Sorting.SortedDesc(prefixes, Normalizer.LengthKey)
    requires p in prefixes && Contains(msg, p)
    ensures Trigger(prefixes, msg).Some?
    ensures |p| <= |Trigger(prefixes, msg).value|
  {
    var r := Trigger(prefixes, msg);
    var k :| 0 <= k < |prefixes| && prefixes[k] == p;
    assert r.Some?;
    var i :| 0 <= i < |prefixes| && prefixes[i] == r.value
             && forall j :: 0 <= j < i ==> !Contains(msg, prefixes[j]);
    assert i <= k;
    if i < k {
      assert Normalizer.LengthKey(prefixes[i]) >= Normalizer.LengthKey(prefixes[k]);
    }
  }

  /** The word right after the first occurrence of the trigger `p`: the first
      field of the trimmed rest of the message, kept only when it is at least
      two code points long. */
  function WordAfter(msg: string, p: string): (r: Option<string>)
    requires Contains(msg, p)
    ensures r.Some? <==> |FirstField(TailAfter(msg, p))| >= MinKeywordLength
    ensures r.Some? ==> r.value == FirstField(TailAfter(msg, p))
    ensures r.Some? ==> |r.value| >= MinKeywordLength && Contains(msg, r.value)
    ensures r.Some? ==> forall k :: 0 <= k < |r.value| ==> !IsFieldSep(r.value[k])
  {
    WordAt(msg, TailStart(msg, p))
  }

  /** Where the text after the first occurrence of `p` starts. */
  function TailStart(msg: string, p: string): (d: nat)
    requires Contains(msg, p)
    ensures d <= |msg|
    ensures d >= |p| && OccursAt(msg, p, d - |p|)
    ensures forall k: nat :: k < d - |p| ==> !OccursAt(msg, p, k)
  {
    var idx := IndexOf(msg, p).value;
    idx + |p|
  }

  /** The trimmed text after the first occurrence of `p`. */
  function TailAfter(msg: string, p: string): string
    requires Contains(msg, p)
  {
    Trim(msg[TailStart(msg, p)..])
  }

  /** The first field of the trimmed text from position `d` on, when it is
      at least two code points long. */
  function WordAt(msg: string, d: nat): (r: Option<string>)
    requires d <= |msg|
    ensures r.Some? <==> |FirstField(Trim(msg[d..]))| >= MinKeywordLength
    ensures r.Some? ==> r.value == FirstField(Trim(msg[d..]))
    ensures r.Some? ==> |r.value| >= MinKeywordLength && Contains(msg, r.value)
    ensures r.Some? ==> forall k :: 0 <= k < |r.value| ==> !IsFieldSep(r.value[k])
  {
    var after := Trim(msg[d..]);
    if |after| == 0 then None
    else
      var w := FirstField(after);
      if |w| >= MinKeywordLength then
        TailWordContained(msg, d, w);
        Some(w)
      else None
  }

  /** A prefix of the trimmed tail of a message occurs in the message. */
  lemma TailWordContained(msg: string, d: nat, w: string)
    requires d <= |msg|
    requires |w| <= |Trim(msg[d..])| && w == Trim(msg[d..])[..|w|]
    ensures Contains(msg, w)
  {
    var tail := msg[d..];
    var after := Trim(tail);
    ContainsSlice(msg, d, |msg|);
    assert msg[d..|msg|] == tail;
    ContainsTransitive(msg, tail, after);
    ContainsSlice(after, 0, |w|);
    assert after[0..|w|] == w;
    ContainsTransitive(msg, after, w);
  }

  /** What the surface scan finds: whether a trigger occurs, and the keyword after it. */
  datatype Surface = Surface(triggered: bool, keyword: Option<string>)

  /** The surface scan of the lower-cased message: the first trigger in the
      given order decides, and at most one keyword comes out of it. */
  function SurfaceScan(prefixes: seq<string>, msgLower: string): (r: Surface)
    ensures r.triggered <==> exists k :: 0 <= k < |prefixes| && Contains(msgLower, prefixes[k])
    ensures r.keyword.Some? ==> r.triggered
    ensures r.keyword.Some? ==> |r.keyword.value| >= MinKeywordLength && Contains(msgLower, r.keyword.value)
  {
    match Trigger(prefixes, msgLower)
    case None => Surface(false, None)
    case Some(p) => Surface(true, WordAfter(msgLower, p))
  }

  /** The scan is decided by the first trigger: it triggers exactly when
      there is one, and its keyword is then the word after that trigger. */
  lemma SurfaceScanFirstTrigger(prefixes: seq<string>, msgLower: string)
    ensures SurfaceScan(prefixes, msgLower).triggered <==> Trigger(prefixes, msgLower).Some?
    ensures Trigger(prefixes, msgLower).Some? ==>
              SurfaceScan(prefixes, msgLower).keyword == WordAfter(msgLower, Trigger(prefixes, msgLower).value)
  {
  }

  // ------------------------------------------------------------ structural pass

  /** A pair counts only when its lower-cased negation word is a known one. */
  predicate Accepted(known: seq<string>, p: NegatedPair) {
    Lower(p.negativeWord) in known
  }

  function AcceptedBy(known: seq<string>): NegatedPair -> bool {
    (p: NegatedPair) => Accepted(known, p)
  }

  /** Keywords naming a dormitory. */
  predicate MentionsDorm(kw: string) {
    Contains(kw, "หอ")
  }

  /** Keywords naming admissions: the code tests "รับสมัคร" or "สมัคร". */
  predicate MentionsAdmissions(kw: string) {
    Contains(kw, "รับสมัคร") || Contains(kw, "สมัคร")
  }

  /** The domains one accepted keyword rules out. */
  function DomainsOf(kw: string): (r: seq<string>)
    ensures "dorm" in r <==> MentionsDorm(kw)
    ensures "admissions" in r <==> MentionsAdmissions(kw)
    ensures forall k :: 0 <= k < |r| ==> r[k] == "dorm" || r[k] == "admissions"
  {
    (if MentionsDorm(kw) then ["dorm"] else []) + (if MentionsAdmissions(kw) then ["admissions"] else [])
  }

  /** The keyword an accepted pair contributes, when it is long enough. */
  function KeywordOf(p: NegatedPair): (r: seq<string>)
    ensures |r| <= 1
    ensures forall k :: 0 <= k < |r| ==> r[k] == Lower(p.keyword) && |r[k]| >= MinKeywordLength
    ensures |Lower(p.keyword)| >= MinKeywordLength ==> r == [Lower(p.keyword)]
  {
    if |Lower(p.keyword)| >= MinKeywordLength then [Lower(p.keyword)] else []
  }

  /** The loop over `negationAnalysis.negatedKeywords`: every accepted pair
      fires the trigger, contributes its lower-cased keyword when that is long
      enough, and the domains its keyword names. */
  function StructuralPass(known: seq<string>, pairs: seq<NegatedPair>): (r: Finding)
    ensures forall k :: 0 <= k < |r.keywords| ==> |r.keywords[k]| >= MinKeywordLength
    ensures forall k :: 0 <= k < |r.domains| ==> r.domains[k] == "dorm" || r.domains[k] == "admissions"
  {
    if |pairs| == 0 then Finding(false, [], [])
    else
      var rest := StructuralPass(known, pairs[1..]);
      var p := pairs[0];
      if !Accepted(known, p) then rest
      else Finding(true, KeywordOf(p) + rest.keywords, DomainsOf(Lower(p.keyword)) + rest.domains)
  }

  /** Some pair among `pairs` is accepted and satisfies `q`. */
  predicate SomeAccepted(known: seq<string>, pairs: seq<NegatedPair>, q: NegatedPair -> bool) {
    exists j :: 0 <= j < |pairs| && Accepted(known, pairs[j]) && q(pairs[j])
  }

  lemma SomeAcceptedStep(known: seq<string>, pairs: seq<NegatedPair>, q: NegatedPair -> bool)
    requires |pairs| > 0
    ensures SomeAccepted(known, pairs, q) <==>
            (Accepted(known, pairs[0]) && q(pairs[0])) || SomeAccepted(known, pairs[1..], q)
  {
    if SomeAccepted(known, pairs, q) {
      var j :| 0 <= j < |pairs| && Accepted(known, pairs[j]) && q(pairs[j]);
      if j > 0 {
        assert pairs[1..][j - 1] == pairs[j];
      }
    }
    if SomeAccepted(known, pairs[1..], q) {
      var j :| 0 <= j < |pairs[1..]| && Accepted(known, pairs[1..][j]) && q(pairs[1..][j]);
      assert pairs[j + 1] == pairs[1..][j];
    }
  }

  function Always(): NegatedPair -> bool {
    (p: NegatedPair) => true
  }

  function KeywordNamesDorm(): NegatedPair -> bool {
    (p: NegatedPair) => MentionsDorm(Lower(p.keyword))
  }

  function KeywordNamesAdmissions(): NegatedPair -> bool {
    (p: NegatedPair) => MentionsAdmissions(Lower(p.keyword))
  }

  /** The structural pass fires exactly when some pair is accepted, and it
      rules out the dorm and admissions domains exactly when an accepted
      pair's keyword names them. */
  lemma {:induction false} StructuralFires(known: seq<string>, pairs: seq<NegatedPair>)
    ensures StructuralPass(known, pairs).triggered <==> SomeAccepted(known, pairs, Always())
    ensures "dorm" in StructuralPass(known, pairs).domains <==> SomeAccepted(known, pairs, KeywordNamesDorm())
    ensures "admissions" in StructuralPass(known, pairs).domains <==> SomeAccepted(known, pairs, KeywordNamesAdmissions())
    decreases |pairs|
  {
    if |pairs| > 0 {
      StructuralFires(known, pairs[1..]);
      SomeAcceptedStep(known, pairs, Always());
      SomeAcceptedStep(known, pairs, KeywordNamesDorm());
      SomeAcceptedStep(known, pairs, KeywordNamesAdmissions());
    }
  }

  /** The keywords of the structural pass are exactly the long-enough
      lower-cased keywords of the accepted pairs. */
  lemma {:induction false} StructuralKeywords(known: seq<string>, pairs: seq<NegatedPair>, w: string)
    ensures w in StructuralPass(known, pairs).keywords <==>
            |w| >= MinKeywordLength && SomeAccepted(known, pairs, KeywordIs(w))
    decreases |pairs|
  {
    if |pairs| > 0 {
      StructuralKeywords(known, pairs[1..], w);
      SomeAcceptedStep(known, pairs, KeywordIs(w));
    }
  }

  function KeywordIs(w: string): NegatedPair -> bool {
    (p: NegatedPair) => Lower(p.keyword) == w
  }

  /** Pairs whose negation word is unknown contribute nothing: the pass over
      all pairs equals the pass over the accepted ones. */
  lemma {:induction false} UnknownPairsAddNothing(known: seq<string>, pairs: seq<NegatedPair>)
    ensures StructuralPass(known, pairs) == StructuralPass(known, Filter(pairs, AcceptedBy(known)))
    decreases |pairs|
  {
    if |pairs| > 0 {
      UnknownPairsAddNothing(known, pairs[1..]);
      var kept := Filter(pairs, AcceptedBy(known));
      if Accepted(known, pairs[0]) {
        assert kept == [pairs[0]] + Filter(pairs[1..], AcceptedBy(known));
        assert kept[1..] == Filter(pairs[1..], AcceptedBy(known));
      } else {
        assert kept == Filter(pairs[1..], AcceptedBy(known));
      }
    }
  }

  /** "รับสมัคร" contains "สมัคร", so the admissions test is containment of "สมัคร". */
  lemma AdmissionsIsSamak(kw: string)
    ensures MentionsAdmissions(kw) <==> Contains(kw, "สมัคร")
  {
    if Contains(kw, "รับสมัคร") {
      assert OccursAt("รับสมัคร", "สมัคร", 3);
      ContainsTransitive(kw, "รับสมัคร", "สมัคร");
    }
  }

  // ------------------------------------------------------------ both passes

  /** Merging the keywords: `[...new Set(list)].filter((k) => k && k.length >= 2)`. */
  function LongEnough(): string -> bool {
    (k: string) => |k| >= MinKeywordLength
  }

  /** `[...new Set(list)].filter((k) => k && k.length >= 2)`: the long
      enough keywords of the list, each once, in the order they first occur. */
  function MergeKeywords(list: seq<string>): (r: seq<string>)
    ensures NoDup(r)
    ensures forall k :: 0 <= k < |r| ==> |r[k]| >= MinKeywordLength
    ensures forall w :: w in r <==> w in list && |w| >= MinKeywordLength
  {
    var unique := Dedup(list);
    FilterNoDup(unique, LongEnough());
    var r := Filter(unique, LongEnough());
    forall w | w in list && |w| >= MinKeywordLength
      ensures w in r
    {
      var i :| 0 <= i < |unique| && unique[i] == w;
      assert LongEnough()(unique[i]);
    }
    r
  }

  /** The merged keywords come in the order they first occur in the list. */
  lemma MergeKeywordsInFirstOrder(list: seq<string>)
    ensures InFirstOrder(MergeKeywords(list), list)
  {
    DedupInFirstOrder(list);
    FilterInFirstOrder(Dedup(list), list, LongEnough());
  }

  /** `negatedKeywordsFromMessage`: the surface keyword, then the structural ones. */
  function Collected(surface: Surface, structural: Finding): (r: seq<string>)
    ensures forall w :: w in r <==> surface.keyword == Some(w) || w in structural.keywords
  {
    (if surface.keyword.Some? then [surface.keyword.value] else []) + structural.keywords
  }

  /** The surface scan as the handler runs it: the known negation words
      longest first, against the lower-cased message. */
  function SurfaceOf(keys: seq<string>, message: string): Surface {
    SurfaceScan(ByLength(keys), Lower(message))
  }

  /** The known negation words, longest first. */
  function ByLength(keys: seq<string>): seq<string> {
    Sorting.SortDesc(NegationWords(keys), Normalizer.LengthKey)
  }

  /** The structural pass as the handler runs it: only when the analysis
      reports a negation at all. */
  function StructuralOf(keys: seq<string>, analysis: NegationAnalysis): Finding {
    if analysis.hasNegation then StructuralPass(NegationWords(keys), analysis.negatedKeywords)
    else Finding(false, [], [])
  }

  /** The negation stage of the handler on a message and the analysis of it:
      the trigger fires when either pass fires; the keywords are those of
      both passes that are at least two code points long, each once; the
      domains are those of the structural pass. */
  function Detect(keys: seq<string>, message: string, analysis: NegationAnalysis): (r: Finding)
    ensures NoDup(r.keywords)
    ensures forall k :: 0 <= k < |r.keywords| ==> |r.keywords[k]| >= MinKeywordLength
    ensures forall w :: w in r.keywords <==>
              |w| >= MinKeywordLength
              && (SurfaceOf(keys, message).keyword == Some(w) || w in StructuralOf(keys, analysis).keywords)
    ensures r.triggered <==> SurfaceOf(keys, message).triggered || StructuralOf(keys, analysis).triggered
    ensures r.domains == StructuralOf(keys, analysis).domains
  {
    Merge(SurfaceOf(keys, message), StructuralOf(keys, analysis))
  }

  /** The findings of the two passes put together, as the handler reads them
      after both have run. */
  function Merge(surface: Surface, structural: Finding): (r: Finding)
    ensures NoDup(r.keywords)
    ensures forall k :: 0 <= k < |r.keywords| ==> |r.keywords[k]| >= MinKeywordLength
    ensures forall w :: w in r.keywords <==>
              |w| >= MinKeywordLength && (surface.keyword == Some(w) || w in structural.keywords)
    ensures r.triggered <==> surface.triggered || structural.triggered
    ensures r.domains == structural.domains
  {
    Finding(surface.triggered || structural.triggered, MergeKeywords(Collected(surface, structural)), structural.domains)
  }
}
