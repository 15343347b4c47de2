/**
 * The lexical normalizer of the chat answer endpoint (`normalize`,
 * `refineTokens` and `resolveSynonyms` in services/chat/respond.js):
 * raw text becomes a list of content tokens with stopwords removed or used
 * as split points, duplicates dropped and synonyms mapped to their canonical
 * keyword. The data sources it reads (the stopword set, the synonym table,
 * the external tokenizer service) are fields of a `Lexicon` value instead of
 * module-level globals.
 */
module Normalizer {
  import opened Options
  import opened Strings
  import Sorting

  /** The Unicode general categories the cleaning regexes test:
      `\p{P}\p{S}` (punctuation and symbols), `\p{L}` (letters), `\p{N}` (numbers). */
  datatype CharClasses = CharClasses(
    isPunctOrSymbol: char -> bool,
    isLetter: char -> bool,
    isNumber: char -> bool)

  /** Letters and numbers are disjoint classes, and a space is neither. */
  predicate WellFormed(cc: CharClasses) {
    && (forall c :: !(cc.isLetter(c) && cc.isNumber(c)))
    && !cc.isLetter(' ') && !cc.isNumber(' ')
  }

  /** Everything `normalize` reads besides its text argument.
      `stopwords` is the stopword set in its iteration order, or `None` when
      loading it fails; `tokenizer` is the word-segmentation service, which
      answers `None` on a network error, a timeout or a malformed reply. */
  datatype Lexicon = Lexicon(
    stopwords: Option<seq<string>>,
    synonyms: map<string, string>,
    tokenizer: string -> Option<seq<string>>,
    classes: CharClasses)

  // ------------------------------------------------------------ text cleaning

  /** Every punctuation or symbol code point replaced by a space. */
  function Blank(s: string, isPunctOrSymbol: char -> bool): (r: string)
    ensures |r| == |s|
    ensures forall k :: 0 <= k < |r| ==> !isPunctOrSymbol(r[k]) || r[k] == ' '
    ensures forall k :: 0 <= k < |s| && isPunctOrSymbol(s[k]) ==> r[k] == ' '
    ensures forall k :: 0 <= k < |s| && !isPunctOrSymbol(s[k]) ==> r[k] == s[k]
  {
    seq(|s|, k requires 0 <= k < |s| => if isPunctOrSymbol(s[k]) then ' ' else s[k])
  }

  /** No adjacent pair of `s` has its first code point in class `p` and its
      second in class `q`. */
  predicate NoPair(s: string, p: char -> bool, q: char -> bool) {
    forall k :: 0 <= k < |s| - 1 ==> !(p(s[k]) && q(s[k + 1]))
  }

  /** The text with its spaces (U+0020) dropped. */
  function Unspaced(s: string): string {
    if |s| == 0 then "" else (if s[0] == ' ' then "" else [s[0]]) + Unspaced(s[1..])
  }

  lemma UnspacedCons(c: char, t: string)
    ensures Unspaced([c] + t) == (if c == ' ' then "" else [c]) + Unspaced(t)
  {
    assert ([c] + t)[1..] == t;
  }

  lemma {:induction false} UnspacedAppend(a: string, b: string)
    ensures Unspaced(a + b) == Unspaced(a) + Unspaced(b)
    decreases |a|
  {
    if |a| > 0 {
      UnspacedAppend(a[1..], b);
      UnspacedAfterFirst(a, b);
    } else {
      assert a + b == b;
    }
  }

  lemma {:induction false} UnspacedAfterFirst(a: string, b: string)
    requires |a| > 0
    requires Unspaced(a[1..] + b) == Unspaced(a[1..]) + Unspaced(b)
    ensures Unspaced(a + b) == Unspaced(a) + Unspaced(b)
  {
    TailOfAppend(a, b);
    UnspacedStep(a + b);
    UnspacedStep(a);
    Regroup(if a[0] == ' ' then "" else [a[0]], Unspaced(a[1..]), Unspaced(b));
  }

  lemma {:induction false} UnspacedStep(s: string)
    requires |s| > 0
    ensures Unspaced(s) == (if s[0] == ' ' then "" else [s[0]]) + Unspaced(s[1..])
  {
  }

  /** A space between two other code points disappears once spaces are dropped. */
  lemma UnspacedGap(c: char, d: char)
    requires c != ' ' && d != ' '
    ensures Unspaced([c, ' ', d]) == Unspaced([c, d])
  {
    assert [c, ' ', d] == [c] + ([' '] + [d]);
    assert [c, d] == [c] + [d];
    UnspacedCons(c, [' '] + [d]);
    UnspacedCons(' ', [d]);
    UnspacedCons(c, [d]);
  }

  /** `s.replace(/(P)(Q)/gu, '$1 $2')`: a space inserted between every adjacent
      pair whose first code point is in class P and second in class Q. */
  function SpaceBetween(s: string, p: char -> bool, q: char -> bool): (r: string)
    requires forall c :: !(p(c) && q(c))
    requires !p(' ') && !q(' ')
    ensures |r| >= |s|
    ensures |s| > 0 ==> |r| > 0 && r[0] == s[0]
    ensures NoPair(r, p, q)
  {
    if |s| < 2 then s
    else if p(s[0]) && q(s[1]) then
      var rest := SpaceBetween(s[2..], p, q);
      var r := [s[0], ' ', s[1]] + rest;
      assert forall k :: 3 <= k < |r| ==> r[k] == rest[k - 3];
      r
    else
      var rest := SpaceBetween(s[1..], p, q);
      var r := [s[0]] + rest;
      assert forall k :: 1 <= k < |r| ==> r[k] == rest[k - 1];
      r
  }

  /** Only spaces are inserted: with the spaces dropped the text is unchanged,
      and every code point of the result is a space or one of the text's. */
  lemma {:induction false} SpaceBetweenOnlySpaces(s: string, p: char -> bool, q: char -> bool)
    requires forall c :: !(p(c) && q(c))
    requires !p(' ') && !q(' ')
    ensures Unspaced(SpaceBetween(s, p, q)) == Unspaced(s)
    ensures forall k :: 0 <= k < |SpaceBetween(s, p, q)| ==> SpaceBetween(s, p, q)[k] == ' ' || SpaceBetween(s, p, q)[k] in s
    decreases |s|
  {
    if |s| >= 2 {
      if p(s[0]) && q(s[1]) {
        SpaceBetweenOnlySpaces(s[2..], p, q);
        OnlySpacesAfterPair(s, p, q);
      } else {
        SpaceBetweenOnlySpaces(s[1..], p, q);
        OnlySpacesAfterOne(s, p, q);
      }
    }
  }

  lemma {:induction false} OnlySpacesAfterPair(s: string, p: char -> bool, q: char -> bool)
    requires forall c :: !(p(c) && q(c))
    requires !p(' ') && !q(' ')
    requires |s| >= 2 && p(s[0]) && q(s[1])
    requires Unspaced(SpaceBetween(s[2..], p, q)) == Unspaced(s[2..])
    requires forall k :: 0 <= k < |SpaceBetween(s[2..], p, q)| ==> SpaceBetween(s[2..], p, q)[k] == ' ' || SpaceBetween(s[2..], p, q)[k] in s[2..]
    ensures Unspaced(SpaceBetween(s, p, q)) == Unspaced(s)
    ensures forall k :: 0 <= k < |SpaceBetween(s, p, q)| ==> SpaceBetween(s, p, q)[k] == ' ' || SpaceBetween(s, p, q)[k] in s
  {
    var rest := SpaceBetween(s[2..], p, q);
    SpaceBetweenPairStep(s, p, q);
    UnspacedAppend([s[0], ' ', s[1]], rest);
    TakeTwo(s);
    UnspacedAppend([s[0], s[1]], s[2..]);
    UnspacedGap(s[0], s[1]);
    FromSpacesAndText(s, [s[0], ' ', s[1]], rest, 2);
  }

  lemma {:induction false} OnlySpacesAfterOne(s: string, p: char -> bool, q: char -> bool)
    requires forall c :: !(p(c) && q(c))
    requires !p(' ') && !q(' ')
    requires |s| >= 2 && !(p(s[0]) && q(s[1]))
    requires Unspaced(SpaceBetween(s[1..], p, q)) == Unspaced(s[1..])
    requires forall k :: 0 <= k < |SpaceBetween(s[1..], p, q)| ==> SpaceBetween(s[1..], p, q)[k] == ' ' || SpaceBetween(s[1..], p, q)[k] in s[1..]
    ensures Unspaced(SpaceBetween(s, p, q)) == Unspaced(s)
    ensures forall k :: 0 <= k < |SpaceBetween(s, p, q)| ==> SpaceBetween(s, p, q)[k] == ' ' || SpaceBetween(s, p, q)[k] in s
  {
    var rest := SpaceBetween(s[1..], p, q);
    SpaceBetweenOneStep(s, p, q);
    UnspacedAppend([s[0]], rest);
    ConsSplit(s);
    UnspacedAppend([s[0]], s[1..]);
    FromSpacesAndText(s, [s[0]], rest, 1);
  }

  /** A head of spaces and code points of `s`, followed by spaces and code
      points of a suffix of `s`, holds only spaces and code points of `s`. */
  lemma FromSpacesAndText(s: string, h: string, rest: string, n: nat)
    requires n <= |s|
    requires forall k :: 0 <= k < |h| ==> h[k] == ' ' || h[k] in s
    requires forall k :: 0 <= k < |rest| ==> rest[k] == ' ' || rest[k] in s[n..]
    ensures forall k :: 0 <= k < |h + rest| ==> (h + rest)[k] == ' ' || (h + rest)[k] in s
  {
    forall k | 0 <= k < |h + rest|
      ensures (h + rest)[k] == ' ' || (h + rest)[k] in s
    {
      if k >= |h| {
        assert (h + rest)[k] == rest[k - |h|];
      }
    }
  }

  /** A text without a P-Q pair is left as it is. */
  lemma {:induction false} SpaceBetweenIdentity(s: string, p: char -> bool, q: char -> bool)
    requires forall c :: !(p(c) && q(c))
    requires !p(' ') && !q(' ')
    requires NoPair(s, p, q)
    ensures SpaceBetween(s, p, q) == s
    decreases |s|
  {
    if |s| >= 2 {
      assert forall k :: 0 <= k < |s| - 1 ==> s[1..][k] == s[k + 1];
      SpaceBetweenIdentity(s[1..], p, q);
      assert s == [s[0]] + s[1..];
    }
  }

  /** The space the P-Q separation puts where `a` meets `b`: one exactly when
      `a` ends in class P and `b` starts in class Q. */
  function Seam(a: string, b: string, p: char -> bool, q: char -> bool): string {
    if |a| > 0 && |b| > 0 && p(a[|a| - 1]) && q(b[0]) then " " else ""
  }

  /** The separation works pair by pair: separating a concatenation separates
      each part and puts a space at the seam exactly when a P-Q pair meets
      there. With `SpaceBetweenIdentity` on single code points this fixes
      where every space goes. */
  lemma {:induction false} SpaceBetweenAppend(a: string, b: string, p: char -> bool, q: char -> bool)
    requires forall c :: !(p(c) && q(c))
    requires !p(' ') && !q(' ')
    ensures SpaceBetween(a + b, p, q) == SpaceBetween(a, p, q) + Seam(a, b, p, q) + SpaceBetween(b, p, q)
    decreases |a|
  {
    if |a| == 0 {
      assert a + b == b;
    } else if |b| == 0 {
      assert a + b == a;
    } else if |a| == 1 {
      AppendSingle(a, b, p, q);
    } else if p(a[0]) && q(a[1]) {
      SpaceBetweenAppend(a[2..], b, p, q);
      AppendAfterPair(a, b, p, q);
    } else {
      SpaceBetweenAppend(a[1..], b, p, q);
      AppendAfterOne(a, b, p, q);
    }
  }

  lemma {:induction false} AppendSingle(a: string, b: string, p: char -> bool, q: char -> bool)
    requires forall c :: !(p(c) && q(c))
    requires !p(' ') && !q(' ')
    requires |a| == 1 && |b| > 0
    ensures SpaceBetween(a + b, p, q) == SpaceBetween(a, p, q) + Seam(a, b, p, q) + SpaceBetween(b, p, q)
  {
    var ab := a + b;
    assert SpaceBetween(a, p, q) == a;
    if p(a[0]) && q(b[0]) {
      SpaceBetweenPairStep(ab, p, q);
      assert ab[2..] == b[1..];
      if |b| >= 2 {
        SpaceBetweenOneStep(b, p, q);
      }
    } else {
      SpaceBetweenOneStep(ab, p, q);
      assert ab[1..] == b;
    }
  }

  lemma {:induction false} AppendAfterPair(a: string, b: string, p: char -> bool, q: char -> bool)
    requires forall c :: !(p(c) && q(c))
    requires !p(' ') && !q(' ')
    requires |a| >= 2 && |b| > 0 && p(a[0]) && q(a[1])
    requires SpaceBetween(a[2..] + b, p, q) == SpaceBetween(a[2..], p, q) + Seam(a[2..], b, p, q) + SpaceBetween(b, p, q)
    ensures SpaceBetween(a + b, p, q) == SpaceBetween(a, p, q) + Seam(a, b, p, q) + SpaceBetween(b, p, q)
  {
    AppendTail(a, b, 2, p, q);
    SpaceBetweenPairStep(a + b, p, q);
    SpaceBetweenPairStep(a, p, q);
    AppendRegroup([a[0], ' ', a[1]], SpaceBetween(a[2..], p, q), Seam(a, b, p, q), SpaceBetween(b, p, q));
  }

  lemma {:induction false} AppendAfterOne(a: string, b: string, p: char -> bool, q: char -> bool)
    requires forall c :: !(p(c) && q(c))
    requires !p(' ') && !q(' ')
    requires |a| >= 2 && |b| > 0 && !(p(a[0]) && q(a[1]))
    requires SpaceBetween(a[1..] + b, p, q) == SpaceBetween(a[1..], p, q) + Seam(a[1..], b, p, q) + SpaceBetween(b, p, q)
    ensures SpaceBetween(a + b, p, q) == SpaceBetween(a, p, q) + Seam(a, b, p, q) + SpaceBetween(b, p, q)
  {
    AppendTail(a, b, 1, p, q);
    SpaceBetweenOneStep(a + b, p, q);
    SpaceBetweenOneStep(a, p, q);
    AppendRegroup([a[0]], SpaceBetween(a[1..], p, q), Seam(a, b, p, q), SpaceBetween(b, p, q));
  }

  /** The induction hypothesis for the rest of `a` after its first `n` code
      points, restated for the rest of `a + b`. For `n == 2` the first two
      code points form a P-Q pair, so the seam is empty when nothing is left. */
  lemma {:induction false} AppendTail(a: string, b: string, n: nat, p: char -> bool, q: char -> bool)
    requires forall c :: !(p(c) && q(c))
    requires !p(' ') && !q(' ')
    requires 1 <= n <= 2 && n <= |a| && |b| > 0
    requires n == |a| ==> n == 2 && q(a[1])
    requires SpaceBetween(a[n..] + b, p, q) == SpaceBetween(a[n..], p, q) + Seam(a[n..], b, p, q) + SpaceBetween(b, p, q)
    ensures SpaceBetween((a + b)[n..], p, q) == SpaceBetween(a[n..], p, q) + Seam(a, b, p, q) + SpaceBetween(b, p, q)
  {
    DropOfAppend(a, b, n);
    SeamPast(a, b, n, p, q);
  }

  /** Dropping a prefix of `a` leaves the seam with `b` as it is, unless it
      drops the end of `a`, which then cannot start a pair. */
  lemma SeamPast(a: string, b: string, n: nat, p: char -> bool, q: char -> bool)
    requires forall c :: !(p(c) && q(c))
    requires 1 <= n <= |a|
    requires n == |a| ==> q(a[n - 1])
    ensures Seam(a[n..], b, p, q) == Seam(a, b, p, q)
  {
    if n < |a| {
      assert a[n..][|a[n..]| - 1] == a[|a| - 1];
    } else {
      assert !p(a[|a| - 1]);
    }
  }

  lemma AppendRegroup(h: string, x: string, seam: string, y: string)
    ensures h + (x + seam + y) == h + x + seam + y
  {
  }

  /** One step of the separation at a P-Q pair. */
  lemma {:induction false} SpaceBetweenPairStep(s: string, p: char -> bool, q: char -> bool)
    requires forall c :: !(p(c) && q(c))
    requires !p(' ') && !q(' ')
    requires |s| >= 2 && p(s[0]) && q(s[1])
    ensures SpaceBetween(s, p, q) == [s[0], ' ', s[1]] + SpaceBetween(s[2..], p, q)
  {
  }

  /** One step of the separation where no P-Q pair starts. */
  lemma {:induction false} SpaceBetweenOneStep(s: string, p: char -> bool, q: char -> bool)
    requires forall c :: !(p(c) && q(c))
    requires !p(' ') && !q(' ')
    requires |s| >= 2 && !(p(s[0]) && q(s[1]))
    ensures SpaceBetween(s, p, q) == [s[0]] + SpaceBetween(s[1..], p, q)
  {
  }

  /** Inserting spaces between P-Q pairs creates no pair of two other classes
      that exclude the space. */
  lemma {:induction false} SpaceBetweenKeepsNoPair(s: string, p: char -> bool, q: char -> bool,
                                                   a: char -> bool, b: char -> bool)
    requires forall c :: !(p(c) && q(c))
    requires !p(' ') && !q(' ') && !a(' ') && !b(' ')
    requires NoPair(s, a, b)
    ensures NoPair(SpaceBetween(s, p, q), a, b)
    decreases |s|
  {
    if |s| >= 2 {
      var r := SpaceBetween(s, p, q);
      if p(s[0]) && q(s[1]) {
        assert forall k :: 0 <= k < |s| - 2 ==> s[2..][k] == s[k + 2];
        SpaceBetweenKeepsNoPair(s[2..], p, q, a, b);
        var rest := SpaceBetween(s[2..], p, q);
        assert r == [s[0], ' ', s[1]] + rest;
        assert forall k :: 3 <= k < |r| ==> r[k] == rest[k - 3];
      } else {
        assert forall k :: 0 <= k < |s| - 1 ==> s[1..][k] == s[k + 1];
        SpaceBetweenKeepsNoPair(s[1..], p, q, a, b);
        var rest := SpaceBetween(s[1..], p, q);
        assert r == [s[0]] + rest;
        assert forall k :: 1 <= k < |r| ==> r[k] == rest[k - 1];
      }
    }
  }

  /** The cleaning that precedes tokenization: lower-case, trim, blank out
      punctuation and symbols, and separate letters from digits
      (so that "room3" becomes "room 3"). Afterwards no letter touches a
      following number and no number a following letter, and no punctuation
      or symbol is left. */
  function Clean(text: string, cc: CharClasses): (r: string)
    requires WellFormed(cc)
    ensures NoPair(r, cc.isNumber, cc.isLetter)
    ensures NoPair(r, cc.isLetter, cc.isNumber)
    ensures forall k :: 0 <= k < |r| ==> !cc.isPunctOrSymbol(r[k]) || r[k] == ' '
  {
    var cleaned := Blank(Trim(Lower(text)), cc.isPunctOrSymbol);
    var inner := SpaceBetween(cleaned, cc.isLetter, cc.isNumber);
    SpaceBetweenKeepsNoPair(inner, cc.isNumber, cc.isLetter, cc.isLetter, cc.isNumber);
    SpaceBetweenOnlySpaces(cleaned, cc.isLetter, cc.isNumber);
    SpaceBetweenOnlySpaces(inner, cc.isNumber, cc.isLetter);
    SpaceBetween(inner, cc.isNumber, cc.isLetter)
  }

  /** A blanked text in which no letter touches a number either way round
      needs no separation: cleaning inserts nothing. */
  lemma CleanIdentity(text: string, cc: CharClasses)
    requires WellFormed(cc)
    requires NoPair(Blank(Trim(Lower(text)), cc.isPunctOrSymbol), cc.isLetter, cc.isNumber)
    requires NoPair(Blank(Trim(Lower(text)), cc.isPunctOrSymbol), cc.isNumber, cc.isLetter)
    ensures Clean(text, cc) == Blank(Trim(Lower(text)), cc.isPunctOrSymbol)
  {
    var cleaned := Blank(Trim(Lower(text)), cc.isPunctOrSymbol);
    SpaceBetweenIdentity(cleaned, cc.isLetter, cc.isNumber);
    SpaceBetweenIdentity(cleaned, cc.isNumber, cc.isLetter);
  }

  /** Cleaning changes a text only by lower-casing, trimming, blanking and
      inserting spaces: with the spaces dropped, it is the blanked text. */
  lemma CleanOnlyAddsSpaces(text: string, cc: CharClasses)
    requires WellFormed(cc)
    ensures Unspaced(Clean(text, cc)) == Unspaced(Blank(Trim(Lower(text)), cc.isPunctOrSymbol))
  {
    var cleaned := Blank(Trim(Lower(text)), cc.isPunctOrSymbol);
    var inner := SpaceBetween(cleaned, cc.isLetter, cc.isNumber);
    SpaceBetweenOnlySpaces(cleaned, cc.isLetter, cc.isNumber);
    SpaceBetweenOnlySpaces(inner, cc.isNumber, cc.isLetter);
  }

  // ------------------------------------------------------------ refinement

  /** A token the refinement pass may emit: non-empty, not a stopword, and
      free of every non-empty stopword. */
  predicate Emittable(tok: string, stop: set<string>) {
    && tok != ""
    && tok !in stop
    && forall sw :: sw in stop && sw != "" ==> !Contains(tok, sw)
  }

  /** `x` is a piece of one of the `origin` tokens. */
  predicate FromSome(x: string, origin: seq<string>) {
    exists t :: t in origin && Contains(t, x)
  }

  lemma FromSomeNarrows(x: string, y: string, origin: seq<string>)
    requires FromSome(x, origin) && Contains(x, y)
    ensures FromSome(y, origin)
  {
    var t :| t in origin && Contains(t, x);
    ContainsTransitive(t, x, y);
  }

  function LengthKey(w: string): real {
    |w| as real
  }

  /** Whether `sw` may split `tok`: the test of the inner loop of `refineTokens`. */
  predicate SplitsOn(tok: string, sw: string) {
    sw != "" && Contains(tok, sw) && tok != sw
  }

  /** The first stopword, in the given order, that splits `tok`. */
  function Splitter(sorted: seq<string>, tok: string): (r: Option<string>)
    ensures r.Some? ==> SplitsOn(tok, r.value)
    ensures r.Some? ==> exists i :: 0 <= i < |sorted| && sorted[i] == r.value
                          && forall j :: 0 <= j < i ==> !SplitsOn(tok, sorted[j])
    ensures r.None? ==> forall k :: 0 <= k < |sorted| ==> !SplitsOn(tok, sorted[k])
  {
    if |sorted| == 0 then None
    else if SplitsOn(tok, sorted[0]) then Some(sorted[0])
    else
      var r := Splitter(sorted[1..], tok);
      assert forall k :: 1 <= k < |sorted| ==> sorted[k] == sorted[1..][k - 1];
      r
  }

  /** With the stopwords sorted longest first, the splitter chosen is at least
      as long as every other stopword that could split the token. */
  lemma {:induction false} SplitterIsLongest(sorted: seq<string>, tok: string, sw: string)
    requires Sorting.SortedDesc(sorted, LengthKey)
    requires sw in sorted && SplitsOn(tok, sw)
    ensures Splitter(sorted, tok).Some?
    ensures |sw| <= |Splitter(sorted, tok).value|
  {
    var r := Splitter(sorted, tok);
    var k :| 0 <= k < |sorted| && sorted[k] == sw;
    assert r.Some?;
    var i :| 0 <= i < |sorted| && sorted[i] == r.value
             && forall j :: 0 <= j < i ==> !SplitsOn(tok, sorted[j]);
    assert i <= k;
    if i < k {
      assert LengthKey(sorted[i]) >= LengthKey(sorted[k]);
    }
  }

  function TrimAll(parts: seq<string>): (r: seq<string>)
    ensures |r| == |parts|
    ensures forall k :: 0 <= k < |r| ==> r[k] == Trim(parts[k])
  {
    seq(|parts|, k requires 0 <= k < |parts| => Trim(parts[k]))
  }

  /** `tok.split(sw).map((p) => p.trim()).filter(Boolean)`: the pieces are the
      non-empty trimmed parts of splitting `tok` at `sw`, so none contains `sw`. */
  function Pieces(tok: string, sw: string): (r: seq<string>)
    requires sw != ""
    ensures forall k :: 0 <= k < |r| ==> r[k] != "" && Contains(tok, r[k]) && !Contains(r[k], sw)
    ensures forall k :: 0 <= k < |r| ==> r[k] in TrimAll(Split(tok, sw))
    ensures forall k :: 0 <= k < |Split(tok, sw)| && Trim(Split(tok, sw)[k]) != "" ==> Trim(Split(tok, sw)[k]) in r
  {
    var parts := Split(tok, sw);
    var trimmed := TrimAll(parts);
    SplitNoSep(tok, sw);
    forall k | 0 <= k < |trimmed|
      ensures Contains(tok, trimmed[k]) && !Contains(trimmed[k], sw)
    {
      ContainsTransitive(tok, parts[k], trimmed[k]);
      if Contains(trimmed[k], sw) {
        ContainsTransitive(parts[k], trimmed[k], sw);
      }
    }
    Filter(trimmed, NonEmpty)
  }

  predicate NonEmpty(p: string) {
    p != ""
  }

  /** The number of queue items `refineTokens` processes: its guard
      `loopCount++ > 1000` first fires on the 1002nd item. */
  const RefineIterations: nat := 1001

  /** Every queued token is a piece of an input token. */
  predicate QueueFromOrigin(queue: seq<string>, origin: seq<string>) {
    forall k :: 0 <= k < |queue| ==> FromSome(queue[k], origin)
  }

  /** What `refineTokens` promises of its output. */
  predicate RefinedTokens(r: seq<string>, stop: set<string>, origin: seq<string>) {
    && (forall k :: 0 <= k < |r| ==> Emittable(r[k], stop) && FromSome(r[k], origin))
    && NoDup(r)
  }

  /** The loop invariant on the emitted tokens: refined, and all already seen. */
  predicate ResultInvariant(result: seq<string>, stop: set<string>, origin: seq<string>, seen: set<string>) {
    && RefinedTokens(result, stop, origin)
    && forall k :: 0 <= k < |result| ==> result[k] in seen
  }

  lemma QueueTail(queue: seq<string>, origin: seq<string>)
    requires |queue| > 0 && QueueFromOrigin(queue, origin)
    ensures FromSome(queue[0], origin) && QueueFromOrigin(queue[1..], origin)
  {
    assert forall k :: 0 <= k < |queue| - 1 ==> queue[1..][k] == queue[k + 1];
  }

  lemma QueuePrepend(pieces: seq<string>, rest: seq<string>, origin: seq<string>)
    requires QueueFromOrigin(pieces, origin) && QueueFromOrigin(rest, origin)
    ensures QueueFromOrigin(pieces + rest, origin)
  {
    var next := pieces + rest;
    assert forall k :: |pieces| <= k < |next| ==> next[k] == rest[k - |pieces|];
  }

  lemma ResultSee(result: seq<string>, stop: set<string>, origin: seq<string>, seen: set<string>, tok: string)
    requires ResultInvariant(result, stop, origin, seen)
    ensures ResultInvariant(result, stop, origin, seen + {tok})
  {
  }

  lemma ResultEmit(result: seq<string>, stop: set<string>, origin: seq<string>, seen: set<string>, tok: string)
    requires ResultInvariant(result, stop, origin, seen)
    requires Emittable(tok, stop) && FromSome(tok, origin) && tok !in seen
    ensures ResultInvariant(result + [tok], stop, origin, seen + {tok})
  {
    var next := result + [tok];
    assert forall k :: 0 <= k < |result| ==> next[k] == result[k];
    assert next[|result|] == tok;
  }

  lemma PiecesFromOrigin(tok: string, sw: string, origin: seq<string>)
    requires sw != "" && FromSome(tok, origin)
    ensures QueueFromOrigin(Pieces(tok, sw), origin)
  {
    var pieces := Pieces(tok, sw);
    forall k | 0 <= k < |pieces|
      ensures FromSome(pieces[k], origin)
    {
      FromSomeNarrows(tok, pieces[k], origin);
    }
  }

  /** A token that no stopword splits, that is not a stopword and is not empty,
      is emittable, provided every stopword is among those tried. */
  lemma UnsplitIsEmittable(sorted: seq<string>, stop: set<string>, tok: string)
    requires forall sw :: sw in stop ==> sw in sorted
    requires tok != "" && tok !in stop && Splitter(sorted, tok).None?
    ensures Emittable(tok, stop)
  {
    forall sw | sw in stop && sw != ""
      ensures !Contains(tok, sw)
    {
      var i :| 0 <= i < |sorted| && sorted[i] == sw;
      assert !SplitsOn(tok, sorted[i]);
    }
  }

  /** The work-queue loop of `refineTokens`: `queue` is what is left to look at,
      `seen` the tokens already taken off the queue, `result` what has been
      emitted, and `fuel` the iterations the guard still allows. The loop
      keeps its invariant, so whatever it emits is refined; each iteration
      emits at most one token. */
  function RefineLoop(sorted: seq<string>, stop: set<string>, ghost origin: seq<string>,
                      queue: seq<string>, seen: set<string>, result: seq<string>,
                      fuel: nat): (r: seq<string>)
    requires forall sw :: sw in stop ==> sw in sorted
    requires QueueFromOrigin(queue, origin)
    requires ResultInvariant(result, stop, origin, seen)
    ensures RefinedTokens(r, stop, origin)
    ensures |result| <= |r| <= |result| + fuel
    ensures forall k :: 0 <= k < |result| ==> r[k] == result[k]
    decreases fuel, 0
  {
    if |queue| == 0 || fuel == 0 then result
    else
      var tok := Trim(queue[0]);
      QueueTail(queue, origin);
      FromSomeNarrows(queue[0], tok, origin);
      if tok == "" || tok in seen then
        RefineLoop(sorted, stop, origin, queue[1..], seen, result, fuel - 1)
      else
        RefineTake(sorted, stop, origin, tok, queue[1..], seen, result, fuel - 1)
  }

  /** One iteration of the loop on a trimmed token `tok` not seen before:
      a stopword is dropped, a token some stopword splits is replaced by its
      pieces, and any other token is emitted. */
  function RefineTake(sorted: seq<string>, stop: set<string>, ghost origin: seq<string>,
                      tok: string, rest: seq<string>, seen: set<string>, result: seq<string>,
                      fuel: nat): (r: seq<string>)
    requires forall sw :: sw in stop ==> sw in sorted
    requires tok != "" && tok !in seen && FromSome(tok, origin)
    requires QueueFromOrigin(rest, origin)
    requires ResultInvariant(result, stop, origin, seen)
    ensures RefinedTokens(r, stop, origin)
    ensures |result| <= |r| <= |result| + fuel + 1
    ensures forall k :: 0 <= k < |result| ==> r[k] == result[k]
    decreases fuel, 1
  {
    if tok in stop then
      ResultSee(result, stop, origin, seen, tok);
      RefineLoop(sorted, stop, origin, rest, seen + {tok}, result, fuel)
    else
      match Splitter(sorted, tok)
      case Some(sw) =>
        PiecesFromOrigin(tok, sw, origin);
        QueuePrepend(Pieces(tok, sw), rest, origin);
        ResultSee(result, stop, origin, seen, tok);
        RefineLoop(sorted, stop, origin, Pieces(tok, sw) + rest, seen + {tok}, result, fuel)
      case None =>
        UnsplitIsEmittable(sorted, stop, tok);
        ResultEmit(result, stop, origin, seen, tok);
        RefineLoop(sorted, stop, origin, rest, seen + {tok}, result + [tok], fuel)
  }

  lemma OriginCoversItself(tokens: seq<string>)
    ensures QueueFromOrigin(tokens, tokens)
  {
    forall k | 0 <= k < |tokens|
      ensures FromSome(tokens[k], tokens)
    {
      ContainsSlice(tokens[k], 0, |tokens[k]|);
      assert tokens[k][0..|tokens[k]|] == tokens[k];
    }
  }

  /** `refineTokens`: the stopwords are tried longest first. Every token it
      emits is non-empty, is no stopword, contains no non-empty stopword, is a
      piece of one of the input tokens, and is emitted once; the iteration
      guard lets no more than `RefineIterations` tokens out. */
  function Refine(stopwords: seq<string>, tokens: seq<string>): (r: seq<string>)
    ensures forall k :: 0 <= k < |r| ==> Emittable(r[k], Elems(stopwords))
    ensures forall k :: 0 <= k < |r| ==> FromSome(r[k], tokens)
    ensures NoDup(r)
    ensures |r| <= RefineIterations
  {
    var sorted := Sorting.SortDesc(stopwords, LengthKey);
    assert forall sw :: sw in Elems(stopwords) ==> sw in multiset(sorted);
    OriginCoversItself(tokens);
    RefineLoop(sorted, Elems(stopwords), tokens, tokens, {}, [], RefineIterations)
  }

  /** A token that is already clean is emitted: when the first input token,
      trimmed, is emittable, it is the first refined token. */
  lemma RefineKeepsCleanHead(stopwords: seq<string>, tokens: seq<string>)
    requires |tokens| > 0 && Emittable(Trim(tokens[0]), Elems(stopwords))
    ensures |Refine(stopwords, tokens)| > 0 && Refine(stopwords, tokens)[0] == Trim(tokens[0])
  {
    var sorted := Sorting.SortDesc(stopwords, LengthKey);
    var stop := Elems(stopwords);
    assert forall sw :: sw in stop ==> sw in multiset(sorted);
    assert forall sw :: sw in sorted ==> sw in multiset(stopwords);
    OriginCoversItself(tokens);
    EmittableUnsplit(sorted, stop, Trim(tokens[0]));
    LoopEmitsHead(sorted, stop, tokens, tokens, RefineIterations);
  }

  /** From the start, the loop emits a first queued token that no stopword
      splits and that is neither empty nor a stopword. */
  lemma LoopEmitsHead(sorted: seq<string>, stop: set<string>, origin: seq<string>, queue: seq<string>, fuel: nat)
    requires forall sw :: sw in stop ==> sw in sorted
    requires QueueFromOrigin(queue, origin)
    requires |queue| > 0 && fuel > 0
    requires Trim(queue[0]) != "" && Trim(queue[0]) !in stop && Splitter(sorted, Trim(queue[0])).None?
    ensures var r := RefineLoop(sorted, stop, origin, queue, {}, [], fuel);
            |r| > 0 && r[0] == Trim(queue[0])
  {
    var tok := Trim(queue[0]);
    QueueTail(queue, origin);
    FromSomeNarrows(queue[0], tok, origin);
    UnsplitIsEmittable(sorted, stop, tok);
    ResultEmit([], stop, origin, {}, tok);
    assert [] + [tok] == [tok];
  }

  /** No stopword of the set splits an emittable token. */
  lemma EmittableUnsplit(sorted: seq<string>, stop: set<string>, tok: string)
    requires forall sw :: sw in sorted ==> sw in stop
    requires Emittable(tok, stop)
    ensures Splitter(sorted, tok).None?
  {
  }

  // ------------------------------------------------------------ local fallback segmentation

  /** A stopword the fallback splits on: non-empty, of at most four code points. */
  predicate IsShortStopword(sw: string) {
    sw != "" && |sw| <= 4
  }

  /** The stopwords the fallback splits on: exactly the short ones, in the
      set's iteration order. */
  function ShortStopwords(stopwords: seq<string>): (r: seq<string>)
    ensures forall k :: 0 <= k < |r| ==> IsShortStopword(r[k]) && r[k] in stopwords
    ensures forall k :: 0 <= k < |stopwords| && IsShortStopword(stopwords[k]) ==> stopwords[k] in r
  {
    Filter(stopwords, IsShortStopword)
  }

  /** `for (const sw of seps) s = s.split(sw).join(' ')`: every separator is
      replaced by a space in turn. No new occurrence of a space-free pattern is
      created, and when no separator holds a space, none is left. */
  function SplitOnEach(s: string, seps: seq<string>): (r: string)
    requires forall k :: 0 <= k < |seps| ==> seps[k] != ""
    ensures forall x :: x != "" && !Contains(x, " ") && !Contains(s, x) ==> !Contains(r, x)
    ensures (forall k :: 0 <= k < |seps| ==> !Contains(seps[k], " ")) ==>
              forall k :: 0 <= k < |seps| ==> !Contains(r, seps[k])
    ensures (forall k :: 0 <= k < |seps| ==> !Contains(s, seps[k])) ==> r == s
    decreases |seps|
  {
    if |seps| == 0 then s
    else
      var t := Join(Split(s, seps[0]), " ");
      SplitJoinSpaced(s, seps[0]);
      assert !Contains(s, seps[0]) ==> t == s;
      var r := SplitOnEach(t, seps[1..]);
      assert forall k :: 1 <= k < |seps| ==> seps[k] == seps[1..][k - 1];
      r
  }

  /** Replacing a separator by spaces creates no occurrence of a space-free
      pattern, and leaves none of the separator itself when it has no space. */
  lemma SplitJoinSpaced(s: string, sep: string)
    requires sep != ""
    ensures forall x :: x != "" && !Contains(x, " ") && !Contains(s, x) ==> !Contains(Join(Split(s, sep), " "), x)
    ensures !Contains(sep, " ") ==> !Contains(Join(Split(s, sep), " "), sep)
  {
    var parts := Split(s, sep);
    forall x | x != "" && !Contains(x, " ") && !Contains(s, x)
      ensures !Contains(Join(parts, " "), x)
    {
      forall k | 0 <= k < |parts| ensures !Contains(parts[k], x) {
        if Contains(parts[k], x) {
          ContainsTransitive(s, parts[k], x);
        }
      }
      JoinNoOccurrence(parts, x);
    }
    if !Contains(sep, " ") {
      SplitNoSep(s, sep);
      JoinNoOccurrence(parts, sep);
    }
  }

  /** The test of the prefix-stripping loop: `sw` has at most two code points
      and is a proper prefix of `tok`. */
  predicate Strips(sw: string, tok: string) {
    |sw| <= 2 && IsPrefix(sw, tok) && |tok| > |sw|
  }

  /** No stopword before position `i` strips `tok`. */
  predicate FirstStrip(stopwords: seq<string>, i: nat, tok: string)
    requires i <= |stopwords|
  {
    forall j :: 0 <= j < i ==> !Strips(stopwords[j], tok)
  }

  /** Strips the first stopword, in iteration order, of at most two code
      points that is a proper prefix of `tok`; the token is kept whole when
      there is none. */
  function StripPrefix(tok: string, stopwords: seq<string>): (r: string)
    ensures |r| <= |tok| && r == tok[|tok| - |r|..]
    ensures |tok| > 0 ==> |r| > 0
    ensures (forall k :: 0 <= k < |stopwords| ==> !Strips(stopwords[k], tok)) ==> r == tok
    ensures forall i :: 0 <= i < |stopwords| && Strips(stopwords[i], tok) && FirstStrip(stopwords, i, tok) ==>
              r == tok[|stopwords[i]|..]
  {
    if |stopwords| == 0 then tok
    else
      var sw := stopwords[0];
      if Strips(sw, tok) then tok[|sw|..]
      else
        var r := StripPrefix(tok, stopwords[1..]);
        assert forall k :: 1 <= k < |stopwords| ==> stopwords[k] == stopwords[1..][k - 1];
        r
  }

  lemma NoWhiteSuffix(s: string, d: nat)
    requires d <= |s| && NoWhite(s)
    ensures NoWhite(s[d..])
  {
    assert forall k :: 0 <= k < |s| - d ==> s[d..][k] == s[d + k];
  }

  /** What `KeepToken` keeps of each token of `raw`, token by token. */
  function KeptLists(raw: seq<string>, stopwords: seq<string>): (r: seq<seq<string>>)
    requires forall k :: 0 <= k < |raw| ==> NoWhite(raw[k])
    ensures |r| == |raw| && forall j :: 0 <= j < |raw| ==> r[j] == KeepToken(raw[j], stopwords)
  {
    seq(|raw|, j requires 0 <= j < |raw| => KeepToken(raw[j], stopwords))
  }

  /** Every token of `r` is what `KeepToken` keeps of some token of `raw`. */
  predicate EachKeptFrom(raw: seq<string>, stopwords: seq<string>, r: seq<string>)
    requires forall k :: 0 <= k < |raw| ==> NoWhite(raw[k])
  {
    EachIn(KeptLists(raw, stopwords), r)
  }

  /** Whatever `KeepToken` keeps of a token of `raw` is in `r`. */
  predicate AllKeptIn(raw: seq<string>, stopwords: seq<string>, r: seq<string>)
    requires forall k :: 0 <= k < |raw| ==> NoWhite(raw[k])
  {
    AllIn(KeptLists(raw, stopwords), r)
  }

  /** Every token of `r` is the whole of one of the `lists`. */
  predicate EachIn(lists: seq<seq<string>>, r: seq<string>) {
    forall k :: 0 <= k < |r| ==> exists j :: 0 <= j < |lists| && lists[j] == [r[k]]
  }

  /** The first token of every non-empty list is in `r`. */
  predicate AllIn(lists: seq<seq<string>>, r: seq<string>) {
    forall j :: 0 <= j < |lists| && lists[j] != [] ==> lists[j][0] in r
  }

  /** The per-token loop of the fallback: each token is replaced by what
      `KeepToken` keeps of it, in order. */
  function KeepTokens(raw: seq<string>, stopwords: seq<string>): (r: seq<string>)
    requires forall k :: 0 <= k < |raw| ==> NoWhite(raw[k])
    ensures forall k :: 0 <= k < |r| ==> r[k] != "" && r[k] !in stopwords && NoWhite(r[k])
    ensures EachKeptFrom(raw, stopwords, r)
    ensures AllKeptIn(raw, stopwords, r)
  {
    if |raw| == 0 then []
    else
      var rest := KeepTokens(raw[1..], stopwords);
      var kept := KeepToken(raw[0], stopwords);
      KeptListsTail(raw, stopwords);
      EachInCons(KeptLists(raw, stopwords), KeptLists(raw[1..], stopwords), rest);
      AllInCons(KeptLists(raw, stopwords), KeptLists(raw[1..], stopwords), rest);
      kept + rest
  }

  /** `tail` is `lists` without its first entry, stated entry by entry. */
  predicate IsTail(lists: seq<seq<string>>, tail: seq<seq<string>>) {
    |lists| == |tail| + 1 && forall k :: 0 <= k < |tail| ==> tail[k] == lists[k + 1]
  }

  lemma KeptListsTail(raw: seq<string>, stopwords: seq<string>)
    requires |raw| > 0 && forall k :: 0 <= k < |raw| ==> NoWhite(raw[k])
    ensures IsTail(KeptLists(raw, stopwords), KeptLists(raw[1..], stopwords))
    ensures KeptLists(raw, stopwords)[0] == KeepToken(raw[0], stopwords)
  {
    var lists, tail := KeptLists(raw, stopwords), KeptLists(raw[1..], stopwords);
    forall k | 0 <= k < |tail|
      ensures tail[k] == lists[k + 1]
    {
      assert raw[1..][k] == raw[k + 1];
    }
  }

  /** The first step of `KeepTokens`' proof: the head's list of at most one
      token, followed by tokens each the whole of a list of the tail, are
      tokens each the whole of some list. */
  lemma EachInCons(lists: seq<seq<string>>, tail: seq<seq<string>>, rest: seq<string>)
    requires IsTail(lists, tail) && |lists[0]| <= 1
    requires EachIn(tail, rest)
    ensures EachIn(lists, lists[0] + rest)
  {
    var r := lists[0] + rest;
    forall k | 0 <= k < |r|
      ensures exists j :: 0 <= j < |lists| && lists[j] == [r[k]]
    {
      if k < |lists[0]| {
        assert lists[0] == [r[k]];
      } else {
        assert r[k] == rest[k - |lists[0]|];
        var j :| 0 <= j < |tail| && tail[j] == [rest[k - |lists[0]|]];
        assert lists[j + 1] == [r[k]];
      }
    }
  }

  /** The second step: the first token of every list is in the head's list
      followed by what holds the first token of every list of the tail. */
  lemma AllInCons(lists: seq<seq<string>>, tail: seq<seq<string>>, rest: seq<string>)
    requires IsTail(lists, tail)
    requires AllIn(tail, rest)
    ensures AllIn(lists, lists[0] + rest)
  {
    forall j | 0 <= j < |lists| && lists[j] != []
      ensures lists[j][0] in lists[0] + rest
    {
      if j > 0 {
        assert lists[j] == tail[j - 1];
      }
    }
  }

  /** The loop keeps tokens in their order: it works token by token. */
  lemma {:induction false} KeepTokensAppend(a: seq<string>, b: seq<string>, stopwords: seq<string>)
    requires forall k :: 0 <= k < |a| ==> NoWhite(a[k])
    requires forall k :: 0 <= k < |b| ==> NoWhite(b[k])
    ensures KeepTokens(a + b, stopwords) == KeepTokens(a, stopwords) + KeepTokens(b, stopwords)
    decreases |a|
  {
    if |a| == 0 {
      assert a + b == b;
    } else {
      assert (a + b)[1..] == a[1..] + b;
      assert (a + b)[0] == a[0];
      KeepTokensAppend(a[1..], b, stopwords);
    }
  }

  /** One step of that loop: a stopword is dropped; otherwise its short
      stopword prefix is stripped and the rest kept, unless that is a stopword. */
  function KeepToken(tok: string, stopwords: seq<string>): (r: seq<string>)
    requires NoWhite(tok)
    ensures |r| <= 1
    ensures forall x :: x in r ==> x != "" && x !in stopwords && NoWhite(x)
    ensures tok in stopwords ==> r == []
    ensures tok !in stopwords && tok != "" ==>
              (r == [StripPrefix(tok, stopwords)] <==> StripPrefix(tok, stopwords) !in stopwords)
    ensures r != [] ==> r == [StripPrefix(tok, stopwords)]
  {
    if tok in stopwords then []
    else
      var stripped := StripPrefix(tok, stopwords);
      NoWhiteSuffix(tok, |tok| - |stripped|);
      if stripped != "" && stripped !in stopwords then [stripped] else []
  }

  /** The words the fallback looks at: the separated text with every short
      stopword replaced by a space, split at white space. */
  function FallbackWords(separated: string, stopwords: seq<string>): (r: seq<string>)
    ensures forall k :: 0 <= k < |r| ==> r[k] != "" && NoWhite(r[k])
    ensures Concat(r) == RemoveWhite(SplitOnEach(separated, ShortStopwords(stopwords)))
    ensures (forall k :: 0 <= k < |ShortStopwords(stopwords)| ==> !Contains(separated, ShortStopwords(stopwords)[k])) ==>
              r == Words(separated)
  {
    var spaced := SplitOnEach(separated, ShortStopwords(stopwords));
    WordsCover(spaced);
    Words(spaced)
  }

  /** Words joined by single spaces, none holding a short stopword, are
      exactly the fallback's words. */
  lemma FallbackWordsOfJoin(ws: seq<string>, stopwords: seq<string>)
    requires forall k :: 0 <= k < |ws| ==> |ws[k]| > 0 && NoWhite(ws[k])
    requires forall k :: 0 <= k < |ShortStopwords(stopwords)| ==> !Contains(Join(ws, " "), ShortStopwords(stopwords)[k])
    ensures FallbackWords(Join(ws, " "), stopwords) == ws
  {
    WordsJoin(ws);
  }

  /** The local segmentation used when the tokenizer service gives nothing:
      exactly what `KeepToken` keeps of each fallback word. */
  function Segment(separated: string, stopwords: seq<string>): (r: seq<string>)
    ensures forall k :: 0 <= k < |r| ==> r[k] != "" && r[k] !in stopwords && NoWhite(r[k])
    ensures EachKeptFrom(FallbackWords(separated, stopwords), stopwords, r)
    ensures AllKeptIn(FallbackWords(separated, stopwords), stopwords, r)
  {
    KeepTokens(FallbackWords(separated, stopwords), stopwords)
  }

  /** No token of the fallback contains a short stopword free of spaces: the
      words were split there. */
  lemma SegmentAvoidsShortStopwords(separated: string, stopwords: seq<string>, sw: string)
    requires sw in stopwords && IsShortStopword(sw) && !Contains(sw, " ")
    requires forall k :: 0 <= k < |stopwords| && IsShortStopword(stopwords[k]) ==> !Contains(stopwords[k], " ")
    ensures forall k :: 0 <= k < |Segment(separated, stopwords)| ==> !Contains(Segment(separated, stopwords)[k], sw)
  {
    var split := SplitOnEach(separated, ShortStopwords(stopwords));
    SplitAvoids(separated, stopwords, sw);
    FallbackWithin(separated, stopwords);
    KeptTokensAvoid(split, FallbackWords(separated, stopwords), Segment(separated, stopwords), sw, stopwords);
  }

  /** Splitting on the short stopwords leaves no occurrence of a space-free one. */
  lemma SplitAvoids(separated: string, stopwords: seq<string>, sw: string)
    requires sw in stopwords && IsShortStopword(sw) && !Contains(sw, " ")
    requires forall k :: 0 <= k < |stopwords| && IsShortStopword(stopwords[k]) ==> !Contains(stopwords[k], " ")
    ensures !Contains(SplitOnEach(separated, ShortStopwords(stopwords)), sw)
  {
    var short := ShortStopwords(stopwords);
    assert sw in short;
    var i :| 0 <= i < |short| && short[i] == sw;
  }

  /** Every fallback word occurs in the split text. */
  lemma FallbackWithin(separated: string, stopwords: seq<string>)
    ensures forall j :: 0 <= j < |FallbackWords(separated, stopwords)| ==>
              NoWhite(FallbackWords(separated, stopwords)[j]) &&
              Contains(SplitOnEach(separated, ShortStopwords(stopwords)), FallbackWords(separated, stopwords)[j])
  {
    assert FallbackWords(separated, stopwords) == Words(SplitOnEach(separated, ShortStopwords(stopwords)));
  }

  /** Tokens kept from words of a text that does not contain `sw` do not
      contain `sw`. */
  lemma KeptTokensAvoid(text: string, words: seq<string>, r: seq<string>, sw: string, stopwords: seq<string>)
    requires forall j :: 0 <= j < |words| ==> NoWhite(words[j]) && Contains(text, words[j])
    requires !Contains(text, sw)
    requires EachKeptFrom(words, stopwords, r)
    ensures forall k :: 0 <= k < |r| ==> !Contains(r[k], sw)
  {
    forall k | 0 <= k < |r| ensures !Contains(r[k], sw) {
      var j :| 0 <= j < |words| && KeptLists(words, stopwords)[j] == [r[k]];
      KeptAvoids(text, words[j], r[k], sw, stopwords);
    }
  }

  /** A token kept from a word of a text that does not contain `sw` does not
      contain `sw`. */
  lemma KeptAvoids(text: string, word: string, tok: string, sw: string, stopwords: seq<string>)
    requires NoWhite(word) && KeepToken(word, stopwords) == [tok]
    requires Contains(text, word) && !Contains(text, sw)
    ensures !Contains(tok, sw)
  {
    KeptWithin(word, stopwords);
    if Contains(tok, sw) {
      ContainsTransitive(word, tok, sw);
      ContainsTransitive(text, word, sw);
    }
  }

  /** What `KeepToken` keeps of a token occurs in it. */
  lemma KeptWithin(tok: string, stopwords: seq<string>)
    requires NoWhite(tok) && KeepToken(tok, stopwords) != []
    ensures Contains(tok, KeepToken(tok, stopwords)[0])
  {
    var stripped := StripPrefix(tok, stopwords);
    ContainsSlice(tok, |tok| - |stripped|, |tok|);
    assert tok[|tok| - |stripped|..|tok|] == stripped;
  }

  // ------------------------------------------------------------ synonyms

  /** The lookup key of a token: `String(t).toLowerCase().trim()`. */
  function SynonymKey(t: string): string {
    Trim(Lower(t))
  }

  predicate HasSynonym(synonyms: map<string, string>, t: string) {
    SynonymKey(t) in synonyms && synonyms[SynonymKey(t)] != ""
  }

  /** `resolveSynonyms`: each token with a non-empty entry in the table is
      replaced by it; every other token is kept as it was. */
  function ResolveSynonyms(synonyms: map<string, string>, tokens: seq<string>): (r: seq<string>)
    ensures |r| == |tokens|
    ensures forall k :: 0 <= k < |r| && HasSynonym(synonyms, tokens[k]) ==> r[k] == synonyms[SynonymKey(tokens[k])]
    ensures forall k :: 0 <= k < |r| && !HasSynonym(synonyms, tokens[k]) ==> r[k] == tokens[k]
  {
    seq(|tokens|, k requires 0 <= k < |tokens| =>
      if HasSynonym(synonyms, tokens[k]) then synonyms[SynonymKey(tokens[k])] else tokens[k])
  }

  /** When every canonical keyword of the table resolves to itself, resolving
      twice is resolving once. */
  lemma ResolveSynonymsIdempotent(synonyms: map<string, string>, tokens: seq<string>)
    requires forall t :: t in synonyms.Values && HasSynonym(synonyms, t) ==> synonyms[SynonymKey(t)] == t
    ensures ResolveSynonyms(synonyms, ResolveSynonyms(synonyms, tokens)) == ResolveSynonyms(synonyms, tokens)
  {
    var once := ResolveSynonyms(synonyms, tokens);
    var twice := ResolveSynonyms(synonyms, once);
    forall k | 0 <= k < |tokens|
      ensures twice[k] == once[k]
    {
      if HasSynonym(synonyms, tokens[k]) {
        assert once[k] in synonyms.Values;
      }
    }
  }

  // ------------------------------------------------------------ normalize

  /** The token source: the tokenizer service's answer when it has one,
      otherwise the local segmentation. */
  function BaseTokens(tokenizer: string -> Option<seq<string>>, stopwords: seq<string>, separated: string): (r: seq<string>)
    ensures tokenizer(separated).Some? && |tokenizer(separated).value| > 0 ==> r == tokenizer(separated).value
    ensures tokenizer(separated).None? || |tokenizer(separated).value| == 0 ==> r == Segment(separated, stopwords)
  {
    match tokenizer(separated)
    case Some(ts) => if |ts| > 0 then ts else Segment(separated, stopwords)
    case None => Segment(separated, stopwords)
  }

  /** `normalize`. When the stopwords cannot be loaded it degrades to the
      trimmed raw text as the single token. Otherwise every token is either the
      canonical keyword of a synonym or a refined content token cut from the
      token source of the cleaned text, and there are at most
      `RefineIterations` of them. */
  function Normalize(lex: Lexicon, text: string): (r: seq<string>)
    requires WellFormed(lex.classes)
    ensures lex.stopwords.None? ==> r == [Trim(text)]
    ensures lex.stopwords.Some? ==> |r| <= RefineIterations
    ensures lex.stopwords.Some? ==>
      var source := BaseTokens(lex.tokenizer, lex.stopwords.value, Clean(text, lex.classes));
      forall k :: 0 <= k < |r| ==>
        r[k] in lex.synonyms.Values || (Emittable(r[k], Elems(lex.stopwords.value)) && FromSome(r[k], source))
  {
    match lex.stopwords
    case None => [Trim(text)]
    case Some(stopwords) =>
      var separated := Clean(text, lex.classes);
      var refined := Refine(stopwords, BaseTokens(lex.tokenizer, stopwords, separated));
      var r := ResolveSynonyms(lex.synonyms, refined);
      assert forall k :: 0 <= k < |r| && HasSynonym(lex.synonyms, refined[k]) ==> r[k] in lex.synonyms.Values;
      r
  }

  /** Synonyms are resolved last: normalizing is normalizing without the
      synonym table, then resolving synonyms. */
  lemma NormalizeResolvesLast(lex: Lexicon, text: string)
    requires WellFormed(lex.classes) && lex.stopwords.Some?
    ensures Normalize(lex, text) == ResolveSynonyms(lex.synonyms, Normalize(lex.(synonyms := map[]), text))
  {
    var stopwords := lex.stopwords.value;
    var refined := Refine(stopwords, BaseTokens(lex.tokenizer, stopwords, Clean(text, lex.classes)));
    assert ResolveSynonyms(map[], refined) == refined;
  }

  /** Without a synonym table the normalized tokens are exactly the refined
      ones: clean, duplicate-free content tokens. */
  lemma NormalizeWithoutSynonyms(lex: Lexicon, text: string)
    requires WellFormed(lex.classes)
    requires lex.stopwords.Some? && lex.synonyms == map[]
    ensures forall k :: 0 <= k < |Normalize(lex, text)| ==> Emittable(Normalize(lex, text)[k], Elems(lex.stopwords.value))
    ensures NoDup(Normalize(lex, text))
  {
    var stopwords := lex.stopwords.value;
    var separated := Clean(text, lex.classes);
    var refined := Refine(stopwords, BaseTokens(lex.tokenizer, stopwords, separated));
    assert ResolveSynonyms(lex.synonyms, refined) == refined;
  }
}
