/**
 * The JavaScript string and array primitives the chat pipeline leans on:
 * `trim`, `toLowerCase`, `includes`, `indexOf`, `split`, `join`, the
 * `\s+` regex, `new Set(...)` de-duplication and `Array.prototype.filter`.
 * Strings are sequences of code points.
 */
module Strings {
  import opened Options

  /** The code points JavaScript's `trim()` strips and its `\s` class matches
      (WhiteSpace and LineTerminator: tab, line feed, vertical tab, form feed,
      carriage return, the Unicode space separators, the line and paragraph
      separators and the byte-order mark). */
  predicate IsWhite(c: char) {
    || '\t' <= c <= '\r' || c == ' ' || c == '\U{00A0}' || c == '\U{1680}'
    || '\U{2000}' <= c <= '\U{200A}' || c == '\U{2028}' || c == '\U{2029}'
    || c == '\U{202F}' || c == '\U{205F}' || c == '\U{3000}' || c == '\U{FEFF}'
  }

  predicate NoWhite(s: string) {
    forall k :: 0 <= k < |s| ==> !IsWhite(s[k])
  }

  // ---------------------------------------------------------------- substrings

  /** `sub` occurs in `s` starting at position `i`. */
  predicate OccursAt(s: string, sub: string, i: nat) {
    i + |sub| <= |s| && s[i..i + |sub|] == sub
  }

  /** `s.includes(sub)`: `sub` occurs somewhere in `s`. */
  predicate Contains(s: string, sub: string) {
    exists i: nat | i <= |s| :: OccursAt(s, sub, i)
  }

  predicate IsPrefix(p: string, s: string) {
    |p| <= |s| && s[..|p|] == p
  }

  lemma ContainsSlice(s: string, i: int, j: int)
    requires 0 <= i <= j <= |s|
    ensures Contains(s, s[i..j])
  {
    assert OccursAt(s, s[i..j], i);
  }

  lemma {:induction false} ContainsTransitive(a: string, b: string, c: string)
    requires Contains(a, b) && Contains(b, c)
    ensures Contains(a, c)
  {
    var i: nat :| i <= |a| && OccursAt(a, b, i);
    var k: nat :| k <= |b| && OccursAt(b, c, k);
    assert i + |b| <= |a| && k + |c| <= |b|;
    assert a[i..i + |b|] == b;
    forall j | 0 <= j < |c|
      ensures a[i + k + j] == c[j]
    {
      assert a[i + k + j] == a[i..i + |b|][k + j];
    }
    assert OccursAt(a, c, i + k);
  }

  /** `s.indexOf(sub)`: the first position at which `sub` occurs, if any. */
  function IndexOf(s: string, sub: string): (r: Option<nat>)
    ensures r.Some? ==> OccursAt(s, sub, r.value)
    ensures r.Some? ==> forall k: nat :: k < r.value ==> !OccursAt(s, sub, k)
    ensures r.None? <==> !Contains(s, sub)
    decreases |s|
  {
    if |s| < |sub| then None
    else if s[..|sub|] == sub then
      assert OccursAt(s, sub, 0);
      Some(0)
    else
      var rest := IndexOf(s[1..], sub);
      assert forall k: nat :: 1 <= k ==> (OccursAt(s, sub, k) <==> OccursAt(s[1..], sub, k - 1));
      assert !OccursAt(s, sub, 0);
      match rest
      case None => None
      case Some(i) => Some(i + 1)
  }

  // ---------------------------------------------------------------- trimming

  function TrimStart(s: string): (r: string)
    ensures |r| <= |s| && r == s[|s| - |r|..]
    ensures |r| > 0 ==> !IsWhite(r[0])
    ensures forall k :: 0 <= k < |s| - |r| ==> IsWhite(s[k])
  {
    if |s| > 0 && IsWhite(s[0]) then TrimStart(s[1..]) else s
  }

  function TrimEnd(s: string): (r: string)
    ensures |r| <= |s| && r == s[..|r|]
    ensures |r| > 0 ==> !IsWhite(r[|r| - 1])
    ensures forall k :: |r| <= k < |s| ==> IsWhite(s[k])
  {
    if |s| > 0 && IsWhite(s[|s| - 1]) then TrimEnd(s[..|s| - 1]) else s
  }

  /** `s.trim()`: the longest slice of `s` that neither starts nor ends with white space,
      obtained by removing white space only. */
  function Trim(s: string): (r: string)
    ensures Contains(s, r)
    ensures |r| > 0 ==> !IsWhite(r[0]) && !IsWhite(r[|r| - 1])
    ensures |r| == 0 <==> forall k :: 0 <= k < |s| ==> IsWhite(s[k])
  {
    var a := TrimStart(s);
    var r := TrimEnd(a);
    TrimContained(s, a, r);
    TrimEmpty(s, a, r);
    r
  }

  lemma TrimContained(s: string, a: string, r: string)
    requires a == TrimStart(s) && r == TrimEnd(a)
    ensures Contains(s, r)
  {
    var d := |s| - |a|;
    TakeOfDrop(s, d, |r|);
    ContainsSlice(s, d, d + |r|);
  }

  lemma TrimEmpty(s: string, a: string, r: string)
    requires a == TrimStart(s) && r == TrimEnd(a)
    ensures |r| == 0 <==> forall k :: 0 <= k < |s| ==> IsWhite(s[k])
  {
    var d := |s| - |a|;
    if |a| > 0 {
      assert a[0] == s[d];
      assert !IsWhite(a[0]);
    }
  }

  /** Trimming is the identity on a string with no white space at either end. */
  lemma TrimUnchanged(s: string)
    requires |s| > 0 ==> !IsWhite(s[0]) && !IsWhite(s[|s| - 1])
    ensures Trim(s) == s
  {
  }

  // ---------------------------------------------------------------- case

  /** `toLowerCase` on one code point, for the Latin capitals A-Z. */
  function LowerChar(c: char): (r: char)
    ensures 'A' <= c <= 'Z' ==> r as int == c as int + 32
    ensures !('A' <= c <= 'Z') ==> r == c
  {
    if 'A' <= c <= 'Z' then (c as int + 32) as char else c
  }

  function Lower(s: string): (r: string)
    ensures |r| == |s|
    ensures forall k :: 0 <= k < |s| ==> r[k] == LowerChar(s[k])
  {
    seq(|s|, k requires 0 <= k < |s| => LowerChar(s[k]))
  }

  /** `s.replace(/\s+/g, '')`: every white-space code point removed. */
  function RemoveWhite(s: string): (r: string)
    ensures NoWhite(r)
    ensures |r| <= |s|
    ensures NoWhite(s) ==> r == s
  {
    if |s| == 0 then ""
    else if IsWhite(s[0]) then RemoveWhite(s[1..])
    else [s[0]] + RemoveWhite(s[1..])
  }

  // ---------------------------------------------------------------- splitting

  /** The longest prefix of `s` with no white space in it. */
  function LeadingWord(s: string): (r: string)
    ensures |r| <= |s| && r == s[..|r|]
    ensures NoWhite(r)
    ensures |r| < |s| ==> IsWhite(s[|r|])
  {
    if |s| == 0 || IsWhite(s[0]) then "" else [s[0]] + LeadingWord(s[1..])
  }

  /** `s.split(sep)` for a non-empty separator string: the pieces between the
      non-overlapping occurrences of `sep`, scanned left to right. */
  function Split(s: string, sep: string): (r: seq<string>)
    requires |sep| > 0
    ensures |r| >= 1
    ensures forall k :: 0 <= k < |r| ==> Contains(s, r[k])
    ensures !Contains(s, sep) ==> r == [s]
    decreases |s|
  {
    match IndexOf(s, sep)
    case None =>
      ContainsSlice(s, 0, |s|);
      assert s[0..|s|] == s;
      [s]
    case Some(i) =>
      var rest := Split(s[i + |sep|..], sep);
      ContainsSlice(s, 0, i);
      assert s[0..i] == s[..i];
      forall k | 0 <= k < |rest|
        ensures Contains(s, rest[k])
      {
        ContainsSlice(s, i + |sep|, |s|);
        assert s[i + |sep|..|s|] == s[i + |sep|..];
        ContainsTransitive(s, s[i + |sep|..], rest[k]);
      }
      [s[..i]] + rest
  }

  /** `parts.join(sep)`. */
  function Join(parts: seq<string>, sep: string): string {
    if |parts| == 0 then ""
    else if |parts| == 1 then parts[0]
    else parts[0] + sep + Join(parts[1..], sep)
  }

  lemma TakeOfDrop(s: string, d: nat, m: nat)
    requires d + m <= |s|
    ensures s[d..][..m] == s[d..d + m]
  {
    assert forall j | 0 <= j < m :: s[d..][..m][j] == s[d + j];
  }

  lemma DropOfDrop(s: string, d: nat, m: nat)
    requires d + m <= |s|
    ensures s[d..][m..] == s[d + m..]
  {
    assert forall j | 0 <= j < |s| - d - m :: s[d..][m..][j] == s[d + m + j];
  }

  /** A prefix `w` of a suffix `t` of `s`, and what follows `w` in `t`, both occur in `s`. */
  lemma PrefixOfSuffix(s: string, t: string, w: string)
    requires |t| <= |s| && t == s[|s| - |t|..]
    requires |w| <= |t| && w == t[..|w|]
    ensures Contains(s, w) && Contains(s, t[|w|..])
  {
    var d := |s| - |t|;
    TakeOfDrop(s, d, |w|);
    DropOfDrop(s, d, |w|);
    ContainsSlice(s, d, d + |w|);
    ContainsSlice(s, d + |w|, |s|);
    assert s[d + |w|..|s|] == s[d + |w|..];
  }

  /** Joining the pieces of a split with the same separator gives the string back. */
  lemma {:induction false} SplitJoin(s: string, sep: string)
    requires |sep| > 0
    ensures Join(Split(s, sep), sep) == s
    decreases |s|
  {
    match IndexOf(s, sep)
    case None =>
      assert Split(s, sep) == [s];
    case Some(i) =>
      var tail := s[i + |sep|..];
      SplitStep(s, sep, i);
      AroundOccurrence(s, sep, i);
      SplitJoin(tail, sep);
      JoinCons(s[..i], Split(tail, sep), sep);
  }

  /** One step of a split: the piece before the first occurrence, then the
      split of what follows it. */
  lemma {:induction false} SplitStep(s: string, sep: string, i: nat)
    requires |sep| > 0 && IndexOf(s, sep) == Some(i)
    ensures Split(s, sep) == [s[..i]] + Split(s[i + |sep|..], sep)
  {
    assert IndexOf(s, sep).value == i;
    var rest := Split(s[i + |sep|..], sep);
    assert Split(s, sep) == [s[..i]] + rest;
  }

  /** The string is the piece before the first occurrence, the separator and the rest. */
  lemma AroundOccurrence(s: string, sep: string, i: nat)
    requires OccursAt(s, sep, i)
    ensures s == s[..i] + sep + s[i + |sep|..]
  {
    assert s[i..i + |sep|] == sep;
    assert s == s[..i] + s[i..i + |sep|] + s[i + |sep|..];
  }

  lemma {:induction false} JoinCons(head: string, rest: seq<string>, sep: string)
    requires |rest| > 0
    ensures Join([head] + rest, sep) == head + sep + Join(rest, sep)
  {
    assert ([head] + rest)[1..] == rest;
  }

  /** No piece of a split contains the separator. */
  lemma {:induction false} SplitNoSep(s: string, sep: string)
    requires |sep| > 0
    ensures forall k :: 0 <= k < |Split(s, sep)| ==> !Contains(Split(s, sep)[k], sep)
    decreases |s|
  {
    match IndexOf(s, sep)
    case None =>
    case Some(i) =>
      var rest := Split(s[i + |sep|..], sep);
      SplitNoSep(s[i + |sep|..], sep);
      SplitStep(s, sep, i);
      BeforeFirst(s, sep, i);
      var parts := [s[..i]] + rest;
      forall k | 0 <= k < |parts|
        ensures !Contains(parts[k], sep)
      {
        if k > 0 {
          assert parts[k] == rest[k - 1];
        }
      }
  }

  /** What comes before the first occurrence does not contain the pattern. */
  lemma BeforeFirst(s: string, sep: string, i: nat)
    requires |sep| > 0 && IndexOf(s, sep) == Some(i)
    ensures !Contains(s[..i], sep)
  {
    forall j: nat | j <= i
      ensures !OccursAt(s[..i], sep, j)
    {
      if j + |sep| <= i {
        assert !OccursAt(s, sep, j);
        assert s[..i][j..j + |sep|] == s[j..j + |sep|];
      }
    }
  }

  /** Gluing two strings with a space creates no occurrence of a space-free
      pattern that neither contains. */
  lemma GlueNoOccurrence(a: string, b: string, x: string)
    requires x != "" && !Contains(x, " ")
    requires !Contains(a, x) && !Contains(b, x)
    ensures !Contains(a + " " + b, x)
  {
    var t := a + " " + b;
    forall i: nat | i <= |t|
      ensures !OccursAt(t, x, i)
    {
      if i + |x| <= |t| {
        if i + |x| <= |a| {
          assert t[i..i + |x|] == a[i..i + |x|];
          assert !OccursAt(a, x, i);
        } else if i > |a| {
          var j := i - |a| - 1;
          assert t[i..i + |x|] == b[j..j + |x|];
          assert !OccursAt(b, x, j);
        } else {
          var d := |a| - i;
          assert !OccursAt(x, " ", d);
          assert x[d..d + 1] == [x[d]];
          assert t[i..i + |x|][d] == ' ';
        }
      }
    }
  }

  /** Joining with spaces pieces free of a space-free pattern gives a string free of it. */
  lemma {:induction false} JoinNoOccurrence(parts: seq<string>, x: string)
    requires x != "" && !Contains(x, " ")
    requires forall k :: 0 <= k < |parts| ==> !Contains(parts[k], x)
    ensures !Contains(Join(parts, " "), x)
    decreases |parts|
  {
    if |parts| == 0 {
      assert !OccursAt("", x, 0);
    } else if |parts| > 1 {
      JoinNoOccurrence(parts[1..], x);
      GlueNoOccurrence(parts[0], Join(parts[1..], " "), x);
    }
  }

  /** Every code point of a substring is a code point of the string. */
  lemma ContainsChars(s: string, sub: string)
    requires Contains(s, sub)
    ensures forall k :: 0 <= k < |sub| ==> sub[k] in s
  {
    var i: nat :| i <= |s| && OccursAt(s, sub, i);
    forall k | 0 <= k < |sub| ensures sub[k] in s {
      assert sub[k] == s[i..i + |sub|][k] == s[i + k];
    }
  }

  /** `s.split(/\s+/).filter(Boolean)`: the maximal runs of non-white code points, in order. */
  function Words(s: string): (r: seq<string>)
    ensures forall k :: 0 <= k < |r| ==> |r[k]| > 0 && NoWhite(r[k]) && Contains(s, r[k])
    decreases |s|
  {
    var t := TrimStart(s);
    if |t| == 0 then []
    else
      var w := LeadingWord(t);
      assert |w| > 0;
      var rest := Words(t[|w|..]);
      PrefixOfSuffix(s, t, w);
      var r := [w] + rest;
      forall k | 0 <= k < |r|
        ensures |r[k]| > 0 && NoWhite(r[k]) && Contains(s, r[k])
      {
        if k > 0 {
          assert r[k] == rest[k - 1];
          ContainsTransitive(s, t[|w|..], rest[k - 1]);
        }
      }
      r
  }

  /** The words back to back, with nothing between them. */
  function Concat(ws: seq<string>): string {
    if |ws| == 0 then "" else ws[0] + Concat(ws[1..])
  }

  /** One step of `Words`: the leading word of the trimmed text, then the words of the rest. */
  lemma {:induction false} WordsStep(s: string)
    ensures |TrimStart(s)| == 0 ==> Words(s) == []
    ensures |TrimStart(s)| > 0 ==>
              Words(s) == [LeadingWord(TrimStart(s))] + Words(TrimStart(s)[|LeadingWord(TrimStart(s))|..])
  {
  }

  /** The words hold all of the text but its white space, in order. */
  lemma {:induction false} WordsCover(s: string)
    ensures Concat(Words(s)) == RemoveWhite(s)
    decreases |s|
  {
    var t := TrimStart(s);
    assert RemoveWhite(s) == RemoveWhite(t) by { RemoveWhiteTrimStart(s); }
    if |t| == 0 {
      assert Words(s) == [] by { WordsStep(s); }
    } else {
      var w := LeadingWord(t);
      var rest := t[|w|..];
      WordsCover(rest);
      assert Words(s) == [w] + Words(rest) by { WordsStep(s); }
      CoverStep(t, w, rest, Words(rest));
    }
  }

  lemma CoverStep(t: string, w: string, rest: string, ws: seq<string>)
    requires NoWhite(w) && t == w + rest
    requires Concat(ws) == RemoveWhite(rest)
    ensures Concat([w] + ws) == RemoveWhite(t)
  {
    ConcatCons(w, ws);
    RemoveWhiteAppend(w, rest);
  }

  lemma ConcatCons(w: string, ws: seq<string>)
    ensures Concat([w] + ws) == w + Concat(ws)
  {
    assert ([w] + ws)[1..] == ws;
  }

  /** Leading white space adds nothing once white space is removed. */
  lemma {:induction false} RemoveWhiteTrimStart(s: string)
    ensures RemoveWhite(s) == RemoveWhite(TrimStart(s))
    decreases |s|
  {
    if |s| > 0 && IsWhite(s[0]) {
      RemoveWhiteTrimStart(s[1..]);
    }
  }

  lemma {:induction false} RemoveWhiteAppend(a: string, b: string)
    ensures RemoveWhite(a + b) == RemoveWhite(a) + RemoveWhite(b)
    decreases |a|
  {
    if |a| > 0 {
      RemoveWhiteAppend(a[1..], b);
      RemoveWhiteAfterFirst(a, b);
    } else {
      assert a + b == b;
    }
  }

  lemma {:induction false} RemoveWhiteAfterFirst(a: string, b: string)
    requires |a| > 0
    requires RemoveWhite(a[1..] + b) == RemoveWhite(a[1..]) + RemoveWhite(b)
    ensures RemoveWhite(a + b) == RemoveWhite(a) + RemoveWhite(b)
  {
    TailOfAppend(a, b);
    RemoveWhiteStep(a + b);
    RemoveWhiteStep(a);
    Regroup(if IsWhite(a[0]) then "" else [a[0]], RemoveWhite(a[1..]), RemoveWhite(b));
  }

  lemma TakeTwo<T>(s: seq<T>)
    requires |s| >= 2
    ensures s == [s[0], s[1]] + s[2..]
  {
  }

  lemma DropOfAppend<T>(a: seq<T>, b: seq<T>, n: nat)
    requires n <= |a|
    ensures (a + b)[n..] == a[n..] + b
  {
  }

  lemma TailOfAppend<T>(a: seq<T>, b: seq<T>)
    requires |a| > 0
    ensures (a + b)[0] == a[0] && (a + b)[1..] == a[1..] + b
  {
  }

  /** One step of the removal. */
  lemma {:induction false} RemoveWhiteStep(s: string)
    requires |s| > 0
    ensures RemoveWhite(s) == (if IsWhite(s[0]) then "" else [s[0]]) + RemoveWhite(s[1..])
  {
  }

  lemma Regroup<T>(h: seq<T>, x: seq<T>, y: seq<T>)
    ensures h + (x + y) == h + x + y
  {
  }

  /** Splitting words joined by single spaces gives the words back. */
  lemma {:induction false} WordsJoin(ws: seq<string>)
    requires forall k :: 0 <= k < |ws| ==> |ws[k]| > 0 && NoWhite(ws[k])
    ensures Words(Join(ws, " ")) == ws
    decreases |ws|
  {
    if |ws| == 0 {
      assert Words("") == [] by { WordsStep(""); }
    } else if |ws| == 1 {
      assert Words(ws[0]) == [ws[0]] by { WordsJoinSingle(ws[0]); }
    } else {
      WordsJoin(ws[1..]);
      WordsJoinCons(ws);
    }
  }

  lemma {:induction false} WordsJoinSingle(w: string)
    requires |w| > 0 && NoWhite(w)
    ensures Words(w) == [w]
  {
    assert TrimStart(w) == w;
    assert LeadingWord(w) == w by {
      LeadingWordOf(w, "");
      assert w + "" == w;
    }
    assert Words(w) == [w] + Words(w[|w|..]) by { WordsStep(w); }
    assert w[|w|..] == "";
    assert Words("") == [] by { WordsStep(""); }
  }

  lemma {:induction false} WordsJoinCons(ws: seq<string>)
    requires |ws| > 1
    requires |ws[0]| > 0 && NoWhite(ws[0]) && |ws[1]| > 0 && NoWhite(ws[1])
    requires Words(Join(ws[1..], " ")) == ws[1..]
    ensures Words(Join(ws, " ")) == ws
  {
    assert Join(ws, " ") == ws[0] + " " + Join(ws[1..], " ");
    WordsCons(ws[0], Join(ws[1..], " "));
    ConsSplit(ws);
  }

  /** A word followed by a space and more text is the first of the words. */
  lemma WordsCons(w: string, j: string)
    requires |w| > 0 && NoWhite(w)
    ensures Words(w + " " + j) == [w] + Words(j)
  {
    var s := w + (" " + j);
    assert w + " " + j == s;
    assert TrimStart(s) == s by { assert s[0] == w[0]; }
    assert LeadingWord(s) == w by { LeadingWordOf(w, " " + j); }
    assert s[|w|..] == " " + j;
    assert Words(s) == [w] + Words(" " + j) by { WordsStep(s); }
    WordsSkipSpace(j);
  }

  lemma ConsSplit<T>(s: seq<T>)
    requires |s| > 0
    ensures s == [s[0]] + s[1..]
  {
  }

  /** A leading space does not change the words. */
  lemma WordsSkipSpace(s: string)
    ensures Words(" " + s) == Words(s)
  {
    assert (" " + s)[1..] == s;
    assert TrimStart(" " + s) == TrimStart(s);
  }

  /** A word followed by white space, or by nothing, is the leading word. */
  lemma {:induction false} LeadingWordOf(w: string, rest: string)
    requires NoWhite(w)
    requires |rest| == 0 || IsWhite(rest[0])
    ensures LeadingWord(w + rest) == w
    decreases |w|
  {
    if |w| == 0 {
      assert w + rest == rest;
    } else {
      LeadingWordOf(w[1..], rest);
      assert (w + rest)[1..] == w[1..] + rest;
    }
  }

  // ---------------------------------------------------------------- collections

  predicate NoDup<T(==)>(s: seq<T>) {
    forall i, j :: 0 <= i < j < |s| ==> s[i] != s[j]
  }

  /** The index of the first occurrence of `x` in `s`. */
  function FirstAt<T(==)>(s: seq<T>, x: T): (i: nat)
    requires x in s
    ensures i < |s| && s[i] == x
  {
    if s[0] == x then 0 else 1 + FirstAt(s[1..], x)
  }

  /** No occurrence comes before the first one. */
  lemma {:induction false} FirstAtMinimal<T>(s: seq<T>, x: T, k: nat)
    requires k < |s| && s[k] == x
    ensures FirstAt(s, x) <= k
    decreases k
  {
    if s[0] != x {
      assert s[1..][k - 1] == x;
      FirstAtMinimal(s[1..], x, k - 1);
    }
  }

  /** The first occurrence is the only index with no earlier occurrence. */
  lemma FirstAtUnique<T>(s: seq<T>, x: T, i: nat)
    requires i < |s| && s[i] == x
    requires forall k :: 0 <= k < i ==> s[k] != x
    ensures FirstAt(s, x) == i
  {
    FirstAtMinimal(s, x, i);
  }

  /** The elements of `r` that occur in `s` come in the order of their first
      occurrences in `s`. */
  predicate InFirstOrder<T(==)>(r: seq<T>, s: seq<T>) {
    forall i, j :: 0 <= i < j < |r| && r[i] in s && r[j] in s ==> FirstAt(s, r[i]) < FirstAt(s, r[j])
  }

  /** `Array.from(new Set(s))`: the first occurrence of every element, in order. */
  function Dedup<T(==)>(s: seq<T>): (r: seq<T>)
    ensures NoDup(r)
    ensures forall k :: 0 <= k < |r| ==> r[k] in s
    ensures forall k :: 0 <= k < |s| ==> s[k] in r
    ensures |r| <= |s|
  {
    if |s| == 0 then []
    else
      var r := Dedup(s[..|s| - 1]);
      var last := s[|s| - 1];
      assert forall k :: 0 <= k < |s| - 1 ==> s[k] == s[..|s| - 1][k];
      if last in r then r else r + [last]
  }

  /** The kept first occurrences come in the order they occur in `s`. */
  lemma {:induction false} DedupInFirstOrder<T>(s: seq<T>)
    ensures InFirstOrder(Dedup(s), s)
    decreases |s|
  {
    if |s| > 0 {
      var init := s[..|s| - 1];
      var r := Dedup(init);
      var last := s[|s| - 1];
      DedupInFirstOrder(init);
      FirstAtOfInit(s, r);
      if last !in r {
        assert forall k :: 0 <= k < |s| - 1 ==> s[k] == init[k] && init[k] in r;
        FirstAtUnique(s, last, |s| - 1);
        AppendLastInFirstOrder(r, last, s);
      }
    }
  }

  lemma AppendLastInFirstOrder<T>(r: seq<T>, x: T, s: seq<T>)
    requires x in s && InFirstOrder(r, s)
    requires forall k :: 0 <= k < |r| ==> r[k] in s && FirstAt(s, r[k]) < FirstAt(s, x)
    ensures InFirstOrder(r + [x], s)
  {
    assert forall k :: 0 <= k < |r| ==> (r + [x])[k] == r[k];
  }

  /** First occurrences in all of `s` of elements already in its initial part
      lie in that part and are the same as there. */
  lemma FirstAtOfInit<T>(s: seq<T>, r: seq<T>)
    requires |s| > 0
    requires forall k :: 0 <= k < |r| ==> r[k] in s[..|s| - 1]
    requires InFirstOrder(r, s[..|s| - 1])
    ensures InFirstOrder(r, s)
    ensures forall k :: 0 <= k < |r| ==> FirstAt(s, r[k]) < |s| - 1
  {
    forall k | 0 <= k < |r|
      ensures FirstAt(s, r[k]) == FirstAt(s[..|s| - 1], r[k]) < |s| - 1
    {
      FirstAtInInit(s, r[k]);
    }
  }

  lemma FirstAtInInit<T>(s: seq<T>, x: T)
    requires |s| > 0 && x in s[..|s| - 1]
    ensures FirstAt(s, x) == FirstAt(s[..|s| - 1], x) < |s| - 1
  {
    var init := s[..|s| - 1];
    var i := FirstAt(init, x);
    assert s[i] == init[i];
    FirstAtMinimal(s, x, i);
    var j := FirstAt(s, x);
    assert init[j] == s[j];
    FirstAtMinimal(init, x, j);
  }

  /** Filtering keeps the order of first occurrences. */
  lemma {:induction false} FilterInFirstOrder<T>(r: seq<T>, s: seq<T>, p: T -> bool)
    requires forall k :: 0 <= k < |r| ==> r[k] in s
    requires InFirstOrder(r, s)
    ensures InFirstOrder(Filter(r, p), s)
    decreases |r|
  {
    if |r| > 0 {
      var tail := r[1..];
      TailInFirstOrder(r, s);
      FilterInFirstOrder(tail, s, p);
      var rest := Filter(tail, p);
      if p(r[0]) {
        HeadComesFirst(r, s, rest);
        ConsInFirstOrder(r[0], rest, s);
      }
    }
  }

  lemma TailInFirstOrder<T>(r: seq<T>, s: seq<T>)
    requires |r| > 0 && InFirstOrder(r, s)
    ensures InFirstOrder(r[1..], s)
  {
    assert forall k :: 0 <= k < |r| - 1 ==> r[1..][k] == r[k + 1];
  }

  /** The head of a list in first-occurrence order comes before every element
      drawn from its tail. */
  lemma HeadComesFirst<T>(r: seq<T>, s: seq<T>, q: seq<T>)
    requires |r| > 0 && r[0] in s && InFirstOrder(r, s)
    requires forall k :: 0 <= k < |q| ==> q[k] in r[1..] && q[k] in s
    ensures forall k :: 0 <= k < |q| ==> FirstAt(s, r[0]) < FirstAt(s, q[k])
  {
    forall k | 0 <= k < |q|
      ensures FirstAt(s, r[0]) < FirstAt(s, q[k])
    {
      var m :| 1 <= m < |r| && r[m] == q[k];
    }
  }

  lemma ConsInFirstOrder<T>(x: T, q: seq<T>, s: seq<T>)
    requires x in s && InFirstOrder(q, s)
    requires forall k :: 0 <= k < |q| ==> q[k] in s && FirstAt(s, x) < FirstAt(s, q[k])
    ensures InFirstOrder([x] + q, s)
  {
    assert forall k :: 0 < k <= |q| ==> ([x] + q)[k] == q[k - 1];
  }

  lemma {:induction false} DedupNoDup<T>(s: seq<T>)
    requires NoDup(s)
    ensures Dedup(s) == s
    decreases |s|
  {
    if |s| > 0 {
      DedupNoDup(s[..|s| - 1]);
      assert s == s[..|s| - 1] + [s[|s| - 1]];
    }
  }

  /** Appending elements that are already present to a duplicate-free list
      changes nothing once duplicates are dropped. */
  lemma {:induction false} DedupAbsorbs<T>(a: seq<T>, b: seq<T>)
    requires NoDup(a)
    requires forall x :: x in b ==> x in a
    ensures Dedup(a + b) == a
    decreases |b|
  {
    if |b| == 0 {
      assert a + b == a;
      DedupNoDup(a);
    } else {
      var b' := b[..|b| - 1];
      assert (a + b)[..|a + b| - 1] == a + b';
      DedupAbsorbs(a, b');
    }
  }

  /** `s.filter(p)`: the elements satisfying `p`, in their original order. */
  function Filter<T>(s: seq<T>, p: T -> bool): (r: seq<T>)
    ensures |r| <= |s|
    ensures forall k :: 0 <= k < |r| ==> p(r[k]) && r[k] in s
    ensures forall k :: 0 <= k < |s| && p(s[k]) ==> s[k] in r
    ensures |s| > 0 && p(s[0]) ==> |r| > 0 && r[0] == s[0]
  {
    if |s| == 0 then []
    else
      var rest := Filter(s[1..], p);
      if p(s[0]) then [s[0]] + rest else rest
  }

  /** Filtering distributes over concatenation, so the survivors keep their
      relative order. */
  lemma {:induction false} FilterAppend<T>(a: seq<T>, b: seq<T>, p: T -> bool)
    ensures Filter(a + b, p) == Filter(a, p) + Filter(b, p)
    decreases |a|
  {
    if |a| == 0 {
      assert a + b == b;
    } else {
      assert (a + b)[1..] == a[1..] + b;
      assert (a + b)[0] == a[0];
      FilterAppend(a[1..], b, p);
    }
  }

  /** Filtering a duplicate-free list leaves it duplicate-free. */
  lemma {:induction false} FilterNoDup<T>(s: seq<T>, p: T -> bool)
    requires NoDup(s)
    ensures NoDup(Filter(s, p))
    decreases |s|
  {
    if |s| > 0 {
      var rest := Filter(s[1..], p);
      assert NoDup(s[1..]) by {
        assert forall k :: 0 <= k < |s| - 1 ==> s[1..][k] == s[k + 1];
      }
      FilterNoDup(s[1..], p);
      if p(s[0]) {
        assert s[0] !in s[1..];
        var r := [s[0]] + rest;
        assert forall k :: 1 <= k < |r| ==> r[k] == rest[k - 1];
      }
    }
  }

  /** The elements of a list, as `new Set(list)` sees them. */
  function Elems<T>(s: seq<T>): (r: set<T>)
    ensures forall k :: 0 <= k < |s| ==> s[k] in r
    ensures forall x :: x in r ==> x in s
  {
    set k | 0 <= k < |s| :: s[k]
  }

  lemma ElemsAppend<T>(a: seq<T>, b: seq<T>)
    ensures Elems(a + b) == Elems(a) + Elems(b)
  {
    forall x | x in Elems(a + b) ensures x in Elems(a) + Elems(b) {
      var k :| 0 <= k < |a + b| && (a + b)[k] == x;
      if k >= |a| {
        assert b[k - |a|] == x;
      }
    }
    forall x | x in Elems(a) ensures x in Elems(a + b) {
      var k :| 0 <= k < |a| && a[k] == x;
      assert (a + b)[k] == x;
    }
    forall x | x in Elems(b) ensures x in Elems(a + b) {
      var k :| 0 <= k < |b| && b[k] == x;
      assert (a + b)[|a| + k] == x;
    }
  }

  lemma DedupElems<T>(s: seq<T>)
    ensures Elems(Dedup(s)) == Elems(s)
  {
  }
}
