/**
 Python's `str.split()` with no separator: the string is cut at runs of
 whitespace, and leading and trailing whitespace produce no empty pieces.
 */
module Tokens {

  /** The characters Python's `str.isspace` accepts. */
  predicate IsSpace(c: char)
  {
    || '\t' <= c <= '\r'
    || '\U{1C}' <= c <= ' '
    || c == '\U{85}' || c == '\U{A0}' || c == '\U{1680}'
    || '\U{2000}' <= c <= '\U{200A}'
    || c == '\U{2028}' || c == '\U{2029}' || c == '\U{202F}' || c == '\U{205F}' || c == '\U{3000}'
  }

  predicate AllSpace(s: string)
  {
    forall i :: 0 <= i < |s| ==> IsSpace(s[i])
  }

  predicate NoSpace(s: string)
  {
    forall i :: 0 <= i < |s| ==> !IsSpace(s[i])
  }

  /**
   The first position at or after `i` that is not whitespace, or `|s|`
   (see `SkipSpaceSpec`).
   */
  function SkipSpace(s: string, i: nat): (j: nat)
    requires i <= |s|
    ensures i <= j <= |s|
    ensures j < |s| ==> !IsSpace(s[j])
    decreases |s| - i
  {
    if i == |s| || !IsSpace(s[i]) then i else SkipSpace(s, i + 1)
  }

  /** Everything `SkipSpace` passes over is whitespace. */
  lemma {:induction false} SkipSpaceSpec(s: string, i: nat)
    requires i <= |s|
    ensures forall k :: i <= k < SkipSpace(s, i) ==> IsSpace(s[k])
    decreases |s| - i
  {
    if i < |s| && IsSpace(s[i]) {
      SkipSpaceSpec(s, i + 1);
    }
  }

  /**
   The first position at or after `i` that is whitespace, or `|s|`
   (see `SkipWordSpec`).
   */
  function SkipWord(s: string, i: nat): (j: nat)
    requires i <= |s|
    ensures i <= j <= |s|
    ensures j < |s| ==> IsSpace(s[j])
    decreases |s| - i
  {
    if i == |s| || IsSpace(s[i]) then i else SkipWord(s, i + 1)
  }

  /** Everything `SkipWord` passes over is not whitespace. */
  lemma {:induction false} SkipWordSpec(s: string, i: nat)
    requires i <= |s|
    ensures forall k :: i <= k < SkipWord(s, i) ==> !IsSpace(s[k])
    decreases |s| - i
  {
    if i < |s| && !IsSpace(s[i]) {
      SkipWordSpec(s, i + 1);
    }
  }

  /** Length of the whitespace run at the front of `s`. */
  function LeadingSpace(s: string): nat
  {
    SkipSpace(s, 0)
  }

  /** `s[a..b]`, character by character. */
  function Slice(s: string, a: nat, b: nat): (piece: string)
    requires a <= b <= |s|
    ensures |piece| == b - a
    ensures forall k :: 0 <= k < |piece| ==> piece[k] == s[a + k]
  {
    seq(b - a, k requires 0 <= k < b - a => s[a + k])
  }

  /**
   The pieces of `s[i..].split()`, found by scanning `s` from `i` (see
   `SplitFromSpec` and `SplitFromShift`).
   */
  function SplitFrom(s: string, i: nat): seq<string>
    requires i <= |s|
    decreases |s| - i
  {
    var lead := SkipSpace(s, i);
    if lead == |s| then []
    else
      var end := SkipWord(s, lead);
      [Slice(s, lead, end)] + SplitFrom(s, end)
  }

  /** Every piece found from `i` is a non-empty word; there are none exactly when only whitespace follows `i`. */
  lemma {:induction false} SplitFromSpec(s: string, i: nat)
    requires i <= |s|
    ensures forall w :: 0 <= w < |SplitFrom(s, i)| ==> |SplitFrom(s, i)[w]| > 0 && NoSpace(SplitFrom(s, i)[w])
    ensures |SplitFrom(s, i)| == 0 <==> forall k :: i <= k < |s| ==> IsSpace(s[k])
    decreases |s| - i
  {
    var lead := SkipSpace(s, i);
    SkipSpaceSpec(s, i);
    if lead < |s| {
      var end := SkipWord(s, lead);
      SkipWordSpec(s, lead);
      SplitFromSpec(s, end);
      var piece := Slice(s, lead, end);
      assert NoSpace(piece);
      assert SplitFrom(s, i) == [piece] + SplitFrom(s, end);
    }
  }

  /** `s.split()`: the maximal runs of non-whitespace, in order (see `SplitStep`). */
  function Split(s: string): (words: seq<string>)
    ensures forall w :: 0 <= w < |words| ==> |words[w]| > 0 && NoSpace(words[w])
    ensures |words| == 0 <==> AllSpace(s)
  {
    SplitFromSpec(s, 0);
    SplitFrom(s, 0)
  }

  /**
   `word` is the first whitespace-delimited token of `s` and starts at
   `start`: only whitespace precedes it, and it ends at the end of `s` or
   at a whitespace character.
   */
  predicate FirstTokenAt(s: string, start: nat, word: string)
  {
    && start + |word| <= |s|
    && (forall k :: 0 <= k < start ==> IsSpace(s[k]))
    && (forall k :: 0 <= k < |word| ==> s[start + k] == word[k])
    && |word| > 0
    && NoSpace(word)
    && (start + |word| == |s| || IsSpace(s[start + |word|]))
  }

  /** Any index range meeting the description of `SkipSpace` is the one it returns. */
  lemma SkipSpaceUnique(s: string, i: nat, j: nat)
    requires i <= j <= |s|
    requires forall k :: i <= k < j ==> IsSpace(s[k])
    requires j < |s| ==> !IsSpace(s[j])
    ensures SkipSpace(s, i) == j
  {
    SkipSpaceSpec(s, i);
  }

  /** Any index range meeting the description of `SkipWord` is the one it returns. */
  lemma SkipWordUnique(s: string, i: nat, j: nat)
    requires i <= j <= |s|
    requires forall k :: i <= k < j ==> !IsSpace(s[k])
    requires j < |s| ==> IsSpace(s[j])
    ensures SkipWord(s, i) == j
  {
    SkipWordSpec(s, i);
  }

  /** The word after the leading whitespace is the first token. */
  lemma LeadingWord(s: string)
    requires !AllSpace(s)
    ensures var lead := LeadingSpace(s); var end := SkipWord(s, lead);
      lead < end && FirstTokenAt(s, lead, Slice(s, lead, end))
  {
    var lead := SkipSpace(s, 0);
    SkipSpaceSpec(s, 0);
    var end := SkipWord(s, lead);
    SkipWordSpec(s, lead);
  }

  /** `split()[0]` is exactly the first token, and exists unless `s` is blank. */
  lemma SplitHead(s: string)
    ensures AllSpace(s) ==> Split(s) == []
    ensures !AllSpace(s) ==> |Split(s)| > 0 && FirstTokenAt(s, LeadingSpace(s), Split(s)[0])
  {
    if !AllSpace(s) {
      LeadingWord(s);
      var lead := LeadingSpace(s);
      SplitFromStep(s, 0, lead, SkipWord(s, lead));
    }
  }

  /** At most one token can be the first one. */
  lemma FirstTokenUnique(s: string, start: nat, word: string)
    requires FirstTokenAt(s, start, word)
    ensures start == LeadingSpace(s)
    ensures word == Split(s)[0]
  {
    assert s[start] == word[0];
    SkipSpaceUnique(s, 0, start);
    assert forall k :: start <= k < start + |word| ==> !IsSpace(s[k]) by {
      forall k | start <= k < start + |word| ensures !IsSpace(s[k]) {
        assert s[start + (k - start)] == word[k - start];
      }
    }
    SkipWordUnique(s, start, start + |word|);
    SplitHead(s);
    assert word == Slice(s, start, start + |word|);
  }

  /** `u` is `s` with its first `d` characters removed. */
  predicate ShiftedBy(s: string, u: string, d: nat)
  {
    && d <= |s| && |u| == |s| - d
    && forall k :: 0 <= k < |u| ==> u[k] == s[k + d]
  }

  /** Scanning `s` from `i` finds the same positions as scanning `u` from `i - d`. */
  lemma SkipShift(s: string, u: string, d: nat, i: nat)
    requires ShiftedBy(s, u, d) && d <= i <= |s|
    ensures SkipSpace(u, i - d) == SkipSpace(s, i) - d
    ensures SkipWord(u, i - d) == SkipWord(s, i) - d
  {
    var j := SkipSpace(s, i);
    SkipSpaceSpec(s, i);
    SkipWordSpec(s, i);
    assert j - d < |u| ==> u[j - d] == s[j];
    SkipSpaceUnique(u, i - d, j - d);
    var e := SkipWord(s, i);
    assert e - d < |u| ==> u[e - d] == s[e];
    SkipWordUnique(u, i - d, e - d);
  }

  /** The same stretch of `s` and of `u`. */
  lemma SliceShift(s: string, u: string, d: nat, a: nat, b: nat)
    requires ShiftedBy(s, u, d) && d <= a <= b <= |s|
    ensures Slice(u, a - d, b - d) == Slice(s, a, b)
  {
  }

  /** One step of the scan: the word found at `lead`, then the scan from its end. */
  lemma SplitFromStep(s: string, i: nat, lead: nat, end: nat)
    requires i <= |s| && lead == SkipSpace(s, i) && lead < |s|
    requires end == SkipWord(s, lead)
    ensures lead < end
    ensures SplitFrom(s, i) == [Slice(s, lead, end)] + SplitFrom(s, end)
  {
  }

  lemma HeadTail<T>(xs: seq<T>, x: T, rest: seq<T>)
    requires xs == [x] + rest
    ensures |xs| > 0 && xs[0] == x && xs[1..] == rest
  {
  }

  /** Scanning `s` from `i` splits exactly what `u` splits from `i - d`. */
  lemma {:induction false} SplitFromShift(s: string, u: string, d: nat, i: nat)
    requires ShiftedBy(s, u, d) && d <= i <= |s|
    ensures SplitFrom(s, i) == SplitFrom(u, i - d)
    decreases |s| - i
  {
    var lead := SkipSpace(s, i);
    SkipShift(s, u, d, i);
    if lead < |s| {
      var end := SkipWord(s, lead);
      SkipShift(s, u, d, lead);
      SplitFromShift(s, u, d, end);
      SplitFromStep(s, i, lead, end);
      SplitFromStep(u, i - d, lead - d, end - d);
      SliceShift(s, u, d, lead, end);
    }
  }

  lemma DropShifted(s: string, d: nat)
    requires d <= |s|
    ensures ShiftedBy(s, s[d..], d)
  {
  }

  /** Scanning `s` from `end` is splitting what follows `end`. */
  lemma SplitRest(s: string, end: nat)
    requires end <= |s|
    ensures SplitFrom(s, end) == Split(s[end..])
  {
    DropShifted(s, end);
    SplitFromShift(s, s[end..], end, end);
  }

  /** After the first piece, `split()` goes on scanning where that piece ends. */
  lemma SplitTail(s: string)
    requires !AllSpace(s)
    ensures |Split(s)| > 0 && LeadingSpace(s) + |Split(s)[0]| <= |s|
    ensures Split(s)[1..] == SplitFrom(s, LeadingSpace(s) + |Split(s)[0]|)
  {
    var lead := LeadingSpace(s);
    SkipSpaceSpec(s, 0);
    var end := SkipWord(s, lead);
    SplitFromStep(s, 0, lead, end);
    HeadTail(Split(s), Slice(s, lead, end), SplitFrom(s, end));
    assert LeadingSpace(s) + |Split(s)[0]| == end;
  }

  /**
   Pieces of `split()` one at a time: the first piece is the first token
   of `s`, and the remaining pieces are the split of what follows it.
   */
  lemma SplitStep(s: string)
    requires !AllSpace(s)
    ensures |Split(s)| > 0
    ensures FirstTokenAt(s, LeadingSpace(s), Split(s)[0])
    ensures Split(s)[1..] == Split(s[LeadingSpace(s) + |Split(s)[0]|..])
  {
    SplitHead(s);
    SplitTail(s);
    SplitRest(s, LeadingSpace(s) + |Split(s)[0]|);
  }
}
