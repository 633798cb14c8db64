/**
 * `format_answer` of qa_processor.py: collapse every run of whitespace to one
 * space, then turn a comma-separated answer with at least two commas into a
 * bulleted list, one line per comma-separated item.
 */
module AnswerFormat {
  import opened Text

  /** A word of `str.split()`: non-empty and free of whitespace. */
  predicate IsWord(w: string) {
    w != [] && forall k :: 0 <= k < |w| ==> !IsSpace(w[k])
  }

  /** Whitespace occurs only as single `' '` characters strictly between two
      non-whitespace characters: no leading or trailing whitespace, and no
      two whitespace characters side by side. */
  predicate SingleSpaced(r: string) {
    forall k :: 0 <= k < |r| && IsSpace(r[k]) ==>
      r[k] == ' ' && 0 < k < |r| - 1 && !IsSpace(r[k - 1]) && !IsSpace(r[k + 1])
  }

  /** The end of the whitespace-free run that starts at `i`. */
  function WordEnd(s: string, i: nat): (j: nat)
    requires i <= |s|
    ensures i <= j <= |s|
    decreases |s| - i
  {
    if i < |s| && !IsSpace(s[i]) then WordEnd(s, i + 1) else i
  }

  /** `WordEnd` passes over non-whitespace only and stops at whitespace. */
  lemma {:induction false} WordEndSpec(s: string, i: nat)
    requires i <= |s|
    ensures forall k :: i <= k < WordEnd(s, i) ==> !IsSpace(s[k])
    ensures WordEnd(s, i) < |s| ==> IsSpace(s[WordEnd(s, i)])
    decreases |s| - i
  {
    if i < |s| && !IsSpace(s[i]) {
      WordEndSpec(s, i + 1);
    }
  }

  lemma {:induction false} WordEndIs(s: string, i: nat, j: nat)
    requires i <= j <= |s|
    requires forall k :: i <= k < j ==> !IsSpace(s[k])
    requires j < |s| ==> IsSpace(s[j])
    ensures WordEnd(s, i) == j
    decreases j - i
  {
    if i < j {
      WordEndIs(s, i + 1, j);
    }
  }

  /** The words of `s` from index `i` on. */
  function WordsFrom(s: string, i: nat): seq<string>
    requires i <= |s|
    decreases |s| - i
  {
    var a := SkipSpaces(s, i);
    if a == |s| then []
    else
      var b := WordEnd(s, a);
      [s[a..b]] + WordsFrom(s, b)
  }

  lemma {:induction false} WordsFromAreWords(s: string, i: nat)
    requires i <= |s|
    ensures forall m :: 0 <= m < |WordsFrom(s, i)| ==> IsWord(WordsFrom(s, i)[m])
    decreases |s| - i
  {
    var a := SkipSpaces(s, i);
    if a < |s| {
      var b := WordEnd(s, a);
      SkipSpacesSpec(s, i);
      WordEndSpec(s, a);
      WordsFromUnfold(s, i, a, b);
      WordsFromAreWords(s, b);
      assert IsWord(s[a..b]) by {
        forall k | 0 <= k < b - a ensures !IsSpace(s[a..b][k]) {
          assert s[a..b][k] == s[a + k];
        }
      }
    }
  }

  /** `s.split()`: the maximal whitespace-free runs of `s`, in order. */
  function Words(s: string): (ws: seq<string>)
    ensures forall m :: 0 <= m < |ws| ==> IsWord(ws[m])
  {
    WordsFromAreWords(s, 0);
    WordsFrom(s, 0)
  }

  /** The whitespace runs of `s` from index `i` on: the run before each word,
      then the run after the last word. */
  function GapsFrom(s: string, i: nat): seq<string>
    requires i <= |s|
    decreases |s| - i
  {
    var a := SkipSpaces(s, i);
    if a == |s| then [s[i..]]
    else [s[i..a]] + GapsFrom(s, WordEnd(s, a))
  }

  function Gaps(s: string): seq<string> {
    GapsFrom(s, 0)
  }

  /** `gaps[0] + words[0] + gaps[1] + ... + words[n - 1] + gaps[n]`. */
  function Interleave(gaps: seq<string>, words: seq<string>): string
    requires |gaps| == |words| + 1
  {
    if words == [] then gaps[0]
    else gaps[0] + words[0] + Interleave(gaps[1..], words[1..])
  }

  lemma GapAllSpace(s: string, i: nat, a: nat)
    requires i <= a <= |s|
    requires forall k :: i <= k < a ==> IsSpace(s[k])
    ensures AllSpace(s[i..a])
  {
    forall k | 0 <= k < a - i ensures IsSpace(s[i..a][k]) {
      assert s[i..a][k] == s[i + k];
    }
  }

  lemma SlicesJoin(s: string, i: nat, a: nat, b: nat)
    requires i <= a <= b <= |s|
    ensures s[i..a] + s[a..b] + s[b..] == s[i..]
  {
  }

  /** From index `i` on, `s` is its words interleaved with whitespace-only
      gaps, and every gap between two words is non-empty. */
  lemma {:induction false} WordsFromSplit(s: string, i: nat)
    requires i <= |s|
    ensures |GapsFrom(s, i)| == |WordsFrom(s, i)| + 1
    ensures Interleave(GapsFrom(s, i), WordsFrom(s, i)) == s[i..]
    ensures forall k :: 0 <= k < |GapsFrom(s, i)| ==> AllSpace(GapsFrom(s, i)[k])
    ensures forall k :: 0 < k < |GapsFrom(s, i)| - 1 ==> GapsFrom(s, i)[k] != []
    decreases |s| - i
  {
    var a := SkipSpaces(s, i);
    SkipSpacesSpec(s, i);
    GapAllSpace(s, i, a);
    if a == |s| {
      WordsFromDone(s, i);
    } else {
      var b := WordEnd(s, a);
      WordsFromUnfold(s, i, a, b);
      WordsFromSplit(s, b);
      var gs, ws := GapsFrom(s, b), WordsFrom(s, b);
      var g := GapsFrom(s, i);
      assert g == [s[i..a]] + gs;
      assert g[1..] == gs && WordsFrom(s, i)[1..] == ws;
      SlicesJoin(s, i, a, b);
      if |gs| > 1 {
        var c := SkipSpaces(s, b);
        if c == |s| {
          WordsFromDone(s, b);
        }
        WordEndSpec(s, a);
        SkipSpacesSpec(s, b);
        assert gs[0] == s[b..c] && b < c;
      }
    }
  }

  /** `s.split()` cuts `s` into its words and the whitespace between them:
      `s` is the words interleaved with whitespace-only gaps, and the gap
      between two words is never empty, so each word is a maximal
      whitespace-free run and no character is lost. */
  lemma WordsSplit(s: string)
    ensures |Gaps(s)| == |Words(s)| + 1
    ensures Interleave(Gaps(s), Words(s)) == s
    ensures forall k :: 0 <= k < |Gaps(s)| ==> AllSpace(Gaps(s)[k])
    ensures forall k :: 0 < k < |Gaps(s)| - 1 ==> Gaps(s)[k] != []
  {
    WordsFromSplit(s, 0);
    assert s[0..] == s;
  }

  /** `' '.join(s.split())`, the whitespace step of `format_answer`. */
  function Collapse(s: string): string {
    Join(" ", Words(s))
  }

  /** The bullet that prefixes each list line: U+2022 and a space. */
  const BulletPrefix: string := ['\U{2022}', ' ']

  function BulletLines(items: seq<string>): (lines: seq<string>)
    ensures |lines| == |items|
    ensures forall i :: 0 <= i < |items| ==> lines[i] == BulletPrefix + Strip(items[i])
  {
    seq(|items|, i requires 0 <= i < |items| => BulletPrefix + Strip(items[i]))
  }

  /** `format_answer(answer)`. */
  function FormatAnswer(answer: string): string {
    var a := Collapse(answer);
    if ',' in a && |SplitOn(a, ',')| > 2 then
      Join("\n", BulletLines(SplitOn(a, ',')))
    else
      a
  }

  /** `t` sits in `s` at offset `d` and runs to the end of `s`. */
  predicate SuffixAt(s: string, t: string, d: nat) {
    d + |t| == |s| && forall k :: 0 <= k < |t| ==> s[d + k] == t[k]
  }

  /** The words of a string from offset `d + i` are the words of its suffix
      `t` from `i`. */
  lemma {:induction false} WordsFromShift(s: string, t: string, d: nat, i: nat)
    requires SuffixAt(s, t, d) && i <= |t|
    ensures WordsFrom(s, d + i) == WordsFrom(t, i)
    decreases |t| - i
  {
    var a := SkipSpaces(t, i);
    ShiftedSkip(s, t, d, i);
    if a < |t| {
      var b := WordEnd(t, a);
      ShiftedWordEnd(s, t, d, a);
      calc {
        WordsFrom(s, d + i);
        { WordsFromUnfold(s, d + i, d + a, d + b); }
        [s[d + a..d + b]] + WordsFrom(s, d + b);
        { ShiftSlice(s, t, d, a, b); WordsFromShift(s, t, d, b); }
        [t[a..b]] + WordsFrom(t, b);
        { WordsFromUnfold(t, i, a, b); }
        WordsFrom(t, i);
      }
    } else {
      WordsFromDone(s, d + i);
    }
  }

  /** No words remain once only whitespace is left. */
  lemma WordsFromDone(s: string, i: nat)
    requires i <= |s| && SkipSpaces(s, i) == |s|
    ensures WordsFrom(s, i) == []
  {
  }

  /** One step of `WordsFrom`: the first word, then the words after it. */
  lemma WordsFromUnfold(s: string, i: nat, a: nat, b: nat)
    requires i <= |s| && a == SkipSpaces(s, i) < |s| && b == WordEnd(s, a)
    ensures WordsFrom(s, i) == [s[a..b]] + WordsFrom(s, b)
  {
  }

  lemma ShiftedSkip(s: string, t: string, d: nat, i: nat)
    requires SuffixAt(s, t, d) && i <= |t|
    ensures SkipSpaces(s, d + i) == d + SkipSpaces(t, i)
  {
    var a := SkipSpaces(t, i);
    SkipSpacesSpec(t, i);
    forall k | d + i <= k < d + a ensures IsSpace(s[k]) {
      assert s[k] == t[k - d];
    }
    if a < |t| {
      assert s[d + a] == t[a];
    }
    SkipSpacesIs(s, d + i, d + a);
  }

  lemma ShiftedWordEnd(s: string, t: string, d: nat, a: nat)
    requires SuffixAt(s, t, d) && a <= |t|
    ensures WordEnd(s, d + a) == d + WordEnd(t, a)
  {
    var b := WordEnd(t, a);
    WordEndSpec(t, a);
    forall k | d + a <= k < d + b ensures !IsSpace(s[k]) {
      assert s[k] == t[k - d];
    }
    if b < |t| {
      assert s[d + b] == t[b];
    }
    WordEndIs(s, d + a, d + b);
  }

  lemma ShiftSlice(s: string, t: string, d: nat, a: nat, b: nat)
    requires SuffixAt(s, t, d) && a <= b <= |t|
    ensures s[d + a..d + b] == t[a..b]
  {
    forall k | 0 <= k < b - a ensures s[d + a..d + b][k] == t[a..b][k] {
      assert s[d + a + k] == t[a + k];
    }
  }

  /** Splitting a space-joined list of words gives the words back. */
  lemma {:induction false} WordsOfJoin(ws: seq<string>)
    requires forall i :: 0 <= i < |ws| ==> IsWord(ws[i])
    ensures Words(Join(" ", ws)) == ws
  {
    if |ws| == 1 {
      var w := ws[0];
      WordEndIs(w, 0, |w|);
      WordsFromUnfold(w, 0, 0, |w|);
      SkipSpacesIs(w, |w|, |w|);
      WordsFromDone(w, |w|);
      assert w[0..|w|] == w;
    } else if |ws| > 1 {
      WordsOfJoinStep(ws);
      WordsOfJoin(ws[1..]);
      assert ws == [ws[0]] + ws[1..];
    }
  }

  /** The first word of a space-joined list is split off first. */
  lemma WordsOfJoinStep(ws: seq<string>)
    requires |ws| > 1
    requires forall i :: 0 <= i < |ws| ==> IsWord(ws[i])
    ensures Words(Join(" ", ws)) == [ws[0]] + Words(Join(" ", ws[1..]))
  {
    var j := Join(" ", ws[1..]);
    JoinWordsSingleSpaced(ws[1..]);
    assert Join(" ", ws) == ws[0] + " " + j;
    WordsOfWordSpace(ws[0], j);
  }

  /** A word, one space, then a single-spaced text: the word comes first. */
  lemma WordsOfWordSpace(w: string, j: string)
    requires IsWord(w) && SingleSpaced(j) && j != []
    ensures Words(w + " " + j) == [w] + Words(j)
  {
    var s := w + " " + j;
    assert forall k :: 0 <= k < |w| ==> s[k] == w[k];
    assert s[|w|] == ' ' && s[|w| + 1] == j[0];
    assert SuffixAt(s, j, |w| + 1) by {
      forall k | 0 <= k < |j| ensures s[|w| + 1 + k] == j[k] { }
    }
    WordEndIs(s, 0, |w|);
    WordsFromUnfold(s, 0, 0, |w|);
    assert s[0..|w|] == w;
    SkipSpacesIs(s, |w|, |w| + 1);
    WordsFromSkip(s, |w|);
    WordsFromShift(s, j, |w| + 1, 0);
  }

  /** Leading whitespace does not change the words. */
  lemma WordsFromSkip(s: string, i: nat)
    requires i <= |s|
    ensures WordsFrom(s, i) == WordsFrom(s, SkipSpaces(s, i))
  {
    var a := SkipSpaces(s, i);
    SkipSpacesSpec(s, i);
    SkipSpacesIs(s, a, a);
  }

  /** Joining words with single spaces gives a single-spaced text that starts
      with the first word. */
  lemma {:induction false} JoinWordsSingleSpaced(ws: seq<string>)
    requires forall i :: 0 <= i < |ws| ==> IsWord(ws[i])
    ensures SingleSpaced(Join(" ", ws))
    ensures ws != [] ==> Join(" ", ws) != []
  {
    if |ws| > 1 {
      var w, j := ws[0], Join(" ", ws[1..]);
      JoinWordsSingleSpaced(ws[1..]);
      var r := w + " " + j;
      assert Join(" ", ws) == r;
      forall k | 0 <= k < |r| && IsSpace(r[k])
        ensures r[k] == ' ' && 0 < k < |r| - 1 && !IsSpace(r[k - 1]) && !IsSpace(r[k + 1])
      {
        if k == |w| {
          assert r[k - 1] == w[|w| - 1];
          assert r[k + 1] == j[0];
        } else if k > |w| {
          assert r[k] == j[k - |w| - 1];
          assert r[k - 1] == j[k - |w| - 2];
          assert r[k + 1] == j[k - |w|];
        }
      }
    }
  }

  /** The whitespace step leaves no leading or trailing whitespace and never
      two whitespace characters side by side. */
  lemma CollapseSingleSpaced(s: string)
    ensures SingleSpaced(Collapse(s))
    ensures Trimmed(Collapse(s))
  {
    JoinWordsSingleSpaced(Words(s));
  }

  /** The whitespace step keeps the words of the answer, in order. */
  lemma CollapseKeepsWords(s: string)
    ensures Words(Collapse(s)) == Words(s)
  {
    WordsOfJoin(Words(s));
  }

  /** Applying the whitespace step twice equals applying it once. */
  lemma CollapseIdempotent(s: string)
    ensures Collapse(Collapse(s)) == Collapse(s)
  {
    CollapseKeepsWords(s);
  }

  lemma CharOfPart(parts: seq<string>, i: nat, sep: string, c: char)
    requires i < |parts| && c in parts[i]
    ensures c in Join(sep, parts)
    decreases |parts|
  {
    if i > 0 {
      CharOfPart(parts[1..], i - 1, sep, c);
    }
  }

  /** An answer whose collapsed text has fewer than two commas comes back
      collapsed and otherwise unchanged. */
  lemma FormatFewCommas(answer: string)
    requires Count(Collapse(answer), ',') < 2
    ensures FormatAnswer(answer) == Collapse(answer)
  {
  }

  /** An answer whose collapsed text has at least two commas becomes
      `#commas + 1` lines separated by `'\n'`; line `i` is the bullet followed
      by the `i`-th comma-separated item, stripped, in the original order. */
  lemma FormatBulletList(answer: string)
    requires Count(Collapse(answer), ',') >= 2
    ensures var a := Collapse(answer);
      var items := SplitOn(a, ',');
      var lines := SplitOn(FormatAnswer(answer), '\n');
      && Join(",", items) == a
      && |lines| == Count(a, ',') + 1
      && forall i :: 0 <= i < |lines| ==> lines[i] == BulletPrefix + Strip(items[i]) && Trimmed(Strip(items[i]))
  {
    var a := Collapse(answer);
    var items := SplitOn(a, ',');
    if ',' !in a {
      NoCharNoCount(a, ',');
    }
    var bl := BulletLines(items);
    CollapseSingleSpaced(answer);
    assert '\n' !in a;
    forall i | 0 <= i < |bl| ensures '\n' !in bl[i] && Trimmed(Strip(items[i])) {
      StripShape(items[i]);
      if '\n' in items[i] {
        CharOfPart(items, i, ",", '\n');
      }
      StripKeepsAbsence(items[i], '\n');
    }
    SplitOnJoin(Join("\n", bl), '\n', bl);
  }

  lemma StripKeepsAbsence(s: string, c: char)
    requires c !in s
    ensures c !in Strip(s)
  {
    StripShape(s);
  }

  lemma NoCharNoCount(s: string, c: char)
    requires c !in s
    ensures Count(s, c) == 0
  {
    if s != [] {
      assert s[0] != c;
      NoCharNoCount(s[1..], c);
    }
  }
}
