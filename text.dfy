/**
 * String helpers shared by the Python pipeline and the browser scripts:
 * Python's notion of whitespace, `str.strip()`, `str.split(sep)`,
 * `sep.join(...)` (also JavaScript's `Array.prototype.join`), lower-casing,
 * substring search and decimal rendering of naturals.
 */
module Text {

  /** The characters Python's `str.isspace()` accepts. */
  const SpaceChars: set<char> :=
    {'\t', '\n', '\U{0B}', '\U{0C}', '\r', '\U{1C}', '\U{1D}', '\U{1E}', '\U{1F}', ' ',
     '\U{85}', '\U{A0}', '\U{1680}',
     '\U{2000}', '\U{2001}', '\U{2002}', '\U{2003}', '\U{2004}', '\U{2005}',
     '\U{2006}', '\U{2007}', '\U{2008}', '\U{2009}', '\U{200A}',
     '\U{2028}', '\U{2029}', '\U{202F}', '\U{205F}', '\U{3000}'}

  predicate IsSpace(c: char) {
    c in SpaceChars
  }

  predicate AllSpace(s: string) {
    forall k :: 0 <= k < |s| ==> IsSpace(s[k])
  }

  /** True when `s` neither starts nor ends with whitespace. */
  predicate Trimmed(s: string) {
    s == [] || (!IsSpace(s[0]) && !IsSpace(s[|s| - 1]))
  }

  /** The first index at or after `i` that does not hold whitespace
      (or `|s|`). */
  function SkipSpaces(s: string, i: nat): (j: nat)
    requires i <= |s|
    ensures i <= j <= |s|
    decreases |s| - i
  {
    if i < |s| && IsSpace(s[i]) then SkipSpaces(s, i + 1) else i
  }

  /** `SkipSpaces` passes over whitespace only and stops at the first
      non-whitespace character. */
  lemma {:induction false} SkipSpacesSpec(s: string, i: nat)
    requires i <= |s|
    ensures forall k :: i <= k < SkipSpaces(s, i) ==> IsSpace(s[k])
    ensures SkipSpaces(s, i) < |s| ==> !IsSpace(s[SkipSpaces(s, i)])
    decreases |s| - i
  {
    if i < |s| && IsSpace(s[i]) {
      SkipSpacesSpec(s, i + 1);
    }
  }

  /** The smallest index `r` in `lo..j` such that `s[r..j]` is all whitespace. */
  function SkipSpacesBack(s: string, lo: nat, j: nat): (r: nat)
    requires lo <= j <= |s|
    ensures lo <= r <= j
    decreases j - lo
  {
    if j > lo && IsSpace(s[j - 1]) then SkipSpacesBack(s, lo, j - 1) else j
  }

  lemma {:induction false} SkipSpacesBackSpec(s: string, lo: nat, j: nat)
    requires lo <= j <= |s|
    ensures forall k :: SkipSpacesBack(s, lo, j) <= k < j ==> IsSpace(s[k])
    ensures SkipSpacesBack(s, lo, j) > lo ==> !IsSpace(s[SkipSpacesBack(s, lo, j) - 1])
    decreases j - lo
  {
    if j > lo && IsSpace(s[j - 1]) {
      SkipSpacesBackSpec(s, lo, j - 1);
    }
  }

  /** The characterisation of `SkipSpaces` by its contract: it is the only
      index with those properties. */
  lemma {:induction false} SkipSpacesIs(s: string, i: nat, j: nat)
    requires i <= j <= |s|
    requires forall k :: i <= k < j ==> IsSpace(s[k])
    requires j < |s| ==> !IsSpace(s[j])
    ensures SkipSpaces(s, i) == j
    decreases j - i
  {
    if i < j {
      SkipSpacesIs(s, i + 1, j);
    }
  }

  lemma {:induction false} SkipSpacesBackIs(s: string, lo: nat, j: nat, r: nat)
    requires lo <= r <= j <= |s|
    requires forall k :: r <= k < j ==> IsSpace(s[k])
    requires r > lo ==> !IsSpace(s[r - 1])
    ensures SkipSpacesBack(s, lo, j) == r
    decreases j - r
  {
    if r < j {
      SkipSpacesBackIs(s, lo, j - 1, r);
    }
  }

  /** `s.strip()`: the text between the leading and the trailing whitespace. */
  function Strip(s: string): string {
    var a := SkipSpaces(s, 0);
    s[a..SkipSpacesBack(s, a, |s|)]
  }

  /** `Strip` removes exactly a whitespace prefix and a whitespace suffix,
      and what remains is trimmed. */
  lemma StripShape(s: string)
    ensures Trimmed(Strip(s))
    ensures Strip(s) == s[SkipSpaces(s, 0)..SkipSpacesBack(s, SkipSpaces(s, 0), |s|)]
    ensures AllSpace(s[..SkipSpaces(s, 0)])
    ensures AllSpace(s[SkipSpacesBack(s, SkipSpaces(s, 0), |s|)..])
  {
    var a := SkipSpaces(s, 0);
    var b := SkipSpacesBack(s, a, |s|);
    SkipSpacesSpec(s, 0);
    SkipSpacesBackSpec(s, a, |s|);
    SliceEnds(s, a, b);
    PrefixAllSpace(s, a);
    SuffixAllSpace(s, b);
  }

  lemma SliceEnds(s: string, a: nat, b: nat)
    requires a <= b <= |s|
    requires a < |s| ==> !IsSpace(s[a])
    requires b > a ==> !IsSpace(s[b - 1])
    ensures Trimmed(s[a..b])
  {
    if a < b {
      assert s[a..b][0] == s[a];
      assert s[a..b][b - a - 1] == s[b - 1];
    }
  }

  lemma PrefixAllSpace(s: string, j: nat)
    requires j <= |s|
    requires forall k :: 0 <= k < j ==> IsSpace(s[k])
    ensures AllSpace(s[..j])
  {
    forall k | 0 <= k < j ensures IsSpace(s[..j][k]) {
      assert s[..j][k] == s[k];
    }
  }

  lemma SuffixAllSpace(s: string, i: nat)
    requires i <= |s|
    requires forall k :: i <= k < |s| ==> IsSpace(s[k])
    ensures AllSpace(s[i..])
  {
    forall k | 0 <= k < |s| - i ensures IsSpace(s[i..][k]) {
      assert s[i..][k] == s[i + k];
    }
  }

  /** Whatever whitespace surrounds a trimmed string, `Strip` recovers it. */
  lemma StripPadding(w1: string, r: string, w2: string)
    requires AllSpace(w1) && AllSpace(w2) && Trimmed(r)
    ensures Strip(w1 + r + w2) == r
  {
    var s := w1 + r + w2;
    assert forall k :: 0 <= k < |w1| ==> s[k] == w1[k];
    assert forall k :: 0 <= k < |r| ==> s[|w1| + k] == r[k];
    assert forall k :: 0 <= k < |w2| ==> s[|w1| + |r| + k] == w2[k];
    if r == [] {
      SkipSpacesIs(s, 0, |s|);
      SkipSpacesBackIs(s, |s|, |s|, |s|);
    } else {
      SkipSpacesIs(s, 0, |w1|);
      SkipSpacesBackIs(s, |w1|, |s|, |w1| + |r|);
      assert s[|w1|..|w1| + |r|] == r;
    }
  }

  /** `Strip` is determined by the text between the surrounding whitespace. */
  lemma StripIgnoresPadding(w1: string, y: string, w2: string)
    requires AllSpace(w1) && AllSpace(w2)
    ensures Strip(w1 + y + w2) == Strip(y)
  {
    StripShape(y);
    var a := SkipSpaces(y, 0);
    var b := SkipSpacesBack(y, a, |y|);
    var r := Strip(y);
    var p1, p2 := w1 + y[..a], y[b..] + w2;
    ThreeSlices(y, a, b);
    Regroup(w1, y[..a], r, y[b..], w2);
    SpaceAppend(w1, y[..a]);
    SpaceAppend(y[b..], w2);
    StripPadding(p1, r, p2);
  }

  lemma ThreeSlices(y: string, a: nat, b: nat)
    requires a <= b <= |y|
    ensures y == y[..a] + y[a..b] + y[b..]
  {
  }

  lemma Regroup(w1: string, y1: string, r: string, y2: string, w2: string)
    ensures w1 + (y1 + r + y2) + w2 == (w1 + y1) + r + (y2 + w2)
  {
  }

  lemma SpaceAppend(u: string, v: string)
    requires AllSpace(u) && AllSpace(v)
    ensures AllSpace(u + v)
  {
    forall k | 0 <= k < |u + v| ensures IsSpace((u + v)[k]) {
      if k < |u| { assert (u + v)[k] == u[k]; } else { assert (u + v)[k] == v[k - |u|]; }
    }
  }

  /** Lower-casing of one character, restricted to ASCII letters. */
  function LowerChar(c: char): char {
    if 'A' <= c <= 'Z' then (c as int - 'A' as int + 'a' as int) as char else c
  }

  /** `s.lower()` in Python, `s.toLowerCase()` in JavaScript (ASCII letters only). */
  function Lower(s: string): (r: string)
    ensures |r| == |s|
    ensures forall k :: 0 <= k < |s| ==> r[k] == LowerChar(s[k])
  {
    seq(|s|, k requires 0 <= k < |s| => LowerChar(s[k]))
  }

  lemma LowerAppend(a: string, b: string)
    ensures Lower(a + b) == Lower(a) + Lower(b)
  {
    assert forall k :: 0 <= k < |a + b| ==> Lower(a + b)[k] == (Lower(a) + Lower(b))[k];
  }

  /** Lower-casing leaves whitespace whitespace. */
  lemma LowerKeepsSpace(w: string)
    requires AllSpace(w)
    ensures AllSpace(Lower(w))
  {
    forall k | 0 <= k < |w| ensures IsSpace(Lower(w)[k]) {
      assert Lower(w)[k] == LowerChar(w[k]) == w[k];
    }
  }

  /** Number of occurrences of `c` in `s`. */
  function Count(s: string, c: char): nat {
    if s == [] then 0 else (if s[0] == c then 1 else 0) + Count(s[1..], c)
  }

  /** `sep.join(parts)` in Python and `parts.join(sep)` in JavaScript. */
  function Join(sep: string, parts: seq<string>): string {
    if |parts| == 0 then ""
    else if |parts| == 1 then parts[0]
    else parts[0] + sep + Join(sep, parts[1..])
  }

  lemma JoinPrepend(sep: string, x: string, parts: seq<string>)
    requires |parts| >= 1
    ensures Join(sep, [x] + parts) == x + sep + Join(sep, parts)
  {
    assert ([x] + parts)[1..] == parts;
  }

  lemma JoinExtendFirst(sep: string, x: char, parts: seq<string>)
    requires |parts| >= 1
    ensures Join(sep, [[x] + parts[0]] + parts[1..]) == [x] + Join(sep, parts)
  {
    var ps := [[x] + parts[0]] + parts[1..];
    if |parts| > 1 {
      assert ps[1..] == parts[1..];
    }
  }

  /** `s.split(c)` in Python with a one-character separator: `Count(s, c) + 1`
      pieces, none holding `c`, that `c`.join puts back together. */
  function SplitOn(s: string, c: char): (parts: seq<string>)
    ensures |parts| == Count(s, c) + 1
    ensures forall i :: 0 <= i < |parts| ==> c !in parts[i]
    ensures Join([c], parts) == s
  {
    if s == [] then [""]
    else
      var rest := SplitOn(s[1..], c);
      if s[0] == c then
        JoinPrepend([c], "", rest);
        [""] + rest
      else
        JoinExtendFirst([c], s[0], rest);
        [[s[0]] + rest[0]] + rest[1..]
  }

  /** Splitting a join of `c`-free pieces gives the pieces back: any
      decomposition of `s` into such pieces is the split of `s`. */
  lemma {:induction false} SplitOnJoin(s: string, c: char, parts: seq<string>)
    requires |parts| >= 1
    requires forall i :: 0 <= i < |parts| ==> c !in parts[i]
    requires Join([c], parts) == s
    ensures SplitOn(s, c) == parts
    decreases |s|
  {
    if s == [] {
      assert parts == [""];
    } else if parts[0] == [] {
      assert |parts| > 1;
      JoinPrepend([c], "", parts[1..]);
      assert [parts[0]] + parts[1..] == parts;
      assert s == [c] + Join([c], parts[1..]);
      assert s[1..] == Join([c], parts[1..]);
      SplitOnJoin(s[1..], c, parts[1..]);
    } else {
      var tail := [parts[0][1..]] + parts[1..];
      assert parts[0] == [parts[0][0]] + parts[0][1..];
      assert [[parts[0][0]] + tail[0]] + tail[1..] == parts;
      JoinExtendFirst([c], parts[0][0], tail);
      assert s == [parts[0][0]] + Join([c], tail);
      assert s[1..] == Join([c], tail);
      assert s[0] == parts[0][0] && s[0] != c;
      forall i | 0 <= i < |tail| ensures c !in tail[i] {
        if i == 0 {
          assert forall x :: x in parts[0][1..] ==> x in parts[0];
        } else {
          assert tail[i] == parts[i];
        }
      }
      SplitOnJoin(s[1..], c, tail);
    }
  }

  /** JavaScript's `s.includes(t)`: `t` occurs in `s` as a contiguous piece. */
  predicate Contains(s: string, t: string) {
    (|t| <= |s| && s[..|t|] == t) || (s != [] && Contains(s[1..], t))
  }

  /** `t` occurs in `s` starting at index `k`. */
  predicate OccursAt(s: string, t: string, k: nat) {
    k + |t| <= |s| && s[k..k + |t|] == t
  }

  /** `Contains` is occurrence at some offset. */
  lemma {:induction false} ContainsAt(s: string, t: string)
    ensures Contains(s, t) <==> exists k: nat :: OccursAt(s, t, k)
    decreases |s|
  {
    if s == [] {
      if t == [] {
        assert OccursAt(s, t, 0);
      }
    } else {
      ContainsAt(s[1..], t);
      if |t| <= |s| && s[..|t|] == t {
        assert OccursAt(s, t, 0);
      } else if Contains(s[1..], t) {
        var k: nat :| OccursAt(s[1..], t, k);
        assert s[k + 1..k + 1 + |t|] == s[1..][k..k + |t|];
        assert OccursAt(s, t, k + 1);
      }
      if exists k: nat :: OccursAt(s, t, k) {
        var k: nat :| OccursAt(s, t, k);
        if k == 0 {
          assert s[..|t|] == t;
        } else {
          assert s[1..][k - 1..k - 1 + |t|] == s[k..k + |t|];
          assert OccursAt(s[1..], t, k - 1);
        }
      }
    }
  }

  /** The empty text occurs in every text. */
  lemma ContainsEmpty(s: string)
    ensures Contains(s, "")
  {
    assert s[..0] == "";
  }

  /** Lower-casing twice is lower-casing once. */
  lemma LowerIdempotent(s: string)
    ensures Lower(Lower(s)) == Lower(s)
  {
  }

  /** `s.endswith(suffix)` in Python. */
  predicate EndsWith(s: string, suffix: string) {
    |suffix| <= |s| && s[|s| - |suffix|..] == suffix
  }

  function DigitChar(d: nat): char
    requires d < 10
  {
    ('0' as int + d) as char
  }

  /** Decimal rendering of a natural number, as `str(n)` and `${n}` print it. */
  function NatToString(n: nat): (r: string)
    ensures |r| >= 1
    ensures forall k :: 0 <= k < |r| ==> '0' <= r[k] <= '9'
  {
    if n < 10 then [DigitChar(n)] else NatToString(n / 10) + [DigitChar(n % 10)]
  }
}
