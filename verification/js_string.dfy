/**
 The handful of JavaScript string operations the viewer relies on, as
 functions over `seq<char>`: `indexOf`, `substr` and `split(sep)[0]`.
 Positions follow JavaScript: `IndexOf` answers -1 when the pattern is absent.
 */
module JsString {

  /** `pat` occurs in `s` starting at position `i`. */
  predicate OccursAt(s: string, pat: string, i: int) {
    0 <= i && i + |pat| <= |s| && s[i..i + |pat|] == pat
  }

  /** `s.indexOf(pat, from)`: the first occurrence of `pat` at or after `from`. */
  function IndexOfFrom(s: string, pat: string, from: nat): (r: int)
    requires from <= |s|
    ensures r == -1 || (from <= r && OccursAt(s, pat, r))
    ensures r == -1 ==> forall i :: from <= i ==> !OccursAt(s, pat, i)
    ensures r != -1 ==> forall i :: from <= i < r ==> !OccursAt(s, pat, i)
    decreases |s| - from
  {
    if from + |pat| > |s| then -1
    else if s[from..from + |pat|] == pat then from
    else IndexOfFrom(s, pat, from + 1)
  }

  /** `s.indexOf(pat)`: the first position where `pat` occurs, or -1. */
  function IndexOf(s: string, pat: string): (r: int)
    ensures r == -1 || OccursAt(s, pat, r)
    ensures r == -1 <==> forall i :: !OccursAt(s, pat, i)
    ensures r != -1 ==> forall i :: i < r ==> !OccursAt(s, pat, i)
  {
    IndexOfFrom(s, pat, 0)
  }

  /** `s.substr(start, length)` for the non-negative arguments the viewer passes. */
  function Substr(s: string, start: nat, length: nat): (r: string)
    ensures start <= |s| ==> |r| == if start + length <= |s| then length else |s| - start
    ensures start <= |s| ==> r == s[start..start + |r|]
    ensures start > |s| ==> r == []
  {
    var b := if start <= |s| then start else |s|;
    var e := if b + length <= |s| then b + length else |s|;
    s[b..e]
  }

  /** `s.substr(start)`: everything from `start` on. */
  function SubstrFrom(s: string, start: nat): (r: string)
    ensures start <= |s| ==> s == s[..start] + r
    ensures start > |s| ==> r == []
  {
    if start <= |s| then s[start..] else []
  }

  /** `s.substr(0, i)` followed by `s.substr(i)` gives `s` back: the split `loadContent` makes loses nothing. */
  lemma {:induction false} SubstrSplit(s: string, i: nat)
    requires i <= |s|
    ensures Substr(s, 0, i) + SubstrFrom(s, i) == s
  {
    assert Substr(s, 0, i) == s[..i];
  }

  /** For a one-character pattern, `IndexOf` finds the first position holding that character. */
  lemma IndexOfChar(s: string, c: char)
    ensures var i := IndexOf(s, [c]);
            && (i == -1 <==> c !in s)
            && (i != -1 ==> 0 <= i < |s| && s[i] == c && c !in s[..i])
  {
    var i := IndexOf(s, [c]);
    forall j | 0 <= j < |s|
      ensures OccursAt(s, [c], j) <==> s[j] == c
    {
      assert s[j..j + 1] == [s[j]];
    }
    if i != -1 {
      assert s[i..i + 1] == [c];
      forall j | 0 <= j < i
        ensures s[..i][j] != c
      {
        assert !OccursAt(s, [c], j);
      }
    } else {
      forall j | 0 <= j < |s|
        ensures s[j] != c
      {
        assert !OccursAt(s, [c], j);
      }
    }
  }

  /**
   `s.split(sep)[0]`: the text before the first `sep`, or all of `s` when it
   holds none. It is the longest prefix of `s` free of `sep`.
   */
  function SplitHead(s: string, sep: char): (r: string)
    ensures r <= s
    ensures sep !in r
    ensures |r| < |s| ==> s[|r|] == sep
  {
    IndexOfChar(s, sep);
    var i := IndexOf(s, [sep]);
    if i < 0 then s else s[..i]
  }

  /** `split('.')` stops at the first `.`: a `.`-free head followed by text starting with `.` gives the head back. */
  lemma {:induction false} SplitHeadJoin(head: string, rest: string)
    requires '.' !in head
    requires |rest| > 0 && rest[0] == '.'
    ensures SplitHead(head + rest, '.') == head
  {
    var s := head + rest;
    assert s[|head|] == '.';
  }
}
