/** The two JavaScript string operations `serialize` relies on:
    `String.prototype.indexOf` and `String.prototype.replace` with a string pattern. */
module Strings {

  /** Whether `p` occurs in `s` starting at position `i`. */
  predicate OccursAt(s: string, p: string, i: int)
  {
    0 <= i && i + |p| <= |s| && s[i..i + |p|] == p
  }

  /** `s.indexOf(p)`: the first position where `p` occurs in `s`, or -1. */
  function IndexOf(s: string, p: string): (r: int)
    ensures r == -1 || OccursAt(s, p, r)
    ensures r == -1 ==> forall i :: !OccursAt(s, p, i)
    ensures forall i :: 0 <= i < r ==> !OccursAt(s, p, i)
    decreases |s|
  {
    if |s| < |p| then -1
    else if s[..|p|] == p then 0
    else
      var j := IndexOf(s[1..], p);
      assert forall i :: 1 <= i ==> (OccursAt(s, p, i) <==> OccursAt(s[1..], p, i - 1)) by {
        forall i | 1 <= i {
          OccursShift(s, p, i);
        }
      }
      assert !OccursAt(s, p, 0);
      if j == -1 then -1 else j + 1
  }

  lemma OccursShift(s: string, p: string, i: int)
    requires 1 <= i && 1 <= |s|
    ensures OccursAt(s, p, i) <==> OccursAt(s[1..], p, i - 1)
  {
    if i + |p| <= |s| {
      assert s[1..][i - 1..i - 1 + |p|] == s[i..i + |p|];
    }
  }

  /** `s.replace(p, q)` for a string pattern: only the first occurrence of `p`
      is replaced, and `q` is inserted literally. JavaScript would expand `$`
      patterns such as `$&` in `q`; the only replacement used here is `""`,
      which has none. */
  function ReplaceFirst(s: string, p: string, q: string): string
  {
    var i := IndexOf(s, p);
    if i == -1 then s else s[..i] + q + s[i + |p|..]
  }

  /** Replacing the first occurrence: the text before it is kept, `q` takes the
      place of `p`, and the text after it is kept; without an occurrence nothing changes. */
  lemma ReplaceFirstSplit(a: string, p: string, b: string, q: string)
    requires forall i :: 0 <= i < |a| ==> !OccursAt(a + p + b, p, i)
    ensures ReplaceFirst(a + p + b, p, q) == a + q + b
  {
    var s := a + p + b;
    assert OccursAt(s, p, |a|) by {
      assert s[|a|..|a| + |p|] == p;
    }
    var i := IndexOf(s, p);
    assert i == |a|;
    assert s[..i] == a && s[i + |p|..] == b;
  }

  lemma ReplaceFirstAbsent(s: string, p: string, q: string)
    requires IndexOf(s, p) == -1
    ensures ReplaceFirst(s, p, q) == s
  {
  }
}
