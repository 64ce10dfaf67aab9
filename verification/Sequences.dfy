/** Lists of numbers, be they vertices or addresses, on which nothing appears twice. */
module Sequences {
  ghost predicate NoRepeat(s: seq<nat>)
  {
    forall i, j :: 0 <= i < j < |s| ==> s[i] != s[j]
  }

  lemma {:induction false} NoRepeatShort(s: seq<nat>, n: nat)
    requires NoRepeat(s) && forall k :: 0 <= k < |s| ==> s[k] < n
    ensures |s| <= n
  {
    if s != [] {
      assert s[0] < n;
      if n - 1 in s {
        var i :| 0 <= i < |s| && s[i] == n - 1;
        NoRepeatShort(s[..i] + s[i + 1..], n - 1);
      } else {
        NoRepeatShort(s, n - 1);
      }
    }
  }

  /** Leaving out one place leaves out exactly the number that stands there. */
  lemma {:induction false} WithoutOne(s: seq<nat>, i: nat)
    requires NoRepeat(s) && i < |s|
    ensures NoRepeat(s[..i] + s[i + 1..]) && s[i] !in s[..i] + s[i + 1..]
    ensures forall x :: x in s <==> x in s[..i] + s[i + 1..] || x == s[i]
  {
    var rest := s[..i] + s[i + 1..];
    forall k | 0 <= k < |s| && k != i ensures s[k] in rest {
      assert s[k] == rest[if k < i then k else k - 1];
    }
  }
}
