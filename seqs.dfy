/** Small facts about sequences used throughout the model. */
module Seqs {

  /** No element occurs twice. */
  predicate Distinct<T(==)>(s: seq<T>) {
    forall i, j :: 0 <= i < j < |s| ==> s[i] != s[j]
  }

  /** Python's `min` over a non-empty list of integers. */
  function MinOf(s: seq<int>): (r: int)
    requires |s| > 0
    ensures forall k :: 0 <= k < |s| ==> r <= s[k]
    ensures exists k :: 0 <= k < |s| && r == s[k]
  {
    if |s| == 1 then s[0]
    else
      var rest := MinOf(s[1..]);
      assert forall k :: 1 <= k < |s| ==> s[k] == s[1..][k - 1];
      if s[0] <= rest then s[0] else rest
  }

  /** Two different positions holding the same value make it occur twice in the multiset. */
  lemma {:induction false} RepeatedCountsTwice<T>(s: seq<T>, i: nat, j: nat)
    requires i < j < |s| && s[i] == s[j]
    ensures multiset(s)[s[i]] >= 2
  {
    assert s == s[..j] + s[j..];
    assert s[i] in s[..j];
    assert s[j] in s[j..];
    assert multiset(s) == multiset(s[..j]) + multiset(s[j..]);
  }

  /** A value that occurs twice in the multiset sits at two different positions. */
  lemma {:induction false} CountTwiceRepeats<T>(s: seq<T>, x: T) returns (i: nat, j: nat)
    requires multiset(s)[x] >= 2
    ensures i < j < |s| && s[i] == x && s[j] == x
  {
    assert x in multiset(s);
    i :| 0 <= i < |s| && s[i] == x;
    var rest := s[..i] + s[i + 1..];
    assert s == s[..i] + [s[i]] + s[i + 1..];
    assert multiset(s) == multiset(s[..i]) + multiset{x} + multiset(s[i + 1..]);
    assert multiset(rest)[x] >= 1;
    assert x in rest;
    var k :| 0 <= k < |rest| && rest[k] == x;
    if k < i {
      assert rest[k] == s[k];
      i, j := k, i;
    } else {
      assert rest[k] == s[k + 1];
      j := k + 1;
    }
  }

  /** A subset is no larger than its superset. */
  lemma {:induction false} SubsetCard<T>(small: set<T>, big: set<T>)
    requires small <= big
    ensures |small| <= |big|
  {
    if small != {} {
      var x :| x in small;
      SubsetCard(small - {x}, big - {x});
    }
  }
}
