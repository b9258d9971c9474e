/** The pin-conflict test of `solve`: a manager whose pinned nights lie within
    `non_consecutive` of each other is exempted from the spacing rule. */
module Exemption {
  import opened Seqs

  /** Python's order on strings: code point by code point, a proper prefix first. */
  predicate LabelLess(x: string, y: string) {
    if x == [] then y != []
    else if y == [] then false
    else if x[0] != y[0] then x[0] < y[0]
    else LabelLess(x[1..], y[1..])
  }

  function InsertLabel(x: string, s: seq<string>): (r: seq<string>)
    ensures multiset(r) == multiset(s) + multiset{x}
  {
    if s == [] then [x]
    else if LabelLess(x, s[0]) then [x] + s
    else
      assert s == [s[0]] + s[1..];
      [s[0]] + InsertLabel(x, s[1..])
  }

  /** `sorted(ns)` on the night labels, as the source calls it: a rearrangement of the pins
      in string order. */
  function SortLabels(ns: seq<string>): (r: seq<string>)
    ensures multiset(r) == multiset(ns)
  {
    if ns == [] then []
    else
      assert ns == [ns[0]] + ns[1..];
      InsertLabel(ns[0], SortLabels(ns[1..]))
  }

  /** Every label is a known night. */
  predicate AllKnown(s: seq<string>, nl: map<string, nat>) {
    forall i :: 0 <= i < |s| ==> s[i] in nl
  }

  /** The labels are in calendar order. */
  predicate InNightOrder(s: seq<string>, nl: map<string, nat>)
    requires AllKnown(s, nl)
  {
    forall i, j :: 0 <= i < j < |s| ==> nl[s[i]] <= nl[s[j]]
  }

  /** Inserts x before the first label that falls no earlier than it. */
  function InsertByNight(x: string, s: seq<string>, nl: map<string, nat>): (r: seq<string>)
    requires x in nl && AllKnown(s, nl)
    ensures multiset(r) == multiset(s) + multiset{x}
    ensures |r| == |s| + 1 && AllKnown(r, nl)
  {
    if s == [] then [x]
    else if nl[x] <= nl[s[0]] then [x] + s
    else
      assert s == [s[0]] + s[1..];
      var rest := InsertByNight(x, s[1..], nl);
      assert AllKnown([s[0]] + rest, nl) by {
        forall i | 0 <= i < |rest| + 1 ensures ([s[0]] + rest)[i] in nl {
          if i > 0 { assert ([s[0]] + rest)[i] == rest[i - 1]; }
        }
      }
      [s[0]] + rest
  }

  /** Inserting into labels in calendar order keeps them in calendar order. */
  lemma {:induction false} InsertByNightSorted(x: string, s: seq<string>, nl: map<string, nat>)
    requires x in nl && AllKnown(s, nl) && InNightOrder(s, nl)
    ensures InNightOrder(InsertByNight(x, s, nl), nl)
    ensures s != [] ==> nl[InsertByNight(x, s, nl)[0]] == if nl[x] <= nl[s[0]] then nl[x] else nl[s[0]]
  {
    if s != [] && nl[x] > nl[s[0]] {
      var tail := s[1..];
      assert AllKnown(tail, nl) && InNightOrder(tail, nl) by {
        forall i | 0 <= i < |tail| ensures tail[i] == s[i + 1] { }
      }
      InsertByNightSorted(x, tail, nl);
      var rest := InsertByNight(x, tail, nl);
      var r := InsertByNight(x, s, nl);
      assert r == [s[0]] + rest;
      assert nl[s[0]] <= nl[rest[0]] by {
        if tail != [] { assert tail[0] == s[1]; }
      }
      forall i, j | 0 <= i < j < |r| ensures nl[r[i]] <= nl[r[j]] {
        assert r[j] == rest[j - 1];
        if i == 0 {
          if j > 1 { assert nl[rest[0]] <= nl[rest[j - 1]]; }
        } else {
          assert r[i] == rest[i - 1];
        }
      }
    }
  }

  /** The pins in calendar order: sorted by their position among the nights. */
  function SortByNight(ns: seq<string>, nl: map<string, nat>): (r: seq<string>)
    requires AllKnown(ns, nl)
    ensures multiset(r) == multiset(ns)
    ensures AllKnown(r, nl) && InNightOrder(r, nl)
  {
    if ns == [] then []
    else
      assert ns == [ns[0]] + ns[1..];
      InsertByNightSorted(ns[0], SortByNight(ns[1..], nl), nl);
      InsertByNight(ns[0], SortByNight(ns[1..], nl), nl)
  }

  /** `[night_lookup[n] for n in ns]`. */
  function Indices(ns: seq<string>, nl: map<string, nat>): seq<int>
    requires AllKnown(ns, nl)
  {
    seq(|ns|, i requires 0 <= i < |ns| => nl[ns[i]])
  }

  /** The differences `j - i` over `zip(v[:-1], v[1:])`. */
  function AdjacentGaps(v: seq<int>): seq<int> {
    if |v| <= 1 then [] else seq(|v| - 1, k requires 0 <= k < |v| - 1 => v[k + 1] - v[k])
  }

  /** `len(ns) > 1 and min(differences) <= non_consecutive`, on the pins' night positions
      taken in the order given. */
  predicate Exempt(v: seq<int>, gap: int) {
    |v| > 1 && MinOf(AdjacentGaps(v)) <= gap
  }

  function Dist(x: int, y: int): nat {
    if x <= y then y - x else x - y
  }

  /** Two different pins (possibly the same night pinned twice) lie within `gap` nights. */
  predicate HasClosePair(ns: seq<string>, nl: map<string, nat>, gap: int)
    requires AllKnown(ns, nl)
  {
    exists i, j :: 0 <= i < |ns| && 0 <= j < |ns| && i != j && Dist(nl[ns[i]], nl[ns[j]]) <= gap
  }

  /** Line 149-150 as written: the pins sorted as strings. */
  predicate ExemptAsWritten(ns: seq<string>, nl: map<string, nat>, gap: int)
    requires AllKnown(ns, nl)
  {
    var s := SortLabels(ns);
    assert forall i :: 0 <= i < |s| ==> s[i] in multiset(ns);
    Exempt(Indices(s, nl), gap)
  }

  /** Line 149-150 with the pins sorted in calendar order, as the comment at line 96 intends. */
  predicate ExemptByNight(ns: seq<string>, nl: map<string, nat>, gap: int)
    requires AllKnown(ns, nl)
  {
    Exempt(Indices(SortByNight(ns, nl), nl), gap)
  }

  /** If every adjacent step exceeds a non-negative gap, any later element exceeds any earlier
      one by more than the gap. */
  lemma {:induction false} StepsExceedGap(v: seq<int>, gap: int, p: nat, q: nat)
    requires gap >= 0
    requires forall k :: 0 <= k < |v| - 1 ==> v[k + 1] - v[k] > gap
    requires p < q < |v|
    ensures v[q] - v[p] > gap
  {
    if q > p + 1 {
      StepsExceedGap(v, gap, p, q - 1);
    }
  }

  /** A close pair survives any rearrangement of the pins. */
  lemma ClosePairTransfers(u: seq<string>, v: seq<string>, nl: map<string, nat>, gap: int)
    requires AllKnown(u, nl)
    requires multiset(u) == multiset(v)
    requires HasClosePair(u, nl, gap)
    ensures AllKnown(v, nl)
    ensures HasClosePair(v, nl, gap)
  {
    assert forall k :: 0 <= k < |v| ==> v[k] in multiset(u);
    var i, j :| 0 <= i < |u| && 0 <= j < |u| && i != j && Dist(nl[u[i]], nl[u[j]]) <= gap;
    if u[i] == u[j] {
      if i < j { RepeatedCountsTwice(u, i, j); } else { RepeatedCountsTwice(u, j, i); }
      var p, q := CountTwiceRepeats(v, u[i]);
      assert Dist(nl[v[p]], nl[v[q]]) <= gap;
    } else {
      assert u[i] in multiset(v) && u[j] in multiset(v);
      var p :| 0 <= p < |v| && v[p] == u[i];
      var q :| 0 <= q < |v| && v[q] == u[j];
      assert Dist(nl[v[p]], nl[v[q]]) <= gap;
    }
  }

  /** The exemption is sound whatever order the pins are examined in: two pins within a
      non-negative gap always make some adjacent difference at most the gap, because an
      out-of-order pair gives a negative difference. */
  lemma ExemptUnderAnyOrder(ns: seq<string>, s: seq<string>, nl: map<string, nat>, gap: int)
    requires gap >= 0
    requires AllKnown(ns, nl)
    requires multiset(s) == multiset(ns)
    requires HasClosePair(ns, nl, gap)
    ensures AllKnown(s, nl)
    ensures Exempt(Indices(s, nl), gap)
  {
    ClosePairTransfers(ns, s, nl, gap);
    var v := Indices(s, nl);
    var p, q :| 0 <= p < |s| && 0 <= q < |s| && p != q && Dist(nl[s[p]], nl[s[q]]) <= gap;
    assert Dist(v[p], v[q]) <= gap;
    var gaps := AdjacentGaps(v);
    assert |gaps| == |v| - 1;
    if MinOf(gaps) > gap {
      forall k | 0 <= k < |v| - 1 ensures v[k + 1] - v[k] > gap {
        assert gaps[k] >= MinOf(gaps);
      }
      if p < q { StepsExceedGap(v, gap, p, q); } else { StepsExceedGap(v, gap, q, p); }
    }
  }

  /** Soundness of the test as written: a manager with two pins within the gap is exempted. */
  lemma ExemptAsWrittenSound(ns: seq<string>, nl: map<string, nat>, gap: int)
    requires gap >= 0
    requires AllKnown(ns, nl)
    requires HasClosePair(ns, nl, gap)
    ensures ExemptAsWritten(ns, nl, gap)
  {
    ExemptUnderAnyOrder(ns, SortLabels(ns), nl, gap);
  }

  /** The test as written exempts a manager whose two pins are three nights apart when the
      gap is two: "9/12" sorts before "9/9", so the only difference examined is 0 - 3. */
  lemma LabelOrderExemptsDistantPins()
    ensures var nl := map["9/9" := 0, "9/10" := 1, "9/11" := 2, "9/12" := 3];
            && ExemptAsWritten(["9/9", "9/12"], nl, 2)
            && !HasClosePair(["9/9", "9/12"], nl, 2)
  {
    var nl := map["9/9" := 0, "9/10" := 1, "9/11" := 2, "9/12" := 3];
    assert LabelLess("9/12", "9/9");
    assert !LabelLess("9/9", "9/12");
    assert SortLabels(["9/12"]) == ["9/12"];
    assert SortLabels(["9/9", "9/12"]) == ["9/12", "9/9"];
    assert Indices(["9/12", "9/9"], nl) == [3, 0];
    assert AdjacentGaps([3, 0]) == [-3];
  }

  /** Completeness of the corrected test: in calendar order every adjacent difference is
      non-negative, so a small one is the distance between two pins. */
  lemma ExemptByNightComplete(ns: seq<string>, nl: map<string, nat>, gap: int)
    requires AllKnown(ns, nl)
    requires ExemptByNight(ns, nl, gap)
    ensures HasClosePair(ns, nl, gap)
  {
    var s := SortByNight(ns, nl);
    var v := Indices(s, nl);
    var gaps := AdjacentGaps(v);
    assert |v| == |s| > 1 && |gaps| == |v| - 1;
    var k :| 0 <= k < |gaps| && gaps[k] == MinOf(gaps);
    assert gaps[k] == v[k + 1] - v[k] == nl[s[k + 1]] - nl[s[k]];
    assert nl[s[k]] <= nl[s[k + 1]];
    assert Dist(nl[s[k]], nl[s[k + 1]]) <= gap;
    assert HasClosePair(s, nl, gap);
    ClosePairTransfers(s, ns, nl, gap);
  }

  /** The corrected test exempts a manager exactly when two of their pins lie within the gap. */
  lemma ExemptByNightIffClosePair(ns: seq<string>, nl: map<string, nat>, gap: int)
    requires AllKnown(ns, nl)
    ensures ExemptByNight(ns, nl, gap) <==> HasClosePair(ns, nl, gap)
  {
    if HasClosePair(ns, nl, gap) {
      ExemptUnderAnyOrder(ns, SortByNight(ns, nl), nl, gap);
    }
    if ExemptByNight(ns, nl, gap) {
      ExemptByNightComplete(ns, nl, gap);
    }
  }
}
