/** What satisfying the emitted constraints means: each group of constraints is equivalent to
    the property of the roster it was written for. */
module Meaning {
  import opened Seqs
  import opened Availability
  import opened CpModel
  import opened Roster
  import opened Exemption
  import opened Rules

  lemma SumSingle(a: Assignment, c: Cell)
    ensures Sum(a, [c]) == Val(a, c)
  {
    assert [c][..0] == [];
  }

  lemma SumPair(a: Assignment, c: Cell, d: Cell)
    ensures Sum(a, [c, d]) == Val(a, c) + Val(a, d)
  {
    assert [c, d][..1] == [c];
    SumSingle(a, c);
  }

  /** Lines 126-127: every night has exactly `mgrs_per_night` managers. */
  lemma {:induction false} CoverageMeaning(p: Problem, a: Assignment, k: nat)
    ensures Satisfies(a, Coverage(p, k)) <==>
            forall n :: 0 <= n < k ==> NightCount(a, |p.doodle|, n) == p.config.mgrsPerNight
  {
    if k > 0 {
      CoverageMeaning(p, a, k - 1);
      SatisfiesSnoc(a, Coverage(p, k - 1), SumEq(Column(|p.doodle|, k - 1), p.config.mgrsPerNight));
      ColumnSum(a, |p.doodle|, k - 1);
      assert (forall n :: 0 <= n < k ==> NightCount(a, |p.doodle|, n) == p.config.mgrsPerNight) <==>
             (forall n :: 0 <= n < k - 1 ==> NightCount(a, |p.doodle|, n) == p.config.mgrsPerNight)
             && NightCount(a, |p.doodle|, k - 1) == p.config.mgrsPerNight;
    }
  }

  /** Manager m's whole row sums to the number of nights they work. */
  lemma RowSum(a: Assignment, m: nat, cols: nat)
    ensures Sum(a, Line(m, 0, cols)) == NightsWorked(a, m, cols)
  {
    LineSum(a, m, 0, cols);
    assert (set j: nat | 0 <= j < 0 + cols && On(a, m, j)) == (set n: nat | n < cols && On(a, m, n));
  }

  /** Lines 130-132: every manager works between `min_nights` and `max_nights` nights. */
  lemma {:induction false} WorkloadMeaning(p: Problem, a: Assignment, k: nat)
    ensures Satisfies(a, Workload(p, k)) <==>
            forall m :: 0 <= m < k ==> p.config.minNights <= NightsWorked(a, m, |p.nights|) <= p.config.maxNights
  {
    if k > 0 {
      WorkloadMeaning(p, a, k - 1);
      var row := Line(k - 1, 0, |p.nights|);
      var lo, hi := SumGe(row, p.config.minNights), SumLe(row, p.config.maxNights);
      assert Workload(p, k) == Workload(p, k - 1) + [lo] + [hi];
      SatisfiesSnoc(a, Workload(p, k - 1) + [lo], hi);
      SatisfiesSnoc(a, Workload(p, k - 1), lo);
      RowSum(a, k - 1, |p.nights|);
      assert (forall m :: 0 <= m < k ==> p.config.minNights <= NightsWorked(a, m, |p.nights|) <= p.config.maxNights) <==>
             (forall m :: 0 <= m < k - 1 ==> p.config.minNights <= NightsWorked(a, m, |p.nights|) <= p.config.maxNights)
             && p.config.minNights <= NightsWorked(a, k - 1, |p.nights|) <= p.config.maxNights;
    }
  }

  lemma {:induction false} CutoffRowMeaning(p: Problem, a: Assignment, m: nat, k: nat)
    requires m < |p.doodle| && k <= |p.doodle[m].levels|
    ensures Satisfies(a, CutoffRow(p, m, k)) <==>
            forall n :: 0 <= n < k && Below(p.doodle[m].levels[n], p.config.availabilityLevel) ==> !On(a, m, n)
  {
    if k > 0 {
      CutoffRowMeaning(p, a, m, k - 1);
      var level := p.config.availabilityLevel;
      if Below(p.doodle[m].levels[k - 1], level) {
        assert CutoffRow(p, m, k) == CutoffRow(p, m, k - 1) + [SumEq([Cell(m, k - 1)], 0)];
        SatisfiesSnoc(a, CutoffRow(p, m, k - 1), SumEq([Cell(m, k - 1)], 0));
        SumSingle(a, Cell(m, k - 1));
        assert Satisfies(a, CutoffRow(p, m, k)) <==> Satisfies(a, CutoffRow(p, m, k - 1)) && !On(a, m, k - 1);
      } else {
        assert CutoffRow(p, m, k) == CutoffRow(p, m, k - 1);
      }
      assert (forall n :: 0 <= n < k && Below(p.doodle[m].levels[n], level) ==> !On(a, m, n)) <==>
             (forall n :: 0 <= n < k - 1 && Below(p.doodle[m].levels[n], level) ==> !On(a, m, n))
             && (Below(p.doodle[m].levels[k - 1], level) ==> !On(a, m, k - 1));
    }
  }

  /** Lines 135-138: no manager works a night their answer falls short of the required level. */
  lemma {:induction false} CutoffsMeaning(p: Problem, a: Assignment, k: nat)
    requires Aligned(p.doodle, p.nights) && k <= |p.doodle|
    ensures Satisfies(a, Cutoffs(p, k)) <==>
            forall m, n :: 0 <= m < k && 0 <= n < |p.nights| && Below(p.doodle[m].levels[n], p.config.availabilityLevel)
              ==> !On(a, m, n)
  {
    if k > 0 {
      CutoffsMeaning(p, a, k - 1);
      SatisfiesAppend(a, Cutoffs(p, k - 1), CutoffRow(p, k - 1, |p.nights|));
      CutoffRowMeaning(p, a, k - 1, |p.nights|);
      var level, last := p.config.availabilityLevel, k - 1;
      assert (forall m, n :: 0 <= m < k && 0 <= n < |p.nights| && Below(p.doodle[m].levels[n], level) ==> !On(a, m, n)) <==>
             (forall m, n :: 0 <= m < last && 0 <= n < |p.nights| && Below(p.doodle[m].levels[n], level) ==> !On(a, m, n))
             && (forall n :: 0 <= n < |p.nights| && Below(p.doodle[last].levels[n], level) ==> !On(a, last, n));
    }
  }

  lemma {:induction false} CutoffRowMembers(p: Problem, m: nat, k: nat, c: Constraint)
    requires m < |p.doodle| && k <= |p.doodle[m].levels|
    ensures c in CutoffRow(p, m, k) <==>
            exists n :: 0 <= n < k && Below(p.doodle[m].levels[n], p.config.availabilityLevel) && c == SumEq([Cell(m, n)], 0)
  {
    if k > 0 {
      CutoffRowMembers(p, m, k - 1, c);
    }
  }

  /** Lines 135-138, read the other way: cell (m, n) is forced to 0 exactly when manager m's
      answer for night n is below the required level. */
  lemma {:induction false} CutoffEmittedExactly(p: Problem, m: nat, n: nat, k: nat)
    requires Aligned(p.doodle, p.nights) && m < k <= |p.doodle| && n < |p.nights|
    ensures SumEq([Cell(m, n)], 0) in Cutoffs(p, k) <==> Below(p.doodle[m].levels[n], p.config.availabilityLevel)
  {
    var c := SumEq([Cell(m, n)], 0);
    CutoffRowMembers(p, k - 1, |p.nights|, c);
    if m < k - 1 {
      CutoffEmittedExactly(p, m, n, k - 1);
      if c in CutoffRow(p, k - 1, |p.nights|) {
        assert false;
      }
    } else {
      assert m == k - 1;
      if k - 1 > 0 {
        CutoffsNeverMention(p, m, n, k - 1);
      }
    }
  }

  /** The cut-offs of the first k managers only mention those managers' cells. */
  lemma {:induction false} CutoffsNeverMention(p: Problem, m: nat, n: nat, k: nat)
    requires Aligned(p.doodle, p.nights) && k <= m < |p.doodle|
    ensures SumEq([Cell(m, n)], 0) !in Cutoffs(p, k)
  {
    if k > 0 {
      CutoffsNeverMention(p, m, n, k - 1);
      CutoffRowMembers(p, k - 1, |p.nights|, SumEq([Cell(m, n)], 0));
    }
  }

  lemma {:induction false} TogetherOnMeaning(p: Problem, a: Assignment, n: nat, k: nat)
    requires PairsKnown(p.together, p.managers) && k <= |p.together|
    ensures Satisfies(a, TogetherOn(p, n, k)) <==>
            forall i :: 0 <= i < k ==> Alike(a, p.managers[p.together[i].0], p.managers[p.together[i].1], n)
  {
    if k > 0 {
      TogetherOnMeaning(p, a, n, k - 1);
      var x, y := p.managers[p.together[k - 1].0], p.managers[p.together[k - 1].1];
      SatisfiesSnoc(a, TogetherOn(p, n, k - 1), Same(Cell(x, n), Cell(y, n)));
      assert (forall i :: 0 <= i < k ==> Alike(a, p.managers[p.together[i].0], p.managers[p.together[i].1], n)) <==>
             (forall i :: 0 <= i < k - 1 ==> Alike(a, p.managers[p.together[i].0], p.managers[p.together[i].1], n))
             && Alike(a, x, y, n);
    }
  }

  lemma {:induction false} ApartOnMeaning(p: Problem, a: Assignment, n: nat, k: nat)
    requires PairsKnown(p.apart, p.managers) && k <= |p.apart|
    ensures Satisfies(a, ApartOn(p, n, k)) <==>
            forall i :: 0 <= i < k ==> NotBoth(a, p.managers[p.apart[i].0], p.managers[p.apart[i].1], n)
  {
    if k > 0 {
      ApartOnMeaning(p, a, n, k - 1);
      var x, y := p.managers[p.apart[k - 1].0], p.managers[p.apart[k - 1].1];
      SatisfiesSnoc(a, ApartOn(p, n, k - 1), SumLe([Cell(x, n), Cell(y, n)], 1));
      SumPair(a, Cell(x, n), Cell(y, n));
      assert (forall i :: 0 <= i < k ==> NotBoth(a, p.managers[p.apart[i].0], p.managers[p.apart[i].1], n)) <==>
             (forall i :: 0 <= i < k - 1 ==> NotBoth(a, p.managers[p.apart[i].0], p.managers[p.apart[i].1], n))
             && NotBoth(a, x, y, n);
    }
  }

  /** Lines 141-145: `together` pairs work the same nights, `apart` pairs never share one. */
  lemma {:induction false} PairingMeaning(p: Problem, a: Assignment, k: nat)
    requires PairsKnown(p.together, p.managers) && PairsKnown(p.apart, p.managers)
    ensures Satisfies(a, Pairing(p, k)) <==>
            && (forall i, n :: 0 <= i < |p.together| && 0 <= n < k ==>
                  Alike(a, p.managers[p.together[i].0], p.managers[p.together[i].1], n))
            && (forall i, n :: 0 <= i < |p.apart| && 0 <= n < k ==>
                  NotBoth(a, p.managers[p.apart[i].0], p.managers[p.apart[i].1], n))
  {
    if k > 0 {
      PairingMeaning(p, a, k - 1);
      var t, s := TogetherOn(p, k - 1, |p.together|), ApartOn(p, k - 1, |p.apart|);
      SatisfiesAppend(a, Pairing(p, k - 1) + t, s);
      SatisfiesAppend(a, Pairing(p, k - 1), t);
      TogetherOnMeaning(p, a, k - 1, |p.together|);
      ApartOnMeaning(p, a, k - 1, |p.apart|);
    }
  }

  lemma {:induction false} PinsOfMeaning(p: Problem, a: Assignment, name: string, k: nat)
    requires PinsValid(p) && name in p.pin && k <= |PinnedNights(p, name)|
    ensures Satisfies(a, PinsOf(p, name, k)) <==>
            forall j :: 0 <= j < k ==> On(a, p.managers[name], p.nightIndex[PinnedNights(p, name)[j]])
  {
    if k > 0 {
      PinsOfMeaning(p, a, name, k - 1);
      var s := PinnedNights(p, name);
      var c := Cell(p.managers[name], p.nightIndex[s[k - 1]]);
      SatisfiesSnoc(a, PinsOf(p, name, k - 1), SumEq([c], 1));
      SumSingle(a, c);
      assert (forall j :: 0 <= j < k ==> On(a, p.managers[name], p.nightIndex[s[j]])) <==>
             (forall j :: 0 <= j < k - 1 ==> On(a, p.managers[name], p.nightIndex[s[j]]))
             && On(a, p.managers[name], p.nightIndex[s[k - 1]]);
    }
  }

  /** All of a manager's pins are forced, whatever order they were registered in. */
  lemma PinsOfHonoured(p: Problem, a: Assignment, name: string)
    requires PinsValid(p) && name in p.pin
    ensures Satisfies(a, PinsOf(p, name, |PinnedNights(p, name)|)) <==> PinsOfManagerOn(p, a, name)
  {
    var s := PinnedNights(p, name);
    PinsOfMeaning(p, a, name, |s|);
    assert forall night :: night in p.pin[name] <==> night in multiset(s);
  }

  /** Every pin of the first k managers in key order is on. */
  predicate PinnedOn(p: Problem, a: Assignment, k: nat)
    requires PinsValid(p) && k <= |p.pinOrder|
  {
    forall i :: 0 <= i < k ==> PinsOfManagerOn(p, a, p.pinOrder[i])
  }

  predicate PinsOfManagerOn(p: Problem, a: Assignment, name: string)
    requires PinsValid(p) && name in p.pin
  {
    forall night :: night in p.pin[name] ==> On(a, p.managers[name], p.nightIndex[night])
  }

  /** Adding the next manager in key order adds exactly that manager's pins. */
  lemma PinsStep(p: Problem, a: Assignment, k: nat)
    requires PinsValid(p) && 0 < k <= |p.pinOrder|
    ensures p.pinOrder[k - 1] in p.pin
    ensures Satisfies(a, Pins(p, k)) <==> Satisfies(a, Pins(p, k - 1)) && PinsOfManagerOn(p, a, p.pinOrder[k - 1])
  {
    var name := p.pinOrder[k - 1];
    SatisfiesAppend(a, Pins(p, k - 1), PinsOf(p, name, |PinnedNights(p, name)|));
    PinsOfHonoured(p, a, name);
  }

  lemma PinnedStep(p: Problem, a: Assignment, k: nat)
    requires PinsValid(p) && 0 < k <= |p.pinOrder|
    ensures p.pinOrder[k - 1] in p.pin
    ensures PinnedOn(p, a, k) <==> PinnedOn(p, a, k - 1) && PinsOfManagerOn(p, a, p.pinOrder[k - 1])
  {
    if PinnedOn(p, a, k - 1) && PinsOfManagerOn(p, a, p.pinOrder[k - 1]) {
      forall i | 0 <= i < k ensures PinsOfManagerOn(p, a, p.pinOrder[i]) {
        if i < k - 1 {
        }
      }
    }
  }

  /** Lines 148-154: every registered pin is forced to 1, for exempted managers as well. */
  lemma {:induction false} PinsMeaning(p: Problem, a: Assignment, k: nat)
    requires PinsValid(p) && k <= |p.pinOrder|
    ensures Satisfies(a, Pins(p, k)) <==> PinnedOn(p, a, k)
  {
    if k > 0 {
      PinsMeaning(p, a, k - 1);
      PinsStep(p, a, k);
      PinnedStep(p, a, k);
    }
  }

  /** The s-th of manager m's window constraints is the window starting at night s. */
  lemma {:induction false} WindowsOfAt(p: Problem, m: nat, k: nat)
    ensures |WindowsOf(p, m, k)| == k
    ensures forall s :: 0 <= s < k ==> WindowsOf(p, m, k)[s] == SumLe(Window(m, s, Gap(p)), 1)
  {
    if k > 0 {
      WindowsOfAt(p, m, k - 1);
    }
  }

  lemma WindowsOfMeaning(p: Problem, a: Assignment, m: nat, k: nat)
    ensures Satisfies(a, WindowsOf(p, m, k)) <==> forall s :: 0 <= s < k ==> Sum(a, Window(m, s, Gap(p))) <= 1
  {
    WindowsOfAt(p, m, k);
    var cs := WindowsOf(p, m, k);
    if forall s :: 0 <= s < k ==> Sum(a, Window(m, s, Gap(p))) <= 1 {
      forall i | 0 <= i < |cs| ensures Holds(a, cs[i]) {
        assert cs[i] == SumLe(Window(m, i, Gap(p)), 1);
      }
    }
  }

  /** Two of manager m's nights from `lo` to `hi` are both assigned. */
  predicate TwoOnWithin(a: Assignment, m: nat, lo: nat, hi: int) {
    exists i, j :: lo <= i < j <= hi && On(a, m, i) && On(a, m, j)
  }

  /** A window holds at most one assigned night exactly when no two of its nights are both
      assigned. */
  lemma WindowSumAtMostOne(a: Assignment, m: nat, s: nat, gap: int)
    ensures Sum(a, Window(m, s, gap)) <= 1 <==> !TwoOnWithin(a, m, s, s + gap)
  {
    if gap >= 0 {
      LineSum(a, m, s, gap + 1);
      var on := set j: nat | s <= j < s + gap + 1 && On(a, m, j);
      if TwoOnWithin(a, m, s, s + gap) {
        var i, j :| s <= i < j <= s + gap && On(a, m, i) && On(a, m, j);
        assert {i, j} <= on;
        SubsetCard({i, j}, on);
      } else if on != {} {
        var x :| x in on;
        forall y | y in on ensures y == x {
        }
        assert on == {x};
      }
    } else {
      assert Window(m, s, gap) == [];
    }
  }

  /** Lines 157-160: when the gap is smaller than the number of nights, satisfying a manager's
      windows is the same as any two of their nights being more than `non_consecutive` apart. */
  lemma WindowsMeanSpaced(p: Problem, a: Assignment, m: nat)
    requires Gap(p) < |p.nights|
    ensures Satisfies(a, WindowsOf(p, m, WindowCount(p))) <==> Spaced(a, m, |p.nights|, Gap(p))
  {
    var gap, cols := Gap(p), |p.nights|;
    WindowsOfMeaning(p, a, m, WindowCount(p));
    if Satisfies(a, WindowsOf(p, m, WindowCount(p))) {
      forall i, j | 0 <= i < j < cols && On(a, m, i) && On(a, m, j) ensures j - i > gap {
        if j - i <= gap {
          var s := if i <= cols - 1 - gap then i else cols - 1 - gap;
          assert 0 <= s < WindowCount(p);
          WindowSumAtMostOne(a, m, s, gap);
          assert TwoOnWithin(a, m, s, s + gap);
        }
      }
    }
    if Spaced(a, m, cols, gap) {
      forall s | 0 <= s < WindowCount(p) ensures Sum(a, Window(m, s, gap)) <= 1 {
        WindowSumAtMostOne(a, m, s, gap);
      }
    }
  }

  lemma {:induction false} SpacingMeaning(p: Problem, a: Assignment, exempt: seq<nat>, k: nat)
    requires Gap(p) < |p.nights|
    ensures Satisfies(a, Spacing(p, exempt, k)) <==>
            forall m :: 0 <= m < k && m !in exempt ==> Spaced(a, m, |p.nights|, Gap(p))
  {
    if k > 0 {
      SpacingMeaning(p, a, exempt, k - 1);
      var tail := if k - 1 in exempt then [] else WindowsOf(p, k - 1, WindowCount(p));
      SatisfiesAppend(a, Spacing(p, exempt, k - 1), tail);
      WindowsMeanSpaced(p, a, k - 1);
      assert (forall m :: 0 <= m < k && m !in exempt ==> Spaced(a, m, |p.nights|, Gap(p))) <==>
             (forall m :: 0 <= m < k - 1 && m !in exempt ==> Spaced(a, m, |p.nights|, Gap(p)))
             && (k - 1 !in exempt ==> Spaced(a, k - 1, |p.nights|, Gap(p)));
    }
  }

  /** Lines 159-160 when `non_consecutive >= n_nights`: `range(0, n_nights - non_consecutive)`
      is empty, so no spacing constraint at all is emitted. */
  lemma {:induction false} NoWindowsWhenGapCoversAllNights(p: Problem, exempt: seq<nat>, k: nat)
    requires Gap(p) >= |p.nights|
    ensures Spacing(p, exempt, k) == []
  {
    if k > 0 {
      NoWindowsWhenGapCoversAllNights(p, exempt, k - 1);
    }
  }

  /** Every window of a manager lies inside the night range and holds `non_consecutive + 1`
      consecutive nights of that manager. */
  lemma WindowsInRange(p: Problem, m: nat, s: nat)
    requires 0 <= Gap(p) && s < WindowCount(p)
    ensures |Window(m, s, Gap(p))| == Gap(p) + 1
    ensures forall c :: c in Window(m, s, Gap(p)) ==> c.m == m && s <= c.n < |p.nights|
  {
  }

  /** Pins registered in key order or read off the dictionary are the same pins. */
  lemma PinsHonouredInKeyOrder(p: Problem, a: Assignment)
    requires PinsValid(p)
    ensures PinsHonoured(p, a) <==> PinnedOn(p, a, |p.pinOrder|)
  {
    if PinnedOn(p, a, |p.pinOrder|) {
      forall name, night | name in p.pin && night in p.pin[name]
        ensures On(a, p.managers[name], p.nightIndex[night])
      {
        assert name in p.pinOrder;
        var i :| 0 <= i < |p.pinOrder| && p.pinOrder[i] == name;
        assert PinsOfManagerOn(p, a, p.pinOrder[i]);
      }
    }
  }

  /** The first five groups: coverage, workloads, cut-offs, pairings and pins. */
  lemma StaffedMeaning(p: Problem, a: Assignment)
    requires Consistent(p)
    ensures Staffed(p, a) <==>
              Satisfies(a, Coverage(p, |p.nights|) + Workload(p, |p.doodle|) + Cutoffs(p, |p.doodle|)
                           + Pairing(p, |p.nights|) + Pins(p, |p.pinOrder|))
  {
    var g1, g2, g3 := Coverage(p, |p.nights|), Workload(p, |p.doodle|), Cutoffs(p, |p.doodle|);
    var g4, g5 := Pairing(p, |p.nights|), Pins(p, |p.pinOrder|);
    SatisfiesAppend(a, g1 + g2 + g3 + g4, g5);
    SatisfiesAppend(a, g1 + g2 + g3, g4);
    SatisfiesAppend(a, g1 + g2, g3);
    SatisfiesAppend(a, g1, g2);
    CoverageMeaning(p, a, |p.nights|);
    WorkloadMeaning(p, a, |p.doodle|);
    CutoffsMeaning(p, a, |p.doodle|);
    PairingMeaning(p, a, |p.nights|);
    PinsMeaning(p, a, |p.pinOrder|);
    PinsHonouredInKeyOrder(p, a);
  }

  /** The last group: the windows of every manager outside `nonconsexc`, which exist only when
      `non_consecutive` is below the number of nights. */
  lemma SpacingGroupMeaning(p: Problem, a: Assignment)
    requires PinsValid(p)
    ensures Satisfies(a, Spacing(p, Exempted(p, |p.pinOrder|), |p.doodle|)) <==>
            (Gap(p) < |p.nights| ==> SpacingRespected(p, a))
  {
    var exempt := Exempted(p, |p.pinOrder|);
    if Gap(p) < |p.nights| {
      SpacingMeaning(p, a, exempt, |p.doodle|);
    } else {
      NoWindowsWhenGapCoversAllNights(p, exempt, |p.doodle|);
    }
  }

  /** The whole emitted model: an assignment satisfies it exactly when it is a roster with
      exact coverage, bounded workloads, the availability cut-off, the pairings, the pins and,
      when `non_consecutive` leaves room for a window, the spacing of every non-exempted
      manager. */
  lemma EmittedMeaning(p: Problem, a: Assignment)
    requires Consistent(p)
    ensures Satisfies(a, Emitted(p)) <==> Rostered(p, a)
  {
    SatisfiesAppend(a, Coverage(p, |p.nights|) + Workload(p, |p.doodle|) + Cutoffs(p, |p.doodle|)
                       + Pairing(p, |p.nights|) + Pins(p, |p.pinOrder|),
                    Spacing(p, Exempted(p, |p.pinOrder|), |p.doodle|));
    StaffedMeaning(p, a);
    SpacingGroupMeaning(p, a);
  }

  /** One step of the `nonconsexc` pre-pass: the next key in `pin`'s order is appended when
      the line 150 test holds for it. */
  lemma ExemptedStep(p: Problem, k: nat)
    requires PinsValid(p) && k < |p.pinOrder|
    ensures p.pinOrder[k] in p.pin
    ensures var name := p.pinOrder[k];
            Exempted(p, k + 1) == Exempted(p, k) + (if Exempts(p, name) then [p.managers[name]] else [])
  {
    var name := p.pinOrder[k];
    assert ExemptFlags(p)[k] == Exempts(p, name);
    assert PinIds(p)[k] == p.managers[name];
  }

  /** One key of the loop at lines 148-154: the key's pins are appended to the constraints, and
      its manager to `nonconsexc` exactly when the test came out true. */
  lemma KeyStep(p: Problem, k: nat, own: seq<Constraint>, close: bool)
    requires PinsValid(p) && k < |p.pinOrder| && p.pinOrder[k] in p.pin
    requires own == PinsOf(p, p.pinOrder[k], |PinnedNights(p, p.pinOrder[k])|)
    requires close == Exempts(p, p.pinOrder[k])
    ensures Pins(p, k + 1) == Pins(p, k) + own
    ensures Exempted(p, k + 1) == Exempted(p, k) + (if close then [p.managers[p.pinOrder[k]]] else [])
  {
    ExemptedStep(p, k);
  }

  /** An entry is flagged exactly when some flagged position holds it. */
  lemma {:induction false} FlaggedMembers(ids: seq<nat>, flags: seq<bool>, k: nat, x: nat)
    requires k <= |ids| == |flags|
    ensures x in Flagged(ids, flags, k) <==> exists i :: 0 <= i < k && flags[i] && ids[i] == x
  {
    if k > 0 {
      FlaggedMembers(ids, flags, k - 1, x);
      if flags[k - 1] && ids[k - 1] == x {
        assert x in Flagged(ids, flags, k);
      }
    }
  }

  /** Lines 147-151: a pinned manager lands in `nonconsexc` exactly when the string-sorted
      test holds for their pins, and so whenever two of their pins (the same night pinned
      twice included) lie within `non_consecutive` nights of each other. The lookup must keep
      managers apart, as it does for every loaded poll (`WellFormedLookupInjective`). */
  lemma ExemptedWhenPinsClose(p: Problem, name: string)
    requires PinsValid(p) && LookupInjective(p.managers) && name in p.pin
    ensures AllKnown(p.pin[name], p.nightIndex)
    ensures p.managers[name] in Exempted(p, |p.pinOrder|) <==> ExemptAsWritten(p.pin[name], p.nightIndex, Gap(p))
    ensures HasClosePair(p.pin[name], p.nightIndex, Gap(p)) ==> p.managers[name] in Exempted(p, |p.pinOrder|)
  {
    forall i | 0 <= i < |p.pin[name]| ensures p.pin[name][i] in p.nightIndex {
      assert p.pin[name][i] in p.pin[name];
    }
    var ids, flags, x := PinIds(p), ExemptFlags(p), p.managers[name];
    FlaggedMembers(ids, flags, |p.pinOrder|, x);
    if x in Exempted(p, |p.pinOrder|) {
      var i :| 0 <= i < |p.pinOrder| && flags[i] && ids[i] == x;
      var other := p.pinOrder[i];
      assert other in p.pin;
      assert other == name;
    }
    if ExemptAsWritten(p.pin[name], p.nightIndex, Gap(p)) {
      assert name in p.pinOrder;
      var at :| 0 <= at < |p.pinOrder| && p.pinOrder[at] == name;
      assert flags[at] && ids[at] == x;
    }
    if Gap(p) >= 0 && HasClosePair(p.pin[name], p.nightIndex, Gap(p)) {
      ExemptAsWrittenSound(p.pin[name], p.nightIndex, Gap(p));
    }
  }
}
