/** The constraints `solve` hands to the solver (macd.py:125-160), each group as the list the
    source's loops emit, and the readable properties those constraints stand for. */
module Rules {
  import opened Seqs
  import opened Availability
  import opened CpModel
  import opened Roster
  import opened Exemption

  /** `non_consecutive`. */
  function Gap(p: Problem): int {
    p.config.nonConsecutive
  }

  /** One exact-coverage constraint for each of the first k nights. */
  function Coverage(p: Problem, k: nat): seq<Constraint> {
    if k == 0 then []
    else Coverage(p, k - 1) + [SumEq(Column(|p.doodle|, k - 1), p.config.mgrsPerNight)]
  }

  /** The lower and upper workload bounds for each of the first k managers. */
  function Workload(p: Problem, k: nat): seq<Constraint> {
    if k == 0 then []
    else
      var row := Line(k - 1, 0, |p.nights|);
      Workload(p, k - 1) + [SumGe(row, p.config.minNights), SumLe(row, p.config.maxNights)]
  }

  /** Manager m's cells among the first k nights whose answer is below the required level,
      each forced to 0. */
  function CutoffRow(p: Problem, m: nat, k: nat): seq<Constraint>
    requires m < |p.doodle| && k <= |p.doodle[m].levels|
  {
    if k == 0 then []
    else
      CutoffRow(p, m, k - 1)
      + (if Below(p.doodle[m].levels[k - 1], p.config.availabilityLevel) then [SumEq([Cell(m, k - 1)], 0)] else [])
  }

  /** The availability cut-offs of the first k managers. */
  function Cutoffs(p: Problem, k: nat): seq<Constraint>
    requires Aligned(p.doodle, p.nights) && k <= |p.doodle|
  {
    if k == 0 then [] else Cutoffs(p, k - 1) + CutoffRow(p, k - 1, |p.nights|)
  }

  /** On night n, the first k `together` pairs take equal values. */
  function TogetherOn(p: Problem, n: nat, k: nat): seq<Constraint>
    requires PairsKnown(p.together, p.managers) && k <= |p.together|
  {
    if k == 0 then []
    else
      var pair := p.together[k - 1];
      TogetherOn(p, n, k - 1) + [Same(Cell(p.managers[pair.0], n), Cell(p.managers[pair.1], n))]
  }

  /** On night n, the first k `apart` pairs sum to at most 1. */
  function ApartOn(p: Problem, n: nat, k: nat): seq<Constraint>
    requires PairsKnown(p.apart, p.managers) && k <= |p.apart|
  {
    if k == 0 then []
    else
      var pair := p.apart[k - 1];
      ApartOn(p, n, k - 1) + [SumLe([Cell(p.managers[pair.0], n), Cell(p.managers[pair.1], n)], 1)]
  }

  /** The pairing constraints of the first k nights: per night, every `together` pair and
      then every `apart` pair. */
  function Pairing(p: Problem, k: nat): seq<Constraint>
    requires PairsKnown(p.together, p.managers) && PairsKnown(p.apart, p.managers)
  {
    if k == 0 then []
    else Pairing(p, k - 1) + TogetherOn(p, k - 1, |p.together|) + ApartOn(p, k - 1, |p.apart|)
  }

  /** A manager's pinned nights as `sorted(ns)` leaves them: in string order. */
  function PinnedNights(p: Problem, name: string): (r: seq<string>)
    requires PinsValid(p) && name in p.pin
    ensures AllKnown(r, p.nightIndex)
    ensures multiset(r) == multiset(p.pin[name])
  {
    var r := SortLabels(p.pin[name]);
    assert AllKnown(r, p.nightIndex) by {
      forall i | 0 <= i < |r| ensures r[i] in p.nightIndex {
        assert r[i] in multiset(p.pin[name]);
      }
    }
    r
  }

  /** The first k of a manager's pinned nights, each forced to 1. */
  function PinsOf(p: Problem, name: string, k: nat): seq<Constraint>
    requires PinsValid(p) && name in p.pin && k <= |PinnedNights(p, name)|
  {
    if k == 0 then []
    else
      var night := PinnedNights(p, name)[k - 1];
      PinsOf(p, name, k - 1) + [SumEq([Cell(p.managers[name], p.nightIndex[night])], 1)]
  }

  /** The pins of the first k managers in `pin`'s key order. */
  function Pins(p: Problem, k: nat): seq<Constraint>
    requires PinsValid(p) && k <= |p.pinOrder|
  {
    if k == 0 then []
    else
      var name := p.pinOrder[k - 1];
      Pins(p, k - 1) + PinsOf(p, name, |PinnedNights(p, name)|)
  }

  /** Line 150 for one manager, as written: some adjacent difference of their pins, sorted as
      strings, is at most `non_consecutive`. */
  predicate Exempts(p: Problem, name: string)
    requires PinsValid(p) && name in p.pin
  {
    Exempt(Indices(PinnedNights(p, name), p.nightIndex), Gap(p))
  }

  /** The outcome of the exemption test for each manager in `pin`'s key order. */
  function ExemptFlags(p: Problem): (r: seq<bool>)
    requires PinsValid(p)
    ensures |r| == |p.pinOrder|
  {
    seq(|p.pinOrder|, i requires 0 <= i < |p.pinOrder| => Exempts(p, p.pinOrder[i]))
  }

  /** The manager positions of `pin`'s keys, in key order. */
  function PinIds(p: Problem): (r: seq<nat>)
    requires PinsValid(p)
    ensures |r| == |p.pinOrder|
  {
    seq(|p.pinOrder|, i requires 0 <= i < |p.pinOrder| => p.managers[p.pinOrder[i]])
  }

  /** The first k of `ids` whose flag is set, in order. */
  function Flagged(ids: seq<nat>, flags: seq<bool>, k: nat): seq<nat>
    requires k <= |ids| == |flags|
  {
    if k == 0 then []
    else Flagged(ids, flags, k - 1) + (if flags[k - 1] then [ids[k - 1]] else [])
  }

  /** `nonconsexc` after the first k managers in `pin`'s key order: the positions of those
      whose pins lie too close together. */
  function Exempted(p: Problem, k: nat): seq<nat>
    requires PinsValid(p) && k <= |p.pinOrder|
  {
    Flagged(PinIds(p), ExemptFlags(p), k)
  }

  /** The number of windows per manager: `range(0, n_nights - non_consecutive)`. */
  function WindowCount(p: Problem): nat {
    if |p.nights| - Gap(p) > 0 then |p.nights| - Gap(p) else 0
  }

  /** `range(start, start + gap + 1)` on manager m's row. */
  function Window(m: nat, start: nat, gap: int): seq<Cell> {
    if gap < 0 then [] else Line(m, start, gap + 1)
  }

  /** Manager m's first k windows, each holding at most one assigned night. */
  function WindowsOf(p: Problem, m: nat, k: nat): seq<Constraint> {
    if k == 0 then [] else WindowsOf(p, m, k - 1) + [SumLe(Window(m, k - 1, Gap(p)), 1)]
  }

  /** The spacing windows of the first k managers, skipping the exempted ones. */
  function Spacing(p: Problem, exempt: seq<nat>, k: nat): seq<Constraint> {
    if k == 0 then []
    else Spacing(p, exempt, k - 1) + (if k - 1 in exempt then [] else WindowsOf(p, k - 1, WindowCount(p)))
  }

  /** Every hard constraint `solve` emits, in the order it emits them. */
  function Emitted(p: Problem): seq<Constraint>
    requires Consistent(p)
  {
    Coverage(p, |p.nights|)
    + Workload(p, |p.doodle|)
    + Cutoffs(p, |p.doodle|)
    + Pairing(p, |p.nights|)
    + Pins(p, |p.pinOrder|)
    + Spacing(p, Exempted(p, |p.pinOrder|), |p.doodle|)
  }

  // The readable properties.

  /** How many of the first `rows` managers work night n. */
  function NightCount(a: Assignment, rows: nat, n: nat): nat {
    |set m: nat | m < rows && On(a, m, n)|
  }

  /** How many of the first `cols` nights manager m works. */
  function NightsWorked(a: Assignment, m: nat, cols: nat): nat {
    |set n: nat | n < cols && On(a, m, n)|
  }

  predicate ExactCoverage(p: Problem, a: Assignment) {
    forall n :: 0 <= n < |p.nights| ==> NightCount(a, |p.doodle|, n) == p.config.mgrsPerNight
  }

  predicate WorkloadWithin(p: Problem, a: Assignment) {
    forall m :: 0 <= m < |p.doodle| ==>
      p.config.minNights <= NightsWorked(a, m, |p.nights|) <= p.config.maxNights
  }

  predicate CutoffsRespected(p: Problem, a: Assignment)
    requires Aligned(p.doodle, p.nights)
  {
    forall m, n :: 0 <= m < |p.doodle| && 0 <= n < |p.nights| && Below(p.doodle[m].levels[n], p.config.availabilityLevel)
      ==> !On(a, m, n)
  }

  /** Managers x and y are both on or both off on night n. */
  predicate Alike(a: Assignment, x: nat, y: nat, n: nat) {
    On(a, x, n) <==> On(a, y, n)
  }

  /** Managers x and y are not both on on night n. */
  predicate NotBoth(a: Assignment, x: nat, y: nat, n: nat) {
    !(On(a, x, n) && On(a, y, n))
  }

  predicate TogetherRespected(p: Problem, a: Assignment)
    requires PairsKnown(p.together, p.managers)
  {
    forall i, n :: 0 <= i < |p.together| && 0 <= n < |p.nights| ==>
      Alike(a, p.managers[p.together[i].0], p.managers[p.together[i].1], n)
  }

  predicate ApartRespected(p: Problem, a: Assignment)
    requires PairsKnown(p.apart, p.managers)
  {
    forall i, n :: 0 <= i < |p.apart| && 0 <= n < |p.nights| ==>
      NotBoth(a, p.managers[p.apart[i].0], p.managers[p.apart[i].1], n)
  }

  predicate PinsHonoured(p: Problem, a: Assignment)
    requires PinsValid(p)
  {
    forall name, night :: name in p.pin && night in p.pin[name] ==>
      On(a, p.managers[name], p.nightIndex[night])
  }

  /** Any two nights manager m works among the first `cols` are more than `gap` apart. */
  predicate Spaced(a: Assignment, m: nat, cols: nat, gap: int) {
    forall i, j :: 0 <= i < j < cols && On(a, m, i) && On(a, m, j) ==> j - i > gap
  }

  predicate SpacingRespected(p: Problem, a: Assignment)
    requires PinsValid(p)
  {
    forall m :: 0 <= m < |p.doodle| && m !in Exempted(p, |p.pinOrder|) ==> Spaced(a, m, |p.nights|, Gap(p))
  }

  /** What the emitted constraints demand whatever `non_consecutive` is: coverage, workloads,
      the cut-off, the pairings and the pins. */
  predicate Staffed(p: Problem, a: Assignment)
    requires Consistent(p)
  {
    && ExactCoverage(p, a)
    && WorkloadWithin(p, a)
    && CutoffsRespected(p, a)
    && TogetherRespected(p, a)
    && ApartRespected(p, a)
    && PinsHonoured(p, a)
  }

  /** The roster the emitted constraints describe: staffed, and spaced out wherever line 159
      emits windows at all, that is when `non_consecutive` is below the number of nights. */
  predicate Rostered(p: Problem, a: Assignment)
    requires Consistent(p)
  {
    && Staffed(p, a)
    && (Gap(p) < |p.nights| ==> SpacingRespected(p, a))
  }
}
