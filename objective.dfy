/** The objective terms `solve` hands to the solver (macd.py:162-167): the number of IFNEEDBE
    answers used, to be minimised, and, when a previous schedule is set, the overlap with it,
    to be maximised. */
module Objective {
  import opened Seqs
  import opened Availability
  import opened CpModel
  import opened Roster
  import opened Rules
  import opened Report

  /** The objective calls in the order `solve` makes them: `model.Minimize(sum(cells))` and
      `model.Maximize(sum(coef * cell ...))`. */
  datatype Goal = MinimizeSum(cells: seq<Cell>) | MaximizeWeighted(terms: seq<Term>)

  /** Row m's cells among the first k nights whose answer is IFNEEDBE. */
  function IfNeedBeRow(p: Problem, m: nat, k: nat): (r: seq<Cell>)
    requires m < |p.doodle| && k <= |p.doodle[m].levels|
    ensures forall c :: c in r <==> c.m == m && c.n < k && p.doodle[m].levels[c.n] == IfNeedBe
    ensures Distinct(r)
  {
    if k == 0 then []
    else IfNeedBeRow(p, m, k - 1) + (if p.doodle[m].levels[k - 1] == IfNeedBe then [Cell(m, k - 1)] else [])
  }

  /** The cells of the IFNEEDBE sum at line 163 for the first k managers, manager by manager. */
  function IfNeedBeCells(p: Problem, k: nat): (r: seq<Cell>)
    requires Aligned(p.doodle, p.nights) && k <= |p.doodle|
    ensures forall c :: c in r <==>
              c.m < k && c.n < |p.nights| && p.doodle[c.m].levels[c.n] == IfNeedBe
    ensures Distinct(r)
  {
    if k == 0 then []
    else
      var init, row := IfNeedBeCells(p, k - 1), IfNeedBeRow(p, k - 1, |p.nights|);
      assert forall i, j :: 0 <= i < |init| && 0 <= j < |row| ==> init[i] != row[j] by {
        forall i, j | 0 <= i < |init| && 0 <= j < |row| ensures init[i] != row[j] {
          assert init[i] in init && row[j] in row;
        }
      }
      init + row
  }

  /** The assigned cells whose answer is IFNEEDBE. */
  function IfNeedBeUsed(p: Problem, a: Assignment): set<Cell>
    requires Aligned(p.doodle, p.nights)
  {
    set m: nat, n: nat | m < |p.doodle| && n < |p.nights| && p.doodle[m].levels[n] == IfNeedBe && On(a, m, n)
      :: Cell(m, n)
  }

  lemma IfNeedBeUsedHolds(p: Problem, a: Assignment)
    requires Aligned(p.doodle, p.nights)
    ensures forall m: nat, n: nat :: m < |p.doodle| && n < |p.nights| && p.doodle[m].levels[n] == IfNeedBe && On(a, m, n)
              ==> Cell(m, n) in IfNeedBeUsed(p, a)
  {
  }

  /** Line 163: the minimised sum counts the assigned cells whose answer is IFNEEDBE. */
  lemma IfNeedBeTermCounts(p: Problem, a: Assignment)
    requires Aligned(p.doodle, p.nights)
    ensures Sum(a, IfNeedBeCells(p, |p.doodle|)) == |IfNeedBeUsed(p, a)|
  {
    var cells := IfNeedBeCells(p, |p.doodle|);
    SumOfDistinct(a, cells);
    assert (set c | c in cells && On(a, c.m, c.n)) == IfNeedBeUsed(p, a);
  }

  /** The minimised sum is zero exactly when no manager works a night they answered IFNEEDBE. */
  lemma IfNeedBeTermZero(p: Problem, a: Assignment)
    requires Aligned(p.doodle, p.nights)
    ensures Sum(a, IfNeedBeCells(p, |p.doodle|)) == 0 <==>
            forall m, n :: 0 <= m < |p.doodle| && 0 <= n < |p.nights| && p.doodle[m].levels[n] == IfNeedBe
              ==> !On(a, m, n)
  {
    IfNeedBeTermCounts(p, a);
    if Sum(a, IfNeedBeCells(p, |p.doodle|)) != 0 {
      var c :| c in IfNeedBeUsed(p, a);
    } else {
      IfNeedBeUsedHolds(p, a);
    }
  }

  /** With the cut-off at YES (line 37), any roster respecting the cut-offs already reaches the
      minimum of the IFNEEDBE sum. */
  lemma StrictCutoffUsesNoIfNeedBe(p: Problem, a: Assignment)
    requires Aligned(p.doodle, p.nights) && p.config.availabilityLevel == Yes && CutoffsRespected(p, a)
    ensures Sum(a, IfNeedBeCells(p, |p.doodle|)) == 0
  {
    IfNeedBeTermZero(p, a);
  }

  /** `prev` has an entry for every manager and night `solve` looks up. */
  predicate Covers(prev: seq<seq<int>>, rows: nat, cols: nat) {
    rows <= |prev| && forall m :: 0 <= m < rows ==> cols <= |prev[m]|
  }

  /** Row m's terms `shifts[m][n] * prev[m][n]` for the first k nights. */
  function StabilityRow(prev: seq<seq<int>>, m: nat, k: nat): (r: seq<Term>)
    requires m < |prev| && k <= |prev[m]|
    ensures forall t {:trigger t in r} :: t in r <==> t.cell.m == m && t.cell.n < k && t.coef == prev[m][t.cell.n]
  {
    if k == 0 then [] else StabilityRow(prev, m, k - 1) + [Term(prev[m][k - 1], Cell(m, k - 1))]
  }

  /** The terms of the maximised sum at line 167 for the first k managers, manager by manager. */
  function StabilityTerms(prev: seq<seq<int>>, k: nat, cols: nat): (r: seq<Term>)
    requires Covers(prev, k, cols)
    ensures forall t {:trigger t in r} :: t in r <==>
              t.cell.m < k && t.cell.n < cols && t.coef == prev[t.cell.m][t.cell.n]
  {
    if k == 0 then []
    else
      StabilityTerms(prev, k - 1, cols) + StabilityRow(prev, k - 1, cols)
  }

  /** Every objective call `solve` makes, in order: the IFNEEDBE sum, then the overlap with
      the previous schedule when one is set. */
  function Goals(p: Problem, prev: seq<seq<int>>, hasPrev: bool): (r: seq<Goal>)
    requires Aligned(p.doodle, p.nights)
    requires hasPrev ==> Covers(prev, |p.doodle|, |p.nights|)
    ensures |r| == if hasPrev then 2 else 1
    ensures r[0] == MinimizeSum(IfNeedBeCells(p, |p.doodle|))
    ensures hasPrev ==> r[1] == MaximizeWeighted(StabilityTerms(prev, |p.doodle|, |p.nights|))
  {
    [MinimizeSum(IfNeedBeCells(p, |p.doodle|))]
    + (if hasPrev then [MaximizeWeighted(StabilityTerms(prev, |p.doodle|, |p.nights|))] else [])
  }

  /** With non-negative previous entries, the overlap never exceeds `sum(prev)` over the grid. */
  lemma StabilityAtMostPrevTotal(prev: seq<seq<int>>, rows: nat, cols: nat, a: Assignment)
    requires Covers(prev, rows, cols)
    requires forall m, n :: 0 <= m < rows && 0 <= n < cols ==> prev[m][n] >= 0
    ensures Weighted(a, StabilityTerms(prev, rows, cols)) <= CoefTotal(StabilityTerms(prev, rows, cols))
  {
    var ts := StabilityTerms(prev, rows, cols);
    forall i | 0 <= i < |ts| ensures ts[i].coef >= 0 {
      assert ts[i] in ts;
    }
    WeightedAtMostTotal(a, ts);
  }

  /** A schedule fed back through `set_prev` as its own `raw_data` reaches that bound, so it
      maximises the overlap term: no assignment scores higher. */
  lemma PreviousScheduleMaximisesOverlap(a: Assignment, b: Assignment, rows: nat, cols: nat)
    ensures var ts := StabilityTerms(RawData(a, rows, cols), rows, cols);
            Weighted(a, ts) == CoefTotal(ts) && Weighted(b, ts) <= Weighted(a, ts)
  {
    var prev := RawData(a, rows, cols);
    var ts := StabilityTerms(prev, rows, cols);
    forall i | 0 <= i < |ts| ensures ts[i].coef == Val(a, ts[i].cell) && ts[i].coef >= 0 {
      assert ts[i] in ts;
    }
    WeightedReachesTotal(a, ts);
    WeightedAtMostTotal(b, ts);
  }
  /** A row's terms weigh distinct cells, all in that row and before night k. */
  lemma {:induction false} StabilityRowDistinct(prev: seq<seq<int>>, m: nat, k: nat)
    requires m < |prev| && k <= |prev[m]|
    ensures DistinctCells(StabilityRow(prev, m, k))
  {
    if k > 0 {
      StabilityRowDistinct(prev, m, k - 1);
      var init, row := StabilityRow(prev, m, k - 1), StabilityRow(prev, m, k);
      forall i, j | 0 <= i < j < |row| ensures row[i].cell != row[j].cell {
        if j == |init| {
          assert row[i] in init;
        } else {
          assert row[i] == init[i] && row[j] == init[j];
        }
      }
    }
  }

  /** The overlap term weighs every cell at most once. */
  lemma {:induction false} StabilityCellsDistinct(prev: seq<seq<int>>, k: nat, cols: nat)
    requires Covers(prev, k, cols)
    ensures DistinctCells(StabilityTerms(prev, k, cols))
  {
    if k > 0 {
      StabilityCellsDistinct(prev, k - 1, cols);
      StabilityRowDistinct(prev, k - 1, cols);
      var init, row := StabilityTerms(prev, k - 1, cols), StabilityRow(prev, k - 1, cols);
      forall i, j | 0 <= i < |init| && 0 <= j < |row| ensures init[i].cell != row[j].cell {
        assert init[i] in init && row[j] in row;
      }
      DistinctCellsAppend(init, row);
    }
  }

  /** Fed back a schedule's own 0/1 table, the overlap term weighs 1 exactly the cells that
      schedule sets. */
  lemma OnesOfRawData(b: Assignment, rows: nat, cols: nat, c: Cell)
    ensures c in Ones(StabilityTerms(RawData(b, rows, cols), rows, cols)) <==>
            c.m < rows && c.n < cols && On(b, c.m, c.n)
  {
    var ts := StabilityTerms(RawData(b, rows, cols), rows, cols);
    OnesMembers(ts, c);
    if c in Ones(ts) {
      var i :| 0 <= i < |ts| && ts[i].coef == 1 && ts[i].cell == c;
      assert ts[i] in ts;
    }
    if c.m < rows && c.n < cols && On(b, c.m, c.n) {
      var t := Term(1, c);
      assert t in ts;
      var i :| 0 <= i < |ts| && ts[i] == t;
    }
  }

  /** The cells set in both schedules. */
  function Shared(a: Assignment, b: Assignment, rows: nat, cols: nat): set<Cell> {
    set m: nat, n: nat | m < rows && n < cols && On(a, m, n) && On(b, m, n) :: Cell(m, n)
  }

  lemma OnesOfRawDataSetInA(a: Assignment, b: Assignment, rows: nat, cols: nat)
    ensures var ones := Ones(StabilityTerms(RawData(b, rows, cols), rows, cols));
            (set c | c in ones && On(a, c.m, c.n)) == Shared(a, b, rows, cols)
  {
    var ones := Ones(StabilityTerms(RawData(b, rows, cols), rows, cols));
    var shared := Shared(a, b, rows, cols);
    forall c | c in ones && On(a, c.m, c.n) ensures c in shared {
      OnesOfRawData(b, rows, cols, c);
    }
    forall c | c in shared ensures c in ones {
      OnesOfRawData(b, rows, cols, c);
    }
  }

  /** Fed back a schedule's own 0/1 table, the overlap term counts the cells set in both
      schedules: agreeing on an unassigned cell earns nothing. */
  lemma StabilityCountsSharedShifts(a: Assignment, b: Assignment, rows: nat, cols: nat)
    ensures Weighted(a, StabilityTerms(RawData(b, rows, cols), rows, cols)) == |Shared(a, b, rows, cols)|
  {
    var prev := RawData(b, rows, cols);
    var ts := StabilityTerms(prev, rows, cols);
    forall i | 0 <= i < |ts| ensures ts[i].coef == 0 || ts[i].coef == 1 {
      assert ts[i] in ts;
    }
    WeightedOfZeroOne(a, ts);
    StabilityCellsDistinct(prev, rows, cols);
    OnesDistinct(ts);
    SumOfDistinct(a, Ones(ts));
    OnesOfRawDataSetInA(a, b, rows, cols);
  }
}
