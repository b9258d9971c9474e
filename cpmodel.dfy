/** The vocabulary of the external CP-SAT solver as `solve` uses it: one boolean variable per
    (manager, night) cell, linear constraints over those variables, and linear objectives. */
module CpModel {
  import opened Seqs

  /** The variable `shifts[m][n]`: manager m manages on night n. */
  datatype Cell = Cell(m: nat, n: nat)

  /** The shapes of `model.Add(...)` that `solve` emits. */
  datatype Constraint =
    | SumEq(cells: seq<Cell>, k: int)   // sum(cells) == k
    | SumLe(cells: seq<Cell>, k: int)   // sum(cells) <= k
    | SumGe(cells: seq<Cell>, k: int)   // sum(cells) >= k
    | Same(x: Cell, y: Cell)            // x == y

  /** A weighted objective term `coef * cell`. */
  datatype Term = Term(coef: int, cell: Cell)

  /** The solver's answer: a[m][n] holds when `solver.Value(shifts[m][n]) == 1`. */
  type Assignment = seq<seq<bool>>

  /** An assignment over exactly rows x cols cells. */
  predicate Shaped(a: Assignment, rows: nat, cols: nat) {
    |a| == rows && forall m :: 0 <= m < rows ==> |a[m]| == cols
  }

  /** Cell (m, n) is set; positions outside the assignment read as unset. */
  predicate On(a: Assignment, m: nat, n: nat) {
    m < |a| && n < |a[m]| && a[m][n]
  }

  /** The 0/1 value of a cell. */
  function Val(a: Assignment, c: Cell): int {
    if On(a, c.m, c.n) then 1 else 0
  }

  /** The value of the linear expression `sum(cells)` (a cell listed twice counts twice). */
  function Sum(a: Assignment, cells: seq<Cell>): int {
    if cells == [] then 0 else Sum(a, cells[..|cells| - 1]) + Val(a, cells[|cells| - 1])
  }

  /** The value of `sum(coef * cell for ...)`. */
  function Weighted(a: Assignment, ts: seq<Term>): int {
    if ts == [] then 0 else Weighted(a, ts[..|ts| - 1]) + ts[|ts| - 1].coef * Val(a, ts[|ts| - 1].cell)
  }

  /** The sum of the coefficients, the value of `Weighted` when every cell is set. */
  function CoefTotal(ts: seq<Term>): int {
    if ts == [] then 0 else CoefTotal(ts[..|ts| - 1]) + ts[|ts| - 1].coef
  }

  predicate Holds(a: Assignment, c: Constraint) {
    match c
    case SumEq(cells, k) => Sum(a, cells) == k
    case SumLe(cells, k) => Sum(a, cells) <= k
    case SumGe(cells, k) => Sum(a, cells) >= k
    case Same(x, y) => Val(a, x) == Val(a, y)
  }

  /** The assignment meets every emitted constraint. */
  predicate Satisfies(a: Assignment, cs: seq<Constraint>) {
    forall i :: 0 <= i < |cs| ==> Holds(a, cs[i])
  }

  /** Cells m, lo .. lo + len - 1 of one manager's row (`range(lo, lo + len)`). */
  function Line(m: nat, lo: nat, len: nat): seq<Cell> {
    seq(len, j requires 0 <= j => Cell(m, lo + j))
  }

  /** Cells 0 .. k - 1 of one night's column (`for m in all_mgrs`). */
  function Column(k: nat, n: nat): seq<Cell> {
    seq(k, i requires 0 <= i => Cell(i, n))
  }

  /** Emitting two lists is satisfied exactly when each of them is. */
  lemma SatisfiesAppend(a: Assignment, xs: seq<Constraint>, ys: seq<Constraint>)
    ensures Satisfies(a, xs + ys) <==> Satisfies(a, xs) && Satisfies(a, ys)
  {
    if Satisfies(a, xs + ys) {
      forall i | 0 <= i < |xs| ensures Holds(a, xs[i]) {
        assert (xs + ys)[i] == xs[i];
      }
      forall i | 0 <= i < |ys| ensures Holds(a, ys[i]) {
        assert (xs + ys)[|xs| + i] == ys[i];
      }
    }
  }

  /** Emitting one more constraint adds exactly that constraint's condition. */
  lemma SatisfiesSnoc(a: Assignment, xs: seq<Constraint>, c: Constraint)
    ensures Satisfies(a, xs + [c]) <==> Satisfies(a, xs) && Holds(a, c)
  {
    SatisfiesAppend(a, xs, [c]);
    assert Satisfies(a, [c]) <==> Holds(a, [c][0]);
  }

  /** A run of a row sums to the number of set nights in it. */
  lemma {:induction false} LineSum(a: Assignment, m: nat, lo: nat, len: nat)
    ensures Sum(a, Line(m, lo, len)) == |set j: nat | lo <= j < lo + len && On(a, m, j)|
  {
    if len > 0 {
      LineSum(a, m, lo, len - 1);
      assert Line(m, lo, len)[..len - 1] == Line(m, lo, len - 1);
      assert Sum(a, Line(m, lo, len)) == Sum(a, Line(m, lo, len - 1)) + Val(a, Cell(m, lo + len - 1));
      var s := set j: nat | lo <= j < lo + len - 1 && On(a, m, j);
      var t := set j: nat | lo <= j < lo + len && On(a, m, j);
      if On(a, m, lo + len - 1) {
        assert t == s + {lo + len - 1};
      } else {
        assert t == s;
      }
    }
  }

  /** The first k cells of a column sum to the number of set managers among them. */
  lemma {:induction false} ColumnSum(a: Assignment, k: nat, n: nat)
    ensures Sum(a, Column(k, n)) == |set m: nat | m < k && On(a, m, n)|
  {
    if k > 0 {
      ColumnSum(a, k - 1, n);
      assert Column(k, n)[..k - 1] == Column(k - 1, n);
      assert Sum(a, Column(k, n)) == Sum(a, Column(k - 1, n)) + Val(a, Cell(k - 1, n));
      var s := set m: nat | m < k - 1 && On(a, m, n);
      var t := set m: nat | m < k && On(a, m, n);
      if On(a, k - 1, n) {
        assert t == s + {k - 1};
      } else {
        assert t == s;
      }
    }
  }

  /** Over distinct cells the sum is the number of set cells. */
  lemma {:induction false} SumOfDistinct(a: Assignment, cells: seq<Cell>)
    requires Distinct(cells)
    ensures Sum(a, cells) == |set c | c in cells && On(a, c.m, c.n)|
  {
    if cells != [] {
      var init, last := cells[..|cells| - 1], cells[|cells| - 1];
      assert cells == init + [last];
      SumOfDistinct(a, init);
      var s := set c | c in init && On(a, c.m, c.n);
      var t := set c | c in cells && On(a, c.m, c.n);
      assert last !in init;
      if On(a, last.m, last.n) {
        assert t == s + {last};
      } else {
        assert t == s;
      }
    }
  }

  /** With non-negative weights, the weighted sum never exceeds the weights' total. */
  lemma {:induction false} WeightedAtMostTotal(a: Assignment, ts: seq<Term>)
    requires forall i :: 0 <= i < |ts| ==> ts[i].coef >= 0
    ensures Weighted(a, ts) <= CoefTotal(ts)
  {
    if ts != [] {
      WeightedAtMostTotal(a, ts[..|ts| - 1]);
    }
  }

  /** When every weight is the 0/1 value of its own cell, the weighted sum reaches the total. */
  lemma {:induction false} WeightedReachesTotal(a: Assignment, ts: seq<Term>)
    requires forall i :: 0 <= i < |ts| ==> ts[i].coef == Val(a, ts[i].cell)
    ensures Weighted(a, ts) == CoefTotal(ts)
  {
    if ts != [] {
      WeightedReachesTotal(a, ts[..|ts| - 1]);
    }
  }
  /** No two terms weigh the same cell. */
  predicate DistinctCells(ts: seq<Term>) {
    forall i, j :: 0 <= i < j < |ts| ==> ts[i].cell != ts[j].cell
  }

  /** The cells of the terms whose coefficient is 1, in order. */
  function Ones(ts: seq<Term>): seq<Cell> {
    if ts == [] then []
    else Ones(ts[..|ts| - 1]) + (if ts[|ts| - 1].coef == 1 then [ts[|ts| - 1].cell] else [])
  }

  lemma {:induction false} OnesMembers(ts: seq<Term>, c: Cell)
    ensures c in Ones(ts) <==> exists i :: 0 <= i < |ts| && ts[i].coef == 1 && ts[i].cell == c
  {
    if ts != [] {
      var init := ts[..|ts| - 1];
      OnesMembers(init, c);
      if exists i :: 0 <= i < |ts| && ts[i].coef == 1 && ts[i].cell == c {
        var i :| 0 <= i < |ts| && ts[i].coef == 1 && ts[i].cell == c;
        if i < |init| {
          assert init[i] == ts[i];
        }
      }
      if c in Ones(init) {
        var i :| 0 <= i < |init| && init[i].coef == 1 && init[i].cell == c;
        assert ts[i] == init[i];
      }
    }
  }

  lemma {:induction false} OnesDistinct(ts: seq<Term>)
    requires DistinctCells(ts)
    ensures Distinct(Ones(ts))
  {
    if ts != [] {
      var init, last := ts[..|ts| - 1], ts[|ts| - 1];
      assert DistinctCells(init) by {
        forall i, j | 0 <= i < j < |init| ensures init[i].cell != init[j].cell {
          assert init[i] == ts[i] && init[j] == ts[j];
        }
      }
      OnesDistinct(init);
      if last.coef == 1 {
        forall i | 0 <= i < |init| ensures !(init[i].coef == 1 && init[i].cell == last.cell) {
          assert init[i] == ts[i];
        }
        OnesMembers(init, last.cell);
        var o := Ones(init);
        forall i, j | 0 <= i < j < |o| + 1 ensures (o + [last.cell])[i] != (o + [last.cell])[j] {
          if j == |o| {
            assert o[i] in o;
          }
        }
      }
    }
  }

  /** With 0/1 weights, the weighted sum is the sum over the cells weighted 1. */
  lemma {:induction false} WeightedOfZeroOne(a: Assignment, ts: seq<Term>)
    requires forall i :: 0 <= i < |ts| ==> ts[i].coef == 0 || ts[i].coef == 1
    ensures Weighted(a, ts) == Sum(a, Ones(ts))
  {
    if ts != [] {
      var init, last := ts[..|ts| - 1], ts[|ts| - 1];
      assert forall i :: 0 <= i < |init| ==> init[i] == ts[i];
      WeightedOfZeroOne(a, init);
      var o := Ones(init);
      assert Weighted(a, ts) == Weighted(a, init) + last.coef * Val(a, last.cell);
      if last.coef == 1 {
        assert Ones(ts) == o + [last.cell];
        assert (o + [last.cell])[..|o|] == o;
      } else {
        assert Ones(ts) == o + [];
        assert o + [] == o;
      }
    }
  }

  /** Two term lists over distinct cells, sharing no cell, together weigh distinct cells. */
  lemma DistinctCellsAppend(xs: seq<Term>, ys: seq<Term>)
    requires DistinctCells(xs) && DistinctCells(ys)
    requires forall i, j :: 0 <= i < |xs| && 0 <= j < |ys| ==> xs[i].cell != ys[j].cell
    ensures DistinctCells(xs + ys)
  {
    var ts := xs + ys;
    forall i, j | 0 <= i < j < |ts| ensures ts[i].cell != ts[j].cell {
      if j < |xs| {
        assert ts[i] == xs[i] && ts[j] == xs[j];
      } else if i < |xs| {
        assert ts[i] == xs[i] && ts[j] == ys[j - |xs|];
      } else {
        assert ts[i] == ys[i - |xs|] && ts[j] == ys[j - |xs|];
      }
    }
  }
}
