/** What `print_managers` and `raw_data` read back out of a solution (macd.py:178-206): the
    per-night and per-manager lists, and the 0/1 table of every cell. */
module Report {
  import opened Availability
  import opened CpModel
  import opened Roster
  import opened Rules

  /** An entry as listed: `'%s(!)' % name` when the answer for that cell was IFNEEDBE, the
      text itself otherwise. */
  function Flag(text: string, level: Level): (r: string)
    ensures |text| <= |r| && r[..|text|] == text
    ensures |r| > |text| <==> level == IfNeedBe
    ensures |r| > |text| ==> r[|text|..] == "(!)"
  {
    if level == IfNeedBe then text + "(!)" else text
  }

  /** The positions of the set entries, in ascending order. */
  function Selected(bs: seq<bool>): (r: seq<nat>)
    ensures forall i :: 0 <= i < |r| ==> r[i] < |bs| && bs[r[i]]
    ensures forall j :: 0 <= j < |bs| && bs[j] ==> j in r
    ensures forall i, j :: 0 <= i < j < |r| ==> r[i] < r[j]
  {
    if bs == [] then []
    else Selected(bs[..|bs| - 1]) + (if bs[|bs| - 1] then [|bs| - 1] else [])
  }

  /** Which of the first k managers are on night n. */
  function OnColumn(a: Assignment, n: nat, k: nat): seq<bool> {
    seq(k, m requires 0 <= m => On(a, m, n))
  }

  /** Which of the first k nights manager m is on. */
  function OnRow(a: Assignment, m: nat, k: nat): seq<bool> {
    seq(k, j requires 0 <= j => On(a, m, j))
  }

  /** The list `mgrs` for night n after the first k managers (lines 184-190). */
  function NightLine(p: Problem, a: Assignment, n: nat, k: nat): seq<string>
    requires Aligned(p.doodle, p.nights) && n < |p.nights| && k <= |p.doodle|
  {
    if k == 0 then []
    else
      var row := p.doodle[k - 1];
      NightLine(p, a, n, k - 1) + (if On(a, k - 1, n) then [Flag(row.name, row.levels[n])] else [])
  }

  /** The list `nights` for manager m after the first k nights (lines 195-201). */
  function ManagerLine(p: Problem, a: Assignment, m: nat, k: nat): seq<string>
    requires Aligned(p.doodle, p.nights) && m < |p.doodle| && k <= |p.nights|
  {
    if k == 0 then []
    else
      ManagerLine(p, a, m, k - 1)
      + (if On(a, m, k - 1) then [Flag(p.nights[k - 1], p.doodle[m].levels[k - 1])] else [])
  }

  lemma SelectedSnoc(bs: seq<bool>, b: bool)
    ensures Selected(bs + [b]) == Selected(bs) + (if b then [|bs|] else [])
  {
    assert (bs + [b])[..|bs|] == bs;
  }

  /** Night n's list names exactly the managers on that night, in manager order, each flagged
      by their answer for that night. */
  lemma {:induction false} NightLineIsSelection(p: Problem, a: Assignment, n: nat, k: nat)
    requires Aligned(p.doodle, p.nights) && n < |p.nights| && k <= |p.doodle|
    ensures var s := Selected(OnColumn(a, n, k));
            |NightLine(p, a, n, k)| == |s| &&
            forall i :: 0 <= i < |s| ==>
              s[i] < |p.doodle| && NightLine(p, a, n, k)[i] == Flag(p.doodle[s[i]].name, p.doodle[s[i]].levels[n])
  {
    if k > 0 {
      NightLineIsSelection(p, a, n, k - 1);
      var col, b := OnColumn(a, n, k - 1), On(a, k - 1, n);
      assert OnColumn(a, n, k) == col + [b];
      SelectedSnoc(col, b);
      var s0, s := Selected(col), Selected(col + [b]);
      var l0, l := NightLine(p, a, n, k - 1), NightLine(p, a, n, k);
      assert l == l0 + (if b then [Flag(p.doodle[k - 1].name, p.doodle[k - 1].levels[n])] else []);
      forall i | 0 <= i < |s| ensures s[i] < |p.doodle| && l[i] == Flag(p.doodle[s[i]].name, p.doodle[s[i]].levels[n]) {
        if i < |s0| {
          assert s[i] == s0[i] && l[i] == l0[i];
        } else {
          assert s[i] == k - 1;
        }
      }
    }
  }

  /** Manager m's list names exactly the nights they are on, in calendar order, each flagged by
      their answer for that night. */
  lemma {:induction false} ManagerLineIsSelection(p: Problem, a: Assignment, m: nat, k: nat)
    requires Aligned(p.doodle, p.nights) && m < |p.doodle| && k <= |p.nights|
    ensures var s := Selected(OnRow(a, m, k));
            |ManagerLine(p, a, m, k)| == |s| &&
            forall i :: 0 <= i < |s| ==>
              s[i] < |p.nights| && ManagerLine(p, a, m, k)[i] == Flag(p.nights[s[i]], p.doodle[m].levels[s[i]])
  {
    if k > 0 {
      ManagerLineIsSelection(p, a, m, k - 1);
      var row, b := OnRow(a, m, k - 1), On(a, m, k - 1);
      assert OnRow(a, m, k) == row + [b];
      SelectedSnoc(row, b);
      var s0, s := Selected(row), Selected(row + [b]);
      var l0, l := ManagerLine(p, a, m, k - 1), ManagerLine(p, a, m, k);
      assert l == l0 + (if b then [Flag(p.nights[k - 1], p.doodle[m].levels[k - 1])] else []);
      forall i | 0 <= i < |s| ensures s[i] < |p.nights| && l[i] == Flag(p.nights[s[i]], p.doodle[m].levels[s[i]]) {
        if i < |s0| {
          assert s[i] == s0[i] && l[i] == l0[i];
        } else {
          assert s[i] == k - 1;
        }
      }
    }
  }

  /** Night n's list is as long as the number of managers on that night. */
  lemma {:induction false} NightLineCount(p: Problem, a: Assignment, n: nat, k: nat)
    requires Aligned(p.doodle, p.nights) && n < |p.nights| && k <= |p.doodle|
    ensures |NightLine(p, a, n, k)| == NightCount(a, k, n)
  {
    if k > 0 {
      NightLineCount(p, a, n, k - 1);
      var s := set m: nat | m < k - 1 && On(a, m, n);
      var t := set m: nat | m < k && On(a, m, n);
      if On(a, k - 1, n) {
        assert t == s + {k - 1};
      } else {
        assert t == s;
      }
    }
  }

  /** Manager m's list is as long as the number of nights they work. */
  lemma {:induction false} ManagerLineCount(p: Problem, a: Assignment, m: nat, k: nat)
    requires Aligned(p.doodle, p.nights) && m < |p.doodle| && k <= |p.nights|
    ensures |ManagerLine(p, a, m, k)| == NightsWorked(a, m, k)
  {
    if k > 0 {
      ManagerLineCount(p, a, m, k - 1);
      var s := set j: nat | j < k - 1 && On(a, m, j);
      var t := set j: nat | j < k && On(a, m, j);
      if On(a, m, k - 1) {
        assert t == s + {k - 1};
      } else {
        assert t == s;
      }
    }
  }

  /** For a roster meeting the coverage and workload rules, every night's line names
      `mgrs_per_night` managers and every manager's line between `min_nights` and `max_nights`
      nights. */
  lemma ListedCounts(p: Problem, a: Assignment)
    requires Aligned(p.doodle, p.nights) && ExactCoverage(p, a) && WorkloadWithin(p, a)
    ensures forall n :: 0 <= n < |p.nights| ==> |NightLine(p, a, n, |p.doodle|)| == p.config.mgrsPerNight
    ensures forall m :: 0 <= m < |p.doodle| ==>
              p.config.minNights <= |ManagerLine(p, a, m, |p.nights|)| <= p.config.maxNights
  {
    forall n | 0 <= n < |p.nights| ensures |NightLine(p, a, n, |p.doodle|)| == p.config.mgrsPerNight {
      NightLineCount(p, a, n, |p.doodle|);
    }
    forall m | 0 <= m < |p.doodle|
      ensures p.config.minNights <= |ManagerLine(p, a, m, |p.nights|)| <= p.config.maxNights
    {
      ManagerLineCount(p, a, m, |p.nights|);
    }
  }

  /** `raw_data`: `{m: {n: value}}` over the first `rows` managers and `cols` nights, as a
      table indexed by manager and night. */
  function RawData(a: Assignment, rows: nat, cols: nat): (r: seq<seq<int>>)
    ensures |r| == rows && forall m :: 0 <= m < rows ==> |r[m]| == cols
  {
    seq(rows, m requires 0 <= m < rows => seq(cols, n requires 0 <= n < cols => Val(a, Cell(m, n))))
  }

  /** Reads a 0/1 table back as an assignment: a cell is set when its entry is 1. */
  function FromRaw(t: seq<seq<int>>): (r: Assignment)
    ensures |r| == |t| && forall m :: 0 <= m < |t| ==> |r[m]| == |t[m]|
  {
    seq(|t|, m requires 0 <= m < |t| => seq(|t[m]|, n requires 0 <= n < |t[m]| => t[m][n] == 1))
  }

  /** Every entry of `raw_data` is 0 or 1, and it is 1 exactly at the cells the solution sets. */
  lemma RawDataIsZeroOne(a: Assignment, rows: nat, cols: nat)
    ensures forall m, n :: 0 <= m < rows && 0 <= n < cols ==>
              (RawData(a, rows, cols)[m][n] == 1 <==> On(a, m, n)) &&
              (RawData(a, rows, cols)[m][n] == 0 <==> !On(a, m, n))
  {
  }

  /** Reading `raw_data` back gives the solution it came from. */
  lemma RawDataRoundTrip(a: Assignment, rows: nat, cols: nat)
    requires Shaped(a, rows, cols)
    ensures FromRaw(RawData(a, rows, cols)) == a
  {
    var r := FromRaw(RawData(a, rows, cols));
    forall m | 0 <= m < rows ensures r[m] == a[m] {
      assert forall n :: 0 <= n < cols ==> r[m][n] == On(a, m, n);
    }
  }
}
