/** The `Macd` class (macd.py:21-206): its state, the registration methods, the model `solve`
    builds and hands to the solver, and what `print_managers` and `raw_data` read back. */
module Scheduler {
  import opened Seqs
  import opened Outcomes
  import opened Availability
  import opened Lookup
  import opened CpModel
  import opened Roster
  import opened Exemption
  import opened Rules
  import opened Meaning
  import opened Report
  import opened Objective

  /** What `solve` hands to the solver: the hard constraints and the objective calls. */
  datatype CpProblem = CpProblem(constraints: seq<Constraint>, goals: seq<Goal>)

  /** The two lists `print_managers` prints: one line per night, then one per manager. */
  datatype Listing = Listing(byNight: seq<seq<string>>, byManager: seq<seq<string>>)

  class Macd {
    var doodle: seq<Row>
    var nights: seq<string>
    var mgrLookup: map<string, nat>
    var nightLookup: map<string, nat>
    var config: Config
    var prev: Option<seq<seq<int>>>
    var together: seq<(string, string)>
    var apart: seq<(string, string)>
    var pinOrder: seq<string>
    var pin: map<string, seq<string>>
    /** The solver's answer after `solve`; `None` before any solve. */
    var solution: Option<Assignment>

    /** Everything `solve` reads from the instance. */
    function Snapshot(): Problem
      reads this
    {
      Problem(doodle, nights, mgrLookup, nightLookup, together, apart, pinOrder, pin, config)
    }

    /** The lookups index the loaded doodle, every registered pair and pin names known
        managers and nights, and a stored solution covers the whole grid. */
    ghost predicate Valid()
      reads this
    {
      && Consistent(Snapshot())
      && (solution.Some? ==> Shaped(solution.value, |doodle|, |nights|))
    }

    /** `mgr_lookup` and `night_lookup` are the dictionaries `xls` builds (lines 66-67). The
        constructor establishes it, and no method writes the fields it reads. */
    ghost predicate Indexed()
      reads this`doodle, this`nights, this`mgrLookup, this`nightLookup
    {
      mgrLookup == Index(Names(doodle)) && nightLookup == Index(nights)
    }

    /** `Macd()` followed by `xls`: the doodle and night labels as read from the poll, and the
        lookups built from them (lines 22-29, 58-67). */
    constructor(rows: seq<Row>, labels: seq<string>, settings: Config)
      requires Aligned(rows, labels)
      ensures Valid() && Indexed()
      ensures doodle == rows && nights == labels && config == settings
      ensures mgrLookup == Index(Names(rows)) && nightLookup == Index(labels)
      ensures prev == None && solution == None
      ensures together == [] && apart == [] && pinOrder == [] && pin == map[]
    {
      doodle, nights, config := rows, labels, settings;
      mgrLookup, nightLookup := Index(Names(rows)), Index(labels);
      prev, solution := None, None;
      together, apart, pinOrder, pin := [], [], [], map[];
      new;
      var p := Problem(rows, labels, Index(Names(rows)), Index(labels), [], [], [], map[], settings);
      assert Snapshot() == p;
      assert Consistent(p);
      assert Indexed();
    }

    /** Lines 71-72. */
    method SetPrev(shifts: Option<seq<seq<int>>>)
      requires Valid()
      modifies this`prev
      ensures Valid()
      ensures prev == shifts
    {
      prev := shifts;
    }

    /** Lines 77-83: both names must be known managers; the pair is then appended. */
    method KeepTogether(m1: string, m2: string) returns (o: Outcome)
      requires Valid()
      modifies this`together
      ensures Valid()
      ensures m1 !in mgrLookup ==> o == Fail(UnknownManager(m1)) && together == old(together)
      ensures m1 in mgrLookup && m2 !in mgrLookup ==> o == Fail(UnknownManager(m2)) && together == old(together)
      ensures m1 in mgrLookup && m2 in mgrLookup ==> o == Pass && together == old(together) + [(m1, m2)]
    {
      if m1 !in mgrLookup {
        return Fail(UnknownManager(m1));
      }
      if m2 !in mgrLookup {
        return Fail(UnknownManager(m2));
      }
      ghost var before := Snapshot();
      together := together + [(m1, m2)];
      assert Snapshot() == before.(together := together);
      o := Pass;
    }

    /** Lines 86-92: both names must be known managers; the pair is then appended. */
    method KeepApart(m1: string, m2: string) returns (o: Outcome)
      requires Valid()
      modifies this`apart
      ensures Valid()
      ensures m1 !in mgrLookup ==> o == Fail(UnknownManager(m1)) && apart == old(apart)
      ensures m1 in mgrLookup && m2 !in mgrLookup ==> o == Fail(UnknownManager(m2)) && apart == old(apart)
      ensures m1 in mgrLookup && m2 in mgrLookup ==> o == Pass && apart == old(apart) + [(m1, m2)]
    {
      if m1 !in mgrLookup {
        return Fail(UnknownManager(m1));
      }
      if m2 !in mgrLookup {
        return Fail(UnknownManager(m2));
      }
      ghost var before := Snapshot();
      apart := apart + [(m1, m2)];
      assert Snapshot() == before.(apart := apart);
      o := Pass;
    }

    /** Lines 97-106: the manager and the night must be known; the night is then appended to
        the manager's pins, which start as a fresh list (a new key, last in key order). */
    method PinTo(m: string, night: string) returns (o: Outcome)
      requires Valid()
      modifies this`pin, this`pinOrder
      ensures Valid()
      ensures m !in mgrLookup ==> o == Fail(UnknownManager(m)) && pin == old(pin) && pinOrder == old(pinOrder)
      ensures m in mgrLookup && night !in nightLookup ==>
                o == Fail(UnknownNight(night)) && pin == old(pin) && pinOrder == old(pinOrder)
      ensures m in mgrLookup && night in nightLookup ==>
                && o == Pass
                && pin == old(pin)[m := (if m in old(pin) then old(pin)[m] else []) + [night]]
                && pinOrder == (if m in old(pin) then old(pinOrder) else old(pinOrder) + [m])
    {
      if m !in mgrLookup {
        return Fail(UnknownManager(m));
      }
      if night !in nightLookup {
        return Fail(UnknownNight(night));
      }
      ghost var before := Snapshot();
      PinKeepsConsistent(before, m, night);
      if m in pin {
        pin := pin[m := pin[m] + [night]];
      } else {
        assert [night] == [] + [night];
        pin := pin[m := [night]];
        pinOrder := pinOrder + [m];
      }
      assert Snapshot() == WithPin(before, m, night);
      o := Pass;
    }

    /** Lines 126-127. */
    method EmitCoverage() returns (cs: seq<Constraint>)
      ensures cs == Coverage(Snapshot(), |nights|)
    {
      var p := Snapshot();
      cs := [];
      var n := 0;
      while n < |nights|
        invariant n <= |nights|
        invariant cs == Coverage(p, n)
      {
        cs := cs + [SumEq(Column(|doodle|, n), config.mgrsPerNight)];
        n := n + 1;
      }
    }

    /** Lines 130-132. */
    method EmitWorkload() returns (cs: seq<Constraint>)
      ensures cs == Workload(Snapshot(), |doodle|)
    {
      var p := Snapshot();
      cs := [];
      var m := 0;
      while m < |doodle|
        invariant m <= |doodle|
        invariant cs == Workload(p, m)
      {
        var row := Line(m, 0, |nights|);
        cs := cs + [SumGe(row, config.minNights), SumLe(row, config.maxNights)];
        m := m + 1;
      }
    }

    /** Lines 135-138. */
    method EmitCutoffs() returns (cs: seq<Constraint>)
      requires Aligned(doodle, nights)
      ensures cs == Cutoffs(Snapshot(), |doodle|)
    {
      var p := Snapshot();
      cs := [];
      var m := 0;
      while m < |doodle|
        invariant m <= |doodle|
        invariant cs == Cutoffs(p, m)
      {
        var n := 0;
        while n < |nights|
          invariant n <= |nights|
          invariant cs == Cutoffs(p, m) + CutoffRow(p, m, n)
        {
          if Below(doodle[m].levels[n], config.availabilityLevel) {
            cs := cs + [SumEq([Cell(m, n)], 0)];
          }
          n := n + 1;
        }
        m := m + 1;
      }
    }

    /** Lines 141-145. */
    method EmitPairing() returns (cs: seq<Constraint>)
      requires PairsKnown(together, mgrLookup) && PairsKnown(apart, mgrLookup)
      ensures cs == Pairing(Snapshot(), |nights|)
    {
      var p := Snapshot();
      cs := [];
      var n := 0;
      while n < |nights|
        invariant n <= |nights|
        invariant cs == Pairing(p, n)
      {
        var i := 0;
        while i < |together|
          invariant i <= |together|
          invariant cs == Pairing(p, n) + TogetherOn(p, n, i)
        {
          var pair := together[i];
          cs := cs + [Same(Cell(mgrLookup[pair.0], n), Cell(mgrLookup[pair.1], n))];
          i := i + 1;
        }
        i := 0;
        while i < |apart|
          invariant i <= |apart|
          invariant cs == Pairing(p, n) + TogetherOn(p, n, |together|) + ApartOn(p, n, i)
        {
          var pair := apart[i];
          cs := cs + [SumLe([Cell(mgrLookup[pair.0], n), Cell(mgrLookup[pair.1], n)], 1)];
          i := i + 1;
        }
        n := n + 1;
      }
    }

    /** Lines 147-154: for each pinned manager in key order, the exemption test on their pins
        sorted as strings, then each pin forced to 1. */
    method EmitPins() returns (cs: seq<Constraint>, exempt: seq<nat>)
      requires PinsValid(Snapshot())
      ensures cs == Pins(Snapshot(), |pinOrder|)
      ensures exempt == Exempted(Snapshot(), |pinOrder|)
    {
      var p := Snapshot();
      cs, exempt := [], [];
      var i := 0;
      while i < |p.pinOrder|
        invariant i <= |p.pinOrder|
        invariant cs == Pins(p, i)
        invariant exempt == Exempted(p, i)
      {
        var name := p.pinOrder[i];
        var own, close := EmitPinsOf(name);
        KeyStep(p, i, own, close);
        if close {
          exempt := exempt + [p.managers[name]];
        }
        cs := cs + own;
        i := i + 1;
      }
    }

    /** Lines 148-154 for one pinned manager: `sorted(ns)`, the test on its adjacent
        differences, then each pinned night, in that order, forced to 1. */
    method EmitPinsOf(name: string) returns (cs: seq<Constraint>, close: bool)
      requires PinsValid(Snapshot()) && name in pin
      ensures cs == PinsOf(Snapshot(), name, |PinnedNights(Snapshot(), name)|)
      ensures close == Exempts(Snapshot(), name)
    {
      var p := Snapshot();
      var ns := PinnedNights(p, name);
      close := |ns| > 1 && MinOf(AdjacentGaps(Indices(ns, p.nightIndex))) <= Gap(p);
      cs := [];
      var j := 0;
      while j < |ns|
        invariant j <= |ns|
        invariant cs == PinsOf(p, name, j)
      {
        cs := cs + [SumEq([Cell(p.managers[name], p.nightIndex[ns[j]])], 1)];
        j := j + 1;
      }
    }

    /** Lines 157-160. */
    method EmitSpacing(exempt: seq<nat>) returns (cs: seq<Constraint>)
      ensures cs == Spacing(Snapshot(), exempt, |doodle|)
    {
      var p := Snapshot();
      cs := [];
      var m := 0;
      while m < |doodle|
        invariant m <= |doodle|
        invariant cs == Spacing(p, exempt, m)
      {
        if m !in exempt {
          var s := 0;
          while s < WindowCount(p)
            invariant s <= WindowCount(p)
            invariant cs == Spacing(p, exempt, m) + WindowsOf(p, m, s)
          {
            cs := cs + [SumLe(Window(m, s, config.nonConsecutive), 1)];
            s := s + 1;
          }
        }
        m := m + 1;
      }
    }

    /** Lines 109-167: refuses an empty doodle, emits every constraint group in order, then
        the objective calls; a `prev` without an entry for some cell fails the lookup. */
    method BuildModel() returns (r: Result<CpProblem>)
      requires Valid()
      ensures doodle == [] ==> r == Err(NoDoodle)
      ensures doodle != [] && prev.Some? && !Covers(prev.value, |doodle|, |nights|) ==> r == Err(PreviousTooSmall)
      ensures doodle != [] && (prev.Some? ==> Covers(prev.value, |doodle|, |nights|)) ==>
                r == Ok(CpProblem(Emitted(Snapshot()),
                                  Goals(Snapshot(), if prev.Some? then prev.value else [], prev.Some?)))
    {
      if doodle == [] {
        return Err(NoDoodle);
      }
      var coverage := EmitCoverage();
      var workload := EmitWorkload();
      var cutoffs := EmitCutoffs();
      var pairing := EmitPairing();
      var pins, exempt := EmitPins();
      var spacing := EmitSpacing(exempt);
      var constraints := coverage + workload + cutoffs + pairing + pins + spacing;
      assert constraints == Emitted(Snapshot());
      var goals := [MinimizeSum(IfNeedBeCells(Snapshot(), |doodle|))];
      if prev.Some? {
        if !Covers(prev.value, |doodle|, |nights|) {
          return Err(PreviousTooSmall);
        }
        goals := goals + [MaximizeWeighted(StabilityTerms(prev.value, |doodle|, |nights|))];
      }
      assert goals == Goals(Snapshot(), if prev.Some? then prev.value else [], prev.Some?);
      r := Ok(CpProblem(constraints, goals));
    }

    /** Lines 108-176 with the solver as an oracle: `reply` is its answer to the model built
        here, an assignment meeting every emitted constraint or `None` when it found none.
        The result is whether a schedule was found. */
    method Solve(reply: Option<Assignment>) returns (r: Result<bool>)
      requires Valid()
      requires reply.Some? ==>
                 Shaped(reply.value, |doodle|, |nights|) && Satisfies(reply.value, Emitted(Snapshot()))
      modifies this`solution
      ensures Valid()
      ensures r.Err? ==> solution == old(solution)
      ensures doodle == [] ==> r == Err(NoDoodle)
      ensures doodle != [] && prev.Some? && !Covers(prev.value, |doodle|, |nights|) ==> r == Err(PreviousTooSmall)
      ensures doodle != [] && (prev.Some? ==> Covers(prev.value, |doodle|, |nights|)) ==>
                r == Ok(reply.Some?) && solution == reply
      ensures r == Ok(true) ==> solution.Some? && Rostered(Snapshot(), solution.value)
    {
      var model := BuildModel();
      if model.Err? {
        return Err(model.error);
      }
      solution := reply;
      r := Ok(reply.Some?);
      if reply.Some? {
        EmittedMeaning(Snapshot(), reply.value);
      }
    }

    /** Lines 178-203: nothing before a solve; otherwise, for each night, the managers on it
        and, for each manager, the nights they work, flagged `(!)` where the answer was
        IFNEEDBE. */
    method PrintManagers() returns (r: Option<Listing>)
      requires Valid()
      ensures solution.None? ==> r == None
      ensures solution.Some? ==>
                && r.Some?
                && |r.value.byNight| == |nights|
                && (forall n :: 0 <= n < |nights| ==>
                      r.value.byNight[n] == NightLine(Snapshot(), solution.value, n, |doodle|))
                && |r.value.byManager| == |doodle|
                && (forall m :: 0 <= m < |doodle| ==>
                      r.value.byManager[m] == ManagerLine(Snapshot(), solution.value, m, |nights|))
    {
      if solution.None? {
        return None;
      }
      var a := solution.value;
      var byNight := [];
      var n := 0;
      while n < |nights|
        invariant n <= |nights|
        invariant |byNight| == n
        invariant forall k :: 0 <= k < n ==> byNight[k] == NightLine(Snapshot(), a, k, |doodle|)
      {
        var mgrs := [];
        var m := 0;
        while m < |doodle|
          invariant m <= |doodle|
          invariant mgrs == NightLine(Snapshot(), a, n, m)
        {
          if On(a, m, n) {
            mgrs := mgrs + [Flag(doodle[m].name, doodle[m].levels[n])];
          }
          m := m + 1;
        }
        byNight := byNight + [mgrs];
        n := n + 1;
      }
      var byManager := [];
      var m := 0;
      while m < |doodle|
        invariant m <= |doodle|
        invariant |byManager| == m
        invariant forall k :: 0 <= k < m ==> byManager[k] == ManagerLine(Snapshot(), a, k, |nights|)
      {
        var worked := [];
        n := 0;
        while n < |nights|
          invariant n <= |nights|
          invariant worked == ManagerLine(Snapshot(), a, m, n)
        {
          if On(a, m, n) {
            worked := worked + [Flag(nights[n], doodle[m].levels[n])];
          }
          n := n + 1;
        }
        byManager := byManager + [worked];
        m := m + 1;
      }
      r := Some(Listing(byNight, byManager));
    }

    /** Lines 205-206: the 0/1 value of every cell of the stored solution; reading it back
        gives that solution. */
    function RawData(): (r: Option<seq<seq<int>>>)
      requires Valid()
      reads this
      ensures r.None? <==> solution.None?
      ensures r.Some? ==> FromRaw(r.value) == solution.value
    {
      if solution.None? then None
      else
        RawDataRoundTrip(solution.value, |doodle|, |nights|);
        Some(Report.RawData(solution.value, |doodle|, |nights|))
    }
  }
}
