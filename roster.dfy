/** The data `solve` works on: the doodle (one row of answers per manager), the night labels,
    the registered side-constraints and the class-level configuration. */
module Roster {
  import opened Seqs
  import opened Availability
  import opened Lookup

  /** The class-level settings `mgrs_per_night`, `min_nights`, `max_nights`, `non_consecutive`
      and `availability_level`. */
  datatype Config = Config(
    mgrsPerNight: int,
    minNights: int,
    maxNights: int,
    nonConsecutive: int,
    availabilityLevel: Level)

  /** One doodle entry `(name, [answer per night])`. */
  datatype Row = Row(name: string, levels: seq<Level>)

  /** Everything `solve` reads from the instance. `pin` is a dictionary; `pinOrder` is the
      order in which its keys were first inserted, which is the order `pin.items()` visits them. */
  datatype Problem = Problem(
    doodle: seq<Row>,
    nights: seq<string>,
    managers: map<string, nat>,     // mgr_lookup
    nightIndex: map<string, nat>,   // night_lookup
    together: seq<(string, string)>,
    apart: seq<(string, string)>,
    pinOrder: seq<string>,
    pin: map<string, seq<string>>,
    config: Config)

  function Names(doodle: seq<Row>): (r: seq<string>)
    ensures |r| == |doodle|
    ensures forall i :: 0 <= i < |r| ==> r[i] == doodle[i].name
  {
    seq(|doodle|, i requires 0 <= i < |doodle| => doodle[i].name)
  }

  /** Every manager answered once per night. */
  predicate Aligned(doodle: seq<Row>, nights: seq<string>) {
    forall m :: 0 <= m < |doodle| ==> |doodle[m].levels| == |nights|
  }

  /** The registered pairs name known managers (what keep_together and keep_apart check). */
  predicate PairsKnown(pairs: seq<(string, string)>, managers: map<string, nat>) {
    forall i :: 0 <= i < |pairs| ==> pairs[i].0 in managers && pairs[i].1 in managers
  }

  /** The pins name known managers and nights (what pin_to checks), and `pinOrder` lists the
      keys of `pin` once each. */
  predicate PinsKnown(pinOrder: seq<string>, pin: map<string, seq<string>>,
                      managers: map<string, nat>, nights: map<string, nat>) {
    && Distinct(pinOrder)
    && (forall k :: k in pin ==> k in pinOrder)
    && (forall i :: 0 <= i < |pinOrder| ==> pinOrder[i] in pin)
    && (forall k :: k in pin ==> k in managers && forall x :: x in pin[k] ==> x in nights)
  }

  /** The pins of the problem name known managers and nights. */
  predicate PinsValid(p: Problem) {
    PinsKnown(p.pinOrder, p.pin, p.managers, p.nightIndex)
  }

  /** The state in which every lookup `solve` performs succeeds. */
  predicate WellFormed(p: Problem) {
    && p.managers == Index(Names(p.doodle))
    && p.nightIndex == Index(p.nights)
    && Consistent(p)
  }

  /** The answers fit the nights, and every pair and pin names known managers and nights. */
  predicate Consistent(p: Problem) {
    && Aligned(p.doodle, p.nights)
    && PairsKnown(p.together, p.managers)
    && PairsKnown(p.apart, p.managers)
    && PinsValid(p)
  }

  /** A looked-up manager or night is a valid row or column. */
  lemma LookupsInRange(p: Problem, name: string, night: string)
    requires WellFormed(p)
    ensures name in p.managers ==> p.managers[name] < |p.doodle| && p.doodle[p.managers[name]].name == name
    ensures night in p.nightIndex ==> p.nightIndex[night] < |p.nights| && p.nights[p.nightIndex[night]] == night
  {
  }

  /** Different names look up different rows. */
  predicate LookupInjective(managers: map<string, nat>) {
    forall x, y :: x in managers && y in managers && x != y ==> managers[x] != managers[y]
  }

  /** `mgr_lookup` as `xls` builds it never sends two names to the same row, even when the
      poll repeats a name. */
  lemma WellFormedLookupInjective(p: Problem)
    requires WellFormed(p)
    ensures LookupInjective(p.managers)
  {
    forall x, y | x in p.managers && y in p.managers && x != y ensures p.managers[x] != p.managers[y] {
      IndexInjective(Names(p.doodle), x, y);
    }
  }

  /** The state `pin_to` leaves behind: the night appended to the manager's pins, a new key
      last in key order. */
  function WithPin(p: Problem, m: string, night: string): Problem {
    p.(pin := p.pin[m := (if m in p.pin then p.pin[m] else []) + [night]],
       pinOrder := if m in p.pin then p.pinOrder else p.pinOrder + [m])
  }

  /** Pinning a known manager to a known night keeps every pin known and the key order
      listing each key once. */
  lemma PinKeepsConsistent(p: Problem, m: string, night: string)
    requires Consistent(p) && m in p.managers && night in p.nightIndex
    ensures Consistent(WithPin(p, m, night))
  {
    var q := WithPin(p, m, night);
    if m !in p.pin {
      assert m !in p.pinOrder;
      assert Distinct(q.pinOrder);
    }
    forall k | k in q.pin ensures k in q.managers && forall x :: x in q.pin[k] ==> x in q.nightIndex {
      if k == m && m in p.pin {
        assert forall x :: x in q.pin[k] ==> x in p.pin[m] || x == night;
      }
    }
  }
}
