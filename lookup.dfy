/** The name-to-position dictionaries `mgr_lookup` and `night_lookup`. */
module Lookup {
  import opened Seqs

  /** `dict((names[i], i) for i in range(len(names)))`: every name maps to a position holding it,
      and when a name repeats the last position wins. */
  function Index(names: seq<string>): (r: map<string, nat>)
    ensures forall k :: k in r <==> k in names
    ensures forall k :: k in r ==> r[k] < |names| && names[r[k]] == k
    ensures forall k, j :: k in r && r[k] < j < |names| ==> names[j] != k
  {
    if names == [] then map[]
    else
      var init := names[..|names| - 1];
      assert names == init + [names[|names| - 1]];
      Index(init)[names[|names| - 1] := |names| - 1]
  }

  /** With distinct names every name maps back to its own position. */
  lemma IndexOfDistinct(names: seq<string>, i: nat)
    requires Distinct(names) && i < |names|
    ensures names[i] in Index(names) && Index(names)[names[i]] == i
  {
  }

  /** Positions of names in the index are distinct exactly when the names are. */
  lemma IndexInjective(names: seq<string>, x: string, y: string)
    requires x in Index(names) && y in Index(names)
    ensures Index(names)[x] == Index(names)[y] <==> x == y
  {
  }
}
