/** The answers of the availability poll, ordered NO < IFNEEDBE < YES. */
module Availability {

  datatype Level = No | IfNeedBe | Yes

  /** The enum member's value: NO = 0, IFNEEDBE = 1, YES = 2. */
  function Value(l: Level): (v: nat)
    ensures v <= 2
    ensures v == 0 <==> l == No
    ensures v == 2 <==> l == Yes
  {
    match l
    case No => 0
    case IfNeedBe => 1
    case Yes => 2
  }

  /** The answer falls short of the required level (`level.value < threshold.value`). */
  predicate Below(l: Level, threshold: Level) {
    Value(l) < Value(threshold)
  }

  /** The cut-off spelled out per threshold: NO excludes nothing, IFNEEDBE excludes NO,
      YES excludes NO and IFNEEDBE. */
  lemma BelowCases(l: Level, threshold: Level)
    ensures threshold == No ==> !Below(l, threshold)
    ensures threshold == IfNeedBe ==> (Below(l, threshold) <==> l == No)
    ensures threshold == Yes ==> (Below(l, threshold) <==> l != Yes)
  {
  }

  /** Below is a strict total order on the three levels. */
  lemma BelowIsStrictTotalOrder(x: Level, y: Level, z: Level)
    ensures !Below(x, x)
    ensures Below(x, y) && Below(y, z) ==> Below(x, z)
    ensures x != y ==> Below(x, y) || Below(y, x)
  {
  }
}
