/** Random draws as explicit oracle inputs. */
module Rng {

  /** Unity's integer `Random.Range(lo, hi)`: some value in [lo, hi), and `lo` when the range
      is empty. `roll` is the oracle's choice; every value of the range is reachable
      (RangeIntOnto). */
  function RangeInt(roll: nat, lo: int, hi: int): (r: int)
    ensures lo < hi ==> lo <= r < hi
    ensures hi <= lo ==> r == lo
  {
    if lo < hi then lo + roll % (hi - lo) else lo
  }

  lemma RangeIntOnto(lo: int, hi: int, v: int)
    requires lo <= v < hi
    ensures RangeInt(v - lo, lo, hi) == v
  {}

  /** Every random draw of one generation run, indexed by the attempt number and, inside an
      arrow, by the growth step. The float draws are replaced by the outcome of the comparison
      they feed (`roll <= FromInsideProb`, `turnRoll <= turnProb`). */
  datatype Rolls = Rolls(
    fromInside: int -> bool,
    startPick: int -> nat,
    lengthPick: int -> nat,
    dirPick: int -> nat,
    turn: (int, int) -> bool,
    turnPick: (int, int) -> nat)

  /** The turn outcomes of attempt `a`, by growth step. */
  function TurnsOf(rolls: Rolls, a: int): int -> bool {
    i => rolls.turn(a, i)
  }

  /** The turn choices of attempt `a`, by growth step. */
  function PicksOf(rolls: Rolls, a: int): int -> nat {
    i => rolls.turnPick(a, i)
  }
}
