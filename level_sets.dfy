/** The ordered list of level assets and the lookup by index. */
module LevelSets {

  /** The level at `index`, or, for an index outside the list, the level at `roll`, which
      stands for the value `Random.Range(0, |levels|)` drew. An empty list makes both
      branches index out of range, so the list must be non-empty. */
  function GetLevel<T>(levels: seq<T>, index: int, roll: int): (level: T)
    requires |levels| > 0
    requires 0 <= roll < |levels|
    ensures 0 <= index < |levels| ==> level == levels[index]
    ensures !(0 <= index < |levels|) ==> level == levels[roll]
    ensures level in levels
  {
    if index < 0 || index >= |levels| then levels[roll] else levels[index]
  }

  /** Whatever the random draw, an in-range index is answered deterministically. */
  lemma InRangeIgnoresRoll<T>(levels: seq<T>, index: int, roll1: int, roll2: int)
    requires 0 <= index < |levels|
    requires 0 <= roll1 < |levels| && 0 <= roll2 < |levels|
    ensures GetLevel(levels, index, roll1) == GetLevel(levels, index, roll2) == levels[index]
  {
  }

  /** Every level of the list can be the fallback of an out-of-range index. */
  lemma FallbackReachesEveryLevel<T>(levels: seq<T>, index: int, j: int)
    requires !(0 <= index < |levels|)
    requires 0 <= j < |levels|
    ensures GetLevel(levels, index, j) == levels[j]
  {
  }
}
