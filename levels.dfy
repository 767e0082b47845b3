/** The level table of the game (levels.py) and its forward cursor. */
module LevelSequence {
  import opened Wrappers

  /** One level: its number, how many monsters and coins it places and
      how many rams the robot gets. */
  datatype Level = Level(level: int, monsters: int, rams: int, coins: int)

  /** The entry for level `k`. */
  function LevelNo(k: int): Level {
    Level(k, k, k + 1, 10 * k)
  }

  /** The list comprehension of `generate_levels`: levels 1 to `amount`
      (none when `amount` is below 1), level `k` at position `k - 1`. */
  function LevelTable(amount: int): (r: seq<Level>)
    ensures |r| == if amount >= 0 then amount else 0
    ensures forall k :: 0 <= k < |r| ==> r[k] == LevelNo(k + 1)
  {
    if amount <= 0 then [] else LevelTable(amount - 1) + [LevelNo(amount)]
  }

  /** Later levels place more monsters and coins and hand out more rams,
      and every level gives one ram more than it has monsters. */
  lemma LevelsGrow(amount: int, i: int, j: int)
    requires 0 <= i < j < |LevelTable(amount)|
    ensures var t := LevelTable(amount);
      t[i].monsters < t[j].monsters && t[i].rams < t[j].rams && t[i].coins < t[j].coins
      && t[j].rams == t[j].monsters + 1
  {
  }

  /** Three levels are (1, 1, 2, 10), (2, 2, 3, 20) and (3, 3, 4, 30). */
  lemma ThreeLevels()
    ensures LevelTable(3) == [Level(1, 1, 2, 10), Level(2, 2, 3, 20), Level(3, 3, 4, 30)]
  {
  }

  /** The amount `Levels(amount)` keeps: below 1 means 1. */
  function Normalised(amount: int): (n: int)
    ensures n >= 1 && (amount >= 1 ==> n == amount) && (amount < 1 ==> n == 1)
  {
    if amount >= 1 then amount else 1
  }

  class Levels {
    var amount: int
    var levels: seq<Level>
    /** The cursor of the iterator. */
    var n: int

    /** The table holds `amount` levels and the cursor is within it. */
    ghost predicate Valid()
      reads this
    {
      amount >= 1 && levels == LevelTable(amount) && 0 <= n <= amount
    }

    /** `Levels(amount)`: the amount is normalised, then the table built. */
    constructor (amount: int)
      ensures Valid() && this.amount == Normalised(amount) && n == 0
      ensures |levels| == this.amount && levels[0] == Level(1, 1, 2, 10)
    {
      this.amount := Normalised(amount);
      levels := [];
      n := 0;
      new;
      GenerateLevels();
    }

    /** `generate_levels`. */
    method GenerateLevels()
      modifies this`levels
      ensures levels == LevelTable(amount)
    {
      levels := LevelTable(amount);
    }

    /** `__iter__`: restarts the cursor and hands back the object itself. */
    method Iter() returns (it: Levels)
      requires Valid()
      modifies this`n
      ensures it == this && Valid() && n == 0
    {
      n := 0;
      return this;
    }

    /** `__next__`: the level under the cursor, which moves one on; None
        (StopIteration) once all `amount` levels were handed out. */
    method Next() returns (r: Option<Level>)
      requires Valid()
      modifies this`n
      ensures Valid()
      ensures old(n) < amount ==> r == Some(levels[old(n)]) && n == old(n) + 1
      ensures old(n) >= amount ==> r.None? && n == old(n)
      ensures r.Some? ==> r.value == LevelNo(n) && r.value.level == n
    {
      if n < amount {
        var level := levels[n];
        n := n + 1;
        return Some(level);
      } else {
        return None;
      }
    }
  }
}
