/** LevelService: which authored level is current, persisted through the
    save service. */
module Progression {
  import opened Levels
  import opened Persistence

  /** The level shown for a (non-negative) level index: the list repeats. */
  function LevelAt(levels: seq<LevelData>, index: int): (l: LevelData)
    requires |levels| > 0 && index >= 0
    ensures l in levels
  {
    levels[index % |levels|]
  }

  /** Indices one full cycle apart show the same level. */
  lemma LevelAtWraps(levels: seq<LevelData>, index: int)
    requires |levels| > 0 && index >= 0
    ensures LevelAt(levels, index + |levels|) == LevelAt(levels, index)
  {
    var n := |levels|;
    var q, r := index / n, index % n;
    assert index + n == (q + 1) * n + r;
    DivisionUnique(n, (index + n) / n, (index + n) % n, q + 1, r);
  }

  /** The first |levels| indices show every level once, in order. */
  lemma LevelAtFirstCycle(levels: seq<LevelData>, index: int)
    requires 0 <= index < |levels|
    ensures LevelAt(levels, index) == levels[index]
  {
  }

  class LevelService {
    const levels: seq<LevelData>
    const save: SaveService
    var currentLevelIndex: int

    /** The C# indexes the level array with `index % Length`: the list must
        not be empty and the index must not be negative. */
    ghost predicate Valid()
      reads this, save
    {
      |levels| > 0 && currentLevelIndex >= 0 && save.Valid()
    }

    constructor(levels: seq<LevelData>, save: SaveService)
      requires |levels| > 0 && save.Valid()
      ensures this.levels == levels && this.save == save && currentLevelIndex == 0
      ensures Valid()
    {
      this.levels := levels;
      this.save := save;
      currentLevelIndex := 0;
    }

    method LoadInitialLevel() returns (l: LevelData)
      requires Valid() && save.LoadLevelIndex() >= 0
      modifies this
      ensures currentLevelIndex == save.LoadLevelIndex()
      ensures l == LevelAt(levels, currentLevelIndex)
      ensures Valid()
    {
      currentLevelIndex := save.LoadLevelIndex();
      l := LevelAt(levels, currentLevelIndex);
    }

    /** Advances the index by one, saves it and drops the saved board. */
    method GetNextLevel() returns (l: LevelData)
      requires Valid()
      modifies this, save
      ensures currentLevelIndex == old(currentLevelIndex) + 1
      ensures save.prefs == old(save.prefs)[LevelKey := IntPref(currentLevelIndex)] - {BoardKey}
      ensures save.LoadLevelIndex() == currentLevelIndex && !save.HasSavedBoard()
      ensures l == LevelAt(levels, currentLevelIndex)
      ensures Valid()
    {
      currentLevelIndex := currentLevelIndex + 1;
      save.SaveLevel(currentLevelIndex);
      save.ClearBoard();
      LevelIndexRoundTrip(old(save.prefs), currentLevelIndex);
      l := LevelAt(levels, currentLevelIndex);
    }

    function GetCurrentLevel(): (l: LevelData)
      reads this, save
      requires Valid()
      ensures l in levels
    {
      LevelAt(levels, currentLevelIndex)
    }

    /** Drops the saved board; the level index stays. */
    method RestartLevel()
      requires Valid()
      modifies save
      ensures save.prefs == old(save.prefs) - {BoardKey}
      ensures save.LoadLevelIndex() == old(save.LoadLevelIndex())
      ensures Valid()
    {
      save.ClearBoard();
    }
  }
}
