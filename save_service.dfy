/** SaveService: the level index and a row-major snapshot of the board, kept
    in a string-keyed preference store. */
module Persistence {
  import opened Grid
  import opened Levels

  /** A stored preference: an int, or a saved board. The board is kept as
      the LevelData value itself; its JSON text is not modelled. */
  datatype Pref = IntPref(i: int) | BoardPref(board: LevelData)

  const LevelKey: string := "CurrentLevelIndex"
  const BoardKey: string := "SavedBoardState"

  /** The snapshot SaveBoard takes: the first `w` columns and `h` rows of the
      grid, cell (x, y) at index y * w + x. */
  function Flatten(g: Grid, w: int, h: int): LevelData
    requires w >= 0 && h >= 0
  {
    LevelData(w, h, seq(w * h, i requires 0 <= i < w * h => FlatCell(g, w, i)))
  }

  function FlatCell(g: Grid, w: int, i: int): ElementType
  {
    if w > 0 then Get(g, Pos(i % w, i / w)) else None
  }

  /** PlayerPrefs.GetInt(LevelKey, 0). */
  function StoredLevelIndex(prefs: map<string, Pref>): int
  {
    if LevelKey in prefs && prefs[LevelKey].IntPref? then prefs[LevelKey].i else 0
  }

  /** A saved board, if any, is well formed. */
  predicate StoreOk(prefs: map<string, Pref>)
  {
    BoardKey in prefs ==> prefs[BoardKey].BoardPref? && WellFormed(prefs[BoardKey].board)
  }

  /** The snapshot has the recorded dimensions and exactly `w * h` cells. */
  lemma FlattenShape(g: Grid, w: int, h: int)
    requires w >= 0 && h >= 0
    ensures WellFormed(Flatten(g, w, h))
    ensures Flatten(g, w, h).width == w && Flatten(g, w, h).height == h
  {
  }

  /** Round trip: reading the snapshot back with GetElement gives the cell
      it was taken from. */
  lemma SaveRoundTrip(g: Grid, w: int, h: int, x: int, y: int)
    requires 0 <= x < w && 0 <= y < h
    ensures 0 <= Index(w, x, y) < w * h
    ensures GetElement(Flatten(g, w, h), x, y) == Get(g, Pos(x, y))
  {
    IndexInBounds(w, h, x, y);
    IndexDecode(w, x, y);
  }

  /** Reading the level index back gives the last value saved. */
  lemma LevelIndexRoundTrip(prefs: map<string, Pref>, i: int)
    ensures StoredLevelIndex(prefs[LevelKey := IntPref(i)]) == i
  {
  }

  /** Clearing the board leaves the level index alone. */
  lemma ClearKeepsLevelIndex(prefs: map<string, Pref>)
    ensures StoredLevelIndex(prefs - {BoardKey}) == StoredLevelIndex(prefs)
  {
    assert LevelKey != BoardKey by {
      assert LevelKey[0] != BoardKey[0];
    }
  }

  class SaveService {
    var prefs: map<string, Pref>

    ghost predicate Valid()
      reads this
    {
      StoreOk(prefs)
    }

    constructor(stored: map<string, Pref>)
      requires StoreOk(stored)
      ensures prefs == stored && Valid()
    {
      prefs := stored;
    }

    method SaveLevel(levelIndex: int)
      requires Valid()
      modifies this
      ensures prefs == old(prefs)[LevelKey := IntPref(levelIndex)]
      ensures Valid()
    {
      assert LevelKey[0] != BoardKey[0];
      prefs := prefs[LevelKey := IntPref(levelIndex)];
    }

    /** Flattens the first `width` columns and `height` rows of `elements`,
        row by row, and stores the result. */
    method SaveBoard(width: int, height: int, elements: array2<ElementType>)
      requires Valid()
      requires 0 <= width <= elements.Length0 && 0 <= height <= elements.Length1
      modifies this
      ensures prefs == old(prefs)[BoardKey := BoardPref(Flatten(Snapshot(elements), width, height))]
      ensures Valid()
    {
      ghost var g := Snapshot(elements);
      var flat := new ElementType[width * height](_ => None);
      for y := 0 to height
        modifies flat
        invariant forall x', y' | 0 <= x' < width && 0 <= y' < y ::
          0 <= Index(width, x', y') < flat.Length && flat[Index(width, x', y')] == g[x'][y']
      {
        for x := 0 to width
          modifies flat
          invariant forall x', y' | 0 <= x' < width && 0 <= y' < y ::
            0 <= Index(width, x', y') < flat.Length && flat[Index(width, x', y')] == g[x'][y']
          invariant forall x' | 0 <= x' < x ::
            0 <= Index(width, x', y) < flat.Length && flat[Index(width, x', y)] == g[x'][y]
        {
          IndexInBounds(width, height, x, y);
          flat[y * width + x] := elements[x, y];
          forall x', y' | 0 <= x' < width && 0 <= y' <= y && (y' < y || x' < x)
            ensures Index(width, x', y') != Index(width, x, y)
          {
            IndexInBounds(width, height, x', y');
            if Index(width, x', y') == Index(width, x, y) {
              IndexInjective(width, height, x', y', x, y);
            }
          }
        }
      }
      var saved := LevelData(width, height, flat[..]);
      assert saved == Flatten(g, width, height) by {
        forall i | 0 <= i < width * height
          ensures flat[i] == FlatCell(g, width, i)
        {
          IndexSurjective(width, height, i);
        }
      }
      prefs := prefs[BoardKey := BoardPref(saved)];
    }

    /** The saved level index, 0 when none was saved. */
    function LoadLevelIndex(): (i: int)
      reads this
      ensures LevelKey !in prefs ==> i == 0
      ensures LevelKey in prefs && prefs[LevelKey].IntPref? ==> i == prefs[LevelKey].i
    {
      StoredLevelIndex(prefs)
    }

    predicate HasSavedBoard()
      reads this
    {
      BoardKey in prefs
    }

    /** The saved board; only read after HasSavedBoard. */
    function LoadBoard(): (l: LevelData)
      reads this
      requires Valid() && HasSavedBoard()
      ensures WellFormed(l)
    {
      prefs[BoardKey].board
    }

    method ClearBoard()
      requires Valid()
      modifies this
      ensures prefs == old(prefs) - {BoardKey}
      ensures !HasSavedBoard() && LoadLevelIndex() == old(LoadLevelIndex())
      ensures Valid()
    {
      ClearKeepsLevelIndex(prefs);
      prefs := prefs - {BoardKey};
    }
  }
}
