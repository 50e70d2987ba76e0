/** BoardService: the live board of the current level, the moves a player
    makes on it, the normalisation loop that follows each move, and the
    switch to the next level once the board is empty. Listeners are not
    called: every event the board raises is appended to a ghost log. */
module Board {
  import opened Grid
  import opened Levels
  import opened MatchFinder
  import opened Gravity
  import opened BoardRules
  import opened Persistence
  import opened Progression

  // ---------------------------------------------------------------------------
  // One pass of the normalisation loop, as values.

  /** Whether the pass finds, after gravity, a match to destroy. */
  ghost predicate Destroys(g: Grid, w: int, h: int)
    requires IsGrid(g, w, h)
  {
    Matches(Settled(g, w, h), w, h) != {}
  }

  /** The board after one pass: settled, then its matches emptied. */
  ghost function PassGrid(g: Grid, w: int, h: int): Grid
    requires IsGrid(g, w, h)
  {
    var s := Settled(g, w, h);
    if Destroys(g, w, h) then Clear(s, Matches(s, w, h)) else s
  }

  /** The events of one pass: gravity's batches, then the destroyed cells. */
  ghost function PassEvents(g: Grid, w: int, h: int): seq<Event>
    requires IsGrid(g, w, h)
  {
    MovedEvents(SettleMoves(g, {}, w, h))
      + if Destroys(g, w, h) then [Destroyed(Matches(Settled(g, w, h), w, h))] else []
  }

  /** The store after one pass: a destroying pass saves the board. */
  ghost function PassPrefs(prefs: map<string, Pref>, g: Grid, w: int, h: int): map<string, Pref>
    requires IsGrid(g, w, h) && h >= 0
  {
    if Destroys(g, w, h) then prefs[BoardKey := BoardPref(Flatten(PassGrid(g, w, h), w, h))] else prefs
  }

  /** The store after a whole run: the board of its last save, if any. */
  ghost function SavedAfter(prefs: map<string, Pref>, r: Run, w: int, h: int): map<string, Pref>
    requires w >= 0 && h >= 0
  {
    if r.saved then prefs[BoardKey := BoardPref(Flatten(r.lastSaved, w, h))] else prefs
  }

  /** Part way through the loop started on g0: what is still to run from g
      ends where the whole run from g0 ends, with the same events and the
      same store. */
  ghost predicate Continues(r0: Run, g: Grid, w: int, h: int, log0: seq<Event>, log: seq<Event>,
                            p0: map<string, Pref>, p: map<string, Pref>)
    requires IsGrid(g, w, h) && h >= 0
  {
    var r := Normalize(g, w, h);
    r.final == r0.final && log + r.events == log0 + r0.events
      && SavedAfter(p, r, w, h) == SavedAfter(p0, r0, w, h)
  }

  /** The loop started on g0 is over: board, events and store are the run's. */
  ghost predicate Finished(r0: Run, g: Grid, w: int, h: int, log0: seq<Event>, log: seq<Event>,
                           p0: map<string, Pref>, p: map<string, Pref>)
    requires w >= 0 && h >= 0
  {
    g == r0.final && log == log0 + r0.events && p == SavedAfter(p0, r0, w, h)
  }

  /** The run is one pass followed, when it destroyed something, by the run
      from the board it left. */
  lemma NormalizeUnfold(g: Grid, w: int, h: int)
    requires IsGrid(g, w, h)
    ensures IsGrid(PassGrid(g, w, h), w, h)
    ensures !Destroys(g, w, h) ==> TileCount(PassGrid(g, w, h)) == TileCount(g)
    ensures !Destroys(g, w, h) ==>
      Normalize(g, w, h) == Run(PassGrid(g, w, h), PassEvents(g, w, h), false, PassGrid(g, w, h))
    ensures Destroys(g, w, h) ==> 0 <= TileCount(PassGrid(g, w, h)) < TileCount(g)
    ensures Destroys(g, w, h) ==>
      var rest := Normalize(PassGrid(g, w, h), w, h);
      Normalize(g, w, h) == Run(rest.final, PassEvents(g, w, h) + rest.events, true,
                                if rest.saved then rest.lastSaved else PassGrid(g, w, h))
  {
    if Destroys(g, w, h) {
      NormalizeTerminates(g, w, h);
      var rest := Normalize(PassGrid(g, w, h), w, h);
      ConcatAssoc(MovedEvents(SettleMoves(g, {}, w, h)), [Destroyed(Matches(Settled(g, w, h), w, h))], rest.events);
    } else {
      SettleKeeps(g, {}, w, h);
      assert PassEvents(g, w, h) == MovedEvents(SettleMoves(g, {}, w, h));
    }
  }

  /** The loop step: after one more pass the run either goes on to the same
      end, on a board with fewer tiles, or is over. */
  lemma PassStep(r0: Run, g: Grid, w: int, h: int, log0: seq<Event>, log: seq<Event>,
                 p0: map<string, Pref>, p: map<string, Pref>)
    requires IsGrid(g, w, h) && h >= 0
    requires Continues(r0, g, w, h, log0, log, p0, p)
    ensures IsGrid(PassGrid(g, w, h), w, h)
    ensures !Destroys(g, w, h) ==> TileCount(PassGrid(g, w, h)) == TileCount(g)
    ensures !Destroys(g, w, h) ==>
      Finished(r0, PassGrid(g, w, h), w, h, log0, log + PassEvents(g, w, h), p0, PassPrefs(p, g, w, h))
    ensures Destroys(g, w, h) ==> 0 <= TileCount(PassGrid(g, w, h)) < TileCount(g)
    ensures Destroys(g, w, h) ==>
      Continues(r0, PassGrid(g, w, h), w, h, log0, log + PassEvents(g, w, h), p0, PassPrefs(p, g, w, h))
  {
    NormalizeUnfold(g, w, h);
    if Destroys(g, w, h) {
      var c := PassGrid(g, w, h);
      var rest := Normalize(c, w, h);
      ConcatAssoc(log, PassEvents(g, w, h), rest.events);
      if rest.saved {
        Overwrite(p, BoardKey, BoardPref(Flatten(c, w, h)), BoardPref(Flatten(rest.lastSaved, w, h)));
      }
    }
  }

  /** A second write to a key replaces the first. */
  lemma Overwrite<K, V>(m: map<K, V>, k: K, a: V, b: V)
    ensures m[k := a][k := b] == m[k := b]
  {
  }

  /** The target of a move: `from + dir`. */
  function Target(from: Pos, dir: Pos): Pos
  {
    Pos(from.x + dir.x, from.y + dir.y)
  }

  // ---------------------------------------------------------------------------
  // Building the array.

  /** The two loops of LoadLevelAsync: every cell of the padded board set to
      None, then the level's cells copied in, shifted right by BufferSize. */
  method BuildBoard(l: LevelData) returns (a: array2<ElementType>)
    requires Loadable(l)
    ensures fresh(a) && a.Length0 == l.width + 2 * BufferSize && a.Length1 == l.height
    ensures Snapshot(a) == Padded(l)
  {
    var w := l.width + 2 * BufferSize;
    a := new ElementType[w, l.height];
    for x := 0 to w
      modifies a
      invariant forall i, j | 0 <= i < x && 0 <= j < l.height :: a[i, j] == None
    {
      for y := 0 to l.height
        modifies a
        invariant forall i, j | 0 <= i < x && 0 <= j < l.height :: a[i, j] == None
        invariant forall j | 0 <= j < y :: a[x, j] == None
      {
        a[x, y] := None;
      }
    }
    for x := 0 to l.width
      modifies a
      invariant forall i, j | 0 <= i < w && 0 <= j < l.height ::
        a[i, j] == if BufferSize <= i < x + BufferSize then PaddedCell(l, i, j) else None
    {
      for y := 0 to l.height
        modifies a
        invariant forall i, j | 0 <= i < w && 0 <= j < l.height ::
          a[i, j] == if BufferSize <= i < x + BufferSize || (i == x + BufferSize && j < y)
                     then PaddedCell(l, i, j) else None
      {
        IndexInBounds(l.width, l.height, x, y);
        a[x + BufferSize, y] := GetElement(l, x, y);
      }
    }
    forall i, j | 0 <= i < w && 0 <= j < l.height
      ensures Snapshot(a)[i][j] == Padded(l)[i][j]
    {
    }
    GridExt(Snapshot(a), Padded(l));
  }

  /** Restoring a saved board gives back the board that was saved. */
  lemma RestoreRoundTrip(g: Grid, w: int, h: int)
    requires IsGrid(g, w, h) && h >= 0
    ensures WellFormed(Flatten(g, w, h))
    ensures Unflatten(Flatten(g, w, h)) == g
  {
    FlattenShape(g, w, h);
    var r := Unflatten(Flatten(g, w, h));
    forall x, y | 0 <= x < w && 0 <= y < h
      ensures r[x][y] == g[x][y]
    {
      SaveRoundTrip(g, w, h, x, y);
    }
    GridExt(r, g);
  }

  /** The loop of LoadInitialState: the saved snapshot read back cell by cell. */
  method RestoreBoard(saved: LevelData) returns (a: array2<ElementType>)
    requires WellFormed(saved)
    ensures fresh(a) && a.Length0 == saved.width && a.Length1 == saved.height
    ensures Snapshot(a) == Unflatten(saved)
  {
    a := new ElementType[saved.width, saved.height];
    for x := 0 to saved.width
      modifies a
      invariant forall i, j | 0 <= i < x && 0 <= j < saved.height :: a[i, j] == Unflatten(saved)[i][j]
    {
      for y := 0 to saved.height
        modifies a
        invariant forall i, j | 0 <= i < x && 0 <= j < saved.height :: a[i, j] == Unflatten(saved)[i][j]
        invariant forall j | 0 <= j < y :: a[x, j] == Unflatten(saved)[x][j]
      {
        IndexInBounds(saved.width, saved.height, x, y);
        a[x, y] := GetElement(saved, x, y);
      }
    }
    GridExt(Snapshot(a), Unflatten(saved));
  }

  // ---------------------------------------------------------------------------
  // The service.

  class BoardService {
    const save: SaveService
    const levelService: LevelService
    var levelData: LevelData
    /** The board, column-major as in the C#; null until a level is loaded. */
    var elements: array2?<ElementType>
    var totalWidth: int
    var totalHeight: int
    /** Cells held by an animation in flight. */
    var busy: set<Pos>
    var isNormalizing: bool
    var needsNormalization: bool
    /** Every event raised to listeners, in order. */
    ghost var log: seq<Event>

    ghost predicate Valid()
      reads this, save, levelService
    {
      levelService.save == save && levelService.Valid()
      && (forall l | l in levelService.levels :: Loadable(l))
      && totalWidth >= 0 && totalHeight >= 0
      && (elements != null ==> elements.Length0 == totalWidth && elements.Length1 == totalHeight)
    }

    constructor(save: SaveService, levelService: LevelService)
      requires levelService.save == save && levelService.Valid()
      requires forall l | l in levelService.levels :: Loadable(l)
      ensures this.save == save && this.levelService == levelService
      ensures Valid() && elements == null && busy == {} && !isNormalizing && !needsNormalization
      ensures log == []
    {
      this.save := save;
      this.levelService := levelService;
      levelData := LevelData(0, 0, []);
      elements := null;
      totalWidth, totalHeight := 0, 0;
      busy := {};
      isNormalizing, needsNormalization := false, false;
      log := [];
    }

    /** The board shows level `l` laid out as LoadLevelAsync lays it out. */
    ghost predicate Shows(l: LevelData)
      reads this, elements
    {
      Loadable(l) && levelData == l
      && totalWidth == l.width + 2 * BufferSize && totalHeight == l.height
      && elements != null && Snapshot(elements) == Padded(l)
    }

    /** `pos` is a cell of the loaded (padded) board. */
    predicate IsInside(pos: Pos)
      reads this
      ensures IsInside(pos) <==> elements != null && pos in Cells(totalWidth, totalHeight)
    {
      elements != null && Inside(pos, totalWidth, totalHeight)
    }

    predicate IsBusy(pos: Pos)
      reads this
    {
      pos in busy
    }

    /** The cell at (x, y); outside the array the C# access faults. */
    function GetElement(x: int, y: int): (e: ElementType)
      reads this, elements
      requires elements != null && 0 <= x < elements.Length0 && 0 <= y < elements.Length1
      ensures e == Get(Snapshot(elements), Pos(x, y))
    {
      elements[x, y]
    }

    /** The guards TryMoveAsync passes before it touches anything: no
        normalisation running, the target on the board, neither cell busy,
        and a tile at the source. */
    ghost predicate Accepts(from: Pos, dir: Pos)
      reads this, elements
    {
      var to := Target(from, dir);
      !isNormalizing && IsInside(to) && !IsBusy(from) && !IsBusy(to)
      && Get(Snapshot(elements), from) != None
    }

    /** The board is `g`, of size w x h, on level `level0` at index
        `index0`, with store `prefs0` and event log `log0`. */
    ghost predicate Holds(g: Grid, w: int, h: int, level0: LevelData, index0: int,
                          prefs0: map<string, Pref>, log0: seq<Event>)
      reads this, elements, save, levelService
    {
      elements != null && totalWidth == w && totalHeight == h && Snapshot(elements) == g
      && levelData == level0 && levelService.currentLevelIndex == index0
      && save.prefs == prefs0 && log == log0
    }

    /** NextLevelAsync has run after index `index0`, store `prefs0` and log
        `log0`: the next level is shown, the new index saved, the saved
        board replaced by the new one, and the level announced. */
    ghost predicate NextLoaded(index0: int, prefs0: map<string, Pref>, log0: seq<Event>)
      reads this, elements, save, levelService
      requires index0 >= 0
    {
      |levelService.levels| > 0
      && var l := LevelAt(levelService.levels, index0 + 1);
      levelService.currentLevelIndex == index0 + 1 && Shows(l)
      && save.prefs == (prefs0[LevelKey := IntPref(index0 + 1)] - {BoardKey})
                         [BoardKey := BoardPref(Flatten(Padded(l), totalWidth, totalHeight))]
      && log == log0 + [LevelLoaded(l)]
    }

    /** The state StartNormalizationAsync leaves, started on board `g` with
        the flags, level, store and log it found. When a pass is already
        running, or cells are held by an animation, nothing runs and the
        request stays pending. Otherwise the run of Normalize is applied,
        and an empty final board wins: the next level is loaded. */
    ghost predicate Normalized(g: Grid, w: int, h: int, wasNormalizing: bool, wasBusy: set<Pos>,
                               level0: LevelData, index0: int, prefs0: map<string, Pref>, log0: seq<Event>)
      reads this, elements, save, levelService
      requires IsGrid(g, w, h) && h >= 0 && index0 >= 0
    {
      if wasNormalizing || wasBusy != {} then
        needsNormalization && isNormalizing == wasNormalizing && busy == wasBusy
        && Holds(g, w, h, level0, index0, prefs0, log0)
      else
        var r := Normalize(g, w, h);
        var saved := SavedAfter(prefs0, r, w, h);
        !needsNormalization && !isNormalizing && busy == {}
        && if !AllEmpty(r.final) then Holds(r.final, w, h, level0, index0, saved, log0 + r.events)
           else NextLoaded(index0, saved, log0 + r.events + [Won])
    }

    /** LoadLevelAsync: a fresh padded board for `l`, no busy cell, no
        normalisation, the board saved and the level announced. */
    method LoadLevel(l: LevelData)
      requires Valid() && Loadable(l)
      modifies this, save
      ensures Valid() && Shows(l) && fresh(elements)
      ensures busy == {} && !isNormalizing && needsNormalization == old(needsNormalization)
      ensures save.prefs == old(save.prefs)[BoardKey := BoardPref(Flatten(Padded(l), totalWidth, totalHeight))]
      ensures log == old(log) + [LevelLoaded(l)]
    {
      levelData := l;
      totalWidth := l.width + 2 * BufferSize;
      totalHeight := l.height;
      elements := BuildBoard(l);
      busy := {};
      isNormalizing := false;
      save.SaveBoard(totalWidth, totalHeight, elements);
      log := log + [LevelLoaded(l)];
    }

    /** LoadInitialState: the saved level; its saved board, normalised, when
        there is one, and the level laid out afresh otherwise. */
    method LoadInitialState()
      requires Valid() && save.LoadLevelIndex() >= 0
      modifies this, save, levelService
      ensures Valid()
      ensures var i := old(save.LoadLevelIndex());
        var l := LevelAt(levelService.levels, i);
        if old(save.HasSavedBoard()) then
          var saved := old(save.LoadBoard());
          Normalized(Unflatten(saved), saved.width, saved.height, old(isNormalizing), {},
                     l, i, old(save.prefs), old(log) + [LevelLoaded(l)])
        else
          levelService.currentLevelIndex == i && Shows(l) && busy == {}
          && !isNormalizing && needsNormalization == old(needsNormalization)
          && save.prefs == old(save.prefs)[BoardKey := BoardPref(Flatten(Padded(l), totalWidth, totalHeight))]
          && log == old(log) + [LevelLoaded(l)]
    {
      levelData := levelService.LoadInitialLevel();
      if save.HasSavedBoard() {
        RestoreSaved();
      } else {
        LoadLevel(levelData);
      }
    }

    /** The saved-board branch of LoadInitialState: the snapshot restored at
        its own size, no busy cell, the level announced, then normalised. */
    method RestoreSaved()
      requires Valid() && save.HasSavedBoard() && levelService.currentLevelIndex >= 0
      modifies this, save, levelService
      ensures Valid()
      ensures var saved := old(save.LoadBoard());
        Normalized(Unflatten(saved), saved.width, saved.height, old(isNormalizing), {}, old(levelData),
                   old(levelService.currentLevelIndex), old(save.prefs), old(log) + [LevelLoaded(old(levelData))])
    {
      var saved := save.LoadBoard();
      totalWidth := saved.width;
      totalHeight := saved.height;
      elements := RestoreBoard(saved);
      busy := {};
      log := log + [LevelLoaded(levelData)];
      StartNormalization();
    }

    /** RestartLevelAsync: the saved board is dropped and the current level
        laid out afresh. */
    method RestartLevel()
      requires Valid()
      modifies this, save
      ensures Valid() && fresh(elements)
      ensures Shows(LevelAt(levelService.levels, levelService.currentLevelIndex))
      ensures save.prefs == (old(save.prefs) - {BoardKey})[BoardKey := BoardPref(Flatten(Padded(levelData), totalWidth, totalHeight))]
      ensures log == old(log) + [LevelLoaded(levelData)]
      ensures busy == {} && !isNormalizing && needsNormalization == old(needsNormalization)
    {
      levelService.RestartLevel();
      var l := levelService.GetCurrentLevel();
      LoadLevel(l);
    }

    /** NextLevelAsync: the level index advances and that level is laid out. */
    method NextLevel()
      requires Valid()
      modifies this, save, levelService
      ensures Valid() && fresh(elements)
      ensures NextLoaded(old(levelService.currentLevelIndex), old(save.prefs), old(log))
      ensures busy == {} && !isNormalizing && needsNormalization == old(needsNormalization)
    {
      var l := levelService.GetNextLevel();
      LoadLevel(l);
    }

    /** TryMoveAsync: a refused move changes nothing; an accepted one
        exchanges the two cells, reports the move, saves the board and
        normalises. */
    method TryMove(from: Pos, dir: Pos)
      requires Valid()
      modifies this, elements, save, levelService
      ensures Valid()
      ensures !old(Accepts(from, dir)) ==>
        unchanged(this, save, levelService) && (elements != null ==> unchanged(elements))
      ensures old(Accepts(from, dir)) ==>
        var to := Target(from, dir);
        var g := Swapped(old(Snapshot(elements)), from, to);
        IsGrid(g, old(totalWidth), old(totalHeight)) &&
        Normalized(g, old(totalWidth), old(totalHeight), false, old(busy), old(levelData),
                   old(levelService.currentLevelIndex),
                   old(save.prefs)[BoardKey := BoardPref(Flatten(g, old(totalWidth), old(totalHeight)))],
                   old(log) + [Moved(MoveBatch(from, to, Get(old(Snapshot(elements)), to)))])
    {
      if isNormalizing {
        return;
      }
      var to := Target(from, dir);
      if !IsInside(to) {
        return;
      }
      if IsBusy(from) || IsBusy(to) {
        return;
      }
      if !IsInside(from) {
        // the C# array access faults here, before anything is changed
        return;
      }
      var typeFrom := elements[from.x, from.y];
      if typeFrom == None {
        return;
      }
      Exchange(from, to);
    }

    /** The accepted part of TryMoveAsync: the moves reported, the two cells
        exchanged, the board saved, the cells released, and normalisation
        started. */
    method Exchange(from: Pos, to: Pos)
      requires Valid() && !isNormalizing && IsInside(from) && IsInside(to)
      requires from !in busy && to !in busy
      modifies this, elements, save, levelService
      ensures Valid()
      ensures var g := Swapped(old(Snapshot(elements)), from, to);
        IsGrid(g, old(totalWidth), old(totalHeight)) &&
        Normalized(g, old(totalWidth), old(totalHeight), false, old(busy), old(levelData),
                   old(levelService.currentLevelIndex),
                   old(save.prefs)[BoardKey := BoardPref(Flatten(g, old(totalWidth), old(totalHeight)))],
                   old(log) + [Moved(MoveBatch(from, to, Get(old(Snapshot(elements)), to)))])
    {
      MoveCells(from, to);
      StartNormalization();
    }

    /** The try block of TryMoveAsync up to normalisation: both cells held,
        the moves reported, the two kinds exchanged and the board saved,
        then both cells released. */
    method MoveCells(from: Pos, to: Pos)
      requires Valid() && IsInside(from) && IsInside(to) && from !in busy && to !in busy
      modifies this`busy, this`log, elements, save
      ensures Valid() && busy == old(busy)
      ensures Snapshot(elements) == Swapped(old(Snapshot(elements)), from, to)
      ensures save.prefs == old(save.prefs)[BoardKey := BoardPref(Flatten(Snapshot(elements), totalWidth, totalHeight))]
      ensures log == old(log) + [Moved(MoveBatch(from, to, Get(old(Snapshot(elements)), to)))]
    {
      var typeFrom := elements[from.x, from.y];
      var typeTo := elements[to.x, to.y];
      busy := busy + {from, to};
      log := log + [Moved(MoveBatch(from, to, typeTo))];
      SetCell(elements, from, typeTo);
      SetCell(elements, to, typeFrom);
      save.SaveBoard(totalWidth, totalHeight, elements);
      busy := busy - {from, to};
    }

    /** StartNormalizationAsync: marks a pass as needed and, unless one is
        already running, runs the loop and then checks for a win. */
    method StartNormalization()
      requires Valid() && elements != null
      modifies this, elements, save, levelService
      ensures Valid()
      ensures Normalized(old(Snapshot(elements)), old(totalWidth), old(totalHeight), old(isNormalizing),
                         old(busy), old(levelData), old(levelService.currentLevelIndex), old(save.prefs), old(log))
    {
      needsNormalization := true;
      if isNormalizing {
        return;
      }
      isNormalizing := true;
      var deferred := NormalizeLoop();
      if !deferred {
        CheckWin();
      }
      isNormalizing := false;
    }

    /** The while loop of StartNormalizationAsync. Where the C# waits for
        busy cells to be released the model stops, with the pass still
        requested. */
    method NormalizeLoop() returns (deferred: bool)
      requires Valid() && elements != null && needsNormalization
      modifies this`needsNormalization, this`log, this`busy, elements, save
      ensures Valid() && busy == old(busy)
      ensures deferred <==> old(busy) != {}
      ensures deferred ==> (needsNormalization && Snapshot(elements) == old(Snapshot(elements))
        && log == old(log) && save.prefs == old(save.prefs))
      ensures !deferred ==> (!needsNormalization
        && Finished(Normalize(old(Snapshot(elements)), totalWidth, totalHeight), Snapshot(elements),
                    totalWidth, totalHeight, old(log), log, old(save.prefs), save.prefs))
    {
      ghost var log0, p0 := log, save.prefs;
      ghost var r0 := Normalize(Snapshot(elements), totalWidth, totalHeight);
      deferred := false;
      while needsNormalization
        invariant Valid() && busy == old(busy) && !deferred
        invariant busy != {} ==> (needsNormalization && Snapshot(elements) == old(Snapshot(elements))
          && log == log0 && save.prefs == p0)
        invariant needsNormalization ==>
          Continues(r0, Snapshot(elements), totalWidth, totalHeight, log0, log, p0, save.prefs)
        invariant !needsNormalization ==>
          Finished(r0, Snapshot(elements), totalWidth, totalHeight, log0, log, p0, save.prefs)
        decreases TileCount(Snapshot(elements)), if needsNormalization then 1 else 0
      {
        if busy != {} {
          deferred := true;
          break;
        }
        needsNormalization := false;
        var destroyed := Advance(r0, log0, p0);
        needsNormalization := destroyed;
      }
    }

    /** One pass, as a step of the run r0: afterwards the run either goes
        on, from a board with fewer tiles, or is over. */
    method Advance(ghost r0: Run, ghost log0: seq<Event>, ghost p0: map<string, Pref>) returns (destroyed: bool)
      requires Valid() && elements != null && busy == {}
      requires Continues(r0, Snapshot(elements), totalWidth, totalHeight, log0, log, p0, save.prefs)
      modifies this`log, this`busy, elements, save
      ensures Valid() && busy == {}
      ensures destroyed ==> (0 <= TileCount(Snapshot(elements)) < old(TileCount(Snapshot(elements)))
        && Continues(r0, Snapshot(elements), totalWidth, totalHeight, log0, log, p0, save.prefs))
      ensures !destroyed ==> (TileCount(Snapshot(elements)) == old(TileCount(Snapshot(elements)))
        && Finished(r0, Snapshot(elements), totalWidth, totalHeight, log0, log, p0, save.prefs))
    {
      ghost var g, l, p := Snapshot(elements), log, save.prefs;
      PassStep(r0, g, totalWidth, totalHeight, log0, l, p0, p);
      destroyed := NormalizePass();
    }

    /** One pass of the loop: gravity, then FindMatches; matched cells are
        reported, emptied and released, and the board saved. */
    method NormalizePass() returns (destroyed: bool)
      requires Valid() && elements != null && busy == {}
      modifies this`log, this`busy, elements, save
      ensures Valid() && busy == {}
      ensures destroyed == Destroys(old(Snapshot(elements)), totalWidth, totalHeight)
      ensures Snapshot(elements) == PassGrid(old(Snapshot(elements)), totalWidth, totalHeight)
      ensures log == old(log) + PassEvents(old(Snapshot(elements)), totalWidth, totalHeight)
      ensures save.prefs == PassPrefs(old(save.prefs), old(Snapshot(elements)), totalWidth, totalHeight)
    {
      ghost var g := Snapshot(elements);
      var changed, pending, busyAfter, batches := ApplyGravity(elements, totalWidth, totalHeight, busy);
      log := log + MovedEvents(batches);
      var toDestroy := FindMatches(elements, totalWidth, totalHeight);
      destroyed := toDestroy != {};
      ghost var moved := MovedEvents(batches);
      if destroyed {
        DestroyCells(toDestroy);
        assert log == old(log) + PassEvents(g, totalWidth, totalHeight) by {
          ConcatAssoc(old(log), moved, [Destroyed(toDestroy)]);
        }
      } else {
        assert PassEvents(g, totalWidth, totalHeight) == moved + [];
      }
    }

    /** A destroying pass: the matched cells are held and reported, then
        emptied and released, and the board saved. */
    method DestroyCells(cells: set<Pos>)
      requires Valid() && elements != null
      requires forall p | p in cells :: Inside(p, totalWidth, totalHeight)
      modifies this`busy, this`log, elements, save
      ensures Valid() && busy == old(busy) - cells
      ensures Snapshot(elements) == Clear(old(Snapshot(elements)), cells)
      ensures log == old(log) + [Destroyed(cells)]
      ensures save.prefs == old(save.prefs)[BoardKey := BoardPref(Flatten(Snapshot(elements), totalWidth, totalHeight))]
    {
      busy := busy + cells;
      log := log + [Destroyed(cells)];
      ClearCells(cells);
      save.SaveBoard(totalWidth, totalHeight, elements);
    }

    /** The `finally` block of a destroying pass: each matched cell emptied
        and released. */
    method ClearCells(cells: set<Pos>)
      requires elements != null
      requires forall p | p in cells :: 0 <= p.x < elements.Length0 && 0 <= p.y < elements.Length1
      modifies this`busy, elements
      ensures Snapshot(elements) == Clear(old(Snapshot(elements)), cells)
      ensures busy == old(busy) - cells
    {
      ghost var g := Snapshot(elements);
      GridExt(Clear(g, {}), g);
      var rest := cells;
      assert cells - rest == {};
      while rest != {}
        invariant rest <= cells
        invariant Snapshot(elements) == Clear(g, cells - rest)
        invariant busy == old(busy) - (cells - rest)
        decreases |rest|
      {
        var p :| p in rest;
        SetCell(elements, p, None);
        busy := busy - {p};
        ClearOneMore(g, cells - rest, p);
        assert cells - (rest - {p}) == (cells - rest) + {p};
        rest := rest - {p};
      }
      assert cells - rest == cells;
    }

    /** The scan of CheckWinAsync: whether every cell is empty. */
    method IsCleared() returns (cleared: bool)
      requires Valid() && elements != null
      ensures cleared <==> AllEmpty(Snapshot(elements))
    {
      for x := 0 to totalWidth
        invariant forall i, j | 0 <= i < x && 0 <= j < totalHeight :: elements[i, j] == None
      {
        for y := 0 to totalHeight
          invariant forall i, j | 0 <= i < x && 0 <= j < totalHeight :: elements[i, j] == None
          invariant forall j | 0 <= j < y :: elements[x, j] == None
        {
          if elements[x, y] != None {
            return false;
          }
        }
      }
      return true;
    }

    /** CheckWinAsync: an empty board raises Won and loads the next level. */
    method CheckWin()
      requires Valid() && elements != null
      modifies this, save, levelService
      ensures Valid()
      ensures !old(AllEmpty(Snapshot(elements))) ==> unchanged(this, save, levelService)
      ensures old(AllEmpty(Snapshot(elements))) ==>
        NextLoaded(old(levelService.currentLevelIndex), old(save.prefs), old(log) + [Won])
        && busy == {} && !isNormalizing && needsNormalization == old(needsNormalization)
    {
      var cleared := IsCleared();
      if cleared {
        log := log + [Won];
        NextLevel();
      }
    }
  }
}
