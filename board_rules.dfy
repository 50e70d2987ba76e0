/** The value-level rules BoardService applies to its grid: building a board
    from a level, a player's move, clearing matched cells, and the
    normalisation cycle (gravity, then matches, repeated). */
module BoardRules {
  import opened Grid
  import opened Levels
  import opened MatchFinder
  import opened Gravity

  /** Empty columns added on each side of a level. */
  const BufferSize: int := 1

  /** What the board reports to its listeners, in order. */
  datatype Event =
    | Moved(moves: seq<Move>)
    | Destroyed(cells: set<Pos>)
    | LevelLoaded(level: LevelData)
    | Won

  // ---------------------------------------------------------------------------
  // Building a board.

  /** The board LoadLevelAsync builds: the level's cells shifted right by
      BufferSize, with empty padding columns on both sides. */
  function Padded(l: LevelData): Grid
    requires Loadable(l)
  {
    seq(l.width + 2 * BufferSize, x requires 0 <= x < l.width + 2 * BufferSize =>
      seq(l.height, y requires 0 <= y < l.height => PaddedCell(l, x, y)))
  }

  function PaddedCell(l: LevelData, x: int, y: int): ElementType
    requires Loadable(l) && 0 <= y < l.height
  {
    if BufferSize <= x < l.width + BufferSize then
      IndexInBounds(l.width, l.height, x - BufferSize, y);
      GetElement(l, x - BufferSize, y)
    else None
  }

  /** The padded board has the padded dimensions, empty outer columns, and
      the level's cell (x, y) at (x + 1, y). */
  lemma PaddedSpec(l: LevelData)
    requires Loadable(l)
    ensures IsGrid(Padded(l), l.width + 2, l.height)
    ensures forall y | 0 <= y < l.height :: Get(Padded(l), Pos(0, y)) == None && Get(Padded(l), Pos(l.width + 1, y)) == None
    ensures forall x, y | 0 <= x < l.width && 0 <= y < l.height ::
      0 <= Index(l.width, x, y) < |l.elements| && Get(Padded(l), Pos(x + 1, y)) == GetElement(l, x, y)
  {
    forall x, y | 0 <= x < l.width && 0 <= y < l.height
      ensures 0 <= Index(l.width, x, y) < |l.elements|
    {
      IndexInBounds(l.width, l.height, x, y);
    }
  }

  /** The board LoadInitialState restores from a saved snapshot. */
  function Unflatten(l: LevelData): (g: Grid)
    requires WellFormed(l)
    ensures IsGrid(g, l.width, l.height)
  {
    seq(l.width, x requires 0 <= x < l.width =>
      seq(l.height, y requires 0 <= y < l.height =>
        IndexInBounds(l.width, l.height, x, y);
        GetElement(l, x, y)))
  }

  // ---------------------------------------------------------------------------
  // A move.

  /** The grid after a move: the kinds at `from` and `to` are exchanged (a
      swap, or a slide when `to` is empty). */
  function Swapped(g: Grid, from: Pos, to: Pos): Grid
    requires 0 <= from.x < |g| && 0 <= from.y < |g[from.x]|
    requires 0 <= to.x < |g| && 0 <= to.y < |g[to.x]|
  {
    Set(Set(g, from, g[to.x][to.y]), to, g[from.x][from.y])
  }

  /** The moves reported for a move: the tile's own, and the displaced
      tile's when the target was not empty. */
  function MoveBatch(from: Pos, to: Pos, target: ElementType): (ms: seq<Move>)
    ensures |ms| == if target == None then 1 else 2
    ensures ms[0] == Move(from, to)
    ensures |ms| == 2 ==> ms[1] == Move(to, from)
  {
    [Move(from, to)] + if target != None then [Move(to, from)] else []
  }

  /** A move exchanges the two cells, touches no other, and keeps every tile. */
  lemma SwappedSpec(g: Grid, from: Pos, to: Pos)
    requires 0 <= from.x < |g| && 0 <= from.y < |g[from.x]|
    requires 0 <= to.x < |g| && 0 <= to.y < |g[to.x]|
    ensures Get(Swapped(g, from, to), to) == Get(g, from)
    ensures Get(Swapped(g, from, to), from) == Get(g, to)
    ensures forall p | p != from && p != to :: Get(Swapped(g, from, to), p) == Get(g, p)
    ensures Tiles(Swapped(g, from, to)) == Tiles(g)
  {
    ExchangeKeepsTiles(g, from, to);
  }

  // ---------------------------------------------------------------------------
  // Clearing matched cells.

  /** The grid with every cell of `S` emptied. */
  function Clear(g: Grid, S: set<Pos>): (r: Grid)
    ensures |r| == |g| && forall x | 0 <= x < |g| :: |r[x]| == |g[x]|
  {
    seq(|g|, x requires 0 <= x < |g| =>
      seq(|g[x]|, y requires 0 <= y < |g[x]| => if Pos(x, y) in S then None else g[x][y]))
  }

  /** Clearing a set of tiles removes exactly that many tiles. */
  lemma {:induction false} ClearCount(g: Grid, S: set<Pos>)
    requires forall p | p in S :: 0 <= p.x < |g| && 0 <= p.y < |g[p.x]| && g[p.x][p.y] != None
    ensures TileCount(Clear(g, S)) == TileCount(g) - |S|
    decreases |S|
  {
    if S == {} {
      GridExt(Clear(g, S), g);
    } else {
      var p :| p in S;
      var S' := S - {p};
      var c' := Clear(g, S');
      var c := Set(c', p, None);
      assert TileCount(c') == TileCount(g) - |S'| by {
        ClearCount(g, S');
      }
      assert S == S' + {p};
      ClearOneMore(g, S', p);
      assert TileCount(c) == TileCount(c') - 1 by {
        assert c'[p.x][p.y] == g[p.x][p.y];
        ClearTileCount(c', p);
      }
    }
  }

  /** Clearing one more cell is one more Set. */
  lemma ClearOneMore(g: Grid, S: set<Pos>, p: Pos)
    requires 0 <= p.x < |g| && 0 <= p.y < |g[p.x]|
    ensures Clear(g, S + {p}) == Set(Clear(g, S), p, None)
  {
    var c := Set(Clear(g, S), p, None);
    forall x, y | 0 <= x < |g| && 0 <= y < |g[x]|
      ensures Clear(g, S + {p})[x][y] == c[x][y]
    {
      assert c[x][y] == Get(c, Pos(x, y));
      if Pos(x, y) != p {
        assert c[x][y] == Get(Clear(g, S), Pos(x, y)) == Clear(g, S)[x][y];
      }
    }
    GridExt(Clear(g, S + {p}), c);
  }

  lemma {:induction false} TileCountNonNeg(g: Grid)
    ensures TileCount(g) >= 0
  {
    if g != [] {
      TileCountNonNeg(g[1..]);
      SeqNoneCount(g[0]);
    }
  }

  /** Every cell of the grid is empty. */
  predicate AllEmpty(g: Grid)
  {
    forall x, y | 0 <= x < |g| && 0 <= y < |g[x]| :: g[x][y] == None
  }

  // ---------------------------------------------------------------------------
  // Normalisation.

  /** The batches of one gravity call, as events. */
  function MovedEvents(batches: seq<seq<Move>>): (es: seq<Event>)
    ensures |es| == |batches| && forall i | 0 <= i < |batches| :: es[i] == Moved(batches[i])
  {
    seq(|batches|, i requires 0 <= i < |batches| => Moved(batches[i]))
  }

  /** The outcome of the normalisation loop: the final grid, the events in
      order, and the grid of the last save, if a pass destroyed anything. */
  datatype Run = Run(final: Grid, events: seq<Event>, saved: bool, lastSaved: Grid)

  /** One pass of the loop: gravity with no busy cell, then FindMatches. */
  ghost function Settled(g: Grid, w: int, h: int): Grid
    requires IsGrid(g, w, h)
  {
    Settle(g, {}, w, h)
  }

  /** The loop of StartNormalizationAsync: after gravity, matched regions are
      cleared and the board saved, and the loop repeats; it ends after a
      pass that finds no match. */
  ghost function Normalize(g: Grid, w: int, h: int): (r: Run)
    requires IsGrid(g, w, h)
    ensures IsGrid(r.final, w, h) && IsGrid(r.lastSaved, w, h)
    decreases TileCount(g)
  {
    var s := Settle(g, {}, w, h);
    var moved := MovedEvents(SettleMoves(g, {}, w, h));
    var m := Matches(s, w, h);
    if m == {} then Run(s, moved, false, s)
    else
      var c := Clear(s, m);
      NormalizeTerminates(g, w, h);
      var rest := Normalize(c, w, h);
      Run(rest.final, moved + [Destroyed(m)] + rest.events, true, if rest.saved then rest.lastSaved else c)
  }

  lemma NormalizeTerminates(g: Grid, w: int, h: int)
    requires IsGrid(g, w, h) && Matches(Settle(g, {}, w, h), w, h) != {}
    ensures 0 <= TileCount(Clear(Settle(g, {}, w, h), Matches(Settle(g, {}, w, h), w, h))) < TileCount(g)
  {
    var s := Settle(g, {}, w, h);
    var m := Matches(s, w, h);
    SettleKeeps(g, {}, w, h);
    assert forall p | p in m :: 0 <= p.x < |s| && 0 <= p.y < |s[p.x]| && s[p.x][p.y] != None;
    ClearCount(s, m);
    TileCountNonNeg(Clear(s, m));
    var p :| p in m;
  }

  /** The loop ends on a board with no match, on which gravity has no
      candidate: with no busy cell, no tile rests over an empty cell. */
  lemma {:induction false} NormalizeStable(g: Grid, w: int, h: int)
    requires IsGrid(g, w, h)
    ensures Matches(Normalize(g, w, h).final, w, h) == {}
    ensures Falling(Normalize(g, w, h).final, {}, w, h) == []
    ensures forall p :: !Falls(Normalize(g, w, h).final, {}, w, h, p)
    decreases TileCount(g)
  {
    var s := Settle(g, {}, w, h);
    var m := Matches(s, w, h);
    if m == {} {
      SettleStable(g, {}, w, h);
    } else {
      NormalizeTerminates(g, w, h);
      NormalizeStable(Clear(s, m), w, h);
    }
  }

  /** Normalising never adds a tile; it removes exactly the destroyed ones. */
  lemma {:induction false} NormalizeCount(g: Grid, w: int, h: int)
    requires IsGrid(g, w, h)
    ensures TileCount(Normalize(g, w, h).final) <= TileCount(g)
    ensures Normalize(g, w, h).saved <==> TileCount(Normalize(g, w, h).final) < TileCount(g)
    decreases TileCount(g)
  {
    var s := Settle(g, {}, w, h);
    var m := Matches(s, w, h);
    SettleKeeps(g, {}, w, h);
    if m != {} {
      NormalizeTerminates(g, w, h);
      NormalizeCount(Clear(s, m), w, h);
    }
  }

  /** A board that is already normal is left as it is, with no event. */
  lemma NormalizeIdempotent(g: Grid, w: int, h: int)
    requires IsGrid(g, w, h)
    ensures Normalize(Normalize(g, w, h).final, w, h).final == Normalize(g, w, h).final
    ensures Normalize(Normalize(g, w, h).final, w, h).events == []
  {
    var f := Normalize(g, w, h).final;
    NormalizeStable(g, w, h);
    NormalizeNormal(f, w, h);
  }

  /** On a board where nothing falls and nothing matches, the loop does one
      pass and stops. */
  lemma NormalizeNormal(f: Grid, w: int, h: int)
    requires IsGrid(f, w, h) && Falling(f, {}, w, h) == [] && Matches(f, w, h) == {}
    ensures Normalize(f, w, h) == Run(f, [], false, f)
  {
    assert Settle(f, {}, w, h) == f;
    assert SettleMoves(f, {}, w, h) == [];
    assert MovedEvents([]) == [];
  }
}
