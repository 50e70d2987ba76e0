/** GravityService: repeated passes that drop every unblocked tile one row. */
module Gravity {
  import opened Grid

  function Below(p: Pos): Pos
  {
    Pos(p.x, p.y - 1)
  }

  function Above(p: Pos): Pos
  {
    Pos(p.x, p.y + 1)
  }

  /** The grid holds the `w`-by-`h` board the pass scans. */
  predicate Fits(g: Grid, w: int, h: int)
  {
    0 <= w <= |g| && forall x | 0 <= x < w :: h <= |g[x]|
  }

  /** A fall candidate: a tile in rows 1 .. h-1 over an empty cell, neither
      of the two cells busy. */
  predicate Falls(g: Grid, busy: set<Pos>, w: int, h: int, p: Pos)
  {
    && 0 <= p.x < w && 1 <= p.y < h
    && Get(g, p) != None && Get(g, Below(p)) == None
    && p !in busy && Below(p) !in busy
  }

  /** The candidates of row `y` left of column `x`, left to right. */
  function RowFalling(g: Grid, busy: set<Pos>, w: int, h: int, y: int, x: int): seq<Pos>
    decreases x
  {
    if x <= 0 then []
    else RowFalling(g, busy, w, h, y, x - 1) + (if Falls(g, busy, w, h, Pos(x - 1, y)) then [Pos(x - 1, y)] else [])
  }

  /** The candidates of rows 1 .. y-1, in scan order (row by row, bottom up). */
  function FallingRows(g: Grid, busy: set<Pos>, w: int, h: int, y: int): seq<Pos>
    decreases y
  {
    if y <= 1 then [] else FallingRows(g, busy, w, h, y - 1) + RowFalling(g, busy, w, h, y - 1, w)
  }

  /** The `falling` list of one pass. */
  function Falling(g: Grid, busy: set<Pos>, w: int, h: int): seq<Pos>
  {
    FallingRows(g, busy, w, h, h)
  }

  /** One gravity move: the kind at `p` is copied below and `p` is emptied. */
  function Drop(g: Grid, p: Pos): (r: Grid)
    requires 0 <= p.x < |g| && 1 <= p.y < |g[p.x]|
    ensures |r| == |g| && forall x | 0 <= x < |g| :: |r[x]| == |g[x]|
  {
    Set(Set(g, Below(p), g[p.x][p.y]), p, None)
  }

  /** The moves of `F`, applied one after the other. */
  function ApplyMoves(g: Grid, F: seq<Pos>): (r: Grid)
    requires forall i | 0 <= i < |F| :: 0 <= F[i].x < |g| && 1 <= F[i].y < |g[F[i].x]|
    ensures |r| == |g| && forall x | 0 <= x < |g| :: |r[x]| == |g[x]|
    decreases |F|
  {
    if F == [] then g else Drop(ApplyMoves(g, F[..|F| - 1]), F[|F| - 1])
  }

  /** The moves one pass reports, each from a candidate to the cell below it. */
  function MovesOf(F: seq<Pos>): (m: seq<Move>)
    ensures |m| == |F| && forall i | 0 <= i < |F| :: m[i] == Move(F[i], Below(F[i]))
  {
    seq(|F|, i requires 0 <= i < |F| => Move(F[i], Below(F[i])))
  }

  /** The cell `p` once every tile of `S` has fallen one row at the same time. */
  function Shifted(g: Grid, S: set<Pos>, p: Pos): ElementType
  {
    if p in S then None else if Above(p) in S then Get(g, Above(p)) else Get(g, p)
  }

  /** The cell `p` once every candidate of `g` has fallen at the same time:
      a candidate is emptied, and the cell under one receives its kind. */
  function Fallen(g: Grid, busy: set<Pos>, w: int, h: int, p: Pos): ElementType
  {
    if Falls(g, busy, w, h, p) then None
    else if Falls(g, busy, w, h, Above(p)) then Get(g, Above(p))
    else Get(g, p)
  }

  // ---------------------------------------------------------------------------
  // The candidate list.

  lemma {:induction false} RowFallingSpec(g: Grid, busy: set<Pos>, w: int, h: int, y: int, x: int)
    ensures forall q :: q in RowFalling(g, busy, w, h, y, x) <==> q.y == y && q.x < x && Falls(g, busy, w, h, q)
    ensures Distinct(RowFalling(g, busy, w, h, y, x))
    decreases x
  {
    if x > 0 {
      RowFallingSpec(g, busy, w, h, y, x - 1);
    }
  }

  lemma {:induction false} FallingRowsSpec(g: Grid, busy: set<Pos>, w: int, h: int, y: int)
    ensures forall q :: q in FallingRows(g, busy, w, h, y) <==> q.y < y && Falls(g, busy, w, h, q)
    ensures Distinct(FallingRows(g, busy, w, h, y))
    decreases y
  {
    if y > 1 {
      FallingRowsSpec(g, busy, w, h, y - 1);
      RowFallingSpec(g, busy, w, h, y - 1, w);
      var A, B := FallingRows(g, busy, w, h, y - 1), RowFalling(g, busy, w, h, y - 1, w);
      assert forall i, j | 0 <= i < |A| && 0 <= j < |B| :: A[i] != B[j] by {
        forall i, j | 0 <= i < |A| && 0 <= j < |B|
          ensures A[i] != B[j]
        {
          assert A[i] in A && B[j] in B;
        }
      }
      DistinctConcat(A, B);
    }
  }

  lemma DistinctConcat(A: seq<Pos>, B: seq<Pos>)
    requires Distinct(A) && Distinct(B)
    requires forall i, j | 0 <= i < |A| && 0 <= j < |B| :: A[i] != B[j]
    ensures Distinct(A + B)
  {
    forall i, j | 0 <= i < j < |A + B|
      ensures (A + B)[i] != (A + B)[j]
    {
      if j < |A| {
      } else if i >= |A| {
        assert (A + B)[i] == B[i - |A|] && (A + B)[j] == B[j - |A|];
      } else {
        assert (A + B)[j] == B[j - |A|];
      }
    }
  }

  /** The candidates of a pass are exactly the cells that satisfy `Falls`,
      each listed once. */
  lemma FallingSpec(g: Grid, busy: set<Pos>, w: int, h: int)
    ensures forall q :: q in Falling(g, busy, w, h) <==> Falls(g, busy, w, h, q)
    ensures Distinct(Falling(g, busy, w, h))
  {
    FallingRowsSpec(g, busy, w, h, h);
  }

  // ---------------------------------------------------------------------------
  // One pass.

  /** A move of a tile onto an empty cell keeps the tiles and lowers the height by one. */
  lemma DropFacts(g: Grid, q: Pos)
    requires 0 <= q.x < |g| && 1 <= q.y < |g[q.x]|
    requires g[q.x][q.y] != None && Get(g, Below(q)) == None
    ensures Tiles(Drop(g, q)) == Tiles(g)
    ensures Height(Drop(g, q)) == Height(g) - 1
  {
    var t := g[q.x][q.y];
    var b := Below(q);
    var g1 := Set(g, b, t);
    assert g[b.x][b.y] == None;
    ExchangeKeepsTiles(g, b, q);
    HeightSet(g, b, t);
    assert g1[q.x][q.y] == Get(g1, q) == t;
    HeightSet(g1, q, None);
  }

  /** Applying the candidates one after the other equals letting them all
      fall at once; each move keeps the tile inventory and lowers the height
      by one. */
  lemma {:induction false} ApplyMovesSpec(g: Grid, busy: set<Pos>, w: int, h: int, F: seq<Pos>)
    requires Fits(g, w, h)
    requires forall q | q in F :: Falls(g, busy, w, h, q)
    requires Distinct(F)
    ensures forall i | 0 <= i < |F| :: 0 <= F[i].x < |g| && 1 <= F[i].y < |g[F[i].x]|
    ensures forall p :: Get(ApplyMoves(g, F), p) == Shifted(g, Elems(F), p)
    ensures Tiles(ApplyMoves(g, F)) == Tiles(g)
    ensures Height(ApplyMoves(g, F)) == Height(g) - |F|
    decreases |F|
  {
    assert forall i | 0 <= i < |F| :: F[i] in F;
    if F != [] {
      var F', q := F[..|F| - 1], F[|F| - 1];
      LastFresh(g, busy, w, h, F);
      ApplyMovesSpec(g, busy, w, h, F');
      var r0 := ApplyMoves(g, F');
      ShiftStep(g, r0, Elems(F'), q);
      DropFacts(r0, q);
    }
  }

  /** The last candidate of a list is new, and neither the cell above nor the
      cell below it is an earlier candidate. */
  lemma LastFresh(g: Grid, busy: set<Pos>, w: int, h: int, F: seq<Pos>)
    requires F != [] && Distinct(F)
    requires forall q | q in F :: Falls(g, busy, w, h, q)
    ensures Distinct(F[..|F| - 1]) && forall q | q in F[..|F| - 1] :: Falls(g, busy, w, h, q)
    ensures Elems(F) == Elems(F[..|F| - 1]) + {F[|F| - 1]}
    ensures Falls(g, busy, w, h, F[|F| - 1])
    ensures F[|F| - 1] !in Elems(F[..|F| - 1])
    ensures Above(F[|F| - 1]) !in Elems(F[..|F| - 1]) && Below(F[|F| - 1]) !in Elems(F[..|F| - 1])
  {
    var F', q := F[..|F| - 1], F[|F| - 1];
    assert F == F' + [q];
    assert forall r | r in F' :: r in F;
    assert Falls(g, busy, w, h, q);
    assert Below(Above(q)) == q;
    assert Above(q) !in F';
    assert Below(q) !in F';
  }

  lemma ShiftStep(g: Grid, r0: Grid, S': set<Pos>, q: Pos)
    requires 0 <= q.x < |r0| && 1 <= q.y < |r0[q.x]|
    requires forall p :: Get(r0, p) == Shifted(g, S', p)
    requires q !in S' && Above(q) !in S' && Below(q) !in S'
    requires Get(g, q) != None && Get(g, Below(q)) == None
    ensures r0[q.x][q.y] != None && Get(r0, Below(q)) == None
    ensures forall p :: Get(Drop(r0, q), p) == Shifted(g, S' + {q}, p)
  {
    assert Above(Below(q)) == q;
    assert Get(r0, q) == Get(g, q);
    forall p
      ensures Get(Drop(r0, q), p) == Shifted(g, S' + {q}, p)
    {
      if p != q && p != Below(q) {
        assert Above(p) != q;
      }
    }
  }

  /** One pass: every candidate of the scan moves down one row. */
  function Pass(g: Grid, busy: set<Pos>, w: int, h: int): (r: Grid)
    requires Fits(g, w, h)
    ensures |r| == |g| && forall x | 0 <= x < |g| :: |r[x]| == |g[x]|
  {
    FallingSpec(g, busy, w, h);
    ApplyMovesSpec(g, busy, w, h, Falling(g, busy, w, h));
    ApplyMoves(g, Falling(g, busy, w, h))
  }

  /** After a pass a candidate's cell is empty and the cell below it holds
      its kind; every other cell is unchanged. The pass keeps the tiles and
      lowers the height by the number of candidates. */
  lemma PassSpec(g: Grid, busy: set<Pos>, w: int, h: int)
    requires Fits(g, w, h)
    ensures forall p :: Get(Pass(g, busy, w, h), p) == Fallen(g, busy, w, h, p)
    ensures Tiles(Pass(g, busy, w, h)) == Tiles(g)
    ensures Height(Pass(g, busy, w, h)) == Height(g) - |Falling(g, busy, w, h)|
  {
    var F := Falling(g, busy, w, h);
    FallingSpec(g, busy, w, h);
    ApplyMovesSpec(g, busy, w, h, F);
    assert forall q :: q in Elems(F) <==> Falls(g, busy, w, h, q);
  }

  /** Every listed candidate satisfies `Falls`. */
  lemma FallingListed(g: Grid, busy: set<Pos>, w: int, h: int)
    ensures forall i | 0 <= i < |Falling(g, busy, w, h)| :: Falls(g, busy, w, h, Falling(g, busy, w, h)[i])
  {
    FallingSpec(g, busy, w, h);
    var F := Falling(g, busy, w, h);
    assert forall i | 0 <= i < |F| :: F[i] in F;
  }

  /** A pass that moves anything lowers the height. */
  lemma PassLowers(g: Grid, busy: set<Pos>, w: int, h: int)
    requires Fits(g, w, h) && Falling(g, busy, w, h) != []
    ensures Height(Pass(g, busy, w, h)) < Height(g)
  {
    PassSpec(g, busy, w, h);
  }

  /** A pass moves no tile into or out of a busy cell, and none outside the
      scanned rectangle. */
  lemma PassKeepsBusy(g: Grid, busy: set<Pos>, w: int, h: int, p: Pos)
    requires Fits(g, w, h)
    requires p in busy || !Inside(p, w, h)
    ensures Get(Pass(g, busy, w, h), p) == Get(g, p)
  {
    PassSpec(g, busy, w, h);
    assert Below(Above(p)) == p;
  }

  // ---------------------------------------------------------------------------
  // Passes repeated until nothing falls.

  ghost function Settle(g: Grid, busy: set<Pos>, w: int, h: int): (r: Grid)
    requires Fits(g, w, h)
    ensures |r| == |g| && forall x | 0 <= x < |g| :: |r[x]| == |g[x]|
    decreases Height(g)
  {
    if Falling(g, busy, w, h) == [] then g
    else
      PassSpec(g, busy, w, h);
      HeightNonNeg(g);
      Settle(Pass(g, busy, w, h), busy, w, h)
  }

  /** The move batches the passes report, one per pass. */
  ghost function SettleMoves(g: Grid, busy: set<Pos>, w: int, h: int): seq<seq<Move>>
    requires Fits(g, w, h)
    decreases Height(g)
  {
    if Falling(g, busy, w, h) == [] then []
    else
      PassSpec(g, busy, w, h);
      HeightNonNeg(g);
      [MovesOf(Falling(g, busy, w, h))] + SettleMoves(Pass(g, busy, w, h), busy, w, h)
  }

  /** Gravity keeps every tile, leaves busy cells and cells outside the
      board alone, and never raises the height. */
  lemma {:induction false} SettleKeeps(g: Grid, busy: set<Pos>, w: int, h: int)
    requires Fits(g, w, h)
    ensures Tiles(Settle(g, busy, w, h)) == Tiles(g)
    ensures forall p | p in busy || !Inside(p, w, h) :: Get(Settle(g, busy, w, h), p) == Get(g, p)
    ensures Height(Settle(g, busy, w, h)) <= Height(g)
    decreases Height(g)
  {
    if Falling(g, busy, w, h) != [] {
      PassSpec(g, busy, w, h);
      HeightNonNeg(g);
      var g' := Pass(g, busy, w, h);
      SettleKeeps(g', busy, w, h);
      forall p | p in busy || !Inside(p, w, h)
        ensures Get(g', p) == Get(g, p)
      {
        PassKeepsBusy(g, busy, w, h, p);
      }
    }
  }

  /** When gravity stops, no cell is a fall candidate. */
  lemma {:induction false} SettleStable(g: Grid, busy: set<Pos>, w: int, h: int)
    requires Fits(g, w, h)
    ensures Falling(Settle(g, busy, w, h), busy, w, h) == []
    ensures forall p :: !Falls(Settle(g, busy, w, h), busy, w, h, p)
    decreases Height(g)
  {
    if Falling(g, busy, w, h) != [] {
      PassSpec(g, busy, w, h);
      HeightNonNeg(g);
      SettleStable(Pass(g, busy, w, h), busy, w, h);
    } else {
      FallingSpec(g, busy, w, h);
    }
  }

  /** Gravity changes the grid exactly when some tile can fall. */
  lemma SettleChanges(g: Grid, busy: set<Pos>, w: int, h: int)
    requires Fits(g, w, h)
    ensures Settle(g, busy, w, h) == g <==> Falling(g, busy, w, h) == []
  {
    if Falling(g, busy, w, h) != [] {
      PassSpec(g, busy, w, h);
      SettleKeeps(Pass(g, busy, w, h), busy, w, h);
    }
  }

  /** Running gravity a second time changes nothing. */
  lemma SettleIdempotent(g: Grid, busy: set<Pos>, w: int, h: int)
    requires Fits(g, w, h)
    ensures Settle(Settle(g, busy, w, h), busy, w, h) == Settle(g, busy, w, h)
    ensures SettleMoves(Settle(g, busy, w, h), busy, w, h) == []
  {
    SettleStable(g, busy, w, h);
  }

  /** With no busy cell, no tile is left above an empty cell: every column
      of the board is a stack of tiles resting on its bottom row. */
  lemma SettleCompact(g: Grid, w: int, h: int, x: int, y1: int, y2: int)
    requires Fits(g, w, h)
    requires 0 <= x < w && 0 <= y1 <= y2 < h
    requires Get(Settle(g, {}, w, h), Pos(x, y2)) != None
    ensures Get(Settle(g, {}, w, h), Pos(x, y1)) != None
  {
    var r := Settle(g, {}, w, h);
    SettleStable(g, {}, w, h);
    var y := y2;
    while y > y1
      invariant y1 <= y <= y2 && Get(r, Pos(x, y)) != None
    {
      assert !Falls(r, {}, w, h, Pos(x, y));
      y := y - 1;
    }
  }

  /** A busy cell with a tile over an empty cell: the C# loop waits for it. */
  predicate Pending(g: Grid, busy: set<Pos>)
  {
    exists p | p in busy :: p.y > 0 && Get(g, p) != None && Get(g, Below(p)) == None
  }

  /** Every cell a batch of moves touches. */
  function Ends(ms: seq<Move>): set<Pos>
    decreases |ms|
  {
    if ms == [] then {} else Ends(ms[..|ms| - 1]) + {ms[|ms| - 1].from, ms[|ms| - 1].to}
  }

  lemma {:induction false} EndsContain(ms: seq<Move>, k: int)
    requires 0 <= k < |ms|
    ensures ms[k].from in Ends(ms) && ms[k].to in Ends(ms)
    decreases |ms|
  {
    if k < |ms| - 1 {
      EndsContain(ms[..|ms| - 1], k);
    }
  }

  // ---------------------------------------------------------------------------
  // The service.

  /** The candidate scan of one pass, row 1 upwards, left to right. */
  method FindFalling(a: array2<ElementType>, width: int, height: int, busy: set<Pos>) returns (falling: seq<Pos>)
    requires 0 <= width <= a.Length0 && 0 <= height <= a.Length1
    ensures falling == Falling(Snapshot(a), busy, width, height)
  {
    ghost var g := Snapshot(a);
    falling := [];
    var y := 1;
    while y < height
      invariant y == 1 || y <= height
      invariant falling == FallingRows(g, busy, width, height, y)
    {
      var row := ScanRow(a, width, height, busy, y);
      falling := falling + row;
      y := y + 1;
    }
  }

  /** The inner loop of the candidate scan: row `y`, left to right. */
  method ScanRow(a: array2<ElementType>, width: int, height: int, busy: set<Pos>, y: int) returns (row: seq<Pos>)
    requires 0 <= width <= a.Length0 && 0 <= height <= a.Length1 && 1 <= y < height
    ensures row == RowFalling(Snapshot(a), busy, width, height, y, width)
  {
    ghost var g := Snapshot(a);
    row := [];
    for x := 0 to width
      invariant row == RowFalling(g, busy, width, height, y, x)
    {
      assert Falls(g, busy, width, height, Pos(x, y))
        <==> a[x, y] != None && a[x, y - 1] == None && Pos(x, y) !in busy && Pos(x, y - 1) !in busy
      by {
        assert g[x][y] == a[x, y] && g[x][y - 1] == a[x, y - 1];
      }
      if a[x, y] != None && a[x, y - 1] == None && Pos(x, y) !in busy && Pos(x, y - 1) !in busy {
        row := row + [Pos(x, y)];
      }
    }
  }

  /** Copies the kind at `pos` to the cell below and empties `pos`. */
  method MoveDown(a: array2<ElementType>, pos: Pos)
    requires 0 <= pos.x < a.Length0 && 1 <= pos.y < a.Length1
    modifies a
    ensures Snapshot(a) == Drop(old(Snapshot(a)), pos)
  {
    ghost var prev := Snapshot(a);
    var below := Below(pos);
    a[below.x, below.y] := a[pos.x, pos.y];
    a[pos.x, pos.y] := None;
    ghost var d := Drop(prev, pos);
    forall x, y | 0 <= x < a.Length0 && 0 <= y < a.Length1
      ensures Snapshot(a)[x][y] == d[x][y]
    {
      assert d[x][y] == Get(d, Pos(x, y));
    }
    GridExt(Snapshot(a), d);
  }

  lemma MovesOfSnoc(F: seq<Pos>, q: Pos)
    ensures MovesOf(F + [q]) == MovesOf(F) + [Move(q, Below(q))]
  {
    assert forall i | 0 <= i < |F| :: (F + [q])[i] == F[i];
  }

  /** Moves every candidate down one row, marking both of its cells busy
      for the duration of the animation. */
  method DropAll(a: array2<ElementType>, width: int, height: int, falling: seq<Pos>, busy: set<Pos>)
    returns (busyDuring: set<Pos>, moves: seq<Move>)
    requires 0 <= width <= a.Length0 && 0 <= height <= a.Length1
    requires falling == Falling(Snapshot(a), busy, width, height)
    modifies a
    ensures Snapshot(a) == Pass(old(Snapshot(a)), busy, width, height)
    ensures moves == MovesOf(falling)
    ensures busyDuring == busy + Ends(moves) && busy !! Ends(moves)
  {
    ghost var g := Snapshot(a);
    FallingListed(g, busy, width, height);
    busyDuring := busy;
    moves := [];
    for k := 0 to |falling|
      invariant Snapshot(a) == ApplyMoves(g, falling[..k])
      invariant moves == MovesOf(falling[..k])
      invariant busyDuring == busy + Ends(moves)
      invariant busy !! Ends(moves)
    {
      var pos := falling[k];
      PrefixSnoc(falling, k);
      var below := Below(pos);
      MoveDown(a, pos);
      busyDuring := busyDuring + {pos} + {below};
      MovesOfSnoc(falling[..k], pos);
      moves := moves + [Move(pos, below)];
    }
    assert falling[..|falling|] == falling;
  }

  /** The `finally` block: releases both cells of every move. Since none of
      them was busy before the pass, the busy set is restored. */
  method Release(busyDuring: set<Pos>, moves: seq<Move>, ghost busy: set<Pos>) returns (busyAfter: set<Pos>)
    requires busyDuring == busy + Ends(moves) && busy !! Ends(moves)
    ensures busyAfter == busy
  {
    busyAfter := busyDuring;
    for k := 0 to |moves|
      invariant busyAfter == busy + (Ends(moves) - Ends(moves[..k]))
    {
      assert moves[..k + 1][..k] == moves[..k];
      EndsContain(moves, k);
      busyAfter := busyAfter - {moves[k].from} - {moves[k].to};
    }
    assert moves[..|moves|] == moves;
  }

  /** The polling test: some busy cell holds a tile over an empty cell. */
  method AnyPending(a: array2<ElementType>, busy: set<Pos>) returns (r: bool)
    requires forall p | p in busy :: 0 <= p.x < a.Length0 && 0 <= p.y < a.Length1
    ensures r == Pending(Snapshot(a), busy)
  {
    ghost var g := Snapshot(a);
    assert forall p | p in busy :: Get(g, p) == a[p.x, p.y] && (p.y > 0 ==> Get(g, Below(p)) == a[p.x, p.y - 1]);
    r := exists p | p in busy :: p.y > 0 && a[p.x, p.y] != None && a[p.x, p.y - 1] == None;
  }

  /** What ApplyGravityAsync's loop keeps, from the grid `g0` it started
      with to the current grid `g`: the same final grid, the batches reported
      so far followed by the ones still to come, and `changed` exactly when a
      move was made. */
  ghost predicate Progress(g0: Grid, g: Grid, busy: set<Pos>, w: int, h: int, batches: seq<seq<Move>>, changed: bool)
  {
    && Fits(g0, w, h) && Fits(g, w, h)
    && Settle(g, busy, w, h) == Settle(g0, busy, w, h)
    && batches + SettleMoves(g, busy, w, h) == SettleMoves(g0, busy, w, h)
    && (changed ==> Height(g) < Height(g0))
    && (!changed ==> g == g0)
  }

  /** One round of the loop keeps Progress. */
  lemma ProgressStep(g0: Grid, g: Grid, g': Grid, busy: set<Pos>, w: int, h: int,
                     batches: seq<seq<Move>>, changed: bool, moved: bool, moves: seq<Move>)
    requires Progress(g0, g, busy, w, h, batches, changed) && Fits(g', w, h)
    requires !moved ==> g' == g
    requires moved ==> Height(g') < Height(g)
    requires Settle(g', busy, w, h) == Settle(g, busy, w, h)
    requires (if moved then [moves] else []) + SettleMoves(g', busy, w, h) == SettleMoves(g, busy, w, h)
    ensures Progress(g0, g', busy, w, h, if moved then batches + [moves] else batches, changed || moved)
  {
    var rest := SettleMoves(g', busy, w, h);
    if moved {
      ConcatAssoc(batches, [moves], rest);
    } else {
      assert [] + rest == rest;
    }
  }

  lemma ProgressStart(g0: Grid, busy: set<Pos>, w: int, h: int)
    requires Fits(g0, w, h)
    ensures Progress(g0, g0, busy, w, h, [], false)
  {
    assert [] + SettleMoves(g0, busy, w, h) == SettleMoves(g0, busy, w, h);
  }

  /** When the loop stops nothing falls, so the current grid is the settled
      one and every batch has been reported. */
  lemma ProgressDone(g0: Grid, g: Grid, busy: set<Pos>, w: int, h: int, batches: seq<seq<Move>>, changed: bool)
    requires Progress(g0, g, busy, w, h, batches, changed) && Falling(g, busy, w, h) == []
    ensures g == Settle(g0, busy, w, h) && batches == SettleMoves(g0, busy, w, h)
    ensures changed <==> g != g0
  {
    assert batches + [] == batches;
  }

  /** One round of ApplyGravityAsync's loop: find the candidates, drop them
      all and release their cells; or, when there is none, report whether a
      busy tile still waits over an empty cell. `g0`, `batches` and `changed`
      are the loop's, before this round. */
  method GravityPass(a: array2<ElementType>, width: int, height: int, busy: set<Pos>,
                     ghost g0: Grid, ghost batches: seq<seq<Move>>, ghost changed: bool)
    returns (moved: bool, pending: bool, busyAfter: set<Pos>, moves: seq<Move>)
    requires 0 <= width <= a.Length0 && 0 <= height <= a.Length1
    requires forall p | p in busy :: 0 <= p.x < a.Length0 && 0 <= p.y < a.Length1
    requires Progress(g0, Snapshot(a), busy, width, height, batches, changed)
    modifies a
    ensures busyAfter == busy
    ensures !moved ==> Falling(Snapshot(a), busy, width, height) == []
    ensures !moved ==> (pending <==> Pending(Snapshot(a), busy))
    ensures moved ==> Height(Snapshot(a)) < Height(old(Snapshot(a)))
    ensures Progress(g0, Snapshot(a), busy, width, height, if moved then batches + [moves] else batches, changed || moved)
  {
    ghost var g := Snapshot(a);
    busyAfter, moves, pending := busy, [], false;
    var falling := FindFalling(a, width, height, busy);
    moved := |falling| > 0;
    if moved {
      var busyDuring;
      busyDuring, moves := DropAll(a, width, height, falling, busy);
      busyAfter := Release(busyDuring, moves, busy);
      PassLowers(g, busy, width, height);
    } else {
      pending := AnyPending(a, busy);
    }
    ProgressStep(g0, g, Snapshot(a), busy, width, height, batches, changed, moved, moves);
  }

  /** ApplyGravityAsync: passes until no tile can fall. Returns whether any
      tile moved, whether a busy tile still waits over an empty cell (where
      the C# waits 50 ms and retries), the busy set as it was, and the
      batches of moves it reported. */
  method ApplyGravity(a: array2<ElementType>, width: int, height: int, busy: set<Pos>)
    returns (changed: bool, pending: bool, busyAfter: set<Pos>, batches: seq<seq<Move>>)
    requires 0 <= width <= a.Length0 && 0 <= height <= a.Length1
    requires forall p | p in busy :: 0 <= p.x < a.Length0 && 0 <= p.y < a.Length1
    modifies a
    ensures Snapshot(a) == Settle(old(Snapshot(a)), busy, width, height)
    ensures batches == SettleMoves(old(Snapshot(a)), busy, width, height)
    ensures changed <==> Snapshot(a) != old(Snapshot(a))
    ensures busyAfter == busy
    ensures pending <==> Pending(Snapshot(a), busy)
  {
    ghost var g0 := Snapshot(a);
    changed, pending := false, false;
    busyAfter := busy;
    batches := [];
    ProgressStart(g0, busy, width, height);
    var gravityChanged := true;
    while gravityChanged
      invariant busyAfter == busy
      invariant Progress(g0, Snapshot(a), busy, width, height, batches, changed)
      invariant !gravityChanged ==> Falling(Snapshot(a), busy, width, height) == []
      invariant !gravityChanged ==> (pending <==> Pending(Snapshot(a), busy))
      decreases Height(Snapshot(a)) + if gravityChanged then 1 else 0
    {
      var moved, p, b, moves := GravityPass(a, width, height, busyAfter, g0, batches, changed);
      batches := if moved then batches + [moves] else batches;
      changed := changed || moved;
      busyAfter, pending := b, p;
      gravityChanged := moved;
      HeightNonNeg(Snapshot(a));
    }
    ProgressDone(g0, Snapshot(a), busy, width, height, batches, changed);
  }
}
