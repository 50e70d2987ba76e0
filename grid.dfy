/** The board's cell values, coordinates and the value-level view of a grid
    that the rest of the model states its contracts over. */
module Grid {

  /** A board cell: empty, or a tile of some kind. The enum's own member
      list is not part of this model; kinds are numbered. */
  datatype ElementType = None | Tile(kind: nat)

  /** Vector2Int: an integer coordinate pair (also used for directions). */
  datatype Pos = Pos(x: int, y: int)

  /** One tile's positional change in one visual step. */
  datatype Move = Move(from: Pos, to: Pos)

  function Add(p: Pos, d: Pos): Pos
  {
    Pos(p.x + d.x, p.y + d.y)
  }

  /** The members of a sequence of cells, as a set. */
  function Elems(s: seq<Pos>): set<Pos>
  {
    set p | p in s
  }

  /** A prefix one longer is the prefix and the next element. */
  lemma PrefixSnoc<T>(s: seq<T>, k: int)
    requires 0 <= k < |s|
    ensures s[..k + 1] == s[..k] + [s[k]] && s[..k + 1][..k] == s[..k]
  {
  }

  lemma ConcatAssoc<T>(a: seq<T>, b: seq<T>, c: seq<T>)
    ensures (a + b) + c == a + (b + c)
  {
  }

  /** No cell occurs twice. */
  predicate Distinct(s: seq<Pos>)
  {
    forall i, j | 0 <= i < j < |s| :: s[i] != s[j]
  }

  /** A grid as a value: column-major, `g[x][y]`, like the C# `elements[x, y]`. */
  type Grid = seq<seq<ElementType>>

  predicate IsGrid(g: Grid, w: int, h: int)
  {
    |g| == w && forall x | 0 <= x < |g| :: |g[x]| == h
  }

  /** p lies in the w-by-h rectangle: it is one of its Cells. */
  predicate Inside(p: Pos, w: int, h: int)
    ensures Inside(p, w, h) <==> p in Cells(w, h)
  {
    var inside := 0 <= p.x < w && 0 <= p.y < h;
    assert inside ==> Pos(p.x, p.y) in Cells(w, h);
    inside
  }

  /** All coordinates of a w-by-h rectangle. */
  ghost function Cells(w: int, h: int): set<Pos>
  {
    set x: int, y: int | 0 <= x < w && 0 <= y < h :: Pos(x, y)
  }

  /** The cell at `p`, or `None` where the grid has no such cell. */
  function Get(g: Grid, p: Pos): ElementType
  {
    if 0 <= p.x < |g| && 0 <= p.y < |g[p.x]| then g[p.x][p.y] else None
  }

  function Set(g: Grid, p: Pos, v: ElementType): (r: Grid)
    requires 0 <= p.x < |g| && 0 <= p.y < |g[p.x]|
    ensures |r| == |g| && forall x | 0 <= x < |g| :: |r[x]| == |g[x]|
    ensures Get(r, p) == v
    ensures forall q | q != p :: Get(r, q) == Get(g, q)
  {
    g[p.x := g[p.x][p.y := v]]
  }

  /** The value of an `array2` of cells. */
  ghost function Snapshot(a: array2<ElementType>): (g: Grid)
    reads a
    ensures IsGrid(g, a.Length0, a.Length1)
    ensures forall x, y | 0 <= x < a.Length0 && 0 <= y < a.Length1 :: g[x][y] == a[x, y]
  {
    seq(a.Length0, x reads a requires 0 <= x < a.Length0 =>
      seq(a.Length1, y reads a requires 0 <= y < a.Length1 => a[x, y]))
  }

  /** Two grids of the same shape that agree on every cell are equal. */
  lemma {:induction false} GridExt(g: Grid, g': Grid)
    requires |g| == |g'| && forall x | 0 <= x < |g| :: |g[x]| == |g'[x]|
    requires forall x, y | 0 <= x < |g| && 0 <= y < |g[x]| :: g[x][y] == g'[x][y]
    ensures g == g'
  {
    forall x | 0 <= x < |g|
      ensures g[x] == g'[x]
    {
      assert forall y | 0 <= y < |g[x]| :: g[x][y] == g'[x][y];
    }
  }

  /** Writes one cell of an array; its snapshot changes as Set says. */
  method SetCell(a: array2<ElementType>, p: Pos, v: ElementType)
    requires 0 <= p.x < a.Length0 && 0 <= p.y < a.Length1
    modifies a
    ensures Snapshot(a) == Set(old(Snapshot(a)), p, v)
  {
    ghost var prev := Snapshot(a);
    a[p.x, p.y] := v;
    ghost var s := Set(prev, p, v);
    forall x, y | 0 <= x < a.Length0 && 0 <= y < a.Length1
      ensures Snapshot(a)[x][y] == s[x][y]
    {
      assert s[x][y] == Get(s, Pos(x, y));
    }
    GridExt(Snapshot(a), s);
  }

  // ---------------------------------------------------------------------------
  // Tile inventory: the multiset of all cell values, and the number of tiles.

  ghost function Tiles(g: Grid): multiset<ElementType>
  {
    if g == [] then multiset{} else multiset(g[0]) + Tiles(g[1..])
  }

  /** Number of non-empty cells. */
  ghost function TileCount(g: Grid): int
  {
    |Tiles(g)| - Tiles(g)[None]
  }

  lemma {:induction false} TilesSet(g: Grid, p: Pos, v: ElementType)
    requires 0 <= p.x < |g| && 0 <= p.y < |g[p.x]|
    ensures Tiles(Set(g, p, v)) == Tiles(g) - multiset{g[p.x][p.y]} + multiset{v}
  {
    var g' := Set(g, p, v);
    var a := g[p.x][p.y];
    if p.x == 0 {
      assert g'[1..] == g[1..];
      assert g'[0] == g[0][p.y := v];
      assert a in multiset(g[0]);
      assert multiset(g'[0]) == multiset(g[0]) - multiset{a} + multiset{v};
      MultisetSwap(multiset(g[0]), Tiles(g[1..]), a, v);
    } else {
      assert g'[1..] == Set(g[1..], Pos(p.x - 1, p.y), v);
      TilesSet(g[1..], Pos(p.x - 1, p.y), v);
      assert g[1..][p.x - 1][p.y] == a;
      TilesContain(g[1..], Pos(p.x - 1, p.y));
      assert g'[0] == g[0];
      MultisetSwap(Tiles(g[1..]), multiset(g[0]), a, v);
    }
  }

  lemma MultisetSwap<T>(m: multiset<T>, n: multiset<T>, a: T, v: T)
    requires a in m
    ensures (m - multiset{a} + multiset{v}) + n == (m + n) - multiset{a} + multiset{v}
    ensures n + (m - multiset{a} + multiset{v}) == (n + m) - multiset{a} + multiset{v}
  {
    assert forall e :: ((m - multiset{a} + multiset{v}) + n)[e] == ((m + n) - multiset{a} + multiset{v})[e];
  }

  /** Exchanging the values of two cells keeps the inventory. */
  lemma ExchangeKeepsTiles(g: Grid, p: Pos, q: Pos)
    requires 0 <= p.x < |g| && 0 <= p.y < |g[p.x]|
    requires 0 <= q.x < |g| && 0 <= q.y < |g[q.x]|
    ensures Tiles(Set(Set(g, p, g[q.x][q.y]), q, g[p.x][p.y])) == Tiles(g)
  {
    var a, b := g[p.x][p.y], g[q.x][q.y];
    var g1 := Set(g, p, b);
    assert Tiles(g1) == Tiles(g) - multiset{a} + multiset{b} && a in Tiles(g) by {
      TilesSet(g, p, b);
      TilesContain(g, p);
    }
    assert g1[q.x][q.y] == b by {
      assert Get(g1, q) == b;
    }
    assert Tiles(Set(g1, q, a)) == Tiles(g1) - multiset{b} + multiset{a} by {
      TilesSet(g1, q, a);
    }
    MultisetExchange(Tiles(g), a, b);
  }

  lemma MultisetExchange<T>(m: multiset<T>, a: T, b: T)
    requires a in m
    ensures m - multiset{a} + multiset{b} - multiset{b} + multiset{a} == m
  {
  }

  /** Emptying a tile removes exactly one tile from the count. */
  lemma ClearTileCount(g: Grid, p: Pos)
    requires 0 <= p.x < |g| && 0 <= p.y < |g[p.x]| && g[p.x][p.y] != None
    ensures TileCount(Set(g, p, None)) == TileCount(g) - 1
  {
    TilesSet(g, p, None);
    assert g[p.x][p.y] in multiset(g[p.x]);
    TilesContain(g, p);
  }

  lemma {:induction false} TilesContain(g: Grid, p: Pos)
    requires 0 <= p.x < |g| && 0 <= p.y < |g[p.x]|
    ensures g[p.x][p.y] in Tiles(g)
  {
    if p.x == 0 {
      assert g[0][p.y] in multiset(g[0]);
    } else {
      TilesContain(g[1..], Pos(p.x - 1, p.y));
    }
  }

  /** An all-empty grid holds no tile, and the converse. */
  lemma {:induction false} TileCountZero(g: Grid)
    ensures TileCount(g) == 0 <==> forall x, y | 0 <= x < |g| && 0 <= y < |g[x]| :: g[x][y] == None
  {
    if g != [] {
      TileCountZero(g[1..]);
      var m := multiset(g[0]);
      assert |m| - m[None] == 0 <==> forall y | 0 <= y < |g[0]| :: g[0][y] == None by {
        SeqNoneCount(g[0]);
      }
      assert forall x, y | 1 <= x < |g| && 0 <= y < |g[x]| :: g[x][y] == g[1..][x - 1][y];
    }
  }

  lemma {:induction false} SeqNoneCount(s: seq<ElementType>)
    ensures |multiset(s)| - multiset(s)[None] >= 0
    ensures |multiset(s)| - multiset(s)[None] == 0 <==> forall y | 0 <= y < |s| :: s[y] == None
  {
    if s != [] {
      SeqNoneCount(s[..|s| - 1]);
      assert s == s[..|s| - 1] + [s[|s| - 1]];
      assert multiset(s) == multiset(s[..|s| - 1]) + multiset{s[|s| - 1]};
    }
  }

  // ---------------------------------------------------------------------------
  // Gravity height: the sum of the row indices of all tiles.

  function Weight(e: ElementType, y: int): int
  {
    if e != None then y else 0
  }

  ghost function ColumnHeight(c: seq<ElementType>): int
  {
    if c == [] then 0 else ColumnHeight(c[..|c| - 1]) + Weight(c[|c| - 1], |c| - 1)
  }

  ghost function Height(g: Grid): int
  {
    if g == [] then 0 else ColumnHeight(g[0]) + Height(g[1..])
  }

  lemma {:induction false} ColumnHeightNonNeg(c: seq<ElementType>)
    ensures ColumnHeight(c) >= 0
  {
    if c != [] {
      ColumnHeightNonNeg(c[..|c| - 1]);
    }
  }

  lemma {:induction false} HeightNonNeg(g: Grid)
    ensures Height(g) >= 0
  {
    if g != [] {
      ColumnHeightNonNeg(g[0]);
      HeightNonNeg(g[1..]);
    }
  }

  lemma {:induction false} ColumnHeightSet(c: seq<ElementType>, y: int, v: ElementType)
    requires 0 <= y < |c|
    ensures ColumnHeight(c[y := v]) == ColumnHeight(c) - Weight(c[y], y) + Weight(v, y)
  {
    var c' := c[y := v];
    if y == |c| - 1 {
      assert c'[..|c'| - 1] == c[..|c| - 1];
    } else {
      assert c'[..|c'| - 1] == c[..|c| - 1][y := v];
      ColumnHeightSet(c[..|c| - 1], y, v);
    }
  }

  lemma {:induction false} HeightSet(g: Grid, p: Pos, v: ElementType)
    requires 0 <= p.x < |g| && 0 <= p.y < |g[p.x]|
    ensures Height(Set(g, p, v)) == Height(g) - Weight(g[p.x][p.y], p.y) + Weight(v, p.y)
  {
    var g' := Set(g, p, v);
    if p.x == 0 {
      assert g'[1..] == g[1..];
      ColumnHeightSet(g[0], p.y, v);
    } else {
      assert g'[1..] == Set(g[1..], Pos(p.x - 1, p.y), v);
      HeightSet(g[1..], Pos(p.x - 1, p.y), v);
    }
  }
}
