/** MatchFinder: finds every 4-connected same-kind region that contains a
    straight run of at least three cells; such regions are destroyed whole. */
module MatchFinder {
  import opened Grid

  // ---------------------------------------------------------------------------
  // Specification: regions (connected components) and straight runs.

  /** The four neighbours of a cell, in the order up, down, left, right. */
  function Neighbours(p: Pos): seq<Pos>
  {
    [Pos(p.x, p.y + 1), Pos(p.x, p.y - 1), Pos(p.x - 1, p.y), Pos(p.x + 1, p.y)]
  }

  /** A walk through in-grid cells of one kind, each step to a neighbour. */
  ghost predicate IsPath(g: Grid, w: int, h: int, path: seq<Pos>)
  {
    && |path| > 0
    && (forall i | 0 <= i < |path| :: Inside(path[i], w, h) && Get(g, path[i]) == Get(g, path[0]))
    && (forall i | 0 <= i < |path| - 1 :: path[i + 1] in Neighbours(path[i]))
  }

  ghost predicate Reachable(g: Grid, w: int, h: int, s: Pos, t: Pos)
  {
    exists path :: IsPath(g, w, h, path) && path[0] == s && path[|path| - 1] == t
  }

  /** The region of `s`: every cell reachable from it through same-kind neighbours. */
  ghost function Component(g: Grid, w: int, h: int, s: Pos): (c: set<Pos>)
    ensures forall t | t in c :: Inside(t, w, h)
  {
    set t | t in Cells(w, h) && Reachable(g, w, h, s, t)
  }

  /** Every same-kind in-grid neighbour of `p` is in `V`. */
  ghost predicate ClosedAt(g: Grid, w: int, h: int, k: ElementType, V: set<Pos>, p: Pos)
  {
    forall q | q in Neighbours(p) :: Inside(q, w, h) && Get(g, q) == k ==> q in V
  }

  datatype Dir = Right | Left | Up | Down

  /** The cell `k` steps from `p` in direction `d`. */
  function Step(p: Pos, d: Dir, k: int): Pos
  {
    match d
    case Right => Pos(p.x + k, p.y)
    case Left => Pos(p.x - k, p.y)
    case Up => Pos(p.x, p.y + k)
    case Down => Pos(p.x, p.y - k)
  }

  /** How far `q` lies from `p` in direction `d`. */
  function Along(p: Pos, d: Dir, q: Pos): int
  {
    match d
    case Right => q.x - p.x
    case Left => p.x - q.x
    case Up => q.y - p.y
    case Down => p.y - q.y
  }

  /** `p` is one of three consecutive members of `S` on the axis through
      `p` that runs from direction `e` to direction `d`. */
  predicate Run3(S: set<Pos>, p: Pos, d: Dir, e: Dir)
  {
    || (Step(p, e, 2) in S && Step(p, e, 1) in S)
    || (Step(p, e, 1) in S && Step(p, d, 1) in S)
    || (Step(p, d, 1) in S && Step(p, d, 2) in S)
  }

  /** Some member of `S` has three consecutive members along its row or column. */
  ghost predicate HasRun(S: set<Pos>)
  {
    exists p :: p in S && (Run3(S, p, Right, Left) || Run3(S, p, Up, Down))
  }

  /** The cells a match pass destroys: every tile whose region has a run of three. */
  ghost function Matches(g: Grid, w: int, h: int): set<Pos>
  {
    set t | t in Cells(w, h) && Get(g, t) != None && HasRun(Component(g, w, h, t))
  }


  // ---------------------------------------------------------------------------
  // Facts about reachability.

  lemma ReachableSelf(g: Grid, w: int, h: int, s: Pos)
    requires Inside(s, w, h)
    ensures Reachable(g, w, h, s, s)
  {
    assert IsPath(g, w, h, [s]);
  }

  lemma ReachableEnds(g: Grid, w: int, h: int, s: Pos, t: Pos)
    requires Reachable(g, w, h, s, t)
    ensures Inside(s, w, h) && Inside(t, w, h) && Get(g, t) == Get(g, s)
  {
    var path :| IsPath(g, w, h, path) && path[0] == s && path[|path| - 1] == t;
  }

  lemma ReachableStep(g: Grid, w: int, h: int, s: Pos, p: Pos, q: Pos)
    requires Reachable(g, w, h, s, p)
    requires q in Neighbours(p) && Inside(q, w, h) && Get(g, q) == Get(g, s)
    ensures Reachable(g, w, h, s, q)
  {
    var path :| IsPath(g, w, h, path) && path[0] == s && path[|path| - 1] == p;
    var path' := path + [q];
    assert IsPath(g, w, h, path');
  }

  lemma NeighbourSymmetric(p: Pos, q: Pos)
    requires q in Neighbours(p)
    ensures p in Neighbours(q)
  {
  }

  lemma ReachableSymmetric(g: Grid, w: int, h: int, s: Pos, t: Pos)
    requires Reachable(g, w, h, s, t)
    ensures Reachable(g, w, h, t, s)
  {
    var path :| IsPath(g, w, h, path) && path[0] == s && path[|path| - 1] == t;
    var back := Backwards(path);
    BackwardsKinds(g, w, h, path);
    BackwardsSteps(g, w, h, path);
    assert IsPath(g, w, h, back) && back[0] == t && back[|back| - 1] == s;
  }

  /** A sequence read from its end. */
  function Backwards(path: seq<Pos>): (r: seq<Pos>)
    ensures |r| == |path| && forall i | 0 <= i < |path| :: r[i] == path[|path| - 1 - i]
  {
    seq(|path|, i requires 0 <= i < |path| => path[|path| - 1 - i])
  }

  lemma BackwardsKinds(g: Grid, w: int, h: int, path: seq<Pos>)
    requires IsPath(g, w, h, path)
    ensures forall i | 0 <= i < |path| :: Inside(Backwards(path)[i], w, h) && Get(g, Backwards(path)[i]) == Get(g, Backwards(path)[0])
  {
  }

  lemma BackwardsSteps(g: Grid, w: int, h: int, path: seq<Pos>)
    requires IsPath(g, w, h, path)
    ensures forall i | 0 <= i < |path| - 1 :: Backwards(path)[i + 1] in Neighbours(Backwards(path)[i])
  {
    var n := |path|;
    forall i | 0 <= i < n - 1
      ensures Backwards(path)[i + 1] in Neighbours(Backwards(path)[i])
    {
      var j := n - 2 - i;
      assert path[j + 1] in Neighbours(path[j]);
      NeighbourSymmetric(path[j], path[j + 1]);
    }
  }

  lemma ReachableTransitive(g: Grid, w: int, h: int, s: Pos, t: Pos, u: Pos)
    requires Reachable(g, w, h, s, t) && Reachable(g, w, h, t, u)
    ensures Reachable(g, w, h, s, u)
  {
    var p1 :| IsPath(g, w, h, p1) && p1[0] == s && p1[|p1| - 1] == t;
    var p2 :| IsPath(g, w, h, p2) && p2[0] == t && p2[|p2| - 1] == u;
    JoinPaths(g, w, h, p1, p2);
    var path := p1 + p2[1..];
    assert path[0] == s && path[|path| - 1] == u;
  }

  /** Two paths that meet join into one. */
  lemma JoinPaths(g: Grid, w: int, h: int, p1: seq<Pos>, p2: seq<Pos>)
    requires IsPath(g, w, h, p1) && IsPath(g, w, h, p2) && p1[|p1| - 1] == p2[0]
    ensures IsPath(g, w, h, p1 + p2[1..])
  {
    var path := p1 + p2[1..];
    forall i | 0 <= i < |path|
      ensures Inside(path[i], w, h) && Get(g, path[i]) == Get(g, path[0])
    {
      if i >= |p1| {
        assert path[i] == p2[i - |p1| + 1];
      }
    }
    forall i | 0 <= i < |path| - 1
      ensures path[i + 1] in Neighbours(path[i])
    {
      if i >= |p1| - 1 {
        assert path[i] == p2[i - |p1| + 1];
        assert path[i + 1] == p2[i - |p1| + 2];
      }
    }
  }

  /** Any member of a region has that same region. */
  lemma ComponentOfMember(g: Grid, w: int, h: int, s: Pos, t: Pos)
    requires t in Component(g, w, h, s)
    ensures Component(g, w, h, t) == Component(g, w, h, s)
  {
    ReachableSymmetric(g, w, h, s, t);
    forall u | u in Component(g, w, h, t)
      ensures u in Component(g, w, h, s)
    {
      ReachableTransitive(g, w, h, s, t, u);
    }
    forall u | u in Component(g, w, h, s)
      ensures u in Component(g, w, h, t)
    {
      ReachableTransitive(g, w, h, t, s, u);
    }
  }

  /** A set that holds `s` and is closed under same-kind neighbours holds the region of `s`. */
  lemma ClosedHoldsComponent(g: Grid, w: int, h: int, s: Pos, R: set<Pos>)
    requires s in R
    requires forall p | p in R :: ClosedAt(g, w, h, Get(g, s), R, p)
    ensures Component(g, w, h, s) <= R
  {
    forall t | t in Component(g, w, h, s)
      ensures t in R
    {
      var path :| IsPath(g, w, h, path) && path[0] == s && path[|path| - 1] == t;
      var i := 0;
      while i < |path| - 1
        invariant 0 <= i < |path| && path[i] in R
      {
        assert ClosedAt(g, w, h, Get(g, s), R, path[i]);
        i := i + 1;
      }
    }
  }

  lemma ClosedGrows(g: Grid, w: int, h: int, k: ElementType, V: set<Pos>, V': set<Pos>, p: Pos)
    requires V <= V' && ClosedAt(g, w, h, k, V, p)
    ensures ClosedAt(g, w, h, k, V', p)
  {
  }

  lemma AppendFresh(s: seq<Pos>, p: Pos)
    requires Distinct(s) && p !in Elems(s)
    ensures Distinct(s + [p]) && Elems(s + [p]) == Elems(s) + {p}
  {
  }

  lemma DistinctCard(s: seq<Pos>)
    requires Distinct(s)
    ensures |Elems(s)| == |s|
  {
    if s != [] {
      var last := s[|s| - 1];
      DistinctCard(s[..|s| - 1]);
      assert Elems(s) == Elems(s[..|s| - 1]) + {last};
    }
  }

  /** A run of three needs three distinct members. */
  lemma RunNeedsThree(S: set<Pos>)
    requires HasRun(S)
    ensures |S| >= 3
  {
    var p :| p in S && (Run3(S, p, Right, Left) || Run3(S, p, Up, Down));
    var d, e := if Run3(S, p, Right, Left) then Right else Up, if Run3(S, p, Right, Left) then Left else Down;
    var three: set<Pos>;
    if Step(p, e, 2) in S && Step(p, e, 1) in S {
      three := {p, Step(p, e, 1), Step(p, e, 2)};
    } else if Step(p, e, 1) in S && Step(p, d, 1) in S {
      three := {p, Step(p, e, 1), Step(p, d, 1)};
    } else {
      three := {p, Step(p, d, 1), Step(p, d, 2)};
    }
    assert |three| == 3;
    assert three <= S;
    SubsetCard(three, S);
  }

  lemma SubsetCard(A: set<Pos>, B: set<Pos>)
    requires A <= B
    ensures |A| <= |B|
  {
    assert B == A + (B - A);
  }

  // ---------------------------------------------------------------------------
  // The algorithm.

  /** The straight walk of HasLine: how many consecutive members of `S`
      follow `p` in direction `d`. */
  method Walk(S: set<Pos>, p: Pos, d: Dir) returns (n: nat)
    ensures forall k | 1 <= k <= n :: Step(p, d, k) in S
    ensures Step(p, d, n + 1) !in S
  {
    n := 0;
    var curr := Step(p, d, 1);
    ghost var seen: set<Pos> := {};
    while curr in S
      invariant curr == Step(p, d, n + 1)
      invariant forall k | 1 <= k <= n :: Step(p, d, k) in S
      invariant seen <= S
      invariant forall q | q in seen :: Along(p, d, q) <= n
      decreases S - seen
    {
      seen := seen + {curr};
      n := n + 1;
      curr := Step(curr, d, 1);
    }
  }

  /** The count of HasLine reaches three exactly when `p` lies in a run of three. */
  lemma RunCount(S: set<Pos>, p: Pos, d: Dir, e: Dir, m: nat, n: nat)
    requires (d, e) == (Right, Left) || (d, e) == (Up, Down)
    requires forall k | 1 <= k <= m :: Step(p, d, k) in S
    requires Step(p, d, m + 1) !in S
    requires forall k | 1 <= k <= n :: Step(p, e, k) in S
    requires Step(p, e, n + 1) !in S
    ensures 1 + m + n >= 3 <==> Run3(S, p, d, e)
  {
    if m >= 2 {
      assert Step(p, d, 1) in S && Step(p, d, 2) in S;
    } else if n >= 2 {
      assert Step(p, e, 1) in S && Step(p, e, 2) in S;
    } else if m == 1 && n == 1 {
      assert Step(p, d, 1) in S && Step(p, e, 1) in S;
    } else {
      assert m == 0 ==> Step(p, d, 1) !in S;
      assert n == 0 ==> Step(p, e, 1) !in S;
      assert m == 1 ==> Step(p, d, 2) !in S;
      assert n == 1 ==> Step(p, e, 2) !in S;
    }
  }

  /** HasLine: whether some member of the region has three consecutive
      region members along its row or its column. */
  method HasLine(region: seq<Pos>) returns (r: bool)
    ensures r <==> |region| >= 3 && HasRun(Elems(region))
  {
    if |region| < 3 {
      return false;
    }
    var regionSet := Elems(region);
    for i := 0 to |region|
      invariant forall j | 0 <= j < i :: !Run3(regionSet, region[j], Right, Left) && !Run3(regionSet, region[j], Up, Down)
    {
      var p := region[i];
      var right := Walk(regionSet, p, Right);
      var left := Walk(regionSet, p, Left);
      var horizontalCount := 1 + right + left;
      RunCount(regionSet, p, Right, Left, right, left);
      if horizontalCount >= 3 {
        return true;
      }
      var up := Walk(regionSet, p, Up);
      var down := Walk(regionSet, p, Down);
      var verticalCount := 1 + up + down;
      RunCount(regionSet, p, Up, Down, up, down);
      if verticalCount >= 3 {
        return true;
      }
    }
    return false;
  }

  /** GetRegion: breadth-first flood fill from (x, y) over same-kind
      neighbours. The queue is kept as the suffix `found[head..]` of the list
      of every cell ever enqueued: dequeuing advances `head`, and the prefix
      `found[..head]` is the region built so far. */
  method GetRegion(a: array2<ElementType>, width: int, height: int, x: int, y: int) returns (region: seq<Pos>)
    requires 0 <= width <= a.Length0 && 0 <= height <= a.Length1
    requires 0 <= x < width && 0 <= y < height
    ensures Distinct(region)
    ensures Elems(region) == Component(Snapshot(a), width, height, Pos(x, y))
  {
    ghost var g := Snapshot(a);
    var kind := a[x, y];
    var start := Pos(x, y);
    assert Get(g, start) == kind;
    var found := [start];
    var head := 0;
    var visited := {start};
    ReachableSelf(g, width, height, start);
    while head < |found|
      invariant 0 <= head <= |found| && 0 < |found| && found[0] == start
      invariant Frontier(g, width, height, start, visited, found)
      invariant forall j | 0 <= j < head :: ClosedAt(g, width, height, kind, visited, found[j])
      decreases Cells(width, height) - visited, |found| - head
    {
      var p := found[head];
      head := head + 1;
      ghost var visited0, found0 := visited, found;
      visited, found := EnqueueNeighbours(a, width, height, kind, p, visited, found, start);
      forall j | 0 <= j < head
        ensures ClosedAt(g, width, height, kind, visited, found[j])
      {
        assert found[j] == found[..|found0|][j] == found0[j];
        if j < head - 1 {
          ClosedGrows(g, width, height, kind, visited0, visited, found0[j]);
        }
      }
    }
    region := found;
    ClosedHoldsComponent(g, width, height, start, visited);
    forall q | q in visited
      ensures q in Component(g, width, height, start)
    {
      ReachableEnds(g, width, height, start, q);
    }
  }

  /** GetRegion's queue: `found` lists the visited cells once each, all
      inside the board and reachable from `start`. */
  ghost predicate Frontier(g: Grid, w: int, h: int, start: Pos, visited: set<Pos>, found: seq<Pos>)
  {
    visited == Elems(found) && Distinct(found)
    && forall q | q in visited :: Reachable(g, w, h, start, q)
  }

  /** Enqueuing a reachable, unvisited cell keeps the queue's invariant. */
  lemma FrontierPush(g: Grid, w: int, h: int, start: Pos, visited: set<Pos>, found: seq<Pos>, next: Pos)
    requires Frontier(g, w, h, start, visited, found)
    requires next !in visited && Reachable(g, w, h, start, next)
    ensures Frontier(g, w, h, start, visited + {next}, found + [next])
    ensures (found + [next])[..|found|] == found
  {
    AppendFresh(found, next);
  }

  /** The inner loop of GetRegion: enqueue every in-grid, not yet visited
      neighbour of `p` of the region's kind. */
  method EnqueueNeighbours(a: array2<ElementType>, width: int, height: int, kind: ElementType, p: Pos,
                           visited: set<Pos>, found: seq<Pos>, ghost start: Pos)
    returns (visited': set<Pos>, found': seq<Pos>)
    requires 0 <= width <= a.Length0 && 0 <= height <= a.Length1
    requires Get(Snapshot(a), start) == kind
    requires Frontier(Snapshot(a), width, height, start, visited, found)
    requires p in visited
    ensures visited <= visited'
    ensures Frontier(Snapshot(a), width, height, start, visited', found')
    ensures |found| <= |found'| && found'[..|found|] == found
    ensures visited' == visited ==> found' == found
    ensures ClosedAt(Snapshot(a), width, height, kind, visited', p)
    ensures visited' == visited || Cells(width, height) - visited' < Cells(width, height) - visited
  {
    ghost var g := Snapshot(a);
    visited', found' := visited, found;
    var dirs := Neighbours(p);
    for i := 0 to 4
      invariant visited <= visited' && |found| <= |found'| && found'[..|found|] == found
      invariant Frontier(g, width, height, start, visited', found')
      invariant visited' == visited ==> found' == found
      invariant forall q | q in dirs[..i] :: Wanted(g, width, height, kind, q) ==> q in visited'
      invariant visited' == visited || Cells(width, height) - visited' < Cells(width, height) - visited
    {
      ghost var found0 := found';
      ghost var before := visited';
      var next := dirs[i];
      visited', found' := EnqueueIfNew(a, width, height, kind, p, next, visited', found', start);
      assert found'[..|found|] == found'[..|found0|][..|found|];
      assert before <= visited';
      assert dirs[..i + 1] == dirs[..i] + [next];
    }
    assert dirs[..4] == dirs;
  }

  /** A cell GetRegion takes into a region of kind `k`. */
  ghost predicate Wanted(g: Grid, w: int, h: int, k: ElementType, q: Pos)
  {
    Inside(q, w, h) && Get(g, q) == k
  }

  /** One neighbour of GetRegion's inner loop: enqueued when it is inside
      the board, not yet visited, and of the region's kind. */
  method EnqueueIfNew(a: array2<ElementType>, width: int, height: int, kind: ElementType, p: Pos, next: Pos,
                      visited: set<Pos>, found: seq<Pos>, ghost start: Pos)
    returns (visited': set<Pos>, found': seq<Pos>)
    requires 0 <= width <= a.Length0 && 0 <= height <= a.Length1
    requires Get(Snapshot(a), start) == kind
    requires Frontier(Snapshot(a), width, height, start, visited, found)
    requires p in visited && next in Neighbours(p)
    ensures Frontier(Snapshot(a), width, height, start, visited', found')
    ensures |found| <= |found'| && found'[..|found|] == found
    ensures Wanted(Snapshot(a), width, height, kind, next) ==> next in visited'
    ensures visited' == visited ==> found' == found
    ensures visited' == visited || Cells(width, height) - visited' < Cells(width, height) - visited
  {
    ghost var g := Snapshot(a);
    visited', found' := visited, found;
    if Inside(next, width, height) && next !in visited && a[next.x, next.y] == kind {
      ReachableStep(g, width, height, start, p, next);
      FrontierPush(g, width, height, start, visited, found, next);
      assert next in (Cells(width, height) - visited) - (Cells(width, height) - (visited + {next}));
      visited' := visited + {next};
      found' := found + [next];
    }
  }

  /** The cells of `marked` whose region qualifies for destruction. */
  ghost function Qualifying(g: Grid, w: int, h: int, marked: set<Pos>): set<Pos>
  {
    set t | t in marked && HasRun(Component(g, w, h, t))
  }

  /** `marked` is a union of whole regions of tiles. */
  ghost predicate WholeRegions(g: Grid, w: int, h: int, marked: set<Pos>)
  {
    forall t | t in marked :: Get(g, t) != None && Component(g, w, h, t) <= marked
  }

  lemma AddRegion(g: Grid, w: int, h: int, marked: set<Pos>, s: Pos)
    requires WholeRegions(g, w, h, marked)
    requires Inside(s, w, h) && Get(g, s) != None
    ensures s in Component(g, w, h, s)
    ensures WholeRegions(g, w, h, marked + Component(g, w, h, s))
    ensures Qualifying(g, w, h, marked + Component(g, w, h, s))
         == Qualifying(g, w, h, marked) + (if HasRun(Component(g, w, h, s)) then Component(g, w, h, s) else {})
  {
    var R := Component(g, w, h, s);
    ReachableSelf(g, w, h, s);
    forall t | t in R
      ensures Get(g, t) != None && Component(g, w, h, t) == R
    {
      ReachableEnds(g, w, h, s, t);
      ComponentOfMember(g, w, h, s, t);
    }
  }

  lemma AllTilesMarked(g: Grid, w: int, h: int, marked: set<Pos>)
    requires WholeRegions(g, w, h, marked) && marked <= Cells(w, h)
    requires forall t | t in Cells(w, h) && Get(g, t) != None :: t in marked
    ensures Qualifying(g, w, h, marked) == Matches(g, w, h)
  {
  }

  /** The marks of `visited` are exactly the cells of `marked`. */
  ghost predicate Mirrors(visited: array2<bool>, marked: set<Pos>)
    reads visited
  {
    forall i, j | 0 <= i < visited.Length0 && 0 <= j < visited.Length1 :: visited[i, j] <==> Pos(i, j) in marked
  }

  /** Marks every cell of a region as visited. */
  method MarkRegion(visited: array2<bool>, region: seq<Pos>, ghost marked: set<Pos>)
    requires Mirrors(visited, marked)
    requires forall p | p in region :: Inside(p, visited.Length0, visited.Length1)
    modifies visited
    ensures Mirrors(visited, marked + Elems(region))
  {
    forall p | p in region {
      visited[p.x, p.y] := true;
    }
  }

  /** `marked` is a set of whole regions inside the board, and `toDestroy`
      the marked regions that have a run. */
  ghost predicate Covered(g: Grid, w: int, h: int, marked: set<Pos>, toDestroy: set<Pos>)
  {
    marked <= Cells(w, h) && WholeRegions(g, w, h, marked) && toDestroy == Qualifying(g, w, h, marked)
  }

  /** The state FindMatches keeps while it scans: `visited` mirrors the
      marked cells. */
  ghost predicate Scanned(g: Grid, w: int, h: int, visited: array2<bool>, marked: set<Pos>, toDestroy: set<Pos>)
    reads visited
  {
    visited.Length0 == w && visited.Length1 == h && Mirrors(visited, marked) && Covered(g, w, h, marked, toDestroy)
  }

  /** Marking a fresh region keeps the scan state, and the region is added
      to the result exactly when HasLine accepts it. */
  lemma CoverRegion(g: Grid, w: int, h: int, marked: set<Pos>, toDestroy: set<Pos>, s: Pos, region: seq<Pos>, line: bool)
    requires Covered(g, w, h, marked, toDestroy)
    requires Inside(s, w, h) && Get(g, s) != None
    requires Distinct(region) && Elems(region) == Component(g, w, h, s)
    requires line <==> |region| >= 3 && HasRun(Elems(region))
    ensures s in Elems(region)
    ensures Covered(g, w, h, marked + Elems(region), if line then toDestroy + Elems(region) else toDestroy)
  {
    AddRegion(g, w, h, marked, s);
    DistinctCard(region);
    if HasRun(Elems(region)) {
      RunNeedsThree(Elems(region));
    }
  }

  /** One cell of FindMatches' scan: an unvisited tile starts a region,
      which is marked, and added to the result when it holds a run. */
  method VisitCell(a: array2<ElementType>, width: int, height: int, visited: array2<bool>, x: int, y: int,
                   ghost marked: set<Pos>, toDestroy: set<Pos>)
    returns (ghost marked': set<Pos>, toDestroy': set<Pos>)
    requires 0 <= width <= a.Length0 && 0 <= height <= a.Length1
    requires 0 <= x < width && 0 <= y < height
    requires Scanned(Snapshot(a), width, height, visited, marked, toDestroy)
    modifies visited
    ensures Scanned(Snapshot(a), width, height, visited, marked', toDestroy')
    ensures marked <= marked'
    ensures a[x, y] != None ==> Pos(x, y) in marked'
  {
    ghost var g := Snapshot(a);
    marked', toDestroy' := marked, toDestroy;
    if !visited[x, y] && a[x, y] != None {
      var region := GetRegion(a, width, height, x, y);
      MarkRegion(visited, region, marked);
      var line := HasLine(region);
      CoverRegion(g, width, height, marked, toDestroy, Pos(x, y), region, line);
      marked' := marked + Elems(region);
      if line {
        toDestroy' := toDestroy + Elems(region);
      }
    }
  }

  /** FindMatches: every cell of every same-kind region that holds a straight
      run of three. The C# returns the hash set as a list in unspecified
      order; here it stays a set. */
  method FindMatches(a: array2<ElementType>, width: int, height: int) returns (toDestroy: set<Pos>)
    requires 0 <= width <= a.Length0 && 0 <= height <= a.Length1
    ensures toDestroy == Matches(Snapshot(a), width, height)
    ensures forall p | p in toDestroy :: Inside(p, width, height) && a[p.x, p.y] != None
  {
    ghost var g := Snapshot(a);
    toDestroy := {};
    var visited := new bool[width, height]((i, j) => false);
    ghost var marked: set<Pos> := {};
    for y := 0 to height
      invariant Scanned(g, width, height, visited, marked, toDestroy)
      invariant forall i, j | 0 <= i < width && 0 <= j < y && g[i][j] != None :: Pos(i, j) in marked
    {
      for x := 0 to width
        invariant Scanned(g, width, height, visited, marked, toDestroy)
        invariant forall i, j | 0 <= i < width && 0 <= j < y && g[i][j] != None :: Pos(i, j) in marked
        invariant forall i | 0 <= i < x && g[i][y] != None :: Pos(i, y) in marked
      {
        marked, toDestroy := VisitCell(a, width, height, visited, x, y, marked, toDestroy);
      }
    }
    assert forall t | t in Cells(width, height) && Get(g, t) != None :: t in marked;
    AllTilesMarked(g, width, height, marked);
  }

  // ---------------------------------------------------------------------------
  // What a match pass destroys.

  /** Only regions of at least three tiles are destroyed. */
  lemma MatchedRegionSize(g: Grid, w: int, h: int, t: Pos)
    requires t in Matches(g, w, h)
    ensures |Component(g, w, h, t)| >= 3
  {
    RunNeedsThree(Component(g, w, h, t));
  }

  /** A region is destroyed whole or not at all. */
  lemma MatchesWholeRegion(g: Grid, w: int, h: int, t: Pos, u: Pos)
    requires t in Matches(g, w, h) && u in Component(g, w, h, t)
    ensures u in Matches(g, w, h)
  {
    ComponentOfMember(g, w, h, t, u);
    ReachableEnds(g, w, h, t, u);
  }

  /** Three consecutive tiles of one kind along a row (`Right`) or a column
      (`Up`) are all destroyed. */
  lemma LineOfThreeMatched(g: Grid, w: int, h: int, p: Pos, d: Dir)
    requires d == Right || d == Up
    requires Inside(p, w, h) && Inside(Step(p, d, 2), w, h)
    requires Get(g, p) != None
    requires Get(g, Step(p, d, 1)) == Get(g, p) && Get(g, Step(p, d, 2)) == Get(g, p)
    ensures p in Matches(g, w, h)
    ensures Step(p, d, 1) in Matches(g, w, h) && Step(p, d, 2) in Matches(g, w, h)
  {
    var p1, p2 := Step(p, d, 1), Step(p, d, 2);
    assert p2 == Step(p1, d, 1);
    ReachableSelf(g, w, h, p);
    ReachableStep(g, w, h, p, p, p1);
    ReachableStep(g, w, h, p, p1, p2);
    var C := Component(g, w, h, p);
    assert Run3(C, p, d, if d == Right then Left else Down);
    assert HasRun(C);
    MatchesWholeRegion(g, w, h, p, p1);
    MatchesWholeRegion(g, w, h, p, p2);
  }

  /** A tile that touches a column of three only from the side is destroyed
      with it: on the 2-by-3 board below, (1, 0) is on no line of three. */
  lemma SideTileMatched()
    ensures Pos(1, 0) in Matches([[Tile(0), Tile(0), Tile(0)], [Tile(0), Tile(1), None]], 2, 3)
  {
    var g := [[Tile(0), Tile(0), Tile(0)], [Tile(0), Tile(1), None]];
    LineOfThreeMatched(g, 2, 3, Pos(0, 0), Up);
    ReachableSelf(g, 2, 3, Pos(0, 0));
    assert Get(g, Pos(1, 0)) == Get(g, Pos(0, 0)) == Tile(0);
    assert Pos(1, 0) == Neighbours(Pos(0, 0))[3];
    ReachableStep(g, 2, 3, Pos(0, 0), Pos(0, 0), Pos(1, 0));
    MatchesWholeRegion(g, 2, 3, Pos(0, 0), Pos(1, 0));
  }
}
