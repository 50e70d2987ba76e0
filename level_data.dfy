/** LevelData: an authored (or saved) level, its cells stored row-major. */
module Levels {
  import opened Grid

  datatype LevelData = LevelData(width: int, height: int, elements: seq<ElementType>)

  /** The shape the level editor keeps a level in: dimensions clamped to be
      non-negative and exactly `width * height` cells. */
  predicate WellFormed(l: LevelData)
  {
    l.width >= 0 && l.height >= 0 && |l.elements| == l.width * l.height
  }

  /** What LoadLevelAsync can lay out without faulting: non-negative
      dimensions and at least `width * height` cells; cells past that prefix
      are never read. */
  predicate Loadable(l: LevelData)
  {
    l.width >= 0 && l.height >= 0 && |l.elements| >= l.width * l.height
  }

  /** Row-major position of cell (x, y) in a grid of the given width. */
  function Index(width: int, x: int, y: int): int
  {
    y * width + x
  }

  /** GetElement: the cell at (x, y); the C# array access faults outside the
      array, so the index must be in range. */
  function GetElement(l: LevelData, x: int, y: int): (e: ElementType)
    requires 0 <= Index(l.width, x, y) < |l.elements|
    ensures e in l.elements
  {
    l.elements[Index(l.width, x, y)]
  }

  /** Every in-range coordinate has an index inside a `width * height` array. */
  lemma IndexInBounds(width: int, height: int, x: int, y: int)
    requires 0 <= x < width && 0 <= y < height
    ensures 0 <= Index(width, x, y) < width * height
  {
    assert y * width >= 0;
    calc {
      y * width + x;
    <  y * width + width;
    == (y + 1) * width;
    <= height * width;
    }
  }

  /** Distinct in-range coordinates never share an index. */
  lemma IndexInjective(width: int, height: int, x1: int, y1: int, x2: int, y2: int)
    requires 0 <= x1 < width && 0 <= y1 < height
    requires 0 <= x2 < width && 0 <= y2 < height
    requires Index(width, x1, y1) == Index(width, x2, y2)
    ensures x1 == x2 && y1 == y2
  {
    if y1 < y2 {
      OrderedRows(width, x1, y1, x2, y2);
    } else if y2 < y1 {
      OrderedRows(width, x2, y2, x1, y1);
    }
  }

  lemma OrderedRows(width: int, x1: int, y1: int, x2: int, y2: int)
    requires 0 <= x1 < width && 0 <= x2 < width && 0 <= y1 < y2
    ensures Index(width, x1, y1) < Index(width, x2, y2)
  {
    calc {
      y1 * width + x1;
    <  (y1 + 1) * width;
    <= y2 * width;
    <= y2 * width + x2;
    }
  }

  /** Every index of a `width * height` array is the index of exactly the
      coordinate (i % width, i / width). */
  lemma IndexSurjective(width: int, height: int, i: int)
    requires width >= 0 && height >= 0 && 0 <= i < width * height
    ensures width > 0 && 0 <= i % width < width && 0 <= i / width < height
    ensures Index(width, i % width, i / width) == i
  {
    assert width != 0;
    var q, r := i / width, i % width;
    assert i == q * width + r;
    if q >= height {
      assert false;
    }
  }

  /** Decoding an index gives back the coordinate it was built from. */
  lemma IndexDecode(width: int, x: int, y: int)
    requires 0 <= x < width && 0 <= y
    ensures Index(width, x, y) % width == x && Index(width, x, y) / width == y
  {
    var i := Index(width, x, y);
    DivisionUnique(width, i / width, i % width, y, x);
  }

  lemma DivisionUnique(width: int, q: int, r: int, q': int, r': int)
    requires 0 <= r < width && 0 <= r' < width
    requires q * width + r == q' * width + r'
    ensures q == q' && r == r'
  {
    if q < q' {
      RowsApart(width, q, q');
    } else if q' < q {
      RowsApart(width, q', q);
    }
  }

  lemma RowsApart(width: int, a: int, b: int)
    requires a < b && width > 0
    ensures a * width + width <= b * width
  {
    var d := b - a - 1;
    assert d >= 0;
    assert d * width >= 0;
    assert b * width == (a + 1 + d) * width == a * width + width + d * width;
  }
}
