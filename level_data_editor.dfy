/** The level inspector: when a level's width or height is edited, the
    row-major cell array is resized, keeping the overlapping part. */
module LevelEditor {
  import opened Grid
  import opened Levels

  // ---------------------------------------------------------------------------
  // Resizing, as values.

  /** What the resized array holds at index `i` before the copy loop writes
      it: the serialised array keeps its prefix when resized, and an added
      slot holds `fill` (the value Unity gives new slots). */
  function Stale(prior: seq<ElementType>, i: int, fill: ElementType): ElementType
  {
    if 0 <= i < |prior| then prior[i] else fill
  }

  /** The new cell (x, y): the old cell when (x, y) lies in the old
      rectangle, `None` outside it. A cell of the old rectangle that the old
      array is too short to hold is not written and keeps its stale value. */
  function ResizeCell(prior: seq<ElementType>, oldWidth: int, oldHeight: int, newWidth: int,
                      x: int, y: int, fill: ElementType): ElementType
  {
    if x < oldWidth && y < oldHeight then
      if 0 <= Index(oldWidth, x, y) < |prior| then prior[Index(oldWidth, x, y)]
      else Stale(prior, Index(newWidth, x, y), fill)
    else None
  }

  /** ResizeArray as a function of the old array and both sizes. */
  function Resize(prior: seq<ElementType>, oldWidth: int, oldHeight: int, newWidth: int, newHeight: int,
                  fill: ElementType): (r: seq<ElementType>)
    requires newWidth >= 0 && newHeight >= 0
    ensures |r| == newWidth * newHeight
  {
    if newWidth == 0 then []
    else
      seq(newWidth * newHeight, i requires 0 <= i < newWidth * newHeight =>
        ResizeCell(prior, oldWidth, oldHeight, newWidth, i % newWidth, i / newWidth, fill))
  }

  /** Cell (x, y) of the resized array, by coordinates. */
  lemma ResizeAt(prior: seq<ElementType>, oldWidth: int, oldHeight: int, newWidth: int, newHeight: int,
                 fill: ElementType, x: int, y: int)
    requires 0 <= x < newWidth && 0 <= y < newHeight
    ensures 0 <= Index(newWidth, x, y) < newWidth * newHeight
    ensures Resize(prior, oldWidth, oldHeight, newWidth, newHeight, fill)[Index(newWidth, x, y)]
         == ResizeCell(prior, oldWidth, oldHeight, newWidth, x, y, fill)
  {
    IndexInBounds(newWidth, newHeight, x, y);
    IndexDecode(newWidth, x, y);
  }

  /** A cell inside both rectangles keeps its old value, when the old array
      has the size its dimensions call for. */
  lemma ResizeKeepsOld(prior: seq<ElementType>, oldWidth: int, oldHeight: int, newWidth: int, newHeight: int,
                       fill: ElementType, x: int, y: int)
    requires WellFormed(LevelData(oldWidth, oldHeight, prior))
    requires 0 <= x < newWidth && 0 <= y < newHeight && x < oldWidth && y < oldHeight
    ensures 0 <= Index(newWidth, x, y) < newWidth * newHeight && 0 <= Index(oldWidth, x, y) < |prior|
    ensures Resize(prior, oldWidth, oldHeight, newWidth, newHeight, fill)[Index(newWidth, x, y)]
         == prior[Index(oldWidth, x, y)]
  {
    ResizeAt(prior, oldWidth, oldHeight, newWidth, newHeight, fill, x, y);
    IndexInBounds(oldWidth, oldHeight, x, y);
  }

  /** A cell outside the old rectangle is empty. */
  lemma ResizeClearsNew(prior: seq<ElementType>, oldWidth: int, oldHeight: int, newWidth: int, newHeight: int,
                        fill: ElementType, x: int, y: int)
    requires 0 <= x < newWidth && 0 <= y < newHeight && (x >= oldWidth || y >= oldHeight)
    ensures 0 <= Index(newWidth, x, y) < newWidth * newHeight
    ensures Resize(prior, oldWidth, oldHeight, newWidth, newHeight, fill)[Index(newWidth, x, y)] == None
  {
    ResizeAt(prior, oldWidth, oldHeight, newWidth, newHeight, fill, x, y);
  }

  /** Resizing a consistent array to its own dimensions changes nothing. */
  lemma ResizeIdentity(prior: seq<ElementType>, width: int, height: int, fill: ElementType)
    requires WellFormed(LevelData(width, height, prior))
    ensures Resize(prior, width, height, width, height, fill) == prior
  {
    var r := Resize(prior, width, height, width, height, fill);
    forall i | 0 <= i < |prior|
      ensures r[i] == prior[i]
    {
      IndexSurjective(width, height, i);
      ResizeKeepsOld(prior, width, height, width, height, fill, i % width, i / width);
    }
  }

  /** Growing a level and shrinking it back to its own dimensions gives
      the original array back. */
  lemma ResizeGrowShrink(prior: seq<ElementType>, width: int, height: int, bigWidth: int, bigHeight: int,
                         fill: ElementType, fill': ElementType)
    requires WellFormed(LevelData(width, height, prior))
    requires width <= bigWidth && height <= bigHeight
    ensures Resize(Resize(prior, width, height, bigWidth, bigHeight, fill), bigWidth, bigHeight, width, height, fill') == prior
  {
    var big := Resize(prior, width, height, bigWidth, bigHeight, fill);
    var r := Resize(big, bigWidth, bigHeight, width, height, fill');
    forall i | 0 <= i < |prior|
      ensures r[i] == prior[i]
    {
      IndexSurjective(width, height, i);
      var x, y := i % width, i / width;
      ResizeKeepsOld(prior, width, height, bigWidth, bigHeight, fill, x, y);
      ResizeKeepsOld(big, bigWidth, bigHeight, width, height, fill', x, y);
    }
  }

  /** Row y + 1 starts where row y ends. */
  lemma RowStart(width: int, y: int)
    ensures Index(width, 0, y + 1) == Index(width, 0, y) + width
  {
  }

  // ---------------------------------------------------------------------------
  // One inspector update, as values.

  /** An entered dimension, clamped to be non-negative. */
  function Clamp(n: int): (c: int)
    ensures c >= 0
    ensures n >= 0 ==> c == n
    ensures n < 0 ==> c == 0
  {
    if n < 0 then 0 else n
  }

  /** Whether the inspector resizes: the clamped dimensions differ from the
      stored ones, or the array size does not match them. */
  predicate NeedsResize(l: LevelData, width: int, height: int)
  {
    width != l.width || height != l.height || |l.elements| != width * height
  }

  /** The level after one inspector update in which the user entered the
      given dimensions. The clamped values are written back only when a
      resize happens; otherwise the entered values stay stored. */
  function Inspect(l: LevelData, enteredWidth: int, enteredHeight: int, fill: ElementType): LevelData
  {
    var width, height := Clamp(enteredWidth), Clamp(enteredHeight);
    if NeedsResize(l, width, height) then
      LevelData(width, height, Resize(l.elements, l.width, l.height, width, height, fill))
    else LevelData(enteredWidth, enteredHeight, l.elements)
  }

  /** With non-negative entries, the update leaves a well-formed level whose
      dimensions are the entered ones. */
  lemma InspectWellFormed(l: LevelData, enteredWidth: int, enteredHeight: int, fill: ElementType)
    requires enteredWidth >= 0 && enteredHeight >= 0
    ensures Inspect(l, enteredWidth, enteredHeight, fill).width == enteredWidth
    ensures Inspect(l, enteredWidth, enteredHeight, fill).height == enteredHeight
    ensures WellFormed(Inspect(l, enteredWidth, enteredHeight, fill))
  {
  }

  /** As written, a negative width entered on an empty level whose stored
      width is already 0 needs no resize, so the negative width is stored. */
  lemma InspectKeepsNegativeWidth()
    ensures Inspect(LevelData(0, 0, []), -3, 0, None) == LevelData(-3, 0, [])
    ensures !WellFormed(Inspect(LevelData(0, 0, []), -3, 0, None))
  {
    assert !NeedsResize(LevelData(0, 0, []), 0, 0);
  }

  /** The update with the clamped dimensions always written back. */
  function InspectClamped(l: LevelData, enteredWidth: int, enteredHeight: int, fill: ElementType): LevelData
  {
    var width, height := Clamp(enteredWidth), Clamp(enteredHeight);
    if NeedsResize(l, width, height) then
      LevelData(width, height, Resize(l.elements, l.width, l.height, width, height, fill))
    else LevelData(width, height, l.elements)
  }

  /** With clamping always written back, every update leaves a well-formed
      level, sized by the clamped entries, whose overlap with the old level
      is unchanged when the old level was well formed. */
  lemma InspectClampedWellFormed(l: LevelData, enteredWidth: int, enteredHeight: int, fill: ElementType)
    ensures InspectClamped(l, enteredWidth, enteredHeight, fill).width == Clamp(enteredWidth)
    ensures InspectClamped(l, enteredWidth, enteredHeight, fill).height == Clamp(enteredHeight)
    ensures WellFormed(InspectClamped(l, enteredWidth, enteredHeight, fill))
    ensures WellFormed(l) && !NeedsResize(l, Clamp(enteredWidth), Clamp(enteredHeight)) ==>
      InspectClamped(l, enteredWidth, enteredHeight, fill) == l
  {
  }

  // ---------------------------------------------------------------------------
  // The inspector, over the serialised level.

  class LevelDataEditor {
    var width: int
    var height: int
    var elements: array<ElementType>

    /** The level the inspector currently shows. */
    function Level(): LevelData
      reads this, elements
    {
      LevelData(width, height, elements[..])
    }

    constructor(l: LevelData)
      ensures Level() == l
    {
      width, height := l.width, l.height;
      elements := new ElementType[|l.elements|](i requires 0 <= i < |l.elements| => l.elements[i]);
    }

    /** One inspector update in which the user entered the given dimensions;
        `fill` is what a slot added by resizing holds before it is written. */
    method OnInspectorGUI(enteredWidth: int, enteredHeight: int, fill: ElementType)
      modifies this
      ensures Level() == Inspect(old(Level()), enteredWidth, enteredHeight, fill)
    {
      var oldWidth, oldHeight := width, height;
      width, height := enteredWidth, enteredHeight;
      var w, h := enteredWidth, enteredHeight;
      if w < 0 { w := 0; }
      if h < 0 { h := 0; }
      if w != oldWidth || h != oldHeight || elements.Length != w * h {
        width, height := w, h;
        ResizeArray(oldWidth, oldHeight, w, h, fill);
      }
    }

    /** Copies the array aside, resizes it, then writes every new cell in
        row-major order. */
    method ResizeArray(oldWidth: int, oldHeight: int, newWidth: int, newHeight: int, fill: ElementType)
      requires newWidth >= 0 && newHeight >= 0
      modifies this`elements
      ensures elements[..] == Resize(old(elements[..]), oldWidth, oldHeight, newWidth, newHeight, fill)
    {
      var src := elements;
      var oldSize := src.Length;
      var oldElements := new ElementType[oldSize];
      for i := 0 to oldSize
        invariant oldElements[..i] == src[..i]
      {
        oldElements[i] := src[i];
      }
      ghost var prev := oldElements[..];
      ghost var r := Resize(prev, oldWidth, oldHeight, newWidth, newHeight, fill);

      // The serialised array is resized: its prefix is kept, added slots hold `fill`.
      var size := newWidth * newHeight;
      var dst := new ElementType[size];
      for i := 0 to size
        invariant oldElements[..] == prev
        invariant forall j | 0 <= j < i :: dst[j] == Stale(prev, j, fill)
      {
        dst[i] := if i < oldSize then oldElements[i] else fill;
      }

      for y := 0 to newHeight
        invariant oldElements[..] == prev
        invariant forall j | 0 <= j < size ::
          dst[j] == if j < Index(newWidth, 0, y) then r[j] else Stale(prev, j, fill)
      {
        RowStart(newWidth, y);
        WriteRow(dst, oldElements, prev, r, oldWidth, oldHeight, newWidth, newHeight, y, Index(newWidth, 0, y), fill);
      }
      assert Index(newWidth, 0, newHeight) == size;
      elements := dst;
    }

    /** Writes row `y` of the resized array, cell by cell; the row starts
        at index `start`. */
    static method WriteRow(dst: array<ElementType>, oldElements: array<ElementType>, ghost prev: seq<ElementType>,
                           ghost r: seq<ElementType>, oldWidth: int, oldHeight: int, newWidth: int, newHeight: int,
                           y: int, ghost start: int, fill: ElementType)
      requires dst != oldElements && oldElements[..] == prev && 0 <= y < newHeight && 0 <= newWidth
      requires r == Resize(prev, oldWidth, oldHeight, newWidth, newHeight, fill) && dst.Length == |r|
      requires start == Index(newWidth, 0, y)
      requires forall j | 0 <= j < dst.Length :: dst[j] == if j < start then r[j] else Stale(prev, j, fill)
      modifies dst
      ensures forall j | 0 <= j < dst.Length :: dst[j] == if j < start + newWidth then r[j] else Stale(prev, j, fill)
    {
      for x := 0 to newWidth
        invariant forall j | 0 <= j < dst.Length ::
          dst[j] == if j < start + x then r[j] else Stale(prev, j, fill)
      {
        var newIndex := Index(newWidth, x, y);
        ResizeAt(prev, oldWidth, oldHeight, newWidth, newHeight, fill, x, y);
        assert newIndex == start + x;
        if x < oldWidth && y < oldHeight {
          var oldIndex := Index(oldWidth, x, y);
          IndexInBounds(oldWidth, y + 1, x, y);
          if oldIndex < oldElements.Length {
            dst[newIndex] := oldElements[oldIndex];
          }
        } else {
          dst[newIndex] := None;
        }
      }
    }
  }
}
