// Viewport windowing: which rows of the flattened list are materialised for
// a given scroll offset, with a fixed overscan margin on both sides. Pixel
// quantities are integers here.
module Windowing {

  /** Rows rendered beyond the visible area on each side. */
  const Overscan: int := 2

  /** An inclusive range of row indices; empty when endIndex < startIndex. */
  datatype VirtualRange = VirtualRange(startIndex: int, endIndex: int)

  /** Math.floor(a / b) for a positive divisor. */
  function FloorDiv(a: int, b: int): (q: int)
    requires b > 0
    ensures q * b <= a < q * b + b
  {
    a / b
  }

  /** Math.ceil(a / b) for a positive divisor. */
  function CeilDiv(a: int, b: int): (q: int)
    requires b > 0
    ensures q * b - b < a <= q * b
  {
    -((-a) / b)
  }

  function Max(a: int, b: int): int { if a < b then b else a }

  function Min(a: int, b: int): int { if a < b then a else b }

  /** The rows to render: from two rows above the first row the scroll
      offset reaches, to two rows below the last row the container can
      show, clipped to the list. */
  function GetVirtualRange(scrollTop: int, containerHeight: int, rowHeight: int, totalCount: nat): (r: VirtualRange)
    requires rowHeight > 0
    ensures r.startIndex >= 0
    ensures r.endIndex <= totalCount - 1
    ensures totalCount == 0 ==> r.endIndex < r.startIndex
    ensures r.endIndex - r.startIndex <= CeilDiv(containerHeight, rowHeight) + 2 * Overscan
    ensures scrollTop >= 0 && containerHeight >= 0 ==> r.endIndex >= -1
  {
    var startIndex := FloorDiv(scrollTop, rowHeight);
    var visibleCount := CeilDiv(containerHeight, rowHeight);
    VirtualRange(Max(0, startIndex - Overscan), Min(totalCount - 1, startIndex + visibleCount + Overscan))
  }

  /** Row i covers [i * rowHeight, (i + 1) * rowHeight); it is on screen
      when that overlaps [scrollTop, scrollTop + containerHeight). */
  predicate RowOnScreen(i: int, scrollTop: int, containerHeight: int, rowHeight: int) {
    i * rowHeight < scrollTop + containerHeight && scrollTop < (i + 1) * rowHeight
  }

  lemma ScaledLess(x: int, y: int, b: int)
    requires b > 0 && x * b < y * b
    ensures x < y
  {
  }

  /** Every row of the list that is on screen lies inside the range, so the
      window never leaves a visible gap. */
  lemma OnScreenRowsRendered(scrollTop: int, containerHeight: int, rowHeight: int, totalCount: nat, i: int)
    requires rowHeight > 0 && 0 <= i < totalCount
    requires RowOnScreen(i, scrollTop, containerHeight, rowHeight)
    ensures GetVirtualRange(scrollTop, containerHeight, rowHeight, totalCount).startIndex <= i
    ensures i <= GetVirtualRange(scrollTop, containerHeight, rowHeight, totalCount).endIndex
  {
    var s := FloorDiv(scrollTop, rowHeight);
    var v := CeilDiv(containerHeight, rowHeight);
    ScaledLess(s, i + 1, rowHeight);
    assert i * rowHeight < (s + 1 + v) * rowHeight;
    ScaledLess(i, s + 1 + v, rowHeight);
  }

  /** The component's own figures: 240px of 36px rows, scrolled to 100px,
      over ten rows, render rows 0 through 9. */
  lemma ComponentWindowExample()
    ensures GetVirtualRange(100, 240, 36, 10) == VirtualRange(0, 9)
  {
  }
}
