/** The scroll clamps of the `ScrollView` component, on whole pixels. */
module ScrollView {
  import opened Wrappers

  datatype Direction = Horizontal | Vertical

  /** The rendered size of an element (`offsetWidth`, `offsetHeight`). */
  datatype Box = Box(offsetWidth: int, offsetHeight: int)

  /** `el?.offsetWidth || fallback` (or the height): a missing element or a zero size gives the fallback. */
  function SizeOr(el: Option<Box>, direction: Direction, fallback: int): int {
    if el.None? then fallback
    else
      var size := if direction == Horizontal then el.value.offsetWidth else el.value.offsetHeight;
      if size == 0 then fallback else size
  }

  /**
   * What `getScrollableAreaInfo` reports, apart from the thumb size's value: `thumbCleared`
   * says the thumb size was reset to 0.
   */
  datatype AreaInfo = AreaInfo(contentSize: int, containerSize: int, scrollableSize: int, thumbCleared: bool, thumbPosition: int)

  /** `getScrollableAreaInfo` */
  function ScrollableAreaInfo(direction: Direction, containerEl: Option<Box>, contentEl: Option<Box>): (r: AreaInfo)
    ensures r.scrollableSize >= 0 && r.thumbPosition == 0
    ensures r.contentSize <= r.containerSize ==> r.scrollableSize == 0 && r.thumbCleared
    ensures r.contentSize > r.containerSize ==> r.scrollableSize == r.contentSize - r.containerSize && !r.thumbCleared
  {
    var contentSize := SizeOr(contentEl, direction, 0);
    var containerSize := SizeOr(containerEl, direction, 0);
    var scrollableSize := contentSize - containerSize;
    if scrollableSize <= 0 then AreaInfo(contentSize, containerSize, 0, true, 0)
    else AreaInfo(contentSize, containerSize, scrollableSize, false, 0)
  }

  /** `calculateScrollSize(scrolledSize, scrollableSize, wantScrollSize)` */
  function CalculateScrollSize(scrolledSize: int, scrollableSize: int, wantScrollSize: int): int {
    if scrollableSize <= 0 then 0
    else
      var size := scrolledSize + wantScrollSize;
      var atLeastZero := if size > 0 then size else 0;
      if atLeastZero < scrollableSize then atLeastZero else scrollableSize
  }

  /**
   * The result lies in `[0, scrollableSize]` (0 when nothing scrolls), equals the wanted position
   * when that lies inside, and otherwise is the nearer end.
   */
  lemma ScrollSizeClamps(scrolledSize: int, scrollableSize: int, wantScrollSize: int)
    ensures var r := CalculateScrollSize(scrolledSize, scrollableSize, wantScrollSize);
      (scrollableSize <= 0 ==> r == 0) &&
      (scrollableSize > 0 ==>
        0 <= r <= scrollableSize &&
        (0 <= scrolledSize + wantScrollSize <= scrollableSize ==> r == scrolledSize + wantScrollSize) &&
        (scrolledSize + wantScrollSize < 0 ==> r == 0) &&
        (scrolledSize + wantScrollSize > scrollableSize ==> r == scrollableSize))
  {
  }

  /** Scrolling by nothing from a position inside the range stays there. */
  lemma ScrollByNothing(scrolledSize: int, scrollableSize: int)
    requires 0 <= scrolledSize <= scrollableSize && scrollableSize > 0
    ensures CalculateScrollSize(scrolledSize, scrollableSize, 0) == scrolledSize
  {
  }

  /** Clamping twice is clamping once: scrolling by nothing from a clamped result keeps it. */
  lemma ClampIdempotent(scrolledSize: int, scrollableSize: int, wantScrollSize: int)
    ensures var r := CalculateScrollSize(scrolledSize, scrollableSize, wantScrollSize);
      CalculateScrollSize(r, scrollableSize, 0) == r
  {
  }
}
