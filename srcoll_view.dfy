/** The scroll clamps of the older `SrcollView` component, where a scroll offset is a translate of 0 or less. */
module SrcollView {
  import opened Wrappers

  datatype Direction = Horizontal | Vertical

  /** The rendered size of an element (`offsetWidth`, `offsetHeight`). */
  datatype Box = Box(offsetWidth: int, offsetHeight: int)

  /** `ref.value?.offsetWidth || fallback` (or the height). */
  function SizeOr(el: Option<Box>, direction: Direction, fallback: int): int {
    if el.None? then fallback
    else
      var size := if direction == Horizontal then el.value.offsetWidth else el.value.offsetHeight;
      if size == 0 then fallback else size
  }

  /** The `translate` ref the component passes in. */
  class Translate {
    var value: int

    constructor (value: int)
      ensures this.value == value
    {
      this.value := value;
    }
  }

  /** What `checkCanScroll` returns. */
  datatype ScrollCheck = ScrollCheck(canScroll: bool, viewSize: int, containerSize: int, canScrollSize: int, scrollSize: int)

  /** `checkCanScroll`: when the view fits in the container nothing scrolls and the translate is reset. */
  method CheckCanScroll(direction: Direction, containerEl: Option<Box>, viewEl: Option<Box>, translate: Translate)
      returns (r: ScrollCheck)
    modifies translate
    ensures r.viewSize == SizeOr(viewEl, direction, 0) && r.containerSize == SizeOr(containerEl, direction, 0)
    ensures r.canScroll <==> r.viewSize > r.containerSize
    ensures r.canScroll ==> r.canScrollSize == r.viewSize - r.containerSize && translate.value == old(translate.value)
    ensures !r.canScroll ==> r.canScrollSize == 0 && translate.value == 0
    ensures r.scrollSize == translate.value
  {
    var viewSize := SizeOr(viewEl, direction, 0);
    var containerSize := SizeOr(containerEl, direction, 0);
    var canScrollSize := viewSize - containerSize;
    var canScroll := true;
    if canScrollSize <= 0 {
      canScroll := false;
      translate.value := 0;
      canScrollSize := 0;
    }
    r := ScrollCheck(canScroll, viewSize, containerSize, canScrollSize, translate.value);
  }

  /** `calculateScrollSize(scrollSize, canScrollSize)` */
  function CalculateScrollSize(scrollSize: int, canScrollSize: int): int {
    var size := if scrollSize > 0 then 0 else scrollSize;
    var magnitude := if size < 0 then -size else size;
    var capped := if magnitude < canScrollSize then magnitude else canScrollSize;
    var clamped := if capped > 0 then capped else 0;
    -clamped
  }

  /**
   * Never positive; a positive offset gives 0; with a non-negative range the result lies in
   * `[-canScrollSize, 0]`, an offset already there is kept, and one beyond is capped.
   */
  lemma ScrollSizeClamps(scrollSize: int, canScrollSize: int)
    ensures var r := CalculateScrollSize(scrollSize, canScrollSize);
      r <= 0 &&
      (scrollSize > 0 ==> r == 0) &&
      (canScrollSize <= 0 ==> r == 0) &&
      (canScrollSize >= 0 ==>
        -canScrollSize <= r &&
        (-canScrollSize <= scrollSize <= 0 ==> r == scrollSize) &&
        (scrollSize < -canScrollSize ==> r == -canScrollSize))
  {
  }

  /** Clamping a clamped offset keeps it. */
  lemma ClampIdempotent(scrollSize: int, canScrollSize: int)
    ensures CalculateScrollSize(CalculateScrollSize(scrollSize, canScrollSize), canScrollSize) ==
      CalculateScrollSize(scrollSize, canScrollSize)
  {
  }
}
