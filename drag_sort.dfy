/** `useDragSort`: reordering a list in place by dragging one item onto another's position. */
module DragSort {

  /** The list with the item at `from` taken out and put back in at `to`. */
  function Moved<T>(s: seq<T>, from: int, to: int): seq<T>
    requires 0 <= from < |s| && 0 <= to < |s|
  {
    var rest := s[..from] + s[from + 1..];
    rest[..to] + [s[from]] + rest[to..]
  }

  /** The list without the item at `i`. */
  function Without<T>(s: seq<T>, i: int): seq<T>
    requires 0 <= i < |s|
  {
    s[..i] + s[i + 1..]
  }

  /** What ends up at each position: the dragged item at `to`, the items between shifted by one. */
  lemma MovedAt<T>(s: seq<T>, from: int, to: int, k: int)
    requires 0 <= from < |s| && 0 <= to < |s| && 0 <= k < |s|
    ensures |Moved(s, from, to)| == |s|
    ensures Moved(s, from, to)[k] ==
      if k == to then s[from]
      else if from < to && from <= k < to then s[k + 1]
      else if to < from && to < k <= from then s[k - 1]
      else s[k]
  {
  }

  /** Moving keeps the length and the multiset of items. */
  lemma MovedPermutes<T>(s: seq<T>, from: int, to: int)
    requires 0 <= from < |s| && 0 <= to < |s|
    ensures |Moved(s, from, to)| == |s|
    ensures multiset(Moved(s, from, to)) == multiset(s)
  {
    var rest := s[..from] + s[from + 1..];
    assert s == s[..from] + [s[from]] + s[from + 1..];
    assert multiset(s) == multiset(rest) + multiset{s[from]};
    assert rest == rest[..to] + rest[to..];
    assert multiset(Moved(s, from, to)) == multiset(rest[..to]) + multiset{s[from]} + multiset(rest[to..]);
  }

  /** The dragged item lands at `to`, and the others keep their relative order. */
  lemma MovedKeepsOrder<T>(s: seq<T>, from: int, to: int)
    requires 0 <= from < |s| && 0 <= to < |s|
    ensures Moved(s, from, to)[to] == s[from]
    ensures Without(Moved(s, from, to), to) == Without(s, from)
  {
    var rest := s[..from] + s[from + 1..];
    var m := Moved(s, from, to);
    assert m[..to] == rest[..to];
    assert m[to + 1..] == rest[to..];
  }

  /** Dragging the item back to where it came from restores the list. */
  lemma MoveBack<T>(s: seq<T>, from: int, to: int)
    requires 0 <= from < |s| && 0 <= to < |s|
    ensures Moved(Moved(s, from, to), to, from) == s
  {
    var m := Moved(s, from, to);
    forall k | 0 <= k < |s|
      ensures Moved(m, to, from)[k] == s[k]
    {
      MovedAt(s, from, to, k);
      MovedAt(m, to, from, k);
      if k != from {
        if from < to && from <= k < to {
          MovedAt(s, from, to, k + 1);
        } else if to < from && to < k <= from {
          MovedAt(s, from, to, k - 1);
        }
      }
    }
    MovedAt(m, to, from, 0);
  }

  /** The two `splice` calls: moves `a[from]` to position `to`, shifting the items between. */
  method MoveItem<T>(a: array<T>, from: int, to: int)
    requires 0 <= from < a.Length && 0 <= to < a.Length
    modifies a
    ensures a[..] == Moved(old(a[..]), from, to)
  {
    ghost var s := a[..];
    var x := a[from];
    var i := from;
    if from < to {
      while i < to
        invariant from <= i <= to
        invariant forall k :: 0 <= k < from ==> a[k] == s[k]
        invariant forall k :: from <= k < i ==> a[k] == s[k + 1]
        invariant forall k :: i <= k < a.Length ==> a[k] == s[k]
      {
        a[i] := a[i + 1];
        i := i + 1;
      }
    } else {
      while i > to
        invariant to <= i <= from
        invariant forall k :: 0 <= k <= i ==> a[k] == s[k]
        invariant forall k :: i < k <= from ==> a[k] == s[k - 1]
        invariant forall k :: from < k < a.Length ==> a[k] == s[k]
      {
        a[i] := a[i - 1];
        i := i - 1;
      }
    }
    a[to] := x;
    forall k | 0 <= k < a.Length
      ensures a[k] == Moved(s, from, to)[k]
    {
      MovedAt(s, from, to, k);
    }
    MovedAt(s, from, to, 0);
  }

  /**
   * The drag state over one list. The `before…` hooks are handed in as the answers they give
   * (a missing hook answers true); the `after…` hooks are calls out and are not modelled.
   */
  class DragSorter<T> {
    const items: array<T>
    var dragIndex: int
    var isDragging: bool

    /** While a drag is in progress, the dragged position lies inside the list. */
    predicate Valid()
      reads this
    {
      isDragging ==> 0 <= dragIndex < items.Length
    }

    constructor (items: array<T>)
      ensures this.items == items && dragIndex == -1 && !isDragging && Valid()
    {
      this.items := items;
      dragIndex := -1;
      isDragging := false;
    }

    /** `handleDragStart`: starts dragging the item at `index` unless the hook refuses. */
    method HandleDragStart(index: int, allowed: bool)
      requires Valid() && 0 <= index < items.Length
      modifies this
      ensures Valid()
      ensures allowed ==> dragIndex == index && isDragging
      ensures !allowed ==> dragIndex == old(dragIndex) && isDragging == old(isDragging)
    {
      if !allowed {
        return;
      }
      dragIndex := index;
      isDragging := true;
    }

    /**
     * `handleDragEnter`: moves the dragged item to `targetIndex`, unless the target is the dragged
     * position itself, the hook refuses, no drag is in progress or the target lies outside the list.
     */
    method HandleDragEnter(targetIndex: int, allowed: bool)
      requires Valid()
      modifies this, items
      ensures Valid() && isDragging == old(isDragging)
      ensures targetIndex != old(dragIndex) && allowed && old(isDragging) && 0 <= targetIndex < items.Length ==>
        items[..] == Moved(old(items[..]), old(dragIndex), targetIndex) && dragIndex == targetIndex
      ensures !(targetIndex != old(dragIndex) && allowed && old(isDragging) && 0 <= targetIndex < items.Length) ==>
        items[..] == old(items[..]) && dragIndex == old(dragIndex)
    {
      if targetIndex == dragIndex {
        return;
      }
      if !allowed {
        return;
      }
      if !isDragging {
        return;
      }
      if targetIndex < 0 || targetIndex >= items.Length {
        return;
      }
      MoveItem(items, dragIndex, targetIndex);
      dragIndex := targetIndex;
    }

    /** `handleDragOver`: changes nothing; tells whether the `afterDragOver` hook is called. */
    method HandleDragOver(targetIndex: int, allowed: bool) returns (notified: bool)
      ensures notified <==> targetIndex != dragIndex && allowed
    {
      if targetIndex == dragIndex {
        return false;
      }
      if !allowed {
        return false;
      }
      return true;
    }

    /** `handleDragEnd`: ends the drag unless the hook refuses; the dragged position is kept. */
    method HandleDragEnd(allowed: bool)
      requires Valid()
      modifies this
      ensures Valid() && dragIndex == old(dragIndex)
      ensures isDragging == (old(isDragging) && !allowed)
    {
      if !allowed {
        return;
      }
      isDragging := false;
    }
  }
}
