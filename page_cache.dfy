/** The page-cache store: two independent duplicate-free lists of page names (`useList`). */
module PageCache {

  /** No entry occurs twice. */
  predicate Distinct(s: seq<string>) {
    forall i, j :: 0 <= i < j < |s| ==> s[i] != s[j]
  }

  /** `list.indexOf(item)`: the first position holding the item, or -1. */
  function IndexOf(s: seq<string>, x: string): (i: int)
    ensures -1 <= i < |s|
    ensures i >= 0 ==> s[i] == x && x !in s[..i]
    ensures i == -1 <==> x !in s
  {
    if s == [] then -1
    else if s[0] == x then 0
    else
      var k := IndexOf(s[1..], x);
      assert s == [s[0]] + s[1..];
      if k == -1 then -1 else k + 1
  }

  /** The list with the first occurrence of `x` taken out. */
  function RemoveFirst(s: seq<string>, x: string): seq<string> {
    if s == [] then []
    else if s[0] == x then s[1..]
    else [s[0]] + RemoveFirst(s[1..], x)
  }

  /** `splice(indexOf(x), 1)` takes out the first occurrence. */
  lemma {:induction false} SpliceRemovesFirst(s: seq<string>, x: string)
    requires x in s
    ensures IndexOf(s, x) >= 0
    ensures s[..IndexOf(s, x)] + s[IndexOf(s, x) + 1..] == RemoveFirst(s, x)
  {
    if s[0] != x {
      assert s == [s[0]] + s[1..];
      SpliceRemovesFirst(s[1..], x);
      var k := IndexOf(s[1..], x);
      assert s[..k + 1] == [s[0]] + s[1..][..k];
      assert s[k + 2..] == s[1..][k + 1..];
    }
  }

  /** Removing an absent item changes nothing. */
  lemma {:induction false} RemoveAbsent(s: seq<string>, x: string)
    requires x !in s
    ensures RemoveFirst(s, x) == s
  {
    if s != [] {
      assert s == [s[0]] + s[1..];
      RemoveAbsent(s[1..], x);
    }
  }

  /** Removing takes out exactly one occurrence and keeps every other entry. */
  lemma {:induction false} RemoveOne(s: seq<string>, x: string)
    requires x in s
    ensures multiset(RemoveFirst(s, x)) == multiset(s) - multiset{x}
  {
    assert s == [s[0]] + s[1..];
    if s[0] != x {
      RemoveOne(s[1..], x);
    }
  }

  /** From a duplicate-free list the item is gone afterwards and everything else stays. */
  lemma RemoveFromDistinct(s: seq<string>, x: string)
    requires Distinct(s)
    ensures Distinct(RemoveFirst(s, x))
    ensures forall y :: y in RemoveFirst(s, x) <==> y in s && y != x
  {
    if x in s {
      SpliceRemovesFirst(s, x);
      var i := IndexOf(s, x);
      assert s == s[..i] + [x] + s[i + 1..];
      forall k | i < k < |s|
        ensures s[k] != x
      {
      }
      assert x !in s[i + 1..];
      SubDistinct(s, x);
    } else {
      RemoveAbsent(s, x);
    }
  }

  /** Taking an entry out of a duplicate-free list leaves it duplicate-free. */
  lemma SubDistinct(s: seq<string>, x: string)
    requires Distinct(s) && x in s
    ensures Distinct(RemoveFirst(s, x))
  {
    SpliceRemovesFirst(s, x);
    var i := IndexOf(s, x);
    var r := s[..i] + s[i + 1..];
    forall a, b | 0 <= a < b < |r|
      ensures r[a] != r[b]
    {
      SpliceAt(s, i, a);
      SpliceAt(s, i, b);
    }
  }

  /** Entry `k` of a list with entry `i` cut out is entry `k` or `k + 1` of the list. */
  lemma SpliceAt(s: seq<string>, i: int, k: int)
    requires 0 <= i < |s| && 0 <= k < |s| - 1
    ensures (s[..i] + s[i + 1..])[k] == s[if k < i then k else k + 1]
  {
  }

  /** Appending an absent item keeps the list duplicate-free. */
  lemma AppendDistinct(s: seq<string>, x: string)
    requires Distinct(s) && x !in s
    ensures Distinct(s + [x])
  {
    var r := s + [x];
    forall a, b | 0 <= a < b < |r|
      ensures r[a] != r[b]
    {
      if b == |s| {
        assert r[a] == s[a];
      }
    }
  }

  /** One list of page names, as `useList` keeps it. */
  class ItemList {
    var list: seq<string>

    predicate Valid()
      reads this
    {
      Distinct(list)
    }

    constructor ()
      ensures list == [] && Valid()
    {
      list := [];
    }

    /** `addItem`: appends the item unless it is already there. */
    method AddItem(item: string)
      requires Valid()
      modifies this
      ensures list == if item in old(list) then old(list) else old(list) + [item]
      ensures Valid() && item in list
    {
      if item !in list {
        AppendDistinct(list, item);
        list := list + [item];
      }
    }

    /** `removeItem`: takes out the item's first (only) occurrence, if any. */
    method RemoveItem(item: string)
      requires Valid()
      modifies this
      ensures list == RemoveFirst(old(list), item)
      ensures Valid() && item !in list
    {
      RemoveFromDistinct(list, item);
      var index := IndexOf(list, item);
      if index > -1 {
        SpliceRemovesFirst(list, item);
        list := list[..index] + list[index + 1..];
      } else {
        RemoveAbsent(list, item);
      }
    }
  }

  /** The store: the page limit and the cached and uncached page lists. */
  class PageCacheStore {
    var cachePageSize: int
    const cachedPages: ItemList
    const unCachedPages: ItemList

    predicate Valid()
      reads this, cachedPages, unCachedPages
    {
      cachedPages != unCachedPages && cachedPages.Valid() && unCachedPages.Valid()
    }

    constructor ()
      ensures Valid() && cachePageSize == 10
      ensures cachedPages.list == [] && unCachedPages.list == []
      ensures fresh(cachedPages) && fresh(unCachedPages)
    {
      cachePageSize := 10;
      cachedPages := new ItemList();
      unCachedPages := new ItemList();
    }

    /** `addCachedPage`; the uncached list is left alone. */
    method AddCachedPage(item: string)
      requires Valid()
      modifies cachedPages
      ensures Valid()
      ensures cachedPages.list == if item in old(cachedPages.list) then old(cachedPages.list) else old(cachedPages.list) + [item]
      ensures unCachedPages.list == old(unCachedPages.list)
    {
      cachedPages.AddItem(item);
    }

    /** `removeCachedPage`; the uncached list is left alone. */
    method RemoveCachedPage(item: string)
      requires Valid()
      modifies cachedPages
      ensures Valid()
      ensures cachedPages.list == RemoveFirst(old(cachedPages.list), item)
      ensures unCachedPages.list == old(unCachedPages.list)
    {
      cachedPages.RemoveItem(item);
    }

    /** `addUnCachedPage`; the cached list is left alone. */
    method AddUnCachedPage(item: string)
      requires Valid()
      modifies unCachedPages
      ensures Valid()
      ensures unCachedPages.list == if item in old(unCachedPages.list) then old(unCachedPages.list) else old(unCachedPages.list) + [item]
      ensures cachedPages.list == old(cachedPages.list)
    {
      unCachedPages.AddItem(item);
    }

    /** `removeUnCachedPage`; the cached list is left alone. */
    method RemoveUnCachedPage(item: string)
      requires Valid()
      modifies unCachedPages
      ensures Valid()
      ensures unCachedPages.list == RemoveFirst(old(unCachedPages.list), item)
      ensures cachedPages.list == old(cachedPages.list)
    {
      unCachedPages.RemoveItem(item);
    }
  }
}
