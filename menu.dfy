/** The menu store's tree routines: menus from routes, pruning empty branches, pre-order listing. */
module Menu {
  import opened Wrappers
  import opened Permission

  /** The menu-related part of a route's `meta`. */
  datatype Meta = Meta(title: string, icon: Option<string>, hideInMenu: bool, permission: Requirement,
                       noPermissionMenuStatus: Option<string>)

  /** A route record; `hasChildren` says whether `children` is present (an empty array is present). */
  datatype Route = Route(name: string, meta: Option<Meta>, hasChildren: bool, children: seq<Route>)

  /**
   * `IMenuItem`; `parents` holds the indexes of the generated ancestors, outermost first, and
   * `hasItems` says whether `items` is present.
   */
  datatype MenuItem = MenuItem(index: string, title: string, icon: Option<string>, route: Route,
                               parents: seq<string>, disabled: bool, hasItems: bool, items: seq<MenuItem>)

  /** The status that keeps a forbidden route in the menu, disabled. */
  const DisabledStatus: string := "disabled"

  /** A route yields a menu entry: it has meta, is not hidden, and is permitted or shown disabled. */
  predicate Shown(route: Route, user: seq<string>) {
    route.meta.Some? && !route.meta.value.hideInMenu &&
    (HasPermission(route.meta.value.permission, user) || route.meta.value.noPermissionMenuStatus == Some(DisabledStatus))
  }

  /** `generateMenus(routes, userPermission, parents)`: the `reduce` that pushes one entry per shown route. */
  function GenerateMenus(routes: seq<Route>, user: seq<string>, parents: seq<string>): seq<MenuItem>
    decreases routes
  {
    if routes == [] then []
    else
      var menus := GenerateMenus(routes[..|routes| - 1], user, parents);
      var route := routes[|routes| - 1];
      assert route in routes;
      if route.meta.None? then menus
      else
        var meta := route.meta.value;
        if meta.hideInMenu then menus
        else
          var noPermission := !HasPermission(meta.permission, user);
          if noPermission && meta.noPermissionMenuStatus != Some(DisabledStatus) then menus
          else
            var items :=
              if route.hasChildren && |route.children| > 0
              then GenerateMenus(route.children, user, parents + [route.name])
              else [];
            menus + [MenuItem(route.name, meta.title, meta.icon, route, parents, noPermission, route.hasChildren, items)]
  }

  /** How many routes are shown. */
  function ShownCount(routes: seq<Route>, user: seq<string>): nat {
    if routes == [] then 0
    else ShownCount(routes[..|routes| - 1], user) + if Shown(routes[|routes| - 1], user) then 1 else 0
  }

  /** One entry describes one of the routes: the route is shown, and the entry carries its name,
    * title and icon, the given parents, `disabled` exactly when the user lacks permission, and
    * `items` exactly when the route has children. */
  predicate Describes(m: MenuItem, routes: seq<Route>, user: seq<string>, parents: seq<string>) {
    m.route in routes && Shown(m.route, user) && m.index == m.route.name && m.parents == parents &&
    m.title == m.route.meta.value.title && m.icon == m.route.meta.value.icon &&
    m.disabled == !HasPermission(m.route.meta.value.permission, user) && m.hasItems == m.route.hasChildren
  }

  /** Every generated entry describes a shown route, and there is one entry per shown route. */
  lemma {:induction false} GenerateDescribes(routes: seq<Route>, user: seq<string>, parents: seq<string>)
    ensures forall m :: m in GenerateMenus(routes, user, parents) ==> Describes(m, routes, user, parents)
    ensures |GenerateMenus(routes, user, parents)| == ShownCount(routes, user)
    decreases routes
  {
    if routes != [] {
      var init := routes[..|routes| - 1];
      GenerateDescribes(init, user, parents);
      forall m | m in GenerateMenus(init, user, parents)
        ensures m.route in routes
      {
        assert m.route in init;
      }
    }
  }

  /** The `reduce` walks the routes in order: the menus of a concatenation are the menus of its parts, in order. */
  lemma {:induction false} GenerateAppend(a: seq<Route>, b: seq<Route>, user: seq<string>, parents: seq<string>)
    ensures GenerateMenus(a + b, user, parents) == GenerateMenus(a, user, parents) + GenerateMenus(b, user, parents)
    decreases b
  {
    if b == [] {
      assert a + b == a;
    } else {
      var ab := a + b;
      assert ab[..|ab| - 1] == a + b[..|b| - 1];
      assert ab[|ab| - 1] == b[|b| - 1];
      GenerateAppend(a, b[..|b| - 1], user, parents);
    }
  }

  /** A single route yields exactly one entry when it is shown, and none otherwise. */
  lemma GenerateOne(route: Route, user: seq<string>, parents: seq<string>)
    ensures |GenerateMenus([route], user, parents)| == if Shown(route, user) then 1 else 0
    ensures Shown(route, user) ==> GenerateMenus([route], user, parents)[0].route == route
  {
    assert [route][..0] == [];
  }

  /** Every entry lists as parents the chain of entries it was generated under. */
  predicate ParentsChain(menus: seq<MenuItem>, parents: seq<string>) {
    forall i :: 0 <= i < |menus| ==>
      menus[i].parents == parents && ParentsChain(menus[i].items, parents + [menus[i].index])
  }

  /** Generated menus carry their ancestors' indexes, level by level. */
  lemma {:induction false} GenerateParents(routes: seq<Route>, user: seq<string>, parents: seq<string>)
    ensures ParentsChain(GenerateMenus(routes, user, parents), parents)
    decreases routes
  {
    if routes != [] {
      var init := routes[..|routes| - 1];
      var route := routes[|routes| - 1];
      assert route in routes;
      GenerateParents(init, user, parents);
      if route.hasChildren && |route.children| > 0 {
        GenerateParents(route.children, user, parents + [route.name]);
      }
    }
  }

  /** `filterEmptyMenus`: drops entries whose `items` are, or become, empty; keeps leaves. */
  function FilterEmptyMenus(menus: seq<MenuItem>): seq<MenuItem>
    decreases menus
  {
    if menus == [] then []
    else
      var menu := menus[0];
      assert menu in menus;
      var rest := FilterEmptyMenus(menus[1..]);
      if menu.hasItems then
        if |menu.items| == 0 then rest
        else
          var items := FilterEmptyMenus(menu.items);
          if |items| > 0 then [menu.(items := items)] + rest else rest
      else [menu] + rest
  }

  /** No entry, at any depth, has an empty `items` list. */
  predicate NoEmptyBranch(menus: seq<MenuItem>) {
    forall i :: 0 <= i < |menus| ==> menus[i].hasItems ==> |menus[i].items| > 0 && NoEmptyBranch(menus[i].items)
  }

  /** After filtering no branch is empty. */
  lemma {:induction false} FilterLeavesNoEmpty(menus: seq<MenuItem>)
    ensures NoEmptyBranch(FilterEmptyMenus(menus))
    decreases menus
  {
    if menus != [] {
      var menu := menus[0];
      assert menu in menus;
      FilterLeavesNoEmpty(menus[1..]);
      if menu.hasItems && |menu.items| > 0 {
        FilterLeavesNoEmpty(menu.items);
      }
    }
  }

  /** Menus with no empty branch pass the filter unchanged. */
  lemma {:induction false} FilterKeepsFull(menus: seq<MenuItem>)
    requires NoEmptyBranch(menus)
    ensures FilterEmptyMenus(menus) == menus
    decreases menus
  {
    if menus != [] {
      var menu := menus[0];
      assert menu in menus;
      assert NoEmptyBranch(menus[1..]) by {
        forall i | 0 <= i < |menus[1..]|
          ensures menus[1..][i] == menus[i + 1]
        {
        }
      }
      FilterKeepsFull(menus[1..]);
      if menu.hasItems {
        FilterKeepsFull(menu.items);
        assert menu.(items := menu.items) == menu;
      }
      assert menus == [menu] + menus[1..];
    }
  }

  /** Filtering twice is filtering once. */
  lemma FilterIdempotent(menus: seq<MenuItem>)
    ensures FilterEmptyMenus(FilterEmptyMenus(menus)) == FilterEmptyMenus(menus)
  {
    FilterLeavesNoEmpty(menus);
    FilterKeepsFull(FilterEmptyMenus(menus));
  }

  /** Every leaf entry of the list survives the filter. */
  lemma {:induction false} FilterKeepsLeaves(menus: seq<MenuItem>)
    ensures forall i :: 0 <= i < |menus| && !menus[i].hasItems ==> menus[i] in FilterEmptyMenus(menus)
    decreases menus
  {
    if menus != [] {
      FilterKeepsLeaves(menus[1..]);
      forall i | 0 <= i < |menus| && !menus[i].hasItems
        ensures menus[i] in FilterEmptyMenus(menus)
      {
        if i > 0 {
          assert menus[i] == menus[1..][i - 1];
        }
      }
    }
  }

  /** The entries listed below an entry: its items' listing when it has a non-empty `items`. */
  function Below(m: MenuItem): seq<MenuItem>
    decreases m, 0
  {
    if m.hasItems && |m.items| > 0 then FlatMenu(m.items) else []
  }

  /** `flatMenu`: each entry followed by the listing of its items. */
  function FlatMenu(menus: seq<MenuItem>): seq<MenuItem>
    decreases menus, 1
  {
    if menus == [] then []
    else
      var m := menus[0];
      assert m in menus;
      [m] + Below(m) + FlatMenu(menus[1..])
  }

  /** The listing of two lists is the listing of the first followed by that of the second. */
  lemma {:induction false} FlatAppend(a: seq<MenuItem>, b: seq<MenuItem>)
    ensures FlatMenu(a + b) == FlatMenu(a) + FlatMenu(b)
    decreases a
  {
    if a == [] {
      assert a + b == b;
    } else {
      assert (a + b)[0] == a[0];
      assert (a + b)[1..] == a[1..] + b;
      FlatAppend(a[1..], b);
    }
  }

  /** Pre-order: every entry of the list is immediately followed by its own descendants' listing. */
  lemma {:induction false} PreOrder(menus: seq<MenuItem>, i: int)
    requires 0 <= i < |menus|
    ensures FlatMenu(menus) == FlatMenu(menus[..i]) + [menus[i]] + Below(menus[i]) + FlatMenu(menus[i + 1..])
    decreases i
  {
    var m := menus[0];
    var rest := menus[1..];
    assert FlatMenu(menus) == [m] + Below(m) + FlatMenu(rest);
    if i == 0 {
      assert menus[..0] == [];
      assert menus[1..] == menus[i + 1..];
    } else {
      PreOrder(rest, i - 1);
      var head := menus[..i];
      assert head[0] == m && head[1..] == rest[..i - 1];
      assert FlatMenu(head) == [m] + Below(m) + FlatMenu(rest[..i - 1]);
      assert rest[i - 1] == menus[i] && rest[i..] == menus[i + 1..];
    }
  }

  /** How many entries a forest holds, counting every level. */
  function Size(menus: seq<MenuItem>): nat
    decreases menus
  {
    if menus == [] then 0
    else
      var m := menus[|menus| - 1];
      assert m in menus;
      Size(menus[..|menus| - 1]) + 1 + (if m.hasItems && |m.items| > 0 then Size(m.items) else 0)
  }

  /** The listing has exactly one place per entry of the forest. */
  lemma {:induction false} FlatSize(menus: seq<MenuItem>)
    ensures |FlatMenu(menus)| == Size(menus)
    decreases menus
  {
    if menus != [] {
      var n := |menus| - 1;
      var m := menus[n];
      assert m in menus;
      FlatSize(menus[..n]);
      if m.hasItems && |m.items| > 0 {
        FlatSize(m.items);
      }
      assert menus == menus[..n] + [m];
      FlatAppend(menus[..n], [m]);
      assert FlatMenu([m]) == [m] + Below(m) + FlatMenu([]);
    }
  }
}
