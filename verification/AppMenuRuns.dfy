/** What every run of menu transformers keeps: the open menus are a path in the tree. */
module AppMenuRuns {
  import opened Text
  import opened AppMenus

  // ---------------------------------------------------------------- paths

  /** `child` is the submenu of an item of `parent`. */
  predicate Leads(parent: Menu, child: Menu) {
    exists x :: x in parent.items && x.Submenu? && Some(x.id) == child.id && x.menu.items == child.items
  }

  /** A non-empty path from the root down. */
  predicate IsPath(root: Menu, open: seq<Menu>) {
    && open != [] && open[0].id == root.id && open[0].items == root.items
    && forall k :: 0 < k < |open| ==> Leads(open[k - 1], open[k])
  }

  predicate Invariant(m: AppMenu) {
    && WellFormedTree(m.menu)
    && m.menuItemById == IdMap(m.menu)
    && IsPath(m.menu, m.openMenus)
  }

  lemma {:induction false} SubmenuItemsListed(items: seq<MenuItem>, x: MenuItem, y: MenuItem)
    requires x in AllItems(items) && x.Submenu? && y in x.menu.items
    ensures y in AllItems(items)
    decreases items
  {
    if x == items[0] {
      ItemsListed(items[0].menu.items, y);
    } else if x in AllItems(items[1..]) {
      SubmenuItemsListed(items[1..], x, y);
    } else {
      SubmenuItemsListed(items[0].menu.items, x, y);
    }
  }

  lemma {:induction false} ItemsListed(items: seq<MenuItem>, y: MenuItem)
    requires y in items
    ensures y in AllItems(items)
    decreases |items|
  {
    if y != items[0] {
      ItemsListed(items[1..], y);
    }
  }

  /** Items of open menus are items of the tree. */
  lemma {:induction false} OpenItemsListed(root: Menu, open: seq<Menu>, k: nat, y: MenuItem)
    requires IsPath(root, open) && k < |open| && y in open[k].items
    ensures y in AllItems(root.items)
  {
    if k == 0 {
      ItemsListed(root.items, y);
    } else {
      assert Leads(open[k - 1], open[k]);
      var x :| x in open[k - 1].items && x.Submenu? && Some(x.id) == open[k].id && x.menu.items == open[k].items;
      OpenItemsListed(root, open, k - 1, x);
      SubmenuItemsListed(root.items, x, y);
    }
  }

  /** A path cut short below its first menu is a path. */
  lemma PathPrefix(root: Menu, open: seq<Menu>, n: nat)
    requires IsPath(root, open) && 0 < n <= |open|
    ensures IsPath(root, open[..n])
  {
    forall k | 0 < k < n
      ensures Leads(open[..n][k - 1], open[..n][k])
    {
      assert Leads(open[k - 1], open[k]);
    }
  }

  /** Changing selections keeps a path. */
  lemma PathIgnoresSelection(root: Menu, open: seq<Menu>, other: seq<Menu>)
    requires IsPath(root, open) && |other| == |open|
    requires forall k :: 0 <= k < |open| ==> other[k].id == open[k].id && other[k].items == open[k].items
    ensures IsPath(root, other)
  {
    forall k | 0 < k < |other|
      ensures Leads(other[k - 1], other[k])
    {
      assert Leads(open[k - 1], open[k]);
    }
  }

  // ---------------------------------------------------------------- each transformer keeps it

  lemma FromMenuKeeps(menu: Menu)
    requires WellFormedTree(menu)
    ensures Invariant(FromMenu(menu))
  {
  }

  lemma OpenKeeps(m: AppMenu, id: string, selectFirstItem: bool)
    requires Invariant(m)
    ensures var r := WithOpenedMenu(m, id, selectFirstItem); r.Success? ==> Invariant(r.value)
  {
    hide AllItems, UniqueIds, Record, FirstSelectable;
    var r := WithOpenedMenu(m, id, selectFirstItem);
    if r.Success? && r.value != m {
      IdMapHoldsTheTree(m.menu) by {
        assert WellFormedTree(m.menu);
      }
      var item := m.menuItemById[id];
      var parent := MenuListing(m.openMenus, item);
      var open := r.value.openMenus;
      PathPrefix(m.menu, m.openMenus, parent + 1);
      forall k | 0 < k < |open|
        ensures Leads(open[k - 1], open[k])
      {
        if k <= parent {
          assert Leads(m.openMenus[k - 1], m.openMenus[k]);
        } else {
          assert item in open[k - 1].items;
        }
      }
    }
  }

  lemma CloseKeeps(m: AppMenu, id: Option<string>)
    requires Invariant(m)
    ensures Invariant(WithClosedMenu(m, id))
  {
    hide AllItems, UniqueIds, IdMap;
    var k := MenuWithId(m.openMenus, id);
    if !NoId(id) && k != -1 {
      PathPrefix(m.menu, m.openMenus, k);
    }
  }

  lemma LastKeeps(m: AppMenu, id: Option<string>)
    requires Invariant(m)
    ensures Invariant(WithLastMenu(m, id))
  {
    hide AllItems, UniqueIds, IdMap;
    var k := MenuWithId(m.openMenus, id);
    if k != -1 {
      PathPrefix(m.menu, m.openMenus, k + 1);
    }
  }

  lemma SelectKeeps(m: AppMenu, id: string)
    requires Invariant(m)
    ensures Invariant(Select(m, id))
  {
    hide AllItems, UniqueIds, IdMap;
    PathIgnoresSelection(m.menu, m.openMenus, Select(m, id).openMenus);
  }

  lemma DeselectKeeps(m: AppMenu, id: Option<string>)
    requires Invariant(m)
    ensures Invariant(Deselect(m, id))
  {
    hide AllItems, UniqueIds, IdMap;
    PathIgnoresSelection(m.menu, m.openMenus, Deselect(m, id).openMenus);
  }

  lemma ResetKeeps(m: AppMenu)
    requires Invariant(m)
    ensures Invariant(WithReset(m))
  {
  }

  /** Opening a submenu leaves it last, below the menu that lists its item, and opens
      nothing else. */
  lemma OpenedMenuIsLast(m: AppMenu, id: string, selectFirstItem: bool)
    requires Invariant(m) && id in m.menuItemById && m.menuItemById[id].Submenu?
    requires MenuListing(m.openMenus, m.menuItemById[id]) != -1
    ensures var r := WithOpenedMenu(m, id, selectFirstItem);
            && r.Success? && |r.value.openMenus| >= 2
            && var open := r.value.openMenus; var last := open[|open| - 1];
               && open[..|open| - 1] <= m.openMenus
               && m.menuItemById[id] in open[|open| - 2].items
               && last.id == Some(id) && last.items == m.menuItemById[id].menu.items
  {
    hide AllItems, UniqueIds, Record, FirstSelectable;
    assert UniqueIds(AllItems(m.menu.items));
    IdMapHoldsTheTree(m.menu);
    var parent := MenuListing(m.openMenus, m.menuItemById[id]);
    var open := WithOpenedMenu(m, id, selectFirstItem).value.openMenus;
    assert open[..|open| - 1] == m.openMenus[..parent + 1];
  }

  /** Closing a menu leaves no open menu with its id, and only closes it and menus below. */
  lemma ClosedMenuIsGone(m: AppMenu, id: Option<string>)
    requires Invariant(m) && !NoId(id)
    ensures var open := WithClosedMenu(m, id).openMenus;
            && open <= m.openMenus
            && (forall k :: 0 <= k < |open| ==> open[k].id != id)
            && (|open| < |m.openMenus| ==> m.openMenus[|open|].id == id)
  {
    hide Invariant;
    FirstWithId(m.openMenus, id);
  }

  /** Trimming to a menu that is open leaves it last. */
  lemma TrimmedMenuIsLast(m: AppMenu, id: Option<string>)
    requires Invariant(m)
    ensures var open := WithLastMenu(m, id).openMenus;
            && open <= m.openMenus
            && (if exists k :: 0 <= k < |m.openMenus| && m.openMenus[k].id == id
                then open[|open| - 1].id == id && forall k :: 0 <= k < |open| - 1 ==> open[k].id != id
                else open == m.openMenus)
  {
    FirstWithId(m.openMenus, id);
  }

  lemma {:induction false} FirstWithId(open: seq<Menu>, id: Option<string>)
    ensures MenuWithId(open, id) >= 0 ==> forall k :: 0 <= k < MenuWithId(open, id) ==> open[k].id != id
  {
    if open != [] && open[0].id != id {
      FirstWithId(open[1..], id);
    }
  }

  // ---------------------------------------------------------------- merging a new tree

  /** The menu lists a submenu item with the id. */
  predicate Lists(menu: Menu, id: Option<string>) {
    exists x :: x in menu.items && x.Submenu? && Some(x.id) == id
  }

  /** How many of the open menus, from the top, are still there in the new tree. */
  function Surviving(menu: Menu, open: seq<Menu>): (n: nat)
    ensures n <= |open|
    ensures forall k :: 0 <= k < n ==> MenuFor(menu, IdMap(menu), open[k].id).Some?
  {
    if open == [] || MenuFor(menu, IdMap(menu), open[0].id).None? then 0 else 1 + Surviving(menu, open[1..])
  }

  /** In the new tree each surviving open submenu is listed by the menu it was opened from. */
  predicate KeepsParents(menu: Menu, open: seq<Menu>) {
    forall k :: 0 < k < Surviving(menu, open) ==> Lists(MenuFor(menu, IdMap(menu), open[k - 1].id).value, open[k].id)
  }

  lemma {:induction false} RemadeAt(menu: Menu, open: seq<Menu>)
    ensures var r := RemadeMenus(menu, IdMap(menu), open);
            && |r| == Surviving(menu, open)
            && forall k :: 0 <= k < |r| ==>
                 && r[k].id == MenuFor(menu, IdMap(menu), open[k].id).value.id
                 && r[k].items == MenuFor(menu, IdMap(menu), open[k].id).value.items
  {
    hide IdMap, MenuFor;
    if open != [] && MenuFor(menu, IdMap(menu), open[0].id).Some? {
      RemadeAt(menu, open[1..]);
    }
  }

  /** The menu that stands for an id has that id, and is the root only for no id. */
  lemma MenuForHasId(menu: Menu, id: Option<string>)
    requires WellFormedTree(menu) && MenuFor(menu, IdMap(menu), id).Some?
    ensures MenuFor(menu, IdMap(menu), id).value.id == if NoId(id) then None else id
    ensures !NoId(id) ==> IdMap(menu)[id.value] in AllItems(menu.items) && IdMap(menu)[id.value].id == id.value
  {
    hide AllItems, UniqueIds, Record;
    assert UniqueIds(AllItems(menu.items));
    IdMapHoldsTheTree(menu);
  }

  /** Every item of a menu that stands for an id is an item of the tree. */
  lemma MenuForListed(menu: Menu, id: Option<string>, x: MenuItem)
    requires WellFormedTree(menu) && MenuFor(menu, IdMap(menu), id).Some?
    requires x in MenuFor(menu, IdMap(menu), id).value.items
    ensures x in AllItems(menu.items)
  {
    hide UniqueIds, Record;
    MenuForHasId(menu, id);
    if NoId(id) {
      ItemsListed(menu.items, x);
    } else {
      SubmenuItemsListed(menu.items, IdMap(menu)[id.value], x);
    }
  }

  /** Merging keeps the open menus a path exactly when the new tree keeps the parents of
      the open menus that survive. */
  lemma MergeKeepsPathIff(m: AppMenu, newMenu: Menu)
    requires Invariant(m) && WellFormedTree(newMenu)
    ensures Invariant(Merge(m, newMenu)) <==> KeepsParents(newMenu, m.openMenus)
  {
    hide Record, UniqueIds, AllItems, Surviving, MenuFor, WellFormedTree, IdMap;
    var r := Merge(m, newMenu).openMenus;
    RemadeAt(newMenu, m.openMenus);
    RootSurvives(m, newMenu);
    if KeepsParents(newMenu, m.openMenus) {
      forall k | 0 < k < |r|
        ensures Leads(r[k - 1], r[k])
      {
        var parent := MenuFor(newMenu, IdMap(newMenu), m.openMenus[k - 1].id).value;
        assert Lists(parent, m.openMenus[k].id);
        ListedIsChild(newMenu, m.openMenus[k - 1].id, m.openMenus[k].id);
      }
    }
    if Invariant(Merge(m, newMenu)) {
      forall k | 0 < k < Surviving(newMenu, m.openMenus)
        ensures Lists(MenuFor(newMenu, IdMap(newMenu), m.openMenus[k - 1].id).value, m.openMenus[k].id)
      {
        assert Leads(r[k - 1], r[k]);
        OpenIdsBelowRoot(m, k);
        MenuForHasId(newMenu, m.openMenus[k].id);
      }
    }
  }

  lemma RootSurvives(m: AppMenu, newMenu: Menu)
    requires Invariant(m) && WellFormedTree(newMenu)
    ensures Surviving(newMenu, m.openMenus) > 0
    ensures MenuFor(newMenu, IdMap(newMenu), m.openMenus[0].id) == Some(newMenu)
  {
  }

  lemma OpenIdsBelowRoot(m: AppMenu, k: nat)
    requires Invariant(m) && 0 < k < |m.openMenus|
    ensures !NoId(m.openMenus[k].id)
  {
    assert Leads(m.openMenus[k - 1], m.openMenus[k]);
    var x :| x in m.openMenus[k - 1].items && x.Submenu? && Some(x.id) == m.openMenus[k].id;
    OpenItemsListed(m.menu, m.openMenus, k - 1, x);
  }

  /** With unique ids, the listed item is the one the map holds. */
  lemma ListedIsChild(menu: Menu, parent: Option<string>, id: Option<string>)
    requires WellFormedTree(menu)
    requires MenuFor(menu, IdMap(menu), parent).Some? && MenuFor(menu, IdMap(menu), id).Some?
    requires Lists(MenuFor(menu, IdMap(menu), parent).value, id)
    ensures Leads(MenuFor(menu, IdMap(menu), parent).value, MenuFor(menu, IdMap(menu), id).value)
  {
    hide Record, UniqueIds, AllItems;
    var p := MenuFor(menu, IdMap(menu), parent).value;
    var x :| x in p.items && x.Submenu? && Some(x.id) == id;
    MenuForListed(menu, parent, x);
    assert UniqueIds(AllItems(menu.items));
    IdMapHoldsTheTree(menu);
  }

  /** `x` is a submenu item of the menu with the id. */
  predicate SubmenuOf(menu: Menu, parent: Option<string>, x: MenuItem) {
    MenuFor(menu, IdMap(menu), parent).Some? && x in MenuFor(menu, IdMap(menu), parent).value.items && x.Submenu?
  }

  /** Every submenu of the old tree that is still a submenu in the new one, and whose
      parent is too, still has that parent. */
  ghost predicate SameParents(was: Menu, now: Menu) {
    forall parent: Option<string>, x: MenuItem :: SubmenuOf(was, parent, x) ==>
      MenuFor(now, IdMap(now), parent).Some? && MenuFor(now, IdMap(now), Some(x.id)).Some? ==>
        Lists(MenuFor(now, IdMap(now), parent).value, Some(x.id))
  }

  /** The open menus are the menus of the tree with their ids. */
  lemma OpenMenuIsMenuFor(m: AppMenu, k: nat)
    requires Invariant(m) && k < |m.openMenus|
    ensures MenuFor(m.menu, IdMap(m.menu), m.openMenus[k].id).Some?
    ensures MenuFor(m.menu, IdMap(m.menu), m.openMenus[k].id).value.items == m.openMenus[k].items
  {
    hide UniqueIds, AllItems, Record;
    if k > 0 {
      assert Leads(m.openMenus[k - 1], m.openMenus[k]);
      var x :| x in m.openMenus[k - 1].items && x.Submenu? && Some(x.id) == m.openMenus[k].id
               && x.menu.items == m.openMenus[k].items;
      OpenItemsListed(m.menu, m.openMenus, k - 1, x);
      assert UniqueIds(AllItems(m.menu.items));
      IdMapHoldsTheTree(m.menu);
    }
  }

  lemma SameParentsKeeps(m: AppMenu, newMenu: Menu)
    requires Invariant(m) && WellFormedTree(newMenu) && SameParents(m.menu, newMenu)
    ensures Invariant(Merge(m, newMenu))
  {
    hide UniqueIds, AllItems, Record, MenuFor, IdMap;
    forall k | 0 < k < Surviving(newMenu, m.openMenus)
      ensures Lists(MenuFor(newMenu, IdMap(newMenu), m.openMenus[k - 1].id).value, m.openMenus[k].id)
    {
      OpenMenuIsMenuFor(m, k - 1);
      assert Leads(m.openMenus[k - 1], m.openMenus[k]);
      var x :| x in m.openMenus[k - 1].items && x.Submenu? && Some(x.id) == m.openMenus[k].id;
      assert SubmenuOf(m.menu, m.openMenus[k - 1].id, x);
    }
    MergeKeepsPathIff(m, newMenu);
  }

  /** Moving a submenu to another parent while it is open breaks the path: here B moves
      from A to the root, and the open menus become root, A, B although A no longer lists B. */
  lemma MovedSubmenuBreaksPath() returns (m: AppMenu, newMenu: Menu)
    ensures Invariant(m) && WellFormedTree(newMenu)
    ensures !Invariant(Merge(m, newMenu))
  {
    var b := Submenu("B", true, true, Menu(Some("B"), [], None));
    var a := Submenu("A", true, true, Menu(Some("A"), [b], None));
    var bareA := Submenu("A", true, true, Menu(Some("A"), [], None));
    var root := Menu(None, [a], None);
    newMenu := Menu(None, [bareA, b], None);
    assert AllItems([b]) == [b] && AllItems([]) == [];
    assert AllItems([a]) == [a, b];
    assert [bareA, b][1..] == [b];
    assert AllItems([bareA, b]) == [bareA, b];
    m := AppMenu(root, [root, a.menu, b.menu], IdMap(root));
    assert a in root.items && Leads(root, a.menu);
    assert b in a.menu.items && Leads(a.menu, b.menu);
    assert Invariant(m);
    IdMapHoldsTheTree(newMenu);
    assert m.openMenus[1..] == [a.menu, b.menu] && m.openMenus[1..][1..] == [b.menu];
    assert bareA in AllItems(newMenu.items) && b in AllItems(newMenu.items);
    assert Surviving(newMenu, [b.menu]) == 1 && Surviving(newMenu, [a.menu, b.menu]) == 2;
    assert Surviving(newMenu, m.openMenus) == 3;
    assert !Lists(bareA.menu, Some("B"));
    MergeKeepsPathIff(m, newMenu);
  }

  // ---------------------------------------------------------------- runs

  datatype Operation =
    | Open(id: string, selectFirstItem: bool)
    | Close(menuId: Option<string>)
    | Last(menuId: Option<string>)
    | SelectItem(id: string)
    | DeselectMenu(menuId: Option<string>)
    | Reset
    | NewTree(menu: Menu)

  /** One transformer. One that throws leaves the old menu in place. */
  function Apply(m: AppMenu, op: Operation): AppMenu {
    match op
    case Open(id, first) => var r := WithOpenedMenu(m, id, first); if r.Success? then r.value else m
    case Close(id) => WithClosedMenu(m, id)
    case Last(id) => WithLastMenu(m, id)
    case SelectItem(id) => Select(m, id)
    case DeselectMenu(id) => Deselect(m, id)
    case Reset => WithReset(m)
    case NewTree(menu) => Merge(m, menu)
  }

  function Run(m: AppMenu, ops: seq<Operation>): AppMenu
    decreases |ops|
  {
    if ops == [] then m else Run(Apply(m, ops[0]), ops[1..])
  }

  /** Every new tree of the run is well formed and keeps the parents of submenus. */
  ghost predicate KeepsTrees(menu: Menu, ops: seq<Operation>)
    decreases |ops|
  {
    ops == [] ||
    (if ops[0].NewTree?
     then WellFormedTree(ops[0].menu) && SameParents(menu, ops[0].menu) && KeepsTrees(ops[0].menu, ops[1..])
     else KeepsTrees(menu, ops[1..]))
  }

  lemma StepKeeps(m: AppMenu, op: Operation)
    requires Invariant(m)
    requires op.NewTree? ==> WellFormedTree(op.menu) && SameParents(m.menu, op.menu)
    ensures Invariant(Apply(m, op))
    ensures Apply(m, op).menu == if op.NewTree? then op.menu else m.menu
  {
    hide Invariant, WellFormedTree, SameParents, PathSelected, ClearedFrom, MenuListing, MenuWithId, FirstSelectable, RemadeMenus, IdMap;
    match op
    case Open(id, first) => OpenKeeps(m, id, first);
    case Close(id) => CloseKeeps(m, id);
    case Last(id) => LastKeeps(m, id);
    case SelectItem(id) => SelectKeeps(m, id);
    case DeselectMenu(id) => DeselectKeeps(m, id);
    case Reset => ResetKeeps(m);
    case NewTree(menu) => SameParentsKeeps(m, menu);
  }

  /** Over every run of transformers the open menus stay a non-empty path from the
      root, and the id map stays that of the tree. */
  lemma {:induction false} RunsKeepPath(m: AppMenu, ops: seq<Operation>)
    requires Invariant(m) && KeepsTrees(m.menu, ops)
    ensures Invariant(Run(m, ops))
    decreases |ops|
  {
    hide Invariant, WellFormedTree, SameParents, Apply;
    if ops != [] {
      StepKeeps(m, ops[0]);
      RunsKeepPath(Apply(m, ops[0]), ops[1..]);
    }
  }

  // ---------------------------------------------------------------- selection paths

  /** The menu selects the item whose submenu is `child`. */
  predicate PointsTo(menu: Menu, child: Menu) {
    && menu.selectedItem.Some?
    && var x := menu.selectedItem.value;
       x in menu.items && x.Submenu? && Some(x.id) == child.id && x.menu.items == child.items
  }

  lemma {:induction false} FindSubmenuFinds(items: seq<MenuItem>, id: Option<string>)
    ensures var r := FindSubmenu(items, id);
            && (r.Some? ==> r.value in items && r.value.Submenu? && Some(r.value.id) == id)
            && (r.None? ==> forall x :: x in items ==> !(x.Submenu? && Some(x.id) == id))
  {
    if items != [] {
      FindSubmenuFinds(items[1..], id);
      assert forall x :: x in items ==> x == items[0] || x in items[1..];
    }
  }

  /** In a path of a tree with unique ids, looking for the next menu's id finds its item. */
  lemma PathItemFound(m: AppMenu, i: nat)
    requires Invariant(m) && i + 1 < |m.openMenus|
    ensures PointsTo(m.openMenus[i].(selectedItem := FindSubmenu(m.openMenus[i].items, m.openMenus[i + 1].id)), m.openMenus[i + 1])
  {
    hide UniqueIds, AllItems, Record;
    var open := m.openMenus;
    assert Leads(open[i], open[i + 1]);
    var x :| x in open[i].items && x.Submenu? && Some(x.id) == open[i + 1].id && x.menu.items == open[i + 1].items;
    FindSubmenuFinds(open[i].items, open[i + 1].id);
    var found := FindSubmenu(open[i].items, open[i + 1].id).value;
    OpenItemsListed(m.menu, open, i, x);
    OpenItemsListed(m.menu, open, i, found);
    assert UniqueIds(AllItems(m.menu.items));
    IdMapHoldsTheTree(m.menu);
  }

  /** After selecting an item of an open menu, every menu above selects the item that
      leads to the next one, the item's menu selects it, and deeper menus select nothing. */
  lemma SelectionPath(m: AppMenu, id: string)
    requires Invariant(m)
    requires id in m.menuItemById && MenuListing(m.openMenus, m.menuItemById[id]) != -1
    ensures var p := MenuListing(m.openMenus, m.menuItemById[id]); var r := Select(m, id).openMenus;
            && |r| == |m.openMenus|
            && (forall i :: 0 <= i < p ==> PointsTo(r[i], r[i + 1]))
            && r[p].selectedItem == Some(m.menuItemById[id]) && m.menuItemById[id].id == id
            && m.menuItemById[id] in r[p].items
            && (forall i :: p < i < |r| ==> r[i].selectedItem == None)
            && forall i :: 0 <= i < |r| ==> r[i].id == m.openMenus[i].id && r[i].items == m.openMenus[i].items
  {
    hide UniqueIds, AllItems, Record, Leads, Invariant, PointsTo, MenuListing, Select, FindSubmenu;
    var open, p, r := m.openMenus, MenuListing(m.openMenus, m.menuItemById[id]), Select(m, id).openMenus;
    ItemHasId(m, id);
    SelectedMenus(m, id);
    forall i | 0 <= i < p
      ensures PointsTo(r[i], r[i + 1])
    {
      PathItemFound(m, i);
      PointsToIgnoresSelection(r[i], open[i + 1], r[i + 1]);
    }
  }

  lemma ItemHasId(m: AppMenu, id: string)
    requires Invariant(m) && id in m.menuItemById
    ensures m.menuItemById[id].id == id
  {
    hide UniqueIds, AllItems, Record;
    assert UniqueIds(AllItems(m.menu.items));
    IdMapHoldsTheTree(m.menu);
  }

  /** The menus above are pointed to the next one, one selects the item, the others are cleared. */
  lemma SelectedMenus(m: AppMenu, id: string)
    requires id in m.menuItemById && MenuListing(m.openMenus, m.menuItemById[id]) != -1
    ensures var open, r := m.openMenus, Select(m, id).openMenus;
            var p := MenuListing(open, m.menuItemById[id]);
            && 0 <= p < |open| == |r|
            && r[p] == open[p].(selectedItem := Some(m.menuItemById[id])) && m.menuItemById[id] in r[p].items
            && (forall i :: 0 <= i < |r| ==> r[i].id == open[i].id && r[i].items == open[i].items)
            && (forall i :: 0 <= i < p ==> r[i] == open[i].(selectedItem := FindSubmenu(open[i].items, open[i + 1].id)))
            && forall i :: p < i < |r| ==> r[i].selectedItem == None
  {
    hide FindSubmenu;
    var item := m.menuItemById[id];
    var p := MenuListing(m.openMenus, item);
    var own := ClearedFrom(m.openMenus[p := m.openMenus[p].(selectedItem := Some(item))], p + 1);
    assert forall i :: 0 <= i < |own| ==> own[i].id == m.openMenus[i].id && own[i].items == m.openMenus[i].items;
    assert Select(m, id).openMenus == PathSelected(own, p);
  }

  /** After clearing the selection of an open menu, every menu above selects the item
      that leads to the next one, the menu selects nothing, and deeper menus are untouched. */
  lemma DeselectionPath(m: AppMenu, id: Option<string>)
    requires Invariant(m) && MenuWithId(m.openMenus, id) != -1
    ensures var p := MenuWithId(m.openMenus, id); var r := Deselect(m, id).openMenus;
            && |r| == |m.openMenus|
            && (forall i :: 0 <= i < p ==> PointsTo(r[i], r[i + 1]))
            && r[p].id == id && r[p].selectedItem == None
            && (forall i :: p < i < |r| ==> r[i] == m.openMenus[i])
            && forall i :: 0 <= i < |r| ==> r[i].id == m.openMenus[i].id && r[i].items == m.openMenus[i].items
  {
    hide UniqueIds, AllItems, Record, Leads, Invariant, PointsTo, MenuWithId, Deselect, FindSubmenu;
    var open, p, r := m.openMenus, MenuWithId(m.openMenus, id), Deselect(m, id).openMenus;
    DeselectedMenus(m, id);
    forall i | 0 <= i < p
      ensures PointsTo(r[i], r[i + 1])
    {
      PathItemFound(m, i);
      PointsToIgnoresSelection(r[i], open[i + 1], r[i + 1]);
    }
  }

  /** The menus above are pointed to the next one, one is cleared, the others stay. */
  lemma DeselectedMenus(m: AppMenu, id: Option<string>)
    requires MenuWithId(m.openMenus, id) != -1
    ensures var open, p, r := m.openMenus, MenuWithId(m.openMenus, id), Deselect(m, id).openMenus;
            && 0 <= p < |open| == |r| && open[p].id == id
            && r[p] == open[p].(selectedItem := None)
            && (forall i :: 0 <= i < |r| ==> r[i].id == open[i].id && r[i].items == open[i].items)
            && (forall i :: 0 <= i < p ==> r[i] == open[i].(selectedItem := FindSubmenu(open[i].items, open[i + 1].id)))
            && forall i :: p < i < |r| ==> r[i] == open[i]
  {
    hide FindSubmenu;
    var p := MenuWithId(m.openMenus, id);
    var cleared := m.openMenus[p := m.openMenus[p].(selectedItem := None)];
    assert forall i :: 0 <= i < |cleared| ==> cleared[i].id == m.openMenus[i].id && cleared[i].items == m.openMenus[i].items;
    assert Deselect(m, id).openMenus == PathSelected(cleared, p);
  }

  lemma PointsToIgnoresSelection(above: Menu, below: Menu, other: Menu)
    requires PointsTo(above, below) && other.id == below.id && other.items == below.items
    ensures PointsTo(above, other)
  {
  }
}
