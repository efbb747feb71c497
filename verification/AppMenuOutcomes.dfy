/** What each transformer of the app menu makes of it, told by places in lists and items of
    the tree (app/src/models/app-menu.ts). */
module AppMenuOutcomes {
  import opened Text
  import opened AppMenus
  import opened AppMenuRuns

  /** The item is listed by the open menu at `p`, and by none above. */
  predicate ListedFirst(open: seq<Menu>, item: MenuItem, p: nat) {
    p < |open| && item in open[p].items && forall k :: 0 <= k < p ==> item !in open[k].items
  }

  predicate ListedNowhere(open: seq<Menu>, item: MenuItem) {
    forall k :: 0 <= k < |open| ==> item !in open[k].items
  }

  predicate CanBeSelected(item: MenuItem) {
    match item
    case Normal(_, enabled, visible) => enabled && visible
    case Submenu(_, enabled, visible, _) => enabled && visible
    case Separator(_, _) => false
    case Checkbox(_, enabled, visible, _) => enabled && visible
    case Radio(_, enabled, visible, _) => enabled && visible
  }

  /** The item at the least place that can be selected, or none when there is no such item. */
  ghost predicate FirstThatCanBeSelected(items: seq<MenuItem>, selected: Option<MenuItem>) {
    match selected
    case None => forall k :: 0 <= k < |items| ==> !CanBeSelected(items[k])
    case Some(item) =>
      exists k :: 0 <= k < |items| && items[k] == item && CanBeSelected(item) && forall j :: 0 <= j < k ==> !CanBeSelected(items[j])
  }

  lemma SelectableIs(item: MenuItem)
    ensures Selectable(item) <==> CanBeSelected(item)
  {
  }

  lemma FirstSelectableIs(items: seq<MenuItem>)
    ensures FirstThatCanBeSelected(items, FirstSelectable(items))
  {
    hide Selectable, FirstSelectable, CanBeSelected;
    forall k | 0 <= k < |items|
      ensures Selectable(items[k]) <==> CanBeSelected(items[k])
    {
      SelectableIs(items[k]);
    }
  }

  /** Opening: an unknown item, or one whose menu is not open, changes nothing; an item without
      a submenu is an error. Otherwise its submenu is opened right below the first menu that
      lists it, and has its first selectable item selected exactly when that was asked for. */
  lemma Opened(m: AppMenu, id: string, selectFirstItem: bool)
    ensures var r := WithOpenedMenu(m, id, selectFirstItem);
            if id !in m.menuItemById then r == Success(m)
            else if !m.menuItemById[id].Submenu? then r == Failure(NotASubmenu)
            else
              var item := m.menuItemById[id];
              (ListedNowhere(m.openMenus, item) ==> r == Success(m))
              && forall p: nat :: ListedFirst(m.openMenus, item, p) ==>
                   && r.Success? && r.value.menu == m.menu && r.value.menuItemById == m.menuItemById
                   && |r.value.openMenus| == p + 2 && r.value.openMenus[..p + 1] == m.openMenus[..p + 1]
                   && var last := r.value.openMenus[p + 1];
                      && last.id == item.menu.id && last.items == item.menu.items
                      && if selectFirstItem then FirstThatCanBeSelected(item.menu.items, last.selectedItem)
                         else last.selectedItem == item.menu.selectedItem
  {
    hide FirstSelectable, FirstThatCanBeSelected, MenuListing;
    if id in m.menuItemById && m.menuItemById[id].Submenu? {
      var item := m.menuItemById[id];
      FirstSelectableIs(item.menu.items);
      forall p: nat | ListedFirst(m.openMenus, item, p)
        ensures MenuListing(m.openMenus, item) == p
      {
        ListingIs(m.openMenus, item, p);
      }
    }
  }

  lemma ListingIs(open: seq<Menu>, item: MenuItem, p: nat)
    requires ListedFirst(open, item, p)
    ensures MenuListing(open, item) == p
  {
    hide MenuListing;
  }

  /** Selecting changes nothing when the item is unknown or its menu is not open, clearing
      when the menu is not open; opening, closing and trimming keep tree and index. */
  lemma NothingToChange(m: AppMenu, id: string, menuId: Option<string>)
    ensures id !in m.menuItemById || ListedNowhere(m.openMenus, m.menuItemById[id]) ==> Select(m, id) == m
    ensures (forall k :: 0 <= k < |m.openMenus| ==> m.openMenus[k].id != menuId) ==>
              Deselect(m, menuId) == m && WithClosedMenu(m, menuId) == m && WithLastMenu(m, menuId) == m
    ensures menuId == None || menuId == Some("") ==> WithClosedMenu(m, menuId) == m
    ensures Select(m, id).menu == Deselect(m, menuId).menu == m.menu
    ensures Select(m, id).menuItemById == Deselect(m, menuId).menuItemById == m.menuItemById
    ensures WithClosedMenu(m, menuId).menu == WithLastMenu(m, menuId).menu == m.menu
    ensures WithClosedMenu(m, menuId).menuItemById == WithLastMenu(m, menuId).menuItemById == m.menuItemById
  {
  }

  /** At first, and after a reset, exactly the root is open. */
  lemma ResetOpensRoot(m: AppMenu)
    ensures FromMenu(m.menu) == AppMenu(m.menu, [m.menu], IdMap(m.menu))
    ensures WithReset(m) == AppMenu(m.menu, [m.menu], m.menuItemById)
  {
  }

  // ---------------------------------------------------------------- merging

  /** The item of the tree with the id. */
  ghost predicate InTree(tree: Menu, id: string, item: MenuItem) {
    item in AllItems(tree.items) && item.id == id
  }

  /** An open menu is still there in the tree as `menu`: the root, or the submenu with its id. */
  ghost predicate StillThere(tree: Menu, id: Option<string>, menu: Menu) {
    if id == None || id == Some("") then menu == tree
    else exists item :: InTree(tree, id.value, item) && item.Submenu? && item.menu == menu
  }

  ghost predicate Gone(tree: Menu, id: Option<string>) {
    id != None && id != Some("") && forall item :: InTree(tree, id.value, item) ==> !item.Submenu?
  }

  /** A selection is kept, as the tree's item with its id, exactly when the tree has one. */
  ghost predicate SelectionKept(tree: Menu, was: Option<MenuItem>, now: Option<MenuItem>) {
    match (was, now)
    case (None, _) => now == None
    case (Some(shown), Some(item)) => InTree(tree, shown.id, item)
    case (Some(shown), None) => forall item :: !InTree(tree, shown.id, item)
  }

  lemma IndexHolds(tree: Menu, id: string)
    requires UniqueIds(AllItems(tree.items))
    ensures id in IdMap(tree) ==> InTree(tree, id, IdMap(tree)[id])
    ensures forall item :: InTree(tree, id, item) ==> id in IdMap(tree) && IdMap(tree)[id] == item
  {
    hide UniqueIds, IdMap, AllItems;
    IdMapHoldsTheTree(tree);
  }

  lemma MenuForIs(tree: Menu, id: Option<string>)
    requires UniqueIds(AllItems(tree.items))
    ensures var found := MenuFor(tree, IdMap(tree), id);
            if found.Some? then StillThere(tree, id, found.value) else Gone(tree, id)
  {
    hide UniqueIds, IdMap, AllItems, InTree;
    if id.Some? {
      IndexHolds(tree, id.value);
    }
  }

  lemma SelectionRemade(tree: Menu, menu: Menu, was: Menu)
    requires UniqueIds(AllItems(tree.items))
    ensures var r := Remade(IdMap(tree), menu, was);
            r.id == menu.id && r.items == menu.items && SelectionKept(tree, was.selectedItem, r.selectedItem)
  {
    hide UniqueIds, IdMap, AllItems, InTree;
    if was.selectedItem.Some? {
      IndexHolds(tree, was.selectedItem.value.id);
    }
  }

  /** Open menu `k` is remade from the tree. */
  ghost predicate RemadeFrom(tree: Menu, was: Menu, now: Menu) {
    && (exists menu :: StillThere(tree, was.id, menu) && now.id == menu.id && now.items == menu.items)
    && SelectionKept(tree, was.selectedItem, now.selectedItem)
  }

  lemma {:induction false} MenusRemade(tree: Menu, open: seq<Menu>)
    requires UniqueIds(AllItems(tree.items))
    ensures var r := RemadeMenus(tree, IdMap(tree), open);
            && |r| <= |open| && (forall k :: 0 <= k < |r| ==> RemadeFrom(tree, open[k], r[k]))
            && (|r| < |open| ==> Gone(tree, open[|r|].id))
  {
    hide UniqueIds, IdMap, AllItems, MenuFor, Remade, Gone, StillThere, SelectionKept, RemadeFrom;
    if open != [] {
      MenuForIs(tree, open[0].id);
      var found := MenuFor(tree, IdMap(tree), open[0].id);
      if found.Some? {
        MenusRemade(tree, open[1..]);
        assert RemadeFrom(tree, open[0], Remade(IdMap(tree), found.value, open[0])) by {
          SelectionRemade(tree, found.value, open[0]);
          OneRemade(tree, open[0], Remade(IdMap(tree), found.value, open[0]), found.value);
        }
        var r := RemadeMenus(tree, IdMap(tree), open);
        forall k | 0 <= k < |r|
          ensures RemadeFrom(tree, open[k], r[k])
        {
          if k > 0 {
            assert r[k] == RemadeMenus(tree, IdMap(tree), open[1..])[k - 1] && open[k] == open[1..][k - 1];
          }
        }
      }
    }
  }

  lemma OneRemade(tree: Menu, was: Menu, now: Menu, menu: Menu)
    requires StillThere(tree, was.id, menu) && now.id == menu.id && now.items == menu.items
    requires SelectionKept(tree, was.selectedItem, now.selectedItem)
    ensures RemadeFrom(tree, was, now)
  {
    hide StillThere, SelectionKept;
  }

  /** Merging: the new tree with its index, and the open menus that are still there, from the
      root down to the first that is gone, each with the new items and with its selection kept
      when the new tree has that item and dropped when not. */
  lemma Merged(m: AppMenu, newMenu: Menu)
    requires UniqueIds(AllItems(newMenu.items))
    ensures var r := Merge(m, newMenu); var open := r.openMenus;
            && r.menu == newMenu && r.menuItemById == IdMap(newMenu)
            && |open| <= |m.openMenus| && (forall k :: 0 <= k < |open| ==> RemadeFrom(newMenu, m.openMenus[k], open[k]))
            && (|open| < |m.openMenus| ==> Gone(newMenu, m.openMenus[|open|].id))
  {
    hide UniqueIds, IdMap, AllItems, Gone, RemadeFrom, RemadeMenus;
    MenusRemade(newMenu, m.openMenus);
  }
}
