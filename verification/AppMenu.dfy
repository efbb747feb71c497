/** The application menu and which of its menus are open (app/src/models/app-menu.ts).
    `AppMenu` is immutable, so it is a value; its transformers are functions, and the
    ones the source writes as loops are also methods proved to compute them. */
module AppMenus {
  import opened Text

  datatype MenuItem =
    | Normal(id: string, enabled: bool, visible: bool)
    | Submenu(id: string, enabled: bool, visible: bool, menu: Menu)
    | Separator(id: string, visible: bool)
    | Checkbox(id: string, enabled: bool, visible: bool, checked: bool)
    | Radio(id: string, enabled: bool, visible: bool, checked: bool)

  /** A menu shares its id with the item that owns it; the root menu has none. */
  datatype Menu = Menu(id: Option<string>, items: seq<MenuItem>, selectedItem: Option<MenuItem>)

  datatype AppMenu = AppMenu(menu: Menu, openMenus: seq<Menu>, menuItemById: map<string, MenuItem>)

  datatype MenuError = NotASubmenu

  // ---------------------------------------------------------------- trees

  /** All items under these, in the order `buildIdMap` meets them. */
  function AllItems(items: seq<MenuItem>): seq<MenuItem>
    decreases items
  {
    if items == [] then []
    else
      [items[0]] + (if items[0].Submenu? then AllItems(items[0].menu.items) else []) + AllItems(items[1..])
  }

  predicate UniqueIds(items: seq<MenuItem>) {
    forall i, j :: 0 <= i < j < |items| ==> items[i].id != items[j].id
  }

  /** What `menuFromElectronMenu` builds: a root without id, non-empty ids that are all
      different, and submenus that share the id of their item. */
  predicate WellFormedTree(menu: Menu) {
    && menu.id == None
    && UniqueIds(AllItems(menu.items))
    && forall x :: x in AllItems(menu.items) ==> x.id != "" && (x.Submenu? ==> x.menu.id == Some(x.id))
  }

  // ---------------------------------------------------------------- the id map

  /** The id map after recording these items and everything under them. */
  function Record(items: seq<MenuItem>, entries: map<string, MenuItem>): map<string, MenuItem>
    decreases items
  {
    if items == [] then entries
    else
      var own := entries[items[0].id := items[0]];
      Record(items[1..], if items[0].Submenu? then Record(items[0].menu.items, own) else own)
  }

  function IdMap(menu: Menu): map<string, MenuItem> {
    Record(menu.items, map[])
  }

  /** The shared map `buildIdMap` fills. */
  class Index {
    var entries: map<string, MenuItem>

    constructor ()
      ensures entries == map[]
    {
      entries := map[];
    }
  }

  method BuildIdMap(menu: Menu, index: Index)
    modifies index
    ensures index.entries == Record(menu.items, old(index.entries))
    decreases menu
  {
    var i := 0;
    while i < |menu.items|
      invariant 0 <= i <= |menu.items|
      invariant Record(menu.items[i..], index.entries) == Record(menu.items, old(index.entries))
    {
      var item := menu.items[i];
      assert menu.items[i..][1..] == menu.items[i + 1..];
      index.entries := index.entries[item.id := item];
      if item.Submenu? {
        BuildIdMap(item.menu, index);
      }
      i := i + 1;
    }
  }

  function RecordFlat(items: seq<MenuItem>, entries: map<string, MenuItem>): map<string, MenuItem> {
    if items == [] then entries else RecordFlat(items[1..], entries[items[0].id := items[0]])
  }

  lemma {:induction false} RecordFlatConcat(x: seq<MenuItem>, y: seq<MenuItem>, entries: map<string, MenuItem>)
    ensures RecordFlat(x + y, entries) == RecordFlat(y, RecordFlat(x, entries))
  {
    if x == [] {
      assert x + y == y;
    } else {
      assert (x + y)[1..] == x[1..] + y;
      RecordFlatConcat(x[1..], y, entries[x[0].id := x[0]]);
    }
  }

  lemma {:induction false} RecordIsFlat(items: seq<MenuItem>, entries: map<string, MenuItem>)
    ensures Record(items, entries) == RecordFlat(AllItems(items), entries)
    decreases items
  {
    if items != [] {
      var own := entries[items[0].id := items[0]];
      var under := if items[0].Submenu? then AllItems(items[0].menu.items) else [];
      if items[0].Submenu? {
        RecordIsFlat(items[0].menu.items, own);
      }
      RecordIsFlat(items[1..], RecordFlat(under, own));
      RecordFlatConcat([items[0]] + under, AllItems(items[1..]), entries);
      RecordFlatConcat([items[0]], under, entries);
      assert [items[0]][1..] == [];
    }
  }

  lemma {:induction false} RecordFlatHolds(items: seq<MenuItem>, entries: map<string, MenuItem>)
    requires UniqueIds(items)
    ensures var r := RecordFlat(items, entries);
            && (forall x :: x in items ==> x.id in r && r[x.id] == x)
            && (forall id :: (forall x :: x in items ==> x.id != id) ==> (id in r <==> id in entries) && (id in r ==> r[id] == entries[id]))
    decreases |items|
  {
    if items != [] {
      RecordFlatHolds(items[1..], entries[items[0].id := items[0]]);
      assert forall x :: x in items ==> x == items[0] || x in items[1..];
      assert forall x :: x in items[1..] ==> x.id != items[0].id;
    }
  }

  /** With unique ids the map holds exactly the items of the tree, each under its id. */
  lemma IdMapHoldsTheTree(menu: Menu)
    requires UniqueIds(AllItems(menu.items))
    ensures forall x :: x in AllItems(menu.items) ==> x.id in IdMap(menu) && IdMap(menu)[x.id] == x
    ensures forall id :: id in IdMap(menu) ==> IdMap(menu)[id] in AllItems(menu.items) && IdMap(menu)[id].id == id
  {
    var flat := AllItems(menu.items);
    RecordIsFlat(menu.items, map[]);
    RecordFlatHolds(flat, map[]);
    forall id | id in IdMap(menu)
      ensures IdMap(menu)[id] in flat && IdMap(menu)[id].id == id
    {
      if forall x :: x in flat ==> x.id != id {
        assert false;
      }
    }
  }

  // ---------------------------------------------------------------- transformers

  predicate Selectable(item: MenuItem) {
    !item.Separator? && item.enabled && item.visible
  }

  function FirstSelectable(items: seq<MenuItem>): (r: Option<MenuItem>)
    ensures r.None? ==> forall x :: x in items ==> !Selectable(x)
    ensures r.Some? ==>
              exists k :: 0 <= k < |items| && items[k] == r.value && Selectable(items[k])
                          && forall j :: 0 <= j < k ==> !Selectable(items[j])
  {
    if items == [] then None
    else if Selectable(items[0]) then Some(items[0])
    else FirstSelectable(items[1..])
  }

  /** `items.find(item => item.type === 'submenuItem' && item.id === id)` */
  function FindSubmenu(items: seq<MenuItem>, id: Option<string>): Option<MenuItem> {
    if items == [] then None
    else if items[0].Submenu? && Some(items[0].id) == id then Some(items[0])
    else FindSubmenu(items[1..], id)
  }

  /** The first open menu that lists the item, or -1. */
  function MenuListing(open: seq<Menu>, item: MenuItem): (r: int)
    ensures -1 <= r < |open|
    ensures r >= 0 ==> item in open[r].items && forall k :: 0 <= k < r ==> item !in open[k].items
    ensures r == -1 ==> forall k :: 0 <= k < |open| ==> item !in open[k].items
  {
    if open == [] then -1
    else if item in open[0].items then 0
    else
      var r := MenuListing(open[1..], item);
      if r == -1 then -1 else r + 1
  }

  /** The first open menu with the id, or -1. */
  function MenuWithId(open: seq<Menu>, id: Option<string>): (r: int)
    ensures -1 <= r < |open|
    ensures r >= 0 ==> open[r].id == id && forall k :: 0 <= k < r ==> open[k].id != id
    ensures r == -1 ==> forall k :: 0 <= k < |open| ==> open[k].id != id
  {
    if open == [] then -1
    else if open[0].id == id then 0
    else
      var r := MenuWithId(open[1..], id);
      if r == -1 then -1 else r + 1
  }

  /** `!menu.id` */
  predicate NoId(id: Option<string>) {
    id == None || id == Some("")
  }

  function FromMenu(menu: Menu): AppMenu {
    AppMenu(menu, [menu], IdMap(menu))
  }

  function WithOpenedMenu(m: AppMenu, id: string, selectFirstItem: bool): Result<AppMenu, MenuError> {
    if id !in m.menuItemById then Success(m)
    else if !m.menuItemById[id].Submenu? then Failure(NotASubmenu)
    else
      var item := m.menuItemById[id];
      var parent := MenuListing(m.openMenus, item);
      if parent == -1 then Success(m)
      else
        var submenu := if selectFirstItem then item.menu.(selectedItem := FirstSelectable(item.menu.items)) else item.menu;
        Success(m.(openMenus := m.openMenus[..parent + 1] + [submenu]))
  }

  function WithClosedMenu(m: AppMenu, id: Option<string>): AppMenu {
    var k := MenuWithId(m.openMenus, id);
    if NoId(id) || k == -1 then m else m.(openMenus := m.openMenus[..k])
  }

  function WithLastMenu(m: AppMenu, id: Option<string>): AppMenu {
    var k := MenuWithId(m.openMenus, id);
    if k == -1 then m else m.(openMenus := m.openMenus[..k + 1])
  }

  /** The open menus with the selection of the menus above `p` pointing to the next open menu. */
  function PathSelected(open: seq<Menu>, p: nat): (r: seq<Menu>)
    requires p < |open|
    ensures |r| == |open|
    ensures forall i :: 0 <= i < p ==> r[i] == open[i].(selectedItem := FindSubmenu(open[i].items, open[i + 1].id))
    ensures forall i :: p <= i < |open| ==> r[i] == open[i]
  {
    seq(|open|, i requires 0 <= i < |open| =>
      if i < p then open[i].(selectedItem := FindSubmenu(open[i].items, open[i + 1].id)) else open[i])
  }

  /** The open menus from `from` on have no selection. */
  function ClearedFrom(open: seq<Menu>, from: nat): (r: seq<Menu>)
    ensures |r| == |open|
    ensures forall i :: 0 <= i < |open| ==> r[i] == if i < from then open[i] else open[i].(selectedItem := None)
  {
    seq(|open|, i requires 0 <= i < |open| => if i < from then open[i] else open[i].(selectedItem := None))
  }

  function Select(m: AppMenu, id: string): AppMenu {
    if id !in m.menuItemById then m
    else
      var item := m.menuItemById[id];
      var p := MenuListing(m.openMenus, item);
      if p == -1 then m
      else
        var own := m.openMenus[p := m.openMenus[p].(selectedItem := Some(item))];
        m.(openMenus := PathSelected(ClearedFrom(own, p + 1), p))
  }

  function Deselect(m: AppMenu, id: Option<string>): AppMenu {
    var p := MenuWithId(m.openMenus, id);
    if p == -1 then m
    else m.(openMenus := PathSelected(m.openMenus[p := m.openMenus[p].(selectedItem := None)], p))
  }

  function WithReset(m: AppMenu): AppMenu {
    m.(openMenus := [m.menu])
  }

  /** The menu of the tree that an open menu stands for: the root when it has no id. */
  function MenuFor(menu: Menu, entries: map<string, MenuItem>, id: Option<string>): Option<Menu> {
    if NoId(id) then Some(menu)
    else if id.value in entries && entries[id.value].Submenu? then Some(entries[id.value].menu)
    else None
  }

  function Remade(entries: map<string, MenuItem>, menu: Menu, was: Menu): Menu {
    Menu(menu.id, menu.items,
         if was.selectedItem.Some? && was.selectedItem.value.id in entries
         then Some(entries[was.selectedItem.value.id]) else None)
  }

  /** The open menus remade from a new tree, up to the first that is gone. */
  function RemadeMenus(menu: Menu, entries: map<string, MenuItem>, open: seq<Menu>): seq<Menu> {
    if open == [] || MenuFor(menu, entries, open[0].id).None? then []
    else [Remade(entries, MenuFor(menu, entries, open[0].id).value, open[0])] + RemadeMenus(menu, entries, open[1..])
  }

  function Merge(m: AppMenu, newMenu: Menu): AppMenu {
    AppMenu(newMenu, RemadeMenus(newMenu, IdMap(newMenu), m.openMenus), IdMap(newMenu))
  }

  // ---------------------------------------------------------------- the transformers with loops

  method WithMenu(m: AppMenu, newMenu: Menu) returns (r: AppMenu)
    ensures r == Merge(m, newMenu)
  {
    var index := new Index();
    BuildIdMap(newMenu, index);
    var newMap := index.entries;
    var newOpenMenus: seq<Menu> := [];
    var k := 0;
    assert m.openMenus[0..] == m.openMenus;
    while k < |m.openMenus|
      invariant 0 <= k <= |m.openMenus|
      invariant newOpenMenus + RemadeMenus(newMenu, newMap, m.openMenus[k..]) == RemadeMenus(newMenu, newMap, m.openMenus)
    {
      var openMenu := m.openMenus[k];
      assert m.openMenus[k..][1..] == m.openMenus[k + 1..];
      var newOpenMenu: Menu;
      if NoId(openMenu.id) {
        newOpenMenu := newMenu;
      } else {
        if openMenu.id.value in newMap && newMap[openMenu.id.value].Submenu? {
          newOpenMenu := newMap[openMenu.id.value].menu;
        } else {
          break;
        }
      }
      var newSelectedItem: Option<MenuItem> := None;
      if openMenu.selectedItem.Some? {
        var id := openMenu.selectedItem.value.id;
        newSelectedItem := if id in newMap then Some(newMap[id]) else None;
      }
      ConcatAssoc(newOpenMenus, [Menu(newOpenMenu.id, newOpenMenu.items, newSelectedItem)],
                  RemadeMenus(newMenu, newMap, m.openMenus[k + 1..]));
      newOpenMenus := newOpenMenus + [Menu(newOpenMenu.id, newOpenMenu.items, newSelectedItem)];
      k := k + 1;
    }
    assert newOpenMenus + [] == newOpenMenus;
    r := AppMenu(newMenu, newOpenMenus, newMap);
  }

  method WithSelectedItem(m: AppMenu, id: string) returns (r: AppMenu)
    ensures r == Select(m, id)
  {
    if id !in m.menuItemById {
      return m;
    }
    var ourMenuItem := m.menuItemById[id];
    var parentMenuIndex := MenuListing(m.openMenus, ourMenuItem);
    if parentMenuIndex == -1 {
      return m;
    }
    var newOpenMenus := m.openMenus;
    newOpenMenus := newOpenMenus[parentMenuIndex := newOpenMenus[parentMenuIndex].(selectedItem := Some(ourMenuItem))];
    ghost var own := newOpenMenus;

    for i := parentMenuIndex + 1 to |newOpenMenus|
      invariant |newOpenMenus| == |own|
      invariant forall k :: 0 <= k < |own| ==>
        newOpenMenus[k] == if parentMenuIndex < k < i then own[k].(selectedItem := None) else own[k]
    {
      newOpenMenus := newOpenMenus[i := newOpenMenus[i].(selectedItem := None)];
    }
    ghost var cleared := ClearedFrom(own, parentMenuIndex + 1);
    assert newOpenMenus == cleared;
    newOpenMenus := SelectPathAbove(newOpenMenus, parentMenuIndex);
    r := AppMenu(m.menu, newOpenMenus, m.menuItemById);
  }

  /** The loop that points the menus above `p` to the next open menu, from `p - 1` up. */
  method SelectPathAbove(open: seq<Menu>, p: nat) returns (r: seq<Menu>)
    requires p < |open|
    ensures r == PathSelected(open, p)
  {
    r := open;
    var i := p - 1;
    while i >= 0
      invariant -1 <= i < p && |r| == |open|
      invariant forall k :: 0 <= k < |open| ==> r[k].id == open[k].id
      invariant forall k :: 0 <= k < |open| ==> r[k] == if i < k < p then PathSelected(open, p)[k] else open[k]
    {
      var menu, childMenu := r[i], r[i + 1];
      r := r[i := menu.(selectedItem := FindSubmenu(menu.items, childMenu.id))];
      i := i - 1;
    }
  }

  method WithDeselectedMenu(m: AppMenu, id: Option<string>) returns (r: AppMenu)
    ensures r == Deselect(m, id)
  {
    var ourMenuIndex := MenuWithId(m.openMenus, id);
    if ourMenuIndex == -1 {
      return m;
    }
    var newOpenMenus := m.openMenus[ourMenuIndex := m.openMenus[ourMenuIndex].(selectedItem := None)];
    newOpenMenus := SelectPathAbove(newOpenMenus, ourMenuIndex);
    r := AppMenu(m.menu, newOpenMenus, m.menuItemById);
  }
}
