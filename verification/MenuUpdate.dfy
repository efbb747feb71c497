/** Keeping the menu in the main process up to date: what the renderer wants
    (app/src/lib/menu-update.ts) and what the main process does with it
    (app/src/main-process/main.ts). */
module MenuUpdate {
  import opened Text
  import opened AppMenus

  datatype ItemState = ItemState(enabled: Option<bool>)

  type MenuState = map<string, ItemState>

  // ---------------------------------------------------------------- building the wanted state

  /** Utility class for coalescing updates to menu items. */
  class MenuStateBuilder {
    var state: MenuState

    constructor (initial: MenuState)
      ensures state == initial
    {
      state := initial;
    }

    method SetEnabled(id: string, enabled: bool)
      modifies this
      ensures state == old(state)[id := ItemState(Some(enabled))]
    {
      var current := if id in state then state[id] else ItemState(None);
      state := state[id := current.(enabled := Some(enabled))];
    }

    method SetAll(ids: seq<string>, enabled: bool)
      modifies this
      ensures state == old(state) + AllSet(ids, enabled)
    {
      for i := 0 to |ids|
        invariant state == old(state) + AllSet(ids[..i], enabled)
      {
        AllSetSnoc(ids, i, enabled);
        SetEnabled(ids[i], enabled);
      }
      assert ids[..|ids|] == ids;
    }

    /** A new builder with the other's values replacing this one's. */
    method Merge(other: MenuStateBuilder) returns (r: MenuStateBuilder)
      ensures fresh(r) && r.state == state + other.state
    {
      var merged := state;
      var keys := other.state.Keys;
      while keys != {}
        invariant keys <= other.state.Keys
        invariant merged == state + (map k | k in other.state && k !in keys :: other.state[k])
        decreases keys
      {
        var key :| key in keys;
        merged := merged[key := other.state[key]];
        keys := keys - {key};
      }
      assert (map k | k in other.state && k !in {} :: other.state[k]) == other.state;
      r := new MenuStateBuilder(merged);
    }
  }

  function AllSet(ids: seq<string>, enabled: bool): MenuState {
    map id | id in ids :: ItemState(Some(enabled))
  }

  lemma AllSetSnoc(ids: seq<string>, i: nat, enabled: bool)
    requires i < |ids|
    ensures AllSet(ids[..i + 1], enabled) == AllSet(ids[..i], enabled)[ids[i] := ItemState(Some(enabled))]
  {
    assert ids[..i + 1] == ids[..i] + [ids[i]];
  }

  /** The state of a menu: everything disabled under a popup, otherwise everything enabled
      except where a later builder says more. `layers` are those builders, in order. */
  function WantedState(allIds: seq<string>, popup: bool, layers: seq<MenuState>): MenuState {
    if popup then AllSet(allIds, false) else Layered(AllSet(allIds, true), layers)
  }

  function Layered(state: MenuState, layers: seq<MenuState>): MenuState
    decreases |layers|
  {
    if layers == [] then state else Layered(state + layers[0], layers[1..])
  }

  /** `getMenuState`, given the states of the builders for the repository, the app menu,
      the welcome flow and missing repositories. */
  method GetMenuState(allIds: seq<string>, popup: bool, repository: MenuState, appMenu: MenuState,
                      welcomeFlow: MenuState, noRepositories: MenuState) returns (r: MenuState)
    ensures r == WantedState(allIds, popup, [repository, appMenu, welcomeFlow, noRepositories])
  {
    var all := new MenuStateBuilder(map[]);
    if popup {
      all.SetAll(allIds, false);
      assert map[] + AllSet(allIds, false) == AllSet(allIds, false);
      return all.state;
    }
    all.SetAll(allIds, true);
    assert map[] + AllSet(allIds, true) == AllSet(allIds, true);
    var b1 := new MenuStateBuilder(repository);
    var b2 := new MenuStateBuilder(appMenu);
    var b3 := new MenuStateBuilder(welcomeFlow);
    var b4 := new MenuStateBuilder(noRepositories);
    var m1 := all.Merge(b1);
    var m2 := m1.Merge(b2);
    var m3 := m2.Merge(b3);
    var m4 := m3.Merge(b4);
    LayeredFour(all.state, repository, appMenu, welcomeFlow, noRepositories);
    return m4.state;
  }

  lemma LayeredFour(s: MenuState, a: MenuState, b: MenuState, c: MenuState, d: MenuState)
    ensures Layered(s, [a, b, c, d]) == s + a + b + c + d
  {
    assert [a, b, c, d][1..] == [b, c, d] && [b, c, d][1..] == [c, d] && [c, d][1..] == [d];
    assert Layered(s, [a, b, c, d]) == Layered(s + a, [b, c, d]);
    assert Layered(s + a, [b, c, d]) == Layered(s + a + b, [c, d]);
    assert Layered(s + a + b, [c, d]) == Layered(s + a + b + c, [d]);
    assert [d][1..] == [];
    assert Layered(s + a + b + c, [d]) == Layered(s + a + b + c + d, []);
  }

  lemma {:induction false} LayeredHas(state: MenuState, layers: seq<MenuState>, id: string)
    ensures (id in Layered(state, layers)) <==> (id in state || exists k :: 0 <= k < |layers| && id in layers[k])
    decreases |layers|
  {
    if layers != [] {
      var rest := layers[1..];
      LayeredHas(state + layers[0], rest, id);
      assert forall k :: 0 <= k < |rest| ==> rest[k] == layers[k + 1];
      if exists k :: 0 <= k < |layers| && id in layers[k] {
        var k :| 0 <= k < |layers| && id in layers[k];
        assert k > 0 ==> id in rest[k - 1];
      }
    }
  }

  lemma {:induction false} UnmentionedStays(state: MenuState, layers: seq<MenuState>, id: string)
    requires id in state && forall k :: 0 <= k < |layers| ==> id !in layers[k]
    ensures id in Layered(state, layers) && Layered(state, layers)[id] == state[id]
    decreases |layers|
  {
    if layers != [] {
      assert id !in layers[0];
      UnmentionedStays(state + layers[0], layers[1..], id);
    }
  }

  lemma {:induction false} LastMentionDecides(state: MenuState, layers: seq<MenuState>, id: string, k: nat)
    requires k < |layers| && id in layers[k] && forall j :: k < j < |layers| ==> id !in layers[j]
    ensures id in Layered(state, layers) && Layered(state, layers)[id] == layers[k][id]
    decreases |layers|
  {
    if k == 0 {
      UnmentionedStays(state + layers[0], layers[1..], id);
    } else {
      LastMentionDecides(state + layers[0], layers[1..], id, k - 1);
    }
  }

  /** The last layer that mentions an item decides its state; an item no layer mentions
      is enabled when it is one of the known items, and not mentioned otherwise. */
  lemma {:induction false} LastLayerWins(state: MenuState, layers: seq<MenuState>, id: string)
    ensures (id in Layered(state, layers)) <==> (id in state || exists k :: 0 <= k < |layers| && id in layers[k])
    ensures forall k :: 0 <= k < |layers| && id in layers[k] && (forall j :: k < j < |layers| ==> id !in layers[j]) ==>
              id in Layered(state, layers) && Layered(state, layers)[id] == layers[k][id]
    ensures (forall k :: 0 <= k < |layers| ==> id !in layers[k]) && id in state ==>
              id in Layered(state, layers) && Layered(state, layers)[id] == state[id]
  {
    hide Layered;
    LayeredHas(state, layers, id);
    forall k | 0 <= k < |layers| && id in layers[k] && (forall j :: k < j < |layers| ==> id !in layers[j])
      ensures id in Layered(state, layers) && Layered(state, layers)[id] == layers[k][id]
    {
      LastMentionDecides(state, layers, id, k);
    }
    if id in state && forall k :: 0 <= k < |layers| ==> id !in layers[k] {
      UnmentionedStays(state, layers, id);
    }
  }

  /** What is wanted of an item. Under a popup exactly the known items are mentioned, and all
      are disabled. Otherwise the last layer that mentions an item decides, and a known item
      that no layer mentions is enabled. */
  lemma {:induction false} WantedById(allIds: seq<string>, popup: bool, layers: seq<MenuState>, id: string)
    ensures var wanted := WantedState(allIds, popup, layers);
            if popup then (id in wanted <==> id in allIds) && (id in wanted ==> wanted[id].enabled == Some(false))
            else
              && (id in wanted <==> id in allIds || exists k :: 0 <= k < |layers| && id in layers[k])
              && (forall k :: 0 <= k < |layers| && id in layers[k] && (forall j :: k < j < |layers| ==> id !in layers[j]) ==>
                    wanted[id] == layers[k][id])
              && (id in allIds && (forall k :: 0 <= k < |layers| ==> id !in layers[k]) ==> wanted[id].enabled == Some(true))
  {
    hide Layered;
    LastLayerWins(AllSet(allIds, true), layers, id);
  }

  // ---------------------------------------------------------------- what is sent

  predicate StateEqual(state: ItemState, item: MenuItem) {
    state.enabled.None? || item.Separator? || item.enabled == state.enabled.value
  }

  /** The entries of the wanted state that the renderer's menu does not show. */
  function Changes(wanted: MenuState, current: Option<map<string, MenuItem>>): MenuState {
    map id | id in wanted && !(current.Some? && id in current.value && StateEqual(wanted[id], current.value[id])) :: wanted[id]
  }

  /** What is sent: without a menu to compare with everything that is wanted, and otherwise
      what the menu does not have, or shows with the other state. */
  lemma ChangesById(wanted: MenuState, current: Option<map<string, MenuItem>>, id: string)
    requires id in wanted
    ensures current == None || id !in current.value ==> id in Changes(wanted, current)
    ensures current.Some? && id in current.value ==>
              (id in Changes(wanted, current) <==>
               && !current.value[id].Separator? && wanted[id].enabled == Some(!current.value[id].enabled))
    ensures id in Changes(wanted, current) ==> Changes(wanted, current)[id] == wanted[id]
  {
  }

  datatype Entry = Entry(id: string, state: ItemState)

  /** The entries say exactly what the map says, each id once. */
  predicate Lists(entries: seq<Entry>, state: MenuState) {
    && (forall i :: 0 <= i < |entries| ==> entries[i].id in state && entries[i].state == state[entries[i].id])
    && (forall id :: id in state ==> exists i :: 0 <= i < |entries| && entries[i].id == id)
    && forall i, j :: 0 <= i < j < |entries| ==> entries[i].id != entries[j].id
  }

  /** The message for the main process; none is sent when it would be empty. */
  method UpdateMenuState(wanted: MenuState, currentAppMenu: Option<map<string, MenuItem>>) returns (r: seq<Entry>)
    ensures Lists(r, Changes(wanted, currentAppMenu))
  {
    var menuState := wanted;
    if currentAppMenu.Some? {
      var ids := menuState.Keys;
      while ids != {}
        invariant ids <= wanted.Keys
        invariant menuState == map id | id in wanted && (id in ids || id in Changes(wanted, currentAppMenu)) :: wanted[id]
        decreases ids
      {
        var id :| id in ids;
        if id in currentAppMenu.value && StateEqual(menuState[id], currentAppMenu.value[id]) {
          menuState := menuState - {id};
        }
        ids := ids - {id};
      }
    }
    assert menuState == Changes(wanted, currentAppMenu);
    r := [];
    var ids := menuState.Keys;
    while ids != {}
      invariant ids <= menuState.Keys
      invariant Lists(r, map id | id in menuState && id !in ids :: menuState[id])
      decreases ids
    {
      var id :| id in ids;
      ListsOneMore(r, menuState, ids, id);
      r := r + [Entry(id, menuState[id])];
      ids := ids - {id};
    }
    assert (map id | id in menuState && id !in ids :: menuState[id]) == menuState;
  }

  lemma ListsOneMore(r: seq<Entry>, state: MenuState, ids: set<string>, id: string)
    requires ids <= state.Keys && id in ids
    requires Lists(r, map k | k in state && k !in ids :: state[k])
    ensures Lists(r + [Entry(id, state[id])], map k | k in state && k !in ids - {id} :: state[k])
  {
    var more := r + [Entry(id, state[id])];
    var listed := map k | k in state && k !in ids :: state[k];
    var now := map k | k in state && k !in ids - {id} :: state[k];
    forall k | k in now
      ensures exists i :: 0 <= i < |more| && more[i].id == k
    {
      if k == id {
        assert more[|r|].id == k;
      } else {
        assert k in listed;
        var i :| 0 <= i < |r| && r[i].id == k;
        assert more[i].id == k;
      }
    }
  }

  // ---------------------------------------------------------------- the main process

  datatype HandlerError = UnknownMenuId(id: string)

  /** What the handler does to the enabled states: the new states, and whether any changed. */
  function Handled(entries: seq<Entry>, enabled: map<string, bool>): (r: (Result<bool, HandlerError>, map<string, bool>))
    ensures r.1.Keys == enabled.Keys
  {
    if entries == [] then (Success(false), enabled)
    else
      var e := entries[0];
      if e.id !in enabled then (Failure(UnknownMenuId(e.id)), enabled)
      else
        var changes := e.state.enabled.Some? && enabled[e.id] != e.state.enabled.value;
        var (sent, after) :=
          Handled(entries[1..], if changes then enabled[e.id := e.state.enabled.value] else enabled);
        (if sent.Success? then Success(changes || sent.value) else sent, after)
  }

  class MainMenu {
    // Which item is enabled, by id
    var enabled: map<string, bool>

    /** The `update-menu-state` handler; returns whether a changed menu is sent back. */
    method OnUpdateMenuState(items: seq<Entry>) returns (r: Result<bool, HandlerError>)
      modifies this
      ensures (r, enabled) == Handled(items, old(enabled))
    {
      var sendMenuChangedEvent := false;
      var i := 0;
      assert items[0..] == items;
      while i < |items|
        invariant 0 <= i <= |items|
        invariant var (sent, after) := Handled(items[i..], enabled);
                  Handled(items, old(enabled)) ==
                  (if sent.Success? then Success(sendMenuChangedEvent || sent.value) else sent, after)
      {
        var item := items[i];
        assert items[i..][1..] == items[i + 1..];
        if item.id !in enabled {
          return Failure(UnknownMenuId(item.id));
        }
        if item.state.enabled.Some? && enabled[item.id] != item.state.enabled.value {
          enabled := enabled[item.id := item.state.enabled.value];
          sendMenuChangedEvent := true;
        }
        i := i + 1;
      }
      return Success(sendMenuChangedEvent);
    }
  }

  // ---------------------------------------------------------------- convergence

  /** The renderer's copy shows the items of the main menu as they are. Separators are
      shown without an enabled state. */
  predicate InSync(shown: map<string, MenuItem>, enabled: map<string, bool>) {
    && shown.Keys == enabled.Keys
    && forall id :: id in shown && !shown[id].Separator? ==> shown[id].enabled == enabled[id]
  }

  /** The handler fails exactly when it is sent an id the main menu does not have. */
  lemma {:induction false} HandlerFailsIff(entries: seq<Entry>, enabled: map<string, bool>)
    ensures Handled(entries, enabled).0.Failure? <==> exists i :: 0 <= i < |entries| && entries[i].id !in enabled
    decreases |entries|
  {
    if entries != [] && entries[0].id in enabled {
      var e := entries[0];
      var changes := e.state.enabled.Some? && enabled[e.id] != e.state.enabled.value;
      var next := if changes then enabled[e.id := e.state.enabled.value] else enabled;
      HandlerFailsIff(entries[1..], next);
      assert next.Keys == enabled.Keys;
      if exists i :: 0 <= i < |entries| && entries[i].id !in enabled {
        var i :| 0 <= i < |entries| && entries[i].id !in enabled;
        assert entries[1..][i - 1].id !in next;
      }
    }
  }

  /** What comes before the first unknown id is still set. */
  lemma {:induction false} HandledUpToUnknown(entries: seq<Entry>, enabled: map<string, bool>, k: nat)
    requires k < |entries| && entries[k].id !in enabled && forall i :: 0 <= i < k ==> entries[i].id in enabled
    ensures Handled(entries, enabled) == (Failure(UnknownMenuId(entries[k].id)), Handled(entries[..k], enabled).1)
    decreases k
  {
    if k > 0 {
      var e := entries[0];
      var changes := e.state.enabled.Some? && enabled[e.id] != e.state.enabled.value;
      HandledUpToUnknown(entries[1..], if changes then enabled[e.id := e.state.enabled.value] else enabled, k - 1);
      assert entries[..k][1..] == entries[1..][..k - 1];
    }
  }

  /** With distinct known ids, every item that is sent gets its state, every other item
      keeps its own, and a change is reported exactly when some state differed. */
  lemma {:induction false} HandledSets(entries: seq<Entry>, enabled: map<string, bool>)
    requires forall i :: 0 <= i < |entries| ==> entries[i].id in enabled
    requires forall i, j :: 0 <= i < j < |entries| ==> entries[i].id != entries[j].id
    ensures var (sent, after) := Handled(entries, enabled);
            && sent.Success? && after.Keys == enabled.Keys
            && (forall i :: 0 <= i < |entries| ==>
                  after[entries[i].id] == entries[i].state.enabled.GetOr(enabled[entries[i].id]))
            && (forall id :: id in enabled && (forall i :: 0 <= i < |entries| ==> entries[i].id != id) ==> after[id] == enabled[id])
            && (sent.value <==> after != enabled)
    decreases |entries|
  {
    if entries != [] {
      var e := entries[0];
      var rest := entries[1..];
      var changes := e.state.enabled.Some? && enabled[e.id] != e.state.enabled.value;
      var next := if changes then enabled[e.id := e.state.enabled.value] else enabled;
      assert forall i :: 0 <= i < |rest| ==> rest[i] == entries[i + 1];
      HandledSets(rest, next);
      var after := Handled(rest, next).1;
      assert after[e.id] == next[e.id];
      forall i | 0 <= i < |entries|
        ensures after[entries[i].id] == entries[i].state.enabled.GetOr(enabled[entries[i].id])
      {
        if i > 0 {
          assert rest[i - 1].id != e.id;
        }
      }
      forall id | id in enabled && (forall i :: 0 <= i < |entries| ==> entries[i].id != id)
        ensures after[id] == enabled[id]
      {
        assert entries[0].id != id;
      }
    }
  }

  /** One round: the main process's states after it handles what the renderer sends. */
  ghost predicate Converged(wanted: MenuState, shown: map<string, MenuItem>, before: map<string, bool>, after: map<string, bool>) {
    && after.Keys == before.Keys
    && (forall id :: id in wanted && id in shown && id in before && !shown[id].Separator? ==>
          after[id] == wanted[id].enabled.GetOr(before[id]))
    && forall id :: id in before && (id !in wanted || (id in shown && shown[id].Separator?)) ==> after[id] == before[id]
  }

  lemma SentIds(entries: seq<Entry>, sent: MenuState, id: string)
    requires Lists(entries, sent)
    ensures id in sent <==> exists i :: 0 <= i < |entries| && entries[i].id == id
    ensures forall i :: 0 <= i < |entries| && entries[i].id == id ==> id in sent && entries[i].state == sent[id]
  {
  }

  /** When the renderer's menu is in sync and has all wanted ids, handling what it sends
      never fails and leaves every item as wanted and all others as they were; the menu is
      sent back exactly when something was sent; and from any copy in sync with the result
      nothing more is sent. */
  lemma UpdatesConverge(wanted: MenuState, shown: map<string, MenuItem>, enabled: map<string, bool>, entries: seq<Entry>)
    requires InSync(shown, enabled) && wanted.Keys <= shown.Keys
    requires Lists(entries, Changes(wanted, Some(shown)))
    ensures var (sent, after) := Handled(entries, enabled);
            && sent == Success(entries != [])
            && Converged(wanted, shown, enabled, after)
            && forall again: map<string, MenuItem> ::
                 InSync(again, after) && (forall id :: id in again ==> again[id].Separator? == shown[id].Separator?) ==>
                   Changes(wanted, Some(again)) == map[]
  {
    hide Handled;
    var changes := Changes(wanted, Some(shown));
    HandledSets(entries, enabled);
    var (sent, after) := Handled(entries, enabled);
    forall id | id in enabled
      ensures after[id] == if id in changes then changes[id].enabled.GetOr(enabled[id]) else enabled[id]
    {
      SentIds(entries, changes, id);
      if id in changes {
        var i :| 0 <= i < |entries| && entries[i].id == id;
        assert entries[i].state == changes[id];
      }
    }
    if entries != [] {
      var id := entries[0].id;
      assert id in changes && after[id] != enabled[id];
    }
    forall again: map<string, MenuItem> |
        InSync(again, after) && (forall id :: id in again ==> again[id].Separator? == shown[id].Separator?)
      ensures Changes(wanted, Some(again)) == map[]
    {
      forall id | id in wanted
        ensures StateEqual(wanted[id], again[id])
      {
        assert id in shown;
      }
    }
  }
}
