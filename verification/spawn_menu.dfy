/** The spawner menu's own logic (`EasySpawnerMenu`): selecting a row,
    rebuilding the result list, toggling a favourite, and turning a press of
    the spawn button into a spawn request. Widgets are reduced to the values
    the logic reads: the search text, the toggles, the parsed amount and level
    fields, and the integral scroll offset and viewport height. */
module SpawnMenu {
  import opened Wrappers
  import opened CatalogFilter
  import opened FavouritesStore
  import RowPool

  datatype Menu = Menu(
    catalog: Catalog,
    searchText: string,
    favouritesOnly: bool,
    searchItems: seq<string>,
    selected: Option<string>,
    pool: RowPool.Pool,
    scrollY: int,
    viewHeight: int,
    amountInput: Option<int>,   // `Int32.TryParse` of the amount field
    levelInput: Option<int>,    // `Int32.TryParse` of the level field
    putInInventory: bool,
    ignoreStackSize: bool)

  /** The menu invariant: every catalog name and every listed result has a
      state, and the row pool is consistent. */
  ghost predicate Consistent(m: Menu) {
    && NamesHaveStates(m.catalog.names, m.catalog.states)
    && RowPool.ItemsHaveStates(m.searchItems, m.catalog.states)
    && RowPool.Valid(m.pool)
  }

  /** `SelectPrefab`: the caller's toggle is switched on and every other one
      off, and the selection becomes the caller's name (`None` deselects). */
  function SelectPrefab(m: Menu, caller: Option<nat>): (r: Menu)
    requires |m.pool.rows| == RowPool.PoolSize
    requires caller.Some? ==> caller.value < RowPool.PoolSize
    ensures r == m.(pool := r.pool, selected := r.selected)
    ensures r.pool.free == m.pool.free && |r.pool.rows| == |m.pool.rows|
    ensures forall k | 0 <= k < |m.pool.rows| ::
      r.pool.rows[k] == m.pool.rows[k].(toggleOn := r.pool.rows[k].toggleOn)
    ensures caller.None? ==> r.selected.None? && forall k | 0 <= k < |r.pool.rows| :: !r.pool.rows[k].toggleOn
    ensures caller.Some? ==>
      && r.selected == Some(m.pool.rows[caller.value].name)
      && r.pool.rows[caller.value].toggleOn
      && forall k | 0 <= k < |r.pool.rows| && k != caller.value :: !r.pool.rows[k].toggleOn
  {
    var rows := seq(|m.pool.rows|, k requires 0 <= k < |m.pool.rows| =>
      m.pool.rows[k].(toggleOn := caller == Some(k)));
    var selected := if caller.Some? then Some(m.pool.rows[caller.value].name) else None;
    m.(pool := m.pool.(rows := rows), selected := selected)
  }

  /** Selecting touches only the toggles, so the pool stays consistent. */
  lemma SelectKeepsPoolValid(m: Menu, caller: Option<nat>)
    requires |m.pool.rows| == RowPool.PoolSize
    requires caller.Some? ==> caller.value < RowPool.PoolSize
    requires RowPool.Valid(m.pool)
    ensures RowPool.Valid(SelectPrefab(m, caller).pool)
  {
  }

  /** `RebuildPrefabDropdown`: clear the selection, refilter the catalog, pool
      every row, and lay the window out afresh. */
  function RebuildPrefabDropdown(m: Menu): (r: Menu)
    requires NamesHaveStates(m.catalog.names, m.catalog.states)
    requires RowPool.Valid(m.pool)
    ensures Consistent(r)
    ensures r.selected.None?
    ensures r.catalog.names == m.catalog.names && r.catalog.keyOrder == m.catalog.keyOrder
    ensures r.catalog.states.Keys == m.catalog.states.Keys
    ensures forall n | n in m.catalog.states ::
      && r.catalog.states[n].localizedName == m.catalog.states[n].localizedName
      && r.catalog.states[n].isFavourite == m.catalog.states[n].isFavourite
    ensures forall n | n in m.catalog.names ::
      r.catalog.states[n].isSearched == MatchesSearch(n, m.catalog.states[n].localizedName, m.searchText)
    ensures r == m.(catalog := r.catalog, searchItems := r.searchItems, pool := r.pool, selected := None)
  {
    var cleared := SelectPrefab(m, None);
    SelectKeepsPoolValid(m, None);
    var (catalog, items) := Refilter(m.catalog, m.searchText, m.favouritesOnly);
    var pooled := RowPool.PoolAll(cleared.pool);
    RowPool.PoolAllValid(cleared.pool);
    var pool := RowPool.UpdateItemPrefabPool(pooled, items, catalog.states, None, m.scrollY, m.viewHeight);
    cleared.(catalog := catalog, searchItems := items, pool := pool)
  }

  /** After a rebuild no toggle is on and every live row shows the window
      result it is placed at. */
  lemma RebuildShowsWindow(m: Menu)
    requires NamesHaveStates(m.catalog.names, m.catalog.states)
    requires RowPool.Valid(m.pool)
    ensures var r := RebuildPrefabDropdown(m);
      var start, end := RowPool.StartIndex(m.scrollY), RowPool.WindowEnd(m.scrollY, m.viewHeight, |r.searchItems|);
      && (forall k | 0 <= k < RowPool.PoolSize :: !r.pool.rows[k].toggleOn)
      && (forall k | 0 <= k < RowPool.PoolSize && RowPool.Live(r.pool, k) ::
            exists j: nat | start <= j < end :: r.pool.rows[k] == RowPool.Shown(j, r.searchItems, r.catalog.states, None))
      && (|r.pool.free| > 0 ==> forall j: nat | start <= j < end :: RowPool.Holds(r.pool, j))
  {
    var cleared := SelectPrefab(m, None);
    SelectKeepsPoolValid(m, None);
    var (catalog, items) := Refilter(m.catalog, m.searchText, m.favouritesOnly);
    RowPool.RelayoutFromScratch(cleared.pool, items, catalog.states, m.scrollY, m.viewHeight);
  }

  /** A name is listed after a rebuild exactly when it is in the catalog, it
      matches the search text, and it is a favourite or the favourites-only
      toggle is off; favourites come first. */
  lemma RebuildListing(m: Menu, n: string)
    requires NamesHaveStates(m.catalog.names, m.catalog.states)
    requires RowPool.Valid(m.pool)
    ensures var r := RebuildPrefabDropdown(m);
      && (n in r.searchItems <==>
            && n in m.catalog.names
            && MatchesSearch(n, m.catalog.states[n].localizedName, m.searchText)
            && (m.catalog.states[n].isFavourite || !m.favouritesOnly))
      && (forall i, j | 0 <= i < j < |r.searchItems| ::
            r.catalog.states[r.searchItems[j]].isFavourite ==> r.catalog.states[r.searchItems[i]].isFavourite)
  {
    RefilterListing(m.catalog, m.searchText, m.favouritesOnly, n);
  }

  /** Rebuilding twice gives the same catalog, result list and selection as
      rebuilding once. */
  lemma RebuildIdempotent(m: Menu)
    requires NamesHaveStates(m.catalog.names, m.catalog.states)
    requires RowPool.Valid(m.pool)
    ensures var once := RebuildPrefabDropdown(m);
      var twice := RebuildPrefabDropdown(once);
      && twice.catalog == once.catalog
      && twice.searchItems == once.searchItems
      && twice.selected == once.selected
  {
    RefilterIdempotent(m.catalog, m.searchText, m.favouritesOnly);
  }

  /** The favourite write of `FavouritePrefab`: the named entry's flag is set
      and every other entry keeps its state. */
  function SetFavourite(c: Catalog, name: string, favourite: bool): (r: Catalog)
    requires name in c.states
    ensures r.names == c.names && r.keyOrder == c.keyOrder
    ensures r.states.Keys == c.states.Keys
    ensures r.states[name] == c.states[name].(isFavourite := favourite)
    ensures forall n | n in c.states && n != name :: r.states[n] == c.states[n]
  {
    c.(states := c.states[name := c.states[name].(isFavourite := favourite)])
  }

  /** `FavouritePrefab`: set the caller row's prefab's favourite flag, write
      the favourites file, and rebuild. Returns the menu and the lines
      written. */
  function FavouritePrefab(m: Menu, favourite: bool, caller: nat): (r: (Menu, seq<string>))
    requires NamesHaveStates(m.catalog.names, m.catalog.states)
    requires forall i | 0 <= i < |m.catalog.keyOrder| :: m.catalog.keyOrder[i] in m.catalog.states
    requires RowPool.Valid(m.pool)
    requires caller < RowPool.PoolSize && m.pool.rows[caller].name in m.catalog.states
    ensures Consistent(r.0)
    ensures r.0.selected.None?
    ensures r.0.catalog.states.Keys == m.catalog.states.Keys
  {
    var catalog := SetFavourite(m.catalog, m.pool.rows[caller].name, favourite);
    var lines := SaveFavourites(catalog.states, catalog.keyOrder);
    (RebuildPrefabDropdown(m.(catalog := catalog)), lines)
  }

  /** `FavouritePrefab` changes the favourite flag of the caller's prefab only,
      and no localized name. */
  lemma FavouriteTogglesOnlyCaller(m: Menu, favourite: bool, caller: nat, n: string)
    requires NamesHaveStates(m.catalog.names, m.catalog.states)
    requires forall i | 0 <= i < |m.catalog.keyOrder| :: m.catalog.keyOrder[i] in m.catalog.states
    requires RowPool.Valid(m.pool)
    requires caller < RowPool.PoolSize && m.pool.rows[caller].name in m.catalog.states
    requires n in m.catalog.states
    ensures var r := FavouritePrefab(m, favourite, caller);
      && r.0.catalog.states[n].localizedName == m.catalog.states[n].localizedName
      && r.0.catalog.states[n].isFavourite ==
           if n == m.pool.rows[caller].name then favourite else m.catalog.states[n].isFavourite
  {
    var catalog := SetFavourite(m.catalog, m.pool.rows[caller].name, favourite);
    var rebuilt := RebuildPrefabDropdown(m.(catalog := catalog));
    assert rebuilt.catalog.states[n].isFavourite == catalog.states[n].isFavourite;
  }

  /** The file `FavouritePrefab` writes lists exactly the favourites of the
      updated catalog: the old favourites, with the caller's prefab added or
      removed. */
  lemma FavouriteWritesFile(m: Menu, favourite: bool, caller: nat)
    requires NamesHaveStates(m.catalog.names, m.catalog.states)
    requires EnumeratesKeys(m.catalog.keyOrder, m.catalog.states)
    requires RowPool.Valid(m.pool)
    requires caller < RowPool.PoolSize && m.pool.rows[caller].name in m.catalog.states
    ensures var r := FavouritePrefab(m, favourite, caller);
      forall n :: n in r.1 <==> n in r.0.catalog.states && r.0.catalog.states[n].isFavourite
  {
    var r := FavouritePrefab(m, favourite, caller);
    var catalog := SetFavourite(m.catalog, m.pool.rows[caller].name, favourite);
    assert r.1 == SaveFavourites(catalog.states, catalog.keyOrder);
    SaveListsFavouritesOnce(catalog.states, catalog.keyOrder);
    forall n | n in catalog.states
      ensures r.0.catalog.states[n].isFavourite == catalog.states[n].isFavourite
    {
      FavouriteTogglesOnlyCaller(m, favourite, caller, n);
    }
  }

  /** What a press of the spawn button asks the plugin to do. */
  datatype SpawnRequest = SpawnRequest(prefabName: string, target: string, amount: int, level: int, pickup: bool, ignoreStackSize: bool)

  /** An amount or level field's value: the parsed number when it parsed and
      is at least 1, otherwise 1. */
  function ClampInput(parsed: Option<int>): (v: int)
    ensures v >= 1
    ensures parsed.Some? && parsed.value >= 1 ==> v == parsed.value
    ensures (parsed.None? || parsed.value < 1) ==> v == 1
  {
    if parsed.Some? && parsed.value >= 1 then parsed.value else 1
  }

  /** The player to spawn near: the local player, unless the dropdown names
      another connected player. */
  function ResolveTarget(localName: string, dropdownName: string, players: seq<string>): (t: string)
    ensures t == localName || (t == dropdownName && dropdownName in players)
    ensures dropdownName != localName && dropdownName in players ==> t == dropdownName
  {
    if dropdownName == localName then localName
    else if dropdownName in players then dropdownName
    else localName
  }

  /** `SpawnButtonPress`: nothing without a selection; otherwise amount and
      level are clamped to at least 1, and items can go to the inventory only
      when the dropdown names the local player. */
  function SpawnButtonPress(m: Menu, localName: string, dropdownName: string, players: seq<string>): (r: Option<SpawnRequest>)
    ensures r.None? <==> m.selected.None?
    ensures r.Some? ==>
      && r.value.prefabName == m.selected.value
      && r.value.amount >= 1 && r.value.level >= 1
      && r.value.amount == ClampInput(m.amountInput)
      && r.value.level == ClampInput(m.levelInput)
      && (r.value.pickup <==> m.putInInventory && dropdownName == localName)
      && r.value.ignoreStackSize == m.ignoreStackSize
      && r.value.target == ResolveTarget(localName, dropdownName, players)
  {
    match m.selected
    case None => None
    case Some(prefabName) =>
      var pickup := if dropdownName != localName then false else m.putInInventory;
      Some(SpawnRequest(prefabName, ResolveTarget(localName, dropdownName, players),
        ClampInput(m.amountInput), ClampInput(m.levelInput), pickup, m.ignoreStackSize))
  }
}
