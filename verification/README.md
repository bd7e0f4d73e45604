# EasySpawner core in Dafny

A functional model of the two pieces of sequential logic inside the EasySpawner
plugin: the spawn engine with its undo log, and the spawner menu's catalog
filter with its virtualised row pool.

- **Spawn engine** (`SpawnEngine`, over the world of `WorldModel`).
  - `SpawnPrefab` resolves a prefab name. It then creates characters, items or
    plain objects near a player and pushes one record of the created handles
    onto `spawnActions`.
  - Stackable items are split into full stacks plus a remainder, using C#'s
    truncating `/` and `%` (`StackSplit`).
  - `SpawnItem` decides whether the local player is stamped as the item's
    crafter. It then either adds the item to the local inventory, which
    records an empty entry, or drops a copy in the world.
- **World effects** are events appended to a trace. These are instantiation,
  drop, inventory add, destroy request and the status messages.
  - Objects live in a scene map under handles allocated in increasing order.
  - The prefab's shared item template is threaded through a spawn as a value.
    It is written back to the prefab table at the end, so the template reset
    of stack and quality is observable.
- **Undo log** (`UndoLog`). `UndoSpawn` pops the top record and requests
  destruction of each entry that is still alive with a valid, owned net view.
  A destroyed object leaves the scene.
- **Favourites file** (`FavouritesStore`). Load and save work on the file as
  a sequence of lines.
- **Catalog filter** (`TextMatch`, `CatalogFilter`).
  - The ordinal ignore-case substring test sets `isSearched` per catalog
    entry.
  - `SearchItems` is the searched favourites, then the searched
    non-favourites, each block in catalog order.
- **Row pool** (`RowPool`).
  - There are 20 row widgets and a queue of pooled rows.
  - A sweep returns rows that left the visible band to the pool. The index
    loop hands the front of the queue to each window index that no row shows.
- **Menu** (`SpawnMenu`).
  - Selection, rebuild and favourite toggling.
  - The spawn button: inputs clamped to at least 1, and pickup allowed only
    for the local player.
- **Player poll** (`PlayerPoll`): the change test of the player-polling loop.

All files verify together with `dafny verify` on Dafny 4.11. `Wrappers` and
`Seqs` are generic helpers.

Two behaviours of the code that are easy to misread:

- The undo message reports the length of the popped record, empty entries
  and skipped objects included (`EasySpawnerPlugin.cs:366`). It is not the
  number of objects destroyed.
- Only the stack and quality of the item template are reset after a spawn
  (`EasySpawnerPlugin.cs:289-290`). Durability (set to the maximum for
  equipables) and a crafter stamp stay on the template.

## Model

| member | source | states |
|---|---|---|
| TextMatch.IndexOfIgnoreCase | EasySpawner/UI/EasySpawnerMenu.cs:233 | returns the first offset where the text occurs ignoring case, with no earlier match; returns -1 exactly when it occurs nowhere |
| TextMatch.ContainsIgnoreCase | EasySpawner/UI/EasySpawnerMenu.cs:233 | the reference meaning of `IndexOf(text, OrdinalIgnoreCase) >= 0`: some offset where every character agrees after upper-casing; `IndexOfIgnoreCase` is proved against it |
| TextMatch.CaseInsensitive | EasySpawner/UI/EasySpawnerMenu.cs:233 | the search test gives the same answer after upper-casing either side |
| TextMatch.EmptyNeedleMatches | EasySpawner/UI/EasySpawnerMenu.cs:233 | an empty search text occurs in every name |
| TextMatch.ExactOccurrenceMatches | EasySpawner/UI/EasySpawnerMenu.cs:233 | an exact occurrence is found by the ignore-case test |
| CatalogFilter.RecomputeSearched | EasySpawner/UI/EasySpawnerMenu.cs:231-237 | each catalog name's `isSearched` becomes "text in name, or in a non-empty localized name"; every other field and entry is unchanged |
| CatalogFilter.MatchesSearch | EasySpawner/UI/EasySpawnerMenu.cs:233-235 | the per-entry search test: the text occurs ignoring case in the prefab name, or in its localized name when that is non-empty |
| CatalogFilter.RecomputeOrderIrrelevant | EasySpawner/UI/EasySpawnerMenu.cs:231-237 | the result does not depend on visiting order or repeats, so the parallel per-entry writes equal one sequential pass |
| CatalogFilter.EmptySearchMatchesAll | EasySpawner/UI/EasySpawnerMenu.cs:231-237 | with an empty search text every catalog entry is searched |
| CatalogFilter.BuildSearchItems | EasySpawner/UI/EasySpawnerMenu.cs:239-256 | every result is a searched catalog name; no non-favourite precedes a favourite; favourites-only gives only favourites; every listable catalog name is included |
| CatalogFilter.SearchItemsOrdered | EasySpawner/UI/EasySpawnerMenu.cs:239-256 | the result is a favourites block then a non-favourites block, each a subsequence of catalog order |
| CatalogFilter.SearchItemsMultiplicity | EasySpawner/UI/EasySpawnerMenu.cs:239-256 | a listable name occurs as often as in the catalog; any other name never occurs |
| CatalogFilter.Refilter | EasySpawner/UI/EasySpawnerMenu.cs:231-256 | only `isSearched` changes, and it changes as the search test says; names, keys and favourites are kept |
| CatalogFilter.RefilterListing | EasySpawner/UI/EasySpawnerMenu.cs:231-256 | a name is listed iff it is in the catalog, matches the text, and is a favourite or favourites-only is off |
| CatalogFilter.RefilterIdempotent | EasySpawner/UI/EasySpawnerMenu.cs:226-256 | refiltering again with the same inputs changes neither the catalog nor the list |
| FavouritesStore.LoadFavourites | EasySpawner/EasySpawnerPlugin.cs:128-148 | a missing file changes nothing; a known name in the file becomes favourite; unknown lines are skipped; keys and all other fields are unchanged |
| FavouritesStore.LoadLines | EasySpawner/EasySpawnerPlugin.cs:135-146 | after reading the lines a known prefab is favourite iff it already was or some line names it; unknown lines are skipped; keys and all other fields are unchanged |
| FavouritesStore.SaveFavourites | EasySpawner/EasySpawnerPlugin.cs:153-165 | every saved line is a favourite name, and every favourite in the enumeration is saved |
| FavouritesStore.SaveListsFavouritesOnce | EasySpawner/EasySpawnerPlugin.cs:153-165 | the file lists exactly the favourites, once each, in dictionary enumeration order |
| FavouritesStore.SaveThenLoadRoundTrip | EasySpawner/EasySpawnerPlugin.cs:128-165 | writing the saved lines with either terminator, reading them back and loading them into the same catalog with no favourites gives back the saved catalog, when no name contains a line break |
| FavouritesStore.WriteText | EasySpawner/EasySpawnerPlugin.cs:158-162 | the file text: each saved line followed by the `WriteLine` terminator |
| FavouritesStore.TakeLine | EasySpawner/EasySpawnerPlugin.cs:137 | one `ReadLine`: the line holds no break, and the rest of the text is strictly shorter |
| FavouritesStore.ReadLines | EasySpawner/EasySpawnerPlugin.cs:135-137 | the lines read until end of stream; none holds a line break |
| FavouritesStore.TakeWrittenLine | EasySpawner/EasySpawnerPlugin.cs:137 | reading a written line without breaks gives that line and the text after its terminator |
| FavouritesStore.ReadWrittenLines | EasySpawner/EasySpawnerPlugin.cs:135-162 | written lines without breaks are read back exactly as written |
| FavouritesStore.LineBreakSplitsName | EasySpawner/EasySpawnerPlugin.cs:135-162 | the favourite `"a\nb"` is read back as the lines `"a"` and `"b"`, and is not a favourite after reloading |
| FavouritesStore.LoadIdempotent | EasySpawner/EasySpawnerPlugin.cs:128-148 | loading the same file twice is loading it once |
| RowPool.InitialPoolValid | EasySpawner/UI/EasySpawnerMenu.cs:75-86 | the freshly created 20-row pool, all rows queued in order, satisfies the pool invariant |
| RowPool.InitialPool | EasySpawner/UI/EasySpawnerMenu.cs:75-86 | the 20 freshly created rows are all pooled, and the queue holds rows 0 to 19 in order |
| RowPool.PoolRow | EasySpawner/UI/EasySpawnerMenu.cs:98-102 | the row is pooled and appended to the queue; other rows are untouched |
| RowPool.Sweep | EasySpawner/UI/EasySpawnerMenu.cs:104-131 | exactly the unqueued rows the rule drops are pooled; the queue only grows at its back and stays duplicate-free |
| RowPool.OutsideBand | EasySpawner/UI/EasySpawnerMenu.cs:129 | the band test: a row is dropped when its y lies more than one row above the scrolled-off top or more than one row below the viewport |
| RowPool.SweepValid | EasySpawner/UI/EasySpawnerMenu.cs:104-131 | a sweep keeps the pool invariant |
| RowPool.PoolAll | EasySpawner/UI/EasySpawnerMenu.cs:104-113 | afterwards every row is queued; rows not queued before are pooled; no row is queued twice |
| RowPool.PoolAllValid | EasySpawner/UI/EasySpawnerMenu.cs:104-113 | pooling all rows keeps the invariant and leaves no live row |
| RowPool.Place | EasySpawner/UI/EasySpawnerMenu.cs:141-150 | the front row leaves the queue and shows index `i` at `y = -20i - 10`, active, with the selection and favourite flags; other rows are untouched |
| RowPool.Shown | EasySpawner/UI/EasySpawnerMenu.cs:144-149 | the row that shows result `i`: index `i`, `y = -20i - 10`, the result's name, toggle on iff it is the selection, its favourite flag, active |
| RowPool.PlaceValid | EasySpawner/UI/EasySpawnerMenu.cs:136-150 | placing an index no row shows keeps the invariant, so no two live rows share an index |
| RowPool.AssignConsumesQueueFront | EasySpawner/UI/EasySpawnerMenu.cs:136-151 | the index loop only dequeues from the front |
| RowPool.AssignKeepsShown | EasySpawner/UI/EasySpawnerMenu.cs:136-151 | an index some row shows stays shown |
| RowPool.AssignCoversRange | EasySpawner/UI/EasySpawnerMenu.cs:136-151 | unless the queue runs dry, every index of the range ends up shown |
| RowPool.AssignChangesOnlyQueuedRows | EasySpawner/UI/EasySpawnerMenu.cs:136-151 | a changed row was queued and now shows an index of the range that no row showed before |
| RowPool.Assign | EasySpawner/UI/EasySpawnerMenu.cs:136-151 | the index loop keeps the pool invariant; its effect is stated by the four `Assign` lemmas above |
| RowPool.CeilDiv | EasySpawner/UI/EasySpawnerMenu.cs:133-134 | the result is the least integer whose multiple of the divisor reaches the dividend (`CeilToInt` of an exact quotient) |
| RowPool.WindowBounds | EasySpawner/UI/EasySpawnerMenu.cs:133-134 | `startIndex` is the least n ≥ 0 with `20n ≥ scrollY - 20`; `maxItems` is the least m with `20m ≥ height + 40` |
| RowPool.StartIndex | EasySpawner/UI/EasySpawnerMenu.cs:133 | `max(0, ceil((scrollY - 20) / 20))`, characterised by `WindowBounds` as the least index whose row top is at most one row above the scrolled-off part |
| RowPool.MaxItems | EasySpawner/UI/EasySpawnerMenu.cs:134 | `ceil((height + 40) / 20)`, characterised by `WindowBounds` as the fewest rows covering the viewport plus two rows |
| RowPool.WindowEnd | EasySpawner/UI/EasySpawnerMenu.cs:136 | the loop bound `min(startIndex + maxItems, count)` never exceeds the number of results |
| RowPool.UpdateItemPrefabPool | EasySpawner/UI/EasySpawnerMenu.cs:115-152 | a scroll update keeps the pool invariant |
| RowPool.UpdateEffect | EasySpawner/UI/EasySpawnerMenu.cs:115-152 | rows inside the band are kept; every row is kept, pooled, or shows a window index; unless the queue ran dry every window index is shown |
| RowPool.UpdateFromPooled | EasySpawner/UI/EasySpawnerMenu.cs:136-151 | from a pool with no live rows and no toggles, every live row shows the window index it sits at, and no toggle comes on |
| RowPool.RelayoutFromScratch | EasySpawner/UI/EasySpawnerMenu.cs:258-259 | pooling every row and then updating shows exactly window rows, with no toggle on |
| SpawnMenu.SelectPrefab | EasySpawner/UI/EasySpawnerMenu.cs:154-163 | only the caller's toggle is on (none for no caller); the selection is the caller's name or none; nothing else changes |
| SpawnMenu.RebuildPrefabDropdown | EasySpawner/UI/EasySpawnerMenu.cs:226-260 | the selection is cleared; search flags are recomputed; favourites and names are kept; every other menu field (search text, toggles, scroll, amount, level, pickup and ignore flags) is unchanged; the menu stays consistent |
| SpawnMenu.RebuildShowsWindow | EasySpawner/UI/EasySpawnerMenu.cs:226-260 | after a rebuild no toggle is on; every live row shows a window result; every window result is shown unless the queue ran dry |
| SpawnMenu.RebuildListing | EasySpawner/UI/EasySpawnerMenu.cs:239-256 | after a rebuild a name is listed iff it is in the catalog, matches the text, and is a favourite or favourites-only is off; favourites come first |
| SpawnMenu.RebuildIdempotent | EasySpawner/UI/EasySpawnerMenu.cs:226-260 | rebuilding twice leaves the catalog, list and selection as one rebuild does |
| SpawnMenu.SetFavourite | EasySpawner/UI/EasySpawnerMenu.cs:167-168 | only the named entry's favourite flag changes |
| SpawnMenu.FavouritePrefab | EasySpawner/UI/EasySpawnerMenu.cs:165-172 | the menu stays consistent, the selection is cleared, and the catalog keys are kept |
| SpawnMenu.FavouriteTogglesOnlyCaller | EasySpawner/UI/EasySpawnerMenu.cs:165-172 | only the caller's prefab changes its favourite flag; no localized name changes |
| SpawnMenu.FavouriteWritesFile | EasySpawner/UI/EasySpawnerMenu.cs:165-172 | the file written lists exactly the favourites of the updated catalog |
| SpawnMenu.ClampInput | EasySpawner/UI/EasySpawnerMenu.cs:202-205 | a parsed value of at least 1 is kept; a parse failure or a value below 1 gives 1 |
| SpawnMenu.ResolveTarget | EasySpawner/UI/EasySpawnerMenu.cs:207-220 | the target is the named connected player when one exists, otherwise the local player |
| SpawnMenu.SpawnButtonPress | EasySpawner/UI/EasySpawnerMenu.cs:193-223 | no request iff nothing is selected; amount and level are clamped to ≥ 1; pickup only when the dropdown names the local player |
| StackSplit.CsDivision | EasySpawner/EasySpawnerPlugin.cs:275-276 | truncating quotient and remainder recompose the amount; the remainder is below the divisor and has the amount's sign |
| StackSplit.MaxStackOf | EasySpawner/EasySpawnerPlugin.cs:268-272 | the maximum stack, with values below 1 read as 1 |
| StackSplit.SplitStacksShape | EasySpawner/EasySpawnerPlugin.cs:260-287 | for amount ≥ 0 the stacks sum to the amount, number `ceil(amount/m)`, lie in 1..m, and all but the last are full |
| StackSplit.SplitStacksUnique | EasySpawner/EasySpawnerPlugin.cs:260-287 | any stacks in 1..m, full but the last, summing to the amount are exactly the engine's split |
| StackSplit.SplitStacksExamples | EasySpawner/EasySpawnerPlugin.cs:260-287 | 23 at 10 gives 10, 10, 3; 5 with a maximum of 0 gives five 1s; -7 at 5 gives one stack of -2 |
| StackSplit.SplitStacksNegative | EasySpawner/EasySpawnerPlugin.cs:275-287 | for a negative amount there is no full stack: at most one stack, the negative truncated remainder, strictly between `-m` and 0, and none when `m` divides the amount |
| StackSplit.SplitStacks | EasySpawner/EasySpawnerPlugin.cs:275-287 | `amount / m` full stacks, then the remainder when it is not zero; characterised by `SplitStacksShape`, `SplitStacksUnique` and `SplitStacksNegative` |
| SpawnEngine.HasCraftingRecipeExists | EasySpawner/EasySpawnerPlugin.cs:311-316 | the recipe scan succeeds iff some recipe has an item, is not exempt, and produces the prefab |
| SpawnEngine.HasCraftingRecipe | EasySpawner/EasySpawnerPlugin.cs:311-316 | the in-order recipe scan; `HasCraftingRecipeExists` proves it succeeds iff a matching recipe exists |
| SpawnEngine.CraftsItem | EasySpawner/EasySpawnerPlugin.cs:311-316 | the recipe lambda: the recipe has an item, its name is not exempt, and its item is the prefab |
| SpawnEngine.ShouldStampCrafter | EasySpawner/EasySpawnerPlugin.cs:318 | the crafter rule: (some recipe crafts it, or it is equipable) and its name is not exempt; `SpawnItemCrafter` ties it to `SpawnItem` |
| SpawnEngine.SpawnItem | EasySpawner/EasySpawnerPlugin.cs:306-341 | only the crafter stamp of the template changes; the record entry is empty iff the item went to the inventory |
| SpawnEngine.SpawnItemEffect | EasySpawner/EasySpawnerPlugin.cs:325-340 | one item event carrying the template is appended; a drop adds one fresh copy, an inventory add adds no object |
| SpawnEngine.SpawnItemCrafter | EasySpawner/EasySpawnerPlugin.cs:311-334 | the local player is stamped iff (an unexempt recipe with an item produces it, or it is equipable) and its name is not exempt; the inventory add carries the stamp or an empty crafter |
| SpawnEngine.SpawnItemsRecord | EasySpawner/EasySpawnerPlugin.cs:279-281 | n item spawns record n entries, each empty iff pickup |
| SpawnEngine.SpawnItemsTrace | EasySpawner/EasySpawnerPlugin.cs:279-281 | n item spawns append n item events, each carrying the template |
| SpawnEngine.SpawnItemsGrows | EasySpawner/EasySpawnerPlugin.cs:279-281 | n item spawns add exactly the recorded fresh copies to the scene |
| SpawnEngine.SpawnItems | EasySpawner/EasySpawnerPlugin.cs:253-256 | `n` consecutive `SpawnItem` calls with one template keep the scene valid and change only the template's crafter stamp; the `SpawnItems` lemmas state the record, trace and growth |
| SpawnEngine.InstantiateManyTrace | EasySpawner/EasySpawnerPlugin.cs:231-238 | n instantiations record n handles and one placement event per handle, in order |
| SpawnEngine.InstantiateManyGrows | EasySpawner/EasySpawnerPlugin.cs:294-297 | n instantiations add exactly the recorded fresh copies |
| SpawnEngine.InstantiateMany | EasySpawner/EasySpawnerPlugin.cs:294-297 | `n` instantiations of one prefab keep the scene valid; the `InstantiateMany` lemmas state the handles, events and growth (also used for characters at lines 231-238) |
| SpawnEngine.SpawnItemPrefab | EasySpawner/EasySpawnerPlugin.cs:241-291 | after an item spawn the template's stack and quality are 1 and its shared data is unchanged |
| SpawnEngine.EquipableInstances | EasySpawner/EasySpawnerPlugin.cs:244-257 | one instance of stack `amount` with ignore, else `amount` instances; quality is the level; a drop has full durability |
| SpawnEngine.SpawnEquipable | EasySpawner/EasySpawnerPlugin.cs:244-257 | the equipable branch keeps the scene valid and the template's shared data; `EquipableInstances` states its instances |
| SpawnEngine.StackableSplits | EasySpawner/EasySpawnerPlugin.cs:258-288 | without ignore the emitted stacks are the split of the amount by the clamped maximum, at the template's quality |
| SpawnEngine.StackableSplitOk | EasySpawner/EasySpawnerPlugin.cs:258-288 | without ignore: one item event per record entry, entries empty iff pickup, the scene grown by exactly the dropped copies |
| SpawnEngine.StackableIgnoresMaximum | EasySpawner/EasySpawnerPlugin.cs:260-281 | with ignore, one instance carrying the whole amount |
| SpawnEngine.SpawnStackable | EasySpawner/EasySpawnerPlugin.cs:258-288 | the stackable branch keeps the scene valid and the template's shared data; `StackableSplits` and `StackableIgnoresMaximum` state its stacks |
| SpawnEngine.SpawnPrefab | EasySpawner/EasySpawnerPlugin.cs:215-304 | an unknown name only reports the failure and pushes nothing; a resolved one pushes exactly one record, keeps the older records, and ends with the announcement |
| SpawnEngine.SpawnPrefabGrows | EasySpawner/EasySpawnerPlugin.cs:215-304 | a resolved spawn adds exactly the pushed record's fresh copies and one event per entry plus the announcement; only the prefab's own template may change |
| SpawnEngine.SpawnPrefabCharacters | EasySpawner/EasySpawnerPlugin.cs:229-239 | a character prefab records `amount` fresh handles (none when `amount` ≤ 0), one placement event each; the level is set iff it exceeds 1, and then to the level |
| SpawnEngine.SpawnPrefabObjects | EasySpawner/EasySpawnerPlugin.cs:292-298 | a plain prefab records `amount` fresh handles, one object-spawned event each near the target |
| SpawnEngine.SpawnPrefabItems | EasySpawner/EasySpawnerPlugin.cs:241-291 | one item event per entry; entries empty and scene unchanged iff pickup; template stack and quality reset to 1 |
| SpawnEngine.SpawnPrefabEquipable | EasySpawner/EasySpawnerPlugin.cs:244-257 | for an equipable prefab: the instance count, the stack, quality = level, and full durability on drops |
| SpawnEngine.SpawnPrefabStacks | EasySpawner/EasySpawnerPlugin.cs:258-288 | for a stackable prefab: the stacks are `[amount]` with ignore, else the split by the clamped maximum |
| UndoLog.DestroyEntriesObjects | EasySpawner/EasySpawnerPlugin.cs:355-364 | exactly the entries that are live with a valid, owned net view leave the scene; survivors are untouched |
| UndoLog.DestroyEntriesRequests | EasySpawner/EasySpawnerPlugin.cs:355-364 | only destruction requests are appended, each for such an entry |
| UndoLog.DestroyEntriesOnce | EasySpawner/EasySpawnerPlugin.cs:355-364 | no object is requested twice, even when the record lists it twice |
| UndoLog.DestroyEntriesCovers | EasySpawner/EasySpawnerPlugin.cs:355-364 | every destroyable entry is requested |
| UndoLog.DestroyEntries | EasySpawner/EasySpawnerPlugin.cs:355-364 | the destroy loop over a record keeps the scene valid and allocates no handle; the `DestroyEntries` lemmas state which objects go |
| UndoLog.Destroyable | EasySpawner/EasySpawnerPlugin.cs:357-361 | an entry is destroyed iff it is not null and its object is live with a present, valid and owned net view |
| UndoLog.DestroyStep | EasySpawner/EasySpawnerPlugin.cs:357-363 | one loop iteration keeps the scene valid and allocates no handle; what the whole loop destroys and requests is stated by the `DestroyEntries` lemmas |
| UndoLog.UndoSpawn | EasySpawner/EasySpawnerPlugin.cs:343-368 | an empty stack is a no-op; otherwise only the top record is popped and the announced count is its full length |
| UndoLog.UndoSpawnEffect | EasySpawner/EasySpawnerPlugin.cs:343-368 | the scene loses exactly the destroyable entries of the top record, each requested once, before the announcement |
| UndoLog.UndoRequestsExactly | EasySpawner/EasySpawnerPlugin.cs:355-366 | the requests are exactly the destroyable handles of the top record, without repeats |
| UndoLog.SpawnedAllDestroyable | EasySpawner/EasySpawnerPlugin.cs:355-362 | right after a spawn of a prefab with a net view, the destroyable entries are exactly the recorded handles |
| UndoLog.SpawnThenUndo | EasySpawner/EasySpawnerPlugin.cs:343-368 | spawn then undo restores the stack and reports the record length; with a net view the scene's objects are restored exactly, without one the copies stay |
| UndoLog.SpawnThenUndoRequests | EasySpawner/EasySpawnerPlugin.cs:343-368 | for a prefab with a net view, spawn then undo requests destruction of exactly the recorded handles, once each |
| PlayerPoll.UnchangedIffSameNames | EasySpawner/EasySpawnerPlugin.cs:400-414 | for lists without repeated names, the test reports no change iff both hold the same set of names |
| PlayerPoll.PlayerListChanged | EasySpawner/EasySpawnerPlugin.cs:400-414 | when the test reports no change, the lists have equal length and every current name is remembered |

## Left out

- Plugin lifecycle and host wiring: `Awake`, `OnDestroy`, hotkey dispatch in `Update`, `CreateMenu`, `DestroyMenu`, asset-bundle loading and the Harmony patching. They only connect the core to the game.
- `EasySpawnerConfig`: it binds configuration entries and holds no logic.
- `RebuildPlayerDropdown`, `UpdateMenuSize`, `Style.ApplyAll` and `EasySpawnerMenu.Destroy`: UI toolkit and network-list plumbing.
- The polling coroutine's timing, its three-second wait and its lifetime: only its change test is modelled.
- Logging, and the text of the status messages. A message is an event carrying its essential value: the prefab name, or the undo count.
- The undo message's display name (`name.Remove(len - 7)`), which strips the `(Clone)` suffix. On a name shorter than seven characters `Remove` throws: the undo then stops mid-loop with the record already popped, later objects are not destroyed, and no message is shown. The model never reaches this, because spawned copies always carry the `(Clone)` suffix.
- Positions: `near` names the target player; placement offsets and rotations are not modelled.
- `m_dropPrefab` assignment before a drop, and how the host reads `DropItem`'s amount argument: the drop event records the argument (1) and the template.
- Host behaviour the plugin relies on is an assumption of the model:
  - Fresh copies of a prefab with a `ZNetView` are valid and owned by the local peer.
  - `ZNetView.Destroy` removes the object.
  - `GetMaxDurability` is a per-definition constant.
  - A recipe's `m_item` is identified by prefab name.
- `PrefabItem` is not modelled; its `Pool()` is assumed to clear `posIndex` and deactivate the row, and `SetName`/`GetName` to store and return the name.
- The content height set at `EasySpawnerMenu.cs:117` and float scroll geometry: scroll offset and viewport height are integers, and rows are 20 units high.
- `Int32.TryParse`'s grammar: the amount and level fields arrive already parsed, as optional integers.
- File I/O: the favourites file is its text, or absent. `WriteLine` appends `\n` or `\r\n`, and `ReadLine` splits at `\n`, `\r` and `\r\n` (`FavouritesStore.WriteText`, `FavouritesStore.ReadLines`). `LoadFavourites` takes the lines read. `ReadLine` never yields null before end of file.
- FavouritesStore.SaveThenLoadRoundTrip: holds only when no prefab name contains a line break. A name holding one is written on one line but read back as two, so it is no longer a favourite after reloading (`FavouritesStore.LineBreakSplitsName`). Real prefab names hold no line breaks.
- `Parallel.ForEach`: modelled as a sequential pass. `CatalogFilter.RecomputeOrderIrrelevant` shows the visiting order does not matter.
- TextMatch.ToUpper: folds ASCII letters only. `OrdinalIgnoreCase` also folds non-ASCII letters, so the model's search test is weaker on such names.
- SpawnEngine.SpawnPrefab: takes any integer amount, as the source does; the menu never passes one below 1. For a negative amount characters, objects and equipables without ignore spawn nothing; an equipable or stackable item with ignore spawns one instance carrying the whole negative amount; a stackable item without ignore spawns one stack of the negative truncated remainder, or nothing when the maximum divides the amount (`StackSplit.SplitStacksNegative`). A record is pushed in every case, empty when nothing spawned.
- PlayerPoll.UnchangedIffSameNames: holds only for lists without repeated names. With repeats, a list of the same length whose names are all remembered reports no change even when a name left.
