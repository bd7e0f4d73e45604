/** The spawn engine of `EasySpawnerPlugin`: `SpawnPrefab`, which resolves a
    prefab name and creates the requested number of characters, items or
    plain objects near a player, and `SpawnItem`, which stamps the crafter
    and either drops one item or adds it to the local player's inventory.
    Every call that resolves its prefab pushes one record of the created
    handles onto `spawnActions` (the top of the stack is the last element).

    While one call runs, the item prefab's shared template is threaded
    through the loops as a value and written back to the prefab table at the
    end; nothing else reads the table meanwhile. */
module SpawnEngine {
  import opened Wrappers
  import opened WorldModel
  import opened Seqs
  import opened StackSplit

  /** The plugin state the engine and the undo log share. */
  datatype Plugin = Plugin(world: World, spawnActions: seq<seq<Option<Handle>>>)

  /** Recipes that never make their item count as crafted. */
  const RecipeNameFilterList: seq<string> := ["Recipe_PotionHealthMinor", "Recipe_PotionStaminaMinor"]

  /** Items that never receive a crafter stamp. */
  const ItemNameFilterList: seq<string> := ["$item_fishingbait"]

  /** A recipe that has an item, is not exempt, and produces prefab `name`. */
  predicate CraftsItem(r: Recipe, name: string) {
    r.item.Some? && r.name !in RecipeNameFilterList && r.item.value == name
  }

  /** `recipes.Exists(...)`, scanning the recipe list in order. */
  function HasCraftingRecipe(recipes: seq<Recipe>, name: string): bool {
    if |recipes| == 0 then false
    else CraftsItem(recipes[0], name) || HasCraftingRecipe(recipes[1..], name)
  }

  /** The scan finds a recipe exactly when one exists. */
  lemma {:induction false} HasCraftingRecipeExists(recipes: seq<Recipe>, name: string)
    ensures HasCraftingRecipe(recipes, name) <==> exists i | 0 <= i < |recipes| :: CraftsItem(recipes[i], name)
  {
    if |recipes| > 0 {
      HasCraftingRecipeExists(recipes[1..], name);
      if exists i | 1 <= i < |recipes| :: CraftsItem(recipes[i], name) {
        var i :| 1 <= i < |recipes| && CraftsItem(recipes[i], name);
        assert recipes[1..][i - 1] == recipes[i];
      }
    }
  }

  /** Whether `SpawnItem` stamps the local player as the item's crafter. */
  predicate ShouldStampCrafter(recipes: seq<Recipe>, name: string, t: ItemData) {
    (HasCraftingRecipe(recipes, name) || t.shared.equipable) && t.shared.name !in ItemNameFilterList
  }

  /** An event of the item path for prefab `name`: an inventory add, or a drop
      near the target player. */
  predicate IsItemEvent(e: Event, name: string, near: string, pickup: bool) {
    if pickup then e.ItemAddedToInventory? && e.prefab == name
    else e.ItemDropped? && e.prefab == name && e.near == near && e.amount == 1
  }

  /** The stack size, quality and variant an item event carries. */
  function EventStack(e: Event): int {
    match e
    case ItemDropped(_, _, _, item, _) => item.stack
    case ItemAddedToInventory(_, stack, _, _, _, _) => stack
    case _ => 0
  }

  function EventQuality(e: Event): int {
    match e
    case ItemDropped(_, _, _, item, _) => item.quality
    case ItemAddedToInventory(_, _, quality, _, _, _) => quality
    case _ => 0
  }

  function EventVariant(e: Event): int {
    match e
    case ItemDropped(_, _, _, item, _) => item.variant
    case ItemAddedToInventory(_, _, _, variant, _, _) => variant
    case _ => 0
  }

  /** The event one `SpawnItem` call emits for template `t`: an item event
      carrying the template's stack, quality and variant; a drop carries the
      whole template, crafter stamp aside. */
  predicate ItemEventOf(e: Event, name: string, near: string, pickup: bool, t: ItemData) {
    var u := Unstamped(t);
    && IsItemEvent(e, name, near, pickup)
    && EventStack(e) == u.stack && EventQuality(e) == u.quality && EventVariant(e) == u.variant
    && (e.ItemDropped? ==> Unstamped(e.item) == u)
  }

  function Stacks(evs: seq<Event>): (r: seq<int>)
    ensures |r| == |evs| && forall i | 0 <= i < |evs| :: r[i] == EventStack(evs[i])
  {
    seq(|evs|, i requires 0 <= i < |evs| => EventStack(evs[i]))
  }

  /** `SpawnItem`: stamp the crafter on the template when the rule says so,
      then add the template to the local inventory (`pickup`, recording no
      object) or drop a copy of it near the player. Returns the scene, the
      template as left, and the record entry. */
  function SpawnItem(s: Scene, t: ItemData, env: Env, name: string, near: string, pickup: bool, copy: WorldObject): (r: (Scene, ItemData, Option<Handle>))
    requires Valid(s)
    ensures Valid(r.0)
    ensures Unstamped(r.1) == Unstamped(t)
    ensures r.2.None? <==> pickup
  {
    var stamp := ShouldStampCrafter(env.recipes, name, t);
    var stamped := if stamp then t.(crafterId := env.localId, crafterName := env.localName) else t;
    if pickup then
      var crafterId := if stamp then env.localId else 0;
      var crafterName := if stamp then env.localName else "";
      (s.(trace := s.trace + [ItemAddedToInventory(name, stamped.stack, stamped.quality, stamped.variant, crafterId, crafterName)]), stamped, None)
    else
      var (s2, h) := Instantiate(s, copy);
      (s2.(trace := s2.trace + [ItemDropped(h, name, near, stamped, 1)]), stamped, Some(h))
  }

  /** One item spawn appends one item event for the template and adds the
      dropped copy, if any, as a fresh object. */
  lemma SpawnItemEffect(s: Scene, t: ItemData, env: Env, name: string, near: string, pickup: bool, copy: WorldObject)
    requires Valid(s)
    ensures var r := SpawnItem(s, t, env, name, near, pickup, copy);
      && |r.0.trace| == |s.trace| + 1 && r.0.trace[..|s.trace|] == s.trace
      && ItemEventOf(r.0.trace[|s.trace|], name, near, pickup, t)
      && GrewBy(s, r.0, [r.2], copy)
      && (pickup ==> r.0.objects == s.objects && r.0.nextHandle == s.nextHandle)
  {
    InstantiateGrows(s, copy);
  }

  /** The crafter rule of `SpawnItem`: the local player is stamped on the
      template exactly when an unexempt recipe with an item produces the
      prefab, or the item is equipable, and the item's name is not exempt.
      The inventory add carries the stamp or else an empty crafter; a drop
      carries the template as stamped. */
  lemma SpawnItemCrafter(s: Scene, t: ItemData, env: Env, name: string, near: string, pickup: bool, copy: WorldObject)
    requires Valid(s)
    ensures var r := SpawnItem(s, t, env, name, near, pickup, copy);
      var e := r.0.trace[|s.trace|];
      var stamped :=
        && ((exists i | 0 <= i < |env.recipes| :: CraftsItem(env.recipes[i], name)) || t.shared.equipable)
        && t.shared.name !in ItemNameFilterList;
      && (stamped ==> r.1.crafterId == env.localId && r.1.crafterName == env.localName)
      && (!stamped ==> r.1 == t)
      && (pickup ==> e.crafterId == (if stamped then env.localId else 0) && e.crafterName == (if stamped then env.localName else ""))
      && (!pickup ==> e.item == r.1)
  {
    HasCraftingRecipeExists(env.recipes, name);
  }

  /** `n` successive `SpawnItem` calls. */
  function SpawnItems(s: Scene, t: ItemData, env: Env, name: string, near: string, pickup: bool, copy: WorldObject, n: nat): (r: (Scene, ItemData, seq<Option<Handle>>))
    requires Valid(s)
    ensures Valid(r.0)
    ensures Unstamped(r.1) == Unstamped(t)
    decreases n
  {
    if n == 0 then (s, t, [])
    else
      var (s1, t1, h) := SpawnItem(s, t, env, name, near, pickup, copy);
      var (s2, t2, hs) := SpawnItems(s1, t1, env, name, near, pickup, copy, n - 1);
      (s2, t2, [h] + hs)
  }

  /** The record of `n` item spawns has `n` entries, all empty exactly when
      the items went to the inventory. */
  lemma {:induction false} SpawnItemsRecord(s: Scene, t: ItemData, env: Env, name: string, near: string, pickup: bool, copy: WorldObject, n: nat)
    requires Valid(s)
    ensures var r := SpawnItems(s, t, env, name, near, pickup, copy, n);
      |r.2| == n && forall i | 0 <= i < n :: r.2[i].None? <==> pickup
    decreases n
  {
    if n > 0 {
      var (s1, t1, h) := SpawnItem(s, t, env, name, near, pickup, copy);
      SpawnItemsRecord(s1, t1, env, name, near, pickup, copy, n - 1);
    }
  }

  /** `n` item spawns append `n` item events, each for the template as it
      stood before the first (crafter stamp aside). */
  lemma {:induction false} SpawnItemsTrace(s: Scene, t: ItemData, env: Env, name: string, near: string, pickup: bool, copy: WorldObject, n: nat)
    requires Valid(s)
    ensures var r := SpawnItems(s, t, env, name, near, pickup, copy, n);
      && |r.0.trace| == |s.trace| + n && r.0.trace[..|s.trace|] == s.trace
      && forall i | |s.trace| <= i < |r.0.trace| :: ItemEventOf(r.0.trace[i], name, near, pickup, t)
    decreases n
  {
    if n > 0 {
      var (s1, t1, h) := SpawnItem(s, t, env, name, near, pickup, copy);
      SpawnItemEffect(s, t, env, name, near, pickup, copy);
      SpawnItemsTrace(s1, t1, env, name, near, pickup, copy, n - 1);
      var s2 := SpawnItems(s1, t1, env, name, near, pickup, copy, n - 1).0;
      assert s2.trace[..|s.trace|] == s2.trace[..|s1.trace|][..|s.trace|];
      assert s2.trace[|s.trace|] == s1.trace[|s.trace|];
    }
  }

  /** `n` item spawns grow the scene by exactly the dropped copies, and by
      nothing when the items went to the inventory. */
  lemma {:induction false} SpawnItemsGrows(s: Scene, t: ItemData, env: Env, name: string, near: string, pickup: bool, copy: WorldObject, n: nat)
    requires Valid(s)
    ensures var r := SpawnItems(s, t, env, name, near, pickup, copy, n);
      && GrewBy(s, r.0, r.2, copy)
      && (pickup ==> r.0.objects == s.objects)
    decreases n
  {
    if n > 0 {
      var (s1, t1, h) := SpawnItem(s, t, env, name, near, pickup, copy);
      SpawnItemEffect(s, t, env, name, near, pickup, copy);
      SpawnItemsGrows(s1, t1, env, name, near, pickup, copy, n - 1);
      var (s2, t2, hs) := SpawnItems(s1, t1, env, name, near, pickup, copy, n - 1);
      GrewByTrans(s, s1, s2, [h], hs, copy);
    }
  }

  /** How a non-item prefab is placed: a character, whose level is raised
      when the requested level exceeds 1, or a plain object. */
  datatype Placement = AsCharacter(level: int) | AsObject

  function PlacedEvent(h: Handle, name: string, near: string, how: Placement): Event {
    match how
    case AsCharacter(level) => CharacterSpawned(h, name, near, if level > 1 then Some(level) else None)
    case AsObject => ObjectSpawned(h, name, near)
  }

  /** `n` instantiations of a prefab near a player. */
  function InstantiateMany(s: Scene, copy: WorldObject, name: string, near: string, how: Placement, n: nat): (r: (Scene, seq<Option<Handle>>))
    requires Valid(s)
    ensures Valid(r.0)
    decreases n
  {
    if n == 0 then (s, [])
    else
      var (s1, h) := Instantiate(s, copy);
      var (s2, hs) := InstantiateMany(s1.(trace := s1.trace + [PlacedEvent(h, name, near, how)]), copy, name, near, how, n - 1);
      (s2, [Some(h)] + hs)
  }

  /** `n` instantiations record `n` handles and append one placement event
      for each, in order. */
  lemma {:induction false} InstantiateManyTrace(s: Scene, copy: WorldObject, name: string, near: string, how: Placement, n: nat)
    requires Valid(s)
    ensures var r := InstantiateMany(s, copy, name, near, how, n);
      && |r.1| == n && (forall i | 0 <= i < n :: r.1[i].Some?)
      && |r.0.trace| == |s.trace| + n && r.0.trace[..|s.trace|] == s.trace
      && forall i | 0 <= i < n :: r.0.trace[|s.trace| + i] == PlacedEvent(r.1[i].value, name, near, how)
    decreases n
  {
    if n > 0 {
      var (s0, h) := Instantiate(s, copy);
      var s1 := s0.(trace := s0.trace + [PlacedEvent(h, name, near, how)]);
      InstantiateManyTrace(s1, copy, name, near, how, n - 1);
      var r := InstantiateMany(s, copy, name, near, how, n);
      var hs := InstantiateMany(s1, copy, name, near, how, n - 1).1;
      assert r.1 == [Some(h)] + hs;
      assert forall i | 1 <= i < n :: r.0.trace[|s.trace| + i] == r.0.trace[|s1.trace| + (i - 1)] && r.1[i] == hs[i - 1];
      assert r.0.trace[..|s.trace|] == r.0.trace[..|s1.trace|][..|s.trace|];
      assert r.0.trace[|s.trace|] == s1.trace[|s.trace|];
    }
  }

  /** `n` instantiations grow the scene by exactly the recorded objects. */
  lemma {:induction false} InstantiateManyGrows(s: Scene, copy: WorldObject, name: string, near: string, how: Placement, n: nat)
    requires Valid(s)
    ensures var r := InstantiateMany(s, copy, name, near, how, n);
      GrewBy(s, r.0, r.1, copy)
    decreases n
  {
    if n > 0 {
      var (s0, h) := Instantiate(s, copy);
      var s1 := s0.(trace := s0.trace + [PlacedEvent(h, name, near, how)]);
      InstantiateGrows(s, copy);
      InstantiateManyGrows(s1, copy, name, near, how, n - 1);
      var (s2, hs) := InstantiateMany(s1, copy, name, near, how, n - 1);
      GrewByTrans(s, s1, s2, [Some(h)], hs, copy);
    }
  }

  /** The equipable branch: with `ignoreStackSize` one instance carrying the
      whole amount, otherwise `amount` instances; quality is the requested
      level and durability the maximum. */
  function SpawnEquipable(s: Scene, t: ItemData, env: Env, name: string, near: string, amount: int, level: int, pickup: bool, ignoreStackSize: bool, copy: WorldObject): (r: (Scene, ItemData, seq<Option<Handle>>))
    requires Valid(s)
    ensures Valid(r.0) && r.1.shared == t.shared
  {
    var stack := if ignoreStackSize then amount else t.stack;
    var count := if ignoreStackSize then 1 else Times(amount);
    SpawnItems(s, t.(stack := stack, quality := level, durability := t.shared.maxDurability), env, name, near, pickup, copy, count)
  }

  /** The stackable branch: with `ignoreStackSize` one instance carrying the
      whole amount; otherwise full stacks of the clamped maximum, then the
      remainder when it is not zero. */
  function SpawnStackable(s: Scene, t: ItemData, env: Env, name: string, near: string, amount: int, pickup: bool, ignoreStackSize: bool, copy: WorldObject): (r: (Scene, ItemData, seq<Option<Handle>>))
    requires Valid(s)
    ensures Valid(r.0) && r.1.shared == t.shared
  {
    if ignoreStackSize then
      SpawnItems(s, t.(stack := amount), env, name, near, pickup, copy, 1)
    else
      var m := MaxStackOf(t.shared);
      var (s2, t2, full) := SpawnItems(s, t.(stack := m), env, name, near, pickup, copy, Times(CsDiv(amount, m)));
      if CsRem(amount, m) == 0 then (s2, t2, full)
      else
        var (s3, t3, h) := SpawnItem(s2, t2.(stack := CsRem(amount, m)), env, name, near, pickup, copy);
        (s3, t3, full + [h])
  }

  /** The item branch of `SpawnPrefab`: spawn as equipable or stackable, then
      put the template's stack and quality back to 1. */
  function SpawnItemPrefab(s: Scene, t: ItemData, env: Env, name: string, near: string, amount: int, level: int, pickup: bool, ignoreStackSize: bool, copy: WorldObject): (r: (Scene, ItemData, seq<Option<Handle>>))
    requires Valid(s)
    ensures Valid(r.0) && r.1.shared == t.shared
    ensures r.1.stack == 1 && r.1.quality == 1
  {
    var (s2, t2, rec) :=
      if t.shared.equipable then SpawnEquipable(s, t, env, name, near, amount, level, pickup, ignoreStackSize, copy)
      else SpawnStackable(s, t, env, name, near, amount, pickup, ignoreStackSize, copy);
    (s2, t2.(stack := 1, quality := 1), rec)
  }

  /** What every item branch leaves behind: one item event per record entry
      appended to the trace, entries empty exactly when the items went to
      the inventory, and the scene grown by exactly the dropped copies. */
  ghost predicate ItemBranchOk(s: Scene, s2: Scene, rec: seq<Option<Handle>>, name: string, near: string, pickup: bool, copy: WorldObject) {
    && |s2.trace| == |s.trace| + |rec| && s2.trace[..|s.trace|] == s.trace
    && (forall i | |s.trace| <= i < |s2.trace| :: IsItemEvent(s2.trace[i], name, near, pickup))
    && (forall i | 0 <= i < |rec| :: rec[i].None? <==> pickup)
    && GrewBy(s, s2, rec, copy)
    && (pickup ==> s2.objects == s.objects)
  }

  /** `n` item spawns satisfy the item-branch facts. */
  lemma SpawnItemsOk(s: Scene, t: ItemData, env: Env, name: string, near: string, pickup: bool, copy: WorldObject, n: nat)
    requires Valid(s)
    ensures var r := SpawnItems(s, t, env, name, near, pickup, copy, n);
      ItemBranchOk(s, r.0, r.2, name, near, pickup, copy)
  {
    SpawnItemsRecord(s, t, env, name, near, pickup, copy, n);
    SpawnItemsTrace(s, t, env, name, near, pickup, copy, n);
    SpawnItemsGrows(s, t, env, name, near, pickup, copy, n);
  }

  /** The stackable branch without `ignoreStackSize` satisfies the item
      branch facts. */
  lemma StackableSplitOk(s: Scene, t: ItemData, env: Env, name: string, near: string, amount: int, pickup: bool, copy: WorldObject)
    requires Valid(s)
    ensures var r := SpawnStackable(s, t, env, name, near, amount, pickup, false, copy);
      ItemBranchOk(s, r.0, r.2, name, near, pickup, copy)
  {
    var m := MaxStackOf(t.shared);
    var q := Times(CsDiv(amount, m));
    var (s2, t2, full) := SpawnItems(s, t.(stack := m), env, name, near, pickup, copy, q);
    SpawnItemsOk(s, t.(stack := m), env, name, near, pickup, copy, q);
    if CsRem(amount, m) != 0 {
      var rem := CsRem(amount, m);
      SpawnItemEffect(s2, t2.(stack := rem), env, name, near, pickup, copy);
      var (s3, t3, h) := SpawnItem(s2, t2.(stack := rem), env, name, near, pickup, copy);
      GrewByTrans(s, s2, s3, full, [h], copy);
      assert s3.trace[..|s.trace|] == s3.trace[..|s2.trace|][..|s.trace|];
      assert forall i | |s.trace| <= i < |s2.trace| :: s3.trace[i] == s2.trace[i];
    }
  }

  /** The stackable branch without `ignoreStackSize` emits the split of the
      amount by the clamped maximum stack, at the template's quality. */
  lemma StackableSplits(s: Scene, t: ItemData, env: Env, name: string, near: string, amount: int, pickup: bool, copy: WorldObject)
    requires Valid(s)
    ensures var r := SpawnStackable(s, t, env, name, near, amount, pickup, false, copy);
      && |r.0.trace| == |s.trace| + |r.2|
      && Stacks(r.0.trace[|s.trace|..]) == SplitStacks(amount, MaxStackOf(t.shared))
      && forall i | |s.trace| <= i < |r.0.trace| :: EventQuality(r.0.trace[i]) == t.quality
  {
    var m := MaxStackOf(t.shared);
    var q := Times(CsDiv(amount, m));
    var (s2, t2, full) := SpawnItems(s, t.(stack := m), env, name, near, pickup, copy, q);
    SpawnItemsTrace(s, t.(stack := m), env, name, near, pickup, copy, q);
    SpawnItemsRecord(s, t.(stack := m), env, name, near, pickup, copy, q);
    var split := SplitStacks(amount, m);
    if CsRem(amount, m) == 0 {
      assert split == Repeat(m, q);
    } else {
      var rem := CsRem(amount, m);
      SpawnItemEffect(s2, t2.(stack := rem), env, name, near, pickup, copy);
      var (s3, t3, h) := SpawnItem(s2, t2.(stack := rem), env, name, near, pickup, copy);
      assert forall i | |s.trace| <= i < |s2.trace| :: s3.trace[i] == s2.trace[i];
      assert split == Repeat(m, q) + [rem];
    }
  }

  /** The stackable branch with `ignoreStackSize` emits one instance carrying
      the whole amount. */
  lemma StackableIgnoresMaximum(s: Scene, t: ItemData, env: Env, name: string, near: string, amount: int, pickup: bool, copy: WorldObject)
    requires Valid(s)
    ensures var r := SpawnStackable(s, t, env, name, near, amount, pickup, true, copy);
      && ItemBranchOk(s, r.0, r.2, name, near, pickup, copy)
      && Stacks(r.0.trace[|s.trace|..]) == [amount]
  {
    SpawnItemsOk(s, t.(stack := amount), env, name, near, pickup, copy, 1);
    SpawnItemsTrace(s, t.(stack := amount), env, name, near, pickup, copy, 1);
  }

  /** The equipable branch emits one instance carrying the whole amount with
      `ignoreStackSize`, else `amount` instances of the template's stack;
      every instance has the requested level as quality and, when dropped,
      full durability. */
  lemma EquipableInstances(s: Scene, t: ItemData, env: Env, name: string, near: string, amount: int, level: int, pickup: bool, ignoreStackSize: bool, copy: WorldObject)
    requires Valid(s)
    ensures var r := SpawnEquipable(s, t, env, name, near, amount, level, pickup, ignoreStackSize, copy);
      && ItemBranchOk(s, r.0, r.2, name, near, pickup, copy)
      && |r.2| == (if ignoreStackSize then 1 else Times(amount))
      && forall i | |s.trace| <= i < |r.0.trace| ::
           && EventQuality(r.0.trace[i]) == level
           && EventStack(r.0.trace[i]) == (if ignoreStackSize then amount else t.stack)
           && (r.0.trace[i].ItemDropped? ==> r.0.trace[i].item.durability == t.shared.maxDurability)
  {
    var stack := if ignoreStackSize then amount else t.stack;
    var count := if ignoreStackSize then 1 else Times(amount);
    var t1 := t.(stack := stack, quality := level, durability := t.shared.maxDurability);
    SpawnItemsOk(s, t1, env, name, near, pickup, copy, count);
    SpawnItemsTrace(s, t1, env, name, near, pickup, copy, count);
    SpawnItemsRecord(s, t1, env, name, near, pickup, copy, count);
  }

  /** `SpawnPrefab`: an unknown name only reports the failure; otherwise the
      prefab is spawned as characters, items or plain objects, the handles
      created are pushed as one record, and the spawn is announced. */
  function SpawnPrefab(p: Plugin, env: Env, name: string, near: string, amount: int, level: int, pickup: bool, ignoreStackSize: bool): (r: Plugin)
    requires Valid(p.world.scene)
    ensures Valid(r.world.scene)
    ensures name !in p.world.prefabs ==>
      && r.spawnActions == p.spawnActions
      && r.world.scene.trace == p.world.scene.trace + [PrefabMissing(name)]
      && r.world.scene.objects == p.world.scene.objects
      && r.world.prefabs == p.world.prefabs
    ensures name in p.world.prefabs ==>
      && |r.spawnActions| == |p.spawnActions| + 1
      && r.spawnActions[..|p.spawnActions|] == p.spawnActions
      && |r.world.scene.trace| > 0 && r.world.scene.trace[|r.world.scene.trace| - 1] == SpawnAnnounced(name)
  {
    var s := p.world.scene;
    if name !in p.world.prefabs then
      p.(world := p.world.(scene := s.(trace := s.trace + [PrefabMissing(name)])))
    else
      var prefab := p.world.prefabs[name];
      var copy := SpawnedObject(name, prefab);
      var (s2, prefabs, rec) :=
        if prefab.hasCharacter then
          var (s2, rec) := InstantiateMany(s, copy, name, near, AsCharacter(level), Times(amount));
          (s2, p.world.prefabs, rec)
        else if prefab.item.Some? then
          var (s2, t2, rec) := SpawnItemPrefab(s, prefab.item.value, env, name, near, amount, level, pickup, ignoreStackSize, copy);
          (s2, p.world.prefabs[name := prefab.(item := Some(t2))], rec)
        else
          var (s2, rec) := InstantiateMany(s, copy, name, near, AsObject, Times(amount));
          (s2, p.world.prefabs, rec);
      Plugin(World(prefabs, s2.(trace := s2.trace + [SpawnAnnounced(name)])), p.spawnActions + [rec])
  }

  /** The events a resolved spawn emitted before its announcement. */
  function SpawnEvents(p: Plugin, r: Plugin): seq<Event> {
    if |p.world.scene.trace| < |r.world.scene.trace| then
      r.world.scene.trace[|p.world.scene.trace|..|r.world.scene.trace| - 1]
    else []
  }

  /** The record on top of the undo stack. */
  function Pushed(r: Plugin): seq<Option<Handle>> {
    if |r.spawnActions| > 0 then r.spawnActions[|r.spawnActions| - 1] else []
  }

  /** Whichever branch runs, the item branch facts hold. */
  lemma SpawnItemPrefabOk(s: Scene, t: ItemData, env: Env, name: string, near: string, amount: int, level: int, pickup: bool, ignoreStackSize: bool, copy: WorldObject)
    requires Valid(s)
    ensures var r := SpawnItemPrefab(s, t, env, name, near, amount, level, pickup, ignoreStackSize, copy);
      ItemBranchOk(s, r.0, r.2, name, near, pickup, copy)
  {
    if t.shared.equipable {
      EquipableInstances(s, t, env, name, near, amount, level, pickup, ignoreStackSize, copy);
    } else if ignoreStackSize {
      StackableIgnoresMaximum(s, t, env, name, near, amount, pickup, copy);
    } else {
      StackableSplitOk(s, t, env, name, near, amount, pickup, copy);
    }
  }

  /** A resolved spawn of an item prefab is its item branch, followed by the
      announcement, with the template written back. */
  lemma SpawnPrefabItemBranch(p: Plugin, env: Env, name: string, near: string, amount: int, level: int, pickup: bool, ignoreStackSize: bool)
    requires Valid(p.world.scene) && name in p.world.prefabs
    requires !p.world.prefabs[name].hasCharacter && p.world.prefabs[name].item.Some?
    ensures var prefab := p.world.prefabs[name];
      var s := p.world.scene;
      var b := SpawnItemPrefab(s, prefab.item.value, env, name, near, amount, level, pickup, ignoreStackSize, SpawnedObject(name, prefab));
      var r := SpawnPrefab(p, env, name, near, amount, level, pickup, ignoreStackSize);
      && ItemBranchOk(s, b.0, b.2, name, near, pickup, SpawnedObject(name, prefab))
      && Pushed(r) == b.2
      && SpawnEvents(p, r) == b.0.trace[|s.trace|..]
      && r.world.scene.objects == b.0.objects
      && r.world.prefabs == p.world.prefabs[name := prefab.(item := Some(b.1))]
  {
    var prefab := p.world.prefabs[name];
    SpawnItemPrefabOk(p.world.scene, prefab.item.value, env, name, near, amount, level, pickup, ignoreStackSize, SpawnedObject(name, prefab));
  }

  /** A resolved spawn grows the scene by exactly the objects of the record it
      pushed, each a copy of the prefab; it appends one event per record
      entry and then the announcement; and in the prefab table at most the
      spawned prefab's item template changes. */
  lemma SpawnPrefabGrows(p: Plugin, env: Env, name: string, near: string, amount: int, level: int, pickup: bool, ignoreStackSize: bool)
    requires Valid(p.world.scene) && name in p.world.prefabs
    ensures var r := SpawnPrefab(p, env, name, near, amount, level, pickup, ignoreStackSize);
      var s := p.world.scene;
      && GrewBy(s, r.world.scene, Pushed(r), SpawnedObject(name, p.world.prefabs[name]))
      && |r.world.scene.trace| == |s.trace| + |Pushed(r)| + 1
      && r.world.scene.trace[..|s.trace|] == s.trace
      && r.world.prefabs.Keys == p.world.prefabs.Keys
      && (forall n | n in p.world.prefabs && n != name :: r.world.prefabs[n] == p.world.prefabs[n])
      && r.world.prefabs[name] == p.world.prefabs[name].(item := r.world.prefabs[name].item)
  {
    var prefab := p.world.prefabs[name];
    var copy := SpawnedObject(name, prefab);
    var s := p.world.scene;
    var r := SpawnPrefab(p, env, name, near, amount, level, pickup, ignoreStackSize);
    if prefab.hasCharacter {
      InstantiateManyTrace(s, copy, name, near, AsCharacter(level), Times(amount));
      InstantiateManyGrows(s, copy, name, near, AsCharacter(level), Times(amount));
      var b := InstantiateMany(s, copy, name, near, AsCharacter(level), Times(amount));
      assert r.world.scene.trace[..|s.trace|] == b.0.trace[..|s.trace|];
    } else if prefab.item.Some? {
      SpawnPrefabItemBranch(p, env, name, near, amount, level, pickup, ignoreStackSize);
      var b := SpawnItemPrefab(s, prefab.item.value, env, name, near, amount, level, pickup, ignoreStackSize, copy);
      assert r.world.scene.trace[..|s.trace|] == b.0.trace[..|s.trace|];
    } else {
      InstantiateManyTrace(s, copy, name, near, AsObject, Times(amount));
      InstantiateManyGrows(s, copy, name, near, AsObject, Times(amount));
      var b := InstantiateMany(s, copy, name, near, AsObject, Times(amount));
      assert r.world.scene.trace[..|s.trace|] == b.0.trace[..|s.trace|];
    }
  }

  /** A character prefab is instantiated `amount` times (none for a
      non-positive amount); each copy's level is set to the requested level
      exactly when that level exceeds 1; the prefab table is untouched. */
  lemma SpawnPrefabCharacters(p: Plugin, env: Env, name: string, near: string, amount: int, level: int, pickup: bool, ignoreStackSize: bool)
    requires Valid(p.world.scene) && name in p.world.prefabs && p.world.prefabs[name].hasCharacter
    ensures var r := SpawnPrefab(p, env, name, near, amount, level, pickup, ignoreStackSize);
      var rec := Pushed(r);
      var evs := SpawnEvents(p, r);
      && |rec| == Times(amount) && |evs| == |rec|
      && r.world.prefabs == p.world.prefabs
      && forall i | 0 <= i < |rec| ::
           && rec[i].Some?
           && evs[i].CharacterSpawned? && evs[i].handle == rec[i].value
           && evs[i].prefab == name && evs[i].near == near
           && (evs[i].setLevel.Some? <==> level > 1)
           && (evs[i].setLevel.Some? ==> evs[i].setLevel.value == level)
  {
    var s := p.world.scene;
    var copy := SpawnedObject(name, p.world.prefabs[name]);
    InstantiateManyTrace(s, copy, name, near, AsCharacter(level), Times(amount));
    var b := InstantiateMany(s, copy, name, near, AsCharacter(level), Times(amount));
    var r := SpawnPrefab(p, env, name, near, amount, level, pickup, ignoreStackSize);
    var lvl := if level > 1 then Some(level) else None;
    assert forall i | 0 <= i < Times(amount) :: SpawnEvents(p, r)[i] == b.0.trace[|s.trace| + i] == CharacterSpawned(b.1[i].value, name, near, lvl);
  }

  /** A prefab that is neither a character nor an item is instantiated
      `amount` times, each copy announced as a placed object. */
  lemma SpawnPrefabObjects(p: Plugin, env: Env, name: string, near: string, amount: int, level: int, pickup: bool, ignoreStackSize: bool)
    requires Valid(p.world.scene) && name in p.world.prefabs
    requires !p.world.prefabs[name].hasCharacter && p.world.prefabs[name].item.None?
    ensures var r := SpawnPrefab(p, env, name, near, amount, level, pickup, ignoreStackSize);
      var rec := Pushed(r);
      var evs := SpawnEvents(p, r);
      && |rec| == Times(amount) && |evs| == |rec|
      && r.world.prefabs == p.world.prefabs
      && forall i | 0 <= i < |rec| ::
           rec[i].Some? && evs[i] == ObjectSpawned(rec[i].value, name, near)
  {
    var s := p.world.scene;
    var copy := SpawnedObject(name, p.world.prefabs[name]);
    InstantiateManyTrace(s, copy, name, near, AsObject, Times(amount));
    var b := InstantiateMany(s, copy, name, near, AsObject, Times(amount));
    var r := SpawnPrefab(p, env, name, near, amount, level, pickup, ignoreStackSize);
    assert forall i | 0 <= i < Times(amount) :: SpawnEvents(p, r)[i] == b.0.trace[|s.trace| + i];
  }

  /** An item prefab spawns one item per record entry, into the inventory
      (empty entries, no new objects) exactly when `pickup` is set; afterwards
      its template's stack and quality are back to 1. */
  lemma SpawnPrefabItems(p: Plugin, env: Env, name: string, near: string, amount: int, level: int, pickup: bool, ignoreStackSize: bool)
    requires Valid(p.world.scene) && name in p.world.prefabs
    requires !p.world.prefabs[name].hasCharacter && p.world.prefabs[name].item.Some?
    ensures var r := SpawnPrefab(p, env, name, near, amount, level, pickup, ignoreStackSize);
      var t := p.world.prefabs[name].item.value;
      var rec := Pushed(r);
      var evs := SpawnEvents(p, r);
      && r.world.prefabs[name].item.Some?
      && r.world.prefabs[name].item.value.shared == t.shared
      && r.world.prefabs[name].item.value.stack == 1
      && r.world.prefabs[name].item.value.quality == 1
      && |evs| == |rec|
      && (forall i | 0 <= i < |rec| :: (rec[i].None? <==> pickup) && IsItemEvent(evs[i], name, near, pickup))
      && (pickup ==> r.world.scene.objects == p.world.scene.objects)
  {
    SpawnPrefabItemBranch(p, env, name, near, amount, level, pickup, ignoreStackSize);
  }

  /** An equipable item: one instance carrying the whole amount with
      `ignoreStackSize`, otherwise `amount` instances of the template's
      stack; each has the requested level as quality and, when dropped, full
      durability. */
  lemma SpawnPrefabEquipable(p: Plugin, env: Env, name: string, near: string, amount: int, level: int, pickup: bool, ignoreStackSize: bool)
    requires Valid(p.world.scene) && name in p.world.prefabs
    requires !p.world.prefabs[name].hasCharacter && p.world.prefabs[name].item.Some?
    requires p.world.prefabs[name].item.value.shared.equipable
    ensures var r := SpawnPrefab(p, env, name, near, amount, level, pickup, ignoreStackSize);
      var t := p.world.prefabs[name].item.value;
      var evs := SpawnEvents(p, r);
      && |evs| == (if ignoreStackSize then 1 else Times(amount))
      && forall i | 0 <= i < |evs| ::
           && EventQuality(evs[i]) == level
           && EventStack(evs[i]) == (if ignoreStackSize then amount else t.stack)
           && (evs[i].ItemDropped? ==> evs[i].item.durability == t.shared.maxDurability)
  {
    var prefab := p.world.prefabs[name];
    var s := p.world.scene;
    SpawnPrefabItemBranch(p, env, name, near, amount, level, pickup, ignoreStackSize);
    EquipableInstances(s, prefab.item.value, env, name, near, amount, level, pickup, ignoreStackSize, SpawnedObject(name, prefab));
    var b := SpawnItemPrefab(s, prefab.item.value, env, name, near, amount, level, pickup, ignoreStackSize, SpawnedObject(name, prefab));
    var r := SpawnPrefab(p, env, name, near, amount, level, pickup, ignoreStackSize);
    assert forall i | 0 <= i < |b.2| :: SpawnEvents(p, r)[i] == b.0.trace[|s.trace| + i];
  }

  /** A stackable item: with `ignoreStackSize` one stack of the whole amount;
      otherwise full stacks of the clamped maximum and then the remainder,
      all at the template's quality. */
  lemma SpawnPrefabStacks(p: Plugin, env: Env, name: string, near: string, amount: int, level: int, pickup: bool, ignoreStackSize: bool)
    requires Valid(p.world.scene) && name in p.world.prefabs
    requires !p.world.prefabs[name].hasCharacter && p.world.prefabs[name].item.Some?
    requires !p.world.prefabs[name].item.value.shared.equipable
    ensures var r := SpawnPrefab(p, env, name, near, amount, level, pickup, ignoreStackSize);
      var t := p.world.prefabs[name].item.value;
      var evs := SpawnEvents(p, r);
      && (ignoreStackSize ==> Stacks(evs) == [amount])
      && (!ignoreStackSize ==> Stacks(evs) == SplitStacks(amount, MaxStackOf(t.shared)))
      && (!ignoreStackSize ==> forall i | 0 <= i < |evs| :: EventQuality(evs[i]) == t.quality)
  {
    var prefab := p.world.prefabs[name];
    var s := p.world.scene;
    SpawnPrefabItemBranch(p, env, name, near, amount, level, pickup, ignoreStackSize);
    if ignoreStackSize {
      StackableIgnoresMaximum(s, prefab.item.value, env, name, near, amount, pickup, SpawnedObject(name, prefab));
    } else {
      StackableSplits(s, prefab.item.value, env, name, near, amount, pickup, SpawnedObject(name, prefab));
      var b := SpawnItemPrefab(s, prefab.item.value, env, name, near, amount, level, pickup, ignoreStackSize, SpawnedObject(name, prefab));
      var r := SpawnPrefab(p, env, name, near, amount, level, pickup, ignoreStackSize);
      assert forall i | 0 <= i < |b.2| :: SpawnEvents(p, r)[i] == b.0.trace[|s.trace| + i];
    }
  }
}
