/** The slice of the game world the spawner touches: prefab definitions (with
    the shared `ItemDrop` item template each item prefab carries), and the
    scene: the objects standing in the world, the next free handle, and a
    trace of the effects the plugin asks the game for. Handles are allocated
    in increasing order, so a freshly instantiated object never aliases an
    existing one. */
module WorldModel {
  import opened Wrappers

  type Handle = nat

  /** `ItemDrop.ItemData.SharedData`: the per-definition constants. */
  datatype SharedData = SharedData(name: string, maxStackSize: int, equipable: bool, maxDurability: int)

  /** `ItemDrop.ItemData`: the mutable item template of a prefab, and the
      payload of a dropped item. */
  datatype ItemData = ItemData(
    shared: SharedData,
    stack: int,
    quality: int,
    durability: int,
    variant: int,
    crafterId: int,
    crafterName: string)

  /** An item payload with its crafter stamp erased. */
  function Unstamped(t: ItemData): ItemData {
    t.(crafterId := 0, crafterName := "")
  }

  /** A prefab as `ZNetScene.GetPrefab` returns it: whether it has a
      `Character` component, its `ItemDrop` template if any, and whether it
      carries a `ZNetView`. */
  datatype Prefab = Prefab(hasCharacter: bool, item: Option<ItemData>, hasNetView: bool)

  /** A `ZNetView`'s two tests the undo path asks. */
  datatype NetView = NetView(valid: bool, owner: bool)

  datatype WorldObject = WorldObject(prefab: string, netView: Option<NetView>)

  /** The effects the plugin requests, in order. */
  datatype Event =
    | CharacterSpawned(handle: Handle, prefab: string, near: string, setLevel: Option<int>)
    | ObjectSpawned(handle: Handle, prefab: string, near: string)
    | ItemDropped(handle: Handle, prefab: string, near: string, item: ItemData, amount: int)
    | ItemAddedToInventory(prefab: string, stack: int, quality: int, variant: int, crafterId: int, crafterName: string)
    | DestroyRequested(handle: Handle)
    | PrefabMissing(prefab: string)
    | SpawnAnnounced(prefab: string)
    | UndoAnnounced(count: nat)

  datatype Scene = Scene(objects: map<Handle, WorldObject>, nextHandle: nat, trace: seq<Event>)

  datatype World = World(prefabs: map<string, Prefab>, scene: Scene)

  /** Every live object's handle was allocated before `nextHandle`. */
  predicate Valid(s: Scene) {
    forall h | h in s.objects :: h < s.nextHandle
  }

  /** The object a copy of prefab `name` is: it carries the prefab's net
      view, freshly valid and owned by the local peer that created it. */
  function SpawnedObject(name: string, p: Prefab): (o: WorldObject)
    ensures o.prefab == name
    ensures o.netView.Some? <==> p.hasNetView
    ensures o.netView.Some? ==> o.netView.value.valid && o.netView.value.owner
  {
    WorldObject(name, if p.hasNetView then Some(NetView(true, true)) else None)
  }

  /** A scene `s2` grew from `s` by the objects a record lists: each listed
      handle is freshly allocated and holds `obj`, and every other object is
      untouched. */
  ghost predicate GrewBy(s: Scene, s2: Scene, rec: seq<Option<Handle>>, obj: WorldObject) {
    && s.nextHandle <= s2.nextHandle
    && (forall i | 0 <= i < |rec| && rec[i].Some? ::
          && s.nextHandle <= rec[i].value < s2.nextHandle
          && rec[i].value in s2.objects
          && s2.objects[rec[i].value] == obj)
    && (forall h | h in s2.objects :: h in s.objects || Some(h) in rec)
    && (forall h | h in s.objects :: h in s2.objects && s2.objects[h] == s.objects[h])
  }

  /** Growth composes: two consecutive growths are one growth by the joined
      record. */
  lemma GrewByTrans(s: Scene, s1: Scene, s2: Scene, r1: seq<Option<Handle>>, r2: seq<Option<Handle>>, obj: WorldObject)
    requires GrewBy(s, s1, r1, obj) && GrewBy(s1, s2, r2, obj)
    ensures GrewBy(s, s2, r1 + r2, obj)
  {
    var rec := r1 + r2;
    forall i | 0 <= i < |rec| && rec[i].Some?
      ensures s.nextHandle <= rec[i].value < s2.nextHandle && rec[i].value in s2.objects && s2.objects[rec[i].value] == obj
    {
      if i >= |r1| {
        assert rec[i] == r2[i - |r1|];
      } else {
        assert rec[i] == r1[i];
        assert r1[i].value in s1.objects;
      }
    }
    forall h | h in s2.objects
      ensures h in s.objects || Some(h) in rec
    {
      if h !in s1.objects {
        var j :| 0 <= j < |r2| && r2[j] == Some(h);
        assert rec[|r1| + j] == Some(h);
      } else if h !in s.objects {
        var j :| 0 <= j < |r1| && r1[j] == Some(h);
        assert rec[j] == Some(h);
      }
    }
  }

  /** Instantiate one object at a fresh handle. */
  function Instantiate(s: Scene, obj: WorldObject): (r: (Scene, Handle))
    requires Valid(s)
    ensures Valid(r.0)
    ensures r.1 == s.nextHandle && r.1 !in s.objects
    ensures r.0.trace == s.trace
    ensures r.0.objects == s.objects[r.1 := obj] && r.0.nextHandle == s.nextHandle + 1
  {
    var h := s.nextHandle;
    (s.(objects := s.objects[h := obj], nextHandle := h + 1), h)
  }

  /** One instantiation grows the scene by the new handle alone. */
  lemma InstantiateGrows(s: Scene, obj: WorldObject)
    requires Valid(s)
    ensures var r := Instantiate(s, obj);
      GrewBy(s, r.0, [Some(r.1)], obj)
  {
  }

  /** An `ObjectDB` recipe: its name and the prefab its `m_item` points at
      (`None` when unset). */
  datatype Recipe = Recipe(name: string, item: Option<string>)

  /** What the plugin reads from the game besides the world: the recipe list
      and the local player's id and name. */
  datatype Env = Env(recipes: seq<Recipe>, localId: int, localName: string)
}
