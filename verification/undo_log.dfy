/** `UndoSpawn` of `EasySpawnerPlugin`: pop the most recent spawn record and
    ask the game to destroy each of its objects that is still alive and whose
    net view is valid and owned by this peer. A destroyed object leaves the
    scene, so an entry listed twice is destroyed once. */
module UndoLog {
  import opened Wrappers
  import opened WorldModel
  import opened SpawnEngine

  /** A record entry the undo destroys: a live object whose `ZNetView` is
      present, valid and owned. Empty entries (inventory spawns) and objects
      already gone are skipped. */
  predicate Destroyable(s: Scene, e: Option<Handle>) {
    && e.Some? && e.value in s.objects
    && s.objects[e.value].netView.Some?
    && s.objects[e.value].netView.value.valid
    && s.objects[e.value].netView.value.owner
  }

  /** The handle `h` is destroyed by undoing `rec` in `s`: some entry names it
      and it is destroyable when the undo starts. */
  predicate Destroyed(s: Scene, rec: seq<Option<Handle>>, h: Handle) {
    Some(h) in rec && Destroyable(s, Some(h))
  }

  /** One iteration of the loop: a destroyable entry's object is destroyed
      and leaves the scene; any other entry is skipped. */
  function DestroyStep(s: Scene, e: Option<Handle>): (r: Scene)
    requires Valid(s)
    ensures Valid(r) && r.nextHandle == s.nextHandle
  {
    if Destroyable(s, e) then
      s.(objects := s.objects - {e.value}, trace := s.trace + [DestroyRequested(e.value)])
    else s
  }

  /** The loop over the record's entries, in order. */
  function DestroyEntries(s: Scene, rec: seq<Option<Handle>>): (r: Scene)
    requires Valid(s)
    ensures Valid(r) && r.nextHandle == s.nextHandle
    decreases |rec|
  {
    if |rec| == 0 then s
    else DestroyEntries(DestroyStep(s, rec[0]), rec[1..])
  }

  /** A handle is destroyed by a record exactly when the first entry
      destroys it, or it survives the first step and the rest destroys it. */
  lemma DestroyedSplit(s: Scene, rec: seq<Option<Handle>>)
    requires Valid(s) && |rec| > 0
    ensures forall h: Handle :: Destroyed(s, rec, h) <==>
      (Some(h) == rec[0] && Destroyable(s, rec[0])) || Destroyed(DestroyStep(s, rec[0]), rec[1..], h)
  {
    var s1 := DestroyStep(s, rec[0]);
    assert rec == [rec[0]] + rec[1..];
    forall h: Handle
      ensures Destroyed(s, rec, h) <==> (Some(h) == rec[0] && Destroyable(s, rec[0])) || Destroyed(s1, rec[1..], h)
    {
      if h in s1.objects {
        assert Destroyable(s1, Some(h)) <==> Destroyable(s, Some(h));
      }
    }
  }

  /** Exactly the destroyed handles leave the scene; every survivor is
      untouched. */
  lemma {:induction false} DestroyEntriesObjects(s: Scene, rec: seq<Option<Handle>>)
    requires Valid(s)
    ensures var r := DestroyEntries(s, rec);
      && (forall h :: h in r.objects <==> h in s.objects && !Destroyed(s, rec, h))
      && (forall h | h in r.objects :: r.objects[h] == s.objects[h])
    decreases |rec|
  {
    if |rec| > 0 {
      DestroyEntriesObjects(DestroyStep(s, rec[0]), rec[1..]);
      DestroyedSplit(s, rec);
    }
  }

  /** The undo only appends destruction requests, each for a destroyed
      handle. */
  lemma {:induction false} DestroyEntriesRequests(s: Scene, rec: seq<Option<Handle>>)
    requires Valid(s)
    ensures var r := DestroyEntries(s, rec);
      && |s.trace| <= |r.trace| && r.trace[..|s.trace|] == s.trace
      && (forall i | |s.trace| <= i < |r.trace| ::
            r.trace[i].DestroyRequested? && Destroyed(s, rec, r.trace[i].handle))
    decreases |rec|
  {
    if |rec| > 0 {
      var s1 := DestroyStep(s, rec[0]);
      DestroyEntriesRequests(s1, rec[1..]);
      DestroyedSplit(s, rec);
      var r := DestroyEntries(s, rec);
      assert r.trace[..|s.trace|] == r.trace[..|s1.trace|][..|s.trace|];
    }
  }

  /** No handle is requested twice. */
  lemma {:induction false} DestroyEntriesOnce(s: Scene, rec: seq<Option<Handle>>)
    requires Valid(s)
    ensures var r := DestroyEntries(s, rec);
      forall i, j | |s.trace| <= i < j < |r.trace| :: r.trace[i] != r.trace[j]
    decreases |rec|
  {
    if |rec| > 0 {
      var s1 := DestroyStep(s, rec[0]);
      DestroyEntriesOnce(s1, rec[1..]);
      DestroyEntriesRequests(s1, rec[1..]);
      var r := DestroyEntries(s, rec);
      if Destroyable(s, rec[0]) {
        forall i | |s1.trace| <= i < |r.trace|
          ensures r.trace[i] != r.trace[|s.trace|]
        {
          assert r.trace[i].handle in s1.objects;
        }
      }
    }
  }

  /** Every destroyed handle is requested. */
  lemma {:induction false} DestroyEntriesCovers(s: Scene, rec: seq<Option<Handle>>)
    requires Valid(s)
    ensures var r := DestroyEntries(s, rec);
      && |s.trace| <= |r.trace|
      && forall h: Handle | Destroyed(s, rec, h) :: DestroyRequested(h) in r.trace[|s.trace|..]
    decreases |rec|
  {
    if |rec| > 0 {
      var s1 := DestroyStep(s, rec[0]);
      DestroyEntriesCovers(s1, rec[1..]);
      DestroyEntriesRequests(s1, rec[1..]);
      DestroyedSplit(s, rec);
      var r := DestroyEntries(s, rec);
      forall h: Handle | Destroyed(s, rec, h)
        ensures DestroyRequested(h) in r.trace[|s.trace|..]
      {
        if Some(h) == rec[0] && Destroyable(s, rec[0]) {
          assert r.trace[|s.trace|..][0] == DestroyRequested(h);
        } else {
          assert r.trace[|s1.trace|..] == r.trace[|s.trace|..][|s1.trace| - |s.trace|..];
        }
      }
    }
  }

  /** `UndoSpawn`: with an empty stack nothing happens; otherwise the top
      record is popped, its entries destroyed, and the undo announced with
      the record's full length, empty entries included. */
  function UndoSpawn(p: Plugin): (r: Plugin)
    requires Valid(p.world.scene)
    ensures Valid(r.world.scene)
    ensures |p.spawnActions| == 0 ==> r == p
    ensures |p.spawnActions| > 0 ==>
      && r.spawnActions == p.spawnActions[..|p.spawnActions| - 1]
      && r.world.prefabs == p.world.prefabs
      && |r.world.scene.trace| > 0
      && r.world.scene.trace[|r.world.scene.trace| - 1] == UndoAnnounced(|Pushed(p)|)
  {
    if |p.spawnActions| == 0 then p
    else
      var rec := p.spawnActions[|p.spawnActions| - 1];
      var s := DestroyEntries(p.world.scene, rec);
      Plugin(p.world.(scene := s.(trace := s.trace + [UndoAnnounced(|rec|)])), p.spawnActions[..|p.spawnActions| - 1])
  }

  /** What an undo does to the scene: exactly the destroyed handles of the
      top record leave it, each requested once, before the announcement. */
  lemma UndoSpawnEffect(p: Plugin)
    requires Valid(p.world.scene) && |p.spawnActions| > 0
    ensures var r := UndoSpawn(p);
      var s := p.world.scene;
      var rec := Pushed(p);
      var t := r.world.scene.trace;
      && (forall h :: h in r.world.scene.objects <==> h in s.objects && !Destroyed(s, rec, h))
      && (forall h | h in r.world.scene.objects :: r.world.scene.objects[h] == s.objects[h])
      && |s.trace| < |t| && t[..|s.trace|] == s.trace
      && (forall i | |s.trace| <= i < |t| - 1 :: t[i].DestroyRequested? && Destroyed(s, rec, t[i].handle))
      && (forall i, j | |s.trace| <= i < j < |t| - 1 :: t[i] != t[j])
      && (forall h | Destroyed(s, rec, h) :: DestroyRequested(h) in t[|s.trace|..|t| - 1])
  {
    var s := p.world.scene;
    var rec := Pushed(p);
    DestroyEntriesObjects(s, rec);
    DestroyEntriesRequests(s, rec);
    DestroyEntriesOnce(s, rec);
    DestroyEntriesCovers(s, rec);
    var d := DestroyEntries(s, rec);
    var t := UndoSpawn(p).world.scene.trace;
    assert t[..|d.trace|] == d.trace;
    assert t[..|s.trace|] == d.trace[..|s.trace|];
    assert t[|s.trace|..|t| - 1] == d.trace[|s.trace|..];
  }

  /** Undoing a resolved spawn restores the undo stack and reports the
      record's length. When the prefab carries a net view, every spawned
      copy is destroyed and the scene's objects are restored exactly; when
      it does not, the copies stay. */
  lemma SpawnThenUndo(p: Plugin, env: Env, name: string, near: string, amount: int, level: int, pickup: bool, ignoreStackSize: bool)
    requires Valid(p.world.scene) && name in p.world.prefabs
    ensures var r := SpawnPrefab(p, env, name, near, amount, level, pickup, ignoreStackSize);
      var u := UndoSpawn(r);
      && u.spawnActions == p.spawnActions
      && u.world.prefabs == r.world.prefabs
      && u.world.scene.trace[|u.world.scene.trace| - 1] == UndoAnnounced(|Pushed(r)|)
      && (p.world.prefabs[name].hasNetView ==> u.world.scene.objects == p.world.scene.objects)
      && (!p.world.prefabs[name].hasNetView ==> u.world.scene.objects == r.world.scene.objects)
  {
    var r := SpawnPrefab(p, env, name, near, amount, level, pickup, ignoreStackSize);
    var s := p.world.scene;
    var s2 := r.world.scene;
    var rec := Pushed(r);
    var copy := SpawnedObject(name, p.world.prefabs[name]);
    SpawnPrefabGrows(p, env, name, near, amount, level, pickup, ignoreStackSize);
    UndoSpawnEffect(r);
    var u := UndoSpawn(r);
    assert r.spawnActions[..|r.spawnActions| - 1] == p.spawnActions;
    forall h | h in s2.objects
      ensures Destroyed(s2, rec, h) <==> Some(h) in rec && p.world.prefabs[name].hasNetView
    {
      if Some(h) in rec {
        var i :| 0 <= i < |rec| && rec[i] == Some(h);
        assert s2.objects[h] == copy;
      }
    }
    forall h | Some(h) in rec
      ensures h in s2.objects && h !in s.objects
    {
      var i :| 0 <= i < |rec| && rec[i] == Some(h);
    }
  }

  /** The destruction requests of an undo are exactly the destroyed
      handles of the top record, each requested once. */
  lemma UndoRequestsExactly(p: Plugin)
    requires Valid(p.world.scene) && |p.spawnActions| > 0
    ensures var t := UndoSpawn(p).world.scene.trace;
      var n := |p.world.scene.trace|;
      && n < |t|
      && (forall h: Handle :: DestroyRequested(h) in t[n..|t| - 1] <==> Destroyed(p.world.scene, Pushed(p), h))
      && (forall i, j | n <= i < j < |t| - 1 :: t[i] != t[j])
  {
    UndoSpawnEffect(p);
    var t := UndoSpawn(p).world.scene.trace;
    var n := |p.world.scene.trace|;
    forall h: Handle | DestroyRequested(h) in t[n..|t| - 1]
      ensures Destroyed(p.world.scene, Pushed(p), h)
    {
      var i :| 0 <= i < |t[n..|t| - 1]| && t[n..|t| - 1][i] == DestroyRequested(h);
      assert t[n + i] == DestroyRequested(h);
    }
  }

  /** Right after a spawn of a prefab with a net view, an undo would destroy
      exactly the handles the spawn recorded. */
  lemma SpawnedAllDestroyable(p: Plugin, env: Env, name: string, near: string, amount: int, level: int, pickup: bool, ignoreStackSize: bool)
    requires Valid(p.world.scene) && name in p.world.prefabs && p.world.prefabs[name].hasNetView
    ensures var r := SpawnPrefab(p, env, name, near, amount, level, pickup, ignoreStackSize);
      forall h: Handle :: Destroyed(r.world.scene, Pushed(r), h) <==> Some(h) in Pushed(r)
  {
    var r := SpawnPrefab(p, env, name, near, amount, level, pickup, ignoreStackSize);
    var rec := Pushed(r);
    SpawnPrefabGrows(p, env, name, near, amount, level, pickup, ignoreStackSize);
    forall h: Handle | Some(h) in rec
      ensures Destroyed(r.world.scene, rec, h)
    {
      var i :| 0 <= i < |rec| && rec[i] == Some(h);
      assert r.world.scene.objects[h] == SpawnedObject(name, p.world.prefabs[name]);
    }
  }

  /** Undoing a resolved spawn of a prefab with a net view requests the
      destruction of exactly the handles the spawn recorded (inventory
      entries are empty and never targeted), each once. */
  lemma SpawnThenUndoRequests(p: Plugin, env: Env, name: string, near: string, amount: int, level: int, pickup: bool, ignoreStackSize: bool)
    requires Valid(p.world.scene) && name in p.world.prefabs && p.world.prefabs[name].hasNetView
    ensures var r := SpawnPrefab(p, env, name, near, amount, level, pickup, ignoreStackSize);
      var t := UndoSpawn(r).world.scene.trace;
      var n := |r.world.scene.trace|;
      && n < |t|
      && (forall h: Handle :: DestroyRequested(h) in t[n..|t| - 1] <==> Some(h) in Pushed(r))
      && (forall i, j | n <= i < j < |t| - 1 :: t[i] != t[j])
  {
    var r := SpawnPrefab(p, env, name, near, amount, level, pickup, ignoreStackSize);
    SpawnedAllDestroyable(p, env, name, near, amount, level, pickup, ignoreStackSize);
    UndoRequestsExactly(r);
  }
}
