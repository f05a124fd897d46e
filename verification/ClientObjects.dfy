/** The client's `Object` with its sync and map variants, `ObjectManager` and `Scene`, proved against
    `ObjectGrid`.  `released` stands for `delete`: nothing may touch the object afterwards. */
module ClientObjects {
  import opened Wrappers
  import opened Geometry
  import opened Sequences
  import opened ObjectGrid

  class GameObject {
    const kind: Kind
    var pos: Pos
    var objectId: nat
    var isDead: bool
    ghost var released: bool

    constructor (kind: Kind)
      ensures Body() == ObjectGrid.Body(kind, Pos(0.0, 0.0), 0, false, false)
    {
      this.kind, pos, objectId, isDead, released := kind, Pos(0.0, 0.0), 0, false, false;
    }

    ghost function Body(): Body
      reads this
    {
      ObjectGrid.Body(kind, pos, objectId, isDead, released)
    }

    method SetObjectId(id: nat, scene: Scene, manager: ObjectManager)
      requires this in scene.made && !released && !kind.Plain?
      modifies `objectId, manager`syncObjects
      ensures scene.State(manager) == ObjectGrid.SetObjectId(old(scene.State(manager)), this, id)
    {
      objectId := id;
      manager.RegisterSyncObject(this);
    }

    method Destroy(ghost scene: Scene, ghost manager: ObjectManager)
      requires this in scene.made && !released
      modifies `isDead
      ensures scene.State(manager) == ObjectGrid.Destroy(old(scene.State(manager)), this)
    {
      isDead := true;
    }

    method SetPos(pos: Pos, ghost scene: Scene, ghost manager: ObjectManager)
      requires this in scene.made && !released
      modifies `pos
      ensures scene.State(manager) == ObjectGrid.SetPos(old(scene.State(manager)), this, pos)
    {
      this.pos := pos;
    }

    /** Each kind's `OnRelease`; a map object's calls that of a sync object first. */
    method Release(manager: ObjectManager)
      requires !released
      requires kind.MapObject? ==> manager.Grid().Shaped() && manager.Grid().Holds(WorldToTile(pos))
      modifies manager`syncObjects, manager`mapObjects
      ensures manager.syncObjects == if kind.Plain? then old(manager.syncObjects)
                                     else old(manager.syncObjects)[objectId := None]
      ensures manager.Grid() == if kind.MapObject? then old(manager.Grid()).Put(WorldToTile(pos), None)
                                else old(manager.Grid())
    {
      if !kind.Plain? { manager.UnregisterSyncObject(this); }
      if kind.MapObject? { manager.ClearMapObjectAt(WorldToTile(pos)); }
    }
  }

  class ObjectManager {
    var syncObjects: map<nat, Option<GameObject>>
    var mapObjects: seq<seq<Option<GameObject>>>
    ghost var width: nat
    ghost var height: nat

    ghost function Grid(): Grid<GameObject>
      reads `mapObjects, `width, `height
    {
      ObjectGrid.Grid(width, height, mapObjects)
    }

    method RegisterSyncObject(obj: GameObject)
      modifies `syncObjects
      ensures syncObjects == old(syncObjects)[obj.objectId := Some(obj)]
    {
      syncObjects := syncObjects[obj.objectId := Some(obj)];
    }

    method UnregisterSyncObject(obj: GameObject)
      modifies `syncObjects
      ensures syncObjects == old(syncObjects)[obj.objectId := None]
    {
      syncObjects := syncObjects[obj.objectId := None];
    }

    method InitMap(sizeX: nat, sizeY: nat, ghost scene: Scene)
      modifies `mapObjects, `width, `height
      ensures scene.State(this) == ObjectGrid.InitMap<GameObject>(old(scene.State(this)), sizeX, sizeY)
      ensures Grid().Shaped() && forall t: Tile | Grid().Holds(t) :: Grid().At(t) == None
    {
      mapObjects := seq(sizeY, y => seq(sizeX, x => None));
      width, height := sizeX, sizeY;
      assert mapObjects == EmptyGrid<GameObject>(sizeX, sizeY).cells;
    }

    method ClearMapObjectAt(t: Tile)
      requires Grid().Shaped() && Grid().Holds(t)
      modifies `mapObjects
      ensures Grid() == old(Grid()).Put(t, None)
    {
      mapObjects := mapObjects[t.y := mapObjects[t.y][t.x := None]];
    }

    /** Creates the object of a type it knows on its tile. */
    method SpawnMapObject(mapObjectType: int, detailedType: int, t: Tile, scene: Scene) returns (obj: GameObject?)
      requires Grid().Shaped() && Grid().Holds(t)
      modifies scene`objects, scene`made, `mapObjects
      ensures obj != null <==> 1 <= mapObjectType <= 3 || (mapObjectType == 4 && 0 <= detailedType <= 3)
      ensures obj == null ==> scene.State(this) == old(scene.State(this))
      ensures obj != null ==> fresh(obj) && scene.State(this) == Spawn<GameObject>(old(scene.State(this)), obj, t)
    {
      hide Scene.State, TileToWorld;
      scene.StateParts(this);
      obj := null;
      match mapObjectType {
        case 1 | 2 | 3 => obj := scene.CreateObject(MapObject, this);
        case 4 => match detailedType {
          case 0 | 1 | 2 | 3 => obj := scene.CreateObject(MapObject, this);
          case _ =>
        }
        case _ =>
      }
      scene.StateParts(this);
      if obj != null { Place(obj, t, scene); }
    }

    method Place(obj: GameObject, t: Tile, ghost scene: Scene)
      requires obj in scene.made && Grid().Shaped() && Grid().Holds(t)
      modifies obj`pos, `mapObjects
      ensures var placed := SetPos<GameObject>(old(scene.State(this)), obj, TileToWorld(t));
              scene.State(this) == placed.(grid := old(Grid()).Put(t, Some(obj)))
    {
      obj.pos := TileToWorld(t);
      mapObjects := mapObjects[t.y := mapObjects[t.y][t.x := Some(obj)]];
    }
  }

  class Scene {
    var objects: seq<GameObject>
    ghost var made: set<GameObject>
    ghost var freed: seq<GameObject>

    ghost function State(manager: ObjectManager): Game<GameObject>
      reads this, made, manager
    {
      ObjectGrid.Game(objects, freed, manager.Grid(), manager.syncObjects, map o | o in made :: o.Body())
    }

    method RegisterObject(obj: GameObject)
      modifies `objects
      ensures objects == old(objects) + [obj]
    {
      objects := objects + [obj];
    }

    method CreateObject(kind: Kind, ghost manager: ObjectManager) returns (obj: GameObject)
      modifies `objects, `made
      ensures fresh(obj) && State(manager) == Create<GameObject>(old(State(manager)), obj, kind)
      ensures obj in made
    {
      obj := new GameObject(kind);
      RegisterObject(obj);
      made := made + {obj};
    }

    method UnregisterObject(obj: GameObject?)
      modifies `objects
      ensures objects == if obj == null then old(objects) else Without<GameObject>(old(objects), obj)
    {
      if obj == null { return; }
      hide Copying, Without;
      ghost var all := objects;
      var kept: seq<GameObject> := [];
      CopyStart<GameObject>(all, obj);
      for i := 0 to |objects|
        invariant objects == all && Copying<GameObject>(kept, all, i, obj)
      {
        Copy<GameObject>(kept, all, i, obj);
        if objects[i] != obj { kept := kept + [objects[i]]; }
      }
      CopyEnd<GameObject>(kept, all, obj);
      objects := kept;
    }

    /** Goes through a snapshot of the list; no deleted object is looked at. */
    method RemoveDeadObjects(manager: ObjectManager)
      requires State(manager).Good()
      modifies `objects, `freed, made`released, manager`syncObjects, manager`mapObjects
      ensures State(manager) == RemoveDead<GameObject>(old(State(manager)))
      ensures State(manager).Good()
    {
      hide *;
      ghost var start := State(manager);
      var snapshot := objects;
      ghost var kept: seq<GameObject> := [];
      StateParts(manager);
      SweepBegins<GameObject>(start);
      for i := 0 to |snapshot|
        invariant made == old(made) && Sweeping<GameObject>(State(manager), start, kept, i)
      {
        var obj := snapshot[i];
        SweepStep<GameObject>(State(manager), start, kept, i);
        StateOf(obj, manager);
        assert !obj.released;
        if obj.isDead {
          Remove(obj, manager);
        } else {
          kept := kept + [obj];
        }
      }
      SweepEnds<GameObject>(State(manager), start, kept);
    }

    /** Everything in the list is released and deleted, and then the list is cleared. */
    method ReleaseObjects(manager: ObjectManager)
      requires State(manager).Good()
      modifies `objects, `freed, made`released, manager`syncObjects, manager`mapObjects
      ensures State(manager) == ReleaseAll<GameObject>(old(State(manager)))
      ensures State(manager).Good()
    {
      hide *;
      ghost var start := State(manager);
      StateParts(manager);
      CloseBegins<GameObject>(start);
      for i := 0 to |objects|
        invariant objects == start.scene && made == old(made) && Closing<GameObject>(State(manager), start, i)
      {
        CloseStep<GameObject>(State(manager), start, i);
        StateParts(manager);
        StateOf(objects[i], manager);
        Discard(objects[i], manager);
      }
      CloseEnds<GameObject>(State(manager), start);
      Clear(manager);
    }

    method Clear(ghost manager: ObjectManager)
      modifies `objects
      ensures State(manager) == old(State(manager)).(scene := [])
    {
      objects := [];
    }

    lemma StateParts(manager: ObjectManager)
      ensures State(manager).scene == objects && State(manager).grid == manager.Grid()
    {
    }

    lemma StateOf(obj: GameObject, manager: ObjectManager)
      requires State(manager).Lives(obj)
      ensures obj in made && !obj.released
      ensures State(manager).bodies[obj].dead == obj.isDead && State(manager).bodies[obj].kind == obj.kind
      ensures State(manager).TileOf(obj) == WorldToTile(obj.pos)
    {
    }

    /** The body of the loop for a dead object. */
    method Remove(obj: GameObject, manager: ObjectManager)
      requires State(manager).Good() && obj in State(manager).scene
      modifies `objects, `freed, obj`released, manager`syncObjects, manager`mapObjects
      ensures State(manager) == Free<GameObject>(old(State(manager)), obj)
    {
      hide Without, Game.IdsOk, Game.IdsFound, Game.FreedOk, WorldToTile;
      UnregisterObject(obj);
      Discard(obj, manager);
    }

    /** `Release` and `delete`. */
    method Discard(obj: GameObject, manager: ObjectManager)
      requires obj in made && !obj.released
      requires obj.kind.MapObject? ==> manager.Grid().Shaped() && manager.Grid().Holds(WorldToTile(obj.pos))
      modifies `freed, obj`released, manager`syncObjects, manager`mapObjects
      ensures State(manager) == Delete<GameObject>(old(State(manager)), obj)
    {
      hide Without, WorldToTile;
      obj.Release(manager);
      obj.released := true;
      freed := freed + [obj];
    }
  }
}
