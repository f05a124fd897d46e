/** The client's objects as a value: the scene's list, the tile grid of map objects, and the map from ids
    to objects.

    The steps of a run are `InitMap`, `CreateObject`, `SpawnMapObject`, `SetObjectId`, `Destroy`, `SetPos`,
    the sort before drawing, `RemoveDeadObjects` and `ReleaseObjects`. */
module ObjectGrid {
  import opened Wrappers
  import opened Geometry
  import opened Sequences

  datatype Kind = Plain | Sync | MapObject

  /** `id` is 0 until the object is given one; the server's ids start at 1. */
  datatype Body = Body(kind: Kind, pos: Pos, id: nat, dead: bool, released: bool)

  datatype Grid<T> = Grid(width: nat, height: nat, cells: seq<seq<Option<T>>>) {
    predicate Shaped() { |cells| == height && forall y | 0 <= y < height :: |cells[y]| == width }

    predicate Holds(t: Tile) { 0 <= t.x < width && 0 <= t.y < height }

    function At(t: Tile): Option<T>
      requires Shaped() && Holds(t)
    {
      cells[t.y][t.x]
    }

    /** The grid with `v` in the cell of `t`. */
    function Put(t: Tile, v: Option<T>): (g: Grid<T>)
      requires Shaped() && Holds(t)
      ensures g.Shaped() && g.width == width && g.height == height
      ensures forall u | Holds(u) :: g.At(u) == if u == t then v else At(u)
    {
      this.(cells := cells[t.y := cells[t.y][t.x := v]])
    }
  }

  /** `freed` lists the objects deleted so far. */
  datatype Game<T(==)> = Game(
    scene: seq<T>, freed: seq<T>, grid: Grid<T>, ids: map<nat, Option<T>>, bodies: map<T, Body>)
  {
    predicate Lives(o: T) { o in bodies && !bodies[o].released }

    function TileOf(o: T): Tile
      requires o in bodies
    {
      WorldToTile(bodies[o].pos)
    }

    /** The scene lists each object that is not deleted once. */
    ghost predicate SceneOk() {
      && (forall i, j | 0 <= i < j < |scene| :: scene[i] != scene[j])
      && (forall o | o in bodies :: o in scene <==> Lives(o))
      && (forall o | o in scene :: o in bodies)
    }

    /** A cell that is not null holds an undeleted map object lying in that tile. */
    ghost predicate CellsOk() {
      && grid.Shaped()
      && forall t: Tile | grid.Holds(t) && grid.At(t).Some? ::
           var o := grid.At(t).value; Lives(o) && bodies[o].kind.MapObject? && TileOf(o) == t
    }

    /** An undeleted map object is in the cell of the tile it lies in. */
    ghost predicate ObjectsPlaced() {
      && grid.Shaped()
      && forall o | o in bodies && Lives(o) && bodies[o].kind.MapObject? ::
           grid.Holds(TileOf(o)) && grid.At(TileOf(o)) == Some(o)
    }

    /** An id leads only to an undeleted object that has it. */
    ghost predicate IdsOk() {
      forall i | i in ids && ids[i].Some? ::
        var o := ids[i].value; Lives(o) && !bodies[o].kind.Plain? && bodies[o].id == i
    }

    /** Every undeleted object that was given an id is found under it. */
    ghost predicate IdsFound() {
      && (0 in ids ==> ids[0].None?)
      && forall o | o in bodies && Lives(o) && bodies[o].id != 0 :: bodies[o].id in ids && ids[bodies[o].id] == Some(o)
    }

    /** No object was deleted twice. */
    ghost predicate FreedOk() {
      && (forall i, j | 0 <= i < j < |freed| :: freed[i] != freed[j])
      && (forall o | o in freed :: o in bodies && bodies[o].released)
    }

    ghost predicate Good() {
      SceneOk() && CellsOk() && ObjectsPlaced() && IdsOk() && IdsFound() && FreedOk()
    }
  }

  //
  // What the code does
  //

  /** The grid `InitMap` makes. */
  function EmptyGrid<T>(width: nat, height: nat): (g: Grid<T>)
    ensures g.Shaped() && forall t | g.Holds(t) :: g.At(t) == None
  {
    Grid(width, height, seq(height, y => seq(width, x => None)))
  }

  function InitMap<T(==)>(g: Game<T>, width: nat, height: nat): Game<T> { g.(grid := EmptyGrid(width, height)) }

  /** `CreateObject`. */
  function Create<T(==)>(g: Game<T>, o: T, kind: Kind): Game<T> {
    g.(scene := g.scene + [o], bodies := g.bodies[o := Body(kind, Pos(0.0, 0.0), 0, false, false)])
  }

  function SetPos<T(==)>(g: Game<T>, o: T, pos: Pos): Game<T>
    requires o in g.bodies
  {
    g.(bodies := g.bodies[o := g.bodies[o].(pos := pos)])
  }

  /** `SpawnMapObject` with a type it knows. */
  function Spawn<T(==)>(g: Game<T>, o: T, t: Tile): Game<T>
    requires g.grid.Shaped() && g.grid.Holds(t)
  {
    SetPos(Create(g, o, MapObject), o, TileToWorld(t)).(grid := g.grid.Put(t, Some(o)))
  }

  /** `SetObjectId`, which registers the object. */
  function SetObjectId<T(==)>(g: Game<T>, o: T, id: nat): Game<T>
    requires o in g.bodies
  {
    g.(bodies := g.bodies[o := g.bodies[o].(id := id)], ids := g.ids[id := Some(o)])
  }

  function Destroy<T(==)>(g: Game<T>, o: T): Game<T>
    requires o in g.bodies
  {
    g.(bodies := g.bodies[o := g.bodies[o].(dead := true)])
  }

  /** `OnRelease`: a map object clears its cell, after it and every other object with an id took itself
      out of the id map. */
  function OnRelease<T(==)>(g: Game<T>, o: T): Game<T>
    requires o in g.bodies
  {
    var b := g.bodies[o];
    g.(ids := if b.kind.Plain? then g.ids else g.ids[b.id := None],
       grid := if b.kind.MapObject? && g.grid.Shaped() && g.grid.Holds(WorldToTile(b.pos))
               then g.grid.Put(WorldToTile(b.pos), None) else g.grid)
  }

  /** Released and deleted. */
  function Delete<T(==)>(g: Game<T>, o: T): Game<T>
    requires o in g.bodies
  {
    var r := OnRelease(g, o);
    r.(bodies := r.bodies[o := r.bodies[o].(released := true)], freed := r.freed + [o])
  }

  /** Unregistered from the scene, released and deleted. */
  function Free<T(==)>(g: Game<T>, o: T): Game<T>
    requires o in g.bodies
  {
    Delete(g.(scene := Without(g.scene, o)), o)
  }

  predicate Due<T(==)>(g: Game<T>, o: T) { g.Lives(o) && g.bodies[o].dead }

  /** `RemoveDeadObjects` with `snapshot` still to visit. */
  function RemoveDeadOf<T(==)>(g: Game<T>, snapshot: seq<T>): Game<T>
    decreases |snapshot|
  {
    if snapshot == [] then g
    else RemoveDeadOf(if Due(g, snapshot[0]) then Free(g, snapshot[0]) else g, snapshot[1..])
  }

  function RemoveDead<T(==)>(g: Game<T>): Game<T> { RemoveDeadOf(g, g.scene) }

  /** The loop of `ReleaseObjects` with `rest` still to delete. */
  function DeleteEach<T(==)>(g: Game<T>, rest: seq<T>): Game<T>
    decreases |rest|
  {
    if rest == [] then g else DeleteEach(if g.Lives(rest[0]) then Delete(g, rest[0]) else g, rest[1..])
  }

  /** `ReleaseObjects`: everything is deleted and the list cleared. */
  function ReleaseAll<T(==)>(g: Game<T>): Game<T> { DeleteEach(g, g.scene).(scene := []) }

  /** `Draw` is the sort by height before rendering. */
  datatype Step<T> =
    | Init(width: nat, height: nat)
    | New(o: T, kind: Kind)
    | NewOnMap(o: T, tile: Tile)
    | Identify(o: T, id: nat)
    | Kill(o: T)
    | Move(o: T, pos: Pos)
    | Draw(order: seq<T>)
    | Sweep
    | Close

  /** What the code can be asked to do: a new object is new, a tile to spawn on is one of the grid, and no
      deleted object is touched. */
  ghost predicate Possible<T>(g: Game<T>, s: Step<T>) {
    match s
    case New(o, _) => o !in g.bodies
    case NewOnMap(o, t) => o !in g.bodies && g.grid.Shaped() && g.grid.Holds(t)
    case Identify(o, _) => g.Lives(o) && !g.bodies[o].kind.Plain?
    case Kill(o) => g.Lives(o)
    case Move(o, _) => g.Lives(o)
    case Draw(order) => IsReordering(order, g.scene)
    case _ => true
  }

  /** What a caller has to check to keep scene, grid and id map in agreement. */
  ghost predicate Harmless<T>(g: Game<T>, s: Step<T>)
    requires Possible(g, s)
  {
    match s
    case Init(_, _) => NoMapObjects(g)
    case New(_, kind) => !kind.MapObject?
    case NewOnMap(_, t) => g.grid.At(t).None?
    case Identify(o, id) => MayBeCalled(g, o, id)
    case Move(o, pos) => g.bodies[o].kind.MapObject? ==> WorldToTile(pos) == g.TileOf(o)
    case _ => true
  }

  ghost predicate NoMapObjects<T>(g: Game<T>) {
    forall o | o in g.bodies && g.Lives(o) :: !g.bodies[o].kind.MapObject?
  }

  /** The object has no other id, and no other object has this one. */
  ghost predicate MayBeCalled<T>(g: Game<T>, o: T, id: nat)
    requires o in g.bodies
  {
    && id != 0 && (g.bodies[o].id == 0 || g.bodies[o].id == id)
    && forall p | p in g.bodies && g.Lives(p) && p != o :: g.bodies[p].id != id
  }

  ghost predicate IsReordering<T>(a: seq<T>, b: seq<T>) {
    && (forall i, j | 0 <= i < j < |a| :: a[i] != a[j])
    && (forall x | x in a :: x in b) && (forall x | x in b :: x in a)
  }

  function Do<T(==)>(g: Game<T>, s: Step<T>): Game<T>
    requires Possible(g, s)
  {
    match s
    case Init(width, height) => InitMap(g, width, height)
    case New(o, kind) => Create(g, o, kind)
    case NewOnMap(o, t) => Spawn(g, o, t)
    case Identify(o, id) => SetObjectId(g, o, id)
    case Kill(o) => Destroy(g, o)
    case Move(o, pos) => SetPos(g, o, pos)
    case Draw(order) => g.(scene := order)
    case Sweep => RemoveDead(g)
    case Close => ReleaseAll(g)
  }

  //
  // New objects
  //

  lemma AppendDistinct<T>(s: seq<T>, x: T)
    requires forall i, j | 0 <= i < j < |s| :: s[i] != s[j]
    requires x !in s
    ensures forall i, j | 0 <= i < j < |s + [x]| :: (s + [x])[i] != (s + [x])[j]
  {
  }

  /** Making the grid anew keeps the agreement exactly when no undeleted object is a map object. */
  lemma InitMapKeepsIff<T>(g: Game<T>, width: nat, height: nat)
    requires g.Good()
    ensures InitMap(g, width, height).Good() <==> NoMapObjects(g)
    ensures forall t :: InitMap(g, width, height).grid.Holds(t) <==> 0 <= t.x < width && 0 <= t.y < height
  {
    hide WorldToTile;
  }

  /** An object created off the grid, as `BuildMap` creates its blocks, must not be a map object. */
  lemma CreateKeepsIff<T>(g: Game<T>, o: T, kind: Kind)
    requires g.Good() && o !in g.bodies
    ensures Create(g, o, kind).Good() <==> !kind.MapObject?
  {
    hide WorldToTile;
    AppendDistinct(g.scene, o);
    assert Create(g, o, kind).Lives(o) && o in Create(g, o, kind).bodies;
  }

  lemma SpawnKeepsLists<T>(g: Game<T>, o: T, t: Tile)
    requires g.Good() && o !in g.bodies && g.grid.Holds(t)
    ensures var g' := Spawn(g, o, t); g'.SceneOk() && g'.IdsOk() && g'.IdsFound() && g'.FreedOk()
  {
    hide Grid.Put, WorldToTile, TileToWorld;
    AppendDistinct(g.scene, o);
  }

  lemma SpawnOnEmpty<T>(g: Game<T>, o: T, t: Tile)
    requires g.CellsOk() && g.ObjectsPlaced() && o !in g.bodies && g.grid.Holds(t)
    ensures Spawn(g, o, t).CellsOk()
    ensures g.grid.At(t).None? ==> Spawn(g, o, t).ObjectsPlaced()
  {
    hide WorldToTile, TileToWorld;
    TileToWorldAndBackIff(t);
  }

  /** The object that was in the cell is still there but cannot be found. */
  lemma SpawnOnTaken<T>(g: Game<T>, o: T, t: Tile)
    requires g.CellsOk() && o !in g.bodies && g.grid.Holds(t) && g.grid.At(t).Some?
    ensures !Spawn(g, o, t).ObjectsPlaced()
  {
    hide WorldToTile, TileToWorld;
    var q, g' := g.grid.At(t).value, Spawn(g, o, t);
    assert g'.bodies[q] == g.bodies[q] && g'.grid.At(t) == Some(o);
    assert g'.Lives(q) && g'.TileOf(q) == t;
  }

  /** Spawning on a tile of the map keeps grid and objects in agreement exactly when the cell is empty. */
  lemma SpawnKeepsIff<T>(g: Game<T>, o: T, t: Tile)
    requires g.Good() && o !in g.bodies && g.grid.Holds(t)
    ensures Spawn(g, o, t).Good() <==> g.grid.At(t).None?
  {
    hide Create;
    SpawnKeepsLists(g, o, t);
    SpawnOnEmpty(g, o, t);
    if g.grid.At(t).Some? { SpawnOnTaken(g, o, t); }
  }

  /** Giving an object an id keeps the agreement exactly when it has no other and nobody else has it. */
  lemma SetObjectIdKeepsIff<T>(g: Game<T>, o: T, id: nat)
    requires g.Good() && g.Lives(o) && !g.bodies[o].kind.Plain?
    ensures SetObjectId(g, o, id).Good() <==> MayBeCalled(g, o, id)
  {
    hide WorldToTile;
    var g', before := SetObjectId(g, o, id), g.bodies[o].id;
    assert g'.SceneOk() && g'.CellsOk() && g'.ObjectsPlaced() && g'.FreedOk();
    if before != 0 && before != id {
      assert g'.ids[before] == Some(o);
    }
    if p :| p in g.bodies && g.Lives(p) && p != o && g.bodies[p].id == id {
      assert g'.bodies[p] == g.bodies[p] && g'.ids[id] == Some(o);
    }
  }

  /** Setting an object's position keeps the agreement exactly when a map object stays in its tile. */
  lemma SetPosKeepsIff<T>(g: Game<T>, o: T, pos: Pos)
    requires g.Good() && g.Lives(o)
    ensures SetPos(g, o, pos).Good() <==> (g.bodies[o].kind.MapObject? ==> WorldToTile(pos) == g.TileOf(o))
  {
    hide WorldToTile;
    var g' := SetPos(g, o, pos);
    assert g'.SceneOk() && g'.IdsOk() && g'.IdsFound() && g'.FreedOk();
    if g.bodies[o].kind.MapObject? { assert g'.grid.At(g.TileOf(o)) == Some(o); }
  }

  //
  // Released objects
  //

  /** Freeing an object of the scene takes it out of the scene, the grid and the id map. */
  lemma FreeKeeps<T>(g: Game<T>, a: seq<T>, o: T, b: seq<T>)
    requires g.Good() && g.scene == a + [o] + b
    ensures Free(g, o).Good() && Free(g, o).scene == a + b && g.Lives(o)
  {
    assert g.scene[|a|] == o;
    forall i | 0 <= i < |a| ensures a[i] != o { assert g.scene[i] == a[i]; }
    forall i | 0 <= i < |b| ensures b[i] != o { assert g.scene[|a| + 1 + i] == b[i]; }
    WithoutMiddle(a, o, b);
    FreeKeepsScene(g, a, o, b);
    FreeKeepsGrid(g, o);
    FreeKeepsIds(g, o);
    AppendDistinct(g.freed, o);
  }

  lemma FreeKeepsScene<T>(g: Game<T>, a: seq<T>, o: T, b: seq<T>)
    requires g.SceneOk() && g.scene == a + [o] + b && o in g.bodies && Free(g, o).scene == a + b && o !in a && o !in b
    ensures Free(g, o).SceneOk()
  {
    var n := |a|;
    forall i, j | 0 <= i < j < |a + b| ensures (a + b)[i] != (a + b)[j] {
      assert (a + b)[i] == g.scene[if i < n then i else i + 1];
      assert (a + b)[j] == g.scene[if j < n then j else j + 1];
    }
    assert forall x | x in g.scene :: x in a || x == o || x in b;
  }

  lemma FreeKeepsGrid<T>(g: Game<T>, o: T)
    requires g.CellsOk() && g.ObjectsPlaced() && g.Lives(o)
    ensures Free(g, o).CellsOk() && Free(g, o).ObjectsPlaced()
  {
    hide Without;
  }

  lemma FreeKeepsIds<T>(g: Game<T>, o: T)
    requires g.IdsOk() && g.IdsFound() && g.Lives(o)
    ensures Free(g, o).IdsOk() && Free(g, o).IdsFound()
  {
    hide Without;
  }

  /** What a sweep does to one body: the dead ones in `swept` are released. */
  function Swept<T(==)>(o: T, b: Body, swept: seq<T>): Body {
    if b.dead && o in swept then b.(released := true) else b
  }

  lemma {:induction false} RemoveDeadOfLists<T>(g: Game<T>, kept: seq<T>, rest: seq<T>, dead: set<T>, living: set<T>)
    requires g.Good() && g.scene == kept + rest
    requires forall o | o in rest && o in g.bodies ::
               (o in dead <==> g.bodies[o].dead) && (o in living <==> !g.bodies[o].dead)
    ensures var g' := RemoveDeadOf(g, rest);
            && g'.Good()
            && g'.scene == kept + Only(rest, living)
            && g'.freed == g.freed + Only(rest, dead)
    decreases |rest|
  {
    hide Game.Good, Free, Only;
    if rest == [] {
      OnlyNone(dead);
      OnlyNone(living);
    } else {
      var o, b := rest[0], rest[1..];
      assert rest == [o] + b && kept + rest == kept + [o] + b;
      InScene(g, kept, o, b);
      OnlyFirst(o, b, dead);
      OnlyFirst(o, b, living);
      if g.bodies[o].dead {
        FreeKeeps(g, kept, o, b);
        FreeEffect(g, o);
        RemoveDeadOfLists(Free(g, o), kept, b, dead, living);
      } else {
        RemoveDeadOfLists(g, kept + [o], b, dead, living);
      }
    }
  }

  lemma {:induction false} RemoveDeadOfBodies<T>(g: Game<T>, kept: seq<T>, rest: seq<T>)
    requires g.Good() && g.scene == kept + rest
    ensures var g' := RemoveDeadOf(g, rest);
            && g'.bodies.Keys == g.bodies.Keys
            && forall o | o in g.bodies :: g'.bodies[o] == Swept(o, g.bodies[o], rest)
    decreases |rest|
  {
    hide Game.Good, Free;
    if rest == [] {
    } else {
      var o, b := rest[0], rest[1..];
      assert rest == [o] + b && kept + rest == kept + [o] + b;
      InScene(g, kept, o, b);
      if g.bodies[o].dead {
        FreeKeeps(g, kept, o, b);
        FreeEffect(g, o);
        RemoveDeadOfBodies(Free(g, o), kept, b);
      } else {
        RemoveDeadOfBodies(g, kept + [o], b);
      }
    }
  }

  lemma InScene<T>(g: Game<T>, a: seq<T>, o: T, b: seq<T>)
    requires g.Good() && g.scene == a + [o] + b
    ensures g.Lives(o) && o !in b
  {
    assert g.scene[|a|] == o;
    forall i | 0 <= i < |b| ensures b[i] != o { assert g.scene[|a| + 1 + i] == b[i]; }
  }

  /** A sweep that began in `start` and has visited `i` objects, of which it left `kept`. */
  ghost predicate Sweeping<T>(g: Game<T>, start: Game<T>, kept: seq<T>, i: nat) {
    && i <= |start.scene| && g.Good() && g.scene == kept + start.scene[i..]
    && RemoveDeadOf(g, start.scene[i..]) == RemoveDead(start)
  }

  lemma SweepBegins<T>(start: Game<T>)
    requires start.Good()
    ensures Sweeping(start, start, [], 0)
  {
    assert start.scene[0..] == start.scene && [] + start.scene == start.scene;
  }

  lemma SweepEnds<T>(g: Game<T>, start: Game<T>, kept: seq<T>)
    requires Sweeping(g, start, kept, |start.scene|)
    ensures g == RemoveDead(start) && g.Good()
  {
  }

  lemma SweepStep<T>(g: Game<T>, start: Game<T>, kept: seq<T>, i: nat)
    requires Sweeping(g, start, kept, i) && i < |start.scene|
    ensures var o := start.scene[i];
            && g.Good() && g.Lives(o) && o in g.scene
            && if g.bodies[o].dead then Sweeping(Free(g, o), start, kept, i + 1)
               else Sweeping(g, start, kept + [o], i + 1)
  {
    hide Game.Good, Free;
    var o, rest := start.scene[i], start.scene[i + 1..];
    assert start.scene[i..] == [o] + rest && ([o] + rest)[1..] == rest;
    assert g.scene == kept + [o] + rest;
    InScene(g, kept, o, rest);
    FreeKeeps(g, kept, o, rest);
  }

  lemma FreeEffect<T>(g: Game<T>, o: T)
    requires g.Lives(o)
    ensures Free(g, o).bodies == g.bodies[o := g.bodies[o].(released := true)] && Free(g, o).freed == g.freed + [o]
  {
    hide Without;
  }

  /** A sweep deletes exactly the dead objects of the scene, each once, and keeps the living in order. */
  lemma RemoveDeadEffect<T>(g: Game<T>)
    requires g.Good()
    ensures var g' := Do(g, Sweep);
            && g'.Good()
            && g'.scene == Only(g.scene, set o | o in g.scene && o in g.bodies && !g.bodies[o].dead)
            && g'.freed == g.freed + Only(g.scene, set o | o in g.scene && o in g.bodies && g.bodies[o].dead)
            && forall o | o in g.bodies :: o in g'.bodies && (g'.Lives(o) <==> g.Lives(o) && !g.bodies[o].dead)
  {
    hide RemoveDeadOf, Only, Game.CellsOk, Game.ObjectsPlaced, Game.IdsOk, Game.IdsFound, Game.FreedOk;
    var dead := set o | o in g.scene && o in g.bodies && g.bodies[o].dead;
    var living := set o | o in g.scene && o in g.bodies && !g.bodies[o].dead;
    assert g.scene == [] + g.scene;
    RemoveDeadOfLists(g, [], g.scene, dead, living);
    RemoveDeadOfBodies(g, [], g.scene);
  }

  /** The loop of `ReleaseObjects`: with the scene cut down to what is left, each turn frees an object. */
  lemma {:induction false} DeleteEachKeeps<T>(g: Game<T>, rest: seq<T>)
    requires g.(scene := rest).Good()
    ensures DeleteEach(g, rest).(scene := []).Good() && DeleteEach(g, rest).freed == g.freed + rest
    ensures DeleteEach(g, rest).bodies.Keys == g.bodies.Keys
    decreases |rest|
  {
    hide Game.Good, Delete;
    if rest == [] {
    } else {
      DeleteOne(g, rest);
      DeleteEachKeeps(Delete(g, rest[0]), rest[1..]);
      assert rest == [rest[0]] + rest[1..];
    }
  }

  lemma DeleteOne<T>(g: Game<T>, rest: seq<T>)
    requires g.(scene := rest).Good() && rest != []
    ensures g.Lives(rest[0]) && Delete(g, rest[0]).(scene := rest[1..]).Good()
    ensures Delete(g, rest[0]).freed == g.freed + [rest[0]] && Delete(g, rest[0]).bodies.Keys == g.bodies.Keys
    ensures Delete(g, rest[0]).scene == g.scene
  {
    hide Game.Good, WorldToTile, Without;
    var h := g.(scene := rest);
    assert rest == [] + [rest[0]] + rest[1..] && [] + rest[1..] == rest[1..];
    FreeKeeps(h, [], rest[0], rest[1..]);
    FreeEffect(h, rest[0]);
    assert Delete(g, rest[0]).(scene := rest[1..]) == Free(h, rest[0]);
  }

  /** A new object outlives the next sweep, the last of the scene, with no id; on a tile, it lies in its
      middle. */
  lemma CreatedSurvives<T>(g: Game<T>, o: T, kind: Kind, t: Tile)
    requires g.Good() && o !in g.bodies && g.grid.Holds(t)
    ensures !kind.MapObject? ==>
              RemoveDead(Create(g, o, kind)).Lives(o) && Create(g, o, kind).scene == g.scene + [o]
              && Create(g, o, kind).bodies[o].id == 0 && Create(g, o, kind).bodies[o].kind == kind
    ensures g.grid.At(t).None? ==>
              && RemoveDead(Spawn(g, o, t)).Lives(o) && Spawn(g, o, t).scene == g.scene + [o]
              && Around(Spawn(g, o, t).bodies[o].pos, TILE_SIZE)
                 == Rect(40 * t.x, 40 * t.y, 40 * t.x + 40, 40 * t.y + 40)
  {
    hide RemoveDead;
    if !kind.MapObject? {
      CreateKeepsIff(g, o, kind);
      RemoveDeadEffect(Create(g, o, kind));
    }
    if g.grid.At(t).None? {
      SpawnKeepsIff(g, o, t);
      RemoveDeadEffect(Spawn(g, o, t));
      TileSquare(t);
    }
  }

  /** Nothing in the grid or the id map leads to an object that is deleted. */
  lemma Gone<T>(g: Game<T>, o: T)
    requires g.Good() && !g.Lives(o)
    ensures forall t: Tile | g.grid.Holds(t) :: g.grid.At(t) != Some(o)
    ensures forall i | i in g.ids :: g.ids[i] != Some(o)
  {
    hide Game.TileOf;
  }

  /** A sweep keeps the invariant, deletes what is dead and changes no other record. */
  lemma SweepRecords<T>(g: Game<T>)
    requires g.Good()
    ensures var g' := Do(g, Sweep);
            && g'.Good() && g'.bodies.Keys == g.bodies.Keys
            && forall p | p in g.bodies :: g'.bodies[p] == Swept(p, g.bodies[p], g.scene)
  {
    hide RemoveDeadOf, Only;
    RemoveDeadEffect(g);
    assert g.scene == [] + g.scene;
    RemoveDeadOfBodies(g, [], g.scene);
  }

  lemma DeadIsFreed<T>(g: Game<T>, o: T)
    requires g.Good() && o in g.scene && o in g.bodies && g.bodies[o].dead
    ensures o in Do(g, Sweep).freed
  {
    hide Game.Good, Only, RemoveDead;
    RemoveDeadEffect(g);
    var dead := set p | p in g.scene && p in g.bodies && g.bodies[p].dead;
    assert o in Only(g.scene, dead);
  }

  lemma InSceneIff<T>(g: Game<T>, p: T)
    requires g.Good() && p in g.bodies
    ensures p in g.scene <==> g.Lives(p)
  {
  }

  lemma DeadIsSwept<T>(g: Game<T>, o: T, p: T)
    requires g.Good() && g.Lives(o) && g.bodies[o].dead && g.Lives(p)
    ensures var g' := Do(g, Sweep);
            && g'.Good() && o !in g'.scene && o in g'.freed && o in g'.bodies && !g'.Lives(o)
            && (!g.bodies[p].dead ==> p in g'.scene && p in g'.bodies && g'.bodies[p] == g.bodies[p])
  {
    hide Do, Game.Good;
    InSceneIff(g, o);
    SweepRecords(g);
    DeadIsFreed(g, o);
    InSceneIff(Do(g, Sweep), o);
    InSceneIff(Do(g, Sweep), p);
  }

  /** An object that is destroyed is deleted by the next sweep, leaving its cell and its id; everything else
      that lives goes on living, and the rest of its record is as it was. */
  lemma DestroyedIsSwept<T>(g: Game<T>, o: T, p: T)
    requires g.Good() && g.Lives(o) && g.Lives(p)
    ensures var g' := Do(Do(g, Kill(o)), Sweep);
            && g'.Good() && o !in g'.scene && o in g'.freed && o in g'.bodies && !g'.Lives(o)
            && (p != o && !g.bodies[p].dead ==> p in g'.scene && p in g'.bodies && g'.bodies[p] == g.bodies[p])
            && (forall t: Tile | g'.grid.Holds(t) :: g'.grid.At(t) != Some(o))
            && (forall i | i in g'.ids :: g'.ids[i] != Some(o))
  {
    hide RemoveDead, Game.Good, Game.TileOf;
    DestroyKeeps(g, o);
    var d := Do(g, Kill(o));
    DeadIsSwept(d, o, p);
    GoodIsShaped(Do(d, Sweep));
    Gone(Do(d, Sweep), o);
  }

  lemma GoodIsShaped<T>(g: Game<T>)
    requires g.Good()
    ensures g.grid.Shaped()
  {
  }

  /** Closing a scene that began in `start` and has deleted `i` objects of its list. */
  ghost predicate Closing<T>(g: Game<T>, start: Game<T>, i: nat) {
    && i <= |start.scene| && g.scene == start.scene && g.(scene := start.scene[i..]).Good()
    && DeleteEach(g, start.scene[i..]).(scene := []) == ReleaseAll(start)
  }

  lemma CloseBegins<T>(start: Game<T>)
    requires start.Good()
    ensures Closing(start, start, 0)
  {
    assert start.scene[0..] == start.scene && start.(scene := start.scene) == start;
  }

  /** The next object is not deleted yet, and a map object lies on the grid. */
  lemma CloseStep<T>(g: Game<T>, start: Game<T>, i: nat)
    requires Closing(g, start, i) && i < |start.scene|
    ensures var o := start.scene[i];
            && g.Lives(o) && Closing(Delete(g, o), start, i + 1)
            && (g.bodies[o].kind.MapObject? ==> g.grid.Shaped() && g.grid.Holds(g.TileOf(o)))
  {
    hide Delete, WorldToTile;
    var rest := start.scene[i..];
    assert rest[1..] == start.scene[i + 1..];
    DeleteOne(g, rest);
  }

  lemma CloseEnds<T>(g: Game<T>, start: Game<T>)
    requires Closing(g, start, |start.scene|)
    ensures g.(scene := []) == ReleaseAll(start) && ReleaseAll(start).Good()
  {
    assert start.scene[|start.scene|..] == [];
  }

  /** Closing a scene deletes every object that was not, each once, and leaves no cell and no id. */
  lemma ReleaseAllEffect<T>(g: Game<T>)
    requires g.Good()
    ensures var g' := Do(g, Close);
            && g'.Good() && g'.freed == g.freed + g.scene
            && (forall o | o in g.bodies :: !g'.Lives(o))
            && (forall t: Tile | g'.grid.Holds(t) :: g'.grid.At(t).None?)
            && (forall i | i in g'.ids :: g'.ids[i].None?)
  {
    hide DeleteEach;
    assert g.(scene := g.scene) == g;
    DeleteEachKeeps(g, g.scene);
  }

  //
  // Runs
  //

  lemma DestroyKeeps<T>(g: Game<T>, o: T)
    requires g.Good() && g.Lives(o)
    ensures Destroy(g, o).Good()
  {
    hide WorldToTile;
  }

  lemma DrawKeeps<T>(g: Game<T>, order: seq<T>)
    requires g.Good() && IsReordering(order, g.scene)
    ensures Do(g, Draw(order)).Good() && Do(g, Draw(order)) == g.(scene := order)
  {
    hide WorldToTile;
  }

  /** A step keeps the agreement exactly when it is harmless. */
  lemma DoKeepsIff<T>(g: Game<T>, s: Step<T>)
    requires g.Good() && Possible(g, s)
    ensures Do(g, s).Good() <==> Harmless(g, s)
  {
    hide Game.Good, InitMap, Create, Spawn, SetObjectId, SetPos, RemoveDead, ReleaseAll, NoMapObjects, MayBeCalled;
    match s
    case Init(width, height) => InitMapKeepsIff(g, width, height);
    case New(o, kind) => CreateKeepsIff(g, o, kind);
    case NewOnMap(o, t) => SpawnKeepsIff(g, o, t);
    case Identify(o, id) => SetObjectIdKeepsIff(g, o, id);
    case Kill(o) => DestroyKeeps(g, o);
    case Move(o, pos) => SetPosKeepsIff(g, o, pos);
    case Draw(order) => DrawKeeps(g, order);
    case Sweep => RemoveDeadEffect(g);
    case Close => ReleaseAllEffect(g);
  }

  ghost predicate AllPossible<T>(g: Game<T>, steps: seq<Step<T>>)
    decreases |steps|
  {
    steps == [] || (Possible(g, steps[0]) && AllPossible(Do(g, steps[0]), steps[1..]))
  }

  ghost function Run<T>(g: Game<T>, steps: seq<Step<T>>): Game<T>
    requires AllPossible(g, steps)
    decreases |steps|
  {
    if steps == [] then g else Run(Do(g, steps[0]), steps[1..])
  }

  lemma {:induction false} RunLast<T>(g: Game<T>, steps: seq<Step<T>>, s: Step<T>)
    requires AllPossible(g, steps) && Possible(Run(g, steps), s)
    ensures AllPossible(g, steps + [s]) && Run(g, steps + [s]) == Do(Run(g, steps), s)
    decreases |steps|
  {
    hide Do, Possible;
    if steps == [] {
      assert [] + [s] == [s] && [s][1..] == [];
    } else {
      assert (steps + [s])[0] == steps[0] && (steps + [s])[1..] == steps[1..] + [s];
      RunLast(Do(g, steps[0]), steps[1..], s);
    }
  }

  ghost predicate AllHarmless<T>(g: Game<T>, steps: seq<Step<T>>)
    requires AllPossible(g, steps)
    decreases |steps|
  {
    steps == [] || (Harmless(g, steps[0]) && AllHarmless(Do(g, steps[0]), steps[1..]))
  }

  ghost predicate AlwaysGood<T>(g: Game<T>, steps: seq<Step<T>>)
    requires AllPossible(g, steps)
    decreases |steps|
  {
    g.Good() && (steps == [] || AlwaysGood(Do(g, steps[0]), steps[1..]))
  }

  /** The client before it was told anything. */
  function Fresh<T>(): Game<T> { Game([], [], Grid(0, 0, []), map[], map[]) }

  /** Scene, grid and id map agree all through a run exactly when every step of it is harmless. */
  lemma {:induction false} RunKeepsIff<T>(g: Game<T>, steps: seq<Step<T>>)
    requires g.Good() && AllPossible(g, steps)
    ensures AlwaysGood(g, steps) <==> AllHarmless(g, steps)
    ensures AllHarmless(g, steps) ==> Run(g, steps).Good()
    decreases |steps|
  {
    if steps == [] {
    } else {
      DoKeepsIff(g, steps[0]);
      if Harmless(g, steps[0]) {
        RunKeepsIff(Do(g, steps[0]), steps[1..]);
      } else {
        assert !AlwaysGood(Do(g, steps[0]), steps[1..]);
      }
    }
  }

  /** After every run of harmless steps, with `InitMap` coming at any time, the cells that are not null and
      the undeleted map objects are in one-to-one correspondence, no id leads to a deleted object, every
      object given an id is found under it, and no object was deleted twice. */
  lemma GridAgreesWithObjects<T>(steps: seq<Step<T>>)
    requires AllPossible(Fresh<T>(), steps) && AllHarmless(Fresh<T>(), steps)
    ensures var g := Run(Fresh<T>(), steps);
            && g.grid.Shaped()
            && (forall o | o in g.bodies && g.Lives(o) && g.bodies[o].kind.MapObject? ::
                  g.grid.Holds(g.TileOf(o)) && g.grid.At(g.TileOf(o)) == Some(o))
            && (forall t: Tile | g.grid.Holds(t) && g.grid.At(t).Some? ::
                  var o := g.grid.At(t).value;
                  g.Lives(o) && g.bodies[o].kind.MapObject? && g.TileOf(o) == t)
            && (forall i | i in g.ids && g.ids[i].Some? :: g.Lives(g.ids[i].value))
            && (forall o | o in g.bodies && g.Lives(o) && g.bodies[o].id != 0 ::
                  g.bodies[o].id in g.ids && g.ids[g.bodies[o].id] == Some(o))
            && (forall i, j | 0 <= i < j < |g.freed| :: g.freed[i] != g.freed[j])
  {
    RunKeepsIff(Fresh<T>(), steps);
  }

  //
  // Runs that show what a harmful step does
  //

  ghost predicate BreaksAfter<T>(g: Game<T>, s: Step<T>) { g.Good() && Possible(g, s) && !Do(g, s).Good() }

  /** The client's grid with one map object on it, as after a first `S_Tilemap`. */
  lemma OneTile<T>(a: T) returns (g: Game<T>)
    ensures g.Good() && g.grid.Shaped() && g.grid.Holds(Tile(0, 0)) && g.grid.At(Tile(0, 0)) == Some(a)
    ensures g == Do(Do(Fresh(), Init(1, 1)), NewOnMap(a, Tile(0, 0)))
    ensures g.bodies == map[a := Body(MapObject, TileToWorld(Tile(0, 0)), 0, false, false)]
  {
    hide WorldToTile, TileToWorld;
    var empty := Do(Fresh<T>(), Init(1, 1));
    DoKeepsIff(Fresh<T>(), Init(1, 1));
    SpawnKeepsIff(empty, a, Tile(0, 0));
    g := Do(empty, NewOnMap(a, Tile(0, 0)));
  }

  /** A second object on a tile, a second map while the first one's objects live, and a map object set down
      on another tile. */
  lemma TileStepsBreak<T>(a: T, b: T)
    requires a != b
    ensures var g := Do(Do(Fresh(), Init(1, 1)), NewOnMap(a, Tile(0, 0)));
            && BreaksAfter(g, NewOnMap(b, Tile(0, 0)))
            && BreaksAfter(g, Init(1, 1))
            && BreaksAfter(g, New(b, MapObject))
            && BreaksAfter(g, Move(a, TileToWorld(Tile(1, 0))))
  {
    hide WorldToTile, TileToWorld, Game.Good, Create, SetPos, InitMap, Spawn;
    var g := OneTile(a);
    DoKeepsIff(g, NewOnMap(b, Tile(0, 0)));
    DoKeepsIff(g, Init(1, 1));
    DoKeepsIff(g, New(b, MapObject));
    TileToWorldAndBackIff(Tile(0, 0));
    TileToWorldAndBackIff(Tile(1, 0));
    DoKeepsIff(g, Move(a, TileToWorld(Tile(1, 0))));
  }

  /** An id two objects are given: the first is no longer found.  Two ids one object is given: the first
      goes on leading to it. */
  lemma IdStepsBreak<T>(a: T, b: T)
    requires a != b
    ensures var g := Do(Do(Do(Fresh(), New(a, Sync)), New(b, Sync)), Identify(a, 1));
            BreaksAfter(g, Identify(b, 1)) && BreaksAfter(g, Identify(a, 2))
  {
    hide Game.Good;
    var g1 := Do(Fresh(), New(a, Sync));
    var g2 := Do(g1, New(b, Sync));
    var g := Do(g2, Identify(a, 1));
    FreshGood<T>();
    DoKeepsIff(Fresh(), New(a, Sync));
    DoKeepsIff(g1, New(b, Sync));
    DoKeepsIff(g2, Identify(a, 1));
    DoKeepsIff(g, Identify(b, 1));
    DoKeepsIff(g, Identify(a, 2));
  }

  lemma FreshGood<T>()
    ensures Fresh<T>().Good()
  {
  }
}
