/** The situations the repository's tests set up, played on the model.

    The tests' `CountingSystem` adds one for every component of type
    `CountComponent` in each map its `init_components` is handed and takes
    one off for every such component in each map its `destroy_components`
    is handed; `Tally` computes that count from the calls a `System`
    recorded. */
module Scenarios {
  import opened Core
  import opened PyList
  import opened Staging

  /** The type key of `CountComponent`. */
  const CountComponent: ComponentType := 0
  /** The type key of `CountingSystem`. */
  const CountingSystem: SystemType := 0

  /** What one hook call does to `num_components`. */
  function Delta(h: Hook, t: ComponentType): int
  {
    match h
    case Init(m) => |Get(m, t)|
    case Destroy(m) => -|Get(m, t)|
    case Tick(_, _) => 0
  }

  /** `num_components` of a `CountingSystem` that received the calls `log`,
      counting components of type `t`. */
  function Tally(log: seq<Hook>, t: ComponentType): int
  {
    if log == [] then 0 else Tally(log[..|log| - 1], t) + Delta(log[|log| - 1], t)
  }

  /** The count is additive over the calls received. */
  lemma {:induction false} TallyAppend(a: seq<Hook>, b: seq<Hook>, t: ComponentType)
    ensures Tally(a + b, t) == Tally(a, t) + Tally(b, t)
  {
    if b != [] {
      assert (a + b)[..|a + b| - 1] == a + b[..|b| - 1];
      assert (a + b)[|a + b| - 1] == b[|b| - 1];
      TallyAppend(a, b[..|b| - 1], t);
    } else {
      assert a + b == a;
    }
  }

  /** One `update` adds the staged components and takes off the dead ones;
      the tick itself counts nothing. */
  lemma UpdateTally(log: seq<Hook>, added: CompMap, dead: CompMap, dt: real, live: CompMap, t: ComponentType)
    ensures Tally(log + [Init(added), Destroy(dead), Tick(dt, live)], t)
      == Tally(log, t) + |Get(added, t)| - |Get(dead, t)|
  {
    TallyAppend(log, [Init(added), Destroy(dead), Tick(dt, live)], t);
    var hooks := [Init(added), Destroy(dead), Tick(dt, live)];
    assert hooks[..2] == [Init(added), Destroy(dead)];
    assert hooks[..2][..1] == [Init(added)];
    assert [Init(added)][..0] == [];
    assert Tally([Init(added)], t) == |Get(added, t)|;
    assert Tally(hooks[..2], t) == |Get(added, t)| - |Get(dead, t)|;
  }

  /** `remove_entity` on a type whose only component is the entity's one
      live component: it moves to the dead list. */
  lemma PurgeLone(c: Component, mine: set<Component>)
    requires c in mine
    ensures Purge(Partitions([c], [], []), mine) == Partitions([], [], [c])
  {
    var p := Partitions([c], [], []);
    assert SweepAdded(p, mine, 0) == p;
    assert RemoveFirst([c], c) == [];
    assert Discarded(p, c) == Partitions([], [], [c]);
    assert SweepLive(p, mine, 0) == SweepLive(Partitions([], [], [c]), mine, 1);
  }

  /** A world holding one entity and nothing else. */
  method Found() returns (world: World, entity: Entity)
    ensures fresh(world) && fresh(entity) && entity.world == world
    ensures world.Valid() && world.systems == map[]
    ensures world.entities == {entity} && world.deadEntities == {}
    ensures world.components == map[] && world.newComponents == map[] && world.deadComponents == map[]
  {
    world := new World();
    var comps: seq<Component> := [];
    entity := world.CreateEntity(comps);
    assert AppendAll(map[], comps) == map[];
  }

  /** A world holding one entity with one staged `CountComponent`. */
  method Populate() returns (world: World, entity: Entity, c: Component)
    ensures fresh(world) && fresh(entity) && fresh(c)
    ensures world.Valid() && world.systems == map[]
    ensures world.components == map[] && world.deadComponents == map[]
    ensures world.newComponents == map[CountComponent := [c]]
    ensures entity in world.entities && c.owner == entity.guid && c.typeId == CountComponent
  {
    world, entity := Found();
    c := new Component(CountComponent);
    entity.AddComponent(c);
    assert Get(map[], CountComponent) + [c] == [c];
  }

  /** The fixture of the test: the world of `Populate` and a
      `CountingSystem` added afterwards, which was handed the still empty
      live map. */
  method Setup() returns (world: World, counter: System, entity: Entity, c: Component)
    ensures fresh(world) && fresh(counter) && fresh(entity) && fresh(c)
    ensures world.Valid() && world.systems == map[CountingSystem := counter]
    ensures world.components == map[] && world.deadComponents == map[]
    ensures world.newComponents == map[CountComponent := [c]]
    ensures entity in world.entities && c.owner == entity.guid && c.typeId == CountComponent
    ensures counter.received == [Init(map[])]
  {
    world, entity, c := Populate();
    counter := new System(CountingSystem);
    var _ := world.AddSystem(counter);
  }

  /** `update(0)` on a world whose one system is `counter`, returning the
      counter's new count: it rises by the staged and falls by the dead
      components of type `CountComponent`. */
  method Step(world: World, counter: System) returns (n: int)
    requires world.Valid() && world.systems == map[CountingSystem := counter]
    modifies world, counter
    ensures world.Valid() && world.systems == old(world.systems) && world.entities == old(world.entities)
    ensures world.components == Committed(old(world.components), old(world.newComponents))
    ensures world.newComponents == map[] && world.deadComponents == map[]
    ensures n == Tally(counter.received, CountComponent)
    ensures n == Tally(old(counter.received), CountComponent)
      + |Get(old(world.newComponents), CountComponent)| - |Get(old(world.deadComponents), CountComponent)|
  {
    world.Update(0.0);
    assert CountingSystem in old(world.systems);
    UpdateTally(old(counter.received), old(world.newComponents), old(world.deadComponents),
                0.0, world.components, CountComponent);
    n := Tally(counter.received, CountComponent);
  }

  /** `remove_entity` right after the first `update`: the entity's one
      component, by then live, is the only one of the dead list of its
      type, and none of that type is staged. */
  method Bury(world: World, entity: Entity, c: Component)
    requires world.Valid() && entity in world.entities && c.owner == entity.guid
    requires world.components == Committed(map[], map[c.typeId := [c]])
    requires world.newComponents == map[] && world.deadComponents == map[]
    modifies world
    ensures world.Valid() && world.systems == old(world.systems)
    ensures Get(world.newComponents, c.typeId) == [] && Get(world.deadComponents, c.typeId) == [c]
  {
    CommittedGet(map[], map[c.typeId := [c]], c.typeId);
    assert world.Part(c.typeId) == Partitions([c], [], []);
    ghost var mine := world.Mine(c.typeId, entity.guid);
    assert c in mine;
    var _ := world.RemoveEntity(entity);
    PurgeLone(c, mine);
    assert world.Part(c.typeId) == Partitions([], [], [c]);
  }

  /** `test_system_init_destroy_components`: the count is 0 right after
      `add_system` (the component is still staged), 1 after the first
      `update`, 0 after `remove_entity` and an `update`, and still 0 after
      one more `update`. */
  method InitDestroyScenario() returns (atAdd: int, first: int, second: int, third: int)
    ensures atAdd == 0 && first == 1 && second == 0 && third == 0
  {
    var world, counter, entity, c := Setup();
    assert [Init(map[])][..0] == [];
    atAdd := Tally(counter.received, CountComponent);

    first := Step(world, counter);
    Bury(world, entity, c);
    second := Step(world, counter);
    third := Step(world, counter);
  }

  /** `test_add_remove_system`, carried on: after `add_system` the type is
      registered, after `remove_system` it is not and `get_system` raises
      `KeyError`, adding it again succeeds, and a second system of the same
      type is refused. */
  method RegistryScenario() returns (present: bool, absent: bool, lookup: Result<System>,
                                     again: Outcome, duplicate: Outcome)
    ensures present && !absent && lookup == Err(KeyError)
    ensures again == Done && duplicate == Raised(DuplicateSystemException)
  {
    var world := new World();
    var counter := new System(CountingSystem);
    var _ := world.AddSystem(counter);
    present := world.HasSystem(CountingSystem);
    var _ := world.RemoveSystem(CountingSystem);
    absent := world.HasSystem(CountingSystem);
    lookup := world.GetSystem(CountingSystem);
    again := world.AddSystem(counter);
    var other := new System(CountingSystem);
    duplicate := world.AddSystem(other);
  }

  /** Guids are handed out in order and never reused: the entity created
      after another was removed takes the next number, not the freed one. */
  method GuidScenario() returns (g0: Option<nat>, g1: Option<nat>, g2: Option<nat>)
    ensures g0 == Some(0) && g1 == Some(1) && g2 == Some(2)
  {
    var world := new World();
    var none: seq<Component> := [];
    var e0 := world.CreateEntity(none);
    var e1 := world.CreateEntity(none);
    var _ := world.RemoveEntity(e0);
    var e2 := world.CreateEntity(none);
    g0, g1, g2 := e0.guid, e1.guid, e2.guid;
  }

  /** `create_entity` with two fresh components of one type. */
  method Enlist() returns (world: World, entity: Entity, a: Component, b: Component)
    ensures fresh(world) && world.Valid() && entity in world.entities
    ensures a != b && a.owner == entity.guid && b.owner == entity.guid
    ensures world.components == map[] && world.deadComponents == map[]
    ensures Typed(world.newComponents) && Get(world.newComponents, CountComponent) == [a, b]
    ensures world.systems == map[]
  {
    world := new World();
    a := new Component(CountComponent);
    b := new Component(CountComponent);
    entity := world.CreateEntity([a, b]);
    TwoStaged(a, b);
  }

  /** `create_entity` files two components of one type in their order. */
  lemma TwoStaged(a: Component, b: Component)
    requires a.typeId == CountComponent && b.typeId == CountComponent
    ensures Get(AppendAll(map[], [a, b]), CountComponent) == [a, b]
  {
    AppendAllGet(map[], [a, b], CountComponent);
    assert [a, b][..1] == [a] && [a][..0] == [];
    assert OfType([a], CountComponent) == [a];
  }

  /** A committed world with one entity owning two components of one type,
      side by side in the live list. */
  method Neighbours() returns (world: World, entity: Entity, a: Component, b: Component)
    ensures fresh(world) && world.Valid() && entity in world.entities
    ensures a != b && a.owner == entity.guid && b.owner == entity.guid
    ensures world.Part(CountComponent) == Partitions([a, b], [], [])
  {
    world, entity, a, b := Enlist();
    ghost var staged := world.newComponents;
    world.Update(0.0);
    CommittedGet(map[], staged, CountComponent);
  }

  /** The entity's two components of `Neighbours`, as `remove_entity`
      sees them. */
  lemma BothMine(world: World, entity: Entity, a: Component, b: Component)
    requires a.owner == entity.guid && b.owner == entity.guid
    requires world.Part(CountComponent) == Partitions([a, b], [], [])
    ensures world.Mine(CountComponent, entity.guid) == {a, b}
  {
    assert Get(world.components, CountComponent) + Get(world.newComponents, CountComponent) == [a, b];
  }

  /** The iteration hazard on the world: after `remove_entity`, written as
      in the source, the entity still has a component of the type (the
      second one, skipped); after the corrected walk over copies it has
      none. */
  method NeighbourScenario() returns (asWritten: bool, corrected: bool)
    ensures asWritten && !corrected
  {
    var world, entity, a, b := Neighbours();
    BothMine(world, entity, a, b);
    var _ := world.RemoveEntity(entity);
    PurgeSkipsNeighbour(a, b);
    assert Get(world.components, CountComponent) == [b];
    asWritten := world.HasComponent(entity, CountComponent);

    var world2, entity2, a2, b2 := Neighbours();
    var _ := world2.RemoveEntityFromCopies(entity2);
    corrected := world2.HasComponent(entity2, CountComponent);
  }
}
