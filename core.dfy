/** The entity-component store of `simpleecs/core.py`: components, the
    entity handle, the system hooks and the `World` that keeps them.

    The world files every component under its type in one of three
    dictionaries of lists: `_components` (live), `_new_components` (added
    since the last `update`) and `_dead_components` (removed since the last
    `update`). Python's `collections.defaultdict(list)` is a `map` read
    through `Get`, an absent key standing for the empty list. */
module Core {
  import opened PyList
  import opened Staging

  /** The key of a component's type (Python's `type(component)`). */
  type ComponentType = nat
  /** The key of a system's type (Python's `type(system)`). */
  type SystemType = nat

  datatype Option<T> = None | Some(value: T)

  /** The exceptions the world raises. */
  datatype Error = KeyError | ValueError | RuntimeError | DuplicateSystemException

  datatype Result<T> = Ok(value: T) | Err(error: Error)

  /** The outcome of an operation that returns nothing in Python. */
  datatype Outcome = Done | Raised(error: Error)

  /** A component instance. `owner` is the guid of the entity it was last
      bound to by `add_component` (`None` before that). */
  class Component {
    const typeId: ComponentType
    var owner: Option<nat>

    constructor(typeId: ComponentType)
      ensures this.typeId == typeId && owner == None
    {
      this.typeId := typeId;
      owner := None;
    }
  }

  type CompMap = map<ComponentType, seq<Component>>

  /** `d[t]` on a `defaultdict(list)`. */
  function Get(m: CompMap, t: ComponentType): seq<Component>
  {
    if t in m then m[t] else []
  }

  /** Every component is filed under its own type. */
  ghost predicate Typed(m: CompMap)
  {
    forall t, c :: t in m && c in m[t] ==> c.typeId == t
  }

  /** `c` placed behind the list filed under its own type. */
  function Append(m: CompMap, c: Component): CompMap
  {
    m[c.typeId := Get(m, c.typeId) + [c]]
  }

  /** `Append` for each component of `cs`, first to last. */
  function AppendAll(m: CompMap, cs: seq<Component>): CompMap
  {
    if cs == [] then m else Append(AppendAll(m, cs[..|cs| - 1]), cs[|cs| - 1])
  }

  /** The components of `cs` whose type is `t`, in order. */
  function OfType(cs: seq<Component>, t: ComponentType): (r: seq<Component>)
    ensures forall j :: 0 <= j < |r| ==> r[j].typeId == t && r[j] in cs
    ensures forall j :: 0 <= j < |cs| && cs[j].typeId == t ==> cs[j] in r
  {
    if cs == [] then []
    else
      var last := cs[|cs| - 1];
      assert forall j :: 0 <= j < |cs| - 1 ==> cs[j] == cs[..|cs| - 1][j];
      OfType(cs[..|cs| - 1], t) + (if last.typeId == t then [last] else [])
  }

  /** Appending a sequence of components adds, under each type, exactly that
      type's components of the sequence, in their order, behind the ones
      already there. */
  lemma {:induction false} AppendAllGet(m: CompMap, cs: seq<Component>, t: ComponentType)
    ensures Get(AppendAll(m, cs), t) == Get(m, t) + OfType(cs, t)
  {
    if cs != [] {
      var init, last := cs[..|cs| - 1], cs[|cs| - 1];
      AppendAllGet(m, init, t);
      assert OfType(cs, t) == OfType(init, t) + (if last.typeId == t then [last] else []);
      assert Get(Append(AppendAll(m, init), last), t)
        == Get(AppendAll(m, init), t) + (if last.typeId == t then [last] else []);
    }
  }

  lemma {:induction false} AppendAllTyped(m: CompMap, cs: seq<Component>)
    requires Typed(m)
    ensures Typed(AppendAll(m, cs))
  {
    if cs != [] {
      AppendAllTyped(m, cs[..|cs| - 1]);
    }
  }

  /** The comprehension of `get_components` over one list: the components
      whose owner guid is `g`, in list order. */
  function Owned(s: seq<Component>, g: Option<nat>): (r: seq<Component>)
    reads s
    ensures forall j :: 0 <= j < |r| ==> r[j] in s && r[j].owner == g
    ensures forall j :: 0 <= j < |s| && s[j].owner == g ==> s[j] in r
    ensures |r| <= |s|
  {
    if s == [] then [] else (if s[0].owner == g then [s[0]] else []) + Owned(s[1..], g)
  }

  /** Filtering a concatenation filters each part. */
  lemma {:induction false} OwnedAppend(a: seq<Component>, b: seq<Component>, g: Option<nat>)
    ensures Owned(a + b, g) == Owned(a, g) + Owned(b, g)
  {
    if a == [] {
      assert a + b == b;
    } else {
      assert (a + b)[0] == a[0];
      assert (a + b)[1..] == a[1..] + b;
      OwnedAppend(a[1..], b, g);
    }
  }

  /** A component owned by `g` placed behind a list is the last of the
      filtered list. */
  lemma OwnedSnoc(s: seq<Component>, c: Component, g: Option<nat>)
    requires c.owner == g
    ensures Owned(s + [c], g) == Owned(s, g) + [c]
  {
    OwnedAppend(s, [c], g);
    assert [c][1..] == [];
  }

  /** A list none of whose components is owned by `g` yields nothing. */
  lemma {:induction false} OwnedNone(s: seq<Component>, g: Option<nat>)
    requires forall j :: 0 <= j < |s| ==> s[j].owner != g
    ensures Owned(s, g) == []
  {
    if s != [] {
      OwnedNone(s[1..], g);
    }
  }

  /** The live map after the commit step of `update`: under every type, the
      live list extended by the staged one. */
  function Committed(live: CompMap, added: CompMap): CompMap
  {
    map t | t in live.Keys + added.Keys :: Get(live, t) + Get(added, t)
  }

  /** After the commit every type's live list is the old live list followed
      by the staged list, and nothing is filed under a wrong type. */
  lemma CommittedGet(live: CompMap, added: CompMap, t: ComponentType)
    requires Typed(live) && Typed(added)
    ensures Get(Committed(live, added), t) == Get(live, t) + Get(added, t)
    ensures Typed(Committed(live, added))
  {
    var m := Committed(live, added);
    forall s: ComponentType, c: Component | s in m && c in m[s] ensures c.typeId == s {
      assert c in Get(live, s) || c in Get(added, s);
    }
  }

  /** Appending a component under its own type keeps the map filed. */
  lemma AppendFiled(m: CompMap, c: Component)
    requires Typed(m)
    ensures Typed(Append(m, c))
  {
    var m' := Append(m, c);
    forall s: ComponentType, x: Component | s in m' && x in m'[s] ensures x.typeId == s {
      if s == c.typeId && x != c {
        assert x in Get(m, s);
      }
    }
  }

  /** Taking a component out of the list filed under `t` keeps every
      component under its own type. */
  lemma RemoveFiled(m: CompMap, t: ComponentType, s: seq<Component>, c: Component)
    requires Typed(m) && s == Get(m, t)
    ensures Typed(m[t := RemoveFirst(s, c)])
  {
    forall x | x in RemoveFirst(s, c) ensures x.typeId == t {
      RemoveFirstSubset(s, c, x);
    }
  }

  /** The entry of `k` in a map of sets, empty when absent. */
  function Lookup<K, V>(m: map<K, set<V>>, k: K): set<V>
  {
    if k in m then m[k] else {}
  }

  /** `mine` holds exactly those components of `s` whose owner guid is `g`. */
  ghost predicate OwnedBy(s: seq<Component>, mine: set<Component>, g: Option<nat>)
    reads s
  {
    forall j :: 0 <= j < |s| ==> (s[j] in mine <==> s[j].owner == g)
  }

  /** Taking a component out of a list keeps `mine` naming exactly the
      owned ones. */
  lemma OwnedByRemove(s: seq<Component>, c: Component, mine: set<Component>, g: Option<nat>)
    requires OwnedBy(s, mine, g)
    ensures OwnedBy(RemoveFirst(s, c), mine, g)
  {
    var r := RemoveFirst(s, c);
    forall j | 0 <= j < |r| ensures r[j] in mine <==> r[j].owner == g {
      RemoveFirstSubset(s, c, r[j]);
      var k :| 0 <= k < |s| && s[k] == r[j];
    }
  }

  /** The guid test of `get_components` and the set test the passes of
      `remove_entity` use pick the same components, in the same order,
      when the set names exactly the guid's components. */
  lemma {:induction false} OwnedSelect(s: seq<Component>, mine: set<Component>, g: Option<nat>)
    requires OwnedBy(s, mine, g)
    ensures Owned(s, g) == Select(s, mine)
  {
    if s != [] {
      assert OwnedBy(s[1..], mine, g) by {
        forall j | 0 <= j < |s| - 1 ensures s[1..][j] in mine <==> s[1..][j].owner == g {
          assert s[1..][j] == s[j + 1];
        }
      }
      OwnedSelect(s[1..], mine, g);
    }
  }

  /** One call a system received, with the map it was handed. */
  datatype Hook =
    | Init(components: CompMap)
    | Destroy(components: CompMap)
    | Tick(dt: real, components: CompMap)

  /** A system. The base hooks do nothing to the world; `received` records
      every call with the map passed in, which is all a system can observe. */
  class System {
    const kind: SystemType
    var received: seq<Hook>

    constructor(kind: SystemType)
      ensures this.kind == kind && received == []
    {
      this.kind := kind;
      received := [];
    }

    method InitComponents(components: CompMap)
      modifies this
      ensures received == old(received) + [Init(components)]
    {
      received := received + [Init(components)];
    }

    method DestroyComponents(components: CompMap)
      modifies this
      ensures received == old(received) + [Destroy(components)]
    {
      received := received + [Destroy(components)];
    }

    method Update(dt: real, components: CompMap)
      modifies this
      ensures received == old(received) + [Tick(dt, components)]
    {
      received := received + [Tick(dt, components)];
    }
  }

  /** The entity handle: a guid and the world it belongs to. Its component
      operations delegate to that world. */
  class Entity {
    const world: World
    var guid: Option<nat>

    constructor(world: World)
      ensures this.world == world && guid == None
    {
      this.world := world;
      guid := None;
    }

    method AddComponent(c: Component)
      requires world.Valid()
      modifies world, c
      ensures world.Valid()
      ensures c.owner == guid
      ensures world.newComponents == Append(old(world.newComponents), c)
      ensures world.components == old(world.components)
      ensures world.deadComponents == old(world.deadComponents)
      ensures world.entities == old(world.entities) && world.deadEntities == old(world.deadEntities)
      ensures world.systems == old(world.systems) && world.nextEntityGuid == old(world.nextEntityGuid)
      ensures world.issued == old(world.issued)
      ensures c !in old(Get(world.components, c.typeId)) && c !in old(Get(world.newComponents, c.typeId)) ==>
        world.GetComponents(this, c.typeId) == old(world.GetComponents(this, c.typeId)) + [c]
    {
      world.AddComponent(this, c);
    }

    method RemoveComponent(c: Component) returns (r: Outcome)
      requires world.Valid()
      modifies world
      ensures world.Valid()
      ensures r == if old(Holds(world.Part(c.typeId), c)) then Done else Raised(KeyError)
      ensures world.Part(c.typeId) == Discarded(old(world.Part(c.typeId)), c)
      ensures forall t :: t != c.typeId ==> world.Part(t) == old(world.Part(t))
      ensures world.entities == old(world.entities) && world.deadEntities == old(world.deadEntities)
      ensures world.systems == old(world.systems) && world.nextEntityGuid == old(world.nextEntityGuid)
      ensures world.issued == old(world.issued)
    {
      r := world.RemoveComponent(this, c);
    }

    function GetComponent(t: ComponentType): (r: Result<Component>)
      reads this, world, Get(world.components, t), Get(world.newComponents, t)
      ensures r == world.GetComponent(this, t)
      ensures r.Ok? <==> |world.GetComponents(this, t)| == 1
      ensures r.Ok? ==> world.GetComponents(this, t) == [r.value]
      ensures r.Err? ==> r.error == if world.GetComponents(this, t) == [] then ValueError else RuntimeError
    {
      world.GetComponent(this, t)
    }

    function HasComponent(t: ComponentType): (r: bool)
      reads this, world, Get(world.components, t), Get(world.newComponents, t)
      ensures r == world.HasComponent(this, t)
      ensures r <==> world.GetComponents(this, t) != []
    {
      world.HasComponent(this, t)
    }
  }

  class World {
    var entities: set<Entity>
    var systems: map<SystemType, System>
    var nextEntityGuid: nat
    var deadEntities: set<Entity>
    var components: CompMap
    var newComponents: CompMap
    var deadComponents: CompMap
    /** Every entity this world has ever given a guid, removed ones too. */
    ghost var issued: set<Entity>

    /** Components are filed under their own type; each system is
        registered under its own type; every entity ever created has a guid
        below the counter, and no two of them share one. */
    ghost predicate Valid()
      reads this, issued
    {
      Filed() && Keyed() && Numbered()
    }

    ghost predicate Filed()
      reads this`components, this`newComponents, this`deadComponents
    {
      Typed(components) && Typed(newComponents) && Typed(deadComponents)
    }

    ghost predicate Keyed()
      reads this`systems
    {
      forall k :: k in systems ==> systems[k].kind == k
    }

    ghost predicate Numbered()
      reads this`issued, this`entities, this`deadEntities, this`nextEntityGuid, issued`guid
    {
      entities <= issued && deadEntities <= issued
      && (forall x :: x in issued ==> x.guid.Some? && x.guid.value < nextEntityGuid)
      && (forall x, y :: x in issued && y in issued && x != y ==> x.guid != y.guid)
    }

    constructor()
      ensures Valid()
      ensures entities == {} && systems == map[] && nextEntityGuid == 0 && deadEntities == {}
      ensures components == map[] && newComponents == map[] && deadComponents == map[]
      ensures issued == {}
    {
      entities := {};
      systems := map[];
      nextEntityGuid := 0;
      deadEntities := {};
      components := map[];
      newComponents := map[];
      deadComponents := map[];
      issued := {};
    }

    /** The three lists of type `t`. */
    function Part(t: ComponentType): Partitions<Component>
      reads this`components, this`newComponents, this`deadComponents
    {
      Partitions(Get(components, t), Get(newComponents, t), Get(deadComponents, t))
    }

    /** The components of type `t`, live or staged, whose owner guid is `g`. */
    ghost function Mine(t: ComponentType, g: Option<nat>): set<Component>
      reads this`components, this`newComponents, Get(components, t), Get(newComponents, t)
    {
      set c | c in Get(components, t) + Get(newComponents, t) && c.owner == g
    }

    /** `Mine` names exactly the entity's components on any list made of
        components of the type's two lists. */
    lemma MineOwnedBy(t: ComponentType, g: Option<nat>, s: seq<Component>)
      requires forall x :: x in s ==> x in Get(components, t) + Get(newComponents, t)
      ensures OwnedBy(s, Mine(t, g), g)
    {
      forall j | 0 <= j < |s| ensures s[j] in Mine(t, g) <==> s[j].owner == g {
        assert s[j] in s;
      }
    }

    method CreateEntity(comps: seq<Component>) returns (e: Entity)
      requires Valid()
      modifies this, comps
      ensures Valid()
      ensures fresh(e) && e.world == this
      ensures e.guid == Some(old(nextEntityGuid)) && nextEntityGuid == old(nextEntityGuid) + 1
      ensures forall x :: x in old(issued) ==> x.guid != e.guid
      ensures entities == old(entities) + {e} && issued == old(issued) + {e}
      ensures newComponents == AppendAll(old(newComponents), comps)
      ensures forall j :: 0 <= j < |comps| ==> comps[j].owner == e.guid
      ensures components == old(components) && deadComponents == old(deadComponents)
      ensures systems == old(systems) && deadEntities == old(deadEntities)
    {
      e := new Entity(this);
      AddEntity(e);
      for i := 0 to |comps|
        invariant Valid()
        invariant e.guid == Some(old(nextEntityGuid)) && nextEntityGuid == old(nextEntityGuid) + 1
        invariant forall x :: x in old(issued) ==> x.guid == old(x.guid)
        invariant entities == old(entities) + {e} && issued == old(issued) + {e}
        invariant newComponents == AppendAll(old(newComponents), comps[..i])
        invariant forall j :: 0 <= j < i ==> comps[j].owner == e.guid
        invariant components == old(components) && deadComponents == old(deadComponents)
        invariant systems == old(systems) && deadEntities == old(deadEntities)
      {
        AddComponent(e, comps[i]);
        assert comps[..i + 1][..i] == comps[..i];
      }
      assert comps[..|comps|] == comps;
    }

    /** `_add_entity`: the entity takes the counter's value as its guid and
        joins the entity set; the counter moves on by one. */
    method AddEntity(e: Entity)
      requires Valid()
      modifies this, e
      ensures Valid()
      ensures e.guid == Some(old(nextEntityGuid)) && nextEntityGuid == old(nextEntityGuid) + 1
      ensures entities == old(entities) + {e} && issued == old(issued) + {e}
      ensures forall x :: x in issued && x != e ==> x.guid == old(x.guid)
      ensures components == old(components) && newComponents == old(newComponents)
      ensures deadComponents == old(deadComponents)
      ensures systems == old(systems) && deadEntities == old(deadEntities)
    {
      e.guid := Some(nextEntityGuid);
      nextEntityGuid := nextEntityGuid + 1;
      entities := entities + {e};
      issued := issued + {e};
    }

    /** The pass of one comprehension of `remove_entity` over the list of
        type `t` in `_new_components` (when `inAdded`) or `_components`:
        `mine` names the walked list's components whose owner guid is the
        entity's. */
    method SweepType(e: Entity, t: ComponentType, inAdded: bool, ghost mine: set<Component>)
      requires Valid() && OwnedBy(Walked(t, inAdded), mine, e.guid)
      modifies this
      ensures Valid()
      ensures View(t, inAdded) == SweepLive(old(View(t, inAdded)), mine, 0)
      ensures forall s :: s != t ==> Part(s) == old(Part(s))
      ensures entities == old(entities) && deadEntities == old(deadEntities)
      ensures systems == old(systems) && nextEntityGuid == old(nextEntityGuid)
      ensures issued == old(issued)
    {
      var i := 0;
      while i < |Walked(t, inAdded)|
        invariant Valid() && OwnedBy(Walked(t, inAdded), mine, e.guid)
        invariant SweepLive(View(t, inAdded), mine, i) == SweepLive(old(View(t, inAdded)), mine, 0)
        invariant forall s :: s != t ==> Part(s) == old(Part(s))
        invariant entities == old(entities) && deadEntities == old(deadEntities)
        invariant systems == old(systems) && nextEntityGuid == old(nextEntityGuid)
        invariant issued == old(issued)
        decreases |Walked(t, inAdded)| - i
      {
        SweepAt(e, t, inAdded, i, mine);
        i := i + 1;
      }
    }

    /** One turn of the comprehension: the element at position `i` of the
        walked list is removed when it is the entity's. */
    method SweepAt(e: Entity, t: ComponentType, inAdded: bool, i: nat, ghost mine: set<Component>)
      requires Valid() && OwnedBy(Walked(t, inAdded), mine, e.guid) && i < |Walked(t, inAdded)|
      modifies this
      ensures Valid() && OwnedBy(Walked(t, inAdded), mine, e.guid)
      ensures SweepLive(View(t, inAdded), mine, i + 1) == SweepLive(old(View(t, inAdded)), mine, i)
      ensures |Walked(t, inAdded)| <= old(|Walked(t, inAdded)|)
      ensures forall s :: s != t ==> Part(s) == old(Part(s))
      ensures entities == old(entities) && deadEntities == old(deadEntities)
      ensures systems == old(systems) && nextEntityGuid == old(nextEntityGuid)
      ensures issued == old(issued)
    {
      var c := Walked(t, inAdded)[i];
      ghost var before := Part(t);
      ghost var v := View(t, inAdded);
      if c.owner == e.guid {
        assert c.typeId == t;
        var _ := RemoveComponent(e, c);
        DiscardedFlip(before, c);
        assert View(t, inAdded) == Discarded(v, c);
        OwnedByRemove(v.live, c, mine, e.guid);
      }
    }

    /** The list a pass of `remove_entity` walks. */
    function Walked(t: ComponentType, inAdded: bool): seq<Component>
      reads this`components, this`newComponents
    {
      if inAdded then Get(newComponents, t) else Get(components, t)
    }

    /** The lists of type `t`, with the walked list in the `live` position. */
    function View(t: ComponentType, inAdded: bool): Partitions<Component>
      reads this`components, this`newComponents, this`deadComponents
    {
      if inAdded then Flip(Part(t)) else Part(t)
    }

    /** `remove_entity`. An entity not in the entity set raises `KeyError`
        and nothing changes. Otherwise it leaves the entity set, joins the
        recently-dead set, and every type's lists are what the two passes of
        the comprehension make of them (see `Staging.Purge`). */
    method RemoveEntity(e: Entity) returns (r: Outcome)
      requires Valid()
      modifies this
      ensures Valid()
      ensures r == if old(e in entities) then Done else Raised(KeyError)
      ensures old(e !in entities) ==> unchanged(this)
      ensures old(e in entities) ==>
        entities == old(entities) - {e} && deadEntities == old(deadEntities) + {e}
        && forall t :: Part(t) == Purge(old(Part(t)), old(Mine(t, e.guid)))
      ensures systems == old(systems) && nextEntityGuid == old(nextEntityGuid)
      ensures issued == old(issued)
    {
      if e !in entities {
        return Raised(KeyError);
      }
      entities := entities - {e};
      SweepBoth(e);
      deadEntities := deadEntities + {e};
      r := Done;
    }

    /** The two passes of `remove_entity`, over `_new_components` and then
        over `_components`. */
    method SweepBoth(e: Entity)
      requires Valid()
      modifies this
      ensures Valid()
      ensures forall t :: Part(t) == Purge(old(Part(t)), old(Mine(t, e.guid)))
      ensures entities == old(entities) && deadEntities == old(deadEntities)
      ensures systems == old(systems) && nextEntityGuid == old(nextEntityGuid)
      ensures issued == old(issued)
    {
      ghost var g := e.guid;
      ghost var mine := map t | t in components.Keys + newComponents.Keys :: Mine(t, g);
      assert forall t :: t in mine ==> mine[t] == old(Mine(t, g));

      forall t ensures OwnedBy(Get(newComponents, t), Lookup(mine, t), g) {
        MineOwnedBy(t, g, Get(newComponents, t));
      }
      SweepPass(e, true, mine);
      label Between:
      forall t ensures OwnedBy(Get(components, t), Lookup(mine, t), g) {
        SweepAddedWithin(old(Part(t)), Lookup(mine, t));
        var s := Get(components, t);
        forall j | 0 <= j < |s| ensures s[j] in Lookup(mine, t) <==> s[j].owner == g {
          assert s[j] in old(Get(components, t));
          assert old(s[j].owner) == s[j].owner;
        }
      }
      SweepPass(e, false, mine);

      forall t ensures Part(t) == Purge(old(Part(t)), old(Mine(t, g))) {
        assert old@Between(Part(t)) == SweepAdded(old(Part(t)), Lookup(mine, t), 0);
        if t !in mine {
          assert old(Part(t)).live == [] && old(Part(t)).added == [];
          assert SweepAdded(old(Part(t)), old(Mine(t, g)), 0) == old(Part(t));
        }
      }
    }

    /** One of the two passes of `remove_entity`: for every type, the
        comprehension over `_new_components` (when `inAdded`) or
        `_components`; `mine[t]` names the entity's components of type `t`. */
    method SweepPass(e: Entity, inAdded: bool, ghost mine: map<ComponentType, set<Component>>)
      requires Valid()
      requires forall t :: OwnedBy(Walked(t, inAdded), Lookup(mine, t), e.guid)
      modifies this
      ensures Valid()
      ensures forall t :: View(t, inAdded) == SweepLive(old(View(t, inAdded)), Lookup(mine, t), 0)
      ensures entities == old(entities) && deadEntities == old(deadEntities)
      ensures systems == old(systems) && nextEntityGuid == old(nextEntityGuid)
      ensures issued == old(issued)
    {
      var todo := if inAdded then newComponents.Keys else components.Keys;
      forall t | t !in todo ensures View(t, inAdded) == SweepLive(old(View(t, inAdded)), Lookup(mine, t), 0) {
        assert View(t, inAdded).live == [];
      }
      while todo != {}
        invariant Valid()
        invariant forall t :: t in todo ==> Part(t) == old(Part(t))
        invariant forall t :: t !in todo ==> View(t, inAdded) == SweepLive(old(View(t, inAdded)), Lookup(mine, t), 0)
        invariant entities == old(entities) && deadEntities == old(deadEntities)
        invariant systems == old(systems) && nextEntityGuid == old(nextEntityGuid)
        invariant issued == old(issued)
        decreases todo
      {
        var t :| t in todo;
        assert View(t, inAdded) == old(View(t, inAdded));
        SweepType(e, t, inAdded, Lookup(mine, t));
        todo := todo - {t};
      }
    }

    /** `remove_entity` with each comprehension walking a copy of the list
        it removes from. Every type's lists are what `Staging.PurgeFromCopies`
        makes of them, the entity is left with no component at all, and each
        of its components that was live or staged is filed dead. */
    method RemoveEntityFromCopies(e: Entity) returns (r: Outcome)
      requires Valid()
      modifies this
      ensures Valid()
      ensures r == if old(e in entities) then Done else Raised(KeyError)
      ensures old(e !in entities) ==> unchanged(this)
      ensures old(e in entities) ==>
        entities == old(entities) - {e} && deadEntities == old(deadEntities) + {e}
        && (forall t :: Part(t) == PurgeFromCopies(old(Part(t)), old(Mine(t, e.guid))))
        && (forall t :: GetComponents(e, t) == [])
        && forall t, c :: c in old(Mine(t, e.guid)) ==> c in Get(deadComponents, t)
      ensures systems == old(systems) && nextEntityGuid == old(nextEntityGuid)
      ensures issued == old(issued)
    {
      if e !in entities {
        return Raised(KeyError);
      }
      entities := entities - {e};
      RescanBoth(e);
      deadEntities := deadEntities + {e};
      r := Done;
      forall t ensures GetComponents(e, t) == [] {
        ClearedFrom(e, t);
      }
      forall t, c | c in old(Mine(t, e.guid)) ensures c in Get(deadComponents, t) {
        assert c in old(Get(components, t) + Get(newComponents, t));
        assert c in old(Part(t).live) || c in old(Part(t).added);
        PurgeFromCopiesClears(old(Part(t)), old(Mine(t, e.guid)));
        assert Part(t) == PurgeFromCopies(old(Part(t)), old(Mine(t, e.guid)));
      }
    }

    /** The two passes of the corrected `remove_entity`. */
    method RescanBoth(e: Entity)
      requires Valid()
      modifies this
      ensures Valid()
      ensures forall t :: Part(t) == PurgeFromCopies(old(Part(t)), old(Mine(t, e.guid)))
      ensures entities == old(entities) && deadEntities == old(deadEntities)
      ensures systems == old(systems) && nextEntityGuid == old(nextEntityGuid)
      ensures issued == old(issued)
    {
      ghost var g := e.guid;
      ghost var mine := map t | t in components.Keys + newComponents.Keys :: Mine(t, g);
      assert forall t :: t in mine ==> mine[t] == old(Mine(t, g));

      forall t ensures OwnedBy(Get(newComponents, t), Lookup(mine, t), g) {
        MineOwnedBy(t, g, Get(newComponents, t));
      }
      RescanPass(e, true, mine);
      label Between:
      forall t ensures OwnedBy(Get(components, t), Lookup(mine, t), g) {
        RescanWithin(Flip(old(Part(t))), Lookup(mine, t), old(Get(newComponents, t)));
        var s := Get(components, t);
        forall j | 0 <= j < |s| ensures s[j] in Lookup(mine, t) <==> s[j].owner == g {
          assert s[j] in old(Get(components, t));
          assert old(s[j].owner) == s[j].owner;
        }
      }
      RescanPass(e, false, mine);

      forall t ensures Part(t) == PurgeFromCopies(old(Part(t)), old(Mine(t, g))) {
        assert Flip(old@Between(Part(t))) == Rescan(Flip(old(Part(t))), Lookup(mine, t), old(Get(newComponents, t)));
        if t !in mine {
          assert Lookup(mine, t) == old(Mine(t, g));
        }
      }
    }

    /** The corrected passes leave in the lists of type `t` only components
        that were there before and were not `e`'s; their owners did not
        change. */
    twostate lemma ClearedFrom(new e: Entity, t: ComponentType)
      requires old(allocated(e)) && unchanged(e)
      requires unchanged(old(Get(components, t))) && unchanged(old(Get(newComponents, t)))
      requires Part(t) == PurgeFromCopies(old(Part(t)), old(Mine(t, e.guid)))
      ensures GetComponents(e, t) == []
    {
      PurgeFromCopiesClears(old(Part(t)), old(Mine(t, e.guid)));
      DropWithin(old(Get(components, t)), old(Mine(t, e.guid)));
      DropWithin(old(Get(newComponents, t)), old(Mine(t, e.guid)));
      var live, staged := Get(components, t), Get(newComponents, t);
      forall j | 0 <= j < |live| ensures live[j].owner != e.guid {
        assert old(live[j].owner) == live[j].owner;
      }
      forall j | 0 <= j < |staged| ensures staged[j].owner != e.guid {
        assert old(staged[j].owner) == staged[j].owner;
      }
      OwnedNone(live, e.guid);
      OwnedNone(staged, e.guid);
    }

    /** One pass of the corrected `remove_entity` over every type. */
    method RescanPass(e: Entity, inAdded: bool, ghost mine: map<ComponentType, set<Component>>)
      requires Valid()
      requires forall t :: OwnedBy(Walked(t, inAdded), Lookup(mine, t), e.guid)
      modifies this
      ensures Valid()
      ensures forall t :: View(t, inAdded) == Rescan(old(View(t, inAdded)), Lookup(mine, t), old(Walked(t, inAdded)))
      ensures entities == old(entities) && deadEntities == old(deadEntities)
      ensures systems == old(systems) && nextEntityGuid == old(nextEntityGuid)
      ensures issued == old(issued)
    {
      var todo := if inAdded then newComponents.Keys else components.Keys;
      while todo != {}
        invariant Valid()
        invariant forall t :: t in todo ==> Part(t) == old(Part(t))
        invariant forall t :: t !in todo ==>
          View(t, inAdded) == Rescan(old(View(t, inAdded)), Lookup(mine, t), old(Walked(t, inAdded)))
        invariant entities == old(entities) && deadEntities == old(deadEntities)
        invariant systems == old(systems) && nextEntityGuid == old(nextEntityGuid)
        invariant issued == old(issued)
        decreases todo
      {
        var t :| t in todo;
        assert View(t, inAdded) == old(View(t, inAdded));
        RescanType(e, t, inAdded, Lookup(mine, t));
        todo := todo - {t};
      }
    }

    /** One comprehension of the corrected `remove_entity`: the walk over a
        copy of the list of type `t`. */
    method RescanType(e: Entity, t: ComponentType, inAdded: bool, ghost mine: set<Component>)
      requires Valid() && OwnedBy(Walked(t, inAdded), mine, e.guid)
      modifies this
      ensures Valid()
      ensures View(t, inAdded) == Rescan(old(View(t, inAdded)), mine, old(Walked(t, inAdded)))
      ensures forall s :: s != t ==> Part(s) == old(Part(s))
      ensures entities == old(entities) && deadEntities == old(deadEntities)
      ensures systems == old(systems) && nextEntityGuid == old(nextEntityGuid)
      ensures issued == old(issued)
    {
      var snap := Walked(t, inAdded);
      assert forall j :: 0 <= j < |snap| ==> snap[j].typeId == t;
      for i := 0 to |snap|
        invariant Valid() && OwnedBy(snap, mine, e.guid)
        invariant Rescan(View(t, inAdded), mine, snap[i..]) == Rescan(old(View(t, inAdded)), mine, snap)
        invariant forall s :: s != t ==> Part(s) == old(Part(s))
        invariant entities == old(entities) && deadEntities == old(deadEntities)
        invariant systems == old(systems) && nextEntityGuid == old(nextEntityGuid)
        invariant issued == old(issued)
      {
        RescanOne(e, t, inAdded, snap, i, mine);
      }
      assert snap[|snap|..] == [];
    }

    /** One turn of the corrected comprehension: the copied element at
        position `i` is removed when it is the entity's. */
    method RescanOne(e: Entity, t: ComponentType, inAdded: bool, snap: seq<Component>, i: nat,
                     ghost mine: set<Component>)
      requires Valid() && i < |snap| && OwnedBy(snap, mine, e.guid) && snap[i].typeId == t
      modifies this
      ensures Valid()
      ensures Rescan(View(t, inAdded), mine, snap[i + 1..]) == Rescan(old(View(t, inAdded)), mine, snap[i..])
      ensures forall s :: s != t ==> Part(s) == old(Part(s))
      ensures entities == old(entities) && deadEntities == old(deadEntities)
      ensures systems == old(systems) && nextEntityGuid == old(nextEntityGuid)
      ensures issued == old(issued)
    {
      var c := snap[i];
      ghost var before := Part(t);
      RescanAt(View(t, inAdded), mine, snap, i);
      if c.owner == e.guid {
        var _ := RemoveComponent(e, c);
        DiscardedFlip(before, c);
      }
    }

    /** `add_system`: a second system of an already registered type raises
        `DuplicateSystemException` and changes nothing; otherwise the system
        is registered under its type and handed the live components. */
    method AddSystem(s: System) returns (r: Outcome)
      requires Valid()
      modifies this, s
      ensures Valid()
      ensures r == if old(s.kind in systems) then Raised(DuplicateSystemException) else Done
      ensures old(s.kind in systems) ==> systems == old(systems) && s.received == old(s.received)
      ensures old(s.kind !in systems) ==>
        systems == old(systems)[s.kind := s] && s.received == old(s.received) + [Init(components)]
      ensures entities == old(entities) && deadEntities == old(deadEntities)
      ensures nextEntityGuid == old(nextEntityGuid) && issued == old(issued)
      ensures components == old(components) && newComponents == old(newComponents)
      ensures deadComponents == old(deadComponents)
    {
      if HasSystem(s.kind) {
        return Raised(DuplicateSystemException);
      }
      systems := systems[s.kind := s];
      s.InitComponents(components);
      r := Done;
    }

    /** `has_system`: whether a system of type `k` is registered. */
    function HasSystem(k: SystemType): (r: bool)
      reads this
      ensures r <==> GetSystem(k).Ok?
    {
      k in systems
    }

    /** `get_system`: the system registered under `k`, or `KeyError`. */
    function GetSystem(k: SystemType): (r: Result<System>)
      reads this
      ensures r.Ok? <==> k in systems
      ensures r.Ok? ==> r.value == systems[k]
      ensures r.Err? ==> r.error == KeyError
    {
      if k !in systems then Err(KeyError) else Ok(systems[k])
    }

    /** `remove_system`: deletes the one key `k`, or raises `KeyError` and
        changes nothing. */
    method RemoveSystem(k: SystemType) returns (r: Outcome)
      requires Valid()
      modifies this
      ensures Valid()
      ensures r == if old(k in systems) then Done else Raised(KeyError)
      ensures systems == old(systems) - {k}
      ensures entities == old(entities) && deadEntities == old(deadEntities)
      ensures nextEntityGuid == old(nextEntityGuid) && issued == old(issued)
      ensures components == old(components) && newComponents == old(newComponents)
      ensures deadComponents == old(deadComponents)
    {
      if !HasSystem(k) {
        return Raised(KeyError);
      }
      systems := systems - {k};
      r := Done;
    }

    /** `add_component`: binds the component to the entity and appends it to
        the staged list of its type; nothing else changes. A component that
        was in neither list of its type becomes the last of the entity's
        components of that type. */
    method AddComponent(e: Entity, c: Component)
      requires Valid()
      modifies this, c
      ensures Valid()
      ensures c.owner == e.guid
      ensures newComponents == Append(old(newComponents), c)
      ensures components == old(components) && deadComponents == old(deadComponents)
      ensures entities == old(entities) && deadEntities == old(deadEntities)
      ensures systems == old(systems) && nextEntityGuid == old(nextEntityGuid)
      ensures issued == old(issued)
      ensures c !in old(Get(components, c.typeId)) && c !in old(Get(newComponents, c.typeId)) ==>
        GetComponents(e, c.typeId) == old(GetComponents(e, c.typeId)) + [c]
    {
      ghost var live, staged := Get(components, c.typeId), Get(newComponents, c.typeId);
      c.owner := e.guid;
      AppendFiled(newComponents, c);
      newComponents := Append(newComponents, c);
      if c !in live && c !in staged {
        StagedLast(e, c);
      }
    }

    /** The frame argument of `add_component`: once `c`, bound to `e`, is
        placed behind the staged list of its type, no other component of
        that type having changed, it is the last of `e`'s components of that
        type. */
    twostate lemma StagedLast(new e: Entity, c: Component)
      requires old(allocated(e)) && unchanged(e) && c.owner == e.guid
      requires c !in old(Get(components, c.typeId)) && c !in old(Get(newComponents, c.typeId))
      requires unchanged(old(Get(components, c.typeId))) && unchanged(old(Get(newComponents, c.typeId)))
      requires components == old(components) && newComponents == Append(old(newComponents), c)
      ensures GetComponents(e, c.typeId) == old(GetComponents(e, c.typeId)) + [c]
    {
      OwnedSnoc(old(Get(newComponents, c.typeId)), c, c.owner);
    }

    /** `remove_component`. The first occurrence of `c` leaves the live and
        the staged list of its type, each that holds it; if it was found it
        is appended to the dead list, otherwise `KeyError` is raised and
        every list keeps its contents. */
    method RemoveComponent(e: Entity, c: Component) returns (r: Outcome)
      requires Valid()
      modifies this
      ensures Valid()
      ensures r == if old(Holds(Part(c.typeId), c)) then Done else Raised(KeyError)
      ensures Part(c.typeId) == Discarded(old(Part(c.typeId)), c)
      ensures forall t :: t != c.typeId ==> Part(t) == old(Part(t))
      ensures entities == old(entities) && deadEntities == old(deadEntities)
      ensures systems == old(systems) && nextEntityGuid == old(nextEntityGuid)
      ensures issued == old(issued)
    {
      var t := c.typeId;
      ghost var q := Discarded(Part(t), c);
      var found := false;
      var live := Get(components, t);
      if c in live {
        RemoveFiled(components, t, live, c);
        components := components[t := RemoveFirst(live, c)];
        found := true;
      }
      var staged := Get(newComponents, t);
      if c in staged {
        RemoveFiled(newComponents, t, staged, c);
        newComponents := newComponents[t := RemoveFirst(staged, c)];
        found := true;
      }
      if found {
        AppendFiled(deadComponents, c);
        deadComponents := Append(deadComponents, c);
        r := Done;
      } else {
        r := Raised(KeyError);
      }
      assert Part(t) == q;
    }

    /** `get_component`: no match raises `ValueError`, more than one raises
        `RuntimeError`, otherwise the one match. */
    function GetComponent(e: Entity, t: ComponentType): (r: Result<Component>)
      reads this`components, this`newComponents, e`guid, Get(components, t), Get(newComponents, t)
      ensures r == Err(ValueError) <==> GetComponents(e, t) == []
      ensures r == Err(RuntimeError) <==> |GetComponents(e, t)| > 1
      ensures r.Ok? <==> |GetComponents(e, t)| == 1
      ensures r.Ok? ==> GetComponents(e, t) == [r.value] && r.value.owner == e.guid
    {
      var comps := GetComponents(e, t);
      if |comps| == 0 then Err(ValueError)
      else if |comps| > 1 then Err(RuntimeError)
      else Ok(comps[0])
    }

    /** `get_components`: the live components of type `t` owned by `e`, in
        list order, then the staged ones. */
    function GetComponents(e: Entity, t: ComponentType): (r: seq<Component>)
      reads this`components, this`newComponents, e`guid, Get(components, t), Get(newComponents, t)
      ensures forall j :: 0 <= j < |r| ==>
        (r[j] in Get(components, t) || r[j] in Get(newComponents, t)) && r[j].owner == e.guid
      ensures forall j :: 0 <= j < |Get(components, t)| && Get(components, t)[j].owner == e.guid ==>
        Get(components, t)[j] in r
      ensures forall j :: 0 <= j < |Get(newComponents, t)| && Get(newComponents, t)[j].owner == e.guid ==>
        Get(newComponents, t)[j] in r
    {
      Owned(Get(components, t), e.guid) + Owned(Get(newComponents, t), e.guid)
    }

    /** `has_component`: some live or staged component of type `t` is owned
        by `e`. */
    function HasComponent(e: Entity, t: ComponentType): (r: bool)
      reads this`components, this`newComponents, e`guid, Get(components, t), Get(newComponents, t)
      ensures r <==> exists c :: c in Get(components, t) + Get(newComponents, t) && c.owner == e.guid
    {
      var comps := GetComponents(e, t);
      assert |comps| > 0 ==> comps[0] in Get(components, t) + Get(newComponents, t);
      |comps| > 0
    }

    /** `update`: every system is handed the staged and the dead maps; the
        staged components are then committed behind the live ones of their
        type, the staged and dead maps and the recently-dead set are
        cleared, and every system is handed the committed live map. */
    method Update(dt: real)
      requires Valid()
      modifies this, systems.Values
      ensures Valid()
      ensures components == Committed(old(components), old(newComponents))
      ensures newComponents == map[] && deadComponents == map[] && deadEntities == {}
      ensures systems == old(systems) && entities == old(entities)
      ensures forall k :: k in old(systems) ==>
        systems[k].received == old(systems[k].received)
          + [Init(old(newComponents)), Destroy(old(deadComponents)), Tick(dt, components)]
      ensures nextEntityGuid == old(nextEntityGuid) && issued == old(issued)
    {
      Announce();
      Commit();
      Broadcast(dt);
    }

    /** The middle of `update`: staged lists join the live ones and the
        staging maps and the dead-entity set are emptied. */
    method Commit()
      requires Valid()
      modifies this
      ensures Valid()
      ensures components == Committed(old(components), old(newComponents))
      ensures newComponents == map[] && deadComponents == map[] && deadEntities == {}
      ensures systems == old(systems) && entities == old(entities)
      ensures nextEntityGuid == old(nextEntityGuid) && issued == old(issued)
    {
      CommitNew();
      newComponents := map[];
      deadComponents := map[];
      deadEntities := {};
    }

    /** The first loop of `update`: each system's `init_components` gets the
        staged map and its `destroy_components` the dead map. */
    method Announce()
      requires Keyed()
      modifies systems.Values
      ensures forall k :: k in systems ==>
        systems[k].received == old(systems[k].received) + [Init(newComponents), Destroy(deadComponents)]
    {
      var todo := systems.Keys;
      while todo != {}
        invariant todo <= systems.Keys
        invariant forall k :: k in systems ==>
          systems[k].received ==
            old(systems[k].received) + (if k in todo then [] else [Init(newComponents), Destroy(deadComponents)])
        decreases todo
      {
        var k :| k in todo;
        systems[k].InitComponents(newComponents);
        systems[k].DestroyComponents(deadComponents);
        todo := todo - {k};
      }
    }

    /** The last loop of `update`: each system's `update` gets `dt` and the
        live map. */
    method Broadcast(dt: real)
      requires Keyed()
      modifies systems.Values
      ensures forall k :: k in systems ==>
        systems[k].received == old(systems[k].received) + [Tick(dt, components)]
    {
      var todo := systems.Keys;
      while todo != {}
        invariant todo <= systems.Keys
        invariant forall k :: k in systems ==>
          systems[k].received == old(systems[k].received) + (if k in todo then [] else [Tick(dt, components)])
        decreases todo
      {
        var k :| k in todo;
        systems[k].Update(dt, components);
        todo := todo - {k};
      }
    }

    /** The commit loop of `update`: every staged list is appended to the
        live list of its type. */
    method CommitNew()
      requires Valid()
      modifies this
      ensures Valid()
      ensures components == Committed(old(components), old(newComponents))
      ensures newComponents == old(newComponents) && deadComponents == old(deadComponents)
      ensures systems == old(systems) && entities == old(entities) && deadEntities == old(deadEntities)
      ensures nextEntityGuid == old(nextEntityGuid) && issued == old(issued)
    {
      var todo := newComponents.Keys;
      while todo != {}
        invariant todo <= newComponents.Keys
        invariant components.Keys == old(components.Keys) + (newComponents.Keys - todo)
        invariant forall t :: t in components ==>
          components[t] == Get(old(components), t) + (if t in todo then [] else Get(newComponents, t))
        invariant Typed(components)
        invariant newComponents == old(newComponents) && deadComponents == old(deadComponents)
        invariant systems == old(systems) && entities == old(entities) && deadEntities == old(deadEntities)
        invariant nextEntityGuid == old(nextEntityGuid) && issued == old(issued)
        decreases todo
      {
        var t :| t in todo;
        components := components[t := Get(components, t) + newComponents[t]];
        todo := todo - {t};
      }
      assert components == Committed(old(components), old(newComponents));
    }
  }
}
