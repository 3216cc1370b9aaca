# simpleecs `World`, modelled in Dafny

simpleecs is a small entity-component-system library. Its `World`:
- hands out entities with increasing guids;
- files each component object under its type in three dictionaries of lists: `_components` for live lists, `_new_components` for components staged since the last `update`, and `_dead_components` for components removed since then;
- keeps a registry of systems, one per system type.

`update` does three things in order:
1. it hands each system the staged and the dead components;
2. it commits the staged lists behind the live ones and clears the staging;
3. it hands each system the committed live map.

The project models `simpleecs/core.py` in four modules:

- `PyList` (`pylist.dfy`) models Python's `list.remove`.
- `Staging` (`staging.dfy`) covers the three lists of one component type. It states, as functions on values, what `remove_component` and the two comprehensions of `remove_entity` do to them:
  - `Discarded` is `remove_component`;
  - `Purge` is `remove_entity` as written;
  - `PurgeFromCopies` is `remove_entity` walking copies of the lists.

  It also proves what these functions leave behind.
- `Core` (`core.dfy`) holds the classes `Component`, `Entity`, `System` and `World`.
  - Their fields are updated in place by methods whose contracts state the whole new state.
    - `RemoveComponent`, `RemoveEntity`, `RemoveEntityFromCopies` and their passes state it through the `Staging` functions.
    - `CreateEntity` and `AddComponent` state it through `Append`/`AppendAll`, and `Update` through `Committed`.
    - The system registry methods state it as plain map updates.
  - A `defaultdict(list)` is a `map` read through `Get`; a missing key reads as the empty list.
  - A component stores its owner's guid, taken when it is bound.
  - A system records every hook call it receives, with the map it was handed.
- `Scenarios` (`scenarios.dfy`) replays the repository's tests on the model. `Tally` computes the tests' `CountingSystem` count from a system's record of calls.

Python's exceptions become result values:
- `Outcome`, which is `Done` or `Raised(error)`, for operations that return nothing in Python;
- `Result`, which is `Ok(value)` or `Err(error)`, for queries.

## Model

| member | source | states |
|---|---|---|
| `PyList.IndexOf` | simpleecs/core.py:126 | the position returned holds `x` and no earlier position does |
| `PyList.RemoveFirst` | simpleecs/core.py:126 | a list without `x` is unchanged; otherwise the result is one element shorter |
| `PyList.RemoveFirstAt` | simpleecs/core.py:126 | `remove` cuts out exactly the first occurrence of `x` |
| `PyList.RemoveFirstMultiset` | simpleecs/core.py:131 | `remove` takes exactly one copy of `x` out of the list's bag of elements |
| `PyList.RemoveFirstSubset` | simpleecs/core.py:126 | removing never introduces an element |
| `Staging.SweepLive` | simpleecs/core.py:90-94 | definition: the comprehension as CPython runs it over a list it shrinks. It reads position `i`, calls `remove_component` when that element is the entity's, and moves on to `i + 1` either way; its properties are the `Sweep…` lemmas below |
| `Staging.SweepAdded` | simpleecs/core.py:88-94 | definition: the same walk over the staged list, the first pass |
| `Staging.Purge` | simpleecs/core.py:86-95 | definition: `remove_entity` as written on one type's lists, the staged pass followed by the live pass; its properties are `PurgeSingles`, `PurgeSkipsNeighbour` and `PurgeMatchesCopies` |
| `Staging.Rescan` | simpleecs/core.py:90-94 | definition: the comprehension walking a copy, so that removals do not shift the elements still to come; its properties are the `Rescan…` lemmas below |
| `Staging.PurgeFromCopies` | simpleecs/core.py:86-95 | definition: the corrected `remove_entity` on one type's lists, the staged then the live pass, each over a copy; its properties are `PurgeFromCopiesClears` and `PurgeMatchesCopies` |
| `Staging.Discarded` | simpleecs/core.py:122-139 | when `remove_component` does not find `c`, nothing changes; when it does, `c` is appended once to the dead list |
| `Staging.DiscardedBag` | simpleecs/core.py:125-134 | `remove_component` takes one copy of `c` out of the live list and one out of the staged list |
| `Staging.DiscardedFlip` | simpleecs/core.py:88 | `remove_component` treats the live and the staged list symmetrically, so the pass over `_new_components` is the pass over `_components` with the two lists exchanged |
| `Staging.DropRemoveFirst` | simpleecs/core.py:126 | removing one of the entity's components leaves the other components of the list in place and in order |
| `Staging.SweepLiveKeeps` | simpleecs/core.py:90-94 | a pass of `remove_entity` as written keeps every component of another entity, in order, in both lists; the dead list only grows, by the entity's components |
| `Staging.SweepLiveWithin` | simpleecs/core.py:90-94 | a pass as written adds nothing to the live or the staged list |
| `Staging.SweepAddedWithin` | simpleecs/core.py:88-94 | the pass over `_new_components` adds nothing to the live list |
| `Staging.SweepNone` | simpleecs/core.py:90-94 | a pass over a list holding none of the entity's components changes nothing |
| `Staging.SweepSkip` | simpleecs/core.py:90-94 | the pass skips over other entities' components without changing anything |
| `Staging.SweepOne` | simpleecs/core.py:90-94 | when the entity has exactly one component in the walked list, the pass removes exactly that one |
| `Staging.PurgeLiveOnly` | simpleecs/core.py:86-95 | with one component of the entity live and none staged, `remove_entity` leaves the lists without it and the dead list extended by it |
| `Staging.PurgeNeither` | simpleecs/core.py:86-95 | with no component of the entity in either list, `remove_entity` changes nothing |
| `Staging.AddedPass` | simpleecs/core.py:88-94 | the pass over `_new_components` removes the entity's one staged component |
| `Staging.LiveShared` | simpleecs/core.py:88-94 | a staged component that is also live leaves both lists in the first pass, and the second pass finds nothing more |
| `Staging.LiveOther` | simpleecs/core.py:88-94 | when the entity's live component differs from its staged one, the second pass removes it |
| `Staging.LiveNone` | simpleecs/core.py:88-94 | with no live component of the entity, the second pass changes nothing |
| `Staging.PurgeAddedOwned` | simpleecs/core.py:86-95 | with one staged component of the entity and at most one live, `remove_entity` removes them all and files them dead: staged first, then live |
| `Staging.PurgeSingles` | simpleecs/core.py:86-95 | when the entity has at most one component per list, `remove_entity` as written removes all of them: the lists lose exactly the entity's components, and the dead list gains the staged and then the live ones |
| `Staging.PurgeSkipsNeighbour` | simpleecs/core.py:90-94 | two adjacent live components of the entity: the second is skipped and stays live (see Findings) |
| `Staging.RescanStep` | simpleecs/core.py:90-94 | walking a copy, each of the entity's components still sits in its list when its turn comes |
| `Staging.RescanAt` | simpleecs/core.py:90-94 | a walk over a copy is one turn followed by the rest of the walk |
| `Staging.RescanClears` | simpleecs/core.py:90-94 | walking a copy removes every one of the entity's components from the walked list, and leaves a list without them without them |
| `Staging.RescanWithin` | simpleecs/core.py:90-94 | a walk over a copy adds nothing to the live or the staged list |
| `Staging.DropWithin` | simpleecs/core.py:90-94 | what survives the filter comes from the list and is not the entity's |
| `Staging.RescanKeeps` | simpleecs/core.py:90-94 | a walk over a copy keeps every component of another entity in order; the dead list only grows, by the entity's components |
| `Staging.NoneOwnedDrop` | simpleecs/core.py:90-94 | a list holding none of the entity's components passes the filter unchanged |
| `Staging.DiscardedRetains` | simpleecs/core.py:122-139 | `remove_component` loses no component: one that was in a list still is, in the dead list when it was the one removed |
| `Staging.RescanRetains` | simpleecs/core.py:90-94 | a walk over a copy loses no component |
| `Staging.PurgeFromCopiesClears` | simpleecs/core.py:86-95 | `remove_entity` over copies leaves exactly the other entities' components, in order, in both lists; the dead list keeps its old contents and gains only the entity's components, and every one of them that was live or staged is in it |
| `Staging.PurgeMatchesCopies` | simpleecs/core.py:86-95 | when the entity has at most one component per list, the code as written and the walk over copies leave the same live and staged lists |
| `Core.Get` | simpleecs/core.py:67-69 | definition: reading a `defaultdict(list)`, where an absent key reads as the empty list |
| `Core.Append` | simpleecs/core.py:120 | definition: the component placed behind the list filed under its own type, with every other type unchanged |
| `Core.AppendAll` | simpleecs/core.py:75-77 | definition: `Append` for each component of the sequence, first to last; `AppendAllGet` states its effect type by type |
| `Core.OfType` | simpleecs/core.py:75-77 | the components of the sequence with the given type: each one returned is of that type and from the sequence, and every such component of the sequence is returned |
| `Core.Committed` | simpleecs/core.py:175-176 | definition: the live map after the commit loop, with each type's live list followed by its staged list; `CommittedGet` states it for every type |
| `Core.AppendAllGet` | simpleecs/core.py:75-77 | staging a sequence of components adds, under each type, exactly that type's components of the sequence, in order, behind the ones already there |
| `Core.AppendAllTyped` | simpleecs/core.py:75-77 | staging a sequence keeps every component filed under its own type |
| `Core.Owned` | simpleecs/core.py:155-157 | the filter of `get_components` keeps exactly the components owned by the guid, and only those |
| `Core.OwnedAppend` | simpleecs/core.py:155-161 | filtering the live list followed by the staged list filters each part |
| `Core.OwnedSnoc` | simpleecs/core.py:159-161 | a component owned by the guid and placed behind a list becomes the last of the filtered list |
| `Core.OwnedNone` | simpleecs/core.py:155-161 | a list without a component owned by the guid filters to nothing |
| `Core.CommittedGet` | simpleecs/core.py:175-176 | after the commit, each type's live list is the old live list followed by its staged list, and every component is still filed under its own type |
| `Core.AppendFiled` | simpleecs/core.py:120 | appending a component under its own type keeps every component filed under its own type |
| `Core.RemoveFiled` | simpleecs/core.py:122-134 | `remove` on one type's list keeps every component filed under its own type |
| `Core.OwnedSelect` | simpleecs/core.py:155-161 | the guid test of `get_components` and the set of the entity's components that the `remove_entity` passes use pick the same components, in the same order |
| `Core.OwnedByRemove` | simpleecs/core.py:90-93 | removing from a walked list keeps the set of the entity's components naming exactly the owned ones |
| `Core.Component.constructor` | simpleecs/core.py:10-15 | a new component has its type and is bound to no entity |
| `Core.System.constructor` | simpleecs/core.py:46 | a new system has its type and has received no call |
| `Core.System.InitComponents` | simpleecs/core.py:47-48 | the base hook does nothing to the world; the call and its map are recorded |
| `Core.System.DestroyComponents` | simpleecs/core.py:50-51 | the base hook does nothing to the world; the call and its map are recorded |
| `Core.System.Update` | simpleecs/core.py:53-54 | the base hook does nothing to the world; the call, `dt` and its map are recorded |
| `Core.Entity.constructor` | simpleecs/core.py:25-27 | a new entity belongs to the given world and has no guid |
| `Core.Entity.AddComponent` | simpleecs/core.py:33-34 | does what the world's `add_component` does for this entity |
| `Core.Entity.RemoveComponent` | simpleecs/core.py:36-37 | does what the world's `remove_component` does |
| `Core.Entity.GetComponent` | simpleecs/core.py:39-40 | the world's answer: the single match, `ValueError` when there is none, `RuntimeError` when there are several |
| `Core.Entity.HasComponent` | simpleecs/core.py:42-43 | true exactly when the world lists a component of the type for this entity |
| `Core.World.constructor` | simpleecs/core.py:62-69 | a new world has no entity, no system, no component and a guid counter at 0 |
| `Core.World.CreateEntity` | simpleecs/core.py:71-79 | the new entity gets the counter's value as its guid, which no earlier entity has, and the counter moves on by one; every given component is bound to the entity and staged in the given order; nothing else changes |
| `Core.World.AddEntity` | simpleecs/core.py:81-84 | the entity takes the counter's value, joins the entity set and the counter moves on by one; no other entity's guid changes |
| `Core.World.MineOwnedBy` | simpleecs/core.py:93 | the set of the entity's components of a type names, on every list drawn from that type's lists, exactly the components whose owner guid is the entity's |
| `Core.World.RemoveEntity` | simpleecs/core.py:86-95 | an unknown entity raises `KeyError` and changes nothing; otherwise the entity leaves the entity set and joins the recently-dead set, and each type's lists become `Staging.Purge` of the old ones; see the `Staging` lemmas for what that leaves |
| `Core.World.SweepBoth` | simpleecs/core.py:88-94 | the pass over `_new_components` then over `_components` leaves each type's lists as `Staging.Purge` says |
| `Core.World.SweepPass` | simpleecs/core.py:89-94 | one pass over every type of one dictionary: each type's three lists are the comprehension's result, `Staging.SweepLive`. This includes what `remove_component` does to the other dictionary and to the dead lists. The world's other fields are untouched |
| `Core.World.SweepType` | simpleecs/core.py:90-94 | the comprehension over one type's list, walking that list by index while it shrinks, gives `Staging.SweepLive`; other types are untouched |
| `Core.World.SweepAt` | simpleecs/core.py:91-93 | one turn of the comprehension is one step of `Staging.SweepLive`, and the walked list does not grow |
| `Core.World.RemoveEntityFromCopies` | simpleecs/core.py:86-95 | the corrected `remove_entity` gives the same result and the same set changes, with each type's lists as `Staging.PurgeFromCopies`; afterwards the entity has no component of any type, and each of its components that was live or staged is in the dead list of its type |
| `Core.World.RescanBoth` | simpleecs/core.py:88-94 | both corrected passes leave each type's lists as `Staging.PurgeFromCopies` says |
| `Core.World.RescanPass` | simpleecs/core.py:89-94 | one corrected pass over every type of one dictionary gives `Staging.Rescan` of each type's lists over the old list |
| `Core.World.RescanType` | simpleecs/core.py:90-94 | the corrected comprehension over one type walks a copy of the list and gives `Staging.Rescan` |
| `Core.World.RescanOne` | simpleecs/core.py:91-93 | one turn over the copy is one step of `Staging.Rescan` |
| `Core.World.ClearedFrom` | simpleecs/core.py:155-161 | after the corrected passes, `get_components` finds nothing of the entity's in the type's lists |
| `Core.World.AddSystem` | simpleecs/core.py:97-102 | a second system of a registered type raises `DuplicateSystemException` and changes nothing; otherwise the system is registered under its type and handed the live components |
| `Core.World.HasSystem` | simpleecs/core.py:104-105 | true exactly when `get_system` succeeds |
| `Core.World.GetSystem` | simpleecs/core.py:107-110 | the registered system when the type is registered, otherwise `KeyError` |
| `Core.World.RemoveSystem` | simpleecs/core.py:112-115 | the registry loses exactly that type, or `KeyError` is raised when it is not registered; nothing else changes |
| `Core.World.AddComponent` | simpleecs/core.py:117-120 | the component is bound to the entity and appended to the staged list of its type; nothing else changes; a component in neither list becomes the last of the entity's components of that type |
| `Core.World.StagedLast` | simpleecs/core.py:117-120 | a component bound to the entity and appended to the staged list, with no other component changed, ends the entity's `get_components` list |
| `Core.World.RemoveComponent` | simpleecs/core.py:122-139 | `KeyError` exactly when the component is in neither list of its type; its type's lists become `Staging.Discarded` of the old ones; no other type changes |
| `Core.World.GetComponent` | simpleecs/core.py:141-152 | `ValueError` exactly when the entity has no component of the type; `RuntimeError` exactly when it has more than one; otherwise the one it has |
| `Core.World.GetComponents` | simpleecs/core.py:154-161 | every component returned is live or staged, of the type and owned by the entity; every such component is returned |
| `Core.World.HasComponent` | simpleecs/core.py:163-164 | true exactly when some live or staged component of the type is owned by the entity |
| `Core.World.Update` | simpleecs/core.py:166-182 | every system receives the old staged map, then the old dead map, then `dt` with the committed live map; the live lists are extended by the staged ones; staging, dead maps and the recently-dead set are empty afterwards |
| `Core.World.Announce` | simpleecs/core.py:167-173 | every registered system receives `init_components` with the staged map and then `destroy_components` with the dead map |
| `Core.World.Commit` | simpleecs/core.py:175-179 | the live map is the commit of the staged one; staging, dead maps and the recently-dead set are cleared |
| `Core.World.CommitNew` | simpleecs/core.py:175-176 | each type's live list is extended by its staged list; nothing else changes |
| `Core.World.Broadcast` | simpleecs/core.py:181-182 | every registered system receives `update` with `dt` and the live map |
| `Scenarios.TallyAppend` | tests/test_simpleecs.py:24-30 | the counting system's count is additive over the calls it receives |
| `Scenarios.UpdateTally` | tests/test_simpleecs.py:24-33 | one `update` raises the count by the staged and lowers it by the dead components of the counted type |
| `Scenarios.Delta` | tests/test_simpleecs.py:24-33 | definition: what one call does to `num_components` of the counting system. `init_components` adds the number of counted components handed in, `destroy_components` subtracts it, and `update` adds nothing |
| `Scenarios.Tally` | tests/test_simpleecs.py:19-33 | definition: `num_components` after a sequence of calls, the sum of `Delta` over them from 0 |
| `Scenarios.PurgeLone` | tests/test_simpleecs.py:59 | removing the entity whose single component is the type's only live one moves that component to the dead list |
| `Scenarios.Found` | tests/test_simpleecs.py:50 | `create_entity()` on a new world gives a world whose one entity is the new one, with no dead entity, no system and no component |
| `Scenarios.Populate` | tests/test_simpleecs.py:51 | `entity.add_component` stages the component, bound to the entity |
| `Scenarios.Setup` | tests/test_simpleecs.py:49-52 | `add_system` after staging hands the counting system the still empty live map |
| `Scenarios.Step` | tests/test_simpleecs.py:56-57 | `update(0)` commits, clears the staging and moves the count by the staged components minus the dead ones |
| `Scenarios.Bury` | tests/test_simpleecs.py:59-60 | `remove_entity` after the first update leaves the component as the only dead one of its type |
| `Scenarios.InitDestroyScenario` | tests/test_simpleecs.py:48-65 | the count is 0 after `add_system`, 1 after the first `update`, then 0 and still 0 |
| `Scenarios.RegistryScenario` | tests/test_simpleecs.py:36-41 | the system is registered after `add_system` and not after `remove_system`; `get_system` then raises `KeyError`; it can be added again, and a second system of the same type is refused |
| `Scenarios.GuidScenario` | simpleecs/core.py:81-84 | guids are handed out as 0, 1, 2, and a removed entity's guid is not reused |
| `Scenarios.Enlist` | simpleecs/core.py:71-79 | `create_entity` with two components of one type stages them in order, both bound to the entity |
| `Scenarios.TwoStaged` | simpleecs/core.py:75-77 | two components of one type are staged in their given order |
| `Scenarios.Neighbours` | simpleecs/core.py:175-176 | after one update, those two components sit side by side in the live list |
| `Scenarios.BothMine` | simpleecs/core.py:93 | both of them are the entity's components |
| `Scenarios.NeighbourScenario` | simpleecs/core.py:86-95 | after `remove_entity` as written the entity still has a component of that type; after the corrected version it has none |

## Left out

- The `Component` decorator (simpleecs/core.py:10-15) is not modelled. A component is a `Core.Component` object with a type key and an owner. Dataclass fields carry no behaviour here.
- The reverse references are not modelled as weak references: `Entity._world` and the component-to-entity link are plain references. Garbage collection is not modelled, so neither is the `AttributeError` the comprehensions would raise on a component whose entity was collected.
- A component stores its owner's guid when it is bound. The source reads the guid through the entity each time. The two agree because the private `_add_entity` alone sets a guid, and only on a fresh entity.
- A `defaultdict` creates an empty list for a key it is asked about. The model's reads leave the maps unchanged. This is visible only as extra keys with empty lists in a map handed to a system.
- Systems are given the map as a value at the time of the call. The source hands over the world's own dictionaries, which a system could keep and watch change, or mutate. Hooks that mutate the world are not modelled; the base hooks do nothing.
- Dictionary and set iteration order is not modelled. The model picks the next system or type arbitrarily, and every contract holds whatever the order. `Core.World.Update`, `Core.World.Announce` and `Core.World.Broadcast` state what each system receives, not the order in which systems are called.
- `dt` is an uninterpreted `real`; no arithmetic is done on it.
- Exception messages and their formatting are not modelled; only the exception's class is.
- An exception inside `remove_entity`'s comprehension cannot happen in the model, since `remove_component` is called only on components found in a list.
- `create_entity(components=None)` is `CreateEntity` with the empty sequence; `None` and `[]` behave alike in the source.
- The tests' `CountingSystem` class is not modelled as a class. Its count is `Scenarios.Tally`, computed from the calls a `Core.System` records.
- `test_update` (tests/test_simpleecs.py:44-45) is covered by `Core.World.Update`'s contract rather than by a scenario of its own. The tests' `ECSManager` name is taken to be `World`.
- `simpleecs/components.py`, `simpleecs/systems.py`, `benchmark.py` and `setup.py` are not part of this model.
- Core.World.AddComponent: states its effect on `get_components` only for a component in neither list of its type. Re-adding a component that is already filed is covered only by the full new state.
- Staging.PurgeFromCopiesClears: states that the dead list keeps its old contents, gains only the entity's components, and contains every one of them that was live or staged. It does not state the order in which they are appended. Nor does it state how often each appears: a component held in both lists is filed once per removal.

## Findings

| source | as written | input that shows it | evidently intended | confidence | as-written member | corrected member |
|---|---|---|---|---|---|---|
| simpleecs/core.py:90-94 | the comprehension walks `compdict[typeid]` while `remove_component` removes from that same list, so the element right after each removed one is never visited | an entity that owns two components of one type side by side in a list, e.g. `_components[T] == [a, b]`: after `remove_entity`, `b` is still live and `has_component(entity, T)` is true | every component of the removed entity leaves `_components` and `_new_components` and is filed dead | not executed (shown by proof) | `Scenarios.NeighbourScenario` | `Core.World.RemoveEntityFromCopies` |

The as-written behaviour is `Core.World.RemoveEntity`, with the per-type result `Staging.Purge`. The test scenarios use it because it is the code as written. `Staging.PurgeSkipsNeighbour` shows the skipped component on the lists of one type. The corrected operation walks a copy of each list. `Staging.PurgeFromCopiesClears` proves it removes all of the entity's components, and its contract says the entity has none left of any type. `Staging.PurgeMatchesCopies` shows the two agree whenever the entity has at most one component per list. That case covers every entity the repository's tests remove.
