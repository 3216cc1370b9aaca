/** The three lists the world keeps for ONE component type, and what the
    world's removal operations do to them.

    For a type `t`, `live` is `_components[t]`, `added` is
    `_new_components[t]` and `dead` is `_dead_components[t]`. Every
    component in these lists has type `t` (the world only ever files a
    component under its own type), so `remove_component` and the loop in
    `remove_entity` touch the three lists of one type and no others: what
    they do can be stated type by type, and that is what this module does.

    The components belonging to the entity being removed are given as the
    set `mine`; the world passes the set of components whose owner guid is
    that entity's guid. */
module Staging {
  import opened PyList

  datatype Partitions<T> = Partitions(live: seq<T>, added: seq<T>, dead: seq<T>)

  /** The same lists with the roles of `live` and `added` exchanged: the
      first pass of `remove_entity` walks `added` exactly as the second
      walks `live`. */
  function Flip<T>(p: Partitions<T>): Partitions<T>
  {
    Partitions(p.added, p.live, p.dead)
  }

  /** `remove_component` finds the component (in `live` or in `added`). */
  predicate Holds<T(==)>(p: Partitions<T>, c: T)
  {
    c in p.live || c in p.added
  }

  /** `remove_component(c)` on the lists of `c`'s type: the first occurrence
      of `c` leaves `live` and `added` (each list that holds it); if `c` was
      found it is appended once to `dead`, otherwise the call raises
      `KeyError` and nothing changes. */
  function Discarded<T(==)>(p: Partitions<T>, c: T): (r: Partitions<T>)
    ensures !Holds(p, c) ==> r == p
    ensures Holds(p, c) ==> r.dead == p.dead + [c]
  {
    Partitions(RemoveFirst(p.live, c), RemoveFirst(p.added, c),
               if Holds(p, c) then p.dead + [c] else p.dead)
  }

  /** `remove_component` takes exactly one copy of `c` out of each list
      that holds it. */
  lemma DiscardedBag<T>(p: Partitions<T>, c: T)
    ensures multiset(Discarded(p, c).live) == multiset(p.live) - multiset{c}
    ensures multiset(Discarded(p, c).added) == multiset(p.added) - multiset{c}
  {
    RemoveFirstMultiset(p.live, c);
    RemoveFirstMultiset(p.added, c);
  }

  lemma DiscardedFlip<T>(p: Partitions<T>, c: T)
    ensures Discarded(Flip(p), c) == Flip(Discarded(p, c))
  {
  }

  // ---------------------------------------------------------------------
  // remove_entity as written
  // ---------------------------------------------------------------------

  /** One pass of `remove_entity` over `live`, from position `i` on. Python's
      list iterator reads `live[i]` and moves to `i + 1`; when the element
      is the entity's, `remove_component` shrinks the very list being
      walked, so the element that slid into position `i` is never looked
      at. */
  function SweepLive<T(==)>(p: Partitions<T>, mine: set<T>, i: nat): Partitions<T>
    decreases |p.live| - i
  {
    if i >= |p.live| then p
    else if p.live[i] in mine then SweepLive(Discarded(p, p.live[i]), mine, i + 1)
    else SweepLive(p, mine, i + 1)
  }

  /** The same pass over `added` (the first pass of `remove_entity`). */
  function SweepAdded<T(==)>(p: Partitions<T>, mine: set<T>, i: nat): Partitions<T>
  {
    Flip(SweepLive(Flip(p), mine, i))
  }

  /** `remove_entity` on the lists of one type: the pass over `added`, then
      the pass over `live`. */
  function Purge<T(==)>(p: Partitions<T>, mine: set<T>): Partitions<T>
  {
    SweepLive(SweepAdded(p, mine, 0), mine, 0)
  }

  // ---------------------------------------------------------------------
  // remove_entity over copies of the lists
  // ---------------------------------------------------------------------

  /** A pass that walks a copy `snap` of a list, calling `remove_component`
      for each of the entity's components in it: removals no longer move the
      elements still to be visited. */
  function Rescan<T(==)>(p: Partitions<T>, mine: set<T>, snap: seq<T>): Partitions<T>
    decreases snap
  {
    if snap == [] then p
    else Rescan(if snap[0] in mine then Discarded(p, snap[0]) else p, mine, snap[1..])
  }

  /** `remove_entity` with each comprehension iterating over a copy of the
      list it removes from, first for `added`, then for `live`. */
  function PurgeFromCopies<T(==)>(p: Partitions<T>, mine: set<T>): Partitions<T>
  {
    var q := Flip(Rescan(Flip(p), mine, p.added));
    Rescan(q, mine, q.live)
  }

  // ---------------------------------------------------------------------
  // Filters
  // ---------------------------------------------------------------------

  /** The elements of `s` that are in `mine`, in order. */
  function Select<T(==)>(s: seq<T>, mine: set<T>): (r: seq<T>)
    ensures forall j :: 0 <= j < |r| ==> r[j] in mine
  {
    if s == [] then [] else (if s[0] in mine then [s[0]] else []) + Select(s[1..], mine)
  }

  /** The elements of `s` that are not in `mine`, in order. */
  function Drop<T(==)>(s: seq<T>, mine: set<T>): (r: seq<T>)
    ensures forall j :: 0 <= j < |r| ==> r[j] !in mine
  {
    if s == [] then [] else (if s[0] !in mine then [s[0]] else []) + Drop(s[1..], mine)
  }

  ghost function Elems<T>(s: seq<T>): set<T>
  {
    set x | x in s
  }

  /** No two positions of `s` hold elements of `mine`. */
  ghost predicate AtMostOneOwned<T>(s: seq<T>, mine: set<T>)
  {
    forall j, k :: 0 <= j < k < |s| && s[j] in mine ==> s[k] !in mine
  }

  ghost predicate NoneOwned<T>(s: seq<T>, mine: set<T>)
  {
    forall j :: 0 <= j < |s| ==> s[j] !in mine
  }

  /** `d` is `d0` followed by elements of `mine` only. */
  ghost predicate Extends<T>(d0: seq<T>, d: seq<T>, mine: set<T>)
  {
    |d0| <= |d| && d[..|d0|] == d0 && forall k :: |d0| <= k < |d| ==> d[k] in mine
  }

  lemma ExtendsTrans<T>(d0: seq<T>, d1: seq<T>, d2: seq<T>, mine: set<T>)
    requires Extends(d0, d1, mine) && Extends(d1, d2, mine)
    ensures Extends(d0, d2, mine)
  {
    assert d2[..|d0|] == d2[..|d1|][..|d0|];
  }

  lemma {:induction false} FilterAppend<T>(a: seq<T>, b: seq<T>, mine: set<T>)
    ensures Drop(a + b, mine) == Drop(a, mine) + Drop(b, mine)
    ensures Select(a + b, mine) == Select(a, mine) + Select(b, mine)
  {
    if a == [] {
      assert a + b == b;
    } else {
      assert (a + b)[0] == a[0];
      assert (a + b)[1..] == a[1..] + b;
      FilterAppend(a[1..], b, mine);
    }
  }

  lemma {:induction false} FilterNone<T>(s: seq<T>, mine: set<T>)
    requires NoneOwned(s, mine)
    ensures Drop(s, mine) == s && Select(s, mine) == []
  {
    if s != [] {
      FilterNone(s[1..], mine);
    }
  }

  /** A list with exactly one element of `mine`, at position `k`. */
  lemma FilterOne<T>(s: seq<T>, mine: set<T>, k: nat)
    requires k < |s| && s[k] in mine
    requires forall j :: 0 <= j < |s| && j != k ==> s[j] !in mine
    ensures Drop(s, mine) == s[..k] + s[k + 1..] && Select(s, mine) == [s[k]]
  {
    SlicesNoneOwned(s, mine, k);
    DropOne(s, mine, k);
    SelectOne(s, mine, k);
  }

  lemma DropOne<T>(s: seq<T>, mine: set<T>, k: nat)
    requires k < |s| && s[k] in mine
    requires NoneOwned(s[..k], mine) && NoneOwned(s[k + 1..], mine)
    ensures Drop(s, mine) == s[..k] + s[k + 1..]
  {
    var a, b := s[..k], s[k + 1..];
    assert s == a + ([s[k]] + b);
    FilterNone(a, mine);
    FilterNone(b, mine);
    FilterAppend(a, [s[k]] + b, mine);
    FilterAppend([s[k]], b, mine);
  }

  lemma SelectOne<T>(s: seq<T>, mine: set<T>, k: nat)
    requires k < |s| && s[k] in mine
    requires NoneOwned(s[..k], mine) && NoneOwned(s[k + 1..], mine)
    ensures Select(s, mine) == [s[k]]
  {
    var a, b := s[..k], s[k + 1..];
    assert s == a + ([s[k]] + b);
    FilterNone(a, mine);
    FilterNone(b, mine);
    FilterAppend(a, [s[k]] + b, mine);
    FilterAppend([s[k]], b, mine);
  }

  /** The two sides of the one element of `mine` hold none. */
  lemma SlicesNoneOwned<T>(s: seq<T>, mine: set<T>, k: nat)
    requires k < |s|
    requires forall j :: 0 <= j < |s| && j != k ==> s[j] !in mine
    ensures NoneOwned(s[..k], mine) && NoneOwned(s[k + 1..], mine)
  {
    var a, b := s[..k], s[k + 1..];
    forall j | 0 <= j < |a| ensures a[j] !in mine {
      assert a[j] == s[j];
    }
    forall j | 0 <= j < |b| ensures b[j] !in mine {
      assert b[j] == s[k + 1 + j];
    }
  }

  lemma DropRemoveFirst<T>(s: seq<T>, c: T, mine: set<T>)
    requires c in mine
    ensures Drop(RemoveFirst(s, c), mine) == Drop(s, mine)
  {
    if c in s {
      var k := IndexOf(s, c);
      assert s == s[..k] + ([c] + s[k + 1..]);
      FilterAppend(s[..k], [c] + s[k + 1..], mine);
      FilterAppend([c], s[k + 1..], mine);
      FilterAppend(s[..k], s[k + 1..], mine);
    }
  }

  // ---------------------------------------------------------------------
  // What every pass keeps
  // ---------------------------------------------------------------------

  /** A pass never touches a component that is not the entity's, keeps the
      others in their order, and only appends the entity's components to
      `dead`. */
  lemma {:induction false} SweepLiveKeeps<T>(p: Partitions<T>, mine: set<T>, i: nat)
    ensures Drop(SweepLive(p, mine, i).live, mine) == Drop(p.live, mine)
    ensures Drop(SweepLive(p, mine, i).added, mine) == Drop(p.added, mine)
    ensures Extends(p.dead, SweepLive(p, mine, i).dead, mine)
    decreases |p.live| - i
  {
    if i < |p.live| {
      var c := p.live[i];
      if c in mine {
        var q := Discarded(p, c);
        SweepLiveKeeps(q, mine, i + 1);
        DropRemoveFirst(p.live, c, mine);
        DropRemoveFirst(p.added, c, mine);
        ExtendsTrans(p.dead, q.dead, SweepLive(q, mine, i + 1).dead, mine);
      } else {
        SweepLiveKeeps(p, mine, i + 1);
      }
    }
  }

  /** A pass only ever takes components out of the two lists. */
  lemma {:induction false} SweepLiveWithin<T>(p: Partitions<T>, mine: set<T>, i: nat)
    ensures forall x :: x in SweepLive(p, mine, i).live ==> x in p.live
    ensures forall x :: x in SweepLive(p, mine, i).added ==> x in p.added
    decreases |p.live| - i
  {
    if i < |p.live| {
      var c := p.live[i];
      if c in mine {
        var q := Discarded(p, c);
        SweepLiveWithin(q, mine, i + 1);
        forall x | x in q.live ensures x in p.live {
          RemoveFirstSubset(p.live, c, x);
        }
        forall x | x in q.added ensures x in p.added {
          RemoveFirstSubset(p.added, c, x);
        }
      } else {
        SweepLiveWithin(p, mine, i + 1);
      }
    }
  }

  /** After the pass over `added`, `live` holds only components it held
      before. */
  lemma SweepAddedWithin<T>(p: Partitions<T>, mine: set<T>)
    ensures forall x :: x in SweepAdded(p, mine, 0).live ==> x in p.live
  {
    SweepLiveWithin(Flip(p), mine, 0);
  }

  lemma {:induction false} SweepNone<T>(p: Partitions<T>, mine: set<T>, i: nat)
    requires forall j :: i <= j < |p.live| ==> p.live[j] !in mine
    ensures SweepLive(p, mine, i) == p
    decreases |p.live| - i
  {
    if i < |p.live| {
      SweepNone(p, mine, i + 1);
    }
  }

  lemma {:induction false} SweepSkip<T>(p: Partitions<T>, mine: set<T>, i: nat, k: nat)
    requires i <= k <= |p.live|
    requires forall j :: i <= j < k ==> p.live[j] !in mine
    ensures SweepLive(p, mine, i) == SweepLive(p, mine, k)
    decreases k - i
  {
    if i < k {
      SweepSkip(p, mine, i + 1, k);
    }
  }

  /** With a single component of the entity in `live`, at position `k`, the
      pass removes exactly that one. */
  lemma SweepOne<T>(p: Partitions<T>, mine: set<T>, k: nat)
    requires k < |p.live| && p.live[k] in mine
    requires forall j :: 0 <= j < |p.live| && j != k ==> p.live[j] !in mine
    ensures SweepLive(p, mine, 0) == Discarded(p, p.live[k])
    ensures Discarded(p, p.live[k]).live == Drop(p.live, mine)
  {
    var c := p.live[k];
    SweepSkip(p, mine, 0, k);
    assert IndexOf(p.live, c) == k;
    var q := Discarded(p, c);
    RemoveFirstAt(p.live, c);
    assert q.live == p.live[..k] + p.live[k + 1..];
    SweepNone(q, mine, k + 1);
    FilterOne(p.live, mine, k);
  }

  // ---------------------------------------------------------------------
  // remove_entity when the entity has at most one component per list
  // ---------------------------------------------------------------------

  /** Where `live` holds the entity's component `y` and `added` holds none. */
  lemma PurgeLiveOnly<T>(p: Partitions<T>, mine: set<T>, k: nat)
    requires NoneOwned(p.added, mine)
    requires k < |p.live| && p.live[k] in mine
    requires forall j :: 0 <= j < |p.live| && j != k ==> p.live[j] !in mine
    ensures Purge(p, mine) == Partitions(Drop(p.live, mine), Drop(p.added, mine),
                                         p.dead + Select(p.added, mine) + Select(p.live, mine - Elems(p.added)))
  {
    var y := p.live[k];
    SweepNone(Flip(p), mine, 0);
    assert SweepAdded(p, mine, 0) == p;
    SweepOne(p, mine, k);
    FilterNone(p.added, mine);
    assert y !in p.added;
    assert RemoveFirst(p.added, y) == p.added;
    FilterOne(p.live, mine - Elems(p.added), k);
  }

  /** Where neither list holds a component of the entity. */
  lemma PurgeNeither<T>(p: Partitions<T>, mine: set<T>)
    requires NoneOwned(p.added, mine) && NoneOwned(p.live, mine)
    ensures Purge(p, mine) == Partitions(Drop(p.live, mine), Drop(p.added, mine),
                                         p.dead + Select(p.added, mine) + Select(p.live, mine - Elems(p.added)))
  {
    SweepNone(Flip(p), mine, 0);
    SweepNone(p, mine, 0);
    FilterNone(p.added, mine);
    FilterNone(p.live, mine);
    FilterNone(p.live, mine - Elems(p.added));
  }

  /** The pass over `added` when it holds exactly one of the entity's
      components, at position `m`: that one is discarded. */
  lemma AddedPass<T>(p: Partitions<T>, mine: set<T>, m: nat)
    requires m < |p.added| && p.added[m] in mine
    requires forall j :: 0 <= j < |p.added| && j != m ==> p.added[j] !in mine
    ensures SweepAdded(p, mine, 0) == Discarded(p, p.added[m])
    ensures Discarded(p, p.added[m]).added == Drop(p.added, mine)
    ensures Select(p.added, mine) == [p.added[m]]
  {
    SweepOne(Flip(p), mine, m);
    DiscardedFlip(p, p.added[m]);
    FilterOne(p.added, mine, m);
  }

  /** The component found in `added` was in `live` too: discarding it
      emptied `live` of the entity's components, so the second pass finds
      nothing. */
  lemma LiveShared<T>(p: Partitions<T>, mine: set<T>, m: nat)
    requires AtMostOneOwned(p.live, mine)
    requires m < |p.added| && p.added[m] in mine && p.added[m] in p.live
    ensures SweepLive(Discarded(p, p.added[m]), mine, 0) == Discarded(p, p.added[m])
    ensures Discarded(p, p.added[m]).live == Drop(p.live, mine)
    ensures Select(p.live, mine - Elems(p.added)) == []
  {
    var x := p.added[m];
    var k := IndexOf(p.live, x);
    var p1 := Discarded(p, x);
    assert forall j :: 0 <= j < |p.live| && j != k ==> p.live[j] !in mine;
    assert p1.live == Drop(p.live, mine) by {
      FilterOne(p.live, mine, k);
      RemoveFirstAt(p.live, x);
    }
    SweepNone(p1, mine, 0);
    assert Select(p.live, mine - Elems(p.added)) == [] by {
      assert x in Elems(p.added);
      FilterNone(p.live, mine - Elems(p.added));
    }
  }

  /** The component found in `added` was not in `live`, which holds another
      of the entity's components at position `k`: the second pass discards
      that one. */
  lemma LiveOther<T>(p: Partitions<T>, mine: set<T>, m: nat, k: nat)
    requires AtMostOneOwned(p.live, mine)
    requires m < |p.added| && p.added[m] in mine && p.added[m] !in p.live
    requires forall j :: 0 <= j < |p.added| && j != m ==> p.added[j] !in mine
    requires k < |p.live| && p.live[k] in mine
    ensures var p1 := Discarded(p, p.added[m]);
      SweepLive(p1, mine, 0) == Discarded(p1, p.live[k])
      && Discarded(p1, p.live[k]).live == Drop(p.live, mine)
      && Discarded(p1, p.live[k]).added == p1.added
    ensures Select(p.live, mine - Elems(p.added)) == [p.live[k]]
  {
    var p1 := Discarded(p, p.added[m]);
    var y := p.live[k];
    assert p1.live == p.live;
    assert forall j :: 0 <= j < |p1.live| && j != k ==> p1.live[j] !in mine;
    SweepOne(p1, mine, k);
    assert y !in p.added;
    RemoveFirstMultiset(p.added, p.added[m]);
    assert y !in multiset(p1.added);
    assert y !in Elems(p.added);
    FilterOne(p.live, mine - Elems(p.added), k);
  }

  /** The component found in `added` was not in `live`, and `live` holds
      none of the entity's: the second pass changes nothing. */
  lemma LiveNone<T>(p: Partitions<T>, mine: set<T>, m: nat)
    requires NoneOwned(p.live, mine)
    requires m < |p.added| && p.added[m] !in p.live
    ensures SweepLive(Discarded(p, p.added[m]), mine, 0) == Discarded(p, p.added[m])
    ensures Discarded(p, p.added[m]).live == Drop(p.live, mine)
    ensures Select(p.live, mine - Elems(p.added)) == []
  {
    var p1 := Discarded(p, p.added[m]);
    assert p1.live == p.live;
    SweepNone(p1, mine, 0);
    FilterNone(p.live, mine);
    FilterNone(p.live, mine - Elems(p.added));
  }

  /** Where `added` holds the entity's component `x`, at position `m`. */
  lemma PurgeAddedOwned<T>(p: Partitions<T>, mine: set<T>, m: nat)
    requires AtMostOneOwned(p.live, mine)
    requires m < |p.added| && p.added[m] in mine
    requires forall j :: 0 <= j < |p.added| && j != m ==> p.added[j] !in mine
    ensures Purge(p, mine) == Partitions(Drop(p.live, mine), Drop(p.added, mine),
                                         p.dead + Select(p.added, mine) + Select(p.live, mine - Elems(p.added)))
  {
    var x := p.added[m];
    AddedPass(p, mine, m);
    if x in p.live {
      LiveShared(p, mine, m);
    } else if k :| 0 <= k < |p.live| && p.live[k] in mine {
      LiveOther(p, mine, m, k);
    } else {
      LiveNone(p, mine, m);
    }
  }

  /** `remove_entity` as written, for an entity with at most one component
      in each of the type's `live` and `added` lists: afterwards neither
      list holds any component of the entity, every other component stays
      where it was, and `dead` gains the entity's component from `added`
      followed by its component from `live`, the latter only if it was not
      the same object. */
  lemma PurgeSingles<T>(p: Partitions<T>, mine: set<T>)
    requires AtMostOneOwned(p.live, mine) && AtMostOneOwned(p.added, mine)
    ensures Purge(p, mine) == Partitions(Drop(p.live, mine), Drop(p.added, mine),
                                         p.dead + Select(p.added, mine) + Select(p.live, mine - Elems(p.added)))
  {
    if m :| 0 <= m < |p.added| && p.added[m] in mine {
      PurgeAddedOwned(p, mine, m);
    } else if k :| 0 <= k < |p.live| && p.live[k] in mine {
      PurgeLiveOnly(p, mine, k);
    } else {
      PurgeNeither(p, mine);
    }
  }

  /** The iteration hazard: two of the entity's components side by side in
      `live`. The first is removed, the second slides into its position and
      is skipped, so it stays live although the entity is gone. */
  lemma PurgeSkipsNeighbour<T>(a: T, b: T)
    requires a != b
    ensures Purge(Partitions([a, b], [], []), {a, b}) == Partitions([b], [], [a])
  {
    var p := Partitions([a, b], [], []);
    assert SweepAdded(p, {a, b}, 0) == p;
    assert RemoveFirst([a, b], a) == [b];
    assert Discarded(p, a) == Partitions([b], [], [a]);
    assert SweepLive(p, {a, b}, 0) == SweepLive(Partitions([b], [], [a]), {a, b}, 1);
  }

  // ---------------------------------------------------------------------
  // remove_entity over copies: every component of the entity goes
  // ---------------------------------------------------------------------

  /** The bag condition of `RescanClears` survives one step of the walk. */
  lemma RescanStep<T>(p: Partitions<T>, mine: set<T>, snap: seq<T>)
    requires snap != []
    requires forall x :: x in mine ==> multiset(p.live)[x] == multiset(snap)[x]
    ensures snap[0] in mine ==> Holds(p, snap[0])
    ensures var q := if snap[0] in mine then Discarded(p, snap[0]) else p;
      forall x :: x in mine ==> multiset(q.live)[x] == multiset(snap[1..])[x]
  {
    var c := snap[0];
    assert snap == [c] + snap[1..];
    assert multiset(snap) == multiset{c} + multiset(snap[1..]);
    DiscardedBag(p, c);
    if c in mine {
      assert multiset(p.live)[c] > 0;
    }
  }

  /** Walking a copy whose entity components occur exactly as often as in
      `live` empties `live` of them and never puts one back into `added`. */
  lemma {:induction false} RescanClears<T>(p: Partitions<T>, mine: set<T>, snap: seq<T>)
    requires forall x :: x in mine ==> multiset(p.live)[x] == multiset(snap)[x]
    ensures NoneOwned(Rescan(p, mine, snap).live, mine)
    ensures NoneOwned(p.added, mine) ==> NoneOwned(Rescan(p, mine, snap).added, mine)
    decreases snap
  {
    if snap == [] {
      forall j | 0 <= j < |p.live| ensures p.live[j] !in mine {
        assert p.live[j] in multiset(p.live);
      }
    } else {
      var c := snap[0];
      RescanStep(p, mine, snap);
      if c in mine {
        var q := Discarded(p, c);
        forall j | 0 <= j < |q.added| ensures q.added[j] in p.added {
          RemoveFirstSubset(p.added, c, q.added[j]);
        }
        RescanClears(q, mine, snap[1..]);
      } else {
        RescanClears(p, mine, snap[1..]);
      }
    }
  }

  /** The walk over a copy, resumed at position `i`, takes one step. */
  lemma RescanAt<T>(p: Partitions<T>, mine: set<T>, snap: seq<T>, i: nat)
    requires i < |snap|
    ensures Rescan(p, mine, snap[i..])
      == Rescan(if snap[i] in mine then Discarded(p, snap[i]) else p, mine, snap[i + 1..])
  {
    assert snap[i..][0] == snap[i];
    assert snap[i..][1..] == snap[i + 1..];
  }

  /** Walking a copy only ever removes from `live` and `added`. */
  lemma {:induction false} RescanWithin<T>(p: Partitions<T>, mine: set<T>, snap: seq<T>)
    ensures forall x :: x in Rescan(p, mine, snap).live ==> x in p.live
    ensures forall x :: x in Rescan(p, mine, snap).added ==> x in p.added
    decreases snap
  {
    if snap != [] {
      var c := snap[0];
      if c in mine {
        var q := Discarded(p, c);
        RescanWithin(q, mine, snap[1..]);
        forall x | x in q.live ensures x in p.live {
          RemoveFirstSubset(p.live, c, x);
        }
        forall x | x in q.added ensures x in p.added {
          RemoveFirstSubset(p.added, c, x);
        }
      } else {
        RescanWithin(p, mine, snap[1..]);
      }
    }
  }

  /** What `Drop` keeps comes from the list and is not in `mine`. */
  lemma {:induction false} DropWithin<T>(s: seq<T>, mine: set<T>)
    ensures forall x :: x in Drop(s, mine) ==> x in s && x !in mine
  {
    if s != [] {
      DropWithin(s[1..], mine);
    }
  }

  /** Walking any copy keeps every component that is not the entity's, in
      order, and only appends the entity's components to `dead`. */
  lemma {:induction false} RescanKeeps<T>(p: Partitions<T>, mine: set<T>, snap: seq<T>)
    ensures Drop(Rescan(p, mine, snap).live, mine) == Drop(p.live, mine)
    ensures Drop(Rescan(p, mine, snap).added, mine) == Drop(p.added, mine)
    ensures Extends(p.dead, Rescan(p, mine, snap).dead, mine)
    decreases snap
  {
    if snap != [] {
      var c := snap[0];
      if c in mine {
        var q := Discarded(p, c);
        RescanKeeps(q, mine, snap[1..]);
        DropRemoveFirst(p.live, c, mine);
        DropRemoveFirst(p.added, c, mine);
        ExtendsTrans(p.dead, q.dead, Rescan(q, mine, snap[1..]).dead, mine);
      } else {
        RescanKeeps(p, mine, snap[1..]);
      }
    }
  }

  lemma NoneOwnedDrop<T>(s: seq<T>, mine: set<T>)
    requires NoneOwned(s, mine)
    ensures s == Drop(s, mine)
  {
    FilterNone(s, mine);
  }

  /** `x` sits in one of the three lists. */
  predicate Present<T(==)>(p: Partitions<T>, x: T)
  {
    x in p.live || x in p.added || x in p.dead
  }

  /** `remove_component` loses no component: one that was in some list
      still is, in `dead` when it was the one removed. */
  lemma DiscardedRetains<T>(p: Partitions<T>, c: T, x: T)
    requires Present(p, x)
    ensures Present(Discarded(p, c), x)
  {
    if x != c {
      RemoveFirstMultiset(p.live, c);
      RemoveFirstMultiset(p.added, c);
      assert x in p.live ==> x in multiset(RemoveFirst(p.live, c));
      assert x in p.added ==> x in multiset(RemoveFirst(p.added, c));
    }
  }

  /** Walking a copy loses no component either. */
  lemma {:induction false} RescanRetains<T>(p: Partitions<T>, mine: set<T>, snap: seq<T>, x: T)
    requires Present(p, x)
    ensures Present(Rescan(p, mine, snap), x)
    decreases snap
  {
    if snap != [] {
      if snap[0] in mine {
        DiscardedRetains(p, snap[0], x);
        RescanRetains(Discarded(p, snap[0]), mine, snap[1..], x);
      } else {
        RescanRetains(p, mine, snap[1..], x);
      }
    }
  }

  /** The corrected `remove_entity`, walking copies, leaves none of the
      entity's components in `live` or `added`, whatever their number or
      arrangement, keeps every other component in order, and files every
      one of the entity's components that was live or staged in `dead`. */
  lemma PurgeFromCopiesClears<T>(p: Partitions<T>, mine: set<T>)
    ensures PurgeFromCopies(p, mine).live == Drop(p.live, mine)
    ensures PurgeFromCopies(p, mine).added == Drop(p.added, mine)
    ensures Extends(p.dead, PurgeFromCopies(p, mine).dead, mine)
    ensures forall x :: x in mine && (x in p.live || x in p.added) ==> x in PurgeFromCopies(p, mine).dead
  {
    var q0 := Rescan(Flip(p), mine, p.added);
    RescanClears(Flip(p), mine, p.added);
    RescanKeeps(Flip(p), mine, p.added);
    var q := Flip(q0);
    var r := Rescan(q, mine, q.live);
    RescanClears(q, mine, q.live);
    RescanKeeps(q, mine, q.live);
    NoneOwnedDrop(r.live, mine);
    NoneOwnedDrop(r.added, mine);
    ExtendsTrans(p.dead, q.dead, r.dead, mine);
    forall x | x in mine && (x in p.live || x in p.added) ensures x in r.dead {
      RescanRetains(Flip(p), mine, p.added, x);
      RescanRetains(q, mine, q.live, x);
      DropWithin(p.live, mine);
      DropWithin(p.added, mine);
    }
  }

  /** With at most one of the entity's components in each list the hazard
      cannot strike: the code as written and the corrected walk leave the
      same live and staged lists. */
  lemma PurgeMatchesCopies<T>(p: Partitions<T>, mine: set<T>)
    requires AtMostOneOwned(p.live, mine) && AtMostOneOwned(p.added, mine)
    ensures Purge(p, mine).live == PurgeFromCopies(p, mine).live
    ensures Purge(p, mine).added == PurgeFromCopies(p, mine).added
  {
    PurgeSingles(p, mine);
    PurgeFromCopiesClears(p, mine);
  }
}
