/**
 The client-side bookkeeping of the Wayland `wl_registry` object: the list of
 globals the server has advertised. The registry starts empty, appends one
 record per `global` event, deletes the first record with a matching name on a
 `global_remove` event, and ignores every other event. A `global_remove` for a
 name the list does not hold makes the handler panic.

 The lock around the list and the decoding of raw wire messages are not
 modelled: events arrive here already typed, and the list is an immutable
 sequence threaded through pure transitions.
 */
module Registry {

  /** Rust's `u32`: the width of a global's name and version on the wire. */
  type U32 = x: int | 0 <= x < 0x1_0000_0000

  /** One server-advertised global: its numeric name, interface and version. */
  datatype Global = Global(name: U32, interface: string, version: U32)

  /** The registry events, as the protocol codec hands them to the handler. */
  datatype Event =
    | GlobalAdded(name: U32, interface: string, version: U32)
    | GlobalRemove(name: U32)
    | Other

  datatype Option<T> = None | Some(value: T)

  /** What one event does to the list: a new list, or a panic of the handler. */
  datatype Outcome = Handled(globals: seq<Global>) | Panicked

  predicate HasName(gs: seq<Global>, n: U32) {
    exists i :: 0 <= i < |gs| && gs[i].name == n
  }

  /** `i` is the least index of a global named `n`. */
  predicate FirstMatch(gs: seq<Global>, n: U32, i: int) {
    0 <= i < |gs| && gs[i].name == n &&
    forall j :: 0 <= j < i ==> gs[j].name != n
  }

  function Names(gs: seq<Global>): set<U32> {
    set g | g in gs :: g.name
  }

  /** The protocol's invariant: no two live globals share a name. */
  predicate UniqueNames(gs: seq<Global>) {
    forall i, j :: 0 <= i < j < |gs| ==> gs[i].name != gs[j].name
  }

  /** The number of globals named `n`. */
  function Count(gs: seq<Global>, n: U32): nat {
    if |gs| == 0 then 0
    else Count(gs[..|gs| - 1], n) + (if gs[|gs| - 1].name == n then 1 else 0)
  }

  /** The state of a freshly constructed registry. */
  function New(): (gs: seq<Global>)
    ensures forall n: U32 :: !HasName(gs, n)
    ensures Names(gs) == {}
  {
    []
  }

  /**
   The index of the first global named `n`, or `None` when there is none,
   as `Iterator::position` with a name comparison finds it.
   */
  function Position(gs: seq<Global>, n: U32): (r: Option<nat>)
    ensures r.Some? <==> HasName(gs, n)
    ensures r.Some? ==> FirstMatch(gs, n, r.value)
  {
    if |gs| == 0 then None
    else if gs[0].name == n then Some(0)
    else
      assert forall i :: 1 <= i < |gs| ==> gs[i] == gs[1..][i - 1];
      match Position(gs[1..], n)
      case None => None
      case Some(i) => Some(i + 1)
  }

  /** `Vec::push`: the new global goes last and nothing before it moves. */
  function Add(gs: seq<Global>, g: Global): (r: seq<Global>)
    ensures |r| == |gs| + 1
    ensures r[|gs|] == g
    ensures forall k :: 0 <= k < |gs| ==> r[k] == gs[k]
  {
    gs + [g]
  }

  /** `Vec::remove`: the global at `i` goes, the ones after it shift down by one. */
  function RemoveAt(gs: seq<Global>, i: nat): (r: seq<Global>)
    requires i < |gs|
    ensures |r| == |gs| - 1
    ensures forall k :: 0 <= k < i ==> r[k] == gs[k]
    ensures forall k :: i <= k < |r| ==> r[k] == gs[k + 1]
    ensures multiset(r) + multiset{gs[i]} == multiset(gs)
  {
    assert gs == gs[..i] + [gs[i]] + gs[i + 1..];
    gs[..i] + gs[i + 1..]
  }

  /**
   Reference definition of removal: walk the list and drop the first global
   named `n`; a list without such a global comes back unchanged.
   */
  function DeleteFirst(gs: seq<Global>, n: U32): seq<Global> {
    if |gs| == 0 then []
    else if gs[0].name == n then gs[1..]
    else [gs[0]] + DeleteFirst(gs[1..], n)
  }

  /** The registry's event handler, one event at a time. */
  function Handle(gs: seq<Global>, ev: Event): (r: Outcome)
    ensures ev.Other? ==> r == Handled(gs)
    ensures ev.GlobalAdded? ==>
      r.Handled? && |r.globals| == |gs| + 1 &&
      r.globals[..|gs|] == gs &&
      r.globals[|gs|] == Global(ev.name, ev.interface, ev.version)
    ensures ev.GlobalRemove? ==> (r.Panicked? <==> !HasName(gs, ev.name))
    ensures ev.GlobalRemove? && r.Handled? ==>
      |r.globals| == |gs| - 1 && r.globals == DeleteFirst(gs, ev.name)
  {
    match ev
    case GlobalAdded(n, iface, v) =>
      var r := Add(gs, Global(n, iface, v));
      assert r[..|gs|] == gs;
      Handled(r)
    case GlobalRemove(n) =>
      (match Position(gs, n)
       case None => Panicked
       case Some(i) =>
         DeleteFirstRemovesFirstMatch(gs, n, i);
         Handled(RemoveAt(gs, i)))
    case Other => Handled(gs)
  }

  /** The handler applied to each event in order, stopping at the first panic. */
  function Replay(gs: seq<Global>, evs: seq<Event>): Outcome
    decreases |evs|
  {
    if |evs| == 0 then Handled(gs)
    else match Handle(gs, evs[0])
      case Panicked => Panicked
      case Handled(next) => Replay(next, evs[1..])
  }

  /** The names live after `evs` when `live` were live before. */
  function LiveAfter(live: set<U32>, evs: seq<Event>): set<U32>
    decreases |evs|
  {
    if |evs| == 0 then live
    else match evs[0]
      case GlobalAdded(n, _, _) => LiveAfter(live + {n}, evs[1..])
      case GlobalRemove(n) => LiveAfter(live - {n}, evs[1..])
      case Other => LiveAfter(live, evs[1..])
  }

  /**
   A server that keeps the protocol's promises: it advertises only names that
   are not live and removes only names that are.
   */
  predicate WellFormed(live: set<U32>, evs: seq<Event>)
    decreases |evs|
  {
    if |evs| == 0 then true
    else match evs[0]
      case GlobalAdded(n, _, _) => n !in live && WellFormed(live + {n}, evs[1..])
      case GlobalRemove(n) => n in live && WellFormed(live - {n}, evs[1..])
      case Other => WellFormed(live, evs[1..])
  }

  // ---------------------------------------------------------------------------
  // Lemmas
  // ---------------------------------------------------------------------------

  /** The walk-and-drop definition deletes exactly the first match, by slicing. */
  lemma {:induction false} DeleteFirstRemovesFirstMatch(gs: seq<Global>, n: U32, i: int)
    requires FirstMatch(gs, n, i)
    ensures DeleteFirst(gs, n) == gs[..i] + gs[i + 1..]
    decreases |gs|
  {
    if gs[0].name == n {
      assert i == 0;
    } else {
      assert FirstMatch(gs[1..], n, i - 1);
      DeleteFirstRemovesFirstMatch(gs[1..], n, i - 1);
      assert gs[..i] == [gs[0]] + gs[1..][..i - 1];
      assert gs[i + 1..] == gs[1..][i..];
    }
  }

  lemma HasNameIffInNames(gs: seq<Global>, n: U32)
    ensures HasName(gs, n) <==> n in Names(gs)
  {
  }

  /** A `global_remove` for a name that is not live makes the handler panic. */
  lemma RemoveUnknownPanics(gs: seq<Global>, n: U32)
    requires n !in Names(gs)
    ensures Handle(gs, GlobalRemove(n)) == Panicked
  {
  }

  /**
   A `global_remove` of a live name drops exactly the first global with that
   name: earlier globals stay where they were, later ones shift down by one,
   and the multiset of globals loses just that record.
   */
  lemma RemoveDropsFirstMatch(gs: seq<Global>, n: U32, i: int)
    requires FirstMatch(gs, n, i)
    ensures Handle(gs, GlobalRemove(n)).Handled?
    ensures var r := Handle(gs, GlobalRemove(n)).globals;
      |r| == |gs| - 1 &&
      r == gs[..i] + gs[i + 1..] &&
      (forall k :: 0 <= k < i ==> r[k] == gs[k]) &&
      (forall k :: i <= k < |r| ==> r[k] == gs[k + 1]) &&
      multiset(r) + multiset{gs[i]} == multiset(gs)
  {
  }

  lemma {:induction false} CountPositiveWhenPresent(gs: seq<Global>, n: U32)
    requires HasName(gs, n)
    ensures Count(gs, n) >= 1
    decreases |gs|
  {
    var last := gs[|gs| - 1];
    if last.name != n {
      var i :| 0 <= i < |gs| && gs[i].name == n;
      assert gs[..|gs| - 1][i] == gs[i];
      CountPositiveWhenPresent(gs[..|gs| - 1], n);
    }
  }

  /**
   A `global` event does not deduplicate: advertising a name that is already
   present leaves one more global with that name, so at least two.
   */
  lemma AddKeepsDuplicates(gs: seq<Global>, n: U32, iface: string, v: U32)
    ensures Handle(gs, GlobalAdded(n, iface, v)).Handled?
    ensures var r := Handle(gs, GlobalAdded(n, iface, v)).globals;
      Count(r, n) == Count(gs, n) + 1 &&
      (HasName(gs, n) ==> Count(r, n) >= 2)
  {
    var r := Handle(gs, GlobalAdded(n, iface, v)).globals;
    assert r[..|r| - 1] == gs;
    if HasName(gs, n) {
      CountPositiveWhenPresent(gs, n);
    }
  }

  /** A `global` event followed by its `global_remove` restores a list that lacked the name. */
  lemma AddThenRemoveRestores(gs: seq<Global>, n: U32, iface: string, v: U32)
    requires !HasName(gs, n)
    ensures Replay(gs, [GlobalAdded(n, iface, v), GlobalRemove(n)]) == Handled(gs)
  {
    var evs := [GlobalAdded(n, iface, v), GlobalRemove(n)];
    var added := gs + [Global(n, iface, v)];
    assert Handle(gs, evs[0]) == Handled(added);
    assert FirstMatch(added, n, |gs|) by {
      forall j | 0 <= j < |gs| ensures added[j].name != n {
        assert added[j] == gs[j];
      }
    }
    RemoveDropsFirstMatch(added, n, |gs|);
    assert added[..|gs|] + added[|gs| + 1..] == gs;
    assert evs[1..] == [GlobalRemove(n)];
    assert Replay(gs, evs) == Replay(added, evs[1..]);
    assert Replay(added, evs[1..]) == Replay(gs, evs[1..][1..]);
  }

  lemma AddFreshKeepsUnique(gs: seq<Global>, g: Global)
    requires UniqueNames(gs)
    requires g.name !in Names(gs)
    ensures UniqueNames(gs + [g])
    ensures Names(gs + [g]) == Names(gs) + {g.name}
  {
  }

  lemma RemoveKeepsUnique(gs: seq<Global>, n: U32, i: int)
    requires UniqueNames(gs)
    requires FirstMatch(gs, n, i)
    ensures UniqueNames(gs[..i] + gs[i + 1..])
    ensures Names(gs[..i] + gs[i + 1..]) == Names(gs) - {n}
  {
  }

  /**
   Against a server that keeps the protocol's promises, replaying its events
   never panics, keeps names unique, and leaves exactly the names added and
   not later removed.
   */
  lemma {:induction false} ReplayTracksLiveNames(gs: seq<Global>, evs: seq<Event>)
    requires UniqueNames(gs)
    requires WellFormed(Names(gs), evs)
    ensures Replay(gs, evs).Handled?
    ensures UniqueNames(Replay(gs, evs).globals)
    ensures Names(Replay(gs, evs).globals) == LiveAfter(Names(gs), evs)
    decreases |evs|
  {
    if |evs| > 0 {
      match evs[0]
      case GlobalAdded(n, iface, v) =>
        AddFreshKeepsUnique(gs, Global(n, iface, v));
        ReplayTracksLiveNames(gs + [Global(n, iface, v)], evs[1..]);
      case GlobalRemove(n) =>
        HasNameIffInNames(gs, n);
        var i := Position(gs, n).value;
        RemoveDropsFirstMatch(gs, n, i);
        RemoveKeepsUnique(gs, n, i);
        ReplayTracksLiveNames(gs[..i] + gs[i + 1..], evs[1..]);
      case Other =>
        ReplayTracksLiveNames(gs, evs[1..]);
    }
  }

  /** Two `clock` globals advertised, the first removed: only the second remains. */
  lemma ClockScenario()
    ensures Replay(New(), [GlobalAdded(1, "clock", 1), GlobalAdded(2, "clock", 1), GlobalRemove(1)])
      == Handled([Global(2, "clock", 1)])
  {
  }
}
