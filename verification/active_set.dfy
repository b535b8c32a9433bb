/** The shared active-target bookkeeping: engine objects referred to by
    identity, the two list-valued slots of the scene's data store, and the
    helper that takes a target out of a list and republishes the list under
    named slots (`removeTargetFromActiveTargets`). */
module ActiveSet {

  /** An engine object compared by identity: the sprite of the k-th spawned
      target, or the countdown-ring graphics created with it. */
  datatype Obj = Sprite(id: nat) | Overlay(id: nat)

  /** The names under which the scene's data store keeps the two lists. */
  datatype Slot = ActiveTargetsSlot | ActiveTargetsTimerSlot

  /** The list-valued part of the scene's data store, one value per slot. */
  datatype Data = Data(activeTargets: seq<Obj>, activeTargetsTimer: seq<Obj>) {

    function Get(slot: Slot): seq<Obj> {
      match slot
      case ActiveTargetsSlot => activeTargets
      case ActiveTargetsTimerSlot => activeTargetsTimer
    }

    /** `scene.data.set(slot, value)`: only the named slot changes. */
    function Set(slot: Slot, value: seq<Obj>): (d: Data)
      ensures d.Get(slot) == value
      ensures forall other: Slot :: other != slot ==> d.Get(other) == Get(other)
    {
      match slot
      case ActiveTargetsSlot => this.(activeTargets := value)
      case ActiveTargetsTimerSlot => this.(activeTargetsTimer := value)
    }
  }

  function Min(a: nat, b: nat): nat {
    if a <= b then a else b
  }

  /** How many times `x` occurs in `xs`. */
  function Count(xs: seq<Obj>, x: Obj): nat {
    multiset(xs)[x]
  }

  /** `xs` with every occurrence of `x` filtered out, the rest in order. */
  function Without(xs: seq<Obj>, x: Obj): (r: seq<Obj>)
    decreases |xs|
  {
    if |xs| == 0 then []
    else (if xs[0] == x then [] else [xs[0]]) + Without(xs[1..], x)
  }

  /** `Array.prototype.indexOf` by identity: the first index holding `x`, or -1. */
  function IndexOf(xs: seq<Obj>, x: Obj): (i: int)
    ensures -1 <= i < |xs|
    ensures i == -1 <==> x !in xs
    ensures 0 <= i ==> xs[i] == x
    ensures forall j :: 0 <= j < i ==> xs[j] != x
    decreases |xs|
  {
    if |xs| == 0 then -1
    else if xs[0] == x then 0
    else
      var j := IndexOf(xs[1..], x);
      if j == -1 then -1 else j + 1
  }

  /** `xs.splice(i, 1)`: the list with the element at index `i` taken out. */
  function Splice(xs: seq<Obj>, i: nat): (r: seq<Obj>)
    requires i < |xs|
    ensures |r| == |xs| - 1
    ensures forall j :: 0 <= j < i ==> r[j] == xs[j]
    ensures forall j :: i <= j < |r| ==> r[j] == xs[j + 1]
  {
    xs[..i] + xs[i + 1..]
  }

  lemma {:induction false} WithoutConcat(a: seq<Obj>, b: seq<Obj>, x: Obj)
    ensures Without(a + b, x) == Without(a, x) + Without(b, x)
    decreases |a|
  {
    if |a| == 0 {
      assert a + b == b;
    } else {
      assert (a + b)[1..] == a[1..] + b;
      WithoutConcat(a[1..], b, x);
    }
  }

  lemma {:induction false} WithoutAbsent(xs: seq<Obj>, x: Obj)
    requires x !in xs
    ensures Without(xs, x) == xs
    decreases |xs|
  {
    if |xs| > 0 {
      assert x !in xs[1..];
      WithoutAbsent(xs[1..], x);
    }
  }

  /** Splicing out a position that holds `x` removes one occurrence of `x`
      and keeps every other element in its relative order. */
  lemma SpliceOccurrence(xs: seq<Obj>, x: Obj, i: nat)
    requires i < |xs| && xs[i] == x
    ensures Count(Splice(xs, i), x) == Count(xs, x) - 1
    ensures Without(Splice(xs, i), x) == Without(xs, x)
  {
    SpliceCount(xs, x, i);
    SpliceWithout(xs, x, i);
  }

  lemma SpliceCount(xs: seq<Obj>, x: Obj, i: nat)
    requires i < |xs| && xs[i] == x
    ensures Count(Splice(xs, i), x) == Count(xs, x) - 1
  {
    var front, back := xs[..i], xs[i + 1..];
    assert xs == front + ([x] + back);
    assert multiset(xs) == multiset(front) + multiset([x] + back);
    assert multiset([x] + back) == multiset{x} + multiset(back);
  }

  lemma SpliceWithout(xs: seq<Obj>, x: Obj, i: nat)
    requires i < |xs| && xs[i] == x
    ensures Without(Splice(xs, i), x) == Without(xs, x)
  {
    var front, back := xs[..i], xs[i + 1..];
    assert xs == front + ([x] + back);
    WithoutConcat(front, [x] + back, x);
    WithoutConcat(front, back, x);
    assert Without([x] + back, x) == Without(back, x) by {
      assert ([x] + back)[1..] == back;
    }
  }

  lemma SpliceAtIndexOf(xs: seq<Obj>, x: Obj)
    requires x in xs
    ensures Count(Splice(xs, IndexOf(xs, x)), x) == Count(xs, x) - 1
    ensures Without(Splice(xs, IndexOf(xs, x)), x) == Without(xs, x)
  {
    SpliceOccurrence(xs, x, IndexOf(xs, x));
  }

  /** The list after the helper ran, and the data store it republished into. */
  datatype Removal = Removal(list: seq<Obj>, data: Data)

  /** `removeTargetFromActiveTargets(target, list, scene, slots)`: for each
      slot in turn, look the target up in the ONE list passed in; if found,
      splice it out and store the list under that slot. */
  function RemoveTargetFromActiveTargets(target: Obj, list: seq<Obj>, data: Data, slots: seq<Slot>): (r: Removal)
    ensures |r.list| <= |list|
    ensures ActiveTargetsSlot !in slots ==> r.data.activeTargets == data.activeTargets
    ensures ActiveTargetsTimerSlot !in slots ==> r.data.activeTargetsTimer == data.activeTargetsTimer
    decreases |slots|
  {
    if |slots| == 0 then Removal(list, data)
    else
      var i := IndexOf(list, target);
      if i > -1 then
        var spliced := Splice(list, i);
        RemoveTargetFromActiveTargets(target, spliced, data.Set(slots[0], spliced), slots[1..])
      else
        RemoveTargetFromActiveTargets(target, list, data, slots[1..])
  }

  /** An absent target leaves the list and the data store untouched, whatever
      the slots. */
  lemma {:induction false} RemovalOfAbsent(target: Obj, list: seq<Obj>, data: Data, slots: seq<Slot>)
    requires target !in list
    ensures RemoveTargetFromActiveTargets(target, list, data, slots) == Removal(list, data)
    decreases |slots|
  {
    if |slots| > 0 {
      RemovalOfAbsent(target, list, data, slots[1..]);
    }
  }

  /** Every element other than the target keeps its place in the relative
      order: only occurrences of the target are taken out. */
  lemma {:induction false} RemovalKeepsOthers(target: Obj, list: seq<Obj>, data: Data, slots: seq<Slot>)
    ensures Without(RemoveTargetFromActiveTargets(target, list, data, slots).list, target) == Without(list, target)
    decreases |slots|
  {
    if |slots| > 0 {
      var i := IndexOf(list, target);
      if i > -1 {
        var spliced := Splice(list, i);
        SpliceAtIndexOf(list, target);
        RemovalKeepsOthers(target, spliced, data.Set(slots[0], spliced), slots[1..]);
      } else {
        RemovalKeepsOthers(target, list, data, slots[1..]);
      }
    }
  }

  /** One occurrence goes per slot while any is left: of c occurrences,
      min(c, |slots|) are taken out. */
  lemma {:induction false} RemovalCount(target: Obj, list: seq<Obj>, data: Data, slots: seq<Slot>)
    ensures Count(RemoveTargetFromActiveTargets(target, list, data, slots).list, target)
      == Count(list, target) - Min(Count(list, target), |slots|)
    decreases |slots|
  {
    if |slots| > 0 {
      if target in list {
        RemovalCountFound(target, list, data, slots);
      } else {
        RemovalOfAbsent(target, list, data, slots);
      }
    }
  }

  /** The step of `RemovalCount` where the lookup finds the target: one
      occurrence goes now, and the rest of the slots do the rest. */
  lemma {:induction false} RemovalCountFound(target: Obj, list: seq<Obj>, data: Data, slots: seq<Slot>)
    requires target in list && |slots| > 0
    ensures Count(RemoveTargetFromActiveTargets(target, list, data, slots).list, target)
      == Count(list, target) - Min(Count(list, target), |slots|)
    decreases |slots|, 0
  {
    var spliced := Splice(list, IndexOf(list, target));
    var data' := data.Set(slots[0], spliced);
    var rest := RemoveTargetFromActiveTargets(target, spliced, data', slots[1..]);
    assert RemoveTargetFromActiveTargets(target, list, data, slots) == rest;
    SpliceAtIndexOf(list, target);
    RemovalCount(target, spliced, data', slots[1..]);
    MinStep(Count(list, target), |slots|, Count(rest.list, target));
  }

  lemma MinStep(c: nat, n: nat, x: nat)
    requires 1 <= c && 1 <= n && x == (c - 1) - Min(c - 1, n - 1)
    ensures x == c - Min(c, n)
  {
  }

  /** With the target in the list once, the helper removes that occurrence
      and republishes only under the first slot, whatever follows it. */
  lemma RemoveSingleOccurrence(target: Obj, list: seq<Obj>, data: Data, slots: seq<Slot>)
    requires Count(list, target) == 1 && 1 <= |slots|
    ensures var r := RemoveTargetFromActiveTargets(target, list, data, slots);
      && r.list == Without(list, target)
      && r.data == data.Set(slots[0], r.list)
  {
    var spliced := Splice(list, IndexOf(list, target));
    SpliceAtIndexOf(list, target);
    assert target !in spliced by {
      assert Count(spliced, target) == 0;
    }
    WithoutAbsent(spliced, target);
    RemovalOfAbsent(target, spliced, data.Set(slots[0], spliced), slots[1..]);
  }

  /** The call made by the hit and timeout paths: with the target listed
      once, only the "activeTargets" slot is republished; the second lookup
      finds nothing, so "activeTargetsTimer" keeps its old list. */
  lemma OnlyFirstSlotRepublished(target: Obj, data: Data)
    requires Count(data.activeTargets, target) == 1
    ensures var r := RemoveTargetFromActiveTargets(target, data.activeTargets, data, [ActiveTargetsSlot, ActiveTargetsTimerSlot]);
      && r.list == Without(data.activeTargets, target)
      && r.data.activeTargets == r.list
      && r.data.activeTargetsTimer == data.activeTargetsTimer
  {
    RemoveSingleOccurrence(target, data.activeTargets, data, [ActiveTargetsSlot, ActiveTargetsTimerSlot]);
  }

  /** Because the index is recomputed on the same list for every slot, a
      target listed twice loses both occurrences, and the sprite list is
      stored under the "activeTargetsTimer" slot. */
  lemma DuplicateLeaksIntoTimerSlot(target: Obj, data: Data)
    requires Count(data.activeTargets, target) >= 2
    ensures var r := RemoveTargetFromActiveTargets(target, data.activeTargets, data, [ActiveTargetsSlot, ActiveTargetsTimerSlot]);
      && Count(r.list, target) == Count(data.activeTargets, target) - 2
      && r.data.activeTargetsTimer == r.list
  {
    var list := data.activeTargets;
    var slots := [ActiveTargetsSlot, ActiveTargetsTimerSlot];
    var spliced := Splice(list, IndexOf(list, target));
    SpliceAtIndexOf(list, target);
    assert target in spliced by {
      assert Count(spliced, target) >= 1;
    }
    var d1 := data.Set(ActiveTargetsSlot, spliced);
    assert slots[1..] == [ActiveTargetsTimerSlot];
    var spliced2 := Splice(spliced, IndexOf(spliced, target));
    RemovalCount(target, list, data, slots);
    assert [ActiveTargetsTimerSlot][1..] == [];
    assert RemoveTargetFromActiveTargets(target, spliced, d1, [ActiveTargetsTimerSlot])
        == Removal(spliced2, d1.Set(ActiveTargetsTimerSlot, spliced2));
  }

  /** Removing again is a no-op as long as the slot list was at least as
      long as the number of occurrences, as it is for a target listed once
      and the two-slot call. */
  lemma RemovalIdempotent(target: Obj, list: seq<Obj>, data: Data, slots: seq<Slot>)
    requires Count(list, target) <= |slots|
    ensures var r := RemoveTargetFromActiveTargets(target, list, data, slots);
      RemoveTargetFromActiveTargets(target, r.list, r.data, slots) == r
  {
    var r := RemoveTargetFromActiveTargets(target, list, data, slots);
    RemovalCount(target, list, data, slots);
    RemovalOfAbsent(target, r.list, r.data, slots);
    assert Count(r.list, target) == 0;
    assert target !in r.list;
  }
}
