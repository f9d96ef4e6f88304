/** Publication to a channel: `send_event_to_pipe` walks over the subscribers of a pipe, sends to
    those whose connection is alive and erases the others from the list it is walking over.
 */
module Publish {
  import opened CpHeap
  import opened CpMemory
  import opened FastList

  // ----- what is sent and what is left -----

  // The nodes whose payload is alive, in their order.
  ghost function Kept(data: map<Ptr, int>, live: int -> bool, ns: seq<Ptr>): (r: seq<Ptr>)
    requires HasData(data, ns)
    ensures HasData(data, r)
    ensures forall i :: 0 <= i < |r| ==> r[i] in ns && live(data[r[i]])
  {
    if ns == [] then []
    else
      var n := ns[|ns| - 1];
      var r := Kept(data, live, ns[..|ns| - 1]);
      if live(data[n]) then r + [n] else r
  }

  // The subscribers that are alive, in their order.
  function Alive(live: int -> bool, xs: seq<int>): seq<int> {
    if xs == [] then []
    else
      var r := Alive(live, xs[..|xs| - 1]);
      if live(xs[|xs| - 1]) then r + [xs[|xs| - 1]] else r
  }

  lemma {:induction false} KeptValues(data: map<Ptr, int>, live: int -> bool, ns: seq<Ptr>)
    requires HasData(data, ns)
    ensures Values(data, Kept(data, live, ns)) == Alive(live, Values(data, ns))
  {
    if ns != [] {
      var k := |ns| - 1;
      KeptValues(data, live, ns[..k]);
      assert Values(data, ns)[..k] == Values(data, ns[..k]);
      if live(data[ns[k]]) {
        assert Values(data, Kept(data, live, ns)) == Values(data, Kept(data, live, ns[..k])) + [data[ns[k]]];
      }
    }
  }

  // The list when the walk stands on the node that was number `k` at its start.
  ghost function Current(data: map<Ptr, int>, live: int -> bool, ns: seq<Ptr>, k: nat): seq<Ptr>
    requires HasData(data, ns) && k <= |ns|
  {
    Kept(data, live, ns[..k]) + ns[k..]
  }

  lemma CurrentNext(data: map<Ptr, int>, live: int -> bool, ns: seq<Ptr>, k: nat)
    requires HasData(data, ns) && k < |ns|
    ensures var cur := Current(data, live, ns, k);
            var at := |Kept(data, live, ns[..k])|;
            && at < |cur| && cur[at] == ns[k] && HasData(data, cur)
            && At(cur, at + 1) == At(ns, k + 1)
            && Current(data, live, ns, k + 1) == if live(data[ns[k]]) then cur else Without(cur, at)
  {
    var cur := Current(data, live, ns, k);
    assert ns[..k + 1][..k] == ns[..k];
    assert ns[k..] == [ns[k]] + ns[k + 1..];
  }

  // The first node that holds a dead subscriber is the one the walk stands on: the dead ones
  // before it are gone already, whether or not they held the same number.
  lemma DeadIsFirst(data: map<Ptr, int>, live: int -> bool, ns: seq<Ptr>, k: nat)
    requires HasData(data, ns) && k < |ns| && !live(data[ns[k]])
    ensures var cur := Current(data, live, ns, k);
            HasData(data, cur) && FirstIndex(Values(data, cur), data[ns[k]]) == |Kept(data, live, ns[..k])|
  {
    CurrentNext(data, live, ns, k);
    var cur := Current(data, live, ns, k);
    var before := Kept(data, live, ns[..k]);
    forall i | 0 <= i < |before|
      ensures Values(data, cur)[i] != data[ns[k]]
    {
      assert cur[i] == before[i];
    }
    FirstIndexUnique(Values(data, cur), data[ns[k]], |before|);
  }

  // ----- moving on from a node that may have been erased -----

  // The walking handle stands on `p`, whose `next` is `t`.
  ghost predicate OnNode(s: State, p: Ptr, t: Target) {
    && Inv(s) && Var(NEXT) !in s.heap.slots
    && Var(IT) in s.heap.slots && s.heap.slots[Var(IT)] == To(p)
    && Member(p, 0) in s.heap.slots && s.heap.slots[Member(p, 0)] == t
    && p in s.heap.objs && s.heap.objs[p].members == 1 && p !in s.raw
  }

  // After the step the old node is gone exactly when nothing but the walk held it.
  ghost predicate MovedOn(s: State, r: State, p: Ptr, t: Target) {
    && Inv(r) && r.raw == s.raw
    && r.heap.slots == (if Held(s.heap.slots[Var(IT) := Null], s.raw, p) then s.heap.slots
                        else WithoutMembers(s.heap.slots, p))[Var(IT) := t]
    && SameObjects(s.heap, r.heap, if Held(s.heap.slots[Var(IT) := Null], s.raw, p) then {} else {p})
  }

  ghost predicate MoveRuns(s: State, r1: State, r2: State, r: State, p: Ptr) {
    && Legal(s, Copy(NEXT, Member(p, 0))) && Step(s, Copy(NEXT, Member(p, 0))) == Defined(r1)
    && Inv(r1) && Legal(r1, Assign(Var(IT), Var(NEXT))) && Step(r1, Assign(Var(IT), Var(NEXT))) == Defined(r2)
    && Inv(r2) && Legal(r2, Destroy(NEXT)) && Step(r2, Destroy(NEXT)) == Defined(r)
  }

  // it = it->Next();  the result of Next() is a handle of its own
  lemma MoveOn(s: State, p: Ptr, t: Target)
    returns (r1: State, r2: State, r: State)
    requires OnNode(s, p, t) && t != To(p)
    ensures MoveRuns(s, r1, r2, r, p) && MovedOn(s, r, p, t)
  {
    hide Step, Inv;
    r1 := CopyEffect(s, NEXT, Member(p, 0));
    if Held(s.heap.slots[Var(IT) := Null], s.raw, p) {
      var other :| other in s.heap.slots[Var(IT) := Null] && s.heap.slots[Var(IT) := Null][other] == To(p);
      r2 := AssignHeld(r1, Var(IT), Var(NEXT), other);
    } else {
      forall m | m in r1.heap.slots && r1.heap.slots[m] == To(p)
        ensures m == Var(IT)
      {
        var cleared := s.heap.slots[Var(IT) := Null];
        assert m in cleared ==> cleared[m] != To(p);
      }
      assert Lone(r1, Var(IT), Var(NEXT));
      r2 := AssignLone(r1, Var(IT), Var(NEXT), Var(NEXT));
    }
    r := DestroyHeld(r2, NEXT, Var(IT));
  }

  // The step leaves a list that was there before, and the handles of everyone else.
  lemma MovedOnKeepsList(s: State, r: State, p: Ptr, t: Target, first: Loc, ns: seq<Ptr>)
    requires OnNode(s, p, t) && MovedOn(s, r, p, t) && IsList(s, first, ns)
    ensures IsList(r, first, ns)
    ensures forall v | v != IT :: Var(v) in r.heap.slots <==> Var(v) in s.heap.slots
    ensures Var(IT) in r.heap.slots && r.heap.slots[Var(IT)] == t
  {
    hide Inv;
    forall i | 0 <= i < |ns| && ns[i] == p
      ensures Held(s.heap.slots[Var(IT) := Null], s.raw, p)
    {
      assert s.heap.slots[Var(IT) := Null][Link(first, ns, i)] == To(p);
    }
  }

  // ----- the publication -----

  // The variables of the publication.
  ghost predicate Walking(list: FastList, cur: seq<Ptr>, t: Target)
    reads list, list.memory
  {
    && list.Valid(cur) && list.AtRest()
    && Var(NEXT) !in list.memory.slots
    && Var(IT) in list.memory.slots && list.memory.slots[Var(IT)] == t
  }

  lemma StandsOn(s: State, first: Loc, cur: seq<Ptr>, at: nat)
    requires Inv(s) && IsList(s, first, cur) && at < |cur| && Var(NEXT) !in s.heap.slots
    requires Var(IT) in s.heap.slots && s.heap.slots[Var(IT)] == To(cur[at])
    ensures OnNode(s, cur[at], At(cur, at + 1)) && At(cur, at + 1) != To(cur[at])
  {
    hide Inv, IsList;
    NodeFacts(s, first, cur, at);
    NodeFacts(s, first, cur, at + 1);
  }

  // The walking handle keeps the erased node, and the node keeps its `next`.
  lemma ErasedStays(base: State, s: State, first: Loc, cur: seq<Ptr>, at: nat)
    requires IsList(base, first, cur) && at < |cur| && NodeRemoved(base, s, first, cur, at)
    requires OnNode(base, cur[at], At(cur, at + 1))
    ensures OnNode(s, cur[at], At(cur, at + 1)) && IsList(s, first, Without(cur, at))
  {
    hide Inv, IsChain;
    assert Survives(base, first, cur, at) by {
      assert Relinked(base.heap.slots, first, cur, at)[Var(IT)] == To(cur[at]);
    }
    RemovedIsList(base, s, first, cur, at);
  }

  // pipe->erase(it->data)
  method EraseDead(list: FastList, ghost cur: seq<Ptr>, ghost at: nat)
    requires at < |cur| && Walking(list, cur, To(cur[at]))
    requires FirstIndex(Values(list.data, cur), list.data[cur[at]]) == at
    modifies list`listSize, list.memory`objs, list.memory`slots
    ensures Walking(list, Without(cur, at), To(cur[at]))
    ensures OnNode(list.memory.S(), cur[at], At(cur, at + 1))
  {
    hide Inv, IsList, NodeRemoved, OnNode;
    ghost var base := list.memory.S();
    var p := list.memory.slots[Var(IT)].p;
    StandsOn(base, Var(list.first), cur, at);
    assert Values(list.data, cur)[at] == list.data[p];
    var found := list.Remove(list.data[p], cur);
    ErasedStays(base, list.memory.S(), Var(list.first), cur, at);
    OnNodeHandles(list.memory.S(), cur[at], At(cur, at + 1));
  }

  lemma OnNodeHandles(s: State, p: Ptr, t: Target)
    requires OnNode(s, p, t)
    ensures Var(NEXT) !in s.heap.slots && Var(IT) in s.heap.slots && s.heap.slots[Var(IT)] == To(p)
  {
  }

  // it = it->Next();
  method MoveToNext(list: FastList, ghost cur: seq<Ptr>, ghost p: Ptr, ghost t: Target)
    requires Walking(list, cur, To(p)) && OnNode(list.memory.S(), p, t) && t != To(p)
    modifies list.memory`objs, list.memory`slots
    ensures Walking(list, cur, t)
  {
    hide Inv, IsList, OnNode, MovedOn, Step, Legal;
    ghost var s := list.memory.S();
    var q := list.memory.slots[Var(IT)].p;
    ghost var r1, r2, r := MoveOn(s, p, t);
    MovedOnKeepsList(s, r, p, t, Var(list.first), cur);
    list.memory.Copy(NEXT, Member(q, 0));
    var ok := list.memory.Assign(Var(IT), Var(NEXT));
    list.memory.Destroy(NEXT);
  }

  // One round of the loop: the subscriber `x` gets the event, or is erased; then `it` moves on.
  method Visit(list: FastList, live: int -> bool, ghost ns: seq<Ptr>, ghost k: nat) returns (x: int, delivered: bool)
    requires HasData(list.data, ns) && k < |ns| && Walking(list, Current(list.data, live, ns, k), At(ns, k))
    modifies list`listSize, list.memory`objs, list.memory`slots
    ensures Walking(list, Current(list.data, live, ns, k + 1), At(ns, k + 1))
    ensures Var(IT) in list.memory.slots && list.memory.slots[Var(IT)] == At(ns, k + 1)
    ensures x == list.data[ns[k]] && delivered == live(x)
  {
    hide Inv, IsList, OnNode, Kept, Current, Without, Step, Legal;
    var p := list.memory.slots[Var(IT)].p;
    ghost var cur := Current(list.data, live, ns, k);
    ghost var at := |Kept(list.data, live, ns[..k])|;
    CurrentNext(list.data, live, ns, k);
    StandsOn(list.memory.S(), Var(list.first), cur, at);
    x := list.data[p];
    delivered := live(x);
    if !delivered {
      DeadIsFirst(list.data, live, ns, k);
      EraseDead(list, cur, at);
    }
    MoveToNext(list, Current(list.data, live, ns, k + 1), p, At(ns, k + 1));
  }

  // Sends the event to every live subscriber; `live` says for which numbers the server has a
  // connection of the right kind.  `sent` are the receivers, in order.
  method SendEventToPipe(list: FastList, live: int -> bool, ghost ns: seq<Ptr>) returns (sent: seq<int>, numMsg: nat)
    requires list.Valid(ns) && list.AtRest()
    requires Var(IT) !in list.memory.slots && Var(NEXT) !in list.memory.slots
    modifies list`listSize, list.memory`objs, list.memory`slots
    ensures list.Valid(Kept(list.data, live, ns)) && list.AtRest()
    ensures Var(IT) !in list.memory.slots && Var(NEXT) !in list.memory.slots
    ensures sent == Alive(live, Values(list.data, ns)) && numMsg == |sent|
    ensures Values(list.data, Kept(list.data, live, ns)) == Alive(live, Values(list.data, ns))
  {
    hide Inv, IsList, Kept, Current, Walking;
    KeptValues(list.data, live, ns);
    BeginPublish(list, live, ns);
    sent, numMsg := [], 0;
    ghost var k := 0;
    ghost var xs := Values(list.data, ns);
    assert xs[..0] == [];
    while list.memory.slots[Var(IT)].To?
      invariant k <= |ns| && Walking(list, Current(list.data, live, ns, k), At(ns, k))
      invariant Var(IT) in list.memory.slots && list.memory.slots[Var(IT)] == At(ns, k)
      invariant sent == Alive(live, xs[..k]) && numMsg == |sent|
      decreases |ns| - k
    {
      assert xs[..k + 1][..k] == xs[..k];
      var x, delivered := Visit(list, live, ns, k);
      if delivered {
        numMsg := numMsg + 1;
        sent := sent + [x];
      }
      k := k + 1;
    }
    assert xs[..k] == xs;
    EndPublish(list, live, ns);
  }

  // it = pipe->subscribers->begin();
  method BeginPublish(list: FastList, ghost live: int -> bool, ghost ns: seq<Ptr>)
    requires list.Valid(ns) && list.AtRest()
    requires Var(IT) !in list.memory.slots && Var(NEXT) !in list.memory.slots
    modifies list.memory`objs, list.memory`slots
    ensures Walking(list, Current(list.data, live, ns, 0), At(ns, 0))
    ensures Var(IT) in list.memory.slots && list.memory.slots[Var(IT)] == At(ns, 0)
  {
    ghost var s := list.memory.S();
    hide Inv, IsList, Step, Legal;
    assert Current(list.data, live, ns, 0) == ns;
    FirstSlot(s, Var(list.first), ns);
    ghost var r := CopyEffect(s, IT, Var(list.first));
    NewVariableKeepsList(s, r, IT, Var(list.first), ns);
    list.memory.Copy(IT, Var(list.first));
  }

  lemma NewVariableKeepsList(s: State, r: State, v: nat, first: Loc, ns: seq<Ptr>)
    requires IsList(s, first, ns) && v <= NEXT && r.raw == s.raw && SameObjects(s.heap, r.heap, {})
    requires first in s.heap.slots && r.heap.slots == s.heap.slots[Var(v) := s.heap.slots[first]]
    ensures IsList(r, first, ns)
  {
  }

  // The end of `it`.
  method EndPublish(list: FastList, ghost live: int -> bool, ghost ns: seq<Ptr>)
    requires HasData(list.data, ns) && Walking(list, Current(list.data, live, ns, |ns|), Null)
    modifies list.memory`objs, list.memory`slots
    ensures list.Valid(Kept(list.data, live, ns)) && list.AtRest()
    ensures Var(IT) !in list.memory.slots && Var(NEXT) !in list.memory.slots
  {
    ghost var s := list.memory.S();
    hide Inv, IsList, Step, Legal;
    assert ns[..|ns|] == ns && Current(list.data, live, ns, |ns|) == Kept(list.data, live, ns);
    ghost var r := DestroyHeld(s, IT, Var(IT));
    OldVariableKeepsList(s, r, IT, Var(list.first), Kept(list.data, live, ns));
    list.memory.Destroy(IT);
  }

  lemma OldVariableKeepsList(s: State, r: State, v: nat, first: Loc, ns: seq<Ptr>)
    requires IsList(s, first, ns) && v <= NEXT && r.raw == s.raw && SameObjects(s.heap, r.heap, {})
    requires r.heap.slots == s.heap.slots - {Var(v)}
    ensures IsList(r, first, ns)
  {
  }
}
