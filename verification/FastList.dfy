/** The linked list of subscribers, `fastList`, and the publication that walks over it.

    The nodes are held by CP handles: the list's `first`, each node's `next` and the local
    variables of the operations.  `send_event_to_pipe` erases dead subscribers from the list while
    it stands on their nodes; it goes on safely because its own handle keeps the erased node, and
    with it the `next` of that node, alive.
 */
module FastList {
  import opened CpHeap
  import opened CpMemory

  // The local variables of the operations.
  const ITEM := 1
  const LAST := 2
  const IT := 3
  const NEXT := 4

  // ----- a list in memory -----

  // The handle that points to node `i`, or past the end.
  function Link(first: Loc, ns: seq<Ptr>, i: nat): Loc
    requires i <= |ns|
  {
    if i == 0 then first else Member(ns[i - 1], 0)
  }

  function At(ns: seq<Ptr>, i: nat): Target {
    if i < |ns| then To(ns[i]) else Null
  }

  ghost predicate IsChain(slots: Slots, first: Loc, ns: seq<Ptr>) {
    && (forall i, j :: 0 <= i < j < |ns| ==> ns[i] != ns[j])
    && (forall i | 0 <= i <= |ns| :: Link(first, ns, i) in slots && slots[Link(first, ns, i)] == At(ns, i))
  }

  ghost predicate IsList(s: State, first: Loc, ns: seq<Ptr>) {
    && first.Var? && first.id > NEXT
    && IsChain(s.heap.slots, first, ns)
    && (forall i | 0 <= i < |ns| ::
          ns[i] in s.heap.objs && s.heap.objs[ns[i]].members == 1 && ns[i] !in s.raw)
  }

  function Without<T>(s: seq<T>, k: nat): (r: seq<T>)
    requires k < |s|
    ensures |r| == |s| - 1
  {
    s[..k] + s[k + 1..]
  }

  ghost predicate HasData(data: map<Ptr, int>, ns: seq<Ptr>) {
    forall i :: 0 <= i < |ns| ==> ns[i] in data
  }

  // The payloads of the nodes.
  ghost function Values(data: map<Ptr, int>, ns: seq<Ptr>): (xs: seq<int>)
    requires HasData(data, ns)
    ensures |xs| == |ns|
  {
    seq(|ns|, i requires 0 <= i < |ns| => data[ns[i]])
  }

  // ----- append -----

  // `next` of the new item is the old first node, and the local handle on the item goes.
  lemma PutFirst(s: State, base: Slots, first: Loc, p: Ptr, t: Target)
    returns (r: State, r': State)
    requires Inv(s) && first.Var? && first.id > NEXT && first in base && base[first] == t
    requires Var(ITEM) !in base && p in s.heap.objs
    requires s.heap.slots == base[Member(p, 0) := t][Var(ITEM) := To(p)]
    ensures Legal(s, Assign(first, Var(ITEM))) && Step(s, Assign(first, Var(ITEM))) == Defined(r)
    ensures Legal(r, Destroy(ITEM)) && Step(r, Destroy(ITEM)) == Defined(r')
    ensures Inv(r) && Inv(r') && r'.raw == s.raw && SameObjects(s.heap, r'.heap, {})
    ensures r'.heap.slots == base[Member(p, 0) := t][first := To(p)]
  {
    hide Step, Counted, Inv;
    r := AssignHeld(s, first, Var(ITEM), Member(p, 0));
    r' := DestroyHeld(r, ITEM, first);
  }

  lemma FrontIsChain(slots: Slots, first: Loc, ns: seq<Ptr>, p: Ptr)
    requires IsChain(slots, first, ns) && first.Var? && p !in ns
    ensures IsChain(slots[Member(p, 0) := At(ns, 0)][first := To(p)], first, [p] + ns)
  {
    var slots' := slots[Member(p, 0) := At(ns, 0)][first := To(p)];
    forall i | 0 <= i <= |[p] + ns|
      ensures var l := Link(first, [p] + ns, i); l in slots' && slots'[l] == At([p] + ns, i)
    {
      if i >= 2 {
        assert Link(first, [p] + ns, i) == Link(first, ns, i - 1);
        assert ns[i - 2] in ns;
      }
    }
  }

  lemma FirstSlot(s: State, first: Loc, ns: seq<Ptr>)
    requires IsList(s, first, ns)
    ensures first.Var? && first.id > NEXT && first in s.heap.slots && s.heap.slots[first] == At(ns, 0)
  {
    assert Link(first, ns, 0) == first;
  }

  lemma NewItem(s: State, first: Loc, p: Ptr, t: Target)
    returns (s1: State, s2: State)
    requires Inv(s) && p !in s.heap.objs && Var(ITEM) !in s.heap.slots
    requires first.Var? && first.id > NEXT && first in s.heap.slots && s.heap.slots[first] == t
    ensures Legal(s, Create(ITEM, p, 1)) && Step(s, Create(ITEM, p, 1)) == Defined(s1) && Inv(s1)
    ensures first in s1.heap.slots && s1.heap.slots[first] == t
    ensures if t.To?
            then Legal(s1, Assign(Member(p, 0), first)) && Step(s1, Assign(Member(p, 0), first)) == Defined(s2)
            else s2 == s1
    ensures Inv(s2) && s2.raw == s.raw && s2.heap.slots == s.heap.slots[Member(p, 0) := t][Var(ITEM) := To(p)]
    ensures SameObjects(s.heap.(objs := s.heap.objs[p := Obj(1, 1)]), s2.heap, {})
  {
    hide Step, Inv;
    s1 := CreateEffect(s, ITEM, p);
    s2 := s1;
    if t.To? {
      s2 := AssignHeld(s1, Member(p, 0), first, first);
    }
  }

  ghost predicate Prepended(s: State, r: State, first: Loc, ns: seq<Ptr>, p: Ptr) {
    && Inv(r) && r.raw == s.raw
    && r.heap.slots == s.heap.slots[Member(p, 0) := At(ns, 0)][first := To(p)]
    && SameObjects(s.heap.(objs := s.heap.objs[p := Obj(1, 1)]), r.heap, {})
  }

  lemma NotInList(s: State, first: Loc, ns: seq<Ptr>, p: Ptr)
    requires IsList(s, first, ns) && p !in s.heap.objs
    ensures p !in ns && first.Var? && first.id > NEXT
  {
  }

  lemma PrependedSlots(s: State, r: State, first: Loc, ns: seq<Ptr>, p: Ptr)
    requires Prepended(s, r, first, ns, p) && first.Var? && first.id > NEXT
    ensures r.heap.slots == s.heap.slots[Member(p, 0) := At(ns, 0)][first := To(p)]
    ensures forall v | 1 <= v <= NEXT :: Var(v) in r.heap.slots <==> Var(v) in s.heap.slots
  {
    hide Inv;
  }

  lemma PrependedIsList(s: State, r: State, first: Loc, ns: seq<Ptr>, p: Ptr)
    requires Inv(s) && IsList(s, first, ns) && p !in s.heap.objs && Prepended(s, r, first, ns, p)
    ensures IsList(r, first, [p] + ns)
  {
    assert p !in ns && p !in s.raw;
    hide Counted, Inv, IsChain;
    FrontIsChain(s.heap.slots, first, ns, p);
  }

  ghost predicate AppendRuns(s: State, s1: State, s2: State, s3: State, r: State, first: Loc, p: Ptr) {
    && Legal(s, Create(ITEM, p, 1)) && Step(s, Create(ITEM, p, 1)) == Defined(s1) && Inv(s1)
    && first in s1.heap.slots
    && (if s1.heap.slots[first].To?
        then Legal(s1, Assign(Member(p, 0), first)) && Step(s1, Assign(Member(p, 0), first)) == Defined(s2)
        else s2 == s1)
    && Inv(s2) && Legal(s2, Assign(first, Var(ITEM))) && Step(s2, Assign(first, Var(ITEM))) == Defined(s3)
    && Inv(s3) && Legal(s3, Destroy(ITEM)) && Step(s3, Destroy(ITEM)) == Defined(r)
  }

  // CP<...> item;  item->next = first;  first = item;  and the end of `item`
  lemma AppendSteps(s: State, first: Loc, ns: seq<Ptr>, p: Ptr)
    returns (s1: State, s2: State, s3: State, r: State)
    requires Inv(s) && IsList(s, first, ns) && p !in s.heap.objs && Var(ITEM) !in s.heap.slots
    ensures AppendRuns(s, s1, s2, s3, r, first, p)
    ensures Prepended(s, r, first, ns, p)
  {
    hide Step, Legal, Inv, IsList;
    FirstSlot(s, first, ns);
    s1, s2 := NewItem(s, first, p, At(ns, 0));
    s3, r := PutFirst(s2, s.heap.slots, first, p, At(ns, 0));
  }

  // ----- remove -----

  // The handles of the list with those of the variables `item` and `lastItem`.
  ghost function Locals(slots: Slots, item: Target, last: Target): Slots {
    slots[Var(ITEM) := item][Var(LAST) := last]
  }

  // The handles while `remove` stands on node `i`; `d` is the item that its variable `lastItem`
  // is created with.
  ghost function Cursor(slots: Slots, ns: seq<Ptr>, i: nat, d: Ptr): Slots
    requires i <= |ns|
  {
    if i == 0 then Locals(slots[Member(d, 0) := Null], At(ns, 0), To(d))
    else Locals(slots, At(ns, i), To(ns[i - 1]))
  }

  // `remove` is about to run on the list `ns` of `base`.
  ghost predicate Ready(base: State, first: Loc, ns: seq<Ptr>, d: Ptr) {
    && Inv(base) && IsList(base, first, ns)
    && Var(ITEM) !in base.heap.slots && Var(LAST) !in base.heap.slots && d !in base.heap.objs
  }

  ghost predicate Standing(s: State, base: State, ns: seq<Ptr>, i: nat, d: Ptr) {
    && i <= |ns|
    && Inv(s) && s.raw == base.raw
    && s.heap.slots == Cursor(base.heap.slots, ns, i, d)
    && s.heap.objs.Keys == base.heap.objs.Keys + (if i == 0 then {d} else {})
    && (forall p | p in base.heap.objs :: s.heap.objs[p].members == base.heap.objs[p].members)
    && (i == 0 ==> s.heap.objs[d].members == 1)
  }

  lemma FreshAddress(s: State, d: Ptr)
    requires Inv(s) && d !in s.heap.objs
    ensures d !in s.raw && Member(d, 0) !in s.heap.slots
    ensures WithoutMembers(s.heap.slots, d) == s.heap.slots
    ensures forall l | l in s.heap.slots :: s.heap.slots[l] != To(d)
  {
  }

  lemma NodeFacts(s: State, first: Loc, ns: seq<Ptr>, i: nat)
    requires IsList(s, first, ns) && i <= |ns|
    ensures Link(first, ns, i) in s.heap.slots && s.heap.slots[Link(first, ns, i)] == At(ns, i)
    ensures i < |ns| ==> ns[i] in s.heap.objs && s.heap.objs[ns[i]].members == 1 && ns[i] !in s.raw
    ensures i < |ns| ==> Member(ns[i], 0) in s.heap.slots && s.heap.slots[Member(ns[i], 0)] == At(ns, i + 1)
    ensures first in s.heap.slots && s.heap.slots[first] == At(ns, 0)
    ensures 0 < i < |ns| ==> ns[i - 1] != ns[i]
  {
    assert Link(first, ns, 0) == first;
    if i < |ns| {
      assert Link(first, ns, i + 1) == Member(ns[i], 0);
    }
  }

  // The four assignments of the walk, seen from the handles they touch.

  lemma StartLocals(s: State, first: Loc, d: Ptr)
    returns (r: State, r': State)
    requires Inv(s) && first in s.heap.slots && d !in s.heap.objs
    requires Var(ITEM) !in s.heap.slots && Var(LAST) !in s.heap.slots
    ensures Legal(s, Copy(ITEM, first)) && Step(s, Copy(ITEM, first)) == Defined(r) && Inv(r)
    ensures Legal(r, Create(LAST, d, 1)) && Step(r, Create(LAST, d, 1)) == Defined(r')
    ensures Inv(r') && r'.raw == s.raw
    ensures r'.heap.slots == Locals(s.heap.slots[Member(d, 0) := Null], s.heap.slots[first], To(d))
    ensures r'.heap.objs.Keys == s.heap.objs.Keys + {d} && r'.heap.objs[d].members == 1
    ensures forall p | p in s.heap.objs :: r'.heap.objs[p].members == s.heap.objs[p].members
  {
    hide Step, Inv;
    r := CopyEffect(s, ITEM, first);
    r' := CreateEffect(r, LAST, d);
  }

  // `lastItem` moves away from node `q`, which `link` points to.
  lemma MoveLast(s: State, slots: Slots, p: Ptr, q: Ptr, link: Loc)
    returns (r: State)
    requires Inv(s) && s.heap.slots == Locals(slots, To(p), To(q))
    requires link in slots && slots[link] == To(q) && link != Var(ITEM) && link != Var(LAST)
    ensures Legal(s, Assign(Var(LAST), Var(ITEM))) && Step(s, Assign(Var(LAST), Var(ITEM))) == Defined(r)
    ensures Inv(r) && r.raw == s.raw && SameObjects(s.heap, r.heap, {})
    ensures r.heap.slots == Locals(slots, To(p), To(p))
  {
    hide Step, Inv;
    r := AssignHeld(s, Var(LAST), Var(ITEM), link);
  }

  // `lastItem` moves away from the item it was created with, which is freed.
  lemma MoveLastFirst(s: State, slots: Slots, p: Ptr, d: Ptr)
    returns (r: State)
    requires Inv(s) && s.heap.slots == Locals(slots[Member(d, 0) := Null], To(p), To(d))
    requires d !in s.raw && d in s.heap.objs && s.heap.objs[d].members == 1 && p != d
    requires WithoutMembers(slots, d) == slots && (forall l | l in slots :: slots[l] != To(d))
    ensures Legal(s, Assign(Var(LAST), Var(ITEM))) && Step(s, Assign(Var(LAST), Var(ITEM))) == Defined(r)
    ensures Inv(r) && r.raw == s.raw && SameObjects(s.heap, r.heap, {d})
    ensures r.heap.slots == Locals(slots, To(p), To(p))
  {
    hide Step, Inv;
    r := AssignLone(s, Var(LAST), Var(ITEM), Var(ITEM));
    assert WithoutMembers(s.heap.slots, d) == Locals(slots, To(p), To(d)) by {
      assert forall l | l in slots :: l in WithoutMembers(slots, d);
    }
  }

  // `item` moves on from node `p`.
  lemma MoveItem(s: State, slots: Slots, p: Ptr, t: Target)
    returns (r: State)
    requires Inv(s) && s.heap.slots == Locals(slots, To(p), To(p))
    requires Member(p, 0) in slots && slots[Member(p, 0)] == t
    ensures Legal(s, Assign(Var(ITEM), Member(p, 0))) && Step(s, Assign(Var(ITEM), Member(p, 0))) == Defined(r)
    ensures Inv(r) && r.raw == s.raw && SameObjects(s.heap, r.heap, {})
    ensures r.heap.slots == Locals(slots, t, To(p))
  {
    hide Step, Inv;
    r := AssignHeld(s, Var(ITEM), Member(p, 0), Var(LAST));
  }

  // `link`, which points to node `p`, takes over the target of p's own `next`.
  lemma MoveLink(s: State, slots: Slots, p: Ptr, last: Target, link: Loc, t: Target)
    returns (r: State)
    requires Inv(s) && s.heap.slots == Locals(slots, To(p), last)
    requires link in slots && slots[link] == To(p) && link != Var(ITEM) && link != Var(LAST)
    requires Member(p, 0) in slots && slots[Member(p, 0)] == t && link != Member(p, 0)
    ensures Legal(s, Assign(link, Member(p, 0))) && Step(s, Assign(link, Member(p, 0))) == Defined(r)
    ensures Inv(r) && r.raw == s.raw && SameObjects(s.heap, r.heap, {})
    ensures r.heap.slots == Locals(slots[link := t], To(p), last)
  {
    hide Step, Inv;
    r := AssignHeld(s, link, Member(p, 0), Var(ITEM));
  }

  // The end of `lastItem` when `other` points to its node, too.
  lemma EndLast(s: State, slots: Slots, item: Target, q: Ptr, other: Loc)
    returns (r: State)
    requires Inv(s) && s.heap.slots == Locals(slots, item, To(q)) && Var(LAST) !in slots
    requires other in slots && slots[other] == To(q) && other != Var(ITEM)
    ensures Legal(s, Destroy(LAST)) && Step(s, Destroy(LAST)) == Defined(r)
    ensures Inv(r) && r.raw == s.raw && SameObjects(s.heap, r.heap, {})
    ensures r.heap.slots == slots[Var(ITEM) := item]
  {
    hide Step, Inv;
    r := DestroyHeld(s, LAST, other);
  }

  // The end of `lastItem` with the item it was created with.
  lemma EndLastFirst(s: State, slots: Slots, item: Target, d: Ptr)
    returns (r: State)
    requires Inv(s) && s.heap.slots == Locals(slots[Member(d, 0) := Null], item, To(d)) && Var(LAST) !in slots
    requires d !in s.raw && d in s.heap.objs && s.heap.objs[d].members == 1 && item != To(d)
    requires WithoutMembers(slots, d) == slots && (forall l | l in slots :: slots[l] != To(d))
    ensures Legal(s, Destroy(LAST)) && Step(s, Destroy(LAST)) == Defined(r)
    ensures Inv(r) && r.raw == s.raw && SameObjects(s.heap, r.heap, {d})
    ensures r.heap.slots == slots[Var(ITEM) := item]
  {
    hide Step, Inv;
    r := DestroyLone(s, LAST, Var(ITEM));
    assert WithoutMembers(s.heap.slots, d) == Locals(slots, item, To(d)) by {
      assert forall l | l in slots :: l in WithoutMembers(slots, d);
    }
  }

  // The end of `item` on a node that was unlinked: the node goes with it unless it is held elsewhere.
  lemma EndItem(s: State, slots: Slots, p: Ptr, t: Target, link: Loc)
    returns (r: State)
    requires Inv(s) && s.heap.slots == slots[Var(ITEM) := To(p)] && Var(ITEM) !in slots
    requires p in s.heap.objs && s.heap.objs[p].members == 1 && p !in s.raw
    requires Member(p, 0) in slots && slots[Member(p, 0)] == t
    requires link in slots && slots[link] == t && !MemberOf(link, p)
    ensures Legal(s, Destroy(ITEM)) && Step(s, Destroy(ITEM)) == Defined(r)
    ensures Inv(r) && r.raw == s.raw
    ensures r.heap.slots == if Held(slots, s.raw, p) then slots else WithoutMembers(slots, p)
    ensures SameObjects(s.heap, r.heap, if Held(slots, s.raw, p) then {} else {p})
  {
    hide Step, Inv;
    if Held(slots, s.raw, p) {
      var other :| other in slots && slots[other] == To(p);
      r := DestroyHeld(s, ITEM, other);
    } else {
      assert Lone(s, Var(ITEM), link);
      r := DestroyLone(s, ITEM, link);
    }
  }

  lemma EndItemNull(s: State, slots: Slots)
    returns (r: State)
    requires Inv(s) && s.heap.slots == slots[Var(ITEM) := Null] && Var(ITEM) !in slots
    ensures Legal(s, Destroy(ITEM)) && Step(s, Destroy(ITEM)) == Defined(r)
    ensures Inv(r) && r.raw == s.raw && SameObjects(s.heap, r.heap, {}) && r.heap.slots == slots
  {
    hide Step, Inv;
    r := DestroyHeld(s, ITEM, Var(ITEM));
  }

  // ----- the walk along the list -----

  // auto item = first;  CP<...> lastItem;
  lemma StartWalk(s: State, first: Loc, ns: seq<Ptr>, d: Ptr)
    returns (r: State, r': State)
    requires Ready(s, first, ns, d)
    ensures Legal(s, Copy(ITEM, first)) && Step(s, Copy(ITEM, first)) == Defined(r) && Inv(r)
    ensures Legal(r, Create(LAST, d, 1)) && Step(r, Create(LAST, d, 1)) == Defined(r')
    ensures Standing(r', s, ns, 0, d)
  {
    hide Step, Inv, IsList, Locals, Legal;
    NodeFacts(s, first, ns, 0);
    r, r' := StartLocals(s, first, d);
  }

  // The handles in the middle of a step of the walk.
  ghost predicate Between(s: State, base: State, p: Ptr) {
    && Inv(s) && s.raw == base.raw && SameObjects(base.heap, s.heap, {})
    && s.heap.slots == Locals(base.heap.slots, To(p), To(p))
  }

  // lastItem = item;
  lemma StepLast(s: State, base: State, first: Loc, ns: seq<Ptr>, i: nat, d: Ptr)
    returns (r: State)
    requires Ready(base, first, ns, d) && Standing(s, base, ns, i, d) && i < |ns|
    ensures Legal(s, Assign(Var(LAST), Var(ITEM))) && Step(s, Assign(Var(LAST), Var(ITEM))) == Defined(r)
    ensures Between(r, base, ns[i])
  {
    hide Step, Inv, IsChain, Locals, Legal;
    NodeFacts(base, first, ns, i);
    if i == 0 {
      FreshAddress(base, d);
      r := MoveLastFirst(s, base.heap.slots, ns[0], d);
    } else {
      NodeFacts(base, first, ns, i - 1);
      r := MoveLast(s, base.heap.slots, ns[i], ns[i - 1], Link(first, ns, i - 1));
    }
  }

  // item = item->next;
  lemma StepItem(s: State, base: State, first: Loc, ns: seq<Ptr>, i: nat, d: Ptr)
    returns (r: State)
    requires Ready(base, first, ns, d) && i < |ns| && Between(s, base, ns[i])
    ensures Legal(s, Assign(Var(ITEM), Member(ns[i], 0)))
    ensures Step(s, Assign(Var(ITEM), Member(ns[i], 0))) == Defined(r)
    ensures Standing(r, base, ns, i + 1, d)
  {
    hide Step, Inv, IsList, Locals, Legal;
    NodeFacts(base, first, ns, i);
    r := MoveItem(s, base.heap.slots, ns[i], At(ns, i + 1));
  }

  // The handles after node `k` was unlinked: the node is gone unless something else holds it, and
  // if it stays, so does its `next`.
  ghost function Relinked(slots: Slots, first: Loc, ns: seq<Ptr>, k: nat): Slots
    requires k < |ns|
  {
    slots[Link(first, ns, k) := At(ns, k + 1)]
  }

  ghost predicate Survives(s: State, first: Loc, ns: seq<Ptr>, k: nat)
    requires k < |ns|
  {
    Held(Relinked(s.heap.slots, first, ns, k), s.raw, ns[k])
  }

  ghost predicate NodeRemoved(base: State, r: State, first: Loc, ns: seq<Ptr>, k: nat)
    requires k < |ns|
  {
    var slots := Relinked(base.heap.slots, first, ns, k);
    && Inv(r) && r.raw == base.raw
    && r.heap.slots == (if Survives(base, first, ns, k) then slots else WithoutMembers(slots, ns[k]))
    && SameObjects(base.heap, r.heap, if Survives(base, first, ns, k) then {} else {ns[k]})
  }

  lemma RelinkedIsChain(slots: Slots, first: Loc, ns: seq<Ptr>, k: nat)
    requires IsChain(slots, first, ns) && first.Var? && k < |ns|
    ensures IsChain(Relinked(slots, first, ns, k), first, Without(ns, k))
    ensures IsChain(WithoutMembers(Relinked(slots, first, ns, k), ns[k]), first, Without(ns, k))
  {
    var ns' := Without(ns, k);
    var slots' := Relinked(slots, first, ns, k);
    forall i | 0 <= i <= |ns'|
      ensures var l := Link(first, ns', i);
              l in slots' && slots'[l] == At(ns', i) && !MemberOf(l, ns[k])
    {
      if i <= k {
        assert Link(first, ns', i) == Link(first, ns, i);
      } else {
        assert Link(first, ns', i) == Link(first, ns, i + 1);
      }
    }
  }

  // What is left is a list again, and nothing else has moved.
  lemma RemovedIsList(base: State, r: State, first: Loc, ns: seq<Ptr>, k: nat)
    requires IsList(base, first, ns) && k < |ns| && NodeRemoved(base, r, first, ns, k)
    ensures IsList(r, first, Without(ns, k))
    ensures forall l | l in base.heap.slots && l != Link(first, ns, k) && !MemberOf(l, ns[k]) ::
              l in r.heap.slots && r.heap.slots[l] == base.heap.slots[l]
    ensures Survives(base, first, ns, k) ==>
              Member(ns[k], 0) in r.heap.slots && r.heap.slots[Member(ns[k], 0)] == At(ns, k + 1)
  {
    NodeFacts(base, first, ns, k);
    RelinkedIsChain(base.heap.slots, first, ns, k);
  }

  // The node under `item` is unlinked, then the local variables go.
  ghost predicate UnlinkSteps(s: State, r1: State, r2: State, r: State, link: Loc, p: Ptr) {
    && Legal(s, Assign(link, Member(p, 0))) && Step(s, Assign(link, Member(p, 0))) == Defined(r1)
    && Inv(r1) && Legal(r1, Destroy(LAST)) && Step(r1, Destroy(LAST)) == Defined(r2)
    && Inv(r2) && Legal(r2, Destroy(ITEM)) && Step(r2, Destroy(ITEM)) == Defined(r)
  }

  lemma UnlinkFirst(s: State, base: State, first: Loc, ns: seq<Ptr>, d: Ptr)
    returns (r1: State, r2: State, r: State)
    requires Ready(base, first, ns, d) && Standing(s, base, ns, 0, d) && ns != []
    ensures UnlinkSteps(s, r1, r2, r, first, ns[0]) && NodeRemoved(base, r, first, ns, 0)
  {
    hide Step, Inv, IsChain, Locals, Legal, Held;
    var slots := base.heap.slots;
    var slots' := Relinked(slots, first, ns, 0);
    NodeFacts(base, first, ns, 0);
    NodeFacts(base, first, ns, 1);
    FreshAddress(base, d);
    r1 := MoveLink(s, slots[Member(d, 0) := Null], ns[0], To(d), first, At(ns, 1));
    RelinkedKeepsOut(slots, first, At(ns, 1), d);
    r2 := EndLastFirst(r1, slots', To(ns[0]), d);
    r := EndItem(r2, slots', ns[0], At(ns, 1), first);
  }

  lemma UnlinkLater(s: State, base: State, first: Loc, ns: seq<Ptr>, i: nat, d: Ptr)
    returns (r1: State, r2: State, r: State)
    requires Ready(base, first, ns, d) && Standing(s, base, ns, i, d) && 0 < i < |ns|
    ensures UnlinkSteps(s, r1, r2, r, Member(ns[i - 1], 0), ns[i]) && NodeRemoved(base, r, first, ns, i)
  {
    hide Step, Inv, IsChain, Locals, Legal, Held;
    var slots := base.heap.slots;
    var link := Link(first, ns, i);
    var slots' := Relinked(slots, first, ns, i);
    NodeFacts(base, first, ns, i);
    NodeFacts(base, first, ns, i - 1);
    r1 := MoveLink(s, slots, ns[i], To(ns[i - 1]), link, At(ns, i + 1));
    r2 := EndLast(r1, slots', To(ns[i]), ns[i - 1], Link(first, ns, i - 1));
    r := EndItem(r2, slots', ns[i], At(ns, i + 1), link);
  }

  lemma RelinkedKeepsOut(slots: Slots, link: Loc, t: Target, d: Ptr)
    requires WithoutMembers(slots, d) == slots && (forall l | l in slots :: slots[l] != To(d))
    requires link in slots && t != To(d)
    ensures !MemberOf(link, d)
    ensures slots[Member(d, 0) := Null][link := t] == slots[link := t][Member(d, 0) := Null]
    ensures WithoutMembers(slots[link := t], d) == slots[link := t]
    ensures var slots' := slots[link := t]; forall l | l in slots' :: slots'[l] != To(d)
  {
    assert link in WithoutMembers(slots, d);
  }

  // No node was found: the local variables go and nothing has changed.
  lemma EndWalk(s: State, base: State, first: Loc, ns: seq<Ptr>, d: Ptr)
    returns (r1: State, r: State)
    requires Ready(base, first, ns, d) && Standing(s, base, ns, |ns|, d)
    ensures Legal(s, Destroy(LAST)) && Step(s, Destroy(LAST)) == Defined(r1) && Inv(r1)
    ensures Legal(r1, Destroy(ITEM)) && Step(r1, Destroy(ITEM)) == Defined(r)
    ensures Inv(r) && r.raw == base.raw && r.heap.slots == base.heap.slots && SameObjects(base.heap, r.heap, {})
  {
    hide Step, Inv, IsChain, Locals, Legal;
    if ns == [] {
      FreshAddress(base, d);
      r1 := EndLastFirst(s, base.heap.slots, Null, d);
    } else {
      NodeFacts(base, first, ns, |ns| - 1);
      r1 := EndLast(s, base.heap.slots, Null, ns[|ns| - 1], Link(first, ns, |ns| - 1));
    }
    r := EndItemNull(r1, base.heap.slots);
  }

  function FirstIndex(xs: seq<int>, x: int): (k: nat)
    ensures k <= |xs| && (k < |xs| ==> xs[k] == x)
    ensures forall i :: 0 <= i < k ==> xs[i] != x
  {
    if xs == [] || xs[0] == x then 0 else 1 + FirstIndex(xs[1..], x)
  }

  lemma FirstIndexUnique(xs: seq<int>, x: int, k: nat)
    requires k <= |xs| && (k < |xs| ==> xs[k] == x)
    requires forall i :: 0 <= i < k ==> xs[i] != x
    ensures FirstIndex(xs, x) == k
  {
  }

  lemma ValuesFront(data: map<Ptr, int>, ns: seq<Ptr>, p: Ptr, x: int)
    requires HasData(data, ns) && p !in ns
    ensures HasData(data[p := x], [p] + ns) && Values(data[p := x], [p] + ns) == [x] + Values(data, ns)
  {
  }

  ghost predicate Unchanged(base: State, r: State) {
    Inv(r) && r.raw == base.raw && r.heap.slots == base.heap.slots && SameObjects(base.heap, r.heap, {})
  }

  lemma UnchangedIsList(base: State, r: State, first: Loc, ns: seq<Ptr>)
    requires IsList(base, first, ns) && Unchanged(base, r)
    ensures IsList(r, first, ns)
  {
    hide Inv, IsChain;
  }

  lemma StandingFacts(s: State, base: State, ns: seq<Ptr>, i: nat, d: Ptr)
    requires Standing(s, base, ns, i, d)
    ensures Var(ITEM) in s.heap.slots && s.heap.slots[Var(ITEM)] == At(ns, i)
    ensures Var(LAST) in s.heap.slots && s.heap.slots[Var(LAST)] == if i == 0 then To(d) else To(ns[i - 1])
  {
    hide Inv;
  }

  lemma FirstStays(s: State, base: State, first: Loc, ns: seq<Ptr>, d: Ptr)
    requires Ready(base, first, ns, d) && Standing(s, base, ns, 0, d)
    ensures first in s.heap.slots && s.heap.slots[first] == At(ns, 0)
  {
    hide Inv, IsChain;
    FirstSlot(base, first, ns);
  }

  // None of the first `i` nodes holds `x`.
  ghost predicate Passed(data: map<Ptr, int>, ns: seq<Ptr>, i: nat, x: int) {
    i <= |ns| && forall j :: 0 <= j < i ==> ns[j] in data && data[ns[j]] != x
  }

  lemma FoundAt(data: map<Ptr, int>, ns: seq<Ptr>, i: nat, x: int)
    requires HasData(data, ns) && Passed(data, ns, i, x) && i < |ns| && data[ns[i]] == x
    ensures x in Values(data, ns) && FirstIndex(Values(data, ns), x) == i
  {
    assert Values(data, ns)[i] == x;
    FirstIndexUnique(Values(data, ns), x, i);
  }

  lemma NotFound(data: map<Ptr, int>, ns: seq<Ptr>, x: int)
    requires HasData(data, ns) && Passed(data, ns, |ns|, x)
    ensures x !in Values(data, ns)
  {
  }

  // ----- the list object -----

  class FastList {
    const memory: Memory
    const first: nat           // the variable `first`
    var listSize: int
    var data: map<Ptr, int>    // the payload of each item

    ghost predicate Valid(ns: seq<Ptr>)
      reads this, memory
    {
      && memory.Valid()
      && IsList(memory.S(), Var(first), ns)
      && listSize == |ns|
      && HasData(data, ns)
    }

    // The local variables of the operations do not exist between calls.
    ghost predicate AtRest()
      reads memory
    {
      Var(ITEM) !in memory.slots && Var(LAST) !in memory.slots
    }

    constructor (memory: Memory, first: nat)
      requires memory.Valid() && first > NEXT && Var(first) !in memory.slots
      modifies memory`objs, memory`slots
      ensures this.memory == memory && this.first == first && Valid([])
    {
      this.memory, this.first := memory, first;
      listSize, data := 0, map[];
      new;
      memory.Wrap(first, Null);
    }

    // The new item, at address `p`, goes to the front.
    method Append(x: int, ghost ns: seq<Ptr>) returns (p: Ptr)
      requires Valid(ns) && AtRest()
      modifies this`listSize, this`data, memory`objs, memory`slots
      ensures Valid([p] + ns) && AtRest()
      ensures Values(data, [p] + ns) == [x] + Values(old(data), ns)
      ensures memory.slots == old(memory.slots)[Member(p, 0) := At(ns, 0)][Var(first) := To(p)]
    {
      p := memory.NewAddress();
      ghost var base := memory.S();
      hide Step, Legal, Inv, Counted, IsList, AppendRuns, Prepended, Values, HasData;
      NotInList(base, Var(first), ns, p);
      ValuesFront(data, ns, p, x);
      ghost var s1, s2, s3, r := AppendSteps(base, Var(first), ns, p);
      PrependedIsList(base, r, Var(first), ns, p);
      PrependedSlots(base, r, Var(first), ns, p);
      LinkNewItem(p, s1, s2, s3, r);
      data := data[p := x];
      listSize := listSize + 1;
    }

    method LinkNewItem(p: Ptr, ghost s1: State, ghost s2: State, ghost s3: State, ghost r: State)
      requires memory.Valid() && AppendRuns(memory.S(), s1, s2, s3, r, Var(first), p)
      modifies memory`objs, memory`slots
      ensures memory.Valid() && memory.S() == r
    {
      hide Step, Legal, Counted;
      memory.Create(ITEM, p, 1);
      if memory.slots[Var(first)].To? {
        var ok := memory.Assign(Member(p, 0), Var(first));
      }
      var ok := memory.Assign(Var(first), Var(ITEM));
      memory.Destroy(ITEM);
    }

    // Removes the first item that holds `x`.
    method Remove(x: int, ghost ns: seq<Ptr>) returns (found: bool)
      requires Valid(ns) && AtRest()
      modifies this`listSize, memory`objs, memory`slots
      ensures AtRest()
      ensures found <==> x in Values(data, ns)
      ensures found ==> var k := FirstIndex(Values(data, ns), x);
                        && k < |ns| && Valid(Without(ns, k))
                        && NodeRemoved(old(memory.S()), memory.S(), Var(first), ns, k)
      ensures !found ==> Valid(ns) && Unchanged(old(memory.S()), memory.S())
    {
      var d := memory.NewAddress();   // of the item that `lastItem` is created with
      ghost var base := memory.S();
      hide Inv, IsList, Standing, SameObjects, Values, NodeRemoved;
      BeginWalk(ns, d);
      var useLastItem;
      ghost var i;
      found, useLastItem, i := Walk(x, base, ns, d);
      if found {
        FoundAt(data, ns, i, x);
        RemoveHere(useLastItem, base, ns, i, d);
      } else {
        NotFound(data, ns, x);
        EndOfWalk(base, ns, d);
      }
    }

    // The loop of `remove`, up to the item that holds `x`.
    method Walk(x: int, ghost base: State, ghost ns: seq<Ptr>, ghost d: Ptr)
      returns (found: bool, useLastItem: bool, ghost i: nat)
      requires Ready(base, Var(first), ns, d) && Standing(memory.S(), base, ns, 0, d) && HasData(data, ns)
      requires Var(ITEM) in memory.slots && memory.slots[Var(ITEM)] == At(ns, 0)
      modifies memory`objs, memory`slots
      ensures i <= |ns| && Standing(memory.S(), base, ns, i, d) && Passed(data, ns, i, x)
      ensures Var(ITEM) in memory.slots && memory.slots[Var(ITEM)] == At(ns, i)
      ensures found == (i < |ns|) && useLastItem == (i > 0) && (found ==> data[ns[i]] == x)
    {
      hide Inv, IsList, Standing, SameObjects;
      found, useLastItem, i := false, false, 0;
      while memory.slots[Var(ITEM)].To?
        invariant Standing(memory.S(), base, ns, i, d) && i <= |ns|
        invariant Var(ITEM) in memory.slots && memory.slots[Var(ITEM)] == At(ns, i)
        invariant !found && useLastItem == (i > 0)
        invariant Passed(data, ns, i, x)
        decreases |ns| - i
      {
        var p := memory.slots[Var(ITEM)].p;
        if data[p] == x {
          found := true;
          return;
        }
        StepOn(base, ns, i, d);
        useLastItem := true;
        i := i + 1;
      }
    }

    // auto item = first;  CP<...> lastItem;
    method BeginWalk(ghost ns: seq<Ptr>, d: Ptr)
      requires Ready(memory.S(), Var(first), ns, d)
      modifies memory`objs, memory`slots
      ensures Standing(memory.S(), old(memory.S()), ns, 0, d)
      ensures Var(ITEM) in memory.slots && memory.slots[Var(ITEM)] == At(ns, 0)
    {
      hide Step, Legal, Inv, IsList, Cursor, SameObjects;
      ghost var base := memory.S();
      ghost var r, r' := StartWalk(base, Var(first), ns, d);
      memory.Copy(ITEM, Var(first));
      memory.Create(LAST, d, 1);
      StandingFacts(memory.S(), base, ns, 0, d);
    }

    // lastItem = item;  item = item->next;
    method StepOn(ghost base: State, ghost ns: seq<Ptr>, ghost i: nat, ghost d: Ptr)
      requires Ready(base, Var(first), ns, d) && Standing(memory.S(), base, ns, i, d) && i < |ns|
      requires Var(ITEM) in memory.slots && memory.slots[Var(ITEM)] == To(ns[i])
      modifies memory`objs, memory`slots
      ensures Standing(memory.S(), base, ns, i + 1, d)
      ensures Var(ITEM) in memory.slots && memory.slots[Var(ITEM)] == At(ns, i + 1)
    {
      hide Step, Legal, Inv, IsList, Cursor, SameObjects;
      var p := memory.slots[Var(ITEM)].p;
      ghost var s1 := StepLast(memory.S(), base, Var(first), ns, i, d);
      var ok := memory.Assign(Var(LAST), Var(ITEM));
      ghost var s2 := StepItem(memory.S(), base, Var(first), ns, i, d);
      ok := memory.Assign(Var(ITEM), Member(p, 0));
      StandingFacts(memory.S(), base, ns, i + 1, d);
    }

    // The end of the local variables when no item was found.
    method EndOfWalk(ghost base: State, ghost ns: seq<Ptr>, ghost d: Ptr)
      requires Ready(base, Var(first), ns, d) && Standing(memory.S(), base, ns, |ns|, d)
      modifies memory`objs, memory`slots
      ensures Unchanged(base, memory.S()) && IsList(memory.S(), Var(first), ns) && AtRest()
    {
      hide Step, Legal, Inv, IsList, Cursor, SameObjects;
      ghost var r1, r2 := EndWalk(memory.S(), base, Var(first), ns, d);
      memory.Destroy(LAST);
      memory.Destroy(ITEM);
      UnchangedIsList(base, memory.S(), Var(first), ns);
    }

    // The branch of `remove` that has found the item.
    method RemoveHere(useLastItem: bool, ghost base: State, ghost ns: seq<Ptr>, ghost i: nat, ghost d: Ptr)
      requires Ready(base, Var(first), ns, d) && Standing(memory.S(), base, ns, i, d) && i < |ns|
      requires Var(ITEM) in memory.slots && memory.slots[Var(ITEM)] == To(ns[i])
      requires useLastItem == (i > 0)
      requires listSize == |ns| && HasData(data, ns)
      modifies this`listSize, memory`objs, memory`slots
      ensures NodeRemoved(base, memory.S(), Var(first), ns, i)
      ensures Valid(Without(ns, i)) && AtRest()
    {
      hide Step, Legal, Inv, Counted, IsList, Cursor, SameObjects;
      StandingFacts(memory.S(), base, ns, i, d);
      var p := memory.slots[Var(ITEM)].p;
      if useLastItem {
        ghost var r1, r2, r3 := UnlinkLater(memory.S(), base, Var(first), ns, i, d);
        var ok := memory.Assign(Member(memory.slots[Var(LAST)].p, 0), Member(p, 0));
      } else {
        FirstStays(memory.S(), base, Var(first), ns, d);
        ghost var r1, r2, r3 := UnlinkFirst(memory.S(), base, Var(first), ns, d);
        var ok := memory.Assign(Var(first), Member(memory.slots[Var(first)].p, 0));
      }
      listSize := listSize - 1;
      memory.Destroy(LAST);
      memory.Destroy(ITEM);
      RemovedIsList(base, memory.S(), Var(first), ns, i);
    }
  }
}
