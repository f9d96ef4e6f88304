/** The reference-counting smart pointer `CP` and the counter of `CpClass`.

    C++ frees an object when its counter reaches zero, and nothing in Dafny's own heap can be
    freed, so the memory of the server is modelled explicitly: live objects by address, each with
    its counter, and every CP handle by its place, a variable or a member of a live object.

    `Release` is the cascade that `CpClass::Release` starts: an object whose counter drops below
    1 is destroyed, its members with it, and each member releases what it points to.  An
    assignment releases the old target before it reads the source, so a source (or the assigned
    handle itself) inside an object which that release frees is a use of freed memory.
 */
module CpHeap {
  import opened Sequences

  type Ptr = nat

  datatype Loc = Var(id: nat) | Member(owner: Ptr, field: nat)

  datatype Target = Null | To(p: Ptr)

  // The counter and the number of CP members.
  datatype Obj = Obj(count: int, members: nat)

  type Slots = map<Loc, Target>

  datatype Heap = Heap(objs: map<Ptr, Obj>, slots: Slots)

  // ----- releasing -----

  // What the members of `p` point to, in the order in which they are destroyed.
  function Targets(slots: Slots, p: Ptr, members: nat): seq<Ptr> {
    if members == 0 then []
    else
      var l := Member(p, members - 1);
      (if l in slots && slots[l].To? then [slots[l].p] else []) + Targets(slots, p, members - 1)
  }

  predicate MemberOf(l: Loc, p: Ptr) {
    l.Member? && l.owner == p
  }

  function WithoutMembers(slots: Slots, p: Ptr): Slots {
    map l | l in slots && !MemberOf(l, p) :: slots[l]
  }

  function Delete(h: Heap, p: Ptr): Heap {
    Heap(h.objs - {p}, WithoutMembers(h.slots, p))
  }

  function Uncount(h: Heap, p: Ptr): (h': Heap)
    requires p in h.objs
    ensures h'.objs.Keys == h.objs.Keys
  {
    h.(objs := h.objs[p := h.objs[p].(count := h.objs[p].count - 1)])
  }

  // One call of `CpClass::Release`, for the first of the releases still to be carried out.
  function ReleaseOne(h: Heap, work: seq<Ptr>): (r: (Heap, seq<Ptr>))
    requires work != []
    ensures r.0.objs.Keys < h.objs.Keys || (r.0.objs.Keys == h.objs.Keys && |r.1| < |work|)
  {
    var p := work[0];
    if p !in h.objs then (h, work[1..])   // no run of the operations below gets here
    else
      if h.objs[p].count - 1 >= 1 then (Uncount(h, p), work[1..])
      else
        assert p !in Delete(h, p).objs.Keys;
        (Delete(h, p), Targets(h.slots, p, h.objs[p].members) + work[1..])
  }

  function Release(h: Heap, work: seq<Ptr>): Heap
    decreases h.objs.Keys, |work|
  {
    if work == [] then h
    else
      var (h', work') := ReleaseOne(h, work);
      Release(h', work')
  }

  function Grab(h: Heap, t: Target): Heap {
    if t.To? && t.p in h.objs
    then h.(objs := h.objs[t.p := h.objs[t.p].(count := h.objs[t.p].count + 1)])
    else h
  }

  // ----- the invariant -----

  function HandlesOn(slots: Slots, p: Ptr): set<Loc> {
    set l | l in slots && slots[l] == To(p)
  }

  // `raw` holds the objects that were created by a plain `new`, whose first count no handle owns;
  // `pending` the releases that are still to be carried out.
  ghost predicate Counted(h: Heap, raw: set<Ptr>, pending: seq<Ptr>) {
    && (forall p | p in h.objs ::
          && h.objs[p].count >= 1
          && h.objs[p].count == |HandlesOn(h.slots, p)| + (if p in raw then 1 else 0) + Count(pending, p))
    && Tidy(h)
    && raw <= h.objs.Keys
    && (forall p | p in pending :: p in h.objs)
  }

  // No handle points to a freed object, and the members that exist are those of live objects.
  ghost predicate Tidy(h: Heap) {
    && (forall l | l in h.slots :: h.slots[l].To? ==> h.slots[l].p in h.objs)
    && (forall l | l in h.slots :: l.Member? ==> l.owner in h.objs && l.field < h.objs[l.owner].members)
    && (forall p, f | p in h.objs && 0 <= f < h.objs[p].members :: Member(p, f) in h.slots)
  }

  ghost function MemberHandles(slots: Slots, p: Ptr, members: nat, q: Ptr): set<Loc> {
    set l | l in HandlesOn(slots, q) && MemberOf(l, p) && l.field < members
  }

  lemma MemberHandlesStep(slots: Slots, p: Ptr, members: nat, q: Ptr)
    requires Member(p, members) in slots
    ensures |MemberHandles(slots, p, members + 1, q)|
            == |MemberHandles(slots, p, members, q)| + (if slots[Member(p, members)] == To(q) then 1 else 0)
  {
    var l := Member(p, members);
    var fewer := MemberHandles(slots, p, members, q);
    var more := MemberHandles(slots, p, members + 1, q);
    forall m | m in more
      ensures m in fewer || m == l
    {
    }
    if slots[l] == To(q) {
      assert more == fewer + {l};
    } else {
      assert more == fewer;
    }
  }

  lemma {:induction false} TargetsCount(slots: Slots, p: Ptr, members: nat, q: Ptr)
    requires forall f :: 0 <= f < members ==> Member(p, f) in slots
    ensures Count(Targets(slots, p, members), q) == |MemberHandles(slots, p, members, q)|
    decreases members
  {
    if members == 0 {
      assert MemberHandles(slots, p, 0, q) == {};
    } else {
      TargetsCount(slots, p, members - 1, q);
      MemberHandlesStep(slots, p, members - 1, q);
      var l := Member(p, members - 1);
      CountConcat(if slots[l].To? then [slots[l].p] else [], Targets(slots, p, members - 1), q);
    }
  }

  lemma DeleteKeepsTidy(h: Heap, p: Ptr)
    requires Tidy(h) && p in h.objs && HandlesOn(h.slots, p) == {}
    ensures Tidy(Delete(h, p))
  {
    var h' := Delete(h, p);
    forall l | l in h'.slots && h'.slots[l].To?
      ensures h'.slots[l].p in h'.objs
    {
      assert l !in HandlesOn(h.slots, p);
    }
  }

  // The counters of the other objects lose exactly what the deleted object's members released.
  lemma DeleteCount(h: Heap, p: Ptr, q: Ptr)
    requires Tidy(h) && p in h.objs && p != q
    ensures |HandlesOn(h.slots, q)|
            == |HandlesOn(Delete(h, p).slots, q)| + Count(Targets(h.slots, p, h.objs[p].members), q)
  {
    var members := h.objs[p].members;
    TargetsCount(h.slots, p, members, q);
    var kept := HandlesOn(Delete(h, p).slots, q);
    var gone := MemberHandles(h.slots, p, members, q);
    assert HandlesOn(h.slots, q) == kept + gone;
    assert kept !! gone;
  }

  lemma DeletedIsUnheld(h: Heap, raw: set<Ptr>, p: Ptr, pending: seq<Ptr>)
    requires Counted(h, raw, [p] + pending) && h.objs[p].count == 1
    ensures HandlesOn(h.slots, p) == {} && p !in raw && p !in pending
  {
    CountFirst(p, pending, p);
    CountIn(pending, p);
    assert p in [p] + pending;
  }

  // What the deleted object releases is alive.
  lemma ReleasedIsLive(h: Heap, raw: set<Ptr>, p: Ptr, pending: seq<Ptr>, q: Ptr)
    requires Counted(h, raw, [p] + pending) && h.objs[p].count == 1
    requires q in Targets(h.slots, p, h.objs[p].members) + pending
    ensures q in Delete(h, p).objs
  {
    var ts := Targets(h.slots, p, h.objs[p].members);
    DeletedIsUnheld(h, raw, p, pending);
    if q in ts {
      CountIn(ts, q);
      TargetsCount(h.slots, p, h.objs[p].members, q);
      var l :| l in MemberHandles(h.slots, p, h.objs[p].members, q);
      assert l !in HandlesOn(h.slots, p);
    } else {
      assert q in [p] + pending;
    }
  }

  lemma DeleteKeepsCounts(h: Heap, raw: set<Ptr>, p: Ptr, pending: seq<Ptr>)
    requires Counted(h, raw, [p] + pending) && h.objs[p].count == 1
    ensures Counted(Delete(h, p), raw, Targets(h.slots, p, h.objs[p].members) + pending)
  {
    hide Tidy, Targets, Count;
    var ts := Targets(h.slots, p, h.objs[p].members);
    var h' := Delete(h, p);
    DeletedIsUnheld(h, raw, p, pending);
    DeleteKeepsTidy(h, p);
    forall q | q in h'.objs
      ensures h'.objs[q].count
              == |HandlesOn(h'.slots, q)| + (if q in raw then 1 else 0) + Count(ts + pending, q)
    {
      DeleteCount(h, p, q);
      CountFirst(p, pending, q);
      CountConcat(ts, pending, q);
    }
    forall q | q in ts + pending
      ensures q in h'.objs
    {
      ReleasedIsLive(h, raw, p, pending, q);
    }
  }

  lemma UncountKeepsTidy(h: Heap, p: Ptr)
    requires Tidy(h) && p in h.objs
    ensures Tidy(Uncount(h, p))
  {
  }

  lemma UncountOne(h: Heap, raw: set<Ptr>, p: Ptr, pending: seq<Ptr>)
    requires Counted(h, raw, [p] + pending) && h.objs[p].count > 1
    ensures Counted(Uncount(h, p), raw, pending)
  {
    hide Count, Tidy;
    assert p in [p] + pending;
    UncountKeepsTidy(h, p);
    forall q {
      CountFirst(p, pending, q);
    }
    forall q | q in pending
      ensures q in h.objs
    {
      assert q in [p] + pending;
    }
  }

  lemma ReleaseOneKeepsCounts(h: Heap, raw: set<Ptr>, work: seq<Ptr>)
    requires work != [] && Counted(h, raw, work)
    ensures var (h', work') := ReleaseOne(h, work); Counted(h', raw, work')
  {
    var p := work[0];
    assert work == [p] + work[1..] && p in work;
    if h.objs[p].count > 1 {
      UncountOne(h, raw, p, work[1..]);
    } else {
      DeleteKeepsCounts(h, raw, p, work[1..]);
    }
  }

  // Carrying out the pending releases leaves every counter equal to the handles on its object.
  lemma {:induction false} ReleaseKeepsCounts(h: Heap, raw: set<Ptr>, work: seq<Ptr>)
    requires Counted(h, raw, work)
    ensures Counted(Release(h, work), raw, [])
    decreases h.objs.Keys, |work|
  {
    if work != [] {
      var (h', work') := ReleaseOne(h, work);
      ReleaseOneKeepsCounts(h, raw, work);
      ReleaseKeepsCounts(h', raw, work');
    }
  }

  lemma ReleaseOneInFront(h: Heap, a: seq<Ptr>, b: seq<Ptr>)
    requires a != []
    ensures var (h', a') := ReleaseOne(h, a); ReleaseOne(h, a + b) == (h', a' + b)
  {
    assert (a + b)[1..] == a[1..] + b;
    if a[0] in h.objs {
      var ts := Targets(h.slots, a[0], h.objs[a[0]].members);
      assert ts + (a[1..] + b) == (ts + a[1..]) + b;
    }
  }

  lemma {:induction false} ReleaseInTurn(h: Heap, a: seq<Ptr>, b: seq<Ptr>)
    ensures Release(h, a + b) == Release(Release(h, a), b)
    decreases h.objs.Keys, |a|
  {
    if a == [] {
      assert a + b == b;
    } else {
      var (h', a') := ReleaseOne(h, a);
      ReleaseOneInFront(h, a, b);
      ReleaseInTurn(h', a', b);
    }
  }

  // ----- the operations of CP, and runs of them -----

  datatype State = State(heap: Heap, raw: set<Ptr>)

  const EMPTY := State(Heap(map[], map[]), {})

  datatype Op =
    | Create(v: nat, p: Ptr, members: nat)   // CP<T> v;          p is the address `new` returns
    | NewRaw(p: Ptr, members: nat)           // new T()
    | Wrap(v: nat, t: Target)                // CP<T> v(pointer);
    | Copy(v: nat, src: Loc)                 // CP<T> v(src);
    | Assign(dst: Loc, src: Loc)             // dst = src;
    | Destroy(v: nat)                        // v goes out of scope

  datatype Result = Defined(state: State) | UseAfterFree

  function NewMembers(p: Ptr, members: nat): Slots {
    map f | 0 <= f < members :: Member(p, f) := Null
  }

  // What the program may ask for: unused variables and addresses, handles that exist.
  predicate Legal(s: State, op: Op) {
    var slots := s.heap.slots;
    match op
    case Create(v, p, _) => Var(v) !in slots && p !in s.heap.objs
    case NewRaw(p, _) => p !in s.heap.objs
    case Wrap(v, t) => Var(v) !in slots && (t.To? ==> t.p in s.heap.objs)
    case Copy(v, src) => Var(v) !in slots && src in slots
    case Assign(dst, src) => dst in slots && src in slots
    case Destroy(v) => Var(v) in slots
  }

  function Drop(h: Heap, l: Loc): Heap
    requires l in h.slots
  {
    var h' := h.(slots := h.slots[l := Null]);
    if h.slots[l].To? then Release(h', [h.slots[l].p]) else h'
  }

  function Store(h: Heap, l: Loc, t: Target): Heap {
    Grab(h.(slots := h.slots[l := t]), t)
  }

  function Forget(h: Heap, v: nat): Heap {
    h.(slots := map l | l in h.slots && l != Var(v) :: h.slots[l])
  }

  function Step(s: State, op: Op): Result
    requires Legal(s, op)
  {
    var h := s.heap;
    match op
    case Create(v, p, members) =>
      Defined(s.(heap := Heap(h.objs[p := Obj(1, members)], (h.slots + NewMembers(p, members))[Var(v) := To(p)])))
    case NewRaw(p, members) =>
      Defined(State(Heap(h.objs[p := Obj(1, members)], h.slots + NewMembers(p, members)), s.raw + {p}))
    case Wrap(v, t) => Defined(s.(heap := Store(h, Var(v), t)))
    case Copy(v, src) => Defined(s.(heap := Store(h, Var(v), h.slots[src])))
    case Assign(dst, src) =>
      if dst == src then Defined(s)
      else
        var h' := Drop(h, dst);
        if dst in h'.slots && src in h'.slots
        then Defined(s.(heap := Store(h', dst, h'.slots[src])))
        else UseAfterFree
    case Destroy(v) => Defined(s.(heap := Forget(Drop(h, Var(v)), v)))
  }

  // Each live object's count is the number of CP handles on it, plus 1 if it came from a plain `new`.
  ghost predicate Inv(s: State) {
    Counted(s.heap, s.raw, [])
  }

  lemma StoreCount(slots: Slots, l: Loc, t: Target, p: Ptr)
    requires l in slots ==> slots[l] == Null
    ensures |HandlesOn(slots[l := t], p)| == |HandlesOn(slots, p)| + (if t == To(p) then 1 else 0)
  {
    if t == To(p) {
      assert HandlesOn(slots[l := t], p) == HandlesOn(slots, p) + {l};
    } else {
      assert HandlesOn(slots[l := t], p) == HandlesOn(slots, p);
    }
  }

  lemma StoreKeepsCounts(h: Heap, raw: set<Ptr>, l: Loc, t: Target)
    requires Counted(h, raw, [])
    requires l in h.slots ==> h.slots[l] == Null
    requires l.Member? ==> l in h.slots
    requires t.To? ==> t.p in h.objs
    ensures Counted(Store(h, l, t), raw, [])
  {
    forall p {
      StoreCount(h.slots, l, t, p);
    }
  }

  lemma ClearHandle(h: Heap, raw: set<Ptr>, l: Loc)
    requires Counted(h, raw, []) && l in h.slots
    ensures var pending := if h.slots[l].To? then [h.slots[l].p] else [];
            Counted(h.(slots := h.slots[l := Null]), raw, pending)
  {
    var pending := if h.slots[l].To? then [h.slots[l].p] else [];
    forall p
      ensures |HandlesOn(h.slots, p)| == |HandlesOn(h.slots[l := Null], p)| + Count(pending, p)
    {
      StoreCount(h.slots[l := Null], l, h.slots[l], p);
      assert h.slots[l].To? ==> pending[1..] == [];
      assert h.slots[l := Null][l := h.slots[l]] == h.slots;
    }
  }

  // A handle that is dropped is Null, or has gone with the object it was a member of.
  ghost predicate Shrinks(h: Heap, h': Heap) {
    && h'.objs.Keys <= h.objs.Keys
    && (forall p | p in h'.objs :: h'.objs[p].members == h.objs[p].members)
    && (forall l | l in h'.slots :: l in h.slots && h'.slots[l] == h.slots[l])
    && (forall l | l in h.slots && l !in h'.slots :: l.Member?)
  }

  lemma {:induction false} ReleaseKeepsSlots(h: Heap, work: seq<Ptr>)
    ensures Shrinks(h, Release(h, work))
    decreases h.objs.Keys, |work|
  {
    if work != [] {
      var (h', work') := ReleaseOne(h, work);
      assert Shrinks(h, h');
      ReleaseKeepsSlots(h', work');
    }
  }

  lemma DropKeepsCounts(h: Heap, raw: set<Ptr>, l: Loc)
    requires Counted(h, raw, []) && l in h.slots
    ensures Counted(Drop(h, l), raw, [])
    ensures l in Drop(h, l).slots ==> Drop(h, l).slots[l] == Null
    ensures l.Var? ==> l in Drop(h, l).slots
  {
    ClearHandle(h, raw, l);
    var h' := h.(slots := h.slots[l := Null]);
    if h.slots[l].To? {
      ReleaseKeepsCounts(h', raw, [h.slots[l].p]);
      ReleaseKeepsSlots(h', [h.slots[l].p]);
    }
  }

  lemma CreateKeepsCounts(h: Heap, raw: set<Ptr>, p: Ptr, members: nat)
    requires Counted(h, raw, []) && p !in h.objs
    ensures Counted(Heap(h.objs[p := Obj(1, members)], h.slots + NewMembers(p, members)), raw + {p}, [])
  {
    var slots' := h.slots + NewMembers(p, members);
    forall q
      ensures HandlesOn(slots', q) == HandlesOn(h.slots, q)
    {
      forall l | l in h.slots
        ensures l !in NewMembers(p, members)
      {
      }
    }
    assert HandlesOn(h.slots, p) == {};
  }

  // Every operation of CP keeps the counters right.
  lemma StepKeepsInv(s: State, op: Op)
    requires Inv(s) && Legal(s, op) && Step(s, op).Defined?
    ensures Inv(Step(s, op).state)
  {
    var h := s.heap;
    match op
    case Create(v, p, members) =>
      CreateKeepsCounts(h, s.raw, p, members);
      var h1 := Heap(h.objs[p := Obj(1, members)], h.slots + NewMembers(p, members));
      var slots' := h1.slots[Var(v) := To(p)];
      forall q {
        StoreCount(h1.slots, Var(v), To(p), q);
      }
    case NewRaw(p, members) =>
      CreateKeepsCounts(h, s.raw, p, members);
    case Wrap(v, t) =>
      StoreKeepsCounts(h, s.raw, Var(v), t);
    case Copy(v, src) =>
      StoreKeepsCounts(h, s.raw, Var(v), h.slots[src]);
    case Assign(dst, src) =>
      if dst != src {
        DropKeepsCounts(h, s.raw, dst);
        StoreKeepsCounts(Drop(h, dst), s.raw, dst, Drop(h, dst).slots[src]);
      }
    case Destroy(v) =>
      DropKeepsCounts(h, s.raw, Var(v));
      var h' := Drop(h, Var(v));
      forall q
        ensures HandlesOn(Forget(h', v).slots, q) == HandlesOn(h'.slots, q)
      {
      }
  }

  // A program, up to its first step outside the rules of C++.
  function Run(s: State, ops: seq<Op>): State
    decreases |ops|
  {
    if ops == [] || !Legal(s, ops[0]) || Step(s, ops[0]).UseAfterFree? then s
    else Run(Step(s, ops[0]).state, ops[1..])
  }

  // Safety over whole runs: from the empty memory every counter stays right and no handle ever
  // points to a freed object.
  lemma {:induction false} RunKeepsInv(s: State, ops: seq<Op>)
    requires Inv(s)
    ensures Inv(Run(s, ops))
    decreases |ops|
  {
    if ops != [] && Legal(s, ops[0]) && Step(s, ops[0]).Defined? {
      StepKeepsInv(s, ops[0]);
      RunKeepsInv(Step(s, ops[0]).state, ops[1..]);
    }
  }

  lemma EveryRunIsCounted(ops: seq<Op>)
    ensures Inv(Run(EMPTY, ops))
  {
    RunKeepsInv(EMPTY, ops);
  }

  // ----- when an assignment is defined -----

  // Something other than the dropped handle keeps `p` alive.
  ghost predicate Held(slots: Slots, raw: set<Ptr>, p: Ptr) {
    p in raw || exists l :: l in slots && slots[l] == To(p)
  }

  lemma HeldCount(h: Heap, raw: set<Ptr>, p: Ptr)
    requires Counted(h, raw, [p]) && Held(h.slots, raw, p)
    ensures p in h.objs && h.objs[p].count > 1
  {
    assert p in [p] && [p][1..] == [] && Count([p], p) == 1;
    if p !in raw {
      var m :| m in h.slots && h.slots[m] == To(p);
      assert m in HandlesOn(h.slots, p);
    }
  }

  // Releasing an object held elsewhere only lowers its counter.
  lemma ReleaseHeld(h: Heap, raw: set<Ptr>, p: Ptr)
    requires Counted(h, raw, [p]) && Held(h.slots, raw, p)
    ensures p in h.objs && Release(h, [p]) == Uncount(h, p)
  {
    HeldCount(h, raw, p);
    assert ReleaseOne(h, [p]) == (Uncount(h, p), [p][1..]);
    assert [p][1..] == [];
  }

  // Dropping a handle on an object that is held elsewhere frees nothing.
  lemma DropHeld(h: Heap, raw: set<Ptr>, l: Loc)
    requires Counted(h, raw, []) && l in h.slots
    requires h.slots[l].To? ==> Held(h.slots[l := Null], raw, h.slots[l].p)
    ensures Drop(h, l).slots == h.slots[l := Null]
    ensures Drop(h, l).objs.Keys == h.objs.Keys
  {
    if h.slots[l].To? {
      ClearHandle(h, raw, l);
      ReleaseHeld(h.(slots := h.slots[l := Null]), raw, h.slots[l].p);
    }
  }

  // Every handle on `p` is `l`, or a member of an object that comes earlier.
  ghost predicate OnlyHeldBy(slots: Slots, l: Loc, earlier: seq<Ptr>, p: Ptr) {
    forall m | m in slots && slots[m] == To(p) :: m == l || (m.Member? && m.owner in earlier)
  }

  // An order of objects that starts at the target of `l` and in which each is held by nothing but
  // `l` and members of earlier ones.
  ghost predicate FreeOrder(h: Heap, raw: set<Ptr>, l: Loc, order: seq<Ptr>)
    requires l in h.slots
  {
    && order != [] && h.slots[l] == To(order[0])
    && (forall i :: 0 <= i < |order| ==>
          order[i] in h.objs && order[i] !in raw && OnlyHeldBy(h.slots, l, order[..i], order[i]))
  }

  // What dropping `l` would free, read off the state before.
  ghost predicate Frees(h: Heap, raw: set<Ptr>, l: Loc, p: Ptr)
    requires l in h.slots
  {
    exists order :: FreeOrder(h, raw, l, order) && p in order
  }

  // `r` is `h` without the objects of `freed`, each of which only `l` and earlier ones held.
  ghost predicate Freed(h: Heap, raw: set<Ptr>, l: Loc, r: Heap, freed: seq<Ptr>) {
    && (forall p | p in h.objs :: p in r.objs <==> p !in freed)
    && (forall i :: 0 <= i < |freed| ==>
          freed[i] in h.objs && freed[i] !in raw && OnlyHeldBy(h.slots, l, freed[..i], freed[i]))
  }

  // The objects that a cascade frees, in the order in which it does.
  lemma {:induction false} ReleaseFrees(h: Heap, raw: set<Ptr>, work: seq<Ptr>, l: Loc) returns (freed: seq<Ptr>)
    requires Counted(h, raw, work)
    ensures Freed(h, raw, l, Release(h, work), freed)
    decreases h.objs.Keys, |work|
  {
    freed := [];
    if work != [] {
      hide Freed, Tidy;
      var p := work[0];
      assert p in work;
      var (h', work') := ReleaseOne(h, work);
      ReleaseOneKeepsCounts(h, raw, work);
      freed := ReleaseFrees(h', raw, work', l);
      if h.objs[p].count > 1 {
        FreedAfterUncount(h, raw, l, p, Release(h', work'), freed);
      } else {
        ReleaseKeepsSlots(h', work');
        FirstIsFree(h, raw, work, l);
        FreedAfterDelete(h, raw, l, p, Release(h', work'), freed);
        freed := [p] + freed;
      }
    }
  }

  lemma FreedAfterUncount(h: Heap, raw: set<Ptr>, l: Loc, p: Ptr, r: Heap, freed: seq<Ptr>)
    requires p in h.objs && Freed(Uncount(h, p), raw, l, r, freed)
    ensures Freed(h, raw, l, r, freed)
  {
    hide OnlyHeldBy;
  }

  lemma FreedAfterDelete(h: Heap, raw: set<Ptr>, l: Loc, p: Ptr, r: Heap, freed: seq<Ptr>)
    requires p in h.objs && p !in raw && OnlyHeldBy(h.slots, l, [], p)
    requires Freed(Delete(h, p), raw, l, r, freed) && r.objs.Keys <= Delete(h, p).objs.Keys
    ensures Freed(h, raw, l, r, [p] + freed)
  {
    hide OnlyHeldBy;
    var all := [p] + freed;
    assert all[..0] == [];
    forall i | 0 < i < |all|
      ensures all[i] in h.objs && all[i] !in raw && OnlyHeldBy(h.slots, l, all[..i], all[i])
    {
      assert all[i] == freed[i - 1] && all[..i] == [p] + freed[..i - 1];
      LaterIsFree(h.slots, l, p, freed[..i - 1], freed[i - 1]);
    }
  }

  lemma FirstIsFree(h: Heap, raw: set<Ptr>, work: seq<Ptr>, l: Loc)
    requires work != [] && Counted(h, raw, work) && work[0] in h.objs && h.objs[work[0]].count <= 1
    ensures work[0] !in raw && OnlyHeldBy(h.slots, l, [], work[0])
  {
    assert Count(work, work[0]) >= 1;
    assert HandlesOn(h.slots, work[0]) == {};
    forall m | m in h.slots
      ensures h.slots[m] != To(work[0])
    {
      assert m !in HandlesOn(h.slots, work[0]);
    }
  }

  lemma LaterIsFree(slots: Slots, l: Loc, p: Ptr, earlier: seq<Ptr>, q: Ptr)
    requires OnlyHeldBy(WithoutMembers(slots, p), l, earlier, q)
    ensures OnlyHeldBy(slots, l, [p] + earlier, q)
  {
    forall m | m in slots && slots[m] == To(q)
      ensures m == l || (m.Member? && m.owner in [p] + earlier)
    {
      if !MemberOf(m, p) {
        assert m in WithoutMembers(slots, p);
      }
    }
  }

  // Dropping a handle frees exactly the objects of such orders.
  lemma DropFreesExactly(h: Heap, raw: set<Ptr>, l: Loc, p: Ptr)
    requires Counted(h, raw, []) && l in h.slots && p in h.objs
    ensures p !in Drop(h, l).objs <==> Frees(h, raw, l, p)
  {
    if p !in Drop(h, l).objs {
      FreedHasOrder(h, raw, l, p);
    } else if Frees(h, raw, l, p) {
      var order :| FreeOrder(h, raw, l, order) && p in order;
      var k :| 0 <= k < |order| && order[k] == p;
      OrderIsFreed(h, raw, l, order, k);
      assert false;
    }
  }

  lemma FreedHasOrder(h: Heap, raw: set<Ptr>, l: Loc, p: Ptr)
    requires Counted(h, raw, []) && l in h.slots && p in h.objs && p !in Drop(h, l).objs
    ensures Frees(h, raw, l, p)
  {
    hide FreeOrder, OnlyHeldBy, Counted, Release;
    ClearHandle(h, raw, l);
    var h1 := h.(slots := h.slots[l := Null]);
    assert h.slots[l].To?;
    var freed := ReleaseFrees(h1, raw, [h.slots[l].p], l);
    assert freed != [];
    FreedIsOrder(h, raw, l, freed);
  }

  lemma FreedIsOrder(h: Heap, raw: set<Ptr>, l: Loc, freed: seq<Ptr>)
    requires Counted(h, raw, []) && l in h.slots && freed != []
    requires forall i :: 0 <= i < |freed| ==>
               && freed[i] in h.objs && freed[i] !in raw
               && OnlyHeldBy(h.slots[l := Null], l, freed[..i], freed[i])
    ensures FreeOrder(h, raw, l, freed)
  {
    hide OnlyHeldBy;
    forall i | 0 <= i < |freed|
      ensures OnlyHeldBy(h.slots, l, freed[..i], freed[i])
    {
      HeldBefore(h.slots, l, freed[..i], freed[i]);
    }
    assert freed[..0] == [];
    HeldByOne(h, raw, l, freed[0]);
  }

  lemma HeldBefore(slots: Slots, l: Loc, earlier: seq<Ptr>, p: Ptr)
    requires OnlyHeldBy(slots[l := Null], l, earlier, p)
    ensures OnlyHeldBy(slots, l, earlier, p)
  {
    forall m | m in slots && slots[m] == To(p)
      ensures m == l || (m.Member? && m.owner in earlier)
    {
      if m != l {
        assert slots[l := Null][m] == To(p);
      }
    }
  }

  lemma HeldByOne(h: Heap, raw: set<Ptr>, l: Loc, p: Ptr)
    requires Counted(h, raw, []) && l in h.slots && p in h.objs && p !in raw && OnlyHeldBy(h.slots, l, [], p)
    ensures h.slots[l] == To(p)
  {
    assert HandlesOn(h.slots, p) != {};
    var m :| m in HandlesOn(h.slots, p);
    assert m == l;
  }

  lemma NothingHolds(h: Heap, r: Heap, l: Loc, earlier: seq<Ptr>, p: Ptr)
    requires Tidy(r) && (l in r.slots ==> r.slots[l] == Null)
    requires forall m | m in r.slots && m != l :: m in h.slots && r.slots[m] == h.slots[m]
    requires OnlyHeldBy(h.slots, l, earlier, p) && (forall q | q in earlier :: q !in r.objs)
    ensures HandlesOn(r.slots, p) == {}
  {
  }

  // Nothing is left to hold the objects of an order, one after the other.
  lemma {:induction false} OrderIsFreed(h: Heap, raw: set<Ptr>, l: Loc, order: seq<Ptr>, k: nat)
    requires Counted(h, raw, []) && l in h.slots && FreeOrder(h, raw, l, order) && k < |order|
    ensures order[k] !in Drop(h, l).objs
    decreases k
  {
    forall j | 0 <= j < k
      ensures order[j] !in Drop(h, l).objs
    {
      OrderIsFreed(h, raw, l, order, j);
    }
    var r := Drop(h, l);
    DropKeepsCounts(h, raw, l);
    ReleaseKeepsSlots(h.(slots := h.slots[l := Null]), [h.slots[l].p]);
    NothingHolds(h, r, l, order[..k], order[k]);
  }

  // An assignment is a use of freed memory exactly when the handle it reads or the one it writes
  // is a member of an object that dropping the assigned handle frees: one that nothing but this
  // handle holds, directly or through objects that it alone holds.  In particular it never is when
  // both are variables, or when the old target is held by another handle.
  lemma AssignDefined(s: State, dst: Loc, src: Loc)
    requires Inv(s) && Legal(s, Assign(dst, src))
    ensures Step(s, Assign(dst, src)).UseAfterFree? <==>
            && dst != src
            && ((dst.Member? && Frees(s.heap, s.raw, dst, dst.owner))
                || (src.Member? && Frees(s.heap, s.raw, dst, src.owner)))
    ensures dst.Var? && src.Var? ==> Step(s, Assign(dst, src)).Defined?
    ensures (s.heap.slots[dst].To? ==> Held(s.heap.slots[dst := Null], s.raw, s.heap.slots[dst].p))
            ==> Step(s, Assign(dst, src)).Defined?
  {
    hide Frees;
    var h := s.heap;
    if dst.Member? {
      DropFreesExactly(h, s.raw, dst, dst.owner);
    }
    if src.Member? {
      DropFreesExactly(h, s.raw, dst, src.owner);
    }
    DropKeepsOwners(s, dst, dst);
    DropKeepsOwners(s, dst, src);
    if h.slots[dst].To? && Held(h.slots[dst := Null], s.raw, h.slots[dst].p) {
      DropHeld(h, s.raw, dst);
    }
  }

  // After a drop the handles that exist are the variables and the members of live objects.
  lemma DropKeepsOwners(s: State, dst: Loc, l: Loc)
    requires Inv(s) && dst in s.heap.slots && l in s.heap.slots
    ensures l in Drop(s.heap, dst).slots <==> (l.Var? || l.owner in Drop(s.heap, dst).objs)
  {
    var h := s.heap;
    DropKeepsCounts(h, s.raw, dst);
    var h' := Drop(h, dst);
    if h.slots[dst].To? {
      ReleaseKeepsSlots(h.(slots := h.slots[dst := Null]), [h.slots[dst].p]);
    }
    if l.Member? && l.owner in h'.objs {
      assert l.field < h.objs[l.owner].members;
    }
  }

  // ----- what each operation leaves -----

  // The object that `t` points to is counted once more, and nothing else about the objects changes.
  ghost predicate OnceMore(h: Heap, h': Heap, t: Target) {
    && h'.objs.Keys == h.objs.Keys
    && (forall p | p in h.objs ::
          h'.objs[p].members == h.objs[p].members
          && h'.objs[p].count == h.objs[p].count + (if t == To(p) then 1 else 0))
  }

  // Nothing but the objects of `Frees` and their members goes: all other handles, apart from `l`,
  // keep what they point to.
  ghost predicate LeavesRest(s: State, l: Loc, r: State)
    requires l in s.heap.slots
  {
    var h, h' := s.heap, r.heap;
    && r.raw == s.raw
    && (forall p :: p in h'.objs <==> p in h.objs && !Frees(h, s.raw, l, p))
    && (forall p | p in h'.objs :: h'.objs[p].members == h.objs[p].members)
    && (forall m | m != l ::
          m in h'.slots <==> m in h.slots && (m.Member? ==> !Frees(h, s.raw, l, m.owner)))
    && (forall m | m != l && m in h'.slots :: h'.slots[m] == h.slots[m])
  }

  // A new object is counted once, by the new variable or as a raw one; its members are empty, and
  // nothing else changes.
  ghost predicate NewObject(h: Heap, h': Heap, p: Ptr, members: nat) {
    && h'.objs == h.objs[p := Obj(1, members)]
    && (forall f | 0 <= f < members :: Member(p, f) in h'.slots && h'.slots[Member(p, f)] == Null)
  }

  lemma CreateLeaves(s: State, v: nat, p: Ptr, members: nat)
    requires Inv(s) && Legal(s, Create(v, p, members))
    ensures var next := Step(s, Create(v, p, members));
            && next.Defined? && next.state.raw == s.raw
            && NewObject(s.heap, next.state.heap, p, members)
            && Var(v) in next.state.heap.slots && next.state.heap.slots[Var(v)] == To(p)
            && (forall m | !MemberOf(m, p) && m != Var(v) :: m in next.state.heap.slots <==> m in s.heap.slots)
            && (forall m | m in s.heap.slots :: m in next.state.heap.slots
                                                && next.state.heap.slots[m] == s.heap.slots[m])
            && (forall m | m in next.state.heap.slots && MemberOf(m, p) :: m.field < members)
  {
  }

  lemma NewRawLeaves(s: State, p: Ptr, members: nat)
    requires Inv(s) && Legal(s, NewRaw(p, members))
    ensures var next := Step(s, NewRaw(p, members));
            && next.Defined? && next.state.raw == s.raw + {p}
            && NewObject(s.heap, next.state.heap, p, members)
            && (forall m | !MemberOf(m, p) :: m in next.state.heap.slots <==> m in s.heap.slots)
            && (forall m | m in s.heap.slots :: m in next.state.heap.slots
                                                && next.state.heap.slots[m] == s.heap.slots[m])
            && (forall m | m in next.state.heap.slots && MemberOf(m, p) :: m.field < members)
  {
  }

  // A handle made from a plain pointer points there, and the object is counted once more.
  lemma WrapLeaves(s: State, v: nat, t: Target)
    requires Legal(s, Wrap(v, t))
    ensures var next := Step(s, Wrap(v, t));
            && next.Defined? && next.state.raw == s.raw
            && next.state.heap.slots == s.heap.slots[Var(v) := t] && OnceMore(s.heap, next.state.heap, t)
  {
  }

  lemma CopyLeaves(s: State, v: nat, src: Loc)
    requires Legal(s, Copy(v, src))
    ensures var next := Step(s, Copy(v, src));
            && next.Defined? && next.state.raw == s.raw
            && next.state.heap.slots == s.heap.slots[Var(v) := s.heap.slots[src]]
            && OnceMore(s.heap, next.state.heap, s.heap.slots[src])
  {
  }

  lemma DropLeaves(s: State, l: Loc)
    requires Inv(s) && l in s.heap.slots
    ensures LeavesRest(s, l, s.(heap := Drop(s.heap, l)))
  {
    hide Frees, Release;
    var h := s.heap;
    var h' := Drop(h, l);
    if h.slots[l].To? {
      ReleaseKeepsSlots(h.(slots := h.slots[l := Null]), [h.slots[l].p]);
    }
    forall p
      ensures p in h'.objs <==> p in h.objs && !Frees(h, s.raw, l, p)
    {
      if p in h.objs {
        DropFreesExactly(h, s.raw, l, p);
      }
    }
    forall m | m != l
      ensures m in h'.slots <==> m in h.slots && (m.Member? ==> !Frees(h, s.raw, l, m.owner))
    {
      if m in h.slots {
        DropKeepsOwners(s, l, m);
        assert m.Member? ==> m.owner in h.objs;
      }
    }
  }

  // However far the cascade of an assignment goes: the assigned handle then points to what the source
  // pointed to, exactly the objects that only it held are gone, and all other handles are unchanged.
  // Every count is again the number of handles, plus 1 for a raw object.
  lemma AssignLeaves(s: State, dst: Loc, src: Loc)
    requires Inv(s) && Legal(s, Assign(dst, src)) && Step(s, Assign(dst, src)).Defined?
    ensures var r := Step(s, Assign(dst, src)).state;
            && dst in r.heap.slots && r.heap.slots[dst] == s.heap.slots[src]
            && (if dst == src then r == s else LeavesRest(s, dst, r))
            && Inv(r)
  {
    hide Frees, Drop, Inv;
    StepKeepsInv(s, Assign(dst, src));
    if dst != src {
      DropLeaves(s, dst);
    }
  }

  lemma DestroyLeaves(s: State, v: nat)
    requires Inv(s) && Legal(s, Destroy(v))
    ensures var next := Step(s, Destroy(v));
            && next.Defined? && Var(v) !in next.state.heap.slots && LeavesRest(s, Var(v), next.state)
            && Inv(next.state)
  {
    hide Frees, Drop, Inv;
    StepKeepsInv(s, Destroy(v));
    DropLeaves(s, Var(v));
  }

  // `first = first->next` on a list of two nodes that only `first` refers to reads freed memory:
  // the release frees the node whose member is still to be read.
  lemma AssignFromFreedNode()
    ensures var s := State(Heap(map[1 := Obj(1, 1), 2 := Obj(1, 1)],
                                map[Var(0) := To(1), Member(1, 0) := To(2), Member(2, 0) := Null]), {});
            Inv(s) && Step(s, Assign(Var(0), Member(1, 0))).UseAfterFree?
  {
    var h := Heap(map[1 := Obj(1, 1), 2 := Obj(1, 1)],
                  map[Var(0) := To(1), Member(1, 0) := To(2), Member(2, 0) := Null]);
    hide Counted, Step, Frees, HandlesOn;
    TwoNodes(h);
    FirstOfTwoIsFreed(h);
    AssignDefined(State(h, {}), Var(0), Member(1, 0));
  }

  lemma TwoNodes(h: Heap)
    requires h == Heap(map[1 := Obj(1, 1), 2 := Obj(1, 1)],
                       map[Var(0) := To(1), Member(1, 0) := To(2), Member(2, 0) := Null])
    ensures Counted(h, {}, [])
  {
    assert HandlesOn(h.slots, 1) == {Var(0)};
    assert HandlesOn(h.slots, 2) == {Member(1, 0)};
  }

  lemma FirstOfTwoIsFreed(h: Heap)
    requires h.slots == map[Var(0) := To(1), Member(1, 0) := To(2), Member(2, 0) := Null] && 1 in h.objs
    ensures Frees(h, {}, Var(0), 1)
  {
    assert FreeOrder(h, {}, Var(0), [1]);
  }

  // ----- dropping a handle whose object holds at most one other handle -----

  // The target of `l` dies with its last handle.
  ghost predicate Dies(h: Heap, raw: set<Ptr>, l: Loc) {
    l in h.slots && h.slots[l].To? && !Held(h.slots[l := Null], raw, h.slots[l].p)
  }

  ghost function SlotsAfterDrop(h: Heap, raw: set<Ptr>, l: Loc): Slots
    requires l in h.slots
  {
    var slots' := h.slots[l := Null];
    if Dies(h, raw, l) then WithoutMembers(slots', h.slots[l].p) else slots'
  }

  // If the target dies, what its single member points to is held elsewhere.
  ghost predicate DropIsShallow(h: Heap, raw: set<Ptr>, l: Loc) {
    Dies(h, raw, l) ==>
      var p := h.slots[l].p;
      && p in h.objs && h.objs[p].members == 1
      && Member(p, 0) in h.slots && l != Member(p, 0)
      && (h.slots[Member(p, 0)].To? ==> Held(SlotsAfterDrop(h, raw, l), raw, h.slots[Member(p, 0)].p))
  }

  lemma ReleaseDying(h: Heap, raw: set<Ptr>, p: Ptr)
    requires Counted(h, raw, [p]) && !Held(h.slots, raw, p)
    requires p in h.objs && h.objs[p].members == 1 && Member(p, 0) in h.slots
    requires h.slots[Member(p, 0)].To? ==> Held(WithoutMembers(h.slots, p), raw, h.slots[Member(p, 0)].p)
    ensures Release(h, [p]).slots == WithoutMembers(h.slots, p)
    ensures Release(h, [p]).objs.Keys == h.objs.Keys - {p}
  {
    var t := h.slots[Member(p, 0)];
    assert HandlesOn(h.slots, p) == {};
    assert [p] + [] == [p] && [p][1..] == [] && Count([p], p) == 1;
    assert p in [p];
    DeleteKeepsCounts(h, raw, p, []);
    var ts := Targets(h.slots, p, 1);
    assert Targets(h.slots, p, 0) == [];
    assert ts == if t.To? then [t.p] else [];
    assert ts + [] == ts;
    assert Release(h, [p]) == Release(Delete(h, p), ts);
    if t.To? {
      ReleaseHeld(Delete(h, p), raw, t.p);
    }
  }

  // Such a release frees at most one object: the cascade stops there.
  lemma DropShallow(h: Heap, raw: set<Ptr>, l: Loc)
    requires Counted(h, raw, []) && l in h.slots && DropIsShallow(h, raw, l)
    ensures Drop(h, l).slots == SlotsAfterDrop(h, raw, l)
    ensures Drop(h, l).objs.Keys == h.objs.Keys - (if Dies(h, raw, l) then {h.slots[l].p} else {})
  {
    if h.slots[l].To? {
      var p := h.slots[l].p;
      var h1 := h.(slots := h.slots[l := Null]);
      ClearHandle(h, raw, l);
      if Dies(h, raw, l) {
        ReleaseDying(h1, raw, p);
      } else {
        ReleaseHeld(h1, raw, p);
      }
    }
  }

  lemma DropKeepsMembers(h: Heap, l: Loc)
    requires l in h.slots
    ensures forall p | p in Drop(h, l).objs :: p in h.objs && Drop(h, l).objs[p].members == h.objs[p].members
  {
    if h.slots[l].To? {
      ReleaseKeepsSlots(h.(slots := h.slots[l := Null]), [h.slots[l].p]);
    }
  }

  // What an assignment or the end of a variable does to the handles when the release it causes is
  // shallow.

  ghost predicate SameObjects(h: Heap, h': Heap, gone: set<Ptr>) {
    && h'.objs.Keys == h.objs.Keys - gone
    && (forall p | p in h'.objs :: h'.objs[p].members == h.objs[p].members)
  }

  ghost function Dead(h: Heap, raw: set<Ptr>, l: Loc): set<Ptr>
    requires l in h.slots
  {
    if Dies(h, raw, l) then {h.slots[l].p} else {}
  }

  lemma AssignEffect(s: State, dst: Loc, src: Loc)
    returns (r: State)
    requires Inv(s) && dst in s.heap.slots && src in s.heap.slots && dst != src
    requires DropIsShallow(s.heap, s.raw, dst)
    requires Dies(s.heap, s.raw, dst) ==>
               !MemberOf(dst, s.heap.slots[dst].p) && !MemberOf(src, s.heap.slots[dst].p)
    ensures Legal(s, Assign(dst, src)) && Step(s, Assign(dst, src)) == Defined(r)
    ensures Inv(r) && r.raw == s.raw
    ensures r.heap.slots == SlotsAfterDrop(s.heap, s.raw, dst)[dst := s.heap.slots[src]]
    ensures SameObjects(s.heap, r.heap, Dead(s.heap, s.raw, dst))
  {
    hide Counted, Held;
    DropShallow(s.heap, s.raw, dst);
    DropKeepsMembers(s.heap, dst);
    DropKeepsCounts(s.heap, s.raw, dst);
    assert Step(s, Assign(dst, src)).Defined?;
    StepKeepsInv(s, Assign(dst, src));
    r := Step(s, Assign(dst, src)).state;
  }

  lemma DestroyEffect(s: State, v: nat)
    returns (r: State)
    requires Inv(s) && Var(v) in s.heap.slots && DropIsShallow(s.heap, s.raw, Var(v))
    ensures Legal(s, Destroy(v)) && Step(s, Destroy(v)) == Defined(r)
    ensures Inv(r) && r.raw == s.raw
    ensures r.heap.slots == SlotsAfterDrop(s.heap, s.raw, Var(v)) - {Var(v)}
    ensures SameObjects(s.heap, r.heap, Dead(s.heap, s.raw, Var(v)))
  {
    hide Counted, Held;
    DropShallow(s.heap, s.raw, Var(v));
    DropKeepsMembers(s.heap, Var(v));
    StepKeepsInv(s, Destroy(v));
    r := Step(s, Destroy(v)).state;
  }

  // The cases in which the list operations assign or drop a handle.

  // The old target, if there is one, is held by `other` too.
  lemma AssignHeld(s: State, dst: Loc, src: Loc, other: Loc)
    returns (r: State)
    requires Inv(s) && dst in s.heap.slots && src in s.heap.slots && dst != src
    requires s.heap.slots[dst].To? ==>
               other in s.heap.slots && other != dst && s.heap.slots[other] == s.heap.slots[dst]
    ensures Legal(s, Assign(dst, src)) && Step(s, Assign(dst, src)) == Defined(r)
    ensures Inv(r) && r.raw == s.raw
    ensures r.heap.slots == s.heap.slots[dst := s.heap.slots[src]]
    ensures SameObjects(s.heap, r.heap, {})
  {
    hide Counted, Step;
    if s.heap.slots[dst].To? {
      assert s.heap.slots[dst := Null][other] == s.heap.slots[dst];
    }
    r := AssignEffect(s, dst, src);
  }

  lemma DestroyHeld(s: State, v: nat, other: Loc)
    returns (r: State)
    requires Inv(s) && Var(v) in s.heap.slots
    requires s.heap.slots[Var(v)].To? ==>
               other in s.heap.slots && other != Var(v) && s.heap.slots[other] == s.heap.slots[Var(v)]
    ensures Legal(s, Destroy(v)) && Step(s, Destroy(v)) == Defined(r)
    ensures Inv(r) && r.raw == s.raw
    ensures r.heap.slots == s.heap.slots - {Var(v)}
    ensures SameObjects(s.heap, r.heap, {})
  {
    hide Counted, Step;
    if s.heap.slots[Var(v)].To? {
      assert s.heap.slots[Var(v) := Null][other] == s.heap.slots[Var(v)];
    }
    r := DestroyEffect(s, v);
    assert s.heap.slots[Var(v) := Null] - {Var(v)} == s.heap.slots - {Var(v)};
  }

  // `l` is the only handle on its target, whose single member is Null or points to what `other` holds.
  ghost predicate Lone(s: State, l: Loc, other: Loc) {
    var slots := s.heap.slots;
    && l in slots && slots[l].To?
    && var p := slots[l].p;
      && p !in s.raw && (forall m | m in slots && slots[m] == To(p) :: m == l)
      && p in s.heap.objs && s.heap.objs[p].members == 1 && Member(p, 0) in slots && !MemberOf(l, p)
      && (slots[Member(p, 0)].To? ==>
            other in slots && other != l && !MemberOf(other, p) && slots[other] == slots[Member(p, 0)])
  }

  lemma LoneIsShallow(s: State, l: Loc, other: Loc)
    requires Lone(s, l, other)
    ensures DropIsShallow(s.heap, s.raw, l) && Dies(s.heap, s.raw, l)
    ensures SlotsAfterDrop(s.heap, s.raw, l) == WithoutMembers(s.heap.slots[l := Null], s.heap.slots[l].p)
  {
    var p := s.heap.slots[l].p;
    assert !Held(s.heap.slots[l := Null], s.raw, p);
    if s.heap.slots[Member(p, 0)].To? {
      assert SlotsAfterDrop(s.heap, s.raw, l)[other] == s.heap.slots[Member(p, 0)];
    }
  }

  lemma AssignLone(s: State, dst: Loc, src: Loc, other: Loc)
    returns (r: State)
    requires Inv(s) && Lone(s, dst, other) && src in s.heap.slots && dst != src
    requires !MemberOf(src, s.heap.slots[dst].p)
    ensures Legal(s, Assign(dst, src)) && Step(s, Assign(dst, src)) == Defined(r)
    ensures Inv(r) && r.raw == s.raw
    ensures r.heap.slots == WithoutMembers(s.heap.slots, s.heap.slots[dst].p)[dst := s.heap.slots[src]]
    ensures SameObjects(s.heap, r.heap, {s.heap.slots[dst].p})
  {
    hide Counted, Step;
    LoneIsShallow(s, dst, other);
    r := AssignEffect(s, dst, src);
  }

  lemma DestroyLone(s: State, v: nat, other: Loc)
    returns (r: State)
    requires Inv(s) && Lone(s, Var(v), other)
    ensures Legal(s, Destroy(v)) && Step(s, Destroy(v)) == Defined(r)
    ensures Inv(r) && r.raw == s.raw
    ensures r.heap.slots == WithoutMembers(s.heap.slots, s.heap.slots[Var(v)].p) - {Var(v)}
    ensures SameObjects(s.heap, r.heap, {s.heap.slots[Var(v)].p})
  {
    hide Counted, Step;
    LoneIsShallow(s, Var(v), other);
    r := DestroyEffect(s, v);
  }

  lemma CreateEffect(s: State, v: nat, p: Ptr)
    returns (r: State)
    requires Inv(s) && Var(v) !in s.heap.slots && p !in s.heap.objs
    ensures Legal(s, Create(v, p, 1)) && Step(s, Create(v, p, 1)) == Defined(r)
    ensures Inv(r) && r.raw == s.raw
    ensures r.heap.slots == s.heap.slots[Member(p, 0) := Null][Var(v) := To(p)]
    ensures r.heap.objs == s.heap.objs[p := Obj(1, 1)]
  {
    hide Counted, NewMembers;
    StepKeepsInv(s, Create(v, p, 1));
    r := Step(s, Create(v, p, 1)).state;
    OneMember(p);
    assert s.heap.slots + map[Member(p, 0) := Null] == s.heap.slots[Member(p, 0) := Null];
  }

  lemma OneMember(p: Ptr)
    ensures NewMembers(p, 1) == map[Member(p, 0) := Null]
  {
  }

  lemma CopyEffect(s: State, v: nat, src: Loc)
    returns (r: State)
    requires Inv(s) && Var(v) !in s.heap.slots && src in s.heap.slots
    ensures Legal(s, Copy(v, src)) && Step(s, Copy(v, src)) == Defined(r)
    ensures Inv(r) && r.raw == s.raw
    ensures r.heap.slots == s.heap.slots[Var(v) := s.heap.slots[src]]
    ensures SameObjects(s.heap, r.heap, {})
  {
    StepKeepsInv(s, Copy(v, src));
    r := Step(s, Copy(v, src)).state;
  }
}
