/** The memory of the server as an object that the operations of `CP` and `CpClass` change in place.

    Every method is specified by the corresponding function of `CpHeap`, and keeps every counter
    equal to the handles on its object.
 */
module CpMemory {
  import opened CpHeap

  // One release, and what is left to release after it.
  lemma ReleaseSteps(h: Heap, raw: set<Ptr>, p: Ptr, pending: seq<Ptr>)
    requires Counted(h, raw, [p] + pending)
    ensures p in h.objs && h.objs[p].count >= 1
    ensures Release(h, [p])
            == if h.objs[p].count > 1 then Uncount(h, p)
               else Release(Delete(h, p), Targets(h.slots, p, h.objs[p].members))
  {
    assert p in [p] + pending && [p][1..] == [];
    assert Targets(h.slots, p, h.objs[p].members) + [] == Targets(h.slots, p, h.objs[p].members);
  }

  lemma ReleaseNothing(h: Heap, targets: seq<Ptr>, pending: seq<Ptr>)
    ensures Release(h, targets[..0]) == h && targets[0..] + pending == targets + pending
  {
  }

  // Releasing the first `i` + 1 targets is releasing `i` of them and then one more.
  lemma OneOf(h: Heap, targets: seq<Ptr>, i: nat, pending: seq<Ptr>)
    requires i < |targets|
    ensures targets[i..] + pending == [targets[i]] + (targets[i + 1..] + pending)
    ensures Release(h, targets[..i + 1]) == Release(Release(h, targets[..i]), [targets[i]])
  {
    hide Release;
    assert targets[..i + 1] == targets[..i] + [targets[i]];
    ReleaseInTurn(h, targets[..i], [targets[i]]);
  }

  lemma TargetLives(h: Heap, raw: set<Ptr>, l: Loc)
    requires Counted(h, raw, []) && l in h.slots
    ensures h.slots[l].To? ==> h.slots[l].p in h.objs
  {
  }

  lemma AssignStep(s: State, dst: Loc, src: Loc)
    requires Legal(s, Op.Assign(dst, src))
    ensures dst in s.heap.slots && src in s.heap.slots
    ensures dst == src ==> Step(s, Op.Assign(dst, src)) == Defined(s)
    ensures dst != src ==> var h := Drop(s.heap, dst);
                           Step(s, Op.Assign(dst, src))
                           == if dst in h.slots && src in h.slots
                              then Defined(s.(heap := Store(h, dst, h.slots[src])))
                              else UseAfterFree
  {
  }

  class Memory {
    var objs: map<Ptr, Obj>
    var slots: Slots
    ghost var raw: set<Ptr>    // objects made by a plain `new`

    ghost function H(): Heap
      reads this
    {
      Heap(objs, slots)
    }

    ghost function S(): State
      reads this
    {
      State(H(), raw)
    }

    ghost predicate Valid()
      reads this
    {
      Inv(S())
    }

    constructor ()
      ensures Valid() && State(H(), raw) == EMPTY
    {
      objs, slots, raw := map[], map[], {};
    }

    // `new`: an address that no live object has.
    method NewAddress() returns (p: Ptr)
      ensures p !in objs
    {
      var left := objs.Keys;
      p := 0;
      while left != {}
        invariant forall q :: q in objs && q !in left ==> q < p
        decreases left
      {
        var q :| q in left;
        left := left - {q};
        if p <= q {
          p := q + 1;
        }
      }
    }

    // `CpClass::Grab`
    method GrabObject(p: Ptr)
      requires p in objs
      modifies this`objs
      ensures H() == Grab(old(H()), To(p))
    {
      objs := objs[p := objs[p].(count := objs[p].count + 1)];
    }

    // `CpClass::Release`, with the destructor that runs when the counter drops below 1.
    // `pending` are the releases that the callers have still to do.
    method ReleaseObject(p: Ptr, ghost pending: seq<Ptr>)
      requires Counted(H(), raw, [p] + pending)
      modifies this`objs, this`slots
      ensures H() == Release(old(H()), [p])
      ensures Counted(H(), raw, pending) && objs.Keys <= old(objs.Keys)
      decreases objs.Keys, 0
    {
      hide Counted, Release, Targets;
      ReleaseSteps(H(), raw, p, pending);
      ReleaseKeepsSlots(H(), [p]);
      if objs[p].count - 1 >= 1 {
        UncountOne(H(), raw, p, pending);
        objs := objs[p := objs[p].(count := objs[p].count - 1)];
      } else {
        var targets := Targets(slots, p, objs[p].members);
        DeleteKeepsCounts(H(), raw, p, pending);
        objs, slots := objs - {p}, WithoutMembers(slots, p);
        ReleaseMembers(targets, pending);
      }
    }

    // The destructors of the members, one after another.
    method ReleaseMembers(targets: seq<Ptr>, ghost pending: seq<Ptr>)
      requires Counted(H(), raw, targets + pending)
      modifies this`objs, this`slots
      ensures H() == Release(old(H()), targets)
      ensures Counted(H(), raw, pending)
      decreases objs.Keys, 1
    {
      ghost var h := H();
      hide Counted, Release, ReleaseOne, Tidy, Targets;
      ReleaseNothing(h, targets, pending);
      var i := 0;
      while i < |targets|
        invariant 0 <= i <= |targets|
        invariant Counted(H(), raw, targets[i..] + pending)
        invariant H() == Release(h, targets[..i])
        invariant objs.Keys <= h.objs.Keys
      {
        OneOf(h, targets, i, pending);
        ReleaseObject(targets[i], targets[i + 1..] + pending);
        i := i + 1;
      }
      assert targets[..i] == targets && targets[i..] + pending == pending;
    }

    // Gives up what the handle at `l` points to.
    method DropAt(l: Loc)
      requires Valid() && l in slots
      modifies this`objs, this`slots
      ensures Valid() && H() == Drop(old(H()), l)
    {
      var t := slots[l];
      ClearHandle(H(), raw, l);
      slots := slots[l := Null];
      if t.To? {
        assert [t.p] + [] == [t.p];
        ReleaseObject(t.p, []);
      }
    }

    // CP(type* p)
    method Wrap(v: nat, t: Target)
      requires Valid() && Legal(S(), Op.Wrap(v, t))
      modifies this`objs, this`slots
      ensures Valid() && Defined(S()) == Step(old(S()), Op.Wrap(v, t))
    {
      StepKeepsInv(S(), Op.Wrap(v, t));
      slots := slots[Var(v) := t];
      if t.To? {
        GrabObject(t.p);
      }
    }

    // CP(const CP<type>& cp)
    method Copy(v: nat, src: Loc)
      requires Valid() && Legal(S(), Op.Copy(v, src))
      modifies this`objs, this`slots
      ensures Valid() && Defined(S()) == Step(old(S()), Op.Copy(v, src))
    {
      StepKeepsInv(S(), Op.Copy(v, src));
      var t := slots[src];
      slots := slots[Var(v) := t];
      if t.To? {
        GrabObject(t.p);
      }
    }

    // CP(): the object is counted once, by its own constructor.
    method Create(v: nat, p: Ptr, members: nat)
      requires Valid() && Legal(S(), Op.Create(v, p, members))
      modifies this`objs, this`slots
      ensures Valid() && Defined(S()) == Step(old(S()), Op.Create(v, p, members))
    {
      StepKeepsInv(S(), Op.Create(v, p, members));
      objs, slots := objs[p := Obj(1, members)], (slots + NewMembers(p, members))[Var(v) := To(p)];
    }

    // operator=.  The old target is released before the source is read; `ok` is false when that
    // release has freed the source or the assigned handle.
    method Assign(dst: Loc, src: Loc) returns (ok: bool)
      requires Valid() && Legal(S(), Op.Assign(dst, src))
      modifies this`objs, this`slots
      ensures ok == Step(old(S()), Op.Assign(dst, src)).Defined?
      ensures ok ==> Valid() && Defined(S()) == Step(old(S()), Op.Assign(dst, src))
    {
      hide Counted, Step, Legal, Drop;
      AssignStep(S(), dst, src);
      if dst == src {
        return true;
      }
      DropKeepsCounts(H(), raw, dst);
      DropAt(dst);
      if dst !in slots || src !in slots {
        return false;
      }
      TargetLives(H(), raw, src);
      StoreKeepsCounts(H(), raw, dst, slots[src]);
      var t := slots[src];
      slots := slots[dst := t];
      if t.To? {
        GrabObject(t.p);
      }
      ok := true;
    }

    // ~CP() of a variable
    method Destroy(v: nat)
      requires Valid() && Legal(S(), Op.Destroy(v))
      modifies this`objs, this`slots
      ensures Valid() && Defined(S()) == Step(old(S()), Op.Destroy(v))
    {
      StepKeepsInv(S(), Op.Destroy(v));
      DropAt(Var(v));
      slots := map l | l in slots && l != Var(v) :: slots[l];
    }
  }
}
