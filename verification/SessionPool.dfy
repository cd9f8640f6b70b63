/** The pool of session objects of the relay, updated in place. */
module SessionPools {
  import opened Common
  import opened FreeList
  import opened Relay

  class SessionPool {
    const slots: array<Slot<Option<Ptr>>>
    var freeList: Option<nat>
    var activeCount: nat

    ghost function View(): Pool<Option<Ptr>>
      reads this, slots
    {
      Pool(slots[..], freeList)
    }

    ghost predicate Valid()
      reads this, slots
    {
      WellFormed(View()) && slots.Length > 0 && activeCount == |View().InUse()|
    }

    constructor (capacity: nat)
      requires capacity > 0
      ensures Valid() && fresh(slots) && slots.Length == capacity
      ensures View() == Fresh(Nothing(capacity)) && activeCount == 0
    {
      slots := new Slot<Option<Ptr>>[capacity](_ => Slot(None, false, None));
      freeList, activeCount := None, 0;
      new;
      LinkAll();
    }

    /** Every slot emptied and linked to the next, as the constructor and Clear do it. */
    method LinkAll()
      requires slots.Length > 0
      modifies this, slots
      ensures Valid() && View() == Fresh(Nothing(slots.Length)) && activeCount == 0
    {
      var n := slots.Length;
      for i := 0 to n
        invariant forall j: nat | j < i :: slots[j] == Slot(None, false, if j + 1 < n then Some(j + 1) else None)
      {
        slots[i] := Slot(None, false, if i < n - 1 then Some(i + 1) else None);
      }
      freeList, activeCount := Some(0), 0;
      ghost var p := Fresh(Nothing(n));
      assert slots[..] == p.slots;
      assert View() == p && View().InUse() == {};
    }

    /** Takes the head slot and reuses its session, or one built in `memory`; on failure nothing has changed. */
    method Acquire(memory: Option<Ptr>) returns (session: Option<Ptr>)
      requires Valid()
      modifies this, slots
      ensures Valid() && old(Steps(View()))
      ensures View() == Relay.Acquire(old(View()), memory).0 && session == Relay.Acquire(old(View()), memory).1
      ensures activeCount == old(activeCount) + (if session.Some? then 1 else 0)
    {
      if freeList.None? { return None; }
      HeadInRange(View());
      TakeWellFormed(View());
      var h := freeList.value;
      var slot := slots[h];
      freeList := slot.next;
      slots[h] := slot.(next := None);
      session := if slot.item.Some? then slot.item else memory;
      if session.None? {
        slots[h] := slots[h].(next := freeList);
        freeList := Some(h);
        assert slots[..] == old(slots[..]);
        return;
      }
      slots[h] := Slot(session, true, None);
      activeCount := activeCount + 1;
      ghost var taken := Take(old(View()));
      assert View() == Relay.Acquire(old(View()), memory).0;
      RelabelWellFormed(taken, View());
      assert View().InUse() == taken.InUse();
    }

    /** Puts a session's slot back in front of the list, once. */
    method Release(session: Ptr)
      requires Valid()
      modifies this, slots
      ensures Valid() && View() == Relay.Release(old(View()), session)
    {
      var i: nat := 0;
      while i < slots.Length && slots[i].item != Some(session)
        invariant i <= slots.Length
        invariant forall j: nat | j < i :: slots[j].item != Some(session)
      {
        i := i + 1;
      }
      ghost var found := FindSlot(slots[..], session);
      assert found == i;
      if i == slots.Length || !slots[i].inUse { return; }
      GiveWellFormed(View(), i);
      assert i in View().InUse() && |View().InUse()| > 0;
      slots[i] := slots[i].(inUse := false, next := freeList);
      freeList := Some(i);
      assert View() == Give(old(View()), i);
      activeCount := activeCount - 1;
    }

    method Clear()
      requires Valid()
      modifies this, slots
      ensures Valid() && View() == Fresh(Nothing(slots.Length)) && activeCount == 0
    {
      LinkAll();
    }
  }

  ghost predicate Steps(pool: Pool<Option<Ptr>>) {
    pool.head.Some? ==> pool.head.value < |pool.slots|
  }
}
