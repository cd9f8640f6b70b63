/** The shared pool of packet buffers: a slot array with an intrusive free list over one flat byte store. */
module BufferPools {
  import opened Common
  import opened FreeList

  const MAX_PACKET_SIZE := 16384
  const BUFFER_SIZE := MAX_PACKET_SIZE

  /** Where the buffer of slot `i` starts in the store; this is the pointer handed to borrowers. */
  function Address(i: nat): nat {
    i * BUFFER_SIZE
  }

  function Addresses(n: nat): seq<nat> {
    seq<nat>(n, i requires 0 <= i < n => Address(i))
  }

  class BufferPool {
    const slots: array<Slot<nat>>
    const storage: array<byte>
    var freeList: Option<nat>

    ghost function View(): Pool<nat>
      reads this, slots
    {
      Pool(slots[..], freeList)
    }

    ghost predicate Valid()
      reads this, slots
    {
      && WellFormed(View())
      && storage.Length == slots.Length * BUFFER_SIZE
      && forall i: nat | i < slots.Length :: slots[i].item == Address(i)
    }

    /** The addresses that are lent out. */
    ghost function Lent(): set<nat>
      reads this, slots
    {
      set i: nat | i in View().InUse() :: Address(i)
    }

    constructor (maxBuffers: nat)
      requires maxBuffers > 0
      ensures Valid() && fresh(slots) && fresh(storage) && slots.Length == maxBuffers
      ensures View() == Fresh(Addresses(maxBuffers))
      ensures Lent() == {}
    {
      slots := new Slot<nat>[maxBuffers](_ => Slot(0, false, None));
      storage := new byte[maxBuffers * BUFFER_SIZE](_ => 0);
      freeList := None;
      new;
      for i := 0 to maxBuffers
        invariant forall j: nat | j < i ::
          slots[j] == Slot(Address(j), false, if j + 1 < maxBuffers then Some(j + 1) else None)
      {
        slots[i] := Slot(Address(i), false, if i < maxBuffers - 1 then Some(i + 1) else None);
      }
      freeList := Some(0);
      ghost var p := Fresh(Addresses(maxBuffers));
      assert slots[..] == p.slots && freeList == p.head;
      assert View() == p && View().InUse() == {};
    }

    /** One attempt of the borrowing loop: fails exactly when every slot is lent. */
    method BorrowBuffer() returns (buffer: Option<nat>)
      requires Valid()
      modifies this, slots
      ensures Valid()
      ensures old(freeList).None? ==> buffer.None? && View() == old(View())
      ensures old(freeList).Some? ==>
                && old(freeList).value < slots.Length
                && buffer == Some(Address(old(freeList).value))
                && old(freeList).value !in old(View().InUse())
                && View() == Take(old(View()))
                && View().InUse() == old(View().InUse()) + {old(freeList).value}
    {
      if freeList.Some? {
        TakeWellFormed(View());
        var h := freeList.value;
        var slot := slots[h];
        freeList := slot.next;
        slots[h] := slot.(inUse := true, next := None);
        assert View() == Take(old(View()));
        return Some(slot.item);
      }
      return None;
    }

    /** Returning nothing, an address that is no buffer, or a buffer already returned changes nothing. */
    method ReturnBuffer(buffer: Option<nat>)
      requires Valid()
      modifies this, slots
      ensures Valid()
      ensures forall i: nat | i < slots.Length && buffer == Some(Address(i)) :: View() == Give(old(View()), i)
      ensures (buffer.None? || forall i: nat | i < slots.Length :: buffer.value != Address(i)) ==> View() == old(View())
    {
      if buffer.None? { return; }
      var i: nat := 0;
      while i < slots.Length && slots[i].item != buffer.value
        invariant i <= slots.Length
        invariant forall j: nat | j < i :: Address(j) != buffer.value
      {
        i := i + 1;
      }
      if i == slots.Length || !slots[i].inUse { return; }
      GiveWellFormed(View(), i);
      slots[i] := slots[i].(inUse := false, next := freeList);
      freeList := Some(i);
      assert View() == Give(old(View()), i);
    }
  }
}
