/** The decoder object of the program: its fields, its buffer from the shared pool, and the Read loop. */
module Protocol {
  import opened Common
  import opened FreeList
  import opened BufferPools
  import opened Wire
  import F = Framing

  /** The slot whose buffer starts at `address`. */
  function SlotOf(address: nat): nat {
    address / BUFFER_SIZE
  }

  /** A byte within the buffer at `address` belongs to that buffer's slot. */
  lemma SlotWithin(address: nat, x: nat)
    requires address == Address(SlotOf(address))
    ensures address <= x < address + BUFFER_SIZE ==> SlotOf(x) == SlotOf(address)
  {
  }

  /** `Drop` skips the payload, or steps back if the announced size is negative. */
  datatype HeaderAction = Stop | NextHeader | Drop(size: int) | Receive

  class RyuLdnProtocol {
    const pool: BufferPool
    const headerBuffer: array<byte>
    var headerBytesReceived: nat
    var currentBuffer: Option<nat>
    var bufferEnd: nat
    var inPacket: bool
    /** What DecodeAndHandle has been called with, oldest first. */
    var log: seq<Packet>
    /** Set where the program would copy a negative count, leave the chunk, or never return. */
    var fault: Option<F.Misstep>

    /** A complete header may be waiting to be judged; everything else is in order. */
    ghost predicate Sound()
      reads this, headerBuffer, pool, pool.slots
    {
      && pool.Valid()
      && headerBuffer.Length == HEADER_SIZE && headerBuffer != pool.storage
      && headerBytesReceived <= HEADER_SIZE
      && (inPacket <==> currentBuffer.Some?)
      && (inPacket ==> headerBytesReceived == HEADER_SIZE && Held() <= pool.View().InUse())
      && (inPacket ==> currentBuffer.value == Address(SlotOf(currentBuffer.value)))
    }

    ghost predicate Valid()
      reads this, headerBuffer, pool, pool.slots, pool.storage
    {
      && Sound()
      && (!inPacket ==> bufferEnd == 0 && headerBytesReceived < HEADER_SIZE)
      && bufferEnd <= BUFFER_SIZE
      && Abs().Coherent()
    }

    /** The pool slots this decoder holds: one while in a packet, none otherwise. */
    ghost function Held(): set<nat>
      reads this
    {
      if inPacket && currentBuffer.Some? then {SlotOf(currentBuffer.value)} else {}
    }

    /** The pool slots lent to somebody else. */
    ghost function Others(): set<nat>
      reads this, pool, pool.slots
    {
      pool.View().InUse() - Held()
    }

    /** The payload bytes received so far. */
    ghost function Body(): seq<byte>
      reads this, pool.storage
    {
      if currentBuffer.Some? && currentBuffer.value + bufferEnd <= pool.storage.Length
      then pool.storage[currentBuffer.value..currentBuffer.value + bufferEnd] else []
    }

    ghost function Abs(): F.Decoder
      reads this, headerBuffer, pool.storage
    {
      if fault.Some? then F.Fault(fault.value)
      else if inPacket then F.Filling(headerBuffer[..], Body())
      else F.Idle(headerBuffer[..Min(headerBytesReceived, headerBuffer.Length)])
    }

    /** A borrow during the coming Read succeeds: the decoder holds a buffer it will give back first, or one is free. */
    ghost predicate CanLend()
      reads this, pool
    {
      inPacket || pool.freeList.Some?
    }

    /** The buffers lent to somebody else are `others`, and every byte of them is as in `store`. */
    ghost predicate Spared(store: seq<byte>, others: set<nat>)
      reads this, pool, pool.slots, pool.storage
    {
      && Others() == others && |store| == pool.storage.Length
      && forall x: nat | x < |store| && SlotOf(x) in others :: pool.storage[x] == store[x]
    }

    constructor (pool: BufferPool)
      requires pool.Valid()
      ensures Valid() && this.pool == pool && fresh(headerBuffer)
      ensures Abs() == F.Ready && log == [] && Held() == {}
    {
      this.pool := pool;
      headerBuffer := new byte[HEADER_SIZE](_ => 0);
      headerBytesReceived, bufferEnd := 0, 0;
      currentBuffer, inPacket, fault := None, false, None;
      log := [];
    }

    /** Back to the start; a held buffer goes back to the pool. */
    method Reset()
      requires Sound() && fault.None?
      modifies this, pool, pool.slots
      ensures Valid() && Abs() == F.Ready && Held() == {}
      ensures log == old(log) && Others() == old(Others())
      ensures pool.freeList.Some? == old(CanLend())
    {
      if currentBuffer.Some? {
        ghost var slot := SlotOf(currentBuffer.value);
        HeldInRange();
        GiveWellFormed(pool.View(), slot);
        pool.ReturnBuffer(currentBuffer);
        assert pool.View() == Give(old(pool.View()), slot);
        currentBuffer := None;
      }
      headerBytesReceived, bufferEnd, inPacket := 0, 0, false;
    }

    lemma HeldInRange()
      requires Sound()
      ensures inPacket ==> SlotOf(currentBuffer.value) < pool.slots.Length
      ensures inPacket ==> currentBuffer.value + BUFFER_SIZE <= pool.storage.Length
    {
      if inPacket {
        assert SlotOf(currentBuffer.value) in pool.View().InUse();
      }
    }

    /** Phase 1: store header bytes. */
    method CopyHeader(part: seq<byte>)
      requires Valid() && fault.None? && !inPacket && headerBytesReceived + |part| <= HEADER_SIZE
      modifies this`headerBytesReceived, headerBuffer
      ensures Sound() && headerBytesReceived == old(headerBytesReceived) + |part|
      ensures headerBuffer[..headerBytesReceived] == old(headerBuffer[..headerBytesReceived]) + part
    {
      forall k | 0 <= k < |part| { headerBuffer[headerBytesReceived + k] := part[k]; }
      headerBytesReceived := headerBytesReceived + |part|;
    }

    /** Phase 2: judge a complete header, and borrow a buffer when a payload is to follow. */
    method AcceptHeader() returns (action: HeaderAction)
      requires Sound() && fault.None? && !inPacket && bufferEnd == 0 && headerBytesReceived == HEADER_SIZE
      modifies this, pool, pool.slots
      ensures Valid() && headerBuffer[..] == old(headerBuffer[..]) && Others() == old(Others())
      ensures CanLend() == old(CanLend())
      ensures match F.Judge(ParseHeader(old(headerBuffer[..])))
              case Refused => action == Stop && Abs() == F.Ready && log == old(log)
              case Whole => action == NextHeader && Abs() == F.Ready && log == old(log) + [Packet(headerBuffer[4], [])]
              case Wanted(n) =>
                if old(CanLend()) && n < 0 then action == Stop && Abs() == F.Fault(F.Overrun) && log == old(log)
                else if old(CanLend()) then action == Receive && Abs() == F.Filling(old(headerBuffer[..]), []) && log == old(log)
                else action == Drop(n) && Abs() == F.Ready && log == old(log)
    {
      var header := ParseHeader(headerBuffer[..]);
      if header.magic != MAGIC || header.version != PROTOCOL_VERSION || header.dataSize >= MAX_PACKET_SIZE - HEADER_SIZE {
        Reset();
        return Stop;
      }
      if header.dataSize == 0 {
        log := log + [Packet(header.kind, [])];
        headerBytesReceived := 0;
        return NextHeader;
      }
      if header.dataSize < 0 && pool.freeList.Some? {
        fault, headerBytesReceived := Some(F.Overrun), 0;
        return Stop;
      }
      action := Engage(header.dataSize);
    }

    /** Borrows a buffer for a payload, or drops the packet. */
    method Engage(size: int) returns (action: HeaderAction)
      requires Sound() && fault.None? && !inPacket && bufferEnd == 0 && headerBytesReceived == HEADER_SIZE
      requires F.Judge(ParseHeader(headerBuffer[..])) == F.Wanted(size) && (size > 0 || pool.freeList.None?)
      modifies this, pool, pool.slots
      ensures Valid() && log == old(log) && Others() == old(Others()) && CanLend() == old(CanLend())
      ensures if old(CanLend()) then action == Receive && Abs() == F.Filling(headerBuffer[..], [])
              else action == Drop(size) && Abs() == F.Ready
    {
      currentBuffer := pool.BorrowBuffer();
      if currentBuffer.None? {
        headerBytesReceived := 0;
        return Drop(size);
      }
      inPacket := true;
      return Receive;
    }

    /** memcpy into the store. */
    method CopyInto(part: seq<byte>, at: nat)
      requires at + |part| <= pool.storage.Length
      modifies pool.storage
      ensures pool.storage[at..at + |part|] == part
      ensures forall x: nat | x < pool.storage.Length && !(at <= x < at + |part|) :: pool.storage[x] == old(pool.storage[x])
    {
      forall k | 0 <= k < |part| { pool.storage[at + k] := part[k]; }
    }

    /** Phase 3: store payload bytes in the held buffer, and nowhere else. */
    method CopyBody(part: seq<byte>)
      requires Valid() && fault.None? && inPacket && bufferEnd + |part| <= ParseHeader(headerBuffer[..]).dataSize
      modifies this`bufferEnd, pool.storage
      ensures Sound() && bufferEnd == old(bufferEnd) + |part| <= BUFFER_SIZE
      ensures Abs() == F.Filling(old(headerBuffer[..]), old(Body()) + part)
      ensures Spared(old(pool.storage[..]), old(Others()))
    {
      HeldInRange();
      var at := currentBuffer.value + bufferEnd;
      CopyInto(part, at);
      bufferEnd := bufferEnd + |part|;
      forall x: nat | x < pool.storage.Length && SlotOf(x) in old(Others())
        ensures pool.storage[x] == old(pool.storage[x])
      {
        SlotWithin(currentBuffer.value, x);
      }
      assert pool.storage[currentBuffer.value..at] == old(Body());
      assert Body() == pool.storage[currentBuffer.value..at] + pool.storage[at..at + |part|];
    }

    /** Phase 4: dispatch the packet, give its buffer back, start over. */
    method Complete()
      requires Sound() && fault.None? && inPacket
      requires bufferEnd <= BUFFER_SIZE
      modifies this, pool, pool.slots
      ensures Valid() && Abs() == F.Ready && Others() == old(Others()) && CanLend()
      ensures log == old(log) + [Packet(old(headerBuffer[4]), old(Body()))]
    {
      HeldInRange();
      log := log + [Packet(headerBuffer[4], pool.storage[currentBuffer.value..currentBuffer.value + bufferEnd])];
      Reset();
    }

    /** Phase 1 when the chunk ends within the header. */
    method StoreHeader(rest: seq<byte>)
      requires Valid() && fault.None? && !inPacket && headerBytesReceived + |rest| < HEADER_SIZE
      modifies this, headerBuffer
      ensures Valid() && fault.None? && log == old(log) && Others() == old(Others()) && CanLend() == old(CanLend())
      ensures Progress(old(Abs()), rest, old(CanLend()), [], F.Sweep(Abs(), [], CanLend()))
    {
      F.SweepHeaderPart(headerBuffer[..headerBytesReceived], rest, [], CanLend());
      assert rest + [] == rest;
      CopyHeader(rest);
    }

    /** Phases 1 and 2 when the header is completed by the first `count` bytes of the rest. */
    method FinishHeader(rest: seq<byte>, count: nat) returns (skipped: int, stop: bool, ghost out: seq<Packet>)
      requires Valid() && fault.None? && !inPacket && headerBytesReceived + count == HEADER_SIZE && count <= |rest|
      modifies this, headerBuffer, pool, pool.slots
      ensures Valid() && count + skipped <= |rest| && log == old(log) + out && Others() == old(Others())
      ensures (!stop ==> fault.None?) && CanLend() == old(CanLend())
      ensures Goes(F.Sweep(old(Abs()), rest, old(CanLend())), Abs(), rest[count..], old(CanLend()), skipped, stop, out)
    {
      ghost var h, lend := headerBuffer[..headerBytesReceived], CanLend();
      var part, tail := rest[..count], rest[count..];
      assert rest == part + tail;
      CopyHeader(part);
      F.SweepHeaderDone(h, part, tail, lend);
      assert headerBuffer[..] == h + part;
      skipped, stop, out := JudgePhase(tail);
    }

    /** Phase 2, with the payload of a packet that cannot be stored skipped as far as the chunk goes. */
    method JudgePhase(tail: seq<byte>) returns (skipped: int, stop: bool, ghost out: seq<Packet>)
      requires Sound() && fault.None? && !inPacket && bufferEnd == 0 && headerBytesReceived == HEADER_SIZE
      modifies this, pool, pool.slots
      ensures Valid() && skipped <= |tail| && log == old(log) + out && Others() == old(Others())
      ensures (!stop ==> fault.None?) && CanLend() == old(CanLend())
      ensures Goes(F.AfterHeader(old(headerBuffer[..]), tail, old(CanLend())), Abs(), tail, old(CanLend()), skipped, stop, out)
    {
      skipped, stop, out := 0, false, [];
      var action := AcceptHeader();
      match action
      case Stop => stop := true;
      case NextHeader => out := [Packet(headerBuffer[4], [])];
      case Drop(n) => skipped := if n < |tail| then n else |tail|;
      case Receive =>
    }

    /** Phases 3 and 4 on the unread part of the chunk. */
    method BodyPhase(rest: seq<byte>) returns (consumed: nat, ghost out: seq<Packet>)
      requires Valid() && fault.None? && inPacket && rest != []
      modifies this, pool, pool.slots, pool.storage
      ensures Valid() && fault.None? && 0 < consumed <= |rest| && log == old(log) + out && CanLend()
      ensures Progress(old(Abs()), rest, true, out, F.Sweep(Abs(), rest[consumed..], true))
      ensures Spared(old(pool.storage[..]), old(Others()))
    {
      ghost var h, body := headerBuffer[..], Body();
      var finalSize := ParseHeader(headerBuffer[..]).dataSize;
      consumed, out := Min(|rest|, finalSize - bufferEnd), [];
      var part := rest[..consumed];
      assert rest == part + rest[consumed..];
      CopyBody(part);
      if bufferEnd >= finalSize {
        F.SweepBody(h, body, part, rest[consumed..], true);
        out := [Packet(h[4], body + part)];
        Complete();
      } else {
        F.SweepBodyPart(h, body, part, rest[consumed..], true);
      }
    }

    /**
     One turn of the receive loop on what is left of the chunk. It takes at
     least one byte, and then may step back. Where the program falls through
     from a fresh header to its payload, the payload is the next turn; with no
     byte left that turn would copy nothing.
     */
    method Turn(rest: seq<byte>) returns (taken: nat, skipped: int, stop: bool, ghost out: seq<Packet>)
      requires Valid() && fault.None? && rest != []
      modifies this, headerBuffer, pool, pool.slots, pool.storage
      ensures Valid() && 0 < taken <= |rest| && taken + skipped <= |rest| && log == old(log) + out
      ensures (!stop ==> fault.None?) && CanLend() == old(CanLend())
      ensures Goes(F.Sweep(old(Abs()), rest, old(CanLend())), Abs(), rest[taken..], old(CanLend()), skipped, stop, out)
      ensures Spared(old(pool.storage[..]), old(Others()))
    {
      if headerBytesReceived < HEADER_SIZE {
        taken := Min(|rest|, HEADER_SIZE - headerBytesReceived);
        if headerBytesReceived + taken < HEADER_SIZE {
          StoreHeader(rest);
          skipped, stop, out := 0, false, [];
          return;
        }
        skipped, stop, out := FinishHeader(rest, taken);
      } else {
        skipped, stop := 0, false;
        taken, out := BodyPhase(rest);
      }
    }

    /**
     A turn of the loop on the bytes from `index` on, and where the next one
     starts. The program does not look where a step back leads; the model does,
     to say when it leaves the chunk and when it comes round again.
     */
    method Round(chunk: seq<byte>, index: nat, landed: set<nat>) returns (next: nat, now: set<nat>, stop: bool)
      requires Valid() && fault.None? && index < |chunk| && landed <= F.UpTo(|chunk|)
      modifies this, headerBuffer, pool, pool.slots, pool.storage
      ensures Valid() && next <= |chunk| && landed <= now <= F.UpTo(|chunk|)
      ensures !stop ==> fault.None? && ((now == landed && index < next) || F.UpTo(|chunk|) - now < F.UpTo(|chunk|) - landed)
      ensures Awaits(F.Resume(old(Abs()), chunk, index, old(CanLend()), landed), old(log), log, Abs(), chunk, next, old(CanLend()), now, stop)
      ensures Spared(old(pool.storage[..]), old(Others())) && CanLend() == old(CanLend())
    {
      var rest := chunk[index..];
      ghost var d, earlier, lend := Abs(), log, CanLend();
      var taken, skipped;
      ghost var out;
      taken, skipped, stop, out := Turn(rest);
      assert rest[taken..] == chunk[index + taken..];
      now := landed;
      if stop || skipped >= 0 {
        Advanced(earlier, d, chunk, index, lend, landed, Abs(), taken, skipped, stop, out);
        next := if stop then |chunk| else index + taken + skipped;
        return;
      }
      SteppedBack(earlier, d, chunk, index, lend, landed, taken, skipped, out);
      var to := index + taken + skipped;
      if to < 0 || to in landed {
        fault, stop, next := Some(if to < 0 then F.Underrun else F.Spin), true, |chunk|;
      } else {
        next, now := to, landed + {to};
        assert to in F.UpTo(|chunk|) - landed;
      }
    }

    /**
     The receive loop over one chunk. It computes what the byte-at-a-time
     decoder computes, holds a pool buffer exactly while in a packet, and
     leaves every buffer lent to somebody else alone.
     */
    method Read(data: seq<byte>, offset: nat, size: nat)
      requires Valid() && offset + size <= |data|
      modifies this, headerBuffer, pool, pool.slots, pool.storage
      ensures Valid()
      ensures Abs() == F.Read(old(Abs()), data[offset..offset + size], old(CanLend())).d
      ensures log == old(log) + F.Read(old(Abs()), data[offset..offset + size], old(CanLend())).log
      ensures Spared(old(pool.storage[..]), old(Others())) && CanLend() == old(CanLend())
    {
      var index: nat, chunk, stop := 0, data[offset..offset + size], fault.Some?;
      var landed: set<nat> := {};
      ghost var lend, store, others := CanLend(), pool.storage[..], Others();
      ghost var goal := F.Read(Abs(), chunk, lend);
      AwaitsAll(Abs(), chunk, lend, log);
      if stop { Unmoved(fault.value, chunk, lend); }
      while index < size && !stop
        invariant index <= size && landed <= F.UpTo(|chunk|)
        invariant Valid() && (!stop ==> fault.None?) && CanLend() == lend
        invariant Awaits(goal, old(log), log, Abs(), chunk, index, lend, landed, stop)
        invariant Spared(store, others)
        decreases !stop, F.UpTo(|chunk|) - landed, |chunk| - index
      {
        index, landed, stop := Round(chunk, index, landed);
      }
      AwaitsNothing(goal, old(log), log, Abs(), chunk, index, lend, landed, stop);
    }
  }

  // ---------------------------------------------------------------- decoders that share the pool

  /** Bytes of a slot among `others` are the same in both stores. */
  lemma BufferSpared(before: seq<byte>, after: seq<byte>, others: set<nat>, at: nat, n: nat)
    requires |before| == |after| && at + n <= |before| && n <= BUFFER_SIZE
    requires at == Address(SlotOf(at)) && SlotOf(at) in others
    requires forall x: nat | x < |before| && SlotOf(x) in others :: after[x] == before[x]
    ensures after[at..at + n] == before[at..at + n]
  {
    forall x: nat | at <= x < at + n ensures after[x] == before[x] {
      SlotWithin(at, x);
    }
  }

  /** Two decoders of one pool, each in order, without a common buffer. */
  ghost predicate Apart(d: RyuLdnProtocol, e: RyuLdnProtocol)
    reads d, d.headerBuffer, d.pool, d.pool.slots, d.pool.storage, e, e.headerBuffer, e.pool, e.pool.slots, e.pool.storage
  {
    && d != e && d.pool == e.pool && d.headerBuffer != e.headerBuffer
    && d.Valid() && e.Valid() && d.Held() !! e.Held()
  }

  /**
   Sessions share one pool: a Read of one leaves any other decoder's state,
   payload and log as they were, and they never come to hold the same buffer.
   */
  method ReadBeside(d: RyuLdnProtocol, ghost e: RyuLdnProtocol, data: seq<byte>, offset: nat, size: nat)
    requires Apart(d, e) && offset + size <= |data|
    modifies d, d.headerBuffer, d.pool, d.pool.slots, d.pool.storage
    ensures Apart(d, e) && e.Abs() == old(e.Abs()) && e.log == old(e.log)
    ensures d.Abs() == F.Read(old(d.Abs()), data[offset..offset + size], old(d.CanLend())).d
  {
    ghost var others, store, held := d.Others(), d.pool.storage[..], e.Held();
    ghost var header, body := e.headerBuffer[..], e.Body();
    assert held <= others;
    d.Read(data, offset, size);
    assert e.Held() == held && d.Others() == others && e.headerBuffer[..] == header;
    if e.inPacket {
      ghost var at := e.currentBuffer.value;
      e.HeldInRange();
      BufferSpared(store, d.pool.storage[..], others, at, e.bufferEnd);
      assert e.Body() == store[at..at + e.bufferEnd] == body;
    }
  }

  /** Reading `chunk` from `d` dispatches `out` first and then does what `o` says. */
  ghost predicate Progress(d: F.Decoder, chunk: seq<byte>, lend: bool, out: seq<Packet>, o: F.Outcome)
    requires d.Coherent()
  {
    Alike(F.Sweep(d, chunk, lend), o.After(out))
  }

  /** The same decoder and packets; and the same step back, if there is one. */
  ghost predicate Alike(o: F.Outcome, p: F.Outcome) {
    o.d == p.d && o.log == p.log && (o.ending.Back? || p.ending.Back? ==> o.ending == p.ending)
  }

  /**
   Outcome `o` of a pass, after a turn that dispatched `out` and left the
   decoder as `d` before `tail`: the loop stops, steps back, or goes on
   `skipped` bytes further.
   */
  ghost predicate Goes(o: F.Outcome, d: F.Decoder, tail: seq<byte>, lend: bool, skipped: int, stop: bool, out: seq<Packet>)
    requires d.Coherent() && skipped <= |tail|
  {
    if stop then o.d == d && o.log == out && !o.ending.Back?
    else if skipped < 0 then o == F.Outcome(F.Ready, out, F.Back(|tail|, -skipped)) && d == F.Ready
    else Alike(o, F.Sweep(d, tail[skipped..], lend).After(out))
  }

  /** The call is to end as `goal`: from here on, that is what happens to the bytes from `index` on. */
  ghost predicate Awaits(goal: F.Outcome, logAtStart: seq<Packet>, log: seq<Packet>, d: F.Decoder, chunk: seq<byte>, index: nat,
                         lend: bool, landed: set<nat>, stop: bool)
    requires d.Coherent() && index <= |chunk|
  {
    var o := if stop then F.Outcome(d, [], F.Clean) else F.Resume(d, chunk, index, lend, landed);
    goal.d == o.d && logAtStart + goal.log == log + o.log
  }

  lemma AwaitsAll(d: F.Decoder, chunk: seq<byte>, lend: bool, log: seq<Packet>)
    requires d.Coherent()
    ensures Awaits(F.Read(d, chunk, lend), log, log, d, chunk, 0, lend, {}, false)
  {
    assert chunk[0..] == chunk;
  }

  lemma AwaitsNothing(goal: F.Outcome, logAtStart: seq<Packet>, log: seq<Packet>, d: F.Decoder, chunk: seq<byte>, index: nat,
                      lend: bool, landed: set<nat>, stop: bool)
    requires d.Coherent() && index <= |chunk| && (stop || index == |chunk|)
    requires Awaits(goal, logAtStart, log, d, chunk, index, lend, landed, stop)
    ensures goal.d == d && logAtStart + goal.log == log
  {
    if !stop {
      var here := F.Outcome(d, [], F.Clean);
      assert chunk[index..] == [] && F.Sweep(d, [], lend) == here;
      assert F.Resume(d, chunk, index, lend, landed) == F.Follow(here, chunk, lend, landed) == here;
    }
  }

  lemma Unmoved(why: F.Misstep, chunk: seq<byte>, lend: bool)
    ensures F.Read(F.Fault(why), chunk, lend) == F.Outcome(F.Fault(why), [], F.Clean)
  {
    F.FaultForever(why, chunk, lend);
    F.ReadForward(F.Fault(why), chunk, lend);
  }

  /** After a turn that stopped, or went on. */
  lemma Advanced(log: seq<Packet>, d: F.Decoder, chunk: seq<byte>, index: nat,
                 lend: bool, landed: set<nat>, next: F.Decoder, taken: nat, skipped: int, stop: bool, out: seq<Packet>)
    requires d.Coherent() && next.Coherent() && index + taken <= |chunk| && index + taken + skipped <= |chunk|
    requires Goes(F.Sweep(d, chunk[index..], lend), next, chunk[index + taken..], lend, skipped, stop, out)
    requires stop || skipped >= 0
    ensures Awaits(F.Resume(d, chunk, index, lend, landed), log, log + out, next, chunk,
                   if stop then |chunk| else index + taken + skipped, lend, landed, stop)
  {
    if stop {
      var o := F.Sweep(d, chunk[index..], lend);
      assert F.Resume(d, chunk, index, lend, landed) == F.Follow(o, chunk, lend, landed) == o;
    } else {
      WentOn(log, d, chunk, index, lend, landed, next, index + taken, skipped, out);
    }
  }

  lemma WentOn(log: seq<Packet>, d: F.Decoder, chunk: seq<byte>, index: nat,
               lend: bool, landed: set<nat>, next: F.Decoder, at: nat, skipped: nat, out: seq<Packet>)
    requires d.Coherent() && next.Coherent() && index <= at && at + skipped <= |chunk|
    requires Alike(F.Sweep(d, chunk[index..], lend), F.Sweep(next, chunk[at..][skipped..], lend).After(out))
    ensures Awaits(F.Resume(d, chunk, index, lend, landed), log, log + out, next, chunk, at + skipped, lend, landed, false)
  {
    assert chunk[at..][skipped..] == chunk[at + skipped..];
    ResumeAlike(d, next, chunk, index, at + skipped, lend, landed, out);
    Assoc(log, out, F.Resume(next, chunk, at + skipped, lend, landed).log);
  }

  lemma ResumeAlike(d: F.Decoder, next: F.Decoder, chunk: seq<byte>, i: nat, j: nat, lend: bool, landed: set<nat>, out: seq<Packet>)
    requires d.Coherent() && next.Coherent() && i <= j <= |chunk|
    requires Alike(F.Sweep(d, chunk[i..], lend), F.Sweep(next, chunk[j..], lend).After(out))
    ensures F.Resume(d, chunk, i, lend, landed).d == F.Resume(next, chunk, j, lend, landed).d
    ensures F.Resume(d, chunk, i, lend, landed).log == out + F.Resume(next, chunk, j, lend, landed).log
  {
    FollowAlike(F.Sweep(d, chunk[i..], lend), F.Sweep(next, chunk[j..], lend), chunk, lend, landed, out);
  }

  lemma FollowAlike(o: F.Outcome, p: F.Outcome, chunk: seq<byte>, lend: bool, landed: set<nat>, out: seq<Packet>)
    requires o.d.Coherent() && p.d.Coherent() && AllInRange(o.log) && AllInRange(p.log) && Alike(o, p.After(out))
    ensures F.Follow(o, chunk, lend, landed).d == F.Follow(p, chunk, lend, landed).d
    ensures F.Follow(o, chunk, lend, landed).log == out + F.Follow(p, chunk, lend, landed).log
  {
    if p.ending.Back? {
      var to := F.Landing(p, chunk);
      if to >= 0 && to !in landed {
        Assoc(out, p.log, F.Resume(F.Ready, chunk, to, lend, landed + {to}).log);
      }
    }
  }

  /** After a turn that stepped back: out of the chunk, to where it was before, or to bytes to be read again. */
  lemma SteppedBack(log: seq<Packet>, d: F.Decoder, chunk: seq<byte>, index: nat,
                    lend: bool, landed: set<nat>, taken: nat, skipped: int, out: seq<Packet>)
    requires d.Coherent() && index + taken <= |chunk| && skipped < 0
    requires Goes(F.Sweep(d, chunk[index..], lend), F.Ready, chunk[index + taken..], lend, skipped, false, out)
    ensures var to := index + taken + skipped;
            if to < 0 then Awaits(F.Resume(d, chunk, index, lend, landed), log, log + out, F.Fault(F.Underrun), chunk, |chunk|, lend, landed, true)
            else if to in landed then Awaits(F.Resume(d, chunk, index, lend, landed), log, log + out, F.Fault(F.Spin), chunk, |chunk|, lend, landed, true)
            else Awaits(F.Resume(d, chunk, index, lend, landed), log, log + out, F.Ready, chunk, to, lend, landed + {to}, false)
  {
    var to := index + taken + skipped;
    if to >= 0 && to !in landed {
      Assoc(log, out, F.Resume(F.Ready, chunk, to, lend, landed + {to}).log);
    }
  }
}
