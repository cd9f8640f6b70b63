/**
 The intrusive free list shared by the buffer pool and the session pool: an
 array of slots, each with an in-use flag and a link, and a head link.
 A `Pool` is the value of such a structure; the two pool classes are proved
 against the functions below.
 */
module FreeList {
  import opened Common

  datatype Slot<T> = Slot(item: T, inUse: bool, next: Option<nat>)

  datatype Pool<T> = Pool(slots: seq<Slot<T>>, head: Option<nat>) {

    /** The slot indices that are lent out. */
    ghost function InUse(): set<nat> {
      set i: nat | i < |slots| && slots[i].inUse
    }
  }

  /** The link that the k-th cell of the list `free` must be reached by. */
  function Link(free: seq<nat>, k: nat): Option<nat> {
    if k < |free| then Some(free[k]) else None
  }

  /** Cell k of the list is an unused slot and links to cell k + 1. */
  ghost predicate Cell<T>(p: Pool<T>, free: seq<nat>, k: nat)
    requires k < |free|
  {
    free[k] < |p.slots| && !p.slots[free[k]].inUse && p.slots[free[k]].next == Link(free, k + 1)
  }

  /** Following the links from the head visits exactly the cells of `free`, which hold every unused slot. */
  ghost predicate Listed<T>(p: Pool<T>, free: seq<nat>) {
    && p.head == Link(free, 0)
    && (forall k: nat | k < |free| :: Cell(p, free, k))
    && (forall i: nat | i < |p.slots| && !p.slots[i].inUse :: i in free)
  }

  ghost predicate WellFormed<T>(p: Pool<T>) {
    exists free :: Listed(p, free)
  }

  // ---------------------------------------------------------------- operations

  /** 0, 1, ..., n - 1. */
  ghost function Counting(n: nat): (s: seq<nat>)
    ensures |s| == n && (forall i: nat | i < n :: s[i] == i && i in s)
  {
    if n == 0 then [] else Counting(n - 1) + [n - 1]
  }

  /** The pool both constructors build: nothing lent, each slot linked to the next. */
  function Fresh<T>(items: seq<T>): (p: Pool<T>)
    ensures WellFormed(p)
  {
    var p := Pool(seq(|items|, i requires 0 <= i < |items| =>
                    Slot(items[i], false, if i + 1 < |items| then Some(i + 1) else None)),
                  if items == [] then None else Some(0));
    assert Listed(p, Counting(|items|));
    p
  }

  /** Unlinks the head slot and marks it lent. */
  function Take<T>(p: Pool<T>): Pool<T>
    requires p.head.Some? ==> p.head.value < |p.slots|
  {
    if p.head.None? then p else
    var h := p.head.value;
    Pool(p.slots[h := p.slots[h].(inUse := true, next := None)], p.slots[h].next)
  }

  /** Puts slot `i` back in front of the list, unless it is there already. */
  function Give<T>(p: Pool<T>, i: nat): Pool<T>
    requires i < |p.slots|
  {
    if !p.slots[i].inUse then p else
    Pool(p.slots[i := p.slots[i].(inUse := false, next := p.head)], Some(i))
  }

  // ---------------------------------------------------------------- the list is acyclic

  /** No slot is met twice: a repeated cell would make the tail after it end in two different places. */
  lemma {:induction false} NoSlotTwice<T>(p: Pool<T>, free: seq<nat>, j: nat, k: nat)
    requires Listed(p, free) && j < k < |free|
    ensures free[j] != free[k]
    decreases |free| - k
  {
    assert Cell(p, free, j) && Cell(p, free, k);
    if free[j] == free[k] && k + 1 < |free| {
      NoSlotTwice(p, free, j + 1, k + 1);
    }
  }

  /** The links determine the list: two readings of one pool agree. */
  lemma {:induction false} ListUnique<T>(p: Pool<T>, a: seq<nat>, b: seq<nat>)
    requires Listed(p, a) && Listed(p, b)
    ensures a == b
  {
    var k: nat := 0;
    while k < |a| && k < |b|
      invariant k <= |a| && k <= |b|
      invariant forall i | 0 <= i < k :: a[i] == b[i]
      invariant Link(a, k) == Link(b, k)
    {
      assert Cell(p, a, k) && Cell(p, b, k);
      k := k + 1;
    }
  }

  /** Every slot is either lent or met exactly once on the list. */
  lemma {:induction false} ListPartition<T>(p: Pool<T>, free: seq<nat>)
    requires Listed(p, free)
    ensures forall i: nat | i < |p.slots| :: (i in free) != (i in p.InUse())
    ensures forall j, k | 0 <= j < k < |free| :: free[j] != free[k]
    ensures |free| + |p.InUse()| == |p.slots|
    ensures p.head.None? <==> |p.InUse()| == |p.slots|
  {
    forall j, k | 0 <= j < k < |free| ensures free[j] != free[k] { NoSlotTwice(p, free, j, k); }
    forall i: nat | i < |p.slots| ensures (i in free) != (i in p.InUse()) {
      if i in free {
        var k: nat :| k < |free| && free[k] == i;
        assert Cell(p, free, k);
      }
    }
    CellsInRange(p, free);
    DistinctCount(free);
    DistinctCount(Counting(|p.slots|));
    assert Elements(Counting(|p.slots|)) == Elements(free) + p.InUse();
  }

  lemma {:induction false} CellsInRange<T>(p: Pool<T>, free: seq<nat>)
    requires Listed(p, free)
    ensures forall i | i in free :: i < |p.slots| && !p.slots[i].inUse
  {
    forall i | i in free ensures i < |p.slots| && !p.slots[i].inUse {
      var k: nat :| k < |free| && free[k] == i;
      assert Cell(p, free, k);
    }
  }

  ghost function Elements(s: seq<nat>): set<nat> {
    set i | i in s
  }

  lemma {:induction false} DistinctCount(s: seq<nat>)
    requires forall j, k | 0 <= j < k < |s| :: s[j] != s[k]
    ensures |Elements(s)| == |s|
  {
    if s != [] {
      var init, last := s[..|s| - 1], s[|s| - 1];
      DistinctCount(init);
      assert s == init + [last];
      assert Elements(s) == Elements(init) + {last};
    }
  }

  // ---------------------------------------------------------------- every operation keeps the list

  lemma {:induction false} TakeKeeps<T>(p: Pool<T>, free: seq<nat>)
    requires Listed(p, free)
    ensures free != [] ==> p.head == Some(free[0]) && free[0] < |p.slots| && free[0] !in p.InUse()
    ensures free != [] ==> Listed(Take(p), free[1..]) && Take(p).InUse() == p.InUse() + {free[0]}
    ensures free == [] ==> p.head.None?
  {
    if free != [] {
      assert Cell(p, free, 0);
      var q, rest := Take(p), free[1..];
      forall k: nat | k < |rest| ensures Cell(q, rest, k) {
        assert Cell(p, free, k + 1);
        NoSlotTwice(p, free, 0, k + 1);
      }
      forall i: nat | i < |q.slots| && !q.slots[i].inUse ensures i in rest {
        assert i in free;
      }
    }
  }

  lemma {:induction false} GiveKeeps<T>(p: Pool<T>, free: seq<nat>, i: nat)
    requires Listed(p, free) && i < |p.slots|
    ensures p.slots[i].inUse ==> Listed(Give(p, i), [i] + free)
    ensures !p.slots[i].inUse ==> Give(p, i) == p
    ensures Give(p, i).InUse() == p.InUse() - {i}
  {
    if p.slots[i].inUse {
      var q, list := Give(p, i), [i] + free;
      forall k: nat | k < |list| ensures Cell(q, list, k) {
        if k > 0 {
          assert Cell(p, free, k - 1);
        }
      }
      forall j: nat | j < |q.slots| && !q.slots[j].inUse ensures j in list {
        assert j == i || j in free;
      }
    }
  }

  // ---------------------------------------------------------------- runs of borrowers

  /** One move of a borrower: ask for a slot, or hand one back (named by its index). */
  datatype Move = Ask(who: nat) | Return(who: nat, slot: nat)

  /** A pool together with who believes to hold what. */
  datatype Ledger<T> = Ledger(pool: Pool<T>, held: map<nat, nat>)  // slot -> borrower

  /** Borrowers hand back only what they hold; a second return of the same slot is also allowed. */
  predicate Fair<T>(l: Ledger<T>, m: Move) {
    match m
    case Ask(_) => true
    case Return(who, slot) => slot < |l.pool.slots| && (slot in l.held ==> l.held[slot] == who)
  }

  function Play<T>(l: Ledger<T>, m: Move): Ledger<T>
    requires l.pool.head.Some? ==> l.pool.head.value < |l.pool.slots|
    requires Fair(l, m)
  {
    match m
    case Ask(who) =>
      Ledger(Take(l.pool), if l.pool.head.Some? then l.held[l.pool.head.value := who] else l.held)
    case Return(who, slot) =>
      Ledger(Give(l.pool, slot), l.held - {slot})
  }

  /** What the ledger says: the list is intact and the lent slots are exactly the held ones. */
  ghost predicate Balanced<T>(l: Ledger<T>) {
    WellFormed(l.pool) && l.held.Keys == l.pool.InUse()
  }

  lemma {:induction false} HeadInRange<T>(p: Pool<T>)
    requires WellFormed(p)
    ensures p.head.Some? ==> p.head.value < |p.slots| && p.head.value !in p.InUse()
    ensures p.head.None? <==> |p.InUse()| == |p.slots|
  {
    var free :| Listed(p, free);
    ListPartition(p, free);
    TakeKeeps(p, free);
  }

  lemma {:induction false} TakeWellFormed<T>(p: Pool<T>)
    requires WellFormed(p) && p.head.Some?
    ensures p.head.value < |p.slots| && p.head.value !in p.InUse()
    ensures WellFormed(Take(p)) && Take(p).InUse() == p.InUse() + {p.head.value}
  {
    var free :| Listed(p, free);
    TakeKeeps(p, free);
  }

  lemma {:induction false} GiveWellFormed<T>(p: Pool<T>, i: nat)
    requires WellFormed(p) && i < |p.slots|
    ensures WellFormed(Give(p, i)) && Give(p, i).InUse() == p.InUse() - {i}
  {
    var free :| Listed(p, free);
    GiveKeeps(p, free, i);
  }

  /** One move: the list survives, a lent slot was free before, and returning a slot nobody holds changes nothing. */
  lemma {:induction false} PlayKeeps<T>(l: Ledger<T>, m: Move)
    requires Balanced(l)
    ensures l.pool.head.Some? ==> l.pool.head.value < |l.pool.slots| && l.pool.head.value !in l.held
    ensures Fair(l, m) ==> Balanced(Play(l, m)) && |Play(l, m).pool.slots| == |l.pool.slots|
    ensures Fair(l, m) && m.Return? && m.slot !in l.held ==> Play(l, m).pool == l.pool
  {
    HeadInRange(l.pool);
    match m
    case Ask(who) =>
      if l.pool.head.Some? { TakeWellFormed(l.pool); }
    case Return(who, slot) =>
      if Fair(l, m) { GiveWellFormed(l.pool, slot); }
  }

  ghost predicate FairRun<T>(l: Ledger<T>, moves: seq<Move>)
    requires Balanced(l)
    decreases |moves|
  {
    moves == [] ||
    (PlayKeeps(l, moves[0]);
     Fair(l, moves[0]) && FairRun(Play(l, moves[0]), moves[1..]))
  }

  ghost function AfterRun<T>(l: Ledger<T>, moves: seq<Move>): Ledger<T>
    requires Balanced(l) && FairRun(l, moves)
    decreases |moves|
  {
    if moves == [] then l else
    PlayKeeps(l, moves[0]);
    AfterRun(Play(l, moves[0]), moves[1..])
  }

  /**
   Over every run of any number of borrowers on a pool of any size: the free
   list stays acyclic and complete, and the slots in use are exactly the slots
   somebody holds, each by one borrower.
   */
  lemma {:induction false} EveryRunBalanced<T>(l: Ledger<T>, moves: seq<Move>)
    requires Balanced(l) && FairRun(l, moves)
    ensures Balanced(AfterRun(l, moves)) && |AfterRun(l, moves).pool.slots| == |l.pool.slots|
    decreases |moves|
  {
    if moves != [] {
      PlayKeeps(l, moves[0]);
      EveryRunBalanced(Play(l, moves[0]), moves[1..]);
    }
  }
}
