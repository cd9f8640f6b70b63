/** The ephemeral port allocator: a sorted list of the ports in use. */
module Ports {
  import opened Common

  const BASE: Port := 49152
  const LAST: Port := 65535

  predicate Ephemeral(p: int) {
    BASE <= p <= LAST
  }

  /** The least port of the range that is not in use, or 0 when there is none. */
  function LeastFree(used: set<Port>): (p: Port)
    ensures p != 0 ==> Ephemeral(p) && p !in used && forall q: Port | BASE <= q < p :: q in used
    ensures p == 0 ==> forall q: Port | Ephemeral(q) :: q in used
  {
    LeastFrom(used, BASE)
  }

  function LeastFrom(used: set<Port>, from: int): (p: Port)
    requires BASE <= from <= LAST + 1
    ensures p != 0 ==> from <= p <= LAST && p !in used && forall q: Port | from <= q < p :: q in used
    ensures p == 0 ==> forall q: Port | from <= q <= LAST :: q in used
    decreases LAST + 1 - from
  {
    if from > LAST then 0 else if from !in used then from else LeastFrom(used, from + 1)
  }

  /** The range is that of section 6 of RFC 6335, and its lowest port is given out first. */
  lemma RangeIs(p: Port)
    ensures Ephemeral(p) <==> 49152 <= p <= 65535
    ensures LeastFree({}) == 49152
  {
  }

  /** The port a release makes available again is never passed over for a higher one. */
  lemma ReleasedComesFirst(used: set<Port>, p: Port)
    requires Ephemeral(p)
    ensures 0 < LeastFree(used - {p}) <= p
  {
  }

  /** Strictly increasing, all within the ephemeral range of section 6 of RFC 6335. */
  predicate Ordered(ports: seq<Port>) {
    && (forall i | 0 <= i < |ports| :: Ephemeral(ports[i]))
    && (forall i, j | 0 <= i < j < |ports| :: ports[i] < ports[j])
  }

  /** The i-th port in use is at least the i-th port of the range, and leaves room for those after it. */
  lemma {:induction false} Spread(ports: seq<Port>, i: nat)
    requires Ordered(ports) && i < |ports|
    ensures BASE + i <= ports[i] <= LAST - (|ports| - 1 - i)
  {
    LowEnd(ports, i);
    HighEnd(ports, i);
  }

  lemma {:induction false} LowEnd(ports: seq<Port>, i: nat)
    requires Ordered(ports) && i < |ports|
    ensures BASE + i <= ports[i]
  {
    if i > 0 { LowEnd(ports, i - 1); }
  }

  lemma {:induction false} HighEnd(ports: seq<Port>, i: nat)
    requires Ordered(ports) && i < |ports|
    ensures ports[i] <= LAST - (|ports| - 1 - i)
    decreases |ports| - i
  {
    if i + 1 < |ports| { HighEnd(ports, i + 1); }
  }

  /** A list of all 16384 ports is the whole range. */
  lemma FullRange(ports: seq<Port>, q: Port)
    requires Ordered(ports)
    ensures |ports| <= 16384
    ensures |ports| == 16384 && Ephemeral(q) ==> q in ports
  {
    if |ports| > 0 { Spread(ports, |ports| - 1); }
    if |ports| == 16384 && Ephemeral(q) {
      Spread(ports, q - BASE);
      assert ports[q - BASE] == q;
    }
  }

  ghost function SetOf(ports: seq<Port>): set<Port> {
    set p | p in ports
  }

  lemma Inserted(ports: seq<Port>, i: nat, port: Port)
    requires Ordered(ports) && i <= |ports| && Ephemeral(port)
    requires (i > 0 ==> ports[i - 1] < port) && (i < |ports| ==> port < ports[i])
    ensures Ordered(ports[..i] + [port] + ports[i..])
    ensures SetOf(ports[..i] + [port] + ports[i..]) == SetOf(ports) + {port}
  {
    InsertedOrder(ports, i, port);
    assert ports == ports[..i] + ports[i..];
  }

  lemma InsertedOrder(ports: seq<Port>, i: nat, port: Port)
    requires Ordered(ports) && i <= |ports| && Ephemeral(port)
    requires (i > 0 ==> ports[i - 1] < port) && (i < |ports| ==> port < ports[i])
    ensures Ordered(ports[..i] + [port] + ports[i..])
  {
    var after := ports[..i] + [port] + ports[i..];
    assert forall k | 0 <= k < |after| :: after[k] == if k < i then ports[k] else if k == i then port else ports[k - 1];
  }

  class EphemeralPortPool {
    var ports: seq<Port>

    ghost predicate Valid()
      reads this
    {
      Ordered(ports)
    }

    ghost function Allocated(): set<Port>
      reads this
    {
      SetOf(ports)
    }

    constructor ()
      ensures Valid() && Allocated() == {}
    {
      ports := [];
    }

    /** Allocates the least free port and nothing else; 0 exactly when all 16384 are taken. */
    method AllocatePort() returns (port: Port)
      requires Valid()
      modifies this
      ensures Valid() && port == LeastFree(old(Allocated()))
      ensures Allocated() == if port == 0 then old(Allocated()) else old(Allocated()) + {port}
      ensures port == 0 <==> |old(ports)| == 16384
    {
      port := BASE;
      var i: nat := 0;
      while i < |ports|
        invariant ports == old(ports) && i <= |ports| && i < 16384 && port == BASE + i
        invariant forall j | 0 <= j < i :: ports[j] == BASE + j
      {
        var existing := ports[i];
        Spread(ports, i);
        if existing > port {
          Skipped(ports, port, i);
          Inserted(ports, i, port);
          ports := ports[..i] + [port] + ports[i..];
          return;
        }
        port := (port + 1) % 65536;
        i := i + 1;
        if port == 0 || port > LAST {
          FullRange(ports, BASE);
          Skipped(ports, 0, i);
          return 0;
        }
      }
      Skipped(ports, port, i);
      Inserted(ports, i, port);
      assert ports[..i] + [port] + ports[i..] == ports + [port];
      ports := ports + [port];
    }

    method ReturnPort(port: Port)
      requires Valid()
      modifies this
      ensures Valid() && Allocated() == old(Allocated()) - {port}
    {
      var i: nat := 0;
      while i < |ports| && ports[i] != port
        invariant i <= |ports| && forall j | 0 <= j < i :: ports[j] != port
      {
        i := i + 1;
      }
      if i < |ports| {
        assert ports == ports[..i] + [port] + ports[i + 1..];
        ports := ports[..i] + ports[i + 1..];
      }
    }
  }

  /** When the first i ports in use are the first i of the range and the next is not in use, that next one is the least. */
  lemma Skipped(ports: seq<Port>, port: Port, i: nat)
    requires Ordered(ports) && i <= |ports| && i <= 16384
    requires forall j | 0 <= j < i :: ports[j] == BASE + j
    requires port == if i == 16384 then 0 else BASE + i
    requires i < |ports| ==> ports[i] > port
    ensures LeastFree(SetOf(ports)) == port
    ensures port != 0 ==> |ports| < 16384
  {
    var used := SetOf(ports);
    var least := LeastFree(used);
    if i == 16384 {
      FullRange(ports, if least != 0 then least else BASE);
    } else {
      assert port !in used;
      forall q: Port | BASE <= q < port ensures q in used { assert ports[q - BASE] == q; }
      if |ports| >= 16384 { FullRange(ports, port); }
    }
  }
}
