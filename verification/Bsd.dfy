/** Select and Poll of the intercepted socket service: virtual sockets answered here, real ones by the real service. */
module Bsd {
  import opened Common
  import opened Sockets

  const MAX_SOCKETS := 128
  const EINVAL := 22
  const EHOSTUNREACH := 118

  /** What a virtual socket can report. */
  datatype Ready = Ready(readable: bool, writable: bool, error: bool)

  /** A slot of the descriptor table; a virtual socket object is made when first needed. */
  datatype Entry = Real | Virtual(proto: Proto, socket: Option<Ready>)

  /** The virtual socket behind a descriptor: the existing one, or a blank one if there is a proxy to make it. */
  function Behind(table: seq<Entry>, proxy: bool, fd: int): Option<Ready> {
    if !(0 <= fd < |table|) || table[fd].Real? then None
    else if table[fd].socket.Some? then table[fd].socket
    else if proxy then Some(Ready(false, table[fd].proto.Udp?, false))
    else None
  }

  /** The socket of a virtual entry of the table: the one made earlier, or a blank one. */
  predicate SocketIs(e: Entry, proxy: bool, s: Ready) {
    e.Virtual? && (e.socket == Some(s) || (e.socket == None && proxy && s == Ready(false, e.proto.Udp?, false)))
  }

  lemma BehindExact(table: seq<Entry>, proxy: bool, fd: int, s: Ready)
    ensures Behind(table, proxy, fd) == Some(s) <==> 0 <= fd < |table| && SocketIs(table[fd], proxy, s)
  {
  }

  predicate IsVirtual(table: seq<Entry>, fd: int) {
    0 <= fd < |table| && table[fd].Virtual?
  }

  datatype FdSets = FdSets(read: set<nat>, write: set<nat>, except: set<nat>) {
    function All(): set<nat> {
      read + write + except
    }

    predicate Within(other: FdSets) {
      read <= other.read && write <= other.write && except <= other.except
    }
  }

  datatype Reply = IpcFailed | Replied(ret: int, errno: int, sets: FdSets)

  datatype Outcome = Failed | Returned(ret: int, errno: int, sets: FdSets)

  // ---------------------------------------------------------------- specification of Select

  /** Descriptors below nfds that a virtual socket answers for. */
  function Served(table: seq<Entry>, proxy: bool, nfds: nat, fds: set<nat>): set<nat> {
    set fd | fd in fds && fd < nfds && Behind(table, proxy, fd).Some?
  }

  function VirtualAnswer(table: seq<Entry>, proxy: bool, nfds: nat, ask: FdSets): FdSets {
    FdSets(set fd | fd in Served(table, proxy, nfds, ask.read) && Behind(table, proxy, fd).value.readable,
           set fd | fd in Served(table, proxy, nfds, ask.write) && Behind(table, proxy, fd).value.writable,
           set fd | fd in Served(table, proxy, nfds, ask.except) && Behind(table, proxy, fd).value.error)
  }

  function Forwarded(table: seq<Entry>, proxy: bool, nfds: nat, ask: FdSets): FdSets {
    FdSets(ask.read - Served(table, proxy, nfds, ask.read),
           ask.write - Served(table, proxy, nfds, ask.write),
           ask.except - Served(table, proxy, nfds, ask.except))
  }

  predicate AsksReal(table: seq<Entry>, nfds: nat, ask: FdSets) {
    exists fd <- ask.All() :: fd < nfds && !IsVirtual(table, fd)
  }

  function Below(n: nat, fds: set<nat>): set<nat> {
    set fd | fd in fds && fd < n
  }

  function Merge(a: FdSets, b: FdSets, nfds: nat): FdSets {
    FdSets(a.read + Below(nfds, b.read), a.write + Below(nfds, b.write), a.except + Below(nfds, b.except))
  }

  /** What the sets are after a call that succeeds. */
  function Answer(table: seq<Entry>, proxy: bool, nfds: nat, ask: FdSets, reported: FdSets): FdSets {
    var own := VirtualAnswer(table, proxy, nfds, ask);
    if AsksReal(table, nfds, ask) then Merge(own, reported, nfds) else own
  }

  /** A descriptor's readiness, from whichever side answers for it. */
  predicate ReadyFor(table: seq<Entry>, proxy: bool, asksReal: bool, fd: nat, reported: set<nat>, own: Ready -> bool) {
    if Behind(table, proxy, fd).Some? then own(Behind(table, proxy, fd).value) else asksReal && fd in reported
  }

  /**
   Select means what select means: when the real service only clears bits, each
   output set holds exactly the descriptors asked about, below nfds, that are
   ready on their own side.
   */
  lemma SelectMeaning(table: seq<Entry>, proxy: bool, nfds: nat, ask: FdSets, reported: FdSets, fd: nat)
    requires reported.Within(Forwarded(table, proxy, nfds, ask))
    ensures var out, asks := Answer(table, proxy, nfds, ask, reported), AsksReal(table, nfds, ask);
            && (fd in out.read <==>
                  fd in ask.read && fd < nfds && ReadyFor(table, proxy, asks, fd, reported.read, (r: Ready) => r.readable))
            && (fd in out.write <==>
                  fd in ask.write && fd < nfds && ReadyFor(table, proxy, asks, fd, reported.write, (r: Ready) => r.writable))
            && (fd in out.except <==>
                  fd in ask.except && fd < nfds && ReadyFor(table, proxy, asks, fd, reported.except, (r: Ready) => r.error))
  {
  }

  // ---------------------------------------------------------------- counting

  function CountTrue(flags: seq<bool>): nat {
    if flags == [] then 0 else CountTrue(flags[..|flags| - 1]) + if flags[|flags| - 1] then 1 else 0
  }

  ghost function Marked(flags: seq<bool>): set<nat> {
    set i: nat | i < |flags| && flags[i]
  }

  lemma {:induction false} CountIsSize(flags: seq<bool>)
    ensures CountTrue(flags) == |Marked(flags)|
  {
    if flags != [] {
      var n := |flags| - 1;
      CountIsSize(flags[..n]);
      assert Marked(flags) == Marked(flags[..n]) + if flags[n] then {n} else {};
    }
  }

  // ---------------------------------------------------------------- the service

  class BsdMitmService {
    const socketMap: array<Entry>
    var proxy: bool

    ghost predicate Valid()
      reads this
    {
      socketMap.Length == MAX_SOCKETS
    }

    constructor ()
      ensures Valid() && fresh(socketMap) && !proxy && forall i | 0 <= i < MAX_SOCKETS :: socketMap[i] == Real
    {
      socketMap := new Entry[MAX_SOCKETS](_ => Real);
      proxy := false;
    }

    method GetVirtualSocket(fd: int) returns (socket: Option<Ready>)
      requires Valid() && IsVirtual(socketMap[..], fd)
      modifies socketMap
      ensures socket == Behind(old(socketMap[..]), proxy, fd) && Alike(old(socketMap[..]), socketMap[..], proxy)
    {
      socket := socketMap[fd].socket;
      if socket.None? && proxy {
        socket := Some(Ready(false, socketMap[fd].proto.Udp?, false));
        socketMap[fd] := socketMap[fd].(socket := socket);
      }
    }

    /** First pass of Select over one descriptor. */
    method Probe(fd: nat, ask: FdSets, ghost table: seq<Entry>) returns (own: FdSets, served: bool, asked: bool)
      requires Valid() && Alike(table, socketMap[..], proxy)
      modifies socketMap
      ensures Alike(table, socketMap[..], proxy)
      ensures served == Behind(table, proxy, fd).Some? && asked == (!IsVirtual(table, fd) && fd in ask.All())
      ensures own == Probed(table, proxy, fd, ask)
    {
      own, served, asked := NOTHING, false, false;
      if fd >= MAX_SOCKETS || socketMap[fd].Real? {
        asked := fd in ask.read || fd in ask.write || fd in ask.except;
        return;
      }
      var socket := GetVirtualSocket(fd);
      if socket.None? { return; }
      served := true;
      if fd in ask.read && socket.value.readable { own := own.(read := {fd}); }
      if fd in ask.write && socket.value.writable { own := own.(write := {fd}); }
      if fd in ask.except && socket.value.error { own := own.(except := {fd}); }
    }

    /** First pass of Select: answers for virtual descriptors, and what is left for the real service. */
    method VirtualPass(nfds: nat, ask: FdSets) returns (out: FdSets, forward: FdSets, hasReal: bool, ready: array<bool>)
      requires Valid()
      modifies socketMap
      ensures Alike(old(socketMap[..]), socketMap[..], proxy)
      ensures out == VirtualAnswer(old(socketMap[..]), proxy, nfds, ask)
      ensures forward == Forwarded(old(socketMap[..]), proxy, nfds, ask)
      ensures hasReal == AsksReal(old(socketMap[..]), nfds, ask)
      ensures fresh(ready) && ready.Length == nfds && Marked(ready[..]) == out.All()
    {
      ghost var table := socketMap[..];
      out, forward, hasReal := NOTHING, ask, false;
      ready := new bool[nfds](_ => false);
      var fd: nat := 0;
      while fd < nfds
        invariant fd <= nfds && Alike(table, socketMap[..], proxy)
        invariant Scan(out, forward, hasReal) == Scanned(table, proxy, fd, ask)
        invariant forall i: nat | i < nfds :: ready[i] <==> i < fd && i in Probed(table, proxy, i, ask).All()
      {
        var own, served, asked := Probe(fd, ask, table);
        hasReal := hasReal || asked;
        if served {
          out, forward := Plus(out, own), Minus(forward, fd);
          ready[fd] := fd in own.All();
        }
        fd := fd + 1;
      }
      ScannedIs(table, proxy, nfds, ask);
      MarkedProbes(table, proxy, nfds, ask, ready[..]);
    }

    /** Second pass: how many descriptors are ready so far. */
    method Count(ready: array<bool>) returns (count: nat)
      ensures count == CountTrue(ready[..])
    {
      count := 0;
      for fd := 0 to ready.Length
        invariant count == CountTrue(ready[..fd])
      {
        assert ready[..fd + 1][..fd] == ready[..fd];
        if ready[fd] { count := count + 1; }
      }
      assert ready[..ready.Length] == ready[..];
    }

    /**
     Select. A negative count is refused, a failure of the real service is
     passed on, and in both cases the caller's sets are as they were; otherwise
     the sets are the merged answer and the result is how many distinct
     descriptors are in any of them.
     */
    method Select(nfds: int, ask: FdSets, service: FdSets -> Reply) returns (outcome: Outcome)
      requires Valid()
      modifies socketMap
      ensures Alike(old(socketMap[..]), socketMap[..], proxy)
      ensures nfds < 0 ==> outcome == Returned(-1, EINVAL, ask)
      ensures nfds >= 0 ==>
                var table := old(socketMap[..]);
                var reply := service(Forwarded(table, proxy, nfds, ask));
                if AsksReal(table, nfds, ask) && reply.IpcFailed? then outcome == Failed
                else if AsksReal(table, nfds, ask) && reply.ret < 0 then outcome == Returned(reply.ret, reply.errno, ask)
                else
                  var reported := if AsksReal(table, nfds, ask) then reply.sets else FdSets({}, {}, {});
                  var out := Answer(table, proxy, nfds, ask, reported);
                  outcome == Returned(|out.All()|, 0, out)
    {
      if nfds < 0 { return Returned(-1, EINVAL, ask); }
      var out, forward, hasReal, ready := VirtualPass(nfds, ask);
      var count := Count(ready);
      CountIsSize(ready[..]);
      if hasReal {
        var reply := service(forward);
        if reply.IpcFailed? { return Failed; }
        if reply.ret < 0 { return Returned(reply.ret, reply.errno, ask); }
        out, count := MergePass(nfds, out, reply.sets, ready, count);
      }
      return Returned(count, 0, out);
    }

    /** Marks a descriptor ready, counting it unless it already was. */
    method MarkReady(ready: array<bool>, fd: nat, sofar: nat) returns (count: nat)
      requires fd < ready.Length && sofar == CountTrue(ready[..])
      modifies ready
      ensures count == CountTrue(ready[..]) && ready[fd]
      ensures forall i: nat | i < ready.Length && i != fd :: ready[i] == old(ready[i])
    {
      count := sofar;
      if !ready[fd] {
        CountOneMore(ready[..], fd);
        count := count + 1;
        ready[fd] := true;
        assert ready[..] == old(ready[..])[fd := true];
      }
    }

    /** Third pass: adds what the real service reports, counting a descriptor the first time it becomes ready. */
    method MergePass(nfds: nat, own: FdSets, reported: FdSets, ready: array<bool>, sofar: nat) returns (out: FdSets, count: nat)
      requires ready.Length == nfds && Marked(ready[..]) == own.All() && sofar == CountTrue(ready[..])
      modifies ready
      ensures out == Merge(own, reported, nfds)
      ensures count == |out.All()|
    {
      ghost var before := ready[..];
      count := sofar;
      var read, write, except := own.read, own.write, own.except;
      var fd: nat := 0;
      while fd < nfds
        invariant fd <= nfds && count == CountTrue(ready[..])
        invariant read == Upto(own.read, reported.read, fd)
        invariant write == Upto(own.write, reported.write, fd)
        invariant except == Upto(own.except, reported.except, fd)
        invariant forall i: nat | i < nfds :: ready[i] <==> before[i] || (i < fd && i in reported.All())
      {
        read, write, except := SetFd(read, fd, fd in reported.read),
                               SetFd(write, fd, fd in reported.write),
                               SetFd(except, fd, fd in reported.except);
        if fd in reported.All() { count := MarkReady(ready, fd, count); }
        fd := fd + 1;
      }
      out := FdSets(read, write, except);
      UptoIs(own.read, reported.read, nfds);
      UptoIs(own.write, reported.write, nfds);
      UptoIs(own.except, reported.except, nfds);
      MergedMarks(before, ready[..], own, reported, nfds);
      CountIsSize(ready[..]);
    }
  }

  function SetFd(s: set<nat>, fd: nat, bit: bool): set<nat> {
    if bit then s + {fd} else s
  }

  /** `own` with the bits of `s` below n added one after the other. */
  function Upto(own: set<nat>, s: set<nat>, n: nat): set<nat> {
    if n == 0 then own else SetFd(Upto(own, s, n - 1), n - 1, n - 1 in s)
  }

  lemma {:induction false} UptoIs(own: set<nat>, s: set<nat>, n: nat)
    ensures Upto(own, s, n) == own + Below(n, s)
  {
    if n > 0 { UptoIs(own, s, n - 1); }
  }

  lemma MergedMarks(before: seq<bool>, after: seq<bool>, own: FdSets, reported: FdSets, nfds: nat)
    requires |before| == |after| == nfds && Marked(before) == own.All()
    requires forall i: nat | i < nfds :: after[i] <==> before[i] || i in reported.All()
    ensures Marked(after) == Merge(own, reported, nfds).All()
  {
    assert forall i: nat | i < nfds :: before[i] <==> i in Marked(before);
    assert forall i <- own.All() :: i in Marked(before);
  }

  lemma {:induction false} CountOneMore(flags: seq<bool>, i: nat)
    requires i < |flags| && !flags[i]
    ensures CountTrue(flags[i := true]) == CountTrue(flags) + 1
  {
    var n := |flags| - 1;
    if i < n {
      CountOneMore(flags[..n], i);
      assert flags[i := true][..n] == flags[..n][i := true];
    } else {
      assert flags[i := true][..n] == flags[..n];
    }
  }

  /** The state of the first pass. */
  datatype Scan = Scan(own: FdSets, forward: FdSets, hasReal: bool)

  const NOTHING := FdSets({}, {}, {})

  /** One descriptor of the first pass. */
  function ScanOne(table: seq<Entry>, proxy: bool, fd: nat, ask: FdSets, s: Scan): Scan {
    var served := Behind(table, proxy, fd).Some?;
    Scan(if served then Plus(s.own, Probed(table, proxy, fd, ask)) else s.own,
         if served then Minus(s.forward, fd) else s.forward,
         s.hasReal || (!IsVirtual(table, fd) && fd in ask.All()))
  }

  /** The first pass after n descriptors. */
  function Scanned(table: seq<Entry>, proxy: bool, n: nat, ask: FdSets): Scan {
    if n == 0 then Scan(NOTHING, ask, false) else ScanOne(table, proxy, n - 1, ask, Scanned(table, proxy, n - 1, ask))
  }

  /** What it should have computed by then. */
  function Specified(table: seq<Entry>, proxy: bool, n: nat, ask: FdSets): Scan {
    Scan(VirtualAnswer(table, proxy, n, ask), Forwarded(table, proxy, n, ask), AsksReal(table, n, ask))
  }

  lemma SpecifiedGrows(table: seq<Entry>, proxy: bool, fd: nat, ask: FdSets)
    ensures Specified(table, proxy, fd + 1, ask) == ScanOne(table, proxy, fd, ask, Specified(table, proxy, fd, ask))
  {
    AnswerGrows(table, proxy, fd, ask);
    ForwardShrinks(table, proxy, fd, ask);
  }

  /** Descriptor by descriptor, the first pass computes the sets of the specification. */
  lemma {:induction false} ScannedIs(table: seq<Entry>, proxy: bool, n: nat, ask: FdSets)
    ensures Scanned(table, proxy, n, ask) == Specified(table, proxy, n, ask)
  {
    if n == 0 {
      assert VirtualAnswer(table, proxy, 0, ask) == NOTHING && Forwarded(table, proxy, 0, ask) == ask;
    } else {
      ScannedIs(table, proxy, n - 1, ask);
      SpecifiedGrows(table, proxy, n - 1, ask);
    }
  }

  lemma MarkedProbes(table: seq<Entry>, proxy: bool, n: nat, ask: FdSets, flags: seq<bool>)
    requires |flags| == n && forall i: nat | i < n :: flags[i] <==> i in Probed(table, proxy, i, ask).All()
    ensures Marked(flags) == VirtualAnswer(table, proxy, n, ask).All()
  {
  }

  /** The tables answer alike, although a missing virtual socket may have been made. */
  ghost predicate Alike(t: seq<Entry>, u: seq<Entry>, proxy: bool) {
    && |t| == |u|
    && forall i | 0 <= i < |t| ::
         IsVirtual(t, i) == IsVirtual(u, i) && Behind(t, proxy, i) == Behind(u, proxy, i)
  }

  function Probed(table: seq<Entry>, proxy: bool, fd: nat, ask: FdSets): FdSets {
    var s := Behind(table, proxy, fd);
    if s.None? then FdSets({}, {}, {}) else
    FdSets(if fd in ask.read && s.value.readable then {fd} else {},
           if fd in ask.write && s.value.writable then {fd} else {},
           if fd in ask.except && s.value.error then {fd} else {})
  }

  function Plus(a: FdSets, b: FdSets): FdSets {
    FdSets(a.read + b.read, a.write + b.write, a.except + b.except)
  }

  function Minus(a: FdSets, fd: nat): FdSets {
    FdSets(a.read - {fd}, a.write - {fd}, a.except - {fd})
  }

  /** One more descriptor adds its own answer and nothing else. */
  lemma AnswerGrows(table: seq<Entry>, proxy: bool, fd: nat, ask: FdSets)
    ensures VirtualAnswer(table, proxy, fd + 1, ask) ==
            if Behind(table, proxy, fd).Some? then Plus(VirtualAnswer(table, proxy, fd, ask), Probed(table, proxy, fd, ask))
            else VirtualAnswer(table, proxy, fd, ask)
    ensures fd !in VirtualAnswer(table, proxy, fd, ask).All()
  {
  }

  lemma ForwardShrinks(table: seq<Entry>, proxy: bool, fd: nat, ask: FdSets)
    ensures Forwarded(table, proxy, fd + 1, ask) ==
            if Behind(table, proxy, fd).Some? then Minus(Forwarded(table, proxy, fd, ask), fd)
            else Forwarded(table, proxy, fd, ask)
    ensures AsksReal(table, fd + 1, ask) == (AsksReal(table, fd, ask) || (!IsVirtual(table, fd) && fd in ask.All()))
  {
  }
}
