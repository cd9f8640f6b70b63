/** Poll: real entries are gathered into a shorter array for the real service and its results scattered back. */
module BsdPoll {
  import opened Common
  import opened Bsd

  /** The bits of a poll mask. */
  datatype Bit = In | RdNorm | RdBand | Out | WrNorm | WrBand | Err | Hup | Nval | Pri

  type Events = set<Bit>

  const WANTS_INPUT: Events := {In, RdNorm, RdBand}
  const WANTS_OUTPUT: Events := {Out, WrNorm, WrBand}
  const INPUT: Events := {In, RdNorm}
  const OUTPUT: Events := {Out, WrNorm}
  const ERROR: Events := {Err}

  datatype PollFd = PollFd(fd: int, events: Events, revents: Events)

  datatype PollReply = NoReply | Reported(ret: int, errno: int, fds: seq<PollFd>)

  datatype PollOutcome = Broken | Result(ret: int, errno: int)

  /** What a virtual socket reports for the events asked about; errors are reported unasked. */
  function VirtualEvents(events: Events, s: Ready): Events {
    (if events * WANTS_INPUT != {} && s.readable then INPUT else {})
    + (if events * WANTS_OUTPUT != {} && s.writable then OUTPUT else {})
    + (if s.error then ERROR else {})
  }

  // ---------------------------------------------------------------- specification

  /** How many real entries there are among the first n. */
  function Rank(table: seq<Entry>, fds: seq<PollFd>, n: nat): (r: nat)
    requires n <= |fds|
    ensures r <= n
  {
    if n == 0 then 0 else Rank(table, fds, n - 1) + if IsVirtual(table, fds[n - 1].fd) then 0 else 1
  }

  /** The real entries among the first n, in order. */
  function Gather(table: seq<Entry>, fds: seq<PollFd>, n: nat): (g: seq<PollFd>)
    requires n <= |fds|
    ensures |g| == Rank(table, fds, n)
  {
    if n == 0 then [] else
    Gather(table, fds, n - 1) + if IsVirtual(table, fds[n - 1].fd) then [] else [fds[n - 1]]
  }

  lemma {:induction false} RankMonotone(table: seq<Entry>, fds: seq<PollFd>, m: nat, n: nat)
    requires m <= n <= |fds|
    ensures Rank(table, fds, m) <= Rank(table, fds, n)
    decreases n
  {
    if m < n { RankMonotone(table, fds, m, n - 1); }
  }

  /** Each real entry is the one at its rank in the gathered array: scattering by rank undoes gathering. */
  lemma {:induction false} GatherAt(table: seq<Entry>, fds: seq<PollFd>, i: nat, n: nat)
    requires i < n <= |fds| && !IsVirtual(table, fds[i].fd)
    ensures Rank(table, fds, i) < Rank(table, fds, n) && Gather(table, fds, n)[Rank(table, fds, i)] == fds[i]
    decreases n
  {
    if i < n - 1 { GatherAt(table, fds, i, n - 1); }
  }

  /** An entry after the virtual pass. */
  function OwnResult(table: seq<Entry>, proxy: bool, e: PollFd): PollFd {
    if IsVirtual(table, e.fd) && Behind(table, proxy, e.fd).Some?
    then e.(revents := VirtualEvents(e.events, Behind(table, proxy, e.fd).value)) else e
  }

  /** Entry i after a successful call: its own result if virtual, else the reply in its own gathered slot. */
  function FinalResult(table: seq<Entry>, proxy: bool, fds: seq<PollFd>, replies: seq<PollFd>, i: nat): PollFd
    requires i < |fds|
  {
    if IsVirtual(table, fds[i].fd) then OwnResult(table, proxy, fds[i])
    else if Rank(table, fds, i) < |replies| then fds[i].(revents := replies[Rank(table, fds, i)].revents)
    else fds[i]
  }

  predicate AsksVirtual(table: seq<Entry>, fds: seq<PollFd>) {
    exists i | 0 <= i < |fds| :: IsVirtual(table, fds[i].fd)
  }

  // ---------------------------------------------------------------- the two passes

  /** The answer of the virtual socket behind an entry. */
  method AnswerEntry(service: BsdMitmService, entry: PollFd, ghost table: seq<Entry>) returns (answered: PollFd)
    requires service.Valid() && service.proxy && Alike(table, service.socketMap[..], service.proxy)
    requires IsVirtual(table, entry.fd)
    modifies service.socketMap
    ensures Alike(table, service.socketMap[..], service.proxy)
    ensures answered == OwnResult(table, service.proxy, entry)
  {
    var socket := service.GetVirtualSocket(entry.fd);
    var revents: Events := {};
    if entry.events * WANTS_INPUT != {} {
      if socket.value.readable { revents := revents + INPUT; }
    }
    if entry.events * WANTS_OUTPUT != {} {
      if socket.value.writable { revents := revents + OUTPUT; }
    }
    if socket.value.error { revents := revents + ERROR; }
    return entry.(revents := revents);
  }

  /** How many of the first n entries are virtual and report something. */
  function OwnCount(table: seq<Entry>, proxy: bool, fds: seq<PollFd>, n: nat): nat
    requires n <= |fds|
  {
    if n == 0 then 0 else
    OwnCount(table, proxy, fds, n - 1) +
    if IsVirtual(table, fds[n - 1].fd) && OwnResult(table, proxy, fds[n - 1]).revents != {} then 1 else 0
  }

  /** How many of the first n replies report something. */
  function ReplyCount(replies: seq<PollFd>, n: nat): nat
    requires n <= |replies|
  {
    if n == 0 then 0 else ReplyCount(replies, n - 1) + if replies[n - 1].revents != {} then 1 else 0
  }

  /** The first n entries have been through the virtual pass; the others have not. */
  ghost predicate Answered(table: seq<Entry>, proxy: bool, before: seq<PollFd>, after: seq<PollFd>, n: nat) {
    && |before| == |after|
    && forall k: nat | k < |before| :: after[k] == if k < n then OwnResult(table, proxy, before[k]) else before[k]
  }

  /** `positions` lists the real entries among the first n by rank. */
  ghost predicate Placed(table: seq<Entry>, fds: seq<PollFd>, positions: seq<nat>, n: nat)
    requires n <= |fds|
  {
    && |positions| == Rank(table, fds, n)
    && (forall k: nat | k < |positions| ::
          positions[k] < n && !IsVirtual(table, fds[positions[k]].fd) && Rank(table, fds, positions[k]) == k)
  }

  lemma PlacedOne(table: seq<Entry>, fds: seq<PollFd>, positions: seq<nat>, i: nat)
    requires i < |fds| && Placed(table, fds, positions, i) && !IsVirtual(table, fds[i].fd)
    ensures Placed(table, fds, positions + [i], i + 1)
  {
  }

  lemma AnsweredOne(table: seq<Entry>, proxy: bool, before: seq<PollFd>, after: seq<PollFd>, i: nat)
    requires Answered(table, proxy, before, after, i) && i < |before|
    ensures Answered(table, proxy, before, after[i := OwnResult(table, proxy, before[i])], i + 1)
    ensures !IsVirtual(table, before[i].fd) ==> Answered(table, proxy, before, after, i + 1)
  {
  }

  /** First pass: virtual entries are answered in place, real ones copied out with their positions. */
  method VirtualPass(service: BsdMitmService, pollfds: array<PollFd>)
    returns (gathered: seq<PollFd>, positions: seq<nat>, count: nat, reachable: bool)
    requires service.Valid()
    modifies pollfds, service.socketMap
    ensures Alike(old(service.socketMap[..]), service.socketMap[..], service.proxy)
    ensures reachable == (service.proxy || !AsksVirtual(old(service.socketMap[..]), old(pollfds[..])))
    ensures !reachable ==> pollfds[..] == old(pollfds[..])
    ensures reachable ==>
              && gathered == Gather(old(service.socketMap[..]), old(pollfds[..]), pollfds.Length)
              && Placed(old(service.socketMap[..]), old(pollfds[..]), positions, pollfds.Length)
              && Answered(old(service.socketMap[..]), service.proxy, old(pollfds[..]), pollfds[..], pollfds.Length)
              && count == OwnCount(old(service.socketMap[..]), service.proxy, old(pollfds[..]), pollfds.Length)
  {
    ghost var table, fds := service.socketMap[..], pollfds[..];
    gathered, positions, count, reachable := [], [], 0, true;
    var i: nat := 0;
    while i < pollfds.Length
      invariant i <= pollfds.Length && Alike(table, service.socketMap[..], service.proxy)
      invariant gathered == Gather(table, fds, i) && Placed(table, fds, positions, i)
      invariant Answered(table, service.proxy, fds, pollfds[..], i)
      invariant service.proxy || forall k: nat | k < i :: !IsVirtual(table, fds[k].fd)
      invariant count == OwnCount(table, service.proxy, fds, i)
    {
      var entry := pollfds[i];
      assert entry == fds[i];
      if 0 <= entry.fd < MAX_SOCKETS && service.socketMap[entry.fd].Virtual? {
        assert IsVirtual(table, entry.fd);
        if !service.proxy {
          reachable := false;
          return;
        }
        var answered := AnswerEntry(service, entry, table);
        AnsweredOne(table, service.proxy, fds, pollfds[..], i);
        pollfds[i] := answered;
        if answered.revents != {} { count := count + 1; }
      } else {
        PlacedOne(table, fds, positions, i);
        AnsweredOne(table, service.proxy, fds, pollfds[..], i);
        gathered, positions := gathered + [entry], positions + [i];
      }
      i := i + 1;
    }
  }

  /** Entry by entry, the array after the first `done` replies have been scattered back. */
  ghost predicate Scattered(table: seq<Entry>, proxy: bool, before: seq<PollFd>, replies: seq<PollFd>, after: seq<PollFd>, done: nat)
  {
    && |after| == |before|
    && forall i: nat | i < |before| ::
         after[i] == if IsVirtual(table, before[i].fd) || Rank(table, before, i) < done
                     then FinalResult(table, proxy, before, replies, i) else before[i]
  }

  /** Second pass: the reply in each gathered slot goes back to the position it was taken from. */
  method MergePass(pollfds: array<PollFd>, replies: seq<PollFd>, positions: seq<nat>, sofar: nat,
                   ghost table: seq<Entry>, ghost proxy: bool, ghost before: seq<PollFd>) returns (count: nat)
    requires |before| == pollfds.Length && Placed(table, before, positions, pollfds.Length)
    requires |replies| == Rank(table, before, |before|)
    requires Answered(table, proxy, before, pollfds[..], pollfds.Length)
    modifies pollfds
    ensures Scattered(table, proxy, before, replies, pollfds[..], |replies|)
    ensures count == sofar + ReplyCount(replies, |replies|)
  {
    count := sofar;
    var idx: nat := 0;
    NoneScattered(table, proxy, before, replies, pollfds[..]);
    while idx < |replies|
      invariant idx <= |replies| && Scattered(table, proxy, before, replies, pollfds[..], idx)
      invariant count == sofar + ReplyCount(replies, idx)
    {
      PositionOf(table, before, positions, idx);
      WriteBack(pollfds, replies, idx, positions[idx], table, proxy, before);
      if replies[idx].revents != {} { count := count + 1; }
      idx := idx + 1;
    }
  }

  lemma NoneScattered(table: seq<Entry>, proxy: bool, before: seq<PollFd>, replies: seq<PollFd>, after: seq<PollFd>)
    requires Answered(table, proxy, before, after, |before|)
    ensures Scattered(table, proxy, before, replies, after, 0)
  {
  }

  lemma PositionOf(table: seq<Entry>, fds: seq<PollFd>, positions: seq<nat>, k: nat)
    requires Placed(table, fds, positions, |fds|) && k < Rank(table, fds, |fds|)
    ensures |positions| == Rank(table, fds, |fds|) && positions[k] < |fds|
    ensures !IsVirtual(table, fds[positions[k]].fd) && Rank(table, fds, positions[k]) == k
  {
  }

  method WriteBack(pollfds: array<PollFd>, replies: seq<PollFd>, idx: nat, at: nat,
                   ghost table: seq<Entry>, ghost proxy: bool, ghost before: seq<PollFd>)
    requires |before| == pollfds.Length && |replies| == Rank(table, before, |before|)
    requires Scattered(table, proxy, before, replies, pollfds[..], idx)
    requires at < |before| && !IsVirtual(table, before[at].fd) && Rank(table, before, at) == idx < |replies|
    modifies pollfds
    ensures Scattered(table, proxy, before, replies, pollfds[..], idx + 1)
  {
    ScatterOne(table, proxy, before, replies, pollfds[..], idx, at);
    ghost var was := pollfds[..];
    pollfds[at] := pollfds[at].(revents := replies[idx].revents);
    assert pollfds[..] == was[at := was[at].(revents := replies[idx].revents)];
  }

  lemma ScatterOne(table: seq<Entry>, proxy: bool, before: seq<PollFd>, replies: seq<PollFd>, after: seq<PollFd>, idx: nat, at: nat)
    requires |replies| == Rank(table, before, |before|) && Scattered(table, proxy, before, replies, after, idx)
    requires at < |before| && !IsVirtual(table, before[at].fd) && Rank(table, before, at) == idx < |replies|
    ensures Scattered(table, proxy, before, replies, after[at := after[at].(revents := replies[idx].revents)], idx + 1)
  {
    var next := after[at := after[at].(revents := replies[idx].revents)];
    forall i: nat | i < |before|
      ensures next[i] == if IsVirtual(table, before[i].fd) || Rank(table, before, i) < idx + 1
                         then FinalResult(table, proxy, before, replies, i) else before[i]
    {
      if i != at && !IsVirtual(table, before[i].fd) { RankDistinct(table, before, i, at); }
    }
  }

  /** Two real entries have different ranks. */
  lemma RankDistinct(table: seq<Entry>, fds: seq<PollFd>, i: nat, j: nat)
    requires i < |fds| && j < |fds| && i != j && !IsVirtual(table, fds[i].fd) && !IsVirtual(table, fds[j].fd)
    ensures Rank(table, fds, i) != Rank(table, fds, j)
  {
    if i < j { RankMonotone(table, fds, i + 1, j); } else { RankMonotone(table, fds, j + 1, i); }
  }

  // ---------------------------------------------------------------- the count

  /** The entries that report something. */
  ghost function Reporting(fds: seq<PollFd>): set<nat> {
    set i: nat | i < |fds| && fds[i].revents != {}
  }

  lemma ReportingGrows(fds: seq<PollFd>, e: PollFd)
    ensures |Reporting(fds + [e])| == |Reporting(fds)| + if e.revents != {} then 1 else 0
  {
    var all := fds + [e];
    assert Reporting(all) == Reporting(fds) + if e.revents != {} then {|fds|} else {};
  }

  /** Counting virtual answers and replies separately counts each reporting entry once. */
  lemma {:induction false} CountsAdd(table: seq<Entry>, proxy: bool, before: seq<PollFd>, replies: seq<PollFd>, after: seq<PollFd>, n: nat)
    requires |replies| == Rank(table, before, |before|) && n <= |before| == |after|
    requires forall i: nat | i < n :: after[i] == FinalResult(table, proxy, before, replies, i)
    ensures Rank(table, before, n) <= |replies|
    ensures |Reporting(after[..n])| == OwnCount(table, proxy, before, n) + ReplyCount(replies, Rank(table, before, n))
  {
    RankMonotone(table, before, n, |before|);
    if n > 0 {
      CountsAdd(table, proxy, before, replies, after, n - 1);
      assert after[..n] == after[..n - 1] + [after[n - 1]];
      ReportingGrows(after[..n - 1], after[n - 1]);
    }
  }

  /** The shape of the reply buffer is the caller's: the real service writes results, not lengths. */
  ghost predicate KeepsLength(service: seq<PollFd> -> PollReply) {
    forall fds :: service(fds).Reported? ==> |service(fds).fds| == |fds|
  }

  /**
   Poll. Without a proxy, asking about a virtual descriptor fails and changes
   nothing. If the real service is not needed or succeeds, every entry keeps
   its descriptor and events and gets the result from its own side - a real one
   from the slot it was gathered into - and the returned value is the number of
   entries that report something. If the real service fails, only virtual
   entries have been answered.
   */
  method Poll(service: BsdMitmService, pollfds: array<PollFd>, bufferHolds: bool, dispatch: seq<PollFd> -> PollReply)
    returns (outcome: PollOutcome)
    requires service.Valid() && KeepsLength(dispatch)
    modifies pollfds, service.socketMap
    ensures Alike(old(service.socketMap[..]), service.socketMap[..], service.proxy)
    ensures pollfds.Length == 0 ==> outcome == Result(0, 0)
    ensures pollfds.Length > 0 && !bufferHolds ==> outcome == Result(-1, EINVAL) && pollfds[..] == old(pollfds[..])
    ensures pollfds.Length > 0 && bufferHolds && !service.proxy && AsksVirtual(old(service.socketMap[..]), old(pollfds[..])) ==>
              outcome == Result(-1, EHOSTUNREACH) && pollfds[..] == old(pollfds[..])
    ensures pollfds.Length > 0 && bufferHolds && (service.proxy || !AsksVirtual(old(service.socketMap[..]), old(pollfds[..]))) ==>
              Polled(old(service.socketMap[..]), service.proxy, old(pollfds[..]), dispatch, pollfds[..], outcome)
  {
    if pollfds.Length == 0 { return Result(0, 0); }
    if !bufferHolds { return Result(-1, EINVAL); }
    ghost var table, before, proxy := service.socketMap[..], pollfds[..], service.proxy;
    var gathered, positions, count, reachable := VirtualPass(service, pollfds);
    if !reachable { return Result(-1, EHOSTUNREACH); }
    ghost var replies: seq<PollFd> := [];
    if gathered != [] {
      var reply := dispatch(gathered);
      if reply.NoReply? { return Broken; }
      if reply.ret < 0 { return Result(reply.ret, reply.errno); }
      replies := reply.fds;
      count := MergePass(pollfds, reply.fds, positions, count, table, proxy, before);
    } else {
      NoneGathered(table, proxy, before, pollfds[..]);
    }
    FinalCount(table, proxy, before, replies, pollfds[..]);
    return Result(count, 0);
  }

  lemma FinalCount(table: seq<Entry>, proxy: bool, before: seq<PollFd>, replies: seq<PollFd>, after: seq<PollFd>)
    requires |replies| == Rank(table, before, |before|) && Scattered(table, proxy, before, replies, after, |replies|)
    ensures forall i: nat | i < |before| :: after[i] == FinalResult(table, proxy, before, replies, i)
    ensures |Reporting(after)| == OwnCount(table, proxy, before, |before|) + ReplyCount(replies, |replies|)
  {
    CountsAdd(table, proxy, before, replies, after, |before|);
    assert after[..|before|] == after;
  }

  lemma NoneGathered(table: seq<Entry>, proxy: bool, before: seq<PollFd>, after: seq<PollFd>)
    requires Gather(table, before, |before|) == [] && Answered(table, proxy, before, after, |before|)
    ensures Scattered(table, proxy, before, [], after, 0)
  {
    forall i: nat | i < |before| ensures IsVirtual(table, before[i].fd) {
      if !IsVirtual(table, before[i].fd) { GatherAt(table, before, i, |before|); }
    }
  }

  /** What a call of Poll that reaches the real service, or needs none, does. */
  ghost predicate Polled(table: seq<Entry>, proxy: bool, before: seq<PollFd>, dispatch: seq<PollFd> -> PollReply,
                         after: seq<PollFd>, outcome: PollOutcome)
    requires KeepsLength(dispatch)
  {
    var gathered := Gather(table, before, |before|);
    var reply := if gathered == [] then Reported(0, 0, []) else dispatch(gathered);
    if reply.Reported? && reply.ret >= 0 then
      && |after| == |before|
      && (forall i: nat | i < |before| :: after[i] == FinalResult(table, proxy, before, reply.fds, i))
      && outcome == Result(|Reporting(after)|, 0)
    else
      && Answered(table, proxy, before, after, |before|)
      && outcome == if reply.NoReply? then Broken else Result(reply.ret, reply.errno)
  }

  // ---------------------------------------------------------------- the answer, bit by bit

  /**
   What a socket has to report: input exactly when it was asked for and the
   socket is readable, output exactly when it was asked for and the socket is
   writable, an error exactly when the socket has one, and nothing else.
   */
  predicate Reports(asked: Events, told: Events, s: Ready) {
    && (In in told <==> RdNorm in told)
    && (In in told <==> (In in asked || RdNorm in asked || RdBand in asked) && s.readable)
    && (Out in told <==> WrNorm in told)
    && (Out in told <==> (Out in asked || WrNorm in asked || WrBand in asked) && s.writable)
    && (Err in told <==> s.error)
    && RdBand !in told && WrBand !in told && Hup !in told && Nval !in told && Pri !in told
  }

  lemma EventsExact(asked: Events, s: Ready)
    ensures Reports(asked, VirtualEvents(asked, s), s)
  {
    Asks(asked, WANTS_INPUT, In, RdNorm, RdBand);
    Asks(asked, WANTS_OUTPUT, Out, WrNorm, WrBand);
  }

  lemma Asks(asked: Events, wanted: Events, a: Bit, b: Bit, c: Bit)
    requires wanted == {a, b, c}
    ensures asked * wanted != {} <==> a in asked || b in asked || c in asked
  {
    if a in asked { assert a in asked * wanted; }
    if b in asked { assert b in asked * wanted; }
    if c in asked { assert c in asked * wanted; }
  }

  /** Whatever came of the call, an entry keeps its descriptor and question, and a virtual one has been answered. */
  lemma EntryAfter(table: seq<Entry>, proxy: bool, before: seq<PollFd>, dispatch: seq<PollFd> -> PollReply,
                   after: seq<PollFd>, outcome: PollOutcome, i: nat)
    requires KeepsLength(dispatch) && Polled(table, proxy, before, dispatch, after, outcome) && i < |before|
    ensures |after| == |before| && after[i].fd == before[i].fd && after[i].events == before[i].events
    ensures IsVirtual(table, before[i].fd) ==> after[i] == OwnResult(table, proxy, before[i])
  {
  }

  /**
   Poll means what poll means: after the call a virtual entry reports what its
   socket has to report, and if the real service was not needed or succeeded a
   real entry reports what that service reported in its slot. Descriptors and
   questions are as before.
   */
  lemma PollMeaning(table: seq<Entry>, proxy: bool, before: seq<PollFd>, dispatch: seq<PollFd> -> PollReply,
                    after: seq<PollFd>, outcome: PollOutcome, i: nat)
    requires KeepsLength(dispatch) && Polled(table, proxy, before, dispatch, after, outcome) && i < |before|
    ensures |after| == |before| && after[i].fd == before[i].fd && after[i].events == before[i].events
    ensures 0 <= before[i].fd < |table| ==> forall s | SocketIs(table[before[i].fd], proxy, s) ::
              Reports(before[i].events, after[i].revents, s)
    ensures outcome.Result? && outcome.ret >= 0 && !(0 <= before[i].fd < |table| && table[before[i].fd].Virtual?) ==>
              RealReport(table, before, dispatch, after, i)
  {
    EntryAfter(table, proxy, before, dispatch, after, outcome, i);
    if 0 <= before[i].fd < |table| {
      forall s | SocketIs(table[before[i].fd], proxy, s) ensures Reports(before[i].events, after[i].revents, s) {
        EventsExact(before[i].events, s);
      }
    }
    if outcome.Result? && outcome.ret >= 0 && !IsVirtual(table, before[i].fd) {
      RealAfter(table, proxy, before, dispatch, after, outcome, i);
    }
  }

  /** Entry i has the real service's report from the slot that holds the entry. */
  ghost predicate RealReport(table: seq<Entry>, before: seq<PollFd>, dispatch: seq<PollFd> -> PollReply, after: seq<PollFd>, i: nat)
    requires i < |before| && i < |after|
  {
    var asked := Gather(table, before, |before|);
    var reply := dispatch(asked);
    var slot := Rank(table, before, i);
    && slot < |asked| && asked[slot] == before[i] && reply.Reported? && slot < |reply.fds|
    && after[i].revents == reply.fds[slot].revents
  }

  lemma RealAfter(table: seq<Entry>, proxy: bool, before: seq<PollFd>, dispatch: seq<PollFd> -> PollReply,
                  after: seq<PollFd>, outcome: PollOutcome, i: nat)
    requires KeepsLength(dispatch) && Polled(table, proxy, before, dispatch, after, outcome) && i < |before|
    requires outcome.Result? && outcome.ret >= 0 && !IsVirtual(table, before[i].fd)
    ensures |after| == |before| && RealReport(table, before, dispatch, after, i)
  {
    GatherAt(table, before, i, |before|);
    var asked := Gather(table, before, |before|);
    assert |dispatch(asked).fds| == |asked|;
    assert after[i] == FinalResult(table, proxy, before, dispatch(asked).fds, i);
  }
}
