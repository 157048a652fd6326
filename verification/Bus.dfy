/** The threads of the program and their locks: any number of clients that send frames and
    erase queues, and the receive thread, all in exception-free runs.

    Thread 0 receives. A send locks the bus and, inside the write, the write mutex; a receive pass
    locks the bus and, one after the other, the read mutex for each read and a queue mutex for the
    callback; a client erasing a queue locks just that queue's mutex. */
module Bus {
  import opened Bytes
  import opened Framing
  import opened Mailboxes

  datatype Lock = BusLock | ReadLock | WriteLock | QueueLock(t: Target)

  datatype Thread =
    | AtRest
    // a client sending a body
    | WantsBus(body: Frame)
    | HasBus(body: Frame)
    | Writing(body: Frame, sent: nat)
    | Written(body: Frame, sent: nat)
    // a client at a queue
    | WantsQueue(t: Target)
    | AtQueue(t: Target)
    // the receive thread; tries counts the reads still possible in this pass
    | WantsBusToRead
    | BetweenReads(tries: nat)
    | Reading(tries: nat)
    | WantsToDeliver(t: Target)
    | Delivering(t: Target)
    | Leaving

  datatype System = System(threads: seq<Thread>, owner: map<Lock, nat>, wire: seq<byte>, ended: seq<Segment>)

  datatype Move =
    | BeginSend(body: Frame)
    | BeginErase(t: Target)
    | BeginPass
    | Go                       // lock, unlock, or finish
    | Chunk(n: nat)            // the line takes n more bytes
    | GiveUp                   // the write times out
    | ReadAgain                // a read yielded what was asked for, and another follows
    | Deliver(t: Target)       // the fourth read completed a frame for queue t

  // ---------------------------------------------------------------- locks

  function Holds(th: Thread): set<Lock>
  {
    match th
    case HasBus(_) => {BusLock}
    case Writing(_, _) => {BusLock, WriteLock}
    case Written(_, _) => {BusLock}
    case AtQueue(t) => {QueueLock(t)}
    case BetweenReads(_) => {BusLock}
    case Reading(_) => {BusLock, ReadLock}
    case WantsToDeliver(_) => {BusLock}
    case Delivering(t) => {BusLock, QueueLock(t)}
    case Leaving => {BusLock}
    case _ => {}
  }

  /** The lock a thread must get to go on. */
  function Wants(th: Thread): Option<Lock>
  {
    match th
    case WantsBus(_) => Some(BusLock)
    case HasBus(_) => Some(WriteLock)
    case WantsQueue(t) => Some(QueueLock(t))
    case WantsBusToRead => Some(BusLock)
    case BetweenReads(_) => Some(ReadLock)
    case WantsToDeliver(t) => Some(QueueLock(t))
    case _ => None
  }

  function LockRank(l: Lock): nat
  {
    if l.BusLock? then 0 else 1
  }

  // ---------------------------------------------------------------- steps

  /** The thread's own part of a move; None if the thread cannot make it where it stands. */
  function After(th: Thread, m: Move): Option<Thread>
  {
    match th
    case AtRest =>
      (match m
       case BeginSend(body) => Some(WantsBus(body))
       case BeginErase(t) => Some(WantsQueue(t))
       case BeginPass => Some(WantsBusToRead)
       case _ => None)
    case WantsBus(body) => if m.Go? then Some(HasBus(body)) else None
    case HasBus(body) => if m.Go? then Some(Writing(body, 0)) else None
    case Writing(body, sent) =>
      var left := |Wire(body)| - sent;
      if m.Chunk? && 0 < m.n <= left then Some(Writing(body, sent + m.n))
      else if (m.Go? && left == 0) || m.GiveUp? then Some(Written(body, sent))
      else None
    case Written(_, _) => if m.Go? then Some(AtRest) else None
    case WantsQueue(t) => if m.Go? then Some(AtQueue(t)) else None
    case AtQueue(_) => if m.Go? then Some(AtRest) else None
    case WantsBusToRead => if m.Go? then Some(BetweenReads(4)) else None
    case BetweenReads(tries) => if m.Go? then Some(Reading(tries)) else None
    case Reading(tries) =>
      if m.ReadAgain? && tries > 1 then Some(BetweenReads(tries - 1))
      else if m.Deliver? && tries == 1 then Some(WantsToDeliver(m.t))
      else if m.Go? then Some(Leaving)
      else None
    case WantsToDeliver(t) => if m.Go? then Some(Delivering(t)) else None
    case Delivering(_) => if m.Go? then Some(Leaving) else None
    case Leaving => if m.Go? then Some(AtRest) else None
  }

  /** Thread tid makes move m: None if it cannot, or if the lock it must get is taken. */
  function Next(s: System, tid: nat, m: Move): Option<System>
  {
    if tid >= |s.threads| then None
    else if (m.BeginPass? && tid != 0) || ((m.BeginSend? || m.BeginErase?) && tid == 0) then None
    else
      var th := s.threads[tid];
      var th' := After(th, m);
      if th'.None? then None
      else if Wants(th).Some? && Wants(th).value in s.owner then None
      else
        Some(System(
          s.threads[tid := th'.value],
          Handover(s.owner, Holds(th), Holds(th'.value), tid),
          if th.Writing? && m.Chunk? then s.wire + Wire(th.body)[th.sent..th.sent + m.n] else s.wire,
          if th.Writing? && th'.value.Written? then s.ended + [Segment(th.body, th.sent)] else s.ended))
  }

  datatype Act = Act(tid: nat, m: Move)

  function Start(n: nat): System
  {
    System(seq(n, i => AtRest), map[], [], [])
  }

  /** A run: acts that are not possible when their turn comes do nothing. */
  function Run(s: System, acts: seq<Act>): System
  {
    if |acts| == 0 then s
    else
      var before, a := Run(s, acts[..|acts| - 1]), acts[|acts| - 1];
      var r := Next(before, a.tid, a.m);
      if r.Some? then r.value else before
  }

  // ---------------------------------------------------------------- the invariant

  /** A lock has an owner exactly if that thread, and no other, holds it. */
  predicate LocksOk(s: System)
  {
    && (forall l :: l in s.owner ==> s.owner[l] < |s.threads| && l in Holds(s.threads[s.owner[l]]))
    && (forall i, l :: 0 <= i < |s.threads| && l in Holds(s.threads[i]) ==> l in s.owner && s.owner[l] == i)
  }

  /** The bytes of the sends that have ended, in order. */
  function EndedBytes(xs: seq<Segment>): seq<byte>
  {
    if |xs| == 0 then [] else EndedBytes(xs[..|xs| - 1]) + Sent(xs[|xs| - 1])
  }

  /** What the line took of a send. */
  function Sent(x: Segment): seq<byte>
  {
    if x.sent <= |Wire(x.body)| then Wire(x.body)[..x.sent] else Wire(x.body)
  }

  /** The bytes stand on the line from position p on. */
  predicate OnLine(wire: seq<byte>, p: nat, bytes: seq<byte>)
  {
    p + |bytes| <= |wire| && wire[p..p + |bytes|] == bytes
  }

  /** The send in progress, if any: that of the thread that owns the write mutex. */
  function InProgress(s: System): seq<byte>
  {
    if WriteLock in s.owner && s.owner[WriteLock] < |s.threads| then
      var th := s.threads[s.owner[WriteLock]];
      if th.Writing? && th.sent <= |Wire(th.body)| then Wire(th.body)[..th.sent] else []
    else []
  }

  predicate SendsOk(s: System)
  {
    && (forall k :: 0 <= k < |s.ended| ==> s.ended[k].sent <= |Wire(s.ended[k].body)|)
    && (forall i :: 0 <= i < |s.threads| && s.threads[i].Writing? ==> s.threads[i].sent <= |Wire(s.threads[i].body)|)
  }

  /** The line has taken ended sends, whole or cut short, one after the other, then a prefix of
      the one in progress. */
  predicate WireOk(s: System)
  {
    SendsOk(s) && s.wire == EndedBytes(s.ended) + InProgress(s)
  }

  predicate Inv(s: System)
  {
    LocksOk(s) && WireOk(s)
  }

  // ---------------------------------------------------------------- steps keep the invariant

  lemma LocksKept(s: System, tid: nat, m: Move)
    requires LocksOk(s) && Next(s, tid, m).Some?
    ensures LocksOk(Next(s, tid, m).value)
  {
    hide Wire, Holds, After, Wants, LocksOk;
    MoveTakesWanted(s.threads[tid], m);
    var th, th' := s.threads[tid], After(s.threads[tid], m).value;
    forall l | l in Holds(th') && l !in Holds(th)
      ensures l !in s.owner
    {
      assert l in Holds(th') - Holds(th);
    }
    LocksHandedOver(s, tid, th', Next(s, tid, m).value);
  }

  /** A thread that takes over only free locks keeps the owners right. */
  lemma LocksHandedOver(s: System, tid: nat, th': Thread, s': System)
    requires LocksOk(s) && tid < |s.threads| && s'.threads == s.threads[tid := th']
    requires forall l :: l in Holds(th') && l !in Holds(s.threads[tid]) ==> l !in s.owner
    requires s'.owner == Handover(s.owner, Holds(s.threads[tid]), Holds(th'), tid)
    ensures LocksOk(s')
  {
    hide Holds;
    var th := s.threads[tid];
    forall l | l in s'.owner
      ensures s'.owner[l] < |s'.threads| && l in Holds(s'.threads[s'.owner[l]])
    {
      assert l !in Holds(th') ==> l in s.owner;
    }
    forall i, l | 0 <= i < |s'.threads| && l in Holds(s'.threads[i])
      ensures l in s'.owner && s'.owner[l] == i
    {
      if i != tid {
        HeldOnce(s, i, tid, l);
      } else {
        assert l in Holds(th) ==> l in s.owner && s.owner[l] == tid;
      }
    }
  }

  /** Owners after thread tid has come to hold b instead of a. */
  function Handover(owner: map<Lock, nat>, a: set<Lock>, b: set<Lock>, tid: nat): map<Lock, nat>
  {
    (owner - (a - b)) + map l | l in b - a :: tid
  }

  lemma HeldOnce(s: System, i: nat, j: nat, l: Lock)
    requires LocksOk(s) && i < |s.threads| && j < |s.threads| && i != j && l in Holds(s.threads[i])
    ensures l in s.owner && s.owner[l] == i && l !in Holds(s.threads[j])
  {
    hide Holds;
  }

  /** What a move acquires is what the thread waited for, and nothing else. */
  lemma MoveTakesWanted(th: Thread, m: Move)
    requires After(th, m).Some?
    ensures Holds(After(th, m).value) - Holds(th) == if Wants(th).Some? then {Wants(th).value} else {}
  {
    hide Wire;
  }

  lemma EndedAppend(xs: seq<Segment>, x: Segment)
    requires forall k :: 0 <= k < |xs| ==> xs[k].sent <= |Wire(xs[k].body)|
    requires x.sent <= |Wire(x.body)|
    ensures EndedBytes(xs + [x]) == EndedBytes(xs) + Wire(x.body)[..x.sent]
  {
    assert (xs + [x])[..|xs|] == xs;
  }

  /** Whoever writes owns the write mutex, and what it has sent is what is in progress. */
  lemma WriterIsInProgress(s: System, i: nat)
    requires LocksOk(s) && i < |s.threads| && s.threads[i].Writing? && s.threads[i].sent <= |Wire(s.threads[i].body)|
    ensures WriteLock in s.owner && s.owner[WriteLock] == i
    ensures InProgress(s) == Wire(s.threads[i].body)[..s.threads[i].sent]
  {
    hide Wire;
    assert WriteLock in Holds(s.threads[i]);
  }

  lemma PrefixGrows(e: seq<byte>, w: seq<byte>, k: nat, n: nat)
    requires k + n <= |w|
    ensures e + w[..k] + w[k..k + n] == e + w[..k + n]
  {
    assert w[..k] + w[k..k + n] == w[..k + n];
  }

  lemma ChunkKept(s: System, tid: nat, m: Move)
    requires Inv(s) && Next(s, tid, m).Some? && s.threads[tid].Writing? && m.Chunk?
    ensures WireOk(Next(s, tid, m).value)
  {
    hide Wire, LocksOk, InProgress, EndedBytes, Holds, Wants;
    LocksKept(s, tid, m);
    var th, s' := s.threads[tid], Next(s, tid, m).value;
    WriterIsInProgress(s, tid);
    assert s'.threads == s.threads[tid := Writing(th.body, th.sent + m.n)] && s'.ended == s.ended;
    WriterIsInProgress(s', tid);
    PrefixGrows(EndedBytes(s.ended), Wire(th.body), th.sent, m.n);
  }

  lemma FinishKept(s: System, tid: nat, m: Move)
    requires Inv(s) && Next(s, tid, m).Some? && s.threads[tid].Writing? && !m.Chunk?
    ensures WireOk(Next(s, tid, m).value)
  {
    hide Wire, EndedBytes;
    var th, s' := s.threads[tid], Next(s, tid, m).value;
    WriterIsInProgress(s, tid);
    EndedAppend(s.ended, Segment(th.body, th.sent));
    assert WriteLock !in s'.owner;
    assert InProgress(s') == [];
  }

  lemma WireKept(s: System, tid: nat, m: Move)
    requires Inv(s) && Next(s, tid, m).Some?
    ensures WireOk(Next(s, tid, m).value)
  {
    var th := s.threads[tid];
    if th.Writing? {
      if m.Chunk? { ChunkKept(s, tid, m); } else { FinishKept(s, tid, m); }
    } else {
      OtherKept(s, tid, m);
    }
  }

  lemma OtherKept(s: System, tid: nat, m: Move)
    requires Inv(s) && Next(s, tid, m).Some? && !s.threads[tid].Writing?
    ensures WireOk(Next(s, tid, m).value)
  {
    if s.threads[tid].HasBus? { BeginWriteKept(s, tid, m); } else { ElsewhereKept(s, tid, m); }
  }

  lemma BeginWriteKept(s: System, tid: nat, m: Move)
    requires Inv(s) && Next(s, tid, m).Some? && s.threads[tid].HasBus?
    ensures WireOk(Next(s, tid, m).value)
  {
    hide Wire, EndedBytes, LocksOk;
    LocksKept(s, tid, m);
    var th, s' := s.threads[tid], Next(s, tid, m).value;
    assert s' == s.(threads := s'.threads, owner := s'.owner) && s'.threads == s.threads[tid := Writing(th.body, 0)];
    WriterIsInProgress(s', tid);
    assert Wire(th.body)[..0] == [] && WriteLock !in s.owner;
  }

  lemma ElsewhereKept(s: System, tid: nat, m: Move)
    requires Inv(s) && Next(s, tid, m).Some? && !s.threads[tid].Writing? && !s.threads[tid].HasBus?
    ensures WireOk(Next(s, tid, m).value)
  {
    hide Wire, EndedBytes;
    var th, s' := s.threads[tid], Next(s, tid, m).value;
    WriteLockElsewhere(th, m);
    assert s' == s.(threads := s'.threads, owner := s'.owner) && s'.threads == s.threads[tid := After(th, m).value];
    assert s'.owner == Handover(s.owner, Holds(th), Holds(After(th, m).value), tid);
    assert WriteLock in s.owner ==> WriteLock in Holds(s.threads[s.owner[WriteLock]]);
    hide Next, After, LocksOk, Holds;
    assert WriteLock in s'.owner <==> WriteLock in s.owner;
    assert WriteLock in s.owner ==> s'.owner[WriteLock] == s.owner[WriteLock] != tid;
  }

  lemma WriteLockElsewhere(th: Thread, m: Move)
    requires !th.Writing? && !th.HasBus? && After(th, m).Some?
    ensures WriteLock !in Holds(th) && WriteLock !in Holds(After(th, m).value) && !After(th, m).value.Writing?
  {
    hide Wire;
  }

  lemma {:induction false} RunKeeps(s: System, acts: seq<Act>)
    requires Inv(s)
    ensures Inv(Run(s, acts)) && |Run(s, acts).threads| == |s.threads|
    decreases |acts|
  {
    if |acts| > 0 {
      var before, a := Run(s, acts[..|acts| - 1]), acts[|acts| - 1];
      RunKeeps(s, acts[..|acts| - 1]);
      if Next(before, a.tid, a.m).Some? {
        LocksKept(before, a.tid, a.m);
        WireKept(before, a.tid, a.m);
      }
    }
  }

  lemma Reachable(n: nat, acts: seq<Act>)
    ensures Inv(Run(Start(n), acts))
  {
    RunKeeps(Start(n), acts);
  }

  // ---------------------------------------------------------------- no interleaving on the wire

  lemma OnLineExtends(wire: seq<byte>, more: seq<byte>, p: nat, bytes: seq<byte>)
    requires OnLine(wire, p, bytes)
    ensures OnLine(wire + more, p, bytes)
  {
    assert (wire + more)[p..p + |bytes|] == wire[p..p + |bytes|];
  }

  lemma OnLineAtEnd(wire: seq<byte>, bytes: seq<byte>)
    ensures OnLine(wire + bytes, |wire|, bytes)
  {
  }

  /** What the line took of a send stands in one piece behind what it took of those that ended before. */
  lemma {:induction false} EndedOnLine(xs: seq<Segment>, k: nat)
    requires k < |xs|
    ensures OnLine(EndedBytes(xs), |EndedBytes(xs[..k])|, Sent(xs[k]))
    decreases |xs|
  {
    hide Sent, OnLine;
    var n := |xs| - 1;
    if k < n {
      EndedOnLine(xs[..n], k);
      assert xs[..n][..k] == xs[..k];
      OnLineExtends(EndedBytes(xs[..n]), Sent(xs[n]), |EndedBytes(xs[..k])|, Sent(xs[k]));
    } else {
      OnLineAtEnd(EndedBytes(xs[..n]), Sent(xs[n]));
    }
  }

  /** With any number of senders, what the line has taken is at all times whole wire frames or
      prefixes of wire frames, one after the other, and at most one more prefix, that of the
      one thread inside the write; a send reports success exactly if its frame went out whole. */
  lemma NoInterleaving(n: nat, acts: seq<Act>)
    ensures var s := Run(Start(n), acts);
            SendsOk(s) && s.wire == EndedBytes(s.ended) + InProgress(s)
    ensures var s := Run(Start(n), acts);
            forall k :: 0 <= k < |s.ended| ==> OnLine(s.wire, |EndedBytes(s.ended[..k])|, Sent(s.ended[k]))
    ensures var s := Run(Start(n), acts);
            forall k :: 0 <= k < |s.ended| && Code(s.ended[k]) == 0 ==> Sent(s.ended[k]) == Wire(s.ended[k].body)
    ensures var s := Run(Start(n), acts);
            forall i, j :: 0 <= i < j < |s.threads| ==> !(s.threads[i].Writing? && s.threads[j].Writing?)
  {
    Reachable(n, acts);
    var s := Run(Start(n), acts);
    hide Run, Wire, EndedBytes;
    forall k | 0 <= k < |s.ended|
      ensures OnLine(s.wire, |EndedBytes(s.ended[..k])|, Sent(s.ended[k]))
    {
      EndedOnLine(s.ended, k);
      OnLineExtends(EndedBytes(s.ended), InProgress(s), |EndedBytes(s.ended[..k])|, Sent(s.ended[k]));
    }
    forall k | 0 <= k < |s.ended| && Code(s.ended[k]) == 0
      ensures Sent(s.ended[k]) == Wire(s.ended[k].body)
    {
    }
    forall i, j | 0 <= i < j < |s.threads|
      ensures !(s.threads[i].Writing? && s.threads[j].Writing?)
    {
      assert s.threads[i].Writing? ==> WriteLock in Holds(s.threads[i]);
      assert s.threads[j].Writing? ==> WriteLock in Holds(s.threads[j]);
    }
  }

  function BodiesOf(xs: seq<Segment>): seq<Frame>
  {
    if |xs| == 0 then [] else BodiesOf(xs[..|xs| - 1]) + [xs[|xs| - 1].body]
  }

  lemma {:induction false} WiresAppend(fs: seq<Frame>, f: Frame)
    ensures Wires(fs + [f]) == Wires(fs) + Wire(f)
    decreases |fs|
  {
    if |fs| == 0 {
      assert [] + [f] == [f] && [f][1..] == [];
      assert Wires([f]) == Wire(f) + Wires([]);
    } else {
      assert (fs + [f])[1..] == fs[1..] + [f] && (fs + [f])[0] == fs[0];
      WiresAppend(fs[1..], f);
    }
  }

  lemma {:induction false} WholeSends(xs: seq<Segment>)
    requires forall k :: 0 <= k < |xs| ==> xs[k].sent <= |Wire(xs[k].body)| && Code(xs[k]) == 0
    ensures EndedBytes(xs) == Wires(BodiesOf(xs))
    decreases |xs|
  {
    if |xs| > 0 {
      var n := |xs| - 1;
      WholeSends(xs[..n]);
      WiresAppend(BodiesOf(xs[..n]), xs[n].body);
      assert Wire(xs[n].body)[..xs[n].sent] == Wire(xs[n].body);
    }
  }

  /** Every send that has ended reported success, and none is in progress. */
  predicate AllSent(s: System)
  {
    && (forall k :: 0 <= k < |s.ended| ==> Code(s.ended[k]) == 0)
    && (forall i :: 0 <= i < |s.threads| ==> !s.threads[i].Writing?)
  }

  /** If every send so far has reported success and none is in progress, the line has taken exactly
      the wire frames of the bodies, in the order in which the sends ended. */
  lemma SuccessfulSends(n: nat, acts: seq<Act>)
    requires AllSent(Run(Start(n), acts))
    ensures Run(Start(n), acts).wire == Wires(BodiesOf(Run(Start(n), acts).ended))
  {
    hide Run, AllSent, Inv;
    Reachable(n, acts);
    AllSentWhole(Run(Start(n), acts));
  }

  lemma AllSentWhole(s: System)
    requires Inv(s) && AllSent(s)
    ensures s.wire == Wires(BodiesOf(s.ended))
  {
    hide Wire, Wires, EndedBytes, BodiesOf;
    WholeSends(s.ended);
    assert InProgress(s) == [];
  }

  // ---------------------------------------------------------------- no deadlock

  predicate CanGo(s: System, tid: nat)
  {
    Next(s, tid, Go).Some? || Next(s, tid, GiveUp).Some?
  }

  /** A thread waits only for locks of higher rank than all it holds. */
  lemma LockOrder(th: Thread)
    requires Wants(th).Some?
    ensures forall l :: l in Holds(th) ==> LockRank(l) < LockRank(Wants(th).value)
  {
  }

  /** A thread that is not at rest can go on unless the lock it waits for is taken. */
  lemma BlockedByLock(s: System, tid: nat)
    requires tid < |s.threads| && !s.threads[tid].AtRest?
    ensures CanGo(s, tid) <==> !(Wants(s.threads[tid]).Some? && Wants(s.threads[tid]).value in s.owner)
  {
    hide Wire;
  }

  /** The thread that owns the lock that thread tid waits for. */
  function Blocker(s: System, tid: nat): Option<nat>
  {
    if tid < |s.threads| && Wants(s.threads[tid]).Some? && Wants(s.threads[tid]).value in s.owner
    then Some(s.owner[Wants(s.threads[tid]).value])
    else None
  }

  /** The owner of a lock other than the bus can always go on; the owner of the bus can go on
      or waits for such a lock. */
  lemma OwnerGoesOn(s: System, l: Lock) returns (u: nat)
    requires Inv(s) && l in s.owner
    ensures u < |s.threads| && CanGo(s, u) && !s.threads[u].AtRest?
    ensures u == s.owner[l] || Blocker(s, s.owner[l]) == Some(u)
    decreases 1 - LockRank(l)
  {
    hide Next, WireOk;
    u := s.owner[l];
    var th := s.threads[u];
    assert l in Holds(th);
    BlockedByLock(s, u);
    if !CanGo(s, u) {
      LockOrder(th);
      var inner := Wants(th).value;
      u := OwnerGoesOn(s, inner);
      InnerOwnerIsFree(s, inner);
    }
  }

  lemma InnerOwnerIsFree(s: System, l: Lock)
    requires Inv(s) && l in s.owner && LockRank(l) == 1
    ensures CanGo(s, s.owner[l]) && Wants(s.threads[s.owner[l]]).None?
  {
    hide Next, WireOk;
    var th := s.threads[s.owner[l]];
    assert l in Holds(th);
    BlockedByLock(s, s.owner[l]);
  }

  /** No deadlock: in every state that any run of any number of threads reaches, if some thread is
      not at rest, then it can go on, or a thread it waits for, directly or through one other, can. */
  lemma NoDeadlock(n: nat, acts: seq<Act>, tid: nat) returns (u: nat)
    requires tid < |Run(Start(n), acts).threads| && !Run(Start(n), acts).threads[tid].AtRest?
    ensures var s := Run(Start(n), acts);
            && u < |s.threads| && CanGo(s, u) && !s.threads[u].AtRest?
            && (u == tid || Blocker(s, tid) == Some(u)
                || (Blocker(s, tid).Some? && Blocker(s, Blocker(s, tid).value) == Some(u)))
  {
    Reachable(n, acts);
    var s := Run(Start(n), acts);
    hide Run, Inv, Next;
    BlockedByLock(s, tid);
    if CanGo(s, tid) {
      u := tid;
    } else {
      u := OwnerGoesOn(s, Wants(s.threads[tid]).value);
    }
  }

  // ---------------------------------------------------------------- every call ends

  /** An upper bound on the moves a thread has left before it is at rest. */
  function Work(th: Thread): nat
  {
    match th
    case AtRest => 0
    case WantsBus(body) => |Wire(body)| + 4
    case HasBus(body) => |Wire(body)| + 3
    case Writing(body, sent) => if sent <= |Wire(body)| then |Wire(body)| - sent + 2 else 2
    case Written(_, _) => 1
    case WantsQueue(_) => 2
    case AtQueue(_) => 1
    case WantsBusToRead => 13
    case BetweenReads(tries) => 2 * tries + 4
    case Reading(tries) => 2 * tries + 3
    case WantsToDeliver(_) => 3
    case Delivering(_) => 2
    case Leaving => 1
  }

  /** Every move of a thread that is not at rest brings it closer to rest and leaves the
      others where they are: writes that make progress, timeouts and reads cannot go on for ever. */
  lemma MovesEnd(s: System, tid: nat, m: Move)
    requires Inv(s) && Next(s, tid, m).Some? && !s.threads[tid].AtRest?
    ensures var s' := Next(s, tid, m).value;
            && Work(s'.threads[tid]) < Work(s.threads[tid])
            && forall i :: 0 <= i < |s.threads| && i != tid ==> s'.threads[i] == s.threads[i]
  {
    hide Wire, LocksOk, EndedBytes, InProgress;
  }

  function TotalWork(ths: seq<Thread>): nat
  {
    if |ths| == 0 then 0 else Work(ths[0]) + TotalWork(ths[1..])
  }

  lemma {:induction false} TotalWorkFalls(ths: seq<Thread>, tid: nat, th: Thread)
    requires tid < |ths| && Work(th) < Work(ths[tid])
    ensures TotalWork(ths[tid := th]) < TotalWork(ths)
    decreases |ths|
  {
    hide Work;
    if tid == 0 {
      assert ths[0 := th][1..] == ths[1..];
    } else {
      TotalWorkFalls(ths[1..], tid - 1, th);
      assert ths[tid := th][1..] == ths[1..][tid - 1 := th];
    }
  }

  /** Every act is possible when its turn comes, and none begins a new call. */
  predicate Finishing(s: System, acts: seq<Act>)
  {
    |acts| == 0
    || (var before, a := Run(s, acts[..|acts| - 1]), acts[|acts| - 1];
        Finishing(s, acts[..|acts| - 1]) && Possible(before, a))
  }

  /** A move within a call, by a thread that can make it. */
  predicate Possible(s: System, a: Act)
  {
    a.tid < |s.threads| && !s.threads[a.tid].AtRest? && Next(s, a.tid, a.m).Some?
  }

  /** Without new calls every move takes from the work that is left, so there is a bound on them; and if
      no thread can make a move any more, all threads are at rest, not stuck in their calls. */
  lemma {:induction false} RestIsReached(s: System, acts: seq<Act>)
    requires Inv(s) && Finishing(s, acts)
    ensures var s' := Run(s, acts);
            && Inv(s') && |acts| + TotalWork(s'.threads) <= TotalWork(s.threads)
            && ((forall a: Act :: !Possible(s', a)) <==> forall i :: 0 <= i < |s'.threads| ==> s'.threads[i].AtRest?)
    decreases |acts|
  {
    hide Inv, Next, Possible, TotalWork;
    if |acts| > 0 {
      var before, a := Run(s, acts[..|acts| - 1]), acts[|acts| - 1];
      RestIsReached(s, acts[..|acts| - 1]);
      PossibleTakesWork(before, a);
    }
    StuckIffAtRest(Run(s, acts));
  }

  lemma PossibleTakesWork(s: System, a: Act)
    requires Inv(s) && Possible(s, a)
    ensures Next(s, a.tid, a.m).Some?
    ensures var s' := Next(s, a.tid, a.m).value; Inv(s') && TotalWork(s'.threads) < TotalWork(s.threads)
  {
    var s' := Next(s, a.tid, a.m).value;
    assert s'.threads == s.threads[a.tid := s'.threads[a.tid]];
    hide LocksOk, WireOk, Work, Next;
    LocksKept(s, a.tid, a.m);
    WireKept(s, a.tid, a.m);
    MovesEnd(s, a.tid, a.m);
    TotalWorkFalls(s.threads, a.tid, s'.threads[a.tid]);
  }

  /** Nothing can move exactly if nobody has anything left to do. */
  lemma StuckIffAtRest(s: System)
    requires Inv(s)
    ensures (forall a: Act :: !Possible(s, a)) <==> forall i :: 0 <= i < |s.threads| ==> s.threads[i].AtRest?
  {
    hide Inv, Next;
    if i :| 0 <= i < |s.threads| && !s.threads[i].AtRest? {
      var u: nat := i;
      BlockedByLock(s, i);
      if !CanGo(s, i) {
        u := OwnerGoesOn(s, Wants(s.threads[i]).value);
      }
      assert Possible(s, Act(u, Go)) || Possible(s, Act(u, GiveUp));
    }
  }
}
