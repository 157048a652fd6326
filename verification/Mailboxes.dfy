/** Received frames between the callback and the client, as a step system.

    The callback pushes each frame onto one of five queues while one client thread reads and
    erases in separate steps. Every queue carries its history: what was ever routed to it, and
    the fate of what has left it. */
module Mailboxes {
  import opened Bytes
  import opened Framing

  const KEYBOARD_INPUT: byte := 0x32
  const SEARCH_CARD_START: byte := 0x46
  const TOUCH_COORDINATE: byte := 0x3E
  const CHECK_IC_STATUS: byte := 0x4C

  /** Attempts of a polling client, one millisecond apart. */
  const RECV_TIMEOUT: nat := 2000

  datatype Target = Replies | Keys | Search | Touch | IcStatus

  datatype Fate = Returned | Dropped

  /** A queue with its history: fates tells of the frames of routed that have left the queue. */
  datatype Box = Box(queue: seq<Frame>, routed: seq<Frame>, fates: seq<Fate>)

  datatype Boxes = Boxes(replies: Box, keys: Box, search: Box, touch: Box, icStatus: Box)
  {
    function Of(t: Target): Box
    {
      match t
      case Replies => replies
      case Keys => keys
      case Search => search
      case Touch => touch
      case IcStatus => icStatus
    }

    function With(t: Target, b: Box): Boxes
    {
      match t
      case Replies => this.(replies := b)
      case Keys => this.(keys := b)
      case Search => this.(search := b)
      case Touch => this.(touch := b)
      case IcStatus => this.(icStatus := b)
    }
  }

  /** Where the one client thread stands. buf is its copy of a frame, namely of number i, or of the
      newest of the frames seen so far. */
  datatype Client =
    | Idle
    | HoldingKey(i: nat, buf: Frame)
    | HoldingNewest(t: Target, since: nat, seen: nat, buf: Frame)
    | PollingIc(since: nat, budget: nat)
    | Waiting(cmd: byte, since: nat, budget: nat)
    | Scanning(cmd: byte, since: nat, budget: nat, left: nat)
    | HoldingReply(cmd: byte, since: nat, budget: nat, left: nat, i: nat, buf: Frame)

  /** What calls returned. since is the number of frames that had left the queue when a call began,
      upto when it gave up; seen is the number of frames routed when the newest was read. */
  datatype Result =
    | GotKey(i: nat, buf: Frame)
    | GotNewest(t: Target, since: nat, seen: nat, buf: Frame)
    | GotReply(cmd: byte, since: nat, i: nat, buf: Frame)
    | NoReply(cmd: byte, since: nat, upto: nat)
    | Nothing(t: Target)

  /** keysTaken: keys returned since the key queue was last cleared, which was before key number cleared. */
  datatype State = State(
    boxes: Boxes, client: Client, results: seq<Result>, keysTaken: seq<Frame>, cleared: nat)

  datatype Action =
    | Arrive(f: Frame)
    | Clear(t: Target)
    | GetKey
    | GetNewest(t: Target)
    | PollIc
    | AwaitReply(cmd: byte)
    | Continue

  // ---------------------------------------------------------------- routing and matching

  function TargetOf(f: Frame): Target
    requires WellFormed(f)
  {
    if f[1] != RESPONSE then Replies
    else if f[0] == KEYBOARD_INPUT then Keys
    else if f[0] == SEARCH_CARD_START then Search
    else if f[0] == TOUCH_COORDINATE then Touch
    else if f[0] == CHECK_IC_STATUS then IcStatus
    else Replies
  }

  /** The routing table, in bytes. */
  lemma RoutingTable(f: Frame)
    requires WellFormed(f)
    ensures TargetOf(f) == Keys <==> f[0] == 0x32 && f[1] == 0x4F
    ensures TargetOf(f) == Search <==> f[0] == 0x46 && f[1] == 0x4F
    ensures TargetOf(f) == Touch <==> f[0] == 0x3E && f[1] == 0x4F
    ensures TargetOf(f) == IcStatus <==> f[0] == 0x4C && f[1] == 0x4F
    ensures TargetOf(f) == Replies <==> f[1] != 0x4F || f[0] !in {0x32, 0x46, 0x3E, 0x4C}
  {
  }

  /** A command byte as the signed parameter it is passed in. */
  function Signed(cmd: byte): int
  {
    if cmd < 128 then cmd as int else cmd as int - 256
  }

  predicate Matches(cmd: byte, f: Frame)
    requires WellFormed(f)
  {
    f[0] as int == Signed(cmd) && f[1] == RESPONSE
  }

  // ---------------------------------------------------------------- queue operations

  function Push(b: Box, f: Frame): Box
  {
    b.(queue := b.queue + [f], routed := b.routed + [f])
  }

  function PopFront(b: Box, fate: Fate): Box
  {
    if |b.queue| == 0 then b else b.(queue := b.queue[1..], fates := b.fates + [fate])
  }

  function Drops(n: nat): (fates: seq<Fate>)
    ensures |fates| == n && forall k :: 0 <= k < n ==> fates[k] == Dropped
  {
    if n == 0 then [] else Drops(n - 1) + [Dropped]
  }

  function ClearBox(b: Box): Box
  {
    Box([], b.routed, b.fates + Drops(|b.queue|))
  }

  /** Clear the queue, the newest of the frames seen having been copied out of it before. */
  function ClearTaking(b: Box, seen: nat): Box
  {
    var n := |b.fates|;
    if n < seen <= n + |b.queue|
    then Box([], b.routed, b.fates + Drops(seen - 1 - n) + [Returned] + Drops(n + |b.queue| - seen))
    else ClearBox(b)
  }

  // ---------------------------------------------------------------- steps

  const NO_BOX := Box([], [], [])

  function Init(): State
  {
    State(Boxes(NO_BOX, NO_BOX, NO_BOX, NO_BOX, NO_BOX), Idle, [], [], 0)
  }

  function With(s: State, t: Target, b: Box): State
  {
    s.(boxes := s.boxes.With(t, b))
  }

  /** One atomic step; a client action that does not apply changes nothing. */
  function Next(s: State, a: Action): State
  {
    match a
    case Arrive(f) => if WellFormed(f) then With(s, TargetOf(f), Push(s.boxes.Of(TargetOf(f)), f)) else s
    case Continue => Proceed(s)
    case _ => if s.client.Idle? then Begin(s, a) else s
  }

  /** The client begins a call. */
  function Begin(s: State, a: Action): State
  {
    match a
    case Clear(t) =>
      var s' := With(s, t, ClearBox(s.boxes.Of(t)));
      if t.Keys? then s'.(keysTaken := [], cleared := |s'.boxes.Of(Keys).fates|) else s'
    case GetKey =>
      var b := s.boxes.Of(Keys);
      if |b.queue| > 0 then s.(client := HoldingKey(|b.fates|, b.queue[0])) else s.(results := s.results + [Nothing(Keys)])
    case GetNewest(t) =>
      var b := s.boxes.Of(t);
      if !t.Touch? && !t.Search? then s
      else if |b.queue| > 0 then s.(client := HoldingNewest(t, |b.fates|, |b.routed|, b.queue[|b.queue| - 1]))
      else s.(results := s.results + [Nothing(t)])
    case PollIc => s.(client := PollingIc(|s.boxes.Of(IcStatus).fates|, RECV_TIMEOUT))
    case AwaitReply(cmd) => s.(client := Waiting(cmd, |s.boxes.Of(Replies).fates|, RECV_TIMEOUT))
    case _ => s
  }

  /** The client goes on with the call it is in. */
  function Proceed(s: State): State
  {
    match s.client
    case Idle => s
    case HoldingKey(i, buf) =>
      With(s, Keys, PopFront(s.boxes.Of(Keys), Returned))
        .(client := Idle, results := s.results + [GotKey(i, buf)], keysTaken := s.keysTaken + [buf])
    case HoldingNewest(t, since, seen, buf) =>
      With(s, t, ClearTaking(s.boxes.Of(t), seen))
        .(client := Idle, results := s.results + [GotNewest(t, since, seen, buf)])
    case PollingIc(since, budget) =>
      var b := s.boxes.Of(IcStatus);
      if budget == 0 then s.(client := Idle, results := s.results + [Nothing(IcStatus)])
      else if |b.queue| > 0
      then s.(client := HoldingNewest(IcStatus, since, |b.routed|, b.queue[|b.queue| - 1]))
      else s.(client := PollingIc(since, budget - 1))
    case Waiting(cmd, since, budget) =>
      var b := s.boxes.Of(Replies);
      if budget == 0 then s.(client := Idle, results := s.results + [NoReply(cmd, since, |b.fates|)])
      else if |b.queue| > 0 then s.(client := Scanning(cmd, since, budget, |b.queue|))
      else s.(client := Waiting(cmd, since, budget - 1))
    case Scanning(cmd, since, budget, left) =>
      var b := s.boxes.Of(Replies);
      if left == 0 || |b.queue| == 0 then s.(client := Waiting(cmd, since, budget - if budget > 0 then 1 else 0))
      else s.(client := HoldingReply(cmd, since, budget, left, |b.fates|, b.queue[0]))
    case HoldingReply(cmd, since, budget, left, i, buf) =>
      var found := WellFormed(buf) && Matches(cmd, buf);
      var s' := With(s, Replies, PopFront(s.boxes.Of(Replies), if found then Returned else Dropped));
      if found then s'.(client := Idle, results := s.results + [GotReply(cmd, since, i, buf)])
      else s'.(client := Scanning(cmd, since, budget, left - if left > 0 then 1 else 0))
  }

  function Run(s: State, acts: seq<Action>): State
  {
    if |acts| == 0 then s else Next(Run(s, acts[..|acts| - 1]), acts[|acts| - 1])
  }

  // ---------------------------------------------------------------- the invariant

  /** Each routed frame is in exactly one place: departed, with one fate, or still queued. */
  predicate BoxOk(b: Box, t: Target)
  {
    && |b.fates| <= |b.routed|
    && b.queue == b.routed[|b.fates|..]
    && forall i :: 0 <= i < |b.routed| ==> WellFormed(b.routed[i]) && TargetOf(b.routed[i]) == t
  }

  /** Frames from since up to end were replies to something else and have been dropped. */
  predicate PassedOver(b: Box, cmd: byte, since: nat, end: nat)
    requires BoxOk(b, Replies)
  {
    since <= end <= |b.fates|
    && forall j :: since <= j < end ==> !Matches(cmd, b.routed[j]) && b.fates[j] == Dropped
  }

  predicate BoxesOk(s: State)
  {
    forall t: Target :: BoxOk(s.boxes.Of(t), t)
  }

  predicate ClientOk(s: State)
    requires BoxesOk(s)
  {
    var r := s.boxes.Of(Replies);
    match s.client
    case Idle => true
    case HoldingKey(i, buf) =>
      var b := s.boxes.Of(Keys);
      i == |b.fates| < |b.routed| && buf == b.routed[i]
    case HoldingNewest(t, since, seen, buf) =>
      var b := s.boxes.Of(t);
      !t.Keys? && !t.Replies? && since == |b.fates| < seen <= |b.routed| && buf == b.routed[seen - 1]
    case PollingIc(since, budget) => since == |s.boxes.Of(IcStatus).fates|
    case Waiting(cmd, since, budget) => PassedOver(r, cmd, since, |r.fates|)
    case Scanning(cmd, since, budget, left) => PassedOver(r, cmd, since, |r.fates|) && left <= |r.queue| && budget > 0
    case HoldingReply(cmd, since, budget, left, i, buf) =>
      && PassedOver(r, cmd, since, |r.fates|) && 0 < left <= |r.queue| && budget > 0
      && i == |r.fates| && buf == r.routed[i]
  }

  predicate ResultOk(s: State, x: Result)
    requires BoxesOk(s)
  {
    match x
    case GotKey(i, buf) =>
      var b := s.boxes.Of(Keys);
      i < |b.fates| && b.fates[i] == Returned && buf == b.routed[i]
    case GotNewest(t, since, seen, buf) =>
      var b := s.boxes.Of(t);
      !t.Keys? && !t.Replies? && since < seen <= |b.fates| && b.fates[seen - 1] == Returned && buf == b.routed[seen - 1]
    case GotReply(cmd, since, i, buf) =>
      var b := s.boxes.Of(Replies);
      PassedOver(b, cmd, since, i) && i < |b.fates| && b.fates[i] == Returned && buf == b.routed[i] && Matches(cmd, buf)
    case NoReply(cmd, since, upto) => PassedOver(s.boxes.Of(Replies), cmd, since, upto)
    case Nothing(_) => true
  }

  predicate ResultsOk(s: State)
    requires BoxesOk(s)
  {
    forall k :: 0 <= k < |s.results| ==> ResultOk(s, s.results[k])
  }

  /** Keys taken since the last clear are exactly the keys that have left the queue since. */
  predicate KeysOk(s: State)
    requires BoxesOk(s)
  {
    var b := s.boxes.Of(Keys);
    && s.cleared <= |b.fates| && s.keysTaken == b.routed[s.cleared..|b.fates|]
    && forall j :: s.cleared <= j < |b.fates| ==> b.fates[j] == Returned
  }

  /** Numbers of the frames that calls on queue t returned, in the order of the calls. */
  function Numbers(results: seq<Result>, t: Target): seq<nat>
  {
    if |results| == 0 then []
    else Numbers(results[..|results| - 1], t) + NumberOf(results[|results| - 1], t)
  }

  function NumberOf(x: Result, t: Target): seq<nat>
  {
    match x
    case GotKey(i, _) => if t.Keys? then [i] else []
    case GotNewest(t', _, seen, _) => if t == t' && seen > 0 then [seen - 1] else []
    case GotReply(_, _, i, _) => if t.Replies? then [i] else []
    case _ => []
  }

  /** Numbers of the frames with fate Returned, in the order of arrival. */
  function ReturnedNumbers(fates: seq<Fate>): seq<nat>
  {
    if |fates| == 0 then []
    else ReturnedNumbers(fates[..|fates| - 1]) + if fates[|fates| - 1] == Returned then [|fates| - 1] else []
  }

  /** Calls returned exactly the frames marked as returned, once each and in the order of arrival. */
  predicate OrderOk(s: State)
    requires BoxesOk(s)
  {
    forall t: Target :: Numbers(s.results, t) == ReturnedNumbers(s.boxes.Of(t).fates)
  }

  predicate Inv(s: State)
  {
    BoxesOk(s) && ClientOk(s) && ResultsOk(s) && KeysOk(s) && OrderOk(s)
  }

  // ---------------------------------------------------------------- queue operations keep the invariant

  /** b' is b with more frames routed and more departed. */
  predicate Extends(b: Box, b': Box)
  {
    b.routed <= b'.routed && b.fates <= b'.fates
  }

  lemma PushKeeps(b: Box, f: Frame)
    requires WellFormed(f) && BoxOk(b, TargetOf(f))
    ensures BoxOk(Push(b, f), TargetOf(f)) && Extends(b, Push(b, f))
  {
  }

  lemma PopKeeps(b: Box, t: Target, fate: Fate)
    requires BoxOk(b, t) && |b.queue| > 0
    ensures var b' := PopFront(b, fate);
            && BoxOk(b', t) && Extends(b, b') && b'.fates == b.fates + [fate]
            && ReturnedNumbers(b'.fates) == ReturnedNumbers(b.fates) + if fate == Returned then [|b.fates|] else []
  {
    var b' := PopFront(b, fate);
    assert b'.fates[..|b'.fates| - 1] == b.fates;
  }

  lemma {:induction false} DroppedCountNothing(fates: seq<Fate>, n: nat)
    ensures ReturnedNumbers(fates + Drops(n)) == ReturnedNumbers(fates)
    decreases n
  {
    if n == 0 {
      assert fates + Drops(0) == fates;
    } else {
      var all := fates + Drops(n);
      assert all == fates + Drops(n - 1) + [Dropped];
      assert all[..|all| - 1] == fates + Drops(n - 1);
      DroppedCountNothing(fates, n - 1);
    }
  }

  lemma ClearKeeps(b: Box, t: Target)
    requires BoxOk(b, t)
    ensures var b' := ClearBox(b);
            BoxOk(b', t) && Extends(b, b') && b'.queue == [] && |b'.fates| == |b.routed|
            && ReturnedNumbers(b'.fates) == ReturnedNumbers(b.fates)
  {
    DroppedCountNothing(b.fates, |b.queue|);
  }

  lemma ClearTakingKeeps(b: Box, t: Target, seen: nat)
    requires BoxOk(b, t) && |b.fates| < seen <= |b.routed|
    ensures var b' := ClearTaking(b, seen);
            && BoxOk(b', t) && Extends(b, b') && |b'.fates| == |b.routed| && b'.fates[seen - 1] == Returned
            && ReturnedNumbers(b'.fates) == ReturnedNumbers(b.fates) + [seen - 1]
  {
    hide Drops, TargetOf, WellFormed, ReturnedNumbers;
    var m, n := |b.fates|, |b.routed|;
    OneReturned(b.fates, seen - 1 - m, n - seen);
  }

  /** Fates of frames dropped, of one returned, and of frames dropped. */
  lemma OneReturned(fates: seq<Fate>, k: nat, l: nat)
    ensures var all := fates + Drops(k) + [Returned] + Drops(l); var i := |fates| + k;
            && fates <= all && |all| == i + 1 + l && all[i] == Returned
            && ReturnedNumbers(all) == ReturnedNumbers(fates) + [i]
  {
    hide Drops;
    var upTo := fates + Drops(k);
    DroppedCountNothing(fates, k);
    DroppedCountNothing(upTo + [Returned], l);
    assert (upTo + [Returned])[..|upTo|] == upTo;
  }

  // ---------------------------------------------------------------- steps keep the invariant

  /** Histories only grow, so what was established about results stays so. */
  lemma ResultsKept(s: State, s': State)
    requires BoxesOk(s) && BoxesOk(s') && ResultsOk(s) && s'.results == s.results
    requires forall t: Target :: Extends(s.boxes.Of(t), s'.boxes.Of(t))
    ensures ResultsOk(s')
  {
    forall k | 0 <= k < |s.results|
      ensures ResultOk(s', s'.results[k])
    {
      assert ResultOk(s, s.results[k]);
      assert Extends(s.boxes.Of(Keys), s'.boxes.Of(Keys)) && Extends(s.boxes.Of(Replies), s'.boxes.Of(Replies));
      match s.results[k]
      case GotNewest(t, _, _, _) => assert Extends(s.boxes.Of(t), s'.boxes.Of(t));
      case _ =>
    }
  }

  lemma OfWith(bs: Boxes, t: Target, b: Box)
    ensures forall u: Target :: bs.With(t, b).Of(u) == if u == t then b else bs.Of(u)
  {
  }

  lemma BoxReplaced(s: State, t: Target, b: Box)
    requires BoxesOk(s) && BoxOk(b, t) && Extends(s.boxes.Of(t), b)
    ensures var s' := With(s, t, b);
            BoxesOk(s') && forall u: Target :: Extends(s.boxes.Of(u), s'.boxes.Of(u))
  {
    hide BoxOk;
    OfWith(s.boxes, t, b);
    assert forall u: Target :: BoxOk(s.boxes.Of(u), u);
  }

  /** Growing a queue keeps what is known of results and taken keys. */
  lemma GrowKeeps(s: State, t: Target, b: Box)
    requires Inv(s) && BoxOk(b, t) && Extends(s.boxes.Of(t), b)
    requires t.Keys? ==> b.fates == s.boxes.Of(t).fates
    requires ReturnedNumbers(b.fates) == ReturnedNumbers(s.boxes.Of(t).fates)
    ensures var s' := With(s, t, b);
            && BoxesOk(s') && ResultsOk(s') && KeysOk(s') && OrderOk(s')
            && s'.boxes.Of(t) == b && forall u: Target :: u != t ==> s'.boxes.Of(u) == s.boxes.Of(u)
  {
    var s' := With(s, t, b);
    BoxReplaced(s, t, b);
    ResultsKept(s, s');
    OfWith(s.boxes, t, b);
    hide BoxOk, ClientOk, ResultOk, Numbers, ReturnedNumbers;
    assert KeysOk(s') by {
      assert Extends(s.boxes.Of(Keys), s'.boxes.Of(Keys));
      assert BoxOk(s.boxes.Of(Keys), Keys) && BoxOk(s'.boxes.Of(Keys), Keys);
      KeysStay(s, s');
    }
  }

  lemma KeysStay(s: State, s': State)
    requires BoxesOk(s) && BoxesOk(s') && KeysOk(s)
    requires Extends(s.boxes.Of(Keys), s'.boxes.Of(Keys)) && s'.boxes.Of(Keys).fates == s.boxes.Of(Keys).fates
    requires s'.keysTaken == s.keysTaken && s'.cleared == s.cleared
    ensures KeysOk(s')
  {
    var b, b' := s.boxes.Of(Keys), s'.boxes.Of(Keys);
    assert BoxOk(b, Keys) && BoxOk(b', Keys);
    assert b'.routed[s.cleared..|b.fates|] == b.routed[s.cleared..|b.fates|];
  }

  lemma NumbersAppend(results: seq<Result>, x: Result, t: Target)
    ensures Numbers(results + [x], t) == Numbers(results, t) + NumberOf(x, t)
  {
    assert (results + [x])[..|results|] == results;
  }

  /** Nothing has left the queue, and frames may have joined it. */
  predicate Gains(b: Box, b': Box)
  {
    b.routed <= b'.routed && b'.fates == b.fates
  }

  /** A client between two steps of a call does not mind new arrivals. */
  lemma ClientStays(s: State, s': State)
    requires BoxesOk(s) && BoxesOk(s') && ClientOk(s) && s'.client == s.client
    requires forall u: Target :: Gains(s.boxes.Of(u), s'.boxes.Of(u))
    ensures ClientOk(s')
  {
    hide TargetOf, WellFormed, Matches;
    assert Gains(s.boxes.Of(Keys), s'.boxes.Of(Keys)) && Gains(s.boxes.Of(Replies), s'.boxes.Of(Replies));
    assert BoxOk(s.boxes.Of(Keys), Keys) && BoxOk(s'.boxes.Of(Keys), Keys);
    assert BoxOk(s.boxes.Of(Replies), Replies) && BoxOk(s'.boxes.Of(Replies), Replies);
    if s.client.HoldingNewest? {
      assert Gains(s.boxes.Of(s.client.t), s'.boxes.Of(s.client.t));
    } else if s.client.PollingIc? {
      assert Gains(s.boxes.Of(IcStatus), s'.boxes.Of(IcStatus));
    }
  }

  lemma ArriveKeeps(s: State, f: Frame)
    requires Inv(s) && WellFormed(f)
    ensures Inv(Next(s, Arrive(f)))
  {
    var t := TargetOf(f);
    assert BoxOk(s.boxes.Of(t), t);
    PushKeeps(s.boxes.Of(t), f);
    GrowKeeps(s, t, Push(s.boxes.Of(t), f));
    ClientStays(s, With(s, t, Push(s.boxes.Of(t), f)));
    hide BoxesOk, ClientOk, ResultsOk, KeysOk, OrderOk, TargetOf, WellFormed, Push;
  }

  /** A step that only moves the client and records a result that names no frame. */
  lemma QuietKeeps(s: State, client: Client, x: Result)
    requires Inv(s) && ClientOk(s.(client := client))
    ensures Inv(s.(client := client))
    ensures ResultOk(s, x) && (x.Nothing? || x.NoReply?) ==> Inv(s.(client := client, results := s.results + [x]))
  {
    SameBoxes(s, s.(client := client));
    if ResultOk(s, x) && (x.Nothing? || x.NoReply?) {
      var s' := s.(client := client, results := s.results + [x]);
      SameBoxes(s.(client := client), s');
      SameBoxesSameResult(s, s', x);
      ResultAdded(s, s', x);
      hide BoxOk, ResultOk, Numbers, ReturnedNumbers, KeysOk, ClientOk, ResultsOk;
      forall t: Target
        ensures Numbers(s'.results, t) == ReturnedNumbers(s'.boxes.Of(t).fates)
      {
        NumbersAppend(s.results, x, t);
        assert Numbers(s.results, t) == ReturnedNumbers(s.boxes.Of(t).fates);
      }
    }
  }

  /** The parts of the invariant that look at the queues alone, or at the queues and one more part. */
  lemma SameBoxes(s: State, s': State)
    requires BoxesOk(s) && s'.boxes == s.boxes
    ensures BoxesOk(s')
    ensures KeysOk(s) && s'.keysTaken == s.keysTaken && s'.cleared == s.cleared ==> KeysOk(s')
    ensures ClientOk(s) && s'.client == s.client ==> ClientOk(s')
    ensures ResultsOk(s) && s'.results == s.results ==> ResultsOk(s')
  {
    hide BoxOk;
    assert forall t: Target :: s'.boxes.Of(t) == s.boxes.Of(t);
    assert BoxesOk(s');
    if ResultsOk(s) && s'.results == s.results {
      forall k | 0 <= k < |s'.results|
        ensures ResultOk(s', s'.results[k])
      {
        SameBoxesSameResult(s, s', s.results[k]);
      }
    }
  }

  lemma ClearOtherKeeps(s: State, t: Target)
    requires Inv(s) && s.client.Idle? && !t.Keys?
    ensures Inv(With(s, t, ClearBox(s.boxes.Of(t))))
  {
    assert BoxOk(s.boxes.Of(t), t);
    ClearKeeps(s.boxes.Of(t), t);
    GrowKeeps(s, t, ClearBox(s.boxes.Of(t)));
  }

  lemma ClearKeysKeeps(s: State)
    requires Inv(s) && s.client.Idle?
    ensures Inv(Begin(s, Clear(Keys)))
  {
    var b := s.boxes.Of(Keys);
    assert BoxOk(b, Keys);
    ClearKeeps(b, Keys);
    hide ClearBox;
    var s' := With(s, Keys, ClearBox(b));
    BoxReplaced(s, Keys, ClearBox(b));
    ResultsKept(s, s');
    OfWith(s.boxes, Keys, ClearBox(b));
    hide BoxOk, ResultOk, Numbers, ReturnedNumbers;
  }

  lemma BeginKeeps(s: State, a: Action)
    requires Inv(s) && s.client.Idle?
    ensures Inv(Begin(s, a))
  {
    hide OrderOk, ResultsOk, KeysOk, TargetOf, WellFormed, ClearBox;
    match a
    case Clear(t) => if t.Keys? { ClearKeysKeeps(s); } else { ClearOtherKeeps(s, t); }
    case GetKey => QuietKeeps(s, Begin(s, a).client, Nothing(Keys));
    case GetNewest(t) => QuietKeeps(s, Begin(s, a).client, Nothing(t));
    case PollIc => QuietKeeps(s, Begin(s, a).client, Nothing(IcStatus));
    case AwaitReply(cmd) => QuietKeeps(s, Begin(s, a).client, Nothing(Replies));
    case _ =>
  }

  /** A step in which a frame leaves queue t and is returned as result x. */
  lemma TakenKeeps(s: State, t: Target, b: Box, x: Result, s': State)
    requires Inv(s) && BoxOk(b, t) && Extends(s.boxes.Of(t), b)
    requires s'.boxes == With(s, t, b).boxes && s'.client == Idle && s'.results == s.results + [x]
    requires BoxesOk(s') ==> ResultOk(s', x) && KeysOk(s')
    requires ReturnedNumbers(b.fates) == ReturnedNumbers(s.boxes.Of(t).fates) + NumberOf(x, t)
    requires forall u: Target :: u != t ==> NumberOf(x, u) == []
    ensures Inv(s')
  {
    hide TargetOf, WellFormed, Matches;
    var mid := With(s, t, b);
    BoxReplaced(s, t, b);
    ResultsKept(s, mid);
    OfWith(s.boxes, t, b);
    assert BoxesOk(s') by { assert s'.boxes == mid.boxes; }
    ResultAdded(mid, s', x);
    hide BoxOk, KeysOk, Numbers, ReturnedNumbers, NumberOf, ResultOk, ResultsOk;
    forall u: Target
      ensures Numbers(s'.results, u) == ReturnedNumbers(s'.boxes.Of(u).fates)
    {
      NumbersAppend(s.results, x, u);
      assert Numbers(s.results, u) == ReturnedNumbers(s.boxes.Of(u).fates);
    }
  }

  lemma ResultAdded(s: State, s': State, x: Result)
    requires BoxesOk(s) && ResultsOk(s) && s'.boxes == s.boxes && s'.results == s.results + [x]
    requires BoxesOk(s') ==> ResultOk(s', x)
    ensures BoxesOk(s') && ResultsOk(s')
  {
    hide BoxOk, ResultOk;
    assert BoxesOk(s');
    forall k | 0 <= k < |s'.results|
      ensures ResultOk(s', s'.results[k])
    {
      if k < |s.results| {
        assert ResultOk(s, s.results[k]);
        SameBoxesSameResult(s, s', s.results[k]);
      }
    }
  }

  lemma SameBoxesSameResult(s: State, s': State, x: Result)
    requires BoxesOk(s) && s'.boxes == s.boxes && ResultOk(s, x)
    ensures BoxesOk(s') && ResultOk(s', x)
  {
    assert forall t: Target :: s'.boxes.Of(t) == s.boxes.Of(t);
  }

  lemma KeyTakenKeeps(s: State)
    requires Inv(s) && s.client.HoldingKey?
    ensures Inv(Proceed(s))
  {
    var b := s.boxes.Of(Keys);
    assert BoxOk(b, Keys) && |b.queue| > 0;
    PopKeeps(b, Keys, Returned);
    var b', s' := PopFront(b, Returned), Proceed(s);
    hide OrderOk, ResultsOk, TargetOf, WellFormed, ReturnedNumbers, Numbers, PopFront;
    OfWith(s.boxes, Keys, b');
    TakeOne(b.routed, s.cleared, |b.fates|);
    TakenKeeps(s, Keys, b', GotKey(s.client.i, s.client.buf), s');
  }

  lemma TakeOne(frames: seq<Frame>, m: nat, n: nat)
    requires m <= n < |frames|
    ensures frames[m..n + 1] == frames[m..n] + [frames[n]]
  {
  }

  lemma NewestTakenKeeps(s: State)
    requires Inv(s) && s.client.HoldingNewest?
    ensures Inv(Proceed(s))
  {
    hide OrderOk, ResultsOk, KeysOk, TargetOf, WellFormed, ReturnedNumbers, Numbers, ClearTaking;
    var HoldingNewest(t, since, seen, buf) := s.client;
    var b, b', s' := s.boxes.Of(t), ClearTaking(s.boxes.Of(t), seen), Proceed(s);
    assert s' == With(s, t, b').(client := Idle, results := s.results + [GotNewest(t, since, seen, buf)]);
    assert BoxOk(b, t);
    hide Proceed;
    ClearTakingKeeps(b, t, seen);
    KeysStayElsewhere(s, t, b', s');
    OfWith(s.boxes, t, b');
    TakenKeeps(s, t, b', GotNewest(t, since, seen, buf), s');
  }

  lemma ReplyFound(s: State)
    requires Inv(s) && s.client.HoldingReply? && Matches(s.client.cmd, s.client.buf)
    ensures Inv(Proceed(s))
  {
    var HoldingReply(cmd, since, budget, left, i, buf) := s.client;
    var b := s.boxes.Of(Replies);
    assert BoxOk(b, Replies) && |b.queue| > 0;
    PopKeeps(b, Replies, Returned);
    var b', s' := PopFront(b, Returned), Proceed(s);
    KeysStayElsewhere(s, Replies, b', s');
    hide OrderOk, ResultsOk, KeysOk, TargetOf, ReturnedNumbers, Numbers, PopFront;
    OfWith(s.boxes, Replies, b');
    TakenKeeps(s, Replies, b', GotReply(cmd, since, i, buf), s');
  }

  lemma KeysStayElsewhere(s: State, t: Target, b: Box, s': State)
    requires BoxesOk(s) && KeysOk(s) && !t.Keys? && s'.boxes == s.boxes.With(t, b)
    requires s'.keysTaken == s.keysTaken && s'.cleared == s.cleared
    ensures BoxesOk(s') ==> KeysOk(s')
  {
    OfWith(s.boxes, t, b);
    hide BoxOk;
  }

  lemma ReplyPassedOver(s: State)
    requires Inv(s) && s.client.HoldingReply? && !Matches(s.client.cmd, s.client.buf)
    ensures Inv(Proceed(s))
  {
    var b := s.boxes.Of(Replies);
    assert BoxOk(b, Replies) && |b.queue| > 0;
    PopKeeps(b, Replies, Dropped);
    var b', s' := PopFront(b, Dropped), Proceed(s);
    BoxReplaced(s, Replies, b');
    ResultsKept(s, With(s, Replies, b'));
    KeysStayElsewhere(s, Replies, b', With(s, Replies, b'));
    OfWith(s.boxes, Replies, b');
    DroppedPassedOver(s, b');
    hide BoxOk, ResultOk, TargetOf, ReturnedNumbers, Numbers, PopFront, PassedOver;
    forall k | 0 <= k < |s'.results|
      ensures ResultOk(s', s'.results[k])
    {
      SameBoxesSameResult(With(s, Replies, b'), s', s.results[k]);
    }
  }

  lemma DroppedPassedOver(s: State, b': Box)
    requires Inv(s) && s.client.HoldingReply? && !Matches(s.client.cmd, s.client.buf)
    requires BoxOk(b', Replies) && Extends(s.boxes.Of(Replies), b') && b'.fates == s.boxes.Of(Replies).fates + [Dropped]
    ensures PassedOver(b', s.client.cmd, s.client.since, |b'.fates|)
    ensures s.client.left - 1 <= |b'.queue|
  {
    hide OrderOk, ResultsOk, KeysOk, TargetOf, Matches;
    var b := s.boxes.Of(Replies);
    forall j | s.client.since <= j < |b'.fates|
      ensures !Matches(s.client.cmd, b'.routed[j]) && b'.fates[j] == Dropped
    {
      if j < |b.fates| {
        assert b'.routed[j] == b.routed[j] && b'.fates[j] == b.fates[j];
      }
    }
  }

  lemma ProceedKeeps(s: State)
    requires Inv(s)
    ensures Inv(Proceed(s))
  {
    hide OrderOk, ResultsOk, KeysOk, TargetOf, WellFormed, PopFront, ClearTaking;
    match s.client
    case Idle =>
    case HoldingKey(_, _) => KeyTakenKeeps(s);
    case HoldingNewest(_, _, _, _) => NewestTakenKeeps(s);
    case PollingIc(_, _) => QuietKeeps(s, Proceed(s).client, Nothing(IcStatus));
    case Waiting(cmd, since, _) =>
      QuietKeeps(s, Proceed(s).client, NoReply(cmd, since, |s.boxes.Of(Replies).fates|));
    case Scanning(_, _, _, _) => QuietKeeps(s, Proceed(s).client, Nothing(Replies));
    case HoldingReply(cmd, _, _, _, _, buf) =>
      if Matches(cmd, buf) { ReplyFound(s); } else { ReplyPassedOver(s); }
  }

  /** The invariant holds in every state that any run of the receiver and the client reaches. */
  lemma {:induction false} RunKeeps(s: State, acts: seq<Action>)
    requires Inv(s)
    ensures Inv(Run(s, acts))
    decreases |acts|
  {
    hide Inv, Begin, Proceed, TargetOf;
    if |acts| > 0 {
      var before, a := Run(s, acts[..|acts| - 1]), acts[|acts| - 1];
      RunKeeps(s, acts[..|acts| - 1]);
      match a
      case Arrive(f) => if WellFormed(f) { ArriveKeeps(before, f); }
      case Continue => ProceedKeeps(before);
      case _ => if before.client.Idle? { BeginKeeps(before, a); }
    }
  }

  lemma Reachable(acts: seq<Action>)
    ensures Inv(Run(Init(), acts))
  {
    assert forall t: Target :: Init().boxes.Of(t) == NO_BOX;
    RunKeeps(Init(), acts);
  }

  // ---------------------------------------------------------------- whole runs

  /** The well-formed frames for queue t that arrive in a run, in order. */
  function Arrivals(acts: seq<Action>, t: Target): seq<Frame>
  {
    if |acts| == 0 then []
    else
      var a := acts[|acts| - 1];
      Arrivals(acts[..|acts| - 1], t)
      + if a.Arrive? && WellFormed(a.f) && TargetOf(a.f) == t then [a.f] else []
  }

  /** Only arrivals add to what has been routed. */
  lemma StepRoutes(s: State, a: Action, t: Target)
    ensures Next(s, a).boxes.Of(t).routed
            == s.boxes.Of(t).routed + if a.Arrive? && WellFormed(a.f) && TargetOf(a.f) == t then [a.f] else []
  {
    hide WellFormed, TargetOf, Begin, Proceed;
    BeginRoutes(s, a, t);
    ProceedRoutes(s, t);
  }

  lemma BeginRoutes(s: State, a: Action, t: Target)
    ensures Begin(s, a).boxes.Of(t).routed == s.boxes.Of(t).routed
  {
    hide Drops;
  }

  lemma ProceedRoutes(s: State, t: Target)
    ensures Proceed(s).boxes.Of(t).routed == s.boxes.Of(t).routed
  {
    hide WellFormed, Matches, Drops;
  }

  lemma {:induction false} RunRoutes(s: State, acts: seq<Action>, t: Target)
    ensures Run(s, acts).boxes.Of(t).routed == s.boxes.Of(t).routed + Arrivals(acts, t)
    decreases |acts|
  {
    hide Next;
    if |acts| > 0 {
      RunRoutes(s, acts[..|acts| - 1], t);
      StepRoutes(Run(s, acts[..|acts| - 1]), acts[|acts| - 1], t);
    }
  }

  lemma RoutedIsArrivals(acts: seq<Action>, t: Target)
    ensures Run(Init(), acts).boxes.Of(t).routed == Arrivals(acts, t)
  {
    hide Run, Arrivals;
    RunRoutes(Init(), acts, t);
    assert [] + Arrivals(acts, t) == Arrivals(acts, t);
  }

  /** In every run, what arrived for a queue is what has left it, each frame with one fate, followed
      by what it holds; and a frame is in the queue its command and direction call for. */
  lemma QueuesConserve(acts: seq<Action>, t: Target)
    ensures var b := Run(Init(), acts).boxes.Of(t);
            && |b.fates| <= |Arrivals(acts, t)|
            && b.queue == Arrivals(acts, t)[|b.fates|..]
            && forall f :: f in b.queue ==> WellFormed(f) && TargetOf(f) == t
  {
    Reachable(acts);
    RoutedIsArrivals(acts, t);
    assert BoxOk(Run(Init(), acts).boxes.Of(t), t);
  }

  /** The keyboard queue is first in, first out across the separate read and erase steps: the keys
      returned since the last clear, then those still queued, are the keys that arrived since. */
  lemma KeysLinearize(acts: seq<Action>)
    ensures var s := Run(Init(), acts);
            && s.cleared <= |Arrivals(acts, Keys)|
            && s.keysTaken + s.boxes.Of(Keys).queue == Arrivals(acts, Keys)[s.cleared..]
  {
    hide Run, Arrivals, Inv;
    Reachable(acts);
    RoutedIsArrivals(acts, Keys);
    KeysSplit(Run(Init(), acts));
  }

  lemma KeysSplit(s: State)
    requires Inv(s)
    ensures var b := s.boxes.Of(Keys);
            s.cleared <= |b.routed| && s.keysTaken + b.queue == b.routed[s.cleared..]
  {
    hide ClientOk, ResultsOk, OrderOk, TargetOf;
    var b := s.boxes.Of(Keys);
    assert BoxOk(b, Keys);
    assert b.routed[s.cleared..|b.fates|] + b.routed[|b.fates|..] == b.routed[s.cleared..];
  }

  predicate Increasing(ns: seq<nat>)
  {
    forall i, j :: 0 <= i < j < |ns| ==> ns[i] < ns[j]
  }

  lemma {:induction false} ReturnedIncreasing(fates: seq<Fate>)
    ensures Increasing(ReturnedNumbers(fates))
    ensures forall i :: 0 <= i < |ReturnedNumbers(fates)| ==> ReturnedNumbers(fates)[i] < |fates|
    decreases |fates|
  {
    if |fates| > 0 {
      var m := |fates| - 1;
      ReturnedIncreasing(fates[..m]);
      var before, ns := ReturnedNumbers(fates[..m]), ReturnedNumbers(fates);
      assert ns == before + if fates[m] == Returned then [m] else [];
      hide ReturnedNumbers;
      forall i, j | 0 <= i < j < |ns|
        ensures ns[i] < ns[j]
      {
        assert ns[i] == before[i];
      }
    }
  }

  /** In every run the frames that calls on a queue return have strictly increasing numbers:
      none is returned twice and none out of the order of arrival. */
  lemma ReturnsIncrease(acts: seq<Action>, t: Target)
    ensures Increasing(Numbers(Run(Init(), acts).results, t))
  {
    Reachable(acts);
    ReturnedIncreasing(Run(Init(), acts).boxes.Of(t).fates);
  }

  /** A touch, search or card status result is the newest of the frames that had arrived when it was
      read, and none that had arrived before the call began to watch. */
  lemma NewestIsFresh(acts: seq<Action>, k: nat)
    requires k < |Run(Init(), acts).results| && Run(Init(), acts).results[k].GotNewest?
    ensures var GotNewest(t, since, seen, buf) := Run(Init(), acts).results[k];
            since < seen <= |Arrivals(acts, t)| && buf == Arrivals(acts, t)[seen - 1]
  {
    hide Run, Arrivals, Inv;
    Reachable(acts);
    RoutedIsArrivals(acts, Run(Init(), acts).results[k].t);
    NewestRouted(Run(Init(), acts), k);
  }

  lemma NewestRouted(s: State, k: nat)
    requires Inv(s) && k < |s.results| && s.results[k].GotNewest?
    ensures var GotNewest(t, since, seen, buf) := s.results[k];
            since < seen <= |s.boxes.Of(t).routed| && buf == s.boxes.Of(t).routed[seen - 1]
  {
    hide ClientOk, OrderOk, KeysOk, TargetOf;
    assert ResultOk(s, s.results[k]) && BoxOk(s.boxes.Of(s.results[k].t), s.results[k].t);
  }

  predicate OnlyArrivals(acts: seq<Action>)
  {
    forall k :: 0 <= k < |acts| ==> acts[k].Arrive?
  }

  lemma {:induction false} ArrivalsLeave(s: State, acts: seq<Action>)
    requires OnlyArrivals(acts)
    ensures var s' := Run(s, acts);
            s'.client == s.client && s'.results == s.results
            && forall t: Target :: s'.boxes.Of(t).fates == s.boxes.Of(t).fates
    decreases |acts|
  {
    hide Begin, Proceed, WellFormed, TargetOf;
    if |acts| > 0 {
      ArrivalsLeave(s, acts[..|acts| - 1]);
    }
  }

  /** A status check watches, for 2000 attempts, from behind all that had arrived when it cleared the
      queue, whatever arrives while it sends its request. */
  lemma WatchStartsAtClear(acts: seq<Action>, meanwhile: seq<Action>)
    requires Run(Init(), acts).client.Idle? && OnlyArrivals(meanwhile)
    ensures var s := Run(Next(Run(Init(), acts), Clear(IcStatus)), meanwhile);
            Next(s, PollIc).client == PollingIc(|Arrivals(acts, IcStatus)|, 2000)
  {
    hide Run, Arrivals, Inv, OnlyArrivals;
    Reachable(acts);
    RoutedIsArrivals(acts, IcStatus);
    ClearedIc(Run(Init(), acts));
    ArrivalsLeave(Next(Run(Init(), acts), Clear(IcStatus)), meanwhile);
    WatchBegins(Run(Next(Run(Init(), acts), Clear(IcStatus)), meanwhile));
  }

  lemma ClearedIc(s: State)
    requires Inv(s) && s.client.Idle?
    ensures var s' := Next(s, Clear(IcStatus));
            s'.client.Idle? && |s'.boxes.Of(IcStatus).fates| == |s.boxes.Of(IcStatus).routed|
  {
    hide ResultsOk, OrderOk, KeysOk, TargetOf, WellFormed;
    assert BoxOk(s.boxes.Of(IcStatus), IcStatus);
    ClearKeeps(s.boxes.Of(IcStatus), IcStatus);
  }

  lemma WatchBegins(s: State)
    requires s.client.Idle?
    ensures Next(s, PollIc).client == PollingIc(|s.boxes.Of(IcStatus).fates|, 2000)
  {
  }

  /** Reading the newest frame takes the last of all frames that have arrived. */
  lemma NewestIsLast(acts: seq<Action>, a: Action)
    requires a.GetNewest? || a.Continue?
    requires !Run(Init(), acts).client.HoldingNewest? && Next(Run(Init(), acts), a).client.HoldingNewest?
    ensures var HoldingNewest(t, _, seen, buf) := Next(Run(Init(), acts), a).client;
            seen == |Arrivals(acts, t)| > 0 && buf == Arrivals(acts, t)[seen - 1]
  {
    Reachable(acts);
    NewestRead(Run(Init(), acts), a);
    RoutedIsArrivals(acts, Next(Run(Init(), acts), a).client.t);
    hide Run, Arrivals, Inv, Next;
  }

  lemma NewestRead(s: State, a: Action)
    requires Inv(s) && (a.GetNewest? || a.Continue?)
    requires !s.client.HoldingNewest? && Next(s, a).client.HoldingNewest?
    ensures var HoldingNewest(t, _, seen, buf) := Next(s, a).client;
            seen == |s.boxes.Of(t).routed| > 0 && buf == s.boxes.Of(t).routed[seen - 1]
  {
    hide ClientOk, ResultsOk, OrderOk, KeysOk, TargetOf;
    assert BoxOk(s.boxes.Of(Next(s, a).client.t), Next(s, a).client.t);
  }

  /** A reply that a call returns is the first, of all that were queued when the call began or have
      arrived since, that answers its command; those before it have been dropped, and it has the
      command's code below 0x80. */
  lemma RepliesMatched(acts: seq<Action>, k: nat)
    requires k < |Run(Init(), acts).results| && Run(Init(), acts).results[k].GotReply?
    ensures var GotReply(cmd, since, i, buf) := Run(Init(), acts).results[k];
            var fates := Run(Init(), acts).boxes.Of(Replies).fates;
            var all := Arrivals(acts, Replies);
            && cmd < 128 && since <= i < |fates| <= |all| && buf == all[i] && Answers(cmd, buf)
            && forall j :: since <= j < i ==> !Answers(cmd, all[j]) && fates[j] == Dropped
  {
    Reachable(acts);
    RoutedIsArrivals(acts, Replies);
    ReplyIsFirst(Run(Init(), acts), k);
    hide Run, Arrivals, Inv, Answers;
  }

  /** The frame is a reply of the device to the command. */
  predicate Answers(cmd: byte, f: Frame)
  {
    |f| >= 2 && f[0] == cmd && f[1] == RESPONSE
  }

  lemma ReplyIsFirst(s: State, k: nat)
    requires Inv(s) && k < |s.results| && s.results[k].GotReply?
    ensures var GotReply(cmd, since, i, buf) := s.results[k];
            var b := s.boxes.Of(Replies);
            && cmd < 128 && since <= i < |b.fates| <= |b.routed| && buf == b.routed[i] && Answers(cmd, buf)
            && forall j :: since <= j < i ==> !Answers(cmd, b.routed[j]) && b.fates[j] == Dropped
  {
    hide ClientOk, OrderOk, KeysOk, TargetOf;
    var b := s.boxes.Of(Replies);
    assert ResultOk(s, s.results[k]) && BoxOk(b, Replies);
    MatchesIff(s.results[k].cmd, s.results[k].buf);
  }

  /** The call for a command matches a frame exactly when the frame answers the command and
      the command's code is below 0x80. */
  lemma MatchesIff(cmd: byte, f: Frame)
    requires WellFormed(f)
    ensures Matches(cmd, f) <==> cmd < 128 && Answers(cmd, f)
  {
  }

  /** A call that gives up has dropped every frame it passed, none of which it could match. */
  lemma NoReplyDrains(acts: seq<Action>, k: nat)
    requires k < |Run(Init(), acts).results| && Run(Init(), acts).results[k].NoReply?
    ensures var NoReply(cmd, since, upto) := Run(Init(), acts).results[k];
            var fates := Run(Init(), acts).boxes.Of(Replies).fates;
            var all := Arrivals(acts, Replies);
            && since <= upto <= |fates| <= |all|
            && forall j :: since <= j < upto ==> fates[j] == Dropped && (cmd < 128 ==> !Answers(cmd, all[j]))
  {
    Reachable(acts);
    RoutedIsArrivals(acts, Replies);
    hide Run, Arrivals, Inv;
    NoReplyPassedOver(Run(Init(), acts), k);
  }

  lemma NoReplyPassedOver(s: State, k: nat)
    requires Inv(s) && k < |s.results| && s.results[k].NoReply?
    ensures var NoReply(cmd, since, upto) := s.results[k];
            var b := s.boxes.Of(Replies);
            && since <= upto <= |b.fates| <= |b.routed|
            && forall j :: since <= j < upto ==> b.fates[j] == Dropped && (cmd < 128 ==> !Answers(cmd, b.routed[j]))
  {
    hide ClientOk, OrderOk, KeysOk, TargetOf;
    assert ResultOk(s, s.results[k]) && BoxOk(s.boxes.Of(Replies), Replies);
  }

  lemma RunAppend(s: State, acts: seq<Action>, a: Action)
    ensures Run(s, acts + [a]) == Next(Run(s, acts), a)
  {
    assert (acts + [a])[..|acts|] == acts;
  }

  // ---------------------------------------------------------------- the steps of a wait for a reply

  lemma StepAwait(s: State, cmd: byte)
    requires s.client.Idle?
    ensures Next(s, AwaitReply(cmd)) == s.(client := Waiting(cmd, |s.boxes.replies.fates|, RECV_TIMEOUT))
  {
  }

  lemma StepWaiting(s: State)
    requires s.client.Waiting?
    ensures var b := s.boxes.replies; var Waiting(cmd, since, budget) := s.client;
            Next(s, Continue) ==
              if budget == 0 then s.(client := Idle, results := s.results + [NoReply(cmd, since, |b.fates|)])
              else if |b.queue| > 0 then s.(client := Scanning(cmd, since, budget, |b.queue|))
              else s.(client := Waiting(cmd, since, budget - 1))
  {
  }

  lemma StepScanning(s: State)
    requires s.client.Scanning? && s.client.budget > 0 && s.client.left <= |s.boxes.replies.queue|
    ensures var b := s.boxes.replies; var Scanning(cmd, since, budget, left) := s.client;
            Next(s, Continue) ==
              if left == 0 then s.(client := Waiting(cmd, since, budget - 1))
              else s.(client := HoldingReply(cmd, since, budget, left, |b.fates|, b.queue[0]))
  {
  }

  lemma StepReply(s: State)
    requires s.client.HoldingReply? && s.client.left > 0 && WellFormed(s.client.buf) && |s.boxes.replies.queue| > 0
    ensures var b := s.boxes.replies; var HoldingReply(cmd, since, budget, left, i, buf) := s.client;
            Next(s, Continue) ==
              if Matches(cmd, buf)
              then With(s, Replies, PopFront(b, Returned)).(client := Idle, results := s.results + [GotReply(cmd, since, i, buf)])
              else With(s, Replies, PopFront(b, Dropped)).(client := Scanning(cmd, since, budget, left - 1))
    ensures forall fate :: PopFront(s.boxes.replies, fate).queue == s.boxes.replies.queue[1..]
    ensures forall fate :: PopFront(s.boxes.replies, fate).fates == s.boxes.replies.fates + [fate]
    ensures forall fate :: PopFront(s.boxes.replies, fate).routed == s.boxes.replies.routed
  {
  }

  /** The reply queue by number: the first frame still queued is number |fates|. */
  lemma QueueFront(s: State)
    requires Inv(s)
    ensures var b := s.boxes.replies;
            && |b.fates| <= |b.routed| && |b.queue| == |b.routed| - |b.fates|
            && (|b.queue| > 0 ==> b.queue[0] == b.routed[|b.fates|] && WellFormed(b.queue[0]))
  {
    hide ClientOk, ResultsOk, OrderOk, KeysOk, TargetOf, WellFormed;
    assert BoxOk(s.boxes.Of(Replies), Replies);
  }

  /** What the invariant says of a client that holds a reply, or is about to. */
  lemma HoldingFront(s: State)
    requires Inv(s) && Calling(s.client)
    ensures var b, c := s.boxes.replies, s.client;
            && (c.Scanning? || c.HoldingReply? ==> c.budget > 0 && c.left <= |b.queue|)
            && (c.HoldingReply? ==> 0 < c.left && c.i == |b.fates| && c.buf == b.routed[c.i] && WellFormed(c.buf))
  {
    QueueFront(s);
    hide ResultsOk, OrderOk, KeysOk, TargetOf, WellFormed, PassedOver;
  }

  /** Within a wait, an arrival changes nothing but the end of a queue. */
  lemma ArriveStep(s: State, f: Frame)
    requires Inv(s)
    ensures var b, s' := s.boxes.replies, Next(s, Arrive(f)); var b' := s'.boxes.replies;
            && s'.client == s.client && s'.results == s.results && b'.fates == b.fates
            && b'.routed == b.routed + if WellFormed(f) && TargetOf(f) == Replies then [f] else []
  {
  }

  // ---------------------------------------------------------------- no reply is overlooked

  /** The client is in a wait for a reply. */
  predicate Calling(c: Client)
  {
    c.Waiting? || c.Scanning? || c.HoldingReply?
  }

  /** Steps of a client in a call, with arrivals in between. */
  predicate Interleaving(acts: seq<Action>)
  {
    forall k :: 0 <= k < |acts| ==> acts[k].Arrive? || acts[k].Continue?
  }

  /** How many of the acts are steps of the client. */
  function Continues(acts: seq<Action>): nat
  {
    if |acts| == 0 then 0
    else Continues(acts[..|acts| - 1]) + if acts[|acts| - 1].Continue? then 1 else 0
  }

  /** The frame is one that a call for cmd returns. */
  predicate Hits(cmd: byte, f: Frame)
  {
    WellFormed(f) && Matches(cmd, f)
  }

  /** The wait is bound to come to frame i: no queued frame before it matches, and the pass of the
      queue that is under way still includes it, or there will be another pass. */
  predicate OnTrack(s: State, i: nat)
  {
    var b := s.boxes.replies;
    && Calling(s.client) && |b.fates| <= i < |b.routed|
    && (forall j :: |b.fates| <= j < i ==> !Hits(s.client.cmd, b.routed[j]))
    && if s.client.Waiting? then s.client.budget > 0 else s.client.left > i - |b.fates| || s.client.budget > 1
  }

  /** Client steps from here to the one that decides on frame i. */
  function StepsTo(s: State, i: nat): (n: nat)
    requires OnTrack(s, i)
    ensures n > 0
  {
    var d := i - |s.boxes.replies.fates|;
    match s.client
    case Waiting(_, _, _) => 2 * d + 3
    case Scanning(_, _, _, left) => if left > d then 2 * d + 2 else 2 * d + 4
    case HoldingReply(_, _, _, left, _, _) => if left > d then 2 * d + 1 else 2 * d + 3
  }

  /** One wait, some steps later: still under way with nothing returned. */
  predicate Underway(s: State, s': State)
  {
    Calling(s.client) && Calling(s'.client) && s'.client.cmd == s.client.cmd && s'.client.since == s.client.since
    && s'.results == s.results
  }

  /** The wait has come to frame i and done with it what it should. */
  predicate Decided(s: State, s': State, i: nat)
    requires Calling(s.client) && i < |s.boxes.replies.routed|
  {
    var b' := s'.boxes.replies;
    if Hits(s.client.cmd, s.boxes.replies.routed[i])
    then s'.client.Idle? && |b'.fates| == i + 1
         && s'.results == s.results + [GotReply(s.client.cmd, s.client.since, i, s.boxes.replies.routed[i])]
    else i < |b'.fates| && b'.fates[i] == Dropped
  }

  /** One step nearer to frame i. */
  predicate Nearer(s: State, s': State, i: nat)
    requires OnTrack(s, i)
  {
    Extends(s.boxes.replies, s'.boxes.replies)
    && if StepsTo(s, i) == 1 then Decided(s, s', i)
       else Underway(s, s') && OnTrack(s', i) && StepsTo(s', i) == StepsTo(s, i) - 1
  }

  lemma TrackContinue(s: State, i: nat)
    requires Inv(s) && OnTrack(s, i)
    ensures Nearer(s, Next(s, Continue), i)
  {
    QueueFront(s);
    HoldingFront(s);
    hide Inv, Next, Hits, PopFront;
    match s.client
    case Waiting(_, _, _) => StepWaiting(s);
    case Scanning(_, _, _, _) => StepScanning(s);
    case HoldingReply(_, _, _, _, _, _) => TrackHolding(s, i);
    case _ =>
  }

  lemma TrackHolding(s: State, i: nat)
    requires Inv(s) && OnTrack(s, i) && s.client.HoldingReply?
    ensures Nearer(s, Next(s, Continue), i)
  {
    QueueFront(s);
    HoldingFront(s);
    StepReply(s);
    assert Hits(s.client.cmd, s.client.buf) <==> Matches(s.client.cmd, s.client.buf);
    hide Inv, Next, Hits, PopFront, Matches, WellFormed;
  }

  lemma TrackArrive(s: State, f: Frame, i: nat)
    requires Inv(s) && OnTrack(s, i)
    ensures var s' := Next(s, Arrive(f));
            && Extends(s.boxes.replies, s'.boxes.replies) && Underway(s, s')
            && OnTrack(s', i) && StepsTo(s', i) == StepsTo(s, i)
  {
    ArriveStep(s, f);
    hide Inv, Next, Hits, WellFormed, TargetOf;
  }

  /** Arrivals and steps of the client keep the invariant, and frames already routed to the reply queue
      where they are in its history; a client at rest stays at rest. */
  lemma StepExtends(s: State, a: Action)
    requires Inv(s) && (a.Arrive? || a.Continue?)
    ensures Inv(Next(s, a)) && Extends(s.boxes.replies, Next(s, a).boxes.replies)
    ensures s.client.Idle? ==> Resting(s, Next(s, a))
  {
    if a.Continue? {
      ProceedKeeps(s);
      ContinueExtends(s);
      assert s.client.Idle? ==> Proceed(s) == s;
      hide Inv, Proceed;
    } else {
      ArriveStep(s, a.f);
      hide Proceed, TargetOf;
      if WellFormed(a.f) { ArriveKeeps(s, a.f); }
      hide Inv, WellFormed;
    }
  }

  /** A client at rest, some arrivals later. */
  predicate Resting(s: State, s': State)
  {
    s'.client.Idle? && s'.results == s.results && s'.boxes.replies.fates == s.boxes.replies.fates
  }

  lemma ContinueExtends(s: State)
    requires Inv(s)
    ensures Extends(s.boxes.replies, Proceed(s).boxes.replies)
  {
    hide BoxOk, ResultsOk, OrderOk, KeysOk, TargetOf, WellFormed, Matches, PassedOver, ClearTaking;
  }

  /** No reply is overlooked: however arrivals and client steps interleave, a wait that is bound to come
      to frame i decides on it at exactly its StepsTo-th step: it returns the frame if that matches,
      as the first that does, and drops it otherwise; until then the wait is under way. */
  lemma {:induction false} FrameReached(s: State, acts: seq<Action>, i: nat)
    requires Inv(s) && OnTrack(s, i) && Interleaving(acts)
    ensures var s' := Run(s, acts); var n := Continues(acts);
            && Inv(s') && Extends(s.boxes.replies, s'.boxes.replies)
            && if n < StepsTo(s, i) then Underway(s, s') && OnTrack(s', i) && StepsTo(s', i) == StepsTo(s, i) - n
               else Decided(s, s', i)
    decreases |acts|
  {
    assert Calling(s.client) && i < |s.boxes.replies.routed|;
    hide Inv, Next, OnTrack, StepsTo, Hits;
    if |acts| > 0 {
      var front, a := acts[..|acts| - 1], acts[|acts| - 1];
      var mid := Run(s, front);
      FrameReached(s, front, i);
      StepExtends(mid, a);
      if Continues(front) < StepsTo(s, i) {
        if a.Continue? { TrackContinue(mid, i); } else { TrackArrive(mid, a.f, i); }
        assert mid.boxes.replies.routed[i] == s.boxes.replies.routed[i];
      }
    }
  }

  /** An answer that a wait is bound to come to is returned exactly if the code of the command is below
      0x80, whatever else is queued or arrives; if the code is higher, the same wait drops it. */
  lemma AnswerReturnedIff(s: State, acts: seq<Action>, i: nat)
    requires Inv(s) && OnTrack(s, i) && Interleaving(acts) && Continues(acts) >= StepsTo(s, i)
    requires WellFormed(s.boxes.replies.routed[i]) && Answers(s.client.cmd, s.boxes.replies.routed[i])
    ensures var s' := Run(s, acts); var c := s.client;
            && i < |s'.boxes.replies.fates|
            && (c.cmd < 128 <==>
                (s'.client.Idle? && s'.results == s.results + [GotReply(c.cmd, c.since, i, s.boxes.replies.routed[i])]))
            && (c.cmd < 128 <==> s'.boxes.replies.fates[i] == Returned)
  {
    hide Run, Next, Inv, StepsTo, Interleaving, Continues;
    FrameReached(s, acts, i);
    MatchesIff(s.client.cmd, s.boxes.replies.routed[i]);
    if s.client.cmd < 128 {
      LastReply(Run(s, acts), GotReply(s.client.cmd, s.client.since, i, s.boxes.replies.routed[i]));
    } else {
      HighNeverReturned(Run(s, acts), GotReply(s.client.cmd, s.client.since, i, s.boxes.replies.routed[i]));
    }
  }

  lemma LastReply(s: State, x: Result)
    requires Inv(s) && x.GotReply? && x in s.results
    ensures x.i < |s.boxes.replies.fates| && s.boxes.replies.fates[x.i] == Returned
  {
    hide ClientOk, OrderOk, KeysOk, TargetOf, PassedOver;
    var k :| 0 <= k < |s.results| && s.results[k] == x;
    assert ResultOk(s, s.results[k]);
  }

  /** No call for a code from 0x80 on ever has a reply as its result. */
  lemma HighNeverReturned(s: State, x: Result)
    requires Inv(s) && x.GotReply? && x.cmd >= 128
    ensures x !in s.results
  {
    if k :| 0 <= k < |s.results| && s.results[k] == x {
      ReplyIsFirst(s, k);
    }
  }

  /** In every run the answers to codes from 0x80 on leave the reply queue only by being dropped. */
  lemma HighReplyDropped(acts: seq<Action>, j: nat)
    requires var b := Run(Init(), acts).boxes.replies;
             j < |b.fates| && j < |b.routed| && |b.routed[j]| >= 1 && b.routed[j][0] >= 128
    ensures Run(Init(), acts).boxes.replies.fates[j] == Dropped
  {
    Reachable(acts);
    hide Run;
    HighFate(Run(Init(), acts), j);
  }

  lemma HighFate(s: State, j: nat)
    requires Inv(s) && j < |s.boxes.replies.fates| && j < |s.boxes.replies.routed|
    requires |s.boxes.replies.routed[j]| >= 1 && s.boxes.replies.routed[j][0] >= 128
    ensures s.boxes.replies.fates[j] == Dropped
  {
    if s.boxes.replies.fates[j] == Returned {
      ReturnedHasNumber(s.boxes.replies.fates, j);
      assert Numbers(s.results, Replies) == ReturnedNumbers(s.boxes.Of(Replies).fates);
      hide Inv, ReturnedNumbers, Numbers;
      var k := NumberHasResult(s.results, Replies, j);
      ReplyOfNumber(s, k, j);
    }
  }

  lemma ReplyOfNumber(s: State, k: nat, j: nat)
    requires Inv(s) && k < |s.results| && NumberOf(s.results[k], Replies) == [j]
    ensures j < |s.boxes.replies.routed| && |s.boxes.replies.routed[j]| >= 1 && s.boxes.replies.routed[j][0] < 128
  {
    hide ClientOk, OrderOk, KeysOk, TargetOf;
    assert ResultOk(s, s.results[k]);
    if s.results[k].GotReply? { ReplyIsFirst(s, k); }
  }

  lemma {:induction false} ReturnedHasNumber(fates: seq<Fate>, j: nat)
    requires j < |fates| && fates[j] == Returned
    ensures j in ReturnedNumbers(fates)
    decreases |fates|
  {
    if j < |fates| - 1 {
      ReturnedHasNumber(fates[..|fates| - 1], j);
    }
  }

  lemma {:induction false} NumberHasResult(results: seq<Result>, t: Target, j: nat) returns (k: nat)
    requires j in Numbers(results, t)
    ensures k < |results| && NumberOf(results[k], t) == [j]
    decreases |results|
  {
    var n := |results| - 1;
    if j in Numbers(results[..n], t) {
      k := NumberHasResult(results[..n], t, j);
    } else {
      k := n;
    }
  }

  // ---------------------------------------------------------------- what a wait leaves behind

  /** The wait for cmd that began at since, with these results before it, is over: nothing has left the
      queue since it ended. */
  predicate Over(s: State, cmd: byte, since: nat, results: seq<Result>)
  {
    && s.client.Idle? && |s.results| == |results| + 1 && results <= s.results
    && match s.results[|results|]
       case GotReply(cmd', since', i, _) => cmd' == cmd && since' == since && |s.boxes.replies.fates| == i + 1
       case NoReply(cmd', since', upto) => cmd' == cmd && since' == since && |s.boxes.replies.fates| == upto
       case _ => false
  }

  lemma WaitContinue(s: State)
    requires Inv(s) && Calling(s.client)
    ensures var s' := Next(s, Continue);
            Underway(s, s') || Over(s', s.client.cmd, s.client.since, s.results)
  {
    QueueFront(s);
    HoldingFront(s);
    match s.client
    case Waiting(_, _, _) => StepWaiting(s);
    case Scanning(_, _, _, _) => StepScanning(s);
    case HoldingReply(_, _, _, _, _, _) => StepReply(s);
    case _ =>
    hide Inv, Next, PopFront, Matches, WellFormed;
  }

  /** A wait under steps and arrivals is under way, or over with one result, which says where the
      queue stands. */
  lemma {:induction false} WaitUnderwayOrOver(s: State, acts: seq<Action>)
    requires Inv(s) && Calling(s.client) && Interleaving(acts)
    ensures var s' := Run(s, acts);
            Inv(s') && Extends(s.boxes.replies, s'.boxes.replies)
            && (Underway(s, s') || Over(s', s.client.cmd, s.client.since, s.results))
    decreases |acts|
  {
    hide Inv, Next;
    if |acts| > 0 {
      var front, a := acts[..|acts| - 1], acts[|acts| - 1];
      var mid := Run(s, front);
      WaitUnderwayOrOver(s, front);
      StepExtends(mid, a);
      if Underway(s, mid) {
        if a.Continue? { WaitContinue(mid); } else { ArriveStep(mid, a.f); }
      }
    }
  }

  /** Conservation: what was queued when a wait began and what has arrived since is, in order, the
      frames it dropped, none of which it could return, the reply it returned, and what is queued now. */
  lemma RepliesConserve(s: State, cmd: byte, acts: seq<Action>)
    requires Inv(s) && s.client.Idle? && Interleaving(acts)
    requires Run(Next(s, AwaitReply(cmd)), acts).client.Idle?
    ensures var s' := Run(Next(s, AwaitReply(cmd)), acts);
            |s'.results| == |s.results| + 1 && s.results <= s'.results && Conserved(s, cmd, Arrivals(acts, Replies), s')
  {
    hide Inv, Run, Arrivals, Conserved, Over;
    StepAwait(s, cmd);
    BeginKeeps(s, AwaitReply(cmd));
    var s1 := Next(s, AwaitReply(cmd));
    assert s1 == Begin(s, AwaitReply(cmd));
    hide Next, Begin;
    WaitUnderwayOrOver(s1, acts);
    RunRoutes(s1, acts, Replies);
    ConservedAtEnd(s, cmd, Arrivals(acts, Replies), Run(s1, acts));
  }

  /** From s to s' a call for cmd came and went, and these frames arrived for the reply queue. */
  predicate Conserved(s: State, cmd: byte, arrived: seq<Frame>, s': State)
  {
    var since, b' := |s.boxes.replies.fates|, s'.boxes.replies;
    |s'.results| > 0 && match s'.results[|s'.results| - 1]
    case GotReply(cmd', _, i, buf) =>
      && cmd' == cmd && since <= i < |b'.routed| && Hits(cmd, buf)
      && (forall j :: since <= j < i ==> !Hits(cmd, b'.routed[j]))
      && s.boxes.replies.queue + arrived == b'.routed[since..i] + [buf] + b'.queue
    case NoReply(cmd', _, upto) =>
      && cmd' == cmd && since <= upto <= |b'.routed|
      && (forall j :: since <= j < upto ==> !Hits(cmd, b'.routed[j]))
      && s.boxes.replies.queue + arrived == b'.routed[since..upto] + b'.queue
    case _ => false
  }

  lemma ConservedAtEnd(s: State, cmd: byte, arrived: seq<Frame>, s': State)
    requires Inv(s) && Inv(s') && Over(s', cmd, |s.boxes.replies.fates|, s.results)
    requires s'.boxes.replies.routed == s.boxes.replies.routed + arrived
    ensures |s'.results| == |s.results| + 1 && s.results <= s'.results && Conserved(s, cmd, arrived, s')
  {
    QueueSlice(s);
    QueueSlice(s');
    LastResult(s', |s.results|, cmd);
    hide Inv, Hits;
    var k, since, b' := |s.results|, |s.boxes.replies.fates|, s'.boxes.replies;
    QueueAndArrivals(s.boxes.replies.routed, arrived, since);
    SplitAt(b'.routed, since, |b'.fates|);
  }

  lemma QueueAndArrivals(routed: seq<Frame>, arrived: seq<Frame>, m: nat)
    requires m <= |routed|
    ensures routed[m..] + arrived == (routed + arrived)[m..]
  {
  }

  lemma SplitAt(frames: seq<Frame>, m: nat, n: nat)
    requires m <= n <= |frames|
    ensures frames[m..] == frames[m..n] + frames[n..]
    ensures m < n ==> frames[m..] == frames[m..n - 1] + [frames[n - 1]] + frames[n..]
  {
  }

  lemma QueueSlice(s: State)
    requires Inv(s)
    ensures var b := s.boxes.replies; |b.fates| <= |b.routed| && b.queue == b.routed[|b.fates|..]
  {
    assert BoxOk(s.boxes.Of(Replies), Replies);
  }

  /** What the invariant says of a result of a wait, in terms of the frames a call returns. */
  lemma LastResult(s: State, k: nat, cmd: byte)
    requires Inv(s) && k < |s.results|
    ensures var b, x := s.boxes.replies, s.results[k];
            && (x.GotReply? && x.cmd == cmd ==>
                x.since <= x.i < |b.routed| && x.buf == b.routed[x.i] && Hits(cmd, x.buf)
                && forall j :: x.since <= j < x.i ==> !Hits(cmd, b.routed[j]))
            && (x.NoReply? && x.cmd == cmd ==>
                x.since <= x.upto <= |b.routed| && forall j :: x.since <= j < x.upto ==> !Hits(cmd, b.routed[j]))
  {
    hide ClientOk, OrderOk, KeysOk, TargetOf, Matches, WellFormed;
    assert ResultOk(s, s.results[k]) && BoxOk(s.boxes.Of(Replies), Replies);
  }

  /** The first frame from number m on that a call for cmd returns, or else the last. */
  lemma {:induction false} FirstHitOrLast(frames: seq<Frame>, cmd: byte, m: nat) returns (i: nat)
    requires m < |frames|
    ensures m <= i < |frames| && (forall j :: m <= j < i ==> !Hits(cmd, frames[j]))
    ensures Hits(cmd, frames[i]) || i == |frames| - 1
    decreases |frames| - m
  {
    if Hits(cmd, frames[m]) || m == |frames| - 1 {
      i := m;
    } else {
      i := FirstHitOrLast(frames, cmd, m + 1);
    }
  }

  /** A call that gives up has looked at everything that was queued at its last attempt: whatever had
      arrived when the client still had an attempt before it has been dropped. */
  lemma NothingOverlooked(s: State, acts: seq<Action>, upto: nat)
    requires Inv(s) && s.client.Waiting? && s.client.budget > 0 && Interleaving(acts)
    requires Run(s, acts).client.Idle?
    requires Run(s, acts).results == s.results + [NoReply(s.client.cmd, s.client.since, upto)]
    ensures |s.boxes.replies.routed| <= upto
  {
    hide Inv, Run, Next, Hits, StepsTo, Continues, Interleaving;
    var b, s' := s.boxes.replies, Run(s, acts);
    WaitUnderwayOrOver(s, acts);
    QueueFront(s);
    if |b.fates| < |b.routed| {
      var i := FirstHitOrLast(b.routed, s.client.cmd, |b.fates|);
      FrameReached(s, acts, i);
      assert i == |b.routed| - 1;
    } else {
      assert |s'.boxes.replies.fates| == upto;
    }
  }

  // ---------------------------------------------------------------- attempts

  /** The client makes attempts, of which some are left. */
  predicate Attempting(c: Client)
  {
    Calling(c) || c.PollingIc?
  }

  /** From s to s', with n steps of the client: an attempt takes at least one step, and the call gives up
      only when all attempts have been made. */
  predicate Tried(s: State, s': State, n: nat)
    requires Attempting(s.client)
  {
    || (Attempting(s'.client) && s'.results == s.results && s'.client.budget + n >= s.client.budget)
    || (s'.client.HoldingNewest? && s'.results == s.results)
    || (s'.client.Idle? && |s'.results| == |s.results| + 1 && s'.results[..|s.results|] == s.results
        && (s'.results[|s.results|].GotReply? || s'.results[|s.results|].GotNewest? || n > s.client.budget))
  }

  lemma TriedOnce(s: State, mid: State, n: nat)
    requires Attempting(s.client) && Tried(s, mid, n)
    ensures Tried(s, Proceed(mid), n + 1)
  {
    hide PopFront, ClearTaking, Matches, WellFormed;
  }

  lemma {:induction false} CallTries(s: State, acts: seq<Action>)
    requires Attempting(s.client) && Interleaving(acts)
    ensures Tried(s, Run(s, acts), Continues(acts))
    decreases |acts|
  {
    hide Tried, Proceed, Begin;
    if |acts| > 0 {
      var front, a := acts[..|acts| - 1], acts[|acts| - 1];
      CallTries(s, front);
      if a.Continue? {
        TriedOnce(s, Run(s, front), Continues(front));
      } else {
        TriedArrival(s, Run(s, front), a.f, Continues(front));
      }
    } else {
      TriedNothing(s);
    }
  }

  lemma TriedNothing(s: State)
    requires Attempting(s.client)
    ensures Tried(s, s, 0)
  {
  }

  lemma TriedArrival(s: State, mid: State, f: Frame, n: nat)
    requires Attempting(s.client) && Tried(s, mid, n)
    ensures Tried(s, Next(mid, Arrive(f)), n)
  {
    hide WellFormed, TargetOf;
  }

  /** A wait that gives up, from its first attempt on, has made more than 2000 steps. */
  lemma GivesUpLate(s: State, acts: seq<Action>, x: Result)
    requires Attempting(s.client) && Interleaving(acts) && (x.NoReply? || x.Nothing?)
    requires Run(s, acts).client.Idle? && Run(s, acts).results == s.results + [x]
    ensures Continues(acts) > s.client.budget
  {
    CallTries(s, acts);
    hide Run, Interleaving, Continues;
    assert (s.results + [x])[|s.results|] == x;
  }

  function Steps(n: nat): seq<Action>
  {
    if n == 0 then [] else Steps(n - 1) + [Continue]
  }

  /** A wait for a reply makes 2000 attempts, one a step while the queue stays empty, and gives up at the
      next step. */
  lemma {:induction false} SilentWait(s: State, cmd: byte, n: nat)
    requires s.client.Idle? && s.boxes.replies.queue == [] && n <= 2000
    ensures var since := |s.boxes.replies.fates|; var s' := Run(Next(s, AwaitReply(cmd)), Steps(n));
            && s' == s.(client := Waiting(cmd, since, 2000 - n))
            && (n == 2000 ==> Next(s', Continue) == s.(results := s.results + [NoReply(cmd, since, since)]))
    decreases n
  {
    StepAwait(s, cmd);
    var since := |s.boxes.replies.fates|;
    if n > 0 {
      SilentWait(s, cmd, n - 1);
      StepWaiting(Run(Next(s, AwaitReply(cmd)), Steps(n - 1)));
      RunAppend(Next(s, AwaitReply(cmd)), Steps(n - 1), Continue);
    }
    var s' := s.(client := Waiting(cmd, since, 2000 - n));
    assert Run(Next(s, AwaitReply(cmd)), Steps(n)) == s';
    hide Next, Run;
    StepWaiting(s');
  }

  lemma {:induction false} RunConcat(s: State, a: seq<Action>, b: seq<Action>)
    ensures Run(s, a + b) == Run(Run(s, a), b)
    decreases |b|
  {
    hide Next;
    if |b| == 0 {
      assert a + b == a;
    } else {
      var m := |b| - 1;
      assert (a + b)[..|a + b| - 1] == a + b[..m] && (a + b)[|a + b| - 1] == b[m];
      RunConcat(s, a, b[..m]);
    }
  }

  // ---------------------------------------------------------------- calls end

  /** Remaining attempts, phase within an attempt, frames left to inspect. */
  function Rank(c: Client): (nat, nat, nat)
  {
    match c
    case Idle => (0, 0, 0)
    case HoldingKey(_, _) => (0, 0, 1)
    case HoldingNewest(_, _, _, _) => (0, 0, 1)
    case PollingIc(_, budget) => (budget, 1, 0)
    case Waiting(_, _, budget) => (budget, 2, 0)
    case Scanning(_, _, budget, left) => (budget, 1, 2 * left)
    case HoldingReply(_, _, budget, left, _, _) => (budget, 1, 2 * left - if left > 0 then 1 else 0)
  }

  predicate Before(x: (nat, nat, nat), y: (nat, nat, nat))
  {
    x.0 < y.0 || (x.0 == y.0 && (x.1 < y.1 || (x.1 == y.1 && x.2 < y.2)))
  }

  /** Every step of a call comes closer to its end, and arrivals never put it off. */
  lemma CallsEnd(acts: seq<Action>, f: Frame)
    requires !Run(Init(), acts).client.Idle?
    ensures var s := Run(Init(), acts);
            && Before(Rank(Next(s, Continue).client), Rank(s.client))
            && Next(s, Arrive(f)).client == s.client
  {
    Reachable(acts);
    hide Run, Inv;
    ProceedCloser(Run(Init(), acts));
  }

  lemma ProceedCloser(s: State)
    requires Inv(s) && !s.client.Idle?
    ensures Before(Rank(Proceed(s).client), Rank(s.client))
  {
    hide BoxOk, ResultsOk, OrderOk, KeysOk, TargetOf, WellFormed, PopFront, ClearTaking;
  }
}
