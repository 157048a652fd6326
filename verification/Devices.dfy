/** The client side: the callback, and the calls that drain the queues while it goes on pushing.

    The class does what the program does, one atomic step at a time; between the steps Interfere
    lets any frames arrive. Its history shows it to be a run of the step system of Mailboxes. */
module Devices {
  import opened Bytes
  import opened Framing
  import opened Fields
  import opened Mailboxes
  import Comm

  const CLEAR_KEYBOARD_CACHE: byte := 0x33

  const SDK_OK: int := 0
  const SDK_ERROR: int := -1
  const SDK_TIMEOUT: int := -121

  // ---------------------------------------------------------------- what frames mean

  /** A 32-bit word as a signed number. */
  function SignedWord(w: uint32): int
  {
    if w < 0x8000_0000 then w as int else w as int - 0x1_0000_0000
  }

  /** A number cut to thirty-two bits, the highest of them the sign. */
  function Wrap32(n: int): int
  {
    (n + 0x8000_0000) % 0x1_0000_0000 - 0x8000_0000
  }

  /** A signed 32-bit number shifted left by eight bits, with a byte added. */
  function ShiftIn(acc: int, b: byte): int
  {
    Wrap32(Wrap32(acc * 256) + b as int)
  }

  /** Four bytes shifted, one after the other, into a signed number. */
  function StatusWord(b: seq<byte>): int
    requires |b| == 4
  {
    ShiftIn(ShiftIn(ShiftIn(b[0] as int, b[1]), b[2]), b[3])
  }

  lemma WrapWord(n: int)
    requires 0 <= n < 0x1_0000_0000
    ensures Wrap32(n) == if n < 0x8000_0000 then n else n - 0x1_0000_0000
  {
    if n >= 0x8000_0000 {
      assert (n + 0x8000_0000) % 0x1_0000_0000 == n - 0x8000_0000;
    }
  }

  lemma WrapBelow(n: int)
    requires -0x8000_0000 <= n < 0x8000_0000
    ensures Wrap32(n) == n
  {
  }

  lemma ShiftInExact(m: nat, b: byte)
    requires m < 0x100_0000
    ensures var n := m * 256 + b as int; ShiftIn(m, b) == if n < 0x8000_0000 then n else n - 0x1_0000_0000
  {
    WrapWord(m * 256);
    WrapBelow(Wrap32(m * 256) + b as int);
    hide Wrap32;
  }

  /** Shifting and adding in signed arithmetic gives the two's-complement value of the bytes. */
  lemma StatusWordExact(b: seq<byte>)
    requires |b| == 4
    ensures StatusWord(b) == SignedWord(BytesWord(b))
  {
    hide ShiftIn;
    var m := b[0] as int * 256 + b[1] as int;
    ShiftInExact(b[0] as int, b[1]);
    ShiftInExact(m, b[2]);
    ShiftInExact(m * 256 + b[2] as int, b[3]);
  }

  /** The status word behind the header; None where the program would read beyond the frame. */
  function StatusOf(f: Frame): Option<int>
  {
    if |f| < 8 then None else Some(StatusWord(f[4..8]))
  }

  /** Return code and data of a reply; None for the data leaves the caller's vector alone. */
  function ReplyOf(f: Frame): (int, Option<seq<byte>>)
    requires WellFormed(f)
  {
    var ln := PayloadLength(f);
    if ln < 4 then (SDK_TIMEOUT, None)
    else
      var status := StatusWord(f[4..8]);
      (status, if status == 0 then Some(f[8..8 + ln - 4]) else None)
  }

  /** What a caller gets of a reply, in numbers: the signed status word and, if it is zero, all data behind
      it; of a reply without a status word the timeout code. */
  lemma ReplyOfIs(f: Frame)
    requires WellFormed(f)
    ensures |f| < 8 ==> ReplyOf(f) == (-121, None)
    ensures |f| >= 8 ==>
      var status := SignedWord(BytesWord(f[4..8]));
      ReplyOf(f) == (status, if status == 0 then Some(f[8..]) else None)
  {
    if |f| >= 8 {
      StatusWordExact(f[4..8]);
      hide StatusWord, SignedWord, BytesWord;
      assert f[8..8 + PayloadLength(f) - 4] == f[8..];
    }
  }

  /** A frame with this command, the direction of a response, and this payload. */
  function ResponseBody(cmd: byte, payload: seq<byte>): (f: Frame)
    requires |payload| < FULL_READ
  {
    [cmd, 0x4F, (|payload| / 256) as byte, (|payload| % 256) as byte] + payload
  }

  lemma ResponseParts(cmd: byte, payload: seq<byte>)
    requires |payload| < FULL_READ
    ensures var f := ResponseBody(cmd, payload);
            WellFormed(f) && PayloadLength(f) == |payload| && f[0] == cmd && f[1] == 0x4F && f[4..] == payload
  {
    assert |payload| / 256 * 256 + |payload| % 256 == |payload|;
  }

  /** The status that the device puts into a card status frame is what the caller gets, as a signed number. */
  lemma StatusRoundTrip(status: uint32, rest: seq<byte>)
    requires |rest| < FULL_READ - 4
    ensures var f := ResponseBody(0x4C, WordBytes(status) + rest);
            WellFormed(f) && TargetOf(f) == IcStatus && StatusOf(f) == Some(SignedWord(status))
  {
    var f := ResponseBody(0x4C, WordBytes(status) + rest);
    ResponseParts(0x4C, WordBytes(status) + rest);
    RoutingTable(f);
    WordRoundTrip(status);
    StatusWordExact(WordBytes(status));
    hide ResponseBody, WordBytes, BytesWord, StatusWord, SignedWord, WellFormed, PayloadLength, TargetOf;
    assert f[4..8] == f[4..][..4] == WordBytes(status);
  }

  /** No request is taken for an answer to any command. */
  lemma RequestNeverAnswers(r: Request, cmd: byte)
    ensures !Answers(cmd, RequestBody(r))
  {
  }

  /** A touch position as reported, in the first four payload bytes. */
  function RawTouch(f: Frame): (nat, nat)
    requires |f| >= 8
  {
    (f[4] as nat * 256 + f[5] as nat, f[6] as nat * 256 + f[7] as nat)
  }

  /** Unsigned 32-bit subtraction. */
  function Minus(a: nat, b: nat): nat
  {
    (a - b) % 0x1_0000_0000
  }

  /** The position handed out: origin moved to the upper left corner, in unsigned arithmetic,
      then cut to the screen. */
  function TouchPoint(f: Frame): (nat, nat)
    requires |f| >= 8
  {
    var (x, y) := RawTouch(f);
    var y' := Minus(239, y);
    (if x > 319 then 319 else x, if y' > 239 then 239 else y')
  }

  /** Moving the origin first and cutting to the screen on both sides. */
  function IdealTouchPoint(f: Frame): (nat, nat)
    requires |f| >= 8
  {
    var (x, y) := RawTouch(f);
    (if x > 319 then 319 else x, if y > 239 then 0 else 239 - y)
  }

  /** Positions are always on the screen; they are where they should be exactly for reported
      heights on the screen, because below it the unsigned difference wraps around. */
  lemma TouchExact(f: Frame)
    requires |f| >= 8
    ensures var (x, y) := TouchPoint(f); x <= 319 && y <= 239
    ensures TouchPoint(f) == IdealTouchPoint(f) <==> RawTouch(f).1 <= 239
  {
    var d: int := 239 - RawTouch(f).1;
    if d < 0 {
      assert d % 0x1_0000_0000 == d + 0x1_0000_0000;
    }
  }

  /** A position that the device reports comes out cut to the width of the screen, and with its height
      counted from the other edge; heights beyond the screen come out as 239. */
  lemma TouchRoundTrip(x: nat, y: nat, rest: seq<byte>)
    requires x < 65536 && y < 65536 && |rest| < FULL_READ - 4
    ensures var f := ResponseBody(0x3E, [(x / 256) as byte, (x % 256) as byte, (y / 256) as byte, (y % 256) as byte] + rest);
            && WellFormed(f) && TargetOf(f) == Touch
            && TouchPoint(f) == (if x > 319 then 319 else x, if y > 239 then 239 else 239 - y)
  {
    var payload := [(x / 256) as byte, (x % 256) as byte, (y / 256) as byte, (y % 256) as byte] + rest;
    var f := ResponseBody(0x3E, payload);
    ResponseParts(0x3E, payload);
    RoutingTable(f);
    hide ResponseBody, WellFormed, PayloadLength, TargetOf;
    assert f[4] == f[4..][0] && f[5] == f[4..][1] && f[6] == f[4..][2] && f[7] == f[4..][3];
    assert x / 256 * 256 + x % 256 == x && y / 256 * 256 + y % 256 == y;
    var d: int := 239 - y;
    if d < 0 {
      assert d % 0x1_0000_0000 == d + 0x1_0000_0000;
    }
  }

  // ---------------------------------------------------------------- the scan as written

  /** How a pass of the reply loop over the queue ends. */
  datatype ScanEnd = Matched(f: Frame, queue: seq<Frame>) | Exhausted(queue: seq<Frame>) | Undefined

  predicate AllFrames(q: seq<Frame>)
  {
    forall i :: 0 <= i < |q| ==> WellFormed(q[i])
  }

  /** The scan as meant: look at the front, take it off, stop at a match. */
  function FrontScan(cmd: byte, q: seq<Frame>): ScanEnd
    requires AllFrames(q)
  {
    if |q| == 0 then Exhausted([])
    else if Matches(cmd, q[0]) then Matched(q[0], q[1..])
    else FrontScan(cmd, q[1..])
  }

  /** The scan as written: the loop walks positions i up to an end fixed at its start, while every
      frame looked at erases the front of the queue under it. Looking beyond the queue is undefined. */
  function LiteralScan(cmd: byte, q: seq<Frame>, i: nat, end: nat): ScanEnd
    requires AllFrames(q) && i <= end
    decreases end - i
  {
    if i == end then Exhausted(q)
    else if i >= |q| then Undefined
    else if Matches(cmd, q[i]) then Matched(q[i], q[1..])
    else LiteralScan(cmd, q[1..], i + 1, end)
  }

  predicate IsFirstMatch(cmd: byte, q: seq<Frame>, m: nat)
    requires AllFrames(q) && m < |q|
  {
    Matches(cmd, q[m]) && forall j :: 0 <= j < m ==> !Matches(cmd, q[j])
  }

  /** The written scan looks at every other frame; NoneAtEven says that it finds nothing from i up to k. */
  predicate NoneAtEven(cmd: byte, q: seq<Frame>, i: nat, k: nat)
    requires AllFrames(q)
  {
    forall j :: i <= j < k && 2 * j < |q| ==> !Matches(cmd, q[2 * j])
  }

  lemma {:induction false} FrontFinds(cmd: byte, q: seq<Frame>, m: nat)
    requires AllFrames(q) && m < |q| && IsFirstMatch(cmd, q, m)
    ensures FrontScan(cmd, q) == Matched(q[m], q[m + 1..])
    decreases m
  {
    if m > 0 {
      FrontFinds(cmd, q[1..], m - 1);
      assert q[1..][m..] == q[m + 1..];
    }
  }

  lemma {:induction false} FrontFindsNothing(cmd: byte, q: seq<Frame>)
    requires AllFrames(q) && forall j :: 0 <= j < |q| ==> !Matches(cmd, q[j])
    ensures FrontScan(cmd, q) == Exhausted([])
    decreases |q|
  {
    if |q| > 0 {
      FrontFindsNothing(cmd, q[1..]);
    }
  }

  lemma {:induction false} LiteralFinds(cmd: byte, q: seq<Frame>, i: nat, k: nat)
    requires AllFrames(q) && i <= k && 2 * k < |q|
    requires NoneAtEven(cmd, q, i, k) && Matches(cmd, q[2 * k])
    ensures LiteralScan(cmd, q[i..], i, |q|) == Matched(q[2 * k], q[k + 1..])
    decreases k - i
  {
    assert q[i..][i] == q[2 * i] && q[i..][1..] == q[i + 1..];
    if i < k {
      LiteralFinds(cmd, q, i + 1, k);
    }
  }

  lemma {:induction false} LiteralRunsOff(cmd: byte, q: seq<Frame>, i: nat)
    requires AllFrames(q) && i < |q| && |q| >= 2
    requires forall j :: i <= j && 2 * j < |q| ==> !Matches(cmd, q[2 * j])
    ensures LiteralScan(cmd, q[i..], i, |q|) == Undefined
    decreases |q| - i
  {
    if 2 * i < |q| {
      assert q[i..][i] == q[2 * i] && q[i..][1..] == q[i + 1..];
      LiteralRunsOff(cmd, q, i + 1);
    }
  }

  /** The first match stands at an odd place m and is repeated, byte for byte, at place 2m, the
      first even place that matches: then the two scans return equal frames by chance. */
  predicate Echo(cmd: byte, q: seq<Frame>, m: nat)
    requires AllFrames(q)
  {
    0 < m && 2 * m < |q| && IsFirstMatch(cmd, q, m) && NoneAtEven(cmd, q, 0, m) && q[2 * m] == q[m]
  }

  /** The written scan does what is meant exactly if the queue holds at most one frame, or its front
      matches, or there is an echo; in all other cases it is undefined, or skips the reply meant
      or leaves the one returned in the queue. */
  lemma LiteralScanIff(cmd: byte, q: seq<Frame>)
    requires AllFrames(q)
    ensures LiteralScan(cmd, q, 0, |q|) == FrontScan(cmd, q)
            <==> |q| <= 1 || Matches(cmd, q[0]) || exists m :: Echo(cmd, q, m)
  {
    assert q[0..] == q;
    if |q| >= 2 {
      if j :| 0 <= j && 2 * j < |q| && Matches(cmd, q[2 * j]) {
        var k := FirstEvenMatch(cmd, q, j);
        var m := FirstMatch(cmd, q, 2 * k);
        LiteralFinds(cmd, q, 0, k);
        FrontFinds(cmd, q, m);
        assert |q[k + 1..]| == |q| - k - 1 && |q[m + 1..]| == |q| - m - 1;
        EchoIff(cmd, q, k, m);
      } else {
        LiteralRunsOff(cmd, q, 0);
        FrontIsDefined(cmd, q);
      }
    }
  }

  lemma EchoIff(cmd: byte, q: seq<Frame>, k: nat, m: nat)
    requires AllFrames(q) && 2 * k < |q| && Matches(cmd, q[2 * k]) && NoneAtEven(cmd, q, 0, k)
    requires m < |q| && IsFirstMatch(cmd, q, m)
    ensures k == m && q[2 * k] == q[m] <==> Matches(cmd, q[0]) || exists m' :: Echo(cmd, q, m')
  {
    if Matches(cmd, q[0]) {
      FirstIsLeast(cmd, q, m, 0);
      EvenIsLeast(cmd, q, k, 0);
    } else if m': nat :| Echo(cmd, q, m') {
      FirstIsLeast(cmd, q, m, m');
      FirstIsLeast(cmd, q, m', m);
      EvenIsLeast(cmd, q, k, m');
      EvenIsLeast(cmd, q, m', k);
    } else if k == m && q[2 * k] == q[m] {
      assert Echo(cmd, q, m);
    }
  }

  lemma FirstIsLeast(cmd: byte, q: seq<Frame>, m: nat, j: nat)
    requires AllFrames(q) && m < |q| && IsFirstMatch(cmd, q, m) && j < |q| && Matches(cmd, q[j])
    ensures m <= j
  {
  }

  lemma EvenIsLeast(cmd: byte, q: seq<Frame>, k: nat, j: nat)
    requires AllFrames(q) && NoneAtEven(cmd, q, 0, k) && 2 * j < |q| && Matches(cmd, q[2 * j])
    ensures k <= j
  {
  }

  lemma {:induction false} FrontIsDefined(cmd: byte, q: seq<Frame>)
    requires AllFrames(q)
    ensures FrontScan(cmd, q) != Undefined
    decreases |q|
  {
    if |q| > 0 {
      FrontIsDefined(cmd, q[1..]);
    }
  }

  lemma {:induction false} FirstEvenMatch(cmd: byte, q: seq<Frame>, j: nat) returns (k: nat)
    requires AllFrames(q) && 2 * j < |q| && Matches(cmd, q[2 * j])
    ensures k <= j && Matches(cmd, q[2 * k]) && NoneAtEven(cmd, q, 0, k)
    decreases j
  {
    if i :| 0 <= i < j && Matches(cmd, q[2 * i]) {
      k := FirstEvenMatch(cmd, q, i);
    } else {
      k := j;
    }
  }

  lemma {:induction false} FirstMatch(cmd: byte, q: seq<Frame>, k: nat) returns (m: nat)
    requires AllFrames(q) && k < |q| && Matches(cmd, q[k])
    ensures m <= k && IsFirstMatch(cmd, q, m)
    decreases k
  {
    if j :| 0 <= j < k && Matches(cmd, q[j]) {
      m := FirstMatch(cmd, q, j);
    } else {
      m := k;
    }
  }

  // ---------------------------------------------------------------- the class

  /** Return code, card type and key of a search frame. None where the program leaves the caller's
      variable alone, or reads it from beyond the frame, as it does with the type if there are
      exactly four payload bytes. */
  function CardOf(f: Frame): (int, Option<byte>, Option<byte>)
    requires WellFormed(f)
  {
    var ln := PayloadLength(f);
    if ln < 4 then (SDK_OK, None, None)
    else
      var code := StatusWord(f[4..8]);
      if ln == 4 then (code, None, None)
      else (code, Some(f[8]), if f[8] % 2 == 1 && ln >= 6 then Some(f[9]) else None)
  }

  /** What the device puts into a search frame is what the caller gets: the status as a signed number,
      the card type, and the first byte behind it exactly if the type is odd. */
  lemma CardRoundTrip(status: uint32, cardType: byte, rest: seq<byte>)
    requires |rest| < FULL_READ - 5
    ensures var f := ResponseBody(0x46, WordBytes(status) + [cardType] + rest);
            WellFormed(f) && TargetOf(f) == Search && CardOf(f)
              == (SignedWord(status), Some(cardType), if cardType % 2 == 1 && |rest| > 0 then Some(rest[0]) else None)
    ensures var f := ResponseBody(0x46, WordBytes(status));
            WellFormed(f) && TargetOf(f) == Search && CardOf(f) == (SignedWord(status), None, None)
  {
    var f, g := ResponseBody(0x46, WordBytes(status) + [cardType] + rest), ResponseBody(0x46, WordBytes(status));
    ResponseParts(0x46, WordBytes(status) + [cardType] + rest);
    ResponseParts(0x46, WordBytes(status));
    RoutingTable(f);
    RoutingTable(g);
    WordRoundTrip(status);
    StatusWordExact(WordBytes(status));
    hide ResponseBody, WordBytes, BytesWord, StatusWord, SignedWord, WellFormed, PayloadLength, TargetOf;
    assert f[4..8] == f[4..][..4] == WordBytes(status) && f[8] == f[4..][4] && (|rest| > 0 ==> f[9] == f[4..][5]);
    assert g[4..8] == g[4..][..4] == WordBytes(status);
  }

  /** The queue has gained frames at its end and lost none. */
  predicate Grown(b: Box, b': Box)
  {
    b.queue <= b'.queue && b.routed <= b'.routed && b'.fates == b.fates
  }

  /** The trace t1 goes on from t0 with arrivals and steps of the client, and no new call. */
  predicate Further(t0: seq<Action>, t1: seq<Action>)
  {
    t0 <= t1 && Interleaving(t1[|t0|..])
  }

  lemma FurtherStill(t0: seq<Action>, t1: seq<Action>, t2: seq<Action>)
    requires Further(t0, t1) && Further(t1, t2)
    ensures Further(t0, t2)
  {
    assert t2[|t0|..] == t1[|t0|..] + t2[|t1|..];
  }

  lemma FurtherOnce(t0: seq<Action>, t1: seq<Action>, a: Action)
    requires Further(t0, t1) && (a.Arrive? || a.Continue?)
    ensures Further(t0, t1 + [a])
  {
    assert (t1 + [a])[|t0|..] == t1[|t0|..] + [a];
  }

  lemma FurtherPrefix(t0: seq<Action>, t1: seq<Action>)
    requires Further(t0, t1)
    ensures t0 <= t1
  {
  }

  lemma FurtherNot(t0: seq<Action>)
    ensures Further(t0, t0)
  {
  }

  class SmartwinDevices {
    const comm: Comm.SmartwinComm

    var recvList: seq<Frame>
    var keyinputList: seq<Frame>
    var searchCardList: seq<Frame>
    var tpinputList: seq<Frame>
    var icstatusList: seq<Frame>

    /** The run so far, and the state of the step system it leads to. */
    ghost var trace: seq<Action>
    ghost var state: State

    /** The queues are those of the step system. */
    ghost predicate QueuesAgree()
      reads this
    {
      && state.boxes.replies.queue == recvList
      && state.boxes.keys.queue == keyinputList
      && state.boxes.search.queue == searchCardList
      && state.boxes.touch.queue == tpinputList
      && state.boxes.icStatus.queue == icstatusList
    }

    ghost predicate Valid()
      reads this
    {
      state == Run(Init(), trace) && Inv(state) && QueuesAgree()
    }

    constructor (comm: Comm.SmartwinComm)
      ensures Valid() && state.client == Idle && trace == [] && this.comm == comm
    {
      this.comm := comm;
      recvList, keyinputList, searchCardList, tpinputList, icstatusList := [], [], [], [], [];
      trace, state := [], Init();
      new;
      Reachable([]);
    }

    /** The next step of the step system. */
    ghost method Do(a: Action)
      requires state == Run(Init(), trace)
      modifies this`trace, this`state
      ensures trace == old(trace) + [a] && state == Next(old(state), a)
      ensures state == Run(Init(), trace) && Inv(state)
    {
      RunAppend(Init(), trace, a);
      trace, state := trace + [a], Next(state, a);
      Reachable(trace);
    }

    /** The callback of the receive thread. */
    method Callback(buf: Frame)
      requires Valid() && WellFormed(buf)
      modifies this
      ensures Valid() && trace == old(trace) + [Arrive(buf)] && state == Next(old(state), Arrive(buf))
      ensures var key, search, touch, ic :=
                buf[..2] == [0x32, 0x4F], buf[..2] == [0x46, 0x4F], buf[..2] == [0x3E, 0x4F], buf[..2] == [0x4C, 0x4F];
              && keyinputList == old(keyinputList) + (if key then [buf] else [])
              && searchCardList == old(searchCardList) + (if search then [buf] else [])
              && tpinputList == old(tpinputList) + (if touch then [buf] else [])
              && icstatusList == old(icstatusList) + (if ic then [buf] else [])
              && recvList == old(recvList) + (if key || search || touch || ic then [] else [buf])
    {
      hide Inv, Run;
      if buf[0] == KEYBOARD_INPUT && buf[1] == RESPONSE {
        keyinputList := keyinputList + [buf];
      } else if buf[0] == SEARCH_CARD_START && buf[1] == RESPONSE {
        searchCardList := searchCardList + [buf];
      } else if buf[0] == TOUCH_COORDINATE && buf[1] == RESPONSE {
        tpinputList := tpinputList + [buf];
      } else if buf[0] == CHECK_IC_STATUS && buf[1] == RESPONSE {
        icstatusList := icstatusList + [buf];
      } else {
        recvList := recvList + [buf];
      }
      Do(Arrive(buf));
    }

    /** Between two steps of the client any frames may arrive. */
    method Interfere()
      requires Valid()
      modifies this
      ensures Valid()
      ensures state.client == old(state.client) && state.results == old(state.results)
      ensures KeysAsBefore()
      ensures forall t: Target :: Grown(old(state.boxes.Of(t)), state.boxes.Of(t))
      ensures old(trace) <= trace && OnlyArrivals(trace[|old(trace)|..]) && Further(old(trace), trace)
    {
      hide Run, Inv;
      var n: nat := *;
      while n > 0
        invariant Valid()
        invariant state.client == old(state.client) && state.results == old(state.results)
        invariant KeysAsBefore()
        invariant forall t: Target :: Grown(old(state.boxes.Of(t)), state.boxes.Of(t))
        invariant old(trace) <= trace && OnlyArrivals(trace[|old(trace)|..])
      {
        n := n - 1;
        var f: Frame := *;
        if WellFormed(f) {
          ghost var before := state;
          Callback(f);
          ArrivalGrows(before, f);
        }
      }
    }

    /** One result more than before. */
    twostate predicate Adds(x: Result)
      reads this
    {
      state.results == old(state.results) + [x]
    }

    /** No key has been taken, and the keys have not been cleared. */
    twostate predicate KeysAsBefore()
      reads this
    {
      state.keysTaken == old(state.keysTaken) && state.cleared == old(state.cleared)
    }

    /** A frame of n bytes has gone out whole on an open port, unless the system failed or the countdown of
        the write ran down. */
    twostate predicate SentWhole(sent: nat, n: nat)
      reads comm, comm.serial, comm.serial.line
    {
      comm.serial.isOpen && sent < n ==>
        comm.serial.line.sys.faults > old(comm.serial.line.sys.faults) || comm.WriteRanDown(n)
    }

    /** Send a request. sent is how much of its wire frame the line took. */
    method SendRequestCmd(cmd: byte, params: seq<byte>) returns (r: Comm.SendResult, ghost sent: nat)
      modifies comm.serial.line`tx, comm.serial.line`sys
      ensures var w := Wire(RequestBody(Request(cmd, params)));
              && sent <= |w| && comm.serial.line.tx == old(comm.serial.line.tx) + w[..sent]
              && (r == Comm.Returned(0) <==> sent == |w|)
      ensures r == Comm.Returned(0) ==>
        var n := |params|;
        && |comm.serial.line.tx| == |old(comm.serial.line.tx)| + n + 7
        && var w := comm.serial.line.tx[|old(comm.serial.line.tx)|..];
           && w[0] == 0x02 && w[1] == cmd && w[2] == 0x2F
           && w[3] as int == n / 256 % 256 && w[4] as int == n % 256
           && w[5..5 + n] == params && w[5 + n] == 0x03 && w[6 + n] == XorAll(w[1..5 + n])
      ensures r == Comm.Returned(-110) <==> !comm.serial.isOpen
      ensures r in {Comm.Returned(-110), Comm.Returned(-1), Comm.Returned(0), Comm.Escaped}
      ensures comm.serial.line.sys.faults >= old(comm.serial.line.sys.faults)
      ensures r == Comm.Escaped ==> comm.serial.line.sys.faults > old(comm.serial.line.sys.faults)
      ensures SentWhole(sent, |params| + 7)
    {
      hide Wire, XorAll;
      var buf: seq<byte> := [];
      buf := buf + [cmd];
      buf := buf + [REQUEST];
      buf := buf + [(|params| / 256 % 256) as byte];
      buf := buf + [(|params| % 256) as byte];
      ghost var header := buf;
      var i := 0;
      while i < |params|
        invariant 0 <= i <= |params| && buf == header + params[..i]
      {
        buf := buf + [params[i]];
        i := i + 1;
      }
      assert params[..i] == params;
      assert buf == RequestBody(Request(cmd, params));
      r, sent := comm.SendCmd(buf);
      RequestOnWire(cmd, params);
      assert r == Comm.Returned(0) ==> comm.serial.line.tx[|old(comm.serial.line.tx)|..] == Wire(buf);
    }

    /** Forget all keys and have the device forget its own: afterwards the queue holds exactly the keys
        that have arrived since the call began. If sending throws, the call ends there. */
    method KeyboardClearCache() returns (ret: int, escaped: bool, ghost sent: nat, ghost x: Result)
      requires Valid() && state.client.Idle?
      modifies this, comm.serial.line`tx, comm.serial.line`sys
      ensures Valid() && state.client.Idle? && old(trace) <= trace
      ensures |old(state.boxes.keys.routed)| <= |state.boxes.keys.routed|
      ensures state.keysTaken == [] && keyinputList == state.boxes.keys.routed[|old(state.boxes.keys.routed)|..]
      ensures var w := [0x02, 0x33, 0x2F, 0x00, 0x00, 0x03, 0x1C];
              && sent <= 7 && comm.serial.line.tx == old(comm.serial.line.tx) + w[..sent]
      ensures SentWhole(sent, 7)
      ensures escaped ==> sent < 7 && comm.serial.line.sys.faults > old(comm.serial.line.sys.faults)
      ensures !escaped ==> Adds(x) && Waited(x, CLEAR_KEYBOARD_CACHE, ret)
    {
      hide Run, Inv, Next, Wire, RequestBody, ReplyOf, ClearBox;
      ghost var m := |state.boxes.keys.routed|;
      BareRequest(CLEAR_KEYBOARD_CACHE);
      ClearCacheCheck();
      StepClearKeys(state);
      keyinputList := [];
      Do(Clear(Keys));
      var r;
      ret := SDK_ERROR;
      x := Nothing(Keys);
      r, sent := SendRequestCmd(CLEAR_KEYBOARD_CACHE, []);
      Interfere();
      escaped := r.Escaped?;
      if !escaped {
        var buf;
        ret, buf, x := RecvFromList(CLEAR_KEYBOARD_CACHE);
      }
      KeysSplit(state);
      assert state.cleared == m;
    }

    /** Take one key. The key read is the front of the queue as the call found it, whatever
        arrives before it is erased; None for the key where the frame is too short for one. */
    method KeyboardGetInput() returns (ret: int, key: Option<byte>)
      requires Valid() && state.client.Idle?
      modifies this
      ensures Valid() && state.client.Idle? && old(trace) <= trace
      ensures old(keyinputList) == [] ==> ret == -1 && Adds(Nothing(Keys))
      ensures old(keyinputList) != [] ==>
        var buf := old(keyinputList)[0];
        && ret == 0 && Adds(GotKey(|old(state.boxes.keys.fates)|, buf))
        && old(keyinputList)[1..] <= keyinputList
        && key == if |buf| < 8 then None else Some(buf[7])
    {
      hide Run, Inv;
      ret, key := SDK_OK, None;
      if |keyinputList| > 0 {
        var buf := keyinputList[0];
        Do(GetKey);
        Interfere();
        keyinputList := keyinputList[1..];
        Do(Continue);
        if |buf| >= 8 {
          var word := buf[4] as int;
          word := word * 256 + buf[5] as int;
          word := word * 256 + buf[6] as int;
          word := word * 256 + buf[7] as int;
          key := Some((word % 256) as byte);
        }
      } else {
        Do(GetKey);
        ret := SDK_ERROR;
      }
    }

    /** Take the newest touch position and forget the others; those that arrive between reading
        and clearing are forgotten with them. None where the frame is too short for a position. */
    method TpGetTouchCoordinate() returns (ret: int, point: Option<(nat, nat)>)
      requires Valid() && state.client.Idle?
      modifies this
      ensures Valid() && state.client.Idle? && old(trace) <= trace
      ensures old(tpinputList) == [] ==> ret == -1 && Adds(Nothing(Touch))
      ensures old(tpinputList) != [] ==>
        var buf := old(tpinputList[|tpinputList| - 1]);
        && ret == 0 && tpinputList == []
        && Adds(GotNewest(Touch, |old(state.boxes.touch.fates)|, |old(state.boxes.touch.routed)|, buf))
        && point == if |buf| < 8 then None else Some(TouchPoint(buf))
    {
      hide Run, Inv, Next, ClearTaking, ClearBox, PopFront;
      ret, point := SDK_ERROR, None;
      if |tpinputList| > 0 {
        var buf := tpinputList[|tpinputList| - 1];
        StepToNewest(state, Touch);
        Do(GetNewest(Touch));
        Interfere();
        StepFromNewest(state);
        tpinputList := [];
        Do(Continue);
        if |buf| >= 8 {
          var x := buf[4] as nat * 256 + buf[5] as nat;
          var y := buf[6] as nat * 256 + buf[7] as nat;
          y := Minus(239, y);
          if y > 239 {
            y := 239;
          }
          if x > 319 {
            x := 319;
          }
          point := Some((x, y));
        }
        ret := SDK_OK;
      } else {
        StepToNewest(state, Touch);
        Do(GetNewest(Touch));
      }
    }

    /** Take the newest card search result and forget the others. */
    method SearchCardGetStatus() returns (ret: int, cardType: Option<byte>, key: Option<byte>)
      requires Valid() && state.client.Idle?
      modifies this
      ensures Valid() && state.client.Idle? && old(trace) <= trace
      ensures old(searchCardList) == [] ==> ret == -1 && Adds(Nothing(Search))
      ensures old(searchCardList) != [] ==>
        var buf := old(searchCardList[|searchCardList| - 1]);
        && WellFormed(buf) && searchCardList == []
        && Adds(GotNewest(Search, |old(state.boxes.search.fates)|, |old(state.boxes.search.routed)|, buf))
        && (ret, cardType, key) == CardOf(buf)
    {
      hide Run, Inv, Next, ClearTaking, ClearBox, PopFront, CardOf;
      QueuedWellFormed(state, Search);
      ret, cardType, key := SDK_OK, None, None;
      if |searchCardList| > 0 {
        var buf := searchCardList[|searchCardList| - 1];
        StepToNewest(state, Search);
        Do(GetNewest(Search));
        Interfere();
        StepFromNewest(state);
        searchCardList := [];
        Do(Continue);
        var card := CardOf(buf);
        ret, cardType, key := card.0, card.1, card.2;
      } else {
        StepToNewest(state, Search);
        Do(GetNewest(Search));
        ret := SDK_ERROR;
      }
    }

    /** Take the newest card status and forget the others, in a wait that is under way. */
    method TakeIcStatus(ghost since: nat, ghost budget: nat) returns (status: Option<int>, ghost x: Result)
      requires Valid() && state.client == PollingIc(since, budget) && budget > 0 && |icstatusList| > 0
      modifies this
      ensures Valid() && state.client.Idle? && old(trace) <= trace && icstatusList == []
      ensures Adds(x) && x.GotNewest? && x.t == IcStatus && x.since == since < x.seen == |old(state.boxes.icStatus.routed)|
      ensures x.buf == old(icstatusList[|icstatusList| - 1]) && status == StatusOf(x.buf)
    {
      hide Run, Inv, Next, ClearTaking, ClearBox, PopFront, StatusOf;
      var buf := icstatusList[|icstatusList| - 1];
      x := GotNewest(IcStatus, since, |state.boxes.icStatus.routed|, buf);
      NewestIsAfter(state);
      StepPolling(state);
      Do(Continue);
      Interfere();
      StepFromNewest(state);
      icstatusList := [];
      Do(Continue);
      status := StatusOf(buf);
    }

    /** Ask for the card status and wait for it: what is returned arrived after the queue was cleared at
        the start of the call. If sending throws, the call ends there; it gives up after 2000 attempts. */
    method IcCardCheckStatus(cardType: byte, cardSeat: byte)
      returns (ret: int, status: Option<int>, escaped: bool, ghost sent: nat, ghost x: Result)
      requires Valid() && state.client.Idle?
      modifies this, comm.serial.line`tx, comm.serial.line`sys
      ensures Valid() && state.client.Idle? && old(trace) <= trace
      ensures var w := Wire(RequestBody(Request(0x4C, [cardType, cardSeat])));
              && sent <= |w| && comm.serial.line.tx == old(comm.serial.line.tx) + w[..sent]
              && (escaped ==> sent < |w|)
      ensures SentWhole(sent, 9)
      ensures escaped ==> comm.serial.line.sys.faults > old(comm.serial.line.sys.faults)
      ensures !escaped ==> Adds(x) && (x == Nothing(IcStatus) || x.GotNewest?)
      ensures !escaped && x == Nothing(IcStatus) ==>
        ret == -121 && status == None && Continues(trace[|old(trace)|..]) > 2000
      ensures !escaped && x.GotNewest? ==>
        && x.t == IcStatus && x.since == |old(state.boxes.icStatus.routed)| < x.seen && icstatusList == []
        && status == StatusOf(x.buf) && (|x.buf| >= 8 ==> ret == SignedWord(BytesWord(x.buf[4..8])))
    {
      ghost var since := |state.boxes.icStatus.routed|;
      hide Run, Inv, Next, ClearTaking, ClearBox, PopFront, StatusOf, Wire, RequestBody, Further, SignedWord, BytesWord, StatusWord;
      StepClearIc(state);
      icstatusList := [];
      Do(Clear(IcStatus));
      ghost var cleared := state.boxes;
      ret, status, x := SDK_TIMEOUT, None, Nothing(IcStatus);
      var r;
      r, sent := SendRequestCmd(CHECK_IC_STATUS, [cardType, cardSeat]);
      Interfere();
      escaped := r.Escaped?;
      if !escaped {
        assert state.boxes.Of(IcStatus).fates == cleared.Of(IcStatus).fates;
        ghost var t := trace;
        ret, status, x := PollIcStatus(since);
        AttemptsSince(old(trace), t, trace);
      }
    }

    /** The polling of the card status, from a queue that was cleared when since frames had arrived. */
    method PollIcStatus(ghost since: nat) returns (ret: int, status: Option<int>, ghost x: Result)
      requires Valid() && state.client.Idle? && since == |state.boxes.icStatus.fates|
      modifies this
      ensures Valid() && state.client.Idle? && old(trace) <= trace
      ensures Adds(x) && (x == Nothing(IcStatus) || x.GotNewest?)
      ensures x == Nothing(IcStatus) ==> ret == -121 && status == None && Continues(trace[|old(trace)|..]) > 2000
      ensures x.GotNewest? ==>
        && x.t == IcStatus && x.since == since < x.seen && icstatusList == []
        && status == StatusOf(x.buf) && (|x.buf| >= 8 ==> ret == SignedWord(BytesWord(x.buf[4..8])))
    {
      hide Run, Inv, Next, ClearTaking, ClearBox, PopFront, StatusOf, Further, SignedWord, BytesWord, StatusWord;
      WatchBegins(state);
      StepPoll(state);
      Do(PollIc);
      ghost var begun, first := trace, state;
      FurtherNot(begun);
      var timeout := RECV_TIMEOUT;
      while timeout > 0
        invariant Valid() && state.client == PollingIc(since, timeout) && state.results == old(state.results)
        invariant Further(begun, trace)
      {
        FurtherPrefix(begun, trace);
        if |icstatusList| > 0 {
          status, x := TakeIcStatus(since, timeout);
          ret := if status.Some? then status.value else SDK_OK;
          StatusIs(x.buf);
          return;
        } else {
          StepPolling(state);
          FurtherOnce(begun, trace, Continue);
          Do(Continue);
          ghost var t := trace;
          Interfere();
          FurtherStill(begun, t, trace);
          timeout := timeout - 1;
        }
      }
      StepPolling(state);
      FurtherOnce(begun, trace, Continue);
      Do(Continue);
      x := Nothing(IcStatus);
      AttemptsMade(begun, first, trace, x);
      FurtherPrefix(begun, trace);
      AttemptsSince(old(trace), begun, trace);
      return SDK_TIMEOUT, None, x;
    }

    /** The return code of a wait for the reply to cmd that ended with result x: the code of the reply,
        or timeout. The queue stands right behind what the wait has taken out of it. */
    ghost predicate Waited(x: Result, cmd: byte, ret: int)
      reads this
    {
      match x
      case GotReply(cmd', _, i, f) =>
        && cmd' == cmd && WellFormed(f) && |state.boxes.replies.fates| == i + 1
        && ret == if |f| < 8 then -121 else SignedWord(BytesWord(f[4..8]))
      case NoReply(cmd', _, upto) => cmd' == cmd && ret == -121 && |state.boxes.replies.fates| == upto
      case _ => false
    }

    /** Look at the front of the reply queue, and take it off. */
    method TakeFront(cmd: byte, ghost since: nat, ghost budget: nat, ghost left: nat) returns (front: Frame, ghost x: Result)
      requires Valid() && state.client == Scanning(cmd, since, budget, left) && budget > 0 && 0 < left <= |recvList|
      modifies this
      ensures Valid() && Further(old(trace), trace) && KeysAsBefore()
      ensures WellFormed(front) && front == old(recvList[0]) && old(recvList)[1..] <= recvList
      ensures Matches(cmd, front) ==>
        && state.client.Idle? && Adds(x) && x.GotReply? && x == GotReply(cmd, since, x.i, front)
        && |state.boxes.replies.fates| == x.i + 1
      ensures !Matches(cmd, front) ==>
        state.client == Scanning(cmd, since, budget, left - 1) && state.results == old(state.results)
    {
      hide Run, Inv, Next, ClearTaking, ClearBox, PopFront, Matches, WellFormed, OnlyArrivals, Further;
      QueuedWellFormed(state, Replies);
      front := recvList[0];
      x := GotReply(cmd, since, |state.boxes.replies.fates|, front);
      FurtherNot(trace);
      FurtherOnce(trace, trace, Continue);
      StepScanning(state);
      Do(Continue);
      ghost var t := trace;
      Interfere();
      FurtherStill(old(trace), t, trace);
      FurtherOnce(old(trace), trace, Continue);
      StepReply(state);
      recvList := recvList[1..];
      Do(Continue);
    }

    /** One pass over the reply queue: look at the front, take it off, stop at a match, for as many
        frames as were queued when the pass began. */
    method ScanQueue(cmd: byte, ghost since: nat, ghost budget: nat) returns (found: Option<Frame>, ghost x: Result)
      requires Valid() && state.client == Waiting(cmd, since, budget) && budget > 0 && |recvList| > 0
      modifies this
      ensures Valid() && Further(old(trace), trace) && KeysAsBefore()
      ensures found.None? ==> state.client == Waiting(cmd, since, budget - 1) && state.results == old(state.results)
      ensures found.Some? ==>
        && state.client.Idle? && WellFormed(found.value) && Adds(x)
        && x.GotReply? && x.cmd == cmd && x.since == since && x.buf == found.value
        && |state.boxes.replies.fates| == x.i + 1
    {
      hide Run, Inv, Next, ClearTaking, ClearBox, PopFront, Matches, WellFormed, OnlyArrivals, Further;
      x := Nothing(Replies);
      var left: nat := |recvList|;
      FurtherNot(trace);
      FurtherOnce(trace, trace, Continue);
      StepWaiting(state);
      Do(Continue);
      while left > 0
        invariant Valid() && state.client == Scanning(cmd, since, budget, left) && left <= |recvList|
        invariant state.results == old(state.results) && Further(old(trace), trace) && KeysAsBefore()
      {
        var front;
        ghost var t := trace;
        front, x := TakeFront(cmd, since, budget, left);
        FurtherStill(old(trace), t, trace);
        if Matches(cmd, front) {
          return Some(front), x;
        }
        left := left - 1;
      }
      FurtherOnce(old(trace), trace, Continue);
      StepScanning(state);
      Do(Continue);
      found := None;
    }

    /** Wait for the reply to a command, dropping what is in front of it and nothing behind it. The trace
        shows one call, for this command, which gives up only after 2000 attempts. */
    method RecvFromList(cmd: byte) returns (ret: int, buf: Option<seq<byte>>, ghost x: Result)
      requires Valid() && state.client.Idle?
      modifies this
      ensures Valid() && state.client.Idle? && Further(old(trace) + [AwaitReply(cmd)], trace) && KeysAsBefore()
      ensures Adds(x) && Waited(x, cmd, ret)
      ensures x.NoReply? ==>
        && x.since == |old(state.boxes.replies.fates)| && buf == None
        && Continues(trace[|old(trace)|..]) > 2000
      ensures x.GotReply? ==>
        && x.since == |old(state.boxes.replies.fates)|
        && buf == if |x.buf| >= 8 && ret == 0 then Some(x.buf[8..]) else None
    {
      hide Run, Inv, Next, ClearTaking, ClearBox, PopFront, ReplyOf, Matches, WellFormed, OnlyArrivals, Further, SignedWord, BytesWord;
      ghost var since := |state.boxes.replies.fates|;
      StepAwait(state, cmd);
      Do(AwaitReply(cmd));
      ghost var begun, first := trace, state;
      FurtherNot(begun);
      ret, buf := SDK_TIMEOUT, None;
      var timeout := RECV_TIMEOUT;
      while timeout > 0
        invariant Valid() && state.client == Waiting(cmd, since, timeout) && state.results == old(state.results)
        invariant Further(begun, trace) && KeysAsBefore()
      {
        ghost var t := trace;
        if |recvList| > 0 {
          var found;
          found, x := ScanQueue(cmd, since, timeout);
          FurtherStill(begun, t, trace);
          if found.Some? {
            ReplyOfIs(found.value);
            var reply := ReplyOf(found.value);
            ret, buf := reply.0, reply.1;
            return;
          }
        } else {
          StepWaiting(state);
          FurtherOnce(begun, trace, Continue);
          Do(Continue);
        }
        t := trace;
        Interfere();
        FurtherStill(begun, t, trace);
        timeout := timeout - 1;
      }
      ghost var upto := |state.boxes.replies.fates|;
      StepWaiting(state);
      FurtherOnce(begun, trace, Continue);
      Do(Continue);
      x := NoReply(cmd, since, upto);
      AttemptsMade(begun, first, trace, x);
      FurtherPrefix(begun, trace);
      AttemptsSince(old(trace), begun, trace);
    }
  }

  /** A call that has given up has made all its attempts. */
  lemma AttemptsMade(t0: seq<Action>, s0: State, t1: seq<Action>, x: Result)
    requires s0 == Run(Init(), t0) && Further(t0, t1) && Attempting(s0.client) && (x.NoReply? || x.Nothing?)
    requires Run(Init(), t1).client.Idle? && Run(Init(), t1).results == s0.results + [x]
    ensures Continues(t1[|t0|..]) > s0.client.budget
  {
    hide Run, Continues, Interleaving;
    RunConcat(Init(), t0, t1[|t0|..]);
    assert t0 + t1[|t0|..] == t1;
    GivesUpLate(s0, t1[|t0|..], x);
  }

  lemma AttemptsSince(t0: seq<Action>, t1: seq<Action>, t2: seq<Action>)
    requires t0 <= t1 <= t2
    ensures Continues(t2[|t0|..]) >= Continues(t2[|t1|..])
  {
    assert t2[|t0|..] == t1[|t0|..] + t2[|t1|..];
    ContinuesConcat(t1[|t0|..], t2[|t1|..]);
  }

  lemma {:induction false} ContinuesConcat(a: seq<Action>, b: seq<Action>)
    ensures Continues(a + b) == Continues(a) + Continues(b)
    decreases |b|
  {
    if |b| == 0 {
      assert a + b == a;
    } else {
      var m := |b| - 1;
      assert (a + b)[..|a + b| - 1] == a + b[..m] && (a + b)[|a + b| - 1] == b[m];
      ContinuesConcat(a, b[..m]);
    }
  }

  /** The check byte of the request to clear the keyboard cache. */
  lemma ClearCacheCheck()
    ensures XorByte(0x33, 0x2F) == 0x1C
  {
    assert Xor(0, 0) == 0;
    assert Xor(1, 1) == 0;
    assert Xor(3, 2) == 1;
    assert Xor(6, 5) == 3;
    assert Xor(12, 11) == 7;
    assert Xor(25, 23) == 14;
    assert Xor(51, 47) == 28;
  }

  lemma StatusIs(f: Frame)
    ensures StatusOf(f).Some? <==> |f| >= 8
    ensures |f| >= 8 ==> StatusOf(f).value == SignedWord(BytesWord(f[4..8]))
  {
    if |f| >= 8 {
      StatusWordExact(f[4..8]);
      hide StatusWord, SignedWord, BytesWord;
    }
  }

  // ---------------------------------------------------------------- the steps of the calls, one by one

  lemma StepToNewest(s: State, t: Target)
    requires s.client.Idle? && (t.Touch? || t.Search?)
    ensures var b := s.boxes.Of(t); var n := |b.queue|;
            Next(s, GetNewest(t)) == if n == 0 then s.(results := s.results + [Nothing(t)])
                                     else s.(client := HoldingNewest(t, |b.fates|, |b.routed|, b.queue[n - 1]))
  {
  }

  lemma StepFromNewest(s: State)
    requires s.client.HoldingNewest?
    ensures var HoldingNewest(t, since, seen, buf) := s.client;
            Next(s, Continue) == With(s, t, ClearTaking(s.boxes.Of(t), seen))
              .(client := Idle, results := s.results + [GotNewest(t, since, seen, buf)])
    ensures ClearTaking(s.boxes.Of(s.client.t), s.client.seen).queue == []
  {
  }

  lemma StepPolling(s: State)
    requires s.client.PollingIc?
    ensures var b := s.boxes.icStatus; var n := |b.queue|; var PollingIc(since, budget) := s.client;
            Next(s, Continue) ==
              if budget == 0 then s.(client := Idle, results := s.results + [Nothing(IcStatus)])
              else if n > 0 then s.(client := HoldingNewest(IcStatus, since, |b.routed|, b.queue[n - 1]))
              else s.(client := PollingIc(since, budget - 1))
  {
  }

  lemma StepClearKeys(s: State)
    requires Inv(s) && s.client.Idle?
    ensures var s' := Next(s, Clear(Keys));
            && s'.client.Idle? && s'.keysTaken == [] && s'.cleared == |s.boxes.keys.routed| && s'.results == s.results
            && s'.boxes == s.boxes.(keys := ClearBox(s.boxes.keys))
    ensures ClearBox(s.boxes.keys).queue == [] && ClearBox(s.boxes.keys).routed == s.boxes.keys.routed
  {
    assert BoxOk(s.boxes.Of(Keys), Keys);
    ClearKeeps(s.boxes.keys, Keys);
  }

  lemma StepClearIc(s: State)
    requires Inv(s) && s.client.Idle?
    ensures var b := s.boxes.icStatus; var s' := Next(s, Clear(IcStatus));
            && s' == With(s, IcStatus, ClearBox(b)) && |s'.boxes.icStatus.fates| == |b.routed|
    ensures ClearBox(s.boxes.icStatus).queue == []
  {
    assert BoxOk(s.boxes.Of(IcStatus), IcStatus);
    ClearKeeps(s.boxes.icStatus, IcStatus);
  }

  lemma StepPoll(s: State)
    requires s.client.Idle?
    ensures Next(s, PollIc) == s.(client := PollingIc(|s.boxes.icStatus.fates|, RECV_TIMEOUT))
  {
  }

  lemma QueuedWellFormed(s: State, t: Target)
    requires Inv(s)
    ensures AllFrames(s.boxes.Of(t).queue)
  {
    assert BoxOk(s.boxes.Of(t), t);
  }

  lemma NewestIsAfter(s: State)
    requires Inv(s) && s.client.PollingIc? && |s.boxes.icStatus.queue| > 0
    ensures |s.boxes.icStatus.routed| > s.client.since
  {
    assert BoxOk(s.boxes.Of(IcStatus), IcStatus);
  }

  lemma ArrivalGrows(s: State, f: Frame)
    requires WellFormed(f)
    ensures var s' := Next(s, Arrive(f));
            && s'.client == s.client && s'.results == s.results
            && s'.keysTaken == s.keysTaken && s'.cleared == s.cleared
            && forall t: Target :: Grown(s.boxes.Of(t), s'.boxes.Of(t))
  {
    OfWith(s.boxes, TargetOf(f), Push(s.boxes.Of(TargetOf(f)), f));
  }
}
