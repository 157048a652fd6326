/** The layers put together: requests from many threads to the far end of the line, and replies
    from the line to the call that waits for them. */
module Pipeline {
  import opened Bytes
  import opened Framing
  import opened Receiver
  import Bus
  import Comm
  import Devices
  import Fields
  import Mailboxes

  // ---------------------------------------------------------------- requests

  /** Exact delivery, end to end: when the receive thread has worked through a line that carries
      requests with noise around them, and none of its reads was cut short by a timeout, then,
      in whatever chunks the bytes came, it has delivered exactly the bodies, once each, in order. */
  lemma ThreadDelivers(noise: seq<seq<byte>>, rs: seq<Request>, log: seq<nat>, ds: seq<Delivery>)
    requires |noise| == |rs| + 1
    requires forall i :: 0 <= i < |noise| ==> STX !in noise[i]
    requires forall i :: 0 <= i < |rs| ==> |rs[i].params| <= BUFFER_SIZE
    requires var s := LineBytes(Interleave(noise, Bodies(rs)));
             Comm.LeadsTo(s, 0, log, ds, |s|, false)
    requires Ample(log)
    ensures Frames(ds) == Bodies(rs)
  {
    var s := LineBytes(Interleave(noise, Bodies(rs)));
    RequestsDelivered(noise, rs);
    AmpleGrants(s, 0, log);
    hide LineBytes, Interleave, Bodies;
    assert log + [] == log;
    assert Receive(s, 0, log + []) == Comm.Prepend(ds, Receive(s, |s|, []));
    assert Receive(s, |s|, []).deliveries == [];
    assert ds + [] == ds;
  }

  lemma RequestsDoNotOverrun(
    noise: seq<seq<byte>>, rs: seq<Request>, log: seq<nat>, ds: seq<Delivery>, q: nat, overrun: bool)
    requires |noise| == |rs| + 1
    requires forall i :: 0 <= i < |noise| ==> STX !in noise[i]
    requires forall i :: 0 <= i < |rs| ==> |rs[i].params| <= BUFFER_SIZE
    requires var s := LineBytes(Interleave(noise, Bodies(rs))); q <= |s| && Comm.LeadsTo(s, 0, log, ds, q, overrun)
    requires Ample(log)
    ensures !overrun
  {
    var s := LineBytes(Interleave(noise, Bodies(rs)));
    RequestsDelivered(noise, rs);
    AmpleGrants(s, 0, log);
    hide LineBytes, Interleave, Bodies, Receive, Comm.LeadsTo;
    if overrun {
      OverrunShows(s, log, ds, q);
    }
  }

  lemma OverrunShows(s: seq<byte>, log: seq<nat>, ds: seq<Delivery>, q: nat)
    requires q <= |s| && Comm.LeadsTo(s, 0, log, ds, q, true)
    ensures Receive(s, 0, log).overrun
  {
    hide Receive;
    assert log + [] == log;
    assert Receive(s, 0, log + []) == Outcome(q, ds, true);
  }

  /** What the receive thread does with a line that carries requests with noise around them: run for
      at least as many turns as there are bytes, on a line that answers honestly and on a system that
      does not fail, it uses up the line and gives the callback exactly the bodies, once each, in order,
      whatever chunks the bytes come in, unless some read used up its whole countdown. There is room for
      only so many of those in the time that the run has taken. */
  method ReceiveRequests(comm: Comm.SmartwinComm, turns: nat, ghost noise: seq<seq<byte>>, ghost rs: seq<Request>)
    returns (ghost shorts: nat)
    requires comm.Valid() && comm.serial.isOpen && comm.serial.line.honest && comm.RoomForTimeouts()
    requires |noise| == |rs| + 1
    requires forall i :: 0 <= i < |noise| ==> STX !in noise[i]
    requires forall i :: 0 <= i < |rs| ==> |rs[i].params| <= BUFFER_SIZE
    requires comm.serial.line.rx == LineBytes(Interleave(noise, Bodies(rs)))
    requires turns >= |comm.serial.line.rx|
    modifies comm.serial.line`rx, comm.serial.line`sys, comm.tBuffer, comm`delivered
    ensures comm.serial.line.sys.faults == old(comm.serial.line.sys.faults) && shorts == 0 ==>
      comm.delivered == old(comm.delivered) + Bodies(rs) && comm.serial.line.rx == []
    ensures comm.serial.line.sys.clock
            >= old(comm.serial.line.sys.clock) + shorts * ((comm.serial.timeout.readConstant as int - 1) * 1_000_000)
  {
    hide LineBytes, Interleave, Bodies, Receive, Ample, Sound, Comm.LeadsTo;
    ghost var s := comm.serial.line.rx;
    assert s[0..] == s;
    var end;
    ghost var log, ds, q, lost;
    end, log, ds, q, lost, shorts := comm.CmdRecvThread(turns, s, 0);
    if comm.serial.line.sys.faults == old(comm.serial.line.sys.faults) && shorts == 0 {
      RequestsDoNotOverrun(noise, rs, log, ds, q, end == Comm.Overrun);
      ThreadDelivers(noise, rs, log, ds);
    }
  }

  function IntactAll(bodies: seq<Frame>): seq<Item>
  {
    if |bodies| == 0 then [] else [Intact(bodies[0])] + IntactAll(bodies[1..])
  }

  /** Frames that follow each other without noise. */
  lemma {:induction false} WiresAreALine(bodies: seq<Frame>)
    requires forall i :: 0 <= i < |bodies| ==> Fits(bodies[i])
    ensures var xs := IntactAll(bodies);
            ItemsOk(xs) && LineBytes(xs) == Wires(bodies) && ExpectedAll(xs) == bodies
    decreases |bodies|
  {
    hide Fits, Wire, Intact, ItemOk, ItemBytes, Expected;
    var xs := IntactAll(bodies);
    if |bodies| > 0 {
      WiresAreALine(bodies[1..]);
      IntactItem(bodies[0]);
      assert xs[0] == Intact(bodies[0]) && xs[1..] == IntactAll(bodies[1..]);
      assert bodies == [bodies[0]] + bodies[1..];
    }
  }

  lemma IntactItem(body: Frame)
    requires Fits(body)
    ensures ItemOk(Intact(body)) && Expected(Intact(body)) == [body] && ItemBytes(Intact(body)) == Wire(body)
  {
    hide XorAll, WellFormed, PayloadLength;
  }

  /** Any number of threads sending at once: if every send reported success, a receiver at the
      other end of the line gets exactly the bodies, whole, in the order in which the sends ended. */
  lemma ConcurrentSendsDelivered(n: nat, acts: seq<Bus.Act>)
    requires Bus.AllSent(Bus.Run(Bus.Start(n), acts))
    requires var sent := Bus.BodiesOf(Bus.Run(Bus.Start(n), acts).ended);
             forall i :: 0 <= i < |sent| ==> Fits(sent[i])
    ensures var s := Bus.Run(Bus.Start(n), acts);
            Frames(Receive(s.wire, 0, []).deliveries) == Bus.BodiesOf(s.ended)
  {
    hide Bus.Run, Bus.AllSent, Receive, Wires, Bus.BodiesOf;
    Bus.SuccessfulSends(n, acts);
    var bodies := Bus.BodiesOf(Bus.Run(Bus.Start(n), acts).ended);
    WiresAreALine(bodies);
    LineReceived(IntactAll(bodies));
  }

  // ---------------------------------------------------------------- replies

  /** The body with which the device answers a command: a status word, then data. */
  function ReplyBody(cmd: byte, status: uint32, data: seq<byte>): Frame
    requires |data| < 65532
  {
    Devices.ResponseBody(cmd, Fields.WordBytes(status) + data)
  }

  lemma ReplyParts(cmd: byte, status: uint32, data: seq<byte>)
    requires |data| < 65532
    ensures var f := ReplyBody(cmd, status, data);
            && WellFormed(f) && PayloadLength(f) == 4 + |data| && f[0] == cmd && f[1] == RESPONSE
            && f[4..8] == Fields.WordBytes(status) && f[8..] == data
  {
    Devices.ResponseParts(cmd, Fields.WordBytes(status) + data);
    hide Devices.ResponseBody;
    var f := ReplyBody(cmd, status, data);
    assert f[4..8] == f[4..][..4] && f[8..] == f[4..][4..];
  }

  /** What the caller gets of a reply: the status as a signed number, and the data if it is zero. */
  lemma ReplyRead(cmd: byte, status: uint32, data: seq<byte>)
    requires |data| < 65532
    ensures var (ret, buf) := Devices.ReplyOf(ReplyBody(cmd, status, data));
            && ret == Devices.SignedWord(status) && (buf.Some? <==> status == 0)
            && (buf.Some? ==> buf.value == data)
  {
    ReplyParts(cmd, status, data);
    Fields.WordRoundTrip(status);
    Devices.StatusWordExact(Fields.WordBytes(status));
    hide ReplyBody, Fields.WordBytes, Fields.BytesWord, Devices.StatusWord, Devices.SignedWord;
    var f := ReplyBody(cmd, status, data);
    assert f[8..8 + (4 + |data|) - 4] == f[8..];
  }

  /** Commands whose answers go to an event queue. */
  predicate Diverted(cmd: byte)
  {
    cmd in {Mailboxes.KEYBOARD_INPUT, Mailboxes.SEARCH_CARD_START, Mailboxes.TOUCH_COORDINATE, Mailboxes.CHECK_IC_STATUS}
  }

  lemma ReplyDelivered(noise: seq<byte>, f: Frame)
    requires STX !in noise && Fits(f)
    ensures Frames(Receive(LineBytes([Noise(noise), Intact(f)]), 0, []).deliveries) == [f]
  {
    hide Receive, XorAll, WellFormed, PayloadLength;
    var xs := [Noise(noise), Intact(f)];
    LineReceived(xs);
    assert xs[1..] == [Intact(f)] && [Intact(f)][1..] == [];
    assert ExpectedAll([Intact(f)]) == [f] + ExpectedAll([]);
    assert ExpectedAll(xs) == [] + ExpectedAll([Intact(f)]);
  }

  /** A client that waits for a reply, has not been sent one yet, and has an attempt left. */
  predicate Attentive(s: Mailboxes.State)
  {
    var b, c := s.boxes.replies, s.client;
    && Mailboxes.Calling(c) && c.budget > (if c.Waiting? then 0 else 1)
    && |b.fates| <= |b.routed|
    && forall j :: |b.fates| <= j < |b.routed| ==> !Mailboxes.Hits(c.cmd, b.routed[j])
  }

  /** A frame that arrives for the reply queue of an attentive client is one that it is bound to come to. */
  lemma ArrivalOnTrack(s: Mailboxes.State, f: Frame)
    requires Mailboxes.Inv(s) && Attentive(s) && WellFormed(f) && Mailboxes.TargetOf(f) == Mailboxes.Replies
    ensures var s' := Mailboxes.Next(s, Mailboxes.Arrive(f)); var i := |s.boxes.replies.routed|;
            && Mailboxes.Inv(s') && s'.client == s.client && s'.results == s.results && Mailboxes.OnTrack(s', i)
            && Mailboxes.StepsTo(s', i) <= StepsForNext(s) && s'.boxes.replies.routed == s.boxes.replies.routed + [f]
  {
    Mailboxes.ArriveKeeps(s, f);
    Mailboxes.ArriveStep(s, f);
    Mailboxes.QueueFront(s);
    Mailboxes.HoldingFront(s);
    hide Mailboxes.Inv, Mailboxes.Next, Mailboxes.TargetOf, Mailboxes.Hits, WellFormed;
  }

  /** Client steps after which the next frame to arrive is sure to have been looked at. */
  function StepsForNext(s: Mailboxes.State): nat
  {
    2 * |s.boxes.replies.queue| + 4
  }

  /** The reply pipeline: a device answers cmd, with noise before the frame, while the client waits and
      other frames are queued, arrive, and are dropped around it. The receiver delivers the answer as
      one frame; when it has arrived and the client has gone on for StepsForNext steps, the wait has
      ended with that frame as its result exactly if the code is below 0x80 and the command is not
      one whose answers go to an event queue; and what the caller gets of it is the status, as a
      signed number, and the data exactly if the status is zero. */
  lemma ReplyPipeline(
    noise: seq<byte>, status: uint32, data: seq<byte>, s: Mailboxes.State, acts: seq<Mailboxes.Action>)
    requires STX !in noise && |data| <= BUFFER_SIZE - 4
    requires Mailboxes.Inv(s) && Attentive(s)
    requires Mailboxes.Interleaving(acts) && Mailboxes.Continues(acts) >= StepsForNext(s)
    ensures var cmd, since, i := s.client.cmd, s.client.since, |s.boxes.replies.routed|;
            var f := ReplyBody(cmd, status, data);
            var s' := Mailboxes.Run(Mailboxes.Next(s, Mailboxes.Arrive(f)), acts);
            && Frames(Receive(LineBytes([Noise(noise), Intact(f)]), 0, []).deliveries) == [f]
            && ((s'.client.Idle? && s'.results == s.results + [Mailboxes.GotReply(cmd, since, i, f)])
                <==> cmd < 128 && !Diverted(cmd))
            && Devices.ReplyOf(f) == (Devices.SignedWord(status), if status == 0 then Some(data) else None)
  {
    assert Mailboxes.Calling(s.client);
    hide Receive, LineBytes, Mailboxes.Run, Mailboxes.Inv, Mailboxes.Interleaving, Mailboxes.Continues, Mailboxes.Next, Attentive;
    hide Devices.ReplyOf, Devices.SignedWord, Diverted;
    var f := ReplyBody(s.client.cmd, status, data);
    ReplyParts(s.client.cmd, status, data);
    ReplyDelivered(noise, f);
    ReplyRead(s.client.cmd, status, data);
    ReplyReturned(s, f, acts);
  }

  lemma ReplyReturned(s: Mailboxes.State, f: Frame, acts: seq<Mailboxes.Action>)
    requires Mailboxes.Inv(s) && Attentive(s) && WellFormed(f) && f[0] == s.client.cmd && f[1] == RESPONSE
    requires Mailboxes.Interleaving(acts) && Mailboxes.Continues(acts) >= StepsForNext(s)
    ensures var cmd, since, i := s.client.cmd, s.client.since, |s.boxes.replies.routed|;
            var s' := Mailboxes.Run(Mailboxes.Next(s, Mailboxes.Arrive(f)), acts);
            (s'.client.Idle? && s'.results == s.results + [Mailboxes.GotReply(cmd, since, i, f)])
            <==> cmd < 128 && !Diverted(cmd)
  {
    hide Mailboxes.Run, Mailboxes.Inv, Mailboxes.Next, Mailboxes.Interleaving, Mailboxes.Continues;
    var s1 := Mailboxes.Next(s, Mailboxes.Arrive(f));
    var s' := Mailboxes.Run(s1, acts);
    var x := Mailboxes.GotReply(s.client.cmd, s.client.since, |s.boxes.replies.routed|, f);
    DivertedIff(f);
    if Diverted(f[0]) {
      Mailboxes.StepExtends(s, Mailboxes.Arrive(f));
      Mailboxes.RunKeeps(s1, acts);
      ResultsAreReplies(s', x);
    } else {
      ArrivalOnTrack(s, f);
      hide Mailboxes.OnTrack, Mailboxes.StepsTo, Attentive, StepsForNext;
      Mailboxes.AnswerReturnedIff(s1, acts, |s.boxes.replies.routed|);
    }
  }

  lemma DivertedIff(f: Frame)
    requires WellFormed(f) && f[1] == RESPONSE
    ensures Diverted(f[0]) <==> Mailboxes.TargetOf(f) != Mailboxes.Replies
  {
  }

  /** A call returns only frames that were routed to the reply queue. */
  lemma ResultsAreReplies(s: Mailboxes.State, x: Mailboxes.Result)
    requires Mailboxes.Inv(s) && x.GotReply? && WellFormed(x.buf) && Mailboxes.TargetOf(x.buf) != Mailboxes.Replies
    ensures x !in s.results
  {
    assert Mailboxes.BoxOk(s.boxes.Of(Mailboxes.Replies), Mailboxes.Replies);
    if k :| 0 <= k < |s.results| && s.results[k] == x {
      Mailboxes.ReplyIsFirst(s, k);
    }
  }

  // ---------------------------------------------------------------- events

  /** A key frame that arrives at an empty key queue, with any frames behind it, is what the next call
      returns: success and the key. */
  method KeyReturned(devices: Devices.SmartwinDevices, f: Frame) returns (ret: int, key: Option<byte>)
    requires devices.Valid() && devices.state.client.Idle? && devices.keyinputList == []
    requires WellFormed(f) && |f| >= 8 && f[0] == 0x32 && f[1] == 0x4F
    modifies devices
    ensures devices.Valid() && ret == 0 && key == Some(f[7])
  {
    hide Mailboxes.Run, Mailboxes.Inv, Mailboxes.Next;
    Devices.ArrivalGrows(devices.state, f);
    devices.Callback(f);
    assert f[..2] == [0x32, 0x4F] && devices.keyinputList == [f];
    ghost var queued := devices.state.boxes;
    devices.Interfere();
    assert queued.Of(Mailboxes.Keys).queue <= devices.state.boxes.Of(Mailboxes.Keys).queue;
    ret, key := devices.KeyboardGetInput();
  }
}
