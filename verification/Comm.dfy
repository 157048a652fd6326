/** The link: sending a frame and the receive thread, over the byte transport. */
module Comm {
  import opened Bytes
  import opened Framing
  import opened Receiver
  import opened Transport

  /** What a caller of the sender sees: its return code, or an exception. */
  datatype SendResult = Returned(code: int) | Escaped

  datatype LoopEnd = Stopped | Overrun | Exception

  /** How a read is logged: the number of bytes it yielded, FULL_READ if that is all it asked for. */
  function Logged(n: nat, size: nat): nat
  {
    if n == size then FULL_READ else n
  }

  function Prepend(ds: seq<Delivery>, r: Outcome): Outcome
  {
    r.(deliveries := ds + r.deliveries)
  }

  /** Reads that went as logged take the loop from p to q and deliver ds on the way,
      whatever reads come later; after an overrun there is nothing later. */
  ghost predicate LeadsTo(s: seq<byte>, p: nat, log: seq<nat>, ds: seq<Delivery>, q: nat, overrun: bool)
    requires p <= |s| && q <= |s|
  {
    forall later: seq<nat> ::
      Receive(s, p, log + later) == if overrun then Outcome(q, ds, true) else Prepend(ds, Receive(s, q, later))
  }

  /** The same for a single pass. */
  ghost predicate PassLeadsTo(s: seq<byte>, p: nat, log: seq<nat>, d: Option<Delivery>, q: nat, overrun: bool)
    requires p < |s|
  {
    forall later: seq<nat> :: ReceivePass(s, p, log + later) == Pass(q, later, d, overrun)
  }

  class SmartwinComm {
    const serial: SerialImpl
    /** The memory from the scratch buffer on: the buffer itself is the first BUFFER_SIZE bytes, and
        a pass that has written behind them ends in Overrun. */
    const tBuffer: array<byte>
    /** What the callback has been given. */
    var delivered: seq<Frame>

    ghost predicate Valid()
    {
      tBuffer.Length == FULL_READ
    }

    /** The longest countdown of a read fits the thirty-two bits of a timer. */
    predicate RoomForTimeouts()
      reads serial`timeout
    {
      serial.timeout.readConstant as int + serial.timeout.readMultiplier as int * 65536 < 0x1_0000_0000
    }

    constructor (serial: SerialImpl)
      ensures Valid() && this.serial == serial && delivered == [] && fresh(tBuffer)
    {
      this.serial, delivered := serial, [];
      tBuffer := new byte[FULL_READ];
    }

    /** The countdown of a write of n bytes has run down. */
    twostate predicate WriteRanDown(n: nat)
      reads serial`timeout, serial.line`sys
    {
      serial.line.sys.clock + 1_000_000 > old(serial.line.sys.clock)
        + (serial.timeout.writeConstant as int + serial.timeout.writeMultiplier as int * n) % 0x1_0000_0000 * 1_000_000
    }

    /** Send one body. sent is how much of its wire frame the line took: all of it exactly
        when the code is zero. It falls short only if the countdown of the write has run down,
        or the system failed and an exception escapes. */
    method SendCmd(buf: seq<byte>) returns (r: SendResult, ghost sent: nat)
      modifies serial.line`tx, serial.line`sys
      ensures r == Returned(-110) <==> !serial.isOpen
      ensures sent <= |Wire(buf)| && serial.line.tx == old(serial.line.tx) + Wire(buf)[..sent]
      ensures r == Returned(0) <==> sent == |Wire(buf)|
      ensures r.Returned? && serial.isOpen ==> r.code == Code(Segment(buf, sent))
      ensures r in {Returned(-110), Returned(-1), Returned(0), Escaped}
      ensures serial.line.sys.clock >= old(serial.line.sys.clock) && serial.line.sys.faults >= old(serial.line.sys.faults)
      ensures r == Escaped ==> serial.line.sys.faults > old(serial.line.sys.faults)
      ensures r == Returned(-1) ==> WriteRanDown(|buf| + 3)
    {
      if !serial.isOpen {
        sent := 0;
        assert Wire(buf)[..0] == [];
        return Returned(-110), sent;
      }
      var sb: seq<byte> := [];
      sb := sb + [STX];
      var i := 0;
      while i < |buf|
        invariant 0 <= i <= |buf|
        invariant sb == [STX] + buf[..i]
      {
        sb := sb + [buf[i]];
        i := i + 1;
      }
      assert buf[..i] == buf;
      sb := sb + [ETX];
      var x := XorCheck(buf);
      sb := sb + [x];
      assert sb == Wire(buf);
      var w := serial.Write(sb);
      sent := w.Count();
      if !w.Done? {
        r := Escaped;
      } else if w.n != |sb| {
        r := Returned(-1);
      } else {
        r := Returned(0);
      }
    }

    /** One read into the scratch buffer, from position q of the stream s. */
    method Fetch(size: nat, ghost s: seq<byte>, ghost q: nat) returns (n: nat, threw: bool, ghost g: nat)
      requires Valid() && serial.isOpen && size <= FULL_READ
      requires q <= |s| && serial.line.rx == s[q..]
      modifies serial.line`rx, serial.line`sys, tBuffer
      ensures n <= size && q + n <= |s| && g == Logged(n, size)
      ensures tBuffer[..n] == s[q..q + n] && serial.line.rx == s[q + n..]
      ensures serial.line.sys.clock >= old(serial.line.sys.clock) && serial.line.sys.faults >= old(serial.line.sys.faults)
      ensures threw ==> serial.line.sys.faults > old(serial.line.sys.faults)
      ensures !threw && n < size && RoomForTimeouts() ==>
        serial.line.sys.clock > old(serial.line.sys.clock) + (serial.timeout.readConstant as int - 1) * 1_000_000
    {
      hide Overlay;
      ghost var before := tBuffer[..];
      var r := serial.Read(tBuffer, 0, size);
      n, threw := r.Count(), !r.Done?;
      g := Logged(n, size);
      OverlayFront(before, s[q..][..n]);
      assert s[q..][..n] == s[q..q + n] && s[q..][n..] == s[q + n..];
      if RoomForTimeouts() {
        CountdownAtLeast(serial.timeout.readConstant, serial.timeout.readMultiplier, size);
      }
    }

    /** One pass of the receive thread, from position p of the stream s, with input available. */
    method ReceiveOnce(ghost s: seq<byte>, ghost p: nat)
      returns (end: LoopEnd, ghost log: seq<nat>, ghost d: Option<Delivery>, ghost q: nat, ghost short: bool)
      requires Valid() && serial.isOpen
      requires p < |s| && serial.line.rx == s[p..]
      modifies serial.line`rx, serial.line`sys, tBuffer, this`delivered
      ensures p <= q <= |s| && serial.line.rx == s[q..]
      ensures !end.Exception? ==> PassLeadsTo(s, p, log, d, q, end == Overrun)
      ensures delivered == old(delivered) + Frames(AsSeq(d))
      ensures end.Exception? ==> d == None && serial.line.sys.faults > old(serial.line.sys.faults)
      ensures serial.line.sys.clock >= old(serial.line.sys.clock) && serial.line.sys.faults >= old(serial.line.sys.faults)
      ensures !end.Exception? ==>
        (short || q > p)
        && (!short && (end != Overrun || serial.line.sys.faults == old(serial.line.sys.faults)) ==> Ample(log))
      ensures short && RoomForTimeouts() ==>
        serial.line.sys.clock > old(serial.line.sys.clock) + (serial.timeout.readConstant as int - 1) * 1_000_000
    {
      hide ReceivePass, PassLeadsTo, XorAll, Ample;
      d, short := None, false;
      WholePass(0);
      assert Frames(AsSeq(d)) == [];
      var num, threw, g1 := Fetch(1, s, p);
      log, q := [g1], p + num;
      if threw { return Exception, log, d, q, false; }
      if num == 0 || tBuffer[0] != STX {
        assert num == 1 ==> tBuffer[0] == s[p];
        StopsAtStart(s, p, num);
        return Stopped, log, d, q, num < 1;
      }
      assert s[p] == tBuffer[..1][0] == STX;

      ghost var g2;
      num, threw, g2 := Fetch(4, s, p + 1);
      log, q := [g1, g2], p + 1 + num;
      if threw { return Exception, log, d, q, false; }
      if num != 4 {
        StopsAtHeader(s, p, num);
        return Stopped, log, d, q, true;
      }
      var recvBuf := [tBuffer[0], tBuffer[1], tBuffer[2], tBuffer[3]];
      assert recvBuf == tBuffer[..4] == s[p + 1..p + 5];
      var ln := tBuffer[2] as nat * 256 + tBuffer[3] as nat;
      end, log, d, q, short := ReceiveRest(recvBuf, ln, s, p);
    }

    /** The second half of the pass: payload and trailer, once a header has been read into recvBuf. */
    method ReceiveRest(recvBuf: seq<byte>, ln: nat, ghost s: seq<byte>, ghost p: nat)
      returns (end: LoopEnd, ghost log: seq<nat>, ghost d: Option<Delivery>, ghost q: nat, ghost short: bool)
      requires Valid() && serial.isOpen
      requires p + 5 <= |s| && s[p] == STX && serial.line.rx == s[p + 5..]
      requires recvBuf == s[p + 1..p + 5] && ln == PayloadLength(recvBuf)
      modifies serial.line`rx, serial.line`sys, tBuffer, this`delivered
      ensures p <= q <= |s| && serial.line.rx == s[q..]
      ensures !end.Exception? ==> PassLeadsTo(s, p, log, d, q, end == Overrun)
      ensures delivered == old(delivered) + Frames(AsSeq(d))
      ensures end.Exception? ==> d == None && serial.line.sys.faults > old(serial.line.sys.faults)
      ensures serial.line.sys.clock >= old(serial.line.sys.clock) && serial.line.sys.faults >= old(serial.line.sys.faults)
      ensures !end.Exception? ==>
        (short || q > p)
        && (!short && (end != Overrun || serial.line.sys.faults == old(serial.line.sys.faults)) ==> Ample(log))
      ensures short && RoomForTimeouts() ==>
        serial.line.sys.clock > old(serial.line.sys.clock) + (serial.timeout.readConstant as int - 1) * 1_000_000
    {
      hide ReceivePass, PassLeadsTo, XorAll, Ample;
      d, short := None, false;
      WholePass(ln);
      assert Frames(AsSeq(d)) == [];
      var num, threw, g3 := Fetch(ln, s, p + 5);
      log, q := [Logged(1, 1), Logged(4, 4), g3], p + 5 + num;
      if num > BUFFER_SIZE {
        OverrunsAtPayload(s, p, num);
        return Overrun, log, d, q, num < ln && !threw;
      }
      if threw { return Exception, log, d, q, false; }
      if num != ln {
        StopsAtPayload(s, p, num);
        return Stopped, log, d, q, true;
      }
      var body := recvBuf + tBuffer[..num];
      assert body == s[p + 1..p + 5 + ln];

      ghost var g4;
      num, threw, g4 := Fetch(2, s, p + 5 + ln);
      log, q := [Logged(1, 1), Logged(4, 4), g3, g4], p + 5 + ln + num;
      if threw { return Exception, log, d, q, false; }
      if num == 2 {
        var etx, check := tBuffer[0], tBuffer[1];
        assert etx == s[q - 2..q][0] && check == s[q - 2..q][1] by {
          assert tBuffer[..2] == s[q - 2..q];
        }
        var x := XorCheck(body);
        if etx == ETX && check == x {
          d := Some(Delivery(p, q, body));
          assert Frames(AsSeq(d)) == [body];
          delivered := delivered + [body];
        }
      }
      ReachesTrailer(s, p, ln, num, d);
      return Stopped, log, d, q, num < 2;
    }

    /** The receive thread, for as many turns as it is kept running.

        q is where the last complete pass ended; lost counts the bytes that a pass read which an
        exception then ended; shorts counts the passes that a timeout cut short, each of which used
        up a whole countdown. On an honest line every turn makes progress, unless it is one of those,
        until the stream is used up; an exception takes a failure of the system. */
    method CmdRecvThread(turns: nat, ghost s: seq<byte>, ghost p: nat)
      returns (end: LoopEnd, ghost log: seq<nat>, ghost ds: seq<Delivery>, ghost q: nat, ghost lost: nat, ghost shorts: nat)
      requires Valid() && serial.isOpen
      requires p <= |s| && serial.line.rx == s[p..]
      modifies serial.line`rx, serial.line`sys, tBuffer, this`delivered
      ensures p <= q && q + lost <= |s| && serial.line.rx == s[q + lost..]
      ensures lost > 0 ==> end.Exception?
      ensures LeadsTo(s, p, log, ds, q, end == Overrun)
      ensures delivered == old(delivered) + Frames(ds)
      ensures Sound(s, ds, p, q)
      ensures end.Exception? ==> serial.line.sys.faults > old(serial.line.sys.faults)
      ensures shorts == 0 && (end != Overrun || serial.line.sys.faults == old(serial.line.sys.faults)) ==> Ample(log)
      ensures RoomForTimeouts() ==>
        serial.line.sys.clock >= old(serial.line.sys.clock) + shorts * ((serial.timeout.readConstant as int - 1) * 1_000_000)
      ensures end == Stopped && serial.line.honest ==> q == |s| || q - p + shorts >= turns
    {
      hide Receive, ReceivePass, LeadsTo, PassLeadsTo, Sound, Frames, Ample;
      log, ds, q, lost, shorts := [], [], p, 0, 0;
      LeadsNowhere(s, p);
      NothingCut(log);
      ghost var start, faults := serial.line.sys.clock, serial.line.sys.faults;
      ghost var countdown := (serial.timeout.readConstant as int - 1) * 1_000_000;
      var turn := 0;
      while turn < turns
        invariant turn <= turns
        invariant p <= q <= |s| && serial.line.rx == s[q..] && lost == 0
        invariant LeadsTo(s, p, log, ds, q, false)
        invariant delivered == old(delivered) + Frames(ds)
        invariant Sound(s, ds, p, q)
        invariant shorts == 0 ==> Ample(log)
        invariant serial.line.sys.faults >= faults
        invariant RoomForTimeouts() ==> serial.line.sys.clock >= start + Times(shorts, countdown)
        invariant serial.line.honest ==> q == |s| || q - p + shorts >= turn
      {
        turn := turn + 1;
        var num := serial.Available();
        if num.Some? && num.value > 0 {
          ghost var log1, d, q1, short;
          end, log1, d, q1, short := ReceiveOnce(s, q);
          FramesAppend(old(delivered), ds, AsSeq(d));
          if end == Exception {
            lost := q1 - q;
            assert ds + AsSeq(d) == ds;
            TimesIs(shorts, countdown);
            return;
          }
          PassExtends(s, p, log, ds, q, log1, d, q1, end == Overrun);
          CutAppend(log, log1);
          TimesNext(shorts, countdown);
          log, ds, q, shorts := log + log1, ds + AsSeq(d), q1, shorts + if short then 1 else 0;
          if end == Overrun {
            TimesIs(shorts, countdown);
            return;
          }
        }
      }
      TimesIs(shorts, countdown);
      end := Stopped;
    }
  }

  /** n times a duration. */
  function Times(n: nat, ns: int): int
  {
    n * ns
  }

  lemma TimesIs(n: nat, ns: int)
    ensures Times(n, ns) == n * ns
  {
  }

  lemma TimesNext(n: nat, ns: int)
    ensures Times(n + 1, ns) == Times(n, ns) + ns
  {
  }

  lemma NothingCut(log: seq<nat>)
    requires log == []
    ensures Ample(log) && Times(0, 0) == 0 && forall ns :: Times(0, ns) == 0
  {
  }

  lemma WholePass(ln: nat)
    ensures Ample([Logged(1, 1)]) && Ample([Logged(1, 1), Logged(4, 4), Logged(ln, ln)]) && Ample([Logged(1, 1), Logged(4, 4), Logged(ln, ln), Logged(2, 2)])
  {
  }

  lemma CutAppend(log: seq<nat>, log1: seq<nat>)
    ensures Ample(log) && Ample(log1) ==> Ample(log + log1)
  {
  }

  /** A countdown that is not cut to thirty-two bits lasts at least as long as its constant part. */
  lemma CountdownAtLeast(constant: uint32, multiplier: uint32, size: nat)
    requires size <= 65536 && constant as int + multiplier as int * 65536 < 0x1_0000_0000
    ensures (constant as int + multiplier as int * size) % 0x1_0000_0000 >= constant as int
  {
    assert multiplier as int * size <= multiplier as int * 65536;
  }

  // ---------------------------------------------------------------- the pass, read by read

  lemma OverlayFront(b: seq<byte>, data: seq<byte>)
    requires |data| <= |b|
    ensures Overlay(b, 0, data)[..|data|] == data
  {
  }

  lemma YieldLogged(s: seq<byte>, p: nat, size: nat, n: nat, later: seq<nat>)
    requires p <= |s| && n <= size <= FULL_READ && p + n <= |s|
    ensures Yield(s, p, size, [Logged(n, size)] + later) == n
    ensures Next([Logged(n, size)] + later) == later
  {
  }

  lemma StopsAtStart(s: seq<byte>, p: nat, n: nat)
    requires p < |s| && n <= 1
    requires n == 1 ==> s[p] != STX
    ensures PassLeadsTo(s, p, [Logged(n, 1)], None, p + n, false)
  {
    forall later: seq<nat>
      ensures ReceivePass(s, p, [Logged(n, 1)] + later) == Pass(p + n, later, None, false)
    {
      YieldLogged(s, p, 1, n, later);
    }
  }

  /** After a start byte the pass is what the header read makes of it. */
  lemma Starts(s: seq<byte>, p: nat, log: seq<nat>, later: seq<nat>)
    requires p < |s| && s[p] == STX
    ensures ReceivePass(s, p, [Logged(1, 1)] + log + later) == HeaderRead(s, p, log + later)
  {
    assert [Logged(1, 1)] + log + later == [Logged(1, 1)] + (log + later);
    YieldLogged(s, p, 1, 1, log + later);
  }

  lemma StopsAtHeader(s: seq<byte>, p: nat, n: nat)
    requires p + 1 + n <= |s| && s[p] == STX && n < 4
    ensures PassLeadsTo(s, p, [Logged(1, 1), Logged(n, 4)], None, p + 1 + n, false)
  {
    forall later: seq<nat>
      ensures ReceivePass(s, p, [Logged(1, 1), Logged(n, 4)] + later) == Pass(p + 1 + n, later, None, false)
    {
      assert [Logged(1, 1), Logged(n, 4)] == [Logged(1, 1)] + [Logged(n, 4)];
      Starts(s, p, [Logged(n, 4)], later);
      YieldLogged(s, p + 1, 4, n, later);
    }
  }

  /** After a header the pass is what the payload read makes of it. */
  lemma PassesHeader(s: seq<byte>, p: nat, ln: nat, log: seq<nat>, later: seq<nat>)
    requires p + 5 <= |s| && s[p] == STX && ln == PayloadLength(s[p + 1..p + 5])
    ensures ReceivePass(s, p, [Logged(1, 1), Logged(4, 4)] + log + later) == PayloadRead(s, p, ln, log + later)
  {
    hide PayloadRead;
    var g := [Logged(4, 4)];
    assert [Logged(1, 1), Logged(4, 4)] + log + later == [Logged(1, 1)] + (g + log) + later;
    Starts(s, p, g + log, later);
    assert g + log + later == g + (log + later);
    YieldLogged(s, p + 1, 4, 4, log + later);
  }

  lemma StopsAtPayload(s: seq<byte>, p: nat, n: nat)
    requires p + 5 + n <= |s| && s[p] == STX
    requires n < PayloadLength(s[p + 1..p + 5]) && n <= BUFFER_SIZE
    ensures PassLeadsTo(s, p, [Logged(1, 1), Logged(4, 4), Logged(n, PayloadLength(s[p + 1..p + 5]))], None, p + 5 + n, false)
  {
    hide ReceivePass, HeaderRead, TrailerRead;
    var ln := PayloadLength(s[p + 1..p + 5]);
    var g := Logged(n, ln);
    forall later: seq<nat>
      ensures ReceivePass(s, p, [Logged(1, 1), Logged(4, 4), g] + later) == Pass(p + 5 + n, later, None, false)
    {
      assert [Logged(1, 1), Logged(4, 4), g] == [Logged(1, 1), Logged(4, 4)] + [g];
      PassesHeader(s, p, ln, [g], later);
      YieldLogged(s, p + 5, ln, n, later);
    }
  }

  lemma OverrunsAtPayload(s: seq<byte>, p: nat, n: nat)
    requires p + 5 + n <= |s| && s[p] == STX
    requires BUFFER_SIZE < n <= PayloadLength(s[p + 1..p + 5])
    ensures PassLeadsTo(s, p, [Logged(1, 1), Logged(4, 4), Logged(n, PayloadLength(s[p + 1..p + 5]))], None, p + 5 + n, true)
  {
    hide ReceivePass, HeaderRead, TrailerRead;
    var ln := PayloadLength(s[p + 1..p + 5]);
    var g := Logged(n, ln);
    forall later: seq<nat>
      ensures ReceivePass(s, p, [Logged(1, 1), Logged(4, 4), g] + later) == Pass(p + 5 + n, later, None, true)
    {
      assert [Logged(1, 1), Logged(4, 4), g] == [Logged(1, 1), Logged(4, 4)] + [g];
      PassesHeader(s, p, ln, [g], later);
      YieldLogged(s, p + 5, ln, n, later);
    }
  }

  lemma ReachesTrailer(s: seq<byte>, p: nat, ln: nat, n: nat, d: Option<Delivery>)
    requires n <= 2 && p + 5 + ln + n <= |s| && s[p] == STX
    requires ln == PayloadLength(s[p + 1..p + 5]) <= BUFFER_SIZE
    requires var q := p + 5 + ln; var body := s[p + 1..q];
             d == if n == 2 && s[q] == ETX && s[q + 1] == XorAll(body) then Some(Delivery(p, q + 2, body)) else None
    ensures PassLeadsTo(s, p, [Logged(1, 1), Logged(4, 4), Logged(ln, ln), Logged(n, 2)], d, p + 5 + ln + n, false)
  {
    hide ReceivePass, XorAll, PayloadRead;
    var g, h := Logged(ln, ln), Logged(n, 2);
    forall later: seq<nat>
      ensures ReceivePass(s, p, [Logged(1, 1), Logged(4, 4), g, h] + later) == Pass(p + 5 + ln + n, later, d, false)
    {
      assert [Logged(1, 1), Logged(4, 4), g, h] == [Logged(1, 1), Logged(4, 4)] + [g, h];
      PassesHeader(s, p, ln, [g, h], later);
      TrailerAfterPayload(s, p, ln, n, d, later);
    }
  }

  lemma TrailerAfterPayload(s: seq<byte>, p: nat, ln: nat, n: nat, d: Option<Delivery>, later: seq<nat>)
    requires n <= 2 && p + 5 + ln + n <= |s| && ln <= BUFFER_SIZE
    requires var q := p + 5 + ln; var body := s[p + 1..q];
             d == if n == 2 && s[q] == ETX && s[q + 1] == XorAll(body) then Some(Delivery(p, q + 2, body)) else None
    ensures PayloadRead(s, p, ln, [Logged(ln, ln), Logged(n, 2)] + later) == Pass(p + 5 + ln + n, later, d, false)
  {
    hide XorAll, Yield, Next;
    var g, h := Logged(ln, ln), Logged(n, 2);
    assert [g, h] + later == [g] + ([h] + later);
    YieldLogged(s, p + 5, ln, ln, [h] + later);
    YieldLogged(s, p + 5 + ln, 2, n, later);
  }

  // ---------------------------------------------------------------- the loop, pass by pass

  lemma LeadsNowhere(s: seq<byte>, p: nat)
    requires p <= |s|
    ensures LeadsTo(s, p, [], [], p, false) && Sound(s, [], p, p) && Frames([]) == []
  {
    hide Receive;
    forall later: seq<nat>
      ensures Receive(s, p, [] + later) == Prepend([], Receive(s, p, later))
    {
      assert [] + later == later;
    }
  }

  lemma FramesAppend(fs: seq<Frame>, ds: seq<Delivery>, es: seq<Delivery>)
    ensures fs + Frames(ds) + Frames(es) == fs + Frames(ds + es)
  {
  }

  function AsSeq(d: Option<Delivery>): seq<Delivery>
  {
    if d.Some? then [d.value] else []
  }

  lemma PassExtends(
    s: seq<byte>, p: nat, log: seq<nat>, ds: seq<Delivery>, q: nat, log1: seq<nat>, d: Option<Delivery>, q1: nat, overrun: bool)
    requires p <= q < |s| && q1 <= |s|
    requires LeadsTo(s, p, log, ds, q, false) && Sound(s, ds, p, q)
    requires PassLeadsTo(s, q, log1, d, q1, overrun)
    ensures LeadsTo(s, p, log + log1, ds + AsSeq(d), q1, overrun)
    ensures q <= q1 && Sound(s, ds + AsSeq(d), p, q1)
  {
    hide LeadsTo, PassLeadsTo, Sound, AsSeq;
    PassExtendsSound(s, p, ds, q, log1, d, q1, overrun);
    PassExtendsRun(s, p, log, ds, q, log1, d, q1, overrun);
  }

  lemma PassExtendsRun(
    s: seq<byte>, p: nat, log: seq<nat>, ds: seq<Delivery>, q: nat, log1: seq<nat>, d: Option<Delivery>, q1: nat, overrun: bool)
    requires p <= q < |s| && q1 <= |s|
    requires LeadsTo(s, p, log, ds, q, false) && PassLeadsTo(s, q, log1, d, q1, overrun)
    ensures LeadsTo(s, p, log + log1, ds + AsSeq(d), q1, overrun)
  {
    hide ReceivePass, Receive, AsSeq, Prepend;
    forall later: seq<nat>
      ensures Receive(s, p, log + log1 + later)
              == if overrun then Outcome(q1, ds + AsSeq(d), true) else Prepend(ds + AsSeq(d), Receive(s, q1, later))
    {
      assert log + log1 + later == log + (log1 + later);
      PassExtendsOnce(s, p, log + (log1 + later), ds, q, log1 + later, later, d, q1, overrun);
    }
  }

  /** The same for one continuation: gs after the first passes, gs1 after one more, later after that. */
  lemma PassExtendsOnce(
    s: seq<byte>, p: nat, gs: seq<nat>, ds: seq<Delivery>, q: nat, gs1: seq<nat>, later: seq<nat>,
    d: Option<Delivery>, q1: nat, overrun: bool)
    requires p <= q < |s| && q1 <= |s|
    requires Receive(s, p, gs) == Prepend(ds, Receive(s, q, gs1))
    requires ReceivePass(s, q, gs1) == Pass(q1, later, d, overrun)
    ensures Receive(s, p, gs)
            == if overrun then Outcome(q1, ds + AsSeq(d), true) else Prepend(ds + AsSeq(d), Receive(s, q1, later))
  {
    hide ReceivePass, Receive, AsSeq, Prepend;
    PassThenRest(s, q, gs1, later, d, q1, overrun);
    PrependTwice(ds, AsSeq(d), Receive(s, q1, later));
    PrependOutcome(ds, AsSeq(d), q1);
  }

  lemma PrependOutcome(ds: seq<Delivery>, es: seq<Delivery>, q: nat)
    ensures Prepend(ds, Outcome(q, es, true)) == Outcome(q, ds + es, true)
  {
  }

  lemma PrependTwice(ds: seq<Delivery>, es: seq<Delivery>, r: Outcome)
    ensures Prepend(ds, Prepend(es, r)) == Prepend(ds + es, r)
  {
    assert ds + (es + r.deliveries) == ds + es + r.deliveries;
  }

  /** A pass and what the loop makes of the rest. */
  lemma PassThenRest(
    s: seq<byte>, q: nat, gs: seq<nat>, rest: seq<nat>, d: Option<Delivery>, q1: nat, overrun: bool)
    requires q < |s| && q1 <= |s|
    requires ReceivePass(s, q, gs) == Pass(q1, rest, d, overrun)
    ensures Receive(s, q, gs) == if overrun then Outcome(q1, AsSeq(d), true) else Prepend(AsSeq(d), Receive(s, q1, rest))
  {
    OverrunDeliversNothing(s, q, gs);
    hide ReceivePass;
    var r := Receive(s, q1, rest);
    assert [] + r.deliveries == r.deliveries;
  }

  lemma PassExtendsSound(
    s: seq<byte>, p: nat, ds: seq<Delivery>, q: nat, log1: seq<nat>, d: Option<Delivery>, q1: nat, overrun: bool)
    requires p <= q < |s| && q1 <= |s|
    requires Sound(s, ds, p, q)
    requires PassLeadsTo(s, q, log1, d, q1, overrun)
    ensures q <= q1 && Sound(s, ds + AsSeq(d), p, q1)
  {
    hide Wire, PayloadLength;
    assert ReceivePass(s, q, log1 + []) == Pass(q1, [], d, overrun);
    PassSound(s, q, log1 + []);
    hide ReceivePass;
  }

  lemma OverrunDeliversNothing(s: seq<byte>, p: nat, gs: seq<nat>)
    requires p < |s|
    ensures ReceivePass(s, p, gs).overrun ==> ReceivePass(s, p, gs).delivered == None
  {
  }
}
