/** The byte transport: reads and writes that make partial progress under a countdown.

    The operating system is a class whose methods may do anything their contracts
    allow: hand over between one and the requested number of bytes in line order,
    accept a prefix of what it is given, report a timeout, an interruption or a failure.
    Its clock ticks with every call. */
module Transport {
  import opened Bytes
  import opened Timer

  /** How a read or write ended. Threw stands for an exception after n bytes. */
  datatype IoResult = Done(n: nat) | Threw(n: nat) | NotOpen
  {
    function Count(): nat
    {
      if NotOpen? then 0 else n
    }
  }

  datatype Wait = Ready | TimedOut | Interrupted | WaitFailed

  datatype Timeout = Timeout(
    interByte: uint32, readConstant: uint32, readMultiplier: uint32, writeConstant: uint32, writeMultiplier: uint32)

  const MAX_UINT32: uint32 := 0xFFFF_FFFF

  /** Total time allowed for a transfer, cut to thirty-two bits by the timer's constructor. */
  function TotalMs(constant: uint32, multiplier: uint32, size: nat): uint32
  {
    ((constant as nat + multiplier as nat * size) % 0x1_0000_0000) as uint32
  }

  /** The wait for the next chunk: what is left in all, cut to thirty-two bits, or the inter-byte timeout. */
  function MinWait(remaining: int, interByte: uint32): uint32
    requires remaining > 0
  {
    var r := (remaining % 0x1_0000_0000) as uint32;
    if r < interByte then r else interByte
  }

  /** b with data laid over the bytes from position off on. */
  ghost function Overlay(b: seq<byte>, off: nat, data: seq<byte>): seq<byte>
    requires off + |data| <= |b|
  {
    b[..off] + data + b[off + |data|..]
  }

  lemma OverlayNothing(b: seq<byte>, off: nat)
    requires off <= |b|
    ensures Overlay(b, off, []) == b
  {
  }

  /** Two consecutive chunks of the line are one chunk. */
  lemma OverlayChunks(b: seq<byte>, off: nat, rx: seq<byte>, m: nat, n: nat)
    requires off + m + n <= |b| && m + n <= |rx|
    ensures Overlay(Overlay(b, off, rx[..m]), off + m, rx[m..][..n]) == Overlay(b, off, rx[..m + n])
    ensures rx[m..][n..] == rx[m + n..]
  {
    assert rx[m..][..n] == rx[m..m + n];
  }

  lemma TotalIs(constant: uint32, multiplier: uint32, size: nat)
    ensures TotalMs(constant, multiplier, size) as int == (constant as int + multiplier as int * size) % 0x1_0000_0000
  {
  }

  /** A wait for readiness: when it began, and how long it was told to last at most. */
  datatype WaitRecord = WaitRecord(start: int, limit: Timespec)

  /** The waits from number n on are told to last as long as the whole milliseconds that are left at their
      start of the time until the time until, or as the inter-byte timeout if that is less; so none
      is to last longer than that timeout, or to end later than at that time. */
  ghost predicate ReadWaits(waits: seq<WaitRecord>, n: nat, until: int, interByte: uint32)
  {
    n <= |waits| && forall k :: n <= k < |waits| ==>
      var limit := waits[k].limit.sec * 1_000_000_000 + waits[k].limit.nsec;
      var left := (until - waits[k].start) / 1_000_000;
      && left > 0 && limit == (if left < interByte as int then left else interByte as int) * 1_000_000
      && limit <= interByte as int * 1_000_000 && waits[k].start + limit <= until
  }

  lemma NoReadWaits(waits: seq<WaitRecord>, until: int, interByte: uint32)
    ensures ReadWaits(waits, |waits|, until, interByte)
  {
  }

  lemma OneMoreReadWait(waits: seq<WaitRecord>, n: nat, until: int, interByte: uint32, start: int)
    requires ReadWaits(waits, n, until, interByte) && Truncate(until - start, NS_PER_MS) > 0
    requires until <= start + 0xFFFF_FFFF * NS_PER_MS
    ensures ReadWaits(waits + [WaitRecord(start, TimespecFromMs(MinWait(Truncate(until - start, NS_PER_MS), interByte)))],
                      n, until, interByte)
  {
    var left := (until - start) / 1_000_000;
    assert left == Truncate(until - start, NS_PER_MS) < 0x1_0000_0000;
    FromMsExact(MinWait(left, interByte));
    assert left % 0x1_0000_0000 == left;
  }

  /** The waits from number n on are told to last as long as the whole milliseconds that are left at their
      start of the time until the time until. They are to end no later than that exactly if they begin
      no later than that. All but the first do. A first wait that begins later is for the negative
      number of milliseconds that are left, cut to thirty-two bits. */
  ghost predicate WriteWaits(waits: seq<WaitRecord>, n: nat, until: int)
  {
    n <= |waits| && forall k :: n <= k < |waits| ==>
      var start, limit := waits[k].start, waits[k].limit.sec * 1_000_000_000 + waits[k].limit.nsec;
      && (start + limit <= until <==> start <= until)
      && (start <= until ==> limit == (until - start) / 1_000_000 * 1_000_000)
      && (k > n ==> start <= until)
      && (start > until ==> limit == (-((start - until) / 1_000_000)) % 0x1_0000_0000 * 1_000_000)
  }

  lemma NoWriteWaits(waits: seq<WaitRecord>, until: int)
    ensures WriteWaits(waits, |waits|, until)
  {
  }

  lemma OneMoreWriteWait(waits: seq<WaitRecord>, n: nat, until: int, start: int)
    requires WriteWaits(waits, n, until) && until <= start + 0xFFFF_FFFF * NS_PER_MS
    requires Truncate(until - start, NS_PER_MS) > 0 || |waits| == n
    ensures WriteWaits(waits + [WaitRecord(start, TimespecFromMs((Truncate(until - start, NS_PER_MS) % 0x1_0000_0000) as uint32))],
                       n, until)
  {
    FromMsExact((Truncate(until - start, NS_PER_MS) % 0x1_0000_0000) as uint32);
    LeftAsMs(until, start);
  }

  /** What is left of a countdown, as the thirty-two bits of a wait. */
  lemma LeftAsMs(until: int, start: int)
    requires until <= start + 0xFFFF_FFFF * NS_PER_MS
    ensures var ms := Truncate(until - start, NS_PER_MS) % 0x1_0000_0000;
            && (start <= until ==> ms == (until - start) / NS_PER_MS)
            && (start > until ==> ms == (-((start - until) / NS_PER_MS)) % 0x1_0000_0000)
    ensures Truncate(until - start, NS_PER_MS) > 0 ==> start <= until
  {
    if start <= until {
      var left := (until - start) / NS_PER_MS;
      assert left <= 0xFFFF_FFFF;
      assert left % 0x1_0000_0000 == left;
    }
  }

  /** A first wait of a write that begins one millisecond late may last forty-nine days. */
  lemma LateFirstWait(until: int)
    ensures Nanos(TimespecFromMs((Truncate(until - (until + 1_000_000), NS_PER_MS) % 0x1_0000_0000) as uint32))
            == 4_294_967_295 * 1_000_000
  {
    FromMsExact(0xFFFF_FFFF);
  }

  /** A wait for all that a countdown has left, if it times out, outlasts the countdown but for less
      than a millisecond. */
  lemma WaitOutlasts(until: int, start: int, end: int)
    requires until <= start + 0xFFFF_FFFF * NS_PER_MS
    requires end >= start + Nanos(TimespecFromMs((Truncate(until - start, NS_PER_MS) % 0x1_0000_0000) as uint32))
    ensures until < end + NS_PER_MS
  {
    FromMsExact((Truncate(until - start, NS_PER_MS) % 0x1_0000_0000) as uint32);
    if start <= until {
      var left := (until - start) / NS_PER_MS;
      assert left <= 0xFFFF_FFFF;
      assert left % 0x1_0000_0000 == left;
    }
  }

  /** How the operating system has behaved: the nanoseconds of its monotonic clock, the waits it was
      told to make, how often it was asked to read, whether it has last reported the device ready without having been held to it,
      and how often it has failed or broken that promise. */
  datatype Conduct = Conduct(clock: int, waits: seq<WaitRecord>, asked: nat, ready: bool, faults: nat)

  class Line {
    /** Bytes the line will still deliver, in order. */
    var rx: seq<byte>
    /** Bytes the line has accepted, in order. */
    var tx: seq<byte>
    var sys: Conduct
    /** Asked for the bytes waiting, the system answers, and with more than none if there are any. */
    const honest: bool

    constructor (rx: seq<byte>, honest: bool)
      ensures this.rx == rx && tx == [] && this.honest == honest
    {
      this.rx, tx, this.honest := rx, [], honest;
      sys := Conduct(0, [], 0, false, 0);
    }

    method Tick()
      modifies this`sys
      ensures sys == old(sys).(clock := sys.clock) && sys.clock > old(sys.clock)
    {
      var d: int := *;
      sys := sys.(clock := sys.clock + if d > 0 then d else 1);
    }

    /** Time passes, and what the system had promised is settled: broken is whether it failed. */
    method Settle(broken: bool)
      modifies this`sys
      ensures sys.clock > old(sys.clock) && sys.waits == old(sys.waits) && sys.asked == old(sys.asked) && !sys.ready
      ensures sys.faults == old(sys.faults) + if broken then 1 else 0
    {
      Tick();
      sys := sys.(ready := false, faults := sys.faults + if broken then 1 else 0);
    }

    /** A system read into buf[off..off + size]; a result below one means that nothing was read. */
    method OsRead(buf: array<byte>, off: nat, size: nat) returns (ret: int)
      requires off + size <= buf.Length
      modifies this`rx, this`sys, buf
      ensures sys.clock > old(sys.clock) && sys.waits == old(sys.waits) && sys.asked == old(sys.asked) + 1 && !sys.ready
      ensures sys.faults == old(sys.faults) + if old(sys.ready) && ret < 1 then 1 else 0
      ensures ret <= size && ret <= |old(rx)|
      ensures buf[..] == Overlay(old(buf[..]), off, old(rx)[..if ret < 0 then 0 else ret])
      ensures rx == old(rx)[if ret < 0 then 0 else ret..]
    {
      ret := *;
      if ret < 0 || ret > size || ret > |rx| {
        ret := -1;
      }
      Settle(sys.ready && ret < 1);
      sys := sys.(asked := sys.asked + 1);
      var n := if ret < 0 then 0 else ret;
      forall i | 0 <= i < n {
        buf[off + i] := rx[i];
      }
      rx := rx[n..];
    }

    /** A system write of data; a result below one means that nothing was accepted. */
    method OsWrite(data: seq<byte>) returns (ret: int)
      modifies this`tx, this`sys
      ensures sys.clock > old(sys.clock) && sys.asked == old(sys.asked) && sys.waits == old(sys.waits) && !sys.ready
      ensures sys.faults == old(sys.faults) + if old(sys.ready) && ret < 1 then 1 else 0
      ensures ret <= |data|
      ensures tx == old(tx) + data[..if ret < 0 then 0 else ret]
    {
      ret := *;
      if ret > |data| {
        ret := -1;
      }
      Settle(sys.ready && ret < 1);
      tx := tx + data[..if ret < 0 then 0 else ret];
    }

    /** A wait for readiness, of at most the given time; it times out only when that has passed. */
    method OsWait(timeout: Timespec) returns (w: Wait)
      modifies this`sys
      ensures sys.clock > old(sys.clock) && sys.asked == old(sys.asked) && sys.waits == old(sys.waits) + [WaitRecord(old(sys.clock), timeout)]
      ensures w == TimedOut ==> sys.clock >= old(sys.clock) + Nanos(timeout)
      ensures sys.ready == (w == Ready)
      ensures sys.faults == old(sys.faults) + if w == WaitFailed then 1 else 0
    {
      w := *;
      var start := sys.clock;
      Settle(w == WaitFailed);
      var now := if w == TimedOut && sys.clock < start + Nanos(timeout) then start + Nanos(timeout) else sys.clock;
      sys := sys.(clock := now, waits := sys.waits + [WaitRecord(start, timeout)], ready := w == Ready);
    }

    /** Whether the device is among those that a wait has reported ready. */
    method OsIsSet() returns (isSet: bool)
      modifies this`sys
      ensures sys.clock > old(sys.clock) && sys.asked == old(sys.asked) && sys.waits == old(sys.waits)
      ensures sys.ready == (old(sys.ready) && isSet)
      ensures sys.faults == old(sys.faults) + if isSet then 0 else 1
    {
      isSet := *;
      var ready := sys.ready;
      Settle(!isSet);
      sys := sys.(ready := ready && isSet);
    }

    /** How many bytes could be read at once, or none if the query fails. */
    method OsAvailable() returns (n: Option<nat>)
      modifies this`sys
      ensures sys.clock > old(sys.clock) && sys.asked == old(sys.asked) && sys.waits == old(sys.waits)
      ensures sys.ready == (old(sys.ready) && n.Some?)
      ensures sys.faults == old(sys.faults) + if n.None? then 1 else 0
      ensures n.Some? ==> n.value <= |rx|
      ensures honest && |rx| > 0 ==> n.Some? && n.value > 0
    {
      n := *;
      if n.Some? && n.value > |rx| {
        n := Some(|rx|);
      }
      if honest && |rx| > 0 && !(n.Some? && n.value > 0) {
        n := Some(1);
      }
      var ready := sys.ready;
      Settle(n.None?);
      sys := sys.(ready := ready && n.Some?);
    }
  }

  class SerialImpl {
    const line: Line
    var isOpen: bool
    var timeout: Timeout
    var byteTimeNs: nat

    constructor (line: Line, timeout: Timeout)
      ensures this.line == line && isOpen && this.timeout == timeout
    {
      this.line, isOpen, this.timeout, byteTimeNs := line, true, timeout, 0;
    }

    /** Wait until the device is readable; an interruption reads as not readable. */
    method WaitReadable(ms: uint32) returns (ready: bool, threw: bool)
      modifies line`sys
      ensures line.sys.clock > old(line.sys.clock)
      ensures line.sys.waits == old(line.sys.waits) + [WaitRecord(old(line.sys.clock), TimespecFromMs(ms))]
      ensures threw ==> !ready
      ensures line.sys.asked == old(line.sys.asked)
      ensures line.sys.ready == ready && line.sys.faults == old(line.sys.faults) + if threw then 1 else 0
    {
      var w := line.OsWait(TimespecFromMs(ms));
      ready, threw := w == Ready, w == WaitFailed;
    }

    /** Bytes waiting to be read; none on a closed port, no answer if the query throws. */
    method Available() returns (n: Option<nat>)
      modifies line`sys
      ensures line.sys.clock >= old(line.sys.clock) && line.sys.faults >= old(line.sys.faults)
      ensures n.Some? ==> n.value <= |line.rx|
      ensures !isOpen ==> n == Some(0)
      ensures isOpen && line.honest && |line.rx| > 0 ==> n.Some? && n.value > 0
      ensures n.None? ==> line.sys.faults > old(line.sys.faults)
    {
      if !isOpen {
        return Some(0);
      }
      n := line.OsAvailable();
    }

    /** The part of a read that takes the next chunk, once the device is readable and bytesRead bytes
        of rx are in the buffer; a result below one stands for an exception. */
    method ReadReady(buf: array<byte>, off: nat, size: nat, bytesRead: nat, ghost before: seq<byte>, ghost rx: seq<byte>)
      returns (now: int)
      requires off + size <= buf.Length == |before| && bytesRead < size && bytesRead <= |rx|
      requires buf[..] == Overlay(before, off, rx[..bytesRead]) && line.rx == rx[bytesRead..]
      requires line.sys.ready
      modifies line`rx, line`sys, buf
      ensures line.sys.clock > old(line.sys.clock) && line.sys.waits == old(line.sys.waits) && !line.sys.ready
      ensures line.sys.asked >= old(line.sys.asked)
      ensures line.sys.faults == old(line.sys.faults) + if now < 1 then 1 else 0
      ensures var n := bytesRead + if now < 0 then 0 else now;
              && n <= size && n <= |rx| && line.rx == rx[n..]
              && buf[..] == Overlay(before, off, rx[..n])
    {
      hide Overlay;
      if size > 1 && timeout.interByte == MAX_UINT32 {
        var available := line.OsAvailable();
        if available.None? {
          return 0;
        }
        if available.value + bytesRead < size {
          line.Tick();
        }
      }
      now := line.OsRead(buf, off + bytesRead, size - bytesRead);
      OverlayChunks(before, off, rx, bytesRead, if now < 0 then 0 else now);
    }

    /** Read at most size bytes into buf[off..off + size].

        Whatever chunks the line hands over, the buffer receives exactly the next n bytes of the
        line and nothing else changes; n falls short of size only when the countdown for the
        whole read has run down, and no wait is told to last beyond that, or beyond the
        inter-byte timeout. The system is asked at least once, whatever the timeouts. It throws only
        if the system failed. */
    method Read(buf: array<byte>, off: nat, size: nat) returns (r: IoResult)
      requires off + size <= buf.Length
      modifies line`rx, line`sys, buf
      ensures r.NotOpen? <==> !isOpen
      ensures r.Count() <= size && r.Count() <= |old(line.rx)|
      ensures buf[..] == Overlay(old(buf[..]), off, old(line.rx)[..r.Count()])
      ensures line.rx == old(line.rx)[r.Count()..]
      ensures line.sys.clock >= old(line.sys.clock) && line.sys.faults >= old(line.sys.faults)
      ensures r.Done? && r.n < size ==>
        line.sys.clock + 1_000_000 > old(line.sys.clock)
          + (timeout.readConstant as int + timeout.readMultiplier as int * size) % 0x1_0000_0000 * 1_000_000
      ensures r.Threw? ==> r.n < size && line.sys.faults > old(line.sys.faults)
      ensures r.Done? && !old(line.sys.ready) ==> line.sys.faults == old(line.sys.faults)
      ensures isOpen ==> !line.sys.ready && line.sys.asked > old(line.sys.asked)
      ensures ReadWaits(line.sys.waits, |old(line.sys.waits)|, old(line.sys.clock)
          + (timeout.readConstant as int + timeout.readMultiplier as int * size) % 0x1_0000_0000 * 1_000_000,
        timeout.interByte)
    {
      hide ReadWaits, Normalized, TimespecFromMs, Overlay, TotalMs, MinWait, RemainingMs, Nanos, AtNanos, Truncate;
      OverlayNothing(buf[..], off);
      assert line.rx[..0] == [];
      ghost var waits, until := |line.sys.waits|, line.sys.clock
        + (timeout.readConstant as int + timeout.readMultiplier as int * size) % 0x1_0000_0000 * 1_000_000;
      NoReadWaits(line.sys.waits, until, timeout.interByte);
      if !isOpen {
        return NotOpen;
      }
      var bytesRead := 0;
      TotalIs(timeout.readConstant, timeout.readMultiplier, size);
      var total := new MillisecondTimer(TotalMs(timeout.readConstant, timeout.readMultiplier, size), AtNanos(line.sys.clock));
      assert Nanos(total.expiry) == until;
      ghost var before, rx := buf[..], line.rx;

      var now := line.OsRead(buf, off, size);
      if now > 0 {
        bytesRead := now;
      }

      ghost var faults := line.sys.faults;
      while bytesRead < size
        invariant 0 <= bytesRead <= size && bytesRead <= |rx|
        invariant fresh(total) && Normalized(total.expiry) && Nanos(total.expiry) == until
        invariant buf[..] == Overlay(before, off, rx[..bytesRead])
        invariant line.rx == rx[bytesRead..] && line.sys.faults == faults && !line.sys.ready
        invariant line.sys.clock >= old(line.sys.clock) && line.sys.asked > old(line.sys.asked)
        invariant until <= line.sys.clock + 0xFFFF_FFFF * NS_PER_MS
        invariant ReadWaits(line.sys.waits, waits, until, timeout.interByte)
        decreases size - bytesRead, until - line.sys.clock
      {
        line.Tick();
        var remaining := total.Remaining(AtNanos(line.sys.clock));
        CountdownRead(total.expiry, line.sys.clock);
        if remaining <= 0 {
          break;
        }
        var wait := MinWait(remaining, timeout.interByte);
        RemainingIs(total.expiry, line.sys.clock);
        OneMoreReadWait(line.sys.waits, waits, until, timeout.interByte, line.sys.clock);
        var ready, threw := WaitReadable(wait);
        if threw {
          return Threw(bytesRead);
        }
        if ready {
          now := ReadReady(buf, off, size, bytesRead, before, rx);
          if now < 1 {
            return Threw(bytesRead);
          }
          bytesRead := bytesRead + now;
          if bytesRead == size {
            break;
          }
          if bytesRead > size {
            assert false; // reading past the request cannot happen
          }
        }
      }
      return Done(bytesRead);
    }

    /** The part of a write that hands over the next chunk, once the device is reported ready and the line
        has taken the first written bytes; a result below one stands for an exception. */
    method WriteReady(data: seq<byte>, written: nat, ghost tx: seq<byte>) returns (now: int)
      requires written < |data| && line.tx == tx + data[..written] && line.sys.ready
      modifies line`tx, line`sys
      ensures line.sys.clock > old(line.sys.clock) && line.sys.waits == old(line.sys.waits) && !line.sys.ready
      ensures line.sys.faults == old(line.sys.faults) + if now < 1 then 1 else 0
      ensures var n := written + if now < 0 then 0 else now; n <= |data| && line.tx == tx + data[..n]
    {
      var isSet := line.OsIsSet();
      if !isSet {
        return 0;
      }
      now := line.OsWrite(data[written..]);
      if now > 0 {
        assert data[..written] + data[written..][..now] == data[..written + now];
      }
    }

    /** Write data.

        Whatever the line accepts at a time, it accepts exactly data[..n] in all; n falls
        short of the data only when the countdown for the whole write has run down, or on an
        exception. */
    method Write(data: seq<byte>) returns (r: IoResult)
      modifies line`tx, line`sys
      ensures r.NotOpen? <==> !isOpen
      ensures r.Count() <= |data|
      ensures line.tx == old(line.tx) + data[..r.Count()]
      ensures line.sys.clock >= old(line.sys.clock) && line.sys.faults >= old(line.sys.faults)
      ensures r.Done? && r.n < |data| ==>
        line.sys.clock + 1_000_000 > old(line.sys.clock)
          + (timeout.writeConstant as int + timeout.writeMultiplier as int * |data|) % 0x1_0000_0000 * 1_000_000
      ensures r.Threw? ==> r.n < |data| && line.sys.faults > old(line.sys.faults)
      ensures r.Done? ==> line.sys.faults == old(line.sys.faults)
      ensures isOpen && |data| > 0 ==> |line.sys.waits| > |old(line.sys.waits)|
      ensures WriteWaits(line.sys.waits, |old(line.sys.waits)|, old(line.sys.clock)
          + (timeout.writeConstant as int + timeout.writeMultiplier as int * |data|) % 0x1_0000_0000 * 1_000_000)
    {
      hide WriteWaits, TotalMs, Normalized, TimespecFromMs, Truncate, RemainingMs, Nanos, AtNanos;
      ghost var waits, start, until := |line.sys.waits|, line.sys.clock, line.sys.clock
        + (timeout.writeConstant as int + timeout.writeMultiplier as int * |data|) % 0x1_0000_0000 * 1_000_000;
      NoWriteWaits(line.sys.waits, until);
      if !isOpen {
        return NotOpen;
      }
      var written := 0;
      TotalIs(timeout.writeConstant, timeout.writeMultiplier, |data|);
      var total := new MillisecondTimer(
        TotalMs(timeout.writeConstant, timeout.writeMultiplier, |data|), AtNanos(line.sys.clock));
      assert Nanos(total.expiry) == until <= start + 0xFFFF_FFFF * NS_PER_MS;
      ghost var tx, faults := line.tx, line.sys.faults;
      var firstIteration := true;

      while written < |data|
        invariant 0 <= written <= |data|
        invariant fresh(total) && Normalized(total.expiry) && Nanos(total.expiry) == until
        invariant line.tx == tx + data[..written] && line.sys.clock >= start && line.sys.faults == faults
        invariant WriteWaits(line.sys.waits, waits, until)
        invariant if firstIteration then written == 0 && |line.sys.waits| == waits else |line.sys.waits| > waits
        decreases |data| - written, firstIteration, until - line.sys.clock
      {
        line.Tick();
        ghost var before := line.sys.clock;
        var remaining := total.Remaining(AtNanos(line.sys.clock));
        CountdownRead(total.expiry, line.sys.clock);
        if !firstIteration && remaining <= 0 {
          break;
        }
        assert firstIteration || until - line.sys.clock > 0;
        RemainingIs(total.expiry, line.sys.clock);
        OneMoreWriteWait(line.sys.waits, waits, until, line.sys.clock);
        firstIteration := false;

        var w := line.OsWait(TimespecFromMs((remaining % 0x1_0000_0000) as uint32));
        if w == Interrupted {
          continue;
        }
        if w == WaitFailed {
          return Threw(written);
        }
        if w == TimedOut {
          WaitOutlasts(until, before, line.sys.clock);
          break;
        }
        var now := WriteReady(data, written, tx);
        if now < 1 {
          return Threw(written);
        }
        written := written + now;
        if written == |data| {
          break;
        }
        if written > |data| {
          assert false; // writing past the data cannot happen
        }
      }
      return Done(written);
    }
  }
}
