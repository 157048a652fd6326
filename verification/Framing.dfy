/** The frame format shared by both directions of the link.

    A frame body is command, direction, two big-endian length bytes, payload.
    On the wire a body travels between a start byte and an end byte, followed
    by the exclusive or of the body. */
module Framing {
  import opened Bytes

  const STX: byte := 0x02
  const ETX: byte := 0x03
  const REQUEST: byte := 0x2F
  const RESPONSE: byte := 0x4F

  /** Size of the receiver's scratch buffer. */
  const BUFFER_SIZE: nat := 1024

  /** More than any length field can ask for. */
  const FULL_READ: nat := 65536

  type Frame = seq<byte>

  datatype Request = Request(cmd: byte, params: seq<byte>)

  function XorAll(s: seq<byte>): byte
  {
    if |s| == 0 then 0 else XorByte(XorAll(s[..|s| - 1]), s[|s| - 1])
  }

  method XorCheck(buf: seq<byte>) returns (xorValue: byte)
    ensures xorValue == XorAll(buf)
  {
    xorValue := 0;
    var i := 0;
    while i < |buf|
      invariant 0 <= i <= |buf|
      invariant xorValue == XorAll(buf[..i])
    {
      assert buf[..i + 1][..i] == buf[..i];
      xorValue := XorByte(xorValue, buf[i]);
      i := i + 1;
    }
    assert buf[..i] == buf;
  }

  /** The value of the length field of a header. */
  function PayloadLength(header: seq<byte>): (n: nat)
    requires |header| >= 4
    ensures n < FULL_READ
  {
    header[2] as nat * 256 + header[3] as nat
  }

  /** The length field tells the truth. */
  predicate WellFormed(f: Frame)
  {
    |f| >= 4 && |f| == 4 + PayloadLength(f)
  }

  function Wire(body: Frame): seq<byte>
  {
    [STX] + body + [ETX, XorAll(body)]
  }

  /** A send that has ended: how much of the wire frame of body the line took. */
  datatype Segment = Segment(body: Frame, sent: nat)

  /** The return code of a send on an open port. */
  function Code(x: Segment): int
  {
    if x.sent == |Wire(x.body)| then 0 else -1
  }

  /** The body of a request; the length is cut to sixteen bits, the parameters are not. */
  function RequestBody(r: Request): Frame
  {
    [r.cmd, REQUEST, (|r.params| / 256 % 256) as byte, (|r.params| % 256) as byte] + r.params
  }

  function Concat(parts: seq<seq<byte>>): seq<byte>
  {
    if |parts| == 0 then [] else parts[0] + Concat(parts[1..])
  }

  function Wires(bodies: seq<Frame>): seq<byte>
  {
    if |bodies| == 0 then [] else Wire(bodies[0]) + Wires(bodies[1..])
  }

  function Bodies(requests: seq<Request>): seq<Frame>
  {
    seq(|requests|, i requires 0 <= i < |requests| => RequestBody(requests[i]))
  }

  predicate AllWellFormed(bodies: seq<Frame>)
  {
    forall i :: 0 <= i < |bodies| ==> WellFormed(bodies[i])
  }

  // ---------------------------------------------------------------- lengths

  /** The length field of a request is right exactly for parameters that fit sixteen bits. */
  lemma RequestWellFormedIff(r: Request)
    ensures WellFormed(RequestBody(r)) <==> |r.params| < 65536
  {
    var b := RequestBody(r);
    assert b[2] as nat == |r.params| / 256 % 256;
    assert b[3] as nat == |r.params| % 256;
    assert PayloadLength(b) < 65536;
    if |r.params| < 65536 {
      assert |r.params| / 256 < 256;
    }
  }

  /** A request on the wire, byte by byte. */
  lemma RequestOnWire(cmd: byte, params: seq<byte>)
    ensures var w := Wire(RequestBody(Request(cmd, params))); var n := |params|;
            && |w| == n + 7 && w[0] == 0x02 && w[1] == cmd && w[2] == 0x2F
            && w[3] as int == n / 256 % 256 && w[4] as int == n % 256
            && w[5..5 + n] == params && w[5 + n] == 0x03 && w[6 + n] == XorAll(w[1..5 + n])
  {
    hide XorAll;
    var body := RequestBody(Request(cmd, params));
    assert Wire(body)[1..5 + |params|] == body;
  }

  /** The check byte of a request with one command byte and no parameters. */
  lemma BareRequest(cmd: byte)
    ensures Wire(RequestBody(Request(cmd, []))) == [0x02, cmd, 0x2F, 0x00, 0x00, 0x03, XorByte(cmd, 0x2F)]
  {
    var body := RequestBody(Request(cmd, []));
    XorZero(cmd as nat);
    XorZero(XorByte(cmd, 0x2F) as nat);
    assert body[..4] == body && body[..3] == [cmd, 0x2F, 0x00] && body[..2] == [cmd, 0x2F] && body[..1] == [cmd];
    assert body[..3][..2] == body[..2] && body[..2][..1] == body[..1] && body[..1][..0] == [];
    assert XorAll(body[..1]) == cmd;
    assert XorAll(body[..2]) == XorByte(cmd, 0x2F);
    assert XorAll(body[..3]) == XorByte(XorByte(cmd, 0x2F), 0);
    assert XorAll(body) == XorByte(XorAll(body[..3]), 0);
  }

  // ---------------------------------------------------------------- unique decoding

  /** Wire frames are prefix-free: a stream that begins with two frames begins with one and the same. */
  lemma WirePrefixFree(f: Frame, g: Frame, x: seq<byte>, y: seq<byte>)
    requires WellFormed(f) && WellFormed(g)
    requires Wire(f) + x == Wire(g) + y
    ensures f == g && x == y
  {
    var s, t := Wire(f) + x, Wire(g) + y;
    assert forall k :: 0 <= k < |f| ==> s[1 + k] == f[k];
    assert forall k :: 0 <= k < |g| ==> t[1 + k] == g[k];
    assert f[2] == s[3] == g[2] && f[3] == s[4] == g[3];
    assert |f| == |g|;
    assert f == s[1..1 + |f|] && g == t[1..1 + |g|];
    assert x == s[|Wire(f)|..] && y == t[|Wire(g)|..];
  }

  /** A concatenation of wire frames determines the list of frames. */
  lemma {:induction false} WiresInjective(fs: seq<Frame>, gs: seq<Frame>)
    requires AllWellFormed(fs) && AllWellFormed(gs)
    requires Wires(fs) == Wires(gs)
    ensures fs == gs
    decreases |fs|
  {
    if |fs| > 0 && |gs| > 0 {
      WirePrefixFree(fs[0], gs[0], Wires(fs[1..]), Wires(gs[1..]));
      WiresInjective(fs[1..], gs[1..]);
      assert fs == [fs[0]] + fs[1..] && gs == [gs[0]] + gs[1..];
    }
  }

  /** The bytes sent for a list of requests determine commands and parameters of all of them. */
  lemma RequestStreamInjective(rs: seq<Request>, qs: seq<Request>)
    requires forall i :: 0 <= i < |rs| ==> |rs[i].params| < 65536
    requires forall i :: 0 <= i < |qs| ==> |qs[i].params| < 65536
    requires Wires(Bodies(rs)) == Wires(Bodies(qs))
    ensures rs == qs
  {
    forall i | 0 <= i < |rs| ensures WellFormed(Bodies(rs)[i]) { RequestWellFormedIff(rs[i]); }
    forall i | 0 <= i < |qs| ensures WellFormed(Bodies(qs)[i]) { RequestWellFormedIff(qs[i]); }
    WiresInjective(Bodies(rs), Bodies(qs));
    assert |Bodies(rs)| == |rs| && |Bodies(qs)| == |qs|;
    forall i | 0 <= i < |rs|
      ensures rs[i] == qs[i]
    {
      var b, c := RequestBody(rs[i]), RequestBody(qs[i]);
      assert b == Bodies(rs)[i] == Bodies(qs)[i] == c;
      assert b[0] == rs[i].cmd && c[0] == qs[i].cmd;
      assert b[4..] == rs[i].params && c[4..] == qs[i].params;
    }
  }
}
