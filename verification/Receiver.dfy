/** The receive loop as a function of the byte stream and of what each read returned.

    A stream s is everything the line will ever carry; p is the read position.
    gs lists how many bytes successive reads yield before they time out. A read
    beyond the list is not cut short: [] stands for a run without timeouts. */
module Receiver {
  import opened Bytes
  import opened Framing
  import opened ErrorDetection

  /** A frame handed to the callback, and the stream interval it was taken from. */
  datatype Delivery = Delivery(start: nat, end: nat, frame: Frame)

  /** One pass of the loop. overrun: a payload read put more bytes into the scratch buffer than
      it has, beyond which the program has no defined behaviour; the model stops there. */
  datatype Pass = Pass(pos: nat, rest: seq<nat>, delivered: Option<Delivery>, overrun: bool)

  datatype Outcome = Outcome(pos: nat, deliveries: seq<Delivery>, overrun: bool)

  function Min(a: nat, b: nat): nat
  {
    if a < b then a else b
  }

  /** How many bytes a read of the given size yields at position p. */
  function Yield(s: seq<byte>, p: nat, size: nat, gs: seq<nat>): (n: nat)
    requires p <= |s|
    ensures n <= size && p + n <= |s|
  {
    Min(if |gs| == 0 then size else Min(gs[0], size), |s| - p)
  }

  function Next(gs: seq<nat>): seq<nat>
  {
    if |gs| == 0 then [] else gs[1..]
  }

  /** The four chained reads of one pass, started when input is available. */
  function ReceivePass(s: seq<byte>, p: nat, gs: seq<nat>): (r: Pass)
    requires p < |s|
    ensures p <= r.pos <= |s| && |r.rest| <= |gs|
    ensures r.pos == p ==> |r.rest| < |gs|
  {
    var n1, g1 := Yield(s, p, 1, gs), Next(gs);
    if n1 == 0 || s[p] != STX then Pass(p + n1, g1, None, false)
    else HeaderRead(s, p, g1)
  }

  function HeaderRead(s: seq<byte>, p: nat, gs: seq<nat>): (r: Pass)
    requires p < |s|
    ensures p < r.pos <= |s| && |r.rest| <= |gs|
  {
    var q := p + 1;
    var n, g := Yield(s, q, 4, gs), Next(gs);
    if n != 4 then Pass(q + n, g, None, false)
    else PayloadRead(s, p, PayloadLength(s[q..q + 4]), g)
  }

  function PayloadRead(s: seq<byte>, p: nat, ln: nat, gs: seq<nat>): (r: Pass)
    requires p + 5 <= |s|
    ensures p < r.pos <= |s| && |r.rest| <= |gs|
  {
    var q := p + 5;
    var n, g := Yield(s, q, ln, gs), Next(gs);
    if n > BUFFER_SIZE then Pass(q + n, g, None, true)
    else if n != ln then Pass(q + n, g, None, false)
    else TrailerRead(s, p, ln, g)
  }

  function TrailerRead(s: seq<byte>, p: nat, ln: nat, gs: seq<nat>): (r: Pass)
    requires p + 5 + ln <= |s|
    ensures p < r.pos <= |s| && |r.rest| <= |gs| && !r.overrun
  {
    var q := p + 5 + ln;
    var n, g := Yield(s, q, 2, gs), Next(gs);
    var body := s[p + 1..q];
    if n == 2 && CheckPasses(body, s[q], s[q + 1])
    then Pass(q + 2, g, Some(Delivery(p, q + 2, body)), false)
    else Pass(q + n, g, None, false)
  }

  /** The loop: passes until the stream is used up. */
  function Receive(s: seq<byte>, p: nat, gs: seq<nat>): (r: Outcome)
    requires p <= |s|
    ensures p <= r.pos <= |s|
    decreases |s| - p, |gs|
  {
    if p == |s| then Outcome(p, [], false)
    else
      var pass := ReceivePass(s, p, gs);
      if pass.overrun then Outcome(pass.pos, [], true)
      else
        var r := Receive(s, pass.pos, pass.rest);
        if pass.delivered.Some? then r.(deliveries := [pass.delivered.value] + r.deliveries) else r
  }

  function Frames(ds: seq<Delivery>): seq<Frame>
  {
    seq(|ds|, i requires 0 <= i < |ds| => ds[i].frame)
  }

  // ---------------------------------------------------------------- soundness on arbitrary input

  /** The delivery stands for exactly the wire bytes of its frame, between lo and hi. */
  predicate Genuine(s: seq<byte>, d: Delivery, lo: nat, hi: nat)
  {
    && lo <= d.start <= d.end <= hi <= |s|
    && WellFormed(d.frame) && PayloadLength(d.frame) <= BUFFER_SIZE
    && s[d.start..d.end] == Wire(d.frame)
  }

  /** Deliveries come from disjoint intervals in stream order, all within [lo, hi). */
  predicate Sound(s: seq<byte>, ds: seq<Delivery>, lo: nat, hi: nat)
  {
    && (forall i :: 0 <= i < |ds| ==> Genuine(s, ds[i], lo, hi))
    && (forall i, j :: 0 <= i < j < |ds| ==> ds[i].end <= ds[j].start)
  }

  lemma SliceEnds(s: seq<byte>, p: nat, q: nat)
    requires p < q && q + 2 <= |s|
    ensures s[p..q + 2] == [s[p]] + s[p + 1..q] + [s[q], s[q + 1]]
  {
  }

  lemma PassSound(s: seq<byte>, p: nat, gs: seq<nat>)
    requires p < |s|
    ensures var r := ReceivePass(s, p, gs);
            r.delivered.Some? ==> Genuine(s, r.delivered.value, p, r.pos) && r.delivered.value.end == r.pos
  {
    hide ReceivePass, CheckPasses, Wire, WellFormed, PayloadLength;
    var r := ReceivePass(s, p, gs);
    if r.delivered.Some? {
      PassDelivers(s, p, gs);
      FrameOnStream(s, p, r.pos - 2);
    }
  }

  /** A pass that delivers has read STX, a header, a payload of the length it says, and a trailer. */
  lemma PassDelivers(s: seq<byte>, p: nat, gs: seq<nat>)
    requires p < |s| && ReceivePass(s, p, gs).delivered.Some?
    ensures var r := ReceivePass(s, p, gs); var q := r.pos - 2;
            && p + 5 <= q && r.delivered == Some(Delivery(p, q + 2, s[p + 1..q]))
            && q == p + 5 + PayloadLength(s[p + 1..p + 5]) <= p + 5 + BUFFER_SIZE
            && s[p] == STX && CheckPasses(s[p + 1..q], s[q], s[q + 1])
  {
    hide CheckPasses, PayloadLength;
  }

  lemma FrameOnStream(s: seq<byte>, p: nat, q: nat)
    requires p + 5 <= q && q + 2 <= |s| && s[p] == STX && CheckPasses(s[p + 1..q], s[q], s[q + 1])
    requires q == p + 5 + PayloadLength(s[p + 1..p + 5])
    ensures var body := s[p + 1..q];
            WellFormed(body) && PayloadLength(body) == q - p - 5 && s[p..q + 2] == Wire(body)
  {
    hide XorAll;
    SliceOfSlice(s, p + 1, q, 0, 4);
    SliceEnds(s, p, q);
    var body := s[p + 1..q];
    assert body[2] == s[p + 1..p + 5][2] && body[3] == s[p + 1..p + 5][3];
  }

  /** Whatever the stream holds and however reads are cut short, every delivered frame is
      the content of its own interval of the stream; intervals do not overlap and keep order. */
  lemma {:induction false} ReceiveSound(s: seq<byte>, p: nat, gs: seq<nat>)
    requires p <= |s|
    ensures var r := Receive(s, p, gs); Sound(s, r.deliveries, p, r.pos)
    decreases |s| - p, |gs|
  {
    hide ReceivePass;
    if p < |s| {
      var pass := ReceivePass(s, p, gs);
      PassSound(s, p, gs);
      if !pass.overrun {
        ReceiveSound(s, pass.pos, pass.rest);
      }
    }
  }

  /** At position p a start byte and a header ask for more payload than the buffer can hold, and more
      than that follows. */
  predicate Oversize(s: seq<byte>, p: nat)
  {
    p + 5 + 1024 < |s| && s[p] == 0x02 && s[p + 3] as int * 256 + s[p + 4] as int > 1024
  }

  /** At least n bytes are granted to read number k. */
  predicate Granted(gs: seq<nat>, k: nat, n: nat)
  {
    k < |gs| ==> gs[k] >= n
  }

  /** A pass writes past the scratch buffer exactly if a start byte with a complete header is followed
      by more payload than the buffer can hold, before anything times out: it takes a length field
      above 1024, and more than 1024 bytes that arrive. */
  lemma OverrunIff(s: seq<byte>, p: nat, gs: seq<nat>)
    requires p < |s|
    ensures ReceivePass(s, p, gs).overrun <==>
            && Oversize(s, p)
            && Granted(gs, 0, 1) && Granted(gs, 1, 4) && Granted(gs, 2, BUFFER_SIZE + 1)
  {
    assert p + 5 <= |s| ==> PayloadLength(s[p + 1..p + 5]) == s[p + 3] as nat * 256 + s[p + 4] as nat;
    hide PayloadLength, TrailerRead, Yield, Next;
    var g1, g2 := Next(gs), Next(Next(gs));
    YieldAtLeast(s, p, 1, gs, 1);
    NextGranted(gs, 0, 4);
    NextGranted(gs, 1, BUFFER_SIZE + 1);
    NextGranted(g1, 0, BUFFER_SIZE + 1);
    if Yield(s, p, 1, gs) == 1 && s[p] == STX {
      YieldAtLeast(s, p + 1, 4, g1, 4);
      if Yield(s, p + 1, 4, g1) == 4 {
        var ln := PayloadLength(s[p + 1..p + 5]);
        if ln > BUFFER_SIZE { YieldAtLeast(s, p + 5, ln, g2, BUFFER_SIZE + 1); }
      }
    }
  }

  /** A run that overruns the buffer does so at an oversize header. */
  lemma {:induction false} OverrunAtOversize(s: seq<byte>, p: nat, gs: seq<nat>) returns (q: nat)
    requires p <= |s| && Receive(s, p, gs).overrun
    ensures p <= q && Oversize(s, q)
    decreases |s| - p, |gs|
  {
    hide ReceivePass, Oversize;
    var pass := ReceivePass(s, p, gs);
    if pass.overrun {
      OverrunIff(s, p, gs);
      q := p;
    } else {
      q := OverrunAtOversize(s, pass.pos, pass.rest);
    }
  }

  /** Timeouts that bring the loop, byte by byte, to the oversize header at q. */
  lemma {:induction false} ReachOversize(s: seq<byte>, p: nat, q: nat) returns (gs: seq<nat>)
    requires p <= q && Oversize(s, q)
    ensures Receive(s, p, gs).overrun
    decreases q - p
  {
    if p == q {
      gs := [];
      OverrunIff(s, q, []);
      hide ReceivePass, Oversize;
    } else {
      var rest := ReachOversize(s, p + 1, q);
      gs := if s[p] == STX then [1, 0] + rest else [1] + rest;
      OneByte(s, p, rest);
      hide ReceivePass, Oversize;
    }
  }

  /** A start byte whose header times out at once, or any other byte, is skipped alone. */
  lemma OneByte(s: seq<byte>, p: nat, rest: seq<nat>)
    requires p < |s|
    ensures ReceivePass(s, p, if s[p] == STX then [1, 0] + rest else [1] + rest) == Pass(p + 1, rest, None, false)
  {
    assert ([1, 0] + rest)[1..] == [0] + rest && ([0] + rest)[1..] == rest && ([1] + rest)[1..] == rest;
  }

  /** A stream can overrun the buffer, under some pattern of timeouts, exactly if it holds an oversize
      header somewhere, be it inside noise or inside a frame. */
  lemma OverrunPossibleIff(s: seq<byte>)
    ensures (exists gs: seq<nat> :: Receive(s, 0, gs).overrun) <==> exists q: nat :: Oversize(s, q)
  {
    hide Receive, Oversize;
    if gs: seq<nat> :| Receive(s, 0, gs).overrun {
      var q := OverrunAtOversize(s, 0, gs);
    }
    if q: nat :| Oversize(s, q) {
      var gs := ReachOversize(s, 0, q);
    }
  }

  lemma YieldAtLeast(s: seq<byte>, p: nat, size: nat, gs: seq<nat>, n: nat)
    requires p <= |s| && n <= size
    ensures Yield(s, p, size, gs) >= n <==> p + n <= |s| && Granted(gs, 0, n)
  {
  }

  lemma NextGranted(gs: seq<nat>, k: nat, n: nat)
    ensures Granted(Next(gs), k, n) <==> Granted(gs, k + 1, n)
  {
  }

  // ---------------------------------------------------------------- exact delivery

  /** What a line carries: noise without start bytes, and candidate frames, that is, a start
      byte, a body whose length field is true and fits the buffer, and any two bytes. */
  datatype Item =
    | Noise(bytes: seq<byte>)
    | Candidate(body: Frame, etx: byte, check: byte)

  predicate Fits(f: Frame)
  {
    WellFormed(f) && PayloadLength(f) <= BUFFER_SIZE
  }

  predicate ItemOk(x: Item)
  {
    if x.Noise? then STX !in x.bytes else Fits(x.body)
  }

  predicate ItemsOk(xs: seq<Item>)
  {
    forall i :: 0 <= i < |xs| ==> ItemOk(xs[i])
  }

  function ItemBytes(x: Item): seq<byte>
  {
    if x.Noise? then x.bytes else [STX] + x.body + [x.etx, x.check]
  }

  function LineBytes(xs: seq<Item>): seq<byte>
  {
    if |xs| == 0 then [] else ItemBytes(xs[0]) + LineBytes(xs[1..])
  }

  /** What the receiver ought to deliver of an item. */
  function Expected(x: Item): seq<Frame>
  {
    if x.Candidate? && CheckPasses(x.body, x.etx, x.check) then [x.body] else []
  }

  function ExpectedAll(xs: seq<Item>): seq<Frame>
  {
    if |xs| == 0 then [] else Expected(xs[0]) + ExpectedAll(xs[1..])
  }

  /** Without timeouts a pass over STX, a header and enough bytes reads exactly one frame. */
  lemma PassReadsFrame(s: seq<byte>, p: nat, body: Frame, etx: byte, check: byte)
    requires Fits(body)
    requires p + |body| + 3 <= |s|
    requires s[p..p + |body| + 3] == [STX] + body + [etx, check]
    ensures var r := ReceivePass(s, p, []);
            && r.pos == p + |body| + 3 && r.rest == [] && !r.overrun
            && r.delivered == if CheckPasses(body, etx, check) then Some(Delivery(p, r.pos, body)) else None
  {
    hide XorAll;
    var n := |body|;
    var w := [STX] + body + [etx, check];
    var t := s[p..p + n + 3];
    assert t[1..n + 1] == body && t[1..5] == body[..4];
    SliceOfSlice(s, p, p + n + 3, 1, n + 1);
    SliceOfSlice(s, p, p + n + 3, 1, 5);
    assert s[p] == t[0] && s[p + 1 + n] == t[n + 1] && s[p + 2 + n] == t[n + 2];
    assert PayloadLength(s[p + 1..p + 5]) == PayloadLength(body);
  }

  lemma ByteSkipped(s: seq<byte>, p: nat)
    requires p < |s| && s[p] != STX
    ensures Receive(s, p, []) == Receive(s, p + 1, [])
  {
    assert ReceivePass(s, p, []) == Pass(p + 1, [], None, false);
  }

  /** Noise without start bytes is skipped byte by byte. */
  lemma {:induction false} NoiseSkipped(s: seq<byte>, p: nat, n: nat)
    requires p + n <= |s|
    requires forall k :: p <= k < p + n ==> s[k] != STX
    ensures Receive(s, p, []) == Receive(s, p + n, [])
    decreases n
  {
    hide Receive;
    if n > 0 {
      ByteSkipped(s, p);
      NoiseSkipped(s, p + 1, n - 1);
    }
  }

  /** From position p to q the loop delivers exactly fs and goes on from q. */
  ghost predicate Advances(s: seq<byte>, p: nat, q: nat, fs: seq<Frame>)
    requires p <= q <= |s|
  {
    var r, r' := Receive(s, p, []), Receive(s, q, []);
    r.pos == r'.pos && r.overrun == r'.overrun && Frames(r.deliveries) == fs + Frames(r'.deliveries)
  }

  /** A pass that reads one frame, as a step of the loop. */
  lemma FrameReceived(s: seq<byte>, p: nat, body: Frame, etx: byte, check: byte, fs: seq<Frame>)
    requires Fits(body)
    requires fs == if CheckPasses(body, etx, check) then [body] else []
    requires p + |body| + 3 <= |s|
    requires s[p..p + |body| + 3] == [STX] + body + [etx, check]
    ensures Advances(s, p, p + |body| + 3, fs)
  {
    hide XorAll;
    PassReadsFrame(s, p, body, etx, check);
    var r' := Receive(s, p + |body| + 3, []);
    var d := Delivery(p, p + |body| + 3, body);
    assert Frames([d] + r'.deliveries) == [body] + Frames(r'.deliveries);
  }

  lemma NoiseReceived(s: seq<byte>, p: nat, noise: seq<byte>)
    requires p + |noise| <= |s| && s[p..p + |noise|] == noise && STX !in noise
    ensures Advances(s, p, p + |noise|, [])
  {
    hide Receive;
    assert forall k :: p <= k < p + |noise| ==> s[k] == noise[k - p];
    NoiseSkipped(s, p, |noise|);
  }

  lemma ItemReceived(s: seq<byte>, p: nat, x: Item)
    requires ItemOk(x) && p + |ItemBytes(x)| <= |s|
    requires s[p..p + |ItemBytes(x)|] == ItemBytes(x)
    ensures Advances(s, p, p + |ItemBytes(x)|, Expected(x))
  {
    hide Receive;
    match x
    case Noise(bytes) => NoiseReceived(s, p, bytes);
    case Candidate(body, etx, check) => FrameReceived(s, p, body, etx, check, Expected(x));
  }

  lemma AdvancesOn(s: seq<byte>, p: nat, q: nat, r: nat, fs: seq<Frame>, gs: seq<Frame>)
    requires p <= q <= r <= |s|
    requires Advances(s, p, q, fs) && Advances(s, q, r, gs)
    ensures Advances(s, p, r, fs + gs)
  {
    hide Receive;
    var t := Frames(Receive(s, r, []).deliveries);
    assert fs + (gs + t) == (fs + gs) + t;
  }

  lemma CutPrefix(s: seq<byte>, p: nat, b: seq<byte>, rest: seq<byte>) returns (n: nat)
    requires p <= |s| && s[p..] == b + rest
    ensures n == |b| && p + n <= |s| && s[p..p + n] == b && s[p + n..] == rest
  {
    n := |b|;
    assert |s[p..]| == n + |rest|;
    assert s[p..p + n] == s[p..][..n];
    assert s[p + n..] == s[p..][n..];
  }

  lemma {:induction false} LineAdvances(s: seq<byte>, p: nat, xs: seq<Item>)
    requires ItemsOk(xs) && p <= |s| && s[p..] == LineBytes(xs)
    ensures Advances(s, p, |s|, ExpectedAll(xs))
    decreases |xs|
  {
    hide Receive, ItemBytes, Expected;
    if |xs| == 0 {
      assert Frames([]) == [];
    } else {
      var n := CutPrefix(s, p, ItemBytes(xs[0]), LineBytes(xs[1..]));
      ItemReceived(s, p, xs[0]);
      LineAdvances(s, p + n, xs[1..]);
      AdvancesOn(s, p, p + n, |s|, Expected(xs[0]), ExpectedAll(xs[1..]));
    }
  }

  /** A run without timeouts over noise and candidate frames delivers, in order and once each,
      exactly the bodies whose end byte and check byte are right, and reads the whole stream. */
  lemma LineReceived(xs: seq<Item>)
    requires ItemsOk(xs)
    ensures var s := LineBytes(xs);
            var r := Receive(s, 0, []);
            Frames(r.deliveries) == ExpectedAll(xs) && r.pos == |s| && !r.overrun
  {
    var s := LineBytes(xs);
    assert s[0..] == s;
    LineAdvances(s, 0, xs);
    assert Receive(s, |s|, []) == Outcome(|s|, [], false);
    assert Frames([]) == [];
  }

  // ---------------------------------------------------------------- damaged frames

  function Intact(body: Frame): Item
  {
    Candidate(body, ETX, XorAll(body))
  }

  /** The wire frame of body with error bytes worked into body, end byte and check byte. */
  function Damaged(body: Frame, e: seq<byte>): Item
    requires LengthSpared(body, e)
  {
    var n := |body|;
    Candidate(Damage(body, e[..n]), XorByte(ETX, e[n]), XorByte(XorAll(body), e[n + 1]))
  }

  /** Damage that spares the length bytes leaves a candidate frame; the receiver delivers
      nothing of it exactly when some column of the damage is odd or the end byte is hit. */
  lemma DamagedItem(body: Frame, e: seq<byte>)
    requires Fits(body) && LengthSpared(body, e)
    ensures ItemOk(Damaged(body, e))
    ensures Expected(Damaged(body, e)) == [] <==> e[|body|] != 0 || !ColumnsEven(e)
  {
    DamageAt(body, e[..|body|], 2);
    DamageAt(body, e[..|body|], 3);
    XorByteZero(body[2]);
    XorByteZero(body[3]);
    AcceptedIffColumnsEven(body, e);
  }

  /** The receiver resynchronises: a frame whose damage the check can see is dropped whole, and
      everything around it is delivered as if it were not there. */
  lemma DamagedFrameDropped(before: seq<Item>, body: Frame, e: seq<byte>, after: seq<Item>)
    requires ItemsOk(before) && ItemsOk(after)
    requires Fits(body) && LengthSpared(body, e) && (e[|body|] != 0 || !ColumnsEven(e))
    ensures var damaged := Receive(LineBytes(before + [Damaged(body, e)] + after), 0, []);
            var clean := Receive(LineBytes(before + after), 0, []);
            !damaged.overrun && Frames(damaged.deliveries) == Frames(clean.deliveries)
  {
    DamagedItem(body, e);
    SilentItemDropped(before, Damaged(body, e), after);
  }

  lemma SilentItemDropped(before: seq<Item>, x: Item, after: seq<Item>)
    requires ItemsOk(before) && ItemsOk(after) && ItemOk(x) && Expected(x) == []
    ensures var damaged := Receive(LineBytes(before + [x] + after), 0, []);
            var clean := Receive(LineBytes(before + after), 0, []);
            !damaged.overrun && Frames(damaged.deliveries) == Frames(clean.deliveries)
  {
    hide Receive, LineBytes, ItemBytes, ItemOk, Expected, ExpectedAll;
    SilentItemExpected(before, x, after);
    LineReceived(before + [x] + after);
    LineReceived(before + after);
  }

  lemma SilentItemExpected(before: seq<Item>, x: Item, after: seq<Item>)
    requires Expected(x) == []
    ensures ExpectedAll(before + [x] + after) == ExpectedAll(before + after)
  {
    hide Expected;
    assert ExpectedAll([x]) == Expected(x) + ExpectedAll([]);
    ExpectedAppend(before + [x], after);
    ExpectedAppend(before, [x]);
    ExpectedAppend(before, after);
    hide ExpectedAll;
    assert ExpectedAll(before) + [] == ExpectedAll(before);
  }

  lemma {:induction false} ExpectedAppend(xs: seq<Item>, ys: seq<Item>)
    ensures ExpectedAll(xs + ys) == ExpectedAll(xs) + ExpectedAll(ys)
    decreases |xs|
  {
    if |xs| == 0 {
      assert xs + ys == ys;
    } else {
      assert (xs + ys)[1..] == xs[1..] + ys;
      ExpectedAppend(xs[1..], ys);
    }
  }

  // ---------------------------------------------------------------- stalled frames

  /** A frame whose payload falls silent before it is as long as the header says is given up, however
      much the header asks for, provided that what came fits the buffer; the loop goes on right
      behind it, and what follows is delivered as if it had not been there. */
  lemma StalledFrameSkipped(s: seq<byte>, p: nat, header: seq<byte>, x: seq<byte>, after: seq<Item>)
    requires p <= |s| && |header| == 4 && s[p..] == [STX] + header + x + LineBytes(after)
    requires |x| < PayloadLength(header) && |x| <= BUFFER_SIZE && ItemsOk(after)
    ensures var r := Receive(s, p, [FULL_READ, FULL_READ, |x|]);
            Frames(r.deliveries) == ExpectedAll(after) && r.pos == |s| && !r.overrun
  {
    hide LineBytes, ItemsOk, ExpectedAll, Receive;
    var q := p + 5 + |x|;
    assert [STX] + header + x + LineBytes(after) == ([STX] + header + x) + LineBytes(after);
    var n := CutPrefix(s, p, [STX] + header + x, LineBytes(after));
    StalledPass(s, p, header, |x|);
    LineAdvances(s, q, after);
    StalledThenRest(s, p, q, [FULL_READ, FULL_READ, |x|]);
    SilentEnd(s);
    assert ExpectedAll(after) + [] == ExpectedAll(after);
  }

  lemma StalledPass(s: seq<byte>, p: nat, header: seq<byte>, m: nat)
    requires p + 5 + m <= |s| && |header| == 4 && s[p] == STX && s[p + 1..p + 5] == header
    requires m < PayloadLength(header) && m <= BUFFER_SIZE
    ensures ReceivePass(s, p, [FULL_READ, FULL_READ, m]) == Pass(p + 5 + m, [], None, false)
  {
  }

  lemma StalledThenRest(s: seq<byte>, p: nat, q: nat, gs: seq<nat>)
    requires p < q <= |s| && ReceivePass(s, p, gs) == Pass(q, [], None, false)
    ensures Receive(s, p, gs) == Receive(s, q, [])
  {
    hide ReceivePass;
  }

  lemma SilentEnd(s: seq<byte>)
    ensures Receive(s, |s|, []) == Outcome(|s|, [], false) && Frames([]) == []
  {
  }

  /** A header that asks for 2000 bytes, of which three come, costs nothing but itself: the frame
      behind it is delivered, although the length field is larger than the buffer. */
  lemma OversizeHeaderHarmless(f: Frame)
    requires Fits(f)
    ensures var s := [STX, 0x32, 0x4F, 0x07, 0xD0, 0x01, 0x02, 0x03] + Wire(f);
            var r := Receive(s, 0, [FULL_READ, FULL_READ, 3]);
            Frames(r.deliveries) == [f] && r.pos == |s| && !r.overrun
  {
    hide Receive, XorAll, Wire, Fits, LineBytes, ExpectedAll;
    var header, x: seq<byte> := [0x32, 0x4F, 0x07, 0xD0], [0x01, 0x02, 0x03];
    var s := [STX, 0x32, 0x4F, 0x07, 0xD0, 0x01, 0x02, 0x03] + Wire(f);
    IntactAlone(f);
    assert s[0..] == [STX] + header + x + LineBytes([Intact(f)]);
    StalledFrameSkipped(s, 0, header, x, [Intact(f)]);
  }

  // ---------------------------------------------------------------- requests

  /** Wire frames of the bodies, with noise in front of each and behind the last. */
  function Interleave(noise: seq<seq<byte>>, bodies: seq<Frame>): (xs: seq<Item>)
    requires |noise| == |bodies| + 1
  {
    if |bodies| == 0 then [Noise(noise[0])]
    else [Noise(noise[0]), Intact(bodies[0])] + Interleave(noise[1..], bodies[1..])
  }

  lemma {:induction false} InterleaveExpected(noise: seq<seq<byte>>, bodies: seq<Frame>)
    requires |noise| == |bodies| + 1
    requires forall i :: 0 <= i < |noise| ==> STX !in noise[i]
    requires forall i :: 0 <= i < |bodies| ==> Fits(bodies[i])
    ensures var xs := Interleave(noise, bodies); ItemsOk(xs) && ExpectedAll(xs) == bodies
    decreases |bodies|
  {
    var xs := Interleave(noise, bodies);
    if |bodies| == 0 {
      assert xs[1..] == [];
    } else {
      var rest := Interleave(noise[1..], bodies[1..]);
      InterleaveExpected(noise[1..], bodies[1..]);
      ExpectedAppend([xs[0], xs[1]], rest);
      assert [xs[0], xs[1]][1..] == [xs[1]] && [xs[1]][1..] == [];
      assert ExpectedAll([xs[0], xs[1]]) == [] + ([bodies[0]] + []);
      assert bodies == [bodies[0]] + bodies[1..];
    }
  }

  /** Exact delivery: requests with payloads the buffer can hold, sent one after the other with
      noise between them, arrive as exactly their bodies, once each and in order. */
  lemma RequestsDelivered(noise: seq<seq<byte>>, rs: seq<Request>)
    requires |noise| == |rs| + 1
    requires forall i :: 0 <= i < |noise| ==> STX !in noise[i]
    requires forall i :: 0 <= i < |rs| ==> |rs[i].params| <= BUFFER_SIZE
    ensures var s := LineBytes(Interleave(noise, Bodies(rs)));
            var r := Receive(s, 0, []);
            Frames(r.deliveries) == Bodies(rs) && r.pos == |s| && !r.overrun
  {
    forall i | 0 <= i < |rs|
      ensures Fits(Bodies(rs)[i])
    {
      RequestWellFormedIff(rs[i]);
    }
    InterleaveExpected(noise, Bodies(rs));
    LineReceived(Interleave(noise, Bodies(rs)));
  }

  /** A request sent on its own arrives as its own body exactly if the buffer can hold its
      parameters: a longer one overruns the buffer, or, from 65536 bytes on, has a false length. */
  lemma DeliverableIff(r: Request)
    ensures RequestBody(r) in Frames(Receive(Wire(RequestBody(r)), 0, []).deliveries) <==> |r.params| <= 1024
  {
    hide Receive, Wire, RequestBody, XorAll;
    var body := RequestBody(r);
    var s := Wire(body);
    RequestWellFormedIff(r);
    BodyLength(r);
    if |r.params| <= BUFFER_SIZE {
      var xs := [Intact(body)];
      LineReceived(xs);
      IntactAlone(body);
      assert ExpectedAll(xs)[0] == body;
    } else {
      var o := Receive(s, 0, []);
      ReceiveSound(s, 0, []);
      forall i | 0 <= i < |o.deliveries|
        ensures Fits(o.deliveries[i].frame)
      {
        assert Genuine(s, o.deliveries[i], 0, o.pos);
      }
      assert !Fits(body);
    }
  }

  lemma BodyLength(r: Request)
    ensures |RequestBody(r)| == 4 + |r.params|
    ensures |r.params| < 65536 ==> PayloadLength(RequestBody(r)) == |r.params|
  {
    RequestWellFormedIff(r);
  }

  lemma IntactAlone(body: Frame)
    ensures LineBytes([Intact(body)]) == Wire(body)
    ensures ExpectedAll([Intact(body)]) == [body]
  {
    assert [Intact(body)][1..] == [];
    assert ItemBytes(Intact(body)) + [] == Wire(body);
  }

  // ---------------------------------------------------------------- timeouts

  /** Reads that are granted at least what they ask for do not differ from reads without timeouts. */
  lemma {:induction false} AmpleGrants(s: seq<byte>, p: nat, gs: seq<nat>)
    requires p <= |s|
    requires Ample(gs)
    ensures Receive(s, p, gs) == Receive(s, p, [])
    decreases |s| - p, |gs|
  {
    if p < |s| {
      var a, b := ReceivePass(s, p, gs), ReceivePass(s, p, []);
      PassAmple(s, p, gs);
      if !a.overrun {
        AmpleGrants(s, a.pos, a.rest);
      }
    }
  }

  predicate Ample(gs: seq<nat>)
  {
    forall i :: 0 <= i < |gs| ==> gs[i] >= FULL_READ
  }

  /** Two passes that differ at most in what is left of their grants. */
  predicate SamePass(a: Pass, b: Pass)
  {
    a.pos == b.pos && a.delivered == b.delivered && a.overrun == b.overrun && Ample(a.rest) && b.rest == []
  }

  lemma YieldAmple(s: seq<byte>, p: nat, size: nat, gs: seq<nat>)
    requires p <= |s| && size <= FULL_READ && Ample(gs)
    ensures Yield(s, p, size, gs) == Yield(s, p, size, []) && Ample(Next(gs))
  {
  }

  lemma PayloadAmple(s: seq<byte>, p: nat, ln: nat, gs: seq<nat>)
    requires p + 5 <= |s| && ln < FULL_READ && Ample(gs)
    ensures SamePass(PayloadRead(s, p, ln, gs), PayloadRead(s, p, ln, []))
  {
    YieldAmple(s, p + 5, ln, gs);
    if Yield(s, p + 5, ln, gs) == ln {
      YieldAmple(s, p + 5 + ln, 2, Next(gs));
    }
  }

  lemma PassAmple(s: seq<byte>, p: nat, gs: seq<nat>)
    requires p < |s| && Ample(gs)
    ensures SamePass(ReceivePass(s, p, gs), ReceivePass(s, p, []))
  {
    YieldAmple(s, p, 1, gs);
    YieldAmple(s, p + 1, 4, Next(gs));
    if Yield(s, p + 1, 4, Next(gs)) == 4 {
      PayloadAmple(s, p, PayloadLength(s[p + 1..p + 5]), Next(Next(gs)));
    }
  }
}
