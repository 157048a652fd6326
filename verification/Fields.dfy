/** Parameter blocks: sequences of fields that a request carries and a reply is read back from. */
module Fields {
  import opened Bytes

  /** One byte; a big-endian 32-bit number; a fixed number of bytes; bytes behind a one-byte
      length; bytes behind a two-byte length. */
  datatype Field = U8 | U32 | Fixed(width: nat) | LVar | LLVar

  datatype Value = Small(b: byte) | Word(w: uint32) | Data(d: seq<byte>)

  type Schema = seq<Field>

  /** The value is one that the builder of the field accepts; a fixed field takes
      the front of a longer value. */
  predicate Typed(f: Field, v: Value)
  {
    match f
    case U8 => v.Small?
    case U32 => v.Word?
    case Fixed(n) => v.Data? && n <= |v.d|
    case LVar => v.Data?
    case LLVar => v.Data?
  }

  /** The field has room for the whole value. */
  predicate Fits(f: Field, v: Value)
    requires Typed(f, v)
  {
    match f
    case U8 => true
    case U32 => true
    case Fixed(n) => |v.d| == n
    case LVar => |v.d| < 256
    case LLVar => |v.d| < 65536
  }

  predicate AllTyped(fs: Schema, vs: seq<Value>)
  {
    |fs| == |vs| && forall i :: 0 <= i < |fs| ==> Typed(fs[i], vs[i])
  }

  predicate AllFit(fs: Schema, vs: seq<Value>)
    requires AllTyped(fs, vs)
  {
    forall i :: 0 <= i < |fs| ==> Fits(fs[i], vs[i])
  }

  function WordBytes(w: uint32): (b: seq<byte>)
    ensures |b| == 4
  {
    var n := w as nat;
    [(n / 0x100_0000) as byte, (n / 0x1_0000 % 256) as byte, (n / 256 % 256) as byte, (n % 256) as byte]
  }

  function BytesWord(b: seq<byte>): uint32
    requires |b| == 4
  {
    (((b[0] as nat * 256 + b[1] as nat) * 256 + b[2] as nat) * 256 + b[3] as nat) as uint32
  }

  /** What the builders append for a field; lengths are cut to the width of their field. */
  function EncodeField(f: Field, v: Value): seq<byte>
    requires Typed(f, v)
  {
    match f
    case U8 => [v.b]
    case U32 => WordBytes(v.w)
    case Fixed(n) => v.d[..n]
    case LVar => [(|v.d| % 256) as byte] + v.d
    case LLVar => [(|v.d| / 256 % 256) as byte, (|v.d| % 256) as byte] + v.d
  }

  function Encode(fs: Schema, vs: seq<Value>): seq<byte>
    requires AllTyped(fs, vs)
  {
    if |fs| == 0 then [] else EncodeField(fs[0], vs[0]) + Encode(fs[1..], vs[1..])
  }

  /** Read one field off the front of b; None if b is too short. */
  function DecodeField(f: Field, b: seq<byte>): Option<(Value, seq<byte>)>
  {
    match f
    case U8 => if |b| < 1 then None else Some((Small(b[0]), b[1..]))
    case U32 => if |b| < 4 then None else Some((Word(BytesWord(b[..4])), b[4..]))
    case Fixed(n) => Take(b, 0, n)
    case LVar => if |b| < 1 then None else Take(b, 1, b[0] as nat)
    case LLVar => if |b| < 2 then None else Take(b, 2, b[0] as nat * 256 + b[1] as nat)
  }

  /** n bytes from position p. */
  function Take(b: seq<byte>, p: nat, n: nat): Option<(Value, seq<byte>)>
  {
    if |b| < p + n then None else Some((Data(b[p..p + n]), b[p + n..]))
  }

  function Decode(fs: Schema, b: seq<byte>): Option<(seq<Value>, seq<byte>)>
    decreases |fs|
  {
    if |fs| == 0 then Some(([], b))
    else
      match DecodeField(fs[0], b)
      case None => None
      case Some((v, rest)) =>
        match Decode(fs[1..], rest)
        case None => None
        case Some((vs, end)) => Some(([v] + vs, end))
  }

  // ---------------------------------------------------------------- round trips

  /** The bytes of a number stand with the highest first. */
  lemma WordBigEndian(b: seq<byte>)
    requires |b| == 4
    ensures BytesWord(b) as int
            == b[0] as int * 0x100_0000 + b[1] as int * 0x1_0000 + b[2] as int * 0x100 + b[3] as int
  {
  }

  /** Dividing by 256 step by step. */
  lemma Digits(n: nat)
    ensures n / 0x1_0000 == n / 256 / 256 && n / 0x100_0000 == n / 256 / 256 / 256
  {
  }

  lemma LastDigit(m: nat, b: byte)
    ensures (m * 256 + b as nat) / 256 == m && (m * 256 + b as nat) % 256 == b as nat
  {
  }

  lemma WordRoundTrip(w: uint32)
    ensures BytesWord(WordBytes(w)) == w
  {
    var n := w as nat;
    Digits(n);
    var (m1, m2, m3) := (n / 256, n / 256 / 256, n / 256 / 256 / 256);
    assert n == m1 * 256 + n % 256 && m1 == m2 * 256 + m1 % 256 && m2 == m3 * 256 + m2 % 256;
    assert WordBytes(w) == [m3 as byte, (m2 % 256) as byte, (m1 % 256) as byte, (n % 256) as byte];
  }

  lemma BytesRoundTrip(b: seq<byte>)
    requires |b| == 4
    ensures WordBytes(BytesWord(b)) == b
  {
    var m3 := b[0] as nat;
    var m2 := m3 * 256 + b[1] as nat;
    var m1 := m2 * 256 + b[2] as nat;
    LastDigit(m3, b[1]);
    LastDigit(m2, b[2]);
    LastDigit(m1, b[3]);
    Digits(m1 * 256 + b[3] as nat);
  }

  /** Taking the front of d from behind a header of p bytes. */
  lemma TakeBehind(header: seq<byte>, d: seq<byte>, rest: seq<byte>, n: nat)
    requires n <= |d|
    ensures Take(header + d + rest, |header|, n) == Some((Data(d[..n]), d[n..] + rest))
    ensures n == |d| ==> d[..n] == d && d[n..] + rest == rest
    ensures n != |d| ==> d[..n] != d
  {
    var b := header + d + rest;
    assert b[|header|..|header| + n] == d[..n];
    assert b[|header| + n..] == d[n..] + rest;
  }

  /** The length that two bytes say for m bytes. */
  lemma CutLength(m: nat) returns (n: nat)
    ensures n == m / 256 % 256 * 256 + m % 256 <= m
    ensures n == m <==> m < 65536
  {
    n := m / 256 % 256 * 256 + m % 256;
    assert m == m / 65536 * 65536 + n;
  }

  lemma WordFieldRoundTrip(w: uint32, rest: seq<byte>)
    ensures DecodeField(U32, WordBytes(w) + rest) == Some((Word(w), rest))
  {
    WordRoundTrip(w);
    hide WordBytes, BytesWord;
    var e := WordBytes(w) + rest;
    assert e[..4] == WordBytes(w) && e[4..] == rest;
  }

  /** What a field reads back as, in front of rest. */
  predicate ReadsBack(f: Field, v: Value, rest: seq<byte>)
    requires Typed(f, v)
  {
    var r := DecodeField(f, EncodeField(f, v) + rest);
    if Fits(f, v) then r == Some((v, rest)) else r.Some? && r.value.0 != v
  }

  lemma FixedRoundTrip(n: nat, d: seq<byte>, rest: seq<byte>)
    requires n <= |d|
    ensures ReadsBack(Fixed(n), Data(d), rest)
  {
    hide Take;
    var e := d[..n];
    TakeBehind([], e, rest, n);
    assert [] + e + rest == e + rest;
    assert |d| == n ==> e == d;
  }

  lemma LVarRoundTrip(d: seq<byte>, rest: seq<byte>)
    ensures ReadsBack(LVar, Data(d), rest)
  {
    hide Take;
    TakeBehind([(|d| % 256) as byte], d, rest, |d| % 256);
  }

  lemma LLVarRoundTrip(d: seq<byte>, rest: seq<byte>)
    ensures ReadsBack(LLVar, Data(d), rest)
  {
    hide Take;
    var n := CutLength(|d|);
    var header := [(|d| / 256 % 256) as byte, (|d| % 256) as byte];
    TakeBehind(header, d, rest, n);
    assert EncodeField(LLVar, Data(d)) + rest == header + d + rest;
    assert DecodeField(LLVar, header + d + rest) == Take(header + d + rest, 2, n);
  }

  /** A field is read back whole exactly if it has room for the value. */
  lemma FieldRoundTrip(f: Field, v: Value, rest: seq<byte>)
    requires Typed(f, v)
    ensures ReadsBack(f, v, rest)
  {
    match f
    case U8 => assert ([v.b] + rest)[1..] == rest;
    case U32 => WordFieldRoundTrip(v.w, rest);
    case Fixed(n) => FixedRoundTrip(n, v.d, rest);
    case LVar => LVarRoundTrip(v.d, rest);
    case LLVar => LLVarRoundTrip(v.d, rest);
    hide DecodeField, EncodeField, Fits;
  }

  /** A parameter block is read back exactly if every field has room for its value. */
  lemma {:induction false} RoundTripIff(fs: Schema, vs: seq<Value>, rest: seq<byte>)
    requires AllTyped(fs, vs)
    ensures Decode(fs, Encode(fs, vs) + rest) == Some((vs, rest)) <==> AllFit(fs, vs)
    decreases |fs|
  {
    hide DecodeField, EncodeField, Typed, Fits;
    if |fs| == 0 {
      assert [] + rest == rest;
    } else {
      var tail := Encode(fs[1..], vs[1..]);
      assert Encode(fs, vs) + rest == EncodeField(fs[0], vs[0]) + (tail + rest);
      FieldRoundTrip(fs[0], vs[0], tail + rest);
      RoundTripIff(fs[1..], vs[1..], rest);
      assert vs == [vs[0]] + vs[1..];
      assert AllFit(fs, vs) <==> Fits(fs[0], vs[0]) && AllFit(fs[1..], vs[1..]) by {
        assert forall i :: 0 < i < |fs| ==> fs[i] == fs[1..][i - 1] && vs[i] == vs[1..][i - 1];
      }
    }
  }

  lemma TakenExactly(b: seq<byte>, p: nat, n: nat)
    requires Take(b, p, n).Some?
    ensures var (v, rest) := Take(b, p, n).value; v.Data? && |v.d| == n && b[..p] + v.d + rest == b
  {
  }

  lemma LengthBytes(hi: byte, lo: byte)
    ensures var n := hi as nat * 256 + lo as nat; n < 65536 && (n / 256 % 256) as byte == hi && (n % 256) as byte == lo
  {
  }

  lemma LLVarDecodedExactly(b: seq<byte>)
    requires DecodeField(LLVar, b).Some?
    ensures var (v, rest) := DecodeField(LLVar, b).value;
            v.Data? && |v.d| < 65536 && EncodeField(LLVar, v) + rest == b
  {
    hide Take;
    var n := b[0] as nat * 256 + b[1] as nat;
    TakenExactly(b, 2, n);
    LengthBytes(b[0], b[1]);
    assert b[..2] == [b[0], b[1]];
  }

  lemma FieldDecodedExactly(f: Field, b: seq<byte>)
    requires DecodeField(f, b).Some?
    ensures var (v, rest) := DecodeField(f, b).value;
            Typed(f, v) && Fits(f, v) && EncodeField(f, v) + rest == b
  {
    hide Take, WordBytes, BytesWord;
    match f
    case U8 =>
    case U32 => BytesRoundTrip(b[..4]);
    case Fixed(n) =>
      TakenExactly(b, 0, n);
      assert b[..0] == [];
    case LVar =>
      TakenExactly(b, 1, b[0] as nat);
      assert b[..1] == [b[0]];
    case LLVar => LLVarDecodedExactly(b);
  }

  /** Whatever can be read off a block is what the builders would have written there. */
  lemma {:induction false} DecodeSound(fs: Schema, b: seq<byte>)
    requires Decode(fs, b).Some?
    ensures var (vs, rest) := Decode(fs, b).value;
            AllTyped(fs, vs) && AllFit(fs, vs) && Encode(fs, vs) + rest == b
    decreases |fs|
  {
    hide DecodeField, EncodeField, Typed, Fits;
    if |fs| == 0 {
      assert Encode([], []) + b == b;
    } else {
      var (v, b1) := DecodeField(fs[0], b).value;
      FieldDecodedExactly(fs[0], b);
      DecodeSound(fs[1..], b1);
      var (vs, rest) := Decode(fs[1..], b1).value;
      assert ([v] + vs)[1..] == vs;
      assert EncodeField(fs[0], v) + (Encode(fs[1..], vs) + rest) == EncodeField(fs[0], v) + Encode(fs[1..], vs) + rest;
    }
  }

  /** Blocks whose values fit are prefix-free: the bytes determine the values and what follows. */
  lemma EncodeInjective(fs: Schema, vs: seq<Value>, ws: seq<Value>, x: seq<byte>, y: seq<byte>)
    requires AllTyped(fs, vs) && AllFit(fs, vs) && AllTyped(fs, ws) && AllFit(fs, ws)
    requires Encode(fs, vs) + x == Encode(fs, ws) + y
    ensures vs == ws && x == y
  {
    RoundTripIff(fs, vs, x);
    RoundTripIff(fs, ws, y);
  }

  // ---------------------------------------------------------------- reading replies

  function LvarToVector(buf: seq<byte>): seq<byte>
  {
    if |buf| < 1 then []
    else
      var ln := buf[0] as nat;
      if |buf| < 1 + ln then [] else buf[1..1 + ln]
  }

  function LlvarToVector(buf: seq<byte>): seq<byte>
  {
    if |buf| < 2 then []
    else
      var ln := buf[0] as nat * 256 + buf[1] as nat;
      if |buf| < 2 + ln then [] else buf[2..2 + ln]
  }

  /** The slices give the value back exactly if it fits its length field, whatever follows it. */
  lemma LvarExact(d: seq<byte>, rest: seq<byte>)
    ensures LvarToVector(EncodeField(LVar, Data(d)) + rest) == d <==> |d| < 256
    ensures LlvarToVector(EncodeField(LLVar, Data(d)) + rest) == d <==> |d| < 65536
  {
    FieldRoundTrip(LVar, Data(d), rest);
    FieldRoundTrip(LLVar, Data(d), rest);
  }

  const TRACKS: Schema := [LVar, LVar, LVar]

  /** The three tracks of a magnetic stripe, read one after the other; None where the
      program would read beyond the reply. What is read is what the track writer would have
      written, and nothing is missed. */
  method ReadTracks(buf: seq<byte>) returns (tracks: Option<(seq<byte>, seq<byte>, seq<byte>)>)
    ensures tracks.Some? <==> Decode(TRACKS, buf).Some?
    ensures tracks.Some? ==>
      var (t1, t2, t3) := tracks.value;
      Decode(TRACKS, buf).value.0 == [Data(t1), Data(t2), Data(t3)]
  {
    TracksUnfold(buf);
    hide Decode, DecodeField;
    var index := 0;
    if index >= |buf| { ShortField(buf, index); return None; }
    var ln := buf[index] as nat;
    index := index + 1;
    if index + ln > |buf| { ShortField(buf, index - 1); return None; }
    LvarAt(buf, index - 1);
    var track1 := buf[index..index + ln];
    index := index + ln;
    if index >= |buf| { ShortField(buf, index); return None; }
    ln := buf[index] as nat;
    index := index + 1;
    if index + ln > |buf| { ShortField(buf, index - 1); return None; }
    LvarAt(buf, index - 1);
    var track2 := buf[index..index + ln];
    index := index + ln;
    if index >= |buf| { ShortField(buf, index); return None; }
    ln := buf[index] as nat;
    index := index + 1;
    if index + ln > |buf| { ShortField(buf, index - 1); return None; }
    LvarAt(buf, index - 1);
    var track3 := buf[index..index + ln];
    return Some((track1, track2, track3));
  }

  lemma TracksUnfold(buf: seq<byte>)
    ensures Decode(TRACKS, buf) ==
      match DecodeField(LVar, buf[0..])
      case None => None
      case Some((v1, b1)) =>
        match DecodeField(LVar, b1)
        case None => None
        case Some((v2, b2)) =>
          match DecodeField(LVar, b2)
          case None => None
          case Some((v3, b3)) => Some(([v1, v2, v3], b3))
  {
    hide DecodeField;
    assert buf[0..] == buf;
    assert TRACKS[1..] == [LVar, LVar] && [LVar, LVar][1..] == [LVar] && [LVar][1..] == [];
    match DecodeField(LVar, buf)
    case None =>
    case Some((v1, b1)) =>
      match DecodeField(LVar, b1)
      case None =>
      case Some((v2, b2)) =>
        match DecodeField(LVar, b2)
        case None =>
        case Some((v3, b3)) =>
          assert [v3] + [] == [v3] && [v2] + [v3] == [v2, v3] && [v1] + [v2, v3] == [v1, v2, v3];
          assert Decode([], b3) == Some(([], b3));
          assert Decode([LVar], b2) == Some(([v3], b3));
          assert Decode([LVar, LVar], b1) == Some(([v2, v3], b3));
  }

  lemma ShortField(buf: seq<byte>, p: nat)
    requires p <= |buf|
    requires p < |buf| ==> p + 1 + buf[p] as nat > |buf|
    ensures DecodeField(LVar, buf[p..]) == None
  {
  }

  lemma LvarAt(buf: seq<byte>, p: nat)
    requires p < |buf| && p + 1 + buf[p] as nat <= |buf|
    ensures var q := p + 1 + buf[p] as nat;
            DecodeField(LVar, buf[p..]) == Some((Data(buf[p + 1..q]), buf[q..]))
  {
    var n := buf[p] as nat;
    assert buf[p..][0] == buf[p];
    assert buf[p..][1..1 + n] == buf[p + 1..p + 1 + n];
    assert buf[p..][1 + n..] == buf[p + 1 + n..];
  }

  // ---------------------------------------------------------------- building requests

  lemma {:induction false} EncodeAppend(fs: Schema, vs: seq<Value>, f: Field, v: Value)
    requires AllTyped(fs, vs) && Typed(f, v)
    ensures AllTyped(fs + [f], vs + [v])
    ensures Encode(fs + [f], vs + [v]) == Encode(fs, vs) + EncodeField(f, v)
    decreases |fs|
  {
    hide EncodeField, Typed;
    if |fs| == 0 {
      assert Encode([f][1..], [v][1..]) == [];
      assert [] + [f] == [f] && [] + [v] == [v];
    } else {
      EncodeAppend(fs[1..], vs[1..], f, v);
      assert (fs + [f])[1..] == fs[1..] + [f] && (vs + [v])[1..] == vs[1..] + [v];
    }
  }

  /** A parameter block under construction: bytes appended one at a time, field by field. */
  class Block {
    var tmp: seq<byte>
    ghost var fields: Schema
    ghost var values: seq<Value>

    ghost predicate Valid()
      reads this
    {
      AllTyped(fields, values) && tmp == Encode(fields, values)
    }

    constructor ()
      ensures Valid() && fields == [] && values == [] && tmp == []
    {
      tmp, fields, values := [], [], [];
    }

    method PushByte(b: byte)
      requires Valid()
      modifies this
      ensures Valid() && fields == old(fields) + [U8] && values == old(values) + [Small(b)]
      ensures tmp == old(tmp) + [b]
    {
      EncodeAppend(fields, values, U8, Small(b));
      tmp := tmp + [b];
      fields, values := fields + [U8], values + [Small(b)];
    }

    method PushWord(w: uint32)
      requires Valid()
      modifies this
      ensures Valid() && fields == old(fields) + [U32] && values == old(values) + [Word(w)]
      ensures tmp == old(tmp) + [(w as nat / 0x100_0000) as byte, (w as nat / 0x1_0000 % 256) as byte,
                                 (w as nat / 256 % 256) as byte, (w as nat % 256) as byte]
    {
      hide Encode, EncodeField, WordBytes;
      EncodeAppend(fields, values, U32, Word(w));
      WordFieldBytes(tmp, w);
      var n := w as nat;
      tmp := tmp + [(n / 0x100_0000 % 256) as byte];
      tmp := tmp + [(n / 0x1_0000 % 256) as byte];
      tmp := tmp + [(n / 256 % 256) as byte];
      tmp := tmp + [(n % 256) as byte];
      fields, values := fields + [U32], values + [Word(w)];
    }

    /** The loop that copies the first n bytes of a vector behind what has been written. */
    method Copy(d: seq<byte>, n: nat)
      requires n <= |d|
      modifies this`tmp
      ensures tmp == old(tmp) + d[..n]
    {
      var i := 0;
      while i < n
        invariant 0 <= i <= n && tmp == old(tmp) + d[..i]
      {
        tmp := tmp + [d[i]];
        i := i + 1;
      }
    }

    method PushFixed(d: seq<byte>, n: nat)
      requires Valid() && n <= |d|
      modifies this
      ensures Valid() && fields == old(fields) + [Fixed(n)] && values == old(values) + [Data(d)]
      ensures tmp == old(tmp) + d[..n]
    {
      EncodeAppend(fields, values, Fixed(n), Data(d));
      Copy(d, n);
      fields, values := fields + [Fixed(n)], values + [Data(d)];
    }

    method PushLvar(d: seq<byte>)
      requires Valid()
      modifies this
      ensures Valid() && fields == old(fields) + [LVar] && values == old(values) + [Data(d)]
      ensures tmp == old(tmp) + [(|d| % 256) as byte] + d
    {
      hide Encode, EncodeField;
      EncodeAppend(fields, values, LVar, Data(d));
      var ln := (|d| % 256) as byte;
      LVarBytes(tmp, d, ln);
      tmp := tmp + [ln];
      Copy(d, |d|);
      fields, values := fields + [LVar], values + [Data(d)];
    }

    /** Eight bytes, two flags and seven bytes. */
    method PushAuthentication(r2: seq<byte>, selfDestruction: byte, snReset: byte, dateTime: seq<byte>)
      requires Valid() && |r2| >= 8 && |dateTime| >= 7 && fields == [] && values == [] && tmp == []
      modifies this
      ensures Valid() && fields == [Fixed(8), U8, U8, Fixed(7)]
      ensures values == [Data(r2), Small(selfDestruction), Small(snReset), Data(dateTime)]
      ensures tmp == r2[..8] + [selfDestruction] + [snReset] + dateTime[..7]
    {
      hide Encode, EncodeField, AllTyped;
      PushFixed(r2, 8);
      PushByte(selfDestruction);
      PushByte(snReset);
      PushFixed(dateTime, 7);
    }

    /** Five one-byte-length fields in a row. */
    method PushLvars(a: seq<byte>, b: seq<byte>, c: seq<byte>, d: seq<byte>, e: seq<byte>)
      requires Valid()
      modifies this
      ensures Valid() && fields == old(fields) + [LVar, LVar, LVar, LVar, LVar]
      ensures values == old(values) + [Data(a), Data(b), Data(c), Data(d), Data(e)]
      ensures tmp == old(tmp) + [(|a| % 256) as byte] + a + [(|b| % 256) as byte] + b + [(|c| % 256) as byte] + c
                     + [(|d| % 256) as byte] + d + [(|e| % 256) as byte] + e
    {
      hide Encode, EncodeField, AllTyped;
      PushLvar(a);
      PushLvar(b);
      PushLvar(c);
      PushLvar(d);
      PushLvar(e);
    }

    method PushLlvar(d: seq<byte>)
      requires Valid()
      modifies this
      ensures Valid() && fields == old(fields) + [LLVar] && values == old(values) + [Data(d)]
      ensures tmp == old(tmp) + [(|d| / 256 % 256) as byte, (|d| % 256) as byte] + d
    {
      hide Encode, EncodeField;
      EncodeAppend(fields, values, LLVar, Data(d));
      var hi, lo := (|d| / 256 % 256) as byte, (|d| % 256) as byte;
      LLVarBytes(tmp, d, hi, lo);
      tmp := tmp + [hi];
      tmp := tmp + [lo];
      Copy(d, |d|);
      fields, values := fields + [LLVar], values + [Data(d)];
    }
  }

  lemma WordFieldBytes(tmp: seq<byte>, w: uint32)
    ensures var n := w as nat;
            var bytes := [(n / 0x100_0000) as byte, (n / 0x1_0000 % 256) as byte, (n / 256 % 256) as byte, (n % 256) as byte];
            && tmp + [(n / 0x100_0000 % 256) as byte] + [(n / 0x1_0000 % 256) as byte] + [(n / 256 % 256) as byte]
                 + [(n % 256) as byte] == tmp + bytes
            && EncodeField(U32, Word(w)) == bytes
  {
  }

  lemma LVarBytes(tmp: seq<byte>, d: seq<byte>, ln: byte)
    requires ln == (|d| % 256) as byte
    ensures tmp + [ln] + d[..|d|] == tmp + EncodeField(LVar, Data(d)) == tmp + [ln] + d
  {
  }

  lemma LLVarBytes(tmp: seq<byte>, d: seq<byte>, hi: byte, lo: byte)
    requires hi == (|d| / 256 % 256) as byte && lo == (|d| % 256) as byte
    ensures tmp + [hi] + [lo] + d[..|d|] == tmp + EncodeField(LLVar, Data(d)) == tmp + [hi, lo] + d
  {
  }

  /** In front of any further bytes, tmp reads back as the values vs exactly if room holds. */
  ghost predicate ReadBackIff(fs: Schema, vs: seq<Value>, tmp: seq<byte>, room: bool)
  {
    forall rest: seq<byte> :: (Decode(fs, tmp + rest) == Some((vs, rest)) <==> room)
  }

  /** The tracks to be formatted: they can be read back, by the track reader, exactly if none
      of them is longer than a one-byte length can say. */
  method FormatTracks(track1: seq<byte>, track2: seq<byte>, track3: seq<byte>) returns (tmp: seq<byte>)
    ensures var vs := [Data(track1), Data(track2), Data(track3)];
      ReadBackIff(TRACKS, vs, tmp, |track1| < 256 && |track2| < 256 && |track3| < 256)
    ensures tmp == [(|track1| % 256) as byte] + track1 + [(|track2| % 256) as byte] + track2
                   + [(|track3| % 256) as byte] + track3
  {
    hide Encode, EncodeField, Decode, ReadBackIff;
    var b := new Block();
    b.PushLvar(track1);
    b.PushLvar(track2);
    b.PushLvar(track3);
    tmp := b.tmp;
    assert b.fields == TRACKS && b.values == [Data(track1), Data(track2), Data(track3)];
    RoundTripIffAll(b.fields, b.values);
    assert AllFit(b.fields, b.values) <==> Fits(LVar, b.values[0]) && Fits(LVar, b.values[1]) && Fits(LVar, b.values[2]);
  }

  const WORK_KEY: Schema := [U32, LLVar, LLVar, LLVar, U8]

  /** The work key update: the device can read index, keys and mode back exactly if each
      key is shorter than 65536 bytes. */
  method UpdateWorkKey(index: uint32, pinKey: seq<byte>, macKey: seq<byte>, tdkKey: seq<byte>, writeMode: byte)
    returns (tmp: seq<byte>)
    ensures var vs := [Word(index), Data(pinKey), Data(macKey), Data(tdkKey), Small(writeMode)];
      ReadBackIff([U32, LLVar, LLVar, LLVar, U8], vs, tmp, |pinKey| < 65536 && |macKey| < 65536 && |tdkKey| < 65536)
    ensures tmp == [(index as nat / 0x100_0000) as byte, (index as nat / 0x1_0000 % 256) as byte,
                    (index as nat / 256 % 256) as byte, (index as nat % 256) as byte]
                   + [(|pinKey| / 256 % 256) as byte, (|pinKey| % 256) as byte] + pinKey
                   + [(|macKey| / 256 % 256) as byte, (|macKey| % 256) as byte] + macKey
                   + [(|tdkKey| / 256 % 256) as byte, (|tdkKey| % 256) as byte] + tdkKey + [writeMode]
  {
    hide Encode, EncodeField, Decode, ReadBackIff;
    var b := new Block();
    b.PushWord(index);
    b.PushLlvar(pinKey);
    b.PushLlvar(macKey);
    b.PushLlvar(tdkKey);
    b.PushByte(writeMode);
    tmp := b.tmp;
    ghost var vs := [Word(index), Data(pinKey), Data(macKey), Data(tdkKey), Small(writeMode)];
    assert b.fields == WORK_KEY && b.values == vs;
    RoundTripIffAll(b.fields, b.values);
    assert AllFit(b.fields, b.values) <==> Fits(LLVar, vs[1]) && Fits(LLVar, vs[2]) && Fits(LLVar, vs[3]);
  }

  const SERIAL_DOWNLOAD: Schema := [Fixed(8), U8, U8, Fixed(7), LVar, LVar, LVar, LVar, LVar, LLVar]

  lemma SerialDownloadFits(vs: seq<Value>)
    requires AllTyped(SERIAL_DOWNLOAD, vs)
    ensures AllFit(SERIAL_DOWNLOAD, vs) <==>
            && |vs[0].d| == 8 && |vs[3].d| == 7 && |vs[4].d| < 256 && |vs[5].d| < 256 && |vs[6].d| < 256
            && |vs[7].d| < 256 && |vs[8].d| < 256 && |vs[9].d| < 65536
  {
    assert AllFit(SERIAL_DOWNLOAD, vs) ==>
      Fits(Fixed(8), vs[0]) && Fits(Fixed(7), vs[3]) && Fits(LVar, vs[4]) && Fits(LVar, vs[5])
      && Fits(LVar, vs[6]) && Fits(LVar, vs[7]) && Fits(LVar, vs[8]) && Fits(LLVar, vs[9]);
  }

  /** The hardware serial number download: two fixed vectors, two flags, five one-byte-length fields
      and one two-byte-length field. It can be read back exactly if every field has room. */
  method SerialDownload(
    r2: seq<byte>, selfDestruction: byte, snReset: byte, dateTime: seq<byte>, serialNumber: seq<byte>,
    serialNumberKey: seq<byte>, masterKey: seq<byte>, customerNumber: seq<byte>, organizationKey: seq<byte>,
    additionalKey: seq<byte>)
    returns (tmp: seq<byte>)
    requires |r2| >= 8 && |dateTime| >= 7
    ensures
      ReadBackIff([Fixed(8), U8, U8, Fixed(7), LVar, LVar, LVar, LVar, LVar, LLVar],
        [Data(r2), Small(selfDestruction), Small(snReset), Data(dateTime), Data(serialNumber), Data(serialNumberKey),
         Data(masterKey), Data(customerNumber), Data(organizationKey), Data(additionalKey)],
        tmp,
        && |r2| == 8 && |dateTime| == 7 && |serialNumber| < 256 && |serialNumberKey| < 256 && |masterKey| < 256
        && |customerNumber| < 256 && |organizationKey| < 256 && |additionalKey| < 65536)
    ensures tmp == r2[..8] + [selfDestruction] + [snReset] + dateTime[..7]
                   + [(|serialNumber| % 256) as byte] + serialNumber
                   + [(|serialNumberKey| % 256) as byte] + serialNumberKey + [(|masterKey| % 256) as byte] + masterKey
                   + [(|customerNumber| % 256) as byte] + customerNumber
                   + [(|organizationKey| % 256) as byte] + organizationKey
                   + [(|additionalKey| / 256 % 256) as byte, (|additionalKey| % 256) as byte] + additionalKey
  {
    hide Encode, EncodeField, Decode, ReadBackIff, Typed, Fits, AllFit;
    var b := new Block();
    b.PushAuthentication(r2, selfDestruction, snReset, dateTime);
    b.PushLvars(serialNumber, serialNumberKey, masterKey, customerNumber, organizationKey);
    b.PushLlvar(additionalKey);
    tmp := b.tmp;
    ghost var fields, values := b.fields, b.values;
    assert fields == SERIAL_DOWNLOAD;
    assert values == [Data(r2), Small(selfDestruction), Small(snReset), Data(dateTime), Data(serialNumber),
      Data(serialNumberKey), Data(masterKey), Data(customerNumber), Data(organizationKey), Data(additionalKey)];
    SerialDownloadFits(values);
    RoundTripIffAll(fields, values);
  }

  lemma RoundTripIffAll(fs: Schema, vs: seq<Value>)
    requires AllTyped(fs, vs)
    ensures ReadBackIff(fs, vs, Encode(fs, vs), AllFit(fs, vs))
  {
    forall rest: seq<byte>
      ensures Decode(fs, Encode(fs, vs) + rest) == Some((vs, rest)) <==> AllFit(fs, vs)
    {
      RoundTripIff(fs, vs, rest);
    }
  }
}
