/** Which corruptions of a frame the receiver's check lets through.

    A corruption is a string of error bytes, combined by exclusive or with the
    part of the wire frame that follows the start byte. */
module ErrorDetection {
  import opened Bytes
  import opened Framing

  /** What the receiver compares once it has a body and the two bytes after it. */
  predicate CheckPasses(body: Frame, etx: byte, check: byte)
  {
    etx == ETX && check == XorAll(body)
  }

  function Damage(s: seq<byte>, e: seq<byte>): (r: seq<byte>)
    requires |s| == |e|
    ensures |r| == |s|
  {
    if |s| == 0 then [] else Damage(s[..|s| - 1], e[..|e| - 1]) + [XorByte(s[|s| - 1], e[|e| - 1])]
  }

  lemma {:induction false} DamageAt(s: seq<byte>, e: seq<byte>, k: nat)
    requires |s| == |e| && k < |s|
    ensures Damage(s, e)[k] == XorByte(s[k], e[k])
    decreases |s|
  {
    if k < |s| - 1 {
      DamageAt(s[..|s| - 1], e[..|e| - 1], k);
    }
  }

  /** Number of error bits in column j, that is, in digit j of the error bytes. */
  function ColumnCount(e: seq<byte>, j: nat): nat
  {
    if |e| == 0 then 0 else ColumnCount(e[..|e| - 1], j) + Bit(e[|e| - 1] as nat, j)
  }

  /** Number of error bits in columns below k. */
  function FlipCount(e: seq<byte>, k: nat): nat
  {
    if k == 0 then 0 else FlipCount(e, k - 1) + ColumnCount(e, k - 1)
  }

  /** Every column carries an even number of error bits. */
  ghost predicate ColumnsEven(e: seq<byte>)
  {
    forall j: nat :: j < 8 ==> ColumnCount(e, j) % 2 == 0
  }

  // ---------------------------------------------------------------- algebra of the check byte

  lemma XorByteZero(a: byte)
    ensures XorByte(a, 0) == a && XorByte(0, a) == a
  {
    XorZero(a as nat);
  }

  lemma XorByteSwap(a: byte, b: byte, c: byte, d: byte)
    ensures XorByte(XorByte(a, b), XorByte(c, d)) == XorByte(XorByte(a, c), XorByte(b, d))
  {
    var (p, q, r, s) := (a as nat, b as nat, c as nat, d as nat);
    calc {
      Xor(Xor(p, q), Xor(r, s));
      { XorAssociates(p, q, Xor(r, s)); XorAssociates(q, r, s); }
      Xor(p, Xor(Xor(q, r), s));
      { XorCommutes(q, r); XorAssociates(r, q, s); }
      Xor(p, Xor(r, Xor(q, s)));
      { XorAssociates(p, r, Xor(q, s)); }
      Xor(Xor(p, r), Xor(q, s));
    }
  }

  lemma {:induction false} XorAllAppend(s: seq<byte>, t: seq<byte>)
    ensures XorAll(s + t) == XorByte(XorAll(s), XorAll(t))
    decreases |t|
  {
    if |t| == 0 {
      assert s + t == s;
      XorByteZero(XorAll(s));
    } else {
      var t', b := t[..|t| - 1], t[|t| - 1];
      assert (s + t)[..|s + t| - 1] == s + t';
      XorAllAppend(s, t');
      XorAssociates(XorAll(s) as nat, XorAll(t') as nat, b as nat);
    }
  }

  lemma {:induction false} XorAllDamage(s: seq<byte>, e: seq<byte>)
    requires |s| == |e|
    ensures XorAll(Damage(s, e)) == XorByte(XorAll(s), XorAll(e))
    decreases |s|
  {
    if |s| == 0 {
      XorByteZero(0);
    } else {
      var n := |s| - 1;
      var d := Damage(s[..n], e[..n]);
      assert Damage(s, e) == d + [XorByte(s[n], e[n])];
      assert Damage(s, e)[..n] == d;
      XorAllDamage(s[..n], e[..n]);
      XorByteSwap(XorAll(s[..n]), XorAll(e[..n]), s[n], e[n]);
    }
  }

  /** Digit j of the exclusive or of a string is the parity of column j. */
  lemma {:induction false} XorAllIsColumnParity(e: seq<byte>, j: nat)
    ensures Bit(XorAll(e) as nat, j) == ColumnCount(e, j) % 2
    decreases |e|
  {
    if |e| == 0 {
      ZeroHasNoDigits(j);
    } else {
      var n := |e| - 1;
      XorAllIsColumnParity(e[..n], j);
      XorDigits(XorAll(e[..n]) as nat, e[n] as nat, j);
    }
  }

  lemma {:induction false} ZeroHasNoDigits(j: nat)
    ensures Bit(0, j) == 0
  {
    if j > 0 {
      ZeroHasNoDigits(j - 1);
    }
  }

  // ---------------------------------------------------------------- exact error detection

  /** Error bytes over a body, its end byte and its check byte, with the length bytes spared. */
  predicate LengthSpared(f: Frame, e: seq<byte>)
  {
    WellFormed(f) && |e| == |f| + 2 && e[2] == 0 && e[3] == 0
  }

  /** The damaged body passes the receiver's check, and with it as the body is delivered. */
  predicate PassesDamaged(f: Frame, e: seq<byte>)
    requires LengthSpared(f, e)
  {
    CheckPasses(Damage(f, e[..|f|]), XorByte(ETX, e[|f|]), XorByte(XorAll(f), e[|f| + 1]))
  }

  /** A damaged frame is accepted exactly when the end byte is intact and every
      column carries an even number of flipped bits. */
  lemma AcceptedIffColumnsEven(f: Frame, e: seq<byte>)
    requires LengthSpared(f, e)
    ensures PassesDamaged(f, e) <==>
            e[|f|] == 0 && ColumnsEven(e)
  {
    var n := |f|;
    var body, check := e[..n], e[n + 1];
    XorCancelsLeft(ETX, e[n], 0);
    XorByteZero(ETX);
    assert XorByte(ETX, e[n]) == ETX <==> e[n] == 0;
    XorAllDamage(f, body);
    XorCancelsLeft(XorAll(f), check, XorAll(body));
    assert PassesDamaged(f, e) <==> e[n] == 0 && check == XorAll(body);
    if e[n] == 0 {
      assert e[..n + 1][..n] == body && e[..n + 1][n] == 0;
      XorByteZero(XorAll(body));
      assert XorAll(e[..n + 1]) == XorAll(body);
      assert e[..|e| - 1] == e[..n + 1];
      assert XorAll(e) == XorByte(XorAll(body), check);
      XorCancels(XorAll(body) as nat, check as nat);
      ZeroIffColumnsEven(e);
    }
  }

  lemma XorCancelsLeft(a: byte, b: byte, c: byte)
    ensures XorByte(a, b) == XorByte(a, c) <==> b == c
  {
    if XorByte(a, b) == XorByte(a, c) {
      var (p, q, r) := (a as nat, b as nat, c as nat);
      XorAssociates(p, p, q);
      XorAssociates(p, p, r);
      XorSelf(p);
      XorZero(q);
      XorZero(r);
    }
  }

  lemma ZeroIffColumnsEven(e: seq<byte>)
    ensures XorAll(e) == 0 <==> ColumnsEven(e)
  {
    var x := XorAll(e) as nat;
    forall j: nat | j < 8
      ensures Bit(x, j) == ColumnCount(e, j) % 2 && Bit(0, j) == 0
    {
      XorAllIsColumnParity(e, j);
      ZeroHasNoDigits(j);
    }
    if x == 0 {
      forall j: nat | j < 8 ensures ColumnCount(e, j) % 2 == 0 { assert Bit(x, j) == Bit(0, j); }
    } else if ColumnsEven(e) {
      forall j: nat | j < 8 ensures Bit(x, j) == Bit(0, j) { assert ColumnCount(e, j) % 2 == 0; }
      Pow8();
      DigitsDetermine(x, 0, 8);
      assert false;
    }
  }

  // ---------------------------------------------------------------- odd numbers of flips

  lemma {:induction false} EvenColumnsEvenTotal(e: seq<byte>, k: nat)
    requires forall j: nat :: j < k ==> ColumnCount(e, j) % 2 == 0
    ensures FlipCount(e, k) % 2 == 0
    decreases k
  {
    if k > 0 {
      EvenColumnsEvenTotal(e, k - 1);
    }
  }

  /** Every odd number of flipped bits is rejected, whatever the payload length. */
  lemma OddFlipsRejected(f: Frame, e: seq<byte>)
    requires LengthSpared(f, e)
    requires FlipCount(e, 8) % 2 == 1
    ensures !PassesDamaged(f, e)
  {
    AcceptedIffColumnsEven(f, e);
    if PassesDamaged(f, e) {
      EvenColumnsEvenTotal(e, 8);
    }
  }

  // ---------------------------------------------------------------- bursts

  /** Position of digit j of byte i when bytes are sent least significant digit first. */
  function UartPosition(i: nat, j: nat): nat
  {
    8 * i + j
  }

  /** All error bits lie within eight consecutive positions, starting at p. */
  predicate Burst(e: seq<byte>, p: nat)
  {
    forall i: nat, j: nat :: i < |e| && j < 8 && Bit(e[i] as nat, j) == 1 ==> p <= UartPosition(i, j) < p + 8
  }

  /** A column that holds its only error bit in byte i has count one. */
  lemma {:induction false} LonelyColumn(e: seq<byte>, j: nat, i: nat)
    requires i < |e| && Bit(e[i] as nat, j) == 1
    requires forall k: nat :: k < |e| && k != i ==> Bit(e[k] as nat, j) == 0
    ensures ColumnCount(e, j) == 1
    decreases |e|
  {
    var n := |e| - 1;
    if i < n {
      assert forall k: nat :: k < n ==> e[..n][k] == e[k];
      assert Bit(e[n] as nat, j) == 0;
      LonelyColumn(e[..n], j, i);
    } else {
      EmptyColumn(e[..n], j);
    }
  }

  lemma {:induction false} EmptyColumn(e: seq<byte>, j: nat)
    requires forall k: nat :: k < |e| ==> Bit(e[k] as nat, j) == 0
    ensures ColumnCount(e, j) == 0
    decreases |e|
  {
    if |e| > 0 {
      var n := |e| - 1;
      assert Bit(e[n] as nat, j) == 0;
      assert forall k: nat :: k < n ==> e[..n][k] == e[k];
      EmptyColumn(e[..n], j);
    }
  }

  /** Every non-zero burst of at most eight consecutive bits is rejected. */
  lemma BurstsRejected(f: Frame, e: seq<byte>, p: nat, i: nat)
    requires LengthSpared(f, e)
    requires Burst(e, p)
    requires i < |e| && e[i] != 0
    ensures !PassesDamaged(f, e)
  {
    AcceptedIffColumnsEven(f, e);
    var j := NonZeroHasDigit(e[i]);
    assert p <= UartPosition(i, j) < p + 8;
    forall k: nat | k < |e| && k != i
      ensures Bit(e[k] as nat, j) == 0
    {
      assert Bit(e[k] as nat, j) == 1 ==> p <= UartPosition(k, j) < p + 8;
    }
    LonelyColumn(e, j, i);
  }

  lemma NonZeroHasDigit(b: byte) returns (j: nat)
    requires b != 0
    ensures j < 8 && Bit(b as nat, j) == 1
  {
    var n := b as nat;
    if forall k: nat :: k < 8 ==> Bit(n, k) == 0 {
      forall k: nat | k < 8 ensures Bit(n, k) == Bit(0, k) { ZeroHasNoDigits(k); }
      Pow8();
      DigitsDetermine(n, 0, 8);
      assert false;
    }
    j :| j < 8 && Bit(n, j) != 0;
  }
}
