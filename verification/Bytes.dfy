/** Bytes, exclusive or on natural numbers, and their binary digits.

    Exclusive or is defined digit by digit, so that its algebra is proved by
    induction and holds for numbers of any width; a byte is the case of width 8. */
module Bytes {

  newtype byte = x: int | 0 <= x < 256

  /** An unsigned 32-bit number. */
  newtype uint32 = x: int | 0 <= x < 0x1_0000_0000

  datatype Option<+T> = None | Some(value: T)

  lemma SliceOfSlice<T>(s: seq<T>, a: nat, b: nat, c: nat, d: nat)
    requires a <= b <= |s| && c <= d <= b - a
    ensures s[a..b][c..d] == s[a + c..a + d]
  {
    var t := s[a..b];
    assert forall k :: 0 <= k < |t| ==> t[k] == s[a + k];
    assert forall k :: 0 <= k < d - c ==> t[c..d][k] == t[c + k];
  }

  // ---------------------------------------------------------------- powers of two and digits

  function Pow2(k: nat): (r: nat)
    ensures r > 0
  {
    if k == 0 then 1 else 2 * Pow2(k - 1)
  }

  /** Binary digit j of n, counted from the least significant one. */
  function Bit(n: nat, j: nat): (r: nat)
    ensures r <= 1
  {
    if j == 0 then n % 2 else Bit(n / 2, j - 1)
  }

  /** A number below 2^k is determined by its k low digits. */
  lemma {:induction false} DigitsDetermine(a: nat, b: nat, k: nat)
    requires a < Pow2(k) && b < Pow2(k)
    requires forall j: nat :: j < k ==> Bit(a, j) == Bit(b, j)
    ensures a == b
  {
    if k > 0 {
      assert Bit(a, 0) == Bit(b, 0);
      forall j: nat | j < k - 1
        ensures Bit(a / 2, j) == Bit(b / 2, j)
      {
        assert Bit(a, j + 1) == Bit(b, j + 1);
      }
      DigitsDetermine(a / 2, b / 2, k - 1);
    }
  }

  // ---------------------------------------------------------------- exclusive or

  function Xor(a: nat, b: nat): (r: nat)
    decreases a + b
  {
    if a == 0 && b == 0 then 0 else 2 * Xor(a / 2, b / 2) + (if a % 2 == b % 2 then 0 else 1)
  }

  /** The defining equation, read off digit by digit; it also holds at zero. */
  lemma XorSplit(a: nat, b: nat)
    ensures Xor(a, b) / 2 == Xor(a / 2, b / 2)
    ensures Xor(a, b) % 2 == if a % 2 == b % 2 then 0 else 1
  {
  }

  /** Exclusive or is addition modulo two in every digit: this characterises it. */
  lemma {:induction false} XorDigits(a: nat, b: nat, j: nat)
    ensures Bit(Xor(a, b), j) == if Bit(a, j) == Bit(b, j) then 0 else 1
    decreases j
  {
    XorSplit(a, b);
    if j > 0 {
      XorDigits(a / 2, b / 2, j - 1);
    }
  }

  lemma {:induction false} XorBound(a: nat, b: nat, k: nat)
    requires a < Pow2(k) && b < Pow2(k)
    ensures Xor(a, b) < Pow2(k)
    decreases k
  {
    if k > 0 {
      XorBound(a / 2, b / 2, k - 1);
    }
  }

  lemma {:induction false} XorZero(a: nat)
    ensures Xor(a, 0) == a && Xor(0, a) == a
  {
    if a > 0 {
      XorZero(a / 2);
    }
  }

  lemma {:induction false} XorSelf(a: nat)
    ensures Xor(a, a) == 0
  {
    if a > 0 {
      XorSelf(a / 2);
    }
  }

  lemma {:induction false} XorCommutes(a: nat, b: nat)
    ensures Xor(a, b) == Xor(b, a)
    decreases a + b
  {
    if a + b > 0 {
      XorCommutes(a / 2, b / 2);
    }
  }

  /** Numbers of equal parity and equal halves are equal. */
  lemma SameHalves(x: nat, y: nat)
    requires x / 2 == y / 2 && x % 2 == y % 2
    ensures x == y
  {
  }

  lemma {:induction false} XorAssociates(a: nat, b: nat, c: nat)
    ensures Xor(Xor(a, b), c) == Xor(a, Xor(b, c))
    decreases a + b + c
  {
    if a + b + c > 0 {
      XorAssociates(a / 2, b / 2, c / 2);
      var ab, bc := Xor(a, b), Xor(b, c);
      XorSplit(a, b);
      XorSplit(b, c);
      XorSplit(ab, c);
      XorSplit(a, bc);
      SameHalves(Xor(ab, c), Xor(a, bc));
    }
  }

  /** Two numbers cancel exactly when they are equal. */
  lemma {:induction false} XorCancels(a: nat, b: nat)
    ensures Xor(a, b) == 0 <==> a == b
    decreases a + b
  {
    XorSelf(a);
    if a + b > 0 {
      XorSplit(a, b);
      XorCancels(a / 2, b / 2);
    }
  }

  function XorByte(a: byte, b: byte): byte
  {
    XorBound(a as nat, b as nat, 8);
    Pow8();
    Xor(a as nat, b as nat) as byte
  }

  lemma Pow8()
    ensures Pow2(8) == 256
  {
    assert Pow2(4) == 16;
    assert Pow2(6) == 64;
  }
}
