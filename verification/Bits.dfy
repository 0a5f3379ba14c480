/** Exclusive or and powers on the naturals; masks and shifts are remainders and quotients by powers of two. */
module Bits {
  import opened Int64

  function Pow(b: nat, e: nat): (p: nat)
    ensures b >= 1 ==> p >= 1
  {
    if e == 0 then 1 else b * Pow(b, e - 1)
  }

  lemma IntegerSizes()
    ensures Pow(2, 31) == 0x8000_0000 && Pow(2, 63) == TWO_63 && Pow(2, 64) == TWO_64
  {
    assert Pow(2, 8) == 0x100;
    assert Pow(2, 16) == 0x1_0000;
    assert Pow(2, 24) == 0x100_0000;
    assert Pow(2, 32) == 0x1_0000_0000;
    assert Pow(2, 40) == 0x100_0000_0000;
    assert Pow(2, 48) == 0x1_0000_0000_0000;
    assert Pow(2, 56) == 0x100_0000_0000_0000;
  }

  /** Bitwise exclusive or, from the lowest bit up. */
  function Xor(a: nat, b: nat): nat
    decreases a + b
  {
    if a == 0 && b == 0 then 0
    else (if a % 2 == b % 2 then 0 else 1) + 2 * Xor(a / 2, b / 2)
  }

  lemma {:induction false} XorCancels(a: nat, b: nat)
    ensures Xor(Xor(a, b), b) == a
    decreases a + b
  {
    if a != 0 || b != 0 {
      var x := Xor(a, b);
      assert x / 2 == Xor(a / 2, b / 2);
      XorCancels(a / 2, b / 2);
    }
  }

  lemma {:induction false} XorBelow(a: nat, b: nat, k: nat)
    requires a < Pow(2, k) && b < Pow(2, k)
    ensures Xor(a, b) < Pow(2, k)
  {
    if k > 0 {
      XorBelow(a / 2, b / 2, k - 1);
    }
  }

  /** Bit k of the result tells whether the two differ in bit k. */
  lemma {:induction false} XorBit(a: nat, b: nat, k: nat)
    ensures Xor(a, b) / Pow(2, k) % 2 == if a / Pow(2, k) % 2 == b / Pow(2, k) % 2 then 0 else 1
    decreases k
  {
    var x := Xor(a, b);
    if k > 0 {
      HalfFirst(x, k);
      HalfFirst(a, k);
      HalfFirst(b, k);
      XorBit(a / 2, b / 2, k - 1);
    }
  }

  lemma HalfFirst(a: nat, k: nat)
    requires k > 0
    ensures a / Pow(2, k) == a / 2 / Pow(2, k - 1)
  {
    DivideTwice(a, 2, Pow(2, k - 1));
  }

  lemma XorZero(a: nat)
    ensures Xor(a, 0) == a
  {
  }

  lemma XorOne(a: nat)
    ensures Xor(a, 1) == if a % 2 == 0 then a + 1 else a - 1
  {
    XorZero(a / 2);
  }
}
