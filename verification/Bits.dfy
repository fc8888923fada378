/** Bitwise operators on fixed-width unsigned words, bit by bit. */
module Bits {
  function Pow2(k: nat): (p: nat)
    ensures p >= 1
  {
    if k == 0 then 1 else 2 * Pow2(k - 1)
  }

  lemma {:induction false} Pow2Sum(a: nat, b: nat)
    ensures Pow2(a + b) == Pow2(a) * Pow2(b)
  {
    if a > 0 {
      Pow2Sum(a - 1, b);
    }
  }

  lemma Pow2Word()
    ensures Pow2(32) == 0x1_0000_0000
  {
    Pow2Sum(8, 8);
    Pow2Sum(16, 16);
  }

  predicate TestBit(x: nat, i: nat)
    decreases i
  {
    if i == 0 then x % 2 == 1 else TestBit(x / 2, i - 1)
  }

  /** The `k`-bit word whose every bit is `op` of the operands' bits. */
  function Bitwise(op: (bool, bool) -> bool, x: nat, y: nat, k: nat): (r: nat)
    ensures r < Pow2(k)
    decreases k
  {
    if k == 0 then 0
    else (if op(x % 2 == 1, y % 2 == 1) then 1 else 0) + 2 * Bitwise(op, x / 2, y / 2, k - 1)
  }

  function Or(x: nat, y: nat, k: nat): nat {
    Bitwise((a, b) => a || b, x, y, k)
  }

  function Xor(x: nat, y: nat, k: nat): nat {
    Bitwise((a: bool, b: bool) => a != b, x, y, k)
  }

  function And(x: nat, y: nat, k: nat): nat {
    Bitwise((a, b) => a && b, x, y, k)
  }

  lemma {:induction false} TestBitwise(op: (bool, bool) -> bool, x: nat, y: nat, k: nat, i: nat)
    requires i < k
    ensures TestBit(Bitwise(op, x, y, k), i) == op(TestBit(x, i), TestBit(y, i))
    decreases k
  {
    var r := Bitwise(op, x, y, k);
    assert r / 2 == Bitwise(op, x / 2, y / 2, k - 1);
    if i > 0 {
      TestBitwise(op, x / 2, y / 2, k - 1, i - 1);
    }
  }

  lemma {:induction false} TestZero(i: nat)
    ensures !TestBit(0, i)
  {
    if i > 0 {
      TestZero(i - 1);
    }
  }

  lemma {:induction false} TestPow2(n: nat, i: nat)
    ensures TestBit(Pow2(n), i) <==> i == n
  {
    if n == 0 {
      if i > 0 { TestZero(i - 1); }
    } else if i > 0 {
      TestPow2(n - 1, i - 1);
    }
  }

  lemma {:induction false} XorIsZero(x: nat, y: nat, k: nat)
    requires x < Pow2(k) && y < Pow2(k)
    ensures Xor(x, y, k) == 0 <==> x == y
    decreases k
  {
    if k > 0 {
      XorIsZero(x / 2, y / 2, k - 1);
    }
  }

  lemma {:induction false} OrIsZero(x: nat, y: nat, k: nat)
    requires x < Pow2(k) && y < Pow2(k)
    ensures Or(x, y, k) == 0 <==> x == 0 && y == 0
    decreases k
  {
    if k > 0 {
      OrIsZero(x / 2, y / 2, k - 1);
    }
  }
}
