/** Bitwise operations on unbounded non-negative integers, bit by bit from the least
    significant end. `Xor` is what `^` computes on Python's integers, and what it computes on
    C's unsigned integers as long as no bit is shifted out on the left. */
module Bits {

  type Byte = x: int | 0 <= x < 256

  type Word = x: int | 0 <= x < 0x10000

  function Pow2(k: nat): (r: nat)
    ensures r > 0
  {
    if k == 0 then 1 else 2 * Pow2(k - 1)
  }

  function Xor(a: nat, b: nat): nat
    decreases a + b
  {
    if a == 0 && b == 0 then 0
    else 2 * Xor(a / 2, b / 2) + (a % 2 + b % 2) % 2
  }

  /** One unfolding, usable also when both arguments are zero. */
  lemma XorStep(a: nat, b: nat)
    ensures Xor(a, b) / 2 == Xor(a / 2, b / 2)
    ensures Xor(a, b) % 2 == (a % 2 + b % 2) % 2
  {
  }

  lemma {:induction false} XorComm(a: nat, b: nat)
    ensures Xor(a, b) == Xor(b, a)
    decreases a + b
  {
    if a + b > 0 {
      XorComm(a / 2, b / 2);
    }
  }

  lemma {:induction false} XorAssoc(a: nat, b: nat, c: nat)
    ensures Xor(Xor(a, b), c) == Xor(a, Xor(b, c))
    decreases a + b + c
  {
    if a + b + c > 0 {
      hide Xor;
      XorAssoc(a / 2, b / 2, c / 2);
      AssocHalf(a, b, c);
      AssocParity(a, b, c);
    }
  }

  lemma AssocHalf(a: nat, b: nat, c: nat)
    ensures Xor(Xor(a, b), c) / 2 == Xor(Xor(a / 2, b / 2), c / 2)
    ensures Xor(a, Xor(b, c)) / 2 == Xor(a / 2, Xor(b / 2, c / 2))
  {
    hide Xor;
    XorStep(a, b);
    XorStep(b, c);
    XorStep(Xor(a, b), c);
    XorStep(a, Xor(b, c));
  }

  lemma AssocParity(a: nat, b: nat, c: nat)
    ensures Xor(Xor(a, b), c) % 2 == Xor(a, Xor(b, c)) % 2
  {
    hide Xor;
    XorStep(a, b);
    XorStep(b, c);
    XorStep(Xor(a, b), c);
    XorStep(a, Xor(b, c));
    ParityAssoc(a % 2, b % 2, c % 2);
    assert Xor(Xor(a, b), c) % 2 == ((a % 2 + b % 2) % 2 + c % 2) % 2;
    assert Xor(a, Xor(b, c)) % 2 == (a % 2 + (b % 2 + c % 2) % 2) % 2;
  }

  lemma ParityAssoc(x: nat, y: nat, z: nat)
    requires x < 2 && y < 2 && z < 2
    ensures ((x + y) % 2 + z) % 2 == (x + (y + z) % 2) % 2
  {
  }

  lemma {:induction false} XorZero(a: nat)
    ensures Xor(a, 0) == a
    ensures Xor(0, a) == a
  {
    if a > 0 {
      XorZero(a / 2);
    }
  }

  lemma {:induction false} XorSelf(a: nat)
    ensures Xor(a, a) == 0
  {
    if a > 0 {
      XorSelf(a / 2);
    }
  }

  /** XOR never produces a bit beyond the width of its operands. */
  lemma {:induction false} XorBound(a: nat, b: nat, k: nat)
    requires a < Pow2(k) && b < Pow2(k)
    ensures Xor(a, b) < Pow2(k)
    decreases k
  {
    if k > 0 {
      XorBound(a / 2, b / 2, k - 1);
      XorStep(a, b);
    }
  }

  /** XOR with the same operand undoes itself. */
  lemma XorCancel(a: nat, b: nat)
    ensures Xor(Xor(a, b), b) == a
    ensures Xor(a, Xor(a, b)) == b
  {
    XorAssoc(a, b, b);
    XorAssoc(a, a, b);
    XorSelf(a);
    XorSelf(b);
    XorZero(a);
    XorZero(b);
  }

  lemma XorInjective(a: nat, b: nat)
    ensures Xor(a, b) == 0 <==> a == b
  {
    XorSelf(a);
    XorCancel(a, b);
    XorZero(b);
  }

  /** The two middle operands of a four-fold XOR may be exchanged. */
  lemma XorSwap(a: nat, b: nat, c: nat, d: nat)
    ensures Xor(Xor(a, b), Xor(c, d)) == Xor(Xor(a, c), Xor(b, d))
  {
    XorAssoc(a, b, Xor(c, d));
    XorAssoc(b, c, d);
    XorComm(b, c);
    XorAssoc(c, b, d);
    XorAssoc(a, c, Xor(b, d));
  }

  /** An operand folded into one side comes out in front; folded into both sides, it vanishes. */
  lemma XorFold(u: nat, v: nat, p: nat)
    ensures Xor(Xor(u, p), v) == Xor(Xor(u, v), p)
    ensures Xor(u, Xor(v, p)) == Xor(Xor(u, v), p)
    ensures Xor(Xor(u, p), Xor(v, p)) == Xor(u, v)
  {
    XorAssoc(u, p, v);
    XorAssoc(u, v, p);
    XorComm(v, p);
    XorSwap(u, p, v, p);
    XorSelf(p);
    XorZero(Xor(u, v));
  }

  /** The high and the low parts of two numbers are XORed separately. */
  lemma {:induction false} XorSplit(a: nat, x: nat, b: nat, y: nat, k: nat)
    requires x < Pow2(k) && y < Pow2(k)
    ensures Xor(a * Pow2(k) + x, b * Pow2(k) + y) == Xor(a, b) * Pow2(k) + Xor(x, y)
    decreases k
  {
    if k == 0 {
      XorZero(0);
    } else {
      hide Xor;
      XorSplit(a, x / 2, b, y / 2, k - 1);
      SplitStep(a, x, b, y, Pow2(k - 1));
    }
  }

  lemma SplitStep(a: nat, x: nat, b: nat, y: nat, p: nat)
    requires Xor(a * p + x / 2, b * p + y / 2) == Xor(a, b) * p + Xor(x / 2, y / 2)
    ensures Xor(a * (2 * p) + x, b * (2 * p) + y) == Xor(a, b) * (2 * p) + Xor(x, y)
  {
    hide Xor;
    var u, v := a * (2 * p) + x, b * (2 * p) + y;
    Halve(a, p, x);
    Halve(b, p, y);
    XorStep(u, v);
    XorStep(x, y);
    Join(Xor(u, v), Xor(a, b), p, Xor(x, y), Xor(x / 2, y / 2));
  }

  lemma Halve(a: nat, p: nat, x: nat)
    ensures (a * (2 * p) + x) / 2 == a * p + x / 2 && (a * (2 * p) + x) % 2 == x % 2
  {
    assert a * (2 * p) == 2 * (a * p);
  }

  lemma Join(r: nat, h: nat, p: nat, l: nat, m: nat)
    requires r / 2 == h * p + m && r % 2 == l % 2 && l / 2 == m
    ensures r == h * (2 * p) + l
  {
    assert h * (2 * p) == 2 * (h * p);
  }

  lemma XorOne(x: nat)
    ensures Xor(x, 1) == if x % 2 == 0 then x + 1 else x - 1
  {
    XorZero(x / 2);
    XorStep(x, 1);
  }

  lemma Pow2Values()
    ensures Pow2(8) == 256
    ensures Pow2(16) == 0x10000
  {
    assert Pow2(4) == 16;
    assert Pow2(8) == 256;
    assert Pow2(12) == 4096;
    assert Pow2(16) == 0x10000;
  }
}
