/** Bitwise operations of the C source on unsigned words, as arithmetic on naturals.
    The kernel combines page-aligned addresses with flag bits by `|` and picks fields
    out of addresses by `&` and `>>`; these lemmas turn both into sums and remainders. */
module Bits {

  function Shl(a: nat, k: nat): nat { if k == 0 then a else 2 * Shl(a, k - 1) }

  function Shr(a: nat, k: nat): nat { if k == 0 then a else Shr(a / 2, k - 1) }

  function Or(a: nat, b: nat): nat
    decreases a + b
  {
    if a == 0 && b == 0 then 0
    else 2 * Or(a / 2, b / 2) + (if a % 2 == 1 || b % 2 == 1 then 1 else 0)
  }

  function And(a: nat, b: nat): nat
    decreases a + b
  {
    if a == 0 && b == 0 then 0
    else 2 * And(a / 2, b / 2) + (if a % 2 == 1 && b % 2 == 1 then 1 else 0)
  }

  /** The low k bits. */
  function Low(a: nat, k: nat): nat { if k == 0 then 0 else a % 2 + 2 * Low(a / 2, k - 1) }

  /** Setting flag bits below an aligned address leaves the address alone. */
  lemma {:induction false} OrAligned(q: nat, k: nat, f: nat, g: nat)
    requires f < Shl(1, k) && g < Shl(1, k)
    ensures Or(Shl(q, k) + f, g) == Shl(q, k) + Or(f, g)
    decreases k, q
  {
    if k > 0 {
      OrAligned(q, k - 1, f / 2, g / 2);
    } else {
      OrZero(q);
    }
  }

  lemma {:induction false} OrZero(q: nat)
    ensures Or(q, 0) == q == Or(0, q)
  {
    if q > 0 { OrZero(q / 2); }
  }

  lemma {:induction false} AndZero(q: nat)
    ensures And(q, 0) == 0
  {
    if q > 0 { AndZero(q / 2); }
  }

  /** A mask whose low k bits are clear drops the low k bits. */
  lemma {:induction false} AndShifted(x: nat, m: nat, k: nat)
    ensures And(x, Shl(m, k)) == Shl(And(Shr(x, k), m), k)
  {
    if k > 0 {
      AndShifted(x / 2, m, k - 1);
      assert Shl(m, k) == 2 * Shl(m, k - 1);
    }
  }

  /** A mask of k ones keeps the low k bits. */
  lemma {:induction false} AndOnes(x: nat, k: nat)
    ensures Shl(1, k) > 0 && And(x, Shl(1, k) - 1) == Low(x, k)
  {
    if k == 0 {
      AndZero(x);
    } else {
      AndOnes(x / 2, k - 1);
    }
  }

  lemma ShlBy12(q: nat)
    ensures Shl(q, 12) == q * 0x1000
  {
    Shl4(q, 12); Shl4(q, 8); Shl4(q, 4);
  }

  lemma Shl4(q: nat, k: nat)
    requires k >= 4
    ensures Shl(q, k) == 16 * Shl(q, k - 4)
  {
    assert Shl(q, k) == 2 * Shl(q, k - 1) == 4 * Shl(q, k - 2) == 8 * Shl(q, k - 3);
  }

  /** A number is its high part shifted back up, plus its low bits. */
  lemma {:induction false} HighAndLow(a: nat, k: nat)
    ensures a == Shl(Shr(a, k), k) + Low(a, k) && Low(a, k) < Shl(1, k)
  {
    if k > 0 { HighAndLow(a / 2, k - 1); }
  }

  lemma ShrBy13(a: nat)
    ensures Shr(a, 13) == a / 0x2000
  {
    HighAndLow(a, 13);
    ShlBy13(Shr(a, 13));
    ShlBy13(1);
    By8192(a, Shr(a, 13), Low(a, 13));
  }

  lemma ShlBy13(q: nat)
    ensures Shl(q, 13) == q * 0x2000
  {
    Shl4(q, 13); Shl4(q, 9); Shl4(q, 5);
    assert Shl(q, 1) == 2 * Shl(q, 0);
  }

  lemma LowBy10(a: nat)
    ensures Low(a, 10) == a % 0x400
  {
    HighAndLow(a, 10);
    ShlBy10(Shr(a, 10));
    ShlBy10(1);
    By1024(a, Shr(a, 10), Low(a, 10));
  }

  lemma ShlBy10(q: nat)
    ensures Shl(q, 10) == q * 0x400
  {
    Shl4(q, 10); Shl4(q, 6);
    assert Shl(q, 2) == 2 * Shl(q, 1) == 4 * Shl(q, 0);
  }

  lemma By2(n: nat, q: nat, r: nat)
    requires n == 2 * q + r && r < 2
    ensures n % 2 == r
  {
  }

  lemma By4(n: nat, q: nat, r: nat)
    requires n == 4 * q + r && r < 4
    ensures n / 4 == q
  {
  }

  lemma By128(n: nat, q: nat, r: nat)
    requires n == 0x80 * q + r && r < 0x80
    ensures n / 0x80 == q
  {
  }

  lemma By1024(n: nat, q: nat, r: nat)
    requires n == 0x400 * q + r && r < 0x400
    ensures n % 0x400 == r
  {
  }

  lemma By4096(n: nat, q: nat, r: nat)
    requires n == 0x1000 * q + r && r < 0x1000
    ensures n / 0x1000 == q
  {
  }

  lemma By8192(n: nat, q: nat, r: nat)
    requires n == 0x2000 * q + r && r < 0x2000
    ensures n / 0x2000 == q
  {
  }

  /** A mask of ten ones shifted up by thirteen keeps bits 13 to 22. */
  lemma AndStackMask(esp: nat, mask: nat)
    requires mask == 0x7FE000
    ensures And(esp, mask) == esp / 0x2000 % 0x400 * 0x2000
  {
    var ones := Shl(1, 10) - 1;
    assert ones == 0x3FF by { Shl4(1, 10); Shl4(1, 6); }
    ShlBy13(ones);
    AndShifted(esp, ones, 13);
    ShrBy13(esp);
    AndOnes(esp / 0x2000, 10);
    LowBy10(esp / 0x2000);
    ShlBy13(esp / 0x2000 % 0x400);
  }
}
