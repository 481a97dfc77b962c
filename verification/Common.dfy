/** Constants that several parts share, and arithmetic and counting facts used in more than one. */
module Common {

  const TERMINALS := 3
  const MAX_PROGS := 6
  const FOUR_MB := 0x40_0000

  /** Keyboard line buffer and argument buffer have the same size. */
  const BUF_LENGTH := 128

  /** The 4 MB that a program sees as its own. */
  const USER_PROG := 0x800_0000
  const USER_PROG_END := 0x840_0000

  predicate UserAddress(a: nat) { USER_PROG <= a < USER_PROG_END }

  const WORD_LIMIT := 0x1_0000_0000

  /** A 32-bit signed number. */
  predicate Int32(n: int) { -0x8000_0000 <= n < 0x8000_0000 }

  /** The same bits read as an unsigned number, as a parameter of type `uint32_t` receives them. */
  function Unsigned(n: int): (u: nat)
    requires Int32(n)
    ensures u < 0x1_0000_0000 && (u - n) % 0x1_0000_0000 == 0 && (u < 0x8000_0000 <==> n >= 0)
  {
    if n < 0 then n + WORD_LIMIT else n
  }

  /** Quotient and remainder are unique. */
  lemma DivMod(a: nat, n: nat, q: int, r: nat)
    requires a == n * q + r && r < n
    ensures a / n == q && a % n == r
  {
    var d := a / n - q;
    assert a == n * (a / n) + a % n;
    Distribute(n, q, d);
    Multiple(n, d);
  }

  lemma Distribute(p: nat, a: int, b: int)
    ensures p * (a + b) == p * a + p * b
  {
  }

  lemma Multiple(n: nat, d: int)
    ensures d >= 1 ==> n * d >= n
    ensures d <= -1 ==> n * d + n <= 0
  {
  }

  lemma {:induction false} SubsetSize(a: set<nat>, b: set<nat>)
    requires a <= b
    ensures |a| <= |b|
    ensures |a| == |b| ==> a == b
  {
    if a != {} {
      var x :| x in a;
      SubsetSize(a - {x}, b - {x});
    }
  }
}
