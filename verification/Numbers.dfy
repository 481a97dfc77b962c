/** Printing numbers: digit generation from the least significant end, then reversal in place. */
module Numbers {
  import opened Bits
  import opened Common
  import opened Strings

  const ZERO: byte := 48

  /** The character of a digit, as in the lookup table "0123456789ABC...Z". */
  function DigitChar(d: nat): (c: byte)
    requires d < 36
    ensures c != NUL
  {
    if d < 10 then 48 + d else 55 + d
  }

  lemma DigitChars(d: nat)
    requires d < 36
    ensures DigitChar(d) == Ascii("0123456789ABCDEFGHIJKLMNOPQRSTUVWXYZ")[d]
  {
  }

  /** The value of a digit character. */
  function DigitValue(c: byte): nat { if 48 <= c <= 57 then c - 48 else if 65 <= c <= 90 then c - 55 else 0 }

  /** Reading a number, most significant digit first. */
  function Decode(s: Bytes, radix: nat): nat {
    if s == [] then 0 else Decode(s[..|s| - 1], radix) * radix + DigitValue(s[|s| - 1])
  }

  predicate IsDigit(c: byte, radix: nat) { DigitValue(c) < radix <= 36 && c == DigitChar(DigitValue(c)) }

  /** What printing a number must give: digits of the radix with its value, no leading zero unless
      it is the whole number, at most 32 of them. */
  ghost predicate Prints(s: Bytes, value: nat, radix: nat) {
    && Decode(s, radix) == value
    && (forall i :: 0 <= i < |s| ==> IsDigit(s[i], radix))
    && 0 < |s| <= 32 && (s[0] == ZERO ==> |s| == 1)
  }

  function Reversed(s: Bytes): (r: Bytes)
    ensures |r| == |s| && forall i :: 0 <= i < |s| ==> r[i] == s[|s| - 1 - i]
  {
    seq(|s|, i requires 0 <= i < |s| => s[|s| - 1 - i])
  }

  /** The digits as the loop produces them, least significant first. */
  function Digits(value: nat, radix: nat): (s: Bytes)
    requires 2 <= radix <= 36
    ensures NulFree(s)
    decreases value
  {
    if value == 0 then [] else Smaller(value, radix); [DigitChar(value % radix)] + Digits(value / radix, radix)
  }

  lemma Smaller(value: nat, radix: nat)
    requires radix >= 2
    ensures 0 <= value / radix <= value / 2 && value % radix < radix
    ensures value / radix * radix + value % radix == value
    ensures 0 < value < radix ==> value % radix == value && value / radix == 0
  {
    var q, r := value / radix, value % radix;
    assert value == q * radix + r;
    Product(q, radix);
    if 0 < value < radix { DivMod(value, radix, 0, value); }
  }

  lemma Product(q: nat, radix: nat)
    requires radix >= 2
    ensures q * radix >= q * 2
  {
  }

  function Printed(value: nat, radix: nat): Bytes
    requires 2 <= radix <= 36
  {
    if value == 0 then [ZERO] else Reversed(Digits(value, radix))
  }

  /** A number below 2^n has at most n digits in any radix. */
  lemma {:induction false} DigitCount(value: nat, radix: nat, n: nat)
    requires 2 <= radix <= 36 && value < Shl(1, n)
    ensures |Digits(value, radix)| <= n
    decreases n
  {
    if value > 0 {
      Smaller(value, radix);
      DigitCount(value / radix, radix, n - 1);
    }
  }

  lemma {:induction false} HexDigitCount(value: nat, n: nat)
    requires value < Shl(1, 4 * n)
    ensures |Digits(value, 16)| <= n
    decreases n
  {
    if value > 0 {
      Shl4(1, 4 * n);
      HexDigitCount(value / 16, n - 1);
    }
  }

  lemma ShiftWord()
    ensures Shl(1, 32) == WORD_LIMIT
  {
    Shl4(1, 32); Shl4(1, 28); Shl4(1, 24); Shl4(1, 20); Shl4(1, 16); Shl4(1, 12); Shl4(1, 8); Shl4(1, 4);
  }

  /** Read back, the digits give the value; the most significant one is not zero. */
  lemma {:induction false} DigitsDecode(value: nat, radix: nat)
    requires 2 <= radix <= 36 && value > 0
    ensures var s := Digits(value, radix);
            && Decode(Reversed(s), radix) == value
            && s != [] && s[|s| - 1] != ZERO && forall i :: 0 <= i < |s| ==> IsDigit(s[i], radix)
    decreases value
  {
    hide Digits, Reversed, DigitChar, DigitValue, Decode;
    Smaller(value, radix);
    FirstDigit(value, radix);
    var d, q := value % radix, value / radix;
    var s, t := Digits(value, radix), Digits(q, radix);
    DigitOf(d, radix);
    assert s == [DigitChar(d)] + t;
    DecodeFirst(DigitChar(d), t, radix);
    if q > 0 {
      DigitsDecode(q, radix);
    } else {
      FirstDigit(q, radix);
      NoDigits(radix);
    }
  }

  lemma DigitOf(d: nat, radix: nat)
    requires d < radix <= 36
    ensures DigitValue(DigitChar(d)) == d && IsDigit(DigitChar(d), radix) && (d > 0 ==> DigitChar(d) != ZERO)
  {
  }

  lemma DecodeFirst(c: byte, t: Bytes, radix: nat)
    ensures Decode(Reversed([c] + t), radix) == Decode(Reversed(t), radix) * radix + DigitValue(c)
  {
    var r := Reversed([c] + t);
    assert r[..|r| - 1] == Reversed(t);
  }

  lemma NoDigits(radix: nat)
    ensures Decode(Reversed([]), radix) == 0
  {
  }

  /** The last digit is the remainder; the digits before it are those of the quotient. */
  lemma PrintedDigits(value: nat, radix: nat)
    requires 2 <= radix <= 36
    ensures value % radix < 36 && value / radix >= 0
    ensures Printed(value, radix)
            == (if value < radix then [] else Printed(value / radix, radix))
               + [Ascii("0123456789ABCDEFGHIJKLMNOPQRSTUVWXYZ")[value % radix]]
  {
    var all := Ascii("0123456789ABCDEFGHIJKLMNOPQRSTUVWXYZ");
    Smaller(value, radix);
    DigitChars(value % radix);
    if value == 0 {
      assert all[0] == ZERO;
    } else {
      hide Digits, Ascii, Reversed;
      FirstDigit(value, radix);
      var d, rest := DigitChar(value % radix), Digits(value / radix, radix);
      assert Digits(value, radix) == [d] + rest;
      ReversedFirst(d, rest);
      if value < radix {
        FirstDigit(value / radix, radix);
        ReversedEmpty();
      } else {
        QuotientPositive(value, radix);
      }
    }
  }

  lemma ReversedFirst(c: byte, s: Bytes)
    ensures Reversed([c] + s) == Reversed(s) + [c]
  {
  }

  lemma ReversedEmpty()
    ensures Reversed([]) == []
  {
  }

  lemma QuotientPositive(value: nat, radix: nat)
    requires 2 <= radix <= value
    ensures value / radix > 0
  {
    assert value == value / radix * radix + value % radix;
  }

  /** Round trip: for every 32-bit value and radix 2 to 36. */
  lemma PrintedPrints(value: nat, radix: nat)
    requires value < WORD_LIMIT && 2 <= radix <= 36
    ensures Prints(Printed(value, radix), value, radix)
  {
    if value == 0 {
      assert [ZERO][..0] == [];
    } else {
      DigitsDecode(value, radix);
      ShiftWord();
      DigitCount(value, radix, 32);
    }
  }

  // ----- the routines -----

  /** `strrev`: reverses a NUL-terminated string of length `len` in place. */
  method Strrev(s: array<byte>, at: nat, ghost len: nat)
    requires at + len < s.Length && s[at + len] == NUL && NulFree(s[at..at + len])
    modifies s
    ensures s[..at] == old(s[..at]) && s[at..at + len] == Reversed(old(s[at..at + len]))
            && s[at + len..] == old(s[at + len..])
  {
    hide Reversed;
    var n := Measure(s, at, len);
    var beg: int, end: int := at, at + n - 1;
    while beg < end
      invariant at <= beg && beg + end == 2 * at + len - 1 && beg <= end + 2
      invariant forall i :: 0 <= i < s.Length && (i < at || beg <= i <= end || at + len <= i) ==> s[i] == old(s[i])
      invariant forall i {:trigger s[i]} :: at <= i < beg || end < i < at + len ==>
                  s[i] == old(s[..])[2 * at + len - 1 - i]
      decreases end - beg
    {
      var tmp := s[end];
      s[end] := s[beg];
      s[beg] := tmp;
      beg := beg + 1;
      end := end - 1;
    }
    ReversedIn(s[..], old(s[..]), at, len);
  }

  lemma ReversedIn(now: Bytes, was: Bytes, at: nat, len: nat)
    requires |now| == |was| && at + len <= |now|
    requires forall i :: 0 <= i < |now| && (i < at || at + len <= i) ==> now[i] == was[i]
    requires forall i {:trigger now[i]} :: at <= i < at + len ==> now[i] == was[2 * at + len - 1 - i]
    ensures now[..at] == was[..at] && now[at + len..] == was[at + len..]
    ensures now[at..at + len] == Reversed(was[at..at + len])
  {
    var r := Reversed(was[at..at + len]);
    forall i | 0 <= i < len
      ensures now[at..at + len][i] == r[i]
    {
      assert now[at + i] == was[at + (len - 1 - i)];
    }
  }

  /** `strlen` of the string at `s + at`. */
  method Measure(s: array<byte>, at: nat, ghost len: nat) returns (n: nat)
    requires at + len < s.Length && s[at + len] == NUL && NulFree(s[at..at + len])
    ensures n == len
  {
    ghost var t := s[at..at + len];
    n := 0;
    while s[at + n] != NUL
      invariant n <= len && (n < len ==> t[n] == s[at + n])
      decreases len - n
    {
      assert n != len;
      n := n + 1;
    }
  }

  lemma PrintedLength(value: nat, radix: nat)
    requires value < WORD_LIMIT && 2 <= radix <= 36
    ensures |Digits(value, radix)| <= 32
  {
    ShiftWord();
    DigitCount(value, radix, 32);
  }

  /** `itoa`: NUL-terminated digits at `buf + at`. */
  method Itoa(value: nat, buf: array<byte>, at: nat, radix: nat) returns (ghost len: nat)
    requires value < WORD_LIMIT && 2 <= radix <= 36 && at + 33 <= buf.Length
    modifies buf
    ensures len <= 32 && buf[..at] == old(buf[..at]) && buf[at + len] == NUL
    ensures forall j :: at + len < j < buf.Length ==> buf[j] == old(buf[j])
    ensures buf[at..at + len] == Printed(value, radix) && Prints(Printed(value, radix), value, radix)
  {
    hide Prints, Decode, Digits, Reversed;
    PrintedPrints(value, radix);
    if value == 0 {
      buf[at] := ZERO;
      buf[at + 1] := NUL;
      assert buf[at..at + 1] == [ZERO];
      return 1;
    }
    PrintedLength(value, radix);
    var next := WriteDigits(value, buf, at, radix);
    buf[next] := NUL;
    assert buf[at..next] == Digits(value, radix);
    ghost var before := buf[..];
    Strrev(buf, at, next - at);
    forall j | next < j < buf.Length
      ensures buf[j] == before[j]
    {
      assert buf[next..][j - next] == before[next..][j - next];
    }
    assert buf[at..next] == Printed(value, radix);
    return next - at;
  }

  /** The digit loop of `itoa`. */
  method WriteDigits(value: nat, buf: array<byte>, at: nat, radix: nat) returns (next: nat)
    requires 2 <= radix <= 36 && at + |Digits(value, radix)| <= buf.Length
    modifies buf
    ensures next == at + |Digits(value, radix)| && buf[at..next] == Digits(value, radix)
    ensures buf[..at] == old(buf[..at]) && forall j :: next <= j < buf.Length ==> buf[j] == old(buf[j])
  {
    hide Digits;
    ghost var all := Digits(value, radix);
    next := at;
    var newval: nat := value;
    while newval > 0
      invariant at <= next <= at + |all| && Digits(newval, radix) == all[next - at..]
      invariant forall j :: 0 <= j < buf.Length && (j < at || next <= j) ==> buf[j] == old(buf[j])
      invariant forall j {:trigger all[j]} :: 0 <= j < next - at ==> buf[at + j] == all[j]
      decreases newval
    {
      FirstDigit(newval, radix);
      assert all[next - at..][0] == all[next - at] && all[next - at..][1..] == all[next - at + 1..];
      buf[next] := DigitChar(newval % radix);
      next := next + 1;
      newval := newval / radix;
    }
    FirstDigit(newval, radix);
  }

  lemma FirstDigit(value: nat, radix: nat)
    requires 2 <= radix <= 36
    ensures value == 0 ==> Digits(value, radix) == []
    ensures value > 0 ==> value / radix < value && Digits(value, radix) != []
                          && Digits(value, radix)[0] == DigitChar(value % radix)
                          && Digits(value, radix)[1..] == Digits(value / radix, radix)
  {
    Smaller(value, radix);
  }

  /** `printf` of `%#x`: exactly eight hexadecimal digits with the value. */
  method AltHex(value: nat) returns (s: Bytes)
    requires value < WORD_LIMIT
    ensures |s| == 8 && Decode(s, 16) == value && forall i :: 0 <= i < 8 ==> IsDigit(s[i], 16)
  {
    hide Decode, Digits, Prints;
    var conv := new byte[64];
    ghost var len := Itoa(value, conv, 8, 16);
    ghost var digits := Printed(value, 16);
    HexLength(value);
    var start := Measure(conv, 8, len);
    var i := start;
    while i < 8
      invariant len == start <= i <= 8 && conv[8..8 + len] == digits
      invariant forall j :: start <= j < i ==> conv[j] == ZERO
    {
      conv[i] := ZERO;
      i := i + 1;
    }
    s := conv[start..start + 8];
    Padding(8 - len, digits);
    forall j | 0 <= j < 8
      ensures s[j] == (Zeroes(8 - len) + digits)[j]
    {
      assert s[j] == conv[len + j];
      if j >= 8 - len { assert conv[8..8 + len][j - (8 - len)] == conv[len + j]; }
    }
    assert s == Zeroes(8 - len) + digits;
  }

  function Zeroes(k: nat): (r: Bytes)
    ensures |r| == k && forall i :: 0 <= i < k ==> r[i] == ZERO
  {
    if k == 0 then [] else Zeroes(k - 1) + [ZERO]
  }

  lemma HexLength(value: nat)
    requires value < WORD_LIMIT
    ensures |Printed(value, 16)| <= 8 && NulFree(Printed(value, 16))
    ensures Decode(Printed(value, 16), 16) == value
            && forall i :: 0 <= i < |Printed(value, 16)| ==> IsDigit(Printed(value, 16)[i], 16)
  {
    PrintedPrints(value, 16);
    ShiftWord();
    HexDigitCount(value, 8);
  }

  /** Zeros in front do not change a number. */
  lemma {:induction false} Padding(k: nat, s: Bytes)
    ensures Decode(Zeroes(k) + s, 16) == Decode(s, 16)
    decreases |s|, k
  {
    if s != [] {
      assert (Zeroes(k) + s)[..k + |s| - 1] == Zeroes(k) + s[..|s| - 1];
      Padding(k, s[..|s| - 1]);
    } else if k > 0 {
      assert (Zeroes(k) + s)[..k - 1] == Zeroes(k - 1) + s;
      Padding(k - 1, s);
    } else {
      assert Zeroes(0) + s == s;
    }
  }
}
