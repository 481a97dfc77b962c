/** NUL-terminated strings in memory: the kernel's and the clients' string routines. */
module Strings {

  type byte = b: int | 0 <= b < 256
  type Bytes = seq<byte>

  const NUL: byte := 0
  const SPACE: byte := 32
  const NEWLINE: byte := 10

  /** The bytes of an ASCII text. */
  function Ascii(s: string): Bytes {
    seq(|s|, i requires 0 <= i < |s| => if s[i] as int < 256 then s[i] as int else 0)
  }

  lemma Characters()
    ensures [NUL] == Ascii("\0") && [SPACE] == Ascii(" ") && [NEWLINE] == Ascii("\n")
  {
  }

  predicate NulFree(s: Bytes) { forall i :: 0 <= i < |s| ==> s[i] != NUL }

  /** The C string stored at the start of `s`, cut at `n` bytes. */
  function CStr(s: Bytes, n: nat): (r: Bytes)
    ensures |r| <= n && |r| <= |s| && r == s[..|r|]
    ensures NulFree(r)
    ensures |r| < n && |r| < |s| ==> s[|r|] == NUL
  {
    if n == 0 || s == [] || s[0] == NUL then [] else [s[0]] + CStr(s[1..], n - 1)
  }

  function Zeros(n: nat): (r: Bytes)
    ensures |r| == n && forall i :: 0 <= i < n ==> r[i] == NUL
  {
    seq(n, _ => NUL)
  }

  /** `s` cut or zero-filled to exactly `n` bytes, the contents of a fixed-size name field. */
  function Padded(s: Bytes, n: nat): (r: Bytes)
    ensures |r| == n
  {
    if |s| >= n then s[..n] else s + Zeros(n - |s|)
  }

  /** The C string of a buffer is the longest NUL-free prefix within the bound. */
  lemma {:induction false} CStrIs(s: Bytes, n: nat, k: nat)
    requires k <= n && k <= |s| && NulFree(s[..k])
    requires k == n || k == |s| || s[k] == NUL
    ensures CStr(s, n) == s[..k]
  {
    if k == 0 {
    } else {
      assert s[..k][0] != NUL;
      assert s[1..][..k - 1] == s[..k][1..];
      CStrIs(s[1..], n - 1, k - 1);
    }
  }

  lemma CStrPadded(s: Bytes, n: nat)
    requires NulFree(s) && |s| <= n
    ensures CStr(Padded(s, n), n) == s
  {
    CStrIs(Padded(s, n), n, |s|);
    assert Padded(s, n)[..|s|] == s;
  }

  lemma SubSlice(s: Bytes, a: nat, b: nat, o: nat, n: nat)
    requires a <= b <= |s| && o + n <= b - a
    ensures s[a..b][o..o + n] == s[a + o..a + o + n]
  {
    var t, u := s[a..b][o..o + n], s[a + o..a + o + n];
    forall i | 0 <= i < n
      ensures t[i] == u[i]
    {
      assert s[a..b][o + i] == s[a + (o + i)];
    }
  }

  lemma TailTake(s: Bytes, a: nat, n: nat)
    requires a + n <= |s|
    ensures s[a..][..n] == s[a..a + n]
  {
  }

  method Strlen(s: Bytes) returns (len: nat)
    requires NUL in s
    ensures len < |s| && s[len] == NUL && s[..len] == CStr(s, |s|)
  {
    len := 0;
    while s[len] != NUL
      invariant len < |s| && NulFree(s[..len])
      invariant exists k :: len <= k < |s| && s[k] == NUL
      decreases |s| - len
    {
      len := len + 1;
    }
    CStrIs(s, |s|, len);
  }

  /** A byte as the `int8_t` the kernel's string routines see. */
  function Signed(b: byte): (r: int)
    ensures -128 <= r < 128 && (r - b) % 256 == 0
  {
    if b < 128 then b else b - 256
  }

  /** The first place at which two different strings within n bytes differ. */
  ghost predicate FirstDifference(s1: Bytes, s2: Bytes, n: nat, i: nat) {
    i < n && i < |s1| && i < |s2| && s1[..i] == s2[..i] && NulFree(s1[..i]) && s1[i] != s2[i]
  }

  /** Kernel strncmp. A result of zero means exactly that both buffers hold the same string up
      to `n` bytes; any other is the difference of the first bytes that differ, as signed numbers. */
  method Strncmp(s1: Bytes, s2: Bytes, n: nat) returns (r: int)
    requires |s1| >= n && (|s2| >= n || NUL in s2)
    ensures r == 0 <==> CStr(s1, n) == CStr(s2, n)
    ensures r != 0 ==> exists i: nat :: FirstDifference(s1, s2, n, i) && r == Signed(s1[i]) - Signed(s2[i])
  {
    hide CStr, NulFree;
    NoBytes(s1);
    for i := 0 to n
      invariant i <= |s2|
      invariant s1[..i] == s2[..i] && NulFree(s1[..i])
      invariant |s2| >= n || exists k :: i <= k < |s2| && s2[k] == NUL
    {
      if s1[i] != s2[i] || s1[i] == NUL {
        Diverge(s1, s2, n, i);
        assert s1[i] != s2[i] ==> FirstDifference(s1, s2, n, i);
        return Signed(s1[i]) - Signed(s2[i]);
      }
      OneMore(s1, i);
      assert s1[..i + 1] == s1[..i] + [s1[i]] && s2[..i + 1] == s2[..i] + [s2[i]];
    }
    CStrIs(s1, n, n);
    CStrIs(s2, n, n);
    return 0;
  }

  lemma NoBytes(s: Bytes)
    ensures NulFree(s[..0])
  {
  }

  lemma OneMore(s: Bytes, i: nat)
    requires i < |s| && NulFree(s[..i]) && s[i] != NUL
    ensures NulFree(s[..i + 1])
  {
    assert s[..i + 1] == s[..i] + [s[i]];
  }

  /** Where two buffers first differ or end decides whether they hold the same string. */
  lemma Diverge(s1: Bytes, s2: Bytes, n: nat, i: nat)
    requires i < n && i < |s1| && i < |s2|
    requires s1[..i] == s2[..i] && NulFree(s1[..i])
    requires s1[i] != s2[i] || s1[i] == NUL
    ensures CStr(s1, n) == CStr(s2, n) <==> s1[i] == s2[i]
  {
    CStrCut(s1, n, i);
    CStrCut(s2, n, i);
  }

  lemma CStrCut(s: Bytes, n: nat, i: nat)
    requires i < n && i < |s| && NulFree(s[..i])
    ensures if s[i] == NUL then CStr(s, n) == s[..i] else |CStr(s, n)| > i && CStr(s, n)[i] == s[i]
  {
    if s[i] == NUL {
      CStrIs(s, n, i);
    }
  }

  lemma Assembled(now: Bytes, was: Bytes, src: Bytes, k: nat, n: nat)
    requires k <= n <= |now| == |was| && k <= |src| && CStr(src, n) == src[..k]
    requires forall j :: 0 <= j < k ==> now[j] == src[j]
    requires forall j :: k <= j < n ==> now[j] == NUL
    requires forall j :: n <= j < |now| ==> now[j] == was[j]
    ensures now == Padded(CStr(src, n), n) + was[n..]
  {
    hide CStr;
    var r := Padded(src[..k], n) + was[n..];
    forall j | 0 <= j < |now|
      ensures now[j] == r[j]
    {
      if j < n { assert r[j] == Padded(src[..k], n)[j]; }
    }
  }

  /** Kernel strncpy: the string, then zeros up to `n`. The bound is tested before the byte here,
      which does not change what is copied. */
  method Strncpy(dest: array<byte>, src: Bytes, n: nat)
    requires n <= dest.Length && (|src| >= n || NUL in src)
    modifies dest
    ensures dest[..] == Padded(CStr(src, n), n) + old(dest[n..])
  {
    hide CStr, Padded, Zeros;
    var i := 0;
    while i < n && src[i] != NUL
      invariant i <= n && i <= |src|
      invariant NulFree(src[..i])
      invariant forall j :: 0 <= j < i ==> dest[j] == src[j]
      invariant forall j :: i <= j < dest.Length ==> dest[j] == old(dest[j])
      invariant |src| >= n || exists k :: i <= k < |src| && src[k] == NUL
    {
      dest[i] := src[i];
      i := i + 1;
    }
    CStrIs(src, n, i);
    ghost var k := i;
    while i < n
      invariant k <= i <= n
      invariant forall j :: 0 <= j < k ==> dest[j] == src[j]
      invariant forall j :: k <= j < i ==> dest[j] == NUL
      invariant forall j :: n <= j < dest.Length ==> dest[j] == old(dest[j])
    {
      dest[i] := NUL;
      i := i + 1;
    }
    Assembled(dest[..], old(dest[..]), src, k, n);
  }
}
