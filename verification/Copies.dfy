/** The copy loops of the kernel library on one flat memory: byte head, dword body, byte tail for
    `memcpy`, and a choice of direction for `memmove`. */
module Copies {
  import opened Strings

  /** Byte i of the memory after copying k bytes from `src` to `dest`, all taken from `was`. */
  function After(was: Bytes, dest: nat, src: nat, k: nat, i: nat): byte
    requires dest + k <= |was| && src + k <= |was| && i < |was|
  {
    if dest <= i < dest + k then was[src + (i - dest)] else was[i]
  }

  /** The first k bytes are copied, the rest of the memory is as it was. */
  ghost predicate Copied(now: Bytes, was: Bytes, dest: nat, src: nat, k: nat) {
    && |now| == |was| && dest + k <= |was| && src + k <= |was|
    && forall i :: 0 <= i < |now| ==> now[i] == After(was, dest, src, k, i)
  }

  /** The last k of n bytes are copied. */
  ghost predicate CopiedFromEnd(now: Bytes, was: Bytes, dest: nat, src: nat, n: nat, k: nat) {
    k <= n && dest + n <= |was| && src + n <= |was| && Copied(now, was, dest + (n - k), src + (n - k), k)
  }

  lemma CopiedIs(now: Bytes, was: Bytes, dest: nat, src: nat, n: nat)
    requires Copied(now, was, dest, src, n)
    ensures now == was[..dest] + was[src..src + n] + was[dest + n..]
  {
    var r := was[..dest] + was[src..src + n] + was[dest + n..];
    forall i | 0 <= i < |now|
      ensures now[i] == r[i]
    {
      assert now[i] == After(was, dest, src, n, i);
    }
  }

  lemma NothingCopied(was: Bytes, dest: nat, src: nat)
    requires dest <= |was| && src <= |was|
    ensures Copied(was, was, dest, src, 0)
  {
  }

  /** In a forward copy the next source byte has not been overwritten when it is read, provided
      the destination does not start inside the source. */
  lemma NextByte(now: Bytes, was: Bytes, dest: nat, src: nat, k: nat, n: nat)
    requires Copied(now, was, dest, src, k) && k < n && dest + n <= |was| && src + n <= |was|
    requires dest <= src || src + n <= dest
    ensures now[src + k] == was[src + k] && Copied(now[dest + k := now[src + k]], was, dest, src, k + 1)
  {
  }

  /** The same for a whole dword, which is read before it is written. */
  lemma NextDword(now: Bytes, was: Bytes, dest: nat, src: nat, k: nat, n: nat)
    requires Copied(now, was, dest, src, k) && k + 4 <= n && dest + n <= |was| && src + n <= |was|
    requires dest <= src || src + n <= dest
    ensures var d, s := dest + k, src + k;
            Copied(now[d := now[s]][d + 1 := now[s + 1]][d + 2 := now[s + 2]][d + 3 := now[s + 3]],
                   was, dest, src, k + 4)
  {
    var d, s := dest + k, src + k;
    assert now[s] == After(was, dest, src, k, s) == was[s];
    assert now[s + 1] == After(was, dest, src, k, s + 1) == was[s + 1];
    assert now[s + 2] == After(was, dest, src, k, s + 2) == was[s + 2];
    assert now[s + 3] == After(was, dest, src, k, s + 3) == was[s + 3];
  }

  /** `rep movsl`: whole dwords, `done` bytes having been copied before. */
  method MoveDwords(mem: array<byte>, edi0: nat, esi0: nat, count: nat,
                    ghost was: Bytes, ghost done: nat, ghost n: nat)
    requires done <= edi0 && done <= esi0 && done + 4 * count <= n
    requires edi0 - done + n <= mem.Length && esi0 - done + n <= mem.Length && |was| == mem.Length
    requires edi0 <= esi0 || esi0 - done + n <= edi0 - done
    requires Copied(mem[..], was, edi0 - done, esi0 - done, done)
    modifies mem
    ensures Copied(mem[..], was, edi0 - done, esi0 - done, done + 4 * count)
  {
    hide Copied, After;
    var edi: nat, esi: nat, ecx: nat := edi0, esi0, count;
    while ecx != 0
      invariant ecx <= count && edi == edi0 + 4 * (count - ecx) && esi == esi0 + 4 * (count - ecx)
      invariant Copied(mem[..], was, edi0 - done, esi0 - done, done + 4 * (count - ecx))
    {
      NextDword(mem[..], was, edi0 - done, esi0 - done, done + 4 * (count - ecx), n);
      ghost var now := mem[..];
      mem[edi], mem[edi + 1], mem[edi + 2], mem[edi + 3] := mem[esi], mem[esi + 1], mem[esi + 2], mem[esi + 3];
      assert mem[..] == now[edi := now[esi]][edi + 1 := now[esi + 1]][edi + 2 := now[esi + 2]][edi + 3 := now[esi + 3]];
      edi, esi, ecx := edi + 4, esi + 4, ecx - 1;
    }
  }

  /** The loop at `.memcpy_bottom`: the last bytes one at a time. */
  method MoveTail(mem: array<byte>, edi0: nat, esi0: nat, count: nat, ghost was: Bytes, ghost done: nat)
    requires done <= edi0 && done <= esi0 && |was| == mem.Length
    requires edi0 + count <= mem.Length && esi0 + count <= mem.Length
    requires edi0 <= esi0 || esi0 + count <= edi0 - done
    requires Copied(mem[..], was, edi0 - done, esi0 - done, done)
    modifies mem
    ensures Copied(mem[..], was, edi0 - done, esi0 - done, done + count)
  {
    hide Copied, After;
    var edi: nat, esi: nat, edx: nat := edi0, esi0, count;
    while edx != 0
      invariant edx <= count && edi == edi0 + (count - edx) && esi == esi0 + (count - edx)
      invariant Copied(mem[..], was, edi0 - done, esi0 - done, done + (count - edx))
    {
      NextByte(mem[..], was, edi0 - done, esi0 - done, done + (count - edx), done + count);
      ghost var now := mem[..];
      mem[edi] := mem[esi];
      assert mem[..] == now[edi := now[esi]];
      edi, esi, edx := edi + 1, esi + 1, edx - 1;
    }
  }

  /** `memcpy`: equals a byte-by-byte copy for every alignment and length, on disjoint regions and
      also when the destination starts at or below the source. */
  method Memcpy(mem: array<byte>, dest: nat, src: nat, n: nat)
    requires dest + n <= mem.Length && src + n <= mem.Length
    requires dest <= src || src + n <= dest
    modifies mem
    ensures mem[..] == old(mem[..dest] + mem[src..src + n] + mem[dest + n..])
  {
    hide Copied, After;
    ghost var was := mem[..];
    NothingCopied(was, dest, src);
    var edi: nat, esi: nat, ecx: nat := dest, src, n;
    while ecx != 0 && edi % 4 != 0
      invariant ecx <= n && edi == dest + (n - ecx) && esi == src + (n - ecx)
      invariant Copied(mem[..], was, dest, src, n - ecx)
    {
      NextByte(mem[..], was, dest, src, n - ecx, n);
      ghost var now := mem[..];
      mem[edi] := mem[esi];
      assert mem[..] == now[edi := now[esi]];
      edi, esi, ecx := edi + 1, esi + 1, ecx - 1;
    }
    if ecx != 0 {
      var dwords, edx := ecx / 4, ecx % 4;
      MoveDwords(mem, edi, esi, dwords, was, n - ecx, n);
      MoveTail(mem, edi + 4 * dwords, esi + 4 * dwords, edx, was, n - edx);
    }
    CopiedIs(mem[..], was, dest, src, n);
  }

  lemma PreviousByte(now: Bytes, was: Bytes, dest: nat, src: nat, n: nat, k: nat)
    requires CopiedFromEnd(now, was, dest, src, n, k) && k < n && src < dest
    ensures CopiedFromEnd(now[dest + n - k - 1 := now[src + n - k - 1]], was, dest, src, n, k + 1)
  {
    var s := src + n - k - 1;
    assert now[s] == After(was, dest + (n - k), src + (n - k), k, s) == was[s];
  }

  /** `memmove`: the original source bytes arrive for every overlap. */
  method Memmove(mem: array<byte>, dest: nat, src: nat, n: nat)
    requires dest + n <= mem.Length && src + n <= mem.Length
    modifies mem
    ensures mem[..] == old(mem[..dest] + mem[src..src + n] + mem[dest + n..])
  {
    hide Copied, After;
    ghost var was := mem[..];
    NothingCopied(was, dest, src);
    NothingCopied(was, dest + n, src + n);
    var ecx: nat := n;
    if src >= dest {
      while ecx != 0
        invariant ecx <= n && Copied(mem[..], was, dest, src, n - ecx)
      {
        NextByte(mem[..], was, dest, src, n - ecx, n);
        mem[dest + (n - ecx)] := mem[src + (n - ecx)];
        ecx := ecx - 1;
      }
    } else {
      while ecx != 0
        invariant ecx <= n && CopiedFromEnd(mem[..], was, dest, src, n, n - ecx)
      {
        PreviousByte(mem[..], was, dest, src, n, n - ecx);
        mem[dest + ecx - 1] := mem[src + ecx - 1];
        ecx := ecx - 1;
      }
    }
    CopiedIs(mem[..], was, dest, src, n);
  }
}
