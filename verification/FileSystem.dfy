/** The read-only file system: a boot block with directory entries, one 4 KB block per
    inode, then data blocks. `read_data` walks the block numbers of an inode. */
module FileSystem {
  import opened Common
  import opened Options
  import opened Strings

  const FOUR_KB := 4096
  const NAME_LENGTH := 32
  const MAX_DENTRIES := 63
  const MAX_BLOCKS := 1023

  type Image = Bytes

  // ----- layout of the image -----

  function LittleEndian(s: Bytes): nat {
    if s == [] then 0 else s[0] as int + 0x100 * LittleEndian(s[1..])
  }

  /** The little-endian 32-bit word at address `a`. */
  function Word(img: Image, a: nat): (w: nat)
    requires a + 4 <= |img|
  {
    LittleEndian(img[a..a + 4])
  }

  function NumDentries(img: Image): nat
    requires |img| >= FOUR_KB
  {
    Word(img, 0)
  }

  function NumInodes(img: Image): nat
    requires |img| >= FOUR_KB
  {
    Word(img, 4)
  }

  function NumBlocks(img: Image): nat
    requires |img| >= FOUR_KB
  {
    Word(img, 8)
  }

  function InodeAddr(inode: nat): nat { FOUR_KB * (inode + 1) }

  function DataAddr(img: Image, block: nat): nat
    requires |img| >= FOUR_KB
  {
    (NumInodes(img) + 1) * FOUR_KB + block * FOUR_KB
  }

  function FileSize(img: Image, inode: nat): nat
    requires InodeAddr(inode) + 4 <= |img|
  {
    Word(img, InodeAddr(inode))
  }

  /** Number of blocks that hold `size` bytes. */
  function BlocksFor(size: nat): nat { (size + FOUR_KB - 1) / FOUR_KB }

  function BlockNo(img: Image, inode: nat, b: nat): nat
    requires InodeAddr(inode) + 8 + 4 * b <= |img|
  {
    Word(img, InodeAddr(inode) + 4 + 4 * b)
  }

  ghost predicate WellFormed(img: Image) {
    && |img| >= FOUR_KB
    && NumDentries(img) <= MAX_DENTRIES
    && |img| >= DataAddr(img, NumBlocks(img))
    && forall i :: 0 <= i < NumInodes(img) ==> InodeOk(img, i)
  }

  ghost predicate InodeOk(img: Image, i: nat)
    requires |img| >= FOUR_KB && |img| >= DataAddr(img, NumBlocks(img)) && i < NumInodes(img)
  {
    && BlocksFor(FileSize(img, i)) <= MAX_BLOCKS
    && forall b :: 0 <= b < BlocksFor(FileSize(img, i)) ==> BlockNo(img, i, b) < NumBlocks(img)
  }

  // ----- the flat file an inode represents -----

  /** The data block holding bytes 4096b to 4096b + 4095 of a file. */
  ghost function BlockOf(img: Image, inode: nat, b: nat): (d: nat)
    requires WellFormed(img) && inode < NumInodes(img) && b < BlocksFor(FileSize(img, inode))
    ensures d < NumBlocks(img) && InodeAddr(inode) + 8 + 4 * b <= |img| && d == BlockNo(img, inode, b)
  {
    assert InodeOk(img, inode);
    BlockNo(img, inode, b)
  }

  /** The first `n` data blocks of an inode, end to end. */
  ghost function Concat(img: Image, inode: nat, n: nat): (r: Bytes)
    requires WellFormed(img) && inode < NumInodes(img) && n <= BlocksFor(FileSize(img, inode))
    ensures |r| == n * FOUR_KB
  {
    if n == 0 then []
    else
      var a := DataAddr(img, BlockOf(img, inode, n - 1));
      Concat(img, inode, n - 1) + img[a..a + FOUR_KB]
  }

  ghost function File(img: Image, inode: nat): (r: Bytes)
    requires WellFormed(img) && inode < NumInodes(img)
    ensures |r| == FileSize(img, inode)
  {
    Concat(img, inode, BlocksFor(FileSize(img, inode)))[..FileSize(img, inode)]
  }

  /** What a read of `length` bytes at `offset` must deliver; None for a bad inode. */
  ghost function Slice(img: Image, inode: nat, offset: nat, length: nat): (r: Option<Bytes>)
    requires WellFormed(img)
    ensures r.None? <==> inode >= NumInodes(img)
  {
    if inode >= NumInodes(img) then None
    else
      var f := File(img, inode);
      if offset > |f| then Some([])
      else Some(f[offset..if offset + length > |f| then |f| else offset + length])
  }

  lemma {:induction false} ConcatBlock(img: Image, inode: nat, n: nat, b: nat)
    requires WellFormed(img) && inode < NumInodes(img) && b < n <= BlocksFor(FileSize(img, inode))
    ensures var a := DataAddr(img, BlockOf(img, inode, b));
            Concat(img, inode, n)[b * FOUR_KB..(b + 1) * FOUR_KB] == img[a..a + FOUR_KB]
    decreases n
  {
    hide WellFormed, InodeOk, Concat, DataAddr, BlockOf;
    var front := Concat(img, inode, n - 1);
    var a := DataAddr(img, BlockOf(img, inode, n - 1));
    ConcatStep(img, inode, n);
    BlockInside(img, inode, b);
    SliceOfSum(front, img[a..a + FOUR_KB], b * FOUR_KB, (b + 1) * FOUR_KB);
    if b < n - 1 {
      ConcatBlock(img, inode, n - 1, b);
    }
  }

  lemma ConcatStep(img: Image, inode: nat, n: nat)
    requires WellFormed(img) && inode < NumInodes(img) && 0 < n <= BlocksFor(FileSize(img, inode))
    ensures var a := DataAddr(img, BlockOf(img, inode, n - 1));
            a + FOUR_KB <= |img| && Concat(img, inode, n) == Concat(img, inode, n - 1) + img[a..a + FOUR_KB]
  {
  }

  lemma BlockInside(img: Image, inode: nat, b: nat)
    requires WellFormed(img) && inode < NumInodes(img) && b < BlocksFor(FileSize(img, inode))
    ensures DataAddr(img, BlockOf(img, inode, b)) + FOUR_KB <= |img|
  {
  }

  lemma SliceOfSum(s: Bytes, t: Bytes, x: nat, y: nat)
    requires x <= y <= |s| || (x == |s| && y == |s| + |t|)
    ensures (s + t)[x..y] == if y <= |s| then s[x..y] else t
  {
  }

  /** A piece of a file inside one block is a piece of the image. */
  lemma FilePiece(img: Image, inode: nat, cur: nat, n: nat)
    requires WellFormed(img) && inode < NumInodes(img)
    requires 0 < n && cur % FOUR_KB + n <= FOUR_KB && cur + n <= FileSize(img, inode)
    ensures cur / FOUR_KB < BlocksFor(FileSize(img, inode))
    ensures var a := DataAddr(img, BlockOf(img, inode, cur / FOUR_KB)) + cur % FOUR_KB;
            File(img, inode)[cur..cur + n] == img[a..a + n]
  {
    var size := FileSize(img, inode);
    var b := cur / FOUR_KB;
    var all := Concat(img, inode, BlocksFor(size));
    ConcatBlock(img, inode, BlocksFor(size), b);
    var a := DataAddr(img, BlockOf(img, inode, b));
    var o := cur % FOUR_KB;
    assert cur == b * FOUR_KB + o;
    SubSlice(all, b * FOUR_KB, (b + 1) * FOUR_KB, o, n);
    SubSlice(img, a, a + FOUR_KB, o, n);
    SubSlice(all, 0, size, cur, n);
  }

  // ----- read_data -----

  /** `end` as computed in 32-bit arithmetic. */
  function EndPoint(offset: nat, length: nat, size: nat): nat {
    var e := (offset + length) % WORD_LIMIT;
    if e > size then size else e
  }

  /** The 32-bit difference from `cur` to `end`. */
  function Left(cur: nat, end: nat): nat
    requires cur <= end + WORD_LIMIT
  {
    if cur <= end then end - cur else end + WORD_LIMIT - cur
  }

  /** Bytes copied in one iteration: to the end of the block or to the end point. */
  function PieceLength(cur: nat, end: nat): nat
    requires cur <= end + WORD_LIMIT
  {
    if FOUR_KB - cur % FOUR_KB > Left(cur, end) then Left(cur, end) else FOUR_KB - cur % FOUR_KB
  }

  /** What the loop adds to `copied_length` from `cur` on, with `cur` a 32-bit word. */
  function CopiedFrom(cur: nat, end: nat): nat
    requires cur < WORD_LIMIT && end < WORD_LIMIT
    decreases Left(cur, end)
  {
    if cur == end then 0
    else
      var n := PieceLength(cur, end);
      n + CopiedFrom(if cur + n < WORD_LIMIT then cur + n else cur + n - WORD_LIMIT, end)
  }

  lemma {:induction false} CopiedIsLeft(cur: nat, end: nat)
    requires cur < WORD_LIMIT && end < WORD_LIMIT
    ensures CopiedFrom(cur, end) == Left(cur, end)
    decreases Left(cur, end)
  {
    if cur != end {
      var n := PieceLength(cur, end);
      CopiedIsLeft(if cur + n < WORD_LIMIT then cur + n else cur + n - WORD_LIMIT, end);
    }
  }

  /** A read returns what it should, as much of the request as the file has, exactly when the sum
      of offset and length does not wrap; when it wraps the loop goes all the way round and
      copies `length` bytes, more than the file has left. */
  lemma ReadExactIff(offset: nat, length: nat, size: nat)
    requires offset <= size < WORD_LIMIT && length < WORD_LIMIT
    ensures CopiedFrom(offset, EndPoint(offset, length, size))
            == (if length < size - offset then length else size - offset)
            <==> offset + length < WORD_LIMIT
    ensures offset + length >= WORD_LIMIT ==>
              CopiedFrom(offset, EndPoint(offset, length, size)) == length > size - offset
  {
    CopiedIsLeft(offset, EndPoint(offset, length, size));
    EndPointExact(offset, length, size);
  }

  /** A negative size given to `read` arrives as a large unsigned one: short of that many bytes into
      a file the rest of the file is read, from there on the read runs past the end. */
  lemma NegativeRead(position: nat, nbytes: int, size: nat)
    requires Int32(nbytes) && nbytes < 0 && position <= size <= MAX_BLOCKS * FOUR_KB
    ensures CopiedFrom(position, EndPoint(position, Unsigned(nbytes), size))
            == if position < -nbytes then size - position else Unsigned(nbytes)
  {
    ReadExactIff(position, Unsigned(nbytes), size);
  }

  /** The end point is the intended one exactly when the sum does not wrap; when it wraps, the
      loop starts behind its own end point. */
  lemma EndPointExact(offset: nat, length: nat, size: nat)
    requires offset <= size < WORD_LIMIT && length < WORD_LIMIT
    ensures EndPoint(offset, length, size) == (if offset + length > size then size else offset + length)
            <==> offset + length < WORD_LIMIT
    ensures offset + length >= WORD_LIMIT ==> EndPoint(offset, length, size) < offset
  {
    if offset + length >= WORD_LIMIT {
      assert (offset + length) % WORD_LIMIT == offset + length - WORD_LIMIT;
    }
  }

  method CopyIn(buf: array<byte>, at: nat, img: Image, addr: nat, n: nat)
    requires addr + n <= |img| && at + n <= buf.Length
    modifies buf
    ensures buf[..at] == old(buf[..at])
    ensures buf[at..at + n] == img[addr..addr + n]
    ensures buf[at + n..] == old(buf[at + n..])
  {
    for i := 0 to n
      invariant buf[..at] == old(buf[..at])
      invariant buf[at..at + i] == img[addr..addr + i]
      invariant buf[at + i..] == old(buf[at + i..])
    {
      buf[at + i] := img[addr + i];
    }
  }

  /** `read_data`: copies part of a file to `buf + at`. Every access to the image is checked to
      be in bounds, including the block number fetched after the last block. */
  method ReadData(img: Image, inode: nat, offset: nat, buf: array<byte>, at: nat, length: nat) returns (n: int)
    requires WellFormed(img)
    requires offset < WORD_LIMIT && length < WORD_LIMIT
    requires inode < NumInodes(img) && offset <= FileSize(img, inode) ==> offset + length < WORD_LIMIT
    requires at + length <= buf.Length
             || (Slice(img, inode, offset, length).Some?
                 && at + |Slice(img, inode, offset, length).value| <= buf.Length)
    modifies buf
    ensures match Slice(img, inode, offset, length)
            case None => n == -1 && buf[..] == old(buf[..])
            case Some(bytes) => n == |bytes| && at + n <= buf.Length &&
                                buf[..] == old(buf[..at]) + bytes + old(buf[at + n..])
    ensures inode < NumInodes(img) && offset <= FileSize(img, inode) ==>
              n == CopiedFrom(offset, EndPoint(offset, length, FileSize(img, inode)))
  {
    hide CopiedFrom;
    if inode >= NumInodes(img) {
      return -1;
    }
    assert InodeOk(img, inode);
    var inodeAddr := InodeAddr(inode);
    var fileSize := Word(img, inodeAddr);
    if offset > fileSize {
      assert buf[..] == buf[..at] + [] + buf[at..];
      return 0;
    }
    EndPointExact(offset, length, fileSize);
    var end := EndPoint(offset, length, fileSize);
    n := CopyBlocks(img, inode, offset, end, buf, at);
    CopiedIsLeft(offset, end);
  }

  lemma PieceFacts(cur: nat, end: nat)
    requires cur < end
    ensures var n := PieceLength(cur, end);
            && 0 < n && cur % FOUR_KB + n <= FOUR_KB && cur + n <= end
            && (cur + n < end ==> (cur + n) / FOUR_KB == cur / FOUR_KB + 1 < BlocksFor(end))
            && cur / FOUR_KB < BlocksFor(end)
  {
  }

  lemma BlocksMonotone(a: nat, b: nat)
    requires a <= b
    ensures a / FOUR_KB <= BlocksFor(a) <= BlocksFor(b)
  {
  }

  /** One memcpy of `read_data`, after the bytes already copied. */
  method CopyPiece(img: Image, inode: nat, offset: nat, cur: nat, n: nat, blockAddr: nat, buf: array<byte>, at: nat,
                   ghost was: Bytes)
    requires WellFormed(img) && inode < NumInodes(img)
    requires 0 < n && cur % FOUR_KB + n <= FOUR_KB && offset <= cur && cur + n <= FileSize(img, inode)
    requires cur / FOUR_KB < BlocksFor(FileSize(img, inode))
             && blockAddr == DataAddr(img, BlockOf(img, inode, cur / FOUR_KB))
    requires at + (cur - offset) + n <= buf.Length
    requires Holds(buf[..], was, File(img, inode), at, offset, cur)
    modifies buf
    ensures Holds(buf[..], was, File(img, inode), at, offset, cur + n)
  {
    FilePiece(img, inode, cur, n);
    CopyIn(buf, at + (cur - offset), img, blockAddr + cur % FOUR_KB, n);
    Extend(buf[..], old(buf[..]), was, File(img, inode), at, offset, cur, n);
  }

  /** Fetches the block number at `numAddr` and computes the block's address. The number one past
      the last block is fetched too; its value is never used. */
  method FetchBlock(img: Image, inode: nat, ghost idx: nat, numAddr: nat) returns (blockAddr: nat)
    requires WellFormed(img) && inode < NumInodes(img) && idx <= BlocksFor(FileSize(img, inode))
    requires numAddr == InodeAddr(inode) + 4 + 4 * idx
    ensures idx < BlocksFor(FileSize(img, inode)) ==> blockAddr == DataAddr(img, BlockOf(img, inode, idx))
  {
    NumberInBounds(img, inode, idx);
    var block := Word(img, numAddr);
    blockAddr := DataAddr(img, block);
  }

  /** The loop of `read_data`, from the lookup of the first block number on. */
  method CopyBlocks(img: Image, inode: nat, offset: nat, end: nat, buf: array<byte>, at: nat) returns (copied: nat)
    requires WellFormed(img) && inode < NumInodes(img)
    requires offset <= end <= FileSize(img, inode) && at + (end - offset) <= buf.Length
    modifies buf
    ensures copied == end - offset && Holds(buf[..], old(buf[..]), File(img, inode), at, offset, end)
  {
    hide File, Holds, InodeOk, DataAddr, PieceLength;
    ghost var f := File(img, inode);
    ghost var idx := offset / FOUR_KB;
    NothingYet(buf[..], f, at, offset);
    BlocksMonotone(offset, |f|);
    BlocksMonotone(end, |f|);
    if offset < end { PieceFacts(offset, end); }
    var cur := offset;
    var numAddr := InodeAddr(inode) + 4 + 4 * (offset / FOUR_KB);
    var blockAddr := FetchBlock(img, inode, idx, numAddr);
    copied := 0;
    while cur != end
      invariant offset <= cur <= end && copied == cur - offset
      invariant idx <= BlocksFor(|f|) && numAddr == InodeAddr(inode) + 4 + 4 * idx
      invariant cur < end ==> idx == cur / FOUR_KB && blockAddr == DataAddr(img, BlockOf(img, inode, idx))
      invariant Holds(buf[..], old(buf[..]), f, at, offset, cur)
      decreases end - cur
    {
      var copyLength := PieceLength(cur, end);
      PieceFacts(cur, end);
      CopyPiece(img, inode, offset, cur, copyLength, blockAddr, buf, at, old(buf[..]));
      cur := cur + copyLength;
      copied := copied + copyLength;
      idx := idx + 1;
      numAddr := numAddr + 4;
      blockAddr := FetchBlock(img, inode, idx, numAddr);
    }
  }

  /** A buffer that was `was` and has received bytes offset..cur of the file at position `at`. */
  ghost predicate Holds(now: Bytes, was: Bytes, f: Bytes, at: nat, offset: nat, cur: nat) {
    && offset <= cur <= |f| && |now| == |was| && at + (cur - offset) <= |now|
    && now == was[..at] + f[offset..cur] + was[at + (cur - offset)..]
  }

  lemma NothingYet(now: Bytes, f: Bytes, at: nat, offset: nat)
    requires offset <= |f| && at <= |now|
    ensures Holds(now, now, f, at, offset, offset)
  {
    assert now == now[..at] + f[offset..offset] + now[at..];
  }

  lemma Extend(now: Bytes, before: Bytes, was: Bytes, f: Bytes, at: nat, offset: nat, cur: nat, n: nat)
    requires Holds(before, was, f, at, offset, cur) && cur + n <= |f|
    requires |now| == |before| && at + (cur - offset) + n <= |now|
    requires var p := at + (cur - offset);
             now[..p] == before[..p] && now[p..p + n] == f[cur..cur + n] && now[p + n..] == before[p + n..]
    ensures Holds(now, was, f, at, offset, cur + n)
  {
    var p := at + (cur - offset);
    assert now == now[..p] + now[p..p + n] + now[p + n..];
    assert before[..p] == was[..at] + f[offset..cur];
    assert before[p + n..] == was[p + n..];
    assert f[offset..cur] + f[cur..cur + n] == f[offset..cur + n];
  }

  /** Block-number slots up to and including the one after the last block lie in the image. */
  lemma NumberInBounds(img: Image, inode: nat, idx: nat)
    requires WellFormed(img) && inode < NumInodes(img) && idx <= BlocksFor(FileSize(img, inode))
    ensures InodeAddr(inode) + 8 + 4 * idx <= |img|
  {
    assert InodeOk(img, inode);
    if idx == MAX_BLOCKS {
      assert BlockNo(img, inode, 0) < NumBlocks(img);
    }
  }

  // ----- directory entries -----

  function DentryAddr(i: nat): nat { 64 + 64 * i }

  function NameField(img: Image, i: nat): (r: Bytes)
    requires |img| >= FOUR_KB && i < MAX_DENTRIES
    ensures |r| == NAME_LENGTH
  {
    img[DentryAddr(i)..DentryAddr(i) + NAME_LENGTH]
  }

  /** The name of entry `i` after trimming its NUL padding. */
  function Name(img: Image, i: nat): Bytes
    requires |img| >= FOUR_KB && i < MAX_DENTRIES
  {
    CStr(NameField(img, i), NAME_LENGTH)
  }

  datatype Dentry = Dentry(fileType: nat, inode: nat)

  function DentryAt(img: Image, i: nat): Dentry
    requires |img| >= FOUR_KB && i < MAX_DENTRIES
  {
    Dentry(Word(img, DentryAddr(i) + 32), Word(img, DentryAddr(i) + 36))
  }

  /** The first entry from `i` on whose trimmed name is `name`. */
  function LookupFrom(img: Image, name: Bytes, i: nat): (r: Option<nat>)
    requires |img| >= FOUR_KB && NumDentries(img) <= MAX_DENTRIES && i <= NumDentries(img)
    ensures r.Some? ==> i <= r.value < NumDentries(img) && Name(img, r.value) == name
                        && forall j :: i <= j < r.value ==> Name(img, j) != name
    ensures r.None? ==> forall j :: i <= j < NumDentries(img) ==> Name(img, j) != name
    decreases NumDentries(img) - i
  {
    if i == NumDentries(img) then None
    else if Name(img, i) == name then Some(i)
    else LookupFrom(img, name, i + 1)
  }

  ghost function Lookup(img: Image, name: Bytes): Option<nat>
    requires WellFormed(img)
  {
    LookupFrom(img, name, 0)
  }

  /** `find_dentry` and `read_dentry_by_name`: the double comparison finds exactly the first
      entry whose trimmed name is the given one. */
  method ReadDentryByName(img: Image, filename: Bytes) returns (r: Option<nat>)
    requires WellFormed(img)
    requires NUL in filename && |CStr(filename, |filename|)| <= NAME_LENGTH
    ensures r == Lookup(img, CStr(filename, |filename|))
  {
    hide CStr, LookupFrom, Name, NameField;
    ghost var name := CStr(filename, |filename|);
    var len := Strlen(filename);
    for i := 0 to NumDentries(img)
      invariant Lookup(img, name) == LookupFrom(img, name, i)
    {
      var c1 := Strncmp(NameField(img, i), filename, len);
      var c2 := Strncmp(NameField(img, i), filename, NAME_LENGTH);
      SameName(img, filename, len, i);
      LookupStep(img, name, i);
      if c1 == 0 && c2 == 0 {
        return Some(i);
      }
    }
    LookupEnd(img, name);
    return None;
  }

  /** Agreeing for the length of the name and for the whole field is being the trimmed name. */
  lemma SameName(img: Image, filename: Bytes, len: nat, i: nat)
    requires |img| >= FOUR_KB && i < MAX_DENTRIES && len <= NAME_LENGTH && len < |filename|
    requires filename[len] == NUL && filename[..len] == CStr(filename, |filename|)
    ensures var field := NameField(img, i);
            (CStr(field, len) == CStr(filename, len) && CStr(field, NAME_LENGTH) == CStr(filename, NAME_LENGTH))
            <==> Name(img, i) == CStr(filename, |filename|)
  {
    hide CStr;
    CStrIs(filename, len, len);
    CStrIs(filename, NAME_LENGTH, len);
    if Name(img, i) == filename[..len] {
      assert NameField(img, i)[..len] == filename[..len];
      CStrIs(NameField(img, i), len, len);
    }
  }

  lemma LookupStep(img: Image, name: Bytes, i: nat)
    requires |img| >= FOUR_KB && i < NumDentries(img) <= MAX_DENTRIES
    ensures LookupFrom(img, name, i) == if Name(img, i) == name then Some(i) else LookupFrom(img, name, i + 1)
  {
  }

  lemma LookupEnd(img: Image, name: Bytes)
    requires |img| >= FOUR_KB && NumDentries(img) <= MAX_DENTRIES
    ensures LookupFrom(img, name, NumDentries(img)) == None
  {
  }
}
