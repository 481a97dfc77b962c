/** Disk images as they are laid out: boot block, one block per inode, data blocks. Independent of the
    reader, it says what a well-formed image is made of and that the reader finds just that. */
module DiskImage {
  import opened Common
  import opened FileSystem
  import opened Options
  import opened Strings

  // ----- pieces of equal length, end to end -----

  function Flat(chunks: seq<Bytes>): Bytes {
    if chunks == [] then [] else Flat(chunks[..|chunks| - 1]) + chunks[|chunks| - 1]
  }

  predicate Sized(chunks: seq<Bytes>, size: nat) { forall k :: 0 <= k < |chunks| ==> |chunks[k]| == size }

  lemma {:induction false} FlatLength(chunks: seq<Bytes>, size: nat)
    requires Sized(chunks, size)
    ensures |Flat(chunks)| == |chunks| * size
    decreases |chunks|
  {
    if chunks != [] {
      FlatLength(chunks[..|chunks| - 1], size);
      assert (|chunks| - 1) * size + size == |chunks| * size;
    }
  }

  lemma {:induction false} FlatAt(chunks: seq<Bytes>, size: nat, k: nat)
    requires Sized(chunks, size) && k < |chunks|
    ensures 0 <= k * size <= k * size + size <= |Flat(chunks)|
    ensures Flat(chunks)[k * size..k * size + size] == chunks[k]
    decreases |chunks|
  {
    var front, last := chunks[..|chunks| - 1], chunks[|chunks| - 1];
    FlatLength(front, size);
    FlatLength(chunks, size);
    assert Flat(chunks) == Flat(front) + last;
    if k == |chunks| - 1 {
      assert k * size + size == |chunks| * size;
    } else {
      FlatAt(front, size, k);
    }
  }

  // ----- the file an inode names -----

  /** The blocks whose numbers the inode holds, the first n of them, end to end. */
  function Picked(img: Image, blocks: seq<Bytes>, inode: nat, n: nat): Bytes
    requires 4096 * (inode + 1) + 4 + 4 * n <= |img|
    requires forall b :: 0 <= b < n ==> Word(img, 4096 * (inode + 1) + 4 + 4 * b) < |blocks|
  {
    if n == 0 then []
    else Picked(img, blocks, inode, n - 1) + blocks[Word(img, 4096 * (inode + 1) + 4 + 4 * (n - 1))]
  }

  /** An image whose data blocks are `blocks`, behind a boot block and a block per inode. */
  ghost predicate LaidOut(img: Image, head: Bytes, blocks: seq<Bytes>) {
    && WellFormed(img) && img == head + Flat(blocks) && Sized(blocks, 4096)
    && |head| == 4096 * (Word(img, 4) + 1)
  }

  /** A block number leads to that block. */
  lemma BlockIsThere(img: Image, head: Bytes, blocks: seq<Bytes>, inode: nat, b: nat)
    requires LaidOut(img, head, blocks) && inode < Word(img, 4)
    requires b < BlocksFor(Word(img, 4096 * (inode + 1)))
    ensures 4096 * (inode + 1) + 8 + 4 * b <= |img|
    ensures var k, a := Word(img, 4096 * (inode + 1) + 4 + 4 * b), DataAddr(img, BlockOf(img, inode, b));
            k < |blocks| && a + 4096 <= |img| && img[a..a + 4096] == blocks[k]
  {
    var k := BlockOf(img, inode, b);
    FlatLength(blocks, 4096);
    FlatAt(blocks, 4096, k);
    BlockInside(img, inode, b);
    var a := DataAddr(img, k);
    assert a == |head| + k * 4096;
    Behind(head, Flat(blocks), k * 4096, 4096);
  }

  lemma Behind(head: Bytes, tail: Bytes, a: nat, n: nat)
    requires a + n <= |tail|
    ensures (head + tail)[|head| + a..|head| + a + n] == tail[a..a + n]
  {
  }

  lemma {:induction false} ConcatIsPicked(img: Image, head: Bytes, blocks: seq<Bytes>, inode: nat, n: nat)
    requires LaidOut(img, head, blocks) && inode < Word(img, 4) && n <= BlocksFor(Word(img, 4096 * (inode + 1)))
    ensures 4096 * (inode + 1) + 4 + 4 * n <= |img|
    ensures forall b :: 0 <= b < n ==> Word(img, 4096 * (inode + 1) + 4 + 4 * b) < |blocks|
    ensures Concat(img, inode, n) == Picked(img, blocks, inode, n)
    decreases n
  {
    hide LaidOut, DataAddr, BlockOf, InodeOk, WellFormed, BlocksFor, Word, Concat;
    LaidOutFacts(img, head, blocks, inode);
    if n == 0 {
      ConcatNone(img, inode);
    } else {
      ConcatIsPicked(img, head, blocks, inode, n - 1);
      BlockIsThere(img, head, blocks, inode, n - 1);
      ConcatStep(img, inode, n);
    }
  }

  lemma ConcatNone(img: Image, inode: nat)
    requires WellFormed(img) && inode < NumInodes(img)
    ensures Concat(img, inode, 0) == []
  {
  }

  lemma LaidOutFacts(img: Image, head: Bytes, blocks: seq<Bytes>, inode: nat)
    requires LaidOut(img, head, blocks) && inode < Word(img, 4)
    ensures WellFormed(img) && |img| >= FOUR_KB && inode < NumInodes(img) && 4096 * (inode + 1) + 4096 <= |img|
    ensures FileSize(img, inode) == Word(img, 4096 * (inode + 1))
  {
  }

  /** The file is its inode's blocks, end to end, cut to its size. */
  lemma FileIsBlocks(img: Image, head: Bytes, blocks: seq<Bytes>, inode: nat)
    requires LaidOut(img, head, blocks) && inode < Word(img, 4)
    ensures var size := Word(img, 4096 * (inode + 1));
            var n := (size + 4095) / 4096;
            && 4096 * (inode + 1) + 4 + 4 * n <= |img|
            && (forall b :: 0 <= b < n ==> Word(img, 4096 * (inode + 1) + 4 + 4 * b) < |blocks|)
            && size <= |Picked(img, blocks, inode, n)|
            && File(img, inode) == Picked(img, blocks, inode, n)[..size]
  {
    hide LaidOut, InodeOk, WellFormed, LittleEndian, DataAddr;
    LaidOutFacts(img, head, blocks, inode);
    ConcatIsPicked(img, head, blocks, inode, BlocksFor(FileSize(img, inode)));
  }

  // ----- writing an image -----

  /** A 32-bit word as it is stored. */
  function Encoded(n: nat): (r: Bytes)
    requires n < WORD_LIMIT
    ensures |r| == 4
  {
    [n % 256, n / 256 % 256, n / 256 / 256 % 256, n / 256 / 256 / 256]
  }

  lemma EncodedDecodes(n: nat)
    requires n < WORD_LIMIT
    ensures LittleEndian(Encoded(n)) == n
  {
    var s := Encoded(n);
    assert s[1..] == [n / 256 % 256, n / 256 / 256 % 256, n / 256 / 256 / 256];
    assert s[1..][1..] == [n / 256 / 256 % 256, n / 256 / 256 / 256];
    assert s[1..][1..][1..] == [n / 256 / 256 / 256];
    assert s[1..][1..][1..][1..] == [];
    assert LittleEndian(s[1..][1..][1..]) == n / 256 / 256 / 256;
    assert LittleEndian(s[1..][1..]) == n / 256 / 256;
    assert LittleEndian(s[1..]) == n / 256;
    assert n == 256 * (n / 256) + n % 256;
  }

  datatype Entry = Entry(name: Bytes, fileType: nat, inode: nat)

  datatype Inode = Inode(size: nat, numbers: seq<nat>)

  /** What a disk holds: directory entries, inodes with their block numbers, data blocks. */
  datatype Disk = Disk(entries: seq<Entry>, inodes: seq<Inode>, blocks: seq<Bytes>) {

    predicate Ok() {
      && |entries| <= 63 && |inodes| < WORD_LIMIT && |blocks| < WORD_LIMIT && Sized(blocks, 4096)
      && (forall i :: 0 <= i < |entries| ==> EntryOk(entries[i]))
      && (forall i :: 0 <= i < |inodes| ==> InodeFits(inodes[i], |blocks|))
    }
  }

  predicate EntryOk(e: Entry) {
    NulFree(e.name) && |e.name| <= 32 && e.fileType < WORD_LIMIT && e.inode < WORD_LIMIT
  }

  /** As many numbers as the size needs, each of a block that exists. */
  predicate InodeFits(x: Inode, blocks: nat) {
    && x.size < WORD_LIMIT && |x.numbers| == (x.size + 4095) / 4096 <= 1023
    && forall b :: 0 <= b < |x.numbers| ==> x.numbers[b] < blocks && x.numbers[b] < WORD_LIMIT
  }

  function EntryBytes(e: Entry): (r: Bytes)
    requires EntryOk(e)
    ensures |r| == 64
  {
    Padded(e.name, 32) + Encoded(e.fileType) + Encoded(e.inode) + Zeros(24)
  }

  function Numbers(x: Inode): (r: seq<Bytes>)
    requires forall b :: 0 <= b < |x.numbers| ==> x.numbers[b] < WORD_LIMIT
    ensures |r| == |x.numbers| && Sized(r, 4)
  {
    seq(|x.numbers|, b requires 0 <= b < |x.numbers| => Encoded(x.numbers[b]))
  }

  function InodeBytes(x: Inode): Bytes
    requires x.size < WORD_LIMIT && |x.numbers| <= 1023
    requires forall b :: 0 <= b < |x.numbers| ==> x.numbers[b] < WORD_LIMIT
  {
    Encoded(x.size) + Flat(Numbers(x)) + Zeros(4 * (1023 - |x.numbers|))
  }

  function Entries(d: Disk): (r: seq<Bytes>)
    requires d.Ok()
    ensures |r| == |d.entries| && Sized(r, 64)
  {
    seq(|d.entries|, i requires 0 <= i < |d.entries| => EntryBytes(d.entries[i]))
  }

  function Inodes(d: Disk): (r: seq<Bytes>)
    requires d.Ok()
    ensures |r| == |d.inodes| && forall i :: 0 <= i < |r| ==> r[i] == InodeBytes(d.inodes[i])
  {
    seq(|d.inodes|, i requires 0 <= i < |d.inodes| => InodeBytes(d.inodes[i]))
  }

  function Counts(d: Disk): (r: Bytes)
    requires d.Ok()
    ensures |r| == 12
  {
    Encoded(|d.entries|) + Encoded(|d.inodes|) + Encoded(|d.blocks|)
  }

  function Boot(d: Disk): Bytes
    requires d.Ok()
  {
    Counts(d) + Zeros(52) + Flat(Entries(d)) + Zeros(64 * (63 - |d.entries|))
  }

  function Head(d: Disk): Bytes
    requires d.Ok()
  {
    Boot(d) + Flat(Inodes(d))
  }

  function Written(d: Disk): Image
    requires d.Ok()
  {
    Head(d) + Flat(d.blocks)
  }

  // ----- where the pieces are -----

  predicate At(s: Bytes, a: nat, piece: Bytes) { a + |piece| <= |s| && s[a..a + |piece|] == piece }

  lemma AtLeft(s: Bytes, t: Bytes, a: nat, piece: Bytes)
    requires At(s, a, piece)
    ensures At(s + t, a, piece)
  {
    assert (s + t)[a..a + |piece|] == s[a..a + |piece|];
  }

  lemma AtRight(s: Bytes, t: Bytes, a: nat, piece: Bytes)
    requires At(t, a, piece)
    ensures At(s + t, |s| + a, piece)
  {
    Behind(s, t, a, |piece|);
  }

  lemma AtInside(s: Bytes, a: nat, mid: Bytes, b: nat, piece: Bytes)
    requires At(s, a, mid) && At(mid, b, piece)
    ensures At(s, a + b, piece)
  {
    SubSlice(s, a, a + |mid|, b, |piece|);
  }

  lemma AtFlat(chunks: seq<Bytes>, size: nat, k: nat)
    requires Sized(chunks, size) && k < |chunks|
    ensures k * size >= 0 && At(Flat(chunks), k * size, chunks[k])
  {
    FlatAt(chunks, size, k);
  }

  lemma WordAt(img: Image, a: nat, n: nat)
    requires n < WORD_LIMIT && At(img, a, Encoded(n))
    ensures a + 4 <= |img| && Word(img, a) == n
  {
    EncodedDecodes(n);
  }

  lemma InodeLength(x: Inode, blocks: nat)
    requires InodeFits(x, blocks)
    ensures |InodeBytes(x)| == 4096
  {
    FlatLength(Numbers(x), 4);
  }

  lemma HeadLength(d: Disk)
    requires d.Ok()
    ensures |Boot(d)| == 4096 && Sized(Inodes(d), 4096) && |Head(d)| == 4096 * (|d.inodes| + 1)
  {
    FlatLength(Entries(d), 64);
    forall i | 0 <= i < |d.inodes|
      ensures |Inodes(d)[i]| == 4096
    {
      InodeLength(d.inodes[i], |d.blocks|);
    }
    FlatLength(Inodes(d), 4096);
  }

  /** The three counts. */
  lemma CountsAt(d: Disk)
    requires d.Ok()
    ensures At(Written(d), 0, Encoded(|d.entries|)) && At(Written(d), 4, Encoded(|d.inodes|))
    ensures At(Written(d), 8, Encoded(|d.blocks|))
  {
    hide Encoded;
    var c := Counts(d);
    assert At(c, 0, Encoded(|d.entries|)) && At(c, 4, Encoded(|d.inodes|)) && At(c, 8, Encoded(|d.blocks|));
    AtLeft(c, Zeros(52), 0, c);
    AtLeft(c + Zeros(52), Flat(Entries(d)), 0, c);
    AtLeft(c + Zeros(52) + Flat(Entries(d)), Zeros(64 * (63 - |d.entries|)), 0, c);
    AtLeft(Boot(d), Flat(Inodes(d)), 0, c);
    AtLeft(Head(d), Flat(d.blocks), 0, c);
    AtInside(Written(d), 0, c, 0, Encoded(|d.entries|));
    AtInside(Written(d), 0, c, 4, Encoded(|d.inodes|));
    AtInside(Written(d), 0, c, 8, Encoded(|d.blocks|));
  }

  /** Entry i, 64 bytes from 64 + 64 i on. */
  lemma EntryAt(d: Disk, i: nat)
    requires d.Ok() && i < |d.entries|
    ensures At(Written(d), 64 + 64 * i, EntryBytes(d.entries[i]))
  {
    hide EntryBytes, Encoded;
    var e, front := EntryBytes(d.entries[i]), Counts(d) + Zeros(52);
    AtFlat(Entries(d), 64, i);
    AtRight(front, Flat(Entries(d)), i * 64, e);
    AtLeft(front + Flat(Entries(d)), Zeros(64 * (63 - |d.entries|)), 64 + i * 64, e);
    AtLeft(Boot(d), Flat(Inodes(d)), 64 + i * 64, e);
    AtLeft(Head(d), Flat(d.blocks), 64 + i * 64, e);
  }

  /** Inode i, a block of its own behind the boot block. */
  lemma InodeAt(d: Disk, i: nat)
    requires d.Ok() && i < |d.inodes|
    ensures At(Written(d), 4096 * (i + 1), InodeBytes(d.inodes[i]))
  {
    hide InodeBytes, Boot;
    HeadLength(d);
    AtFlat(Inodes(d), 4096, i);
    AtRight(Boot(d), Flat(Inodes(d)), i * 4096, InodeBytes(d.inodes[i]));
    AtLeft(Head(d), Flat(d.blocks), 4096 + i * 4096, InodeBytes(d.inodes[i]));
  }

  lemma NumberAt(x: Inode, b: nat)
    requires x.size < WORD_LIMIT && b < |x.numbers| <= 1023
    requires forall j :: 0 <= j < |x.numbers| ==> x.numbers[j] < WORD_LIMIT
    ensures At(InodeBytes(x), 0, Encoded(x.size)) && At(InodeBytes(x), 4 + 4 * b, Encoded(x.numbers[b]))
  {
    hide Encoded;
    var all := Flat(Numbers(x));
    AtFlat(Numbers(x), 4, b);
    AtRight(Encoded(x.size), all, b * 4, Encoded(x.numbers[b]));
    AtLeft(Encoded(x.size) + all, Zeros(4 * (1023 - |x.numbers|)), 4 + b * 4, Encoded(x.numbers[b]));
    SizeAt(x);
  }

  lemma SizeAt(x: Inode)
    requires x.size < WORD_LIMIT && |x.numbers| <= 1023
    requires forall j :: 0 <= j < |x.numbers| ==> x.numbers[j] < WORD_LIMIT
    ensures At(InodeBytes(x), 0, Encoded(x.size))
  {
    hide Encoded;
    assert At(Encoded(x.size), 0, Encoded(x.size));
    AtLeft(Encoded(x.size), Flat(Numbers(x)), 0, Encoded(x.size));
    AtLeft(Encoded(x.size) + Flat(Numbers(x)), Zeros(4 * (1023 - |x.numbers|)), 0, Encoded(x.size));
  }

  // ----- what the reader makes of it -----

  /** The counts are read back. */
  lemma ReadsCounts(d: Disk)
    requires d.Ok()
    ensures |Written(d)| == 4096 * (|d.inodes| + 1) + 4096 * |d.blocks|
    ensures NumDentries(Written(d)) == |d.entries| && NumInodes(Written(d)) == |d.inodes|
    ensures NumBlocks(Written(d)) == |d.blocks|
  {
    hide Word, Encoded, Written;
    WrittenLength(d);
    CountsAt(d);
    WordAt(Written(d), 0, |d.entries|);
    WordAt(Written(d), 4, |d.inodes|);
    WordAt(Written(d), 8, |d.blocks|);
  }

  lemma WrittenLength(d: Disk)
    requires d.Ok()
    ensures |Written(d)| == 4096 * (|d.inodes| + 1) + 4096 * |d.blocks|
  {
    HeadLength(d);
    FlatLength(d.blocks, 4096);
  }

  /** So is each directory entry. */
  lemma ReadsEntry(d: Disk, i: nat)
    requires d.Ok() && i < |d.entries|
    ensures |Written(d)| >= FOUR_KB && i < MAX_DENTRIES
    ensures Name(Written(d), i) == d.entries[i].name
    ensures DentryAt(Written(d), i) == Dentry(d.entries[i].fileType, d.entries[i].inode)
  {
    hide Word, Encoded, Written, CStr;
    WrittenLength(d);
    var e, img := d.entries[i], Written(d);
    var a := 64 + 64 * i;
    EntryAt(d, i);
    EntryParts(e);
    AtInside(img, a, EntryBytes(e), 0, Padded(e.name, 32));
    AtInside(img, a, EntryBytes(e), 32, Encoded(e.fileType));
    AtInside(img, a, EntryBytes(e), 36, Encoded(e.inode));
    CStrPadded(e.name, 32);
    WordAt(img, a + 32, e.fileType);
    WordAt(img, a + 36, e.inode);
  }

  lemma EntryParts(e: Entry)
    requires EntryOk(e)
    ensures At(EntryBytes(e), 0, Padded(e.name, 32)) && At(EntryBytes(e), 32, Encoded(e.fileType))
    ensures At(EntryBytes(e), 36, Encoded(e.inode))
  {
    hide Encoded;
  }

  /** And each inode. */
  lemma ReadsInode(d: Disk, i: nat)
    requires d.Ok() && i < |d.inodes|
    ensures 4096 * (i + 2) <= |Written(d)| && Word(Written(d), 4096 * (i + 1)) == d.inodes[i].size
    ensures forall b :: 0 <= b < |d.inodes[i].numbers| ==>
              Word(Written(d), 4096 * (i + 1) + 4 + 4 * b) == d.inodes[i].numbers[b]
  {
    hide Word, Encoded, Written, InodeBytes;
    WrittenLength(d);
    var x, img := d.inodes[i], Written(d);
    InodeAt(d, i);
    SizeAt(x);
    AtInside(img, 4096 * (i + 1), InodeBytes(x), 0, Encoded(x.size));
    WordAt(img, 4096 * (i + 1), x.size);
    forall b | 0 <= b < |x.numbers|
      ensures Word(img, 4096 * (i + 1) + 4 + 4 * b) == x.numbers[b]
    {
      NumberAt(x, b);
      AtInside(img, 4096 * (i + 1), InodeBytes(x), 4 + 4 * b, Encoded(x.numbers[b]));
      WordAt(img, 4096 * (i + 1) + 4 + 4 * b, x.numbers[b]);
    }
  }

  /** The reader accepts every image that is written, and its data blocks are those of the disk. */
  lemma WrittenIsWellFormed(d: Disk)
    requires d.Ok()
    ensures WellFormed(Written(d)) && LaidOut(Written(d), Head(d), d.blocks)
  {
    hide Word, Written, Head;
    ReadsCounts(d);
    HeadLength(d);
    forall i: nat | i < |d.inodes|
      ensures InodeOk(Written(d), i)
    {
      InodeAccepted(d, i);
    }
    WrittenIs(d);
  }

  lemma InodeAccepted(d: Disk, i: nat)
    requires d.Ok() && i < |d.inodes|
    ensures |Written(d)| >= FOUR_KB && |Written(d)| >= DataAddr(Written(d), NumBlocks(Written(d)))
    ensures i < NumInodes(Written(d)) && InodeOk(Written(d), i)
  {
    hide Word, Written;
    ReadsCounts(d);
    ReadsInode(d, i);
    assert InodeFits(d.inodes[i], |d.blocks|);
    var img := Written(d);
    forall b | 0 <= b < BlocksFor(FileSize(img, i))
      ensures BlockNo(img, i, b) < NumBlocks(img)
    {
      assert InodeAddr(i) + 4 + 4 * b == 4096 * (i + 1) + 4 + 4 * b;
      assert BlockNo(img, i, b) == d.inodes[i].numbers[b];
    }
  }

  lemma WrittenIs(d: Disk)
    requires d.Ok()
    ensures Written(d) == Head(d) + Flat(d.blocks)
  {
  }

  /** A file's blocks in the order of its numbers. */
  function BlocksOf(blocks: seq<Bytes>, numbers: seq<nat>): Bytes
    requires forall b :: 0 <= b < |numbers| ==> numbers[b] < |blocks|
  {
    if numbers == [] then []
    else BlocksOf(blocks, numbers[..|numbers| - 1]) + blocks[numbers[|numbers| - 1]]
  }

  lemma {:induction false} PickedIs(d: Disk, i: nat, n: nat)
    requires d.Ok() && i < |d.inodes| && n <= |d.inodes[i].numbers|
    ensures 4096 * (i + 1) + 4 + 4 * n <= |Written(d)|
    ensures forall b :: 0 <= b < n ==> Word(Written(d), 4096 * (i + 1) + 4 + 4 * b) < |d.blocks|
    ensures Picked(Written(d), d.blocks, i, n) == BlocksOf(d.blocks, d.inodes[i].numbers[..n])
    decreases n
  {
    hide Word, Written;
    ReadsInode(d, i);
    assert InodeFits(d.inodes[i], |d.blocks|);
    forall b | 0 <= b < n
      ensures Word(Written(d), 4096 * (i + 1) + 4 + 4 * b) < |d.blocks|
    {
      assert Word(Written(d), 4096 * (i + 1) + 4 + 4 * b) == d.inodes[i].numbers[b];
    }
    if n > 0 {
      PickedIs(d, i, n - 1);
      assert d.inodes[i].numbers[..n][..n - 1] == d.inodes[i].numbers[..n - 1];
    }
  }

  /** Round trip: the file read from a written image is what was written: the inode's blocks, in the
      order of its numbers, cut to its size. */
  lemma ReadsFile(d: Disk, i: nat)
    requires d.Ok() && i < |d.inodes|
    ensures WellFormed(Written(d)) && i < NumInodes(Written(d))
    ensures d.inodes[i].size <= |BlocksOf(d.blocks, d.inodes[i].numbers)|
    ensures File(Written(d), i) == BlocksOf(d.blocks, d.inodes[i].numbers)[..d.inodes[i].size]
  {
    hide Word, Written, Head, LaidOut, WellFormed, File, Picked, BlocksOf;
    WrittenIsWellFormed(d);
    ReadsCounts(d);
    ReadsInode(d, i);
    FileIsBlocks(Written(d), Head(d), d.blocks, i);
    PickedIs(d, i, |d.inodes[i].numbers|);
    assert d.inodes[i].numbers[..|d.inodes[i].numbers|] == d.inodes[i].numbers;
  }

  /** And a name leads to the first entry that was written with it. */
  lemma ReadsName(d: Disk, name: Bytes)
    requires d.Ok()
    ensures WellFormed(Written(d))
    ensures match Lookup(Written(d), name)
            case Some(i) =>
              i < |d.entries| && d.entries[i].name == name && forall j :: 0 <= j < i ==> d.entries[j].name != name
            case None => forall j :: 0 <= j < |d.entries| ==> d.entries[j].name != name
  {
    hide Word, Written, WellFormed, LookupFrom, Name;
    WrittenIsWellFormed(d);
    ReadsCounts(d);
    forall j: nat | j < |d.entries|
      ensures Name(Written(d), j) == d.entries[j].name
    {
      ReadsEntry(d, j);
    }
  }
}
