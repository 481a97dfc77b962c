/** `open`, `read` and `close` on the descriptor table of the running process. */
module Descriptors {
  import opened Options
  import opened Strings
  import opened FileSystem
  import opened FileTable

  const STDIN: Bytes := [115, 116, 100, 105, 110]
  const STDOUT: Bytes := [115, 116, 100, 111, 117, 116]

  /** The first `n` directory entries as `read` delivers them: NUL-padded 32-byte names. */
  function Listing(img: Image, n: nat): (r: Bytes)
    requires |img| >= FOUR_KB && n <= NumDentries(img) <= MAX_DENTRIES
    ensures |r| == n * NAME_LENGTH
  {
    if n == 0 then [] else Listing(img, n - 1) + Padded(Name(img, n - 1), NAME_LENGTH)
  }

  /** All that can be read through a descriptor; None if every read fails. */
  ghost function Source(img: Image, d: FileDesc): Option<Bytes>
    requires WellFormed(img)
  {
    match d.kind
    case Regular => if d.inode < NumInodes(img) then Some(File(img, d.inode)) else None
    case Directory => Some(Listing(img, NumDentries(img)))
    case _ => None
  }

  /** Bytes delivered up to a position: directory positions count entries. */
  function Delivered(d: FileDesc): nat { if d.kind == Directory then d.position * NAME_LENGTH else d.position }

  /** Everything a descriptor has returned since it was opened is its source up to its position. */
  ghost predicate HistoryOk(img: Image, d: FileDesc, hist: Bytes)
    requires WellFormed(img)
  {
    d.flags == IN_USE ==>
      match Source(img, d)
      case None => hist == [] && d.position == 0
      case Some(all) => Delivered(d) <= |all| && hist == all[..Delivered(d)]
  }

  /** The lowest free descriptor from `i` on. */
  function LowestFd(t: seq<FileDesc>, i: nat): (r: Option<nat>)
    requires |t| == MAX_FD_NUM + 1 && i <= |t|
    ensures r.Some? ==> i <= r.value < |t| && t[r.value].flags == FREE
                        && forall j :: i <= j < r.value ==> t[j].flags != FREE
    ensures r.None? ==> forall j :: i <= j < |t| ==> t[j].flags != FREE
    decreases |t| - i
  {
    if i == |t| then None else if t[i].flags == FREE then Some(i) else LowestFd(t, i + 1)
  }

  function KindOf(fileType: nat): Option<Kind> {
    if fileType == 0 then Some(Rtc) else if fileType == 1 then Some(Directory)
    else if fileType == 2 then Some(Regular) else None
  }

  datatype Opening = NotOpened | Terminal(fd: nat) | NewFile(fd: nat, desc: FileDesc)

  /** What `open` makes of a name: nothing, a terminal descriptor, or a new entry. */
  ghost function Opened(img: Image, t: seq<FileDesc>, name: Bytes): Opening
    requires WellFormed(img) && |t| == MAX_FD_NUM + 1
  {
    if name == [] then NotOpened
    else if name <= STDIN then Terminal(0)
    else if name <= STDOUT then Terminal(1)
    else match Lookup(img, name)
      case None => NotOpened
      case Some(i) =>
        match (LowestFd(t, 2), KindOf(DentryAt(img, i).fileType))
        case (Some(fd), Some(kind)) => NewFile(fd, NewDesc(kind, DentryAt(img, i).inode))
        case _ => NotOpened
  }

  lemma OpenedFacts(img: Image, t: seq<FileDesc>, name: Bytes)
    requires WellFormed(img) && |t| == MAX_FD_NUM + 1
    ensures match Opened(img, t, name)
            case NewFile(fd, d) => 2 <= fd <= MAX_FD_NUM && t[fd].flags == FREE && d.flags == IN_USE && d.position == 0
                                   && d.kind in {Rtc, Directory, Regular}
            case Terminal(fd) => fd <= 1
            case NotOpened => true
  {
  }

  /** What the file type in a directory entry makes of the descriptor: 0 is the RTC, 1 reads the
      directory, 2 reads the file of the inode the entry names. */
  lemma OpensByType(img: Image, t: seq<FileDesc>, name: Bytes, i: nat)
    requires WellFormed(img) && |t| == MAX_FD_NUM + 1
    requires Lookup(img, name) == Some(i) && Opened(img, t, name).NewFile?
    ensures i < MAX_DENTRIES
    ensures var d := Opened(img, t, name).desc;
            var fileType, inode := Word(img, 64 + 64 * i + 32), Word(img, 64 + 64 * i + 36);
            && fileType <= 2
            && (fileType == 0 ==> d.kind == Rtc && Source(img, d) == None)
            && (fileType == 1 ==> d.kind == Directory && Source(img, d) == Some(Listing(img, NumDentries(img))))
            && (fileType == 2 ==> d.kind == Regular
                                  && Source(img, d) == if inode < Word(img, 4) then Some(File(img, inode)) else None)
  {
    hide LookupFrom, Word, File, Listing, LowestFd;
  }

  /** When `open` fails: for the empty name, and for a name that is no prefix of "stdin" or "stdout" when
      there is no such entry, its type is none of the three, or descriptors 2 to 7 are all in use. */
  lemma NotOpenedIff(img: Image, t: seq<FileDesc>, name: Bytes)
    requires WellFormed(img) && |t| == MAX_FD_NUM + 1
    ensures Opened(img, t, name) == NotOpened <==>
              || name == []
              || (&& !(name <= Ascii("stdin")) && !(name <= Ascii("stdout"))
                  && (|| Lookup(img, name) == None
                      || Word(img, 64 + 64 * Lookup(img, name).value + 32) > 2
                      || forall j :: 2 <= j < |t| ==> t[j].flags != FREE))
    ensures Opened(img, t, name).Terminal? <==> name != [] && (name <= Ascii("stdin") || name <= Ascii("stdout"))
    ensures Opened(img, t, name).Terminal? ==>
              Opened(img, t, name).fd == if name <= Ascii("stdin") then 0 else 1
  {
    assert STDIN == Ascii("stdin") && STDOUT == Ascii("stdout");
  }

  function NewDesc(kind: Kind, inode: nat): FileDesc { FileDesc(kind, if kind == Regular then inode else 0, 0, IN_USE) }

  class Process {
    const img: Image
    const fdt: array<FileDesc>
    ghost var hist: seq<Bytes>  // what each descriptor has returned since its open

    ghost predicate Valid()
      reads this, fdt
    {
      && WellFormed(img) && fdt.Length == |hist| == MAX_FD_NUM + 1
      && fdt[0].kind == Stdin && fdt[1].kind == Stdout
      && (forall i :: 0 <= i <= MAX_FD_NUM ==> fdt[i].flags == FREE || fdt[i].flags == IN_USE)
      && (forall i :: 2 <= i <= MAX_FD_NUM ==> HistoryOk(img, fdt[i], hist[i]))
    }

    constructor (img: Image, table: seq<FileDesc>)
      requires WellFormed(img) && |table| == MAX_FD_NUM + 1 && OnlyTerminals(table)
      ensures Valid() && fresh(fdt) && this.img == img && fdt[..] == table
    {
      this.img := img;
      fdt := new FileDesc[MAX_FD_NUM + 1](i requires 0 <= i < MAX_FD_NUM + 1 => table[i]);
      hist := seq(MAX_FD_NUM + 1, _ => []);
      new;
      assert fdt[..] == table;
    }

    /** `open`; no other descriptor is disturbed. */
    method Open(filename: Bytes) returns (r: int)
      requires Valid() && NUL in filename && |CStr(filename, |filename|)| <= NAME_LENGTH
      modifies this, fdt
      ensures Valid()
      ensures match Opened(img, old(fdt[..]), CStr(filename, |filename|))
              case NotOpened => r == -1 && fdt[..] == old(fdt[..]) && hist == old(hist)
              case Terminal(fd) => r == fd && fdt[..] == old(fdt[..]) && hist == old(hist)
              case NewFile(fd, d) => r == fd && 2 <= fd <= MAX_FD_NUM && old(fdt[..])[fd].flags == FREE
                                     && fdt[..] == old(fdt[..])[fd := d] && hist == old(hist)[fd := []]
    {
      hide File, InodeOk, LookupFrom, Listing;
      ghost var name := CStr(filename, |filename|);
      var len := Strlen(filename);
      PrefixTest(filename, len, STDIN);
      PrefixTest(filename, len, STDOUT);
      if len == 0 {
        return -1;
      }
      var c := Strncmp(filename, STDIN + [NUL], len);
      if c == 0 {
        return 0;
      }
      c := Strncmp(filename, STDOUT + [NUL], len);
      if c == 0 {
        return 1;
      }
      var entry := ReadDentryByName(img, filename);
      if entry.None? {
        return -1;
      }
      r := Allocate(DentryAt(img, entry.value));
    }

    /** Fills in the first free descriptor for a directory entry. */
    method Allocate(dentry: Dentry) returns (r: int)
      requires Valid()
      modifies this, fdt
      ensures Valid()
      ensures match (LowestFd(old(fdt[..]), 2), KindOf(dentry.fileType))
              case (Some(fd), Some(kind)) =>
                r == fd && hist == old(hist)[fd := []]
                && fdt[..] == old(fdt[..])[fd := NewDesc(kind, dentry.inode)]
              case _ => r == -1 && fdt[..] == old(fdt[..]) && hist == old(hist)
    {
      hide File, InodeOk, Listing;
      for i := 2 to MAX_FD_NUM + 1
        invariant LowestFd(fdt[..], 2) == LowestFd(fdt[..], i)
      {
        assert fdt[..][i] == fdt[i];
        if fdt[i].flags == FREE {
          var kind := KindOf(dentry.fileType);
          if kind.None? {
            return -1;
          }
          fdt[i] := NewDesc(kind.value, dentry.inode);
          hist := hist[i := []];
          return i;
        }
      }
      return -1;
    }

    /** `close`: frees a descriptor from 2 on that is in use; nothing else changes. */
    method Close(fd: int) returns (r: int)
      requires Valid()
      modifies fdt
      ensures Valid()
      ensures r == 0 <==> 2 <= fd <= MAX_FD_NUM && old(fdt[..])[fd].flags == IN_USE
      ensures r == 0 ==> fdt[..] == old(fdt[..])[fd := old(fdt[..])[fd].(flags := FREE)]
      ensures r != 0 ==> r == -1 && fdt[..] == old(fdt[..])
    {
      if fd < 2 || fd > MAX_FD_NUM {
        return -1;
      }
      if fdt[fd].flags == IN_USE {
        fdt[fd] := fdt[fd].(flags := FREE);
        return 0;
      }
      return -1;
    }

    /** Reading a file or directory descriptor into `buf + at`. A directory read ignores the number
        of bytes asked for and always writes 32. Returns how much was delivered, which is recorded. */
    method Read(fd: int, buf: array<byte>, at: nat, nbytes: nat) returns (r: int)
      requires Valid() && nbytes < 0x8000_0000
      requires 0 <= fd <= MAX_FD_NUM && fdt[fd].flags == IN_USE ==> fdt[fd].kind in {Regular, Directory}
      requires at + (if 0 <= fd <= MAX_FD_NUM && fdt[fd].kind == Directory then NAME_LENGTH else nbytes) <= buf.Length
      modifies this, fdt, buf
      ensures Valid()
      ensures var t := old(fdt[..]);
              if fd < 0 || fd > MAX_FD_NUM || t[fd].flags != IN_USE || Source(img, t[fd]).None? then
                r == -1 && fdt[..] == t && hist == old(hist) && buf[..] == old(buf[..])
              else
                var all, p := Source(img, t[fd]).value, Delivered(t[fd]);
                var want := if t[fd].kind == Directory then NAME_LENGTH else nbytes;
                && r == (if p + want > |all| then |all| - p else want)
                && buf[..] == old(buf[..at]) + all[p..p + r] + old(buf[at + r..])
                && hist == old(hist)[fd := old(hist)[fd] + all[p..p + r]]
                && fdt[..] == t[fd := t[fd].(position := fdt[fd].position)]
                && Delivered(fdt[fd]) == p + r
    {
      hide File, InodeOk, Listing;
      if fd < 0 || fd > MAX_FD_NUM {
        return -1;
      }
      if fdt[fd].flags == FREE {
        return -1;
      }
      if fdt[fd].kind == Regular {
        r := FileRead(fd, buf, at, nbytes);
      } else {
        r := DirRead(fd, buf, at);
      }
    }

    method FileRead(fd: nat, buf: array<byte>, at: nat, nbytes: nat) returns (r: int)
      requires Valid() && nbytes < 0x8000_0000
      requires 2 <= fd <= MAX_FD_NUM && fdt[fd].flags == IN_USE && fdt[fd].kind == Regular
      requires at + nbytes <= buf.Length
      modifies this, fdt, buf
      ensures Valid()
      ensures var d := old(fdt[fd]);
              if d.inode >= NumInodes(img) then
                r == -1 && fdt[..] == old(fdt[..]) && hist == old(hist) && buf[..] == old(buf[..])
              else
                var f := File(img, d.inode);
                && d.position <= |f|
                && r == (if d.position + nbytes > |f| then |f| - d.position else nbytes)
                && buf[..] == old(buf[..at]) + f[d.position..d.position + r] + old(buf[at + r..])
                && hist == old(hist)[fd := old(hist)[fd] + f[d.position..d.position + r]]
                && fdt[..] == old(fdt[..])[fd := d.(position := d.position + r)]
    {
      hide File, Listing, Slice, InodeOk, CopiedFrom, EndPoint;
      ghost var d, h := fdt[fd], hist[fd];
      SliceIs(img, d, nbytes);
      var n := ReadData(img, fdt[fd].inode, fdt[fd].position, buf, at, nbytes);
      if n == -1 {
        return -1;
      }
      ghost var f := File(img, d.inode);
      assert h + f[d.position..d.position + n] == f[..d.position + n];
      fdt[fd] := fdt[fd].(position := fdt[fd].position + n);
      hist := hist[fd := h + f[d.position..d.position + n]];
      return n;
    }

    method DirRead(fd: nat, buf: array<byte>, at: nat) returns (r: int)
      requires Valid()
      requires 2 <= fd <= MAX_FD_NUM && fdt[fd].flags == IN_USE && fdt[fd].kind == Directory
      requires at + NAME_LENGTH <= buf.Length
      modifies this, fdt, buf
      ensures Valid()
      ensures var d, all := old(fdt[fd]), Listing(img, NumDentries(img));
              && r == (if d.position < NumDentries(img) then NAME_LENGTH else 0)
              && d.position * NAME_LENGTH + r <= |all|
              && buf[..] == old(buf[..at]) + all[d.position * NAME_LENGTH..d.position * NAME_LENGTH + r]
                         + old(buf[at + r..])
              && hist == old(hist)[fd := old(hist)[fd] + all[d.position * NAME_LENGTH..d.position * NAME_LENGTH + r]]
              && fdt[..] == old(fdt[..])[fd := d.(position := d.position + (if r > 0 then 1 else 0))]
    {
      hide File, Listing, InodeOk, Padded, Name;
      ghost var d, h := fdt[fd], hist[fd];
      ghost var all := Listing(img, NumDentries(img));
      if fdt[fd].position >= NumDentries(img) {
        assert h + all[d.position * NAME_LENGTH..d.position * NAME_LENGTH] == h;
        assert buf[..] == buf[..at] + [] + buf[at..];
        return 0;
      }
      ListingEntry(img, NumDentries(img), d.position);
      CopyName(img, fdt[fd].position, buf, at);
      ghost var p := d.position * NAME_LENGTH;
      assert h + all[p..p + NAME_LENGTH] == all[..p + NAME_LENGTH];
      fdt[fd] := fdt[fd].(position := fdt[fd].position + 1);
      hist := hist[fd := h + all[p..p + NAME_LENGTH]];
      return NAME_LENGTH;
    }
  }

  /** A name is a prefix of a fixed string exactly when they agree for the length of the name. */
  lemma PrefixTest(filename: Bytes, len: nat, fixed: Bytes)
    requires len < |filename| && filename[len] == NUL && NulFree(filename[..len]) && NulFree(fixed)
    ensures CStr(filename, len) == filename[..len] == CStr(filename, |filename|)
    ensures CStr(fixed + [NUL], len) == CStr(filename, len) <==> filename[..len] <= fixed
  {
    CStrIs(filename, len, len);
    CStrIs(filename, |filename|, len);
    var k := if len <= |fixed| then len else |fixed|;
    assert (fixed + [NUL])[..k] == fixed[..k];
    CStrIs(fixed + [NUL], len, k);
  }

  /** A read at a valid position delivers the file from there, as far as asked and available. */
  lemma SliceIs(img: Image, d: FileDesc, n: nat)
    requires WellFormed(img)
    ensures d.inode >= NumInodes(img) ==> Slice(img, d.inode, d.position, n) == None
    ensures d.inode < NumInodes(img) && d.position <= FileSize(img, d.inode) ==>
              var f := File(img, d.inode);
              && |f| < 0x8000_0000
              && Slice(img, d.inode, d.position, n)
                 == Some(f[d.position..if d.position + n > |f| then |f| else d.position + n])
  {
    if d.inode < NumInodes(img) {
      assert InodeOk(img, d.inode);
    }
  }

  lemma {:induction false} ListingEntry(img: Image, n: nat, i: nat)
    requires |img| >= FOUR_KB && i < n <= NumDentries(img) <= MAX_DENTRIES
    ensures (i + 1) * NAME_LENGTH <= |Listing(img, n)|
    ensures Listing(img, n)[i * NAME_LENGTH..i * NAME_LENGTH + NAME_LENGTH] == Padded(Name(img, i), NAME_LENGTH)
  {
    hide Padded, Name, NumDentries;
    var all, p := Listing(img, n - 1), i * NAME_LENGTH;
    if i < n - 1 {
      ListingEntry(img, n - 1, i);
      assert Listing(img, n)[i * NAME_LENGTH..i * NAME_LENGTH + NAME_LENGTH]
          == Listing(img, n - 1)[i * NAME_LENGTH..i * NAME_LENGTH + NAME_LENGTH];
    }
  }

  /** `read_dentry_by_index` and `strncpy` of the name. */
  method CopyName(img: Image, i: nat, buf: array<byte>, at: nat)
    requires |img| >= FOUR_KB && i < MAX_DENTRIES && at + NAME_LENGTH <= buf.Length
    modifies buf
    ensures buf[..] == old(buf[..at]) + Padded(Name(img, i), NAME_LENGTH) + old(buf[at + NAME_LENGTH..])
  {
    hide Padded, CStr;
    var name := new byte[NAME_LENGTH];
    Strncpy(name, NameField(img, i), NAME_LENGTH);
    assert name[..] == Padded(Name(img, i), NAME_LENGTH);
    for k := 0 to NAME_LENGTH
      invariant name[..] == Padded(Name(img, i), NAME_LENGTH)
      invariant forall j :: 0 <= j < k ==> buf[at + j] == name[j]
      invariant forall j :: 0 <= j < buf.Length && !(at <= j < at + k) ==> buf[j] == old(buf[j])
    {
      buf[at + k] := name[k];
    }
    assert buf[at..at + NAME_LENGTH] == name[..];
    assert buf[..at] == old(buf[..at]) && buf[at + NAME_LENGTH..] == old(buf[at + NAME_LENGTH..]);
    assert buf[..] == buf[..at] + buf[at..at + NAME_LENGTH] + buf[at + NAME_LENGTH..];
  }
}
