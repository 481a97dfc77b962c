/** Finding and reading executables, shared by `launch` and `execute`. */
module Loader {
  import opened Common
  import opened Options
  import opened Strings
  import opened FileSystem

  const PROG_OFFSET := 0x4_8000
  const MAX_PROG_SIZE := FOUR_MB - PROG_OFFSET
  const SHELL_NAME: Bytes := [115, 104, 101, 108, 108]

  predicate IsElf(header: Bytes)
    requires |header| >= 4
  {
    header[0] == 0x7F && header[1] == 0x45 && header[2] == 0x4C && header[3] == 0x46
  }

  /** The inode of the executable a name stands for, if there is one. `junk` is what the 32-byte
      header buffer held before the header was read over it. */
  ghost function Loadable(img: Image, name: Bytes, junk: Bytes): Option<nat>
    requires WellFormed(img) && |junk| == NAME_LENGTH
  {
    match Lookup(img, name)
    case None => None
    case Some(i) =>
      var inode := DentryAt(img, i).inode;
      match Slice(img, inode, 0, NAME_LENGTH)
      case None => None
      case Some(bytes) => if IsElf(bytes + junk[|bytes|..]) then Some(inode) else None
  }

  /** The program of an executable, as much of it as fits in the user page. */
  ghost function Program(img: Image, inode: nat): Option<Bytes>
    requires WellFormed(img)
  {
    Slice(img, inode, 0, MAX_PROG_SIZE)
  }

  /** Which names are executables: the first entry of that name has an inode number in range, and the
      file of that inode begins with 0x7F and "ELF", where bytes that a file of less than four bytes
      lacks are those that were in the buffer before. */
  lemma LoadableIs(img: Image, name: Bytes, junk: Bytes)
    requires WellFormed(img) && |junk| == NAME_LENGTH
    ensures match Lookup(img, name)
            case None => Loadable(img, name, junk) == None
            case Some(i) =>
              i < 63 &&
              var inode := Word(img, 64 + 64 * i + 36);
              if inode >= Word(img, 4) then Loadable(img, name, junk) == None
              else
                var f := File(img, inode);
                var start := if |f| >= 4 then f[..4] else f + junk[|f|..4];
                Loadable(img, name, junk) == if start == [0x7F] + Ascii("ELF") then Some(inode) else None
  {
    hide File;
    if Lookup(img, name).Some? && Word(img, 64 + 64 * Lookup(img, name).value + 36) < Word(img, 4) {
      HeaderIs(File(img, Word(img, 64 + 64 * Lookup(img, name).value + 36)), junk);
    }
  }

  lemma HeaderIs(f: Bytes, junk: Bytes)
    requires |junk| == NAME_LENGTH
    ensures var bytes := f[0..if NAME_LENGTH > |f| then |f| else NAME_LENGTH];
            var start := if |f| >= 4 then f[..4] else f + junk[|f|..4];
            IsElf(bytes + junk[|bytes|..]) <==> start == [0x7F] + Ascii("ELF")
  {
    var bytes := f[0..if NAME_LENGTH > |f| then |f| else NAME_LENGTH];
    var start := if |f| >= 4 then f[..4] else f + junk[|f|..4];
    var h := bytes + junk[|bytes|..];
    assert h[..4] == start;
    assert h[0] == start[0] && h[1] == start[1] && h[2] == start[2] && h[3] == start[3];
    assert [0x7F] + Ascii("ELF") == [0x7F, 0x45, 0x4C, 0x46];
  }

  /** A program is its file, up to what fits between its load address and the end of its page. */
  lemma ProgramIs(img: Image, inode: nat)
    requires WellFormed(img)
    ensures if inode >= Word(img, 4) then Program(img, inode) == None
            else
              var f := File(img, inode);
              Program(img, inode) == Some(if |f| > 0x3B_8000 then f[..0x3B_8000] else f)
  {
    hide File;
    if inode < Word(img, 4) { assert File(img, inode)[0..|File(img, inode)|] == File(img, inode); }
  }

  lemma ShellName()
    ensures SHELL_NAME == Ascii("shell")
  {
  }

  method Load(img: Image, filename: Bytes, junk: Bytes) returns (r: Option<nat>)
    requires WellFormed(img) && |junk| == NAME_LENGTH
    requires NUL in filename && |CStr(filename, |filename|)| <= NAME_LENGTH
    ensures r == Loadable(img, CStr(filename, |filename|), junk)
    ensures r.Some? ==> r.value < NumInodes(img)
  {
    hide File, InodeOk, LookupFrom, Slice, CopiedFrom, EndPoint, CStr;
    var entry := ReadDentryByName(img, filename);
    if entry.None? {
      return None;
    }
    var inode := DentryAt(img, entry.value).inode;
    var elf := new byte[NAME_LENGTH](i requires 0 <= i < NAME_LENGTH => junk[i]);
    assert elf[..] == junk;
    var size := ReadData(img, inode, 0, elf, 0, NAME_LENGTH);
    if size == -1 {
      return None;
    }
    if elf[0] != 0x7F || elf[1] != 0x45 || elf[2] != 0x4C || elf[3] != 0x46 {
      return None;
    }
    return Some(inode);
  }

  /** The late `read_data`: it fails only for a bad inode, so never after `Load` has succeeded. */
  method ReadProgram(img: Image, inode: nat) returns (program: Option<Bytes>)
    requires WellFormed(img)
    ensures program == Program(img, inode)
    ensures program.None? <==> inode >= NumInodes(img)
  {
    hide File, InodeOk, CopiedFrom, EndPoint;
    var buf := new byte[MAX_PROG_SIZE];
    var n := ReadData(img, inode, 0, buf, 0, MAX_PROG_SIZE);
    if n == -1 {
      return None;
    }
    assert buf[..n] == Slice(img, inode, 0, MAX_PROG_SIZE).value;
    return Some(buf[..n]);
  }

  lemma ShellNameString()
    ensures NUL in SHELL_NAME + [NUL]
    ensures CStr(SHELL_NAME + [NUL], |SHELL_NAME + [NUL]|) == SHELL_NAME
  {
    var name := SHELL_NAME + [NUL];
    assert name[..|SHELL_NAME|] == SHELL_NAME && name[|SHELL_NAME|] == NUL;
    CStrIs(name, |name|, |SHELL_NAME|);
  }

  lemma NameString(filename: Bytes, i: nat)
    requires i < |filename| && NulFree(filename[..i]) && filename[i] == NUL
    ensures NUL in filename && CStr(filename, |filename|) == filename[..i]
  {
    CStrIs(filename, |filename|, i);
  }
}
