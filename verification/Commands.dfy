/** Command lines: how `execute` splits one into a program name and an argument string, and how
    `getargs` hands the arguments back. */
module Commands {
  import opened Common
  import opened Strings
  import opened FileSystem

  /** What a process can be started with: a string that fits the control block with its NUL. */
  type Args = s: Bytes | NulFree(s) && |s| < BUF_LENGTH

  /** The longest prefix of at most `n` bytes without a space. */
  function Word1(s: Bytes, n: nat): (r: Bytes)
    ensures |r| <= n && |r| <= |s| && r == s[..|r|] && SPACE !in r
    ensures |r| < n && |r| < |s| ==> s[|r|] == SPACE
  {
    if n == 0 || s == [] || s[0] == SPACE then [] else [s[0]] + Word1(s[1..], n - 1)
  }

  function Spaces(n: nat): Bytes { seq(n, _ => SPACE) }

  /** `s` without its leading spaces. */
  function SkipSpaces(s: Bytes): (r: Bytes)
    ensures |r| <= |s| && s == Spaces(|s| - |r|) + r
    ensures r != [] ==> r[0] != SPACE
  {
    if s != [] && s[0] == SPACE then
      var r := SkipSpaces(s[1..]);
      assert Spaces(|s| - |r|) == [SPACE] + Spaces(|s| - 1 - |r|);
      r
    else s
  }

  function ProgramName(text: Bytes): Bytes { Word1(text, NAME_LENGTH) }

  function Arguments(text: Bytes): Bytes {
    var a := SkipSpaces(text[|ProgramName(text)|..]);
    if |a| < BUF_LENGTH then a else a[..BUF_LENGTH - 1]
  }

  /** The arguments of a NUL-terminated command line. */
  function CommandArgs(command: Bytes): Args {
    var text := CStr(command, |command|);
    ArgumentsFit(text);
    Arguments(text)
  }

  lemma ArgumentsFit(text: Bytes)
    requires NulFree(text)
    ensures NulFree(Arguments(text)) && |Arguments(text)| < BUF_LENGTH
  {
    hide NulFree, CStr;
    var a := SkipSpaces(text[|ProgramName(text)|..]);
    var k := |text| - |a|;
    assert a == text[k..] && Arguments(text) == text[k..][..|Arguments(text)|];
    Within(text, k, |Arguments(text)|);
  }

  lemma {:induction false} Word1Is(s: Bytes, n: nat, k: nat)
    requires k <= n && k <= |s| && SPACE !in s[..k]
    requires k == n || k == |s| || s[k] == SPACE
    ensures Word1(s, n) == s[..k]
  {
    if k > 0 {
      assert s[..k][0] != SPACE;
      assert s[1..][..k - 1] == s[..k][1..];
      Word1Is(s[1..], n - 1, k - 1);
    }
  }

  lemma {:induction false} SkipSpacesIs(s: Bytes, k: nat)
    requires k <= |s| && forall i :: 0 <= i < k ==> s[i] == SPACE
    requires k == |s| || s[k] != SPACE
    ensures SkipSpaces(s) == s[k..]
  {
    if k > 0 {
      SkipSpacesIs(s[1..], k - 1);
      assert s[1..][k - 1..] == s[k..];
    }
  }

  /** Round trip: name, one or more spaces, arguments. */
  lemma CommandRoundTrip(name: Bytes, gap: nat, args: Bytes)
    requires |name| <= NAME_LENGTH && SPACE !in name
    requires gap > 0 && |args| < BUF_LENGTH && (args != [] ==> args[0] != SPACE)
    ensures var text := name + Spaces(gap) + args;
            ProgramName(text) == name && Arguments(text) == args
  {
    var text := name + Spaces(gap) + args;
    assert text[..|name|] == name;
    assert text[|name|] == SPACE;
    Word1Is(text, NAME_LENGTH, |name|);
    var rest := text[|name|..];
    assert rest == Spaces(gap) + args;
    SkipSpacesIs(rest, gap);
    assert rest[gap..] == args;
  }

  /** A name with nothing behind it. */
  lemma NameAlone(name: Bytes)
    requires |name| <= NAME_LENGTH && SPACE !in name
    ensures ProgramName(name) == name && Arguments(name) == []
  {
    assert name[..|name|] == name;
    Word1Is(name, NAME_LENGTH, |name|);
  }

  /** Nothing of a command line is lost except spaces after the name and arguments past 127 bytes. */
  lemma CommandLossless(text: Bytes) returns (gap: nat, tail: Bytes)
    ensures text == ProgramName(text) + (Spaces(gap) + (Arguments(text) + tail))
    ensures tail != [] ==> |Arguments(text)| == BUF_LENGTH - 1
  {
    var name := ProgramName(text);
    var a := SkipSpaces(text[|name|..]);
    gap := |text[|name|..]| - |a|;
    var args := Arguments(text);
    tail := if |a| < BUF_LENGTH then [] else a[BUF_LENGTH - 1..];
    hide Word1, SkipSpaces, Spaces;
    assert a == args + tail;
    assert text == name + text[|name|..];
  }

  /** The first part of `execute`: copies the name and NUL-terminates it. */
  method SplitName(command: Bytes) returns (filename: array<byte>, i: nat)
    requires NUL in command
    ensures fresh(filename) && filename.Length == NAME_LENGTH + 1
    ensures var text := CStr(command, |command|);
            && i == |ProgramName(text)|
            && filename[..i] == ProgramName(text) && filename[i] == NUL
  {
    filename := new byte[NAME_LENGTH + 1](_ => NUL);
    ghost var text := CStr(command, |command|);
    assert |text| < |command|;
    i := 0;
    while command[i] != NUL && command[i] != SPACE && i < NAME_LENGTH
      invariant i <= NAME_LENGTH && i <= |text|
      invariant filename[..i] == text[..i] && SPACE !in text[..i]
      decreases NAME_LENGTH - i
    {
      assert i < |text|;
      assert text[..i + 1] == text[..i] + [command[i]];
      filename[i] := command[i];
      i := i + 1;
    }
    if i < |text| { assert command[i] == text[i] != NUL; }
    Word1Is(text, NAME_LENGTH, i);
    filename[i] := NUL;
  }

  /** Skips the spaces of a NUL-terminated command from `start` on. */
  method SkipGap(command: Bytes, start: nat) returns (i: nat)
    requires NUL in command && start <= |CStr(command, |command|)|
    ensures var rest := CStr(command, |command|)[start..];
            i <= |rest| && SkipSpaces(rest) == rest[i..]
  {
    ghost var text := CStr(command, |command|);
    ghost var rest := text[start..];
    i := 0;
    while command[start + i] == SPACE
      invariant i <= |rest|
      invariant forall k :: 0 <= k < i ==> rest[k] == SPACE
      decreases |rest| - i
    {
      assert start + i != |text|;
      i := i + 1;
    }
    if i < |rest| { assert rest[i] == command[start + i]; }
    SkipSpacesIs(rest, i);
  }

  /** Copies the argument bytes from `start` on into a 128-byte buffer and terminates it. */
  method CopyArgs(command: Bytes, start: nat) returns (args: array<byte>)
    requires NUL in command && start <= |CStr(command, |command|)|
    ensures fresh(args) && args.Length == BUF_LENGTH
    ensures var a := CStr(command, |command|)[start..];
            var r := if |a| < BUF_LENGTH then a else a[..BUF_LENGTH - 1];
            args[..|r|] == r && args[|r|] == NUL
  {
    ghost var text := CStr(command, |command|);
    ghost var a := text[start..];
    args := new byte[BUF_LENGTH](_ => NUL);
    var j := 0;
    while j < BUF_LENGTH && command[start + j] != NUL
      invariant j <= BUF_LENGTH && j <= |a|
      invariant forall k :: 0 <= k < j ==> args[k] == a[k]
    {
      assert start + j != |text|;
      assert a[j] == command[start + j];
      args[j] := command[start + j];
      j := j + 1;
    }
    if j < |a| { assert a[j] == text[start + j] == command[start + j]; }
    if j < BUF_LENGTH {
      args[j] := NUL;
    }
    args[BUF_LENGTH - 1] := NUL;
  }

  /** The second part of `execute`: skips spaces after the name, copies at most 127 bytes, and
      `strncpy`s them into the process control block. */
  method SplitArgs(command: Bytes, start: nat) returns (pcbArgs: Bytes)
    requires NUL in command && start == |ProgramName(CStr(command, |command|))|
    ensures pcbArgs == Padded(Arguments(CStr(command, |command|)), BUF_LENGTH)
  {
    ghost var text := CStr(command, |command|);
    var i := SkipGap(command, start);
    var args := CopyArgs(command, start + i);
    ghost var r := Arguments(text);
    assert text[start..][i..] == text[start + i..];
    assert NulFree(r) by { Within(text, start + i, |r|); }
    var dest := new byte[BUF_LENGTH](_ => NUL);
    CStrIs(args[..], BUF_LENGTH, |r|);
    Strncpy(dest, args[..], BUF_LENGTH);
    assert dest[BUF_LENGTH..] == [];
    pcbArgs := dest[..];
  }

  lemma Within(s: Bytes, k: nat, n: nat)
    requires NulFree(s) && k + n <= |s|
    ensures NulFree(s[k..][..n])
  {
  }

  lemma HasNul(a: Args)
    ensures NUL in Padded(a, BUF_LENGTH)
  {
    assert Padded(a, BUF_LENGTH)[|a|] == NUL;
  }

  /** The checks of `getargs`; the size is compared as an unsigned number. */
  predicate GetArgsPasses(a: Bytes, bufAddr: nat, nbytes: int)
    requires Int32(nbytes)
  {
    |a| + 1 <= Unsigned(nbytes) && a != [] && UserAddress(bufAddr)
  }

  /** Without arguments, or with an address outside the program region, every call fails. */
  lemma GetArgsRefuses(a: Bytes, bufAddr: nat, nbytes: int)
    requires Int32(nbytes) && (a == [] || bufAddr < 0x800_0000 || bufAddr >= 0x840_0000)
    ensures !GetArgsPasses(a, bufAddr, nbytes)
  {
  }

  /** A call that passes them fills `nbytes` bytes, again unsigned. They lie within the program page
      exactly when the size is not negative and fits behind the address; a negative size always
      passes where a size that is large enough would, and never fits. */
  lemma GetArgsStaysIff(a: Bytes, bufAddr: nat, nbytes: int)
    requires Int32(nbytes) && |a| < BUF_LENGTH && a != [] && UserAddress(bufAddr)
    ensures GetArgsPasses(a, bufAddr, nbytes) <==> nbytes < 0 || |a| < nbytes
    ensures GetArgsPasses(a, bufAddr, nbytes) ==>
              (bufAddr + Unsigned(nbytes) <= USER_PROG_END <==> 0 <= nbytes <= USER_PROG_END - bufAddr)
  {
  }

  /** `getargs`: succeeds exactly when there are arguments and the size, read as an unsigned
      number, holds them with their NUL. A size that is negative is excluded only where the call
      passes its checks and would fill the buffer without end. */
  method GetArgs(pcbArgs: Bytes, buf: array<byte>, bufAddr: nat, nbytes: int) returns (r: int)
    requires |pcbArgs| == BUF_LENGTH && NUL in pcbArgs && Int32(nbytes)
    requires GetArgsPasses(CStr(pcbArgs, BUF_LENGTH), bufAddr, nbytes) ==> 0 <= nbytes <= buf.Length
    modifies buf
    ensures if GetArgsPasses(CStr(pcbArgs, BUF_LENGTH), bufAddr, nbytes) then
              r == 0 && buf[..] == Padded(CStr(pcbArgs, BUF_LENGTH), nbytes) + old(buf[nbytes..])
            else r == -1 && buf[..] == old(buf[..])
  {
    hide CStr, Padded, NulFree;
    var len := Strlen(pcbArgs);
    EmptyIff(pcbArgs, len);
    if len + 1 > Unsigned(nbytes) || bufAddr == 0 || pcbArgs[0] == NUL
       || bufAddr < USER_PROG || bufAddr >= USER_PROG_END {
      return -1;
    }
    Strncpy(buf, pcbArgs, nbytes);
    SameString(pcbArgs, len, nbytes);
    return 0;
  }

  lemma EmptyIff(s: Bytes, len: nat)
    requires s != [] && len < |s| && s[len] == NUL && s[..len] == CStr(s, |s|)
    ensures s[0] == NUL <==> s[..len] == []
  {
    hide CStr;
    assert len > 0 ==> s[..len][0] == s[0];
  }

  /** A bound behind the string does not matter. */
  lemma SameString(s: Bytes, len: nat, n: nat)
    requires len < n && len < |s| && s[len] == NUL && s[..len] == CStr(s, |s|)
    ensures CStr(s, n) == CStr(s, |s|)
  {
    CStrIs(s, n, len);
  }
}
