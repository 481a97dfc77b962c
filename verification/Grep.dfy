/** The grep program: one pass over a file through a 1 KB buffer, carrying an unfinished line over
    to the front of the buffer before the next read. */
module GrepProgram {
  import opened Options
  import opened Strings
  import opened FileSystem
  import opened FileTable
  import opened Descriptors
  import opened Lines

  const BUFSIZE := 1024

  /** `ece391_strncmp` of the buffer from `at` on with a string, for a positive bound. */
  method CompareAt(data: array<byte>, at: nat, s: Bytes, n: nat) returns (r: int)
    requires n > 0 && at <= data.Length && NUL in data[at..] && NUL in s
    ensures r == 0 <==> CStr(data[at..], n) == CStr(s, n)
  {
    hide CStr;
    ghost var d := data[at..];
    var i := 0;
    while data[at + i] == s[i]
      invariant i < n && i < |d| && i < |s|
      invariant d[..i] == s[..i] && NulFree(d[..i])
      invariant exists k :: i <= k < |d| && d[k] == NUL
      invariant exists k :: i <= k < |s| && s[k] == NUL
      decreases n - i
    {
      assert d[i] == s[i];
      if data[at + i] == NUL {
        Diverge(d, s, n, i);
        return 0;
      }
      if i + 1 == n {
        CStrIs(d, n, n);
        CStrIs(s, n, n);
        return 0;
      }
      i := i + 1;
    }
    assert d[i] != s[i];
    Diverge(d, s, n, i);
    return data[at + i] as int - s[i] as int;
  }

  lemma NulFreePart(s: Bytes, i: nat, n: nat)
    requires NulFree(s) && i + n <= |s|
    ensures NulFree(s[i..i + n])
  {
  }

  lemma FirstByte(pat: Bytes, line: Bytes, i: nat)
    requires pat != [] && i < |line|
    ensures OccursAt(pat, line, i) ==> line[i] == pat[0]
  {
  }

  lemma ContainsIff(line: Bytes, pat: Bytes)
    requires pat != []
    ensures (exists i: nat :: i < |line| && OccursAt(pat, line, i)) <==> Contains(line, pat)
  {
  }

  lemma NulFreeTake(s: Bytes, n: nat)
    requires NulFree(s) && n <= |s|
    ensures NulFree(s[..n])
  {
  }

  /** The search loop: does the pattern occur in data[start..end]? */
  method SearchLine(data: array<byte>, start: nat, end: nat, s: Bytes, sLen: nat) returns (found: bool)
    requires start <= end < data.Length && data[end] == NUL && NulFree(data[start..end])
    requires 0 < sLen < |s| && s[sLen] == NUL && NulFree(s[..sLen])
    ensures found <==> Contains(data[start..end], s[..sLen])
  {
    hide CStr, OccursAt, Contains, NulFree;
    ghost var full, line, pat := data[..], data[start..end], s[..sLen];
    assert line == full[start..end];
    CStrIs(s, sLen, sLen);
    ContainsIff(line, pat);
    var check := start;
    while check < end
      invariant start <= check <= end
      invariant forall i: nat :: i < check - start ==> !OccursAt(pat, line, i)
    {
      Here(full, start, end, check, pat);
      FirstByte(pat, line, check - start);
      assert line[check - start] == data[check];
      assert data[check..] == full[check..];
      if s[0] == data[check] {
        var c := CompareAt(data, check, s, sLen);
        if c == 0 {
          return true;
        }
      }
      check := check + 1;
    }
    return false;
  }

  /** What a comparison at one place of the buffer says about the line. */
  lemma Here(full: Bytes, start: nat, end: nat, check: nat, pat: Bytes)
    requires start <= check < end < |full| && full[end] == NUL && NulFree(full[start..end]) && NulFree(pat) && pat != []
    ensures NUL in full[check..]
    ensures CStr(full[check..], |pat|) == pat <==> OccursAt(pat, full[start..end], check - start)
  {
    hide CStr, OccursAt, NulFree;
    assert full[check..][end - check] == NUL;
    var k := if check + |pat| <= end then |pat| else end - check;
    StringAt(full, start, end, check, |pat|, k);
    OccursIff(full[start..end], check - start, pat, CStr(full[check..], |pat|), k);
  }

  /** The C string of at most n bytes inside a NUL-terminated line. */
  lemma StringAt(full: Bytes, start: nat, end: nat, check: nat, n: nat, k: nat)
    requires start <= check < end < |full| && full[end] == NUL && NulFree(full[start..end])
    requires k == if check + n <= end then n else end - check
    ensures CStr(full[check..], n) == full[start..end][check - start..check - start + k]
  {
    hide CStr, NulFree;
    TailTake(full, check, k);
    SubSlice(full, start, end, check - start, k);
    NulFreePart(full[start..end], check - start, k);
    CStrIs(full[check..], n, k);
  }

  lemma OccursIff(line: Bytes, i: nat, pat: Bytes, here: Bytes, k: nat)
    requires i <= |line| && k == (if i + |pat| <= |line| then |pat| else |line| - i) && here == line[i..i + k]
    ensures here == pat <==> OccursAt(pat, line, i)
  {
  }

  /** `ece391_strcpy (data, data + from)`: moves a NUL-terminated string to the front. */
  method MoveDown(data: array<byte>, from: nat, ghost n: nat)
    requires 0 < from && from + n < data.Length && data[from + n] == NUL && NulFree(data[from..from + n])
    modifies data
    ensures data[..n] == old(data[from..from + n])
    ensures forall i :: n < i < data.Length ==> data[i] == old(data[i])
  {
    var i := 0;
    while true
      invariant i <= n && data[..i] == old(data[from..from + i])
      invariant forall j :: i <= j < data.Length ==> data[j] == old(data[j])
      decreases n - i
    {
      assert i < n ==> old(data[from..from + n])[i] != NUL;
      data[i] := data[from + i];
      if data[i] == NUL {
        break;
      }
      i := i + 1;
    }
  }

  /** The state between two reads: the first `last` bytes of the buffer are the beginning of what
      remains of the file to be searched, and no stale newline sits behind a full buffer. */
  ghost predicate Carried(data: Bytes, last: nat, rest: Bytes) {
    && |data| == BUFSIZE + 1 && last <= BUFSIZE && last <= |rest|
    && data[..last] == rest[..last] && data[BUFSIZE] != NEWLINE
    && NulFree(rest) && ShortLines(rest, BUFSIZE - 1)
  }

  /** In the middle of a scan, the buffer from `start` on. */
  ghost predicate Scanning(data: Bytes, start: nat, last: nat, rest: Bytes) {
    && |data| == BUFSIZE + 1 && start <= last <= BUFSIZE && last - start <= |rest|
    && data[start..last] == rest[..last - start] && data[BUFSIZE] != NEWLINE
    && NulFree(rest) && ShortLines(rest, BUFSIZE - 1)
  }

  lemma CarriedScanning(data: Bytes, last: nat, rest: Bytes)
    requires Carried(data, last, rest)
    ensures Scanning(data, 0, last, rest) && last <= |rest|
  {
  }

  lemma ScanningBounds(data: Bytes, start: nat, last: nat, rest: Bytes)
    requires Scanning(data, start, last, rest)
    ensures |data| == BUFSIZE + 1 && start <= last <= BUFSIZE && last - start <= |rest|
  {
  }

  lemma ScannedAll(data: Bytes, last: nat, rest: Bytes)
    requires Scanning(data, last, last, rest)
    ensures Carried(data, 0, rest)
  {
  }

  /** One round of the inner loop over a buffer that has just been filled up: searches every line
      that is complete and moves the rest to the front. `rest` is the part of the file not yet
      searched, of which the first `last` bytes have been read. */
  method ScanBuffer(data: array<byte>, last: nat, cnt: nat, s: Bytes, sLen: nat, name: Bytes, ghost rest: Bytes)
    returns (out: Bytes, carried: nat, ghost left: Bytes)
    requires Carried(data[..], last, rest)
    requires last < BUFSIZE || cnt == 0 ==> |rest| == last
    requires 0 < sLen < |s| && s[sLen] == NUL && NulFree(s[..sLen])
    modifies data
    ensures Carried(data[..], carried, left) && carried < BUFSIZE && carried <= |left|
            && left[carried..] == rest[last..]
    ensures Grep(rest, s[..sLen], name) == out + Grep(left, s[..sLen], name)
    ensures cnt == 0 ==> carried == 0
  {
    hide Grep, ShortLines, LineEnd, AfterLine, LineOut, Contains, CStr, Carried, Scanning;
    ghost var pat := s[..sLen];
    out, left := [], rest;
    CarriedScanning(data[..], last, rest);
    var lineStart := 0;
    while true
      invariant Scanning(data[..], lineStart, last, left)
      invariant lineStart > 0 ==> lineStart < last
      invariant lineStart <= last && last - lineStart <= |left| && left[last - lineStart..] == rest[last..]
      invariant Grep(rest, pat, name) == out + Grep(left, pat, name)
      decreases last - lineStart
    {
      ScanningBounds(data[..], lineStart, last, left);
      var lineEnd := FindEnd(data, lineStart, last);
      if data[lineEnd] != NEWLINE && cnt != 0 && lineStart != 0 {
        CarryOver(data, lineStart, last, left);
        carried := last - lineStart;
        return;
      }
      WholeLine(data[..], lineStart, lineEnd, last, cnt, left);
      var piece := SearchAndReport(data, lineStart, lineEnd, s, sLen, name, left);
      out := out + piece;
      left := AfterLine(left);
      lineStart := lineEnd + 1;
      if lineStart >= last {
        if lineStart == last { ScannedAll(data[..], last, left); }
        carried := 0;
        return;
      }
    }
  }

  /** The unfinished line goes to the front of the buffer. */
  method CarryOver(data: array<byte>, start: nat, last: nat, ghost rest: Bytes)
    requires Scanning(data[..], start, last, rest) && 0 < start < last
    modifies data
    ensures Carried(data[..], last - start, rest)
  {
    hide ShortLines;
    assert NulFree(data[start..last]) by { NulFreePart(rest, 0, last - start); }
    data[last] := NUL;
    assert data[start..last] == old(data[start..last]);
    MoveDown(data, start, last - start);
  }

  /** Terminates the line, searches it, and reports it if the pattern occurs. */
  method SearchAndReport(data: array<byte>, start: nat, end: nat, s: Bytes, sLen: nat, name: Bytes, ghost rest: Bytes)
    returns (piece: Bytes)
    requires data.Length == BUFSIZE + 1 && start <= end <= BUFSIZE && NulFree(data[start..end])
    requires rest != [] ==> rest[..LineEnd(rest)] == data[start..end]
    requires rest == [] ==> start == end
    requires 0 < sLen < |s| && s[sLen] == NUL && NulFree(s[..sLen])
    modifies data
    ensures data[..] == old(data[..])[end := NUL]
    ensures Grep(rest, s[..sLen], name) == piece + Grep(AfterLine(rest), s[..sLen], name)
  {
    hide Grep, LineEnd, AfterLine, Contains, CStr;
    data[end] := NUL;
    assert data[start..end] == old(data[start..end]);
    var found := SearchLine(data, start, end, s, sLen);
    piece := if found then name + [COLON] + data[start..end] + [NEWLINE] else [];
    GrepStep(rest, s[..sLen], name);
    EmptyLineOut(s[..sLen], name);
    assert piece == LineOut(data[start..end], s[..sLen], name);
    if rest == [] { NothingAfter(); }
  }

  lemma NothingAfter()
    ensures AfterLine([]) == [] && NulFree([])
  {
  }

  method FindEnd(data: array<byte>, start: nat, last: nat) returns (end: nat)
    requires start <= last < data.Length
    ensures start <= end <= last && (end < last ==> data[end] == NEWLINE)
    ensures forall i :: start <= i < end ==> data[i] != NEWLINE
  {
    end := start;
    while end < last && data[end] != NEWLINE
      invariant start <= end <= last
      invariant forall i :: start <= i < end ==> data[i] != NEWLINE
    {
      end := end + 1;
    }
  }

  lemma Agree(data: Bytes, start: nat, end: nat, last: nat, rest: Bytes)
    requires Scanning(data, start, last, rest) && start <= end <= last
    ensures forall i :: 0 <= i < last - start ==> rest[i] == data[start + i]
    ensures rest[..end - start] == data[start..end] && NulFree(data[start..end])
  {
    hide ShortLines;
    forall i | 0 <= i < last - start
      ensures rest[i] == data[start + i]
    {
      assert rest[..last - start][i] == data[start..last][i];
    }
    assert rest[..end - start] == data[start..end];
    NulFreeTake(rest, end - start);
  }

  /** A full buffer without a newline would be a line that is too long. */
  lemma NotTooLong(data: Bytes, rest: Bytes)
    requires Scanning(data, 0, BUFSIZE, rest)
    ensures exists i :: 0 <= i < BUFSIZE && data[i] == NEWLINE
  {
    Agree(data, 0, BUFSIZE, BUFSIZE, rest);
    ShortRest(rest);
    if forall i :: 0 <= i < BUFSIZE ==> data[i] != NEWLINE {
      LongLine(rest, BUFSIZE);
    }
  }

  /** When a line is searched, it is a whole line of the file: either its newline is in the
      buffer, or the file ends with the buffer. */
  lemma WholeLine(data: Bytes, start: nat, end: nat, last: nat, cnt: nat, rest: Bytes)
    requires Scanning(data, start, last, rest) && start <= end <= last
    requires end < last ==> data[end] == NEWLINE
    requires forall i :: start <= i < end ==> data[i] != NEWLINE
    requires last < BUFSIZE || cnt == 0 ==> |rest| == last - start
    requires data[end] == NEWLINE || cnt == 0 || start == 0
    ensures LineEnd(rest) == end - start && rest[..end - start] == data[start..end] && NulFree(data[start..end])
    ensures end < last ==> rest != [] && AfterLine(rest) == rest[end - start + 1..]
                           && Scanning(data[end := NUL], end + 1, last, AfterLine(rest))
    ensures end == last ==> AfterLine(rest) == [] && |rest| == last - start
                            && Carried(data[end := NUL], 0, AfterLine(rest))
  {
    hide AfterLine, LineEnd, ShortLines, NulFree, Scanning, Carried;
    Agree(data, start, end, last, rest);
    if end < last {
      InnerLine(data, start, end, last, rest);
    } else {
      LastLine(data, start, last, cnt, rest);
    }
  }

  lemma InnerLine(data: Bytes, start: nat, end: nat, last: nat, rest: Bytes)
    requires Scanning(data, start, last, rest) && start <= end < last && data[end] == NEWLINE
    requires forall i :: start <= i < end ==> data[i] != NEWLINE
    ensures rest != [] && LineEnd(rest) == end - start && AfterLine(rest) == rest[end - start + 1..]
    ensures Scanning(data[end := NUL], end + 1, last, AfterLine(rest))
  {
    hide AfterLine, LineEnd, ShortLines, NulFree;
    Agree(data, start, end, last, rest);
    FirstLine(rest, end - start);
    NextLine(data, start, end, last, rest);
    ShortRest(rest);
  }

  lemma LastLine(data: Bytes, start: nat, last: nat, cnt: nat, rest: Bytes)
    requires Scanning(data, start, last, rest)
    requires forall i :: start <= i < last ==> data[i] != NEWLINE
    requires last < BUFSIZE || cnt == 0 ==> |rest| == last - start
    requires data[last] == NEWLINE || cnt == 0 || start == 0
    ensures |rest| == last - start && LineEnd(rest) == last - start && AfterLine(rest) == []
    ensures Carried(data[last := NUL], 0, [])
  {
    hide AfterLine, LineEnd, ShortLines, NulFree;
    Agree(data, start, last, last, rest);
    if last == BUFSIZE && start == 0 {
      NotTooLong(data, rest);
    }
    FirstLine(rest, last - start);
    ShortRest(rest);
    NothingAfter();
  }

  lemma ShortRest(rest: Bytes)
    requires ShortLines(rest, BUFSIZE - 1)
    ensures ShortLines(AfterLine(rest), BUFSIZE - 1) && (rest != [] ==> LineEnd(rest) < BUFSIZE)
  {
  }

  /** Past a newline, buffer and file still agree. */
  lemma NextLine(data: Bytes, start: nat, end: nat, last: nat, rest: Bytes)
    requires Scanning(data, start, last, rest) && start <= end < last
    ensures var r := rest[end - start + 1..];
            data[end := NUL][end + 1..last] == r[..last - end - 1] && data[end := NUL][BUFSIZE] != NEWLINE && NulFree(r)
  {
    hide ShortLines;
    NulFreePart(rest, end - start + 1, |rest| - (end - start + 1));
    var r := rest[end - start + 1..];
    assert r == rest[end - start + 1..|rest|];
    forall i | 0 <= i < last - end - 1
      ensures data[end + 1 + i] == r[i]
    {
      assert data[start..last][end - start + 1 + i] == rest[..last - start][end - start + 1 + i];
    }
  }

  /** A read appends to the carried line and leaves the place behind a full buffer alone. */
  lemma Refilled(before: Bytes, after: Bytes, last: nat, n: nat, left: Bytes)
    requires Carried(before, last, left) && last + n <= BUFSIZE && last + n <= |left|
    requires after == before[..last] + left[last..][..n] + before[last + n..]
    ensures Carried(after, last + n, left)
  {
    hide ShortLines;
    var front := before[..last] + left[last..][..n];
    assert after[..last + n] == front;
    assert front == left[..last + n];
    assert after[BUFSIZE] == before[last + n..][BUFSIZE - (last + n)];
  }

  /** `do_one_file`: for a file without NUL bytes and with lines of at most 1023 bytes, prints
      exactly the lines that contain the pattern, once each and in order, and gives the
      descriptor back. `junk` is what the buffer held at the start. */
  method DoOneFile(p: Process, s: Bytes, fname: Bytes, junk: Bytes) returns (out: Bytes, r: int)
    requires p.Valid() && NUL in s && CStr(s, |s|) != []
    requires NUL in fname && |CStr(fname, |fname|)| <= NAME_LENGTH
    requires |junk| == BUFSIZE + 1 && junk[BUFSIZE] != NEWLINE
    requires var o := Opened(p.img, p.fdt[..], CStr(fname, |fname|));
             !o.Terminal? && (o.NewFile? ==> o.desc.kind == Regular && (o.desc.inode < NumInodes(p.img) ==>
               NulFree(File(p.img, o.desc.inode)) && ShortLines(File(p.img, o.desc.inode), BUFSIZE - 1)))
    modifies p, p.fdt
    ensures p.Valid()
    ensures match Opened(p.img, old(p.fdt[..]), CStr(fname, |fname|))
            case NewFile(fd, d) =>
              if d.inode >= NumInodes(p.img) then r == -1 && out == Ascii("file read failed\n")
              else r == 0 && out == Grep(File(p.img, d.inode), CStr(s, |s|), CStr(fname, |fname|))
                   && p.fdt[..] == old(p.fdt[..])[fd := d.(position := FileSize(p.img, d.inode), flags := FREE)]
            case _ => r == -1 && out == Ascii("file open failed\n") && p.fdt[..] == old(p.fdt[..])
  {
    hide Grep, File, Listing, InodeOk, Carried, ShortLines, Opened, Ascii;
    var data := new byte[BUFSIZE + 1](i requires 0 <= i < BUFSIZE + 1 => junk[i]);
    assert data[..] == junk;
    var sLen := Strlen(s);
    var nameLen := Strlen(fname);
    var name := fname[..nameLen];
    OpenedFacts(p.img, p.fdt[..], CStr(fname, |fname|));
    var fd := p.Open(fname);
    if fd == -1 {
      return Ascii("file open failed\n"), -1;
    }
    assert p.fdt[fd] == p.fdt[..][fd];
    if p.fdt[fd].inode >= NumInodes(p.img) {
      var c := p.Read(fd, data, 0, BUFSIZE);
      return Ascii("file read failed\n"), -1;
    }
    ghost var f := File(p.img, p.fdt[fd].inode);
    ghost var table := p.fdt[..];
    CarriedStart(junk, f);
    out, r := SearchFile(p, fd, data, s, sLen, name, f);
    var c := p.Close(fd);
    if c == -1 {
      assert false;
    }
  }

  lemma CarriedStart(junk: Bytes, f: Bytes)
    requires |junk| == BUFSIZE + 1 && junk[BUFSIZE] != NEWLINE && NulFree(f) && ShortLines(f, BUFSIZE - 1)
    ensures Carried(junk, 0, f)
  {
  }

  lemma CarriedEnd(data: Bytes, f: Bytes, left: Bytes, pat: Bytes, name: Bytes)
    requires Carried(data, 0, left) && left[0..] == []
    ensures Grep(left, pat, name) == []
  {
    GrepStep(left, pat, name);
  }

  /** The read loop of `do_one_file`, until a read returns 0. */
  method SearchFile(p: Process, fd: nat, data: array<byte>, s: Bytes, sLen: nat, name: Bytes, ghost f: Bytes)
    returns (out: Bytes, r: int)
    requires p.Valid() && 2 <= fd <= MAX_FD_NUM && data != p.fdt as object && data.Length == BUFSIZE + 1
    requires p.fdt[fd].flags == IN_USE && p.fdt[fd].kind == Regular && p.fdt[fd].position == 0
    requires p.fdt[fd].inode < NumInodes(p.img) && f == File(p.img, p.fdt[fd].inode)
    requires Carried(data[..], 0, f) && 0 < sLen < |s| && s[sLen] == NUL && NulFree(s[..sLen])
    modifies p, p.fdt, data
    ensures p.Valid() && r == 0 && out == Grep(f, s[..sLen], name)
    ensures p.fdt[..] == old(p.fdt[..])[fd := old(p.fdt[..])[fd].(position := |f|)]
  {
    hide Grep, File, Listing, InodeOk, Carried, ShortLines;
    ghost var d := p.fdt[fd];
    ghost var left := f;
    var last: nat := 0;
    out := [];
    while true
      invariant p.Valid() && last < BUFSIZE && Carried(data[..], last, left)
      invariant p.fdt[..] == old(p.fdt[..])[fd := d.(position := p.fdt[fd].position)] && p.fdt[fd].position <= |f|
      invariant last <= |left| && left[last..] == f[p.fdt[fd].position..]
      invariant data.Length == BUFSIZE + 1
      invariant Grep(f, s[..sLen], name) == out + Grep(left, s[..sLen], name)
      decreases |f| - p.fdt[fd].position
    {
      ghost var before, pos := data[..], p.fdt[fd].position;
      assert p.fdt[fd] == p.fdt[..][fd];
      var cnt := p.Read(fd, data, last, BUFSIZE - last);
      assert p.fdt[fd] == p.fdt[..][fd];
      assert f[pos..pos + cnt] == left[last..][..cnt];
      Refilled(before, data[..], last, cnt, left);
      last := last + cnt;
      assert left[last..] == f[pos + cnt..];
      var piece, carried;
      ghost var next;
      piece, carried, next := ScanBuffer(data, last, cnt, s, sLen, name, left);
      out := out + piece;
      left, last := next, carried;
      if cnt == 0 {
        CarriedEnd(data[..], f, left, s[..sLen], name);
        break;
      }
    }
    return out, 0;
  }

  // ----- cat -----

  /** `cat`: copies a file, or a directory listing, to its output. */
  method Cat(p: Process, fname: Bytes) returns (out: Bytes, r: int)
    requires p.Valid() && NUL in fname && |CStr(fname, |fname|)| <= NAME_LENGTH
    requires var o := Opened(p.img, p.fdt[..], CStr(fname, |fname|));
             !o.Terminal? && (o.NewFile? ==> o.desc.kind != Rtc)
    modifies p, p.fdt
    ensures p.Valid()
    ensures match Opened(p.img, old(p.fdt[..]), CStr(fname, |fname|))
            case NewFile(fd, d) =>
              (match Source(p.img, d)
               case None => r == 3 && out == Ascii("file read failed\n")
               case Some(all) => r == 0 && out == all)
            case _ => r == 2 && out == Ascii("file not found\n")
    ensures match Lookup(p.img, CStr(fname, |fname|))
            case None => true
            case Some(i) =>
              Opened(p.img, old(p.fdt[..]), CStr(fname, |fname|)).NewFile? ==>
                var fileType, inode := Word(p.img, 64 + 64 * i + 32), Word(p.img, 64 + 64 * i + 36);
                && (fileType == 1 ==> r == 0 && out == Listing(p.img, Word(p.img, 0)))
                && (fileType == 2 && inode < Word(p.img, 4) ==> r == 0 && out == File(p.img, inode))
  {
    hide File, Listing, InodeOk, Opened, Ascii, Source, Word, CStr, LookupFrom, HistoryOk, WellFormed;
    CatByType(p, CStr(fname, |fname|));
    OpenedFacts(p.img, p.fdt[..], CStr(fname, |fname|));
    var fd := p.Open(fname);
    if fd == -1 {
      return Ascii("file not found\n"), 2;
    }
    assert p.fdt[fd] == p.fdt[..][fd];
    out, r := CopyOut(p, fd);
    if r == 3 {
      out := Ascii("file read failed\n");
    }
  }

  /** What is written for a directory and for a file. */
  lemma CatByType(p: Process, name: Bytes)
    requires p.Valid()
    ensures match Lookup(p.img, name)
            case None => true
            case Some(i) =>
              i < MAX_DENTRIES &&
              match Opened(p.img, p.fdt[..], name)
              case NewFile(_, d) =>
                var fileType, inode := Word(p.img, 64 + 64 * i + 32), Word(p.img, 64 + 64 * i + 36);
                && (fileType == 1 ==> Source(p.img, d) == Some(Listing(p.img, Word(p.img, 0))))
                && (fileType == 2 && inode < Word(p.img, 4) ==> Source(p.img, d) == Some(File(p.img, inode)))
              case _ => true
  {
    hide Opened, Source, Listing, File;
    if Lookup(p.img, name).Some? && Opened(p.img, p.fdt[..], name).NewFile? {
      OpensByType(p.img, p.fdt[..], name, Lookup(p.img, name).value);
    }
  }

  /** The loop of `cat`. Reads and writes 1024 bytes at a time until a read returns 0. */
  method CopyOut(p: Process, fd: nat) returns (out: Bytes, r: int)
    requires p.Valid() && 2 <= fd <= MAX_FD_NUM
    requires p.fdt[fd].flags == IN_USE && p.fdt[fd].kind in {Regular, Directory} && p.fdt[fd].position == 0
    modifies p, p.fdt
    ensures p.Valid()
    ensures match Source(p.img, old(p.fdt[fd]))
            case None => r == 3
            case Some(all) => r == 0 && out == all
  {
    hide File, Listing, InodeOk, HistoryOk, WellFormed, Copied;
    ghost var d := p.fdt[fd];
    ghost var source := Source(p.img, d);
    var buf := new byte[1024];
    out := [];
    var cnt := ReadChunk(p, fd, buf, d, out);
    while cnt != 0
      invariant p.Valid() && p.fdt[fd] == d.(position := p.fdt[fd].position)
      invariant source.None? ==> cnt == -1
      invariant source.Some? ==> 0 <= cnt <= 1024 && Copied(source.value, out, buf[..][..cnt], Delivered(p.fdt[fd]))
      invariant source.Some? && cnt == 0 ==> Delivered(p.fdt[fd]) == |source.value|
      decreases if source.Some? then |source.value| - |out| else 0
    {
      if cnt == -1 {
        return [], 3;
      }
      AllRead(source.value, out, buf[..][..cnt], Delivered(p.fdt[fd]));
      assert buf[..cnt] == buf[..][..cnt];
      out := out + buf[..cnt];
      cnt := ReadChunk(p, fd, buf, d, out);
    }
    if source.Some? { AllCopied(source.value, out, buf[..][..0]); }
    return out, 0;
  }

  /** One `read` of `cat`, when everything delivered so far has been written. */
  method ReadChunk(p: Process, fd: nat, buf: array<byte>, ghost d: FileDesc, ghost out: Bytes) returns (cnt: int)
    requires p.Valid() && 2 <= fd <= MAX_FD_NUM && buf.Length == 1024 && buf != p.fdt as object
    requires p.fdt[fd] == d.(position := p.fdt[fd].position) && d.flags == IN_USE && d.kind in {Regular, Directory}
    requires var source := Source(p.img, d);
             source.Some? ==> Delivered(p.fdt[fd]) <= |source.value| && out == source.value[..Delivered(p.fdt[fd])]
    modifies p, p.fdt, buf
    ensures p.Valid() && p.fdt[fd] == d.(position := p.fdt[fd].position)
    ensures match Source(p.img, d)
            case None => cnt == -1
            case Some(all) =>
              && 0 <= cnt <= 1024 && Copied(all, out, buf[..][..cnt], Delivered(p.fdt[fd]))
              && (cnt == 0 ==> Delivered(p.fdt[fd]) == |all|)
  {
    hide File, Listing, InodeOk, HistoryOk, WellFormed, Copied;
    ghost var source, at := Source(p.img, d), Delivered(p.fdt[fd]);
    assert p.fdt[fd] == p.fdt[..][fd];
    cnt := p.Read(fd, buf, 0, 1024);
    assert p.fdt[fd] == p.fdt[..][fd];
    if source.Some? {
      assert buf[..][..cnt] == source.value[at..at + cnt];
      MoreCopied(source.value, out, at, cnt, buf[..]);
    }
  }

  /** What has been written, followed by what has been read, is the source up to its position. */
  ghost predicate Copied(all: Bytes, out: Bytes, pending: Bytes, at: nat) {
    at <= |all| && out + pending == all[..at]
  }

  lemma AllRead(all: Bytes, out: Bytes, pending: Bytes, at: nat)
    requires Copied(all, out, pending, at)
    ensures at <= |all| && out + pending == all[..at] && |out + pending| == |out| + |pending|
  {
  }

  lemma AllCopied(all: Bytes, out: Bytes, pending: Bytes)
    requires Copied(all, out, pending, |all|) && pending == []
    ensures out == all
  {
  }

  lemma MoreCopied(all: Bytes, out: Bytes, at: nat, n: int, buf: Bytes)
    requires at <= |all| && out == all[..at] && 0 <= n && at + n <= |all| && n <= |buf|
    requires buf[..n] == all[at..at + n]
    ensures Copied(all, out, buf[..n], at + n)
  {
    assert all[..at] + all[at..at + n] == all[..at + n];
  }
}
